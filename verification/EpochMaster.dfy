// The master's side of ctables/shared/shared.c, as its functions run when no reader interrupts them.
// Each method is proved to take the steps of EpochProtocol.

module EpochMaster {
  import opened Cells
  import opened EpochProtocol
  import opened Options

  /** The state when the scan under way has read every slot. */
  ghost function Scanned(s: State): (r: State)
    requires s.master.Scanning?
    ensures r.master.Scanning? && r.master.next >= |r.slots|
    decreases |s.slots| - s.master.next
  {
    if s.master.next < |s.slots| then Scanned(DoScanSlot(s)) else s
  }

  /** write_unlock from start to end, no other process stepping in between. */
  ghost function Unlocked(s: State): State {
    var s1 := DoWriteUnlock(s);
    if s1.master.Idle? then s1
    else if !s1.master.Scanning? then s1
    else
      var s2 := DoFinishScan(Scanned(s1));
      if s2.master.Collecting? then Drained(s2) else s2
  }

  /** shmattachpid from start to end. */
  ghost function Attached(s: State, pid: Pid): State
    requires MasterFree(s)
  {
    var s1 := Do(s, Attach(pid));
    if s1.attaching.Some? then Do(s1, AttachDone) else s1
  }

  // ----- write_unlock is a path of the protocol's events -----

  /** A path from `s` to `t` on which every scan is in the window. */
  ghost predicate Leads(s: State, t: State, states: seq<State>, events: seq<Event>) {
    IsPath(states, events) && states[0] == s && states[|states| - 1] == t &&
      forall i :: 0 <= i < |states| ==> InWindow(states[i])
  }

  lemma NoStep(s: State) returns (states: seq<State>, events: seq<Event>)
    requires InWindow(s)
    ensures Leads(s, s, states, events)
  {
    states, events := [s], [];
  }

  lemma FirstStep(s: State, e: Event, t: State, states: seq<State>, events: seq<Event>)
    requires InWindow(s) && Enabled(s, e) && Leads(Do(s, e), t, states, events)
    ensures Leads(s, t, [s] + states, [e] + events)
  {
    hide Enabled, Do, InWindow;
    var states', events' := [s] + states, [e] + events;
    forall i | 0 <= i < |events'|
      ensures Enabled(states'[i], events'[i]) && states'[i + 1] == Do(states'[i], events'[i])
    {
      if i > 0 {
        assert states'[i] == states[i - 1] && events'[i] == events[i - 1];
      }
    }
  }

  lemma {:induction false} DrainedByEvents(s: State) returns (states: seq<State>, events: seq<Event>)
    requires s.master.Collecting?
    ensures Leads(s, Drained(s), states, events)
    decreases |s.garbage|
  {
    var s' := Do(s, Collect);
    if s'.master.Collecting? {
      states, events := DrainedByEvents(s');
    } else {
      states, events := NoStep(s');
    }
    FirstStep(s, Collect, Drained(s), states, events);
    states, events := [s] + states, [Collect] + events;
  }

  lemma FinishedByEvents(s: State) returns (states: seq<State>, events: seq<Event>)
    requires s.master.Scanning? && s.master.next == |s.slots| && InWindow(s)
    ensures var s2 := DoFinishScan(s); Leads(s, if s2.master.Collecting? then Drained(s2) else s2, states, events)
  {
    var s2 := Do(s, FinishScan);
    if s2.master.Collecting? {
      states, events := DrainedByEvents(s2);
    } else {
      states, events := NoStep(s2);
    }
    FirstStep(s, FinishScan, if s2.master.Collecting? then Drained(s2) else s2, states, events);
    states, events := [s] + states, [FinishScan] + events;
  }

  lemma {:induction false} ScannedByEvents(s: State) returns (states: seq<State>, events: seq<Event>)
    requires s.master.Scanning? && s.master.next <= |s.slots| && InWindow(s)
    ensures var s2 := DoFinishScan(Scanned(s));
      Leads(s, if s2.master.Collecting? then Drained(s2) else s2, states, events)
    decreases |s.slots| - s.master.next
  {
    if s.master.next < |s.slots| {
      states, events := ScannedByEvents(DoScanSlot(s));
      var s2 := DoFinishScan(Scanned(s));
      FirstStep(s, ScanSlot, if s2.master.Collecting? then Drained(s2) else s2, states, events);
      states, events := [s] + states, [ScanSlot] + events;
    } else {
      states, events := FinishedByEvents(s);
    }
  }

  /** No live reader's slot is too far behind for a scan. */
  ghost predicate ReadersNear(s: State) {
    forall i :: 0 <= i < |s.slots| && s.slots[i].pid in s.processes && s.slots[i].cycle != LOST_HORIZON ==>
      s.tick - CollectLine(s.slots[i].tick) <= WINDOW
  }

  lemma UnlockedByEvents(s: State) returns (states: seq<State>, events: seq<Event>)
    requires Enabled(s, WriteUnlock) && ReadersNear(s)
    ensures Leads(s, Unlocked(s), states, events)
  {
    var s1 := Do(s, WriteUnlock);
    if s1.master.Idle? {
      states, events := NoStep(s1);
    } else {
      states, events := ScannedByEvents(s1);
    }
    FirstStep(s, WriteUnlock, Unlocked(s), states, events);
    states, events := [s] + states, [WriteUnlock] + events;
  }

  /** So write_unlock keeps the protocol's invariant and its safety. */
  lemma UnlockedIsSafe(s: State)
    requires Inv(s) && Enabled(s, WriteUnlock) && ReadersNear(s)
    ensures Inv(Unlocked(s)) && Safe(Unlocked(s))
  {
    hide Inv, Enabled, ReadersNear, Unlocked, Safe;
    var states, events := UnlockedByEvents(s);
    PathKeepsInv(states, events, |states| - 1);
    InvIsSafe(Unlocked(s));
  }

  lemma {:induction false} DrainedKeeps(s: State)
    requires s.master.Collecting?
    ensures var d := Drained(s);
      d.slots == s.slots && d.tick == s.tick && d.horizon == s.horizon && d.strike == s.strike && d.master.Idle? &&
      d.processes == s.processes
    ensures Drained(s).deallocated + Blocks(Drained(s).garbage) == s.deallocated + Blocks(s.garbage)
    decreases |s.garbage|
  {
    var s' := DoCollect(s);
    if s'.master.Collecting? {
      DrainedKeeps(s');
      assert Blocks(s.garbage) == [s.garbage[0].block] + Blocks(s.garbage[1..]);
    }
  }

  /** reader_t and garbage_t as the source has them, without history. */
  datatype Reader = Reader(pid: nat, cycle: Cell)
  datatype Entry = Entry(cycle: Cell, memory: Block)

  ghost predicate SameReaders(readers: seq<Reader>, slots: seq<Slot>) {
    |readers| == |slots| && forall i :: 0 <= i < |slots| ==> readers[i] == Reader(slots[i].pid, slots[i].cycle)
  }

  ghost predicate SameQueue(entries: seq<Entry>, garbage: seq<Garbage>) {
    |entries| == |garbage| && forall i :: 0 <= i < |garbage| ==> entries[i] == Entry(garbage[i].cycle, garbage[i].block)
  }

  /** shm_t together with the mapheader_t it points to. */
  class Share {
    var cycle: Cell
    const readers: array<Reader>
    var garbage: seq<Entry>
    var horizon: Cell
    var strike: nat
    ghost var state: State

    /** The fields are those of the protocol state. */
    ghost predicate Valid()
      reads this, readers
    {
      SameReaders(readers[..], state.slots) && cycle == CellOf(state.tick) && SameQueue(garbage, state.garbage) &&
      horizon == state.horizon && strike == state.strike
    }

    /** shminitmap. */
    constructor ()
      ensures Valid() && Initial(state) && fresh(readers)
    {
      readers := new Reader[MAX_SHMEM_READERS](_ => Reader(0, LOST_HORIZON));
      cycle, garbage, horizon, strike := LOST_HORIZON, [], LOST_HORIZON, 0;
      var readers := seq(MAX_SHMEM_READERS, _ => Slot(0, LOST_HORIZON, 0));
      state := State(0, readers, map[], [], LOST_HORIZON, 0, 0, {}, {}, Idle, [], [], None);
    }

    /** write_lock. The cycle is never 0; its answer, an `int`, is 0 once in 2^32 cycles. */
    method WriteLock() returns (r: int)
      requires Valid() && Enabled(state, EpochProtocol.WriteLock)
      modifies this`cycle, this`state
      ensures Valid() && state == Do(old(state), EpochProtocol.WriteLock)
      ensures cycle != LOST_HORIZON && -WINDOW <= r < WINDOW && (cycle - r) % 0x1_0000_0000 == 0
      ensures r == 0 <==> cycle % 0x1_0000_0000 == 0
    {
      hide CellOf, ToInt, SameReaders, SameQueue;
      CellAfter(state.tick);
      CellAfter(state.tick + 1);
      cycle := (cycle + 1) % CELL_LIMIT;
      ghost var n := 1;
      while cycle == LOST_HORIZON
        invariant state == old(state) && cycle == CellOf(state.tick + n)
        invariant n == 1 || (n == 2 && CellOf(state.tick + 1) == LOST_HORIZON)
        decreases 2 - n
      {
        cycle := (cycle + 1) % CELL_LIMIT;
        n := n + 1;
      }
      state := Do(state, EpochProtocol.WriteLock);
      ToIntIs(cycle);
      ZeroAnswers(cycle);
      r := ToInt(cycle);
    }

    method Pid2Reader(pid: nat) returns (r: Option<nat>)
      requires Valid()
      ensures r == FindSlot(state.slots, pid, 0)
    {
      var i := 0;
      while i < readers.Length
        invariant i <= readers.Length
        invariant FindSlot(state.slots, pid, 0) == FindSlot(state.slots, pid, i)
      {
        if readers[i].pid == pid {
          return Some(i);
        }
        i := i + 1;
      }
      return None;
    }

    /** shmattachpid: two stores, unless the pid is 0, has a slot already, or finds none free. */
    method AttachReader(pid: nat) returns (ok: bool)
      requires Valid() && MasterFree(state)
      modifies this`state, readers
      ensures Valid() && state == if pid == 0 then old(state) else Attached(old(state), pid)
      ensures ok <==> pid != 0 && exists i :: 0 <= i < |state.slots| && state.slots[i].pid == pid
    {
      if pid == 0 {
        return false;
      }
      var known := Pid2Reader(pid);
      if known.Some? {
        state := Do(state, Attach(pid));
        return true;
      }
      var free := Pid2Reader(0);
      state := Do(state, Attach(pid));
      if free.None? {
        return false;
      }
      readers[free.value] := Reader(pid, readers[free.value].cycle);
      assert Valid();
      state := Do(state, AttachDone);
      readers[free.value] := Reader(pid, LOST_HORIZON);
      assert state.slots[free.value].pid == pid;
      return true;
    }

    /** shmfree_raw. */
    method ShmFree(block: Block)
      requires Valid() && Enabled(state, Free(block))
      modifies this`garbage, this`state
      ensures Valid() && state == Do(old(state), Free(block))
    {
      garbage := garbage + [Entry(cycle, block)];
      state := Do(state, Free(block));
    }

    /** oldest_reader_cycle: scans every slot and frees those of dead processes. */
    method OldestReaderCycle(live: set<Pid>) returns (newCycle: Cell)
      requires Valid() && state.master == Scanning(0, NOBODY) && live == state.processes.Keys
      modifies this`state, readers
      ensures Valid() && state == Scanned(old(state)) && state.master.Scanning?
      ensures newCycle == state.master.oldest.cycle
    {
      newCycle := LOST_HORIZON;
      var mapCycle, oldestAge := cycle, 0;
      var i := 0;
      while i < readers.Length
        invariant i <= readers.Length && Valid() && state.master.Scanning? && state.master.next == i
        invariant Scanned(state) == Scanned(old(state)) && state.processes.Keys == live
        invariant newCycle == state.master.oldest.cycle && oldestAge == state.master.oldest.age
      {
        if readers[i].pid != 0 {
          if readers[i].pid !in live {
            readers[i] := Reader(0, LOST_HORIZON);
          } else if readers[i].cycle != LOST_HORIZON {
            var age := Age(mapCycle, readers[i].cycle);
            if newCycle == LOST_HORIZON || age >= oldestAge {
              oldestAge, newCycle := age, readers[i].cycle;
            }
          }
        }
        state := DoScanSlot(state);
        i := i + 1;
      }
    }

    /** garbage_collect. */
    method GarbageCollect()
      requires Valid() && state.master == Collecting(CollectLimit(horizon))
      modifies this`garbage, this`state
      ensures Valid() && state == Drained(old(state))
    {
      var limit := CollectLimit(horizon);
      while garbage != [] && Collectible(limit, garbage[0].cycle)
        invariant Valid() && state.master == Collecting(limit) && Drained(state) == Drained(old(state))
      {
        state := DoCollect(state);
        garbage := garbage[1..];
      }
      state := DoCollect(state);
    }

    method WriteUnlock(live: set<Pid>)
      requires Valid() && Enabled(state, EpochProtocol.WriteUnlock) && live == state.processes.Keys
      modifies this, readers
      ensures Valid() && state == Unlocked(old(state))
    {
      strike := strike + 1;
      state := DoWriteUnlock(state);
      if strike < LAZY_GC {
        return;
      }
      strike := 0;
      var newHorizon := OldestReaderCycle(live);
      if newHorizon == LOST_HORIZON {
        newHorizon := cycle;
      }
      var age := Age(newHorizon, horizon);
      state := DoFinishScan(state);
      if age > TWILIGHT_ZONE {
        horizon := newHorizon;
        GarbageCollect();
      }
    }
  }
}
