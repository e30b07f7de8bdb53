// What readers' steps and the master's bookkeeping amount to over whole runs of the epoch protocol
// (ctables/shared/shared.c).

module EpochReaders {
  import opened Cells
  import opened EpochProtocol
  import opened Options

  // ----- slots -----

  /** No two slots carry one pid. */
  ghost predicate PidsOnce(s: State) {
    forall i, j :: 0 <= i < j < |s.slots| && s.slots[i].pid == s.slots[j].pid ==> s.slots[i].pid == 0
  }

  /** A process has found its own slot, which is not one that is still being attached. */
  ghost predicate OwnsSlot(s: State, p: Pid)
    requires p in s.processes
  {
    var q := s.processes[p];
    (!q.section.Outside? ==> q.self.Some?) &&
    (q.self.Some? ==> q.self.value < |s.slots| && s.slots[q.self.value].pid == p && q.self != s.attaching)
  }

  /** Outside a section the slot publishes nothing, inside one it publishes the section's cycle. */
  ghost predicate SlotTells(s: State, p: Pid)
    requires p in s.processes && OwnsSlot(s, p)
  {
    var q := s.processes[p];
    (q.self.Some? && q.section.Outside? ==> s.slots[q.self.value].cycle == LOST_HORIZON) &&
    (q.section.Inside? ==> s.slots[q.self.value].cycle == CellOf(q.section.since))
  }

  ghost predicate ReadersInv(s: State) {
    PidsOnce(s) && (forall p | p in s.processes :: OwnsSlot(s, p) && SlotTells(s, p)) &&
    (s.attaching.Some? ==>
      s.attaching.value < |s.slots| && s.slots[s.attaching.value].pid != 0 && (s.master.Idle? || s.master.Writing?))
  }

  lemma ReaderStepKeepsReaders(s: State, e: Event)
    requires ReadersInv(s) && Enabled(s, e)
    requires e.Start? || e.Die? || e.Load? || e.Store? || e.ReadUnlock?
    ensures ReadersInv(Do(s, e))
  {
    var s' := Do(s, e);
    forall p | p in s'.processes ensures OwnsSlot(s', p) && SlotTells(s', p) {
      if p in s.processes {
        assert OwnsSlot(s, p) && SlotTells(s, p);
      }
      if e.pid in s.processes {
        assert OwnsSlot(s, e.pid) && SlotTells(s, e.pid);
      }
    }
  }

  lemma AttachKeepsReaders(s: State, e: Event)
    requires ReadersInv(s) && Enabled(s, e) && (e.Attach? || e.AttachDone?)
    ensures ReadersInv(Do(s, e))
  {
    var s' := Do(s, e);
    forall p | p in s'.processes ensures OwnsSlot(s', p) && SlotTells(s', p) {
      assert OwnsSlot(s, p) && SlotTells(s, p);
    }
  }

  lemma ScanKeepsReaders(s: State)
    requires ReadersInv(s) && Enabled(s, ScanSlot)
    ensures ReadersInv(Do(s, ScanSlot))
  {
    var s' := Do(s, ScanSlot);
    forall p | p in s'.processes ensures OwnsSlot(s', p) && SlotTells(s', p) {
      assert OwnsSlot(s, p) && SlotTells(s, p);
    }
  }

  /** The master's other steps change no slot, and of sections what they reach. */
  lemma MasterStepKeepsReaders(s: State, e: Event)
    requires ReadersInv(s) && Enabled(s, e)
    requires !e.Start? && !e.Die? && !e.Load? && !e.Store? && !e.ReadUnlock?
    requires !e.Attach? && !e.AttachDone? && !e.ScanSlot?
    ensures ReadersInv(Do(s, e))
  {
    var s' := Do(s, e);
    assert s'.slots == s.slots && s'.attaching == s.attaching;
    forall p | p in s'.processes ensures OwnsSlot(s', p) && SlotTells(s', p) {
      assert OwnsSlot(s, p) && SlotTells(s, p);
    }
  }

  /** In every state of every run readers' slots tell what they are doing. */
  lemma {:induction false} RunKeepsReaders(states: seq<State>, events: seq<Event>, n: nat)
    requires IsRun(states, events) && n < |states|
    ensures ReadersInv(states[n])
  {
    if n > 0 {
      hide ReadersInv, Initial, Enabled, Do;
      RunKeepsReaders(states, events, n - 1);
      var s, e := states[n - 1], events[n - 1];
      if e.Start? || e.Die? || e.Load? || e.Store? || e.ReadUnlock? {
        ReaderStepKeepsReaders(s, e);
      } else if e.Attach? || e.AttachDone? {
        AttachKeepsReaders(s, e);
      } else if e.ScanSlot? {
        ScanKeepsReaders(s);
      } else {
        MasterStepKeepsReaders(s, e);
      }
    }
  }

  /** Where no reader is inside a section or about to be, no slot publishes a cycle that a process has left behind. */
  lemma RunOutsideIsSilent(states: seq<State>, events: seq<Event>, n: nat, p: Pid)
    requires IsRun(states, events) && n < |states| && p in states[n].processes
    requires states[n].processes[p].self.Some? && states[n].processes[p].section.Outside?
    ensures var s := states[n]; var i := s.processes[p].self.value;
      i < |s.slots| && s.slots[i].pid == p && s.slots[i].cycle == LOST_HORIZON
  {
    RunKeepsReaders(states, events, n);
    assert OwnsSlot(states[n], p) && SlotTells(states[n], p);
  }

  /** There are 1024 slots, all of them free at first. */
  lemma {:induction false} RunKeepsSlots(states: seq<State>, events: seq<Event>, n: nat)
    requires IsRun(states, events) && n < |states|
    ensures |states[n].slots| == 1024
    ensures n == 0 ==> forall i :: 0 <= i < 1024 ==> states[0].slots[i].pid == 0 && states[0].slots[i].cycle == 0
  {
    if n > 0 {
      RunKeepsSlots(states, events, n - 1);
      SlotsStay(states[n - 1], events[n - 1]);
    }
  }

  lemma SlotsStay(s: State, e: Event)
    requires Enabled(s, e)
    ensures |Do(s, e).slots| == |s.slots|
  {
  }

  // ----- attaching -----

  /** shmattachpid gives a pid without a slot the first free one, silent, if there is one; no other slot changes. */
  lemma AttachGivesSlot(s: State, p: Pid)
    requires MasterFree(s)
    ensures var s1 := Do(s, Attach(p)); var s2 := if s1.attaching.Some? then Do(s1, AttachDone) else s1;
      MasterFree(s2) && |s2.slots| == |s.slots| &&
      (FindSlot(s2.slots, p, 0).Some? <==> FindSlot(s.slots, p, 0).Some? || FindSlot(s.slots, 0, 0).Some?) &&
      forall i :: 0 <= i < |s.slots| ==>
        s2.slots[i] ==
        if FindSlot(s.slots, p, 0).None? && FindSlot(s.slots, 0, 0) == Some(i) then Slot(p, LOST_HORIZON, 0)
        else s.slots[i]
  {
    var s1 := Do(s, Attach(p));
    if s1.attaching.Some? {
      var i := s1.attaching.value;
      assert Do(s1, AttachDone).slots[i].pid == p;
    } else {
      assert s1.slots == s.slots;
    }
  }

  // ----- sections -----

  /** Processes come by starting and go by dying alone. */
  lemma EventProcesses(s: State, e: Event, p: Pid)
    requires Enabled(s, e)
    ensures p in Do(s, e).processes <==> (p in s.processes && e != Die(p)) || e == Start(p)
  {
  }

  /** A reader with a slot opens a section by load and store; it has the tick of the load, and the slot its cycle. */
  lemma SectionOpens(s: State, p: Pid)
    requires p in s.processes && s.processes[p].section.Outside? && OwnsSlot(s, p) && !BeingAttached(s, p)
    requires s.processes[p].self.Some? || FindSlot(s.slots, p, 0).Some?
    ensures var s1 := Do(s, Load(p));
      p in s1.processes && s1.processes[p].section == Loaded(s.tick) && s1.slots == s.slots &&
      var s2 := Do(s1, Store(p));
      p in s2.processes && s2.processes[p].section == Inside(s.tick, s.linked) && s2.processes[p].self.Some? &&
      var i := s2.processes[p].self.value;
      i < |s2.slots| && s2.slots == s.slots[i := Slot(p, CellOf(s.tick), s.tick)]
  {
  }

  /** A section ends by read_unlock, which leaves its slot silent and every other slot alone. */
  lemma SectionCloses(s: State, p: Pid)
    requires p in s.processes && s.processes[p].section.Inside? && OwnsSlot(s, p)
    ensures var s1 := Do(s, ReadUnlock(p));
      p in s1.processes && s1.processes[p].section.Outside? &&
      var i := s.processes[p].self.value; s1.slots == s.slots[i := Slot(p, LOST_HORIZON, 0)]
  {
  }

  /** No other event opens or closes it. */
  lemma OthersKeepSection(s: State, e: Event, p: Pid)
    requires Enabled(s, e) && p in s.processes && OwnsSlot(s, p)
    requires e != Load(p) && e != Store(p) && e != ReadUnlock(p) && e != Die(p)
    ensures p in Do(s, e).processes
    ensures var was, now := s.processes[p].section, Do(s, e).processes[p].section;
      if was.Inside? then now == Inside(was.since, was.reach + if e.Link? then {e.block} else {}) else now == was
  {
  }

  /** Whatever is linked is within reach of every open section. */
  ghost predicate LinkedIsReached(s: State) {
    forall p | p in s.processes :: s.processes[p].section.Inside? ==> s.linked <= s.processes[p].section.reach
  }

  lemma EventKeepsReach(s: State, e: Event)
    requires LinkedIsReached(s) && Enabled(s, e)
    ensures LinkedIsReached(Do(s, e))
  {
  }

  lemma {:induction false} RunKeepsReach(states: seq<State>, events: seq<Event>, n: nat)
    requires IsRun(states, events) && n < |states|
    ensures LinkedIsReached(states[n])
  {
    if n > 0 {
      hide LinkedIsReached, Enabled, Do;
      RunKeepsReach(states, events, n - 1);
      EventKeepsReach(states[n - 1], events[n - 1]);
    } else {
      assert states[0].processes == map[];
    }
  }

  ghost predicate InsideFrom(states: seq<State>, i: nat, j: nat, p: Pid) {
    i <= j < |states| && forall k :: i <= k <= j ==> p in states[k].processes && states[k].processes[p].section.Inside?
  }

  lemma ReachStays(s: State, e: Event, p: Pid)
    requires Enabled(s, e) && p in s.processes && s.processes[p].section.Inside?
    requires p in Do(s, e).processes && Do(s, e).processes[p].section.Inside?
    ensures s.processes[p].section.reach <= Do(s, e).processes[p].section.reach
  {
  }

  /** A section reaches all that has been linked at any time since it began. */
  lemma {:induction false} ReachesAllSince(states: seq<State>, events: seq<Event>, i: nat, j: nat, p: Pid)
    requires IsRun(states, events) && InsideFrom(states, i, j, p)
    ensures states[i].linked <= states[j].processes[p].section.reach
    decreases j
  {
    hide Do, Initial;
    if i == j {
      RunKeepsReach(states, events, i);
    } else {
      ReachesAllSince(states, events, i, j - 1, p);
      assert Enabled(states[j - 1], events[j - 1]) && states[j - 1 + 1] == Do(states[j - 1], events[j - 1]);
      ReachStays(states[j - 1], events[j - 1], p);
    }
  }

  /** Safety without history: what was linked at any time of a section with a cycle other than 0 is still in use. */
  lemma LinkedWhileOpenIsInUse(states: seq<State>, events: seq<Event>, i: nat, j: nat, p: Pid)
    requires IsRun(states, events) && InsideFrom(states, i, j, p) && states[j].processes[p].section.since > 0
    requires forall k :: 0 <= k < |states| ==> InWindow(states[k])
    ensures states[i].linked <= states[j].inUse
  {
    ReachesAllSince(states, events, i, j, p);
    RunIsSafe(states, events);
    assert Open(states[j], p);
  }

  // ----- blocks -----

  function Frees(events: seq<Event>): seq<Block> {
    if events == [] then []
    else Frees(events[..|events| - 1]) + if events[|events| - 1].Free? then [events[|events| - 1].block] else []
  }

  /** The history of frees is that of the calls. */
  lemma {:induction false} RunFrees(states: seq<State>, events: seq<Event>, n: nat)
    requires IsRun(states, events) && n < |states|
    ensures states[n].freed == Frees(events[..n])
  {
    if n > 0 {
      RunFrees(states, events, n - 1);
      assert events[..n][..n - 1] == events[..n - 1];
      FreedBy(states[n - 1], events[n - 1]);
    }
  }

  lemma FreedBy(s: State, e: Event)
    requires Enabled(s, e)
    ensures Do(s, e).freed == s.freed + if e.Free? then [e.block] else []
  {
  }

  /** What is linked is what was linked last. */
  ghost predicate LinkedBy(events: seq<Event>, b: Block) {
    exists k :: 0 <= k < |events| && events[k] == Link(b) && forall j :: k < j < |events| ==> events[j] != Unlink(b)
  }

  lemma {:induction false} RunLinks(states: seq<State>, events: seq<Event>, n: nat, b: Block)
    requires IsRun(states, events) && n < |states|
    ensures b in states[n].linked <==> LinkedBy(events[..n], b)
  {
    if n > 0 {
      RunLinks(states, events, n - 1, b);
      var s, e := states[n - 1], events[n - 1];
      LinkedAfter(s, e, b);
      OneMoreLink(events[..n - 1], e, b);
      assert events[..n] == events[..n - 1] + [e];
    }
  }

  lemma LinkedAfter(s: State, e: Event, b: Block)
    requires Enabled(s, e)
    ensures b in Do(s, e).linked <==> e == Link(b) || (b in s.linked && e != Unlink(b))
  {
  }

  lemma OneMoreLink(events: seq<Event>, e: Event, b: Block)
    ensures LinkedBy(events + [e], b) <==> e == Link(b) || (LinkedBy(events, b) && e != Unlink(b))
  {
    var more := events + [e];
    if e == Link(b) {
      assert more[|events|] == Link(b);
    }
    if LinkedBy(events, b) && e != Unlink(b) {
      var k :| 0 <= k < |events| && events[k] == Link(b) && forall j :: k < j < |events| ==> events[j] != Unlink(b);
      assert more[k] == Link(b);
    }
    if LinkedBy(more, b) && e != Link(b) {
      var k :| 0 <= k < |more| && more[k] == Link(b) && forall j :: k < j < |more| ==> more[j] != Unlink(b);
      assert more[|events|] == e && events[k] == Link(b);
      assert forall j :: k < j < |events| ==> events[j] == more[j];
    }
  }

  function Allocations(events: seq<Event>): multiset<Block> {
    if events == [] then multiset{}
    else
      Allocations(events[..|events| - 1]) +
      if events[|events| - 1].Allocate? then multiset{events[|events| - 1].block} else multiset{}
  }

  /** Every allocation is accounted for: it is in use or has been deallocated, each as often as it was made. */
  lemma {:induction false} RunAccounts(states: seq<State>, events: seq<Event>, n: nat)
    requires IsRun(states, events) && n < |states| && forall k :: 0 <= k < n ==> InWindow(states[k])
    ensures Allocations(events[..n]) == multiset(states[n].inUse) + multiset(states[n].deallocated)
  {
    if n > 0 {
      hide Inv, Enabled, Do, Initial, InWindow;
      RunAccounts(states, events, n - 1);
      RunKeepsInv(states, events, n - 1);
      assert events[..n][..n - 1] == events[..n - 1];
      EventAccounts(states[n - 1], events[n - 1]);
    }
  }

  lemma EventAccounts(s: State, e: Event)
    requires Inv(s) && Enabled(s, e)
    ensures multiset(Do(s, e).inUse) + multiset(Do(s, e).deallocated) ==
            multiset(s.inUse) + multiset(s.deallocated) + if e.Allocate? then multiset{e.block} else multiset{}
  {
    if e.Collect? && s.garbage != [] {
      assert GarbageInv(s, 0);
    }
  }

  // ----- when write_unlock scans -----

  function Unlocks(events: seq<Event>): nat {
    if events == [] then 0
    else Unlocks(events[..|events| - 1]) + if events[|events| - 1].WriteUnlock? then 1 else 0
  }

  /** Every thousandth write scans, and no other. */
  lemma {:induction false} RunScansEveryThousand(states: seq<State>, events: seq<Event>, n: nat)
    requires IsRun(states, events) && n < |states|
    ensures states[n].strike == Unlocks(events[..n]) % 1000
    ensures n < |events| && events[n] == WriteUnlock ==>
              (states[n + 1].master.Scanning? <==> Unlocks(events[..n + 1]) % 1000 == 0)
  {
    hide Do, Enabled, Unlocks;
    if n == 0 {
      NoUnlocks(events);
    } else {
      RunScansEveryThousand(states, events, n - 1);
      OneMoreUnlock(events, n - 1);
      StrikeMoves(states[n - 1], events[n - 1]);
    }
    if n < |events| {
      OneMoreUnlock(events, n);
      StrikeMoves(states[n], events[n]);
    }
  }

  lemma NoUnlocks(events: seq<Event>)
    ensures Unlocks(events[..0]) == 0
  {
  }

  lemma OneMoreUnlock(events: seq<Event>, n: nat)
    requires n < |events|
    ensures Unlocks(events[..n + 1]) == Unlocks(events[..n]) + if events[n].WriteUnlock? then 1 else 0
  {
    assert events[..n + 1][..n] == events[..n];
  }

  lemma StrikeMoves(s: State, e: Event)
    requires Enabled(s, e) && s.strike < 1000
    ensures Do(s, e).strike == if e.WriteUnlock? then (s.strike + 1) % 1000 else s.strike
    ensures e.WriteUnlock? ==> (Do(s, e).master.Scanning? <==> s.strike == 999)
  {
  }
}
