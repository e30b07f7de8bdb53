// That garbage is reclaimed: what a scan finds, how far the horizon goes, and which blocks write_unlock deallocates
// (ctables/shared/shared.c).

module EpochReclaims {
  import opened Cells
  import opened EpochMaster
  import opened EpochProtocol
  import opened EpochReaders
  import opened Options

  /** A live process's slot publishes a cycle. */
  ghost predicate Published(s: State, i: nat) {
    i < |s.slots| && s.slots[i].pid in s.processes && s.slots[i].cycle != LOST_HORIZON
  }

  /** The cycle that a scan must find: the oldest one published, or the map's when there is none. */
  ghost predicate IsOldest(s: State, t: nat) {
    if exists i: nat :: Published(s, i) then
      (exists i: nat :: Published(s, i) && s.slots[i].tick == t) &&
      forall i: nat :: Published(s, i) ==> t <= s.slots[i].tick
    else t == s.tick
  }

  /** What the slots before number `n` amount to. */
  ghost predicate OldestBefore(s: State, o: Oldest, n: nat) {
    if exists i: nat :: i < n && Published(s, i) then
      o.cycle != LOST_HORIZON && o.cycle == CellOf(o.tick) && o.age == s.tick - o.tick &&
      (exists i: nat :: i < n && Published(s, i) && s.slots[i].tick == o.tick) &&
      forall i: nat :: i < n && Published(s, i) ==> o.tick <= s.slots[i].tick
    else o.cycle == LOST_HORIZON
  }

  /** Slots of dead processes have been freed, the others are as they were. */
  ghost predicate Cleared(s: State, t: State, n: nat) {
    |t.slots| == |s.slots| &&
    forall i :: 0 <= i < |s.slots| ==>
      t.slots[i] ==
      if i < n && s.slots[i].pid != 0 && s.slots[i].pid !in s.processes then Slot(0, LOST_HORIZON, 0) else s.slots[i]
  }

  /** A scan under way of the state `s`. */
  ghost predicate ScanOf(s: State, t: State) {
    t.master.Scanning? && t.master.next <= |s.slots| && Cleared(s, t, t.master.next) &&
    OldestBefore(s, t.master.oldest, t.master.next) &&
    t == s.(master := t.master, slots := t.slots)
  }

  lemma OneMoreSlot(s: State, o: Oldest, n: nat)
    requires OldestBefore(s, o, n) && n < |s.slots| && s.slots[n].pid in s.processes
    requires s.slots[n].cycle == CellOf(s.slots[n].tick) && 0 <= s.tick - s.slots[n].tick < WINDOW
    ensures OldestBefore(s, Older(o, s.slots[n], CellOf(s.tick)), n + 1)
  {
    AgeIsTrue(s.tick, s.slots[n].tick);
    var o' := Older(o, s.slots[n], CellOf(s.tick));
    if Published(s, n) {
      assert n < n + 1 && Published(s, n);
    }
  }

  lemma SilentSlot(s: State, o: Oldest, n: nat)
    requires OldestBefore(s, o, n) && n < |s.slots| && !Published(s, n)
    ensures OldestBefore(s, o, n + 1)
  {
    assert forall i: nat :: i < n + 1 && Published(s, i) ==> i < n;
  }

  lemma ScanGoesOn(s: State, t: State)
    requires ScanOf(s, t) && t.master.next < |s.slots| && Inv(s) && ReadersNear(s)
    ensures ScanOf(s, DoScanSlot(t))
  {
    hide OldestBefore, Older;
    var n, slot := t.master.next, s.slots[t.master.next];
    assert t.slots[n] == slot;
    assert SlotInv(s, n);
    CollectLineIs(slot.tick);
    hide Inv, ReadersNear, CollectLine;
    if slot.pid in s.processes && slot.cycle != LOST_HORIZON {
      OneMoreSlot(s, t.master.oldest, n);
    } else {
      SilentSlot(s, t.master.oldest, n);
      SilentSkipped(t.master.oldest, slot, CellOf(s.tick));
    }
  }

  lemma SilentSkipped(o: Oldest, slot: Slot, mapCycle: Cell)
    ensures slot.cycle == LOST_HORIZON ==> Older(o, slot, mapCycle) == o
  {
  }

  /** An uninterrupted scan finds the oldest cycle published, and frees the slots of dead processes. */
  lemma {:induction false} ScanEnds(s: State, t: State)
    requires ScanOf(s, t) && Inv(s) && ReadersNear(s)
    ensures ScanOf(s, Scanned(t)) && Scanned(t).master.next == |s.slots|
    decreases |s.slots| - t.master.next
  {
    hide Inv, ReadersNear, OldestBefore, Cleared;
    assert |t.slots| == |s.slots| by {
      SameSlots(s, t);
    }
    if t.master.next < |s.slots| {
      ScanGoesOn(s, t);
      ScanEnds(s, DoScanSlot(t));
    }
  }

  lemma SameSlots(s: State, t: State)
    requires ScanOf(s, t)
    ensures |t.slots| == |s.slots|
  {
  }

  /** No live reader's slot is too far behind for the horizon to keep up. */
  ghost predicate ReadersNarrow(s: State) {
    forall i :: 0 <= i < |s.slots| && s.slots[i].pid in s.processes && s.slots[i].cycle != LOST_HORIZON ==>
      s.tick - CollectLine(s.slots[i].tick) <= NARROW_WINDOW
  }

  lemma {:induction false} ScanStaysNear(s: State)
    requires s.master.Scanning? && Inv(s) && NearInv(s) && ReadersNarrow(s)
    ensures Inv(Scanned(s)) && NearInv(Scanned(s)) && ReadersNarrow(Scanned(s))
    decreases |s.slots| - s.master.next
  {
    hide Inv, NearInv, CollectLine;
    if s.master.next < |s.slots| {
      EventKeepsInv(s, ScanSlot);
      EventKeepsNear(s, ScanSlot);
      ScanStaysNear(DoScanSlot(s));
    }
  }

  /** What a scan from start to end finds. */
  lemma ScanFindsOldest(s: State)
    requires s.master == Scanning(0, NOBODY) && Inv(s) && ReadersNear(s)
    ensures var t := Scanned(s);
      IsOldest(s, NewHorizonTick(t)) && Cleared(s, t, |s.slots|) && t == s.(master := t.master, slots := t.slots) &&
      t.master.next == |t.slots|
  {
    hide Inv, ReadersNear;
    ScanEnds(s, s);
    var o := Scanned(s).master.oldest;
    if i: nat :| Published(s, i) {
      assert i < |s.slots|;
    }
  }

  /** The end of a scan: the horizon moves to what was found if that gains more than the twilight zone. */
  lemma FinishMoves(s: State)
    requires Inv(s) && NearInv(s) && Enabled(s, FinishScan)
    ensures var t, n := Do(s, FinishScan), NewHorizonTick(s);
      t.garbage == s.garbage && t.horizonTick == (if n > s.horizonTick + 64 then n else s.horizonTick) &&
      (t.master.Collecting? <==> n > s.horizonTick + 64) && (!t.master.Collecting? ==> t.master.Idle?)
  {
    NearHorizon(s);
    AgeIsTrue(NewHorizonTick(s), s.horizonTick);
  }

  /** A collection from start to end takes exactly the blocks freed before its cutoff. */
  lemma CollectsAll(s: State)
    requires Inv(s) && NearInv(s) && s.master.Collecting?
    ensures TakenBefore(s.garbage, Drained(s).garbage, CollectLine(s.horizonTick))
  {
    hide Inv, NearInv, NearLine, CollectLine, CollectLimit;
    NearCutoff(s);
    DrainedIsUncollected(s);
    CollectionIsMaximalPrefix(s.garbage, s.horizonTick, |s.garbage| - |Uncollected(s.garbage, s.master.limit)|);
  }

  /** What is left is what was freed at or after `line`; the rest was in front of it. */
  ghost predicate TakenBefore(garbage: seq<Garbage>, left: seq<Garbage>, line: int) {
    |left| <= |garbage| && left == garbage[|garbage| - |left|..] &&
    forall k :: 0 <= k < |garbage| ==> (k < |garbage| - |left| <==> garbage[k].tick < line)
  }

  /**
   * The thousandth write_unlock moves the horizon to the oldest cycle that a live process publishes, or to the map's
   * when none does, if that gains more than 64, and then deallocates every block freed before its cutoff, and no other.
   */
  lemma UnlockReclaims(s: State, oldest: nat)
    requires Inv(s) && NearInv(s) && ReadersNarrow(s) && Enabled(s, WriteUnlock) && s.strike == 999
    requires IsOldest(s, oldest)
    ensures if oldest > s.horizonTick + 64 then
              Unlocked(s).horizonTick == oldest && TakenBefore(s.garbage, Unlocked(s).garbage, CollectLine(oldest))
            else Unlocked(s).horizonTick == s.horizonTick && Unlocked(s).garbage == s.garbage
  {
    var s1 := Do(s, WriteUnlock);
    assert s1 == s.(strike := 0, master := Scanning(0, NOBODY));
    SameOldest(s, s1, oldest);
    EventKeepsInv(s, WriteUnlock);
    EventKeepsNear(s, WriteUnlock);
    hide Inv, NearInv, IsOldest, CollectLine, Cleared;
    NarrowIsNear(s1);
    ScanFindsOldest(s1);
    ScanStaysNear(s1);
    var s2 := Scanned(s1);
    OnlyOldest(s1, oldest, NewHorizonTick(s2));
    NarrowIsNear(s2);
    FinishMoves(s2);
    var s3 := Do(s2, FinishScan);
    if s3.master.Collecting? {
      EventKeepsInv(s2, FinishScan);
      EventKeepsNear(s2, FinishScan);
      CollectsAll(s3);
      DrainedKeepsHorizon(s3);
    }
  }

  lemma NarrowIsNear(s: State)
    requires ReadersNarrow(s)
    ensures ReadersNear(s) && InNarrowWindow(s) && InWindow(s)
  {
  }

  lemma SameOldest(s: State, t: State, n: nat)
    requires t.slots == s.slots && t.processes == s.processes && t.tick == s.tick && IsOldest(s, n)
    ensures IsOldest(t, n)
  {
    assert forall i: nat :: Published(s, i) <==> Published(t, i);
  }

  lemma OnlyOldest(s: State, m: nat, n: nat)
    requires IsOldest(s, m) && IsOldest(s, n)
    ensures m == n
  {
  }

  lemma {:induction false} DrainedKeepsHorizon(s: State)
    requires s.master.Collecting?
    ensures Drained(s).horizonTick == s.horizonTick
    decreases |s.garbage|
  {
    if DoCollect(s).master.Collecting? {
      DrainedKeepsHorizon(DoCollect(s));
    }
  }

  /** It also frees the slots of dead processes, so that others can attach. */
  lemma UnlockClears(s: State)
    requires Inv(s) && ReadersNear(s) && Enabled(s, WriteUnlock) && s.strike == 999
    ensures Cleared(s, Unlocked(s), |s.slots|)
  {
    var s1 := Do(s, WriteUnlock);
    assert s1 == s.(strike := 0, master := Scanning(0, NOBODY));
    EventKeepsInv(s, WriteUnlock);
    assert ReadersNear(s1);
    hide Inv, ReadersNear, IsOldest;
    ScanFindsOldest(s1);
    var s3 := DoFinishScan(Scanned(s1));
    if s3.master.Collecting? {
      DrainedKeeps(s3);
    }
  }

  // ----- over runs -----

  /** So it is in every state of a run whose scans are in the narrow window. */
  lemma RunReclaims(states: seq<State>, events: seq<Event>, n: nat, oldest: nat)
    requires IsRun(states, events) && n < |states| && forall k :: 0 <= k < n ==> InNarrowWindow(states[k])
    requires Enabled(states[n], WriteUnlock) && states[n].strike == 999 && ReadersNarrow(states[n])
    requires IsOldest(states[n], oldest) && oldest > states[n].horizonTick + 64
    ensures Unlocked(states[n]).horizonTick == oldest
    ensures TakenBefore(states[n].garbage, Unlocked(states[n]).garbage, CollectLine(oldest))
  {
    RunKeepsInv(states, events, n);
    RunStaysNear(states, events, n);
    hide Inv, NearInv, IsOldest;
    UnlockReclaims(states[n], oldest);
  }

  /** No process is inside a section or about to be, and each has read before or has no slot. */
  ghost predicate Quiet(s: State) {
    forall p | p in s.processes ::
      s.processes[p].section.Outside? && (s.processes[p].self.Some? || FindSlot(s.slots, p, 0).None?)
  }

  lemma QuietIsSilent(s: State)
    requires ReadersInv(s) && Quiet(s)
    ensures ReadersNarrow(s) && IsOldest(s, s.tick)
  {
    forall i: nat | i < |s.slots| && s.slots[i].pid in s.processes ensures s.slots[i].cycle == LOST_HORIZON {
      var p := s.slots[i].pid;
      assert OwnsSlot(s, p) && SlotTells(s, p);
      assert s.processes[p].self == Some(i);
    }
  }

  /** With no reader at work all garbage goes that was freed more than 64 cycles ago. */
  lemma QuietRunReclaimsAll(states: seq<State>, events: seq<Event>, n: nat)
    requires IsRun(states, events) && n < |states| && forall k :: 0 <= k < n ==> InNarrowWindow(states[k])
    requires Enabled(states[n], WriteUnlock) && states[n].strike == 999 && Quiet(states[n])
    requires states[n].tick > states[n].horizonTick + 64
    ensures var s, t := states[n], Unlocked(states[n]);
      t.horizonTick == s.tick && TakenBefore(s.garbage, t.garbage, CollectLine(s.tick))
  {
    RunKeepsReaders(states, events, n);
    QuietIsSilent(states[n]);
    RunReclaims(states, events, n, states[n].tick);
  }

  /**
   * A process that died inside a section leaves its cycle in its slot. Should another be given its pid before the next
   * scan, that slot counts as a live reader's until the new process reads: the garbage behind it stays.
   */
  lemma ReusedPidHoldsBack() returns (states: seq<State>, events: seq<Event>)
    ensures IsRun(states, events) && forall i :: 0 <= i < |states| ==> InWindow(states[i])
    ensures var s := states[|states| - 1];
      s.processes == map[1 := Process(None, Outside)] && s.tick == 2 && IsOldest(s, 1)
  {
    states, events := ZeroCycleAttach();
    states, events := Extend(states, events, WriteLock);
    states, events := Extend(states, events, Load(1));
    states, events := Extend(states, events, Store(1));
    states, events := Extend(states, events, Die(1));
    states, events := Extend(states, events, Start(1));
    states, events := Extend(states, events, WriteUnlock);
    states, events := Extend(states, events, WriteLock);
    var s := states[|states| - 1];
    assert s.processes == map[1 := Process(None, Outside)];
    assert Published(s, 0) && s.slots[0].tick == 1;
    assert forall i: nat :: i < |s.slots| && i != 0 ==> !Published(s, i);
  }
}
