// The reader/writer protocol of ctables/shared/shared.c as interleaved steps over abstract blocks.
//
// `tick` fields are history: the source keeps only the cycle, which is always the tick modulo 2^64.
// A reader's section records every block it can have reached: those linked when it published its
// cycle and those linked since.

module EpochProtocol {
  import opened Cells
  import opened Options

  const MAX_SHMEM_READERS: nat := 1024
  const LAZY_GC: nat := 1000

  type Block = nat
  type Pid = p: nat | 0 < p witness 1

  /** reader_t. A zero pid marks a free slot. */
  datatype Slot = Slot(pid: nat, cycle: Cell, tick: nat)

  /** garbage_t. */
  datatype Garbage = Garbage(cycle: Cell, tick: nat, block: Block)

  /** read_lock is a load of the map's cycle followed by a store to the reader's slot. */
  datatype Section = Outside | Loaded(tick: nat) | Inside(since: nat, reach: set<Block>)

  datatype Process = Process(self: Option<nat>, section: Section)

  /** Running result of oldest_reader_cycle. */
  datatype Oldest = Oldest(cycle: Cell, age: int, tick: nat)

  datatype Master = Idle | Writing | Scanning(next: nat, oldest: Oldest) | Collecting(limit: Cell)

  datatype State = State(
    tick: nat,
    slots: seq<Slot>,
    processes: map<Pid, Process>,
    garbage: seq<Garbage>,
    horizon: Cell,
    horizonTick: nat,
    strike: nat,
    linked: set<Block>,
    inUse: set<Block>,
    master: Master,
    freed: seq<Block>,
    deallocated: seq<Block>,
    attaching: Option<nat>)

  datatype Event =
    | Start(pid: Pid)
    | Die(pid: Pid)
    | Load(pid: Pid)
    | Store(pid: Pid)
    | ReadUnlock(pid: Pid)
    | Attach(pid: Pid)
    | AttachDone
    | WriteLock
    | Allocate(block: Block)
    | Link(block: Block)
    | Unlink(block: Block)
    | Free(block: Block)
    | WriteUnlock
    | ScanSlot
    | FinishScan
    | Collect

  /** pid2reader: the first slot that carries the pid. */
  function FindSlot(slots: seq<Slot>, pid: nat, from: nat): (r: Option<nat>)
    requires from <= |slots|
    ensures r.Some? ==> from <= r.value < |slots| && slots[r.value].pid == pid
    ensures r.Some? ==> forall i :: from <= i < r.value ==> slots[i].pid != pid
    ensures r.None? ==> forall i :: from <= i < |slots| ==> slots[i].pid != pid
    decreases |slots| - from
  {
    if from == |slots| then None
    else if slots[from].pid == pid then Some(from)
    else FindSlot(slots, pid, from + 1)
  }

  /** One pass of the loop in oldest_reader_cycle, for a slot with a live pid. */
  function Older(oldest: Oldest, slot: Slot, mapCycle: Cell): Oldest {
    if slot.cycle == LOST_HORIZON then oldest
    else
      var age := Age(mapCycle, slot.cycle);
      if oldest.cycle == LOST_HORIZON || age >= oldest.age then Oldest(slot.cycle, age, slot.tick) else oldest
  }

  const NOBODY := Oldest(LOST_HORIZON, 0, 0)

  ghost predicate Queued(s: State, b: Block) {
    exists k :: 0 <= k < |s.garbage| && s.garbage[k].block == b
  }

  ghost predicate Initial(s: State) {
    s.tick == 0 && |s.slots| == MAX_SHMEM_READERS && s.processes == map[] && s.garbage == [] &&
    (forall i :: 0 <= i < |s.slots| ==> s.slots[i] == Slot(0, LOST_HORIZON, 0)) &&
    s.horizon == LOST_HORIZON && s.horizonTick == 0 && s.strike == 0 && s.linked == {} && s.inUse == {} &&
    s.master == Idle && s.freed == [] && s.deallocated == [] && s.attaching == None
  }

  /** The master is between the two stores of shmattachpid, and this is the pid it stored. */
  ghost predicate BeingAttached(s: State, p: Pid) {
    s.attaching.Some? && s.attaching.value < |s.slots| && s.slots[s.attaching.value].pid == p
  }

  /** Inside or outside a write, the master's next step is its program's to choose. */
  ghost predicate MasterFree(s: State) {
    (s.master.Idle? || s.master.Writing?) && s.attaching.None?
  }

  /**
    * When an event can happen. The clauses on Link, Free and WriteUnlock are the master program's duties. A
    * reader waits with its first read_lock until shmattachpid has answered for it.
    */
  ghost predicate Enabled(s: State, e: Event) {
    match e
    case Start(p) => p !in s.processes
    case Die(p) => p in s.processes
    case Load(p) => p in s.processes && s.processes[p].section.Outside? && !BeingAttached(s, p)
    case Store(p) => p in s.processes && s.processes[p].section.Loaded?
    case ReadUnlock(p) => p in s.processes && s.processes[p].section.Inside?
    case Attach(p) => MasterFree(s)
    case AttachDone => s.attaching.Some?
    case WriteLock => s.master.Idle? && MasterFree(s)
    case Allocate(b) => s.master.Writing? && MasterFree(s) && b !in s.inUse
    case Link(b) => s.master.Writing? && MasterFree(s) && b in s.inUse && !Queued(s, b)
    case Unlink(b) => s.master.Writing? && MasterFree(s)
    case Free(b) => s.master.Writing? && MasterFree(s) && b in s.inUse && !Queued(s, b)
    case WriteUnlock => s.master.Writing? && MasterFree(s) && forall b :: b in s.linked ==> !Queued(s, b)
    case ScanSlot => s.master.Scanning? && s.master.next < |s.slots|
    case FinishScan => s.master.Scanning? && s.master.next == |s.slots|
    case Collect => s.master.Collecting?
  }

  function WithSection(s: State, p: Pid, self: Option<nat>, section: Section): State {
    s.(processes := s.processes[p := Process(self, section)])
  }

  /** Blocks linked now are within reach of every open section. */
  function ReachMore(s: State, b: Block): map<Pid, Process> {
    map p | p in s.processes ::
      var q := s.processes[p];
      if q.section.Inside? then Process(q.self, Inside(q.section.since, q.section.reach + {b})) else q
  }

  function DoLoad(s: State, p: Pid): State
    requires p in s.processes
  {
    var q := s.processes[p];
    var self := if q.self.Some? then q.self else FindSlot(s.slots, p, 0);
    if self.None? then s else WithSection(s, p, self, Loaded(s.tick))
  }

  function DoStore(s: State, p: Pid): State
    requires p in s.processes && s.processes[p].section.Loaded?
  {
    var q := s.processes[p];
    if q.self.None? || q.self.value >= |s.slots| then s
    else
      var i, t := q.self.value, q.section.tick;
      WithSection(s, p, q.self, Inside(t, s.linked)).(slots := s.slots[i := Slot(s.slots[i].pid, CellOf(t), t)])
  }

  function DoReadUnlock(s: State, p: Pid): State
    requires p in s.processes
  {
    var q := s.processes[p];
    if q.self.None? || q.self.value >= |s.slots| then s
    else
      var i := q.self.value;
      WithSection(s, p, q.self, Outside).(slots := s.slots[i := Slot(s.slots[i].pid, LOST_HORIZON, 0)])
  }

  /** shmattachpid up to its store of the pid, which it makes when the pid has no slot and one is free. */
  function DoAttach(s: State, p: Pid): State {
    var free := FindSlot(s.slots, 0, 0);
    if FindSlot(s.slots, p, 0).Some? || free.None? then s
    else s.(slots := s.slots[free.value := s.slots[free.value].(pid := p)], attaching := free)
  }

  /** Its store of the cycle. */
  function DoAttachDone(s: State): State
    requires s.attaching.Some?
  {
    var i := s.attaching.value;
    if i < |s.slots| then s.(slots := s.slots[i := Slot(s.slots[i].pid, LOST_HORIZON, 0)], attaching := None)
    else s.(attaching := None)
  }

  function DoWriteUnlock(s: State): State {
    if s.strike + 1 < LAZY_GC then s.(strike := s.strike + 1, master := Idle)
    else s.(strike := 0, master := Scanning(0, NOBODY))
  }

  function DoScanSlot(s: State): State
    requires s.master.Scanning? && s.master.next < |s.slots|
  {
    var i, slot := s.master.next, s.slots[s.master.next];
    if slot.pid == 0 then s.(master := Scanning(i + 1, s.master.oldest))
    else if slot.pid !in s.processes then
      s.(slots := s.slots[i := Slot(0, LOST_HORIZON, 0)], master := Scanning(i + 1, s.master.oldest))
    else s.(master := Scanning(i + 1, Older(s.master.oldest, slot, CellOf(s.tick))))
  }

  function NewHorizonTick(s: State): nat
    requires s.master.Scanning?
  {
    if s.master.oldest.cycle == LOST_HORIZON then s.tick else s.master.oldest.tick
  }

  function DoFinishScan(s: State): State
    requires s.master.Scanning?
  {
    var horizon := if s.master.oldest.cycle == LOST_HORIZON then CellOf(s.tick) else s.master.oldest.cycle;
    if Age(horizon, s.horizon) > TWILIGHT_ZONE then
      s.(horizon := horizon, horizonTick := NewHorizonTick(s), master := Collecting(CollectLimit(horizon)))
    else s.(master := Idle)
  }

  function DoCollect(s: State): State
    requires s.master.Collecting?
  {
    if s.garbage != [] && Collectible(s.master.limit, s.garbage[0].cycle) then
      s.(inUse := s.inUse - {s.garbage[0].block},
         deallocated := s.deallocated + [s.garbage[0].block],
         garbage := s.garbage[1..])
    else s.(master := Idle)
  }

  /** The state after an event. */
  function Do(s: State, e: Event): State
    requires Enabled(s, e)
  {
    match e
    case Start(p) => WithSection(s, p, None, Outside)
    case Die(p) => s.(processes := s.processes - {p})
    case Load(p) => DoLoad(s, p)
    case Store(p) => DoStore(s, p)
    case ReadUnlock(p) => DoReadUnlock(s, p)
    case Attach(p) => DoAttach(s, p)
    case AttachDone => DoAttachDone(s)
    case WriteLock => s.(tick := NextTick(s.tick), master := Writing)
    case Allocate(b) => s.(inUse := s.inUse + {b})
    case Link(b) => s.(linked := s.linked + {b}, processes := ReachMore(s, b))
    case Unlink(b) => s.(linked := s.linked - {b})
    case Free(b) => s.(garbage := s.garbage + [Garbage(CellOf(s.tick), s.tick, b)], freed := s.freed + [b])
    case WriteUnlock => DoWriteUnlock(s)
    case ScanSlot => DoScanSlot(s)
    case FinishScan => DoFinishScan(s)
    case Collect => DoCollect(s)
  }

  // ----- what is claimed -----

  /** A section that read_lock opened with a cycle other than 0. */
  ghost predicate Open(s: State, p: Pid) {
    p in s.processes && s.processes[p].section.Inside? && s.processes[p].section.since > 0
  }

  ghost function Reach(s: State, p: Pid): set<Block>
    requires Open(s, p)
  {
    s.processes[p].section.reach
  }

  /** No live reader can still reach a deallocated block. */
  ghost predicate Safe(s: State) {
    forall p :: Open(s, p) ==> Reach(s, p) <= s.inUse
  }

  /** While the master scans, no live reader's slot lags too far behind for `int` arithmetic. */
  ghost predicate InWindow(s: State) {
    s.master.Scanning? ==>
      forall i :: 0 <= i < |s.slots| && s.slots[i].pid in s.processes && s.slots[i].cycle != LOST_HORIZON ==>
        s.tick - CollectLine(s.slots[i].tick) <= WINDOW
  }

  // ----- the invariant -----

  ghost predicate TickInv(s: State) {
    s.tick > 0 ==> CellOf(s.tick) != LOST_HORIZON
  }

  ghost predicate SlotInv(s: State, i: nat)
    requires i < |s.slots|
  {
    var slot := s.slots[i];
    slot.cycle == CellOf(slot.tick) && slot.tick <= s.tick && (slot.tick > 0 ==> slot.cycle != LOST_HORIZON)
  }

  /** A process owns the slot it found; an open or opening section carries a past tick. */
  ghost predicate ProcessInv(s: State, p: Pid)
    requires p in s.processes
  {
    var q := s.processes[p];
    (q.self.Some? ==> q.self.value < |s.slots| && s.slots[q.self.value].pid == p) &&
    (!q.section.Outside? ==> q.self.Some?) &&
    (q.section.Loaded? ==>
      q.section.tick <= s.tick && (q.section.tick > 0 ==> CellOf(q.section.tick) != LOST_HORIZON)) &&
    (q.section.Inside? ==> s.slots[q.self.value].tick == q.section.since)
  }

  ghost predicate GarbageInv(s: State, k: nat)
    requires k < |s.garbage|
  {
    var g := s.garbage[k];
    g.cycle == CellOf(g.tick) != LOST_HORIZON && 0 < g.tick <= s.tick && g.block in s.inUse &&
    (g.block in s.linked ==> s.master.Writing? && g.tick == s.tick)
  }

  ghost predicate QueueInv(s: State) {
    (forall k :: 0 <= k < |s.garbage| ==> GarbageInv(s, k)) &&
    (forall j, k :: 0 <= j < k < |s.garbage| ==>
      s.garbage[j].tick <= s.garbage[k].tick && s.garbage[j].block != s.garbage[k].block)
  }

  /** A queued block within a section's reach was freed no earlier than the section's cycle. */
  ghost predicate ReachInv(s: State, p: Pid)
    requires Open(s, p)
  {
    Reach(s, p) <= s.inUse &&
    forall k :: 0 <= k < |s.garbage| && s.garbage[k].block in Reach(s, p) ==>
        s.processes[p].section.since <= s.garbage[k].tick
  }

  /** A section reaches no queued block. */
  ghost predicate Clear(s: State, p: Pid)
    requires Open(s, p)
  {
    forall k :: 0 <= k < |s.garbage| ==> s.garbage[k].block !in Reach(s, p)
  }

  ghost predicate OldestInv(s: State, o: Oldest) {
    o.cycle != LOST_HORIZON ==>
      o.cycle == CellOf(o.tick) && o.tick <= s.tick && s.tick - CollectLine(o.tick) <= WINDOW &&
        o.age == s.tick - o.tick
  }

  /** What the scan has established for the slots behind it. */
  ghost predicate ScanInv(s: State) {
    s.master.Scanning? ==>
      s.master.next <= |s.slots| && OldestInv(s, s.master.oldest) &&
      forall p :: Open(s, p) && s.processes[p].self.Some? && s.processes[p].self.value < s.master.next ==>
        Clear(s, p) || (s.master.oldest.cycle != LOST_HORIZON && s.master.oldest.tick <= s.processes[p].section.since)
  }

  /** What the collection may rely on: no block within reach passes its test. */
  ghost predicate CollectInv(s: State) {
    s.master.Collecting? ==>
      forall p, k :: Open(s, p) && 0 <= k < |s.garbage| && s.garbage[k].block in Reach(s, p) ==>
        !Collectible(s.master.limit, s.garbage[k].cycle)
  }

  /** The slot being attached is nobody's yet. */
  ghost predicate AttachInv(s: State) {
    s.attaching.Some? ==>
      s.attaching.value < |s.slots| && (s.master.Idle? || s.master.Writing?) &&
      forall p :: p in s.processes ==> s.processes[p].self != s.attaching
  }

  ghost predicate Inv(s: State) {
    TickInv(s) && (forall i :: 0 <= i < |s.slots| ==> SlotInv(s, i)) &&
    (forall p | p in s.processes :: ProcessInv(s, p)) &&
    QueueInv(s) && s.linked <= s.inUse &&
    (forall p :: Open(s, p) ==> ReachInv(s, p)) &&
    (!s.master.Idle? ==> s.tick > 0) &&
    ScanInv(s) && CollectInv(s) && AttachInv(s)
  }

  lemma InvIsSafe(s: State)
    requires Inv(s)
    ensures Safe(s)
  {
    forall p | Open(s, p) ensures Reach(s, p) <= s.inUse {
      assert ReachInv(s, p);
    }
  }

  lemma InitialInv(s: State)
    requires Initial(s)
    ensures Inv(s)
  {
  }

  // ----- each event keeps it -----

  lemma ReaderComesOrGoes(s: State, e: Event)
    requires Inv(s) && (e.Start? || e.Die?) && Enabled(s, e)
    ensures Inv(Do(s, e))
  {
    var s' := Do(s, e);
    forall p | p in s'.processes ensures ProcessInv(s', p) {
      assert (e.Start? && e.pid == p) || ProcessInv(s, p);
    }
    forall p | Open(s', p) ensures ReachInv(s', p) {
      assert Open(s, p) && ReachInv(s, p);
    }
    forall i | 0 <= i < |s'.slots| ensures SlotInv(s', i) { assert SlotInv(s, i); }
    forall k | 0 <= k < |s'.garbage| ensures GarbageInv(s', k) { assert GarbageInv(s, k); }
    forall p | Open(s', p) && Open(s, p) && Clear(s, p) ensures Clear(s', p) {}
  }

  /** Neither store of shmattachpid touches a slot that a process uses. */
  lemma AttachKeepsInv(s: State, e: Event)
    requires Inv(s) && (e.Attach? || e.AttachDone?) && Enabled(s, e)
    ensures Inv(Do(s, e))
  {
    var s' := Do(s, e);
    forall p | p in s'.processes ensures ProcessInv(s', p) { assert ProcessInv(s, p); }
    forall p | Open(s', p) ensures ReachInv(s', p) { assert Open(s, p) && ReachInv(s, p); }
    forall i | 0 <= i < |s'.slots| ensures SlotInv(s', i) { assert SlotInv(s, i); }
    forall k | 0 <= k < |s'.garbage| ensures GarbageInv(s', k) { assert GarbageInv(s, k); }
  }

  lemma LoadKeepsInv(s: State, p: Pid)
    requires Inv(s) && Enabled(s, Load(p))
    ensures Inv(Do(s, Load(p)))
  {
    var s' := Do(s, Load(p));
    assert ProcessInv(s, p);
    forall q | q in s'.processes ensures ProcessInv(s', q) { assert q == p || ProcessInv(s, q); }
    forall q | Open(s', q) ensures ReachInv(s', q) { assert Open(s, q) && ReachInv(s, q); }
    forall i | 0 <= i < |s'.slots| ensures SlotInv(s', i) { assert SlotInv(s, i); }
    forall k | 0 <= k < |s'.garbage| ensures GarbageInv(s', k) { assert GarbageInv(s, k); }
    forall q | Open(s', q) && Open(s, q) && Clear(s, q) ensures Clear(s', q) {}
  }

  /** A section that opens outside a write reaches nothing queued; within a write, only what that write has freed. */
  lemma StoreKeepsInv(s: State, p: Pid)
    requires Inv(s) && Enabled(s, Store(p))
    ensures Inv(Do(s, Store(p)))
  {
    var s' := Do(s, Store(p));
    assert ProcessInv(s, p);
    forall q | q in s'.processes ensures ProcessInv(s', q) { assert ProcessInv(s, q); }
    forall k | 0 <= k < |s'.garbage| ensures GarbageInv(s', k) { assert GarbageInv(s, k); }
    forall q | Open(s', q) ensures ReachInv(s', q) {
      if q == p {
        forall k | 0 <= k < |s'.garbage| && s'.garbage[k].block in Reach(s', p)
          ensures s'.processes[p].section.since <= s'.garbage[k].tick
        {
          assert GarbageInv(s, k);
        }
      } else {
        assert Open(s, q) && ReachInv(s, q);
      }
    }
    forall i | 0 <= i < |s'.slots| ensures SlotInv(s', i) { assert SlotInv(s, i); }
    if !s.master.Writing? && Open(s', p) {
      forall k | 0 <= k < |s'.garbage| ensures s'.garbage[k].block !in Reach(s', p) { assert GarbageInv(s, k); }
      assert Clear(s', p);
    }
    forall q | Open(s', q) && Open(s, q) && q != p && Clear(s, q) ensures Clear(s', q) {}
  }

  lemma ReadUnlockKeepsInv(s: State, p: Pid)
    requires Inv(s) && Enabled(s, ReadUnlock(p))
    ensures Inv(Do(s, ReadUnlock(p)))
  {
    var s' := Do(s, ReadUnlock(p));
    assert ProcessInv(s, p);
    forall q | q in s'.processes ensures ProcessInv(s', q) { assert ProcessInv(s, q); }
    forall q | Open(s', q) ensures ReachInv(s', q) { assert Open(s, q) && ReachInv(s, q); }
    forall i | 0 <= i < |s'.slots| ensures SlotInv(s', i) { assert SlotInv(s, i); }
    forall k | 0 <= k < |s'.garbage| ensures GarbageInv(s', k) { assert GarbageInv(s, k); }
    forall q | Open(s', q) && Open(s, q) && Clear(s, q) ensures Clear(s', q) {}
  }

  lemma WriteLockKeepsInv(s: State)
    requires Inv(s) && Enabled(s, WriteLock)
    ensures Inv(Do(s, WriteLock))
  {
    var s' := Do(s, WriteLock);
    forall q | q in s'.processes ensures ProcessInv(s', q) { assert ProcessInv(s, q); }
    forall q | Open(s', q) ensures ReachInv(s', q) { assert Open(s, q) && ReachInv(s, q); }
    forall i | 0 <= i < |s'.slots| ensures SlotInv(s', i) { assert SlotInv(s, i); }
    forall k | 0 <= k < |s'.garbage| ensures GarbageInv(s', k) { assert GarbageInv(s, k); }
  }

  lemma WriteKeepsInv(s: State, e: Event)
    requires Inv(s) && Enabled(s, e) && (e.Allocate? || e.Unlink?)
    ensures Inv(Do(s, e))
  {
    var s' := Do(s, e);
    forall q | q in s'.processes ensures ProcessInv(s', q) { assert ProcessInv(s, q); }
    forall q | Open(s', q) ensures ReachInv(s', q) { assert Open(s, q) && ReachInv(s, q); }
    forall i | 0 <= i < |s'.slots| ensures SlotInv(s', i) { assert SlotInv(s, i); }
    forall k | 0 <= k < |s'.garbage| ensures GarbageInv(s', k) { assert GarbageInv(s, k); }
  }

  lemma LinkKeepsInv(s: State, b: Block)
    requires Inv(s) && Enabled(s, Link(b))
    ensures Inv(Do(s, Link(b)))
  {
    var s' := Do(s, Link(b));
    forall q | q in s'.processes ensures ProcessInv(s', q) { assert ProcessInv(s, q); }
    forall k | 0 <= k < |s'.garbage| ensures s'.garbage[k].block != b && GarbageInv(s', k) { assert GarbageInv(s, k); }
    forall q | Open(s', q) ensures ReachInv(s', q) {
      assert Open(s, q) && ReachInv(s, q);
    }
    forall i | 0 <= i < |s'.slots| ensures SlotInv(s', i) { assert SlotInv(s, i); }
  }

  lemma FreeKeepsInv(s: State, b: Block)
    requires Inv(s) && Enabled(s, Free(b))
    ensures Inv(Do(s, Free(b)))
  {
    var s' := Do(s, Free(b));
    forall q | q in s'.processes ensures ProcessInv(s', q) { assert ProcessInv(s, q); }
    forall k | 0 <= k < |s'.garbage| ensures GarbageInv(s', k) {
      if k < |s.garbage| { assert GarbageInv(s, k) && s'.garbage[k] == s.garbage[k]; }
    }
    forall q | Open(s', q) ensures ReachInv(s', q) {
      assert Open(s, q) && ReachInv(s, q) && ProcessInv(s, q);
      var i := s.processes[q].self.value;
      assert SlotInv(s, i);
      forall k | 0 <= k < |s'.garbage| && s'.garbage[k].block in Reach(s', q)
        ensures s'.processes[q].section.since <= s'.garbage[k].tick
      {
        if k < |s.garbage| { assert s'.garbage[k] == s.garbage[k]; }
      }
    }
    forall i | 0 <= i < |s'.slots| ensures SlotInv(s', i) { assert SlotInv(s, i); }
    forall j, k | 0 <= j < k < |s'.garbage|
      ensures s'.garbage[j].tick <= s'.garbage[k].tick && s'.garbage[j].block != s'.garbage[k].block
    {
      assert GarbageInv(s, j) && s'.garbage[j] == s.garbage[j];
      if k < |s.garbage| { assert s'.garbage[k] == s.garbage[k]; }
    }
  }

  lemma WriteUnlockKeepsInv(s: State)
    requires Inv(s) && Enabled(s, WriteUnlock)
    ensures Inv(Do(s, WriteUnlock))
  {
    var s' := Do(s, WriteUnlock);
    forall q | q in s'.processes ensures ProcessInv(s', q) { assert ProcessInv(s, q); }
    forall q | Open(s', q) ensures ReachInv(s', q) { assert Open(s, q) && ReachInv(s, q); }
    forall i | 0 <= i < |s'.slots| ensures SlotInv(s', i) { assert SlotInv(s, i); }
    forall k | 0 <= k < |s'.garbage| ensures GarbageInv(s', k) {
      assert GarbageInv(s, k);
      assert Queued(s, s.garbage[k].block);
    }
  }

  /** The running oldest stays within the window and is no newer than the slot just read. */
  lemma OlderKeeps(s: State, o: Oldest, i: nat)
    requires TickInv(s) && OldestInv(s, o) && i < |s.slots| && SlotInv(s, i)
    requires s.slots[i].cycle != LOST_HORIZON ==> s.tick - CollectLine(s.slots[i].tick) <= WINDOW
    ensures OldestInv(s, Older(o, s.slots[i], CellOf(s.tick)))
    ensures s.slots[i].cycle != LOST_HORIZON ==>
              Older(o, s.slots[i], CellOf(s.tick)).cycle != LOST_HORIZON &&
                Older(o, s.slots[i], CellOf(s.tick)).tick <= s.slots[i].tick
    ensures o.cycle != LOST_HORIZON ==>
              Older(o, s.slots[i], CellOf(s.tick)).cycle != LOST_HORIZON &&
                Older(o, s.slots[i], CellOf(s.tick)).tick <= o.tick
  {
    if s.slots[i].cycle != LOST_HORIZON {
      AgeIsTrue(s.tick, s.slots[i].tick);
    }
  }

  lemma ScanSlotKeepsInv(s: State)
    requires Inv(s) && InWindow(s) && Enabled(s, ScanSlot)
    ensures Inv(Do(s, ScanSlot))
  {
    var s', i := Do(s, ScanSlot), s.master.next;
    assert SlotInv(s, i);
    forall q | q in s'.processes ensures ProcessInv(s', q) { assert ProcessInv(s, q); }
    forall q | Open(s', q) ensures ReachInv(s', q) { assert Open(s, q) && ReachInv(s, q); }
    forall j | 0 <= j < |s'.slots| ensures SlotInv(s', j) { assert SlotInv(s, j); }
    forall k | 0 <= k < |s'.garbage| ensures GarbageInv(s', k) { assert GarbageInv(s, k); }
    if s.slots[i].pid in s.processes {
      OlderKeeps(s, s.master.oldest, i);
    }
    forall q | Open(s', q) && s'.processes[q].self.value < s'.master.next
      ensures Clear(s', q) ||
              (s'.master.oldest.cycle != LOST_HORIZON && s'.master.oldest.tick <= s'.processes[q].section.since)
    {
      assert Open(s, q) && ProcessInv(s, q);
      if s.processes[q].self.value < i && Clear(s, q) {
        assert Clear(s', q);
      }
    }
  }

  /** The horizon chosen by a finished scan protects whatever a section can still reach. */
  lemma FinishScanKeepsInv(s: State)
    requires Inv(s) && Enabled(s, FinishScan)
    ensures Inv(Do(s, FinishScan))
  {
    var s' := Do(s, FinishScan);
    forall q | q in s'.processes ensures ProcessInv(s', q) { assert ProcessInv(s, q); }
    forall q | Open(s', q) ensures ReachInv(s', q) { assert Open(s, q) && ReachInv(s, q); }
    forall j | 0 <= j < |s'.slots| ensures SlotInv(s', j) { assert SlotInv(s, j); }
    forall k | 0 <= k < |s'.garbage| ensures GarbageInv(s', k) { assert GarbageInv(s, k); }
    if s'.master.Collecting? {
      forall p, k | Open(s', p) && 0 <= k < |s'.garbage| && s'.garbage[k].block in Reach(s', p)
        ensures !Collectible(s'.master.limit, s'.garbage[k].cycle)
      {
        assert Open(s, p) && ProcessInv(s, p) && ReachInv(s, p) && GarbageInv(s, k);
        assert !Clear(s, p);
        CollectibleIsOlder(s.master.oldest.tick, s.garbage[k].tick);
      }
    }
  }

  /** Popping the front of the queue returns a block that no open section reaches. */
  lemma PopKeepsInv(s: State)
    requires Inv(s) && s.master.Collecting? && s.garbage != [] && Collectible(s.master.limit, s.garbage[0].cycle)
    ensures Inv(DoCollect(s))
  {
    var s' := DoCollect(s);
    forall q | q in s'.processes ensures ProcessInv(s', q) { assert ProcessInv(s, q); }
    forall j | 0 <= j < |s'.slots| ensures SlotInv(s', j) { assert SlotInv(s, j); }
    assert GarbageInv(s, 0);
    forall k | 0 <= k < |s'.garbage| ensures s'.garbage[k] == s.garbage[k + 1] && GarbageInv(s', k) {
      assert GarbageInv(s, k + 1);
    }
    forall q | Open(s', q) ensures ReachInv(s', q) {
      assert Open(s, q) && ReachInv(s, q);
    }
    forall p, k | Open(s', p) && 0 <= k < |s'.garbage| && s'.garbage[k].block in Reach(s', p)
      ensures !Collectible(s'.master.limit, s'.garbage[k].cycle)
    {
      assert Open(s, p) && s'.garbage[k] == s.garbage[k + 1];
    }
  }

  lemma CollectKeepsInv(s: State)
    requires Inv(s) && Enabled(s, Collect)
    ensures Inv(Do(s, Collect))
  {
    if s.garbage != [] && Collectible(s.master.limit, s.garbage[0].cycle) {
      PopKeepsInv(s);
    } else {
      var s' := Do(s, Collect);
      forall q | q in s'.processes ensures ProcessInv(s', q) { assert ProcessInv(s, q); }
      forall q | Open(s', q) ensures ReachInv(s', q) { assert Open(s, q) && ReachInv(s, q); }
      forall j | 0 <= j < |s'.slots| ensures SlotInv(s', j) { assert SlotInv(s, j); }
      forall k | 0 <= k < |s'.garbage| ensures GarbageInv(s', k) { assert GarbageInv(s, k); }
    }
  }

  lemma EventKeepsInv(s: State, e: Event)
    requires Inv(s) && InWindow(s) && Enabled(s, e)
    ensures Inv(Do(s, e))
  {
    match e
    case Start(_) => ReaderComesOrGoes(s, e);
    case Die(_) => ReaderComesOrGoes(s, e);
    case Attach(_) => AttachKeepsInv(s, e);
    case AttachDone => AttachKeepsInv(s, e);
    case Load(p) => LoadKeepsInv(s, p);
    case Store(p) => StoreKeepsInv(s, p);
    case ReadUnlock(p) => ReadUnlockKeepsInv(s, p);
    case WriteLock => WriteLockKeepsInv(s);
    case Allocate(_) => WriteKeepsInv(s, e);
    case Unlink(_) => WriteKeepsInv(s, e);
    case Link(b) => LinkKeepsInv(s, b);
    case Free(b) => FreeKeepsInv(s, b);
    case WriteUnlock => WriteUnlockKeepsInv(s);
    case ScanSlot => ScanSlotKeepsInv(s);
    case FinishScan => FinishScanKeepsInv(s);
    case Collect => CollectKeepsInv(s);
  }

  // ----- whole runs -----

  /** Every event was possible where it happened. */
  ghost predicate IsPath(states: seq<State>, events: seq<Event>) {
    |states| == |events| + 1 &&
    forall i :: 0 <= i < |events| ==> Enabled(states[i], events[i]) && states[i + 1] == Do(states[i], events[i])
  }

  ghost predicate IsRun(states: seq<State>, events: seq<Event>) {
    IsPath(states, events) && Initial(states[0])
  }

  lemma {:induction false} PathKeepsInv(states: seq<State>, events: seq<Event>, n: nat)
    requires IsPath(states, events) && n < |states| && Inv(states[0])
    requires forall i :: 0 <= i < n ==> InWindow(states[i])
    ensures Inv(states[n])
  {
    hide Inv;
    if n > 0 {
      PathKeepsInv(states, events, n - 1);
      EventKeepsInv(states[n - 1], events[n - 1]);
    }
  }

  lemma RunKeepsInv(states: seq<State>, events: seq<Event>, n: nat)
    requires IsRun(states, events) && n < |states|
    requires forall i :: 0 <= i < n ==> InWindow(states[i])
    ensures Inv(states[n])
  {
    InitialInv(states[0]);
    PathKeepsInv(states, events, n);
  }

  /** No interleaving deallocates a block that an open section of a live reader can still reach. */
  lemma RunIsSafe(states: seq<State>, events: seq<Event>)
    requires IsRun(states, events) && forall i :: 0 <= i < |states| ==> InWindow(states[i])
    ensures forall i :: 0 <= i < |states| ==> Safe(states[i])
  {
    forall i | 0 <= i < |states| ensures Safe(states[i]) {
      RunKeepsInv(states, events, i);
      InvIsSafe(states[i]);
    }
  }

  // ----- conservation of garbage -----

  function Blocks(garbage: seq<Garbage>): (r: seq<Block>)
    ensures |r| == |garbage|
  {
    seq(|garbage|, i requires 0 <= i < |garbage| => garbage[i].block)
  }

  /** Every shmfree_raw is accounted for, in order: first those deallocated, then those still queued. */
  ghost predicate Conserved(s: State) {
    s.freed == s.deallocated + Blocks(s.garbage)
  }

  lemma EventConserves(s: State, e: Event)
    requires Conserved(s) && Enabled(s, e)
    ensures Conserved(Do(s, e))
  {
    if e.Free? {
      assert Blocks(Do(s, e).garbage) == Blocks(s.garbage) + [e.block];
    } else if e.Collect? && s.garbage != [] {
      assert Blocks(s.garbage) == [s.garbage[0].block] + Blocks(s.garbage[1..]);
    }
  }

  lemma {:induction false} RunConserves(states: seq<State>, events: seq<Event>, n: nat)
    requires IsRun(states, events) && n < |states|
    ensures Conserved(states[n])
  {
    if n > 0 {
      RunConserves(states, events, n - 1);
      EventConserves(states[n - 1], events[n - 1]);
    }
  }

  // ----- how much a collection takes, and where the horizon goes -----

  /** garbage_collect without interruption: pop while the front passes the test. */
  function Uncollected(garbage: seq<Garbage>, limit: Cell): (r: seq<Garbage>)
    ensures |r| <= |garbage| && r == garbage[|garbage| - |r|..]
  {
    if garbage != [] && Collectible(limit, garbage[0].cycle) then Uncollected(garbage[1..], limit) else garbage
  }

  /** The state when the collection that is under way has ended. */
  function Drained(s: State): State
    requires s.master.Collecting?
    decreases |s.garbage|
  {
    var s' := DoCollect(s);
    if s'.master.Collecting? then Drained(s') else s'
  }

  lemma {:induction false} DrainedIsUncollected(s: State)
    requires s.master.Collecting?
    ensures Drained(s).garbage == Uncollected(s.garbage, s.master.limit)
    decreases |s.garbage|
  {
    if DoCollect(s).master.Collecting? {
      DrainedIsUncollected(DoCollect(s));
    }
  }

  /** Garbage in order of freeing, all of it within half the range of `int` of the cutoff. */
  ghost predicate NearLine(garbage: seq<Garbage>, h: nat) {
    (forall j, k :: 0 <= j < k < |garbage| ==> garbage[j].tick <= garbage[k].tick) &&
    forall k :: 0 <= k < |garbage| ==>
      garbage[k].cycle == CellOf(garbage[k].tick) != LOST_HORIZON &&
        -WINDOW <= CollectLine(h) - garbage[k].tick < WINDOW
  }

  /** A collection takes exactly the blocks freed before the cutoff, and they are a prefix of the queue. */
  lemma {:induction false} CollectionIsMaximalPrefix(garbage: seq<Garbage>, h: nat, taken: nat)
    requires CellOf(h) != LOST_HORIZON && NearLine(garbage, h)
    requires taken == |garbage| - |Uncollected(garbage, CollectLimit(CellOf(h)))|
    ensures forall k :: 0 <= k < |garbage| ==> (k < taken <==> garbage[k].tick < CollectLine(h))
  {
    if garbage != [] {
      CollectibleIsOlder(h, garbage[0].tick);
      if garbage[0].tick < CollectLine(h) {
        CollectionIsMaximalPrefix(garbage[1..], h, taken - 1);
        forall k | 0 < k < |garbage| ensures k < taken <==> garbage[k].tick < CollectLine(h) {
          assert garbage[k] == garbage[1..][k - 1];
        }
      }
    }
  }

  ghost predicate HorizonInv(s: State) {
    s.horizon == CellOf(s.horizonTick)
  }

  /** A finished scan moves the horizon exactly when it gains more than the twilight zone, so never back. */
  lemma HorizonOnlyAdvances(s: State)
    requires Inv(s) && HorizonInv(s) && Enabled(s, FinishScan)
    requires -WINDOW <= NewHorizonTick(s) - s.horizonTick < WINDOW
    ensures HorizonInv(Do(s, FinishScan))
    ensures NewHorizonTick(s) > s.horizonTick + TWILIGHT_ZONE ==> Do(s, FinishScan).horizonTick == NewHorizonTick(s)
    ensures NewHorizonTick(s) <= s.horizonTick + TWILIGHT_ZONE ==> Do(s, FinishScan).horizonTick == s.horizonTick
  {
    AgeIsTrue(NewHorizonTick(s), s.horizonTick);
  }

  /** A finished scan's new horizon is within half the range of `int` of the old one. */
  ghost predicate HorizonNear(s: State) {
    s.master.Scanning? && s.master.next == |s.slots| ==> -WINDOW <= NewHorizonTick(s) - s.horizonTick < WINDOW
  }

  lemma EventAdvancesHorizon(s: State, e: Event)
    requires Inv(s) && HorizonInv(s) && HorizonNear(s) && Enabled(s, e)
    ensures HorizonInv(Do(s, e)) && s.horizonTick <= Do(s, e).horizonTick
  {
    if e.FinishScan? {
      HorizonOnlyAdvances(s);
    }
  }

  /** A collection under way works with the cutoff of its horizon. */
  ghost predicate LimitInv(s: State) {
    s.master.Collecting? ==> s.horizon != LOST_HORIZON && s.master.limit == CollectLimit(s.horizon)
  }

  lemma {:induction false} RunKeepsLimit(states: seq<State>, events: seq<Event>, n: nat)
    requires IsRun(states, events) && n < |states| && forall k :: 0 <= k < n ==> InWindow(states[k])
    ensures LimitInv(states[n])
  {
    hide Enabled, CollectLimit;
    if n > 0 {
      RunKeepsLimit(states, events, n - 1);
      RunKeepsInv(states, events, n - 1);
      LimitKept(states[n - 1], events[n - 1]);
    }
  }

  lemma LimitKept(s: State, e: Event)
    requires TickInv(s) && (!s.master.Idle? ==> s.tick > 0) && LimitInv(s) && Enabled(s, e)
    ensures LimitInv(Do(s, e))
  {
    hide CollectLimit, Age;
  }

  /** How far readers may lag for the horizon to keep up with the cycle, since a scan comes every LAZY_GC writes. */
  const NARROW_WINDOW := WINDOW - 2 * LAZY_GC - 2

  ghost predicate InNarrowWindow(s: State) {
    s.master.Scanning? ==>
      forall i :: 0 <= i < |s.slots| && s.slots[i].pid in s.processes && s.slots[i].cycle != LOST_HORIZON ==>
        s.tick - CollectLine(s.slots[i].tick) <= NARROW_WINDOW
  }

  /** At most so many writes since the last scan. */
  function WritesSince(s: State): nat {
    match s.master
    case Idle => s.strike
    case Writing => s.strike + 1
    case Scanning(_, _) => LAZY_GC
    case Collecting(_) => 0
  }

  /** The horizon lags no further behind than its last scan found, and two ticks for each write since. */
  ghost predicate LagInv(s: State) {
    HorizonInv(s) && s.strike < LAZY_GC && s.horizonTick <= s.tick &&
    s.tick - s.horizonTick <= NARROW_WINDOW + 2 * WritesSince(s)
  }

  /** The scan's oldest reader so far is in the narrow window. */
  ghost predicate OldestNear(s: State) {
    s.master.Scanning? && s.master.oldest.cycle != LOST_HORIZON ==>
      s.tick - CollectLine(s.master.oldest.tick) <= NARROW_WINDOW
  }

  /** The last collection has left nothing in front of its cutoff; one under way is near enough to it. */
  ghost predicate FrontInv(s: State) {
    forall k :: 0 <= k < |s.garbage| ==>
      if s.master.Collecting? then CollectLine(s.horizonTick) - s.garbage[k].tick < WINDOW
      else CollectLine(s.horizonTick) <= s.garbage[k].tick
  }

  ghost predicate NearInv(s: State) {
    LagInv(s) && OldestNear(s) && FrontInv(s) && LimitInv(s)
  }

  /** A scan that is in the narrow window finds a horizon near the old one. */
  lemma NearHorizon(s: State)
    requires Inv(s) && NearInv(s)
    ensures HorizonNear(s)
  {
  }

  lemma ScanSlotKeepsNear(s: State)
    requires Inv(s) && NearInv(s) && InNarrowWindow(s) && Enabled(s, ScanSlot)
    ensures NearInv(Do(s, ScanSlot))
  {
    hide Inv, CollectLine, Age;
  }

  lemma FinishScanKeepsNear(s: State)
    requires Inv(s) && NearInv(s) && Enabled(s, FinishScan)
    ensures NearInv(Do(s, FinishScan))
  {
    NearHorizon(s);
    HorizonOnlyAdvances(s);
    LimitKept(s, FinishScan);
  }

  /** While a collection is under way the queue is near its cutoff. */
  lemma NearCutoff(s: State)
    requires Inv(s) && NearInv(s) && s.master.Collecting?
    ensures CellOf(s.horizonTick) != LOST_HORIZON && s.master.limit == CollectLimit(CellOf(s.horizonTick))
    ensures NearLine(s.garbage, s.horizonTick)
  {
    hide CollectLine, CollectLimit;
    CollectLineIs(s.horizonTick);
    forall k | 0 <= k < |s.garbage|
      ensures s.garbage[k].cycle == CellOf(s.garbage[k].tick) != LOST_HORIZON && s.garbage[k].tick <= s.tick
    {
      assert GarbageInv(s, k);
    }
  }

  lemma CollectKeepsNear(s: State)
    requires Inv(s) && NearInv(s) && Enabled(s, Collect)
    ensures NearInv(Do(s, Collect))
  {
    assert TickInv(s) && (!s.master.Idle? ==> s.tick > 0);
    hide Inv, CollectLine, Collectible;
    LimitKept(s, Collect);
    NearCutoff(s);
    if s.garbage != [] {
      CollectibleIsOlder(s.horizonTick, s.garbage[0].tick);
    }
  }

  lemma WriteKeepsNear(s: State, e: Event)
    requires Inv(s) && NearInv(s) && Enabled(s, e) && !e.ScanSlot? && !e.FinishScan? && !e.Collect?
    ensures NearInv(Do(s, e))
  {
    LimitKept(s, e);
    hide Inv, Enabled;
  }

  lemma EventKeepsNear(s: State, e: Event)
    requires Inv(s) && NearInv(s) && InNarrowWindow(s) && Enabled(s, e)
    ensures NearInv(Do(s, e))
  {
    hide Inv, NearInv;
    match e
    case ScanSlot => ScanSlotKeepsNear(s);
    case FinishScan => FinishScanKeepsNear(s);
    case Collect => CollectKeepsNear(s);
    case _ => WriteKeepsNear(s, e);
  }

  /** In a run whose scans are in the narrow window the horizon stays near the cycle, and the queue near the horizon. */
  lemma {:induction false} RunStaysNear(states: seq<State>, events: seq<Event>, n: nat)
    requires IsRun(states, events) && n < |states| && forall k :: 0 <= k < n ==> InNarrowWindow(states[k])
    ensures NearInv(states[n])
  {
    if n > 0 {
      hide NearInv, Inv;
      RunStaysNear(states, events, n - 1);
      RunKeepsInv(states, events, n - 1);
      EventKeepsNear(states[n - 1], events[n - 1]);
    }
  }

  /** Over a whole run the horizon never moves back. */
  lemma {:induction false} RunHorizonAdvances(states: seq<State>, events: seq<Event>, i: nat, j: nat)
    requires IsRun(states, events) && i <= j < |states| && forall k :: 0 <= k < j ==> InNarrowWindow(states[k])
    ensures states[i].horizonTick <= states[j].horizonTick
    decreases j
  {
    if i < j {
      hide NearInv, Inv, Enabled;
      RunHorizonAdvances(states, events, i, j - 1);
      RunKeepsInv(states, events, j - 1);
      RunStaysNear(states, events, j - 1);
      NearHorizon(states[j - 1]);
      NearIsHorizon(states[j - 1]);
      EventAdvancesHorizon(states[j - 1], events[j - 1]);
    }
  }

  lemma NearIsHorizon(s: State)
    requires NearInv(s)
    ensures HorizonInv(s) && LimitInv(s)
  {
  }

  /** Wherever a collection of a run stands, what it will still take is exactly the blocks freed before its cutoff. */
  lemma RunCollectsMaximalPrefix(states: seq<State>, events: seq<Event>, n: nat)
    requires IsRun(states, events) && n < |states| && forall k :: 0 <= k < n ==> InNarrowWindow(states[k])
    requires states[n].master.Collecting?
    ensures var s := states[n];
      forall k :: 0 <= k < |s.garbage| ==>
        (k < |s.garbage| - |Drained(s).garbage| <==> s.garbage[k].tick < CollectLine(s.horizonTick))
  {
    hide Inv, NearInv, NearLine, CollectLine, CollectLimit;
    RunKeepsInv(states, events, n);
    RunStaysNear(states, events, n);
    var s := states[n];
    NearCutoff(s);
    DrainedIsUncollected(s);
    CollectionIsMaximalPrefix(s.garbage, s.horizonTick, |s.garbage| - |Uncollected(s.garbage, s.master.limit)|);
  }

  // ----- the window in the reader's terms -----

  function Locks(events: seq<Event>): nat {
    if events == [] then 0
    else Locks(events[..|events| - 1]) + if events[|events| - 1].WriteLock? then 1 else 0
  }

  lemma TickMoves(s: State, e: Event)
    requires Enabled(s, e)
    ensures Do(s, e).tick == if e.WriteLock? then NextTick(s.tick) else s.tick
  {
  }

  /** The tick counts the calls of write_lock. */
  lemma {:induction false} RunTicks(states: seq<State>, events: seq<Event>, n: nat)
    requires IsRun(states, events) && n < |states|
    ensures states[n].tick == TickOfLocks(Locks(events[..n]))
  {
    if n > 0 {
      hide TickOfLocks, NextTick;
      RunTicks(states, events, n - 1);
      assert events[..n][..n - 1] == events[..n - 1];
      TickMoves(states[n - 1], events[n - 1]);
      NextTickOfLocks(Locks(events[..n - 1]));
    }
  }

  /** Every live reader's cycle is that of one of the last 2^31 - 64 writes, `now` being their number. */
  ghost predicate FewBehind(s: State, now: nat) {
    forall i :: 0 <= i < |s.slots| && s.slots[i].pid in s.processes && s.slots[i].cycle != LOST_HORIZON ==>
        Recent(s.slots[i].tick, now)
  }

  ghost predicate Recent(tick: nat, now: nat) {
    exists m: nat :: 1 <= m <= now < m + WINDOW - TWILIGHT_ZONE && tick == TickOfLocks(m)
  }

  /** So runs are safe whose readers are never that far behind while the master scans. */
  lemma RunIsSafeWhenFewBehind(states: seq<State>, events: seq<Event>)
    requires IsRun(states, events)
    requires forall n :: 0 <= n < |states| && states[n].master.Scanning? ==> FewBehind(states[n], Locks(events[..n]))
    ensures forall n :: 0 <= n < |states| ==> Safe(states[n])
  {
    hide Safe, Initial, FewBehind;
    forall n | 0 <= n < |states| ensures InWindow(states[n]) {
      RunTicks(states, events, n);
      if states[n].master.Scanning? {
        FewBehindIsInWindow(states[n], Locks(events[..n]));
      }
    }
    RunIsSafe(states, events);
  }

  lemma FewBehindIsInWindow(s: State, now: nat)
    requires s.tick == TickOfLocks(now) && FewBehind(s, now)
    ensures InWindow(s)
  {
    hide TickOfLocks, CollectLine;
    forall i | 0 <= i < |s.slots| && s.slots[i].pid in s.processes && s.slots[i].cycle != LOST_HORIZON
      ensures s.tick - CollectLine(s.slots[i].tick) <= WINDOW
    {
      assert Recent(s.slots[i].tick, now);
      var m: nat :| 1 <= m <= now < m + WINDOW - TWILIGHT_ZONE && s.slots[i].tick == TickOfLocks(m);
      LocksBehind(m, now);
    }
  }

  // ----- a section opened with cycle 0 is not protected -----

  lemma Extend(states: seq<State>, events: seq<Event>, e: Event) returns (states': seq<State>, events': seq<Event>)
    requires IsRun(states, events) && (forall i :: 0 <= i < |states| ==> InWindow(states[i]))
    requires Enabled(states[|states| - 1], e) && InWindow(Do(states[|states| - 1], e))
    ensures IsRun(states', events') && forall i :: 0 <= i < |states'| ==> InWindow(states'[i])
    ensures states'[|states'| - 1] == Do(states[|states| - 1], e)
  {
    states', events' := states + [Do(states[|states| - 1], e)], events + [e];
  }

  /** Empty writes, short of the one that would scan. */
  lemma EmptyWrites(states: seq<State>, events: seq<Event>, n: nat) returns (states': seq<State>, events': seq<Event>)
    requires IsRun(states, events) && (forall i :: 0 <= i < |states| ==> InWindow(states[i]))
    requires var s := states[|states| - 1];
      s.master.Idle? && s.attaching.None? && s.garbage != [] && s.linked == {} &&
      s.strike + n < LAZY_GC && s.tick + n < 5000
    ensures IsRun(states', events') && forall i :: 0 <= i < |states'| ==> InWindow(states'[i])
    ensures var s := states[|states| - 1]; states'[|states'| - 1] == s.(strike := s.strike + n, tick := s.tick + n)
  {
    states', events' := states, events;
    var s, k := states[|states| - 1], 0;
    while k < n
      invariant k <= n && IsRun(states', events') && forall i :: 0 <= i < |states'| ==> InWindow(states'[i])
      invariant states'[|states'| - 1] == s.(strike := s.strike + k, tick := s.tick + k)
    {
      states', events' := Extend(states', events', WriteLock);
      states', events' := Extend(states', events', WriteUnlock);
      k := k + 1;
    }
  }

  ghost predicate AllSilent(s: State) {
    forall i :: 0 <= i < |s.slots| ==>
        s.slots[i].cycle == LOST_HORIZON && (s.slots[i].pid == 0 || s.slots[i].pid in s.processes)
  }

  /** A scan over slots that publish nothing finds nobody. */
  lemma EmptyScan(states: seq<State>, events: seq<Event>) returns (states': seq<State>, events': seq<Event>)
    requires IsRun(states, events) && (forall i :: 0 <= i < |states| ==> InWindow(states[i]))
    requires states[|states| - 1].master == Scanning(0, NOBODY) && AllSilent(states[|states| - 1])
    ensures IsRun(states', events') && forall i :: 0 <= i < |states'| ==> InWindow(states'[i])
    ensures var s := states[|states| - 1]; states'[|states'| - 1] == s.(master := Scanning(|s.slots|, NOBODY))
  {
    states', events' := states, events;
    var s, k := states[|states| - 1], 0;
    while k < |s.slots|
      invariant k <= |s.slots| && IsRun(states', events') && forall i :: 0 <= i < |states'| ==> InWindow(states'[i])
      invariant states'[|states'| - 1] == s.(master := Scanning(k, NOBODY))
    {
      states', events' := Extend(states', events', ScanSlot);
      k := k + 1;
    }
  }

  /** Reader 1 starts and is attached. */
  lemma ZeroCycleAttach() returns (states: seq<State>, events: seq<Event>)
    ensures IsRun(states, events) && forall i :: 0 <= i < |states| ==> InWindow(states[i])
    ensures var s := states[|states| - 1];
      s.processes == map[1 := Process(None, Outside)] && |s.slots| == MAX_SHMEM_READERS && s.slots[0].pid == 1 &&
        AllSilent(s) &&
      s.master.Idle? && s.attaching.None? && s.tick == s.strike == 0 && s.linked == s.inUse == {} && s.garbage == [] &&
        s.horizon == LOST_HORIZON
  {
    var readers := seq(MAX_SHMEM_READERS, _ => Slot(0, LOST_HORIZON, 0));
    var s := State(0, readers, map[], [], LOST_HORIZON, 0, 0, {}, {}, Idle, [], [], None);
    states, events := [s], [];
    states, events := Extend(states, events, Start(1));
    states, events := Extend(states, events, Attach(1));
    states, events := Extend(states, events, AttachDone);
  }

  /** It loads cycle 0. */
  lemma ZeroCycleLoad() returns (states: seq<State>, events: seq<Event>)
    ensures IsRun(states, events) && forall i :: 0 <= i < |states| ==> InWindow(states[i])
    ensures var s := states[|states| - 1];
      s.processes == map[1 := Process(Some(0), Loaded(0))] && |s.slots| == MAX_SHMEM_READERS && AllSilent(s) &&
      s.master.Idle? && s.attaching.None? && s.tick == s.strike == 0 && s.linked == s.inUse == {} && s.garbage == [] &&
        s.horizon == LOST_HORIZON
  {
    states, events := ZeroCycleAttach();
    states, events := Extend(states, events, Load(1));
  }

  /** It publishes the 0 during the first write, and so reaches the block 7 that the write has linked. */
  lemma ZeroCycleStore() returns (states: seq<State>, events: seq<Event>)
    ensures IsRun(states, events) && forall i :: 0 <= i < |states| ==> InWindow(states[i])
    ensures var s := states[|states| - 1];
      s.processes == map[1 := Process(Some(0), Inside(0, {7}))] && |s.slots| == MAX_SHMEM_READERS && AllSilent(s) &&
      s.master.Writing? && s.attaching.None? && s.tick == 1 && s.strike == 0 && s.linked == s.inUse == {7} &&
        s.garbage == [] &&
      s.horizon == LOST_HORIZON
  {
    states, events := ZeroCycleLoad();
    states, events := Extend(states, events, WriteLock);
    states, events := Extend(states, events, Allocate(7));
    states, events := Extend(states, events, Link(7));
    var s := states[|states| - 1];
    assert 1 in s.processes && s.processes[1] == Process(Some(0), Loaded(0)) && s.processes.Keys == {1};
    assert s.linked == s.inUse == {7};
    states, events := Extend(states, events, Store(1));
    assert states[|states| - 1].processes == map[1 := Process(Some(0), Inside(0, {7}))];
  }

  /** The write frees block 7, and 998 empty writes follow. */
  lemma ZeroCycleWait() returns (states: seq<State>, events: seq<Event>)
    ensures IsRun(states, events) && forall i :: 0 <= i < |states| ==> InWindow(states[i])
    ensures var s := states[|states| - 1];
      s.processes == map[1 := Process(Some(0), Inside(0, {7}))] && |s.slots| == MAX_SHMEM_READERS && AllSilent(s) &&
      s.master.Idle? && s.attaching.None? && s.tick == s.strike == LAZY_GC - 1 && s.linked == {} && s.inUse == {7} &&
      s.garbage == [Garbage(1, 1, 7)] && s.horizon == LOST_HORIZON
  {
    states, events := ZeroCycleStore();
    states, events := Extend(states, events, Unlink(7));
    states, events := Extend(states, events, Free(7));
    states, events := Extend(states, events, WriteUnlock);
    states, events := EmptyWrites(states, events, LAZY_GC - 2);
  }

  /** So the claim needs read_lock's answer to be non-zero: this run deallocates a block inside an open section. */
  lemma ZeroCycleIsUnprotected() returns (states: seq<State>, events: seq<Event>)
    ensures IsRun(states, events) && forall i :: 0 <= i < |states| ==> InWindow(states[i])
    ensures var s := states[|states| - 1];
      1 in s.processes && s.processes[1].section == Inside(0, {7}) && 7 !in s.inUse
  {
    states, events := ZeroCycleWait();
    states, events := Extend(states, events, WriteLock);
    states, events := Extend(states, events, WriteUnlock);
    states, events := EmptyScan(states, events);
    states, events := Extend(states, events, FinishScan);
    states, events := Extend(states, events, Collect);
  }
}
