// Intrusive row lists (ctables/ctable_lists.c). One RowLinks object is the memory of one `_ll_nodes[i]`
// of every row, together with the list heads that these nodes point to. A pointer is an address, and a
// store through a pointer is a map update, so stores that alias in the source alias here.

module RowLists {
  import opened Options

  type Row = nat
  type Addr = nat

  /** `prev` is the address of the pointer that points to the row: a list head or another row's `next`. */
  datatype Prev = Detached | HeadOf(list: Addr) | NextOf(row: Row)

  datatype Link = Link(next: Option<Row>, prev: Prev, head: Option<Addr>)

  datatype Memory = Memory(heads: map<Addr, Option<Row>>, links: map<Row, Link>)

  // ----- single stores -----

  function SetNext(m: Memory, r: Row, next: Option<Row>): Memory
    requires r in m.links
  {
    m.(links := m.links[r := m.links[r].(next := next)])
  }

  function SetPrev(m: Memory, r: Row, prev: Prev): Memory
    requires r in m.links
  {
    m.(links := m.links[r := m.links[r].(prev := prev)])
  }

  function SetHead(m: Memory, r: Row, head: Addr): Memory
    requires r in m.links
  {
    m.(links := m.links[r := m.links[r].(head := Some(head))])
  }

  /** `*prev = value`. */
  function StoreThrough(m: Memory, prev: Prev, value: Option<Row>): Memory
    requires prev.NextOf? ==> prev.row in m.links
  {
    match prev
    case Detached => m
    case HeadOf(h) => m.(heads := m.heads[h := value])
    case NextOf(r) => SetNext(m, r, value)
  }

  // ----- lists -----

  function At(s: seq<Row>, k: nat): Option<Row> {
    if k < |s| then Some(s[k]) else None
  }

  /** The link of the row at place `k` of the list `s` at `h`. */
  function LinkAt(h: Addr, s: seq<Row>, k: nat): Link
    requires k < |s|
  {
    Link(At(s, k + 1), if k == 0 then HeadOf(h) else NextOf(s[k - 1]), Some(h))
  }

  ghost predicate IsList(m: Memory, h: Addr, s: seq<Row>) {
    h in m.heads && m.heads[h] == At(s, 0) &&
    (forall k :: 0 <= k < |s| ==> s[k] in m.links && m.links[s[k]] == LinkAt(h, s, k)) &&
    forall j, k :: 0 <= j < k < |s| ==> s[j] != s[k]
  }

  /** A reader that holds `p` and follows `next` sees `s[from..]` and then the end. */
  ghost predicate Sees(m: Memory, p: Option<Row>, s: seq<Row>, from: nat) {
    p == At(s, from) && forall k :: from <= k < |s| ==> s[k] in m.links && m.links[s[k]].next == At(s, k + 1)
  }

  function Without(s: seq<Row>, k: nat): (r: seq<Row>)
    requires k < |s|
    ensures |r| == |s| - 1
    ensures forall j :: 0 <= j < |r| ==> r[j] == s[if j < k then j else j + 1]
  {
    s[..k] + s[k + 1..]
  }

  // ----- inserting at the head: every intermediate memory -----

  /** The memories after each store of ctable_ListInsertHead; the fourth is made only when the list was not empty. */
  function InsertSteps(m: Memory, h: Addr, r: Row): (steps: seq<Memory>)
    requires r in m.links && h in m.heads && (m.heads[h].Some? ==> m.heads[h].value in m.links)
    ensures |steps| == 5
  {
    var m1 := SetPrev(m, r, HeadOf(h));
    var m2 := SetHead(m1, r, h);
    var m3 := SetNext(m2, r, m.heads[h]);
    var m4 := if m.heads[h].Some? then SetPrev(m3, m.heads[h].value, NextOf(r)) else m3;
    [m1, m2, m3, m4, m4.(heads := m4.heads[h := Some(r)])]
  }

  /** No store but the third changes a `next`, and only the last changes the head. */
  lemma InsertNexts(m: Memory, h: Addr, r: Row, i: nat)
    requires r in m.links && h in m.heads && (m.heads[h].Some? ==> m.heads[h].value in m.links) && i < 5
    ensures var now := InsertSteps(m, h, r)[i];
      (forall x :: x in now.links <==> x in m.links) &&
        (forall x :: x in m.links && x != r ==> now.links[x].next == m.links[x].next) &&
      (i >= 2 ==> now.links[r].next == m.heads[h]) &&
      now.heads == if i < 4 then m.heads else m.heads[h := Some(r)]
  {
    var steps := InsertSteps(m, h, r);
    if i == 0 {
      assert steps[i] == steps[0];
    } else if i == 1 {
      assert steps[i] == steps[1];
    } else if i == 2 {
      assert steps[i] == steps[2];
    } else if i == 3 {
      assert steps[i] == steps[3];
    } else {
      assert steps[i] == steps[4];
    }
  }

  /** Until the last store a reader sees the old list; from it on, the new one. */
  lemma InsertIsAtomic(m: Memory, h: Addr, r: Row, s: seq<Row>, i: nat)
    requires IsList(m, h, s) && r in m.links && r !in s && i < 5
    ensures var steps := InsertSteps(m, h, r);
      if i < 4 then Sees(steps[i], steps[i].heads[h], s, 0) else Sees(steps[4], steps[4].heads[h], [r] + s, 0)
  {
    hide InsertSteps;
    InsertNexts(m, h, r, i);
    if i == 4 {
      var now, t := InsertSteps(m, h, r)[4], [r] + s;
      forall k | 0 <= k < |t| ensures t[k] in now.links && now.links[t[k]].next == At(t, k + 1) {
        if k > 0 {
          assert t[k] == s[k - 1];
        }
      }
    }
  }

  /** A reader inside the list sees the rest of it, whatever store has just been made. */
  lemma InsertKeepsReaders(m: Memory, h: Addr, r: Row, s: seq<Row>, i: nat, j: nat)
    requires IsList(m, h, s) && r in m.links && r !in s && i < 5 && j < |s|
    ensures Sees(InsertSteps(m, h, r)[i], Some(s[j]), s, j)
  {
    hide InsertSteps;
    InsertNexts(m, h, r, i);
  }

  // ----- removing: every intermediate memory -----

  /** The pointers that a removal follows lead to rows. */
  ghost predicate Removable(m: Memory, r: Row) {
    r in m.links && (m.links[r].next.Some? ==> m.links[r].next.value in m.links) &&
    (m.links[r].prev.NextOf? ==> m.links[r].prev.row in m.links)
  }

  /** The first store of ctable_ListRemove, made only when a row follows. */
  ghost function AfterPrevStore(m: Memory, r: Row): (m': Memory)
    requires Removable(m, r)
    ensures Removable(m', r)
  {
    var link := m.links[r];
    if link.next.Some? then SetPrev(m, link.next.value, link.prev) else m
  }

  /** The second store: the pointer that pointed to the row. */
  ghost function AfterSkip(m: Memory, r: Row): (m': Memory)
    requires Removable(m, r)
    ensures r in m'.links
  {
    StoreThrough(AfterPrevStore(m, r), m.links[r].prev, m.links[r].next)
  }

  /** The third store: the row's own `prev`. */
  ghost function AfterDetach(m: Memory, r: Row): Memory
    requires Removable(m, r)
  {
    SetPrev(AfterSkip(m, r), r, Detached)
  }

  /** The memories after each store of ctable_ListRemove. */
  ghost function RemoveSteps(m: Memory, r: Row): (steps: seq<Memory>)
    requires Removable(m, r)
    ensures |steps| == 3
  {
    [AfterPrevStore(m, r), AfterSkip(m, r), AfterDetach(m, r)]
  }

  /** Neither list head nor `next` changes. */
  ghost predicate SameNexts(m: Memory, now: Memory) {
    now.heads == m.heads && (forall x :: x in now.links <==> x in m.links) &&
    forall x :: x in m.links ==> now.links[x].next == m.links[x].next
  }

  /** The pointer to row `s[k]` now skips it, and nothing else that a reader follows has changed. */
  ghost predicate Skips(m: Memory, now: Memory, h: Addr, s: seq<Row>, k: nat)
    requires k < |s| && (k > 0 ==> s[k - 1] in m.links)
  {
    now.heads == (if k == 0 then m.heads[h := At(s, k + 1)] else m.heads) &&
      (forall x :: x in now.links <==> x in m.links) &&
    (forall x :: x in m.links && (k == 0 || x != s[k - 1]) ==> now.links[x].next == m.links[x].next) &&
    (k > 0 ==> now.links[s[k - 1]].next == At(s, k + 1))
  }

  lemma SetPrevSameNexts(m: Memory, r: Row, prev: Prev)
    requires r in m.links
    ensures SameNexts(m, SetPrev(m, r, prev))
  {
  }

  lemma StoreThroughSkips(m: Memory, m1: Memory, h: Addr, s: seq<Row>, k: nat)
    requires k < |s| && (k > 0 ==> s[k - 1] in m.links) && SameNexts(m, m1)
    ensures Skips(m, StoreThrough(m1, if k == 0 then HeadOf(h) else NextOf(s[k - 1]), At(s, k + 1)), h, s, k)
  {
  }

  lemma ListIsRemovable(m: Memory, h: Addr, s: seq<Row>, k: nat)
    requires IsList(m, h, s) && k < |s|
    ensures Removable(m, s[k]) && (k > 0 ==> s[k - 1] in m.links)
    ensures m.links[s[k]] == Link(At(s, k + 1), if k == 0 then HeadOf(h) else NextOf(s[k - 1]), Some(h))
  {
    assert m.links[s[k]] == LinkAt(h, s, k);
  }

  lemma FirstStoreNexts(m: Memory, r: Row)
    requires Removable(m, r)
    ensures SameNexts(m, AfterPrevStore(m, r))
  {
    if m.links[r].next.Some? {
      SetPrevSameNexts(m, m.links[r].next.value, m.links[r].prev);
    }
  }

  lemma SecondStoreNexts(m: Memory, h: Addr, s: seq<Row>, k: nat)
    requires IsList(m, h, s) && k < |s| && Removable(m, s[k]) && (k > 0 ==> s[k - 1] in m.links)
    ensures Skips(m, AfterSkip(m, s[k]), h, s, k)
  {
    ListIsRemovable(m, h, s, k);
    FirstStoreNexts(m, s[k]);
    StoreThroughSkips(m, AfterPrevStore(m, s[k]), h, s, k);
    hide IsList, Skips, SameNexts, StoreThrough, AfterPrevStore;
  }

  lemma ThirdStoreNexts(m: Memory, h: Addr, s: seq<Row>, k: nat)
    requires k < |s| && Removable(m, s[k]) && (k > 0 ==> s[k - 1] in m.links) && Skips(m, AfterSkip(m, s[k]), h, s, k)
    ensures Skips(m, AfterDetach(m, s[k]), h, s, k)
  {
    hide AfterSkip;
    SetPrevSameNexts(AfterSkip(m, s[k]), s[k], Detached);
  }

  /** Only the second store changes what a reader follows. */
  lemma RemoveNexts(m: Memory, h: Addr, s: seq<Row>, k: nat, i: nat)
    requires IsList(m, h, s) && k < |s| && Removable(m, s[k]) && (k > 0 ==> s[k - 1] in m.links) && i < 3
    ensures if i == 0 then SameNexts(m, RemoveSteps(m, s[k])[i]) else Skips(m, RemoveSteps(m, s[k])[i], h, s, k)
  {
    hide IsList, SameNexts, Skips, AfterPrevStore, AfterSkip, AfterDetach;
    FirstStoreNexts(m, s[k]);
    SecondStoreNexts(m, h, s, k);
    ThirdStoreNexts(m, h, s, k);
    assert i == 0 || i == 1 || i == 2;
  }

  lemma SkippedList(m: Memory, now: Memory, h: Addr, s: seq<Row>, k: nat)
    requires IsList(m, h, s) && k < |s| && (k > 0 ==> s[k - 1] in m.links) && Skips(m, now, h, s, k)
    ensures Sees(now, now.heads[h], Without(s, k), 0)
  {
    var t := Without(s, k);
    forall j | 0 <= j < |t| ensures t[j] in now.links && now.links[t[j]].next == At(t, j + 1) {
      var j' := if j < k then j else j + 1;
      assert t[j] == s[j'] && m.links[s[j']] == LinkAt(h, s, j');
    }
  }

  /** Before the second store a reader sees the old list; from it on, the list without the row. */
  lemma RemoveIsAtomic(m: Memory, h: Addr, s: seq<Row>, k: nat, i: nat)
    requires IsList(m, h, s) && k < |s| && i < 3
    ensures Removable(m, s[k])
    ensures var now := RemoveSteps(m, s[k])[i];
      if i < 1 then Sees(now, now.heads[h], s, 0) else Sees(now, now.heads[h], Without(s, k), 0)
  {
    ListIsRemovable(m, h, s, k);
    RemoveNexts(m, h, s, k, i);
    hide RemoveSteps;
    if i > 0 {
      SkippedList(m, RemoveSteps(m, s[k])[i], h, s, k);
    }
  }

  /** A reader standing on the removed row, or behind it, still sees the rest of the list and its end. */
  lemma RemoveKeepsReaders(m: Memory, h: Addr, s: seq<Row>, k: nat, i: nat, j: nat)
    requires IsList(m, h, s) && k <= j < |s| && i < 3
    ensures Removable(m, s[k])
    ensures Sees(RemoveSteps(m, s[k])[i], Some(s[j]), s, j)
  {
    ListIsRemovable(m, h, s, k);
    RemoveNexts(m, h, s, k, i);
    hide RemoveSteps;
    var now := RemoveSteps(m, s[k])[i];
    forall n | j <= n < |s| ensures s[n] in now.links && now.links[s[n]].next == At(s, n + 1) {
      assert m.links[s[n]] == LinkAt(h, s, n);
    }
  }

  // ----- a reader on its way while the stores are made -----

  /** The pointer that a reader follows from place `j` of its way: the list's head, or the `next` of the row before. */
  function Pointer(m: Memory, h: Addr, way: seq<Row>, j: nat): Option<Row>
    requires j <= |way|
  {
    if j == 0 then (if h in m.heads then m.heads[h] else None)
    else if way[j - 1] in m.links then m.links[way[j - 1]].next
    else None
  }

  /**
   * A reader's way from the head: its pointer number `j` is read in memory `times[j]`, and it has `ended` when one was
   * NULL.
   */
  ghost predicate IsWay(mems: seq<Memory>, h: Addr, times: seq<nat>, way: seq<Row>, ended: bool) {
    |times| == |way| + (if ended then 1 else 0) &&
    (forall j :: 0 <= j < |times| ==> times[j] < |mems| && Pointer(mems[times[j]], h, way, j) == At(way, j)) &&
    forall i, j :: 0 <= i < j < |times| ==> times[i] <= times[j]
  }

  /** The way shows the list, or as much of it as it has come to. */
  ghost predicate Shows(way: seq<Row>, ended: bool, s: seq<Row>) {
    way <= s && (ended ==> way == s)
  }

  lemma {:induction false} WayFollows(mems: seq<Memory>, h: Addr, times: seq<nat>, way: seq<Row>, ended: bool,
           t: seq<Row>, j: nat)
    requires IsWay(mems, h, times, way, ended) && j <= |way|
    requires forall i :: 0 <= i < |times| && i <= |t| ==> Pointer(mems[times[i]], h, t, i) == At(t, i)
    ensures j <= |t| && way[..j] == t[..j]
  {
    if j > 0 {
      WayFollows(mems, h, times, way, ended, t, j - 1);
      assert j - 1 > 0 ==> way[j - 2] == way[..j - 1][j - 2] == t[..j - 1][j - 2] == t[j - 2];
      assert Pointer(mems[times[j - 1]], h, t, j - 1) == At(t, j - 1);
      assert Pointer(mems[times[j - 1]], h, way, j - 1) == At(way, j - 1);
    }
  }

  lemma WayShows(mems: seq<Memory>, h: Addr, times: seq<nat>, way: seq<Row>, ended: bool, t: seq<Row>)
    requires IsWay(mems, h, times, way, ended)
    requires forall i :: 0 <= i < |times| && i <= |t| ==> Pointer(mems[times[i]], h, t, i) == At(t, i)
    ensures Shows(way, ended, t)
  {
    var n := |way|;
    WayFollows(mems, h, times, way, ended, t, n);
    assert way[..n] == way;
    if ended {
      assert n > 0 ==> way[n - 1] == way[..n][n - 1] == t[..n][n - 1] == t[n - 1];
      assert Pointer(mems[times[n]], h, t, n) == At(t, n);
    }
  }

  lemma InsertPointer(m: Memory, h: Addr, r: Row, s: seq<Row>, i: nat, linked: bool, j: nat)
    requires IsList(m, h, s) && r in m.links && r !in s && i <= 5
    requires var t := if linked then [r] + s else s; j <= |t| && (linked ==> i == 5) && (j == 0 && !linked ==> i < 5)
    ensures var t := if linked then [r] + s else s; Pointer(([m] + InsertSteps(m, h, r))[i], h, t, j) == At(t, j)
  {
    hide InsertSteps, IsList, Pointer;
    ListLinks(m, h, s);
    var now := ([m] + InsertSteps(m, h, r))[i];
    if i > 0 {
      InsertNexts(m, h, r, i - 1);
      assert now == InsertSteps(m, h, r)[i - 1];
    }
    if linked {
      NewListPointer(m, now, h, r, s, j);
    } else {
      OldListPointer(m, now, h, r, s, j);
    }
  }

  lemma ListLinks(m: Memory, h: Addr, s: seq<Row>)
    requires IsList(m, h, s)
    ensures h in m.heads && m.heads[h] == At(s, 0)
    ensures forall k :: 0 <= k < |s| ==> s[k] in m.links && m.links[s[k]].next == At(s, k + 1)
  {
  }

  /** While the row is not linked, or behind the head, pointers are those of the old list. */
  lemma OldListPointer(m: Memory, now: Memory, h: Addr, r: Row, s: seq<Row>, j: nat)
    requires h in m.heads && m.heads[h] == At(s, 0) && r !in s && j <= |s|
    requires forall k :: 0 <= k < |s| ==> s[k] in m.links && m.links[s[k]].next == At(s, k + 1)
    requires forall x :: x in m.links && x != r ==> x in now.links && now.links[x].next == m.links[x].next
    requires j == 0 ==> now.heads == m.heads
    ensures Pointer(now, h, s, j) == At(s, j)
  {
  }

  lemma NewListPointer(m: Memory, now: Memory, h: Addr, r: Row, s: seq<Row>, j: nat)
    requires h in m.heads && m.heads[h] == At(s, 0) && r in now.links && r !in s && j <= |s| + 1
    requires forall k :: 0 <= k < |s| ==> s[k] in m.links && m.links[s[k]].next == At(s, k + 1)
    requires forall x :: x in m.links && x != r ==> x in now.links && now.links[x].next == m.links[x].next
    requires now.heads == m.heads[h := Some(r)] && now.links[r].next == m.heads[h]
    ensures Pointer(now, h, [r] + s, j) == At([r] + s, j)
  {
    if j > 1 {
      assert ([r] + s)[j - 1] == s[j - 2];
    }
  }

  /**
   * A reader that takes a step now and then while the stores of an insertion are made sees the old list or the new one.
   */
  lemma InsertWays(m: Memory, h: Addr, r: Row, s: seq<Row>, times: seq<nat>, way: seq<Row>, ended: bool)
    requires IsList(m, h, s) && r in m.links && r !in s && IsWay([m] + InsertSteps(m, h, r), h, times, way, ended)
    ensures Shows(way, ended, s) || Shows(way, ended, [r] + s)
  {
    hide InsertSteps, Pointer;
    var mems, linked := [m] + InsertSteps(m, h, r), times != [] && times[0] == 5;
    var t := if linked then [r] + s else s;
    forall j | 0 <= j < |times| && j <= |t| ensures Pointer(mems[times[j]], h, t, j) == At(t, j) {
      InsertPointer(m, h, r, s, times[j], linked, j);
    }
    WayShows(mems, h, times, way, ended, t);
  }

  lemma OldPointer(m: Memory, now: Memory, h: Addr, s: seq<Row>, j: nat)
    requires IsList(m, h, s) && SameNexts(m, now) && j <= |s|
    ensures Pointer(now, h, s, j) == At(s, j)
  {
    if j > 0 {
      assert m.links[s[j - 1]] == LinkAt(h, s, j - 1);
    }
  }

  lemma NewPointer(m: Memory, now: Memory, h: Addr, s: seq<Row>, k: nat, skipped: bool, j: nat)
    requires IsList(m, h, s) && k < |s| && (k > 0 ==> s[k - 1] in m.links) && Skips(m, now, h, s, k)
    requires j <= |if skipped then Without(s, k) else s| && (j == k ==> skipped)
    ensures var t := if skipped then Without(s, k) else s; Pointer(now, h, t, j) == At(t, j)
  {
    var t := if skipped then Without(s, k) else s;
    if j > 0 {
      var n := if skipped && j > k then j else j - 1;
      assert t[j - 1] == s[n] && m.links[s[n]] == LinkAt(h, s, n);
      assert k > 0 && s[n] == s[k - 1] ==> n == k - 1;
    }
  }

  lemma BeforePointer(s: seq<Row>, k: nat, m: Memory, h: Addr, j: nat)
    requires k < |s| && j < k
    ensures Pointer(m, h, Without(s, k), j) == Pointer(m, h, s, j) && At(Without(s, k), j) == At(s, j)
  {
  }

  lemma RemovePointer(m: Memory, h: Addr, s: seq<Row>, k: nat, i: nat, skipped: bool, j: nat)
    requires IsList(m, h, s) && k < |s| && Removable(m, s[k]) && i <= 3
    requires j <= |if skipped then Without(s, k) else s| && (j == k ==> (skipped <==> i >= 2)) &&
             (skipped && j > k ==> i >= 2)
    ensures var t := if skipped then Without(s, k) else s; Pointer(([m] + RemoveSteps(m, s[k]))[i], h, t, j) == At(t, j)
  {
    hide IsList, Removable, RemoveSteps, Skips, SameNexts, Pointer, Without;
    var now := ([m] + RemoveSteps(m, s[k]))[i];
    ListIsRemovable(m, h, s, k);
    if i == 0 {
      Unchanged(m);
    } else {
      RemoveNexts(m, h, s, k, i - 1);
      assert now == RemoveSteps(m, s[k])[i - 1];
    }
    if i < 2 {
      OldPointer(m, now, h, s, j);
      if skipped {
        BeforePointer(s, k, now, h, j);
      }
    } else {
      NewPointer(m, now, h, s, k, skipped, j);
    }
  }

  lemma Unchanged(m: Memory)
    ensures SameNexts(m, m)
  {
  }

  /** And so it does while the stores of a removal are made, wherever it stands when they begin. */
  lemma RemoveWays(m: Memory, h: Addr, s: seq<Row>, k: nat, times: seq<nat>, way: seq<Row>, ended: bool)
    requires IsList(m, h, s) && k < |s| && Removable(m, s[k]) && IsWay([m] + RemoveSteps(m, s[k]), h, times, way, ended)
    ensures Shows(way, ended, s) || Shows(way, ended, Without(s, k))
  {
    hide RemoveSteps, IsList, Pointer, Removable, Without;
    var mems, skipped := [m] + RemoveSteps(m, s[k]), k < |times| && times[k] >= 2;
    var t := if skipped then Without(s, k) else s;
    forall j | 0 <= j < |times| && j <= |t| ensures Pointer(mems[times[j]], h, t, j) == At(t, j) {
      RemovePointer(m, h, s, k, times[j], skipped, j);
    }
    WayShows(mems, h, times, way, ended, t);
  }

  // ----- whole memories -----

  /** `lists` gives the rows of every head's list; a row is in a list exactly when its `prev` is set. */
  ghost predicate LinksInv(m: Memory, lists: map<Addr, seq<Row>>) {
    (forall h :: h in m.heads <==> h in lists) && (forall h :: h in lists ==> IsList(m, h, lists[h])) &&
    forall r :: r in m.links && !m.links[r].prev.Detached? ==> Listed(m, lists, r)
  }

  ghost predicate Listed(m: Memory, lists: map<Addr, seq<Row>>, r: Row) {
    r in m.links && m.links[r].head.Some? && m.links[r].head.value in lists && r in lists[m.links[r].head.value]
  }

  /** A row is in at most one list, the one its `head` names. */
  lemma InOneList(m: Memory, lists: map<Addr, seq<Row>>, h: Addr, r: Row)
    requires LinksInv(m, lists) && h in lists && r in lists[h]
    ensures r in m.links && m.links[r].head == Some(h) && !m.links[r].prev.Detached?
  {
    assert IsList(m, h, lists[h]);
    var k :| 0 <= k < |lists[h]| && lists[h][k] == r;
    assert m.links[lists[h][k]] == LinkAt(h, lists[h], k);
  }

  /** Memories that agree on a list's head and rows agree on the list. */
  lemma SameList(m: Memory, m': Memory, h: Addr, s: seq<Row>)
    requires IsList(m, h, s) && h in m'.heads && m'.heads[h] == m.heads[h]
    requires forall r :: r in s ==> r in m'.links && m'.links[r] == m.links[r]
    ensures IsList(m', h, s)
  {
  }

  /** What ctable_ListInsertHead leaves, link by link. */
  lemma InsertLinks(m: Memory, h: Addr, r: Row, s: seq<Row>)
    requires IsList(m, h, s) && r in m.links && r !in s
    ensures var now := InsertSteps(m, h, r)[4];
      now.heads == m.heads[h := Some(r)] && (forall x :: x in now.links <==> x in m.links) &&
      now.links[r] == Link(At(s, 0), HeadOf(h), Some(h)) &&
      (forall x :: x in m.links && x != r && (s == [] || x != s[0]) ==> now.links[x] == m.links[x]) &&
      (s != [] ==> now.links[s[0]] == m.links[s[0]].(prev := NextOf(r)))
  {
  }

  lemma InsertedList(m: Memory, h: Addr, r: Row, s: seq<Row>)
    requires IsList(m, h, s) && r in m.links && r !in s
    ensures IsList(InsertSteps(m, h, r)[4], h, [r] + s)
  {
    hide InsertSteps;
    InsertLinks(m, h, r, s);
    var now, t := InsertSteps(m, h, r)[4], [r] + s;
    forall k | 0 <= k < |t| ensures t[k] in now.links && now.links[t[k]] == LinkAt(h, t, k) {
      if k > 0 {
        assert t[k] == s[k - 1] && m.links[s[k - 1]] == LinkAt(h, s, k - 1);
      }
    }
  }

  /** The links after an insertion, as InsertLinks describes them. */
  ghost predicate Inserted(m: Memory, now: Memory, h: Addr, r: Row, s: seq<Row>)
    requires IsList(m, h, s) && r in m.links
  {
    now.heads == m.heads[h := Some(r)] && (forall x :: x in now.links <==> x in m.links) &&
    now.links[r] == Link(At(s, 0), HeadOf(h), Some(h)) &&
    (forall x :: x in m.links && x != r && (s == [] || x != s[0]) ==> now.links[x] == m.links[x]) &&
    (s != [] ==> now.links[s[0]] == m.links[s[0]].(prev := NextOf(r)))
  }

  lemma InsertedOthers(m: Memory, now: Memory, lists: map<Addr, seq<Row>>, h: Addr, r: Row, g: Addr)
    requires LinksInv(m, lists) && h in lists && r in m.links && m.links[r].prev.Detached? && g in lists && g != h
    requires IsList(m, h, lists[h]) && Inserted(m, now, h, r, lists[h])
    ensures IsList(now, g, lists[g])
  {
    forall x | x in lists[g] ensures x in now.links && now.links[x] == m.links[x] {
      InOneList(m, lists, g, x);
      if lists[h] != [] {
        InOneList(m, lists, h, lists[h][0]);
      }
    }
    SameList(m, now, g, lists[g]);
  }

  lemma InsertedListed(m: Memory, now: Memory, lists: map<Addr, seq<Row>>, h: Addr, r: Row, x: Row)
    requires LinksInv(m, lists) && h in lists && r in m.links && m.links[r].prev.Detached?
    requires IsList(m, h, lists[h]) && Inserted(m, now, h, r, lists[h])
    requires x in now.links && !now.links[x].prev.Detached?
    ensures Listed(now, lists[h := [r] + lists[h]], x)
  {
    var s, t := lists[h], [r] + lists[h];
    if s != [] && x == s[0] {
      InOneList(m, lists, h, x);
      assert t[1] == x;
    } else if x == r {
      assert t[0] == r;
    } else {
      assert Listed(m, lists, x);
      if x in s {
        var j :| 0 <= j < |s| && s[j] == x;
        assert t[j + 1] == x;
      }
    }
  }

  lemma InsertedKeepsInv(m: Memory, now: Memory, lists: map<Addr, seq<Row>>, h: Addr, r: Row)
    requires LinksInv(m, lists) && h in lists && r in m.links && m.links[r].prev.Detached?
    requires IsList(m, h, lists[h]) && Inserted(m, now, h, r, lists[h]) && IsList(now, h, [r] + lists[h])
    ensures LinksInv(now, lists[h := [r] + lists[h]])
  {
    assert forall g :: g in now.heads <==> g in lists;
    hide IsList, Listed, Inserted;
    var lists' := lists[h := [r] + lists[h]];
    forall g | g in lists' ensures IsList(now, g, lists'[g]) {
      if g != h {
        InsertedOthers(m, now, lists, h, r, g);
      }
    }
    forall x | x in now.links && !now.links[x].prev.Detached? ensures Listed(now, lists', x) {
      InsertedListed(m, now, lists, h, r, x);
    }
  }

  lemma InsertKeepsInv(m: Memory, lists: map<Addr, seq<Row>>, h: Addr, r: Row)
    requires LinksInv(m, lists) && h in lists && r in m.links && m.links[r].prev.Detached?
    ensures IsList(m, h, lists[h]) && r !in lists[h]
    ensures LinksInv(InsertSteps(m, h, r)[4], lists[h := [r] + lists[h]])
  {
    var s := lists[h];
    assert IsList(m, h, s);
    if r in s {
      InOneList(m, lists, h, r);
    }
    InsertLinks(m, h, r, s);
    InsertedList(m, h, r, s);
    InsertedKeepsInv(m, InsertSteps(m, h, r)[4], lists, h, r);
    hide *;
  }

  /** What ctable_ListRemove leaves, link by link. */
  ghost predicate Unlinked(m: Memory, now: Memory, h: Addr, s: seq<Row>, k: nat)
    requires IsList(m, h, s) && k < |s|
  {
    now.heads == (if k == 0 then m.heads[h := At(s, 1)] else m.heads) &&
      (forall x :: x in now.links <==> x in m.links) &&
    now.links[s[k]] == m.links[s[k]].(prev := Detached) &&
    (forall x :: x in m.links && x != s[k] && (k == 0 || x != s[k - 1]) && (k + 1 == |s| || x != s[k + 1]) ==>
      now.links[x] == m.links[x]) &&
    (k > 0 ==> now.links[s[k - 1]] == m.links[s[k - 1]].(next := At(s, k + 1))) &&
    (k + 1 < |s| ==> now.links[s[k + 1]] == m.links[s[k + 1]].(prev := if k == 0 then HeadOf(h) else NextOf(s[k - 1])))
  }

  lemma RemoveFirst(m: Memory, h: Addr, s: seq<Row>)
    requires IsList(m, h, s) && s != []
    ensures Removable(m, s[0])
    ensures Unlinked(m, AfterDetach(m, s[0]), h, s, 0)
  {
    ListIsRemovable(m, h, s, 0);
  }

  lemma LaterStores(m: Memory, h: Addr, s: seq<Row>, k: nat)
    requires IsList(m, h, s) && 0 < k < |s| && Removable(m, s[k]) && s[k - 1] in m.links
    ensures var m1, now := AfterPrevStore(m, s[k]), AfterDetach(m, s[k]);
      s[k - 1] in m1.links && now.heads == m.heads &&
      now.links ==
        m1.links[s[k - 1] := m1.links[s[k - 1]].(next := At(s, k + 1))][s[k] := m1.links[s[k]].(prev := Detached)]
  {
    ListIsRemovable(m, h, s, k);
  }

  lemma RemoveLater(m: Memory, h: Addr, s: seq<Row>, k: nat)
    requires IsList(m, h, s) && 0 < k < |s|
    ensures Removable(m, s[k])
    ensures Unlinked(m, AfterDetach(m, s[k]), h, s, k)
  {
    hide AfterDetach, AfterSkip, StoreThrough;
    ListIsRemovable(m, h, s, k);
    LaterStores(m, h, s, k);
  }

  lemma RemoveUnlinks(m: Memory, h: Addr, s: seq<Row>, k: nat) returns (now: Memory)
    requires IsList(m, h, s) && k < |s|
    ensures Removable(m, s[k])
    ensures now == AfterDetach(m, s[k]) && Unlinked(m, now, h, s, k)
  {
    if k == 0 {
      RemoveFirst(m, h, s);
    } else {
      RemoveLater(m, h, s, k);
    }
    now := AfterDetach(m, s[k]);
    hide *;
  }

  lemma UnlinkedLinkAt(m: Memory, now: Memory, h: Addr, s: seq<Row>, k: nat, j: nat)
    requires IsList(m, h, s) && k < |s| && Unlinked(m, now, h, s, k) && j < |s| - 1
    ensures var t := Without(s, k); t[j] in now.links && now.links[t[j]] == LinkAt(h, t, j)
  {
    var t, j' := Without(s, k), if j < k then j else j + 1;
    assert t[j] == s[j'] && m.links[s[j']] == LinkAt(h, s, j');
  }

  lemma DistinctWithout(s: seq<Row>, k: nat)
    requires k < |s| && forall i, j :: 0 <= i < j < |s| ==> s[i] != s[j]
    ensures forall i, j :: 0 <= i < j < |Without(s, k)| ==> Without(s, k)[i] != Without(s, k)[j]
  {
  }

  lemma UnlinkedList(m: Memory, now: Memory, h: Addr, s: seq<Row>, k: nat)
    requires IsList(m, h, s) && k < |s| && Unlinked(m, now, h, s, k)
    ensures IsList(now, h, Without(s, k))
  {
    var t := Without(s, k);
    assert now.heads[h] == At(t, 0);
    DistinctWithout(s, k);
    hide Unlinked, LinkAt, Without;
    forall j | 0 <= j < |t| ensures t[j] in now.links && now.links[t[j]] == LinkAt(h, t, j) {
      UnlinkedLinkAt(m, now, h, s, k, j);
    }
  }

  lemma UnlinkedOthers(m: Memory, now: Memory, lists: map<Addr, seq<Row>>, h: Addr, k: nat, g: Addr)
    requires LinksInv(m, lists) && h in lists && k < |lists[h]| && g in lists && g != h
    requires IsList(m, h, lists[h]) && Unlinked(m, now, h, lists[h], k)
    ensures IsList(now, g, lists[g])
  {
    assert IsList(m, g, lists[g]);
    var s := lists[h];
    forall x | x in lists[g] ensures x in now.links && now.links[x] == m.links[x] {
      InOneList(m, lists, g, x);
      assert x !in s by {
        if x in s {
          InOneList(m, lists, h, x);
        }
      }
    }
    SameList(m, now, g, lists[g]);
  }

  lemma UnlinkedListed(m: Memory, now: Memory, lists: map<Addr, seq<Row>>, h: Addr, k: nat, x: Row)
    requires LinksInv(m, lists) && h in lists && k < |lists[h]|
    requires IsList(m, h, lists[h]) && Unlinked(m, now, h, lists[h], k)
    requires x in now.links && !now.links[x].prev.Detached?
    ensures Listed(now, lists[h := Without(lists[h], k)], x)
  {
    var s := lists[h];
    if x in s {
      var j :| 0 <= j < |s| && s[j] == x;
      assert m.links[s[j]] == LinkAt(h, s, j);
      assert Without(s, k)[if j < k then j else j - 1] == x;
    } else {
      assert Listed(m, lists, x);
    }
  }

  lemma UnlinkedHeads(m: Memory, now: Memory, h: Addr, s: seq<Row>, k: nat)
    requires IsList(m, h, s) && k < |s| && Unlinked(m, now, h, s, k)
    ensures forall g :: g in now.heads <==> g in m.heads
  {
  }

  lemma UnlinkedKeepsInv(m: Memory, now: Memory, lists: map<Addr, seq<Row>>, h: Addr, k: nat, t: seq<Row>)
    requires LinksInv(m, lists) && h in lists && k < |lists[h]|
    requires IsList(m, h, lists[h]) && Unlinked(m, now, h, lists[h], k) && IsList(now, h, t)
    requires forall x :: x in now.links && !now.links[x].prev.Detached? ==> Listed(now, lists[h := t], x)
    ensures LinksInv(now, lists[h := t])
  {
    hide IsList, Listed, Unlinked, Without;
    UnlinkedHeads(m, now, h, lists[h], k);
    forall g | g in lists && g != h ensures IsList(now, g, lists[g]) {
      UnlinkedOthers(m, now, lists, h, k, g);
    }
  }

  lemma RemoveKeepsInv(m: Memory, lists: map<Addr, seq<Row>>, h: Addr, k: nat)
    requires LinksInv(m, lists) && h in lists && k < |lists[h]|
    ensures Removable(m, lists[h][k])
    ensures LinksInv(AfterDetach(m, lists[h][k]), lists[h := Without(lists[h], k)])
  {
    assert IsList(m, h, lists[h]);
    var now := RemoveUnlinks(m, h, lists[h], k);
    UnlinkedList(m, now, h, lists[h], k);
    var t := Without(lists[h], k);
    hide *;
    forall x | x in now.links && !now.links[x].prev.Detached? ensures Listed(now, lists[h := t], x) {
      UnlinkedListed(m, now, lists, h, k, x);
    }
    UnlinkedKeepsInv(m, now, lists, h, k, t);
  }

  lemma RemoveOutcome(m: Memory, lists: map<Addr, seq<Row>>, h: Addr, k: nat)
    requires LinksInv(m, lists) && h in lists && k < |lists[h]|
    ensures var s := lists[h]; var r := s[k];
      Removable(m, r) &&
      m.links[r] == Link(At(s, k + 1), if k == 0 then HeadOf(h) else NextOf(s[k - 1]), Some(h)) &&
      var now := AfterDetach(m, r);
      now.heads == (if k == 0 then m.heads[h := At(s, 1)] else m.heads) &&
      (forall x :: x in now.links <==> x in m.links) && now.links[r] == m.links[r].(prev := Detached)
  {
    assert IsList(m, h, lists[h]);
    ListIsRemovable(m, h, lists[h], k);
    var now := RemoveUnlinks(m, h, lists[h], k);
  }

  /** The rows that are in some list. */
  ghost function LinkedRows(m: Memory): set<Row> {
    set r | r in m.links && !m.links[r].prev.Detached?
  }

  ghost predicate InSomeList(lists: map<Addr, seq<Row>>, r: Row) {
    exists h :: h in lists && r in lists[h]
  }

  lemma LinkedIsListed(m: Memory, lists: map<Addr, seq<Row>>, r: Row)
    requires LinksInv(m, lists)
    ensures r in LinkedRows(m) <==> InSomeList(lists, r)
  {
    if InSomeList(lists, r) {
      var h :| h in lists && r in lists[h];
      InOneList(m, lists, h, r);
    }
    if r in LinkedRows(m) {
      assert Listed(m, lists, r);
    }
  }

  // ----- the operations -----

  class RowLinks {
    var heads: map<Addr, Option<Row>>
    var links: map<Row, Link>
    ghost var lists: map<Addr, seq<Row>>

    ghost function Mem(): Memory
      reads this
    {
      Memory(heads, links)
    }

    ghost predicate Valid()
      reads this
    {
      LinksInv(Mem(), lists)
    }

    constructor ()
      ensures Valid() && heads == map[] && lists == map[] && links == map[]
    {
      heads, links, lists := map[], map[], map[];
    }

    /** ctable_ListInit on a new head. */
    method ListInit(h: Addr)
      requires Valid() && h !in heads
      modifies this`heads, this`lists
      ensures Valid() && lists == old(lists)[h := []] && heads == old(heads)[h := None]
    {
      ghost var m := Mem();
      heads := heads[h := None];
      lists := lists[h := []];
      hide IsList;
      forall g | g in lists ensures IsList(Mem(), g, lists[g]) {
        if g in m.heads && g != h {
          SameList(m, Mem(), g, lists[g]);
        } else {
          NewList(Mem(), h);
        }
      }
      forall r | r in links && !links[r].prev.Detached? ensures Listed(Mem(), lists, r) {
        assert Listed(m, old(lists), r);
      }
    }

    /** Gives up a head whose list is empty. */
    method DropHead(h: Addr)
      requires h in lists && lists[h] == []
      requires LinksInv(Memory(heads[h := None], links), lists)
      modifies this`heads, this`lists
      ensures Valid() && lists == old(lists) - {h} && heads == old(heads) - {h}
    {
      ghost var m := Memory(heads[h := None], links);
      heads := heads - {h};
      lists := lists - {h};
      hide IsList;
      forall g | g in lists ensures IsList(Mem(), g, lists[g]) {
        SameList(m, Mem(), g, lists[g]);
      }
      forall r | r in links && !links[r].prev.Detached? ensures Listed(Mem(), lists, r) {
        assert Listed(m, old(lists), r);
      }
    }

    /** A row's node as it is before the row is in any list. */
    method AddRow(r: Row)
      requires Valid() && r !in links
      modifies this`links
      ensures Valid() && links == old(links)[r := Link(None, Detached, None)]
    {
      ghost var m := Mem();
      links := links[r := Link(None, Detached, None)];
      hide IsList;
      forall g | g in lists ensures IsList(Mem(), g, lists[g]) {
        forall x | x in lists[g] ensures x in links && links[x] == m.links[x] { InOneList(m, lists, g, x); }
        SameList(m, Mem(), g, lists[g]);
      }
      forall x | x in links && !links[x].prev.Detached? ensures Listed(Mem(), lists, x) {
        assert Listed(m, lists, x);
      }
    }

    /** The row is freed; it must be in no list. */
    method ForgetRow(r: Row)
      requires Valid() && r in links && links[r].prev.Detached?
      modifies this`links
      ensures Valid() && links == old(links) - {r}
    {
      ghost var m := Mem();
      links := links - {r};
      hide IsList;
      forall g | g in lists ensures IsList(Mem(), g, lists[g]) {
        forall x | x in lists[g] ensures x in links && links[x] == m.links[x] { InOneList(m, lists, g, x); }
        SameList(m, Mem(), g, lists[g]);
      }
      forall x | x in links && !links[x].prev.Detached? ensures Listed(Mem(), lists, x) {
        assert Listed(m, lists, x);
      }
    }

    /** ctable_ListInsertHead. `trace` records the memory after each store. */
    method InsertHead(h: Addr, r: Row) returns (ghost trace: seq<Memory>)
      requires Valid() && h in lists && r in links && links[r].prev.Detached?
      modifies this
      ensures Valid() && lists == old(lists)[h := [r] + old(lists[h])]
      ensures heads == old(heads)[h := Some(r)] && forall x :: x in links <==> x in old(links)
      ensures trace == InsertSteps(old(Mem()), h, r)
    {
      ghost var m := Mem();
      InsertKeepsInv(m, lists, h, r);
      InsertNexts(m, h, r, 4);
      links := links[r := links[r].(prev := HeadOf(h))];
      ghost var m1 := Mem();
      links := links[r := links[r].(head := Some(h))];
      ghost var m2 := Mem();
      links := links[r := links[r].(next := heads[h])];
      ghost var m3 := Mem();
      if heads[h].Some? {
        var first := heads[h].value;
        links := links[first := links[first].(prev := NextOf(r))];
      }
      ghost var m4 := Mem();
      heads := heads[h := Some(r)];
      trace := [m1, m2, m3, m4, Mem()];
      lists := lists[h := [r] + lists[h]];
    }

    /** `row->prev = prev`. */
    method PutPrev(r: Row, prev: Prev)
      requires r in links
      modifies this`links
      ensures Mem() == SetPrev(old(Mem()), r, prev) && forall x :: x in links <==> x in old(links)
    {
      links := links[r := links[r].(prev := prev)];
    }

    /** `*prev = value`. */
    method PutThrough(prev: Prev, value: Option<Row>)
      requires prev.NextOf? ==> prev.row in links
      modifies this`heads, this`links
      ensures Mem() == StoreThrough(old(Mem()), prev, value) && forall x :: x in links <==> x in old(links)
    {
      match prev {
        case Detached =>
        case HeadOf(g) => heads := heads[g := value];
        case NextOf(before) => links := links[before := links[before].(next := value)];
      }
    }

    /** The stores of ctable_ListRemoveMightBeTheLastOne; ctable_ListRemove makes the same ones. */
    method RemoveStores(r: Row) returns (mightBeTheLastOne: bool, ghost trace: seq<Memory>)
      requires Removable(Mem(), r)
      modifies this`heads, this`links
      ensures trace == RemoveSteps(old(Mem()), r) && Mem() == trace[2]
      ensures mightBeTheLastOne <==> old(links[r]).next.None?
    {
      hide SetPrev, StoreThrough;
      ghost var m := Mem();
      var link := links[r];
      if link.next.Some? {
        PutPrev(link.next.value, link.prev);
      }
      mightBeTheLastOne := link.next.None?;
      ghost var m1 := Mem();
      PutThrough(link.prev, link.next);
      ghost var m2 := Mem();
      PutPrev(r, Detached);
      trace := [m1, m2, Mem()];
    }

    /** ctable_ListRemoveMightBeTheLastOne on the row at place `k` of the list at `h`. */
    method Remove(r: Row, ghost h: Addr, ghost k: nat) returns (mightBeTheLastOne: bool, ghost trace: seq<Memory>)
      requires Valid() && h in lists && k < |lists[h]| && lists[h][k] == r
      modifies this
      ensures Valid() && lists == old(lists[h := Without(lists[h], k)])
      ensures mightBeTheLastOne <==> k + 1 == |old(lists[h])|
      ensures old(Removable(Mem(), r)) && trace == RemoveSteps(old(Mem()), r) && Mem() == trace[2]
    {
      hide LinksInv, IsList, Without, Removable, AfterPrevStore, AfterSkip, AfterDetach;
      ghost var m, lists' := Mem(), lists[h := Without(lists[h], k)];
      RemoveKeepsInv(m, lists, h, k);
      RemoveOutcome(m, lists, h, k);
      mightBeTheLastOne, trace := RemoveStores(r);
      lists := lists';
    }
  }

  /** The address of a table's ll_head. */
  const LL_HEAD: Addr := 0

  /** The list of all rows of a table. */
  ghost predicate MainList(main: RowLinks, all: seq<Row>)
    reads main
  {
    main.Valid() && main.lists == map[LL_HEAD := all]
  }

  lemma MainIsSeen(main: RowLinks, all: seq<Row>)
    requires MainList(main, all)
    ensures LL_HEAD in main.heads && Sees(main.Mem(), main.heads[LL_HEAD], all, 0)
    ensures forall i, j :: 0 <= i < j < |all| ==> all[i] != all[j]
  {
    var m := main.Mem();
    assert IsList(m, LL_HEAD, main.lists[LL_HEAD]);
    assert forall k :: 0 <= k < |all| ==> m.links[all[k]] == LinkAt(LL_HEAD, all, k);
  }

  lemma NewList(m: Memory, h: Addr)
    requires h in m.heads && m.heads[h] == None
    ensures IsList(m, h, [])
  {
  }
}
