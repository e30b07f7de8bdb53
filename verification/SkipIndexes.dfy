// The skip-list index of ctables/skiplists/jsw_slib.c over a column of row values. A node's address is also
// the address of the head of its bucket, the list of rows whose values compare equal to the node's key.

module SkipIndexes {
  import opened FieldCompare
  import opened Options
  import opened RowLists
  import opened SkipLists

  /** One field of every row. */
  class Column {
    var values: map<Row, Value>

    constructor ()
      ensures values == map[]
    {
      values := map[];
    }
  }

  /** The first row in a node's bucket, through which the source compares, has the node's key. */
  ghost predicate Keyed(kind: Kind, heads: map<Addr, Option<Row>>, values: map<Row, Value>, keys: map<Addr, Value>,
           n: Addr) {
    n in keys && n in heads && heads[n].Some? && heads[n].value in values &&
    Compare(kind, values[heads[n].value], keys[n]) == 0
  }

  ghost predicate HasKey(kind: Kind, L: seq<Addr>, keys: map<Addr, Value>, key: Value) {
    exists n :: n in L && n in keys && Compare(kind, key, keys[n]) == 0
  }

  /** Comparing with the bucket's first row is comparing with the key. */
  lemma KeyedCompares(kind: Kind, heads: map<Addr, Option<Row>>, values: map<Row, Value>, keys: map<Addr, Value>,
           n: Addr, key: Value)
    requires Keyed(kind, heads, values, keys, n)
    ensures var v := values[heads[n].value];
      (Compare(kind, key, v) > 0 <==> Compare(kind, key, keys[n]) > 0) &&
        (Compare(kind, key, v) == 0 <==> Compare(kind, key, keys[n]) == 0) &&
      (Compare(kind, v, key) < 0 <==> Compare(kind, key, keys[n]) > 0)
  {
    hide Compare;
    var v := values[heads[n].value];
    CompareLaws(kind, key, v, keys[n]);
    CompareLaws(kind, key, keys[n], v);
    CompareLaws(kind, v, key, keys[n]);
  }

  /** A node's going leaves the others their keys. */
  lemma KeyedRest(kind: Kind, heads: map<Addr, Option<Row>>, values: map<Row, Value>, keys: map<Addr, Value>,
           L: seq<Addr>, c: nat)
    requires Ascends(kind, keys, L) && c < |L| && forall n :: n in L ==> Keyed(kind, heads, values, keys, n)
    ensures forall n :: n in Without(L, c) ==> Keyed(kind, heads - {L[c]}, values, keys, n)
  {
    hide Compare;
    Distinct(kind, keys, L);
    NodesDropped(L, c);
  }

  /** What locate records for one level. */
  ghost predicate Located(kind: Kind, keys: map<Addr, Value>, L: seq<Addr>, key: Value, c: nat, p: Addr) {
    (forall a :: 0 <= a < |L| ==> L[a] in keys) && Cut(kind, keys, L, key, c) && p == Node(L, c)
  }

  /** The rows of a node's bucket have the node's key. */
  ghost predicate BucketOf(kind: Kind, lists: map<Addr, seq<Row>>, values: map<Row, Value>, keys: map<Addr, Value>,
           n: Addr) {
    n in keys && n in lists && lists[n] != [] &&
    forall r :: r in lists[n] ==> r in values && Compare(kind, values[r], keys[n]) == 0
  }

  /** A bucket, perhaps a new one, has got the row at its front. */
  ghost function Grown(lists: map<Addr, seq<Row>>, n: Addr, row: Row): map<Addr, seq<Row>> {
    lists[n := [row] + if n in lists then lists[n] else []]
  }

  ghost predicate IsPlace(lists: map<Addr, seq<Row>>, n: Addr, k: nat, row: Row) {
    n in lists && k < |lists[n]| && lists[n][k] == row
  }

  /** A bucket has lost the row at place `k`; an empty bucket is gone. */
  ghost function Shrunk(lists: map<Addr, seq<Row>>, n: Addr, k: nat): map<Addr, seq<Row>>
    requires n in lists && k < |lists[n]|
  {
    if |lists[n]| == 1 then lists - {n} else lists[n := Without(lists[n], k)]
  }

  /** A row that is in a list is in the one its `head` names. */
  lemma PlaceOf(m: Memory, lists: map<Addr, seq<Row>>, row: Row) returns (n: Addr, k: nat)
    requires LinksInv(m, lists) && row in m.links && !m.links[row].prev.Detached?
    ensures IsPlace(lists, n, k, row) && m.links[row].head == Some(n)
  {
    assert Listed(m, lists, row);
    n := m.links[row].head.value;
    k :| 0 <= k < |lists[n]| && lists[n][k] == row;
  }

  /** Exactly that row has left the index. */
  lemma LinkedAfterRemoval(m: Memory, lists: map<Addr, seq<Row>>, m': Memory, n: Addr, k: nat, row: Row)
    requires LinksInv(m, lists) && IsPlace(lists, n, k, row) && LinksInv(m', Shrunk(lists, n, k))
    ensures LinkedRows(m') == LinkedRows(m) - {row}
  {
    hide LinksInv, LinkedRows, InSomeList;
    var lists' := Shrunk(lists, n, k);
    forall r ensures r in LinkedRows(m') <==> r in LinkedRows(m) && r != row {
      LinkedIsListed(m, lists, r);
      LinkedIsListed(m', lists', r);
      ShrunkLists(m, lists, n, k, row, r);
    }
  }

  lemma ShrunkLists(m: Memory, lists: map<Addr, seq<Row>>, n: Addr, k: nat, row: Row, r: Row)
    requires LinksInv(m, lists) && IsPlace(lists, n, k, row)
    ensures InSomeList(Shrunk(lists, n, k), r) <==> InSomeList(lists, r) && r != row
  {
    hide LinksInv;
    if InSomeList(Shrunk(lists, n, k), r) {
      ShrunkHad(m, lists, n, k, row, r);
    }
    if InSomeList(lists, r) && r != row {
      ShrunkKeeps(lists, n, k, row, r);
    }
  }

  lemma ShrunkHad(m: Memory, lists: map<Addr, seq<Row>>, n: Addr, k: nat, row: Row, r: Row)
    requires LinksInv(m, lists) && IsPlace(lists, n, k, row) && InSomeList(Shrunk(lists, n, k), r)
    ensures InSomeList(lists, r) && r != row
  {
    hide LinksInv;
    var lists', s := Shrunk(lists, n, k), lists[n];
    var h :| h in lists' && r in lists'[h];
    assert r in lists[h];
    if r == row {
      InOneList(m, lists, h, r);
      InOneList(m, lists, n, r);
      var j :| 0 <= j < |Without(s, k)| && Without(s, k)[j] == r;
      NotAgain(m, lists, n, k, j);
    }
  }

  lemma ShrunkKeeps(lists: map<Addr, seq<Row>>, n: Addr, k: nat, row: Row, r: Row)
    requires IsPlace(lists, n, k, row) && InSomeList(lists, r) && r != row
    ensures InSomeList(Shrunk(lists, n, k), r)
  {
    var h :| h in lists && r in lists[h];
    if h == n {
      var s := lists[n];
      var j :| 0 <= j < |s| && s[j] == r;
      assert Without(s, k)[if j < k then j else j - 1] == r;
    }
    assert h in Shrunk(lists, n, k) && r in Shrunk(lists, n, k)[h];
  }

  lemma NotAgain(m: Memory, lists: map<Addr, seq<Row>>, n: Addr, k: nat, j: nat)
    requires LinksInv(m, lists) && n in lists && k < |lists[n]| && j < |Without(lists[n], k)|
    ensures Without(lists[n], k)[j] != lists[n][k]
  {
    assert IsList(m, n, lists[n]);
  }

  /** Exactly that row has come into the index. */
  lemma LinkedAfterInsertion(m: Memory, lists: map<Addr, seq<Row>>, m': Memory, n: Addr, row: Row)
    requires LinksInv(m, lists) && LinksInv(m', Grown(lists, n, row))
    ensures LinkedRows(m') == LinkedRows(m) + {row}
  {
    hide LinksInv, LinkedRows;
    var lists' := Grown(lists, n, row);
    forall r ensures r in LinkedRows(m') <==> r in LinkedRows(m) || r == row {
      LinkedIsListed(m, lists, r);
      LinkedIsListed(m', lists', r);
      if InSomeList(lists, r) {
        var h :| h in lists && r in lists[h];
        assert h in lists' && r in lists'[h];
      }
      assert row in lists'[n];
    }
  }

  lemma BucketsElsewhere(kind: Kind, m: Memory, lists: map<Addr, seq<Row>>, values: map<Row, Value>,
           values': map<Row, Value>,
                         keys: map<Addr, Value>, L: seq<Addr>, r: Row)
    requires LinksInv(m, lists) && r !in LinkedRows(m) && forall n :: n in L ==> BucketOf(kind, lists, values, keys, n)
    requires forall x :: x != r && x in values ==> x in values' && values'[x] == values[x]
    ensures forall n :: n in L ==> BucketOf(kind, lists, values', keys, n)
  {
    hide Compare, LinksInv, LinkedRows;
    LinkedIsListed(m, lists, r);
    forall n | n in L ensures BucketOf(kind, lists, values', keys, n) {
      assert BucketOf(kind, lists, values, keys, n);
    }
  }

  lemma HeadShows(m: Memory, lists: map<Addr, seq<Row>>, n: Addr)
    requires LinksInv(m, lists) && n in lists
    ensures n in m.heads && m.heads[n] == At(lists[n], 0)
  {
    assert IsList(m, n, lists[n]);
  }

  lemma BucketsRest(kind: Kind, lists: map<Addr, seq<Row>>, values: map<Row, Value>, keys: map<Addr, Value>,
           L: seq<Addr>, n: Addr)
    requires forall m :: m in L && m != n ==> BucketOf(kind, lists, values, keys, m)
    ensures forall m :: m in L && m != n ==> BucketOf(kind, lists - {n}, values, keys, m)
  {
    hide Compare;
  }

  /** Every bucket but an emptied one is still a bucket. */
  lemma BucketsWithout(kind: Kind, lists: map<Addr, seq<Row>>, values: map<Row, Value>, keys: map<Addr, Value>,
           L: seq<Addr>, n: Addr, k: nat)
    requires (forall m :: m in L ==> BucketOf(kind, lists, values, keys, m)) && n in L && n in lists && k < |lists[n]|
    ensures forall m :: m in L && (m != n || |lists[n]| > 1) ==>
              BucketOf(kind, lists[n := Without(lists[n], k)], values, keys, m)
    ensures n in keys && lists[n][k] in values && Compare(kind, values[lists[n][k]], keys[n]) == 0
  {
    hide Compare;
    assert BucketOf(kind, lists, values, keys, n);
    forall r | r in Without(lists[n], k) ensures r in lists[n] {}
    assert |lists[n]| > 1 ==> |Without(lists[n], k)| > 0;
    assert lists[n][k] in lists[n];
  }

  /** No two nodes of a level have equal keys. */
  lemma OnlyNode(kind: Kind, keys: map<Addr, Value>, L: seq<Addr>, key: Value, n: Addr)
    requires Ascends(kind, keys, L) && n in L && Compare(kind, key, keys[n]) == 0
    ensures forall m :: m in L && m in keys && Compare(kind, key, keys[m]) == 0 ==> m == n
  {
    hide Compare;
    forall m | m in L && m in keys && Compare(kind, key, keys[m]) == 0 ensures m == n {
      CompareLaws(kind, keys[m], key, keys[n]);
      CompareLaws(kind, keys[n], key, keys[m]);
    }
  }

  /** Rows of two buckets compare equal exactly when it is one bucket. */
  ghost predicate KeptApart(kind: Kind, lists: map<Addr, seq<Row>>, values: map<Row, Value>, n: Addr, g: Addr) {
    n in lists && g in lists &&
    forall r, q :: r in lists[n] && q in lists[g] ==>
        r in values && q in values && (Compare(kind, values[r], values[q]) == 0 <==> n == g)
  }

  ghost predicate InBucket(lists: map<Addr, seq<Row>>, L: seq<Addr>, r: Row) {
    exists n :: n in L && n in lists && r in lists[n]
  }

  /** The buckets partition the linked rows by compare-equality. */
  ghost predicate Partitioned(kind: Kind, m: Memory, lists: map<Addr, seq<Row>>, values: map<Row, Value>,
           L: seq<Addr>) {
    (forall r :: r in m.links && !m.links[r].prev.Detached? ==> InBucket(lists, L, r)) &&
    forall n, g :: n in L && g in L ==> KeptApart(kind, lists, values, n, g)
  }

  lemma BucketsArePartition(kind: Kind, m: Memory, lists: map<Addr, seq<Row>>, values: map<Row, Value>,
           keys: map<Addr, Value>, L: seq<Addr>)
    requires LinksInv(m, lists) && Ascends(kind, keys, L) && (forall h :: h in lists <==> h == HEAD || h in L) &&
             lists[HEAD] == []
    requires forall n :: n in L ==> BucketOf(kind, lists, values, keys, n)
    ensures Partitioned(kind, m, lists, values, L)
  {
    hide LinksInv, Ascends, BucketOf, KeptApart;
    forall r | r in m.links && !m.links[r].prev.Detached? ensures InBucket(lists, L, r) {
      var n, k := PlaceOf(m, lists, r);
    }
    forall n, g | n in L && g in L ensures KeptApart(kind, lists, values, n, g) {
      BucketsApart(kind, lists, values, keys, L, n, g);
    }
  }

  lemma BucketsApart(kind: Kind, lists: map<Addr, seq<Row>>, values: map<Row, Value>, keys: map<Addr, Value>,
           L: seq<Addr>,
           n: Addr, g: Addr)
    requires Ascends(kind, keys, L) && n in L && g in L && BucketOf(kind, lists, values, keys, n) &&
             BucketOf(kind, lists, values, keys, g)
    ensures KeptApart(kind, lists, values, n, g)
  {
    hide Compare, Ascends;
    forall r, q | r in lists[n] && q in lists[g]
      ensures r in values && q in values && (Compare(kind, values[r], values[q]) == 0 <==> n == g)
    {
      EqualBuckets(kind, keys, L, n, g, values[r], values[q]);
    }
  }

  lemma EqualBuckets(kind: Kind, keys: map<Addr, Value>, L: seq<Addr>, n: Addr, m: Addr, v: Value, w: Value)
    requires Ascends(kind, keys, L) && n in L && m in L && n in keys && m in keys
    requires Compare(kind, v, keys[n]) == 0 && Compare(kind, w, keys[m]) == 0
    ensures Compare(kind, v, w) == 0 <==> n == m
  {
    hide Compare;
    CompareLaws(kind, w, keys[m], w);
    if n == m {
      CompareLaws(kind, v, keys[m], w);
    }
    if Compare(kind, v, w) == 0 {
      CompareLaws(kind, v, w, keys[m]);
      OnlyNode(kind, keys, L, v, n);
    }
  }

  lemma AddressBound(used: set<Addr>) returns (bound: Addr)
    ensures forall x :: x in used ==> x < bound
  {
    bound := 0;
    if used != {} {
      var x :| x in used;
      bound := AddressBound(used - {x});
      forall y | y in used ensures y == x || y < bound {
        assert y == x || y in used - {x};
      }
      bound := if x < bound then bound else x + 1;
    }
  }

  function NoLinks(h: nat): (r: seq<Option<Addr>>)
    ensures |r| == h && forall i :: 0 <= i < h ==> r[i] == None
  {
    seq(h, _ => None)
  }

  class SkipIndex {
    const kind: Kind
    const maxh: nat
    const links: RowLinks
    const column: Column
    const fix: array<Addr>
    var next: Links
    var curh: nat
    var size: int
    var curl: Option<Addr>
    ghost var keys: map<Addr, Value>
    ghost var levels: seq<seq<Addr>>

    /** The skip list is in order and every node's bucket shows its key. */
    ghost predicate Searchable()
      reads this`next, this`curh, this`keys, this`levels, links, column
    {
      maxh == |levels| == fix.Length && Shape(kind, next, keys, levels, curh) &&
      HEAD in links.heads && links.heads[HEAD].None? &&
      forall n :: n in levels[0] ==> Keyed(kind, links.heads, column.values, keys, n)
    }

    /** The nodes, in order. */
    ghost function Nodes(): seq<Addr>
      reads this`levels
    {
      if levels == [] then [] else levels[0]
    }

    /** jsw_snew. The header's own row pointer is NULL. */
    constructor (depth: nat, kind: Kind, links: RowLinks, column: Column)
      requires links.Valid() && links.lists == map[]
      modifies links`heads, links`lists
      ensures this.kind == kind && this.links == links && this.column == column && maxh == depth + 1 && fresh(fix)
      ensures links.Valid() && links.lists == map[HEAD := []]
      ensures Searchable() && levels[0] == [] && size == 0
    {
      this.kind, this.links, this.column := kind, links, column;
      maxh := depth + 1;
      fix := new Addr[depth + 1](_ => HEAD);
      next := map[HEAD := seq(depth + 1, _ => None)];
      curh, size, curl := 0, 0, None;
      keys, levels := map[], seq(depth + 1, _ => []);
      new;
      links.ListInit(HEAD);
      assert forall i, a :: 0 <= i < maxh && 0 <= a <= |levels[i]| ==> HasLink(next, i, levels[i], a);
      forall i | 0 <= i < maxh ensures LevelInv(kind, next, keys, levels, curh, i) {}
    }

    lemma LevelFacts(i: nat)
      requires Searchable() && i < maxh
      ensures Linked(next, i, levels[i]) && Ascends(kind, keys, levels[i]) && (i > 0 ==> Sub(levels[i], levels[i - 1]))
      ensures i >= curh ==> levels[i] == []
      ensures forall n :: n in levels[i] ==> n in levels[0] && n in keys
    {
      assert LevelInv(kind, next, keys, levels, curh, i);
      SubsetOfBottom(i);
    }

    lemma {:induction false} SubsetOfBottom(i: nat)
      requires Searchable() && i < maxh
      ensures forall n :: n in levels[i] ==> n in levels[0] && n in keys
    {
      assert LevelInv(kind, next, keys, levels, curh, i);
      if i > 0 {
        SubsetOfBottom(i - 1);
      }
    }

    /** One level of locate: move right while the key is greater than the next node's. */
    method Advance(i: nat, start: Addr, key: Value, ghost from: nat) returns (p: Addr, ghost c: nat)
      requires Searchable() && i < maxh && from <= |levels[i]| && start == Node(levels[i], from)
      requires from > 0 ==> start in keys && Compare(kind, key, keys[start]) > 0
      ensures Located(kind, keys, levels[i], key, c, p) && c <= |levels[i]| && p == Node(levels[i], c)
      ensures c > 0 ==> p in keys && Compare(kind, key, keys[p]) > 0
    {
      hide Compare, Shape;
      LevelFacts(i);
      p, c := start, from;
      while true
        invariant c <= |levels[i]| && p == Node(levels[i], c)
        invariant c > 0 ==> p in keys && Compare(kind, key, keys[p]) > 0
        decreases |levels[i]| - c
      {
        assert HasLink(next, i, levels[i], c);
        var n := next[p][i];
        if n.None? {
          break;
        }
        assert n.value in levels[i] && Keyed(kind, links.heads, column.values, keys, n.value);
        KeyedCompares(kind, links.heads, column.values, keys, n.value, key);
        if Compare(kind, key, column.values[links.heads[n.value].value]) <= 0 {
          break;
        }
        p, c := n.value, c + 1;
      }
      CutHere(kind, keys, levels[i], key, c);
    }

    /** locate: from the top level down, the last node below the key; `fix` keeps one for every level. */
    method Locate(key: Value) returns (p: Addr, ghost cuts: seq<nat>)
      requires Searchable()
      modifies fix
      ensures Searchable() && |cuts| == curh + 1
      ensures forall i :: 0 <= i <= curh ==> Located(kind, keys, levels[i], key, cuts[i], fix[i])
      ensures p == fix[0]
    {
      hide Compare, Shape, Located;
      assert curh < maxh by { ShapeHeight(); }
      p, cuts := HEAD, seq(curh + 1, _ => 0);
      ghost var c: nat := 0;
      var i: int := curh;
      while i >= 0
        invariant -1 <= i <= curh && |cuts| == curh + 1
        invariant i >= 0 ==> c <= |levels[i]| && p == Node(levels[i], c)
        invariant i >= 0 ==> (c > 0 ==> p in keys && Compare(kind, key, keys[p]) > 0)
        invariant forall j :: i < j <= curh ==> Located(kind, keys, levels[j], key, cuts[j], fix[j])
        invariant i < 0 ==> p == fix[0]
      {
        p, c := Advance(i, p, key, c);
        fix[i] := p;
        cuts := cuts[i := c];
        if i > 0 {
          LevelFacts(i);
          c := Descend(levels[i], levels[i - 1], c);
        }
        i := i - 1;
      }
    }

    lemma ShapeHeight()
      requires Searchable()
      ensures curh < maxh && |levels| == maxh && HEAD in next && |next[HEAD]| == maxh && HEAD !in levels[0]
      ensures forall n :: n in next <==> n == HEAD || n in levels[0]
    {
    }

    /** The answer of locate as facts about all levels. */
    lemma LocatedCuts(key: Value, cuts: seq<nat>)
      requires Searchable() && |cuts| == curh + 1
      requires forall i :: 0 <= i <= curh ==> Located(kind, keys, levels[i], key, cuts[i], fix[i])
      ensures CutsAll(kind, keys, levels, key, cuts)
      ensures forall i :: 0 <= i <= curh ==> fix[i] == Node(levels[i], cuts[i])
    {
      hide Compare;
    }

    /** `locate(skip, row)->next[0]` and its comparison with the row. */
    method LocateEqual(key: Value) returns (q: Option<Addr>, equal: bool, ghost cuts: seq<nat>)
      requires Searchable()
      modifies fix
      ensures Searchable() && |cuts| == curh + 1 && CutsAll(kind, keys, levels, key, cuts)
      ensures forall i :: 0 <= i <= curh ==> fix[i] == Node(levels[i], cuts[i])
      ensures q == At(levels[0], cuts[0]) &&
              (equal ==> q.Some? && q.value in keys && Compare(kind, key, keys[q.value]) == 0)
      ensures equal <==> HasKey(kind, levels[0], keys, key)
    {
      hide Compare, Shape, Linked, Ascends, Cut;
      var p;
      p, cuts := Locate(key);
      LocatedCuts(key, cuts);
      ShapeHeight();
      LevelFacts(0);
      NextAt(0, cuts[0]);
      q, equal := next[p][0], false;
      if q.Some? {
        assert Keyed(kind, links.heads, column.values, keys, q.value);
        KeyedCompares(kind, links.heads, column.values, keys, q.value, key);
        equal := Compare(kind, key, column.values[links.heads[q.value].value]) == 0;
      }
      if !equal {
        NothingElse(key, cuts[0]);
      }
    }

    /** jsw_sfind: leaves the current link at the first node not below the key; answers it if its key is equal. */
    method Find(key: Value) returns (r: Option<Addr>, ghost c: nat)
      requires Searchable()
      modifies this`curl, fix
      ensures Searchable() && c <= |levels[0]| && (forall a :: 0 <= a < |levels[0]| ==> levels[0][a] in keys)
      ensures Cut(kind, keys, levels[0], key, c) && curl == At(levels[0], c)
      ensures r.Some? ==> r == curl && c < |levels[0]| && Compare(kind, key, keys[levels[0][c]]) == 0
      ensures r.Some? <==> HasKey(kind, levels[0], keys, key)
    {
      hide Compare, Shape, Linked, Ascends, Cut;
      var q, equal, cuts := LocateEqual(key);
      ShapeHeight();
      c := cuts[0];
      curl := q;
      r := if equal then q else None;
    }

    lemma NextAt(i: nat, c: nat)
      requires Searchable() && i < maxh && c <= |levels[i]|
      ensures HasLink(next, i, levels[i], c)
    {
      LevelFacts(i);
    }

    /** If the node behind the cut is not equal to the key, no node is. */
    lemma NothingElse(key: Value, c: nat)
      requires Searchable() && (forall a :: 0 <= a < |levels[0]| ==> levels[0][a] in keys)
      requires Cut(kind, keys, levels[0], key, c)
      requires c < |levels[0]| ==> Compare(kind, key, keys[levels[0][c]]) != 0
      ensures !HasKey(kind, levels[0], keys, key)
    {
      hide Compare, Shape;
      ShapeHeight();
      LevelFacts(0);
      forall n | n in levels[0] ensures Compare(kind, key, keys[n]) != 0 {
        if Compare(kind, key, keys[n]) == 0 {
          FoundAtCut(kind, keys, levels[0], key, c, n);
        }
      }
    }

    /** The loop of jsw_sfind_equal_or_greater, from a node below the key. */
    method PassLesser(p: Addr, key: Value, ghost from: nat) returns (ghost c: nat)
      requires Searchable() && from <= |levels[0]| && p == Node(levels[0], from)
      requires from > 0 ==> p in keys && Compare(kind, key, keys[p]) > 0
      modifies this`curl
      ensures Searchable() && c <= |levels[0]| && (forall a :: 0 <= a < |levels[0]| ==> levels[0][a] in keys)
      ensures Cut(kind, keys, levels[0], key, c) && curl == At(levels[0], c)
    {
      hide Compare, Shape, Linked, Ascends;
      ShapeHeight();
      LevelFacts(0);
      ghost var L := levels[0];
      c := from;
      NextAt(0, c);
      var q := next[p][0];
      while q.Some? && Compare(kind, column.values[links.heads[q.value].value], key) < 0
        invariant c <= |L| && q == At(L, c)
        invariant c > 0 ==> Compare(kind, key, keys[L[c - 1]]) > 0
        decreases |L| - c
      {
        assert Keyed(kind, links.heads, column.values, keys, q.value);
        KeyedCompares(kind, links.heads, column.values, keys, q.value, key);
        NextAt(0, c + 1);
        q, c := next[q.value][0], c + 1;
      }
      if q.Some? {
        assert Keyed(kind, links.heads, column.values, keys, q.value);
        KeyedCompares(kind, links.heads, column.values, keys, q.value, key);
      }
      CutHere(kind, keys, L, key, c);
      curl := q;
    }

    /** jsw_sfind_equal_or_greater: the current link is the first node not below the key. */
    method FindEqualOrGreater(key: Value) returns (ghost c: nat)
      requires Searchable()
      modifies this`curl, fix
      ensures Searchable() && c <= |levels[0]| && (forall a :: 0 <= a < |levels[0]| ==> levels[0][a] in keys)
      ensures Cut(kind, keys, levels[0], key, c) && curl == At(levels[0], c)
    {
      hide Compare, Shape, Linked, Ascends;
      var p, cuts := Locate(key);
      LocatedCuts(key, cuts);
      ShapeHeight();
      c := PassLesser(p, key, cuts[0]);
    }

    /** jsw_sreset. */
    method Reset()
      requires Searchable()
      modifies this`curl
      ensures Searchable() && curl == At(levels[0], 0)
    {
      ShapeHeight();
      NextAt(0, 0);
      curl := next[HEAD][0];
    }

    /**
     * jsw_srow: NULL at the end of the list, or a row whose value equals the current node's key, the first of its
     * bucket.
     */
    method CurrentRow() returns (r: Option<Row>)
      requires Searchable() && levels != [] && (curl.Some? ==> curl.value in levels[0])
      ensures r.None? <==> curl.None?
      ensures r.Some? ==> curl.value in links.heads && r == links.heads[curl.value]
      ensures r.Some? ==> r.value in column.values && curl.value in keys
      ensures r.Some? ==> Compare(kind, column.values[r.value], keys[curl.value]) == 0
    {
      hide Compare, Shape;
      if curl.Some? {
        assert Keyed(kind, links.heads, column.values, keys, curl.value);
      }
      r := if curl.None? then None else links.heads[curl.value];
    }

    /** jsw_snext, with the current link at place `a`. */
    method Next(ghost a: nat) returns (more: bool)
      requires Searchable() && a < |levels[0]| && curl == Some(levels[0][a])
      modifies this`curl
      ensures Searchable() && curl == At(levels[0], a + 1) && (more <==> curl.Some?)
    {
      NextAt(0, a + 1);
      curl := next[curl.value][0];
      more := curl.Some?;
    }

    /** jsw_findlast: the node with the highest key, or the header of an empty list. */
    method FindLast() returns (p: Addr)
      requires Searchable()
      modifies this`curl
      ensures Searchable() && p == Node(levels[0], |levels[0]|) && curl == Some(p)
    {
      hide Compare, Shape, Linked, Ascends;
      ShapeHeight();
      p := HEAD;
      ghost var c: nat := 0;
      var i: int := curh;
      while i >= 0
        invariant -1 <= i <= curh
        invariant i >= 0 ==> c <= |levels[i]| && p == Node(levels[i], c)
        invariant i < 0 ==> p == Node(levels[0], |levels[0]|)
      {
        NextAt(i, c);
        while next[p][i].Some?
          invariant c <= |levels[i]| && p == Node(levels[i], c) && HasLink(next, i, levels[i], c)
          decreases |levels[i]| - c
        {
          p, c := next[p][i].value, c + 1;
          NextAt(i, c);
        }
        if i > 0 {
          LevelFacts(i);
          c := Descend(levels[i], levels[i - 1], c);
        }
        i := i - 1;
      }
      curl := Some(p);
    }

    // ----- inserting and erasing -----

    ghost predicate Bucket(n: Addr)
      reads this`next, this`curh, this`keys, this`levels, links, column
    {
      BucketOf(kind, links.lists, column.values, keys, n)
    }

    /** A searchable skip list whose nodes own the lists of their rows, none of them empty. */
    ghost predicate Valid()
      reads this`next, this`curh, this`keys, this`levels, links, column
    {
      Searchable() && links.Valid() && (forall h :: h in links.lists <==> h in next) && links.lists[HEAD] == [] &&
      forall n :: n in levels[0] ==> Bucket(n)
    }

    /** The loop that builds the skip links, top link first. */
    method BuildLinks(it: Addr, top: nat, ghost cuts: seq<nat>)
      requires top <= |cuts| <= |levels| == maxh == fix.Length && HEAD in next && |next[HEAD]| == maxh && it in next &&
               top <= |next[it]| && it != HEAD
      requires forall i :: 0 <= i < top ==> cuts[i] <= |levels[i]| && fix[i] == Node(levels[i], cuts[i])
      requires forall i :: 0 <= i < top ==> it !in levels[i] && HEAD !in levels[i] && Ascends(kind, keys, levels[i])
      requires AllLinked(next, levels)
      modifies this`next
      ensures AllLinked(next, Raised(levels, cuts, it, 0, top))
      ensures (forall n :: n in next <==> n in old(next)) && |next[HEAD]| == maxh
    {
      hide Linked, Ascends, Compare;
      var h: nat := top;
      assert AllLinked(next, Raised(levels, cuts, it, top, top)) by { hide InsertAt; }
      while h > 0
        invariant h <= top && AllLinked(next, Raised(levels, cuts, it, h, top))
        invariant (forall n :: n in next <==> n in old(next)) && |next[HEAD]| == maxh && |next[it]| == |old(next[it])|
      {
        h := h - 1;
        Distinct(kind, keys, levels[h]);
        RaiseOne(next, levels, cuts, it, h, top);
        var f := fix[h];
        next := next[it := next[it][h := next[f][h]]];
        next := next[f := next[f][h := Some(it)]];
      }
    }

    /** locate has looked for `key`, and no node has it. */
    ghost predicate Absent(key: Value, cuts: seq<nat>)
      reads this`levels, this`keys, this`curh, fix
    {
      levels != [] && |cuts| == curh + 1 <= |levels| == fix.Length && CutsAll(kind, keys, levels, key, cuts) &&
      (forall i :: 0 <= i <= curh ==> fix[i] == Node(levels[i], cuts[i])) &&
      (forall n :: n in levels[0] ==> n in keys) && !HasKey(kind, levels[0], keys, key)
    }

    /** Linking in a new node of height `h` that has found its bucket; the list grows by at most one level. */
    method LinkNode(it: Addr, h: nat, key: Value, ghost cuts: seq<nat>)
      requires Shape(kind, next - {it}, keys, levels, curh) && maxh == |levels| == fix.Length
      requires it in next && it != HEAD && it !in levels[0] && |next[it]| == h && 1 <= h < maxh && Absent(key, cuts)
      modifies this`next, this`curh, this`keys, this`levels, fix
      ensures Shape(kind, next, keys, levels, curh) && |levels| == maxh
      ensures cuts[0] <= |old(levels[0])| && levels[0] == InsertAt(old(levels[0]), cuts[0], it) &&
              keys == old(keys)[it := key]
      ensures forall n :: n in next <==> n in old(next)
    {
      hide Compare, Linked, Ascends, Cut, Shape;
      ShapeWithoutNode(it);
      var top := h;
      ghost var oldCurh := curh;
      if h > curh {
        curh := curh + 1;
        top := curh;
        fix[top] := HEAD;
      }
      BuildLinks(it, top, cuts);
      ghost var levels' := Raised(levels, cuts, it, 0, top);
      ShapeRaised(kind, old(next) - {it}, keys, levels, oldCurh, next, cuts, it, key, top);
      levels, keys := levels', keys[it := key];
    }

    /** new_node, ctable_ListInit and ctable_ListInsertHead: an unlinked node whose bucket holds the row. */
    method NewNode(row: Row, h: nat, it: Addr)
      requires links.Valid() && it !in next && it !in links.heads && row in links.links &&
               links.links[row].prev.Detached?
      modifies this`next, links
      ensures links.Valid() && links.lists == old(links.lists)[it := [row]] &&
              links.heads == old(links.heads)[it := Some(row)]
      ensures next == old(next)[it := NoLinks(h)]
      ensures forall x :: x in links.links <==> x in old(links.links)
    {
      hide LinksInv;
      next := next[it := NoLinks(h)];
      links.ListInit(it);
      ghost var lists, heads := links.lists, links.heads;
      ghost var trace := links.InsertHead(it, row);
      assert [row] + lists[it] == [row];
      assert lists[it := [row]] == old(links.lists)[it := [row]];
      assert heads[it := Some(row)] == old(links.heads)[it := Some(row)];
    }

    /** A bucket of one row in a new node. */
    method AddNode(row: Row, key: Value, h: nat, it: Addr, ghost cuts: seq<nat>)
      requires Valid() && 1 <= h < maxh && it !in next && it !in links.heads && |cuts| > 0 && Absent(key, cuts)
      requires row in links.links && links.links[row].prev.Detached? && row in column.values &&
               column.values[row] == key
      modifies this`next, this`curh, this`keys, this`levels, links, fix
      ensures Valid()
      ensures cuts[0] <= |old(levels[0])| && levels[0] == InsertAt(old(levels[0]), cuts[0], it) &&
              keys == old(keys)[it := key]
      ensures links.lists == old(links.lists)[it := [row]] && forall x :: x in links.links <==> x in old(links.links)
    {
      hide Shape, LinksInv, Absent, InsertAt, BucketOf, Keyed;
      ShapeHeight();
      ghost var oldNext := next;
      NewNode(row, h, it);
      assert next - {it} == oldNext;
      LinkNode(it, h, key, cuts);
      NewBuckets(old(levels[0]), cuts[0], it, row, key, old(links.lists), old(links.heads), old(keys));
    }

    /** The old buckets are as they were, and the new one is in order. */
    lemma NewBuckets(L: seq<Addr>, c: nat, it: Addr, row: Row, key: Value,
                     lists: map<Addr, seq<Row>>, heads: map<Addr, Option<Row>>, ks: map<Addr, Value>)
      requires c <= |L| && levels != [] && levels[0] == InsertAt(L, c, it) && it !in L
      requires keys == ks[it := key] && links.lists == lists[it := [row]] && links.heads == heads[it := Some(row)]
      requires row in column.values && column.values[row] == key
      requires forall n :: n in L ==>
                 BucketOf(kind, lists, column.values, ks, n) && Keyed(kind, heads, column.values, ks, n)
      ensures forall n :: n in levels[0] ==> Bucket(n) && Keyed(kind, links.heads, column.values, keys, n)
    {
      hide Compare, InsertAt;
      CompareLaws(kind, key, key, key);
      NodesInserted(L, c, it);
      forall n | n in levels[0] ensures Bucket(n) && Keyed(kind, links.heads, column.values, keys, n) {
        if n != it {
          assert BucketOf(kind, lists, column.values, ks, n) && Keyed(kind, heads, column.values, ks, n);
        }
      }
    }

    /** The loop of jsw_serase that takes the node out of every level it is in. */
    method Unlink(p: Addr, ghost key: Value, ghost cuts: seq<nat>) returns (ghost top: nat)
      requires Shape(kind, next, keys, levels, curh) && maxh == |levels| == fix.Length && |cuts| == curh + 1
      requires CutsAll(kind, keys, levels, key, cuts) &&
               forall i :: 0 <= i <= curh ==> fix[i] == Node(levels[i], cuts[i])
      requires p in levels[0] && p in keys && Compare(kind, key, keys[p]) == 0
      modifies this`next
      ensures TakenOut(next, levels, cuts, p, top) && forall i :: top <= i < |levels| ==> p !in levels[i]
      ensures forall n :: n in next <==> n in old(next)
    {
      hide Compare, Linked, Ascends, Cut, TakenOut, HasLink;
      ghost var was := next;
      AllLevels(kind, next, keys, levels, curh);
      TakenOutOfNone(next, levels, cuts, p);
      var i := 0;
      while i < curh
        invariant i <= curh && TakenOut(next, levels, cuts, p, i)
        invariant forall n :: n in next <==> n in was
      {
        LinkBeforeCut(next, levels, cuts, p, i);
        if next[fix[i]][i] != Some(p) {
          break;
        }
        Distinct(kind, keys, levels[i]);
        TakeOutOne(next, levels, cuts, p, i);
        next := next[fix[i] := next[fix[i]][i := next[p][i]]];
        i := i + 1;
      }
      top := i;
      NotAbove(kind, was, keys, levels, curh, key, cuts, p, top);
    }

    /** jsw_sinsert_linked. `h` stands for the random height of a new node and `it` for the address it is given. */
    method InsertLinked(row: Row, unique: bool, h: nat, it: Addr) returns (done: bool, ghost n: Addr)
      requires Valid() && 1 <= h < maxh && it !in next && it !in links.heads
      requires row in links.links && links.links[row].prev.Detached? && row in column.values
      modifies this`next, this`curh, this`size, this`keys, this`levels, links, fix
      ensures Valid() && forall x :: x in links.links <==> x in old(links.links)
      ensures done <==> !(unique && HasKey(kind, old(levels[0]), old(keys), column.values[row]))
      ensures !done ==> levels == old(levels) && links.lists == old(links.lists) && size == old(size)
      ensures done ==> n != HEAD && size == old(size) + 1 && links.lists == Grown(old(links.lists), n, row)
      ensures done ==> if n in old(links.lists) then levels == old(levels) else n == it
    {
      hide Compare, Shape, LinksInv, Cut, CutsAll, BucketOf, Keyed, HasKey;
      var key := column.values[row];
      ShapeHeight();
      var q, equal, cuts := LocateEqual(key);
      if equal {
        n := q.value;
        if unique {
          return false, n;
        }
        AddToBucket(q.value, row);
      } else {
        n := it;
        LevelFacts(0);
        AddNode(row, key, h, it, cuts);
        assert [row] == [row] + [];
      }
      size := size + 1;
      done := true;
    }

    /** A list of depth 0, whatever has been inserted: no node follows the header. */
    ghost predicate DepthZero()
      reads this`next, this`curh, links
    {
      maxh == fix.Length == 1 && curh == 0 && links.Valid() && HEAD in links.heads &&
      HEAD in next && next[HEAD] == [None]
    }

    lemma NoHeadNoList(it: Addr)
      requires links.Valid() && it !in links.heads
      ensures it !in links.lists
    {
    }

    lemma ValidIsDepthZero()
      requires Valid() && maxh == 1
      ensures DepthZero()
    {
      hide Compare;
      LevelFacts(0);
      LinkOf(next, 0, levels[0], 0);
    }

    /**
     * jsw_sinsert_linked in a list of depth 0. locate stays at the header, and rlevel answers 0: the row is linked, but
     * no level gets its node, and every further row fares alike.
     */
    method InsertAtDepthZero(row: Row, it: Addr)
      requires DepthZero() && it !in next && it !in links.heads
      requires row in links.links && links.links[row].prev.Detached?
      modifies this`next, this`size, links, fix
      ensures DepthZero() && links.lists == old(links.lists)[it := [row]] && next == old(next)[it := []]
      ensures LinkedRows(links.Mem()) == LinkedRows(old(links.Mem())) + {row}
    {
      hide LinksInv, LinkedRows;
      ghost var m, lists := links.Mem(), links.lists;
      NoHeadNoList(it);
      assert [row] + [] == [row];
      fix[0] := HEAD;
      NewNode(row, 0, it);
      LinkedAfterInsertion(m, lists, links.Mem(), it, row);
      size := size + 1;
    }

    /** The row joins the bucket of a node with its key. */
    method AddToBucket(n: Addr, row: Row)
      requires Valid() && n in levels[0] && row in links.links && links.links[row].prev.Detached?
      requires row in column.values && n in keys && Compare(kind, column.values[row], keys[n]) == 0
      modifies links
      ensures Valid() && forall x :: x in links.links <==> x in old(links.links)
      ensures links.lists == old(links.lists)[n := [row] + old(links.lists)[n]]
    {
      hide Compare, Shape, LinksInv;
      ShapeHeight();
      assert Bucket(n);
      ghost var was := links.lists;
      ghost var trace := links.InsertHead(n, row);
      forall m | m in levels[0] ensures Bucket(m) {
        assert BucketOf(kind, was, column.values, keys, m);
      }
      BucketsAreKeyed();
    }

    /** In whole lists the first row of a bucket has the node's key, since all its rows have. */
    lemma BucketsAreKeyed()
      requires links.Valid() && levels != [] && forall n :: n in levels[0] ==> Bucket(n)
      ensures forall n :: n in levels[0] ==> Keyed(kind, links.heads, column.values, keys, n)
    {
      hide Compare;
      forall n | n in levels[0] ensures Keyed(kind, links.heads, column.values, keys, n) {
        assert Bucket(n) && IsList(links.Mem(), n, links.lists[n]);
        assert links.lists[n][0] in links.lists[n];
      }
    }

    /** A node about to be erased: its list is empty, whatever its row pointer has been made to show. */
    ghost predicate Emptied(n: Addr)
      reads links
    {
      n in links.lists && links.lists[n] == [] && LinksInv(Memory(links.heads[n := None], links.links), links.lists)
    }

    /** The loop that lowers the height to that of the highest node. */
    method LowerCurh()
      requires Shape(kind, next, keys, levels, curh)
      modifies this`curh
      ensures Shape(kind, next, keys, levels, curh) && (curh > 0 ==> levels[curh - 1] != [])
    {
      hide Shape;
      while curh > 0
        invariant Shape(kind, next, keys, levels, curh)
      {
        LowerHeight(kind, next, keys, levels, curh);
        if next[HEAD][curh - 1].Some? {
          break;
        }
        curh := curh - 1;
      }
      ShapeBounds(kind, next, keys, levels, curh);
    }

    /** The stores of jsw_serase on the node found. */
    method EraseNode(p: Addr, ghost key: Value, ghost cuts: seq<nat>)
      requires Searchable() && Emptied(p) && |cuts| == curh + 1 && CutsAll(kind, keys, levels, key, cuts)
      requires forall i :: 0 <= i <= curh ==> fix[i] == Node(levels[i], cuts[i])
      requires At(levels[0], cuts[0]) == Some(p) && p in keys && Compare(kind, key, keys[p]) == 0
      modifies this`next, this`curh, this`size, this`levels, links`heads, links`lists
      ensures Searchable() && levels[0] == Without(old(levels[0]), cuts[0]) && size == old(size) - 1
      ensures links.Valid() && links.lists == old(links.lists) - {p}
    {
      hide Compare, Shape, LinksInv, Cut, CutsAll, Keyed, TakenOut, Without, Ascends, Linked;
      ShapeHeight();
      LevelFacts(0);
      ghost var was, L, heads := next, levels[0], links.heads;
      var top := Unlink(p, key, cuts);
      ShapeLowered(kind, was, keys, levels, curh, next, cuts, p, top);
      links.DropHead(p);
      next := next - {p};
      levels := Lowered(levels, cuts, top);
      size := size - 1;
      LowerCurh();
      KeyedRest(kind, heads, column.values, keys, L, cuts[0]);
    }

    /** jsw_serase: the node whose key the row has, if there is one. */
    method Erase(row: Row) returns (found: bool, ghost c: nat)
      requires Searchable() && row in column.values
      requires forall n :: n in levels[0] && n in keys && Compare(kind, column.values[row], keys[n]) == 0 ==> Emptied(n)
      modifies this`next, this`curh, this`size, this`curl, this`levels, links`heads, links`lists, fix
      ensures Searchable() && (found <==> HasKey(kind, old(levels[0]), keys, column.values[row]))
      ensures !found ==> next == old(next) && levels == old(levels) && size == old(size)
      ensures !found ==> links.lists == old(links.lists) && links.heads == old(links.heads)
      ensures found ==> c < |old(levels[0])| && old(levels[0])[c] in keys
      ensures found ==> Compare(kind, column.values[row], keys[old(levels[0])[c]]) == 0
      ensures found ==> levels[0] == Without(old(levels[0]), c) && size == old(size) - 1
      ensures found ==> links.Valid() && links.lists == old(links.lists) - {old(levels[0])[c]}
    {
      hide Compare, Shape, LinksInv, Cut, CutsAll, Keyed, HasKey, Emptied;
      var key := column.values[row];
      ShapeHeight();
      var q, equal, cuts := LocateEqual(key);
      if !equal {
        return false, 0;
      }
      found, c := true, cuts[0];
      EraseNode(q.value, key, cuts);
      Reset();
    }

    /** The row removed from its bucket was the only one: put back, it leads locate to the emptied node. */
    method EraseEmptied(row: Row, n: Addr)
      requires maxh == |levels| == fix.Length && Shape(kind, next, keys, levels, curh) && links.Valid() &&
               n in levels[0]
      requires (forall h :: h in links.lists <==> h in next) && links.lists[HEAD] == links.lists[n] == []
      requires forall m :: m in levels[0] && m != n ==> Bucket(m)
      requires n in keys && row in column.values && Compare(kind, column.values[row], keys[n]) == 0
      modifies this`next, this`curh, this`size, this`curl, this`levels, links`heads, links`lists, fix
      ensures Valid() && links.lists == old(links.lists) - {n} && size == old(size) - 1
    {
      hide Compare, LinksInv, Keyed, Shape, BucketOf, Ascends, Linked, Without;
      ShapeBounds(kind, next, keys, levels, curh);
      AllLevels(kind, next, keys, levels, curh);
      EmptiedHeads(n);
      OtherBucketsAreKeyed(n, row);
      ghost var L, lists := levels[0], links.lists;
      links.heads := links.heads[n := Some(row)];
      assert links.heads[n := None] == old(links.heads);
      OnlyNode(kind, keys, L, column.values[row], n);
      Distinct(kind, keys, L);
      var found, c := Erase(row);
      assert found;
      NodesDropped(L, c);
      ShapeHeight();
      BucketsRest(kind, lists, column.values, keys, L, n);
    }

    lemma EmptiedHeads(n: Addr)
      requires links.Valid() && HEAD in links.lists && n in links.lists && links.lists[HEAD] == links.lists[n] == []
      ensures HEAD in links.heads && n in links.heads && links.heads[HEAD] == links.heads[n] == None
    {
      assert IsList(links.Mem(), HEAD, []) && IsList(links.Mem(), n, []);
    }

    lemma OtherBucketsAreKeyed(n: Addr, row: Row)
      requires links.Valid() && levels != [] && n in levels[0] && forall m :: m in levels[0] && m != n ==> Bucket(m)
      requires n in keys && row in column.values && Compare(kind, column.values[row], keys[n]) == 0
      ensures forall m :: m in levels[0] ==> Keyed(kind, links.heads[n := Some(row)], column.values, keys, m)
    {
      hide Compare;
      forall m | m in levels[0] ensures Keyed(kind, links.heads[n := Some(row)], column.values, keys, m) {
        if m != n {
          assert Bucket(m) && IsList(links.Mem(), m, links.lists[m]);
          assert links.lists[m][0] in links.lists[m];
        }
      }
    }

    /** ctable_RemoveFromIndex: the row leaves its bucket, and a bucket left empty takes its node with it. */
    method RemoveRow(row: Row) returns (ghost n: Addr, ghost k: nat)
      requires Valid() && row in links.links
      modifies this`next, this`curh, this`size, this`curl, this`levels, links, fix
      ensures Valid() && forall x :: x in links.links <==> x in old(links.links)
      ensures LinkedRows(links.Mem()) == LinkedRows(old(links.Mem())) - {row}
      ensures old(links.links[row].prev).Detached? ==> links.lists == old(links.lists)
      ensures !old(links.links[row].prev).Detached? ==>
                IsPlace(old(links.lists), n, k, row) && links.lists == Shrunk(old(links.lists), n, k)
    {
      hide Compare, LinksInv, Keyed, Shape, BucketOf, Without;
      if links.links[row].prev.Detached? {
        n, k := HEAD, 0;
        return;
      }
      ShapeHeight();
      n, k := PlaceOf(links.Mem(), links.lists, row);
      assert Bucket(n);
      RemoveOutcome(links.Mem(), links.lists, n, k);
      ghost var m, lists := links.Mem(), links.lists;
      var mightBeTheLastOne, trace := links.Remove(row, n, k);
      HeadShows(links.Mem(), links.lists, n);
      BucketsWithout(kind, lists, column.values, keys, levels[0], n, k);
      var head := links.links[row].head.value;
      if mightBeTheLastOne && links.heads[head].None? {
        EraseEmptied(row, head);
        assert lists[n := Without(lists[n], k)] - {n} == lists - {n};
      } else {
        HeadShows(links.Mem(), links.lists, HEAD);
        BucketsAreKeyed();
      }
      LinkedAfterRemoval(m, lists, links.Mem(), n, k, row);
    }

    /** The rows in a live index are partitioned into its nodes' buckets by compare-equality. */
    lemma BucketsPartition()
      requires Valid()
      ensures Partitioned(kind, links.Mem(), links.lists, column.values, levels[0])
    {
      hide Compare, Shape, LinksInv, BucketOf, Keyed;
      ShapeHeight();
      LevelFacts(0);
      ghost var L := levels[0];
      assert forall n :: n in L ==> Bucket(n);
      BucketsArePartition(kind, links.Mem(), links.lists, column.values, keys, L);
    }

    /** The facts that Valid states, on values. */
    lemma ValidFacts()
      requires Valid()
      ensures levels != [] && LinksInv(links.Mem(), links.lists) && Ascends(kind, keys, levels[0])
      ensures forall h :: h in links.lists <==> h == HEAD || h in levels[0]
      ensures HEAD in links.lists && links.lists[HEAD] == [] &&
              forall n :: n in levels[0] ==> BucketOf(kind, links.lists, column.values, keys, n)
    {
      hide Compare, Shape, LinksInv, BucketOf, Keyed;
      ShapeHeight();
      LevelFacts(0);
      forall n | n in levels[0] ensures BucketOf(kind, links.lists, column.values, keys, n) {
        assert Bucket(n);
      }
    }

    /** The value of a row that is in no bucket may change. */
    method StoreValues(values: map<Row, Value>, ghost r: Row)
      requires Valid() && r !in LinkedRows(links.Mem())
      requires forall x :: x != r && x in column.values ==> x in values && values[x] == column.values[x]
      modifies column
      ensures Valid() && column.values == values
    {
      hide Compare, Shape, LinksInv;
      ShapeHeight();
      ghost var was, L := column.values, levels[0];
      assert forall n :: n in L ==> Bucket(n);
      BucketsElsewhere(kind, links.Mem(), links.lists, was, values, keys, L, r);
      column.values := values;
      BucketsAreKeyed();
    }

    /** An address that malloc may give to a new node. */
    method NewAddress() returns (it: Addr)
      ensures it !in next && it !in links.heads
    {
      ghost var bound := AddressBound(next.Keys + links.heads.Keys);
      assert bound !in next && bound !in links.heads;
      it :| it !in next && it !in links.heads;
    }

    /** rlevel, which is random. */
    method RandomLevel() returns (h: nat)
      requires maxh > 1
      ensures 1 <= h < maxh
    {
      h :| 1 <= h < maxh;
    }

    /** ctable_InsertIntoIndex on an existing skip list, for a field that is not unique. */
    method InsertRow(row: Row) returns (ghost n: Addr)
      requires Valid() && maxh > 1
      requires row in links.links && links.links[row].prev.Detached? && row in column.values
      modifies this`next, this`curh, this`size, this`keys, this`levels, links, fix
      ensures Valid() && forall x :: x in links.links <==> x in old(links.links)
      ensures n != HEAD && links.lists == Grown(old(links.lists), n, row)
      ensures LinkedRows(links.Mem()) == LinkedRows(old(links.Mem())) + {row}
    {
      hide Shape, LinksInv, BucketOf, Keyed;
      ghost var m, lists := links.Mem(), links.lists;
      var h := RandomLevel();
      var it := NewAddress();
      var done;
      done, n := InsertLinked(row, false, h, it);
      LinkedAfterInsertion(m, lists, links.Mem(), n, row);
    }

    lemma ShapeWithoutNode(it: Addr)
      requires Shape(kind, next - {it}, keys, levels, curh) && it in next && it != HEAD && it !in levels[0]
      ensures curh < |levels| && HEAD in next && |next[HEAD]| == |levels| && HEAD !in levels[0]
      ensures AllLinked(next, levels)
      ensures forall i :: 0 <= i < |levels| ==> it !in levels[i] && HEAD !in levels[i] && Ascends(kind, keys, levels[i])
    {
      hide Compare, Ascends;
      var small := next - {it};
      forall i | 0 <= i < |levels|
        ensures Linked(next, i, levels[i]) && it !in levels[i] && HEAD !in levels[i] && Ascends(kind, keys, levels[i])
      {
        assert LevelInv(kind, small, keys, levels, curh, i);
        BottomHas(kind, small, keys, levels, curh, i);
        forall a | 0 <= a <= |levels[i]| ensures HasLink(next, i, levels[i], a) {
          assert HasLink(small, i, levels[i], a);
        }
      }
    }
  }

  /** Every node of a level is in the bottom level. */
  lemma {:induction false} BottomHas(kind: Kind, next: Links, keys: map<Addr, Value>, levels: seq<seq<Addr>>, curh: nat,
           i: nat)
    requires Shape(kind, next, keys, levels, curh) && i < |levels|
    ensures forall n :: n in levels[i] ==> n in levels[0] && n in keys
  {
    assert LevelInv(kind, next, keys, levels, curh, i);
    if i > 0 {
      BottomHas(kind, next, keys, levels, curh, i - 1);
    }
  }

  lemma ShapeRaised(kind: Kind, next: Links, keys: map<Addr, Value>, levels: seq<seq<Addr>>, curh: nat,
                    next': Links, cuts: seq<nat>, it: Addr, key: Value, top: nat)
    requires Shape(kind, next, keys, levels, curh) && |cuts| == curh + 1 && CutsAll(kind, keys, levels, key, cuts)
    requires (forall n :: n in levels[0] ==> n in keys) && !HasKey(kind, levels[0], keys, key)
    requires it !in next && 1 <= top <= curh + 1 && top < |levels|
    requires AllLinked(next', Raised(levels, cuts, it, 0, top)) && HEAD in next' && |next'[HEAD]| == |levels|
    requires forall n :: n in next' <==> n == it || n in next
    ensures Shape(kind, next', keys[it := key], Raised(levels, cuts, it, 0, top), if top > curh then top else curh)
  {
    hide Compare, Linked, Ascends, Sub, Cut, AllLinked;
    var levels' := Raised(levels, cuts, it, 0, top);
    var curh' := if top > curh then top else curh;
    var keys' := keys[it := key];
    forall i | 0 <= i < |levels| ensures LevelInv(kind, next', keys', levels', curh', i) {
      assert LevelInv(kind, next, keys, levels, curh, i);
      BottomHas(kind, next, keys, levels, curh, i);
      RaisedLevel(kind, next, keys, levels, curh, next', cuts, it, key, top, i);
    }
    NodesInserted(levels[0], cuts[0], it);
  }

  lemma NodesInserted(L: seq<Addr>, c: nat, it: Addr)
    requires c <= |L|
    ensures forall n :: n in InsertAt(L, c, it) <==> n == it || n in L
  {
    hide InsertAt;
    forall n ensures n in InsertAt(L, c, it) <==> n == it || n in L {
      if n in InsertAt(L, c, it) {
        var a :| 0 <= a < |InsertAt(L, c, it)| && InsertAt(L, c, it)[a] == n;
        assert n == it || n == L[if a < c then a else a - 1];
      }
      if n == it || n in L {
        InInsertAt(L, c, it, n);
      }
    }
  }

  lemma AllLevels(kind: Kind, next: Links, keys: map<Addr, Value>, levels: seq<seq<Addr>>, curh: nat)
    requires Shape(kind, next, keys, levels, curh)
    ensures AllLinked(next, levels) && HEAD in next && |next[HEAD]| == |levels|
    ensures forall i :: 0 <= i < |levels| ==> Ascends(kind, keys, levels[i]) && HEAD !in levels[i]
    ensures forall i :: curh <= i < |levels| ==> levels[i] == []
  {
    hide Compare, Linked, Ascends;
    forall i | 0 <= i < |levels|
      ensures Linked(next, i, levels[i]) && Ascends(kind, keys, levels[i]) && HEAD !in levels[i]
    {
      assert LevelInv(kind, next, keys, levels, curh, i);
      BottomHas(kind, next, keys, levels, curh, i);
    }
    forall i | curh <= i < |levels| ensures levels[i] == [] {
      assert LevelInv(kind, next, keys, levels, curh, i);
    }
  }

  /** A level at whose cut the node does not stand lacks it, and so do the levels above. */
  lemma {:induction false} NotAbove(kind: Kind, next: Links, keys: map<Addr, Value>, levels: seq<seq<Addr>>, curh: nat,
                                    key: Value, cuts: seq<nat>, p: Addr, top: nat)
    requires Shape(kind, next, keys, levels, curh) && |cuts| == curh + 1 && CutsAll(kind, keys, levels, key, cuts)
    requires p in keys && Compare(kind, key, keys[p]) == 0 && top <= curh
    requires top == curh || At(levels[top], cuts[top]) != Some(p)
    ensures forall i :: top <= i < |levels| ==> p !in levels[i]
  {
    hide Compare, Linked, Cut;
    AllLevels(kind, next, keys, levels, curh);
    assert p !in levels[top] by {
      if p in levels[top] {
        assert Cut(kind, keys, levels[top], key, cuts[top]);
        assert Ascends(kind, keys, levels[top]);
        FoundAtCut(kind, keys, levels[top], key, cuts[top], p);
      }
    }
    NotAboveEither(kind, next, keys, levels, curh, p, top);
  }

  lemma {:induction false} NotAboveEither(kind: Kind, next: Links, keys: map<Addr, Value>, levels: seq<seq<Addr>>,
           curh: nat, p: Addr, top: nat)
    requires Shape(kind, next, keys, levels, curh) && top < |levels| && p !in levels[top]
    ensures forall i :: top <= i < |levels| ==> p !in levels[i]
    decreases |levels| - top
  {
    hide Compare, Linked, Ascends;
    if top + 1 < |levels| {
      assert LevelInv(kind, next, keys, levels, curh, top + 1);
      NotAboveEither(kind, next, keys, levels, curh, p, top + 1);
    }
  }

  /** `p` stood behind the cut of every level below `top` and has been unlinked there. */
  ghost predicate TakenOut(next: Links, levels: seq<seq<Addr>>, cuts: seq<nat>, p: Addr, top: nat) {
    top <= |cuts| <= |levels| && (forall j :: 0 <= j < top ==> cuts[j] < |levels[j]| && levels[j][cuts[j]] == p) &&
    AllLinked(next, Lowered(levels, cuts, top)) && HEAD in next && |next[HEAD]| == |levels|
  }

  lemma TakenOutOfNone(next: Links, levels: seq<seq<Addr>>, cuts: seq<nat>, p: Addr)
    requires |cuts| <= |levels| && AllLinked(next, levels) && HEAD in next && |next[HEAD]| == |levels|
    ensures TakenOut(next, levels, cuts, p, 0)
  {
    assert Lowered(levels, cuts, 0) == levels;
  }

  /** The link that the loop compares with the node. */
  lemma LinkBeforeCut(next: Links, levels: seq<seq<Addr>>, cuts: seq<nat>, p: Addr, t: nat)
    requires TakenOut(next, levels, cuts, p, t) && t < |cuts| && cuts[t] <= |levels[t]|
    ensures var f := Node(levels[t], cuts[t]); f in next && t < |next[f]| && next[f][t] == At(levels[t], cuts[t])
  {
    LinkOf(next, t, Lowered(levels, cuts, t)[t], cuts[t]);
  }

  /** One pass of the loop, when the link leads to the node. */
  lemma TakeOutOne(next: Links, levels: seq<seq<Addr>>, cuts: seq<nat>, p: Addr, t: nat)
    requires TakenOut(next, levels, cuts, p, t) && t < |cuts| && cuts[t] <= |levels[t]|
    requires At(levels[t], cuts[t]) == Some(p) && HEAD !in levels[t]
    requires forall a, b :: 0 <= a < b < |levels[t]| ==> levels[t][a] != levels[t][b]
    ensures var f := Node(levels[t], cuts[t]);
      f in next && t < |next[f]| && p in next && t < |next[p]| &&
        TakenOut(Put(next, f, t, next[p][t]), levels, cuts, p, t + 1)
  {
    hide Linked;
    LowerOne(next, levels, cuts, t);
  }

  /** The skip list without a node that is out of all its levels. */
  lemma ShapeLowered(kind: Kind, next: Links, keys: map<Addr, Value>, levels: seq<seq<Addr>>, curh: nat,
                     next': Links, cuts: seq<nat>, p: Addr, top: nat)
    requires Shape(kind, next, keys, levels, curh) && TakenOut(next', levels, cuts, p, top)
    requires p in levels[0] && forall i :: top <= i < |levels| ==> p !in levels[i]
    requires forall n :: n in next' <==> n in next
    ensures 0 < top <= |cuts| <= |levels| && forall j :: 0 <= j < top ==> cuts[j] < |levels[j]|
    ensures Shape(kind, next' - {p}, keys, Lowered(levels, cuts, top), curh)
  {
    hide Compare, Linked, Ascends, Sub, Without;
    assert top > 0;
    var levels', small := Lowered(levels, cuts, top), next' - {p};
    forall i | 0 <= i < |levels| ensures LevelInv(kind, small, keys, levels', curh, i) {
      assert LevelInv(kind, next, keys, levels, curh, i);
      LoweredLevel(kind, next, keys, levels, curh, next', cuts, p, top, i);
      FreeKeepsLinked(next', p, i, levels'[i]);
    }
    assert LevelInv(kind, next, keys, levels, curh, 0);
    Distinct(kind, keys, levels[0]);
    NodesDropped(levels[0], cuts[0]);
  }

  lemma ShapeBounds(kind: Kind, next: Links, keys: map<Addr, Value>, levels: seq<seq<Addr>>, curh: nat)
    requires Shape(kind, next, keys, levels, curh)
    ensures curh < |levels| && HEAD in next && |next[HEAD]| == |levels| && HEAD !in levels[0]
    ensures forall n :: n in next <==> n == HEAD || n in levels[0]
    ensures forall i :: 0 <= i < |levels| ==> (next[HEAD][i].None? <==> levels[i] == [])
  {
    hide Compare, Ascends, Sub;
    forall i | 0 <= i < |levels| ensures next[HEAD][i].None? <==> levels[i] == [] {
      assert LevelInv(kind, next, keys, levels, curh, i) && HasLink(next, i, levels[i], 0);
    }
  }

  lemma NodesDropped(L: seq<Addr>, c: nat)
    requires c < |L| && forall a, b :: 0 <= a < b < |L| ==> L[a] != L[b]
    ensures forall n :: n in Without(L, c) <==> n in L && n != L[c]
  {
    hide Without;
    forall n ensures n in Without(L, c) <==> n in L && n != L[c] {
      if n in L && n != L[c] {
        InWithout(L, c, n);
      }
    }
  }

  /** One less level when the top one is empty. */
  lemma LowerHeight(kind: Kind, next: Links, keys: map<Addr, Value>, levels: seq<seq<Addr>>, curh: nat)
    requires Shape(kind, next, keys, levels, curh) && curh > 0
    ensures HEAD in next && curh - 1 < |next[HEAD]| &&
            (next[HEAD][curh - 1].None? ==> Shape(kind, next, keys, levels, curh - 1))
  {
    hide Compare, Ascends, Sub;
    assert LevelInv(kind, next, keys, levels, curh, curh - 1) && HasLink(next, curh - 1, levels[curh - 1], 0);
    if next[HEAD][curh - 1].None? {
      var curh' := curh - 1;
      forall i | 0 <= i < |levels| ensures LevelInv(kind, next, keys, levels, curh', i) {
        assert LevelInv(kind, next, keys, levels, curh, i);
      }
    }
  }
}
