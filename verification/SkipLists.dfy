// The skip list of ctables/skiplists/jsw_slib.c, as mathematics: chains of node addresses, one a level.

module SkipLists {
  import opened FieldCompare
  import opened Options
  import opened Preorders
  import opened RowLists

  /** Every node's dynamic array of next links. */
  type Links = map<Addr, seq<Option<Addr>>>

  const HEAD: Addr := 0

  /** The node before place `a` of a level, counting the header. */
  function Node(L: seq<Addr>, a: nat): Addr
    requires a <= |L|
  {
    if a == 0 then HEAD else L[a - 1]
  }

  ghost predicate HasLink(next: Links, i: nat, L: seq<Addr>, a: nat)
    requires a <= |L|
  {
    Node(L, a) in next && i < |next[Node(L, a)]| && next[Node(L, a)][i] == At(L, a)
  }

  /** The `next[i]` links run from the header through exactly the nodes of `L`. */
  ghost predicate Linked(next: Links, i: nat, L: seq<Addr>) {
    forall a :: 0 <= a <= |L| ==> HasLink(next, i, L, a)
  }

  lemma LinkOf(next: Links, i: nat, L: seq<Addr>, a: nat)
    requires Linked(next, i, L) && a <= |L|
    ensures HasLink(next, i, L, a)
  {
  }

  /** The nodes of `L` are in strictly ascending order of their keys. */
  ghost predicate Ascends(kind: Kind, keys: map<Addr, Value>, L: seq<Addr>) {
    (forall a :: 0 <= a < |L| ==> L[a] in keys) &&
    forall a, b :: 0 <= a < b < |L| ==> Compare(kind, keys[L[a]], keys[L[b]]) < 0
  }

  ghost predicate Sub(L: seq<Addr>, M: seq<Addr>) {
    forall a :: 0 <= a < |L| ==> L[a] in M
  }

  ghost predicate LevelInv(kind: Kind, next: Links, keys: map<Addr, Value>, levels: seq<seq<Addr>>, curh: nat, i: nat)
    requires i < |levels|
  {
    Linked(next, i, levels[i]) && Ascends(kind, keys, levels[i]) && (i >= curh ==> levels[i] == []) &&
    (i > 0 ==> Sub(levels[i], levels[i - 1]))
  }

  /** The skip-list invariant. `levels` lists the nodes of every level, 0 first. */
  ghost predicate Shape(kind: Kind, next: Links, keys: map<Addr, Value>, levels: seq<seq<Addr>>, curh: nat) {
    curh < |levels| && HEAD in next && |next[HEAD]| == |levels| && HEAD !in levels[0] &&
    (forall i :: 0 <= i < |levels| ==> LevelInv(kind, next, keys, levels, curh, i)) &&
    forall n :: n in next <==> n == HEAD || n in levels[0]
  }

  // ----- comparing -----

  lemma CompareLaws(kind: Kind, x: Value, y: Value, z: Value)
    ensures Compare(kind, x, x) == 0
    ensures Compare(kind, x, y) < 0 <==> Compare(kind, y, x) > 0
    ensures Compare(kind, x, y) == 0 <==> Compare(kind, y, x) == 0
    ensures Compare(kind, x, y) <= 0 && Compare(kind, y, z) <= 0 ==> Compare(kind, x, z) <= 0
    ensures Compare(kind, x, y) < 0 && Compare(kind, y, z) <= 0 ==> Compare(kind, x, z) < 0
    ensures Compare(kind, x, y) <= 0 && Compare(kind, y, z) < 0 ==> Compare(kind, x, z) < 0
    ensures Compare(kind, x, y) == 0 && Compare(kind, y, z) == 0 ==> Compare(kind, x, z) == 0
  {
    hide Compare;
    var cmp := CompareOf(kind);
    CompareIsPreorder(kind);
    ChainLaws(cmp, x, y, z);
    assert Call(cmp, x, x) == Compare(kind, x, x) && Call(cmp, x, y) == Compare(kind, x, y) &&
      Call(cmp, y, x) == Compare(kind, y, x);
    assert Call(cmp, y, z) == Compare(kind, y, z) && Call(cmp, x, z) == Compare(kind, x, z);
  }

  lemma Distinct(kind: Kind, keys: map<Addr, Value>, L: seq<Addr>)
    requires Ascends(kind, keys, L)
    ensures forall a, b :: 0 <= a < b < |L| ==> L[a] != L[b]
  {
    hide Compare;
    forall a, b | 0 <= a < b < |L| ensures L[a] != L[b] {
      CompareLaws(kind, keys[L[a]], keys[L[a]], keys[L[a]]);
    }
  }

  /** `c` separates the keys below `key` from the others. */
  ghost predicate Cut(kind: Kind, keys: map<Addr, Value>, L: seq<Addr>, key: Value, c: nat)
    requires forall a :: 0 <= a < |L| ==> L[a] in keys
  {
    c <= |L| && (forall a :: 0 <= a < c ==> Compare(kind, key, keys[L[a]]) > 0) &&
    forall a :: c <= a < |L| ==> Compare(kind, key, keys[L[a]]) <= 0
  }

  /** In an ascending level two comparisons are enough to know the cut. */
  lemma CutHere(kind: Kind, keys: map<Addr, Value>, L: seq<Addr>, key: Value, c: nat)
    requires Ascends(kind, keys, L) && c <= |L|
    requires c > 0 ==> Compare(kind, key, keys[L[c - 1]]) > 0
    requires c < |L| ==> Compare(kind, key, keys[L[c]]) <= 0
    ensures Cut(kind, keys, L, key, c)
  {
    hide Compare;
    forall a | 0 <= a < c ensures Compare(kind, key, keys[L[a]]) > 0 {
      CompareLaws(kind, keys[L[a]], keys[L[c - 1]], key);
      CompareLaws(kind, key, keys[L[c - 1]], key);
      CompareLaws(kind, key, keys[L[a]], key);
    }
    forall a | c <= a < |L| ensures Compare(kind, key, keys[L[a]]) <= 0 {
      if c < a {
        CompareLaws(kind, key, keys[L[c]], keys[L[a]]);
      }
    }
  }

  /** A node of a level stands in the level below it. */
  lemma Descend(L: seq<Addr>, M: seq<Addr>, a: nat) returns (b: nat)
    requires Sub(L, M) && a <= |L|
    ensures b <= |M| && Node(M, b) == Node(L, a) && (b == 0 <==> a == 0)
  {
    if a == 0 {
      b := 0;
    } else {
      b :| 0 <= b < |M| && M[b] == L[a - 1];
      b := b + 1;
    }
  }

  // ----- inserting a node -----

  function InsertAt(L: seq<Addr>, c: nat, it: Addr): (r: seq<Addr>)
    requires c <= |L|
    ensures |r| == |L| + 1 && r[c] == it
    ensures forall a :: 0 <= a < c ==> r[a] == L[a]
    ensures forall a :: c < a < |r| ==> r[a] == L[a - 1]
  {
    L[..c] + [it] + L[c..]
  }

  /** `node->next[i] = value`. */
  function Put(next: Links, n: Addr, i: nat, value: Option<Addr>): Links
    requires n in next && i < |next[n]|
  {
    next[n := next[n][i := value]]
  }

  /** Building one skip link: the node takes over its predecessor's link, which then leads to the node. */
  lemma LinkOne(next: Links, i: nat, L: seq<Addr>, c: nat, it: Addr)
    requires Linked(next, i, L) && c <= |L| && it in next && i < |next[it]| && it != HEAD && it !in L && HEAD !in L
    requires forall a, b :: 0 <= a < b < |L| ==> L[a] != L[b]
    ensures HasLink(next, i, L, c)
    ensures Linked(Put(Put(next, it, i, At(L, c)), Node(L, c), i, Some(it)), i, InsertAt(L, c, it))
  {
    assert HasLink(next, i, L, c);
    var next' := Put(Put(next, it, i, At(L, c)), Node(L, c), i, Some(it));
    var M := InsertAt(L, c, it);
    forall a | 0 <= a <= |M| ensures HasLink(next', i, M, a) {
      if a <= c {
        assert HasLink(next, i, L, a);
      } else {
        assert HasLink(next, i, L, a - 1);
      }
    }
  }

  /** A store at one level leaves the other levels linked. */
  lemma PutKeepsOthers(next: Links, n: Addr, i: nat, value: Option<Addr>, j: nat, M: seq<Addr>)
    requires n in next && i < |next[n]| && j != i && Linked(next, j, M)
    ensures Linked(Put(next, n, i, value), j, M)
  {
    forall a | 0 <= a <= |M| ensures HasLink(Put(next, n, i, value), j, M, a) {
      assert HasLink(next, j, M, a);
    }
  }

  lemma AscendsInsert(kind: Kind, keys: map<Addr, Value>, L: seq<Addr>, key: Value, c: nat, it: Addr)
    requires Ascends(kind, keys, L) && Cut(kind, keys, L, key, c) && it !in L
    requires forall a :: 0 <= a < |L| ==> Compare(kind, key, keys[L[a]]) != 0
    ensures Ascends(kind, keys[it := key], InsertAt(L, c, it))
  {
    hide Compare;
    var M := InsertAt(L, c, it);
    forall a, b | 0 <= a < b < |M| ensures Compare(kind, keys[it := key][M[a]], keys[it := key][M[b]]) < 0 {
      if a == c {
        assert M[b] == L[b - 1];
      } else if b == c {
        CompareLaws(kind, key, keys[L[a]], key);
      } else {
        assert M[a] == L[if a < c then a else a - 1] && M[b] == L[if b < c then b else b - 1];
      }
    }
  }

  // ----- erasing a node -----

  lemma UnlinkOne(next: Links, i: nat, L: seq<Addr>, c: nat)
    requires Linked(next, i, L) && c < |L| && HEAD !in L
    requires forall a, b :: 0 <= a < b < |L| ==> L[a] != L[b]
    ensures HasLink(next, i, L, c) && HasLink(next, i, L, c + 1)
    ensures Linked(Put(next, Node(L, c), i, next[L[c]][i]), i, Without(L, c))
  {
    assert HasLink(next, i, L, c) && HasLink(next, i, L, c + 1);
    var next' := Put(next, Node(L, c), i, next[L[c]][i]);
    var M := Without(L, c);
    forall a | 0 <= a <= |M| ensures HasLink(next', i, M, a) {
      assert HasLink(next, i, L, if a <= c then a else a + 1);
    }
  }

  lemma AscendsWithout(kind: Kind, keys: map<Addr, Value>, L: seq<Addr>, c: nat)
    requires Ascends(kind, keys, L) && c < |L|
    ensures Ascends(kind, keys, Without(L, c)) && L[c] !in Without(L, c)
  {
    hide Compare;
    Distinct(kind, keys, L);
  }

  // ----- all levels at once -----

  ghost predicate CutsAll(kind: Kind, keys: map<Addr, Value>, levels: seq<seq<Addr>>, key: Value, cuts: seq<nat>) {
    |cuts| <= |levels| && (forall i :: 0 <= i < |cuts| ==> cuts[i] <= |levels[i]|) &&
    forall i :: 0 <= i < |cuts| ==>
        (forall a :: 0 <= a < |levels[i]| ==> levels[i][a] in keys) && Cut(kind, keys, levels[i], key, cuts[i])
  }

  /** The levels once the new node stands in levels `from` up to `top`. */
  ghost function Raised(levels: seq<seq<Addr>>, cuts: seq<nat>, it: Addr, from: nat, top: nat): (r: seq<seq<Addr>>)
    requires top <= |cuts| <= |levels| && forall i :: 0 <= i < top ==> cuts[i] <= |levels[i]|
    ensures |r| == |levels|
    ensures forall i :: 0 <= i < |levels| ==>
              r[i] == if from <= i < top then InsertAt(levels[i], cuts[i], it) else levels[i]
  {
    seq(|levels|, i requires 0 <= i < |levels| => if from <= i < top then InsertAt(levels[i], cuts[i], it)
      else levels[i])
  }

  ghost predicate AllLinked(next: Links, levels: seq<seq<Addr>>) {
    forall i :: 0 <= i < |levels| ==> Linked(next, i, levels[i])
  }

  /** One pass of the loop that builds the skip links. */
  lemma RaiseOne(next: Links, levels: seq<seq<Addr>>, cuts: seq<nat>, it: Addr, h: nat, top: nat)
    requires h < top <= |cuts| <= |levels| && forall i :: 0 <= i < top ==> cuts[i] <= |levels[i]|
    requires AllLinked(next, Raised(levels, cuts, it, h + 1, top))
    requires it in next && h < |next[it]| && it != HEAD && it !in levels[h] && HEAD !in levels[h]
    requires forall a, b :: 0 <= a < b < |levels[h]| ==> levels[h][a] != levels[h][b]
    ensures HasLink(next, h, levels[h], cuts[h])
    ensures AllLinked(Put(Put(next, it, h, At(levels[h], cuts[h])), Node(levels[h], cuts[h]), h, Some(it)),
                      Raised(levels, cuts, it, h, top))
  {
    var before, after := Raised(levels, cuts, it, h + 1, top), Raised(levels, cuts, it, h, top);
    assert Linked(next, h, before[h]);
    LinkOne(next, h, levels[h], cuts[h], it);
    var next1 := Put(next, it, h, At(levels[h], cuts[h]));
    var next2 := Put(next1, Node(levels[h], cuts[h]), h, Some(it));
    hide Linked, HasLink;
    forall i | 0 <= i < |levels| ensures Linked(next2, i, after[i]) {
      if i != h {
        assert Linked(next, i, before[i]) && before[i] == after[i];
        PutKeepsOthers(next, it, h, At(levels[h], cuts[h]), i, before[i]);
        PutKeepsOthers(next1, Node(levels[h], cuts[h]), h, Some(it), i, before[i]);
      }
    }
  }

  lemma InInsertAt(M: seq<Addr>, d: nat, it: Addr, n: Addr)
    requires d <= |M| && (n == it || n in M)
    ensures n in InsertAt(M, d, it)
  {
    if n == it {
      assert InsertAt(M, d, it)[d] == n;
    } else {
      var b :| 0 <= b < |M| && M[b] == n;
      assert InsertAt(M, d, it)[if b < d then b else b + 1] == n;
    }
  }

  lemma SubInsert(L: seq<Addr>, c: nat, M: seq<Addr>, d: nat, it: Addr)
    requires Sub(L, M) && c <= |L| && d <= |M|
    ensures Sub(L, InsertAt(M, d, it)) && Sub(InsertAt(L, c, it), InsertAt(M, d, it))
  {
    var K := InsertAt(L, c, it);
    forall a | 0 <= a < |L| ensures L[a] in InsertAt(M, d, it) {
      InInsertAt(M, d, it, L[a]);
    }
    forall a | 0 <= a < |K| ensures K[a] in InsertAt(M, d, it) {
      assert K[a] == it || K[a] == L[if a < c then a else a - 1];
      InInsertAt(M, d, it, K[a]);
    }
  }

  lemma AscendsMore(kind: Kind, keys: map<Addr, Value>, L: seq<Addr>, it: Addr, key: Value)
    requires Ascends(kind, keys, L) && it !in L
    ensures Ascends(kind, keys[it := key], L)
  {
    hide Compare;
  }

  /** With all its links built, the new node belongs. */
  lemma RaisedLevel(kind: Kind, next: Links, keys: map<Addr, Value>, levels: seq<seq<Addr>>, curh: nat,
                    next': Links, cuts: seq<nat>, it: Addr, key: Value, top: nat, i: nat)
    requires i < |levels| && curh < |levels| && |cuts| == curh + 1 && CutsAll(kind, keys, levels, key, cuts)
    requires LevelInv(kind, next, keys, levels, curh, i)
    requires forall n :: n in levels[i] ==> n in keys && n != it && Compare(kind, key, keys[n]) != 0
    requires 1 <= top <= curh + 1
    requires AllLinked(next', Raised(levels, cuts, it, 0, top))
    ensures var curh' := if top > curh then top else curh;
      LevelInv(kind, next', keys[it := key], Raised(levels, cuts, it, 0, top), curh', i)
  {
    hide Compare, Linked, Ascends, Sub, InsertAt, Cut;
    var levels' := Raised(levels, cuts, it, 0, top);
    assert Linked(next', i, levels'[i]);
    if i < top {
      AscendsInsert(kind, keys, levels[i], key, cuts[i], it);
    } else {
      AscendsMore(kind, keys, levels[i], it, key);
    }
    if i > 0 && i - 1 < top {
      SubInsert(levels[i], if i < top then cuts[i] else 0, levels[i - 1], cuts[i - 1], it);
    }
  }

  /** A node whose key is the one located stands right behind the cut of every level it is in. */
  lemma FoundAtCut(kind: Kind, keys: map<Addr, Value>, L: seq<Addr>, key: Value, c: nat, p: Addr)
    requires Ascends(kind, keys, L) && Cut(kind, keys, L, key, c) && p in L && Compare(kind, key, keys[p]) == 0
    ensures c < |L| && L[c] == p
  {
    hide Compare;
    var a :| 0 <= a < |L| && L[a] == p;
    if c < a {
      CompareLaws(kind, key, keys[L[c]], keys[p]);
    }
  }

  /** The levels once the erased node is out of those below `top`. */
  ghost function Lowered(levels: seq<seq<Addr>>, cuts: seq<nat>, top: nat): (r: seq<seq<Addr>>)
    requires top <= |cuts| <= |levels| && forall i :: 0 <= i < top ==> cuts[i] < |levels[i]|
    ensures |r| == |levels|
    ensures forall i :: 0 <= i < |levels| ==> r[i] == if i < top then Without(levels[i], cuts[i]) else levels[i]
  {
    seq(|levels|, i requires 0 <= i < |levels| => if i < top then Without(levels[i], cuts[i]) else levels[i])
  }

  /** One pass of the loop that takes the node out. */
  lemma LowerOne(next: Links, levels: seq<seq<Addr>>, cuts: seq<nat>, t: nat)
    requires t < |cuts| <= |levels| && forall i :: 0 <= i <= t ==> cuts[i] < |levels[i]|
    requires AllLinked(next, Lowered(levels, cuts, t))
    requires HEAD !in levels[t] && forall a, b :: 0 <= a < b < |levels[t]| ==> levels[t][a] != levels[t][b]
    ensures HasLink(next, t, levels[t], cuts[t]) && HasLink(next, t, levels[t], cuts[t] + 1)
    ensures AllLinked(Put(next, Node(levels[t], cuts[t]), t, next[levels[t][cuts[t]]][t]), Lowered(levels, cuts, t + 1))
  {
    var before, after := Lowered(levels, cuts, t), Lowered(levels, cuts, t + 1);
    assert Linked(next, t, before[t]);
    UnlinkOne(next, t, levels[t], cuts[t]);
    var value := next[levels[t][cuts[t]]][t];
    var next' := Put(next, Node(levels[t], cuts[t]), t, value);
    hide Linked, HasLink;
    forall i | 0 <= i < |levels| ensures Linked(next', i, after[i]) {
      if i != t {
        assert Linked(next, i, before[i]) && before[i] == after[i];
        PutKeepsOthers(next, Node(levels[t], cuts[t]), t, value, i, before[i]);
      }
    }
  }

  lemma InWithout(M: seq<Addr>, d: nat, n: Addr)
    requires d < |M| && n in M && n != M[d]
    ensures n in Without(M, d)
  {
    var b :| 0 <= b < |M| && M[b] == n;
    assert Without(M, d)[if b < d then b else b - 1] == n;
  }

  lemma SubWithout(L: seq<Addr>, M: seq<Addr>, d: nat)
    requires d < |M| && Sub(L, M) && M[d] !in L
    ensures Sub(L, Without(M, d))
  {
    forall a | 0 <= a < |L| ensures L[a] in Without(M, d) {
      InWithout(M, d, L[a]);
    }
  }

  lemma SubOfWithout(L: seq<Addr>, c: nat, M: seq<Addr>)
    requires c < |L| && Sub(L, M)
    ensures Sub(Without(L, c), M)
  {
  }

  /** Out of every level it was in, the node has left a skip list behind. */
  lemma LoweredLevel(kind: Kind, next: Links, keys: map<Addr, Value>, levels: seq<seq<Addr>>, curh: nat,
                     next': Links, cuts: seq<nat>, p: Addr, top: nat, i: nat)
    requires i < |levels| && top <= |cuts| <= |levels| &&
             forall j :: 0 <= j < top ==> cuts[j] < |levels[j]| && levels[j][cuts[j]] == p
    requires LevelInv(kind, next, keys, levels, curh, i) && (i >= top ==> p !in levels[i])
    requires AllLinked(next', Lowered(levels, cuts, top))
    ensures LevelInv(kind, next', keys, Lowered(levels, cuts, top), curh, i) && p !in Lowered(levels, cuts, top)[i]
  {
    hide Compare, Linked, Ascends, Sub, Without;
    var levels' := Lowered(levels, cuts, top);
    assert Linked(next', i, levels'[i]);
    if i < top {
      AscendsWithout(kind, keys, levels[i], cuts[i]);
    }
    if i > 0 {
      if i < top {
        SubOfWithout(levels[i], cuts[i], levels[i - 1]);
      }
      if i - 1 < top {
        SubWithout(levels'[i], levels[i - 1], cuts[i - 1]);
      }
    }
  }

  /** Freeing a node that is in no level breaks no link. */
  lemma FreeKeepsLinked(next: Links, p: Addr, i: nat, L: seq<Addr>)
    requires Linked(next, i, L) && p != HEAD && p !in L
    ensures Linked(next - {p}, i, L)
  {
    forall a | 0 <= a <= |L| ensures HasLink(next - {p}, i, L, a) {
      assert HasLink(next, i, L, a);
    }
  }
}
