// The key table of ctables/hash/speedtableHash.c. A bucket's chain of entries linked by nextPtr is the
// sequence of its entries; a key is its NUL-free sequence of `char` values.

module HashTables {
  import opened Options

  type KeyChar = c: int | -128 <= c < 128 && c != 0 witness 65
  type Key = seq<KeyChar>
  type Word = x: int | 0 <= x < 0x1_0000_0000
  type Row = nat

  /** Most entries the table may hold: the rebuild after it would overflow the fields. */
  const MAX_ENTRIES: nat := 805306367
  const CTABLE_SMALL_HASH_TABLE := 16
  const REBUILD_MULTIPLIER := 3
  const MAX_LEVEL: nat := 6
  const INT_MAX := 0x7FFF_FFFF

  /** ctable_HashEntry, which is embedded in a row. */
  datatype Entry = Entry(row: Row, key: Key, hash: Word)

  /** HashStringKey: times 9 plus the next character, in 32 bits. */
  function HashFrom(result: Word, key: Key): Word
    decreases |key|
  {
    if key == [] then result else HashFrom((result + 8 * result + key[0]) % 0x1_0000_0000, key[1..])
  }

  function HashStringKey(key: Key): Word {
    HashFrom(0, key)
  }

  /** One more character: nine times the hash of those before it, and the character. */
  lemma {:induction false} HashOneMore(result: Word, key: Key, c: KeyChar)
    ensures HashFrom(result, key + [c]) == (9 * HashFrom(result, key) + c) % 0x1_0000_0000
    decreases |key|
  {
    if key == [] {
      assert ([] + [c])[1..] == [];
    } else {
      HashOneMore((result + 8 * result + key[0]) % 0x1_0000_0000, key[1..], c);
      assert (key + [c])[1..] == key[1..] + [c];
    }
  }

  /** "ab" has the hash 9 * 97 + 98. */
  lemma HashInput()
    ensures HashStringKey([97, 98]) == 971
  {
    assert [97, 98][1..] == [98] && [98][1..] == [];
    assert HashFrom(97, [98]) == HashFrom(971, []);
  }

  function Pow(base: nat, n: nat): (r: nat)
    ensures base > 0 ==> r > 0
  {
    if n == 0 then 1 else base * Pow(base, n - 1)
  }

  /** RANDOM_INDEX. The mask is one less than a power of two, so masking is a remainder. */
  function RandomIndex(downShift: nat, mask: nat, hash: Word): (r: nat)
    ensures r <= mask
  {
    (hash * 1103515245 / Pow(2, downShift)) % (mask + 1)
  }

  /** Of sixteen buckets "ab", with the hash 971, is in the one numbered 14. */
  lemma BucketInput()
    ensures RandomIndex(26, 15, 971) == 14
  {
    assert Pow(2, 26) == 0x400_0000 by {
      PowerOfTwo();
    }
  }

  lemma PowerOfTwo()
    ensures Pow(2, 26) == 0x400_0000
  {
    assert Pow(2, 4) == 16 && Pow(2, 8) == 256 && Pow(2, 12) == 0x1000 && Pow(2, 16) == 0x1_0000;
    assert Pow(2, 20) == 0x10_0000 && Pow(2, 24) == 0x100_0000;
  }

  /** The fields after `level` rebuilds. */
  ghost predicate HasLevel(level: nat, numBuckets: int, rebuildSize: int, downShift: int, mask: int) {
    numBuckets == 16 * Pow(16, level) && rebuildSize == REBUILD_MULTIPLIER * numBuckets &&
    mask == numBuckets - 1 && downShift == 26 - 4 * level
  }

  /** RebuildTable's new fields. */
  lemma NextLevel(level: nat, numBuckets: int, rebuildSize: int, downShift: int, mask: int)
    requires HasLevel(level, numBuckets, rebuildSize, downShift, mask)
    ensures HasLevel(level + 1, numBuckets * 16, rebuildSize * 16, downShift - 4, mask * 16 + 15)
  {
  }

  lemma {:induction false} PowAtLeast(level: nat)
    requires level >= MAX_LEVEL
    ensures Pow(16, level) >= 0x100_0000
  {
    if level > MAX_LEVEL {
      PowAtLeast(level - 1);
    } else {
      assert Pow(16, 1) == 16 && Pow(16, 2) == 256 && Pow(16, 3) == 4096;
      assert Pow(16, 4) == 0x1_0000 && Pow(16, 5) == 0x10_0000;
    }
  }

  lemma {:induction false} PowAtMost(level: nat, top: nat)
    requires level <= top
    ensures Pow(16, level) <= Pow(16, top)
  {
    if level < top {
      PowAtMost(level, top - 1);
    }
  }

  /** A level is usable as long as its fields fit an `int` and the shift is not negative: the first seven are. */
  lemma LevelFits(level: nat, numBuckets: int, rebuildSize: int, downShift: int, mask: int)
    requires HasLevel(level, numBuckets, rebuildSize, downShift, mask)
    ensures (downShift >= 0 && numBuckets <= INT_MAX && rebuildSize <= INT_MAX) <==> level <= MAX_LEVEL
  {
    if level > MAX_LEVEL {
      PowAtLeast(level);
    } else {
      PowAtMost(level, MAX_LEVEL);
      assert Pow(16, 2) == 256 && Pow(16, 4) == 0x1_0000;
      assert Pow(16, 6) == 0x100_0000;
    }
  }

  /** At the last usable level the table would be rebuilt only beyond MAX_ENTRIES. */
  lemma RoomToGrow(level: nat, numBuckets: int, rebuildSize: int, downShift: int, mask: int)
    requires HasLevel(level, numBuckets, rebuildSize, downShift, mask) && level <= MAX_LEVEL
    requires rebuildSize <= MAX_ENTRIES
    ensures level < MAX_LEVEL && rebuildSize < rebuildSize * 16
  {
    assert Pow(16, 2) == 256 && Pow(16, 4) == 0x1_0000;
    assert Pow(16, 6) == 0x100_0000;
  }

  // ----- a bucket array represents a map -----

  ghost predicate EntryInv(buckets: seq<seq<Entry>>, downShift: nat, mask: nat, m: map<Key, Entry>, b: int, i: int)
    requires 0 <= b < |buckets| && 0 <= i < |buckets[b]|
  {
    var e := buckets[b][i];
    e.hash == HashStringKey(e.key) && RandomIndex(downShift, mask, e.hash) == b && e.key in m && m[e.key] == e
  }

  /** Each entry stands once, in the bucket its hash selects. */
  ghost predicate Represents(buckets: seq<seq<Entry>>, downShift: nat, mask: nat, m: map<Key, Entry>) {
    |buckets| == mask + 1 &&
    (forall b, i :: 0 <= b < |buckets| && 0 <= i < |buckets[b]| ==> EntryInv(buckets, downShift, mask, m, b, i)) &&
    (forall b, i, j :: 0 <= b < |buckets| && 0 <= i < j < |buckets[b]| ==> buckets[b][i].key != buckets[b][j].key) &&
    (forall k :: k in m ==> m[k].key == k && m[k] in buckets[RandomIndex(downShift, mask, HashStringKey(k))])
  }

  lemma EmptyRepresents(buckets: seq<seq<Entry>>, downShift: nat, mask: nat)
    requires |buckets| == mask + 1 && forall b :: 0 <= b < |buckets| ==> buckets[b] == []
    ensures Represents(buckets, downShift, mask, map[])
  {
  }

  lemma EmptyLeavesNothing(buckets: seq<seq<Entry>>, downShift: nat, mask: nat, m: map<Key, Entry>)
    requires Represents(buckets, downShift, mask, m) && forall b :: 0 <= b < |buckets| ==> buckets[b] == []
    ensures m == map[]
  {
    forall k: Key ensures k !in m {
      assert buckets[RandomIndex(downShift, mask, HashStringKey(k))] == [];
    }
  }

  /** Linking a new entry at the head of its chain. */
  lemma PushRepresents(buckets: seq<seq<Entry>>, downShift: nat, mask: nat, m: map<Key, Entry>, e: Entry)
    requires Represents(buckets, downShift, mask, m) && e.key !in m && e.hash == HashStringKey(e.key)
    ensures var b := RandomIndex(downShift, mask, e.hash);
      Represents(buckets[b := [e] + buckets[b]], downShift, mask, m[e.key := e])
  {
    var b := RandomIndex(downShift, mask, e.hash);
    var buckets', m' := buckets[b := [e] + buckets[b]], m[e.key := e];
    forall c, i | 0 <= c < |buckets'| && 0 <= i < |buckets'[c]|
      ensures EntryInv(buckets', downShift, mask, m', c, i)
    {
      if c == b && i > 0 {
        assert buckets'[c][i] == buckets[c][i - 1] && EntryInv(buckets, downShift, mask, m, c, i - 1);
      } else if c != b {
        assert EntryInv(buckets, downShift, mask, m, c, i);
      }
    }
    forall c, i, j | 0 <= c < |buckets'| && 0 <= i < j < |buckets'[c]|
      ensures buckets'[c][i].key != buckets'[c][j].key
    {
      if c == b {
        assert buckets'[c][j] == buckets[c][j - 1] && EntryInv(buckets, downShift, mask, m, c, j - 1);
      }
    }
    forall k | k in m'
      ensures m'[k] in buckets'[RandomIndex(downShift, mask, HashStringKey(k))]
    {
      if k == e.key {
        assert buckets'[b][0] == e;
      }
    }
  }

  /** Unlinking the entry at place `i` of chain `b`. */
  lemma UnlinkRepresents(buckets: seq<seq<Entry>>, downShift: nat, mask: nat, m: map<Key, Entry>, b: nat, i: nat)
    requires Represents(buckets, downShift, mask, m) && b < |buckets| && i < |buckets[b]|
    ensures Represents(buckets[b := buckets[b][..i] + buckets[b][i + 1..]], downShift, mask, m - {buckets[b][i].key})
  {
    var e := buckets[b][i];
    var buckets', m' := buckets[b := buckets[b][..i] + buckets[b][i + 1..]], m - {e.key};
    assert EntryInv(buckets, downShift, mask, m, b, i);
    forall c, j | 0 <= c < |buckets'| && 0 <= j < |buckets'[c]|
      ensures EntryInv(buckets', downShift, mask, m', c, j)
    {
      var j' := if c == b && j >= i then j + 1 else j;
      assert buckets'[c][j] == buckets[c][j'] && EntryInv(buckets, downShift, mask, m, c, j');
    }
    forall k | k in m'
      ensures m'[k] in buckets'[RandomIndex(downShift, mask, HashStringKey(k))]
    {
      var c := RandomIndex(downShift, mask, HashStringKey(k));
      var j :| 0 <= j < |buckets[c]| && buckets[c][j] == m[k];
      if c == b {
        assert j != i;
        assert buckets'[c][if j < i then j else j - 1] == m[k];
      }
    }
  }

  /** A key stands in its chain exactly when the map has it. */
  lemma LookupIsMap(buckets: seq<seq<Entry>>, downShift: nat, mask: nat, m: map<Key, Entry>, key: Key)
    requires Represents(buckets, downShift, mask, m)
    ensures var chain := buckets[RandomIndex(downShift, mask, HashStringKey(key))];
      (key !in m <==> forall i :: 0 <= i < |chain| ==> chain[i].key != key) &&
      forall i :: 0 <= i < |chain| && chain[i].key == key ==> key in m && m[key] == chain[i]
  {
    var b := RandomIndex(downShift, mask, HashStringKey(key));
    forall i | 0 <= i < |buckets[b]| && buckets[b][i].key == key
      ensures key in m && m[key] == buckets[b][i]
    {
      assert EntryInv(buckets, downShift, mask, m, b, i);
    }
  }

  lemma EntryIsThere(buckets: seq<seq<Entry>>, downShift: nat, mask: nat, m: map<Key, Entry>, e: Entry)
    requires Represents(buckets, downShift, mask, m) && e.key in m && m[e.key] == e
    ensures |buckets| == mask + 1 && e in buckets[RandomIndex(downShift, mask, e.hash)]
  {
    var b := RandomIndex(downShift, mask, HashStringKey(e.key));
    var i :| 0 <= i < |buckets[b]| && buckets[b][i] == e;
    assert EntryInv(buckets, downShift, mask, m, b, i);
  }

  lemma HeadBelongs(buckets: seq<seq<Entry>>, downShift: nat, mask: nat, m: map<Key, Entry>, b: nat)
    requires Represents(buckets, downShift, mask, m) && b < |buckets| && buckets[b] != []
    ensures var e := buckets[b][0]; e.hash == HashStringKey(e.key) && e.key in m && m[e.key] == e
  {
    assert EntryInv(buckets, downShift, mask, m, b, 0);
  }

  // ----- enumeration -----

  /** The entries from bucket `from` on, in the order First/Next visit them. */
  ghost function Flatten(buckets: seq<seq<Entry>>, from: nat): seq<Entry>
    requires from <= |buckets|
    decreases |buckets| - from
  {
    if from == |buckets| then [] else buckets[from] + Flatten(buckets, from + 1)
  }

  lemma {:induction false} FlattenPlace(buckets: seq<seq<Entry>>, from: nat, p: nat) returns (b: nat, i: nat)
    requires from <= |buckets| && p < |Flatten(buckets, from)|
    ensures from <= b < |buckets| && i < |buckets[b]| && Flatten(buckets, from)[p] == buckets[b][i]
    ensures p < |buckets[from]| ==> b == from && i == p
    ensures p >= |buckets[from]| ==> b > from
    decreases |buckets| - from
  {
    if p < |buckets[from]| {
      b, i := from, p;
    } else {
      b, i := FlattenPlace(buckets, from + 1, p - |buckets[from]|);
    }
  }

  lemma {:induction false} FlattenHas(buckets: seq<seq<Entry>>, from: nat, b: nat, i: nat)
    requires from <= b < |buckets| && i < |buckets[b]|
    ensures buckets[b][i] in Flatten(buckets, from)
    decreases b - from
  {
    if from < b {
      FlattenHas(buckets, from + 1, b, i);
    }
  }

  lemma {:induction false} FlattenDistinct(buckets: seq<seq<Entry>>, downShift: nat, mask: nat, m: map<Key, Entry>,
           from: nat, p: nat, q: nat)
    requires Represents(buckets, downShift, mask, m) && from <= |buckets| && p < q < |Flatten(buckets, from)|
    ensures Flatten(buckets, from)[p].key != Flatten(buckets, from)[q].key
    decreases |buckets| - from
  {
    var n := |buckets[from]|;
    if n <= p {
      FlattenDistinct(buckets, downShift, mask, m, from + 1, p - n, q - n);
    } else if n <= q {
      var b, i := FlattenPlace(buckets, from, q);
      assert EntryInv(buckets, downShift, mask, m, b, i) && EntryInv(buckets, downShift, mask, m, from, p);
    }
  }

  /** The enumeration shows every entry of the map, each once, and nothing else. */
  lemma EnumerationIsComplete(buckets: seq<seq<Entry>>, downShift: nat, mask: nat, m: map<Key, Entry>)
    requires Represents(buckets, downShift, mask, m)
    ensures forall k :: k in m ==> m[k] in Flatten(buckets, 0)
    ensures forall p :: 0 <= p < |Flatten(buckets, 0)| ==>
              Flatten(buckets, 0)[p].key in m && m[Flatten(buckets, 0)[p].key] == Flatten(buckets, 0)[p]
    ensures forall p, q :: 0 <= p < q < |Flatten(buckets, 0)| ==>
              Flatten(buckets, 0)[p].key != Flatten(buckets, 0)[q].key
  {
    var all := Flatten(buckets, 0);
    forall k | k in m ensures m[k] in all {
      var b := RandomIndex(downShift, mask, HashStringKey(k));
      var i :| 0 <= i < |buckets[b]| && buckets[b][i] == m[k];
      FlattenHas(buckets, 0, b, i);
    }
    forall p | 0 <= p < |all| ensures all[p].key in m && m[all[p].key] == all[p] {
      var b, i := FlattenPlace(buckets, 0, p);
      assert EntryInv(buckets, downShift, mask, m, b, i);
    }
    forall p, q | 0 <= p < q < |all| ensures all[p].key != all[q].key {
      FlattenDistinct(buckets, downShift, mask, m, 0, p, q);
    }
  }

  method ComputeHash(key: Key) returns (result: Word)
    ensures result == HashStringKey(key)
  {
    result := 0;
    var p := 0;
    while p < |key|
      invariant p <= |key| && HashFrom(result, key[p..]) == HashStringKey(key)
    {
      result := (result + 8 * result + key[p]) % 0x1_0000_0000;
      assert key[p..][1..] == key[p + 1..];
      p := p + 1;
    }
  }

  class HashTable {
    var buckets: array<seq<Entry>>
    var numBuckets: nat
    var numEntries: int
    var rebuildSize: int
    var downShift: nat
    var mask: nat
    ghost var level: nat
    ghost var contents: map<Key, Entry>

    ghost predicate Valid()
      reads this, buckets
    {
      HasLevel(level, numBuckets, rebuildSize, downShift, mask) && level <= MAX_LEVEL &&
      buckets.Length == numBuckets && Represents(buckets[..], downShift, mask, contents) &&
      numEntries == |contents| < rebuildSize
    }

    /** ctable_InitHashTable. */
    constructor ()
      ensures Valid() && contents == map[] && fresh(buckets)
    {
      buckets := new seq<Entry>[CTABLE_SMALL_HASH_TABLE](_ => []);
      numBuckets, numEntries := CTABLE_SMALL_HASH_TABLE, 0;
      rebuildSize := CTABLE_SMALL_HASH_TABLE * REBUILD_MULTIPLIER;
      downShift, mask := 26, 15;
      level, contents := 0, map[];
      new;
      EmptyRepresents(buckets[..], downShift, mask);
    }

    /** The chain walk that finding and storing share. */
    method Lookup(key: Key, hash: Word) returns (r: Option<Entry>)
      requires Valid() && hash == HashStringKey(key)
      ensures r == if key in contents then Some(contents[key]) else None
    {
      var index := RandomIndex(downShift, mask, hash);
      LookupIsMap(buckets[..], downShift, mask, contents, key);
      var chain := buckets[index];
      assert chain == buckets[..][index];
      for p := 0 to |chain|
        invariant forall i :: 0 <= i < p ==> chain[i].key != key
      {
        if hash == chain[p].hash && chain[p].key == key {
          return Some(chain[p]);
        }
        assert EntryInv(buckets[..], downShift, mask, contents, index, p);
      }
      return None;
    }

    /** ctable_FindHashEntry. */
    method Find(key: Key) returns (r: Option<Entry>)
      requires Valid()
      ensures r == if key in contents then Some(contents[key]) else None
    {
      var hash := ComputeHash(key);
      r := Lookup(key, hash);
    }

    /**
     * ctable_StoreHashEntry: the entry with that key, or the row offered, linked in and perhaps followed by a rebuild.
     */
    method Store(key: Key, row: Row) returns (r: Entry, isNew: bool)
      requires Valid() && numEntries < MAX_ENTRIES
      modifies this, buckets
      ensures Valid() && (buckets == old(buckets) || fresh(buckets))
      ensures isNew <==> key !in old(contents)
      ensures r == if isNew then Entry(row, key, HashStringKey(key)) else old(contents)[key]
      ensures contents == if isNew then old(contents)[key := r] else old(contents)
    {
      hide Represents;
      var hash := ComputeHash(key);
      var found := Lookup(key, hash);
      if found.Some? {
        return found.value, false;
      }
      r, isNew := Entry(row, key, hash), true;
      var index := RandomIndex(downShift, mask, hash);
      PushRepresents(buckets[..], downShift, mask, contents, r);
      ghost var before := buckets[..];
      buckets[index] := [r] + buckets[index];
      assert buckets[..] == before[index := [r] + before[index]];
      numEntries := numEntries + 1;
      contents := contents[key := r];
      if numEntries >= rebuildSize {
        Rebuild();
      }
    }

    /** ctable_DeleteHashEntry: walk the entry's chain and unlink it. */
    method Delete(entry: Entry)
      requires Valid() && entry.key in contents && contents[entry.key] == entry
      modifies this, buckets
      ensures Valid() && buckets == old(buckets)
      ensures contents == old(contents) - {entry.key}
    {
      hide Represents;
      var index := RandomIndex(downShift, mask, entry.hash);
      ghost var before := buckets[..];
      var chain := buckets[index];
      EntryIsThere(before, downShift, mask, contents, entry);
      var p := 0;
      while chain[p] != entry
        invariant p < |chain| && entry in chain[p..]
        decreases |chain| - p
      {
        p := p + 1;
      }
      UnlinkRepresents(before, downShift, mask, contents, index, p);
      buckets[index] := chain[..p] + chain[p + 1..];
      assert buckets[..] == before[index := chain[..p] + chain[p + 1..]];
      numEntries := numEntries - 1;
      contents := contents - {entry.key};
    }

    /** The entry at the head of old chain `o` moves to the head of its new chain. */
    method MoveHead(oldBuckets: array<seq<Entry>>, o: nat, ghost oldShift: nat, ghost oldMask: nat,
             ghost left: map<Key, Entry>, ghost moved: map<Key, Entry>)
      returns (ghost left': map<Key, Entry>, ghost moved': map<Key, Entry>)
      requires oldBuckets != buckets && o < oldBuckets.Length && oldBuckets[o] != []
      requires Represents(oldBuckets[..], oldShift, oldMask, left) && Represents(buckets[..], downShift, mask, moved)
      requires left.Keys !! moved.Keys && buckets.Length == mask + 1
      modifies oldBuckets, buckets
      ensures Represents(oldBuckets[..], oldShift, oldMask, left') && Represents(buckets[..], downShift, mask, moved')
      ensures left'.Keys !! moved'.Keys && left' + moved' == left + moved
      ensures oldBuckets[..] == old(oldBuckets[..])[o := old(oldBuckets[o])[1..]]
    {
      hide Represents;
      ghost var olds, news := oldBuckets[..], buckets[..];
      var e := oldBuckets[o][0];
      HeadBelongs(olds, oldShift, oldMask, left, o);
      UnlinkRepresents(olds, oldShift, oldMask, left, o, 0);
      PushRepresents(news, downShift, mask, moved, e);
      left', moved' := left - {e.key}, moved[e.key := e];
      oldBuckets[o] := oldBuckets[o][1..];
      assert olds[o][..0] + olds[o][0 + 1..] == olds[o][1..];
      assert oldBuckets[..] == olds[o := olds[o][1..]];
      var index := RandomIndex(downShift, mask, e.hash);
      buckets[index] := [e] + buckets[index];
      assert buckets[..] == news[index := [e] + news[index]];
    }

    /** The rehashing loops of RebuildTable. */
    method MoveAll(oldBuckets: array<seq<Entry>>, oldSize: nat, ghost oldShift: nat, ghost oldMask: nat)
      requires oldBuckets != buckets && oldBuckets.Length == oldSize && buckets.Length == mask + 1
      requires Represents(oldBuckets[..], oldShift, oldMask, contents) &&
               Represents(buckets[..], downShift, mask, map[])
      modifies oldBuckets, buckets
      ensures Represents(buckets[..], downShift, mask, contents)
    {
      ghost var left, moved := contents, map[];
      assert left + moved == contents;
      for o := 0 to oldSize
        invariant Represents(oldBuckets[..], oldShift, oldMask, left) && Represents(buckets[..], downShift, mask, moved)
        invariant left.Keys !! moved.Keys && left + moved == contents
        invariant forall b :: 0 <= b < o ==> oldBuckets[b] == []
      {
        while oldBuckets[o] != []
          invariant Represents(oldBuckets[..], oldShift, oldMask, left) &&
                    Represents(buckets[..], downShift, mask, moved)
          invariant left.Keys !! moved.Keys && left + moved == contents
          invariant forall b :: 0 <= b < o ==> oldBuckets[b] == []
          decreases |oldBuckets[o]|
        {
          left, moved := MoveHead(oldBuckets, o, oldShift, oldMask, left, moved);
        }
      }
      EmptyLeavesNothing(oldBuckets[..], oldShift, oldMask, left);
      assert moved == contents;
    }

    /**
     * RebuildTable: sixteen times the buckets, every entry moved from the head of its old chain to the head of its new
     * one.
     */
    method Rebuild()
      requires HasLevel(level, numBuckets, rebuildSize, downShift, mask) && level <= MAX_LEVEL
      requires buckets.Length == numBuckets && Represents(buckets[..], downShift, mask, contents)
      requires numEntries == |contents| == rebuildSize <= MAX_ENTRIES
      modifies this, buckets
      ensures Valid() && fresh(buckets)
      ensures contents == old(contents)
    {
      hide Represents;
      RoomToGrow(level, numBuckets, rebuildSize, downShift, mask);
      var oldBuckets, oldSize := buckets, numBuckets;
      ghost var oldShift, oldMask := downShift, mask;
      NextLevel(level, numBuckets, rebuildSize, downShift, mask);
      numBuckets := numBuckets * 16;
      buckets := new seq<Entry>[numBuckets](_ => []);
      rebuildSize, downShift, mask, level := rebuildSize * 16, downShift - 4, mask * 16 + 15, level + 1;
      EmptyRepresents(buckets[..], downShift, mask);
      assert contents - {} == contents;
      MoveAll(oldBuckets, oldSize, oldShift, oldMask);
    }
  }

  /** ctable_HashSearch. `nextEntries` is the chain from nextEntryPtr on. */
  class HashSearch {
    const table: HashTable
    var nextIndex: nat
    var nextEntries: seq<Entry>

    ghost predicate Valid()
      reads this, table, table.buckets
    {
      table.Valid() && nextIndex <= table.buckets.Length
    }

    /** What is still to be shown. */
    ghost function Remaining(): seq<Entry>
      requires Valid()
      reads this, table, table.buckets
    {
      nextEntries + Flatten(table.buckets[..], nextIndex)
    }

    /** ctable_FirstHashEntry, up to its call of ctable_NextHashEntry. */
    constructor (table: HashTable)
      requires table.Valid()
      ensures Valid() && this.table == table && Remaining() == Flatten(table.buckets[..], 0)
    {
      this.table := table;
      nextIndex, nextEntries := 0, [];
    }

    /** ctable_NextHashEntry: the next entry of the enumeration, or none exactly when it is exhausted. */
    method Next() returns (r: Option<Entry>)
      requires Valid()
      modifies this
      ensures Valid()
      ensures r.None? <==> old(Remaining()) == []
      ensures r.Some? ==> old(Remaining()) == [r.value] + Remaining()
    {
      hide Represents;
      while nextEntries == []
        invariant Valid() && Remaining() == old(Remaining())
        decreases table.buckets.Length - nextIndex, |nextEntries|
      {
        if nextIndex >= table.numBuckets {
          return None;
        }
        nextEntries := table.buckets[nextIndex];
        nextIndex := nextIndex + 1;
      }
      r := Some(nextEntries[0]);
      nextEntries := nextEntries[1..];
    }
  }
}
