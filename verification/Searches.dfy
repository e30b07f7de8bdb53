// Executing a search (ctable_PerformSearch, ctable_SearchCompareRow, ctable_PostSearchCommonActions and
// ctable_PrepareTransactions of ctables/ctable_search.c). Search actions answer TCL_OK.

module Searches {
  import opened FieldCompare
  import opened Options
  import opened Preorders
  import QuickSort
  import opened RowLists
  import opened SearchRules
  import opened SkipIndexes
  import opened SkipLists

  // ----- the slice of the matches that a search acts on -----

  /** The matches from `offset` on, at most `limit` of them; a limit of 0 is no limit. */
  function Slice(q: Query, m: seq<Row>): seq<Row> {
    var to := if q.limit == 0 || q.offset + q.limit > |m| then |m| else q.offset + q.limit;
    if q.offset > to then [] else m[q.offset..to]
  }

  /** Place `k` of the slice is place `offset + k` of the matches, and it has as many as there are, up to the limit. */
  lemma SliceHas(q: Query, m: seq<Row>)
    ensures var behind := if |m| > q.offset then |m| - q.offset else 0;
      |Slice(q, m)| == if q.limit == 0 || q.limit > behind then behind else q.limit
    ensures forall k :: 0 <= k < |Slice(q, m)| ==> q.offset + k < |m| && Slice(q, m)[k] == m[q.offset + k]
  {
  }

  /** The part of a buffer of all matches that ctable_PostSearchCommonActions walks. */
  function Buffered(q: Query, m: seq<Row>): seq<Row> {
    var offsetLimit := q.offset + q.limit;
    if m == [] || q.offset > |m| then []
    else m[q.offset..if offsetLimit == 0 || offsetLimit > |m| then |m| else offsetLimit]
  }

  /**
   * Buffering and then slicing acts on the right rows exactly when there is a limit, no offset, or nothing behind the
   * offset.
   */
  lemma BufferedIsSlice(q: Query, m: seq<Row>)
    ensures Buffered(q, m) == Slice(q, m) <==> q.limit > 0 || q.offset == 0 || |m| <= q.offset
  {
    if q.limit == 0 && 0 < q.offset < |m| {
      assert |Slice(q, m)| == |m| - q.offset && |Buffered(q, m)| == 0;
    }
  }

  /** An offset without a limit makes the buffered search drop the row that a streaming one acts on. */
  lemma OffsetAloneIsDropped(data: Data)
    ensures var q := Query([], {7, 8}, [], 0, 1);
      Matching(q, -1, data, [7, 8]) == [7, 8] && Slice(q, [7, 8]) == [8] && Buffered(q, [7, 8]) == []
  {
    var q, rows: seq<Row> := Query([], {7, 8}, [], 0, 1), [7, 8];
    assert rows[..1] == [7] && rows[..1][..0] == [];
    assert SelectedBut(q, -1, data, 7) && SelectedBut(q, -1, data, 8);
    assert Matching(q, -1, data, rows[..1]) == [7];
  }

  /** The limit has been reached. */
  predicate Filled(q: Query, m: seq<Row>) {
    q.limit != 0 && |m| >= q.offset + q.limit
  }

  /** Matches beyond the limit change nothing. */
  lemma FilledIsEnough(q: Query, m: seq<Row>, full: seq<Row>)
    requires m <= full && Filled(q, m)
    ensures Slice(q, m) == Slice(q, full) && Buffered(q, m) == Buffered(q, full)
  {
  }

  /** The limit has been reached exactly when no further matches would change the slice. */
  lemma FilledExactly(q: Query, m: seq<Row>)
    ensures Filled(q, m) <==> q.limit != 0 && forall more: seq<Row> :: Slice(q, m + more) == Slice(q, m)
  {
    if q.limit != 0 && !Filled(q, m) {
      var more: seq<Row> := seq(q.offset + 1, _ => 0);
      SliceHas(q, m);
      SliceHas(q, m + more);
      assert |Slice(q, m + more)| != |Slice(q, m)|;
    }
    if Filled(q, m) {
      forall more: seq<Row> ensures Slice(q, m + more) == Slice(q, m) {
      }
    }
  }

  datatype BufferResults = NoBuffer | Provisional | Defer

  /** How many of `n` matches a buffer has to take: all of them, or as many as the search stops at. */
  function Needed(q: Query, mode: BufferResults, n: nat): nat {
    if mode == Defer || q.limit == 0 || n <= q.offset + q.limit then n else q.offset + q.limit
  }

  /** One more match extends the slice when it lies behind the offset. */
  lemma SliceExtends(q: Query, m: seq<Row>, r: Row)
    requires !Filled(q, m)
    ensures Slice(q, m + [r]) == Slice(q, m) + if |m| + 1 <= q.offset then [] else [r]
  {
  }

  lemma NothingToShow(q: Query, m: seq<Row>)
    requires m == [] || |m| < q.offset
    ensures Slice(q, m) == Buffered(q, m) == []
  {
  }

  lemma BehindOffset(q: Query, m: seq<Row>)
    requires q.offset <= |m| && (q.limit != 0 ==> |m| <= q.offset + q.limit)
    ensures |Slice(q, m)| == |m| - q.offset
  {
  }

  lemma UpToLimit(q: Query, m: seq<Row>, to: nat)
    requires m != [] && q.offset <= |m|
    requires to == if q.offset + q.limit == 0 || q.offset + q.limit > |m| then |m| else q.offset + q.limit
    ensures q.offset <= to <= |m| && Buffered(q, m) == m[q.offset..to]
  {
  }

  // ----- the search -----

  /** The matches among the rows `before` and the first `k` rows of `s`. */
  ghost function Walked(q: Query, skip: int, data: Data, before: seq<Row>, s: seq<Row>, k: nat): (m: seq<Row>)
    requires k <= |s|
    ensures |m| <= |before| + k
  {
    Matching(q, skip, data, before + s[..k])
  }

  lemma WalkedBounds(q: Query, skip: int, data: Data, before: seq<Row>, s: seq<Row>)
    ensures Walked(q, skip, data, before, s, 0) == Matching(q, skip, data, before)
    ensures Walked(q, skip, data, before, s, |s|) == Matching(q, skip, data, before + s)
  {
    assert before + s[..0] == before && s[..|s|] == s;
  }

  lemma WalkedOneMore(q: Query, skip: int, data: Data, before: seq<Row>, s: seq<Row>, k: nat)
    requires k < |s|
    ensures Walked(q, skip, data, before, s, k + 1) ==
            Walked(q, skip, data, before, s, k) + if SelectedBut(q, skip, data, s[k]) then [s[k]] else []
    ensures Walked(q, skip, data, before, s, k + 1) <= Matching(q, skip, data, before + s)
  {
    hide SelectedBut;
    var rows := before + s[..k + 1];
    assert rows[..|rows| - 1] == before + s[..k];
    MatchingMore(q, skip, data, rows, s[k + 1..]);
    assert rows + s[k + 1..] == before + s;
  }

  // ----- sorting rows -----

  function FieldsOf(data: Data, r: Row): Fields {
    seq(|data|, f requires 0 <= f < |data| => ValueOf(data, f, r))
  }

  function CompareRowsBy(sort: seq<SortField>, data: Data): (Row, Row) -> int {
    (r1: Row, r2: Row) => SortCompare(sort, FieldsOf(data, r1), FieldsOf(data, r2), 0)
  }

  lemma RowCompareIsPreorder(sort: seq<SortField>, data: Data)
    requires Directed(sort)
    ensures IsPreorder(CompareRowsBy(sort, data))
  {
    hide SortCompare, FieldsOf;
    var cmp := CompareRowsBy(sort, data);
    forall x: Row, y: Row ensures Mirrors(cmp, x, y) {
      SortCompareLaws(sort, FieldsOf(data, x), FieldsOf(data, y), FieldsOf(data, x), 0);
    }
    forall x: Row, y: Row, z: Row ensures Chains(cmp, x, y, z) {
      SortCompareLaws(sort, FieldsOf(data, x), FieldsOf(data, y), FieldsOf(data, z), 0);
    }
  }

  /** The rows are in the order that the sort asks for. */
  ghost predicate SortedBy(sort: seq<SortField>, data: Data, rows: seq<Row>) {
    forall i, j :: 0 <= i < j < |rows| ==> SortCompare(sort, FieldsOf(data, rows[i]), FieldsOf(data, rows[j]), 0) <= 0
  }

  /**
   * Rows in the order of a walk, on a field whose walk and sort order agree on them, satisfy a one-field sort exactly
   * when it is ascending or all values are equal.
   */
  lemma WalkOrderSatisfiesSort(f: SortField, data: Data, rows: seq<Row>)
    requires (f.direction == 1 || f.direction == -1) && f.field < |data| && InOrder(f.kind, f.field, data, rows)
    requires forall i, j :: 0 <= i < j < |rows| ==>
               SameOrder(f.kind, ValueOf(data, f.field, rows[i]), ValueOf(data, f.field, rows[j]))
    ensures SortedBy([f], data, rows) <==> f.direction == 1 || AllEqual(f.kind, f.field, data, rows)
  {
    hide SortCompare, Compare, SortOne, FieldsOf, ValueOf;
    forall i, j | 0 <= i < j < |rows|
      ensures SortCompare([f], FieldsOf(data, rows[i]), FieldsOf(data, rows[j]), 0) <= 0 <==>
                f.direction == 1 ||
                Compare(f.kind, ValueOf(data, f.field, rows[i]), ValueOf(data, f.field, rows[j])) == 0
    {
      OneFieldSort(f, data, rows[i], rows[j]);
      DirectionTurns(f, ValueOf(data, f.field, rows[i]), ValueOf(data, f.field, rows[j]));
    }
  }

  /** Of two sorted rows the earlier is not behind in the first sort field that tells them apart. */
  lemma SortedMeans(sort: seq<SortField>, data: Data, rows: seq<Row>, i: nat, j: nat, k: nat)
    requires SortedBy(sort, data, rows) && i < j < |rows| && k < |sort|
    requires forall n :: 0 <= n < k ==>
               SortOne(sort[n], ValueOf(data, sort[n].field, rows[i]), ValueOf(data, sort[n].field, rows[j])) == 0
    ensures SortOne(sort[k], ValueOf(data, sort[k].field, rows[i]), ValueOf(data, sort[k].field, rows[j])) <= 0
  {
    var x, y := FieldsOf(data, rows[i]), FieldsOf(data, rows[j]);
    forall n | 0 <= n < |sort|
      ensures Get(x, sort[n].field) == ValueOf(data, sort[n].field, rows[i])
      ensures Get(y, sort[n].field) == ValueOf(data, sort[n].field, rows[j])
    {
    }
    hide SortOne, FieldsOf, ValueOf, SortCompare;
    if SortOne(sort[k], Get(x, sort[k].field), Get(y, sort[k].field)) != 0 {
      FirstFieldDecides(sort, x, y, 0, k);
    }
  }

  /** Two rows sorted by fields 0 and 1, ascending: the one with the lower number in field 0 comes first. */
  lemma TwoFieldSortInput()
    ensures var data := [map[7 := Number(1.0), 8 := Number(2.0)], map[7 := Number(2.0), 8 := Number(1.0)]];
      var sort := [SortField(0, NumberField, 1), SortField(1, NumberField, 1)];
      SortedBy(sort, data, [7, 8]) && !SortedBy(sort, data, [8, 7])
  {
    var data: Data := [map[7 := Number(1.0), 8 := Number(2.0)], map[7 := Number(2.0), 8 := Number(1.0)]];
    var sort := [SortField(0, NumberField, 1), SortField(1, NumberField, 1)];
    assert FieldsOf(data, 7) == [Number(1.0), Number(2.0)] && FieldsOf(data, 8) == [Number(2.0), Number(1.0)];
    TwoFieldInput();
    SortCompareLaws(sort, FieldsOf(data, 7), FieldsOf(data, 8), FieldsOf(data, 7), 0);
    var rows: seq<Row> := [8, 7];
    assert SortCompare(sort, FieldsOf(data, rows[0]), FieldsOf(data, rows[1]), 0) > 0;
  }

  /** The rows have equal values of the field. */
  ghost predicate AllEqual(kind: Kind, field: nat, data: Data, rows: seq<Row>) {
    forall i, j :: 0 <= i < j < |rows| ==>
      Compare(kind, ValueOf(data, field, rows[i]), ValueOf(data, field, rows[j])) == 0
  }

  /** The row's string starts at or above 0x80. */
  ghost predicate HighText(field: nat, data: Data, r: Row) {
    var v := ValueOf(data, field, r);
    v.Text? && StartsHigh(v.s)
  }

  /**
   * Rows in the order of a walk, with strings that are not null, satisfy an ascending sort exactly when all or none
   * start at or above 0x80, and a descending one exactly when those that do are equal and those that do not are equal.
   */
  lemma WalkOrderSatisfiesTextSort(f: SortField, data: Data, rows: seq<Row>)
    requires f.kind == VarstringField && (f.direction == 1 || f.direction == -1) && f.field < |data|
    requires InOrder(f.kind, f.field, data, rows) && forall r :: r in rows ==> ValueOf(data, f.field, r).Text?
    ensures SortedBy([f], data, rows) <==>
              forall i, j :: 0 <= i < j < |rows| ==>
                if f.direction == 1 then HighText(f.field, data, rows[i]) <==> HighText(f.field, data, rows[j])
                else (HighText(f.field, data, rows[i]) <==> HighText(f.field, data, rows[j])) ==>
                       ValueOf(data, f.field, rows[i]) == ValueOf(data, f.field, rows[j])
  {
    hide SortCompare, Compare, SortOne, FieldsOf, ValueOf, StartsHigh;
    forall i, j | 0 <= i < j < |rows|
      ensures SortCompare([f], FieldsOf(data, rows[i]), FieldsOf(data, rows[j]), 0) <= 0 <==>
                if f.direction == 1 then HighText(f.field, data, rows[i]) <==> HighText(f.field, data, rows[j])
                else (HighText(f.field, data, rows[i]) <==> HighText(f.field, data, rows[j])) ==>
                       ValueOf(data, f.field, rows[i]) == ValueOf(data, f.field, rows[j])
    {
      OneFieldSort(f, data, rows[i], rows[j]);
      DirectionTurns(f, ValueOf(data, f.field, rows[i]), ValueOf(data, f.field, rows[j]));
      TextsInWalkOrder(ValueOf(data, f.field, rows[i]), ValueOf(data, f.field, rows[j]));
    }
  }

  /**
   * A descending sort that the walk of an index lets the search drop, although the rows are walked in ascending order.
   */
  lemma DescendingSortIsLost()
    ensures var data := [map[1 := Number(1.0), 2 := Number(2.0)]];
      InOrder(NumberField, 0, data, [1, 2]) && !SortedBy([SortField(0, NumberField, -1)], data, [1, 2])
  {
    var data: Data, f := [map[1 := Number(1.0), 2 := Number(2.0)]], SortField(0, NumberField, -1);
    var rows: seq<Row> := [1, 2];
    assert ValueOf(data, 0, 1) == Number(1.0) && ValueOf(data, 0, 2) == Number(2.0);
    assert Compare(NumberField, ValueOf(data, 0, rows[0]), ValueOf(data, 0, rows[1])) < 0;
    WalkOrderIsSortOrder(NumberField, ValueOf(data, 0, 1), ValueOf(data, 0, 2));
    WalkOrderSatisfiesSort(f, data, rows);
  }

  lemma OneFieldSort(f: SortField, data: Data, r1: Row, r2: Row)
    requires f.field < |data|
    ensures SortCompare([f], FieldsOf(data, r1), FieldsOf(data, r2), 0) ==
            SortOne(f, ValueOf(data, f.field, r1), ValueOf(data, f.field, r2))
  {
    var v1, v2 := ValueOf(data, f.field, r1), ValueOf(data, f.field, r2);
    assert Get(FieldsOf(data, r1), f.field) == v1 && Get(FieldsOf(data, r2), f.field) == v2;
    assert SortCompare([f], FieldsOf(data, r1), FieldsOf(data, r2), 1) == 0;
  }

  /** Any rows can be sorted. */
  lemma {:induction false} SortedExists(sort: seq<SortField>, data: Data, rows: seq<Row>) returns (sorted: seq<Row>)
    requires Directed(sort)
    ensures SortedBy(sort, data, sorted) && multiset(sorted) == multiset(rows)
  {
    hide SortCompare, FieldsOf, SortedBy;
    if rows == [] {
      NothingToSort(sort, data);
      return [];
    }
    var rest := SortedExists(sort, data, rows[1..]);
    sorted := SortedWith(sort, data, rest, rows[0]);
    assert rows == [rows[0]] + rows[1..];
  }

  lemma NothingToSort(sort: seq<SortField>, data: Data)
    ensures SortedBy(sort, data, [])
  {
  }

  lemma SortedWith(sort: seq<SortField>, data: Data, rows: seq<Row>, r: Row) returns (sorted: seq<Row>)
    requires Directed(sort) && SortedBy(sort, data, rows)
    ensures SortedBy(sort, data, sorted) && multiset(sorted) == multiset(rows) + multiset{r}
  {
    hide SortCompare, FieldsOf;
    var x, k := FieldsOf(data, r), 0;
    while k < |rows| && SortCompare(sort, FieldsOf(data, rows[k]), x, 0) <= 0
      invariant k <= |rows| && forall i :: 0 <= i < k ==> SortCompare(sort, FieldsOf(data, rows[i]), x, 0) <= 0
    {
      k := k + 1;
    }
    forall j | k <= j < |rows| ensures SortCompare(sort, x, FieldsOf(data, rows[j]), 0) <= 0 {
      SortCompareLaws(sort, FieldsOf(data, rows[k]), x, x, 0);
      SortCompareLaws(sort, x, FieldsOf(data, rows[k]), FieldsOf(data, rows[j]), 0);
    }
    assert rows == rows[..k] + rows[k..];
    sorted := rows[..k] + [r] + rows[k..];
  }

  /** Every slice of sorted rows is sorted. */
  lemma SortedSlice(q: Query, sort: seq<SortField>, data: Data, rows: seq<Row>)
    requires SortedBy(sort, data, rows)
    ensures SortedBy(sort, data, Buffered(q, rows))
  {
    hide SortCompare, FieldsOf;
  }

  lemma AnswersPermuted(q: Query, data: Data, all: seq<Row>, full: seq<Row>, final: seq<Row>)
    requires Answers(q, data, all, full) && multiset(final) == multiset(full)
    ensures Answers(q, data, all, final)
  {
    hide Selected;
    forall r ensures r in final <==> r in full {
      assert r in multiset(final) <==> r in multiset(full);
    }
    forall i, j | 0 <= i < j < |final| ensures final[i] != final[j] {
      if final[i] == final[j] {
        assert final == final[..i] + [final[i]] + final[i + 1..j] + [final[j]] + final[j + 1..];
        assert multiset(final)[final[i]] >= 2;
        OnceInMultiset(full, final[i]);
      }
    }
  }

  lemma {:induction false} OnceInMultiset(s: seq<Row>, r: Row)
    requires NoRepeats(s)
    ensures multiset(s)[r] <= 1
  {
    if s != [] {
      var front, last := s[..|s| - 1], s[|s| - 1];
      OnceInMultiset(front, r);
      assert s == front + [last] && last !in front;
      if r == last {
        assert r !in multiset(front);
      }
    }
  }

  class Search {
    const q: Query
    const counting: bool
    const transaction: bool
    var alreadySearched: int
    var sort: seq<SortField>
    var bufferResults: BufferResults
    var offsetLimit: int
    var matchCount: int
    var tranTable: array?<Row>
    var acted: seq<Row>
    var transacted: seq<Row>
    ghost var seen: seq<Row>

    constructor (q: Query, counting: bool, transaction: bool)
      ensures this.q == q && this.counting == counting && this.transaction == transaction
    {
      this.q, this.counting, this.transaction := q, counting, transaction;
      alreadySearched, sort, bufferResults, tranTable := -1, q.sort, NoBuffer, null;
      offsetLimit, matchCount, acted, transacted, seen := 0, 0, [], [], [];
    }

    /** `seen` are the matches so far. */
    ghost predicate State()
      reads this, tranTable
    {
      offsetLimit == q.offset + q.limit && matchCount == |seen| && transacted == [] &&
      (tranTable == null <==> bufferResults == NoBuffer) &&
      (tranTable != null ==> |seen| <= tranTable.Length && tranTable[..|seen|] == seen) &&
      (bufferResults != Defer && q.limit != 0 ==> |seen| <= q.offset + q.limit) &&
      acted == if counting || bufferResults == Defer then [] else Slice(q, seen)
    }

    /** The search still looks for matches. */
    ghost predicate Open()
      reads this`bufferResults, this`seen
    {
      bufferResults == Defer || !Filled(q, seen)
    }

    /** The search may rest: its matches are all of `full`, or a beginning of it that reaches the limit. */
    ghost predicate Complete(full: seq<Row>)
      reads this`bufferResults, this`seen
    {
      seen == full || (bufferResults != Defer && Filled(q, seen) && seen <= full)
    }

    /** The buffer, if there is one, can take what has to be buffered of `n` matches. */
    ghost predicate Room(n: nat)
      reads this`bufferResults, this`tranTable
    {
      tranTable != null ==> Needed(q, bufferResults, n) <= tranTable.Length
    }

    /** ctable_SearchCompareRow. It answers whether the search can stop (TCL_BREAK). */
    method CompareRow(data: Data, row: Row) returns (stop: bool)
      requires State() && Open()
      requires tranTable != null && SelectedBut(q, alreadySearched, data, row) ==> |seen| < tranTable.Length
      modifies this`matchCount, this`acted, this`seen, tranTable
      ensures State() && (stop ==> bufferResults != Defer && Filled(q, seen)) && (!stop ==> Open())
      ensures seen == old(seen) + if SelectedBut(q, alreadySearched, data, row) then [row] else []
    {
      hide Passes, Slice;
      if row !in q.others {
        return false;
      }
      var accepted := SearchCompare(q.components, alreadySearched, data, row);
      if !accepted {
        return false;
      }
      ghost var before := seen;
      seen := seen + [row];
      if bufferResults != Defer {
        SliceExtends(q, before, row);
      }
      if tranTable == null {
        matchCount := matchCount + 1;
      } else {
        tranTable[matchCount] := row;
        matchCount := matchCount + 1;
        if bufferResults == Defer {
          return false;
        }
      }
      if matchCount <= q.offset {
        return false;
      }
      if !counting {
        acted := acted + [row];
      }
      stop := q.limit != 0 && matchCount >= offsetLimit;
    }

    /** CTABLE_LIST_FOREACH over the rows `s`, after the rows `before`. */
    method WalkList(links: RowLinks, first: Option<Row>, data: Data, ghost before: seq<Row>, ghost s: seq<Row>)
      returns (stop: bool)
      requires State() && Open() && Sees(links.Mem(), first, s, 0) && seen == Matching(q, alreadySearched, data, before)
      requires Room(|Matching(q, alreadySearched, data, before + s)|)
      modifies this`matchCount, this`acted, this`seen, tranTable
      ensures State() && (stop ==> Complete(Matching(q, alreadySearched, data, before + s)) && !Open())
      ensures !stop ==> Open() && seen == Matching(q, alreadySearched, data, before + s)
    {
      hide State, SelectedBut, Matching, Walked, LinksInv;
      var row, k := first, 0;
      WalkedBounds(q, alreadySearched, data, before, s);
      while row.Some?
        invariant k <= |s| && row == At(s, k) && State() && Open()
        invariant seen == Walked(q, alreadySearched, data, before, s, k)
        decreases |s| - k
      {
        WalkedOneMore(q, alreadySearched, data, before, s, k);
        stop := CompareRow(data, row.value);
        if stop {
          assert !Open() && Complete(Matching(q, alreadySearched, data, before + s));
          return;
        }
        row, k := links.links[row.value].next, k + 1;
      }
      stop := false;
    }

    // ----- the skip walk -----

    /** The walk of `index` for component `c` over the nodes `V` has `j` nodes behind it. */
    ghost predicate AtNode(index: SkipIndex, c: Component, V: seq<Addr>, from: nat, inIndex: nat, j: nat)
      reads index`levels, index`keys, index`curl
    {
      j <= |V| && index.levels != [] && c.kind == index.kind &&
      var L := index.levels[0];
      if c.test == In then inIndex <= |c.inList| && V[j..] == InNodes(c.kind, index.keys, L, c.inList[inIndex..])
      else IsRange(c, index.keys, L, from, from + |V|) && V == L[from..from + |V|] && index.curl == At(L, from + j)
    }

    /** "Find the row to start walking on". */
    method StartWalk(index: SkipIndex, c: Component, ghost from: nat, ghost to: nat)
      requires index.Searchable() && index.levels != [] && c.kind == index.kind && c.test != Ne &&
               (c.test != In ==> IsRange(c, index.keys, index.levels[0], from, to))
      modifies index`curl, index.fix
      ensures SkipType(c.test).0 != StartNone && (c.test != In ==> index.curl == At(index.levels[0], from))
    {
      hide Compare, Shape;
      ghost var L := index.levels[0];
      match SkipType(c.test).0 {
        case StartEqRow1 =>
          var r, cut := index.Find(c.row1);
          CutIsStart(c, index.keys, L, from, to, cut);
        case StartGeRow1 =>
          var cut := index.FindEqualOrGreater(c.row1);
          CutIsStart(c, index.keys, L, from, to, cut);
        case StartGtRow1 =>
          var cut := index.FindEqualOrGreater(c.row1);
          StartNotBefore(c, index.keys, L, from, to, cut);
          SkipEqual(index, c, cut, from, to);
        case StartReset =>
          index.Reset();
      }
    }

    /** The loop at the start of a `>` walk. */
    method SkipEqual(index: SkipIndex, c: Component, ghost cut: nat, ghost from: nat, ghost to: nat)
      requires index.Searchable() && index.levels != [] && c.kind == index.kind && c.test == Gt &&
               IsRange(c, index.keys, index.levels[0], from, to)
      requires cut <= from && index.curl == At(index.levels[0], cut)
      modifies index`curl
      ensures index.curl == At(index.levels[0], from)
    {
      hide Compare, Shape;
      ghost var a := cut;
      while true
        invariant a <= from && index.curl == At(index.levels[0], a)
        decreases from - a
      {
        if index.curl.Some? {
          KeyShown(index, a);
        }
        var row := index.CurrentRow();
        if row.None? {
          break;
        }
        CompareLaws(c.kind, index.column.values[row.value], index.keys[index.levels[0][a]], c.row1);
        Congruent(c.kind, index.column.values[row.value], index.keys[index.levels[0][a]], c.row1);
        if Compare(c.kind, index.column.values[row.value], c.row1) > 0 {
          break;
        }
        var more := index.Next(a);
        a := a + 1;
      }
    }

    /** A node shows a row whose value equals its key. */
    lemma KeyShown(index: SkipIndex, a: nat)
      requires index.Searchable() && index.levels != [] && a < |index.levels[0]|
      ensures var n := index.levels[0][a]; Keyed(index.kind, index.links.heads, index.column.values, index.keys, n)
    {
    }

    lemma CutIsStart(c: Component, keys: map<Addr, Value>, L: seq<Addr>, from: nat, to: nat, cut: nat)
      requires IsRange(c, keys, L, from, to) && (c.test == Eq || c.test == Ge || c.test == Range) &&
               Cut(c.kind, keys, L, c.row1, cut)
      ensures cut == from
    {
      hide Compare;
      if cut < from {
        CompareLaws(c.kind, keys[L[cut]], c.row1, c.row1);
      } else if from < cut {
        CompareLaws(c.kind, keys[L[from]], c.row1, c.row1);
      }
    }

    lemma StartNotBefore(c: Component, keys: map<Addr, Value>, L: seq<Addr>, from: nat, to: nat, cut: nat)
      requires IsRange(c, keys, L, from, to) && c.test == Gt && Cut(c.kind, keys, L, c.row1, cut)
      ensures cut <= from
    {
      hide Compare;
      if from < cut {
        CompareLaws(c.kind, keys[L[from]], c.row1, c.row1);
      }
    }

    /** The loop that looks each value of an `in` list up until one is found. */
    method FindNextListed(index: SkipIndex, c: Component, from: nat) returns (found: bool, inIndex: nat)
      requires index.Searchable() && index.levels != [] && c.kind == index.kind && from <= |c.inList|
      modifies index`curl, index.fix
      ensures inIndex <= |c.inList|
      ensures var rest := InNodes(c.kind, index.keys, index.levels[0], c.inList[from..]);
        var behind := InNodes(c.kind, index.keys, index.levels[0], c.inList[inIndex..]);
        if found then index.curl.Some? && rest == [index.curl.value] + behind else rest == []
    {
      hide Compare, Shape, InNodes;
      index.ShapeHeight();
      index.LevelFacts(0);
      inIndex := from;
      while inIndex < |c.inList|
        invariant from <= inIndex <= |c.inList|
        invariant InNodes(c.kind, index.keys, index.levels[0], c.inList[from..]) ==
                  InNodes(c.kind, index.keys, index.levels[0], c.inList[inIndex..])
      {
        var key := c.inList[inIndex];
        InNodesStep(c.kind, index.keys, index.levels[0], c.inList, inIndex);
        inIndex := inIndex + 1;
        var r, cut := index.Find(key);
        if r.Some? {
          OnlyNode(c.kind, index.keys, index.levels[0], key, r.value);
          return true, inIndex;
        }
      }
      InNodesEnd(c.kind, index.keys, index.levels[0], c.inList);
      found := false;
    }

    lemma InNodesStep(kind: Kind, keys: map<Addr, Value>, L: seq<Addr>, inList: seq<Value>, i: nat)
      requires i < |inList|
      ensures InNodes(kind, keys, L, inList[i..]) ==
        (if HasKey(kind, L, keys, inList[i]) then [NodeOf(kind, keys, L, inList[i])] else []) +
        InNodes(kind, keys, L, inList[i + 1..])
    {
      hide Compare, HasKey;
      assert inList[i..][1..] == inList[i + 1..];
    }

    lemma InNodesEnd(kind: Kind, keys: map<Addr, Value>, L: seq<Addr>, inList: seq<Value>)
      ensures InNodes(kind, keys, L, inList[|inList|..]) == []
    {
    }

    /** The row to look at next, or none when the walk is at its end. */
    method NextNode(index: SkipIndex, c: Component, inIndex: nat, ghost V: seq<Addr>, ghost from: nat, ghost j: nat)
      returns (row: Option<Row>, inIndex': nat)
      requires index.Searchable() && c.test != Ne && AtNode(index, c, V, from, inIndex, j)
      modifies index`curl, index.fix
      ensures row.None? <==> j == |V|
      ensures row.Some? ==> index.curl == Some(V[j]) && V[j] in index.links.heads && row == index.links.heads[V[j]]
      ensures row.Some? ==> AtNode(index, c, V, from, inIndex', if c.test == In then j + 1 else j)
    {
      hide Compare, Shape, IsRange, InNodes;
      inIndex' := inIndex;
      if SkipType(c.test).2 == NextInList {
        var found;
        found, inIndex' := FindNextListed(index, c, inIndex);
        if !found {
          return None, inIndex';
        }
        ghost var rest := InNodes(c.kind, index.keys, index.levels[0], c.inList[inIndex'..]);
        FirstOfRest(index, c, V, inIndex, j, index.curl.value, rest);
        row := index.CurrentRow();
      } else {
        EndOfRange(index, c, V, from, j);
        row := index.CurrentRow();
        if row.Some? && AtEnd(c, index.column.values[row.value]) {
          row := None;
        }
      }
    }

    lemma FirstOfRest(index: SkipIndex, c: Component, V: seq<Addr>, inIndex: nat, j: nat, n: Addr, rest: seq<Addr>)
      requires index.Searchable() && AtNode(index, c, V, 0, inIndex, j) && c.test == In && V[j..] == [n] + rest
      ensures j < |V| && V[j] == n && V[j + 1..] == rest && n in index.levels[0] &&
              Keyed(index.kind, index.links.heads, index.column.values, index.keys, n)
    {
      hide Compare, Shape;
      assert V[j..][0] == n && V[j..][1..] == rest;
      assert n in index.levels[0];
    }

    /** The current node of a range walk, and whether its row ends the walk. */
    lemma EndOfRange(index: SkipIndex, c: Component, V: seq<Addr>, from: nat, j: nat)
      requires index.Searchable() && AtNode(index, c, V, from, 0, j) && c.test != In && c.test != Ne
      ensures index.curl.None? ==> j == |V|
      ensures j < |V| ==> index.curl == Some(V[j])
      ensures index.curl.Some? ==> index.curl.value in index.levels[0]
      ensures index.curl.Some? ==>
                Keyed(index.kind, index.links.heads, index.column.values, index.keys, index.curl.value)
      ensures index.curl.Some? ==>
                (j == |V| <==> AtEnd(c, index.column.values[index.links.heads[index.curl.value].value]))
    {
      hide Compare, Shape, AtEnd, AfterStart;
      var L := index.levels[0];
      if index.curl.Some? {
        assert L[from + j] in L;
        KeyShown(index, from + j);
        EqualValuesAcceptAlike(c, index.column.values[index.links.heads[L[from + j]].value], index.keys[L[from + j]]);
      }
    }

    /** The index has all rows, and shows the values that the search sees. */
    ghost predicate Ready(index: SkipIndex, c: Component, data: Data, all: seq<Row>)
      reads index`next, index`curh, index`keys, index`levels, index.links, index.column
    {
      index.Valid() && index.levels != [] && index.kind == c.kind && c.field < |data| &&
        data[c.field] == index.column.values &&
      IndexesAll(c.kind, index.keys, index.levels[0], index.links.lists, data[c.field], all)
    }

    lemma WalkStarts(index: SkipIndex, c: Component, V: seq<Addr>, from: nat)
      requires index.levels != [] && c.kind == index.kind
      requires c.test == In ==> V == InNodes(c.kind, index.keys, index.levels[0], c.inList)
      requires c.test != In ==> IsRange(c, index.keys, index.levels[0], from, from + |V|)
      requires c.test != In ==> V == index.levels[0][from..from + |V|] && index.curl == At(index.levels[0], from)
      ensures AtNode(index, c, V, from, 0, 0)
    {
      assert V[0..] == V && c.inList[0..] == c.inList;
    }

    lemma BucketShown(index: SkipIndex, n: Addr)
      requires index.Valid() && index.levels != [] && n in index.levels[0] && n in index.links.heads
      ensures n in index.links.lists && Sees(index.links.Mem(), index.links.heads[n], index.links.lists[n], 0)
    {
      hide Compare, Shape;
      assert index.Bucket(n);
      var m, s := index.links.Mem(), index.links.lists[n];
      assert IsList(m, n, s);
      assert forall k :: 0 <= k < |s| ==> m.links[s[k]] == LinkAt(n, s, k);
    }

    /** jsw_snext at the end of a turn of the walk of a range. */
    method NextInRange(index: SkipIndex, c: Component, inIndex: nat, ghost V: seq<Addr>, ghost from: nat, ghost j: nat)
      requires index.Searchable() && c.test != In && AtNode(index, c, V, from, inIndex, j) && j < |V|
      modifies index`curl
      ensures AtNode(index, c, V, from, inIndex, j + 1)
    {
      hide Compare, Shape, AfterStart, AtEnd;
      assert V[j] == index.levels[0][from + j];
      var more := index.Next(from + j);
    }

    /** The rows of one node's bucket. */
    method WalkBucket(index: SkipIndex, row: Option<Row>, data: Data, ghost W: seq<Addr>, ghost j: nat)
      returns (stop: bool)
      requires State() && Open() && index.Valid() && index.levels != [] && alreadySearched >= 0
      requires j < |W| && W[j] in index.levels[0] && W[j] in index.links.heads && row == index.links.heads[W[j]]
      requires seen == Matching(q, alreadySearched, data, RowsOf(index.links.lists, W[..j]))
      requires Room(|Matching(q, alreadySearched, data, RowsOf(index.links.lists, W))|)
      modifies this`matchCount, this`acted, this`seen, tranTable
      ensures State() &&
              (stop ==> Complete(Matching(q, alreadySearched, data, RowsOf(index.links.lists, W))) && !Open())
      ensures !stop ==> Open() && seen == Matching(q, alreadySearched, data, RowsOf(index.links.lists, W[..j + 1]))
    {
      hide State, Compare, Shape, LinksInv, Matching, RowsOf, Filled;
      ghost var lists := index.links.lists;
      BucketShown(index, W[j]);
      NextBucket(q, alreadySearched, data, lists, W, j);
      stop := WalkList(index.links, row, data, RowsOf(lists, W[..j]), lists[W[j]]);
    }

    /** The walk of the nodes `V`, of which it gets to `W`, has shown the buckets of the first `j`. */
    ghost predicate Walking(index: SkipIndex, chosen: nat, data: Data, V: seq<Addr>, W: seq<Addr>, from: nat,
                 inIndex: nat, j: nat)
      reads this, tranTable, index`next, index`curh, index`keys, index`levels, index`curl, index.links, index.column
    {
      alreadySearched == chosen < |q.components| && q.components[chosen].test != Ne && index.Valid() && State() &&
        Open() &&
      AtNode(index, q.components[chosen], V, from, inIndex, j) && (forall n :: n in V ==> n in index.levels[0]) &&
      W <= V && j <= |W| && tranTable != index.fix &&
      Room(|Matching(q, chosen, data, RowsOf(index.links.lists, W))|) &&
      seen == Matching(q, chosen, data, RowsOf(index.links.lists, W[..j]))
    }

    /** One turn of the walk's loop. */
    method Turn(index: SkipIndex, chosen: nat, data: Data, inIndex: nat, ghost V: seq<Addr>, ghost W: seq<Addr>,
             ghost from: nat, ghost j: nat) returns (more: bool, inIndex': nat)
      requires Walking(index, chosen, data, V, W, from, inIndex, j) && (j < |W| || W == V)
      modifies this`matchCount, this`acted, this`seen, tranTable, index`curl, index.fix
      ensures more ==> j < |W| && Walking(index, chosen, data, V, W, from, inIndex', j + 1)
      ensures !more ==>
                State() && Complete(Matching(q, chosen, data, RowsOf(index.links.lists, W))) && (Open() ==> j == |V|)
    {
      hide State, Open, Room, Compare, Shape, LinksInv, Matching, RowsOf, AtNode, InNodes, IsRange, Walked;
      var c := q.components[chosen];
      AtNodeBounds(index, c, V, from, inIndex, j);
      var row;
      row, inIndex' := NextNode(index, c, inIndex, V, from, j);
      if row.None? {
        assert W[..j] == W;
        return false, inIndex';
      }
      var stop := WalkBucket(index, row, data, W, j);
      if !stop && SkipType(c.test).2 == NextRow {
        NextInRange(index, c, inIndex', V, from, j);
      }
      assert index.Valid() && State();
      more := !stop;
    }

    lemma AtNodeBounds(index: SkipIndex, c: Component, V: seq<Addr>, from: nat, inIndex: nat, j: nat)
      requires AtNode(index, c, V, from, inIndex, j)
      ensures j <= |V| && index.levels != [] && c.kind == index.kind
    {
    }

    /** The matches among the rows that a walk of `index` shows, as far as a table of `count` rows lets it come. */
    ghost function WalkMatches(index: SkipIndex, chosen: nat, data: Data, count: nat): seq<Row>
      requires chosen < |q.components|
      reads index`keys, index`levels, index.links
    {
      var c := q.components[chosen];
      Matching(q, chosen, data, RowsOf(index.links.lists, ReachedNodes(c, index.keys, index.Nodes(), count)))
    }

    /** The walk visits more nodes than the table has rows, and is not stopped before. */
    ghost predicate RunsOut(index: SkipIndex, chosen: nat, data: Data, count: nat, mode: BufferResults)
      requires chosen < |q.components|
      reads index`keys, index`levels, index.links
    {
      |VisitedNodes(q.components[chosen], index.keys, index.Nodes())| > count &&
      (mode == Defer || !Filled(q, WalkMatches(index, chosen, data, count)))
    }

    /** A walk that visits no node twice finds the right rows, does not run out, and fits the buffer. */
    lemma WalkIsRight(index: SkipIndex, chosen: nat, data: Data, all: seq<Row>, mode: BufferResults)
      requires chosen < |q.components| && q.components[chosen].test != Ne &&
               Ready(index, q.components[chosen], data, all)
      requires VisitsOnce(q.components[chosen], index.keys, index.Nodes())
      ensures !RunsOut(index, chosen, data, |all|, mode)
      ensures var full := WalkMatches(index, chosen, data, |all|);
        Answers(q, data, all, full) && Needed(q, mode, |full|) <= |all|
    {
      hide Shape, Compare, IndexesAll, Answers, VisitedNodes, VisitsOnce, Matching, RowsOf;
      PlanAnswers(q, chosen, data, index.keys, index.levels[0], index.links.lists, all);
      var V := VisitedNodes(q.components[chosen], index.keys, index.Nodes());
      MatchingIsNoMore(q, chosen, data, index.links.lists, V);
    }

    lemma MatchingIsNoMore(q: Query, chosen: nat, data: Data, lists: map<Addr, seq<Row>>, V: seq<Addr>)
      ensures |Matching(q, chosen, data, RowsOf(lists, V))| <= |RowsOf(lists, V)|
    {
    }

    /** The walk of a range shows its matches in the order of its field. */
    lemma WalkIsInOrder(index: SkipIndex, chosen: nat, data: Data, all: seq<Row>)
      requires chosen < |q.components| && SkipType(q.components[chosen].test).2 == NextRow
      requires Ready(index, q.components[chosen], data, all)
      ensures InOrder(index.kind, q.components[chosen].field, data, WalkMatches(index, chosen, data, |all|))
    {
      hide Shape, Compare, IndexesAll, Answers, VisitedNodes, InOrder, Matching, RowsOf;
      PlanAnswers(q, chosen, data, index.keys, index.levels[0], index.links.lists, all);
      var from := PlanRange(q, chosen, data, index.keys, index.levels[0], index.links.lists, all);
    }

    /** The walk of a skip list. It is infinite when it does not end within as many turns as the table has rows. */
    method WalkSkipList(index: SkipIndex, chosen: nat, data: Data, count: nat, ghost all: seq<Row>)
      returns (infinite: bool)
      requires State() && Open() && seen == [] && alreadySearched == chosen < |q.components| && count == |all|
      requires q.components[chosen].test != Ne && Ready(index, q.components[chosen], data, all)
      requires tranTable != index.fix && Room(|WalkMatches(index, chosen, data, count)|)
      modifies this`matchCount, this`acted, this`seen, tranTable, index`curl, index.fix
      ensures infinite <==> RunsOut(index, chosen, data, count, bufferResults)
      ensures !infinite ==> State() && Complete(WalkMatches(index, chosen, data, count))
    {
      hide State, Compare, Shape, LinksInv, InNodes, IsRange, Matching, RowsOf, IndexesAll, AtNode, Walking;
      hide VisitedNodes;
      ghost var V, W, from := BeginWalk(index, chosen, data, count, all);
      ghost var full := WalkMatches(index, chosen, data, count);
      var inIndex, myCount := 0, 0;
      infinite := true;
      while myCount <= count
        invariant myCount <= |W| && Walking(index, chosen, data, V, W, from, inIndex, myCount) && infinite
        invariant full == WalkMatches(index, chosen, data, count)
      {
        var more;
        more, inIndex := Turn(index, chosen, data, inIndex, V, W, from, myCount);
        if !more {
          infinite := false;
          EndedInTime(index, chosen, data, count);
          break;
        }
        myCount := myCount + 1;
      }
      if infinite {
        RanOut(index, chosen, data, count, V, W, from, inIndex, myCount);
      }
    }

    lemma EndedInTime(index: SkipIndex, chosen: nat, data: Data, count: nat)
      requires chosen < |q.components| && Complete(WalkMatches(index, chosen, data, count))
      requires Open() ==> |VisitedNodes(q.components[chosen], index.keys, index.Nodes())| <= count
      ensures !RunsOut(index, chosen, data, count, bufferResults)
    {
      hide Matching, RowsOf, VisitedNodes;
    }

    lemma RanOut(index: SkipIndex, chosen: nat, data: Data, count: nat, V: seq<Addr>, W: seq<Addr>, from: nat,
             inIndex: nat,
             j: nat)
      requires Walking(index, chosen, data, V, W, from, inIndex, j) && j > count
      requires V == VisitedNodes(q.components[chosen], index.keys, index.Nodes())
      requires W == ReachedNodes(q.components[chosen], index.keys, index.Nodes(), count)
      ensures RunsOut(index, chosen, data, count, bufferResults)
    {
      hide State, Compare, Shape, AtNode, Matching, RowsOf, VisitedNodes;
      assert W[..j] == W;
    }

    /** StartWalk, for the walk of a whole index. */
    method BeginWalk(index: SkipIndex, chosen: nat, data: Data, count: nat, ghost all: seq<Row>)
      returns (ghost V: seq<Addr>, ghost W: seq<Addr>, ghost from: nat)
      requires State() && Open() && seen == [] && alreadySearched == chosen < |q.components| && count == |all|
      requires q.components[chosen].test != Ne && Ready(index, q.components[chosen], data, all)
      requires tranTable != index.fix && Room(|WalkMatches(index, chosen, data, count)|)
      modifies index`curl, index.fix
      ensures V == VisitedNodes(q.components[chosen], index.keys, index.Nodes())
      ensures W == ReachedNodes(q.components[chosen], index.keys, index.Nodes(), count)
      ensures Walking(index, chosen, data, V, W, from, 0, 0)
    {
      hide State, Open, Compare, Shape, LinksInv, InNodes, IsRange, Matching, RowsOf, IndexesAll, AtNode, VisitedNodes;
      var c := q.components[chosen];
      V := VisitedNodes(c, index.keys, index.levels[0]);
      W := ReachedNodes(c, index.keys, index.Nodes(), count);
      from := WalkPlan(index, chosen, data, all);
      StartWalk(index, c, from, from + |V|);
      assert index.Valid() && State() && Open();
      WalkStarts(index, c, V, from);
      NothingBefore(q, chosen, data, index.links.lists, W);
    }

    /** The nodes that a walk visits, and where the walk of a range starts. */
    lemma WalkPlan(index: SkipIndex, chosen: nat, data: Data, all: seq<Row>) returns (from: nat)
      requires chosen < |q.components| && q.components[chosen].test != Ne &&
               Ready(index, q.components[chosen], data, all)
      ensures var c := q.components[chosen]; var L := index.levels[0]; var V := VisitedNodes(c, index.keys, L);
        (forall n :: n in V ==> n in L) &&
        if c.test == In then V == InNodes(c.kind, index.keys, L, c.inList)
        else IsRange(c, index.keys, L, from, from + |V|) && V == L[from..from + |V|]
    {
      hide Compare, Shape, LinksInv, InNodes, IsRange, Matching, RowsOf, InOrder;
      var c := q.components[chosen];
      from := 0;
      VisitedInLevel(c, index.keys, index.levels[0]);
      if c.test != In {
        from := PlanRange(q, chosen, data, index.keys, index.levels[0], index.links.lists, all);
      }
    }

    // ----- before and after the walk -----

    /** The fields as a search begins. */
    method BeginSearch()
      modifies this
      ensures matchCount == 0 && alreadySearched == -1 && tranTable == null && sort == q.sort
      ensures acted == transacted == seen == [] && offsetLimit == q.offset + q.limit
    {
      sort, acted, transacted, seen := q.sort, [], [], [];
      matchCount, alreadySearched, tranTable := 0, -1, null;
      offsetLimit := q.offset + q.limit;
    }

    /**
     * How the search buffers. `sorts` says that there is a sort to be done, `requested` is the -buffer option, negative
     * by default.
     */
    function Mode(sorts: bool, requested: int): (mode: BufferResults)
      ensures mode == Defer <==> !counting && (sorts || requested == 1)
      ensures mode == NoBuffer <==> !transaction && (counting || (!sorts && requested <= 0))
    {
      var wanted := if counting then NoBuffer
                    else if sorts || requested == 1 then Defer
                    else if requested <= 0 then NoBuffer
                    else Provisional;
      if wanted == NoBuffer && transaction then Provisional else wanted
    }

    /** ctable_PrepareTransactions. */
    method PrepareTransactions(requested: int, count: nat)
      requires matchCount == 0 && tranTable == null && acted == transacted == seen == [] &&
               offsetLimit == q.offset + q.limit
      modifies this`bufferResults, this`tranTable
      ensures State() && Open() && (tranTable != null ==> fresh(tranTable) && tranTable.Length == count)
      ensures bufferResults == Mode(sort != [], requested)
    {
      if counting {
        bufferResults := NoBuffer;
      } else if |sort| > 0 {
        bufferResults := Defer;
      } else if requested <= 0 {
        bufferResults := NoBuffer;
      } else {
        bufferResults := if requested == 1 then Defer else Provisional;
      }
      if bufferResults == NoBuffer && transaction {
        bufferResults := Provisional;
      }
      if bufferResults != NoBuffer {
        tranTable := new Row[count];
      }
    }

    /** What has been acted on once the search is over. */
    ghost predicate Finished(final: seq<Row>)
      reads this
    {
      acted == (if counting then [] else if bufferResults == Defer then Buffered(q, final) else Slice(q, final)) &&
      matchCount == (if bufferResults == NoBuffer then |Slice(q, final)| else |Buffered(q, final)|) &&
      transacted == if transaction then Buffered(q, final) else []
    }

    lemma NothingFinished(data: Data, all: seq<Row>)
      requires acted == transacted == [] && matchCount == 0 && all == []
      ensures Finished([]) && Answers(q, data, all, []) && SortedBy(q.sort, data, [])
    {
    }

    /**
     * With a limit, without an offset, or with nothing behind the offset, every mode acts on, deletes and counts the
     * same slice.
     */
    lemma FinishedIsSlice(final: seq<Row>)
      requires Finished(final) && (q.limit > 0 || q.offset == 0 || |final| <= q.offset)
      ensures acted == (if counting then [] else Slice(q, final)) && matchCount == |Slice(q, final)|
      ensures transacted == if transaction then Slice(q, final) else []
    {
      hide Slice, Buffered;
      BufferedIsSlice(q, final);
    }

    /**
     * Two ways to buffer the same search have the same effect, and exactly then for one that streams and one that
     * defers.
     */
    lemma ModesAgree(other: Search, final: seq<Row>)
      requires q == other.q && counting == other.counting && transaction == other.transaction
      requires Finished(final) && other.Finished(final)
      ensures q.limit > 0 || q.offset == 0 || |final| <= q.offset ==>
                acted == other.acted && matchCount == other.matchCount && transacted == other.transacted
      ensures !counting && bufferResults != Defer && other.bufferResults == Defer ==>
                (acted == other.acted <==> q.limit > 0 || q.offset == 0 || |final| <= q.offset)
    {
      hide Slice, Buffered;
      BufferedIsSlice(q, final);
    }

    /** ctable_PostSearchCommonActions, after the walk whose matches are `full`. */
    method PostSearch(data: Data, ghost full: seq<Row>) returns (ghost final: seq<Row>)
      requires State() && Complete(full) && Directed(sort) &&
               (sort != [] ==> bufferResults == Defer || bufferResults == NoBuffer)
      requires (transaction ==> bufferResults != NoBuffer) && (counting ==> bufferResults != Defer)
      modifies this`matchCount, this`offsetLimit, this`acted, this`transacted, tranTable
      ensures multiset(final) == multiset(full) && Finished(final)
      ensures if sort != [] && bufferResults == Defer then SortedBy(sort, data, final) else final == full
    {
      hide SortCompare, FieldsOf, SortedBy, Slice, Buffered, Filled;
      final := full;
      SeenIsEnough(full);
      if matchCount == 0 || q.offset > matchCount {
        NothingToShow(q, full);
        if sort != [] && bufferResults == Defer {
          final := SortedExists(sort, data, full);
          SameLength(final, full);
          NothingToShow(q, final);
        }
        matchCount := 0;
        return;
      }
      if tranTable == null {
        BehindOffset(q, seen);
        matchCount := matchCount - q.offset;
        return;
      }
      ghost var buffer := PostBuffered(data);
      if bufferResults == Defer {
        final := buffer;
      }
    }

    /** Where the search stopped is far enough for what is shown of its matches. */
    lemma SeenIsEnough(full: seq<Row>)
      requires State() && Complete(full)
      ensures Slice(q, seen) == Slice(q, full) && Buffered(q, seen) == Buffered(q, full)
      ensures bufferResults == Defer || seen == [] || |seen| < q.offset ==> seen == full
    {
      if seen != full {
        FilledIsEnough(q, seen, full);
      }
    }

    lemma SameLength(s: seq<Row>, t: seq<Row>)
      requires multiset(s) == multiset(t)
      ensures |s| == |t|
    {
      assert |multiset(s)| == |s| && |multiset(t)| == |t|;
    }

    /** The part of it for a search with a buffer, which it leaves holding `buffer`. */
    method PostBuffered(data: Data) returns (ghost buffer: seq<Row>)
      requires State() && tranTable != null && seen != [] && q.offset <= |seen| && Directed(sort) &&
               (sort != [] ==> bufferResults == Defer)
      modifies this`matchCount, this`offsetLimit, this`acted, this`transacted, tranTable
      ensures multiset(buffer) == multiset(seen) && |buffer| == |seen| && matchCount == |Buffered(q, buffer)|
      ensures if sort != [] then SortedBy(sort, data, buffer) else buffer == seen
      ensures acted == if bufferResults == Defer then Buffered(q, buffer) else old(acted)
      ensures transacted == if transaction then Buffered(q, buffer) else []
    {
      hide SortCompare, FieldsOf, SortedBy, Slice, Buffered;
      if offsetLimit == 0 || offsetLimit > matchCount {
        offsetLimit := matchCount;
      }
      buffer := seen;
      if |sort| > 0 {
        buffer := SortTable(data);
      }
      UpToLimit(q, buffer, offsetLimit);
      if bufferResults == Defer {
        WalkTable(buffer);
      }
      PerformTransaction(buffer);
      matchCount := offsetLimit - q.offset;
    }

    /** The qsort of the buffered rows. */
    method SortTable(data: Data) returns (ghost buffer: seq<Row>)
      requires tranTable != null && matchCount == |seen| <= tranTable.Length && tranTable[..|seen|] == seen &&
               Directed(sort)
      modifies tranTable
      ensures |buffer| == |seen| && multiset(buffer) == multiset(seen) && SortedBy(sort, data, buffer) &&
              tranTable[..|seen|] == buffer
    {
      hide SortCompare, FieldsOf;
      RowCompareIsPreorder(sort, data);
      ghost var before := tranTable[..];
      QuickSort.QSort(tranTable, CompareRowsBy(sort, data), 0, matchCount);
      buffer := tranTable[..matchCount];
      ghost var after := tranTable[..];
      SameFront(before, after, matchCount);
      SortedFront(sort, data, after, matchCount);
    }

    lemma SameFront(before: seq<Row>, after: seq<Row>, n: nat)
      requires QuickSort.Rearranged(after, before, 0, n)
      ensures multiset(after[..n]) == multiset(before[..n])
    {
      assert before == before[..n] + before[n..] && after == after[..n] + after[n..];
      assert before[n..] == after[n..];
      assert multiset(before) == multiset(before[..n]) + multiset(before[n..]);
      assert multiset(after) == multiset(after[..n]) + multiset(after[n..]);
      forall r: Row ensures multiset(after[..n])[r] == multiset(before[..n])[r] {
        assert multiset(after)[r] == multiset(before)[r];
      }
    }

    lemma SortedFront(sort: seq<SortField>, data: Data, after: seq<Row>, n: nat)
      requires n <= |after| && QuickSort.Sorted(after, CompareRowsBy(sort, data), 0, n)
      ensures SortedBy(sort, data, after[..n])
    {
      hide SortCompare, FieldsOf;
      forall i, j | 0 <= i < j < n
        ensures SortCompare(sort, FieldsOf(data, after[i]), FieldsOf(data, after[j]), 0) <= 0 {
        assert Call(CompareRowsBy(sort, data), after[i], after[j]) <= 0;
      }
    }

    /** The search action on each row of the slice, when it was deferred to the end. */
    method WalkTable(ghost buffer: seq<Row>)
      requires tranTable != null && |buffer| <= tranTable.Length && tranTable[..|buffer|] == buffer &&
               q.offset <= offsetLimit <= |buffer|
      requires acted == []
      modifies this`acted
      ensures acted == buffer[q.offset..offsetLimit]
    {
      for walkIndex := q.offset to offsetLimit
        invariant acted == buffer[q.offset..walkIndex]
      {
        assert tranTable[walkIndex] == buffer[walkIndex];
        acted := acted + [tranTable[walkIndex]];
      }
    }

    /** ctable_PerformTransaction: the rows that are deleted or updated. */
    method PerformTransaction(ghost buffer: seq<Row>)
      requires tranTable != null && |buffer| <= tranTable.Length && tranTable[..|buffer|] == buffer &&
               q.offset <= offsetLimit <= |buffer|
      requires transacted == []
      modifies this`transacted
      ensures transacted == if transaction then buffer[q.offset..offsetLimit] else []
    {
      if !transaction {
        return;
      }
      for rowIndex := q.offset to offsetLimit
        invariant transacted == buffer[q.offset..rowIndex]
      {
        assert tranTable[rowIndex] == buffer[rowIndex];
        transacted := transacted + [tranTable[rowIndex]];
      }
    }

    // ----- the whole search -----

    /** WALK_DEFAULT: the list of all rows. */
    method WalkTableList(main: RowLinks, data: Data, ghost all: seq<Row>)
      requires State() && Open() && seen == [] && alreadySearched == -1 && MainList(main, all)
      requires tranTable != null ==> tranTable.Length == |all|
      modifies this`matchCount, this`acted, this`seen, tranTable
      ensures State() && Complete(Matching(q, -1, data, all))
    {
      hide State, Open, LinksInv;
      MainIsSeen(main, all);
      assert [] + all == all;
      var stop := WalkList(main, main.heads[LL_HEAD], data, [], all);
    }

    /** The sort can be dropped: it has one field, and that field's index is walked in order. */
    predicate DropsSort(chosen: int)
      requires -1 <= chosen < |q.components|
    {
      chosen >= 0 && q.components[chosen].test != In && |q.sort| == 1 && q.sort[0].field == q.components[chosen].field
    }

    /** There is a sort to be done at the end. */
    predicate Sorts(chosen: int)
      requires -1 <= chosen < |q.components|
    {
      q.sort != [] && !DropsSort(chosen)
    }

    /** Where the rows come from: the index of the component `chosen`, or the list of all rows `all` when that is -1. */
    ghost predicate Source(main: RowLinks, index: SkipIndex?, data: Data, count: nat, chosen: int, all: seq<Row>)
      reads main, if index == null then {} else {index, index.links, index.column}
    {
      MainList(main, all) && count == |all| && -1 <= chosen < |q.components| &&
      (chosen >= 0 ==>
        index != null && q.components[chosen].test != Ne &&
        Ready(index, q.components[chosen], data, all))
    }

    /** The matches, in the order of the walk. */
    ghost function Found(index: SkipIndex?, data: Data, count: nat, chosen: int, all: seq<Row>): seq<Row>
      requires -1 <= chosen < |q.components| && (chosen >= 0 ==> index != null)
      reads (if index == null then {} else {index})`keys, (if index == null then {} else {index})`levels
      reads if index == null then {} else {index.links}
    {
      if count == 0 then []
      else if chosen < 0 then Matching(q, -1, data, all)
      else WalkMatches(index, chosen, data, count)
    }

    /** The walk visits no node twice. */
    ghost predicate WalksOnce(index: SkipIndex?, chosen: int)
      requires -1 <= chosen < |q.components| && (chosen >= 0 ==> index != null)
      reads (if index == null then {} else {index})`keys, (if index == null then {} else {index})`levels
    {
      chosen >= 0 ==> VisitsOnce(q.components[chosen], index.keys, index.Nodes())
    }

    /** The buffer, if there is one, has room for what is found: it has as many places as the table has rows. */
    ghost predicate Fits(index: SkipIndex?, data: Data, count: nat, chosen: int, requested: int, all: seq<Row>)
      requires -1 <= chosen < |q.components| && (chosen >= 0 ==> index != null)
      reads (if index == null then {} else {index})`keys, (if index == null then {} else {index})`levels
      reads if index == null then {} else {index.links}
    {
      var mode := Mode(Sorts(chosen), requested);
      mode != NoBuffer ==> Needed(q, mode, |Found(index, data, count, chosen, all)|) <= count
    }

    /** The walk goes on for longer than the table has rows. */
    ghost predicate Overruns(index: SkipIndex?, data: Data, count: nat, chosen: int, requested: int)
      requires -1 <= chosen < |q.components| && (chosen >= 0 ==> index != null)
      reads (if index == null then {} else {index})`keys, (if index == null then {} else {index})`levels
      reads if index == null then {} else {index.links}
    {
      count > 0 && chosen >= 0 && RunsOut(index, chosen, data, count, Mode(Sorts(chosen), requested))
    }

    /** A search that does not walk `in` values found twice is answered in full. */
    lemma SourceIsRight(main: RowLinks, index: SkipIndex?, data: Data, count: nat, chosen: int, requested: int,
             all: seq<Row>)
      requires Source(main, index, data, count, chosen, all)
      requires WalksOnce(index, chosen)
      ensures Answers(q, data, all, Found(index, data, count, chosen, all))
      ensures Fits(index, data, count, chosen, requested, all) && !Overruns(index, data, count, chosen, requested)
    {
      hide Compare, Shape, LinksInv, IndexesAll, VisitsOnce, Matching, Ready, WalkMatches, RunsOut;
      if count > 0 && chosen < 0 {
        MainIsSeen(main, all);
        ScanAnswers(q, data, all);
      } else if count > 0 {
        WalkIsRight(index, chosen, data, all, Mode(Sorts(chosen), requested));
      }
    }

    /**
     * ctable_PerformSearch on a table that is not shared. `chosen` is the component whose index the search plan picked,
     * or -1.
     */
    method PerformSearch(main: RowLinks, index: SkipIndex?, data: Data, count: nat, chosen: int, requested: int,
             ghost all: seq<Row>)
      returns (infinite: bool, ghost final: seq<Row>)
      requires Source(main, index, data, count, chosen, all) && Directed(q.sort) && (counting ==> !transaction)
      requires Fits(index, data, count, chosen, requested, all)
      modifies this, (if index == null then {} else {index})`curl, if index == null then {} else {index.fix}
      ensures infinite <==> Overruns(index, data, count, chosen, requested)
      ensures count > 0 ==> bufferResults == Mode(Sorts(chosen), requested)
      ensures !infinite ==> Finished(final) && multiset(final) == multiset(Found(index, data, count, chosen, all))
      ensures !infinite ==>
                if !counting && Sorts(chosen) then SortedBy(q.sort, data, final) && SortedBy(q.sort, data, acted)
                else final == Found(index, data, count, chosen, all)
      ensures WalksOnce(index, chosen) ==> !infinite && Answers(q, data, all, final)
    {
      hide Compare, Shape, LinksInv, Answers, IndexesAll, Finished, SortedBy, Ready, MainList, Matching, RunsOut;
      hide WalkMatches, VisitsOnce;
      if WalksOnce(index, chosen) {
        SourceIsRight(main, index, data, count, chosen, requested, all);
      }
      ghost var full := Found(index, data, count, chosen, all);
      BeginSearch();
      if count == 0 {
        NothingFinished(data, all);
        infinite, final := false, [];
      } else {
        infinite, final := SearchRows(main, index, data, count, chosen, requested, all);
      }
      if Answers(q, data, all, full) && !infinite {
        AnswersPermuted(q, data, all, full, final);
      }
    }

    /** The search of a table with rows. */
    method SearchRows(main: RowLinks, index: SkipIndex?, data: Data, count: nat, chosen: int, requested: int,
             ghost all: seq<Row>)
      returns (infinite: bool, ghost final: seq<Row>)
      requires Source(main, index, data, count, chosen, all) && Directed(q.sort) && (counting ==> !transaction)
      requires Fits(index, data, count, chosen, requested, all) && count > 0
      requires matchCount == 0 && alreadySearched == -1 && tranTable == null && sort == q.sort
      requires acted == transacted == seen == [] && offsetLimit == q.offset + q.limit
      modifies this, (if index == null then {} else {index})`curl, if index == null then {} else {index.fix}
      ensures infinite <==> Overruns(index, data, count, chosen, requested)
      ensures bufferResults == Mode(Sorts(chosen), requested)
      ensures !infinite ==> Finished(final) && multiset(final) == multiset(Found(index, data, count, chosen, all))
      ensures !infinite ==>
                if !counting && Sorts(chosen) then SortedBy(q.sort, data, final) && SortedBy(q.sort, data, acted)
                else final == Found(index, data, count, chosen, all)
    {
      hide Compare, Shape, LinksInv, IndexesAll, State, Open, Complete, Finished, SortedBy, Ready, MainList, FieldsOf;
      hide SortCompare, Matching, RunsOut, WalkMatches;
      ghost var full := Found(index, data, count, chosen, all);
      infinite, final := false, [];
      alreadySearched := chosen;
      if DropsSort(chosen) {
        sort := [];
      }
      PrepareTransactions(requested, count);
      if alreadySearched < 0 {
        WalkTableList(main, data, all);
      } else {
        infinite := WalkSkipList(index, alreadySearched, data, count, all);
        if infinite {
          return;
        }
      }
      final := PostSearch(data, full);
      assert full == Found(index, data, count, chosen, all);
      if !counting && Sorts(chosen) {
        FinishedSorted(data, final);
      }
    }

    lemma DroppedIsInOrder(main: RowLinks, index: SkipIndex?, data: Data, count: nat, chosen: int, all: seq<Row>)
      requires Source(main, index, data, count, chosen, all) && DropsSort(chosen)
      ensures var c := q.components[chosen];
        InOrder(c.kind, c.field, data, Found(index, data, count, chosen, all))
    {
      hide Compare, ValueOf, LinksInv, IndexesAll, Matching, WalkMatches, InOrder;
      if count == 0 {
        NothingInOrder(q.components[chosen].kind, q.components[chosen].field, data);
      } else {
        WalkIsInOrder(index, chosen, data, all);
      }
    }

    /**
     * Dropping the sort of a number or key field leaves its rows sorted exactly when it is ascending or they are all
     * equal.
     */
    lemma DroppedSort(main: RowLinks, index: SkipIndex?, data: Data, count: nat, chosen: int, all: seq<Row>)
      requires Source(main, index, data, count, chosen, all) && Directed(q.sort) && DropsSort(chosen)
      requires q.sort[0].kind == q.components[chosen].kind != VarstringField
      ensures var f, rows := q.sort[0], Found(index, data, count, chosen, all);
        SortedBy(q.sort, data, rows) <==> f.direction == 1 || AllEqual(f.kind, f.field, data, rows)
    {
      hide Compare, SortOne, SortedBy, ValueOf, LinksInv, IndexesAll, Matching, WalkMatches, InOrder, AllEqual;
      var f, rows := q.sort[0], Found(index, data, count, chosen, all);
      assert f in q.sort && q.sort == [f];
      DroppedIsInOrder(main, index, data, count, chosen, all);
      forall i, j | 0 <= i < j < |rows|
        ensures SameOrder(f.kind, ValueOf(data, f.field, rows[i]), ValueOf(data, f.field, rows[j]))
      {
        WalkOrderIsSortOrder(f.kind, ValueOf(data, f.field, rows[i]), ValueOf(data, f.field, rows[j]));
      }
      WalkOrderSatisfiesSort(f, data, rows);
    }

    /**
     * Dropping the ascending sort of a varstring field leaves strings that are not null sorted exactly when all or none
     * of them start at or above 0x80; a descending one, when those that do are equal and those that do not are.
     */
    lemma DroppedTextSort(main: RowLinks, index: SkipIndex?, data: Data, count: nat, chosen: int, all: seq<Row>)
      requires Source(main, index, data, count, chosen, all) && Directed(q.sort) && DropsSort(chosen)
      requires q.sort[0].kind == q.components[chosen].kind == VarstringField
      requires forall r :: r in Found(index, data, count, chosen, all) ==> ValueOf(data, q.sort[0].field, r).Text?
      ensures var f, rows := q.sort[0], Found(index, data, count, chosen, all);
        SortedBy(q.sort, data, rows) <==>
          forall i, j :: 0 <= i < j < |rows| ==>
            if f.direction == 1 then HighText(f.field, data, rows[i]) <==> HighText(f.field, data, rows[j])
            else (HighText(f.field, data, rows[i]) <==> HighText(f.field, data, rows[j])) ==>
                   ValueOf(data, f.field, rows[i]) == ValueOf(data, f.field, rows[j])
    {
      hide Compare, SortOne, SortedBy, ValueOf, LinksInv, IndexesAll, Matching, WalkMatches, InOrder, HighText;
      assert q.sort[0] in q.sort && q.sort == [q.sort[0]];
      DroppedIsInOrder(main, index, data, count, chosen, all);
      WalkOrderSatisfiesTextSort(q.sort[0], data, Found(index, data, count, chosen, all));
    }

    lemma NothingInOrder(kind: Kind, field: nat, data: Data)
      ensures InOrder(kind, field, data, [])
    {
    }

    lemma FinishedSorted(data: Data, final: seq<Row>)
      requires Finished(final) && SortedBy(q.sort, data, final) && bufferResults == Defer && !counting
      ensures SortedBy(q.sort, data, acted)
    {
      SortedSlice(q, q.sort, data, final);
    }

    /** A search without a sort has the same effect whatever its -buffer option, but for an offset without a limit. */
    method SearchBothWays(other: Search, main: RowLinks, index: SkipIndex?, data: Data, count: nat, chosen: int,
                   requested: int, otherRequested: int, ghost all: seq<Row>) returns (ghost full: seq<Row>)
      requires other != this && q == other.q && counting == other.counting && transaction == other.transaction
      requires Source(main, index, data, count, chosen, all) && Directed(q.sort) && (counting ==> !transaction)
      requires WalksOnce(index, chosen)
      requires counting || !Sorts(chosen)
      modifies this, other, (if index == null then {} else {index})`curl, if index == null then {} else {index.fix}
      ensures full == Found(index, data, count, chosen, all) && Answers(q, data, all, full)
      ensures Finished(full) && other.Finished(full)
      ensures q.limit > 0 || q.offset == 0 || |full| <= q.offset ==>
                acted == other.acted && matchCount == other.matchCount && transacted == other.transacted
    {
      hide Compare, Shape, LinksInv, Answers, IndexesAll, Finished, SortedBy, Ready, MainList, VisitsOnce;
      hide Matching, RunsOut, WalkMatches;
      SourceIsRight(main, index, data, count, chosen, requested, all);
      SourceAlike(other, main, index, data, count, chosen, all);
      other.SourceIsRight(main, index, data, count, chosen, otherRequested, all);
      full := Found(index, data, count, chosen, all);
      var infinite, final := PerformSearch(main, index, data, count, chosen, requested, all);
      assert Source(main, index, data, count, chosen, all) && full == Found(index, data, count, chosen, all);
      SourceAlike(other, main, index, data, count, chosen, all);
      var infinite', final' := other.PerformSearch(main, index, data, count, chosen, otherRequested, all);
      ModesAgree(other, full);
    }

    lemma SourceAlike(other: Search, main: RowLinks, index: SkipIndex?, data: Data, count: nat, chosen: int,
             all: seq<Row>)
      requires q == other.q && Source(main, index, data, count, chosen, all)
      ensures other.Source(main, index, data, count, chosen, all)
      ensures other.Found(index, data, count, chosen, all) == Found(index, data, count, chosen, all)
    {
    }

    /**
     * A table of one row, and `in` with its value twice, without a limit: the loop runs out, and a buffer has no room
     * for the matches.
     */
    lemma RepeatedValueRunsOut(index: SkipIndex, data: Data, r: Row)
      requires q.components == [Component(0, NumberField, In, Null, Null, [Number(5.0), Number(5.0)])] && q.limit == 0
      requires Ready(index, q.components[0], data, [r]) && ValueOf(data, 0, r) == Number(5.0) && r in q.others
      ensures forall mode :: RunsOut(index, 0, data, 1, mode) && Needed(q, mode, |WalkMatches(index, 0, data, 1)|) > 1
    {
      hide VisitedNodes, Shape, LinksInv, IndexesAll;
      RepeatedValueInput(index.keys, index.levels[0], index.links.lists, data[0], r);
      assert Passes(q.components, 0, data, r);
      var rows: seq<Row> := [r, r];
      assert rows[..1] == [r] && rows[..1][..0] == [];
      assert SelectedBut(q, 0, data, r);
      assert Matching(q, 0, data, rows[..1]) == [r];
      assert Matching(q, 0, data, rows) == [r, r];
      var V := VisitedNodes(q.components[0], index.keys, index.Nodes());
      assert V[..2] == V && WalkMatches(index, 0, data, 1) == [r, r];
    }
  }

  /** A table of two rows, searched for both from offset 1 on: streaming acts on the second, buffering on none. */
  method OffsetAloneSearches(main: RowLinks, data: Data) returns (streamed: seq<Row>, deferred: seq<Row>)
    requires MainList(main, [7, 8])
    ensures streamed == [8] && deferred == []
  {
    hide MainList, Matching, Answers;
    var q := Query([], {7, 8}, [], 0, 1);
    OffsetAloneIsDropped(data);
    ghost var infinite, final;
    var s := new Search(q, false, false);
    infinite, final := s.PerformSearch(main, null, data, 2, -1, -1, [7, 8]);
    streamed := s.acted;
    var t := new Search(q, false, false);
    infinite, final := t.PerformSearch(main, null, data, 2, -1, 1, [7, 8]);
    deferred := t.acted;
  }
}
