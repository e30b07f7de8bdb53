// Searching a table, and deleting or updating the rows found (ctable_PerformSearch and ctable_PerformTransaction of
// ctables/ctable_search.c).

module TableSearches {
  import opened FieldCompare
  import HashTables
  import opened IndexedFields
  import opened RowLists
  import opened SearchRules
  import opened Searches
  import opened SkipIndexes
  import opened SkipLists
  import opened Tables

  /** The search plan picked no component, or one whose field has a live index. */
  ghost predicate Plans(t: Table, q: Query, chosen: int)
    reads t.fields
  {
    -1 <= chosen < |q.components| &&
    (chosen >= 0 ==>
      var c := q.components[chosen];
      c.test != Ne && c.field < |t.fields| && t.fields[c.field].skip != null && t.fields[c.field].kind == c.kind)
  }

  function IndexOf(t: Table, q: Query, chosen: int): SkipIndex?
    requires Plans(t, q, chosen)
    reads t.fields
  {
    if chosen < 0 then null else t.fields[q.components[chosen].field].skip
  }

  /** A table that agrees with itself is what a search asks for. */
  lemma TableIsSource(t: Table, s: Search, chosen: int)
    requires t.Valid({}) && Plans(t, s.q, chosen)
    ensures s.Source(t.main, IndexOf(t, s.q, chosen), DataOf(t.fields), t.count, chosen, t.all)
  {
    hide MainList, KeysAgree, IndexesAll, HashTables.HashTable.Valid, SkipIndex.Valid, Table.Separate, LinksInv;
    if chosen >= 0 {
      var f := s.q.components[chosen].field;
      t.IndexIsSearchable(f);
      assert t.fields[f].Valid(RowSet(t.all));
    }
  }

  /** A search of the table, which changes nothing of it but the cursor of an index. */
  method SearchTable(t: Table, s: Search, chosen: int, requested: int) returns (infinite: bool, ghost final: seq<Row>)
    requires t.Valid({}) && Plans(t, s.q, chosen) && s !in AllObjects(t.fields) && Directed(s.q.sort)
    requires s.counting ==> !s.transaction
    requires s.Fits(IndexOf(t, s.q, chosen), DataOf(t.fields), t.count, chosen, requested, t.all)
    modifies s, (if chosen < 0 then {} else {IndexOf(t, s.q, chosen)})`curl
    modifies if chosen < 0 then {} else {IndexOf(t, s.q, chosen).fix}
    ensures t.Valid({}) && DataOf(t.fields) == old(DataOf(t.fields)) && SkipsOf(t.fields) == old(SkipsOf(t.fields))
    ensures AllObjects(t.fields) == old(AllObjects(t.fields)) && t.all == old(t.all)
    ensures t.keyTable.buckets == old(t.keyTable.buckets) && t.keyTable.contents == old(t.keyTable.contents)
    ensures t.count > 0 ==> s.bufferResults == s.Mode(s.Sorts(chosen), requested)
    ensures infinite <==> old(s.Overruns(IndexOf(t, s.q, chosen), DataOf(t.fields), t.count, chosen, requested))
    ensures !infinite ==>
              s.Finished(final) &&
              multiset(final) ==
              multiset(old(s.Found(IndexOf(t, s.q, chosen), DataOf(t.fields), t.count, chosen, t.all)))
    ensures !infinite ==>
              if !s.counting && s.Sorts(chosen) then
                SortedBy(s.q.sort, DataOf(t.fields), final) && SortedBy(s.q.sort, DataOf(t.fields), s.acted)
              else final == old(s.Found(IndexOf(t, s.q, chosen), DataOf(t.fields), t.count, chosen, t.all))
    ensures old(s.WalksOnce(IndexOf(t, s.q, chosen), chosen)) ==>
              !infinite && Answers(s.q, DataOf(t.fields), t.all, final)
  {
    hide Table.RowsAgree, DataOf, AllObjects, IndexedField.Valid, IndexedField.Complete, Answers, Search.Source;
    hide VisitsOnce, SkipsOf;
    hide Search.Found, Search.Overruns, SortedBy, Search.Finished, Search.Fits, Search.WalksOnce, IndexedField.Indexed;
    var index := IndexOf(t, s.q, chosen);
    TableIsSource(t, s, chosen);
    FootprintsAreObjects(t.fields);
    if chosen >= 0 {
      t.fields[s.q.components[chosen].field].ValidHas(RowSet(t.all));
    }
    infinite, final := s.PerformSearch(t.main, index, DataOf(t.fields), t.count, chosen, requested, t.all);
    if chosen >= 0 {
      t.fields[s.q.components[chosen].field].CursorKeeps(RowSet(t.all));
    }
  }

  // ----- deleting and updating what was found -----

  /** The rows have the same values before and after. */
  ghost predicate SameValues(before: Data, after: Data, rows: seq<Row>) {
    |before| == |after| &&
    forall f: nat, r :: f < |after| && r in rows ==> r in before[f] && r in after[f] && after[f][r] == before[f][r]
  }

  lemma {:induction false} DroppedKeeps(data: Data, row: Row, n: nat)
    requires n <= |data|
    ensures forall f: nat, r :: f < |data| && r in data[f] && r != row ==>
              r in AllDropped(data, row, n)[f] && AllDropped(data, row, n)[f][r] == data[f][r]
  {
    if n > 0 {
      DroppedKeeps(data, row, n - 1);
    }
  }

  lemma RowsHaveValues(t: Table)
    requires t.Valid({})
    ensures SameValues(DataOf(t.fields), DataOf(t.fields), t.all)
  {
    hide Table.RowsAgree, Table.Separate;
  }

  /** The loop of ctable_PerformTransaction that deletes. */
  method DeleteRows(t: Table, rows: seq<Row>)
    requires t.Valid({}) && NoRepeats(rows) && forall r :: r in rows ==> r in t.all
    modifies t`entries, t`count, t`all, t.main, t.keyTable, t.keyTable.buckets, AllObjects(t.fields)
    ensures t.Valid({}) && t.all == Except(old(t.all), RowSet(rows))
    ensures SameValues(old(DataOf(t.fields)), DataOf(t.fields), t.all) && SkipsOf(t.fields) == old(SkipsOf(t.fields))
    ensures t.keyTable.contents == KeysExcept(old(t.keyTable.contents), rows)
  {
    hide Table.Valid, DataOf, SkipsOf, AllObjects, SameValues, AllDropped, Except;
    RowsHaveValues(t);
    NothingExcept(t.all, {});
    assert RowSet(rows[..0]) == {};
    ghost var all, contents := t.all, t.keyTable.contents;
    ghost var data := DataOf(t.fields);
    for k := 0 to |rows|
      invariant t.Valid({}) && t.all == Except(all, RowSet(rows[..k]))
      invariant t.keyTable.contents == KeysExcept(contents, rows[..k])
      invariant SameValues(data, DataOf(t.fields), t.all) && SkipsOf(t.fields) == old(SkipsOf(t.fields))
      invariant AllObjects(t.fields) == old(AllObjects(t.fields)) && t.keyTable.buckets == old(t.keyTable.buckets)
    {
      ghost var before, was := DataOf(t.fields), t.all;
      ExceptHas(all, RowSet(rows[..k]));
      KeyOfRow(t, rows[k]);
      assert rows[..k + 1] == rows[..k] + [rows[k]];
      t.Delete(rows[k]);
      ExceptHas(was, {rows[k]});
      StillSame(data, before, was, rows[k], t.all);
      ExceptTwice(all, RowSet(rows[..k]), {rows[k]});
      assert RowSet(rows[..k + 1]) == RowSet(rows[..k]) + {rows[k]};
    }
    assert rows[..|rows|] == rows;
  }

  /** The entries of all rows but those given. */
  ghost function KeysExcept(contents: map<HashTables.Key, HashTables.Entry>, rows: seq<Row>):
      map<HashTables.Key, HashTables.Entry> {
    map k | k in contents && contents[k].row !in rows :: contents[k]
  }

  /** A row stands under its own key alone. */
  lemma KeyOfRow(t: Table, row: Row)
    requires t.Valid({}) && row in t.all
    ensures row in t.entries
    ensures var contents := t.keyTable.contents;
      forall k :: k in contents ==> (contents[k].row == row <==> k == t.entries[row].key)
  {
    hide MainList, HashTables.HashTable.Valid, Table.FieldsValid, Table.Separate;
  }

  lemma StillSame(data: Data, before: Data, was: seq<Row>, row: Row, all: seq<Row>)
    requires SameValues(data, before, was) && forall r :: r in all ==> r in was && r != row
    ensures SameValues(data, AllDropped(before, row, |before|), all)
  {
    DroppedKeeps(before, row, |before|);
  }

  /**
   * `search -delete 1`: exactly the rows of the slice go; without a limit and an offset, exactly those that are
   * selected.
   */
  method SearchAndDelete(t: Table, s: Search, chosen: int, requested: int) returns (ghost final: seq<Row>)
    requires t.Valid({}) && Plans(t, s.q, chosen) && s !in AllObjects(t.fields) && Directed(s.q.sort)
    requires s.transaction && !s.counting && s.WalksOnce(IndexOf(t, s.q, chosen), chosen)
    modifies s, t`entries, t`count, t`all, t.main, t.keyTable, t.keyTable.buckets, AllObjects(t.fields)
    ensures t.Valid({}) && SameValues(old(DataOf(t.fields)), DataOf(t.fields), t.all)
    ensures s.Finished(final) && Answers(s.q, old(DataOf(t.fields)), old(t.all), final)
    ensures if s.Sorts(chosen) then SortedBy(s.q.sort, old(DataOf(t.fields)), final)
            else final == old(s.Found(IndexOf(t, s.q, chosen), DataOf(t.fields), t.count, chosen, t.all))
    ensures t.all == Except(old(t.all), RowSet(s.transacted)) && SkipsOf(t.fields) == old(SkipsOf(t.fields))
    ensures t.keyTable.contents == KeysExcept(old(t.keyTable.contents), s.transacted)
    ensures s.q.limit == s.q.offset == 0 ==>
              (forall r :: r in t.all <==> r in old(t.all) && !Selected(s.q, old(DataOf(t.fields)), r)) &&
              forall r :: r in t.all ==> !Selected(s.q, DataOf(t.fields), r)
  {
    hide Table.Valid, DataOf, AllObjects, SameValues, Search.Source, Search.Found, Search.Fits, Search.WalksOnce;
    hide Search.Overruns, SortedBy, Selected, Plans, SkipsOf, Except, KeysExcept, IndexOf;
    ghost var data, all := DataOf(t.fields), t.all;
    PlannedFits(t, s, chosen, requested);
    CursorIsInside(t, s.q, chosen);
    var infinite;
    infinite, final := SearchTable(t, s, chosen, requested);
    SliceOfAnswers(s.q, data, all, final);
    DeleteRows(t, s.transacted);
    ExceptHas(all, RowSet(s.transacted));
    if s.q.limit == s.q.offset == 0 {
      assert s.transacted == final;
      forall r | r in t.all ensures !Selected(s.q, DataOf(t.fields), r) {
        SelectedAlike(s.q, data, DataOf(t.fields), t.all, r);
      }
    }
  }

  lemma CursorIsInside(t: Table, q: Query, chosen: int)
    requires t.Valid({}) && Plans(t, q, chosen)
    ensures chosen >= 0 ==> {IndexOf(t, q, chosen), IndexOf(t, q, chosen).fix} <= AllObjects(t.fields)
  {
    hide Table.RowsAgree, Table.Separate;
    FootprintsAreObjects(t.fields);
    if chosen >= 0 {
      t.fields[q.components[chosen].field].ValidHas(RowSet(t.all));
    }
  }

  lemma PlannedFits(t: Table, s: Search, chosen: int, requested: int)
    requires t.Valid({}) && Plans(t, s.q, chosen) && s.WalksOnce(IndexOf(t, s.q, chosen), chosen)
    ensures s.Fits(IndexOf(t, s.q, chosen), DataOf(t.fields), t.count, chosen, requested, t.all)
  {
    hide Table.Valid, DataOf, Search.Source, Search.Found, Search.Fits, Search.WalksOnce, Search.Overruns;
    TableIsSource(t, s, chosen);
    s.SourceIsRight(t.main, IndexOf(t, s.q, chosen), DataOf(t.fields), t.count, chosen, requested, t.all);
  }

  lemma SliceOfAnswers(q: Query, data: Data, all: seq<Row>, final: seq<Row>)
    requires Answers(q, data, all, final)
    ensures NoRepeats(Buffered(q, final)) && forall r :: r in Buffered(q, final) ==> r in all
  {
    hide Selected;
    forall r | r in Buffered(q, final) ensures r in final {
    }
  }

  lemma SelectedAlike(q: Query, before: Data, after: Data, rows: seq<Row>, r: Row)
    requires SameValues(before, after, rows) && r in rows
    ensures Selected(q, before, r) <==> Selected(q, after, r)
  {
    hide Accepts;
    forall i | 0 <= i < |q.components|
      ensures ValueOf(before, q.components[i].field, r) == ValueOf(after, q.components[i].field, r) {
    }
  }

  // ----- updating -----

  /** The row has the same values in both. */
  ghost predicate RowAlike(data: Data, data': Data, row: Row) {
    |data| == |data'| &&
    forall f: nat :: f < |data| ==> row in data[f] && row in data'[f] && data[f][row] == data'[f][row]
  }

  lemma SetIsLocal(data: Data, data': Data, row: Row, g: nat, obj: Value)
    requires g < |data| && RowAlike(data, data', row)
    ensures RowAlike(SetTo(data, g, row, obj), SetTo(data', g, row, obj), row)
    ensures OthersKept(data, SetTo(data, g, row, obj), row)
  {
    hide AfterSet;
    assert data[g][row] == data'[g][row];
  }

  /** Setting fields of one row leaves the other rows alone, and gives it what its own values lead to. */
  lemma {:induction false} SetsAreLocal(data: Data, data': Data, row: Row, sets: seq<(nat, Value)>, n: nat)
    requires RowAlike(data, data', row) && n <= |sets| && forall k :: 0 <= k < |sets| ==> sets[k].0 < |data|
    ensures RowAlike(AllSet(data, row, sets, n), AllSet(data', row, sets, n), row)
    ensures OthersKept(data, AllSet(data, row, sets, n), row)
  {
    if n > 0 {
      SetsAreLocal(data, data', row, sets, n - 1);
      hide SetTo;
      var was, was' := AllSet(data, row, sets, n - 1), AllSet(data', row, sets, n - 1);
      SetIsLocal(was, was', row, sets[n - 1].0, sets[n - 1].1);
    }
  }

  /** The rows `done` have been set, the others have not. */
  ghost predicate UpdatedTo(before: Data, after: Data, all: seq<Row>, done: seq<Row>, sets: seq<(nat, Value)>) {
    |before| == |after| && (forall k :: 0 <= k < |sets| ==> sets[k].0 < |before|) &&
    forall f: nat, r :: f < |after| && r in all ==> UpdatedAt(before, after, f, r, r in done, sets)
  }

  /** One field of one row after it, `done` or not. */
  ghost predicate UpdatedAt(before: Data, after: Data, f: nat, r: Row, done: bool, sets: seq<(nat, Value)>)
    requires f < |before| == |after| && forall k :: 0 <= k < |sets| ==> sets[k].0 < |before|
  {
    r in before[f] && r in after[f] && r in AllSet(before, r, sets, |sets|)[f] &&
    after[f][r] == if done then AllSet(before, r, sets, |sets|)[f][r] else before[f][r]
  }

  /** The loop of ctable_PerformTransaction that updates: every row is set once, the others stay as they were. */
  method UpdateRows(t: Table, rows: seq<Row>, sets: seq<(nat, Value)>)
    requires t.Valid({}) && NoRepeats(rows) && forall r :: r in rows ==> r in t.all
    requires forall k :: 0 <= k < |sets| ==> sets[k].0 < |t.fields|
    modifies AllObjects(t.fields)
    ensures t.Valid({}) && t.all == old(t.all) && t.keyTable.contents == old(t.keyTable.contents)
    ensures SkipsOf(t.fields) == old(SkipsOf(t.fields))
    ensures UpdatedTo(old(DataOf(t.fields)), DataOf(t.fields), t.all, rows, sets)
    ensures forall r :: r in rows ==> RowShows(old(DataOf(t.fields)), DataOf(t.fields), r, sets)
    ensures forall r :: r in t.all && r !in rows ==> RowAlike(old(DataOf(t.fields)), DataOf(t.fields), r)
  {
    hide Table.Valid, DataOf, SkipsOf, AllObjects, UpdatedTo, AllSet, RowShows, RowAlike, OthersKept;
    RowsHaveValues(t);
    ghost var data := DataOf(t.fields);
    NothingUpdated(data, t.all, sets);
    for k := 0 to |rows|
      invariant t.Valid({}) && t.all == old(t.all) && AllObjects(t.fields) == old(AllObjects(t.fields))
      invariant SkipsOf(t.fields) == old(SkipsOf(t.fields)) && t.keyTable.contents == old(t.keyTable.contents)
      invariant UpdatedTo(data, DataOf(t.fields), t.all, rows[..k], sets)
    {
      ghost var before := DataOf(t.fields);
      t.SetFields(rows[k], Normal, sets, {});
      OneMoreUpdated(data, before, t.all, rows, k, sets);
    }
    assert rows[..|rows|] == rows;
    UpdatedShows(data, DataOf(t.fields), t.all, rows, sets);
  }

  /** Each row that has been set shows it, the others are as they were. */
  lemma UpdatedShows(before: Data, after: Data, all: seq<Row>, done: seq<Row>, sets: seq<(nat, Value)>)
    requires UpdatedTo(before, after, all, done, sets) && forall r :: r in done ==> r in all
    ensures forall r :: r in done ==> RowShows(before, after, r, sets)
    ensures forall r :: r in all && r !in done ==> RowAlike(before, after, r)
  {
    hide FieldShows, AllSet;
    assert sets[..|sets|] == sets;
    forall r | r in done ensures RowShows(before, after, r, sets) {
      forall f: nat | f < |after| ensures r in before[f] && r in after[f] {
        assert UpdatedAt(before, after, f, r, r in done, sets);
      }
      AllSetShows(before, r, sets, |sets|);
      forall f: nat | f < |after| ensures FieldShows(before[f], after[f], f, r, sets) {
        assert UpdatedAt(before, after, f, r, r in done, sets);
        ShowsAlike(before[f], AllSet(before, r, sets, |sets|)[f], after[f], f, r, sets);
      }
    }
    forall r | r in all && r !in done ensures RowAlike(before, after, r) {
      forall f: nat | f < |after| ensures r in before[f] && r in after[f] && before[f][r] == after[f][r] {
        assert UpdatedAt(before, after, f, r, r in done, sets);
      }
    }
  }

  lemma ShowsAlike(before: map<Row, Value>, one: map<Row, Value>, other: map<Row, Value>, f: nat, r: Row,
           sets: seq<(nat, Value)>)
    requires FieldShows(before, one, f, r, sets) && r in other && one[r] == other[r]
    ensures FieldShows(before, other, f, r, sets)
  {
  }

  lemma NothingUpdated(data: Data, all: seq<Row>, sets: seq<(nat, Value)>)
    requires SameValues(data, data, all) && forall k :: 0 <= k < |sets| ==> sets[k].0 < |data|
    ensures UpdatedTo(data, data, all, [], sets)
  {
    forall r | r in all ensures forall f: nat :: f < |data| ==> r in AllSet(data, r, sets, |sets|)[f] {
      SetsAreLocal(data, data, r, sets, |sets|);
    }
  }

  lemma OneMoreUpdated(data: Data, before: Data, all: seq<Row>, rows: seq<Row>, k: nat, sets: seq<(nat, Value)>)
    requires k < |rows| && NoRepeats(rows) && rows[k] in all && UpdatedTo(data, before, all, rows[..k], sets)
    ensures UpdatedTo(data, AllSet(before, rows[k], sets, |sets|), all, rows[..k + 1], sets)
  {
    hide AllSet;
    var row := rows[k];
    assert row !in rows[..k];
    assert forall r :: r in rows[..k + 1] <==> r in rows[..k] || r == row;
    forall f: nat | f < |data| ensures row in data[f] && row in before[f] && data[f][row] == before[f][row] {
      assert UpdatedAt(data, before, f, row, row in rows[..k], sets);
    }
    assert RowAlike(data, before, row) && RowAlike(before, data, row);
    SetsAreLocal(before, data, row, sets, |sets|);
    var after, done := AllSet(before, row, sets, |sets|), rows[..k + 1];
    forall f: nat, r | f < |after| && r in all ensures UpdatedAt(data, after, f, r, r in done, sets) {
      assert UpdatedAt(data, before, f, r, r in rows[..k], sets);
      if r == row {
        assert after[f][row] == AllSet(data, row, sets, |sets|)[f][row];
      } else {
        assert after[f][r] == before[f][r];
      }
    }
  }

  /** `search -update`: exactly the rows of the slice are set. */
  method SearchAndUpdate(t: Table, s: Search, chosen: int, requested: int, sets: seq<(nat, Value)>)
    returns (ghost final: seq<Row>)
    requires t.Valid({}) && Plans(t, s.q, chosen) && s !in AllObjects(t.fields) && Directed(s.q.sort)
    requires s.transaction && !s.counting && s.WalksOnce(IndexOf(t, s.q, chosen), chosen)
    requires forall k :: 0 <= k < |sets| ==> sets[k].0 < |t.fields|
    modifies s, AllObjects(t.fields)
    ensures t.Valid({}) && t.all == old(t.all) && t.keyTable.contents == old(t.keyTable.contents)
    ensures s.Finished(final) && Answers(s.q, old(DataOf(t.fields)), t.all, final)
    ensures if s.Sorts(chosen) then SortedBy(s.q.sort, old(DataOf(t.fields)), final)
            else final == old(s.Found(IndexOf(t, s.q, chosen), DataOf(t.fields), t.count, chosen, t.all))
    ensures SkipsOf(t.fields) == old(SkipsOf(t.fields))
    ensures UpdatedTo(old(DataOf(t.fields)), DataOf(t.fields), t.all, s.transacted, sets)
    ensures forall r :: r in s.transacted ==> RowShows(old(DataOf(t.fields)), DataOf(t.fields), r, sets)
    ensures forall r :: r in t.all && r !in s.transacted ==> RowAlike(old(DataOf(t.fields)), DataOf(t.fields), r)
  {
    hide Table.Valid, DataOf, AllObjects, UpdatedTo, Search.Source, Search.Found, Search.Fits, Search.WalksOnce;
    hide RowShows, RowAlike;
    hide Search.Overruns, SortedBy, Selected, Plans, SkipsOf, IndexOf;
    ghost var data := DataOf(t.fields);
    PlannedFits(t, s, chosen, requested);
    CursorIsInside(t, s.q, chosen);
    var infinite;
    infinite, final := SearchTable(t, s, chosen, requested);
    SliceOfAnswers(s.q, data, t.all, final);
    UpdateRows(t, s.transacted, sets);
  }

  // ----- a table on which the walk runs out -----

  /**
   * One indexed number field, one row with 5.0 stored in it, and a search for `in {5.0 5.0}` with -countOnly: it ends
   * in "infinite search loop".
   */
  method RepeatedValueSearch(key: HashTables.Key) returns (infinite: bool)
    ensures infinite
  {
    hide Table.Valid, DataOf, AllObjects, Search.Found, Search.Overruns, Search.WalksOnce, Answers, Search.Finished;
    hide SortedBy;
    var t, row := OneRowTable(key, 5.0);
    OneField(t);
    ghost var objects := t.fields[0].Repr;
    var c := Component(0, NumberField, In, Null, Null, [Number(5.0), Number(5.0)]);
    var s := new Search(Query([c], {row}, [], 0, 0), true, false);
    RepeatedValueOverruns(t, s, row);
    CursorIsInside(t, s.q, 0);
    ghost var final;
    infinite, final := SearchTable(t, s, 0, -1);
  }

  lemma RepeatedValueOverruns(t: Table, s: Search, row: Row)
    requires t.Valid({}) && |t.fields| == 1 && t.fields[0].kind == NumberField && t.fields[0].skip != null
    requires t.all == [row] && DataOf(t.fields) == [map[row := Number(5.0)]] && s.counting && !s.transaction
    requires s.q == Query([Component(0, NumberField, In, Null, Null, [Number(5.0), Number(5.0)])], {row}, [], 0, 0)
    ensures Plans(t, s.q, 0) && s.Fits(IndexOf(t, s.q, 0), DataOf(t.fields), t.count, 0, -1, t.all)
    ensures s.Overruns(IndexOf(t, s.q, 0), DataOf(t.fields), t.count, 0, -1)
  {
    hide Table.Valid, DataOf, MainList, Search.Ready, Search.RunsOut, Search.WalkMatches, Search.Found;
    TableIsSource(t, s, 0);
    s.RepeatedValueRunsOut(IndexOf(t, s.q, 0), DataOf(t.fields), row);
  }

  /** A table with an index on its one field, and a row in it with the given number. */
  method OneRowTable(key: HashTables.Key, n: real) returns (t: Table, row: Row)
    ensures t.Valid({}) && |t.fields| == 1 && t.fields[0].kind == NumberField && t.fields[0].default == Null
    ensures fresh(t) && fresh(t.main) && fresh(t.keyTable) && fresh(t.keyTable.buckets) && fresh(AllObjects(t.fields))
    ensures t.fields[0].skip != null && t.all == [row] && DataOf(t.fields) == [map[row := Number(n)]]
    ensures t.keyTable.contents.Keys == {key}
  {
    hide Table.Valid, DataOf, SkipsOf, AllObjects, HashTables.HashTable.Valid, IndexedField.Valid;
    hide IndexedField.Complete, AllSet, Added, RowShows, OthersKept;
    t := IndexedTable();
    var isNew;
    row, isNew := t.Store(key, [(0, Number(n))]);
    OneMoreValue(t.fields, map[], row, n);
  }

  /** A table with an index on its one field. */
  method IndexedTable() returns (t: Table)
    ensures t.Valid({}) && |t.fields| == 1 && t.fields[0].kind == NumberField && t.fields[0].default == Null
    ensures fresh(t) && fresh(t.main) && fresh(t.keyTable) && fresh(t.keyTable.buckets) && fresh(AllObjects(t.fields))
    ensures t.fields[0].skip != null && t.all == [] && DataOf(t.fields) == [map[]]
    ensures t.keyTable.numEntries == 0 && t.keyTable.contents == map[]
  {
    hide Table.Valid, DataOf, SkipsOf, AllObjects, HashTables.HashTable.Valid, IndexedField.Valid;
    hide IndexedField.Complete;
    t := EmptyTable();
    OneField(t);
    t.CreateIndex(0, 20);
    OneField(t);
    t.KeyTableAgrees({});
  }

  lemma OneMoreValue(fields: seq<IndexedField>, values: map<Row, Value>, row: Row, n: real)
    requires |fields| == 1 && fields[0].default == Null
    ensures AllSet(Added([values], fields, row, 1), row, [(0, Number(n))], 1) == [values[row := Number(n)]]
  {
    var none: Data, data: Data := [values], [values[row := Null]];
    assert Added(none, fields, row, 1) == Stored(none, 0, row, Null) == data by {
      assert Added(none, fields, row, 0) == none;
    }
    assert AllSet(data, row, [(0, Number(n))], 0) == data;
    assert SetTo(data, 0, row, Number(n)) == Stored(data, 0, row, Number(n));
    assert data[0][row := Number(n)] == values[row := Number(n)];
  }

  lemma OneField(t: Table)
    requires |t.fields| == 1
    ensures AllObjects(t.fields) == t.fields[0].Repr
  {
    assert AllObjects(t.fields[..0]) == {};
  }

  method EmptyTable() returns (t: Table)
    ensures t.Valid({}) && |t.fields| == 1 && t.fields[0].kind == NumberField && t.fields[0].default == Null
    ensures fresh(t) && fresh(t.main) && fresh(t.keyTable) && fresh(t.keyTable.buckets) && fresh(AllObjects(t.fields))
    ensures t.all == [] && DataOf(t.fields) == [map[]]
  {
    hide Table.Valid, LinksInv, HashTables.HashTable.Valid, IndexedField.Complete, IndexedField.Valid, AllObjects;
    var main := new RowLinks();
    main.ListInit(LL_HEAD);
    var keyTable := new HashTables.HashTable();
    var field := new IndexedField(NumberField, Null);
    t := new Table(main, keyTable, [field]);
    OneField(t);
  }

  // ----- a table on which a dropped sort is missed -----

  /** A search for `>= 0` that is to be sorted in descending order by the same field. */
  function DescendingQuery(r1: Row, r2: Row): Query {
    Query([Component(0, NumberField, Ge, Number(0.0), Null, [])], {r1, r2}, [SortField(0, NumberField, -1)], 0, 0)
  }

  /** Two rows with 1.0 and 2.0 in an indexed field: that search acts on them in ascending order. */
  method DescendingSearch(key1: HashTables.Key, key2: HashTables.Key)
    returns (acted: seq<Row>, ghost data: Data)
    requires key1 != key2
    ensures |acted| == 2 && ValueOf(data, 0, acted[0]) == Number(1.0) && ValueOf(data, 0, acted[1]) == Number(2.0)
  {
    hide Table.Valid, DataOf, AllObjects, Search.Found, Search.Overruns, Search.WalksOnce, Answers, Search.Finished;
    hide SortedBy, ValueOf;
    var t, r1, r2 := TwoRowTable(key1, key2);
    OneField(t);
    ghost var objects := t.fields[0].Repr;
    data := DataOf(t.fields);
    var s := new Search(DescendingQuery(r1, r2), false, false);
    DescendingFound(t, s, r1, r2);
    CursorIsInside(t, s.q, 0);
    PlannedFits(t, s, 0, -1);
    var infinite;
    ghost var final;
    infinite, final := SearchTable(t, s, 0, -1);
    AllShown(s, final);
    TwoValues(data, r1, r2);
    acted := s.acted;
  }

  lemma TwoValues(data: Data, r1: Row, r2: Row)
    requires r1 != r2 && data == [map[r1 := Number(1.0), r2 := Number(2.0)]]
    ensures ValueOf(data, 0, r1) == Number(1.0) && ValueOf(data, 0, r2) == Number(2.0)
  {
  }

  lemma AllShown(s: Search, final: seq<Row>)
    requires s.Finished(final) && !s.counting && s.bufferResults == NoBuffer && s.q.limit == s.q.offset == 0
    ensures s.acted == final
  {
  }

  lemma DescendingFound(t: Table, s: Search, r1: Row, r2: Row)
    requires t.Valid({}) && |t.fields| == 1 && t.fields[0].kind == NumberField && t.fields[0].skip != null
    requires r1 != r2 && t.all == [r2, r1] && DataOf(t.fields) == [map[r1 := Number(1.0), r2 := Number(2.0)]]
    requires s.q == DescendingQuery(r1, r2) && !s.counting && !s.transaction
    ensures Plans(t, s.q, 0) && s.WalksOnce(IndexOf(t, s.q, 0), 0) && !s.Sorts(0) && s.Mode(false, -1) == NoBuffer
    ensures s.Found(IndexOf(t, s.q, 0), DataOf(t.fields), t.count, 0, t.all) == [r1, r2] && t.count > 0
  {
    hide Table.Valid, DataOf, MainList, Search.Ready, Search.WalkMatches, Search.Found;
    var data, index := DataOf(t.fields), IndexOf(t, s.q, 0);
    TableIsSource(t, s, 0);
    var full := s.Found(index, data, t.count, 0, t.all);
    s.SourceIsRight(t.main, index, data, t.count, 0, -1, t.all);
    s.DroppedIsInOrder(t.main, index, data, t.count, 0, t.all);
    TwoInOrder(s.q, data, r1, r2, full);
  }

  lemma TwoInOrder(q: Query, data: Data, r1: Row, r2: Row, full: seq<Row>)
    requires q == DescendingQuery(r1, r2) && r1 != r2 && data == [map[r1 := Number(1.0), r2 := Number(2.0)]]
    requires Answers(q, data, [r2, r1], full) && InOrder(NumberField, 0, data, full)
    ensures full == [r1, r2]
  {
    TwoValues(data, r1, r2);
    NumberTests(q.components[0], 1.0);
    NumberTests(q.components[0], 2.0);
    SelectedMeans(q, data, r1);
    SelectedMeans(q, data, r2);
    NumbersCompare(1.0, 2.0);
    NumbersCompare(2.0, 1.0);
    hide Compare, Selected, ValueOf;
    assert r1 in [r2, r1] && r2 in [r2, r1] && r1 in full && r2 in full;
    NoMoreThan(full, [r2, r1]);
    NoMoreThan([r1, r2], full);
  }

  /** An index created, and two rows stored. */
  method TwoRowTable(key1: HashTables.Key, key2: HashTables.Key) returns (t: Table, r1: Row, r2: Row)
    requires key1 != key2
    ensures t.Valid({}) && |t.fields| == 1 && t.fields[0].kind == NumberField && t.fields[0].skip != null
    ensures fresh(AllObjects(t.fields)) && r1 != r2 && t.all == [r2, r1]
    ensures DataOf(t.fields) == [map[r1 := Number(1.0), r2 := Number(2.0)]]
  {
    hide Table.Valid, DataOf, SkipsOf, AllObjects, HashTables.HashTable.Valid, IndexedField.Valid;
    hide IndexedField.Complete, AllSet, Added, RowShows, OthersKept;
    t, r1 := OneRowTable(key1, 1.0);
    t.KeyTableAgrees({});
    var isNew;
    r2, isNew := t.Store(key2, [(0, Number(2.0))]);
    OneMoreValue(t.fields, map[r1 := Number(1.0)], r2, 2.0);
  }
}
