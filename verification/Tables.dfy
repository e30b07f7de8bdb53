// Table-wide agreement of the key table, the list of all rows and the indexes, under the row and index operations
// (ctables/gentable.tcl, ctables/ctable_search.c). A row's address stands for the row.

module Tables {
  import opened FieldCompare
  import HashTables
  import opened IndexedFields
  import opened Options
  import opened RowLists
  import opened SearchRules
  import opened SkipIndexes
  import opened SkipLists

  /** The rows' own hash entries are exactly those of the key table, one for each row of the table. */
  ghost predicate KeysAgree(contents: map<HashTables.Key, HashTables.Entry>, entries: map<Row, HashTables.Entry>,
           all: seq<Row>) {
    (forall r :: r in entries <==> r in all) &&
    (forall r :: r in entries ==>
      entries[r].row == r && entries[r].key in contents && contents[entries[r].key] == entries[r]) &&
    forall k :: k in contents ==>
        contents[k].key == k && contents[k].row in entries && entries[contents[k].row] == contents[k]
  }

  ghost function RowSet(all: seq<Row>): set<Row> {
    set r | r in all
  }

  /** Everything that the fields' structures are made of. */
  ghost function AllObjects(fields: seq<IndexedField>): set<object>
    reads fields
  {
    if fields == [] then {} else AllObjects(fields[..|fields| - 1]) + fields[|fields| - 1].Repr
  }

  /** The values of every field. */
  function DataOf(fields: seq<IndexedField>): (data: seq<map<Row, Value>>)
    reads set i | 0 <= i < |fields| :: fields[i].column
    ensures |data| == |fields| && forall i :: 0 <= i < |fields| ==> data[i] == fields[i].column.values
  {
    if fields == [] then [] else DataOf(fields[..|fields| - 1]) + [fields[|fields| - 1].column.values]
  }

  /** Every field's live index, or null. */
  ghost function SkipsOf(fields: seq<IndexedField>): (skips: seq<SkipIndex?>)
    reads fields
    ensures |skips| == |fields| && forall i :: 0 <= i < |fields| ==> skips[i] == fields[i].skip
  {
    if fields == [] then [] else SkipsOf(fields[..|fields| - 1]) + [fields[|fields| - 1].skip]
  }

  lemma {:induction false} FootprintsAreObjects(fields: seq<IndexedField>)
    ensures forall i :: 0 <= i < |fields| ==> fields[i].Repr <= AllObjects(fields)
  {
    if fields != [] {
      FootprintsAreObjects(fields[..|fields| - 1]);
    }
  }

  lemma {:induction false} ObjectsApart(fields: seq<IndexedField>, others: set<object>)
    requires forall i :: 0 <= i < |fields| ==> others !! fields[i].Repr
    ensures others !! AllObjects(fields)
  {
    if fields != [] {
      ObjectsApart(fields[..|fields| - 1], others);
    }
  }

  /** The values after a set of one field of one row. */
  function SetTo(data: Data, f: nat, row: Row, obj: Value): Data
    requires f < |data|
  {
    Stored(data, f, row, if row in data[f] then AfterSet(data[f][row], obj) else obj)
  }

  /** The values after a store to one field of one row. */
  function Stored(data: Data, f: nat, row: Row, v: Value): Data
    requires f < |data|
  {
    var values: map<Row, Value> := data[f][row := v];
    data[f := values]
  }

  class Table {
    const main: RowLinks
    const keyTable: HashTables.HashTable
    const fields: seq<IndexedField>
    var entries: map<Row, HashTables.Entry>
    var count: nat
    ghost var all: seq<Row>

    ghost predicate Separate()
      reads keyTable, fields
    {
      (forall i :: 0 <= i < |fields| ==> {fields[i], fields[i].column, fields[i].links} <= fields[i].Repr) &&
      (forall i :: 0 <= i < |fields| ==> {this, main, keyTable, keyTable.buckets} !! fields[i].Repr) &&
      forall i, j :: 0 <= i < j < |fields| ==> fields[i].Repr !! fields[j].Repr
    }

    /** All fields describe the rows `rows`; live indexes may still lack those in `pending`. */
    ghost predicate FieldsValid(rows: set<Row>, pending: set<Row>)
      reads fields, AllObjects(fields)
    {
      FootprintsAreObjects(fields);
      forall i :: 0 <= i < |fields| ==> fields[i].Valid(rows) && fields[i].Complete(rows, pending)
    }

    /** The key table's rows are the list's rows, and `count` is their number. */
    ghost predicate RowsAgree()
      reads this, main, keyTable, keyTable.buckets
    {
      MainList(main, all) && (forall r :: r in main.links <==> r in all) && count == |all| &&
      keyTable.Valid() && KeysAgree(keyTable.contents, entries, all)
    }

    /** The table agrees with itself. */
    ghost predicate Valid(pending: set<Row>)
      reads this, main, keyTable, keyTable.buckets, fields, AllObjects(fields)
    {
      Separate() && RowsAgree() && FieldsValid(RowSet(all), pending)
    }

    /** A table without rows and without indexes. */
    constructor (main: RowLinks, keyTable: HashTables.HashTable, fields: seq<IndexedField>)
      requires MainList(main, []) && main.links == map[] && keyTable.Valid() && keyTable.contents == map[]
      requires forall i :: 0 <= i < |fields| ==> fields[i].Valid({}) && fields[i].Complete({}, {})
      requires forall i :: 0 <= i < |fields| ==> {main, keyTable, keyTable.buckets} !! fields[i].Repr
      requires forall i, j :: 0 <= i < j < |fields| ==> fields[i].Repr !! fields[j].Repr
      ensures Valid({}) && all == [] && this.main == main && this.keyTable == keyTable && this.fields == fields
    {
      hide MainList, IndexedField.Valid, HashTables.HashTable.Valid;
      this.main, this.keyTable, this.fields := main, keyTable, fields;
      entries, count, all := map[], 0, [];
      new;
      assert RowSet([]) == {};
      forall i | 0 <= i < |fields| ensures {fields[i], fields[i].column, fields[i].links} <= fields[i].Repr {
        fields[i].ValidHas({});
      }
    }

    /** What touches only the structures of field `f` leaves the other fields' values and indexes alone. */
    twostate lemma OtherFieldsKeep(f: nat)
      requires old(Separate()) && f < |fields|
      requires forall g :: 0 <= g < |fields| ==> unchanged(fields[g])
      requires forall g :: 0 <= g < |fields| && g != f ==> unchanged(fields[g].column) && unchanged(fields[g].links)
      ensures AllObjects(fields) == old(AllObjects(fields)) && SkipsOf(fields) == old(SkipsOf(fields))
      ensures DataOf(fields) == old(DataOf(fields))[f := fields[f].column.values]
      ensures forall g :: 0 <= g < |fields| && g != f ==> fields[g].Indexed() == old(fields[g].Indexed())
    {
    }

    /** What changes no column, and no field but number `f`, leaves the values and the other indexes alone. */
    twostate lemma ColumnsKeep(f: nat)
      requires f < |fields| && forall g :: 0 <= g < |fields| && g != f ==> unchanged(fields[g])
      requires forall g :: 0 <= g < |fields| ==> unchanged(fields[g].column)
      ensures DataOf(fields) == old(DataOf(fields)) && SkipsOf(fields) == old(SkipsOf(fields))[f := fields[f].skip]
    {
    }

    lemma RowHasValues(row: Row, pending: set<Row>)
      requires Valid(pending) && row in all
      ensures forall f: nat :: f < |fields| ==> row in DataOf(fields)[f]
    {
      hide RowsAgree, Separate;
    }

    /** A generated setter on one field of a row. */
    method Set(f: nat, row: Row, obj: Value, ctl: IndexCtl, ghost pending: set<Row>)
      requires Valid(pending) && f < |fields| && row in all
      requires ctl == New && fields[f].skip != null ==> row !in fields[f].Indexed()
      modifies fields[f].Repr - {fields[f]}
      ensures Valid(pending) && DataOf(fields) == SetTo(old(DataOf(fields)), f, row, obj) && all == old(all)
      ensures RowShows(old(DataOf(fields)), DataOf(fields), row, [(f, obj)])
      ensures OthersKept(old(DataOf(fields)), DataOf(fields), row)
      ensures AllObjects(fields) == old(AllObjects(fields)) && SkipsOf(fields) == old(SkipsOf(fields))
      ensures forall g :: 0 <= g < |fields| && g != f ==> fields[g].Indexed() == old(fields[g].Indexed())
    {
      hide MainList, KeysAgree, IndexedField.Valid, HashTables.HashTable.Valid, IndexedField.Indexed, AllObjects;
      hide RowShows, OthersKept;
      RowHasValues(row, pending);
      SetShows(DataOf(fields), f, row, obj);
      fields[f].ValidHas(RowSet(all));
      var changed := fields[f].Set(row, obj, ctl, RowSet(all));
      OtherFieldsKeep(f);
    }

    /** The fields before number `n` describe `done` already, the others still `rows`. */
    ghost predicate FieldsSplit(n: nat, done: set<Row>, donePending: set<Row>, rows: set<Row>, pending: set<Row>)
      reads fields, AllObjects(fields)
    {
      FootprintsAreObjects(fields);
      n <= |fields| &&
      (forall i :: 0 <= i < n ==> fields[i].Valid(done) && fields[i].Complete(done, donePending)) &&
      forall i :: n <= i < |fields| ==> fields[i].Valid(rows) && fields[i].Complete(rows, pending)
    }

    /** The row is in no index, unless in that of a field numbered in `already`. */
    ghost predicate NotIndexed(row: Row, already: set<nat>)
      reads fields, set i | 0 <= i < |fields| :: fields[i].links
    {
      forall g :: 0 <= g < |fields| && g !in already ==> row !in fields[g].Indexed()
    }

    method DefaultOne(i: nat, row: Row)
      requires Separate() && RowsAgree() && FieldsSplit(i, RowSet(all), {}, RowSet(all), {row}) && row in all &&
               i < |fields|
      modifies fields[i].Repr - {fields[i], fields[i].column}
      ensures Separate() && RowsAgree() && FieldsSplit(i + 1, RowSet(all), {}, RowSet(all), {row})
      ensures DataOf(fields) == old(DataOf(fields)) && AllObjects(fields) == old(AllObjects(fields)) && all == old(all)
      ensures SkipsOf(fields) == old(SkipsOf(fields))
    {
      hide MainList, KeysAgree, IndexedField.Valid, HashTables.HashTable.Valid, AllObjects, DataOf, SkipsOf;
      fields[i].IndexDefault(row, RowSet(all));
    }

    /** _index_defaults. */
    method IndexDefaults(row: Row)
      requires Valid({row}) && row in all
      modifies AllObjects(fields)
      ensures Valid({}) && DataOf(fields) == old(DataOf(fields)) && all == old(all)
      ensures AllObjects(fields) == old(AllObjects(fields))
      ensures SkipsOf(fields) == old(SkipsOf(fields))
    {
      hide RowsAgree, IndexedField.Valid, AllObjects, DataOf, SkipsOf;
      ObjectsApart(fields, {this, main, keyTable, keyTable.buckets});
      for i := 0 to |fields|
        invariant Separate() && RowsAgree() && FieldsSplit(i, RowSet(all), {}, RowSet(all), {row})
        invariant DataOf(fields) == old(DataOf(fields)) && AllObjects(fields) == old(AllObjects(fields)) &&
                  all == old(all)
        invariant SkipsOf(fields) == old(SkipsOf(fields))
      {
        FootprintsAreObjects(fields);
        DefaultOne(i, row);
      }
    }

    // ----- creating and deleting rows -----

    /** The part of _find_or_create that keeps the key table, the list of all rows and the count. */
    method StoreRow(key: HashTables.Key) returns (row: Row, isNew: bool)
      requires RowsAgree() && keyTable.numEntries < HashTables.MAX_ENTRIES
      modifies this`entries, this`count, this`all, main, keyTable, keyTable.buckets
      ensures RowsAgree() && (keyTable.buckets == old(keyTable.buckets) || fresh(keyTable.buckets))
      ensures isNew <==> key !in old(keyTable.contents)
      ensures key in keyTable.contents && keyTable.contents[key].row == row && row in all
      ensures isNew ==> row !in old(all) && all == [row] + old(all)
      ensures !isNew ==> all == old(all) && keyTable.contents == old(keyTable.contents)
      ensures isNew ==> keyTable.contents == old(keyTable.contents)[key := keyTable.contents[key]]
    {
      hide MainList, KeysAgree, HashTables.HashTable.Valid;
      EntriesAreRows(keyTable.contents, entries, all);
      ghost var bound := AddressBound(entries.Keys);
      assert bound !in entries;
      var nextRow: Row :| nextRow !in entries;
      ghost var contents := keyTable.contents;
      var entry;
      entry, isNew := keyTable.Store(key, nextRow);
      row := entry.row;
      if isNew {
        LinkRow(row);
        KeysAgreeMore(contents, entries, all, entry);
        entries := entries[row := entry];
        count := count + 1;
        all := [row] + all;
      }
    }

    /** The new row goes to the front of the list of all rows. */
    method LinkRow(row: Row)
      requires MainList(main, all) && (forall r :: r in main.links <==> r in all) && row !in all
      modifies main
      ensures MainList(main, [row] + all) && forall r :: r in main.links <==> r in [row] + all
    {
      hide LinksInv;
      main.AddRow(row);
      ghost var trace := main.InsertHead(LL_HEAD, row);
      assert main.lists == map[LL_HEAD := [row] + all];
      assert forall r :: r in [row] + all <==> r == row || r in all;
    }

    /** The new row in one field. */
    method AddOne(i: nat, row: Row, ghost before: seq<Row>)
      requires Separate() && RowsAgree() && i < |fields| && row !in before && all == [row] + before &&
               NotIndexed(row, {})
      requires FieldsSplit(i, RowSet(all), {row}, RowSet(before), {})
      modifies fields[i].Repr - {fields[i]}
      ensures Separate() && RowsAgree() && NotIndexed(row, {}) &&
              FieldsSplit(i + 1, RowSet(all), {row}, RowSet(before), {})
      ensures DataOf(fields) == Stored(old(DataOf(fields)), i, row, fields[i].default) &&
               AllObjects(fields) == old(AllObjects(fields)) && all == old(all)
      ensures SkipsOf(fields) == old(SkipsOf(fields))
    {
      hide MainList, KeysAgree, IndexedField.Valid, HashTables.HashTable.Valid, IndexedField.Indexed, AllObjects;
      hide SkipsOf;
      assert RowSet(before) + {row} == RowSet(all);
      fields[i].AddRow(row, RowSet(before));
      OtherFieldsKeep(i);
    }

    /** The initialisation of a new row's fields. */
    method AddToFields(row: Row, ghost before: seq<Row>)
      requires Separate() && RowsAgree() && row !in before && all == [row] + before && FieldsValid(RowSet(before), {})
      modifies AllObjects(fields)
      ensures Valid({row}) && NotIndexed(row, {}) && AllObjects(fields) == old(AllObjects(fields)) && all == old(all)
      ensures DataOf(fields) == Added(old(DataOf(fields)), fields, row, |fields|)
      ensures SkipsOf(fields) == old(SkipsOf(fields))
    {
      hide RowsAgree, AllObjects, DataOf, SkipsOf, NotIndexed, FieldsSplit, FieldsValid;
      ObjectsApart(fields, {this, main, keyTable, keyTable.buckets});
      SplitEnds(RowSet(all), {row}, RowSet(before), {});
      UnknownRowsAreNotIndexed(row, before);
      for i := 0 to |fields|
        invariant Separate() && RowsAgree() && NotIndexed(row, {}) &&
                  FieldsSplit(i, RowSet(all), {row}, RowSet(before), {})
        invariant DataOf(fields) == Added(old(DataOf(fields)), fields, row, i) &&
                 AllObjects(fields) == old(AllObjects(fields)) && all == old(all)
        invariant SkipsOf(fields) == old(SkipsOf(fields))
      {
        FootprintsAreObjects(fields);
        AddOne(i, row, before);
      }
      SplitEnds(RowSet(all), {row}, RowSet(before), {});
    }

    lemma SplitEnds(done: set<Row>, donePending: set<Row>, rows: set<Row>, pending: set<Row>)
      ensures FieldsSplit(0, done, donePending, rows, pending) <==> FieldsValid(rows, pending)
      ensures FieldsSplit(|fields|, done, donePending, rows, pending) <==> FieldsValid(done, donePending)
    {
      hide IndexedField.Valid, IndexedField.Complete, AllObjects;
    }

    lemma UnknownRowsAreNotIndexed(row: Row, before: seq<Row>)
      requires FieldsValid(RowSet(before), {}) && row !in before
      ensures NotIndexed(row, {})
    {
      forall g | 0 <= g < |fields| ensures row !in fields[g].Indexed() {
        fields[g].ValidHas(RowSet(before));
        assert fields[g].Valid(RowSet(before));
      }
    }

    /** _find_or_create. A new row has its fields' defaults, and is in no index yet. */
    method FindOrCreate(key: HashTables.Key) returns (row: Row, isNew: bool)
      requires Valid({}) && keyTable.numEntries < HashTables.MAX_ENTRIES
      modifies this`entries, this`count, this`all, main, keyTable, keyTable.buckets, AllObjects(fields)
      ensures SkipsOf(fields) == old(SkipsOf(fields))
      ensures isNew <==> key !in old(keyTable.contents)
      ensures key in keyTable.contents && keyTable.contents[key].row == row && row in all
      ensures keyTable.contents ==
              if isNew then old(keyTable.contents)[key := keyTable.contents[key]] else old(keyTable.contents)
      ensures keyTable.buckets == old(keyTable.buckets) || fresh(keyTable.buckets)
      ensures if isNew then Valid({row}) && NotIndexed(row, {}) else Valid({})
      ensures if isNew then all == [row] + old(all) && row !in old(all) else all == old(all)
      ensures DataOf(fields) == if isNew then Added(old(DataOf(fields)), fields, row, |fields|) else old(DataOf(fields))
      ensures AllObjects(fields) == old(AllObjects(fields)) && Separate()
    {
      hide RowsAgree, IndexedField.Valid, AllObjects, DataOf, SkipsOf, IndexedField.Indexed, NotIndexed;
      ObjectsApart(fields, {this, main, keyTable, keyTable.buckets});
      ghost var before := all;
      row, isNew := StoreRow(key);
      if isNew {
        AddToFields(row, before);
      }
    }

    /** Only a field without a live index is set more than once; a new row would enter the index twice. */
    ghost predicate SetOnce(sets: seq<(nat, Value)>)
      requires forall k :: 0 <= k < |sets| ==> sets[k].0 < |fields|
      reads fields
    {
      forall k, n :: 0 <= k < n < |sets| && sets[k].0 == sets[n].0 ==> SkipsOf(fields)[sets[n].0] == null
    }

    /** One setter after another, as the `set` and tab-separated import commands call them. */
    method SetFields(row: Row, ctl: IndexCtl, sets: seq<(nat, Value)>, ghost pending: set<Row>)
      requires Valid(pending) && row in all && forall k :: 0 <= k < |sets| ==> sets[k].0 < |fields|
      requires ctl == New ==> NotIndexed(row, {}) && SetOnce(sets)
      modifies AllObjects(fields)
      ensures Valid(pending) && DataOf(fields) == AllSet(old(DataOf(fields)), row, sets, |sets|) && all == old(all)
      ensures RowShows(old(DataOf(fields)), DataOf(fields), row, sets)
      ensures OthersKept(old(DataOf(fields)), DataOf(fields), row)
      ensures AllObjects(fields) == old(AllObjects(fields)) && SkipsOf(fields) == old(SkipsOf(fields))
      ensures keyTable.contents == old(keyTable.contents)
    {
      hide RowsAgree, FieldsValid, IndexedField.Valid, AllObjects, DataOf, SkipsOf, IndexedField.Indexed, RowShows;
      hide OthersKept;
      RowHasValues(row, pending);
      AllSetShows(DataOf(fields), row, sets, |sets|);
      assert sets[..|sets|] == sets;
      ObjectsApart(fields, {this, main, keyTable, keyTable.buckets});
      for k := 0 to |sets|
        invariant Valid(pending) && all == old(all) && AllObjects(fields) == old(AllObjects(fields))
        invariant DataOf(fields) == AllSet(old(DataOf(fields)), row, sets, k)
        invariant ctl == New ==> NotIndexed(row, set n | 0 <= n < k :: sets[n].0) && SetOnce(sets)
        invariant keyTable.contents == old(keyTable.contents)
        invariant SkipsOf(fields) == old(SkipsOf(fields))
      {
        FootprintsAreObjects(fields);
        Set(sets[k].0, row, sets[k].1, ctl, pending);
      }
    }

    /** Creating a row, or setting fields of the row that has the key: afterwards the table agrees with itself. */
    method Store(key: HashTables.Key, sets: seq<(nat, Value)>) returns (row: Row, isNew: bool)
      requires Valid({}) && keyTable.numEntries < HashTables.MAX_ENTRIES
      requires forall k :: 0 <= k < |sets| ==> sets[k].0 < |fields|
      requires key !in keyTable.contents ==> SetOnce(sets)
      modifies this`entries, this`count, this`all, main, keyTable, keyTable.buckets, AllObjects(fields)
      ensures Valid({}) && (isNew <==> key !in old(keyTable.contents)) && row in all
      ensures if isNew then all == [row] + old(all) && row !in old(all) else all == old(all)
      ensures var start := if isNew then Added(old(DataOf(fields)), fields, row, |fields|) else old(DataOf(fields));
        DataOf(fields) == AllSet(start, row, sets, |sets|) && RowShows(start, DataOf(fields), row, sets) &&
        (isNew ==> forall f: nat :: f < |fields| ==> row in start[f] && start[f][row] == fields[f].default)
      ensures OthersKept(old(DataOf(fields)), DataOf(fields), row)
      ensures keyTable.buckets == old(keyTable.buckets) || fresh(keyTable.buckets)
      ensures key in keyTable.contents && keyTable.contents[key].row == row
      ensures keyTable.contents ==
              if isNew then old(keyTable.contents)[key := keyTable.contents[key]] else old(keyTable.contents)
      ensures SkipsOf(fields) == old(SkipsOf(fields))
      ensures AllObjects(fields) == old(AllObjects(fields))
    {
      hide RowsAgree, FieldsValid, IndexedField.Valid, AllObjects, DataOf, SkipsOf, IndexedField.Indexed, NotIndexed;
      hide Added, RowShows, OthersKept, AllSet;
      ghost var before := DataOf(fields);
      row, isNew := FindOrCreate(key);
      ghost var start := DataOf(fields);
      if isNew {
        AddedDefaults(before, fields, row, |fields|);
      } else {
        SameOthersKept(before, row);
      }
      ObjectsApart(fields, {this, main, keyTable, keyTable.buckets});
      SetFields(row, if isNew then New else Normal, sets, if isNew then {row} else {});
      OthersKeptTwice(before, start, DataOf(fields), row);
      if isNew {
        IndexDefaults(row);
      }
    }

    /** The row has left the list of all rows, but not yet the key table. */
    ghost predicate Unlisted(row: Row, before: seq<Row>, k: nat)
      reads this, main, keyTable, keyTable.buckets
    {
      k < |before| && before[k] == row && all == Without(before, k) && row !in all && MainList(main, all) &&
        count == |before| &&
      (forall r :: r in main.links <==> r in before) && main.links[row].prev.Detached? &&
      keyTable.Valid() && KeysAgree(keyTable.contents, entries, before)
    }

    /** `ctable_ListRemove (row, 0)`. */
    method Unlist(row: Row) returns (ghost k: nat)
      requires RowsAgree() && row in all
      modifies main, this`all
      ensures Unlisted(row, old(all), k)
    {
      hide LinksInv, KeysAgree, HashTables.HashTable.Valid, Removable, AfterPrevStore, AfterSkip, AfterDetach, IsList;
      hide RemoveSteps, Sees, Without;
      MainIsSeen(main, all);
      k :| 0 <= k < |all| && all[k] == row;
      ghost var m := main.Mem();
      RemoveOutcome(m, main.lists, LL_HEAD, k);
      var mightBeTheLastOne, trace := main.Remove(row, LL_HEAD, k);
      ghost var before := all;
      all := Without(all, k);
      assert main.lists == map[LL_HEAD := all];
      LastStep(m, row);
      assert (forall r :: r in main.links <==> r in before) && main.links[row].prev.Detached?;
      NotTwice(before, k);
    }

    lemma LastStep(m: Memory, row: Row)
      requires Removable(m, row)
      ensures RemoveSteps(m, row)[2] == AfterDetach(m, row)
    {
    }

    lemma NotTwice(s: seq<Row>, k: nat)
      requires k < |s| && forall i, j :: 0 <= i < j < |s| ==> s[i] != s[j]
      ensures s[k] !in Without(s, k)
    {
    }

    /** One field of the deleted row: out of its index, and given up. */
    method RemoveOne(i: nat, row: Row, ghost before: seq<Row>, ghost k: nat)
      requires Separate() && Unlisted(row, before, k) && i < |fields| &&
               FieldsSplit(i, RowSet(all), {}, RowSet(before), {})
      modifies fields[i].Repr - {fields[i]}
      ensures Separate() && Unlisted(row, before, k) && FieldsSplit(i + 1, RowSet(all), {}, RowSet(before), {})
      ensures DataOf(fields) == Dropped(old(DataOf(fields)), i, row) && AllObjects(fields) == old(AllObjects(fields)) &&
              all == old(all)
      ensures SkipsOf(fields) == old(SkipsOf(fields))
    {
      hide MainList, KeysAgree, IndexedField.Valid, HashTables.HashTable.Valid, IndexedField.Indexed, AllObjects;
      hide SkipsOf;
      RestOfRows(before, k);
      fields[i].DeleteRow(row, RowSet(before));
    }

    /** ctable_DeleteHashEntry and the end of the row. */
    method Unhash(row: Row, ghost before: seq<Row>, ghost k: nat)
      requires Unlisted(row, before, k)
      modifies this`entries, this`count, main, keyTable, keyTable.buckets
      ensures RowsAgree() && keyTable.buckets == old(keyTable.buckets)
      ensures row in old(entries) && keyTable.contents == old(keyTable.contents) - {old(entries[row].key)}
    {
      hide LinksInv, HashTables.HashTable.Valid;
      RestOfRows(before, k);
      KeysAgreeLess(keyTable.contents, entries, before, k);
      keyTable.Delete(entries[row]);
      entries := entries - {row};
      count := count - 1;
      main.ForgetRow(row);
    }

    /** Deleting a row. */
    method Delete(row: Row)
      requires Valid({}) && row in all
      modifies this`entries, this`count, this`all, main, keyTable, keyTable.buckets, AllObjects(fields)
      ensures Valid({}) && all == Except(old(all), {row})
      ensures row in old(entries) && keyTable.contents == old(keyTable.contents) - {old(entries[row].key)}
      ensures DataOf(fields) == AllDropped(old(DataOf(fields)), row, |fields|)
      ensures AllObjects(fields) == old(AllObjects(fields)) && keyTable.buckets == old(keyTable.buckets)
      ensures SkipsOf(fields) == old(SkipsOf(fields))
    {
      hide RowsAgree, Separate, FieldsValid, AllObjects, DataOf, SkipsOf, Unlisted, AllDropped, Except;
      ghost var before := all;
      AllOnce();
      ghost var k := LeaveList(row);
      UnlistedRows(row, before, k);
      WithoutIsExcept(before, k);
      RemoveFromFields(row, before, k);
      LeaveKeys(row, before, k);
    }

    lemma AllOnce()
      requires RowsAgree()
      ensures NoRepeats(all)
    {
      MainIsSeen(main, all);
    }

    /** Unlist, which leaves the fields alone. */
    method LeaveList(row: Row) returns (ghost k: nat)
      requires Valid({}) && row in all
      modifies main, this`all
      ensures Separate() && Unlisted(row, old(all), k) && FieldsValid(RowSet(old(all)), {}) &&
              keyTable.buckets == old(keyTable.buckets)
      ensures DataOf(fields) == old(DataOf(fields)) && AllObjects(fields) == old(AllObjects(fields))
    {
      hide RowsAgree, AllObjects, DataOf, Unlisted, IndexedField.Valid, IndexedField.Complete;
      k := Unlist(row);
    }

    /** Unhash, which leaves the fields alone. */
    method LeaveKeys(row: Row, ghost before: seq<Row>, ghost k: nat)
      requires Separate() && Unlisted(row, before, k) && FieldsValid(RowSet(all), {})
      modifies this`entries, this`count, main, keyTable, keyTable.buckets
      ensures Valid({}) && DataOf(fields) == old(DataOf(fields)) && AllObjects(fields) == old(AllObjects(fields))
      ensures row in old(entries) && keyTable.contents == old(keyTable.contents) - {old(entries[row].key)}
      ensures keyTable.buckets == old(keyTable.buckets)
    {
      hide RowsAgree, AllObjects, DataOf, Unlisted, IndexedField.Valid, IndexedField.Complete;
      Unhash(row, before, k);
    }

    /** The deleted row goes from every field. */
    method RemoveFromFields(row: Row, ghost before: seq<Row>, ghost k: nat)
      requires Separate() && Unlisted(row, before, k) && FieldsValid(RowSet(before), {})
      modifies AllObjects(fields)
      ensures Separate() && Unlisted(row, before, k) && FieldsValid(RowSet(all), {}) && all == old(all)
      ensures AllObjects(fields) == old(AllObjects(fields))
      ensures keyTable.buckets == old(keyTable.buckets) && entries == old(entries) &&
              keyTable.contents == old(keyTable.contents)
      ensures DataOf(fields) == AllDropped(old(DataOf(fields)), row, |fields|)
      ensures SkipsOf(fields) == old(SkipsOf(fields))
    {
      hide RowsAgree, AllObjects, DataOf, SkipsOf, FieldsSplit, FieldsValid, Unlisted;
      ObjectsApart(fields, {this, main, keyTable, keyTable.buckets});
      SplitEnds(RowSet(all), {}, RowSet(before), {});
      for i := 0 to |fields|
        invariant Separate() && Unlisted(row, before, k) && FieldsSplit(i, RowSet(all), {}, RowSet(before), {})
        invariant DataOf(fields) == AllDropped(old(DataOf(fields)), row, i) &&
                  AllObjects(fields) == old(AllObjects(fields)) && all == old(all)
        invariant SkipsOf(fields) == old(SkipsOf(fields))
      {
        FootprintsAreObjects(fields);
        RemoveOne(i, row, before, k);
      }
      SplitEnds(RowSet(all), {}, RowSet(before), {});
    }

    lemma UnlistedRows(row: Row, before: seq<Row>, k: nat)
      requires Unlisted(row, before, k)
      ensures k < |before| && before[k] == row && all == Without(before, k) &&
              forall r :: r in all <==> r in before && r != row
    {
      hide MainList, KeysAgree, HashTables.HashTable.Valid;
      RestOfRows(before, k);
    }

    /** The generated _set_null on one field of a row. */
    method SetNull(f: nat, row: Row, ctl: IndexCtl, ghost pending: set<Row>)
      requires Valid(pending) && f < |fields| && row in all &&
               (ctl == New && fields[f].skip != null ==> row !in fields[f].Indexed())
      modifies fields[f].Repr - {fields[f]}
      ensures Valid(pending) &&
              DataOf(fields) == Stored(old(DataOf(fields)), f, row, Nulled(ValueOf(old(DataOf(fields)), f, row))) &&
                all == old(all)
      ensures AllObjects(fields) == old(AllObjects(fields)) && SkipsOf(fields) == old(SkipsOf(fields))
    {
      hide MainList, KeysAgree, IndexedField.Valid, HashTables.HashTable.Valid, IndexedField.Indexed, AllObjects;
      fields[f].ValidHas(RowSet(all));
      var changed := fields[f].SetNull(row, ctl, RowSet(all));
      OtherFieldsKeep(f);
    }

    // ----- what agreement means -----

    /** The key table holds exactly the rows of the list, each under one key, and `count` is the number of both. */
    lemma KeyTableAgrees(pending: set<Row>)
      requires Valid(pending)
      ensures NoRepeats(all) && count == |all| == |keyTable.contents| == keyTable.numEntries
      ensures forall r :: r in all <==> exists k :: k in keyTable.contents && keyTable.contents[k].row == r
    {
      MainIsSeen(main, all);
      KeyCount(keyTable.contents, entries, all);
      forall r ensures r in all <==> exists k :: k in keyTable.contents && keyTable.contents[k].row == r {
        if r in all {
          assert entries[r].key in keyTable.contents && keyTable.contents[entries[r].key].row == r;
        }
      }
    }

    /** A live index holds the table's rows, partitioned by compare-equality. */
    lemma IndexAgrees(i: nat)
      requires Valid({}) && i < |fields| && fields[i].skip != null
      ensures var f := fields[i];
        LinkedRows(f.links.Mem()) == RowSet(all) && f.skip.levels != [] &&
        Partitioned(f.kind, f.links.Mem(), f.links.lists, f.column.values, f.skip.levels[0])
    {
      hide SkipIndex.Valid, LinksInv, LinkedRows, Partitioned, KeysAgree;
      var f := fields[i];
      f.ValidHas(RowSet(all));
      assert f.Valid(RowSet(all)) && f.Complete(RowSet(all), {});
      SkipHasLevels(f.skip);
      f.skip.BucketsPartition();
    }

    lemma SkipHasLevels(skip: SkipIndex)
      requires skip.Valid()
      ensures skip.levels != []
    {
    }

    /** A live index meets what a search walk asks of it. */
    lemma IndexIsSearchable(i: nat)
      requires Valid({}) && i < |fields| && fields[i].skip != null
      ensures var f := fields[i];
        f.skip.levels != [] && IndexesAll(f.kind, f.skip.keys, f.skip.levels[0], f.links.lists, f.column.values, all)
    {
      hide Partitioned, KeysAgree, ListsApart, BucketOf, Ascends, LinksInv, LinkedRows, IndexesAll, SkipIndex.Valid;
      hide IsList, Separate, Sees;
      var f := fields[i];
      MainIsSeen(main, all);
      IndexAgrees(i);
      assert f.Valid(RowSet(all));
      assert NoRepeats(all);
      f.skip.ValidFacts();
      LinkedRowsAreIndexed(f.kind, f.links.Mem(), f.links.lists, f.column.values, f.skip.keys, f.skip.levels[0], all);
    }

    // ----- creating and dropping indexes -----

    /** ctable_CreateIndex. */
    method CreateIndex(f: nat, depth: nat)
      requires Valid({}) && f < |fields| && depth >= 1
      modifies fields[f].Repr - {fields[f].column}
      ensures Valid({}) && fields[f].skip != null && all == old(all)
      ensures old(fields[f].skip) != null ==> fields[f].skip == old(fields[f].skip)
      ensures fresh(fields[f].Repr - old(fields[f].Repr))
      ensures keyTable.buckets == old(keyTable.buckets) && keyTable.contents == old(keyTable.contents)
      ensures DataOf(fields) == old(DataOf(fields)) && SkipsOf(fields) == old(SkipsOf(fields))[f := fields[f].skip]
    {
      hide DataOf, SkipsOf;
      hide MainList, KeysAgree, IndexedField.Valid, HashTables.HashTable.Valid, IndexedField.Indexed, AllObjects;
      fields[f].ValidHas(RowSet(all));
      fields[f].CreateIndex(depth, main, all, RowSet(all));
      ColumnsKeep(f);
      fields[f].ValidHas(RowSet(all));
    }

    /** ctable_DropIndex. */
    method DropIndex(f: nat)
      requires Valid({}) && f < |fields|
      modifies fields[f], fields[f].links
      ensures Valid({}) && fields[f].skip == null && all == old(all)
      ensures DataOf(fields) == old(DataOf(fields)) && SkipsOf(fields) == old(SkipsOf(fields))[f := null]
      ensures keyTable.buckets == old(keyTable.buckets) && keyTable.contents == old(keyTable.contents)
    {
      hide DataOf, SkipsOf;
      hide MainList, KeysAgree, IndexedField.Valid, HashTables.HashTable.Valid, IndexedField.Indexed, AllObjects;
      fields[f].ValidHas(RowSet(all));
      fields[f].DropIndex(main, all, RowSet(all));
      ColumnsKeep(f);
      fields[f].ValidHas(RowSet(all));
    }
  }

  lemma {:induction false} KeyCount(contents: map<HashTables.Key, HashTables.Entry>,
           entries: map<Row, HashTables.Entry>, all: seq<Row>)
    requires KeysAgree(contents, entries, all) && forall i, j :: 0 <= i < j < |all| ==> all[i] != all[j]
    ensures |contents| == |all|
  {
    if all == [] {
      assert forall k :: k !in contents;
    } else {
      assert all[0] !in Without(all, 0);
      KeysAgreeLess(contents, entries, all, 0);
      var key := entries[all[0]].key;
      KeyCount(contents - {key}, entries - {all[0]}, Without(all, 0));
      assert contents.Keys == (contents - {key}).Keys + {key};
    }
  }

  /** The rows that are not in `gone`, in order. */
  ghost function Except(all: seq<Row>, gone: set<Row>): seq<Row> {
    if all == [] then []
    else
      var last := all[|all| - 1];
      Except(all[..|all| - 1], gone) + if last in gone then [] else [last]
  }

  lemma {:induction false} ExceptHas(all: seq<Row>, gone: set<Row>)
    ensures forall r :: r in Except(all, gone) <==> r in all && r !in gone
  {
    if all != [] {
      ExceptHas(all[..|all| - 1], gone);
    }
  }

  lemma {:induction false} NothingExcept(all: seq<Row>, gone: set<Row>)
    requires forall r :: r in all ==> r !in gone
    ensures Except(all, gone) == all
  {
    if all != [] {
      var front, last := all[..|all| - 1], all[|all| - 1];
      NothingExcept(front, gone);
      ExceptLast(front, last, gone);
      assert front + [last] == all;
    }
  }

  lemma {:induction false} WithoutIsExcept(all: seq<Row>, k: nat)
    requires NoRepeats(all) && k < |all|
    ensures Without(all, k) == Except(all, {all[k]})
  {
    hide Except;
    var front, last, gone := all[..|all| - 1], all[|all| - 1], {all[k]};
    assert front + [last] == all;
    ExceptLast(front, last, gone);
    if k == |all| - 1 {
      NothingExcept(front, gone);
    } else {
      WithoutIsExcept(front, k);
      assert last !in gone && Without(all, k) == Without(front, k) + [last];
    }
  }

  lemma {:induction false} ExceptTwice(all: seq<Row>, gone: set<Row>, more: set<Row>)
    ensures Except(Except(all, gone), more) == Except(all, gone + more)
  {
    hide Except;
    if all == [] {
      NothingExcept([], gone);
      NothingExcept([], more);
      NothingExcept([], gone + more);
    } else {
      var front, last := all[..|all| - 1], all[|all| - 1];
      assert front + [last] == all;
      ExceptTwice(front, gone, more);
      ExceptLast(front, last, gone);
      ExceptLast(front, last, gone + more);
      if last !in gone {
        ExceptLast(Except(front, gone), last, more);
      } else {
        assert Except(front, gone) + [] == Except(front, gone) && last in gone + more;
      }
    }
  }

  lemma ExceptLast(front: seq<Row>, last: Row, gone: set<Row>)
    ensures Except(front + [last], gone) == Except(front, gone) + if last in gone then [] else [last]
  {
    assert (front + [last])[..|front|] == front;
  }

  lemma RestOfRows(before: seq<Row>, k: nat)
    requires k < |before|
    ensures forall r :: r in Without(before, k) ==> r in before
    ensures forall r :: r in before && r != before[k] ==> r in Without(before, k)
    ensures before[k] !in Without(before, k) ==> RowSet(Without(before, k)) == RowSet(before) - {before[k]}
  {
    forall r | r in before && r != before[k] ensures r in Without(before, k) {
      var i :| 0 <= i < |before| && before[i] == r;
      assert Without(before, k)[if i < k then i else i - 1] == r;
    }
    forall r | r in Without(before, k) ensures r in before {
      var i :| 0 <= i < |Without(before, k)| && Without(before, k)[i] == r;
      assert before[if i < k then i else i + 1] == r;
    }
  }

  /** The values once the fields before number `n` have lost a row. */
  ghost function AllDropped(data: Data, row: Row, n: nat): (r: Data)
    requires n <= |data|
    ensures |r| == |data|
  {
    if n == 0 then data else Dropped(AllDropped(data, row, n - 1), n - 1, row)
  }

  function Dropped(data: Data, f: nat, row: Row): Data
    requires f < |data|
  {
    data[f := data[f] - {row}]
  }

  lemma KeysAgreeLess(contents: map<HashTables.Key, HashTables.Entry>, entries: map<Row, HashTables.Entry>,
           before: seq<Row>, k: nat)
    requires KeysAgree(contents, entries, before) && k < |before| && before[k] !in Without(before, k)
    ensures before[k] in entries && entries[before[k]].key in contents
    ensures KeysAgree(contents - {entries[before[k]].key}, entries - {before[k]}, Without(before, k))
  {
    RestOfRows(before, k);
  }

  /** The values after the first `n` of some stores to one row. */
  ghost function AllSet(data: Data, row: Row, sets: seq<(nat, Value)>, n: nat): (r: Data)
    requires n <= |sets| && forall k :: 0 <= k < |sets| ==> sets[k].0 < |data|
    ensures |r| == |data|
  {
    if n == 0 then data else SetTo(AllSet(data, row, sets, n - 1), sets[n - 1].0, row, sets[n - 1].1)
  }

  /** All rows but that one have kept their values. */
  ghost predicate OthersKept(before: Data, after: Data, row: Row) {
    |before| == |after| &&
    forall f: nat, r :: f < |before| && r in before[f] && r != row ==> r in after[f] && after[f][r] == before[f][r]
  }

  /** The last of the sets that is one of field `f`. */
  ghost predicate IsLastSet(sets: seq<(nat, Value)>, f: nat, k: nat) {
    k < |sets| && sets[k].0 == f && forall j :: k < j < |sets| ==> sets[j].0 != f
  }

  /** Each field of the row shows the last value set to it; fields that are not named keep theirs. */
  ghost predicate RowShows(before: Data, after: Data, row: Row, sets: seq<(nat, Value)>) {
    |before| == |after| && forall f: nat :: f < |after| ==> FieldShows(before[f], after[f], f, row, sets)
  }

  ghost predicate FieldShows(before: map<Row, Value>, after: map<Row, Value>, f: nat, row: Row,
           sets: seq<(nat, Value)>) {
    row in before && row in after &&
    (forall k: nat :: IsLastSet(sets, f, k) ==> ShowsSet(sets[k].1, after[row])) &&
    ((forall k: nat :: k < |sets| ==> sets[k].0 != f) ==> after[row] == before[row])
  }

  /** Sets one after another come to that. */
  lemma {:induction false} AllSetShows(data: Data, row: Row, sets: seq<(nat, Value)>, n: nat)
    requires n <= |sets| && forall k :: 0 <= k < |sets| ==> sets[k].0 < |data|
    requires forall f: nat :: f < |data| ==> row in data[f]
    ensures RowShows(data, AllSet(data, row, sets, n), row, sets[..n])
    ensures OthersKept(data, AllSet(data, row, sets, n), row)
  {
    hide SetTo, RowShows, OthersKept;
    if n > 0 {
      AllSetShows(data, row, sets, n - 1);
      assert sets[..n] == sets[..n - 1] + [sets[n - 1]];
      SetAfterSets(data, AllSet(data, row, sets, n - 1), row, sets[..n - 1], sets[n - 1]);
    } else {
      NothingSet(data, row);
      assert sets[..0] == [];
    }
  }

  lemma NothingSet(data: Data, row: Row)
    requires forall f: nat :: f < |data| ==> row in data[f]
    ensures RowShows(data, data, row, []) && OthersKept(data, data, row)
  {
  }

  /** One more set after some. */
  lemma SetAfterSets(data: Data, was: Data, row: Row, sets: seq<(nat, Value)>, last: (nat, Value))
    requires RowShows(data, was, row, sets) && OthersKept(data, was, row) && last.0 < |was|
    ensures RowShows(data, SetTo(was, last.0, row, last.1), row, sets + [last])
    ensures OthersKept(data, SetTo(was, last.0, row, last.1), row)
  {
    hide ShowsSet, SetTo, FieldShows, OthersKept;
    forall f: nat | f < |data| ensures row in was[f] {
      RowIsThere(data[f], was[f], f, row, sets);
    }
    var now := SetTo(was, last.0, row, last.1);
    SetToShows(was, last.0, row, last.1);
    OthersKeptTwice(data, was, now, row);
    forall f: nat | f < |data| ensures FieldShows(data[f], now[f], f, row, sets + [last]) {
      OneMoreSet(data[f], was[f], now[f], f, row, sets, last);
    }
  }

  lemma SetShows(data: Data, f: nat, row: Row, obj: Value)
    requires f < |data| && forall g: nat :: g < |data| ==> row in data[g]
    ensures RowShows(data, SetTo(data, f, row, obj), row, [(f, obj)]) && OthersKept(data, SetTo(data, f, row, obj), row)
  {
    hide RowShows, OthersKept, SetTo;
    NothingSet(data, row);
    SetAfterSets(data, data, row, [], (f, obj));
    assert [] + [(f, obj)] == [(f, obj)];
  }

  lemma SameOthersKept(data: Data, row: Row)
    ensures OthersKept(data, data, row)
  {
  }

  lemma OthersKeptTwice(before: Data, between: Data, after: Data, row: Row)
    requires OthersKept(before, between, row) && OthersKept(between, after, row)
    ensures OthersKept(before, after, row)
  {
  }

  lemma RowIsThere(before: map<Row, Value>, after: map<Row, Value>, f: nat, row: Row, sets: seq<(nat, Value)>)
    requires FieldShows(before, after, f, row, sets)
    ensures row in after
  {
  }

  /** A set of one field shows there, and nowhere else. */
  lemma SetToShows(data: Data, g: nat, row: Row, obj: Value)
    requires g < |data| && forall f: nat :: f < |data| ==> row in data[f]
    ensures var now := SetTo(data, g, row, obj);
      |now| == |data| && row in now[g] && ShowsSet(obj, now[g][row]) &&
      (forall f: nat :: f < |data| && f != g ==> now[f] == data[f]) && OthersKept(data, now, row)
  {
    hide ShowsSet;
  }

  lemma OneMoreSet(data: map<Row, Value>, was: map<Row, Value>, now: map<Row, Value>, f: nat, row: Row,
           sets: seq<(nat, Value)>, last: (nat, Value))
    requires FieldShows(data, was, f, row, sets) && row in now
    requires if last.0 == f then ShowsSet(last.1, now[row]) else now[row] == was[row]
    ensures FieldShows(data, now, f, row, sets + [last])
  {
    hide ShowsSet;
    var more := sets + [last];
    forall k: nat | IsLastSet(more, f, k) ensures ShowsSet(more[k].1, now[row]) {
      if last.0 == f {
        assert more[|sets|] == last && k == |sets|;
      } else {
        assert k < |sets| && more[k] == sets[k];
        assert forall j :: k < j < |sets| ==> more[j] == sets[j];
        assert IsLastSet(sets, f, k);
      }
    }
    if forall k: nat :: k < |more| ==> more[k].0 != f {
      assert more[|sets|] == last;
      assert forall k: nat :: k < |sets| ==> more[k] == sets[k];
    }
  }

  /** A new row has every field's default, and the other rows keep theirs. */
  lemma {:induction false} AddedDefaults(data: Data, fields: seq<IndexedField>, row: Row, n: nat)
    requires n <= |fields| == |data|
    ensures forall f: nat :: f < n ==> row in Added(data, fields, row, n)[f]
    ensures forall f: nat :: f < n ==> Added(data, fields, row, n)[f][row] == fields[f].default
    ensures OthersKept(data, Added(data, fields, row, n), row)
  {
    if n > 0 {
      AddedDefaults(data, fields, row, n - 1);
    }
  }

  /** The values once a new row has the defaults of the fields before number `n`. */
  ghost function Added(data: Data, fields: seq<IndexedField>, row: Row, n: nat): (r: Data)
    requires n <= |fields| == |data|
    ensures |r| == |data|
  {
    if n == 0 then data else Stored(Added(data, fields, row, n - 1), n - 1, row, fields[n - 1].default)
  }

  lemma EntriesAreRows(contents: map<HashTables.Key, HashTables.Entry>, entries: map<Row, HashTables.Entry>,
           all: seq<Row>)
    requires KeysAgree(contents, entries, all)
    ensures forall r :: r in entries <==> r in all
    ensures forall k :: k in contents ==> contents[k].key == k && contents[k].row in all
  {
  }

  /** One more row with a new key. */
  lemma KeysAgreeMore(contents: map<HashTables.Key, HashTables.Entry>, entries: map<Row, HashTables.Entry>,
           all: seq<Row>,
           e: HashTables.Entry)
    requires KeysAgree(contents, entries, all) && e.key !in contents && e.row !in entries
    ensures KeysAgree(contents[e.key := e], entries[e.row := e], [e.row] + all)
  {
    assert forall r :: r in [e.row] + all <==> r == e.row || r in all;
  }
}
