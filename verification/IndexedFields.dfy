// One indexable field of a table: setting it, and its index (the setters that ctables/gentable.tcl generates for
// nullable number and varstring fields, and the index operations of ctables/ctable_search.c). Fields are not unique.

module IndexedFields {
  import opened FieldCompare
  import opened Options
  import opened RowLists
  import opened SkipIndexes
  import opened SkipLists

  /** Whether a setter works on a row that may be in the index, or on a new one that is not yet in it. */
  datatype IndexCtl = Normal | New

  /** The field shows what was set: the very value, or null. */
  predicate ShowsSet(obj: Value, v: Value) {
    if IsNull(obj) then IsNull(v) else v == obj
  }

  /** What a set leaves: setting null to null is no change. */
  function AfterSet(was: Value, obj: Value): (r: Value)
    ensures ShowsSet(obj, r) && (IsNull(was) && IsNull(obj) ==> r == was)
  {
    if IsNull(was) && IsNull(obj) then was else obj
  }

  class IndexedField {
    const kind: Kind
    const default: Value
    const column: Column
    const links: RowLinks
    var skip: SkipIndex?
    ghost var Repr: set<object>

    /** The rows that are linked into the index. */
    ghost function Indexed(): set<Row>
      reads links
    {
      LinkedRows(links.Mem())
    }

    /** The field's structures are whole and describe the rows `rows`. */
    ghost predicate Valid(rows: set<Row>)
      reads this, Repr
    {
      Repr == {this, column, links} + (if skip == null then {} else {skip, skip.fix}) &&
      links.Valid() && (forall r :: r in column.values <==> r in rows) &&
        (forall r :: r in links.links <==> r in rows) &&
      if skip == null then links.lists == map[]
      else skip.links == links && skip.column == column && skip.kind == kind && skip.maxh > 1 && skip.Valid()
    }

    /** A live index has all the rows but possibly those in `pending`. */
    ghost predicate Complete(rows: set<Row>, pending: set<Row>)
      reads this, links
    {
      skip != null ==> forall r :: r in rows && r !in pending ==> r in Indexed()
    }

    constructor (kind: Kind, default: Value)
      ensures Valid({}) && Complete({}, {}) && fresh(Repr) && this.kind == kind && this.default == default &&
              skip == null
    {
      this.kind, this.default, skip := kind, default, null;
      column := new Column();
      links := new RowLinks();
      new;
      Repr := {this, column, links};
    }

    lemma NothingIndexed(rows: set<Row>)
      requires Valid(rows) && skip == null
      ensures Indexed() == {}
    {
      hide LinksInv;
      forall r ensures r !in Indexed() {
        LinkedIsListed(links.Mem(), links.lists, r);
      }
    }

    lemma ValidHas(rows: set<Row>)
      requires Valid(rows)
      ensures forall r :: r in rows ==> r in column.values && r in links.links
      ensures Repr == {this, column, links} + if skip == null then {} else {skip, skip.fix}
      ensures forall r :: r in Indexed() ==> r in rows
    {
    }

    /** Moving the index's cursor leaves the field as it is. */
    twostate lemma CursorKeeps(rows: set<Row>)
      requires old(Valid(rows)) && unchanged(this) && unchanged(column) && unchanged(links)
      requires skip != null ==>
                 skip.next == old(skip.next) && skip.curh == old(skip.curh) && skip.keys == old(skip.keys) &&
                 skip.levels == old(skip.levels)
      ensures Valid(rows) && Indexed() == old(Indexed())
    {
      hide LinksInv, Shape;
    }

    /** ctable_RemoveFromIndex. */
    method RemoveFromIndex(r: Row, ghost rows: set<Row>)
      requires Valid(rows) && r in rows
      modifies Repr - {this, column}
      ensures Valid(rows) && Indexed() == old(Indexed()) - {r}
    {
      hide LinksInv, Shape, BucketOf, Keyed, LinkedRows;
      if skip == null {
        NothingIndexed(rows);
        return;
      }
      var n, k := skip.RemoveRow(r);
    }

    /** ctable_InsertIntoIndex; a row that is in the index already would make it panic. */
    method InsertIntoIndex(r: Row, ghost rows: set<Row>)
      requires Valid(rows) && r in rows && (skip != null ==> r !in Indexed())
      modifies Repr - {this, column}
      ensures Valid(rows) && Indexed() == old(Indexed()) + if skip == null then {} else {r}
    {
      hide LinksInv, Shape, BucketOf, Keyed;
      if skip == null {
        return;
      }
      var n := skip.InsertRow(r);
    }

    /** A store to the field of a row that is not in the index. */
    method StoreValue(r: Row, v: Value, ghost rows: set<Row>)
      requires Valid(rows) && r in rows && (skip != null ==> r !in Indexed())
      modifies column
      ensures Valid(rows) && column.values == old(column.values)[r := v]
    {
      hide LinksInv, Shape, BucketOf, Keyed, LinkedRows;
      if skip == null {
        column.values := column.values[r := v];
      } else {
        skip.StoreValues(column.values[r := v], r);
      }
    }

    /** The removal that a setter makes before its first store to a row in the index, inhibiting a second one. */
    method Unindex(r: Row, ctl: IndexCtl, ghost rows: set<Row>) returns (ctl': IndexCtl)
      requires Valid(rows) && r in rows && (ctl == New && skip != null ==> r !in Indexed())
      modifies Repr - {this, column}
      ensures Valid(rows) && (skip != null ==> ctl' == New)
      ensures Indexed() == if skip == null then old(Indexed()) else old(Indexed()) - {r}
    {
      hide LinksInv, Shape, BucketOf, Keyed, LinkedRows;
      ctl' := ctl;
      if skip != null && ctl == Normal {
        ctl' := New;
        RemoveFromIndex(r, rows);
      }
    }

    /**
     * The generated setter. `obj` is what the Tcl object holds; a null varstring still has the null string's
     * characters.
     */
    method Set(r: Row, obj: Value, ctl: IndexCtl, ghost rows: set<Row>) returns (ghost changed: bool)
      requires Valid(rows) && r in rows && (ctl == New && skip != null ==> r !in Indexed())
      modifies Repr - {this}
      ensures Valid(rows) && column.values == old(column.values)[r := AfterSet(old(column.values)[r], obj)]
      ensures !IsNull(obj) ==> column.values[r] == obj
      ensures IsNull(obj) ==> IsNull(column.values[r])
      ensures changed <==> !(IsNull(old(column.values)[r]) && IsNull(obj)) && old(column.values)[r] != obj
      ensures Indexed() == old(Indexed()) + if changed && skip != null then {r} else {}
    {
      hide Valid, Indexed;
      ValidHas(rows);
      var indexCtl := ctl;
      var wasNull := IsNull(column.values[r]);
      changed := !(wasNull && IsNull(obj)) && column.values[r] != obj;
      if IsNull(obj) {
        if wasNull {
          return;
        }
        indexCtl := Unindex(r, indexCtl, rows);
        StoreValue(r, Nulled(column.values[r]), rows);
      }
      if !IsNull(obj) && wasNull {
        indexCtl := Unindex(r, indexCtl, rows);
      } else if !IsNull(obj) {
        if column.values[r] == obj {
          return;
        }
      }
      indexCtl := Unindex(r, indexCtl, rows);
      StoreValue(r, obj, rows);
      if skip != null {
        InsertIntoIndex(r, rows);
      }
    }

    /** Setting a field to null, which leaves a string's characters where they are. */
    method SetNull(r: Row, ctl: IndexCtl, ghost rows: set<Row>) returns (ghost changed: bool)
      requires Valid(rows) && r in rows && (ctl == New && skip != null ==> r !in Indexed())
      modifies Repr - {this}
      ensures Valid(rows) && column.values == old(column.values)[r := Nulled(old(column.values)[r])]
      ensures IsNull(column.values[r])
      ensures changed <==> !IsNull(old(column.values)[r])
      ensures Indexed() == old(Indexed()) + if changed && skip != null then {r} else {}
    {
      hide Valid, Indexed;
      ValidHas(rows);
      changed := !IsNull(column.values[r]);
      if IsNull(column.values[r]) {
        return;
      }
      var indexCtl := Unindex(r, ctl, rows);
      StoreValue(r, Nulled(column.values[r]), rows);
      if skip != null {
        InsertIntoIndex(r, rows);
      }
    }

    /** _index_defaults for one field: a new row whose field has not been set joins the index with its default. */
    method IndexDefault(r: Row, ghost rows: set<Row>)
      requires Valid(rows) && r in rows
      modifies Repr - {this, column}
      ensures Valid(rows) && Indexed() == old(Indexed()) + if skip == null then {} else {r}
    {
      hide LinksInv, Shape, BucketOf, Keyed;
      if skip != null && links.links[r].prev.Detached? {
        InsertIntoIndex(r, rows);
      }
    }

    /** The field in a new row. */
    method AddRow(r: Row, ghost rows: set<Row>)
      requires Valid(rows) && r !in rows
      modifies Repr - {this}
      ensures Valid(rows + {r}) && Indexed() == old(Indexed()) && column.values == old(column.values)[r := default]
    {
      hide LinksInv, Shape, BucketOf, Keyed;
      if skip == null {
        column.values := column.values[r := default];
      } else {
        skip.StoreValues(column.values[r := default], r);
      }
      links.AddRow(r);
    }

    /** The field of a row that is freed, which must be out of the index. */
    method ForgetRow(r: Row, ghost rows: set<Row>)
      requires Valid(rows) && r in rows && r !in Indexed()
      modifies Repr - {this}
      ensures Valid(rows - {r}) && Indexed() == old(Indexed()) && column.values == old(column.values) - {r}
    {
      hide LinksInv, Shape, BucketOf, Keyed;
      if skip == null {
        column.values := column.values - {r};
      } else {
        skip.StoreValues(column.values - {r}, r);
      }
      links.ForgetRow(r);
    }

    /** The field of a row that is deleted. */
    method DeleteRow(r: Row, ghost rows: set<Row>)
      requires Valid(rows) && r in rows
      modifies Repr - {this}
      ensures Valid(rows - {r}) && Indexed() == old(Indexed()) - {r} && column.values == old(column.values) - {r}
    {
      hide Valid, Indexed;
      ValidHas(rows);
      RemoveFromIndex(r, rows);
      ForgetRow(r, rows);
    }

    /** ctable_CreateIndex: a new skip list into which every row of the table's list is inserted. */
    method CreateIndex(depth: nat, main: RowLinks, ghost all: seq<Row>, ghost rows: set<Row>)
      requires Valid(rows) && depth >= 1 && main != links && MainList(main, all) && forall r :: r in all <==> r in rows
      modifies Repr - {column}
      ensures Valid(rows) && skip != null && fresh(Repr - old(Repr))
      ensures old(skip) != null ==> skip == old(skip) && Indexed() == old(Indexed())
      ensures old(skip) == null ==> forall r :: r in Indexed() <==> r in rows
    {
      hide LinksInv, Shape, BucketOf, Keyed, LinkedRows;
      if skip != null {
        return;
      }
      NewSkipList(depth, rows);
      InsertAll(main, all, rows);
    }

    /** An empty skip list for the field. */
    method NewSkipList(depth: nat, ghost rows: set<Row>)
      requires Valid(rows) && depth >= 1 && skip == null
      modifies this, links`heads, links`lists
      ensures Valid(rows) && skip != null && fresh(skip) && fresh(skip.fix) && Indexed() == {}
    {
      hide LinksInv, Shape, BucketOf, Keyed;
      skip := new SkipIndex(depth, kind, links, column);
      Repr := {this, column, links, skip, skip.fix};
      skip.ShapeHeight();
      EmptyIndex();
    }

    lemma EmptyIndex()
      requires links.Valid() && links.lists == map[HEAD := []]
      ensures Indexed() == {}
    {
      hide LinksInv;
      forall r ensures r !in Indexed() {
        LinkedIsListed(links.Mem(), links.lists, r);
      }
    }

    /** The walk of ctable_CreateIndex. */
    method InsertAll(main: RowLinks, ghost all: seq<Row>, ghost rows: set<Row>)
      requires Valid(rows) && skip != null && Indexed() == {} && main != links && MainList(main, all)
      requires forall r :: r in all <==> r in rows
      modifies Repr - {this, column}
      ensures Valid(rows) && forall r :: r in Indexed() <==> r in rows
    {
      hide Valid, LinksInv, Indexed, MainList, Front;
      MainFollows(main, all);
      FrontIsWhole(all);
      ValidHas(rows);
      ghost var mainLinks := main.links;
      var row, k := main.heads[LL_HEAD], 0;
      while row.Some?
        invariant k <= |all| && row == At(all, k) && Valid(rows) && main.links == mainLinks
        invariant Indexed() == Front(all, k)
        decreases |all| - k
      {
        OneMore(all, k);
        InsertIntoIndex(row.value, rows);
        row, k := main.links[row.value].next, k + 1;
      }
    }

    /** The first `k` rows. */
    ghost function Front(all: seq<Row>, k: nat): set<Row>
      requires k <= |all|
    {
      set r | r in all[..k]
    }

    lemma FrontIsWhole(all: seq<Row>)
      ensures Front(all, 0) == {} && forall r :: r in Front(all, |all|) <==> r in all
    {
      assert all[..|all|] == all;
    }

    lemma MainFollows(main: RowLinks, all: seq<Row>)
      requires MainList(main, all)
      ensures LL_HEAD in main.heads && main.heads[LL_HEAD] == At(all, 0)
      ensures forall k :: 0 <= k < |all| ==> all[k] in main.links && main.links[all[k]].next == At(all, k + 1)
      ensures forall i, j :: 0 <= i < j < |all| ==> all[i] != all[j]
    {
      MainIsSeen(main, all);
    }

    lemma OneMore(all: seq<Row>, k: nat)
      requires k < |all| && forall i, j :: 0 <= i < j < |all| ==> all[i] != all[j]
      ensures all[k] !in Front(all, k) && Front(all, k + 1) == Front(all, k) + {all[k]}
    {
    }

    /** ctable_DropIndex: the nodes are freed, then the links of every row of the table's list are cleared. */
    method DropIndex(main: RowLinks, ghost all: seq<Row>, ghost rows: set<Row>)
      requires Valid(rows) && main != links && MainList(main, all) && forall r :: r in all <==> r in rows
      modifies this, links
      ensures Valid(rows) && skip == null && Indexed() == {}
    {
      hide LinksInv, Shape, BucketOf, Keyed, SkipIndex.Valid;
      if skip != null {
        skip, Repr := null, {this, column, links};
        links.heads, links.lists := map[], map[];
        ClearAll(main, all, rows);
      }
      NothingIndexed(rows);
    }

    /** The walk of ctable_DropIndex. */
    method ClearAll(main: RowLinks, ghost all: seq<Row>, ghost rows: set<Row>)
      requires main != links && MainList(main, all) && (forall r :: r in all <==> r in rows) &&
               (forall r :: r in links.links <==> r in rows)
      requires links.heads == map[] && links.lists == map[]
      modifies links`links
      ensures links.Valid() && forall r :: r in links.links <==> r in rows
    {
      hide LinksInv, IsList, ClearedUpTo;
      MainIsSeen(main, all);
      var row, k := main.heads[LL_HEAD], 0;
      ClearNone(links.links, all);
      while row.Some?
        invariant k <= |all| && row == At(all, k) && (forall r :: r in links.links <==> r in rows)
        invariant ClearedUpTo(links.links, all, k)
        decreases |all| - k
      {
        ClearOne(links.links, all, k);
        links.links := links.links[row.value := Link(None, Detached, None)];
        row, k := main.links[row.value].next, k + 1;
      }
      NoListsAtAll(links.Mem(), all);
    }

    lemma NoListsAtAll(m: Memory, all: seq<Row>)
      requires m.heads == map[] && ClearedUpTo(m.links, all, |all|)
      ensures LinksInv(m, map[])
    {
    }
  }

  /** Only rows behind the first `k` still have links set. */
  ghost predicate ClearedUpTo(links: map<Row, Link>, all: seq<Row>, k: nat) {
    k <= |all| && forall r :: r in links ==> links[r].prev.Detached? || r in all[k..]
  }

  lemma ClearNone(links: map<Row, Link>, all: seq<Row>)
    requires forall r :: r in links ==> r in all
    ensures ClearedUpTo(links, all, 0)
  {
    assert all[0..] == all;
  }

  lemma ClearOne(links: map<Row, Link>, all: seq<Row>, k: nat)
    requires ClearedUpTo(links, all, k) && k < |all|
    ensures ClearedUpTo(links[all[k] := Link(None, Detached, None)], all, k + 1)
  {
    assert all[k..] == [all[k]] + all[k + 1..];
  }
}
