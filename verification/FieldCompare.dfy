// The generated compare functions of ctables/gentable.tcl, for key, number and varstring fields.
// strcmp may answer any number of the right sign; the model answers -1, 0 or 1.

module FieldCompare {
  import opened Preorders

  type Char = c: int | 0 < c < 256 witness 1
  type CString = seq<Char>

  /** A field's value. A null varstring may still hold characters, which only sorts look at. */
  datatype Value = Null | Number(n: real) | Text(s: CString) | NullText(s: CString)

  predicate IsNull(v: Value) {
    v.Null? || v.NullText?
  }

  /** The value once the null flag is set. */
  function Nulled(v: Value): (r: Value)
    ensures IsNull(r) && (IsNull(v) ==> r == v) && (v.Text? ==> r == NullText(v.s))
  {
    match v
    case Text(s) => NullText(s)
    case NullText(s) => v
    case _ => Null
  }

  datatype Kind = KeyField | NumberField | VarstringField

  function Sign(x: int): (r: int)
    ensures r == -1 || r == 0 || r == 1
  {
    if x < 0 then -1 else if x > 0 then 1 else 0
  }

  /** The first character as the source's plain `char` sees it: signed, and 0 for an empty string. */
  function FirstChar(s: CString): int {
    if s == [] then 0 else if s[0] < 128 then s[0] else s[0] as int - 256
  }

  /** strcmp: lexicographic in unsigned characters, a prefix first. */
  function StrCmp(a: CString, b: CString): (r: int)
    ensures r == -1 || r == 0 || r == 1
    decreases |a|
  {
    if a == [] then (if b == [] then 0 else -1)
    else if b == [] then 1
    else if a[0] != b[0] then Sign(a[0] as int - b[0] as int)
    else StrCmp(a[1..], b[1..])
  }

  /** _key_compare, and the varstring compare of two non-null strings. */
  function TextCompare(a: CString, b: CString): int {
    if FirstChar(a) != FirstChar(b) then Sign(FirstChar(a) - FirstChar(b)) else StrCmp(a, b)
  }

  /** The field compare functions: nulls sort high. A value of another kind counts as null. */
  function Compare(kind: Kind, v1: Value, v2: Value): int {
    match kind
    case NumberField =>
      if !v1.Number? then (if !v2.Number? then 0 else 1)
      else if !v2.Number? then -1
      else if v1.n < v2.n then -1 else if v1.n > v2.n then 1 else 0
    case _ =>
      if !v1.Text? then (if !v2.Text? then 0 else 1) else if !v2.Text? then -1 else TextCompare(v1.s, v2.s)
  }

  // ----- what they order by -----

  /** strcmp: the first byte that differs decides, unsigned. */
  lemma {:induction false} FirstDifferenceDecides(a: CString, b: CString, k: nat)
    requires k < |a| && k < |b| && a[..k] == b[..k] && a[k] != b[k]
    ensures StrCmp(a, b) == if a[k] < b[k] then -1 else 1
    decreases k
  {
    if k > 0 {
      assert a[0] == a[..k][0] == b[0];
      assert a[1..][..k - 1] == a[..k][1..] == b[1..][..k - 1];
      FirstDifferenceDecides(a[1..], b[1..], k - 1);
    }
  }

  /** strcmp: a proper prefix comes first. */
  lemma {:induction false} PrefixComesFirst(a: CString, b: CString)
    requires a < b
    ensures StrCmp(a, b) == -1
    decreases |a|
  {
    if a != [] {
      assert a[0] == b[0] && a[1..] < b[1..];
      PrefixComesFirst(a[1..], b[1..]);
    }
  }

  /** Strings that start at or above 0x80 come before all others; otherwise the order is that of strcmp. */
  lemma TextsCompare(kind: Kind, a: CString, b: CString)
    requires kind != NumberField
    ensures Compare(kind, Text(a), Text(b)) < 0 <==>
              (StartsHigh(a) && !StartsHigh(b)) || ((StartsHigh(a) <==> StartsHigh(b)) && StrCmp(a, b) < 0)
    ensures Compare(kind, Text(a), Text(b)) == 0 <==> a == b
  {
    StrCmpMirrors(a, b);
  }

  /** Numbers compare as numbers. */
  lemma NumbersCompare(m: real, n: real)
    ensures Compare(NumberField, Number(m), Number(n)) < 0 <==> m < n
    ensures Compare(NumberField, Number(m), Number(n)) == 0 <==> m == n
  {
  }

  /** The field has a value of its kind, which is not null. */
  predicate HasValue(kind: Kind, v: Value) {
    if kind == NumberField then v.Number? else v.Text?
  }

  /** Nulls are equal to each other and above everything else. */
  lemma NullsCompare(kind: Kind, v: Value, w: Value)
    requires !HasValue(kind, v)
    ensures Compare(kind, v, w) == 0 <==> !HasValue(kind, w)
    ensures Compare(kind, v, w) > 0 <==> HasValue(kind, w)
    ensures Compare(kind, w, v) < 0 <==> HasValue(kind, w)
  {
  }

  // ----- they are total preorders -----

  lemma {:induction false} StrCmpMirrors(a: CString, b: CString)
    ensures StrCmp(a, b) == -StrCmp(b, a)
    ensures StrCmp(a, b) == 0 <==> a == b
    decreases |a|
  {
    if a != [] && b != [] && a[0] == b[0] {
      StrCmpMirrors(a[1..], b[1..]);
      assert a == [a[0]] + a[1..] && b == [b[0]] + b[1..];
    }
  }

  lemma {:induction false} StrCmpChains(a: CString, b: CString, c: CString)
    ensures StrCmp(a, b) <= 0 && StrCmp(b, c) <= 0 ==> StrCmp(a, c) <= 0
    decreases |a|
  {
    if a != [] && b != [] && c != [] && a[0] == b[0] == c[0] {
      StrCmpChains(a[1..], b[1..], c[1..]);
    }
  }

  /** Comparing the first characters as signed and the rest as unsigned is still a total preorder. */
  lemma TextCompareLaws(a: CString, b: CString, c: CString)
    ensures TextCompare(a, b) == -TextCompare(b, a)
    ensures TextCompare(a, b) <= 0 && TextCompare(b, c) <= 0 ==> TextCompare(a, c) <= 0
    ensures TextCompare(a, b) == 0 <==> a == b
  {
    StrCmpMirrors(a, b);
    StrCmpChains(a, b, c);
  }

  function CompareOf(kind: Kind): (Value, Value) -> int {
    (v1, v2) => Compare(kind, v1, v2)
  }

  lemma CompareIsPreorder(kind: Kind)
    ensures IsPreorder(CompareOf(kind))
  {
    var cmp := CompareOf(kind);
    forall x, y ensures Mirrors(cmp, x, y) {
      if x.Text? && y.Text? {
        TextCompareLaws(x.s, y.s, x.s);
      }
    }
    forall x, y, z ensures Chains(cmp, x, y, z) {
      if x.Text? && y.Text? && z.Text? {
        TextCompareLaws(x.s, y.s, z.s);
      }
    }
  }

  // ----- the sort compare -----

  type Fields = seq<Value>
  datatype SortField = SortField(field: nat, kind: Kind, direction: int)

  /** The field's string pointer is not NULL. */
  predicate HasText(v: Value) {
    v.Text? || v.NullText?
  }

  /**
   * One case of _sort_compare. Null numbers sort high; strings sort by strcmp alone, null or not, and behind no string
   * at all.
   */
  function SortOne(f: SortField, v1: Value, v2: Value): int {
    match f.kind
    case NumberField =>
      if !v1.Number? then (if !v2.Number? then 0 else f.direction)
      else if !v2.Number? then -f.direction
      else if v1.n < v2.n then -f.direction else if v1.n > v2.n then f.direction else 0
    case KeyField =>
      if !v1.Text? then (if !v2.Text? then 0 else f.direction)
      else if !v2.Text? then -f.direction
      else if FirstChar(v1.s) > FirstChar(v2.s) then f.direction
      else if FirstChar(v1.s) < FirstChar(v2.s) then -f.direction
      else f.direction * StrCmp(v1.s, v2.s)
    case VarstringField =>
      if !HasText(v1) then (if !HasText(v2) then 0 else f.direction * -1)
      else if !HasText(v2) then f.direction
      else f.direction * StrCmp(v1.s, v2.s)
  }

  function Get(row: Fields, field: nat): Value {
    if field < |row| then row[field] else Null
  }

  ghost predicate Directed(fields: seq<SortField>) {
    forall i :: 0 <= i < |fields| ==> fields[i].direction == 1 || fields[i].direction == -1
  }

  /** What the loop of _sort_compare still has to decide from sort field `i` on. */
  function SortCompare(fields: seq<SortField>, r1: Fields, r2: Fields, i: nat): int
    requires i <= |fields|
    decreases |fields| - i
  {
    if i == |fields| then 0
    else
      var result := SortOne(fields[i], Get(r1, fields[i].field), Get(r2, fields[i].field));
      if result != 0 then result else SortCompare(fields, r1, r2, i + 1)
  }

  /** _sort_compare. */
  method CompareRows(fields: seq<SortField>, r1: Fields, r2: Fields) returns (result: int)
    ensures result == SortCompare(fields, r1, r2, 0)
  {
    result := 0;
    for i := 0 to |fields|
      invariant result == 0 && SortCompare(fields, r1, r2, 0) == SortCompare(fields, r1, r2, i)
    {
      result := SortOne(fields[i], Get(r1, fields[i].field), Get(r2, fields[i].field));
      if result != 0 {
        break;
      }
    }
  }

  lemma SortOneLaws(f: SortField, x: Value, y: Value, z: Value)
    requires f.direction == 1 || f.direction == -1
    ensures SortOne(f, x, y) == -SortOne(f, y, x)
    ensures SortOne(f, x, y) <= 0 && SortOne(f, y, z) <= 0 ==> SortOne(f, x, z) <= 0
    ensures SortOne(f, x, y) >= 0 && SortOne(f, y, z) >= 0 ==> SortOne(f, x, z) >= 0
  {
    if HasText(x) && HasText(y) {
      StrCmpMirrors(x.s, y.s);
      if HasText(z) {
        StrCmpMirrors(y.s, z.s);
        StrCmpMirrors(x.s, z.s);
        StrCmpChains(x.s, y.s, z.s);
        StrCmpChains(z.s, y.s, x.s);
      }
    }
  }

  /** Deciding by sort field orders all rows. */
  lemma {:induction false} SortCompareLaws(fields: seq<SortField>, x: Fields, y: Fields, z: Fields, i: nat)
    requires i <= |fields| && Directed(fields)
    ensures SortCompare(fields, x, y, i) == -SortCompare(fields, y, x, i)
    ensures SortCompare(fields, x, y, i) <= 0 && SortCompare(fields, y, z, i) <= 0 ==> SortCompare(fields, x, z, i) <= 0
    ensures SortCompare(fields, x, y, i) >= 0 && SortCompare(fields, y, z, i) >= 0 ==> SortCompare(fields, x, z, i) >= 0
    decreases |fields| - i
  {
    if i < |fields| {
      SortCompareLaws(fields, x, y, z, i + 1);
      var f := fields[i];
      var a, b, c := Get(x, f.field), Get(y, f.field), Get(z, f.field);
      SortOneLaws(f, a, b, c);
      SortOneLaws(f, b, c, a);
      SortOneLaws(f, c, a, b);
      SortOneLaws(f, b, a, c);
      hide SortOne;
    }
  }

  function SortCompareOf(fields: seq<SortField>): (Fields, Fields) -> int {
    (r1, r2) => SortCompare(fields, r1, r2, 0)
  }

  /** The first sort field that tells two rows apart decides. */
  lemma {:induction false} FirstFieldDecides(fields: seq<SortField>, x: Fields, y: Fields, i: nat, k: nat)
    requires i <= k < |fields|
    requires forall j :: i <= j < k ==> SortOne(fields[j], Get(x, fields[j].field), Get(y, fields[j].field)) == 0
    requires SortOne(fields[k], Get(x, fields[k].field), Get(y, fields[k].field)) != 0
    ensures SortCompare(fields, x, y, i) == SortOne(fields[k], Get(x, fields[k].field), Get(y, fields[k].field))
    decreases k - i
  {
    hide SortOne;
    if i < k {
      FirstFieldDecides(fields, x, y, i + 1, k);
    }
  }

  /** Rows that no sort field tells apart are equal to the sort. */
  lemma {:induction false} NoFieldDecides(fields: seq<SortField>, x: Fields, y: Fields, i: nat)
    requires i <= |fields|
    requires forall j :: i <= j < |fields| ==> SortOne(fields[j], Get(x, fields[j].field), Get(y, fields[j].field)) == 0
    ensures SortCompare(fields, x, y, i) == 0
    decreases |fields| - i
  {
    hide SortOne;
    if i < |fields| {
      NoFieldDecides(fields, x, y, i + 1);
    }
  }

  /** Sorted by fields 0 and 1, ascending, the row (1, 2) comes before (2, 1). */
  lemma TwoFieldInput()
    ensures var fields := [SortField(0, NumberField, 1), SortField(1, NumberField, 1)];
      SortCompare(fields, [Number(1.0), Number(2.0)], [Number(2.0), Number(1.0)], 0) < 0
  {
    var fields := [SortField(0, NumberField, 1), SortField(1, NumberField, 1)];
    FirstFieldDecides(fields, [Number(1.0), Number(2.0)], [Number(2.0), Number(1.0)], 0, 0);
  }

  /** Numbers sort as numbers, nulls above them; a direction of -1 turns both. */
  lemma NumbersSort(f: SortField, v: Value, w: Value)
    requires f.kind == NumberField && (f.direction == 1 || f.direction == -1)
    ensures v.Number? && w.Number? ==> (f.direction * SortOne(f, v, w) < 0 <==> v.n < w.n)
    ensures v.Number? && w.Number? ==> (SortOne(f, v, w) == 0 <==> v.n == w.n)
    ensures v.Number? && !w.Number? ==> f.direction * SortOne(f, v, w) < 0
    ensures !v.Number? && !w.Number? ==> SortOne(f, v, w) == 0
  {
  }

  /** Strings that are there sort by strcmp, null or not, above those that are not; a direction of -1 turns both. */
  lemma VarstringsSort(f: SortField, v: Value, w: Value)
    requires f.kind == VarstringField && (f.direction == 1 || f.direction == -1)
    ensures HasText(v) && HasText(w) ==> f.direction * SortOne(f, v, w) == StrCmp(v.s, w.s)
    ensures !HasText(v) && HasText(w) ==> f.direction * SortOne(f, v, w) < 0
    ensures !HasText(v) && !HasText(w) ==> SortOne(f, v, w) == 0
  {
  }

  /** Keys sort as an index compares them; a direction of -1 turns that. */
  lemma KeysSort(f: SortField, v: Value, w: Value)
    requires f.kind == KeyField && (f.direction == 1 || f.direction == -1)
    ensures Sign(f.direction * SortOne(f, v, w)) == Sign(Compare(KeyField, v, w))
  {
  }

  /** The comparison that ctable_qsort_r is given is a total preorder. */
  lemma SortCompareIsPreorder(fields: seq<SortField>)
    requires Directed(fields)
    ensures IsPreorder(SortCompareOf(fields))
  {
    var cmp := SortCompareOf(fields);
    forall x, y ensures Mirrors(cmp, x, y) {
      SortCompareLaws(fields, x, y, x, 0);
    }
    forall x, y, z ensures Chains(cmp, x, y, z) {
      SortCompareLaws(fields, x, y, z, 0);
    }
  }

  // ----- when an index walk may stand in for a sort -----

  /** The ascending sort compare has the sign of the walk's compare. */
  ghost predicate SameOrder(kind: Kind, v1: Value, v2: Value) {
    Sign(SortOne(SortField(0, kind, 1), v1, v2)) == Sign(Compare(kind, v1, v2))
  }

  /** On number and key fields the two always agree. */
  lemma WalkOrderIsSortOrder(kind: Kind, v1: Value, v2: Value)
    requires kind == NumberField || kind == KeyField
    ensures SameOrder(kind, v1, v2)
  {
  }

  predicate StartsHigh(s: CString) {
    s != [] && s[0] >= 128
  }

  /** On varstring fields: both or neither hold characters, and these have the order of the walk. */
  ghost predicate VarstringsAgree(v1: Value, v2: Value) {
    (HasText(v1) <==> HasText(v2)) &&
    (HasText(v1) && HasText(v2) ==>
       if v1.Text? && v2.Text? then StartsHigh(v1.s) <==> StartsHigh(v2.s)
       else StrCmp(v1.s, v2.s) == if v1.Text? then -1 else if v2.Text? then 1 else 0)
  }

  /**
   * On varstring fields they agree exactly then: for two strings that are not null, when both start below 0x80 or both
   * do not.
   */
  lemma VarstringWalkOrder(v1: Value, v2: Value)
    ensures SameOrder(VarstringField, v1, v2) <==> VarstringsAgree(v1, v2)
  {
    if HasText(v1) && HasText(v2) {
      StrCmpMirrors(v1.s, v2.s);
    }
  }

  /**
   * The two orders differ on a string that starts high, on a null one that holds characters, and on no string at all.
   */
  lemma VarstringOrdersDiffer()
    ensures Compare(VarstringField, Text([200]), Text([65])) < 0 <
            SortOne(SortField(0, VarstringField, 1), Text([200]), Text([65]))
    ensures Compare(VarstringField, NullText([65]), Text([66])) > 0 >
            SortOne(SortField(0, VarstringField, 1), NullText([65]), Text([66]))
    ensures Compare(VarstringField, Null, Text([])) > 0 > SortOne(SortField(0, VarstringField, 1), Null, Text([]))
  {
  }

  /** What the sort makes of two strings, not null, in the order of the walk: high before low is the only difference. */
  lemma TextsInWalkOrder(v1: Value, v2: Value)
    requires v1.Text? && v2.Text? && Compare(VarstringField, v1, v2) <= 0
    ensures StartsHigh(v2.s) ==> StartsHigh(v1.s)
    ensures SortOne(SortField(0, VarstringField, 1), v1, v2) <= 0 <==> (StartsHigh(v1.s) <==> StartsHigh(v2.s))
    ensures SortOne(SortField(0, VarstringField, 1), v1, v2) >= 0 <==>
              v1 == v2 || (StartsHigh(v1.s) && !StartsHigh(v2.s))
  {
    StrCmpMirrors(v1.s, v2.s);
    VarstringWalkOrder(v1, v2);
  }

  /** Turning the direction turns the comparison. */
  lemma DirectionTurns(f: SortField, v1: Value, v2: Value)
    requires f.direction == 1 || f.direction == -1
    ensures SortOne(f, v1, v2) == f.direction * SortOne(SortField(0, f.kind, 1), v1, v2)
  {
  }

  ghost predicate InWalkOrder(kind: Kind, field: nat, rows: seq<Fields>) {
    forall i, j :: 0 <= i < j < |rows| ==> Compare(kind, Get(rows[i], field), Get(rows[j], field)) <= 0
  }

  /** Rows in the order of an index walk are sorted for the sort that the walk lets a search drop. */
  lemma WalkedRowsAreSorted(kind: Kind, field: nat, rows: seq<Fields>)
    requires kind == NumberField || kind == KeyField
    requires InWalkOrder(kind, field, rows)
    ensures forall i, j :: 0 <= i < j < |rows| ==> SortCompare([SortField(field, kind, 1)], rows[i], rows[j], 0) <= 0
  {
    forall i, j | 0 <= i < j < |rows|
      ensures SortCompare([SortField(field, kind, 1)], rows[i], rows[j], 0) <= 0
    {
      WalkOrderIsSortOrder(kind, Get(rows[i], field), Get(rows[j], field));
    }
  }
}
