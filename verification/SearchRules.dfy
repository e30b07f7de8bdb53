// What a search must select, and which part of an index a skip walk has to visit (ctables/ctable_search.c
// and the generated _search_compare of ctables/gentable.tcl).

module SearchRules {
  import opened FieldCompare
  import opened Options
  import opened RowLists
  import opened SkipIndexes
  import opened SkipLists

  datatype Test = Lt | Le | Eq | Ne | Ge | Gt | Range | In

  /** CTableSearchComponent; `row1`, `row2` and `inList` hold the field's value in the rows that the source builds. */
  datatype Component = Component(field: nat, kind: Kind, test: Test, row1: Value, row2: Value, inList: seq<Value>)

  /** Every field's values, by row. */
  type Data = seq<map<Row, Value>>

  function ValueOf(data: Data, field: nat, row: Row): Value {
    if field < |data| && row in data[field] then data[field][row] else Null
  }

  ghost predicate InValues(kind: Kind, v: Value, inList: seq<Value>) {
    exists i :: 0 <= i < |inList| && Compare(kind, v, inList[i]) == 0
  }

  ghost predicate Accepts(c: Component, v: Value) {
    match c.test
    case Lt => Compare(c.kind, v, c.row1) < 0
    case Le => Compare(c.kind, v, c.row1) <= 0
    case Eq => Compare(c.kind, v, c.row1) == 0
    case Ne => Compare(c.kind, v, c.row1) != 0
    case Ge => Compare(c.kind, v, c.row1) >= 0
    case Gt => Compare(c.kind, v, c.row1) > 0
    case Range => Compare(c.kind, v, c.row1) >= 0 && Compare(c.kind, v, c.row2) < 0
    case In => InValues(c.kind, v, c.inList)
  }

  // ----- what each test selects -----

  /** `!=` selects exactly what `=` does not. */
  lemma UnequalIsComplement(c: Component, v: Value)
    requires c.test == Ne
    ensures Accepts(c, v) <==> !Accepts(c.(test := Eq), v)
  {
  }

  /** A number against numbers. */
  lemma NumberTests(c: Component, n: real)
    requires c.kind == NumberField && (c.test != In ==> c.row1.Number?) && (c.test == Range ==> c.row2.Number?)
    ensures c.test == Lt ==> (Accepts(c, Number(n)) <==> n < c.row1.n)
    ensures c.test == Le ==> (Accepts(c, Number(n)) <==> n <= c.row1.n)
    ensures c.test == Eq ==> (Accepts(c, Number(n)) <==> n == c.row1.n)
    ensures c.test == Ne ==> (Accepts(c, Number(n)) <==> n != c.row1.n)
    ensures c.test == Ge ==> (Accepts(c, Number(n)) <==> n >= c.row1.n)
    ensures c.test == Gt ==> (Accepts(c, Number(n)) <==> n > c.row1.n)
    ensures c.test == Range ==> (Accepts(c, Number(n)) <==> c.row1.n <= n < c.row2.n)
    ensures c.test == In ==> (Accepts(c, Number(n)) <==> Number(n) in c.inList)
  {
    forall i | 0 <= i < |c.inList| ensures Compare(c.kind, Number(n), c.inList[i]) == 0 <==> c.inList[i] == Number(n) {
    }
  }

  /** A string against strings, which are ordered as TextsCompare says. */
  lemma TextTests(c: Component, s: CString)
    requires c.kind != NumberField && (c.test != In ==> c.row1.Text?) && (c.test == Range ==> c.row2.Text?)
    ensures c.test == Lt ==> (Accepts(c, Text(s)) <==> TextBefore(s, c.row1.s))
    ensures c.test == Le ==> (Accepts(c, Text(s)) <==> TextBefore(s, c.row1.s) || s == c.row1.s)
    ensures c.test == Eq ==> (Accepts(c, Text(s)) <==> s == c.row1.s)
    ensures c.test == Ne ==> (Accepts(c, Text(s)) <==> s != c.row1.s)
    ensures c.test == Ge ==> (Accepts(c, Text(s)) <==> TextBefore(c.row1.s, s) || s == c.row1.s)
    ensures c.test == Gt ==> (Accepts(c, Text(s)) <==> TextBefore(c.row1.s, s))
    ensures c.test == Range ==>
              (Accepts(c, Text(s)) <==> (TextBefore(c.row1.s, s) || s == c.row1.s) && TextBefore(s, c.row2.s))
    ensures c.test == In ==> (Accepts(c, Text(s)) <==> Text(s) in c.inList)
  {
    hide Compare, StrCmp, StartsHigh;
    if c.test == In {
      forall i | 0 <= i < |c.inList| ensures Compare(c.kind, Text(s), c.inList[i]) == 0 <==> c.inList[i] == Text(s) {
        TextOrNull(c.kind, s, c.inList[i]);
      }
    } else {
      TextsCompare(c.kind, s, c.row1.s);
      TextsCompare(c.kind, c.row1.s, s);
      CompareLaws(c.kind, Text(s), c.row1, c.row1);
      if c.test == Range {
        TextsCompare(c.kind, s, c.row2.s);
      }
    }
  }

  lemma TextOrNull(kind: Kind, s: CString, v: Value)
    requires kind != NumberField
    ensures Compare(kind, Text(s), v) == 0 <==> v == Text(s)
  {
    if v.Text? {
      TextsCompare(kind, s, v.s);
    }
  }

  /** Strings that start at or above 0x80 first, then as strcmp has it. */
  predicate TextBefore(a: CString, b: CString) {
    (StartsHigh(a) && !StartsHigh(b)) || ((StartsHigh(a) <==> StartsHigh(b)) && StrCmp(a, b) < 0)
  }

  /** A null field against a value: it is above it, and not equal to it. */
  lemma NullTests(c: Component, v: Value)
    requires !HasValue(c.kind, v) && HasValue(c.kind, c.row1) && HasValue(c.kind, c.row2)
    requires forall i :: 0 <= i < |c.inList| ==> HasValue(c.kind, c.inList[i])
    ensures Accepts(c, v) <==> c.test == Ne || c.test == Ge || c.test == Gt
  {
    forall i | 0 <= i < |c.inList| ensures Compare(c.kind, v, c.inList[i]) != 0 {
      NullsCompare(c.kind, v, c.inList[i]);
    }
    NullsCompare(c.kind, v, c.row1);
    NullsCompare(c.kind, v, c.row2);
  }

  /** A null field against null: equal. */
  lemma NullAgainstNull(c: Component, v: Value)
    requires !HasValue(c.kind, v) && !HasValue(c.kind, c.row1) && c.test != Range && c.test != In
    ensures Accepts(c, v) <==> c.test == Eq || c.test == Le || c.test == Ge
  {
    NullsCompare(c.kind, v, c.row1);
  }

  /** All components but the one numbered `skip` accept the row. */
  ghost predicate Passes(components: seq<Component>, skip: int, data: Data, row: Row) {
    forall i :: 0 <= i < |components| && i != skip ==> Accepts(components[i], ValueOf(data, components[i].field, row))
  }

  /** One turn of the loop of _search_compare. */
  method AcceptsValue(c: Component, v: Value) returns (r: bool)
    ensures r <==> Accepts(c, v)
  {
    match c.test {
      case In =>
        for inIndex := 0 to |c.inList|
          invariant forall i :: 0 <= i < inIndex ==> Compare(c.kind, v, c.inList[i]) != 0
        {
          if Compare(c.kind, v, c.inList[inIndex]) == 0 {
            return true;
          }
        }
        return false;
      case Lt => r := Compare(c.kind, v, c.row1) < 0;
      case Le => r := Compare(c.kind, v, c.row1) <= 0;
      case Eq => r := Compare(c.kind, v, c.row1) == 0;
      case Ne => r := Compare(c.kind, v, c.row1) != 0;
      case Ge => r := Compare(c.kind, v, c.row1) >= 0;
      case Gt => r := Compare(c.kind, v, c.row1) > 0;
      case Range => r := Compare(c.kind, v, c.row1) >= 0 && Compare(c.kind, v, c.row2) < 0;
    }
  }

  /** _search_compare. */
  method SearchCompare(components: seq<Component>, alreadySearched: int, data: Data, row: Row) returns (accepted: bool)
    ensures accepted <==> Passes(components, alreadySearched, data, row)
  {
    hide Accepts;
    for i := 0 to |components|
      invariant forall j :: 0 <= j < i && j != alreadySearched ==>
                  Accepts(components[j], ValueOf(data, components[j].field, row))
    {
      if i == alreadySearched {
        continue;
      }
      var r := AcceptsValue(components[i], ValueOf(data, components[i].field, row));
      if !r {
        return false;
      }
    }
    return true;
  }

  // ----- the scanning rules -----

  datatype SkipStart = StartNone | StartGeRow1 | StartGtRow1 | StartEqRow1 | StartReset
  datatype SkipEnd = EndNone | EndGeRow1 | EndGtRow1 | EndGeRow2
  datatype SkipNext = NextNone | NextRow | NextInList

  /** skipTypes, without the scores. */
  function SkipType(test: Test): (SkipStart, SkipEnd, SkipNext) {
    match test
    case Lt => (StartReset, EndGeRow1, NextRow)
    case Le => (StartReset, EndGtRow1, NextRow)
    case Eq => (StartEqRow1, EndGtRow1, NextRow)
    case Ne => (StartNone, EndNone, NextNone)
    case Ge => (StartGeRow1, EndNone, NextRow)
    case Gt => (StartGtRow1, EndNone, NextRow)
    case Range => (StartGeRow1, EndGeRow2, NextRow)
    case In => (StartReset, EndNone, NextInList)
  }

  /** A node whose key this is lies at or behind the start of the walk. */
  ghost predicate AfterStart(c: Component, v: Value) {
    match SkipType(c.test).0
    case StartGtRow1 => Compare(c.kind, v, c.row1) > 0
    case StartReset => true
    case _ => Compare(c.kind, v, c.row1) >= 0
  }

  /** The walk ends before a node that shows this value. */
  predicate AtEnd(c: Component, v: Value) {
    match SkipType(c.test).1
    case EndGeRow1 => Compare(c.kind, v, c.row1) >= 0
    case EndGtRow1 => Compare(c.kind, v, c.row1) > 0
    case EndGeRow2 => Compare(c.kind, v, c.row2) >= 0
    case EndNone => false
  }

  /** The walk of a range stays between its start and its end exactly where the component accepts. */
  lemma BetweenIsAccepted(c: Component, v: Value)
    requires SkipType(c.test).2 == NextRow
    ensures Accepts(c, v) <==> AfterStart(c, v) && !AtEnd(c, v)
  {
    hide Compare;
  }

  /** Start and end only ever switch on along a level, and every rule sees equal values alike. */
  lemma RulesAreMonotone(c: Component, v: Value, w: Value)
    requires Compare(c.kind, v, w) <= 0
    ensures AfterStart(c, v) ==> AfterStart(c, w)
    ensures AtEnd(c, v) ==> AtEnd(c, w)
  {
    hide Compare;
    CompareLaws(c.kind, v, w, c.row1);
    CompareLaws(c.kind, w, v, c.row1);
    CompareLaws(c.kind, c.row1, v, w);
    CompareLaws(c.kind, c.row2, v, w);
    CompareLaws(c.kind, w, c.row1, v);
    CompareLaws(c.kind, w, c.row2, v);
  }

  lemma EqualValuesAcceptAlike(c: Component, v: Value, w: Value)
    requires Compare(c.kind, v, w) == 0
    ensures Accepts(c, v) <==> Accepts(c, w)
    ensures AtEnd(c, v) <==> AtEnd(c, w)
  {
    hide Compare, InValues, AtEnd;
    CompareLaws(c.kind, w, v, w);
    RulesAreMonotone(c, v, w);
    RulesAreMonotone(c, w, v);
    Congruent(c.kind, v, w, c.row1);
    Congruent(c.kind, v, w, c.row2);
    if InValues(c.kind, v, c.inList) {
      InValuesAlike(c.kind, v, w, c.inList);
    }
    if InValues(c.kind, w, c.inList) {
      InValuesAlike(c.kind, w, v, c.inList);
    }
  }

  lemma Congruent(kind: Kind, v: Value, w: Value, x: Value)
    requires Compare(kind, v, w) == 0
    ensures Compare(kind, v, x) < 0 <==> Compare(kind, w, x) < 0
    ensures Compare(kind, v, x) == 0 <==> Compare(kind, w, x) == 0
  {
    hide Compare;
    CompareLaws(kind, v, w, x);
    CompareLaws(kind, w, v, x);
  }

  lemma InValuesAlike(kind: Kind, v: Value, w: Value, inList: seq<Value>)
    requires Compare(kind, v, w) == 0 && InValues(kind, v, inList)
    ensures InValues(kind, w, inList)
  {
    hide Compare;
    var i :| 0 <= i < |inList| && Compare(kind, v, inList[i]) == 0;
    Congruent(kind, v, w, inList[i]);
  }

  // ----- the nodes to visit -----

  ghost predicate NoRepeats(s: seq<nat>) {
    forall i, j :: 0 <= i < j < |s| ==> s[i] != s[j]
  }

  /** The nodes that a walk has to visit: those whose key the component accepts, each once. */
  ghost predicate RightNodes(c: Component, keys: map<Addr, Value>, L: seq<Addr>, V: seq<Addr>) {
    (forall a :: 0 <= a < |L| ==> L[a] in keys) && NoRepeats(V) &&
    (forall i :: 0 <= i < |V| ==> V[i] in L && V[i] in keys && Accepts(c, keys[V[i]])) &&
    (forall n :: n in L && Accepts(c, keys[n]) ==> n in V)
  }

  /** Where the walk of a range starts and ends. */
  ghost predicate IsRange(c: Component, keys: map<Addr, Value>, L: seq<Addr>, from: nat, to: nat) {
    from <= to <= |L| && (forall a :: 0 <= a < |L| ==> L[a] in keys) &&
    (forall a :: 0 <= a < |L| ==> (a >= from <==> AfterStart(c, keys[L[a]]))) &&
    (forall a :: from <= a < |L| ==> (a >= to <==> AtEnd(c, keys[L[a]])))
  }

  lemma RangeExists(c: Component, keys: map<Addr, Value>, L: seq<Addr>) returns (from: nat, to: nat)
    requires Ascends(c.kind, keys, L)
    ensures IsRange(c, keys, L, from, to)
  {
    hide Compare, AfterStart, AtEnd;
    from := 0;
    while from < |L| && !AfterStart(c, keys[L[from]])
      invariant from <= |L| && forall a :: 0 <= a < from ==> !AfterStart(c, keys[L[a]])
    {
      from := from + 1;
    }
    forall a | from <= a < |L| ensures AfterStart(c, keys[L[a]]) {
      if from < a {
        RulesAreMonotone(c, keys[L[from]], keys[L[a]]);
      }
    }
    to := from;
    while to < |L| && !AtEnd(c, keys[L[to]])
      invariant from <= to <= |L| && forall a :: from <= a < to ==> !AtEnd(c, keys[L[a]])
    {
      to := to + 1;
    }
    forall a | to <= a < |L| ensures AtEnd(c, keys[L[a]]) {
      if to < a {
        RulesAreMonotone(c, keys[L[to]], keys[L[a]]);
      }
    }
  }

  lemma RangeIsRight(c: Component, keys: map<Addr, Value>, L: seq<Addr>, from: nat, to: nat)
    requires SkipType(c.test).2 == NextRow && Ascends(c.kind, keys, L) && IsRange(c, keys, L, from, to)
    ensures RightNodes(c, keys, L, L[from..to])
  {
    hide Compare, AfterStart, AtEnd, Accepts;
    Distinct(c.kind, keys, L);
    var V := L[from..to];
    forall i | 0 <= i < |V| ensures V[i] in L && V[i] in keys && Accepts(c, keys[V[i]]) {
      assert V[i] == L[from + i];
      BetweenIsAccepted(c, keys[V[i]]);
    }
    forall n | n in L && Accepts(c, keys[n]) ensures n in V {
      var a :| 0 <= a < |L| && L[a] == n;
      BetweenIsAccepted(c, keys[n]);
      assert V[a - from] == n;
    }
  }

  /** The nodes of a level whose keys the component accepts, in order. */
  ghost function AcceptedNodes(c: Component, keys: map<Addr, Value>, L: seq<Addr>): seq<Addr> {
    if L == [] then []
    else
      var last := L[|L| - 1];
      AcceptedNodes(c, keys, L[..|L| - 1]) + if last in keys && Accepts(c, keys[last]) then [last] else []
  }

  lemma {:induction false} AcceptedUpTo(c: Component, keys: map<Addr, Value>, L: seq<Addr>, from: nat, to: nat, n: nat)
    requires SkipType(c.test).2 == NextRow && IsRange(c, keys, L, from, to) && n <= |L|
    ensures AcceptedNodes(c, keys, L[..n]) == if n <= from then [] else if n <= to then L[from..n] else L[from..to]
  {
    hide Accepts, AfterStart, AtEnd, AcceptedNodes;
    AcceptedStep(c, keys, L, n);
    if n > 0 {
      AcceptedUpTo(c, keys, L, from, to, n - 1);
      BetweenIsAccepted(c, keys[L[n - 1]]);
    }
  }

  lemma AcceptedStep(c: Component, keys: map<Addr, Value>, L: seq<Addr>, n: nat)
    requires n <= |L|
    ensures AcceptedNodes(c, keys, L[..n]) ==
            if n == 0 then []
            else
              AcceptedNodes(c, keys, L[..n - 1]) +
              if L[n - 1] in keys && Accepts(c, keys[L[n - 1]]) then [L[n - 1]] else []
  {
    hide Accepts;
    if n > 0 {
      assert L[..n][..n - 1] == L[..n - 1];
    }
  }

  /** The walk from its start to its end visits exactly the accepted nodes. */
  lemma RangeIsAccepted(c: Component, keys: map<Addr, Value>, L: seq<Addr>, from: nat, to: nat)
    requires SkipType(c.test).2 == NextRow && IsRange(c, keys, L, from, to)
    ensures AcceptedNodes(c, keys, L) == L[from..to]
  {
    hide IsRange, AcceptedNodes;
    RangeBounds(c, keys, L, from, to);
    AcceptedUpTo(c, keys, L, from, to, |L|);
    assert L[..|L|] == L;
  }

  lemma RangeBounds(c: Component, keys: map<Addr, Value>, L: seq<Addr>, from: nat, to: nat)
    requires IsRange(c, keys, L, from, to)
    ensures from <= to <= |L|
  {
  }

  ghost function NodeOf(kind: Kind, keys: map<Addr, Value>, L: seq<Addr>, key: Value): (n: Addr)
    requires HasKey(kind, L, keys, key)
    ensures n in L && n in keys && Compare(kind, key, keys[n]) == 0
  {
    var n :| n in L && n in keys && Compare(kind, key, keys[n]) == 0;
    n
  }

  /** The nodes that a walk for `in` finds, in the order of its values. */
  ghost function InNodes(kind: Kind, keys: map<Addr, Value>, L: seq<Addr>, inList: seq<Value>): (V: seq<Addr>)
    ensures forall i :: 0 <= i < |V| ==> V[i] in L && V[i] in keys && InValues(kind, keys[V[i]], inList)
  {
    if inList == [] then []
    else
      var rest := InNodes(kind, keys, L, inList[1..]);
      assert forall n :: n in keys && InValues(kind, keys[n], inList[1..]) ==> InValues(kind, keys[n], inList) by {
        hide Compare;
        InValuesMore(kind, inList);
      }
      if HasKey(kind, L, keys, inList[0]) then
        var n := NodeOf(kind, keys, L, inList[0]);
        assert InValues(kind, keys[n], inList) by {
          hide Compare;
          CompareLaws(kind, inList[0], keys[n], inList[0]);
        }
        [n] + rest
      else rest
  }

  lemma InValuesMore(kind: Kind, inList: seq<Value>)
    requires inList != []
    ensures forall v :: InValues(kind, v, inList[1..]) ==> InValues(kind, v, inList)
  {
    hide Compare;
    forall v | InValues(kind, v, inList[1..]) ensures InValues(kind, v, inList) {
      var i :| 0 <= i < |inList[1..]| && Compare(kind, v, inList[1..][i]) == 0;
      assert inList[i + 1] == inList[1..][i];
    }
  }

  /** No value that has a node compares equal to a later value. */
  ghost predicate FoundOnce(kind: Kind, keys: map<Addr, Value>, L: seq<Addr>, inList: seq<Value>) {
    forall i, j :: 0 <= i < j < |inList| && HasKey(kind, L, keys, inList[i]) ==>
        Compare(kind, inList[i], inList[j]) != 0
  }

  lemma {:induction false} InNodesHas(kind: Kind, keys: map<Addr, Value>, L: seq<Addr>, inList: seq<Value>, n: Addr)
    requires Ascends(kind, keys, L) && n in L && n in keys && InValues(kind, keys[n], inList)
    ensures n in InNodes(kind, keys, L, inList)
  {
    hide Compare, Ascends;
    var i :| 0 <= i < |inList| && Compare(kind, keys[n], inList[i]) == 0;
    CompareLaws(kind, keys[n], inList[i], keys[n]);
    if i == 0 {
      assert HasKey(kind, L, keys, inList[0]);
      OnlyNode(kind, keys, L, inList[0], n);
    } else {
      assert inList[1..][i - 1] == inList[i];
      InNodesHas(kind, keys, L, inList[1..], n);
    }
  }

  lemma FoundOnceStep(kind: Kind, keys: map<Addr, Value>, L: seq<Addr>, inList: seq<Value>)
    requires inList != []
    ensures FoundOnce(kind, keys, L, inList) <==>
              FoundOnce(kind, keys, L, inList[1..]) &&
              (HasKey(kind, L, keys, inList[0]) ==>
                forall j :: 0 < j < |inList| ==> Compare(kind, inList[0], inList[j]) != 0)
  {
    hide Compare, HasKey;
    var rest := inList[1..];
    if FoundOnce(kind, keys, L, inList) {
      forall i, j | 0 <= i < j < |rest| && HasKey(kind, L, keys, rest[i]) ensures Compare(kind, rest[i], rest[j]) != 0 {
        assert rest[i] == inList[i + 1] && rest[j] == inList[j + 1];
      }
    }
    if FoundOnce(kind, keys, L, rest) {
      forall i, j | 0 < i < j < |inList| && HasKey(kind, L, keys, inList[i])
        ensures Compare(kind, inList[i], inList[j]) != 0
      {
        assert rest[i - 1] == inList[i] && rest[j - 1] == inList[j];
      }
    }
  }

  /** The node of a value is found again exactly when a later value equals it. */
  lemma FoundAgain(kind: Kind, keys: map<Addr, Value>, L: seq<Addr>, inList: seq<Value>, n: Addr)
    requires Ascends(kind, keys, L) && inList != [] && n in L && n in keys && Compare(kind, inList[0], keys[n]) == 0
    ensures n in InNodes(kind, keys, L, inList[1..]) <==>
              exists j :: 0 < j < |inList| && Compare(kind, inList[0], inList[j]) == 0
  {
    hide Compare, Ascends;
    var rest := inList[1..];
    if n in InNodes(kind, keys, L, rest) {
      var i :| 0 <= i < |rest| && Compare(kind, keys[n], rest[i]) == 0;
      assert rest[i] == inList[i + 1];
      CompareLaws(kind, inList[0], keys[n], inList[i + 1]);
    }
    if j :| 0 < j < |inList| && Compare(kind, inList[0], inList[j]) == 0 {
      CompareLaws(kind, inList[0], keys[n], inList[0]);
      CompareLaws(kind, keys[n], inList[0], inList[j]);
      assert rest[j - 1] == inList[j];
      InNodesHas(kind, keys, L, rest, n);
    }
  }

  /** A walk for `in` finds every node at most once exactly when its values are distinct as far as they are found. */
  lemma {:induction false} InNodesRepeat(kind: Kind, keys: map<Addr, Value>, L: seq<Addr>, inList: seq<Value>)
    requires Ascends(kind, keys, L)
    ensures NoRepeats(InNodes(kind, keys, L, inList)) <==> FoundOnce(kind, keys, L, inList)
  {
    hide Compare, Ascends, FoundOnce;
    if inList == [] {
      NothingFoundTwice(kind, keys, L);
    } else {
      InNodesRepeat(kind, keys, L, inList[1..]);
      FoundOnceStep(kind, keys, L, inList);
      if HasKey(kind, L, keys, inList[0]) {
        var n, rest := NodeOf(kind, keys, L, inList[0]), InNodes(kind, keys, L, inList[1..]);
        FoundAgain(kind, keys, L, inList, n);
        OneMoreOnce(n, rest);
      }
    }
  }

  lemma NothingFoundTwice(kind: Kind, keys: map<Addr, Value>, L: seq<Addr>)
    ensures FoundOnce(kind, keys, L, [])
  {
  }

  lemma OneMoreOnce(n: Addr, rest: seq<Addr>)
    ensures NoRepeats([n] + rest) <==> NoRepeats(rest) && n !in rest
  {
    var all := [n] + rest;
    if NoRepeats(all) {
      forall i, j | 0 <= i < j < |rest| ensures rest[i] != rest[j] {
        assert all[i + 1] == rest[i] && all[j + 1] == rest[j];
      }
      forall i | 0 <= i < |rest| ensures rest[i] != n {
        assert all[0] == n && all[i + 1] == rest[i];
      }
    }
  }

  lemma InNodesAreRight(c: Component, keys: map<Addr, Value>, L: seq<Addr>)
    requires c.test == In && Ascends(c.kind, keys, L) && FoundOnce(c.kind, keys, L, c.inList)
    ensures RightNodes(c, keys, L, InNodes(c.kind, keys, L, c.inList))
  {
    hide Compare, InValues, FoundOnce;
    InNodesRepeat(c.kind, keys, L, c.inList);
    forall n | n in L && Accepts(c, keys[n]) ensures n in InNodes(c.kind, keys, L, c.inList) {
      InNodesHas(c.kind, keys, L, c.inList, n);
    }
  }

  // ----- the rows that a walk selects -----

  /**
   * What is searched for. `others` are the rows that the key pattern, the filters and other comparison types let
   * through.
   */
  datatype Query = Query(components: seq<Component>, others: set<Row>, sort: seq<SortField>, limit: nat, offset: nat)

  ghost predicate SelectedBut(q: Query, skip: int, data: Data, r: Row) {
    r in q.others && Passes(q.components, skip, data, r)
  }

  /** The rows to be found. */
  ghost predicate Selected(q: Query, data: Data, r: Row) {
    SelectedBut(q, -1, data, r)
  }

  /** A row is selected exactly when what is not a component lets it through and every component accepts its value. */
  lemma SelectedMeans(q: Query, data: Data, r: Row)
    ensures Selected(q, data, r) <==>
              r in q.others && forall c :: c in q.components ==> Accepts(c, ValueOf(data, c.field, r))
  {
    hide Accepts, ValueOf;
    if Selected(q, data, r) {
      forall c | c in q.components ensures Accepts(c, ValueOf(data, c.field, r)) {
        var i :| 0 <= i < |q.components| && q.components[i] == c;
      }
    }
  }

  /** Of two rows with 5.0 and 6.0, `!= 5` selects the second, and neither when another filter keeps them out. */
  lemma UnequalInput(q: Query)
    requires q.components == [Component(0, NumberField, Ne, Number(5.0), Null, [])]
    ensures var data := [map[7 := Number(5.0), 8 := Number(6.0)]];
      !Selected(q, data, 7) && (Selected(q, data, 8) <==> 8 in q.others)
  {
    var data: Data := [map[7 := Number(5.0), 8 := Number(6.0)]];
    SelectedMeans(q, data, 7);
    SelectedMeans(q, data, 8);
    NumberTests(q.components[0], 5.0);
    NumberTests(q.components[0], 6.0);
    assert ValueOf(data, 0, 7) == Number(5.0) && ValueOf(data, 0, 8) == Number(6.0);
    assert q.components[0] in q.components;
  }

  /** The rows of a walk, in order, that pass when component `skip` is not tested. */
  ghost function Matching(q: Query, skip: int, data: Data, rows: seq<Row>): (m: seq<Row>)
    ensures |m| <= |rows|
  {
    if rows == [] then []
    else
      var front := Matching(q, skip, data, rows[..|rows| - 1]);
      if SelectedBut(q, skip, data, rows[|rows| - 1]) then front + [rows[|rows| - 1]] else front
  }

  lemma {:induction false} MatchingMore(q: Query, skip: int, data: Data, rows: seq<Row>, more: seq<Row>)
    ensures Matching(q, skip, data, rows) <= Matching(q, skip, data, rows + more)
  {
    hide SelectedBut;
    if more == [] {
      assert rows + more == rows;
    } else {
      var front := more[..|more| - 1];
      MatchingMore(q, skip, data, rows, front);
      assert (rows + more)[..|rows + more| - 1] == rows + front;
    }
  }

  lemma {:induction false} MatchingHas(q: Query, skip: int, data: Data, rows: seq<Row>)
    requires NoRepeats(rows)
    ensures NoRepeats(Matching(q, skip, data, rows))
    ensures forall r :: r in Matching(q, skip, data, rows) <==> r in rows && SelectedBut(q, skip, data, r)
  {
    hide SelectedBut;
    if rows != [] {
      var front, last := rows[..|rows| - 1], rows[|rows| - 1];
      MatchingHas(q, skip, data, front);
      assert rows == front + [last];
      assert last !in front;
    }
  }

  /** The rows of the buckets of some nodes. */
  ghost function RowsOf(lists: map<Addr, seq<Row>>, V: seq<Addr>): seq<Row> {
    if V == [] then []
    else RowsOf(lists, V[..|V| - 1]) + if V[|V| - 1] in lists then lists[V[|V| - 1]] else []
  }

  /** No row is in two lists, nor twice in one. */
  ghost predicate ListsApart(lists: map<Addr, seq<Row>>) {
    (forall n :: n in lists ==> NoRepeats(lists[n])) &&
    forall n, g, r :: n in lists && g in lists && r in lists[n] && r in lists[g] ==> n == g
  }

  lemma MemoryListsApart(m: Memory, lists: map<Addr, seq<Row>>)
    requires LinksInv(m, lists)
    ensures ListsApart(lists)
  {
    forall n | n in lists ensures NoRepeats(lists[n]) {
      assert IsList(m, n, lists[n]);
    }
    hide IsList, LinksInv;
    forall n, g, r | n in lists && g in lists && r in lists[n] && r in lists[g] ensures n == g {
      InOneList(m, lists, n, r);
      InOneList(m, lists, g, r);
    }
  }

  lemma {:induction false} RowsOfHas(lists: map<Addr, seq<Row>>, V: seq<Addr>)
    requires forall i :: 0 <= i < |V| ==> V[i] in lists
    ensures forall r :: r in RowsOf(lists, V) <==> InBucket(lists, V, r)
  {
    if V != [] {
      var front, last := V[..|V| - 1], V[|V| - 1];
      RowsOfHas(lists, front);
      forall r ensures InBucket(lists, V, r) <==> InBucket(lists, front, r) || r in lists[last] {
        if InBucket(lists, V, r) {
          var n :| n in V && n in lists && r in lists[n];
          assert n in front || n == last;
        }
        if InBucket(lists, front, r) {
          var n :| n in front && n in lists && r in lists[n];
          assert n in V;
        }
      }
    }
  }

  lemma {:induction false} RowsOfOnce(lists: map<Addr, seq<Row>>, V: seq<Addr>)
    requires NoRepeats(V) && ListsApart(lists) && forall i :: 0 <= i < |V| ==> V[i] in lists && lists[V[i]] != []
    ensures NoRepeats(RowsOf(lists, V)) && |V| <= |RowsOf(lists, V)|
  {
    if V != [] {
      var front, last := V[..|V| - 1], V[|V| - 1];
      RowsOfOnce(lists, front);
      RowsOfHas(lists, front);
      forall r | r in lists[last] ensures r !in RowsOf(lists, front) {
        assert last !in front;
      }
      JoinOnce(RowsOf(lists, front), lists[last]);
    }
  }

  /** Rows are shown at most once exactly when nodes are visited at most once. */
  lemma {:induction false} RowsOfRepeat(lists: map<Addr, seq<Row>>, V: seq<Addr>)
    requires ListsApart(lists) && forall i :: 0 <= i < |V| ==> V[i] in lists && lists[V[i]] != []
    ensures NoRepeats(RowsOf(lists, V)) <==> NoRepeats(V)
  {
    hide ListsApart;
    if NoRepeats(V) {
      RowsOfOnce(lists, V);
    } else {
      assert V != [];
      var front, last := V[..|V| - 1], V[|V| - 1];
      RowsOfRepeat(lists, front);
      var s, t := RowsOf(lists, front), lists[last];
      if last in front {
        RowsOfHas(lists, front);
        assert InBucket(lists, front, t[0]);
        NotOnce(s, t, t[0]);
      } else {
        FrontOnce(s, t);
      }
    }
  }

  lemma NotOnce(s: seq<Row>, t: seq<Row>, r: Row)
    requires r in s && r in t
    ensures !NoRepeats(s + t)
  {
    var i, j :| 0 <= i < |s| && 0 <= j < |t| && s[i] == t[j] == r;
    assert (s + t)[i] == (s + t)[|s| + j];
  }

  lemma FrontOnce(s: seq<Row>, t: seq<Row>)
    ensures NoRepeats(s + t) ==> NoRepeats(s)
  {
    assert forall i :: 0 <= i < |s| ==> (s + t)[i] == s[i];
  }

  lemma JoinOnce(s: seq<Row>, t: seq<Row>)
    requires NoRepeats(s) && NoRepeats(t) && forall r :: r in t ==> r !in s
    ensures NoRepeats(s + t)
  {
    forall i, j | 0 <= i < j < |s + t| ensures (s + t)[i] != (s + t)[j] {
      if i < |s| <= j {
        assert t[j - |s|] in t;
      }
    }
  }

  /** Rows that do not repeat are no more than the rows they are taken from. */
  lemma {:induction false} NoMoreThan(s: seq<Row>, t: seq<Row>)
    requires NoRepeats(s) && forall r :: r in s ==> r in t
    ensures |s| <= |t|
  {
    if s != [] {
      var last := s[|s| - 1];
      assert last in s;
      var k :| 0 <= k < |t| && t[k] == last;
      var rest := Without(t, k);
      forall r | r in s[..|s| - 1] ensures r in rest {
        assert r in s && r != last;
        var j :| 0 <= j < |t| && t[j] == r;
        assert rest[if j < k then j else j - 1] == r;
      }
      NoMoreThan(s[..|s| - 1], rest);
    }
  }

  /** A complete index of the rows `all`. */
  ghost predicate IndexesAll(kind: Kind, keys: map<Addr, Value>, L: seq<Addr>, lists: map<Addr, seq<Row>>,
           values: map<Row, Value>, all: seq<Row>) {
    Ascends(kind, keys, L) && ListsApart(lists) && NoRepeats(all) &&
    (forall n :: n in L ==> BucketOf(kind, lists, values, keys, n)) &&
    forall r :: r in all <==> InBucket(lists, L, r)
  }

  /** An index whose linked rows are all rows is complete. */
  lemma LinkedRowsAreIndexed(kind: Kind, m: Memory, lists: map<Addr, seq<Row>>, values: map<Row, Value>,
           keys: map<Addr, Value>, L: seq<Addr>, all: seq<Row>)
    requires LinksInv(m, lists) && Ascends(kind, keys, L) && NoRepeats(all) &&
             forall r :: r in all <==> r in LinkedRows(m)
    requires (forall h :: h in lists <==> h == HEAD || h in L) && lists[HEAD] == []
    requires forall n :: n in L ==> BucketOf(kind, lists, values, keys, n)
    ensures IndexesAll(kind, keys, L, lists, values, all)
  {
    hide LinksInv, LinkedRows, Ascends, BucketOf, ListsApart;
    MemoryListsApart(m, lists);
    forall r ensures r in all <==> InBucket(lists, L, r) {
      LinkedIsListed(m, lists, r);
      if InSomeList(lists, r) {
        var h :| h in lists && r in lists[h];
        assert h in L;
      }
    }
  }

  /** The rows in the buckets of the right nodes are exactly those that the component accepts. */
  lemma RightNodesShow(c: Component, keys: map<Addr, Value>, L: seq<Addr>, V: seq<Addr>, lists: map<Addr, seq<Row>>,
           data: Data, all: seq<Row>)
    requires c.field < |data| && IndexesAll(c.kind, keys, L, lists, data[c.field], all) && RightNodes(c, keys, L, V)
    ensures NoRepeats(RowsOf(lists, V)) && |V| <= |RowsOf(lists, V)| <= |all|
    ensures forall r :: r in RowsOf(lists, V) <==> r in all && Accepts(c, ValueOf(data, c.field, r))
  {
    hide Accepts, Ascends, Compare;
    RowsOfHas(lists, V);
    RowsOfOnce(lists, V);
    forall r ensures r in RowsOf(lists, V) <==> r in all && Accepts(c, ValueOf(data, c.field, r)) {
      if r in all {
        var n :| n in L && n in lists && r in lists[n];
        BucketAccepts(c, keys, lists, data, n, r);
        if InBucket(lists, V, r) {
          var g :| g in V && g in lists && r in lists[g];
          assert g == n;
        }
      }
    }
    NoMoreThan(RowsOf(lists, V), all);
  }

  lemma BucketAccepts(c: Component, keys: map<Addr, Value>, lists: map<Addr, seq<Row>>, data: Data, n: Addr, r: Row)
    requires c.field < |data| && BucketOf(c.kind, lists, data[c.field], keys, n) && r in lists[n]
    ensures Accepts(c, ValueOf(data, c.field, r)) <==> Accepts(c, keys[n])
    ensures AtEnd(c, ValueOf(data, c.field, r)) <==> AtEnd(c, keys[n])
  {
    hide Accepts, Compare, AtEnd;
    EqualValuesAcceptAlike(c, data[c.field][r], keys[n]);
  }

  /** `full` has exactly the rows of `all` that the query selects, each once. */
  ghost predicate Answers(q: Query, data: Data, all: seq<Row>, full: seq<Row>) {
    NoRepeats(full) && forall r :: r in full <==> r in all && Selected(q, data, r)
  }

  /**
   * Walking the right nodes of one component's index, with that component skipped, finds what a scan of all rows finds.
   */
  lemma SkipWalkAnswers(q: Query, chosen: nat, data: Data, keys: map<Addr, Value>, L: seq<Addr>, V: seq<Addr>,
           lists: map<Addr, seq<Row>>, all: seq<Row>)
    requires chosen < |q.components| && q.components[chosen].field < |data|
    requires IndexesAll(q.components[chosen].kind, keys, L, lists, data[q.components[chosen].field], all)
    requires RightNodes(q.components[chosen], keys, L, V)
    ensures Answers(q, data, all, Matching(q, chosen, data, RowsOf(lists, V)))
  {
    hide Accepts, IndexesAll, RightNodes, RowsOf, Matching;
    RightNodesShow(q.components[chosen], keys, L, V, lists, data, all);
    MatchingHas(q, chosen, data, RowsOf(lists, V));
  }

  lemma ScanAnswers(q: Query, data: Data, all: seq<Row>)
    requires NoRepeats(all)
    ensures Answers(q, data, all, Matching(q, -1, data, all))
  {
    MatchingHas(q, -1, data, all);
  }

  // ----- the order of a walk -----

  /** The rows are in ascending order of the component's field. */
  ghost predicate InOrder(kind: Kind, field: nat, data: Data, rows: seq<Row>) {
    forall i, j :: 0 <= i < j < |rows| ==>
        Compare(kind, ValueOf(data, field, rows[i]), ValueOf(data, field, rows[j])) <= 0
  }

  lemma {:induction false} MatchingInOrder(q: Query, skip: int, data: Data, kind: Kind, field: nat, rows: seq<Row>)
    requires InOrder(kind, field, data, rows) && NoRepeats(rows)
    ensures InOrder(kind, field, data, Matching(q, skip, data, rows))
  {
    hide SelectedBut, Compare, ValueOf;
    if rows != [] {
      var front, last := rows[..|rows| - 1], rows[|rows| - 1];
      MatchingInOrder(q, skip, data, kind, field, front);
      MatchingHas(q, skip, data, front);
      var m := Matching(q, skip, data, front);
      forall i | 0 <= i < |m| ensures Compare(kind, ValueOf(data, field, m[i]), ValueOf(data, field, last)) <= 0 {
        assert m[i] in front;
        var k :| 0 <= k < |front| && front[k] == m[i];
        assert rows[k] == m[i];
      }
    }
  }

  /** A walk over ascending nodes shows its rows in order. */
  lemma {:induction false} RowsOfInOrder(kind: Kind, field: nat, keys: map<Addr, Value>, lists: map<Addr, seq<Row>>,
           data: Data, V: seq<Addr>)
    requires field < |data| && Ascends(kind, keys, V) &&
             forall n :: n in V ==> BucketOf(kind, lists, data[field], keys, n)
    ensures InOrder(kind, field, data, RowsOf(lists, V))
  {
    hide Compare, BucketOf;
    if V != [] {
      var front, last := V[..|V| - 1], V[|V| - 1];
      assert Ascends(kind, keys, front) && forall n :: n in front ==> n in V;
      RowsOfInOrder(kind, field, keys, lists, data, front);
      forall n | n in V ensures n in lists { BucketHas(kind, lists, data[field], keys, n); }
      RowsOfHas(lists, front);
      var s, t := RowsOf(lists, front), lists[last];
      forall r, x | r in s && x in t ensures Compare(kind, ValueOf(data, field, r), ValueOf(data, field, x)) <= 0 {
        assert InBucket(lists, front, r);
        var n :| n in front && n in lists && r in lists[n];
        NodesInOrder(kind, lists, data[field], keys, n, last, r, x);
      }
      BucketInOrder(kind, field, keys, lists, data, last);
      JoinInOrder(kind, field, data, s, t);
    }
  }

  lemma BucketInOrder(kind: Kind, field: nat, keys: map<Addr, Value>, lists: map<Addr, seq<Row>>, data: Data, n: Addr)
    requires field < |data| && BucketOf(kind, lists, data[field], keys, n)
    ensures InOrder(kind, field, data, lists[n])
  {
    hide Compare, BucketOf;
    BucketHas(kind, lists, data[field], keys, n);
    var t := lists[n];
    forall i, j | 0 <= i < j < |t| ensures Compare(kind, ValueOf(data, field, t[i]), ValueOf(data, field, t[j])) <= 0 {
      assert t[i] in t && t[j] in t;
      NodesInOrder(kind, lists, data[field], keys, n, n, t[i], t[j]);
    }
  }

  lemma JoinInOrder(kind: Kind, field: nat, data: Data, s: seq<Row>, t: seq<Row>)
    requires InOrder(kind, field, data, s) && InOrder(kind, field, data, t)
    requires forall r, x :: r in s && x in t ==> Compare(kind, ValueOf(data, field, r), ValueOf(data, field, x)) <= 0
    ensures InOrder(kind, field, data, s + t)
  {
    hide Compare, ValueOf;
    var u := s + t;
    forall i, j | 0 <= i < j < |u| ensures Compare(kind, ValueOf(data, field, u[i]), ValueOf(data, field, u[j])) <= 0 {
      if i < |s| <= j {
        assert s[i] in s && t[j - |s|] in t;
      }
    }
  }

  lemma BucketHas(kind: Kind, lists: map<Addr, seq<Row>>, values: map<Row, Value>, keys: map<Addr, Value>, n: Addr)
    requires BucketOf(kind, lists, values, keys, n)
    ensures n in lists && n in keys && lists[n] != []
  {
  }

  lemma NodesInOrder(kind: Kind, lists: map<Addr, seq<Row>>, values: map<Row, Value>, keys: map<Addr, Value>, n: Addr,
           g: Addr, r: Row, s: Row)
    requires BucketOf(kind, lists, values, keys, n) && BucketOf(kind, lists, values, keys, g) && r in lists[n] &&
             s in lists[g]
    requires n == g || Compare(kind, keys[n], keys[g]) < 0
    ensures r in values && s in values && Compare(kind, values[r], values[s]) <= 0
  {
    hide Compare;
    CompareLaws(kind, values[r], keys[n], keys[g]);
    CompareLaws(kind, values[s], keys[g], values[s]);
    CompareLaws(kind, values[r], keys[g], values[s]);
  }

  // ----- a whole walk -----

  lemma {:induction false} RowsOfPrefix(lists: map<Addr, seq<Row>>, V: seq<Addr>, j: nat)
    requires j <= |V|
    ensures RowsOf(lists, V[..j]) <= RowsOf(lists, V)
  {
    if j == |V| {
      assert V[..j] == V;
    } else {
      RowsOfPrefix(lists, V[..|V| - 1], j);
      assert V[..|V| - 1][..j] == V[..j];
    }
  }

  /** One more node of the walk: its bucket's rows come next. */
  lemma NextBucket(q: Query, skip: int, data: Data, lists: map<Addr, seq<Row>>, V: seq<Addr>, j: nat)
    requires j < |V| && V[j] in lists
    ensures var before := RowsOf(lists, V[..j]);
      RowsOf(lists, V[..j + 1]) == before + lists[V[j]] && |before| + |lists[V[j]]| <= |RowsOf(lists, V)|
    ensures Matching(q, skip, data, RowsOf(lists, V[..j + 1])) <= Matching(q, skip, data, RowsOf(lists, V))
  {
    hide SelectedBut, Matching;
    RowsOfPrefix(lists, V, j + 1);
    var rows, whole := RowsOf(lists, V[..j + 1]), RowsOf(lists, V);
    MatchingMore(q, skip, data, rows, whole[|rows|..]);
    assert V[..j + 1][..j] == V[..j];
    assert rows + whole[|rows|..] == whole;
  }

  lemma NothingBefore(q: Query, skip: int, data: Data, lists: map<Addr, seq<Row>>, V: seq<Addr>)
    ensures Matching(q, skip, data, RowsOf(lists, V[..0])) == []
  {
  }

  /** The nodes that a walk for the component visits, in order. */
  ghost function VisitedNodes(c: Component, keys: map<Addr, Value>, L: seq<Addr>): seq<Addr> {
    if c.test == In then InNodes(c.kind, keys, L, c.inList) else AcceptedNodes(c, keys, L)
  }

  /** Those that it gets to in as many turns as a table of `count` rows allows. */
  ghost function ReachedNodes(c: Component, keys: map<Addr, Value>, L: seq<Addr>, count: nat): seq<Addr> {
    var V := VisitedNodes(c, keys, L);
    if |V| > count then V[..count + 1] else V
  }

  /** It visits none of them twice. */
  ghost predicate VisitsOnce(c: Component, keys: map<Addr, Value>, L: seq<Addr>) {
    c.test == In ==> FoundOnce(c.kind, keys, L, c.inList)
  }

  /** The rows that it shows, in order. */
  ghost function ShownRows(c: Component, keys: map<Addr, Value>, L: seq<Addr>, lists: map<Addr, seq<Row>>): seq<Row> {
    RowsOf(lists, VisitedNodes(c, keys, L))
  }

  lemma VisitedAreRight(c: Component, keys: map<Addr, Value>, L: seq<Addr>)
    requires c.test != Ne && Ascends(c.kind, keys, L) && VisitsOnce(c, keys, L)
    ensures RightNodes(c, keys, L, VisitedNodes(c, keys, L))
  {
    hide Compare, IsRange, RightNodes, FoundOnce, AcceptedNodes;
    if c.test == In {
      InNodesAreRight(c, keys, L);
    } else {
      var from, to := RangeExists(c, keys, L);
      RangeBounds(c, keys, L, from, to);
      RangeIsRight(c, keys, L, from, to);
      RangeIsAccepted(c, keys, L, from, to);
    }
  }

  /** A walk shows a row twice exactly when its component is an `in` list that repeats a value which is found. */
  lemma ShownOnce(c: Component, keys: map<Addr, Value>, L: seq<Addr>, lists: map<Addr, seq<Row>>,
           values: map<Row, Value>, all: seq<Row>)
    requires c.test != Ne && IndexesAll(c.kind, keys, L, lists, values, all)
    ensures NoRepeats(ShownRows(c, keys, L, lists)) <==> VisitsOnce(c, keys, L)
  {
    hide Compare, Ascends, Accepts, FoundOnce, InNodes, AcceptedNodes, BucketOf, ListsApart, RowsOf;
    var V := VisitedNodes(c, keys, L);
    VisitedInLevel(c, keys, L);
    forall i | 0 <= i < |V| ensures V[i] in lists && lists[V[i]] != [] {
      assert V[i] in L;
      BucketHas(c.kind, lists, values, keys, V[i]);
    }
    RowsOfRepeat(lists, V);
    if c.test == In {
      InNodesRepeat(c.kind, keys, L, c.inList);
    } else {
      VisitedAreRight(c, keys, L);
    }
  }

  lemma VisitedInLevel(c: Component, keys: map<Addr, Value>, L: seq<Addr>)
    requires c.test != Ne && Ascends(c.kind, keys, L)
    ensures forall n :: n in VisitedNodes(c, keys, L) ==> n in L
  {
    hide Compare, IsRange, AcceptedNodes;
    if c.test != In {
      var from, to := RangeExists(c, keys, L);
      RangeBounds(c, keys, L, from, to);
      RangeIsAccepted(c, keys, L, from, to);
    }
  }

  /** A complete index of one row has one node. */
  lemma OneRowIndex(kind: Kind, keys: map<Addr, Value>, L: seq<Addr>, lists: map<Addr, seq<Row>>,
           values: map<Row, Value>, r: Row) returns (n: Addr)
    requires IndexesAll(kind, keys, L, lists, values, [r])
    ensures L == [n] && n in lists && lists[n] == [r]
    ensures r in values && n in keys && Compare(kind, values[r], keys[n]) == 0
  {
    hide Compare, ListsApart;
    assert r in [r];
    n :| n in L && n in lists && r in lists[n];
    forall g | g in L ensures g == n && forall x :: x in lists[g] ==> x == r {
      assert BucketOf(kind, lists, values, keys, g);
      forall x | x in lists[g] ensures x == r {
        assert InBucket(lists, L, x);
      }
      assert lists[g][0] in lists[g];
      OnlyList(lists, g, n, r);
    }
    Distinct(kind, keys, L);
    NoMoreThan(L, [n]);
    OnlyElement(lists, n, r);
  }

  lemma OnlyList(lists: map<Addr, seq<Row>>, g: Addr, n: Addr, r: Row)
    requires ListsApart(lists) && g in lists && n in lists && r in lists[g] && r in lists[n]
    ensures g == n
  {
  }

  lemma OnlyElement(lists: map<Addr, seq<Row>>, n: Addr, r: Row)
    requires ListsApart(lists) && n in lists && r in lists[n] && forall x :: x in lists[n] ==> x == r
    ensures lists[n] == [r]
  {
    NoMoreThan(lists[n], [r]);
  }

  /** One row with the value 5.0, and `in {5.0 5.0}`: the walk shows it twice, in a table with room for one. */
  lemma RepeatedValueInput(keys: map<Addr, Value>, L: seq<Addr>, lists: map<Addr, seq<Row>>, values: map<Row, Value>,
           r: Row)
    requires IndexesAll(NumberField, keys, L, lists, values, [r]) && r in values && values[r] == Number(5.0)
    ensures var c := Component(0, NumberField, In, Null, Null, [Number(5.0), Number(5.0)]);
      |VisitedNodes(c, keys, L)| == 2 && ShownRows(c, keys, L, lists) == [r, r]
  {
    hide IndexesAll;
    var v := Number(5.0);
    var n := OneRowIndex(NumberField, keys, L, lists, values, r);
    assert InNodes(NumberField, keys, L, [v, v]) == [n, n] by {
      hide Compare, HasKey;
      OnlyNodeFound(keys, L, v, n, [v, v]);
      OnlyNodeFound(keys, L, v, n, [v]);
      assert [v, v][1..] == [v] && [v][1..] == [];
    }
    hide InNodes;
    assert [n, n][..1] == [n] && RowsOf(lists, [n]) == RowsOf(lists, []) + [r] == [r];
    assert RowsOf(lists, [n, n]) == RowsOf(lists, [n]) + [r];
  }

  lemma OnlyNodeFound(keys: map<Addr, Value>, L: seq<Addr>, v: Value, n: Addr, inList: seq<Value>)
    requires L == [n] && n in keys && Compare(NumberField, v, keys[n]) == 0 && inList != [] && inList[0] == v
    ensures InNodes(NumberField, keys, L, inList) == [n] + InNodes(NumberField, keys, L, inList[1..])
  {
    assert n in L;
    assert HasKey(NumberField, L, keys, v) && NodeOf(NumberField, keys, L, v) == n;
  }

  /** What the walk of the chosen component leads to, when it visits no node twice. */
  lemma PlanAnswers(q: Query, chosen: nat, data: Data, keys: map<Addr, Value>, L: seq<Addr>, lists: map<Addr, seq<Row>>,
           all: seq<Row>)
    requires chosen < |q.components| && q.components[chosen].field < |data| && q.components[chosen].test != Ne
    requires IndexesAll(q.components[chosen].kind, keys, L, lists, data[q.components[chosen].field], all)
    requires VisitsOnce(q.components[chosen], keys, L)
    ensures var c := q.components[chosen];
      Answers(q, data, all, Matching(q, chosen, data, ShownRows(c, keys, L, lists))) &&
      |VisitedNodes(c, keys, L)| <= |ShownRows(c, keys, L, lists)| <= |all|
  {
    hide Compare, Accepts, Ascends, BucketOf, ListsApart, RowsOf, Matching, VisitedNodes, VisitsOnce, Answers;
    hide RightNodes;
    var c := q.components[chosen];
    VisitedAreRight(c, keys, L);
    RightNodesShow(c, keys, L, VisitedNodes(c, keys, L), lists, data, all);
    SkipWalkAnswers(q, chosen, data, keys, L, VisitedNodes(c, keys, L), lists, all);
  }

  /** Where the walk of a range starts, and the order in which it shows its rows. */
  lemma PlanRange(q: Query, chosen: nat, data: Data, keys: map<Addr, Value>, L: seq<Addr>, lists: map<Addr, seq<Row>>,
           all: seq<Row>)
    returns (from: nat)
    requires chosen < |q.components| && q.components[chosen].field < |data| &&
             SkipType(q.components[chosen].test).2 == NextRow
    requires IndexesAll(q.components[chosen].kind, keys, L, lists, data[q.components[chosen].field], all)
    ensures var c := q.components[chosen]; var V := VisitedNodes(c, keys, L);
      IsRange(c, keys, L, from, from + |V|) && V == L[from..from + |V|] &&
      InOrder(c.kind, c.field, data, Matching(q, chosen, data, ShownRows(c, keys, L, lists)))
  {
    hide Compare, Accepts, Ascends, IsRange, BucketOf, ListsApart, RowsOf, Matching, InNodes, AcceptedNodes, InOrder;
    hide RightNodes;
    var c := q.components[chosen];
    var to;
    from, to := RangeExists(c, keys, L);
    RangeBounds(c, keys, L, from, to);
    RangeIsAccepted(c, keys, L, from, to);
    RangeIsRight(c, keys, L, from, to);
    RightNodesShow(c, keys, L, L[from..to], lists, data, all);
    AscendsSlice(c.kind, keys, L, from, to);
    RowsOfInOrder(c.kind, c.field, keys, lists, data, L[from..to]);
    MatchingInOrder(q, chosen, data, c.kind, c.field, RowsOf(lists, L[from..to]));
  }

  lemma AscendsSlice(kind: Kind, keys: map<Addr, Value>, L: seq<Addr>, from: nat, to: nat)
    requires Ascends(kind, keys, L) && from <= to <= |L|
    ensures Ascends(kind, keys, L[from..to])
  {
    hide Compare;
  }
}
