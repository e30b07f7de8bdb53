// Tab-separated rows with URI quoting: the generated writer and reader of ctables/gentable.tcl, for tables
// of string columns and no null string.

module TabSeparated {
  import opened Options
  import opened Quoting

  const NEWLINE: Byte := 10

  predicate StandsAt(s: seq<Byte>, q: nat, sep: seq<Byte>) {
    q + |sep| <= |s| && s[q..q + |sep|] == sep
  }

  /** strstr: the first place at or after `from` where `sep` stands. */
  function Strstr(s: seq<Byte>, from: nat, sep: seq<Byte>): (r: Option<nat>)
    requires from <= |s|
    ensures r.Some? ==> from <= r.value && StandsAt(s, r.value, sep)
    ensures forall q: nat :: from <= q && (r.Some? ==> q < r.value) ==> !StandsAt(s, q, sep)
    decreases |s| - from
  {
    if StandsAt(s, from, sep) then Some(from)
    else if from == |s| then None
    else Strstr(s, from + 1, sep)
  }

  // ----- writing -----

  function Join(parts: seq<seq<Byte>>, sep: seq<Byte>): seq<Byte> {
    if parts == [] then [] else if |parts| == 1 then parts[0] else parts[0] + sep + Join(parts[1..], sep)
  }

  function QuoteAll(texts: seq<seq<Byte>>, strict: bool, sep: seq<Byte>): (r: seq<seq<Byte>>)
    ensures |r| == |texts|
    ensures forall i :: 0 <= i < |texts| ==> r[i] == Quote(texts[i], strict, sep)
  {
    seq(|texts|, i requires 0 <= i < |texts| => Quote(texts[i], strict, sep))
  }

  /** The columns of a row: the key, unless it is left out, and the fields. */
  function Columns(key: seq<Char>, fields: seq<seq<Char>>, noKeys: bool): seq<seq<Char>> {
    if noKeys then fields else [key] + fields
  }

  /** The field loop of dstring_append_get_tabsep, onto a line that holds the columns `all[..n]`. */
  method AppendFields(start: seq<Byte>, fields: seq<seq<Char>>, noKeys: bool, sep: seq<Byte>, strict: bool,
           ghost all: seq<seq<Byte>>)
    returns (line: seq<Byte>)
    requires var n := if noKeys then 0 else 1;
      |all| == n + |fields| && start == Join(all[..n], sep) &&
      forall i :: 0 <= i < |fields| ==> all[n + i] == Quote(fields[i], strict, sep)
    ensures line == Join(all, sep)
  {
    hide Join, Quote;
    ghost var n := if noKeys then 0 else 1;
    line := start;
    for i := 0 to |fields|
      invariant line == Join(all[..n + i], sep)
    {
      JoinSnoc(all[..n + i], all[n + i], sep);
      assert all[..n + i + 1] == all[..n + i] + [all[n + i]];
      if !noKeys || i > 0 {
        line := line + sep;
      } else {
        JoinNothing(sep);
      }
      line := line + Quote(fields[i], strict, sep);
    }
    assert all[..|all|] == all;
  }

  /** dstring_append_get_tabsep. */
  method AppendRow(key: seq<Char>, fields: seq<seq<Char>>, noKeys: bool, sep: seq<Byte>, strict: bool)
    returns (line: seq<Byte>)
    ensures line == Join(QuoteAll(Columns(key, fields, noKeys), strict, sep), sep) + [NEWLINE]
  {
    hide Quote;
    ghost var all := QuoteAll(Columns(key, fields, noKeys), strict, sep);
    line := [];
    if !noKeys {
      line := line + Quote(key, strict, sep);
      assert all[..1] == [Quote(key, strict, sep)];
    }
    line := AppendFields(line, fields, noKeys, sep, strict, all);
    line := line + [NEWLINE];
  }

  lemma JoinNothing(sep: seq<Byte>)
    ensures Join([], sep) == []
  {
  }

  lemma {:induction false} JoinSnoc(parts: seq<seq<Byte>>, part: seq<Byte>, sep: seq<Byte>)
    ensures Join(parts + [part], sep) == if parts == [] then part else Join(parts, sep) + sep + part
    decreases |parts|
  {
    if |parts| >= 1 {
      assert (parts + [part])[1..] == parts[1..] + [part];
      JoinSnoc(parts[1..], part, sep);
    }
  }

  // ----- reading -----

  /** Where column `k` of the line begins, if it has that many. */
  function ColumnStart(line: seq<Byte>, sep: seq<Byte>, k: nat): (r: Option<nat>)
    ensures r.Some? ==> r.value <= |line|
  {
    if k == 0 then Some(0)
    else match ColumnStart(line, sep, k - 1)
      case None => None
      case Some(p) =>
        match Strstr(line, p, sep)
        case None => None
        case Some(q) => Some(q + |sep|)
  }

  function ColumnEnd(line: seq<Byte>, sep: seq<Byte>, p: nat): (r: nat)
    requires p <= |line|
    ensures p <= r <= |line|
  {
    match Strstr(line, p, sep)
    case None => |line|
    case Some(q) => q
  }

  /** The text of column `k`; a missing column reads as empty. */
  function ColumnText(line: seq<Byte>, sep: seq<Byte>, k: nat): seq<Byte> {
    match ColumnStart(line, sep, k)
    case None => []
    case Some(p) => line[p..ColumnEnd(line, sep, p)]
  }

  /** A field is dequoted from a copy of its own text. */
  function FieldText(line: seq<Byte>, sep: seq<Byte>, k: nat, strict: bool): Option<seq<Byte>> {
    var text := ColumnText(line, sep, k);
    Dequote(text + [0], |text|, strict)
  }

  /** The key is dequoted where it stands, with the rest of the line behind it. */
  function KeyText(line: seq<Byte>, sep: seq<Byte>, k: nat, strict: bool): Option<seq<Byte>> {
    match ColumnStart(line, sep, k)
    case None => Some([])
    case Some(p) => Dequote(line[p..] + [0], ColumnEnd(line, sep, p) - p, strict)
  }

  /** The column that field `col` is read from: the key's column is passed over. */
  function FieldColumn(col: nat, keyColumn: int): nat {
    if 0 <= keyColumn <= col then col + 1 else col
  }

  datatype Assignment = Assignment(field: int, value: seq<Byte>)

  /** The assignments made for fields `from`.., or none when strict dequoting rejects one of them. */
  function Assignments(line: seq<Byte>, fieldIds: seq<int>, keyColumn: int, sep: seq<Byte>, strict: bool,
           from: nat): Option<seq<Assignment>>
    requires from <= |fieldIds|
    decreases |fieldIds| - from
  {
    if from == |fieldIds| then Some([])
    else if fieldIds[from] == -1 then Assignments(line, fieldIds, keyColumn, sep, strict, from + 1)
    else
      match FieldText(line, sep, FieldColumn(from, keyColumn), strict)
      case None => None
      case Some(v) =>
        match Assignments(line, fieldIds, keyColumn, sep, strict, from + 1)
        case None => None
        case Some(rest) => Some([Assignment(fieldIds[from], v)] + rest)
  }

  /** The column loop of set_from_tabsep for the key: skip `keyColumn` separators. */
  method ReadKey(line: seq<Byte>, keyColumn: nat, sep: seq<Byte>, strict: bool) returns (key: Option<seq<Byte>>)
    ensures key == KeyText(line, sep, keyColumn, strict)
  {
    hide Strstr, Dequote;
    var p := Some(0);
    var i := 0;
    while p.Some? && i < keyColumn
      invariant i <= keyColumn && p == ColumnStart(line, sep, i)
    {
      var q := Strstr(line, p.value, sep);
      p := if q.Some? then Some(q.value + |sep|) else None;
      i := i + 1;
    }
    if p.None? {
      StaysMissing(line, sep, i, keyColumn);
      return Some([]);
    }
    key := Dequote(line[p.value..] + [0], ColumnEnd(line, sep, p.value) - p.value, strict);
  }

  lemma {:induction false} StaysMissing(line: seq<Byte>, sep: seq<Byte>, i: nat, k: nat)
    requires i <= k && ColumnStart(line, sep, i).None?
    ensures ColumnStart(line, sep, k).None?
  {
    if i < k {
      StaysMissing(line, sep, i, k - 1);
    }
  }

  /** The field loop of set_from_tabsep: every column but the key's, in order, skipping fields numbered -1. */
  method ReadFields(line: seq<Byte>, fieldIds: seq<int>, keyColumn: int, sep: seq<Byte>, strict: bool)
    returns (r: Option<seq<Assignment>>)
    requires keyColumn >= -1
    ensures r == Assignments(line, fieldIds, keyColumn, sep, strict, 0)
  {
    hide Strstr, Dequote, Assignments;
    var p: Option<nat> := Some(0);
    var i, col := 0, 0;
    var done: seq<Assignment> := [];
    AssignNothing(Assignments(line, fieldIds, keyColumn, sep, strict, 0));
    while col < |fieldIds|
      invariant col <= |fieldIds| && p == ColumnStart(line, sep, i)
      invariant i == FieldColumn(col, keyColumn) || i == keyColumn == col
      invariant Assignments(line, fieldIds, keyColumn, sep, strict, 0) ==
                AssignMore(done, Assignments(line, fieldIds, keyColumn, sep, strict, col))
      decreases |fieldIds| - col, keyColumn - i
    {
      var text := [];
      var column := i;
      if p.Some? {
        var q := Strstr(line, p.value, sep);
        text := line[p.value..if q.Some? then q.value else |line|];
        p := if q.Some? then Some(q.value + |sep|) else None;
      }
      assert text == ColumnText(line, sep, column);
      i := i + 1;
      if column == keyColumn {
        continue;
      }
      if fieldIds[col] != -1 {
        var value := Dequote(text + [0], |text|, strict);
        AssignStep(done, line, fieldIds, keyColumn, sep, strict, col);
        if value.None? {
          return None;
        }
        done := done + [Assignment(fieldIds[col], value.value)];
      } else {
        AssignStep(done, line, fieldIds, keyColumn, sep, strict, col);
      }
      col := col + 1;
    }
    AssignStep(done, line, fieldIds, keyColumn, sep, strict, col);
    return Some(done);
  }

  function AssignMore(done: seq<Assignment>, r: Option<seq<Assignment>>): Option<seq<Assignment>> {
    match r
    case None => None
    case Some(rest) => Some(done + rest)
  }

  lemma AssignNothing(r: Option<seq<Assignment>>)
    ensures AssignMore([], r) == r
  {
    if r.Some? {
      assert [] + r.value == r.value;
    }
  }

  lemma AssignStep(done: seq<Assignment>, line: seq<Byte>, fieldIds: seq<int>, keyColumn: int, sep: seq<Byte>,
           strict: bool, col: nat)
    requires col <= |fieldIds|
    ensures var r := AssignMore(done, Assignments(line, fieldIds, keyColumn, sep, strict, col));
      if col == |fieldIds| then r == Some(done)
      else
        var next := Assignments(line, fieldIds, keyColumn, sep, strict, col + 1);
        var value := FieldText(line, sep, FieldColumn(col, keyColumn), strict);
        if fieldIds[col] == -1 then r == AssignMore(done, next)
        else if value.None? then r == None
        else r == AssignMore(done + [Assignment(fieldIds[col], value.value)], next)
  {
    if col == |fieldIds| {
      assert done + [] == done;
    } else if fieldIds[col] != -1 {
      var next := Assignments(line, fieldIds, keyColumn, sep, strict, col + 1);
      var value := FieldText(line, sep, FieldColumn(col, keyColumn), strict);
      if value.Some? && next.Some? {
        var a := Assignment(fieldIds[col], value.value);
        assert done + ([a] + next.value) == (done + [a]) + next.value;
      }
    }
  }

  // ----- reading back what was written -----

  lemma NotWithoutFirstByte(s: seq<Byte>, q: nat, sep: seq<Byte>)
    requires sep != [] && (q < |s| ==> s[q] != sep[0])
    ensures !StandsAt(s, q, sep)
  {
    if q + |sep| <= |s| {
      assert s[q..q + |sep|][0] == s[q];
    }
  }

  /** The separator cannot begin inside a text that lacks its first byte. */
  lemma StrstrSkipsText(line: seq<Byte>, p: nat, part: seq<Byte>, sep: seq<Byte>, rest: seq<Byte>)
    requires sep != [] && p <= |line| && line[p..] == part + sep + rest && sep[0] !in part
    ensures Strstr(line, p, sep) == Some(p + |part|)
  {
    assert line[p + |part|..p + |part| + |sep|] == line[p..][|part|..|part| + |sep|] == sep;
    assert StandsAt(line, p + |part|, sep);
    forall q: nat | p <= q < p + |part| ensures !StandsAt(line, q, sep) {
      assert line[q] == line[p..][q - p] == part[q - p];
      NotWithoutFirstByte(line, q, sep);
    }
  }

  lemma StrstrFindsNothing(line: seq<Byte>, p: nat, part: seq<Byte>, sep: seq<Byte>)
    requires sep != [] && p <= |line| && line[p..] == part && sep[0] !in part
    ensures Strstr(line, p, sep) == None
  {
    forall q: nat | p <= q ensures !StandsAt(line, q, sep) {
      if q < |line| {
        assert line[q] == line[p..][q - p];
      }
      NotWithoutFirstByte(line, q, sep);
    }
  }

  ghost predicate FreeOf(parts: seq<seq<Byte>>, c: Byte) {
    forall i :: 0 <= i < |parts| ==> c !in parts[i]
  }

  lemma JoinFrom(parts: seq<seq<Byte>>, sep: seq<Byte>, k: nat)
    requires k < |parts|
    ensures Join(parts[k..], sep) == if k + 1 == |parts| then parts[k] else parts[k] + sep + Join(parts[k + 1..], sep)
  {
    assert parts[k..][1..] == parts[k + 1..];
  }

  lemma BehindSeparator(line: seq<Byte>, p: nat, part: seq<Byte>, sep: seq<Byte>, rest: seq<Byte>)
    requires p <= |line| && line[p..] == part + sep + rest
    ensures p + |part| + |sep| <= |line| && line[p + |part| + |sep|..] == rest
  {
    assert line[p + |part| + |sep|..] == line[p..][|part| + |sep|..];
  }

  lemma FirstColumnStart(line: seq<Byte>, sep: seq<Byte>)
    ensures ColumnStart(line, sep, 0) == Some(0)
  {
  }

  lemma NextColumnStart(line: seq<Byte>, sep: seq<Byte>, k: nat, p: nat, q: nat)
    requires k > 0 && ColumnStart(line, sep, k - 1) == Some(p) && Strstr(line, p, sep) == Some(q)
    ensures ColumnStart(line, sep, k) == Some(q + |sep|)
  {
  }

  /** Column `k` of joined parts begins where the rest of the join begins. */
  lemma {:induction false} JoinedColumnStart(parts: seq<seq<Byte>>, sep: seq<Byte>, k: nat) returns (p: nat)
    requires sep != [] && k < |parts| && FreeOf(parts, sep[0])
    ensures ColumnStart(Join(parts, sep), sep, k) == Some(p)
    ensures p <= |Join(parts, sep)| && Join(parts, sep)[p..] == Join(parts[k..], sep)
  {
    hide Join, Strstr, ColumnStart;
    var line := Join(parts, sep);
    FirstColumnStart(line, sep);
    if k == 0 {
      p := 0;
      assert parts[0..] == parts;
    } else {
      var p0 := JoinedColumnStart(parts, sep, k - 1);
      JoinFrom(parts, sep, k - 1);
      StrstrSkipsText(line, p0, parts[k - 1], sep, Join(parts[k..], sep));
      p := p0 + |parts[k - 1]| + |sep|;
      NextColumnStart(line, sep, k, p0, p0 + |parts[k - 1]|);
      BehindSeparator(line, p0, parts[k - 1], sep, Join(parts[k..], sep));
    }
  }

  /** Splitting what was joined gives back the parts. */
  lemma JoinedColumn(parts: seq<seq<Byte>>, sep: seq<Byte>, k: nat)
    requires sep != [] && k < |parts| && FreeOf(parts, sep[0])
    ensures var line := Join(parts, sep); var start := ColumnStart(line, sep, k);
      ColumnText(line, sep, k) == parts[k] && start.Some? &&
      ColumnEnd(line, sep, start.value) == start.value + |parts[k]| && parts[k] <= line[start.value..]
  {
    hide Join, Strstr, ColumnStart;
    var line := Join(parts, sep);
    var p := JoinedColumnStart(parts, sep, k);
    JoinFrom(parts, sep, k);
    if k + 1 == |parts| {
      StrstrFindsNothing(line, p, parts[k], sep);
    } else {
      StrstrSkipsText(line, p, parts[k], sep, Join(parts[k + 1..], sep));
    }
    assert line[p..p + |parts[k]|] == line[p..][..|parts[k]|] == parts[k];
  }

  /** Quoted columns are free of every separator byte. */
  lemma QuotedFree(texts: seq<seq<Char>>, strict: bool, sep: seq<Byte>)
    requires sep != [] && AvoidsQuoteBytes(sep)
    ensures FreeOf(QuoteAll(texts, strict, sep), sep[0])
  {
    QuotedTextHasNoSeparator(strict, sep);
    var all := QuoteAll(texts, strict, sep);
    forall i | 0 <= i < |all| ensures sep[0] !in all[i] {
      assert sep[0] in sep;
    }
  }

  /** Every field column reads back as the field that was written. */
  lemma FieldReadsBack(texts: seq<seq<Char>>, strict: bool, sep: seq<Byte>, k: nat)
    requires sep != [] && AvoidsQuoteBytes(sep) && k < |texts|
    ensures FieldText(Join(QuoteAll(texts, strict, sep), sep), sep, k, strict) == Some(texts[k])
  {
    var all := QuoteAll(texts, strict, sep);
    QuotedFree(texts, strict, sep);
    JoinedColumn(all, sep, k);
    DequoteUndoesQuote(texts[k], [0], strict, sep, strict);
  }

  lemma KeyReadsBack(texts: seq<seq<Char>>, strict: bool, sep: seq<Byte>, k: nat)
    requires sep != [] && AvoidsQuoteBytes(sep) && k < |texts|
    ensures KeyText(Join(QuoteAll(texts, strict, sep), sep), sep, k, strict) == Some(texts[k])
  {
    hide Join, Strstr, Quote, ColumnStart, ColumnEnd, ColumnText;
    var all := QuoteAll(texts, strict, sep);
    QuotedFree(texts, strict, sep);
    JoinedColumn(all, sep, k);
    var line := Join(all, sep);
    var p := ColumnStart(line, sep, k).value;
    var after := line[p + |all[k]|..] + [0];
    assert line[p..] + [0] == all[k] + after;
    DequoteUndoesQuote(texts[k], after, strict, sep, strict);
  }

  /** The assignments a row asks for: one a field, in order, except fields numbered -1. */
  function Wanted(fields: seq<seq<Char>>, fieldIds: seq<int>, from: nat): seq<Assignment>
    requires |fields| == |fieldIds| && from <= |fields|
    decreases |fields| - from
  {
    if from == |fields| then []
    else (if fieldIds[from] == -1 then [] else [Assignment(fieldIds[from], fields[from])]) +
         Wanted(fields, fieldIds, from + 1)
  }

  /** With no field numbered -1, every field is assigned, in order. */
  lemma {:induction false} WantedAll(fields: seq<seq<Char>>, fieldIds: seq<int>, from: nat)
    requires |fields| == |fieldIds| && from <= |fields| && forall k :: 0 <= k < |fieldIds| ==> fieldIds[k] != -1
    ensures |Wanted(fields, fieldIds, from)| == |fields| - from
    ensures forall k :: from <= k < |fields| ==>
              Wanted(fields, fieldIds, from)[k - from] == Assignment(fieldIds[k], fields[k])
    decreases |fields| - from
  {
    if from < |fields| {
      WantedAll(fields, fieldIds, from + 1);
      var rest := Wanted(fields, fieldIds, from + 1);
      assert Wanted(fields, fieldIds, from) == [Assignment(fieldIds[from], fields[from])] + rest;
      forall k | from < k < |fields|
        ensures Wanted(fields, fieldIds, from)[k - from] == Assignment(fieldIds[k], fields[k])
      {
        assert Wanted(fields, fieldIds, from)[k - from] == rest[k - (from + 1)];
      }
    }
  }

  /** A field numbered -1 might as well not be there. */
  lemma {:induction false} WantedWithout(fields: seq<seq<Char>>, fieldIds: seq<int>, k: nat, from: nat)
    requires |fields| == |fieldIds| && from <= k < |fields| && fieldIds[k] == -1
    ensures Wanted(fields, fieldIds, from) ==
            Wanted(fields[..k] + fields[k + 1..], fieldIds[..k] + fieldIds[k + 1..], from)
    decreases k - from
  {
    var fields', fieldIds' := fields[..k] + fields[k + 1..], fieldIds[..k] + fieldIds[k + 1..];
    if from < k {
      WantedWithout(fields, fieldIds, k, from + 1);
    } else {
      SameWanted(fields, fieldIds, k + 1, fields', fieldIds', k);
    }
  }

  lemma {:induction false} SameWanted(fields: seq<seq<Char>>, fieldIds: seq<int>, from: nat, fields': seq<seq<Char>>,
           fieldIds': seq<int>, from': nat)
    requires |fields| == |fieldIds| && |fields'| == |fieldIds'| && from <= |fields| && from' <= |fields'|
    requires fields[from..] == fields'[from'..] && fieldIds[from..] == fieldIds'[from'..]
    ensures Wanted(fields, fieldIds, from) == Wanted(fields', fieldIds', from')
    decreases |fields| - from
  {
    assert |fields[from..]| == |fields'[from'..]|;
    if from < |fields| {
      assert fields[from] == fields[from..][0] == fields'[from'];
      assert fieldIds[from] == fieldIds[from..][0] == fieldIds'[from'];
      assert fields[from + 1..] == fields[from..][1..] == fields'[from' + 1..];
      assert fieldIds[from + 1..] == fieldIds[from..][1..] == fieldIds'[from' + 1..];
      SameWanted(fields, fieldIds, from + 1, fields', fieldIds', from' + 1);
    }
  }

  /** Every field stands in the column that it is read from. */
  ghost predicate LaidOut(texts: seq<seq<Char>>, fields: seq<seq<Char>>, keyColumn: int) {
    forall k :: 0 <= k < |fields| ==>
      FieldColumn(k, keyColumn) < |texts| && texts[FieldColumn(k, keyColumn)] == fields[k]
  }

  /** One field's assignment, in front of those that follow. */
  lemma AssignFirst(line: seq<Byte>, fieldIds: seq<int>, keyColumn: int, sep: seq<Byte>, strict: bool, from: nat,
                    value: seq<Byte>, rest: seq<Assignment>)
    requires from < |fieldIds| && FieldText(line, sep, FieldColumn(from, keyColumn), strict) == Some(value)
    requires Assignments(line, fieldIds, keyColumn, sep, strict, from + 1) == Some(rest)
    ensures Assignments(line, fieldIds, keyColumn, sep, strict, from) ==
            Some((if fieldIds[from] == -1 then [] else [Assignment(fieldIds[from], value)]) + rest)
  {
    hide FieldText;
    assert [] + rest == rest;
  }

  /** The whole field loop asks for exactly the assignments that were written. */
  lemma {:induction false} FieldsReadBack(texts: seq<seq<Char>>, fields: seq<seq<Char>>, keyColumn: int,
           fieldIds: seq<int>, sep: seq<Byte>, strict: bool, from: nat)
    requires sep != [] && AvoidsQuoteBytes(sep) && |fields| == |fieldIds| && from <= |fields|
    requires LaidOut(texts, fields, keyColumn)
    ensures var line := Join(QuoteAll(texts, strict, sep), sep);
      Assignments(line, fieldIds, keyColumn, sep, strict, from) == Some(Wanted(fields, fieldIds, from))
    decreases |fields| - from
  {
    hide Join, QuoteAll, FieldText, AvoidsQuoteBytes;
    var line := Join(QuoteAll(texts, strict, sep), sep);
    if from < |fields| {
      FieldsReadBack(texts, fields, keyColumn, fieldIds, sep, strict, from + 1);
      FieldReadsBack(texts, strict, sep, FieldColumn(from, keyColumn));
      AssignFirst(line, fieldIds, keyColumn, sep, strict, from, fields[from], Wanted(fields, fieldIds, from + 1));
    }
  }

  /** A row written without its key and read again gives back every field. */
  lemma FieldsAloneReadBack(fields: seq<seq<Char>>, fieldIds: seq<int>, sep: seq<Byte>, strict: bool)
    requires sep != [] && AvoidsQuoteBytes(sep) && |fields| == |fieldIds|
    ensures Assignments(Join(QuoteAll(fields, strict, sep), sep), fieldIds, -1, sep, strict, 0) ==
            Some(Wanted(fields, fieldIds, 0))
  {
    FieldsReadBack(fields, fields, -1, fieldIds, sep, strict, 0);
  }

  /** A row whose key stands in any column gives back its key and every field. */
  lemma AnyKeyColumnReadsBack(key: seq<Char>, fields: seq<seq<Char>>, keyColumn: nat, fieldIds: seq<int>,
           sep: seq<Byte>, strict: bool)
    requires sep != [] && AvoidsQuoteBytes(sep) && |fields| == |fieldIds| && keyColumn <= |fields|
    ensures var texts := fields[..keyColumn] + [key] + fields[keyColumn..];
      var line := Join(QuoteAll(texts, strict, sep), sep);
      KeyText(line, sep, keyColumn, strict) == Some(key) &&
      Assignments(line, fieldIds, keyColumn, sep, strict, 0) == Some(Wanted(fields, fieldIds, 0))
  {
    var texts := fields[..keyColumn] + [key] + fields[keyColumn..];
    KeyReadsBack(texts, strict, sep, keyColumn);
    FieldsReadBack(texts, fields, keyColumn, fieldIds, sep, strict, 0);
  }

  /** A row written and read again gives back its key and every field. */
  lemma RowReadsBack(key: seq<Char>, fields: seq<seq<Char>>, fieldIds: seq<int>, sep: seq<Byte>, strict: bool)
    requires sep != [] && AvoidsQuoteBytes(sep) && |fields| == |fieldIds|
    ensures var line := Join(QuoteAll(Columns(key, fields, false), strict, sep), sep);
      KeyText(line, sep, 0, strict) == Some(key) &&
      Assignments(line, fieldIds, 0, sep, strict, 0) == Some(Wanted(fields, fieldIds, 0))
    ensures var line := Join(QuoteAll(Columns(key, fields, true), strict, sep), sep);
      Assignments(line, fieldIds, -1, sep, strict, 0) == Some(Wanted(fields, fieldIds, 0))
  {
    hide Join, QuoteAll, KeyText, Assignments, Wanted;
    AnyKeyColumnReadsBack(key, fields, 0, fieldIds, sep, strict);
    assert fields[..0] + [key] + fields[0..] == [key] + fields;
    FieldsAloneReadBack(fields, fieldIds, sep, strict);
  }

  /** A column that the row does not have reads as empty. */
  lemma {:induction false} MissingColumnIsEmpty(texts: seq<seq<Char>>, strict: bool, sep: seq<Byte>, k: nat)
    requires sep != [] && AvoidsQuoteBytes(sep) && 0 < |texts| <= k
    ensures var line := Join(QuoteAll(texts, strict, sep), sep);
      ColumnStart(line, sep, k) == None && FieldText(line, sep, k, strict) == Some([]) == KeyText(line, sep, k, strict)
    decreases k
  {
    hide Join, Strstr, ColumnStart, AvoidsQuoteBytes, QuoteAll, FreeOf, Dequote;
    var all := QuoteAll(texts, strict, sep);
    if k == |texts| {
      QuotedFree(texts, strict, sep);
      NoColumnBehindLast(all, sep);
    } else {
      MissingColumnIsEmpty(texts, strict, sep, k - 1);
      StaysMissing(Join(all, sep), sep, k - 1, k);
    }
    NothingReadsBack(strict);
  }

  lemma NothingReadsBack(strict: bool)
    ensures Dequote([] + [0], 0, strict) == Some([])
  {
  }

  lemma NoColumnBehindLast(parts: seq<seq<Byte>>, sep: seq<Byte>)
    requires sep != [] && parts != [] && FreeOf(parts, sep[0])
    ensures ColumnStart(Join(parts, sep), sep, |parts|) == None
  {
    hide Join, Strstr;
    var line, k := Join(parts, sep), |parts| - 1;
    var p := JoinedColumnStart(parts, sep, k);
    JoinFrom(parts, sep, k);
    StrstrFindsNothing(line, p, parts[k], sep);
  }

  /** The key "k" and the fields "a" and "b", written with tabs and ended by a newline. */
  lemma WrittenRowInput()
    ensures Join(QuoteAll(Columns([107], [[97], [98]], false), false, [9]), [9]) + [NEWLINE] == [107, 9, 97, 9, 98, 10]
  {
    var texts: seq<seq<Char>> := [[107], [97], [98]];
    assert Columns([107], [[97], [98]], false) == texts;
    forall c: Char | c == 107 || c == 97 || c == 98 ensures Quote([c], false, [9]) == [c] {
      QuotedOne(c, false, [9]);
    }
    assert QuoteAll(texts, false, [9]) == [[107], [97], [98]];
    var parts: seq<seq<Byte>> := [[107], [97], [98]];
    assert parts[1..] == [[97], [98]] && parts[1..][1..] == [[98]];
  }

  /** A written row is one line: no newline before the one that ends it, as long as the separator has none. */
  lemma {:induction false} RowIsOneLine(texts: seq<seq<Char>>, strict: bool, sep: seq<Byte>)
    requires NEWLINE !in sep
    ensures NEWLINE !in Join(QuoteAll(texts, strict, sep), sep)
    decreases |texts|
  {
    var all := QuoteAll(texts, strict, sep);
    if texts != [] {
      QuotedTextHasNoControl(texts[0], strict, sep);
      if |texts| > 1 {
        RowIsOneLine(texts[1..], strict, sep);
        assert all[1..] == QuoteAll(texts[1..], strict, sep);
      }
    }
  }
}
