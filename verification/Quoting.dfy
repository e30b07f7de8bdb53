// URI quoting and dequoting of ctables/ctable_io.c. A C string is the sequence of its bytes; where the
// source may look at the terminating NUL, the sequence includes it.

module Quoting {
  import opened Options

  type Byte = x: int | 0 <= x < 256
  type Char = x: int | 0 < x < 256 witness 1

  const PERCENT: Byte := 37

  function HexDigit(v: int): Byte
    requires 0 <= v < 16
  {
    if v < 10 then 48 + v else 87 + v
  }

  /** isxdigit. */
  predicate IsHex(c: Byte) {
    48 <= c <= 57 || 65 <= c <= 70 || 97 <= c <= 102
  }

  function HexValue(c: Byte): (v: int)
    requires IsHex(c)
    ensures 0 <= v < 16
  {
    if c <= 57 then c - 48 else if c <= 70 then c - 55 else c - 87
  }

  /** Which bytes ctable_quoteString replaces under URI quoting. */
  predicate NeedsQuote(c: Byte, strict: bool, seps: seq<Byte>) {
    c == PERCENT || c in seps || c < 0x20 || (strict && c >= 0x80)
  }

  function QuoteByte(c: Byte, strict: bool, seps: seq<Byte>): seq<Byte> {
    if NeedsQuote(c, strict, seps) then [PERCENT, HexDigit(c / 16), HexDigit(c % 16)] else [c]
  }

  function Quote(s: seq<Byte>, strict: bool, seps: seq<Byte>): seq<Byte> {
    if s == [] then [] else QuoteByte(s[0], strict, seps) + Quote(s[1..], strict, seps)
  }

  function Prepend(s: seq<Byte>, r: Option<seq<Byte>>): Option<seq<Byte>> {
    match r
    case None => None
    case Some(rest) => Some(s + rest)
  }

  /** Is there a well-formed escape at place `i`? Looking two bytes ahead is safe because the NUL is no hex digit. */
  predicate Escape(s: seq<Byte>, i: nat)
    requires i < |s| - 1 && s[|s| - 1] == 0
  {
    s[i] == PERCENT && IsHex(s[i + 1]) && IsHex(s[i + 2])
  }

  /** The byte that the text at place `i` stands for. */
  function Unescape(s: seq<Byte>, i: nat): Byte
    requires i < |s| - 1 && s[|s| - 1] == 0
  {
    if Escape(s, i) then 16 * HexValue(s[i + 1]) + HexValue(s[i + 2]) else s[i]
  }

  /** ctable_copyDequoted from place `i` on: `s` carries its terminating NUL at or after `length`. */
  function DequoteFrom(s: seq<Byte>, i: nat, length: nat, strict: bool): Option<seq<Byte>>
    requires length < |s| && s[|s| - 1] == 0
    decreases length - i
  {
    if i >= length then Some([])
    else if s[i] == PERCENT && !Escape(s, i) && strict then None
    else Prepend([Unescape(s, i)], DequoteFrom(s, i + (if Escape(s, i) then 3 else 1), length, strict))
  }

  function Dequote(s: seq<Byte>, length: nat, strict: bool): Option<seq<Byte>>
    requires length < |s| && s[|s| - 1] == 0
  {
    DequoteFrom(s, 0, length, strict)
  }

  // ----- what they do to which bytes -----

  /** Hex digits have their values, in either case. */
  lemma HexValues(k: nat)
    ensures k < 10 ==> IsHex(48 + k) && HexValue(48 + k) == k
    ensures k < 6 ==> IsHex(65 + k) && HexValue(65 + k) == 10 + k && IsHex(97 + k) && HexValue(97 + k) == 10 + k
    ensures k < 256 && IsHex(k) ==> 48 <= k <= 57 || 65 <= k <= 70 || 97 <= k <= 102
  {
  }

  /** "%4A" and "%4a" stand for 0x4A. */
  lemma EitherCaseInput(strict: bool)
    ensures Dequote([37, 52, 65, 0], 3, strict) == Some([0x4A]) == Dequote([37, 52, 97, 0], 3, strict)
  {
    var upper: seq<Byte>, lower: seq<Byte> := [37, 52, 65, 0], [37, 52, 97, 0];
    assert Unescape(upper, 0) == 0x4A == Unescape(lower, 0);
    assert DequoteFrom(upper, 3, 3, strict) == Some([]) == DequoteFrom(lower, 3, 3, strict);
    var a: seq<Byte> := [0x4A];
    assert a + [] == a;
  }

  /** The bytes that quoting leaves alone: printable, no percent sign, in no separator, and ASCII when strict. */
  predicate Plain(c: Byte, strict: bool, seps: seq<Byte>) {
    32 <= c && c != 37 && c !in seps && (strict ==> c <= 127)
  }

  /** Quoting leaves exactly the plain bytes, and writes three for any other. */
  lemma QuotedOne(c: Byte, strict: bool, seps: seq<Byte>)
    ensures Plain(c, strict, seps) ==> Quote([c], strict, seps) == [c]
    ensures !Plain(c, strict, seps) ==>
              var q := Quote([c], strict, seps);
              |q| == 3 && q[0] == 37 && IsHex(q[1]) && IsHex(q[2]) && 16 * HexValue(q[1]) + HexValue(q[2]) == c
  {
    HexRoundTrip(c);
    assert [c][1..] == [];
  }

  /** Quoting goes byte by byte. */
  lemma {:induction false} QuotedJoin(s: seq<Byte>, t: seq<Byte>, strict: bool, seps: seq<Byte>)
    ensures Quote(s + t, strict, seps) == Quote(s, strict, seps) + Quote(t, strict, seps)
    decreases |s|
  {
    hide QuoteByte;
    if s == [] {
      assert s + t == t;
    } else {
      QuotedJoin(s[1..], t, strict, seps);
      assert (s + t)[1..] == s[1..] + t;
    }
  }

  /** A text is its own quotation exactly when all its bytes are plain. */
  lemma {:induction false} PlainTextStays(s: seq<Byte>, strict: bool, seps: seq<Byte>)
    ensures |Quote(s, strict, seps)| >= |s|
    ensures Quote(s, strict, seps) == s <==> forall c :: c in s ==> Plain(c, strict, seps)
    decreases |s|
  {
    if s != [] {
      PlainTextStays(s[1..], strict, seps);
      var q, rest := Quote(s, strict, seps), Quote(s[1..], strict, seps);
      assert s == [s[0]] + s[1..] && s[0] in s && forall c :: c in s[1..] ==> c in s;
      if Plain(s[0], strict, seps) {
        assert q == [s[0]] + rest && q[1..] == rest;
      } else {
        assert |q| == 3 + |rest| > |s|;
      }
    }
  }

  /** Strict dequoting rejects exactly the texts with a percent sign that two hex digits do not follow. */
  lemma {:induction false} RejectedExactly(s: seq<Byte>, i: nat, length: nat)
    requires i <= length < |s| && s[|s| - 1] == 0
    ensures DequoteFrom(s, i, length, true) == None <==>
              exists j :: i <= j < length && s[j] == 37 && !(IsHex(s[j + 1]) && IsHex(s[j + 2]))
    decreases length - i
  {
    if i < length {
      var next := i + if Escape(s, i) then 3 else 1;
      if s[i] == 37 && !Escape(s, i) {
        assert !(IsHex(s[i + 1]) && IsHex(s[i + 2]));
      } else if next <= length {
        RejectedExactly(s, next, length);
        forall j | i <= j < next && s[j] == 37 ensures j == i {
        }
      }
    }
  }

  /** Lenient dequoting never rejects. */
  lemma {:induction false} LenientAccepts(s: seq<Byte>, i: nat, length: nat)
    requires length < |s| && s[|s| - 1] == 0
    ensures DequoteFrom(s, i, length, false).Some?
    decreases length - i
  {
    if i < length {
      LenientAccepts(s, i + if Escape(s, i) then 3 else 1, length);
    }
  }

  /** A text without percent signs dequotes to itself. */
  lemma {:induction false} PlainTextDequotes(s: seq<Byte>, i: nat, length: nat, strict: bool)
    requires i <= length < |s| && s[|s| - 1] == 0 && 37 !in s[i..length]
    ensures DequoteFrom(s, i, length, strict) == Some(s[i..length])
    decreases length - i
  {
    if i < length {
      assert s[i] in s[i..length];
      PlainTextDequotes(s, i + 1, length, strict);
      assert s[i..length] == [s[i]] + s[i + 1..length];
    } else {
      assert s[i..length] == [];
    }
  }

  /** A percent sign that begins no escape: lenient dequoting keeps it, strict dequoting rejects it. */
  lemma NoEscapeInput()
    ensures Dequote([37, 122, 0], 2, false) == Some([37, 122]) && Dequote([37, 122, 0], 2, true) == None
  {
    var s: seq<Byte> := [37, 122, 0];
    var z: seq<Byte> := [122];
    assert z + [] == z && [37] + z == [37, 122];
    assert DequoteFrom(s, 2, 2, false) == Some([]);
    assert DequoteFrom(s, 1, 2, false) == Prepend([122], Some([]));
  }

  // ----- the round trip -----

  lemma HexRoundTrip(c: Byte)
    ensures IsHex(HexDigit(c / 16)) && IsHex(HexDigit(c % 16))
    ensures 16 * HexValue(HexDigit(c / 16)) + HexValue(HexDigit(c % 16)) == c
  {
  }

  /** Dequoting over one quoted byte gives that byte. */
  lemma QuotedByteReadsBack(before: seq<Byte>, c: Byte, after: seq<Byte>, length: nat, strict: bool, seps: seq<Byte>,
           strictBack: bool)
    requires after != [] && after[|after| - 1] == 0
    requires var first := QuoteByte(c, strict, seps); |before| + |first| <= length < |before| + |first| + |after|
    ensures var first := QuoteByte(c, strict, seps); var text := before + first + after;
      DequoteFrom(text, |before|, length, strictBack) ==
      Prepend([c], DequoteFrom(text, |before| + |first|, length, strictBack))
  {
    HexRoundTrip(c);
    var first := QuoteByte(c, strict, seps);
    var text, i := before + first + after, |before|;
    assert text[i] == first[0] && text[|text| - 1] == 0;
    if |first| == 3 {
      assert text[i + 1] == first[1] && text[i + 2] == first[2];
    }
  }

  /** Dequoting takes back what quoting did, whatever the separators and whatever follows the quoted text. */
  lemma {:induction false} DequoteUndoesQuoteAt(before: seq<Byte>, s: seq<Byte>, after: seq<Byte>, strict: bool,
           seps: seq<Byte>, strictBack: bool)
    requires after != [] && after[|after| - 1] == 0
    ensures var q := Quote(s, strict, seps);
      DequoteFrom(before + q + after, |before|, |before| + |q|, strictBack) == Some(s)
    decreases |s|
  {
    hide DequoteFrom, QuoteByte;
    var q := Quote(s, strict, seps);
    if s == [] {
      NothingToDequote(before + q + after, |before|, strictBack);
    } else {
      var first, rest := QuoteByte(s[0], strict, seps), Quote(s[1..], strict, seps);
      DequoteUndoesQuoteAt(before + first, s[1..], after, strict, seps, strictBack);
      assert before + q + after == before + first + rest + after == before + first + (rest + after);
      QuotedByteReadsBack(before, s[0], rest + after, |before| + |q|, strict, seps, strictBack);
      assert s == [s[0]] + s[1..];
    }
  }

  lemma NothingToDequote(s: seq<Byte>, i: nat, strict: bool)
    requires i < |s| && s[|s| - 1] == 0
    ensures DequoteFrom(s, i, i, strict) == Some([])
  {
  }

  lemma DequoteUndoesQuote(s: seq<Byte>, after: seq<Byte>, strict: bool, seps: seq<Byte>, strictBack: bool)
    requires after != [] && after[|after| - 1] == 0
    ensures var q := Quote(s, strict, seps);
      Dequote(q + after, |q|, strictBack) == Some(s)
  {
    DequoteUndoesQuoteAt([], s, after, strict, seps, strictBack);
    var q := Quote(s, strict, seps);
    assert [] + q + after == q + after;
  }

  /** The bytes that quoting itself writes. */
  predicate IsQuoteByte(c: Byte) {
    c == PERCENT || 48 <= c <= 57 || 97 <= c <= 102
  }

  lemma {:induction false} QuotedBytes(s: seq<Byte>, strict: bool, seps: seq<Byte>)
    ensures forall c: Byte :: c in Quote(s, strict, seps) ==> IsQuoteByte(c) || !NeedsQuote(c, strict, seps)
    decreases |s|
  {
    if s != [] {
      QuotedBytes(s[1..], strict, seps);
    }
  }

  /** One control byte whose quotation shows the given hex digit. */
  function Witness(c: Byte): (w: Char)
    requires IsQuoteByte(c)
    ensures w < 0x20
    ensures c in [PERCENT, HexDigit(w / 16), HexDigit(w % 16)]
  {
    if c == PERCENT then 1 else if c == 48 then 1 else HexValue(c)
  }

  /** No separator stands in any quoted text. */
  ghost predicate KeepsSeparatorsOut(strict: bool, seps: seq<Byte>) {
    forall s: seq<Char>, c: Byte :: c in seps ==> c !in Quote(s, strict, seps)
  }

  ghost predicate AvoidsQuoteBytes(seps: seq<Byte>) {
    forall c: Byte :: c in seps ==> !IsQuoteByte(c)
  }

  lemma SeparatorLeaks(strict: bool, seps: seq<Byte>, c: Byte)
    requires c in seps && IsQuoteByte(c)
    ensures !KeepsSeparatorsOut(strict, seps)
  {
    var s: seq<Char> := [Witness(c)];
    assert Quote(s, strict, seps) == QuoteByte(Witness(c), strict, seps) + Quote(s[1..], strict, seps);
    assert c in Quote(s, strict, seps);
  }

  /** A separator that quoting writes itself: a newline between `a` separators becomes "%0a". */
  lemma LeakingSeparatorInput()
    ensures Quote([10], false, [97]) == [PERCENT, 48, 97]
  {
    assert [10][1..] == [];
    assert Quote([10], false, [97]) == QuoteByte(10, false, [97]) + Quote([], false, [97]);
  }

  /** Quoted text is free of the separators exactly when they avoid '%' and the lower-case hex digits. */
  lemma QuotedTextHasNoSeparator(strict: bool, seps: seq<Byte>)
    ensures KeepsSeparatorsOut(strict, seps) <==> AvoidsQuoteBytes(seps)
  {
    forall s: seq<Char>, c: Byte | c in seps && AvoidsQuoteBytes(seps)
      ensures c !in Quote(s, strict, seps)
    {
      QuotedBytes(s, strict, seps);
    }
    forall c: Byte | c in seps && IsQuoteByte(c)
      ensures !KeepsSeparatorsOut(strict, seps)
    {
      SeparatorLeaks(strict, seps, c);
    }
  }

  /** Quoted text has no control byte, and under strict quoting no byte above 0x7F. */
  lemma QuotedTextHasNoControl(s: seq<Byte>, strict: bool, seps: seq<Byte>)
    ensures forall c: Byte :: c in Quote(s, strict, seps) ==> c >= 0x20 && (strict ==> c < 0x80)
  {
    QuotedBytes(s, strict, seps);
  }

  // ----- the loops -----

  /**
   * ctable_quoteString under URI quoting: a new string in a buffer of three bytes a character, or none if nothing needs
   * quoting.
   */
  method QuoteString(s: seq<Byte>, strict: bool, seps: seq<Byte>) returns (newptr: array?<Byte>, length: nat)
    ensures newptr == null <==> Quote(s, strict, seps) == s
    ensures newptr == null ==> length == |s|
    ensures newptr != null ==>
              fresh(newptr) && length < newptr.Length &&
              newptr[..length] == Quote(s, strict, seps) && newptr[length] == 0
  {
    ghost var q := Quote(s[..0], strict, seps);
    newptr := null;
    var j: nat := 0;
    hide Quote, NeedsQuote, QuoteByte;
    for i := 0 to |s|
      invariant q == Quote(s[..i], strict, seps)
      invariant newptr == null ==> q == s[..i] && j == 0
      invariant newptr != null ==>
                  fresh(newptr) && newptr.Length == 3 * |s| + 1 && j <= 3 * i && newptr[..j] == q && |q| > i
    {
      QuoteSnoc(s[..i], s[i], strict, seps);
      QuoteByteShape(s[i], strict, seps);
      assert s[..i + 1] == s[..i] + [s[i]];
      if newptr == null && NeedsQuote(s[i], strict, seps) {
        newptr := new Byte[3 * |s| + 1](_ => 0);
        j := CopyPrefix(newptr, s, i);
      }
      if newptr != null {
        j := PutQuoted(newptr, j, s[i], strict, seps);
      }
      q := q + QuoteByte(s[i], strict, seps);
    }
    assert s[..|s|] == s;
    if newptr == null {
      return null, |s|;
    }
    newptr[j] := 0;
    assert newptr[..j] == q;
    length := j;
  }

  lemma QuoteByteShape(c: Byte, strict: bool, seps: seq<Byte>)
    ensures NeedsQuote(c, strict, seps) ==> |QuoteByte(c, strict, seps)| == 3
    ensures !NeedsQuote(c, strict, seps) ==> QuoteByte(c, strict, seps) == [c]
  {
  }

  /** Write one character, quoted if it must be, at place `j` of the buffer; snprintf ends what it writes with a NUL. */
  method PutQuoted(buf: array<Byte>, j: nat, c: Byte, strict: bool, seps: seq<Byte>) returns (j': nat)
    requires j + 3 < buf.Length
    modifies buf
    ensures j' == j + |QuoteByte(c, strict, seps)| && j' <= j + 3
    ensures buf[..j'] == old(buf[..j]) + QuoteByte(c, strict, seps)
  {
    if NeedsQuote(c, strict, seps) {
      buf[j], buf[j + 1], buf[j + 2], buf[j + 3] := PERCENT, HexDigit(c / 16), HexDigit(c % 16), 0;
      j' := j + 3;
    } else {
      buf[j] := c;
      j' := j + 1;
    }
  }

  method CopyPrefix(a: array<Byte>, s: seq<Byte>, n: nat) returns (j: nat)
    requires n <= |s| && n <= a.Length
    modifies a
    ensures j == n && a[..n] == s[..n]
  {
    for k := 0 to n
      invariant a[..k] == s[..k]
    {
      a[k] := s[k];
    }
    j := n;
  }

  lemma {:induction false} QuoteSnoc(s: seq<Byte>, c: Byte, strict: bool, seps: seq<Byte>)
    ensures Quote(s + [c], strict, seps) == Quote(s, strict, seps) + QuoteByte(c, strict, seps)
    decreases |s|
  {
    if s == [] {
      assert [c][1..] == [];
    } else {
      QuoteSnoc(s[1..], c, strict, seps);
      assert (s + [c])[1..] == s[1..] + [c];
    }
  }

  /** What is already out, followed by what is still to come. */
  lemma OneMoreByte(out: seq<Byte>, s: seq<Byte>, i: nat, length: nat, strict: bool)
    requires length < |s| && s[|s| - 1] == 0 && i < length && !(s[i] == PERCENT && !Escape(s, i) && strict)
    ensures Prepend(out, DequoteFrom(s, i, length, strict)) ==
            Prepend(out + [Unescape(s, i)], DequoteFrom(s, i + (if Escape(s, i) then 3 else 1), length, strict))
  {
    var r := DequoteFrom(s, i + (if Escape(s, i) then 3 else 1), length, strict);
    if r.Some? {
      assert out + ([Unescape(s, i)] + r.value) == (out + [Unescape(s, i)]) + r.value;
    }
  }

  lemma PrependNothing(r: Option<seq<Byte>>)
    ensures Prepend([], r) == r
  {
    if r.Some? {
      assert [] + r.value == r.value;
    }
  }

  /** ctable_copyDequoted under URI quoting. `dst` may be `src` itself: both cases give the same text. */
  method CopyDequoted(dst: array<Byte>, src: array<Byte>, length: nat, strict: bool) returns (r: Option<nat>)
    requires length < src.Length && src[src.Length - 1] == 0 && length < dst.Length
    modifies dst
    ensures r.None? <==> Dequote(old(src[..]), length, strict).None?
    ensures r.Some? ==> r.value <= length && Some(dst[..r.value]) == Dequote(old(src[..]), length, strict)
    ensures r.Some? && (dst != src || r.value < length) ==> dst[r.value] == 0
  {
    ghost var s, out := src[..], [];
    var i, j := 0, 0;
    PrependNothing(DequoteFrom(s, 0, length, strict));
    hide HexValue, IsHex;
    while i < length
      invariant j <= i && j <= length && out == dst[..j]
      invariant forall k :: (if dst == src then i else 0) <= k < src.Length ==> src[k] == s[k]
      invariant Dequote(s, length, strict) == Prepend(out, DequoteFrom(s, i, length, strict))
    {
      ghost var c := Unescape(s, i);
      if src[i] == PERCENT && !(IsHex(src[i + 1]) && IsHex(src[i + 2])) && strict {
        return None;
      }
      OneMoreByte(out, s, i, length, strict);
      if src[i] == PERCENT && IsHex(src[i + 1]) && IsHex(src[i + 2]) {
        dst[j] := 16 * HexValue(src[i + 1]) + HexValue(src[i + 2]);
        i := i + 3;
      } else {
        dst[j] := src[i];
        i := i + 1;
      }
      assert dst[..j + 1] == out + [c];
      j, out := j + 1, out + [c];
    }
    if j < i || dst != src {
      dst[j] := 0;
    }
    assert dst[..j] == out;
    assert out + [] == out;
    return Some(j);
  }
}
