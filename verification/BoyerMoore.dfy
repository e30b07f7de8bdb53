// Substring search of ctables/boyer_moore.c: table construction and search.

module BoyerMoore {
  import opened Options

  type Byte = x: int | 0 <= x < 256
  type UInt32 = x: int | 0 <= x < 0x1_0000_0000

  /** `tolower` in the C locale, applied only when the search ignores case. */
  function Fold(c: Byte, nocase: bool): Byte {
    if nocase && 65 <= c <= 90 then c + 32 else c
  }

  function FoldAll(s: seq<Byte>, nocase: bool): (r: seq<Byte>)
    ensures |r| == |s|
    ensures forall i :: 0 <= i < |s| ==> r[i] == Fold(s[i], nocase)
  {
    seq(|s|, i requires 0 <= i < |s| => Fold(s[i], nocase))
  }

  /** Equal, or when the search ignores case the two cases of one ASCII letter. */
  predicate Alike(a: Byte, b: Byte, nocase: bool) {
    a == b || (nocase && ((65 <= a <= 90 && b == a + 32) || (65 <= b <= 90 && a == b + 32)))
  }

  /** Folding makes exactly those bytes equal, and changes nothing when case counts. */
  lemma FoldedAlike(a: Byte, b: Byte, nocase: bool)
    ensures Fold(a, nocase) == Fold(b, nocase) <==> Alike(a, b, nocase)
    ensures Fold(a, false) == a
  {
  }

  /** A match as a caller means it: the needle stands in the haystack at `h`, in whatever case when that is ignored. */
  ghost predicate OccursAt(needle: seq<Byte>, hay: seq<Byte>, h: int, nocase: bool) {
    0 <= h <= |hay| - |needle| && forall k :: 0 <= k < |needle| ==> Alike(hay[h + k], needle[k], nocase)
  }

  /** Does the suffix of length `portion` recur `offset` places to the left, behind a different character? */
  predicate NeedleMatch(n: seq<Byte>, portion: nat, offset: nat)
    requires portion < |n| && offset < |n|
  {
    var begin := |n| - offset - portion;
    var ignore := if begin < 0 then -begin else 0;
    var virtualBegin := if begin < 0 then 0 else begin;
    !(virtualBegin > 0 && n[virtualBegin - 1] == n[|n| - portion - 1]) &&
    n[|n| - portion + ignore..] == n[virtualBegin..virtualBegin + (portion - ignore)]
  }

  /** `occ` records the last place of `c` in the needle without its last character, or -1. */
  ghost predicate IsLast(s: seq<Byte>, c: Byte, k: int) {
    -1 <= k < |s| && (k >= 0 ==> s[k] == c) && forall j :: k < j < |s| ==> s[j] != c
  }

  /** `skip` records the least usable shift, or the needle's length. */
  ghost predicate IsLeastShift(n: seq<Byte>, portion: nat, v: nat)
    requires portion < |n|
  {
    v <= |n| && (v < |n| ==> NeedleMatch(n, portion, v)) &&
    forall w: nat :: w < v ==> !NeedleMatch(n, portion, w)
  }

  /** Shifting by nothing never qualifies: the preceding characters are then the same character. */
  lemma LeastShiftIsPositive(n: seq<Byte>, portion: nat, v: nat)
    requires portion < |n| && IsLeastShift(n, portion, v)
    ensures v >= 1
  {
    assert !NeedleMatch(n, portion, 0);
  }

  /** Strong good-suffix rule: a later occurrence forces the matched suffix to recur at that shift. */
  lemma OccurrenceImpliesMatch(n: seq<Byte>, hay: seq<Byte>, h: nat, npos: nat, s: nat)
    requires npos < |n| && 1 <= s < |n| && h + s + |n| <= |hay|
    requires forall k :: npos < k < |n| ==> n[k] == hay[h + k]
    requires n[npos] != hay[h + npos]
    requires forall k :: 0 <= k < |n| ==> n[k] == hay[h + s + k]
    ensures NeedleMatch(n, |n| - 1 - npos, s)
  {
    var portion := |n| - 1 - npos;
    var begin := |n| - s - portion;
    var ignore := if begin < 0 then -begin else 0;
    var vb := if begin < 0 then 0 else begin;
    if vb > 0 {
      assert n[vb - 1] == hay[h + s + (vb - 1)];
    }
    var left, right := n[|n| - portion + ignore..], n[vb..vb + (portion - ignore)];
    forall i | 0 <= i < |left|
      ensures left[i] == right[i]
    {
      assert right[i] == n[vb + i] == hay[h + s + (vb + i)];
      assert left[i] == n[|n| - portion + ignore + i] == hay[h + (|n| - portion + ignore + i)];
    }
    assert left == right;
  }

  /** Neither rule jumps over an occurrence: every later one lies at least `max(skip, npos - occ)` ahead. */
  lemma ShiftIsSafe(n: seq<Byte>, hay: seq<Byte>, h: nat, npos: nat, skip: nat, occ: int, s: nat)
    requires npos < |n| && 1 <= s && h + s + |n| <= |hay|
    requires forall k :: npos < k < |n| ==> n[k] == hay[h + k]
    requires n[npos] != hay[h + npos]
    requires IsLeastShift(n, |n| - 1 - npos, skip)
    requires IsLast(n[..|n| - 1], hay[h + npos], occ)
    requires forall k :: 0 <= k < |n| ==> n[k] == hay[h + s + k]
    ensures skip <= s && npos - occ <= s
  {
    if s < |n| {
      OccurrenceImpliesMatch(n, hay, h, npos, s);
    }
    if s <= npos {
      assert n[npos - s] == hay[h + s + (npos - s)];
      assert n[..|n| - 1][npos - s] == hay[h + npos];
    }
  }

  function Max(a: int, b: int): (r: int)
    ensures r >= a && r >= b && (r == a || r == b)
  {
    if a > b then a else b
  }

  /** The bad-character table of a folded needle. */
  ghost predicate IsOccTable(folded: seq<Byte>, occ: seq<int>) {
    |occ| == 256 && forall c: Byte :: IsLast(ButLast(folded), c, occ[c])
  }

  function ButLast(s: seq<Byte>): seq<Byte> {
    if s == [] then [] else s[..|s| - 1]
  }

  /** The good-suffix table of a folded needle, indexed by the position of the mismatch. */
  ghost predicate IsSkipTable(folded: seq<Byte>, skip: seq<nat>) {
    |skip| == |folded| && forall p :: 0 <= p < |skip| ==> IsLeastShift(folded, |folded| - 1 - p, skip[p])
  }

  /** First loop of boyer_moore_setup: copy and fold the needle, noting where each character stands last. */
  method FoldNeedle(text: seq<Byte>, nocase: bool) returns (needle: array<Byte>, occ: array<int>)
    ensures fresh(needle) && fresh(occ)
    ensures needle[..] == FoldAll(text, nocase)
    ensures IsOccTable(FoldAll(text, nocase), occ[..])
  {
    var nlen := |text|;
    ghost var folded := FoldAll(text, nocase);
    occ := new int[256](_ => -1);
    needle := new Byte[nlen](_ => 0);
    for a := 0 to nlen
      invariant forall i :: 0 <= i < a ==> needle[i] == folded[i]
      invariant forall c: Byte :: IsLast(if a < nlen then folded[..a] else ButLast(folded), c, occ[c])
    {
      var c := Fold(text[a], nocase);
      needle[a] := c;
      if a < nlen - 1 {
        occ[c] := a;
        assert folded[..a + 1] == folded[..a] + [c];
      }
    }
    assert needle[..] == folded;
  }

  method LeastShift(n: seq<Byte>, portion: nat) returns (value: nat)
    requires portion < |n|
    ensures IsLeastShift(n, portion, value)
  {
    value := 0;
    while value < |n| && !NeedleMatch(n, portion, value)
      invariant value <= |n|
      invariant forall w: nat :: w < value ==> !NeedleMatch(n, portion, w)
    {
      value := value + 1;
    }
  }

  /** Last loop of boyer_moore_setup: the least matching shift for every length of matched suffix. */
  method LeastShifts(needle: array<Byte>) returns (skip: array<nat>)
    ensures fresh(skip) && IsSkipTable(needle[..], skip[..])
  {
    hide IsLeastShift;
    var nlen := needle.Length;
    ghost var n := needle[..];
    skip := new nat[nlen](_ => 0);
    for a := 0 to nlen
      invariant needle[..] == n
      invariant forall p :: nlen - a <= p < nlen ==> IsLeastShift(n, nlen - 1 - p, skip[p])
    {
      var value := LeastShift(needle[..], a);
      skip[nlen - a - 1] := value;
    }
  }

  /** No earlier alignment than `h` is a match. */
  ghost predicate NoneBefore(n: seq<Byte>, folded: seq<Byte>, h: int) {
    forall j :: 0 <= j < h ==> !StandsAt(n, folded, j)
  }

  ghost predicate StandsAt(n: seq<Byte>, folded: seq<Byte>, h: int) {
    0 <= h <= |folded| - |n| && forall k :: 0 <= k < |n| ==> n[k] == folded[h + k]
  }

  lemma StandsAtIsOccursAt(needle: seq<Byte>, hay: seq<Byte>, nocase: bool, h: int)
    ensures StandsAt(FoldAll(needle, nocase), FoldAll(hay, nocase), h) <==> OccursAt(needle, hay, h, nocase)
  {
    hide Fold, Alike;
    var n, folded := FoldAll(needle, nocase), FoldAll(hay, nocase);
    if 0 <= h <= |hay| - |needle| {
      forall k | 0 <= k < |n| ensures n[k] == folded[h + k] <==> Alike(hay[h + k], needle[k], nocase) {
        FoldedAlike(hay[h + k], needle[k], nocase);
      }
    }
  }

  lemma MatchFound(needle: seq<Byte>, hay: seq<Byte>, nocase: bool, h: nat)
    requires h + |needle| <= |hay|
    requires forall k :: 0 <= k < |needle| ==> FoldAll(needle, nocase)[k] == FoldAll(hay, nocase)[h + k]
    ensures OccursAt(needle, hay, h, nocase)
  {
    StandsAtIsOccursAt(needle, hay, nocase, h);
  }

  lemma NoneBeforeMeansNoMatch(needle: seq<Byte>, hay: seq<Byte>, nocase: bool, h: int)
    requires NoneBefore(FoldAll(needle, nocase), FoldAll(hay, nocase), h)
    ensures forall j :: 0 <= j < h ==> !OccursAt(needle, hay, j, nocase)
    ensures h > |hay| - |needle| ==> forall j :: !OccursAt(needle, hay, j, nocase)
  {
    forall j | 0 <= j < h ensures !OccursAt(needle, hay, j, nocase) {
      StandsAtIsOccursAt(needle, hay, nocase, j);
    }
  }

  /** After a mismatch at `npos`, no alignment before the shifted one is a match, and the shift is forward. */
  lemma ShiftSkipsNothing(n: seq<Byte>, folded: seq<Byte>, h: nat, npos: nat, skip: nat, occ: int)
    requires npos < |n| && h + |n| <= |folded|
    requires forall k :: npos < k < |n| ==> n[k] == folded[h + k]
    requires n[npos] != folded[h + npos]
    requires IsLeastShift(n, |n| - 1 - npos, skip) && IsLast(n[..|n| - 1], folded[h + npos], occ)
    requires NoneBefore(n, folded, h)
    ensures 1 <= Max(skip, npos - occ) <= |n|
    ensures NoneBefore(n, folded, h + Max(skip, npos - occ))
  {
    LeastShiftIsPositive(n, |n| - 1 - npos, skip);
    forall j | 0 <= j < h + Max(skip, npos - occ)
      ensures !StandsAt(n, folded, j)
    {
      if j >= h && StandsAt(n, folded, j) {
        assert j > h;
        ShiftIsSafe(n, folded, h, npos, skip, occ, j - h);
      }
    }
  }

  /** The prepared search: `struct ctableSearchMatchStruct` of the source. */
  class Matcher {
    const occ: array<int>
    const skip: array<nat>
    const needle: array<Byte>
    const nlen: nat
    const nocase: bool
    ghost const pattern: seq<Byte>

    ghost predicate Ready()
      reads occ, skip, needle
    {
      nlen == |pattern| && needle[..] == FoldAll(pattern, nocase) &&
      IsOccTable(needle[..], occ[..]) && IsSkipTable(needle[..], skip[..])
    }

    /** boyer_moore_setup. */
    constructor (text: seq<Byte>, nocase: bool)
      ensures Ready() && pattern == text && this.nocase == nocase
      ensures fresh(occ) && fresh(skip) && fresh(needle)
    {
      var needle, occ := FoldNeedle(text, nocase);
      var skip := LeastShifts(needle);
      this.needle, this.occ, this.skip := needle, occ, skip;
      this.nlen, this.nocase, this.pattern := |text|, nocase, text;
    }

    /** Inner loop of boyer_moore_search: compare backwards; -1 when the whole needle stands at `hpos`. */
    method Mismatch(hay: seq<Byte>, hpos: UInt32) returns (npos: int)
      requires Ready() && nlen >= 1 && hpos + nlen <= |hay|
      ensures -1 <= npos < nlen
      ensures forall k :: npos < k < nlen ==> FoldAll(pattern, nocase)[k] == FoldAll(hay, nocase)[hpos + k]
      ensures npos >= 0 ==> FoldAll(pattern, nocase)[npos] != FoldAll(hay, nocase)[hpos + npos]
    {
      assert forall k :: 0 <= k < nlen ==> needle[k] == needle[..][k];
      npos := nlen - 1;
      while needle[npos] == Fold(hay[npos + hpos], nocase)
        invariant 0 <= npos < nlen
        invariant forall k :: npos < k < nlen ==> needle[k] == Fold(hay[hpos + k], nocase)
        decreases npos
      {
        if npos == 0 {
          return -1;
        }
        npos := npos - 1;
      }
    }

    /** The needle "ab" stands at 1 in "xAB" when case is ignored, and nowhere when it counts. */
    lemma MixedCaseInput()
      ensures OccursAt([97, 98], [120, 65, 66], 1, true) && forall h :: !OccursAt([97, 98], [120, 65, 66], h, false)
    {
      var needle: seq<Byte>, hay: seq<Byte> := [97, 98], [120, 65, 66];
      forall h | 0 <= h <= 1 ensures !OccursAt(needle, hay, h, false) {
        assert !Alike(hay[h + 0], needle[0], false);
      }
    }

    /** boyer_moore_search: the leftmost match, or none exactly when there is none. */
    method Search(hay: seq<Byte>) returns (r: Option<UInt32>)
      requires Ready() && nlen >= 1 && |hay| < 0x1_0000_0000
      ensures r.Some? ==> OccursAt(pattern, hay, r.value, nocase)
      ensures r.Some? ==> forall h :: 0 <= h < r.value ==> !OccursAt(pattern, hay, h, nocase)
      ensures r.None? ==> forall h :: !OccursAt(pattern, hay, h, nocase)
    {
      hide OccursAt, StandsAt, IsLeastShift, IsLast;
      var hlen := |hay|;
      ghost var n, folded := FoldAll(pattern, nocase), FoldAll(hay, nocase);
      if nlen > hlen {
        NoneBeforeMeansNoMatch(pattern, hay, nocase, 0);
        return None;
      }
      var hpos: UInt32 := 0;
      while hpos <= hlen - nlen
        invariant NoneBefore(n, folded, hpos)
        decreases hlen - hpos
      {
        var npos := Mismatch(hay, hpos);
        if npos < 0 {
          MatchFound(pattern, hay, nocase, hpos);
          NoneBeforeMeansNoMatch(pattern, hay, nocase, hpos);
          return Some(hpos);
        }
        var c := Fold(hay[npos + hpos], nocase);
        ShiftSkipsNothing(n, folded, hpos, npos, skip[..][npos], occ[..][c]);
        hpos := hpos + Max(skip[npos], npos - occ[c]);
      }
      NoneBeforeMeansNoMatch(pattern, hay, nocase, hpos);
      return None;
    }
  }
}
