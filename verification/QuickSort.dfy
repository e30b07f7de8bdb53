// ctable_qsort_r (ctables/ctable_qsort.c): Bentley and McIlroy's quicksort with a fat partition.
// Positions stand for the source's element pointers; `cmp` is the caller's comparison with its thunk bound.

module QuickSort {
  import opened Preorders

  ghost predicate Sorted<T>(s: seq<T>, cmp: (T, T) -> int, lo: nat, hi: nat)
    requires hi <= |s|
  {
    forall i, j :: lo <= i < j < hi ==> Call(cmp, s[i], s[j]) <= 0
  }

  /** `s` is `t` with the elements of [lo, hi) rearranged and nothing else touched. */
  ghost predicate Rearranged<T>(s: seq<T>, t: seq<T>, lo: nat, hi: nat) {
    lo <= hi <= |s| == |t| && multiset(s) == multiset(t) &&
    (forall k :: 0 <= k < lo ==> s[k] == t[k]) && (forall k :: hi <= k < |s| ==> s[k] == t[k])
  }

  /** Every element of [lo, hi) compares with `v` as `sign` says. */
  ghost predicate AllSign<T>(s: seq<T>, cmp: (T, T) -> int, lo: int, hi: int, v: T, sign: int)
    requires 0 <= lo && hi <= |s|
  {
    forall k :: lo <= k < hi ==>
      if sign < 0 then Call(cmp, s[k], v) < 0
      else if sign > 0 then Call(cmp, s[k], v) > 0
      else Call(cmp, s[k], v) == 0
  }

  lemma SegmentMultiset<T>(s: seq<T>, lo: nat, hi: nat)
    requires lo <= hi <= |s|
    ensures multiset(s[lo..hi]) == multiset(s) - multiset(s[..lo]) - multiset(s[hi..])
  {
    assert s == s[..lo] + (s[lo..hi] + s[hi..]);
  }

  lemma RearrangedSegment<T>(s: seq<T>, t: seq<T>, lo: nat, hi: nat)
    requires Rearranged(s, t, lo, hi)
    ensures multiset(s[lo..hi]) == multiset(t[lo..hi])
  {
    SegmentMultiset(s, lo, hi);
    SegmentMultiset(t, lo, hi);
    assert s[..lo] == t[..lo] && s[hi..] == t[hi..];
  }

  /** Rearranging within a segment cannot bring in an element of another sign. */
  lemma RearrangedKeepsSign<T>(s: seq<T>, t: seq<T>, cmp: (T, T) -> int, lo: nat, hi: nat, v: T, sign: int)
    requires Rearranged(s, t, lo, hi) && AllSign(t, cmp, lo, hi, v, sign)
    ensures AllSign(s, cmp, lo, hi, v, sign)
  {
    RearrangedSegment(s, t, lo, hi);
    forall k | lo <= k < hi
      ensures exists j :: lo <= j < hi && s[k] == t[j]
    {
      assert s[lo..hi][k - lo] in multiset(s[lo..hi]);
      assert s[k] in t[lo..hi];
      var j :| 0 <= j < hi - lo && t[lo..hi][j] == s[k];
      assert t[lo + j] == s[k];
    }
  }

  /** Exchanging two elements of the segment is a step of rearranging it. */
  lemma SwapRearranges<T>(s: seq<T>, t: seq<T>, u: seq<T>, lo: nat, hi: nat, i: nat, j: nat)
    requires Rearranged(s, t, lo, hi) && lo <= i < hi && lo <= j < hi
    requires u == s[i := s[j]][j := s[i]] && multiset(u) == multiset(s)
    ensures Rearranged(u, t, lo, hi)
  {
  }

  method Swap<T>(a: array<T>, i: nat, j: nat)
    requires i < a.Length && j < a.Length
    modifies a
    ensures a[..] == old(a[..])[i := old(a[j])][j := old(a[i])]
    ensures multiset(a[..]) == old(multiset(a[..]))
  {
    a[i], a[j] := a[j], a[i];
  }

  /** `u` is `s` with the stretches of `r` elements at `i` and `j` exchanged. */
  ghost predicate StretchesExchanged<T>(s: seq<T>, u: seq<T>, i: nat, j: nat, r: nat)
    requires i + r <= j && j + r <= |s|
  {
    |u| == |s| && multiset(u) == multiset(s) &&
    (forall k :: i <= k < i + r ==> u[k] == s[k - i + j]) && (forall k :: j <= k < j + r ==> u[k] == s[k - j + i]) &&
    forall k :: 0 <= k < |s| && !(i <= k < i + r) && !(j <= k < j + r) ==> u[k] == s[k]
  }

  lemma ExchangeOneMore<T>(t: seq<T>, s: seq<T>, u: seq<T>, i: nat, j: nat, m: nat)
    requires i + m < j && j + m < |t| && StretchesExchanged(t, s, i, j, m)
    requires u == s[i + m := s[j + m]][j + m := s[i + m]] && multiset(u) == multiset(s)
    ensures i + m + 1 <= j && StretchesExchanged(t, u, i, j, m + 1)
  {
  }

  /** vecswap: exchange two disjoint stretches of `r` elements. */
  method VecSwap<T>(a: array<T>, i: nat, j: nat, r: nat)
    requires i + r <= j && j + r <= a.Length
    modifies a
    ensures StretchesExchanged(old(a[..]), a[..], i, j, r)
  {
    ghost var t := a[..];
    ghost var s := t;
    for m := 0 to r
      invariant s == a[..] && StretchesExchanged(t, s, i, j, m)
    {
      Swap(a, i + m, j + m);
      ExchangeOneMore(t, s, a[..], i, j, m);
      s := a[..];
    }
  }

  /** Sorted but for the pairs that end at `pl`, where the sinking element stands. */
  ghost predicate SortedButFor<T>(s: seq<T>, cmp: (T, T) -> int, lo: nat, hi: nat, pl: nat)
    requires hi <= |s|
  {
    forall i, j :: lo <= i < j < hi && j != pl ==> Call(cmp, s[i], s[j]) <= 0
  }

  lemma SinkStep<T(!new)>(s: seq<T>, t: seq<T>, cmp: (T, T) -> int, lo: nat, hi: nat, pl: nat)
    requires IsPreorder(cmp) && lo < pl < hi <= |s|
    requires SortedButFor(s, cmp, lo, hi, pl) && Call(cmp, s[pl - 1], s[pl]) > 0
    requires t == s[pl := s[pl - 1]][pl - 1 := s[pl]]
    ensures SortedButFor(t, cmp, lo, hi, pl - 1)
  {
    assert Mirrors(cmp, s[pl], s[pl - 1]);
  }

  lemma SinkDone<T(!new)>(s: seq<T>, cmp: (T, T) -> int, lo: nat, hi: nat, pl: nat)
    requires IsPreorder(cmp) && lo <= pl < hi <= |s|
    requires SortedButFor(s, cmp, lo, hi, pl) && (pl == lo || Call(cmp, s[pl - 1], s[pl]) <= 0)
    ensures Sorted(s, cmp, lo, hi)
  {
    forall i | lo <= i < pl ensures Call(cmp, s[i], s[pl]) <= 0 {
      assert Chains(cmp, s[i], s[pl - 1], s[pl]);
    }
  }

  /** Inner loop of the insertion sort: sink the element at `pm` into the sorted stretch before it. */
  method Sink<T(!new)>(a: array<T>, cmp: (T, T) -> int, lo: nat, pm: nat)
    requires IsPreorder(cmp) && lo <= pm < a.Length && Sorted(a[..], cmp, lo, pm)
    modifies a
    ensures Rearranged(a[..], old(a[..]), lo, pm + 1) && Sorted(a[..], cmp, lo, pm + 1)
  {
    ghost var t := a[..];
    ghost var s := t;
    var pl := pm;
    while pl > lo && Call(cmp, a[pl - 1], a[pl]) > 0
      invariant lo <= pl <= pm
      invariant s == a[..] && Rearranged(s, t, lo, pm + 1) && SortedButFor(s, cmp, lo, pm + 1, pl)
    {
      Swap(a, pl, pl - 1);
      SwapRearranges(s, t, a[..], lo, pm + 1, pl, pl - 1);
      SinkStep(s, a[..], cmp, lo, pm + 1, pl);
      s, pl := a[..], pl - 1;
    }
    SinkDone(s, cmp, lo, pm + 1, pl);
  }

  /** The short-segment sort, also used when partitioning moved nothing. */
  method InsertionSort<T(!new)>(a: array<T>, cmp: (T, T) -> int, lo: nat, n: nat)
    requires IsPreorder(cmp) && lo + n <= a.Length
    modifies a
    ensures Rearranged(a[..], old(a[..]), lo, lo + n)
    ensures Sorted(a[..], cmp, lo, lo + n)
  {
    var pm := lo + 1;
    while pm < lo + n
      invariant Rearranged(a[..], old(a[..]), lo, lo + n)
      invariant pm <= a.Length + 1
      invariant n > 0 ==> pm <= lo + n
      invariant n > 0 ==> Sorted(a[..], cmp, lo, pm)
    {
      Sink(a, cmp, lo, pm);
      pm := pm + 1;
    }
  }

  ghost predicate Between<T>(cmp: (T, T) -> int, x: T, y: T, z: T) {
    (Call(cmp, x, y) <= 0 && Call(cmp, y, z) <= 0) || (Call(cmp, z, y) <= 0 && Call(cmp, y, x) <= 0)
  }

  /** med3: the position of the middle one of three elements. */
  method Med3<T(!new)>(a: array<T>, cmp: (T, T) -> int, i: nat, j: nat, k: nat) returns (m: nat)
    requires i < a.Length && j < a.Length && k < a.Length && IsPreorder(cmp)
    ensures (m == i && Between(cmp, a[j], a[i], a[k])) ||
            (m == j && Between(cmp, a[i], a[j], a[k])) || (m == k && Between(cmp, a[i], a[k], a[j]))
  {
    ChainLaws(cmp, a[i], a[j], a[k]);
    ChainLaws(cmp, a[j], a[k], a[i]);
    ChainLaws(cmp, a[k], a[i], a[j]);
    m := if Call(cmp, a[i], a[j]) < 0
         then (if Call(cmp, a[j], a[k]) < 0 then j else if Call(cmp, a[i], a[k]) < 0 then k else i)
         else (if Call(cmp, a[j], a[k]) > 0 then j else if Call(cmp, a[i], a[k]) < 0 then i else k);
  }

  /** Median of three, or of nine in long segments. */
  method PivotIndex<T(!new)>(a: array<T>, cmp: (T, T) -> int, lo: nat, n: nat) returns (pm: nat)
    requires IsPreorder(cmp) && n >= 7 && lo + n <= a.Length
    ensures lo <= pm < lo + n
  {
    pm := lo + n / 2;
    if n > 7 {
      var pl, pn := lo, lo + n - 1;
      if n > 40 {
        var d := n / 8;
        pl := Med3(a, cmp, pl, pl + d, pl + 2 * d);
        pm := Med3(a, cmp, pm - d, pm, pm + d);
        pn := Med3(a, cmp, pn - 2 * d, pn - d, pn);
      }
      pm := Med3(a, cmp, pl, pm, pn);
    }
  }

  /** The four regions of the fat partition: equal, less, unseen, greater, equal. The pivot stands at `lo`. */
  ghost predicate FatRegions<T>(s: seq<T>, cmp: (T, T) -> int, lo: nat, hi: nat, pa: int, pb: int, pc: int, pd: int) {
    lo + 1 <= pa <= pb <= pc + 1 <= pd + 1 <= hi <= |s| &&
    AllSign(s, cmp, lo + 1, pa, s[lo], 0) && AllSign(s, cmp, pa, pb, s[lo], -1) &&
    AllSign(s, cmp, pc + 1, pd + 1, s[lo], 1) && AllSign(s, cmp, pd + 1, hi, s[lo], 0)
  }

  /** An element equal to the pivot joins the equal stretch at the left end. */
  lemma EqualJoinsLeft<T>(s: seq<T>, u: seq<T>, cmp: (T, T) -> int, lo: nat, hi: nat, pa: int, pb: int, pc: int,
           pd: int)
    requires FatRegions(s, cmp, lo, hi, pa, pb, pc, pd) && pb <= pc && Call(cmp, s[pb], s[lo]) == 0
    requires u == s[pa := s[pb]][pb := s[pa]]
    ensures FatRegions(u, cmp, lo, hi, pa + 1, pb + 1, pc, pd)
  {
  }

  /** An element equal to the pivot joins the equal stretch at the right end. */
  lemma EqualJoinsRight<T>(s: seq<T>, u: seq<T>, cmp: (T, T) -> int, lo: nat, hi: nat, pa: int, pb: int, pc: int,
           pd: int)
    requires FatRegions(s, cmp, lo, hi, pa, pb, pc, pd) && pb <= pc && Call(cmp, s[pc], s[lo]) == 0
    requires u == s[pc := s[pd]][pd := s[pc]]
    ensures FatRegions(u, cmp, lo, hi, pa, pb, pc - 1, pd - 1)
  {
  }

  /** A greater element on the left trades places with a lesser one on the right. */
  lemma TradePlaces<T>(s: seq<T>, u: seq<T>, cmp: (T, T) -> int, lo: nat, hi: nat, pa: int, pb: int, pc: int, pd: int)
    requires FatRegions(s, cmp, lo, hi, pa, pb, pc, pd) && pb < pc
    requires Call(cmp, s[pb], s[lo]) > 0 && Call(cmp, s[pc], s[lo]) < 0
    requires u == s[pb := s[pc]][pc := s[pb]]
    ensures FatRegions(u, cmp, lo, hi, pa, pb + 1, pc - 1, pd)
  {
  }

  /** First inner loop: advance over elements not above the pivot, setting the equal ones aside on the left. */
  method ScanUp<T>(a: array<T>, cmp: (T, T) -> int, lo: nat, hi: nat, pa: nat, pb: nat, pc: int, pd: int)
    returns (pa': nat, pb': nat, swapped: bool)
    requires hi <= a.Length && FatRegions(a[..], cmp, lo, hi, pa, pb, pc, pd)
    modifies a
    ensures Rearranged(a[..], old(a[..]), lo, hi) && FatRegions(a[..], cmp, lo, hi, pa', pb', pc, pd)
    ensures pb <= pb' && (pb' <= pc ==> Call(cmp, a[..][pb'], a[..][lo]) > 0)
    ensures !swapped ==> a[..] == old(a[..])
  {
    pa', pb', swapped := pa, pb, false;
    ghost var t := a[..];
    ghost var s := t;
    while pb' <= pc && Call(cmp, a[pb'], a[lo]) <= 0
      invariant s == a[..] && Rearranged(s, t, lo, hi) && pb <= pb'
      invariant FatRegions(s, cmp, lo, hi, pa', pb', pc, pd)
      invariant !swapped ==> s == t
    {
      if Call(cmp, a[pb'], a[lo]) == 0 {
        swapped := true;
        Swap(a, pa', pb');
        SwapRearranges(s, t, a[..], lo, hi, pa', pb');
        EqualJoinsLeft(s, a[..], cmp, lo, hi, pa', pb', pc, pd);
        s := a[..];
        pa' := pa' + 1;
      }
      pb' := pb' + 1;
    }
  }

  /** Second inner loop: retreat over elements not below the pivot, setting the equal ones aside on the right. */
  method ScanDown<T>(a: array<T>, cmp: (T, T) -> int, lo: nat, hi: nat, pa: nat, pb: nat, pc: int, pd: int)
    returns (pc': int, pd': int, swapped: bool)
    requires hi <= a.Length && FatRegions(a[..], cmp, lo, hi, pa, pb, pc, pd)
    modifies a
    ensures Rearranged(a[..], old(a[..]), lo, hi) && FatRegions(a[..], cmp, lo, hi, pa, pb, pc', pd')
    ensures pc' <= pc && (pb <= pc' ==> Call(cmp, a[..][pc'], a[..][lo]) < 0)
    ensures pb <= pc' ==> a[..][pb] == old(a[..])[pb] && a[..][lo] == old(a[..])[lo]
    ensures !swapped ==> a[..] == old(a[..])
  {
    pc', pd', swapped := pc, pd, false;
    ghost var t := a[..];
    ghost var s := t;
    while pb <= pc' && Call(cmp, a[pc'], a[lo]) >= 0
      invariant s == a[..] && Rearranged(s, t, lo, hi) && pc' <= pc
      invariant FatRegions(s, cmp, lo, hi, pa, pb, pc', pd')
      invariant pb <= pc' ==> s[pb] == t[pb] && s[lo] == t[lo]
      invariant !swapped ==> s == t
    {
      if Call(cmp, a[pc'], a[lo]) == 0 {
        swapped := true;
        Swap(a, pc', pd');
        SwapRearranges(s, t, a[..], lo, hi, pc', pd');
        EqualJoinsRight(s, a[..], cmp, lo, hi, pa, pb, pc', pd');
        s := a[..];
        pd' := pd' - 1;
      }
      pc' := pc' - 1;
    }
  }

  /** The partitioning loop: afterwards nothing is unseen. */
  method FatPartition<T>(a: array<T>, cmp: (T, T) -> int, lo: nat, hi: nat)
    returns (pa: nat, pb: nat, pc: int, pd: int, swapped: bool)
    requires lo + 2 <= hi <= a.Length
    modifies a
    ensures Rearranged(a[..], old(a[..]), lo, hi)
    ensures pb == pc + 1 && FatRegions(a[..], cmp, lo, hi, pa, pb, pc, pd)
    ensures !swapped ==> a[..] == old(a[..])
  {
    pa, pb, pc, pd, swapped := lo + 1, lo + 1, hi - 1, hi - 1, false;
    ghost var t := a[..];
    while true
      invariant Rearranged(a[..], t, lo, hi) && FatRegions(a[..], cmp, lo, hi, pa, pb, pc, pd)
      invariant !swapped ==> a[..] == t
      decreases pc - pb
    {
      var sw;
      pa, pb, sw := ScanUp(a, cmp, lo, hi, pa, pb, pc, pd);
      swapped := swapped || sw;
      pc, pd, sw := ScanDown(a, cmp, lo, hi, pa, pb, pc, pd);
      swapped := swapped || sw;
      if pb > pc {
        return;
      }
      ghost var s := a[..];
      Swap(a, pb, pc);
      SwapRearranges(s, t, a[..], lo, hi, pb, pc);
      TradePlaces(s, a[..], cmp, lo, hi, pa, pb, pc, pd);
      swapped, pb, pc := true, pb + 1, pc - 1;
    }
  }

  /** The finished three-way partition around `v`. */
  ghost predicate ThreeWay<T>(s: seq<T>, cmp: (T, T) -> int, lo: nat, hi: nat, less: nat, greater: nat, v: T) {
    lo + less <= hi - greater && hi <= |s| &&
    AllSign(s, cmp, lo, lo + less, v, -1) && AllSign(s, cmp, lo + less, hi - greater, v, 0) &&
    AllSign(s, cmp, hi - greater, hi, v, 1)
  }

  /** After the first vector swap: less, equal, greater, and the equal ones still at the right end. */
  ghost predicate HalfGathered<T>(s: seq<T>, cmp: (T, T) -> int, lo: nat, hi: nat, less: nat, pb: int, pd: int, v: T) {
    lo + less <= pb <= pd + 1 <= hi <= |s| &&
    AllSign(s, cmp, lo, lo + less, v, -1) && AllSign(s, cmp, lo + less, pb, v, 0) &&
    AllSign(s, cmp, pb, pd + 1, v, 1) && AllSign(s, cmp, pd + 1, hi, v, 0)
  }

  /** First vector swap: the equal elements set aside on the left move to the middle. */
  lemma GatherLeft<T(!new)>(s: seq<T>, u: seq<T>, cmp: (T, T) -> int, lo: nat, hi: nat, pa: int, pb: int, pd: int,
           r: nat)
    requires IsPreorder(cmp) && FatRegions(s, cmp, lo, hi, pa, pb, pb - 1, pd)
    requires r == if pa - lo < pb - pa then pa - lo else pb - pa
    requires StretchesExchanged(s, u, lo, pb - r, r)
    ensures HalfGathered(u, cmp, lo, hi, pb - pa, pb, pd, s[lo])
  {
    assert Mirrors(cmp, s[lo], s[lo]);
  }

  /** Second vector swap: the equal elements set aside on the right move to the middle. */
  lemma GatherRight<T>(s: seq<T>, u: seq<T>, cmp: (T, T) -> int, lo: nat, hi: nat, less: nat, pb: int, pd: int, r: nat,
           v: T)
    requires HalfGathered(s, cmp, lo, hi, less, pb, pd, v)
    requires r == if pd - pb + 1 < hi - pd - 1 then pd - pb + 1 else hi - pd - 1
    requires StretchesExchanged(s, u, pb, hi - r, r)
    ensures ThreeWay(u, cmp, lo, hi, less, pd + 1 - pb, v)
  {
  }

  lemma ExchangeRearranges<T>(s: seq<T>, t: seq<T>, u: seq<T>, lo: nat, hi: nat, i: nat, j: nat, r: nat)
    requires Rearranged(s, t, lo, hi) && lo <= i && i + r <= j && j + r <= hi && StretchesExchanged(s, u, i, j, r)
    ensures Rearranged(u, t, lo, hi)
  {
  }

  method GatherFromLeft<T(!new)>(a: array<T>, cmp: (T, T) -> int, lo: nat, hi: nat, pa: nat, pb: nat, pd: int)
    requires IsPreorder(cmp) && hi <= a.Length && FatRegions(a[..], cmp, lo, hi, pa, pb, pb - 1, pd)
    modifies a
    ensures Rearranged(a[..], old(a[..]), lo, hi)
    ensures HalfGathered(a[..], cmp, lo, hi, pb - pa, pb, pd, old(a[..])[lo])
  {
    ghost var s := a[..];
    var r := if pa - lo < pb - pa then pa - lo else pb - pa;
    VecSwap(a, lo, pb - r, r);
    GatherLeft(s, a[..], cmp, lo, hi, pa, pb, pd, r);
    ExchangeRearranges(s, s, a[..], lo, hi, lo, pb - r, r);
  }

  method GatherFromRight<T>(a: array<T>, cmp: (T, T) -> int, lo: nat, hi: nat, ghost less: nat, pb: nat, pc: int,
           pd: int, ghost v: T)
    requires hi <= a.Length && pb == pc + 1 && HalfGathered(a[..], cmp, lo, hi, less, pb, pd, v)
    modifies a
    ensures Rearranged(a[..], old(a[..]), lo, hi)
    ensures ThreeWay(a[..], cmp, lo, hi, less, pd - pc, v)
  {
    hide AllSign, StretchesExchanged;
    ghost var s := a[..];
    var r := if pd - pc < hi - pd - 1 then pd - pc else hi - pd - 1;
    VecSwap(a, pb, hi - r, r);
    GatherRight(s, a[..], cmp, lo, hi, less, pb, pd, r, v);
    ExchangeRearranges(s, s, a[..], lo, hi, pb, hi - r, r);
  }

  /** One round on a segment of at least seven elements: partition it, or sort it outright when nothing moved. */
  method Partition<T(!new)>(a: array<T>, cmp: (T, T) -> int, lo: nat, n: nat)
    returns (done: bool, less: nat, greater: nat, ghost v: T)
    requires IsPreorder(cmp) && n >= 7 && lo + n <= a.Length
    modifies a
    ensures Rearranged(a[..], old(a[..]), lo, lo + n) && less + greater < n
    ensures if done then Sorted(a[..], cmp, lo, lo + n) else ThreeWay(a[..], cmp, lo, lo + n, less, greater, v)
  {
    ghost var t := a[..];
    var pm := PivotIndex(a, cmp, lo, n);
    Swap(a, lo, pm);
    SwapRearranges(t, t, a[..], lo, lo + n, lo, pm);
    var pa, pb, pc, pd, swapped := FatPartition(a, cmp, lo, lo + n);
    v, less, greater := a[lo], pb - pa, pd - pc;
    done := !swapped;
    if done {
      InsertionSort(a, cmp, lo, n);
    } else {
      ghost var s := a[..];
      GatherFromLeft(a, cmp, lo, lo + n, pa, pb, pd);
      ghost var s1 := a[..];
      GatherFromRight(a, cmp, lo, lo + n, less, pb, pc, pd, v);
      RearrangedWiden(a[..], s1, s, lo, lo + n, lo, lo + n);
    }
  }

  /** What the iteration has finished: [lo, b) is sorted and nowhere above what remains in [b, hi). */
  ghost predicate Finished<T>(s: seq<T>, cmp: (T, T) -> int, lo: nat, b: nat, hi: nat) {
    lo <= b <= hi <= |s| && Sorted(s, cmp, lo, b) &&
    forall i, j :: lo <= i < b <= j < hi ==> Call(cmp, s[i], s[j]) <= 0
  }

  /** Rearranging what remains keeps what is finished. */
  lemma RearrangedKeepsFinished<T>(s: seq<T>, t: seq<T>, cmp: (T, T) -> int, lo: nat, b: nat, hi: nat)
    requires Finished(t, cmp, lo, b, hi) && Rearranged(s, t, b, hi)
    ensures Finished(s, cmp, lo, b, hi)
  {
    RearrangedSegment(s, t, b, hi);
    forall j | b <= j < hi
      ensures exists k :: b <= k < hi && s[j] == t[k]
    {
      assert s[b..hi][j - b] in multiset(s[b..hi]);
      assert s[j] in t[b..hi];
      var k :| 0 <= k < hi - b && t[b..hi][k] == s[j];
      assert t[b + k] == s[j];
    }
  }

  /** With the lesser part sorted, everything up to the greater part is finished. */
  lemma FinishMiddle<T(!new)>(s: seq<T>, cmp: (T, T) -> int, lo: nat, b: nat, hi: nat, less: nat, greater: nat, v: T)
    requires IsPreorder(cmp) && Finished(s, cmp, lo, b, hi) && ThreeWay(s, cmp, b, hi, less, greater, v)
    requires Sorted(s, cmp, b, b + less)
    ensures Finished(s, cmp, lo, hi - greater, hi)
  {
    forall i, j | lo <= i < hi - greater && i < j < hi
      ensures Call(cmp, s[i], s[j]) <= 0
    {
      if i >= b && j >= b + less {
        ChainLaws(cmp, s[i], v, s[j]);
        ChainLaws(cmp, s[j], v, s[i]);
      }
    }
  }

  lemma FinishAll<T>(s: seq<T>, cmp: (T, T) -> int, lo: nat, b: nat, hi: nat)
    requires Finished(s, cmp, lo, b, hi) && Sorted(s, cmp, b, hi)
    ensures Sorted(s, cmp, lo, hi) && Finished(s, cmp, lo, hi, hi)
  {
  }

  /** A rearrangement of a part is one of the whole. */
  lemma RearrangedWiden<T>(s: seq<T>, t: seq<T>, u: seq<T>, b: nat, e: nat, lo: nat, hi: nat)
    requires Rearranged(s, t, b, e) && Rearranged(t, u, lo, hi) && lo <= b && e <= hi
    ensures Rearranged(s, u, lo, hi)
  {
  }

  /** Sorting the lesser part disturbs neither the partition nor what is finished. */
  lemma KeepAfterRecursion<T>(s: seq<T>, t: seq<T>, cmp: (T, T) -> int, lo: nat, b: nat, hi: nat, less: nat,
           greater: nat, v: T)
    requires Finished(t, cmp, lo, b, hi) && ThreeWay(t, cmp, b, hi, less, greater, v) && Rearranged(s, t, b, b + less)
    ensures Finished(s, cmp, lo, b, hi) && ThreeWay(s, cmp, b, hi, less, greater, v)
  {
    RearrangedKeepsSign(s, t, cmp, b, b + less, v, -1);
    RearrangedKeepsFinished(s, t, cmp, lo, b, hi);
  }

  /** One pass of the outer loop: partition, recurse on the lesser part, leave the greater one. */
  method Round<T(!new)>(a: array<T>, cmp: (T, T) -> int, ghost lo: nat, b: nat, n: nat) returns (left: nat)
    requires IsPreorder(cmp) && n >= 7 && b + n <= a.Length && Finished(a[..], cmp, lo, b, b + n)
    modifies a
    ensures Rearranged(a[..], old(a[..]), b, b + n)
    ensures left < n && Finished(a[..], cmp, lo, b + n - left, b + n)
    decreases n, 0
  {
    hide ThreeWay, Finished, Sorted;
    ghost var s := a[..];
    var done, less, greater, v := Partition(a, cmp, b, n);
    ghost var s1 := a[..];
    RearrangedKeepsFinished(s1, s, cmp, lo, b, b + n);
    if done {
      FinishAll(s1, cmp, lo, b, b + n);
      return 0;
    }
    if less > 1 {
      QSort(a, cmp, b, less);
      KeepAfterRecursion(a[..], s1, cmp, lo, b, b + n, less, greater, v);
      RearrangedWiden(a[..], s1, s, b, b + less, b, b + n);
    }
    FinishMiddle(a[..], cmp, lo, b, b + n, less, greater, v);
    left := greater;
  }

  /** ctable_qsort_r: recursion on the lesser part, iteration on the greater one. */
  method QSort<T(!new)>(a: array<T>, cmp: (T, T) -> int, lo: nat, count: nat)
    requires IsPreorder(cmp) && lo + count <= a.Length
    modifies a
    ensures Rearranged(a[..], old(a[..]), lo, lo + count)
    ensures Sorted(a[..], cmp, lo, lo + count)
    decreases count, 1
  {
    ghost var u := a[..];
    ghost var s := u;
    var b, n := lo, count;
    while n >= 7
      invariant b + n == lo + count && s == a[..] && Rearranged(s, u, lo, lo + count)
      invariant Finished(s, cmp, lo, b, b + n)
      decreases n
    {
      var left := Round(a, cmp, lo, b, n);
      RearrangedWiden(a[..], s, u, b, b + n, lo, lo + count);
      s := a[..];
      b, n := b + n - left, left;
    }
    InsertionSort(a, cmp, b, n);
    RearrangedKeepsFinished(a[..], s, cmp, lo, b, b + n);
    RearrangedWiden(a[..], s, u, b, b + n, lo, lo + count);
    FinishAll(a[..], cmp, lo, b, b + n);
  }
}
