/** mdb_midl_sort: in-place quicksort with an explicit stack of 64 ints and
    insertion sort for short segments. */
module IdSort {
  import opened IdList

  /** Segments shorter than SMALL + 1 ids are sorted by insertion. */
  const SMALL := 8

  /** sizeof(int) * CHAR_BIT * 2 */
  const STACK_SLOTS := 64

  /** The largest count an `int` can index. */
  const INT_LIMIT := 0x8000_0000

  // ----- rearranging a segment -----

  /** `t` is `s` with the slots l..ir permuted. */
  ghost predicate Rearranged(s: seq<Id>, t: seq<Id>, l: int, ir: int) {
    && |t| == |s| && 0 <= l <= ir + 1 <= |s|
    && multiset(t[l..ir + 1]) == multiset(s[l..ir + 1])
    && (forall k :: 0 <= k < |s| && !(l <= k <= ir) ==> t[k] == s[k])
  }

  /** Every value of the segment was already in the segment. */
  lemma {:induction false} ValueWasThere(s: seq<Id>, t: seq<Id>, l: int, ir: int, k: int) returns (m: int)
    requires Rearranged(s, t, l, ir) && l <= k <= ir
    ensures l <= m <= ir && s[m] == t[k]
  {
    assert t[l..ir + 1][k - l] in multiset(t[l..ir + 1]);
    assert t[k] in s[l..ir + 1];
    var n :| 0 <= n < ir + 1 - l && s[l..ir + 1][n] == t[k];
    m := n + l;
  }

  lemma {:induction false} RearrangedTwice(s: seq<Id>, t: seq<Id>, u: seq<Id>, l: int, ir: int)
    requires Rearranged(s, t, l, ir) && Rearranged(t, u, l, ir)
    ensures Rearranged(s, u, l, ir)
  {
  }

  lemma {:induction false} SwapRearranges(s: seq<Id>, i: int, j: int, l: int, ir: int)
    requires 0 <= l <= i <= ir < |s| && l <= j <= ir
    ensures Rearranged(s, s[i := s[j]][j := s[i]], l, ir)
  {
    var t := s[i := s[j]][j := s[i]];
    var a, b := s[l..ir + 1], t[l..ir + 1];
    assert b == a[i - l := a[j - l]][j - l := a[i - l]];
  }

  lemma {:induction false} WholeIsRearranged(s: seq<Id>, t: seq<Id>, l: int, ir: int, low: int, high: int)
    requires Rearranged(s, t, l, ir) && 0 <= low <= l && ir <= high < |s|
    ensures Rearranged(s, t, low, high)
  {
    assert s[low..high + 1] == s[low..l] + s[l..ir + 1] + s[ir + 1..high + 1];
    assert t[low..high + 1] == t[low..l] + t[l..ir + 1] + t[ir + 1..high + 1];
    assert t[low..l] == s[low..l] && t[ir + 1..high + 1] == s[ir + 1..high + 1];
  }

  method Swap(a: array<Id>, i: int, j: int, ghost l: int, ghost ir: int)
    requires 0 <= l <= i <= ir < a.Length && l <= j <= ir
    modifies a
    ensures a[i] == old(a[j]) && a[j] == old(a[i])
    ensures forall k :: 0 <= k < a.Length && k != i && k != j ==> a[k] == old(a[k])
    ensures Rearranged(old(a[..]), a[..], l, ir)
  {
    SwapRearranges(a[..], i, j, l, ir);
    ghost var before := a[..];
    a[i], a[j] := a[j], a[i];
    assert a[..] == before[i := before[j]][j := before[i]];
  }

  // ----- insertion sort -----

  ghost predicate SortedSlots(s: seq<Id>, l: int, ir: int)
    requires 0 <= l && ir < |s|
  {
    forall p, q :: l <= p < q <= ir ==> s[p] >= s[q]
  }

  /** Slots i+1..j of `t` hold what slots i..j-1 of `s` held; slot i is free. */
  ghost predicate Shifted(s: seq<Id>, t: seq<Id>, i: int, j: int) {
    && |t| == |s| && 0 <= i <= j < |s|
    && (forall k :: i < k <= j ==> t[k] == s[k - 1])
    && (forall k :: 0 <= k < |s| && (k <= i || k > j) ==> t[k] == s[k])
  }

  /** Slot j moved down to slot i. */
  lemma {:induction false} ShiftRearranges(s: seq<Id>, t: seq<Id>, i: int, j: int)
    requires Shifted(s, t, i, j)
    ensures Rearranged(s, t[i := s[j]], i, j)
  {
    assert t[i := s[j]][i..j + 1] == [s[j]] + s[i..j];
    assert s[i..j + 1] == s[i..j] + [s[j]];
  }

  lemma {:induction false} ShiftSorts(s: seq<Id>, t: seq<Id>, l: int, i: int, j: int)
    requires Shifted(s, t, i, j) && 1 <= l <= i && SortedSlots(s, l, j - 1)
    requires i > l ==> s[i - 1] >= s[j]
    requires forall k :: i <= k < j ==> s[k] < s[j]
    ensures SortedSlots(t[i := s[j]], l, j)
  {
    var u := t[i := s[j]];
    forall p, q | l <= p < q <= j
      ensures u[p] >= u[q]
    {
      if p < i {
        assert u[p] == s[p] && (i > l ==> s[p] >= s[i - 1]);
      }
    }
  }

  /** The inner loop: make a free slot for `v`.  The scan is bounded only by
      the first slot of the list, yet it never leaves the segment, since everything before the
      segment is at least as large. */
  method MakeRoom(a: array<Id>, base: nat, l: int, j: int, v: Id) returns (i: int)
    requires base < l < j < a.Length && a[j] == v
    requires forall p :: base < p < l ==> a[p] >= v
    modifies a
    ensures l <= i <= j && Shifted(old(a[..]), a[..], i, j)
    ensures i > l ==> old(a[i - 1]) >= v
    ensures forall k :: i <= k < j ==> old(a[k]) < v
  {
    ghost var before := a[..];
    i := j - 1;
    while i > base && a[i] < v
      invariant l - 1 <= i < j
      invariant Shifted(before, a[..], i + 1, j)
      invariant forall k :: i < k < j ==> before[k] < v
    {
      a[i + 1] := a[i];
      i := i - 1;
    }
    i := i + 1;
  }

  /** One round: slot j goes to its place among the sorted slots l..j-1. */
  method InsertOne(a: array<Id>, base: nat, l: int, j: int, ir: int)
    requires base < l < j <= ir < a.Length
    requires SortedSlots(a[..], l, j - 1)
    requires forall p :: base < p < l ==> a[p] >= a[j]
    modifies a
    ensures SortedSlots(a[..], l, j)
    ensures Rearranged(old(a[..]), a[..], l, ir)
  {
    ghost var before := a[..];
    var v := a[j];
    var i := MakeRoom(a, base, l, j, v);
    ghost var shifted := a[..];
    a[i] := v;
    assert a[..] == shifted[i := v];
    ShiftSorts(before, shifted, l, i, j);
    ShiftRearranges(before, shifted, i, j);
    WholeIsRearranged(before, a[..], i, j, l, ir);
  }

  method InsertionSort(a: array<Id>, base: nat, l: int, ir: int)
    requires base < l <= ir + 1 <= a.Length
    requires forall p, q :: base < p < l <= q <= ir ==> a[p] >= a[q]
    modifies a
    ensures SortedSlots(a[..], l, ir)
    ensures Rearranged(old(a[..]), a[..], l, ir)
  {
    var j := l + 1;
    while j <= ir
      invariant l + 1 <= j && (j <= ir + 1 || l >= ir)
      invariant SortedSlots(a[..], l, if j - 1 <= ir then j - 1 else ir)
      invariant Rearranged(old(a[..]), a[..], l, ir)
    {
      forall p | base < p < l
        ensures a[p] >= a[j]
      {
        var m := ValueWasThere(old(a[..]), a[..], l, ir, j);
      }
      ghost var before := a[..];
      InsertOne(a, base, l, j, ir);
      RearrangedTwice(old(a[..]), before, a[..], l, ir);
      j := j + 1;
    }
  }

  // ----- partition -----

  /** Both slots lie in l..ir. */
  predicate Both(p: int, q: int, l: int, ir: int) {
    l <= p <= ir && l <= q <= ir
  }

  /** After the partition, only pairs inside l..j-1 or inside i..ir are unordered. */
  ghost predicate Parted(s: seq<Id>, l: int, ir: int, i: int, j: int)
    requires 0 <= l && ir < |s|
  {
    forall p, q :: l <= p < q <= ir && !Both(p, q, l, j - 1) && !Both(p, q, i, ir) ==> s[p] >= s[q]
  }

  /** Median of three: afterwards slot l + 1 holds the pivot, slot l is at least
      as large and slot ir at most as large. */
  method MedianOfThree(a: array<Id>, l: int, ir: int)
    requires 1 <= l && l + SMALL <= ir < a.Length
    modifies a
    ensures a[l] >= a[l + 1] >= a[ir]
    ensures Rearranged(old(a[..]), a[..], l, ir)
  {
    Swap(a, (l + ir) / 2, l + 1, l, ir);
    if a[l] < a[ir] {
      Swap(a, l, ir, l, ir);
    }
    if a[l + 1] < a[ir] {
      Swap(a, l + 1, ir, l, ir);
    }
    if a[l] < a[l + 1] {
      Swap(a, l, l + 1, l, ir);
    }
  }

  /** Slots l..i are at least the pivot, slots j..ir at most: each side stops
      the other side's unguarded scan. */
  ghost predicate ScanInv(s: seq<Id>, l: int, ir: int, i: int, j: int, pivot: Id) {
    && 1 <= l && ir < |s| && l + 1 <= i <= j <= ir && l + 2 <= ir
    && s[l + 1] == pivot
    && (i == l + 1 <==> j == ir)
    && (forall p :: l <= p <= i ==> s[p] >= pivot)
    && (forall q :: j <= q <= ir ==> s[q] <= pivot)
  }

  /** do i++; while (ids[i] > a);  do j--; while (ids[j] < a); */
  method ScanBoth(a: array<Id>, l: int, ir: int, i: int, j: int, pivot: Id) returns (i': int, j': int)
    requires ScanInv(a[..], l, ir, i, j, pivot)
    ensures i < i' <= ir && l + 1 <= j' < j
    ensures a[i'] <= pivot <= a[j']
    ensures forall p :: l <= p < i' ==> a[p] >= pivot
    ensures forall q :: j' < q <= ir ==> a[q] <= pivot
  {
    i' := i + 1;
    while a[i'] > pivot
      invariant i < i' <= ir
      invariant forall p :: l <= p < i' ==> a[p] >= pivot
      decreases ir - i'
    {
      i' := i' + 1;
    }
    j' := j - 1;
    while a[j'] < pivot
      invariant l + 1 <= j' < j
      invariant forall q :: j' < q <= ir ==> a[q] <= pivot
      decreases j'
    {
      j' := j' - 1;
    }
  }

  /** Where the two scans stopped. */
  ghost predicate Stopped(s: seq<Id>, l: int, ir: int, i: int, j: int, pivot: Id) {
    && 1 <= l && ir < |s| && l + 1 < i <= ir && l + 1 <= j < ir
    && s[l + 1] == pivot && s[i] <= pivot <= s[j]
    && (forall p :: l <= p < i ==> s[p] >= pivot)
    && (forall q :: j < q <= ir ==> s[q] <= pivot)
  }

  lemma {:induction false} SwapReadiesScan(s: seq<Id>, l: int, ir: int, i: int, j: int, pivot: Id)
    requires Stopped(s, l, ir, i, j, pivot) && i <= j
    ensures ScanInv(s[i := s[j]][j := s[i]], l, ir, i, j, pivot)
  {
  }

  lemma {:induction false} PivotParts(s: seq<Id>, l: int, ir: int, i: int, j: int)
    requires 0 <= l && l + 1 < |s| && Stopped(s, l, ir, i, j, s[l + 1]) && j < i
    ensures Parted(s[l + 1 := s[j]][j := s[l + 1]], l, ir, i, j)
  {
    var t, pivot := s[l + 1 := s[j]][j := s[l + 1]], s[l + 1];
    assert forall p :: l <= p < i ==> t[p] >= pivot;
    assert forall q :: j <= q <= ir ==> t[q] <= pivot;
  }

  /** Exchange slots i and j and scan on. */
  method SwapAndScan(a: array<Id>, l: int, ir: int, i: int, j: int, pivot: Id) returns (i': int, j': int)
    requires Stopped(a[..], l, ir, i, j, pivot) && i <= j
    modifies a
    ensures i < i' && j' < j && Stopped(a[..], l, ir, i', j', pivot)
    ensures Rearranged(old(a[..]), a[..], l, ir)
  {
    SwapReadiesScan(a[..], l, ir, i, j, pivot);
    SwapRearranges(a[..], i, j, l, ir);
    ghost var before := a[..];
    a[i], a[j] := a[j], a[i];
    assert a[..] == before[i := before[j]][j := before[i]];
    i', j' := ScanBoth(a, l, ir, i, j, pivot);
  }

  method PlacePivot(a: array<Id>, l: int, ir: int, i: int, j: int, pivot: Id)
    requires Stopped(a[..], l, ir, i, j, pivot) && j < i
    modifies a
    ensures Parted(a[..], l, ir, i, j)
    ensures Rearranged(old(a[..]), a[..], l, ir)
  {
    PivotParts(a[..], l, ir, i, j);
    SwapRearranges(a[..], l + 1, j, l, ir);
    ghost var before := a[..];
    a[l + 1] := a[j];
    a[j] := pivot;
    assert a[..] == before[l + 1 := before[j]][j := before[l + 1]];
  }

  method Partition(a: array<Id>, l: int, ir: int) returns (i: int, j: int)
    requires 1 <= l && l + SMALL <= ir < a.Length
    modifies a
    ensures l + 1 <= j < i <= ir
    ensures Parted(a[..], l, ir, i, j)
    ensures Rearranged(old(a[..]), a[..], l, ir)
  {
    MedianOfThree(a, l, ir);
    var pivot := a[l + 1];
    i, j := ScanBoth(a, l, ir, l + 1, ir, pivot);
    while j >= i
      invariant Stopped(a[..], l, ir, i, j, pivot)
      invariant Rearranged(old(a[..]), a[..], l, ir)
      decreases j - i
    {
      i, j := SwapAndScan(a, l, ir, i, j, pivot);
    }
    PlacePivot(a, l, ir, i, j, pivot);
  }

  // ----- the whole sort -----

  datatype Segment = Segment(l: int, ir: int)

  predicate Apart(s: Segment, t: Segment) {
    s.ir < t.l || t.ir < s.l
  }

  /** Segments still to be sorted: within low..high and pairwise apart. */
  ghost predicate SegmentsOk(segs: seq<Segment>, low: int, high: int) {
    && (forall m :: 0 <= m < |segs| ==> low <= segs[m].l <= segs[m].ir + 1 <= high + 1)
    && (forall m, k :: 0 <= m < k < |segs| ==> Apart(segs[m], segs[k]))
  }

  ghost predicate Together(segs: seq<Segment>, p: int, q: int) {
    exists m :: 0 <= m < |segs| && Both(p, q, segs[m].l, segs[m].ir)
  }

  /** Pairs of slots that do not share a pending segment are in order. */
  ghost predicate OrderedApart(s: seq<Id>, low: int, high: int, segs: seq<Segment>)
    requires 0 <= low && high < |s|
  {
    forall p, q :: low <= p < q <= high && !Together(segs, p, q) ==> s[p] >= s[q]
  }

  /** Rearranging the last pending segment keeps every pair that does not lie in
      it in order. */
  lemma {:induction false} RearrangeKeepsOrder(s: seq<Id>, t: seq<Id>, low: int, high: int, segs: seq<Segment>, p: int,
                                               q: int)
    requires |segs| > 0 && SegmentsOk(segs, low, high) && 0 <= low && high < |s| && OrderedApart(s, low, high, segs)
    requires var c := segs[|segs| - 1]; Rearranged(s, t, c.l, c.ir) && !Both(p, q, c.l, c.ir)
    requires low <= p < q <= high && !Together(segs, p, q)
    ensures t[p] >= t[q]
  {
    var c := segs[|segs| - 1];
    var p', q' := p, q;
    if c.l <= p <= c.ir {
      p' := ValueWasThere(s, t, c.l, c.ir, p);
    }
    if c.l <= q <= c.ir {
      q' := ValueWasThere(s, t, c.l, c.ir, q);
    }
    forall m | 0 <= m < |segs|
      ensures !Both(p', q', segs[m].l, segs[m].ir)
    {
      assert !Both(p, q, segs[m].l, segs[m].ir);
      assert m < |segs| - 1 ==> Apart(segs[m], c);
    }
  }

  lemma {:induction false} AfterInsertion(s: seq<Id>, t: seq<Id>, low: int, high: int, segs: seq<Segment>)
    requires |segs| > 0 && SegmentsOk(segs, low, high) && 0 <= low && high < |s| && OrderedApart(s, low, high, segs)
    requires var c := segs[|segs| - 1]; Rearranged(s, t, c.l, c.ir) && SortedSlots(t, c.l, c.ir)
    ensures OrderedApart(t, low, high, segs[..|segs| - 1])
  {
    var c, rest := segs[|segs| - 1], segs[..|segs| - 1];
    forall p, q | low <= p < q <= high && !Together(rest, p, q)
      ensures t[p] >= t[q]
    {
      if !Both(p, q, c.l, c.ir) {
        forall m | 0 <= m < |segs|
          ensures !Both(p, q, segs[m].l, segs[m].ir)
        {
          if m < |rest| {
            assert !Both(p, q, rest[m].l, rest[m].ir);
          }
        }
        RearrangeKeepsOrder(s, t, low, high, segs, p, q);
      }
    }
  }

  lemma {:induction false} AfterPartition(s: seq<Id>, t: seq<Id>, low: int, high: int, segs: seq<Segment>,
                                          segs': seq<Segment>, i: int, j: int)
    requires |segs| > 0 && SegmentsOk(segs, low, high) && 0 <= low && high < |s| && OrderedApart(s, low, high, segs)
    requires var c := segs[|segs| - 1];
             && Rearranged(s, t, c.l, c.ir) && Parted(t, c.l, c.ir, i, j)
             && c.l < j < i <= c.ir
             && (segs' == segs[..|segs| - 1] + [Segment(i, c.ir), Segment(c.l, j - 1)] ||
                 segs' == segs[..|segs| - 1] + [Segment(c.l, j - 1), Segment(i, c.ir)])
    ensures SegmentsOk(segs', low, high) && OrderedApart(t, low, high, segs')
  {
    var c, d := segs[|segs| - 1], |segs| - 1;
    assert forall m :: 0 <= m < d ==> segs'[m] == segs[m] && Apart(segs[m], c);
    forall p, q | low <= p < q <= high && !Together(segs', p, q)
      ensures t[p] >= t[q]
    {
      assert !Both(p, q, segs'[d].l, segs'[d].ir) && !Both(p, q, segs'[d + 1].l, segs'[d + 1].ir);
      if !Both(p, q, c.l, c.ir) {
        forall m | 0 <= m < |segs|
          ensures !Both(p, q, segs[m].l, segs[m].ir)
        {
          if m < d {
            assert !Both(p, q, segs'[m].l, segs'[m].ir);
          }
        }
        RearrangeKeepsOrder(s, t, low, high, segs, p, q);
      }
    }
  }

  // ----- depth of the stack -----

  function Pow2(d: nat): nat {
    if d == 0 then 1 else 2 * Pow2(d - 1)
  }

  /** n halved d times. */
  function Halved(n: nat, d: nat): nat {
    if d == 0 then n else Halved(n, d - 1) / 2
  }

  lemma {:induction false} HalvedBelow(n: nat, d: nat, b: nat)
    requires n < b * Pow2(d)
    ensures Halved(n, d) < b
  {
    if d > 0 {
      assert b * Pow2(d) == (2 * b) * Pow2(d - 1);
      HalvedBelow(n, d - 1, 2 * b);
    }
  }

  lemma {:induction false} HalvedShrinks(n: nat, d: nat, e: nat)
    requires d <= e
    ensures Halved(n, e) <= Halved(n, d)
  {
    if d < e {
      HalvedShrinks(n, d, e - 1);
    }
  }

  function Size(s: Segment): int {
    s.ir - s.l + 1
  }

  /** The larger part is stacked and the smaller one split further, so each
      level at least halves the size. */
  ghost predicate Halving(segs: seq<Segment>, n: nat) {
    forall m :: 0 <= m < |segs| ==> Size(segs[m]) <= Halved(n, m)
  }

  /** A segment that is still split has more than SMALL ids, so there are few
      enough levels for the stack of any int-sized list. */
  lemma {:induction false} StackSuffices(segs: seq<Segment>, n: nat)
    requires |segs| > 0 && Halving(segs, n) && n < INT_LIMIT
    requires Size(segs[|segs| - 1]) > SMALL
    ensures 2 * |segs| < STACK_SLOTS
  {
    var d := |segs| - 1;
    assert Size(segs[d]) <= Halved(n, d);
    if d >= 28 {
      assert Pow2(7) == 0x80;
      assert Pow2(14) == 0x4000;
      assert Pow2(21) == 0x20_0000;
      assert Pow2(28) == 0x1000_0000;
      HalvedBelow(n, 28, 8);
      HalvedShrinks(n, 28, d);
      assert false;
    }
  }

  /** Termination: splitting and finishing a segment both lower this number. */
  ghost function Work(segs: seq<Segment>): int {
    if segs == [] then 0 else Work(segs[..|segs| - 1]) + 2 * Size(segs[|segs| - 1]) + 1
  }

  lemma {:induction false} WorkIsNatural(segs: seq<Segment>, low: int, high: int)
    requires SegmentsOk(segs, low, high)
    ensures Work(segs) >= 0
  {
    if segs != [] {
      assert SegmentsOk(segs[..|segs| - 1], low, high);
      WorkIsNatural(segs[..|segs| - 1], low, high);
    }
  }

  lemma {:induction false} WorkOfSplit(rest: seq<Segment>, s: Segment, t: Segment)
    ensures Work(rest + [s, t]) == Work(rest) + 2 * Size(s) + 2 * Size(t) + 2
  {
    var segs := rest + [s, t];
    assert segs[..|segs| - 1] == rest + [s];
    assert (rest + [s])[..|rest|] == rest;
  }

  // ----- the loop -----

  /** istack holds every pending segment but the current one. */
  ghost predicate OnStack(istack: seq<int>, segs: seq<Segment>) {
    && |istack| == STACK_SLOTS && 2 * |segs| - 2 < STACK_SLOTS
    && forall m :: 0 <= m < |segs| - 1 ==> istack[2 * m + 1] == segs[m].l && istack[2 * m + 2] == segs[m].ir
  }

  ghost predicate SortInv(s: seq<Id>, low: int, high: int, segs: seq<Segment>) {
    && 1 <= low && low <= high + 1 <= |s|
    && SegmentsOk(segs, low, high)
    && OrderedApart(s, low, high, segs)
    && Halving(segs, high - low + 1)
    && Work(segs) >= 0
  }

  lemma {:induction false} FinishSegment(s: seq<Id>, t: seq<Id>, low: int, high: int, segs: seq<Segment>)
    requires |segs| > 0 && SortInv(s, low, high, segs)
    requires var c := segs[|segs| - 1]; Rearranged(s, t, c.l, c.ir) && SortedSlots(t, c.l, c.ir)
    ensures SortInv(t, low, high, segs[..|segs| - 1]) && Work(segs[..|segs| - 1]) < Work(segs)
    ensures Rearranged(s, t, low, high)
  {
    var c := segs[|segs| - 1];
    AfterInsertion(s, t, low, high, segs);
    WholeIsRearranged(s, t, c.l, c.ir, low, high);
    WorkIsNatural(segs[..|segs| - 1], low, high);
  }

  lemma {:induction false} SplitSegment(s: seq<Id>, t: seq<Id>, low: int, high: int, segs: seq<Segment>,
                     large: Segment, small: Segment, i: int, j: int)
    requires |segs| > 0 && SortInv(s, low, high, segs)
    requires var c := segs[|segs| - 1];
             && Rearranged(s, t, c.l, c.ir) && Parted(t, c.l, c.ir, i, j) && c.l < j < i <= c.ir
             && {large, small} == {Segment(i, c.ir), Segment(c.l, j - 1)}
    requires Size(small) <= Size(large)
    ensures var segs' := segs[..|segs| - 1] + [large, small];
            SortInv(t, low, high, segs') && Work(segs') < Work(segs)
    ensures Rearranged(s, t, low, high)
  {
    var c, rest := segs[|segs| - 1], segs[..|segs| - 1];
    var segs' := rest + [large, small];
    assert Segment(i, c.ir) in {large, small} && Segment(c.l, j - 1) in {large, small};
    AfterPartition(s, t, low, high, segs, segs', i, j);
    WholeIsRearranged(s, t, c.l, c.ir, low, high);
    WorkOfSplit(rest, large, small);
    WorkIsNatural(segs', low, high);
    assert forall m :: 0 <= m < |rest| ==> segs'[m] == segs[m];
  }

  lemma {:induction false} NothingPending(s: seq<Id>, low: int, high: int)
    requires SortInv(s, low, high, [])
    ensures Descending(s[low..high + 1])
  {
    var t := s[low..high + 1];
    forall p, q | 0 <= p < q < |t|
      ensures t[p] >= t[q]
    {
      assert !Together([], low + p, low + q);
      assert s[low + p] >= s[low + q];
    }
  }

  lemma {:induction false} OneSegment(s: seq<Id>, low: int, high: int)
    requires 1 <= low && low <= high + 1 <= |s|
    ensures SortInv(s, low, high, [Segment(low, high)])
  {
    var segs := [Segment(low, high)];
    forall p, q | low <= p < q <= high
      ensures Together(segs, p, q)
    {
      assert Both(p, q, segs[0].l, segs[0].ir);
    }
    assert segs[..0] == [];
  }

  /** The slots before the current segment are at least as large as its ids. */
  lemma {:induction false} BelowIsLarger(s: seq<Id>, low: int, high: int, segs: seq<Segment>)
    requires |segs| > 0 && SortInv(s, low, high, segs)
    ensures var c := segs[|segs| - 1]; forall p, q :: low <= p < c.l <= q <= c.ir ==> s[p] >= s[q]
  {
    var c := segs[|segs| - 1];
    forall p, q | low <= p < c.l <= q <= c.ir
      ensures s[p] >= s[q]
    {
      forall m | 0 <= m < |segs|
        ensures !Both(p, q, segs[m].l, segs[m].ir)
      {
        assert m < |segs| - 1 ==> Apart(segs[m], c);
      }
    }
  }

  /** Insertion sort of the current segment. */
  method SortCurrent(ids: array<Id>, base: nat, l: int, ir: int, ghost high: int, ghost segs: seq<Segment>)
    requires |segs| > 0 && SortInv(ids[..], base + 1, high, segs) && segs[|segs| - 1] == Segment(l, ir)
    modifies ids
    ensures SortInv(ids[..], base + 1, high, segs[..|segs| - 1]) && Work(segs[..|segs| - 1]) < Work(segs)
    ensures Rearranged(old(ids[..]), ids[..], base + 1, high)
  {
    BelowIsLarger(ids[..], base + 1, high, segs);
    InsertionSort(ids, base, l, ir);
    FinishSegment(old(ids[..]), ids[..], base + 1, high, segs);
  }

  /** The pending segments after a split: the larger part below the smaller. */
  ghost function SplitSegments(segs: seq<Segment>, i: int, j: int): seq<Segment>
    requires |segs| > 0
  {
    var c := segs[|segs| - 1];
    var left, right := Segment(c.l, j - 1), Segment(i, c.ir);
    segs[..|segs| - 1] + if Size(right) >= Size(left) then [right, left] else [left, right]
  }

  /** Partition of the current segment. */
  method SplitCurrent(ids: array<Id>, l: int, ir: int, ghost low: int, ghost high: int, ghost segs: seq<Segment>)
    returns (i: int, j: int)
    requires |segs| > 0 && SortInv(ids[..], low, high, segs) && segs[|segs| - 1] == Segment(l, ir)
    requires ir - l >= SMALL
    modifies ids
    ensures SortInv(ids[..], low, high, SplitSegments(segs, i, j)) && Work(SplitSegments(segs, i, j)) < Work(segs)
    ensures Rearranged(old(ids[..]), ids[..], low, high)
  {
    i, j := Partition(ids, l, ir);
    ghost var left, right := Segment(l, j - 1), Segment(i, ir);
    if ir - i + 1 >= j - l {
      SplitSegment(old(ids[..]), ids[..], low, high, segs, right, left, i, j);
    } else {
      SplitSegment(old(ids[..]), ids[..], low, high, segs, left, right, i, j);
    }
  }

  /** mdb_midl_sort of the list whose count is in slot `base`. */
  method Sort(ids: array<Id>, base: nat)
    requires base < ids.Length && base + ids[base] < ids.Length && ids[base] < INT_LIMIT
    modifies ids
    ensures ids[base] == old(ids[base])
    ensures Descending(ids[base + 1..base + 1 + ids[base]])
    ensures multiset(ids[base + 1..base + 1 + ids[base]]) == old(multiset(ids[base + 1..base + 1 + ids[base]]))
    ensures forall k :: 0 <= k < ids.Length && !(base < k <= base + ids[base]) ==> ids[k] == old(ids[k])
  {
    SortSlots(ids, base, base + ids[base]);
    NothingPending(ids[..], base + 1, base + ids[base]);
  }

  lemma {:induction false} Pushed(istack: seq<int>, segs: seq<Segment>, i: int, j: int)
    requires |segs| > 0 && OnStack(istack, segs) && 2 * |segs| < STACK_SLOTS
    ensures var segs' := SplitSegments(segs, i, j);
            var d := |segs| - 1;
            OnStack(istack[2 * d + 2 := segs'[d].ir][2 * d + 1 := segs'[d].l], segs')
  {
  }

  lemma {:induction false} Popped(istack: seq<int>, segs: seq<Segment>)
    requires |segs| > 1 && OnStack(istack, segs)
    ensures var d := |segs| - 1;
            && OnStack(istack, segs[..d])
            && segs[d - 1] == Segment(istack[2 * d - 1], istack[2 * d])
  {
  }

  method Push(istack: array<int>, jstack: int, l: int, ir: int, ghost segs: seq<Segment>, ghost i: int, ghost j: int)
    requires |segs| > 0 && OnStack(istack[..], segs) && jstack == 2 * |segs| < STACK_SLOTS
    requires SplitSegments(segs, i, j)[|segs| - 1] == Segment(l, ir)
    modifies istack
    ensures OnStack(istack[..], SplitSegments(segs, i, j))
  {
    Pushed(istack[..], segs, i, j);
    ghost var before := istack[..];
    istack[jstack] := ir;
    istack[jstack - 1] := l;
    assert istack[..] == before[jstack := ir][jstack - 1 := l];
  }

  /** What the loop of the sort keeps: `segs` are the segments still to do. */
  ghost predicate LoopInv(s: seq<Id>, low: int, high: int, istack: seq<int>, l: int, ir: int, jstack: int,
                          segs: seq<Segment>) {
    && SortInv(s, low, high, segs) && |segs| > 0
    && segs[|segs| - 1] == Segment(l, ir)
    && jstack == 2 * |segs| - 2
    && OnStack(istack, segs)
  }

  /** A short segment is sorted, and the next one taken from the stack. */
  method FinishAndPop(ids: array<Id>, base: nat, istack: array<int>, l: int, ir: int, jstack: int,
                      ghost high: int, ghost segs: seq<Segment>)
    returns (l': int, ir': int)
    requires LoopInv(ids[..], base + 1, high, istack[..], l, ir, jstack, segs) && ir - l < SMALL
    modifies ids
    ensures jstack == 0 ==> SortInv(ids[..], base + 1, high, [])
    ensures jstack > 0 ==> LoopInv(ids[..], base + 1, high, istack[..], l', ir', jstack - 2, segs[..|segs| - 1])
    ensures Work(segs[..|segs| - 1]) < Work(segs)
    ensures Rearranged(old(ids[..]), ids[..], base + 1, high)
  {
    l', ir' := l, ir;
    ghost var before := istack[..];
    SortCurrent(ids, base, l, ir, high, segs);
    if jstack > 0 {
      Popped(before, segs);
      ir' := istack[jstack];
      l' := istack[jstack - 1];
    } else {
      assert segs[..0] == [];
    }
  }

  /** A long segment is split, and its larger part put on the stack. */
  method SplitAndPush(ids: array<Id>, istack: array<int>, l: int, ir: int, jstack: int,
                      ghost low: int, ghost high: int, ghost segs: seq<Segment>)
    returns (l': int, ir': int, ghost segs': seq<Segment>)
    requires LoopInv(ids[..], low, high, istack[..], l, ir, jstack, segs) && ir - l >= SMALL
    requires high - low + 1 < INT_LIMIT
    modifies ids, istack
    ensures LoopInv(ids[..], low, high, istack[..], l', ir', jstack + 2, segs')
    ensures Work(segs') < Work(segs)
    ensures Rearranged(old(ids[..]), ids[..], low, high)
  {
    StackSuffices(segs, high - low + 1);
    var i, j := SplitCurrent(ids, l, ir, low, high, segs);
    l', ir', segs' := l, ir, SplitSegments(segs, i, j);
    if ir - i + 1 >= j - l {
      Push(istack, jstack + 2, i, ir, segs, i, j);
      ir' := j - 1;
    } else {
      Push(istack, jstack + 2, l, j - 1, segs, i, j);
      l' := i;
    }
  }

  method SortSlots(ids: array<Id>, base: nat, high: int)
    requires base <= high < ids.Length && high - base < INT_LIMIT
    modifies ids
    ensures SortInv(ids[..], base + 1, high, [])
    ensures Rearranged(old(ids[..]), ids[..], base + 1, high)
  {
    var istack := new int[STACK_SLOTS](_ => 0);
    var l, ir, jstack := base + 1, high, 0;
    ghost var segs := [Segment(l, ir)];
    OneSegment(ids[..], base + 1, high);
    while true
      invariant LoopInv(ids[..], base + 1, high, istack[..], l, ir, jstack, segs)
      invariant Rearranged(old(ids[..]), ids[..], base + 1, high)
      decreases Work(segs)
    {
      if ir - l < SMALL {
        l, ir := FinishAndPop(ids, base, istack, l, ir, jstack, high, segs);
        if jstack == 0 {
          break;
        }
        segs := segs[..|segs| - 1];
        jstack := jstack - 2;
      } else {
        l, ir, segs := SplitAndPush(ids, istack, l, ir, jstack, base + 1, high, segs);
        jstack := jstack + 2;
      }
    }
  }
}
