/** Commit of a nested transaction: the in-place merges of the child's dirty and
    spill lists into those of its parent. */
module ChildCommit {
  import opened IdList
  import opened IdPairs
  import IdSort

  // ----- merging the dirty lists -----

  /** The two lists as one ascending list in which the child's pair wins,
      described from the tails. */
  ghost function Overlay(xs: seq<Pair>, ys: seq<Pair>): seq<Pair>
    decreases |xs| + |ys|
  {
    if ys == [] then xs
    else if xs == [] then ys
    else
      var x, y := xs[|xs| - 1], ys[|ys| - 1];
      if y.mid < x.mid then Overlay(xs[..|xs| - 1], ys) + [x]
      else if y.mid == x.mid then Overlay(xs[..|xs| - 1], ys[..|ys| - 1]) + [y]
      else Overlay(xs, ys[..|ys| - 1]) + [y]
  }

  /** How many page numbers the two lists share. */
  ghost function Shared(xs: seq<Pair>, ys: seq<Pair>): nat
    decreases |xs| + |ys|
  {
    if ys == [] || xs == [] then 0
    else
      var x, y := xs[|xs| - 1], ys[|ys| - 1];
      if y.mid < x.mid then Shared(xs[..|xs| - 1], ys)
      else if y.mid == x.mid then 1 + Shared(xs[..|xs| - 1], ys[..|ys| - 1])
      else Shared(xs, ys[..|ys| - 1])
  }

  lemma {:induction false} OverlayLength(xs: seq<Pair>, ys: seq<Pair>)
    ensures |Overlay(xs, ys)| == |xs| + |ys| - Shared(xs, ys)
    ensures |Overlay(xs, ys)| >= |xs| && |Overlay(xs, ys)| >= |ys|
    decreases |xs| + |ys|
  {
    if ys != [] && xs != [] {
      var x, y := xs[|xs| - 1], ys[|ys| - 1];
      if y.mid < x.mid {
        OverlayLength(xs[..|xs| - 1], ys);
      } else if y.mid == x.mid {
        OverlayLength(xs[..|xs| - 1], ys[..|ys| - 1]);
      } else {
        OverlayLength(xs, ys[..|ys| - 1]);
      }
    }
  }

  ghost predicate AllBelow(s: seq<Pair>, m: nat) {
    forall i :: 0 <= i < |s| ==> s[i].mid < m
  }

  lemma {:induction false} SnocAscends(s: seq<Pair>, p: Pair, m: nat)
    requires Ascending(s) && AllBelow(s, p.mid) && 0 < p.mid < m
    ensures Ascending(s + [p]) && AllBelow(s + [p], m)
  {
  }

  lemma {:induction false} PrefixAscends(s: seq<Pair>, m: nat)
    requires Ascending(s) && s != [] && s[|s| - 1].mid <= m
    ensures Ascending(s[..|s| - 1]) && AllBelow(s[..|s| - 1], m)
    ensures AllBelow(s, m + 1)
    ensures s[|s| - 1].mid < m ==> AllBelow(s, m)
  {
    assert forall i :: 0 <= i < |s| - 1 ==> s[i].mid < s[|s| - 1].mid;
  }

  lemma {:induction false} OverlayAscends(xs: seq<Pair>, ys: seq<Pair>, m: nat)
    requires Ascending(xs) && Ascending(ys) && AllBelow(xs, m) && AllBelow(ys, m)
    ensures Ascending(Overlay(xs, ys)) && AllBelow(Overlay(xs, ys), m)
    decreases |xs| + |ys|
  {
    if ys != [] && xs != [] {
      var x, y := xs[|xs| - 1], ys[|ys| - 1];
      var z := if y.mid < x.mid then x else y;
      PrefixAscends(xs, z.mid);
      PrefixAscends(ys, z.mid);
      if y.mid < x.mid {
        OverlayAscends(xs[..|xs| - 1], ys, x.mid);
        SnocAscends(Overlay(xs[..|xs| - 1], ys), x, m);
      } else if y.mid == x.mid {
        OverlayAscends(xs[..|xs| - 1], ys[..|ys| - 1], y.mid);
        SnocAscends(Overlay(xs[..|xs| - 1], ys[..|ys| - 1]), y, m);
      } else {
        OverlayAscends(xs, ys[..|ys| - 1], y.mid);
        SnocAscends(Overlay(xs, ys[..|ys| - 1]), y, m);
      }
    }
  }

  /** `p` is in the merged list: it is the child's, or the parent's and the
      child has no pair for that page. */
  ghost predicate Wins(xs: seq<Pair>, ys: seq<Pair>, p: Pair) {
    p in ys || (p in xs && p.mid !in Mids(ys))
  }

  lemma {:induction false} LastIsLargest(s: seq<Pair>, p: Pair)
    requires Ascending(s) && s != []
    ensures s == s[..|s| - 1] + [s[|s| - 1]]
    ensures p in s <==> p in s[..|s| - 1] || p == s[|s| - 1]
    ensures p in s ==> p.mid <= s[|s| - 1].mid
    ensures p in s[..|s| - 1] ==> p.mid < s[|s| - 1].mid
    ensures p.mid in Mids(s) <==> p.mid in Mids(s[..|s| - 1]) || p.mid == s[|s| - 1].mid
  {
    var r, x := s[..|s| - 1], s[|s| - 1];
    assert s == r + [x];
    if p.mid in Mids(s) {
      var q :| q in s && q.mid == p.mid;
      assert q in r || q == x;
    }
    if p.mid in Mids(r) {
      var q :| q in r && q.mid == p.mid;
      assert q in s;
    }
    assert x in s;
  }

  lemma {:induction false} OverlayEntries(xs: seq<Pair>, ys: seq<Pair>, p: Pair)
    requires Ascending(xs) && Ascending(ys)
    ensures p in Overlay(xs, ys) <==> Wins(xs, ys, p)
    decreases |xs| + |ys|
  {
    if ys != [] && xs != [] {
      var x, y := xs[|xs| - 1], ys[|ys| - 1];
      LastIsLargest(xs, p);
      LastIsLargest(ys, p);
      LastIsLargest(ys, x);
      if y.mid < x.mid {
        OverlayEntries(xs[..|xs| - 1], ys, p);
        assert x.mid !in Mids(ys);
      } else if y.mid == x.mid {
        OverlayEntries(xs[..|xs| - 1], ys[..|ys| - 1], p);
      } else {
        OverlayEntries(xs, ys[..|ys| - 1], p);
      }
    }
  }

  /** The dirty list of the parent after the merge, as a set of pairs. */
  lemma {:induction false} OverlayIsUnion(xs: seq<Pair>, ys: seq<Pair>)
    requires Ascending(xs) && Ascending(ys)
    ensures Ascending(Overlay(xs, ys))
    ensures Entries(Overlay(xs, ys)) == Entries(ys) + (set p | p in xs && p.mid !in Mids(ys))
    ensures Mids(Overlay(xs, ys)) == Mids(xs) + Mids(ys)
  {
    var m := 1 + (if xs == [] then 0 else xs[|xs| - 1].mid) + (if ys == [] then 0 else ys[|ys| - 1].mid);
    OverlayAscends(xs, ys, m);
    var r := Overlay(xs, ys);
    forall p
      ensures p in r <==> Wins(xs, ys, p)
    {
      OverlayEntries(xs, ys, p);
    }
    forall k | k in Mids(xs) + Mids(ys)
      ensures k in Mids(r)
    {
      if k in Mids(ys) {
        var p :| p in ys && p.mid == k;
        assert Wins(xs, ys, p);
      } else {
        var p :| p in xs && p.mid == k;
        assert Wins(xs, ys, p);
      }
    }
  }

  lemma {:induction false} AscendingSize(s: seq<Pair>)
    requires Ascending(s)
    ensures |Mids(s)| == |s|
  {
    if s != [] {
      var r, x := s[..|s| - 1], s[|s| - 1];
      AscendingSize(r);
      LastIsLargest(s, x);
      assert Mids(s) == Mids(r) + {x.mid} && x.mid !in Mids(r);
    }
  }

  /** The length the merge needs is the number of distinct dirty pages. */
  lemma {:induction false} OverlaySize(xs: seq<Pair>, ys: seq<Pair>)
    requires Ascending(xs) && Ascending(ys)
    ensures |Overlay(xs, ys)| == |Mids(xs) + Mids(ys)|
  {
    OverlayIsUnion(xs, ys);
    AscendingSize(Overlay(xs, ys));
  }

  lemma {:induction false} SharedSkipsLarger(xs: seq<Pair>, ys: seq<Pair>, y: nat)
    requires xs != [] && y <= |ys| && forall k :: y <= k < |ys| ==> ys[k].mid > xs[|xs| - 1].mid
    ensures Shared(xs, ys) == Shared(xs, ys[..y])
    decreases |ys|
  {
    if y < |ys| {
      SharedSkipsLarger(xs, ys[..|ys| - 1], y);
      assert ys[..|ys| - 1][..y] == ys[..y];
    } else {
      assert ys[..y] == ys;
    }
  }

  /** `dst` holds `xs` in its slots from 1 on and mid 0 in slot 0. */
  ghost predicate Headed(dst: seq<Pair>, xs: seq<Pair>) {
    |xs| < |dst| && dst[0].mid == 0 && dst[1..|xs| + 1] == xs
  }

  /** The inner loop: skip the parent's pairs above `yp`. */
  method SkipAbove(dst: array<Pair>, start: nat, yp: nat, ghost xs: seq<Pair>, ghost ys: seq<Pair>) returns (i: nat)
    requires Headed(dst[..], xs) && start <= |xs| && ys != [] && ys[|ys| - 1].mid == yp
    ensures i <= start && dst[i].mid <= yp
    ensures Shared(xs[..i], ys) == Shared(xs[..start], ys)
  {
    i := start;
    while yp < dst[i].mid
      invariant 0 <= i <= start
      invariant Shared(xs[..i], ys) == Shared(xs[..start], ys)
      decreases i
    {
      assert dst[i] == dst[1..|xs| + 1][i - 1];
      assert xs[..i][..i - 1] == xs[..i - 1];
      i := i - 1;
    }
  }

  lemma {:induction false} SharedStep(xs: seq<Pair>, ys: seq<Pair>, i: nat, y: nat)
    requires i <= |xs| && 0 < y <= |ys|
    requires i > 0 ==> xs[i - 1].mid <= ys[y - 1].mid
    ensures Shared(xs[..i], ys[..y]) ==
            if i > 0 && xs[i - 1].mid == ys[y - 1].mid then 1 + Shared(xs[..i - 1], ys[..y - 1])
            else Shared(xs[..i], ys[..y - 1])
  {
    assert ys[..y][..y - 1] == ys[..y - 1];
    if i > 0 {
      assert xs[..i][..i - 1] == xs[..i - 1];
    }
  }

  /** The counting loop: the length of the merged list. */
  method CountMerged(dst: array<Pair>, x: nat, src: array<Pair>, ghost xs: seq<Pair>) returns (len: nat)
    requires Headed(dst[..], xs) && x == |xs| && Ascending(xs)
    requires ValidPairs(src) && Ascending(Pairs(src))
    ensures len == |Overlay(xs, Pairs(src))|
  {
    ghost var ys := Pairs(src);
    OverlayLength(xs, ys);
    len := x + src[0].mid;
    var y := SearchPairs(src, dst[x].mid + 1);
    y := y - 1;
    assert forall k :: 0 <= k < |ys| ==> ys[k] == src[k + 1];
    assert forall k :: 1 <= k <= |xs| ==> dst[k] == xs[k - 1];
    assert xs[..x] == xs;
    if x > 0 {
      SharedSkipsLarger(xs, ys, y);
    }
    var shared := CountShared(dst, x, src, y, xs, ys);
    len := len - shared;
  }

  /** The loop itself: pages in both lists, from slots x and y down. */
  method CountShared(dst: array<Pair>, x: nat, src: array<Pair>, y0: nat, ghost xs: seq<Pair>, ghost ys: seq<Pair>)
    returns (shared: nat)
    requires Headed(dst[..], xs) && x == |xs| && Ascending(xs) && Ascending(ys)
    requires ValidPairs(src) && Pairs(src) == ys && y0 <= |ys|
    ensures shared == Shared(xs, ys[..y0])
  {
    shared := 0;
    var i, y := x, y0;
    assert xs[..i] == xs;
    assert forall k :: 0 <= k < |ys| ==> ys[k] == src[k + 1];
    assert forall k :: 1 <= k <= |xs| ==> dst[k] == xs[k - 1];
    while y > 0 && i > 0
      invariant 0 <= y <= |ys| && 0 <= i <= |xs|
      invariant shared + Shared(xs[..i], ys[..y]) == Shared(xs, ys[..y0])
      decreases y
    {
      var yp := src[y].mid;
      i := SkipAbove(dst, i, yp, xs, ys[..y]);
      SharedStep(xs, ys, i, y);
      if yp == dst[i].mid {
        i := i - 1;
        shared := shared + 1;
      }
      y := y - 1;
    }
  }

  /** State of the backward merge: `x` pairs of the parent and `y` of the child
      are still to be placed in the first `i` slots. */
  ghost predicate OverlayInv(s: seq<Pair>, xs: seq<Pair>, ys: seq<Pair>, x: nat, y: nat, i: nat) {
    var r := Overlay(xs, ys);
    && x <= |xs| && y <= |ys| && x <= i <= |r| < |s|
    && s[0].mid == 0
    && s[1..x + 1] == xs[..x]
    && i == |Overlay(xs[..x], ys[..y])|
    && Overlay(xs[..x], ys[..y]) + s[i + 1..|r| + 1] == r
  }

  lemma {:induction false} OverlayTakesParent(s: seq<Pair>, xs: seq<Pair>, ys: seq<Pair>, x: nat, y: nat, i: nat)
    requires OverlayInv(s, xs, ys, x, y, i) && y > 0 && ys[y - 1].mid < s[x].mid
    ensures x > 0 && i > 0 && OverlayInv(s[i := s[x]], xs, ys, x - 1, y, i - 1)
  {
    var n := |Overlay(xs, ys)|;
    OverlayLength(xs[..x], ys[..y]);
    assert s[x] == s[1..x + 1][x - 1] == xs[x - 1];
    assert xs[..x][..x - 1] == xs[..x - 1];
    OverlayLength(xs[..x - 1], ys[..y]);
    assert Overlay(xs[..x], ys[..y]) == Overlay(xs[..x - 1], ys[..y]) + [s[x]];
    assert s[i := s[x]][i..n + 1] == [s[x]] + s[i + 1..n + 1];
    assert s[i := s[x]][1..x] == s[1..x + 1][..x - 1];
  }

  /** One more pair of the child at the end of the merged list. */
  lemma {:induction false} OverlayOfChild(xs: seq<Pair>, ys: seq<Pair>, x: nat, y: nat)
    requires x <= |xs| && 0 < y <= |ys| && (x > 0 ==> xs[x - 1].mid <= ys[y - 1].mid)
    ensures var x' := if x > 0 && xs[x - 1].mid == ys[y - 1].mid then x - 1 else x;
            Overlay(xs[..x], ys[..y]) == Overlay(xs[..x'], ys[..y - 1]) + [ys[y - 1]]
  {
    assert ys[..y][..y - 1] == ys[..y - 1] && ys[..y] == ys[..y - 1] + [ys[y - 1]];
    if x == 0 {
      assert xs[..0] == [];
    } else {
      assert xs[..x][..x - 1] == xs[..x - 1];
    }
  }

  /** Placing a pair in slot i leaves the pairs below it and extends the tail. */
  lemma {:induction false} PlaceInFront(s: seq<Pair>, i: nat, p: Pair, n: nat, x: nat)
    requires 0 < i <= n < |s| && x < i
    ensures s[i := p][i..n + 1] == [p] + s[i + 1..n + 1]
    ensures s[i := p][1..x + 1] == s[1..x + 1]
  {
  }

  /** The last pair of the merged list is placed; x' pairs of the parent remain. */
  lemma {:induction false} OverlayPlaced(s: seq<Pair>, xs: seq<Pair>, ys: seq<Pair>, x: nat, y: nat, i: nat, x': nat)
    requires y > 0 && OverlayInv(s, xs, ys, x, y, i) && x' <= x
    requires Overlay(xs[..x], ys[..y]) == Overlay(xs[..x'], ys[..y - 1]) + [ys[y - 1]]
    ensures i > 0 && OverlayInv(s[i := ys[y - 1]], xs, ys, x', y - 1, i - 1)
  {
    var p, n, front := ys[y - 1], |Overlay(xs, ys)|, Overlay(xs[..x'], ys[..y - 1]);
    OverlayLength(xs[..x'], ys[..y - 1]);
    PlaceInFront(s, i, p, n, x');
    Regroup(front, p, s[i + 1..n + 1]);
    assert front + s[i := p][i..n + 1] == Overlay(xs, ys);
    assert s[1..x' + 1] == s[1..x + 1][..x'] == xs[..x'];
  }

  lemma {:induction false} Regroup(a: seq<Pair>, p: Pair, b: seq<Pair>)
    ensures a + [p] + b == a + ([p] + b)
  {
  }

  lemma {:induction false} OverlayTakesChild(s: seq<Pair>, xs: seq<Pair>, ys: seq<Pair>, x: nat, y: nat, i: nat)
    requires Ascending(ys) && y > 0 && OverlayInv(s, xs, ys, x, y, i) && ys[y - 1].mid >= s[x].mid
    ensures i > 0 && (ys[y - 1].mid == s[x].mid ==> x > 0)
    ensures var x' := if ys[y - 1].mid == s[x].mid then x - 1 else x;
            OverlayInv(s[i := ys[y - 1]], xs, ys, x', y - 1, i - 1)
  {
    assert x > 0 ==> s[x] == s[1..x + 1][x - 1] == xs[x - 1];
    OverlayOfChild(xs, ys, x, y);
    OverlayPlaced(s, xs, ys, x, y, i, if ys[y - 1].mid == s[x].mid then x - 1 else x);
  }

  /** The inner loop of the merge: the parent's pairs above `yp` move back. */
  method MoveAbove(dst: array<Pair>, i0: nat, x0: nat, yp: nat, ghost xs: seq<Pair>, ghost ys: seq<Pair>, ghost y: nat)
    returns (i: nat, x: nat)
    requires y > 0 && OverlayInv(dst[..], xs, ys, x0, y, i0) && ys[y - 1].mid == yp
    modifies dst
    ensures OverlayInv(dst[..], xs, ys, x, y, i) && dst[x].mid <= yp
  {
    i, x := i0, x0;
    while yp < dst[x].mid
      invariant OverlayInv(dst[..], xs, ys, x, y, i)
      decreases x
    {
      MoveBack(dst, i, x, xs, ys, y);
      i, x := i - 1, x - 1;
    }
  }

  method MoveBack(dst: array<Pair>, i: nat, x: nat, ghost xs: seq<Pair>, ghost ys: seq<Pair>, ghost y: nat)
    requires y > 0 && OverlayInv(dst[..], xs, ys, x, y, i) && ys[y - 1].mid < dst[x].mid
    modifies dst
    ensures i > 0 && x > 0 && OverlayInv(dst[..], xs, ys, x - 1, y, i - 1)
  {
    OverlayTakesParent(dst[..], xs, ys, x, y, i);
    StorePair(dst, i, dst[x]);
  }

  /** One round of the merge: `p` is pair `y` of the child. */
  method MergeOne(dst: array<Pair>, i0: nat, x0: nat, p: Pair, ghost xs: seq<Pair>, ghost ys: seq<Pair>, ghost y: nat)
    returns (i: nat, x: nat)
    requires Ascending(ys) && y > 0 && OverlayInv(dst[..], xs, ys, x0, y, i0) && ys[y - 1] == p
    modifies dst
    ensures OverlayInv(dst[..], xs, ys, x, y - 1, i)
  {
    i, x := MoveAbove(dst, i0, x0, p.mid, xs, ys, y);
    i, x := PlaceChild(dst, i, x, p, xs, ys, y);
  }

  /** The child's pair goes to slot i and replaces the parent's pair for the same
      page. */
  method PlaceChild(dst: array<Pair>, i0: nat, x0: nat, p: Pair, ghost xs: seq<Pair>, ghost ys: seq<Pair>, ghost y: nat)
    returns (i: nat, x: nat)
    requires Ascending(ys) && y > 0 && OverlayInv(dst[..], xs, ys, x0, y, i0) && ys[y - 1] == p && dst[x0].mid <= p.mid
    modifies dst
    ensures OverlayInv(dst[..], xs, ys, x, y - 1, i)
  {
    OverlayTakesChild(dst[..], xs, ys, x0, y, i0);
    x := if p.mid == dst[x0].mid then x0 - 1 else x0;
    StorePair(dst, i0, p);
    i := i0 - 1;
  }

  method StorePair(dst: array<Pair>, i: nat, p: Pair)
    requires i < dst.Length
    modifies dst
    ensures dst[..] == old(dst[..])[i := p]
  {
    dst[i] := p;
  }

  method MergeRounds(dst: array<Pair>, x0: nat, src: array<Pair>, len: nat, ghost xs: seq<Pair>, ghost ys: seq<Pair>)
    requires dst != src && |ys| < src.Length && src[0].mid == |ys| && src[1..|ys| + 1] == ys && Ascending(ys)
    requires OverlayInv(dst[..], xs, ys, x0, |ys|, len)
    modifies dst
    ensures dst[0].mid == 0 && |Overlay(xs, ys)| < dst.Length && dst[1..|Overlay(xs, ys)| + 1] == Overlay(xs, ys)
  {
    var i: nat, x: nat, y: nat := len, x0, src[0].mid;
    while y > 0
      invariant y <= |ys| && OverlayInv(dst[..], xs, ys, x, y, i)
    {
      assert src[y] == src[1..|ys| + 1][y - 1];
      i, x := MergeOne(dst, i, x, src[y], xs, ys, y);
      y := y - 1;
    }
    OverlayEnd(dst[..], xs, ys, x, i);
    assert i == x;
  }

  /** When the child's pairs are placed, so are the parent's. */
  lemma {:induction false} OverlayEnd(s: seq<Pair>, xs: seq<Pair>, ys: seq<Pair>, x: nat, i: nat)
    requires OverlayInv(s, xs, ys, x, 0, i)
    ensures i == x && s[1..|Overlay(xs, ys)| + 1] == Overlay(xs, ys)
  {
    var n := |Overlay(xs, ys)|;
    assert ys[..0] == [];
    assert s[1..n + 1] == s[1..x + 1] + s[i + 1..n + 1];
  }

  /** Merge of the child's dirty list into the parent's, in place and from the
      back.  The source's own assertion `i == x` holds after its last round. */
  method MergeDirty(dst: array<Pair>, x0: nat, src: array<Pair>, len: nat, ghost xs: seq<Pair>)
    requires Headed(dst[..], xs) && x0 == |xs| && dst != src
    requires ValidPairs(src) && Ascending(Pairs(src))
    requires len == |Overlay(xs, Pairs(src))| < dst.Length
    modifies dst
    ensures ValidPairs(dst) && Pairs(dst) == Overlay(xs, Pairs(src))
  {
    ghost var ys := Pairs(src);
    assert xs[..|xs|] == xs && ys[..|ys|] == ys;
    OverlayLength(xs, ys);
    MergeRounds(dst, x0, src, len, xs, ys);
    dst[0] := dst[0].(mid := len);
  }

  // ----- dropping the child's spilled pages from the parent's dirty list -----

  ghost function Without(s: set<Pair>, drop: set<nat>): set<Pair> {
    set p | p in s && p.mid !in drop
  }

  lemma {:induction false} RemovedEntries(s: seq<Pair>, y: nat)
    requires Ascending(s) && y < |s|
    ensures var t := s[..y] + s[y + 1..];
            Ascending(t) && Entries(t) == Without(Entries(s), {s[y].mid})
  {
    var t := s[..y] + s[y + 1..];
    assert s == s[..y] + [s[y]] + s[y + 1..];
    assert forall p :: p in t <==> p in s[..y] || p in s[y + 1..];
    assert forall p :: p in s <==> p in t || p == s[y];
    assert forall k :: 0 <= k < |t| ==> t[k] == s[if k < y then k else k + 1];
  }

  method RemoveAt(dst: array<Pair>, y0: nat)
    requires ValidPairs(dst) && 1 <= y0 <= dst[0].mid
    modifies dst
    ensures ValidPairs(dst) && Pairs(dst) == old(Pairs(dst)[..y0 - 1]) + old(Pairs(dst)[y0..])
  {
    ghost var s := Pairs(dst);
    var n, y := dst[0].mid, y0;
    while y < n
      invariant y0 <= y <= n && dst[0].mid == n
      invariant forall k :: 1 <= k < y0 ==> dst[k] == s[k - 1]
      invariant forall k :: y0 <= k < y ==> dst[k] == s[k]
      invariant forall k :: y < k <= n ==> dst[k] == s[k - 1]
    {
      dst[y] := dst[y + 1];
      y := y + 1;
    }
    dst[0] := dst[0].(mid := n - 1);
  }

  /** Entries of a spill list with the low bit set are deleted slots. */
  ghost function Spilled(spill: seq<Id>): set<nat> {
    set v | v in spill && v % 2 == 0 :: v / 2
  }

  lemma {:induction false} IsSpilled(spill: seq<Id>, m: nat)
    ensures m in Spilled(spill) <==> 2 * m in spill
  {
    if 2 * m in spill {
      assert (2 * m) / 2 == m;
    }
  }

  lemma {:induction false} SpilledPrefix(spill: seq<Id>, i: nat)
    requires i < |spill|
    ensures Spilled(spill[..i + 1]) == Spilled(spill[..i]) + (if spill[i] % 2 == 0 then {spill[i] / 2} else {})
  {
    var s, t := spill[..i], spill[..i + 1];
    assert t == s + [spill[i]];
    forall m: nat
      ensures m in Spilled(t) <==> m in Spilled(s) || 2 * m == spill[i]
    {
      IsSpilled(s, m);
      IsSpilled(t, m);
    }
  }

  /** Remove the page with number `pn`, if it is in the list. */
  method DropOne(dst: array<Pair>, pn: nat)
    requires ValidPairs(dst) && Ascending(Pairs(dst))
    modifies dst
    ensures ValidPairs(dst) && Ascending(Pairs(dst))
    ensures Entries(Pairs(dst)) == Without(old(Entries(Pairs(dst))), {pn})
  {
    ghost var s := Pairs(dst);
    var y := SearchPairs(dst, pn);
    assert forall k :: 0 <= k < |s| ==> s[k] == dst[k + 1];
    if y <= dst[0].mid && dst[y].mid == pn {
      RemovedEntries(s, y - 1);
      RemoveAt(dst, y);
    } else {
      assert forall k :: 0 <= k < |s| ==> s[k].mid != pn;
    }
  }

  /** Remove everything the child spilled from the parent's dirty list. */
  method DropSpilled(dst: array<Pair>, spill: array<Id>)
    requires ValidPairs(dst) && Ascending(Pairs(dst)) && Valid(spill)
    modifies dst
    ensures ValidPairs(dst) && Ascending(Pairs(dst))
    ensures Entries(Pairs(dst)) == Without(old(Entries(Pairs(dst))), Spilled(Ids(spill)))
  {
    ghost var ids := Ids(spill);
    assert ids[..|ids|] == ids;
    var i := 1;
    while i <= spill[0]
      invariant 1 <= i <= spill[0] + 1
      invariant ValidPairs(dst) && Ascending(Pairs(dst))
      invariant Entries(Pairs(dst)) == Without(old(Entries(Pairs(dst))), Spilled(ids[..i - 1]))
    {
      var pn := spill[i];
      assert pn == ids[i - 1];
      SpilledPrefix(ids, i - 1);
      if pn % 2 == 0 {
        DropOne(dst, pn / 2);
      }
      i := i + 1;
    }
  }

  // ----- dropping the child's dirty pages from the parent's spill list -----

  /** Page numbers as they appear in a spill list. */
  ghost function Doubled(s: seq<Pair>): set<nat> {
    set p | p in s :: 2 * p.mid
  }

  lemma {:induction false} DoubledPrefix(s: seq<Pair>, i: nat)
    requires i < |s|
    ensures Doubled(s[..i + 1]) == Doubled(s[..i]) + {2 * s[i].mid}
  {
    assert s[..i + 1] == s[..i] + [s[i]];
    assert forall p :: p in s[..i + 1] <==> p in s[..i] || p == s[i];
  }

  /** Order of a spill list: descending, and only deleted entries, which are odd,
      may repeat. */
  ghost predicate SpillOrder(ps: seq<Id>) {
    forall i, j :: 0 <= i < j < |ps| ==> ps[i] > ps[j] || (ps[i] == ps[j] && ps[i] % 2 == 1)
  }

  /** Slot k + 1 of `s` holds entry k of the spill list, or the mark 1 if that
      entry is in `drop`; none of the first y entries is. */
  ghost predicate Marked(s: seq<Id>, ps: seq<Id>, drop: set<nat>, y: nat) {
    && y <= |ps| < |s|
    && s[0] == MAX_ID
    && (forall k :: 0 <= k < |ps| ==> s[k + 1] == if ps[k] in drop then 1 else ps[k])
    && (forall k :: 0 <= k < y ==> ps[k] !in drop)
  }

  /** Entries from x on are at most b. */
  ghost predicate AtMost(ps: seq<Id>, x: nat, b: nat) {
    x <= |ps| && forall k :: x <= k < |ps| ==> ps[k] <= b
  }

  lemma {:induction false} MarkFound(s: seq<Id>, ps: seq<Id>, drop: set<nat>, x: nat, y: nat, pn: nat)
    requires SpillOrder(ps) && Marked(s, ps, drop, y) && 0 < x <= y
    requires ps[x - 1] == pn && pn % 2 == 0
    ensures Marked(s[x := 1], ps, drop + {pn}, x - 1) && AtMost(ps, x - 1, pn)
  {
  }

  lemma {:induction false} MarkMissing(s: seq<Id>, ps: seq<Id>, drop: set<nat>, x: nat, y: nat, pn: nat)
    requires SpillOrder(ps) && Marked(s, ps, drop, y) && x <= y
    requires AtMost(ps, x, pn) && (forall k :: x <= k < |ps| ==> ps[k] < pn) && (x > 0 ==> ps[x - 1] > pn)
    ensures Marked(s, ps, drop + {pn}, y) && AtMost(ps, x, pn)
  {
    forall k | 0 <= k < |ps|
      ensures ps[k] != pn
    {
      assert k < x - 1 ==> ps[k] >= ps[x - 1];
    }
  }

  /** Look for `pn` from slot x0 down and mark it. */
  method MarkOne(pspill: array<Id>, x0: nat, y0: nat, pn: nat, ghost ps: seq<Id>, ghost drop: set<nat>, ghost b: nat)
    returns (x: nat, y: nat)
    requires SpillOrder(ps) && Marked(pspill[..], ps, drop, y0) && x0 <= y0
    requires AtMost(ps, x0, b) && b < pn && pn % 2 == 0 && pn <= MAX_ID
    modifies pspill
    ensures x <= y && Marked(pspill[..], ps, drop + {pn}, y) && AtMost(ps, x, pn)
    ensures forall k :: |ps| < k < pspill.Length ==> pspill[k] == old(pspill[k])
  {
    x, y := x0, y0;
    while pn > pspill[x]
      invariant x <= y0 && forall k :: x <= k < |ps| ==> ps[k] < pn
      decreases x
    {
      assert pspill[x] == ps[x - 1];
      x := x - 1;
    }
    assert x > 0 ==> pspill[x] == ps[x - 1];
    if pn == pspill[x] {
      MarkFound(pspill[..], ps, drop, x, y0, pn);
      ghost var before := pspill[..];
      pspill[x] := 1;
      assert pspill[..] == before[x := 1];
      x := x - 1;
      y := x;
    } else {
      MarkMissing(pspill[..], ps, drop, x, y0, pn);
    }
  }

  /** Entries that survive the squash: not deleted slots and not in `drop`. */
  ghost function Kept(ps: seq<Id>, drop: set<nat>): seq<Id> {
    if ps == [] then []
    else
      var r, v := Kept(ps[..|ps| - 1], drop), ps[|ps| - 1];
      if v % 2 == 0 && v !in drop then r + [v] else r
  }

  lemma {:induction false} KeptProperties(ps: seq<Id>, drop: set<nat>)
    requires SpillOrder(ps)
    ensures StrictlyDescending(Kept(ps, drop)) && |Kept(ps, drop)| <= |ps|
    ensures forall v :: v in Kept(ps, drop) <==> v in ps && v % 2 == 0 && v !in drop
  {
    if ps != [] {
      var q, v := ps[..|ps| - 1], ps[|ps| - 1];
      KeptProperties(q, drop);
      assert ps == q + [v];
      forall k | 0 <= k < |Kept(q, drop)|
        ensures Kept(q, drop)[k] > v
      {
        assert Kept(q, drop)[k] in q;
      }
    }
  }

  /** State of the squash: the first x entries have been looked at, y kept. */
  ghost predicate SquashInv(s: seq<Id>, ps: seq<Id>, drop: set<nat>, y0: nat, x: nat, y: nat) {
    && y0 <= y <= x <= |ps| < |s|
    && s[1..y + 1] == ps[..y0] + Kept(ps[y0..x], drop)
    && (forall k :: x <= k < |ps| ==> s[k + 1] == if ps[k] in drop then 1 else ps[k])
  }

  lemma {:induction false} SquashStep(s: seq<Id>, ps: seq<Id>, drop: set<nat>, y0: nat, x: nat, y: nat)
    requires SquashInv(s, ps, drop, y0, x, y) && x < |ps|
    ensures s[x + 1] % 2 == 0 ==> SquashInv(s[y + 1 := s[x + 1]], ps, drop, y0, x + 1, y + 1)
    ensures s[x + 1] % 2 != 0 ==> SquashInv(s, ps, drop, y0, x + 1, y)
  {
    assert ps[y0..x + 1][..x - y0] == ps[y0..x];
    if s[x + 1] % 2 == 0 {
      assert s[y + 1 := s[x + 1]][1..y + 2] == s[1..y + 1] + [ps[x]];
    }
  }

  /** Close the gaps behind slot y0. */
  method Squash(pspill: array<Id>, y0: nat, len: nat, ghost ps: seq<Id>, ghost drop: set<nat>) returns (y: nat)
    requires Marked(pspill[..], ps, drop, y0) && len == |ps|
    modifies pspill
    ensures y <= len < pspill.Length && pspill[1..y + 1] == ps[..y0] + Kept(ps[y0..], drop)
  {
    y := y0;
    var x := y0;
    assert pspill[1..y0 + 1] == ps[..y0];
    while x < len
      invariant 0 <= x && SquashInv(pspill[..], ps, drop, y0, x, y)
    {
      SquashStep(pspill[..], ps, drop, y0, x, y);
      ghost var before := pspill[..];
      x := x + 1;
      if pspill[x] % 2 == 0 {
        y := y + 1;
        pspill[y] := pspill[x];
        assert pspill[..] == before[y := before[x]];
      }
    }
    assert ps[y0..x] == ps[y0..];
  }

  lemma {:induction false} SquashedSpill(ps: seq<Id>, y: nat, drop: set<nat>)
    requires SpillOrder(ps) && y <= |ps| && forall k :: 0 <= k < y ==> ps[k] !in drop
    ensures var r := ps[..y] + Kept(ps[y..], drop);
            && SpillOrder(r)
            && (forall v :: v in r ==> v in ps)
            && (forall v :: v % 2 == 0 ==> (v in r <==> v in ps && v !in drop))
  {
    var a, b := ps[..y], ps[y..];
    var r := a + Kept(b, drop);
    KeptProperties(b, drop);
    assert ps == a + b;
    assert forall v :: v in r <==> v in a || v in Kept(b, drop);
    assert forall v :: v in ps <==> v in a || v in b;
    forall i, j | 0 <= i < j < |r|
      ensures r[i] > r[j] || (r[i] == r[j] && r[i] % 2 == 1)
    {
      if i < y <= j {
        assert r[j] in Kept(b, drop);
        var k :| 0 <= k < |b| && b[k] == r[j];
        assert ps[i] >= ps[y + k];
      }
    }
  }

  /** State of the marking loop after the child's first i dirty pages. */
  ghost predicate MarkInv(s: seq<Id>, ps: seq<Id>, ys: seq<Pair>, i: nat, x: nat, y: nat) {
    && i <= |ys| && x <= y
    && Marked(s, ps, Doubled(ys[..i]), y)
    && AtMost(ps, x, if i == 0 then 0 else 2 * ys[i - 1].mid)
  }

  /** The marking loop over the child's dirty list. */
  method MarkDirty(pspill: array<Id>, len: nat, src: array<Pair>, ghost ps: seq<Id>, ghost ys: seq<Pair>)
    returns (y: nat)
    requires len == |ps| < pspill.Length && pspill[0] == MAX_ID && pspill[1..|ps| + 1] == ps
    requires SpillOrder(ps) && Ascending(ys)
    requires |ys| < src.Length && src[0].mid == |ys| && src[1..|ys| + 1] == ys
    requires forall k :: 0 <= k < |ys| ==> 2 * ys[k].mid <= MAX_ID
    modifies pspill
    ensures Marked(pspill[..], ps, Doubled(ys), y)
  {
    var x: nat := len;
    y := len;
    MarkStart(pspill[..], ps, ys);
    var i: nat := 0;
    while i < src[0].mid
      invariant i <= |ys| && MarkInv(pspill[..], ps, ys, i, x, y)
    {
      assert src[i + 1] == src[1..|ys| + 1][i];
      x, y := MarkRound(pspill, x, y, 2 * src[i + 1].mid, ps, ys, i);
      i := i + 1;
    }
    assert ys[..|ys|] == ys;
  }

  lemma {:induction false} MarkStart(s: seq<Id>, ps: seq<Id>, ys: seq<Pair>)
    requires |ps| < |s| && s[0] == MAX_ID && s[1..|ps| + 1] == ps
    ensures MarkInv(s, ps, ys, 0, |ps|, |ps|)
  {
    assert ys[..0] == [];
    assert forall k :: 0 <= k < |ps| ==> ps[k] == s[1..|ps| + 1][k];
  }

  /** The child's dirty page i: `pn` is its doubled number. */
  method MarkRound(pspill: array<Id>, x0: nat, y0: nat, pn: nat, ghost ps: seq<Id>, ghost ys: seq<Pair>, ghost i: nat)
    returns (x: nat, y: nat)
    requires SpillOrder(ps) && Ascending(ys) && i < |ys| && MarkInv(pspill[..], ps, ys, i, x0, y0)
    requires pn == 2 * ys[i].mid <= MAX_ID
    modifies pspill
    ensures MarkInv(pspill[..], ps, ys, i + 1, x, y)
  {
    DoubledPrefix(ys, i);
    x, y := MarkOne(pspill, x0, y0, pn, ps, Doubled(ys[..i]), if i == 0 then 0 else 2 * ys[i - 1].mid);
  }

  lemma {:induction false} DroppedSpill(ps: seq<Id>, r: seq<Id>, ys: seq<Pair>)
    requires forall v :: v % 2 == 0 ==> (v in r <==> v in ps && v !in Doubled(ys))
    ensures Spilled(r) == Spilled(ps) - Mids(ys)
  {
    forall m: nat
      ensures m in Spilled(r) <==> m in Spilled(ps) - Mids(ys)
    {
      IsSpilled(r, m);
      IsSpilled(ps, m);
      assert 2 * m in Doubled(ys) <==> m in Mids(ys);
    }
  }

  /** Mark the entries to drop, then close the gaps. */
  method MarkAndSquash(pspill: array<Id>, len: nat, src: array<Pair>, ghost ps: seq<Id>, ghost ys: seq<Pair>)
    returns (y: nat)
    requires len == |ps| < pspill.Length && pspill[0] == MAX_ID && pspill[1..|ps| + 1] == ps
    requires SpillOrder(ps) && Ascending(ys)
    requires |ys| < src.Length && src[0].mid == |ys| && src[1..|ys| + 1] == ys
    requires forall k :: 0 <= k < |ys| ==> 2 * ys[k].mid <= MAX_ID
    modifies pspill
    ensures y <= len && SpillOrder(pspill[1..y + 1])
    ensures Spilled(pspill[1..y + 1]) == Spilled(ps) - Mids(ys) && forall v :: v in pspill[1..y + 1] ==> v in ps
  {
    var y0 := MarkDirty(pspill, len, src, ps, ys);
    y := Squash(pspill, y0, len, ps, Doubled(ys));
    SquashedSpill(ps, y0, Doubled(ys));
    DroppedSpill(ps, pspill[1..y + 1], ys);
  }

  /** Remove everything in the child's dirty list from the parent's spill list. */
  method DropDirty(pspill: array<Id>, src: array<Pair>)
    requires Valid(pspill) && SpillOrder(Ids(pspill))
    requires ValidPairs(src) && Ascending(Pairs(src))
    requires forall k :: 1 <= k <= src[0].mid ==> 2 * src[k].mid <= MAX_ID
    modifies pspill
    ensures Valid(pspill) && SpillOrder(Ids(pspill))
    ensures Spilled(Ids(pspill)) == old(Spilled(Ids(pspill))) - Mids(Pairs(src))
    ensures pspill[0] <= old(pspill[0]) && forall v :: v in Ids(pspill) ==> v in old(Ids(pspill))
  {
    ghost var ps, ys := Ids(pspill), Pairs(src);
    var len := pspill[0];
    if len > 0 {
      pspill[0] := MAX_ID;
      var y := MarkAndSquash(pspill, len, src, ps, ys);
      pspill[0] := y;
    }
  }

  // ----- the whole commit -----

  /** Count and merge. */
  method MergeChild(dst: array<Pair>, src: array<Pair>)
    requires ValidPairs(dst) && Ascending(Pairs(dst)) && ValidPairs(src) && Ascending(Pairs(src)) && dst != src
    requires |Overlay(Pairs(dst), Pairs(src))| < dst.Length
    modifies dst
    ensures ValidPairs(dst) && Pairs(dst) == Overlay(old(Pairs(dst)), Pairs(src))
  {
    ghost var xs := Pairs(dst);
    var x := dst[0].mid;
    dst[0] := dst[0].(mid := 0);
    assert dst[1..|xs| + 1] == xs;
    var len := CountMerged(dst, x, src, xs);
    MergeDirty(dst, x, src, len, xs);
  }

  lemma {:induction false} CommittedEntries(xs: seq<Pair>, ys: seq<Pair>, before: set<Pair>, spilled: set<nat>)
    requires Ascending(xs) && Ascending(ys) && Entries(xs) == Without(before, spilled)
    ensures Ascending(Overlay(xs, ys))
    ensures Entries(Overlay(xs, ys)) == Entries(ys) + Without(before, spilled + Mids(ys))
  {
    OverlayIsUnion(xs, ys);
    forall p
      ensures (p in xs && p.mid !in Mids(ys)) <==> p in Without(before, spilled + Mids(ys))
    {
      assert p in xs <==> p in Entries(xs);
    }
  }

  /** The dirty part of the commit: the parent's pages that the child spilled
      go, the child's own pages come in and win. */
  method CommitDirty(dst: array<Pair>, src: array<Pair>, cspill: array<Id>)
    requires ValidPairs(dst) && Ascending(Pairs(dst)) && ValidPairs(src) && Ascending(Pairs(src)) && dst != src
    requires Valid(cspill)
    requires |(Mids(Pairs(dst)) - Spilled(Ids(cspill))) + Mids(Pairs(src))| < dst.Length
    modifies dst
    ensures ValidPairs(dst) && Ascending(Pairs(dst))
    ensures Entries(Pairs(dst)) ==
            Entries(Pairs(src)) + Without(old(Entries(Pairs(dst))), Spilled(Ids(cspill)) + Mids(Pairs(src)))
  {
    ghost var before, ys, spilled := Pairs(dst), Pairs(src), Spilled(Ids(cspill));
    DropSpilled(dst, cspill);
    ghost var xs := Pairs(dst);
    MidsWithout(before, xs, spilled);
    OverlaySize(xs, ys);
    CommittedEntries(xs, ys, Entries(before), spilled);
    MergeChild(dst, src);
  }

  lemma {:induction false} MidsWithout(s: seq<Pair>, t: seq<Pair>, drop: set<nat>)
    requires Entries(t) == Without(Entries(s), drop)
    ensures Mids(t) == Mids(s) - drop
  {
    forall m | m in Mids(t)
      ensures m in Mids(s) - drop
    {
      var p :| p in t && p.mid == m;
      assert p in Entries(t);
    }
    forall m | m in Mids(s) - drop
      ensures m in Mids(t)
    {
      var p :| p in s && p.mid == m;
      assert p in Entries(t);
    }
  }

  lemma {:induction false} SpilledTogether(a: seq<Id>, b: seq<Id>, r: seq<Id>)
    requires multiset(r) == multiset(a + b)
    ensures Spilled(r) == Spilled(a) + Spilled(b)
  {
    forall v
      ensures v in r <==> v in a || v in b
    {
      assert v in r <==> v in multiset(r);
      assert v in a + b <==> v in multiset(a + b);
    }
    forall m: nat
      ensures m in Spilled(r) <==> m in Spilled(a) + Spilled(b)
    {
      IsSpilled(r, m);
      IsSpilled(a, m);
      IsSpilled(b, m);
    }
  }

  /** Append the child's spill list and sort. */
  method JoinSpill(pspill: array<Id>, cspill: array<Id>) returns (r: array<Id>)
    requires Valid(pspill) && SpillOrder(Ids(pspill)) && Valid(cspill) && SpillOrder(Ids(cspill)) && cspill != pspill
    requires Spilled(Ids(pspill)) !! Spilled(Ids(cspill)) && pspill[0] + cspill[0] < IdSort.INT_LIMIT
    modifies pspill
    ensures Valid(r) && SpillOrder(Ids(r))
    ensures Spilled(Ids(r)) == old(Spilled(Ids(pspill))) + Spilled(Ids(cspill))
  {
    ghost var a, b := Ids(pspill), Ids(cspill);
    r := AppendList(pspill, cspill);
    IdSort.Sort(r, 0);
    SpilledTogether(a, b, Ids(r));
    JoinedOrder(a, b, Ids(r));
  }

  /** An entry that is not deleted occurs once. */
  lemma {:induction false} OccursOnce(s: seq<Id>, v: Id)
    requires SpillOrder(s) && v % 2 == 0
    ensures multiset(s)[v] <= 1
  {
    if s != [] {
      var r, x := s[..|s| - 1], s[|s| - 1];
      OccursOnce(r, v);
      assert s == r + [x];
      if x == v {
        assert v !in r;
      }
    }
  }

  lemma {:induction false} OccursTwice(s: seq<Id>, i: nat, j: nat)
    requires i < j < |s| && s[i] == s[j]
    ensures multiset(s)[s[i]] >= 2
  {
    var a, b := s[..j], s[j..];
    assert s == a + b && s[i] in a && s[i] in b by {
      assert a[i] == s[i] && b[0] == s[j];
    }
    assert multiset(s) == multiset(a) + multiset(b);
  }

  lemma {:induction false} JoinedOrder(a: seq<Id>, b: seq<Id>, r: seq<Id>)
    requires Descending(r) && multiset(r) == multiset(a + b)
    requires SpillOrder(a) && SpillOrder(b) && Spilled(a) !! Spilled(b)
    ensures SpillOrder(r)
  {
    forall i, j | 0 <= i < j < |r|
      ensures r[i] > r[j] || (r[i] == r[j] && r[i] % 2 == 1)
    {
      if r[i] == r[j] {
        OccursTwice(r, i, j);
        if r[i] % 2 == 0 {
          OnceTogether(a, b, r[i]);
        }
      }
    }
  }

  lemma {:induction false} OnceTogether(a: seq<Id>, b: seq<Id>, v: Id)
    requires SpillOrder(a) && SpillOrder(b) && Spilled(a) !! Spilled(b) && v % 2 == 0
    ensures multiset(a + b)[v] <= 1
  {
    OccursOnce(a, v);
    OccursOnce(b, v);
    IsSpilled(a, v / 2);
    IsSpilled(b, v / 2);
    assert multiset(a + b) == multiset(a) + multiset(b);
  }

  /** The spill part: the child's dirty pages leave the parent's list, the
      child's spilled pages are appended and the list is sorted again. */
  method CommitSpill(pspill: array<Id>, src: array<Pair>, cspill: array<Id>) returns (r: array<Id>)
    requires Valid(pspill) && SpillOrder(Ids(pspill)) && Valid(cspill) && SpillOrder(Ids(cspill)) && cspill != pspill
    requires ValidPairs(src) && Ascending(Pairs(src))
    requires Spilled(Ids(pspill)) - Mids(Pairs(src)) !! Spilled(Ids(cspill))
    requires forall k :: 1 <= k <= src[0].mid ==> 2 * src[k].mid <= MAX_ID
    requires pspill[0] + cspill[0] < IdSort.INT_LIMIT
    modifies pspill
    ensures Valid(r) && SpillOrder(Ids(r))
    ensures Spilled(Ids(r)) == old(Spilled(Ids(pspill))) - Mids(Pairs(src)) + Spilled(Ids(cspill))
  {
    DropDirty(pspill, src);
    r := JoinSpill(pspill, cspill);
  }
}
