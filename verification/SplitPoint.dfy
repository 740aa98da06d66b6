/** The split point of mdb_page_split.

    A page that has no room for one more node is split in two.  `sizes` are the
    bytes taken by the nodes, slot included, in key order and with the new node
    at position `newindx`; all are even. */
module SplitPoint {
  import opened Basics

  // ----- the search -----

  /** Scan upwards from node i, which starts at `used` bytes: stop at the node
      that overflows the page, or at node k - 1. */
  function ScanUp(sizes: seq<nat>, i: nat, k: nat, used: nat, pmax: nat): nat
    requires i < k <= |sizes|
    decreases k - i
  {
    if used + sizes[i] > pmax || i == k - 1 then i else ScanUp(sizes, i + 1, k, used + sizes[i], pmax)
  }

  /** Scan downwards from node i, not below node k + 1. */
  function ScanDown(sizes: seq<nat>, i: nat, k: int, used: nat, pmax: nat): nat
    requires -1 <= k < i < |sizes|
    decreases i - k
  {
    if used + sizes[i] > pmax || i == k + 1 then i + 1 else ScanDown(sizes, i - 1, k, used + sizes[i], pmax)
  }

  /** Does the source look at the sizes at all? */
  predicate Searches(sizes: seq<nat>, newindx: nat, pmax: nat)
    requires newindx < |sizes|
  {
    var nkeys := |sizes| - 1;
    nkeys < 32 || sizes[newindx] > pmax / 16 || newindx >= nkeys
  }

  /** Position of the first node of the right page. */
  function SplitIndex(sizes: seq<nat>, newindx: nat, isLeaf: bool, pmax: nat): nat
    requires |sizes| >= 3 && newindx < |sizes|
  {
    var nkeys := |sizes| - 1;
    var middle := (nkeys + 1) / 2;
    if !Searches(sizes, newindx, pmax) then middle
    else if newindx >= nkeys then ScanUp(sizes, 0, nkeys, 0, pmax)
    else if newindx <= middle then ScanUp(sizes, 0, middle + 1 + (if isLeaf then 1 else 0), 0, pmax)
    else ScanDown(sizes, nkeys, middle - 1, 0, pmax)
  }

  /** What the split point is, in numbers.  A page with 33 nodes or more, the new one
      not last and of at most a sixteenth of a page, is split in the middle.  An
      appended node takes only the last old one along.  Otherwise as much stays left,
      or goes right, as a page holds, on the side of the new node up to one node past
      the middle. */
  ghost predicate IsSplit(sizes: seq<nat>, newindx: nat, isLeaf: bool, pmax: nat, split: nat)
    requires |sizes| >= 3 && newindx < |sizes|
  {
    var n, middle := |sizes|, |sizes| / 2;
    if n >= 33 && 16 * sizes[newindx] <= pmax && newindx + 1 < n then split == middle
    else if newindx + 1 == n then LongestLeft(sizes, split, n - 2, pmax)
    else if newindx <= middle then LongestLeft(sizes, split, if isLeaf then middle + 1 else middle, pmax)
    else LongestRight(sizes, split, middle + 1, pmax)
  }

  /** The most nodes, up to `most`, that a page holds from the left. */
  ghost predicate LongestLeft(sizes: seq<nat>, split: nat, most: nat, pmax: nat)
    requires most < |sizes|
  {
    split <= most && Sum(sizes[..split]) <= pmax && (split == most || Sum(sizes[..split + 1]) > pmax)
  }

  /** The most nodes, down to node `least`, that a page holds from the right. */
  ghost predicate LongestRight(sizes: seq<nat>, split: nat, least: nat, pmax: nat)
    requires 0 < least
  {
    && least <= split <= |sizes| && Sum(sizes[split..]) <= pmax
    && (split == least || Sum(sizes[split - 1..]) > pmax)
  }

  lemma {:induction false} ScanUpIs(sizes: seq<nat>, k: nat, pmax: nat)
    requires 0 < k <= |sizes|
    ensures LongestLeft(sizes, ScanUp(sizes, 0, k, 0, pmax), k - 1, pmax)
  {
    assert sizes[..0] == [];
    ScanUpStops(sizes, 0, k, 0, pmax);
  }

  lemma {:induction false} ScanDownIs(sizes: seq<nat>, k: int, pmax: nat)
    requires -1 <= k < |sizes| - 1
    ensures LongestRight(sizes, ScanDown(sizes, |sizes| - 1, k, 0, pmax), k + 2, pmax)
  {
    assert sizes[|sizes|..] == [];
    ScanDownStops(sizes, |sizes| - 1, k, 0, pmax);
  }

  lemma {:induction false} SplitIndexIs(sizes: seq<nat>, newindx: nat, isLeaf: bool, pmax: nat)
    requires |sizes| >= 3 && newindx < |sizes|
    ensures IsSplit(sizes, newindx, isLeaf, pmax, SplitIndex(sizes, newindx, isLeaf, pmax))
  {
    var nkeys, middle := |sizes| - 1, |sizes| / 2;
    if Searches(sizes, newindx, pmax) {
      if newindx >= nkeys {
        ScanUpIs(sizes, nkeys, pmax);
      } else if newindx <= middle {
        ScanUpIs(sizes, middle + 1 + (if isLeaf then 1 else 0), pmax);
      } else {
        ScanDownIs(sizes, middle - 1, pmax);
      }
    }
  }

  lemma {:induction false} SearchedIsGood(sizes: seq<nat>, newindx: nat, isLeaf: bool, pmax: nat, keyless: nat)
    requires Overfull(sizes, newindx, isLeaf, pmax, keyless)
    requires |sizes| < 33 || 16 * sizes[newindx] > pmax || newindx + 1 == |sizes|
    ensures |sizes| >= 3 && GoodSplit(sizes, SplitIndex(sizes, newindx, isLeaf, pmax), isLeaf, pmax, keyless)
  {
    SearchedSplitFits(sizes, newindx, isLeaf, pmax, keyless);
  }

  /** The split point is where the numbers say, and both halves fit if it was
      searched for. */
  method FindSplit(sizes: seq<nat>, newindx: nat, isLeaf: bool, pmax: nat, ghost keyless: nat) returns (split: nat)
    requires |sizes| >= 3 && newindx < |sizes|
    ensures IsSplit(sizes, newindx, isLeaf, pmax, split)
    ensures Overfull(sizes, newindx, isLeaf, pmax, keyless)
            && (|sizes| < 33 || 16 * sizes[newindx] > pmax || newindx + 1 == |sizes|) ==>
              GoodSplit(sizes, split, isLeaf, pmax, keyless)
  {
    split := ScanSizes(sizes, newindx, isLeaf, pmax);
    SplitIndexIs(sizes, newindx, isLeaf, pmax);
    if Overfull(sizes, newindx, isLeaf, pmax, keyless)
       && (|sizes| < 33 || 16 * sizes[newindx] > pmax || newindx + 1 == |sizes|) {
      SearchedIsGood(sizes, newindx, isLeaf, pmax, keyless);
    }
  }

  /** The loop of the source. */
  method ScanSizes(sizes: seq<nat>, newindx: nat, isLeaf: bool, pmax: nat) returns (split: nat)
    requires |sizes| >= 3 && newindx < |sizes|
    ensures split == SplitIndex(sizes, newindx, isLeaf, pmax)
  {
    var nkeys := |sizes| - 1;
    split := (nkeys + 1) / 2;
    if nkeys < 32 || sizes[newindx] > pmax / 16 || newindx >= nkeys {
      var i: int, j: int, k: int;
      if newindx <= split || newindx >= nkeys {
        i, j := 0, 1;
        k := if newindx >= nkeys then nkeys else split + 1 + (if isLeaf then 1 else 0);
      } else {
        i, j := nkeys, -1;
        k := split - 1;
      }
      var psize: nat := 0;
      ghost var goal := SplitIndex(sizes, newindx, isLeaf, pmax);
      while i != k
        invariant j == 1 ==> 0 <= i < k <= |sizes| && goal == ScanUp(sizes, i, k, psize, pmax)
        invariant j == -1 ==> -1 <= k < i < |sizes| && goal == ScanDown(sizes, i, k, psize, pmax)
        invariant j == 1 || j == -1
        decreases if j == 1 then k - i else i - k
      {
        psize := psize + sizes[i];
        if psize > pmax || i == k - j {
          split := i + (if j < 0 then 1 else 0);
          break;
        }
        i := i + j;
      }
    }
  }

  lemma {:induction false} ScanUpStops(sizes: seq<nat>, i: nat, k: nat, used: nat, pmax: nat)
    requires i < k <= |sizes| && used == Sum(sizes[..i]) <= pmax
    ensures var r := ScanUp(sizes, i, k, used, pmax);
            && i <= r < k && Sum(sizes[..r]) <= pmax
            && (r == k - 1 || Sum(sizes[..r + 1]) > pmax)
    decreases k - i
  {
    SumSplit(sizes, i);
    if !(used + sizes[i] > pmax || i == k - 1) {
      ScanUpStops(sizes, i + 1, k, used + sizes[i], pmax);
    }
  }

  lemma {:induction false} ScanDownStops(sizes: seq<nat>, i: nat, k: int, used: nat, pmax: nat)
    requires -1 <= k < i < |sizes| && used == Sum(sizes[i + 1..]) <= pmax
    ensures var r := ScanDown(sizes, i, k, used, pmax);
            && k + 2 <= r <= i + 1 && Sum(sizes[r..]) <= pmax
            && (r == k + 2 || Sum(sizes[r - 1..]) > pmax)
    decreases i - k
  {
    SumSplit(sizes, i);
    if !(used + sizes[i] > pmax || i == k + 1) {
      ScanDownStops(sizes, i - 1, k, used + sizes[i], pmax);
    }
  }

  // ----- both halves fit -----

  /** Bytes of the right page: in a branch its first node loses its key. */
  function RightBytes(sizes: seq<nat>, split: nat, isLeaf: bool, keyless: nat): int
    requires split < |sizes|
  {
    Sum(sizes[split..]) - (if isLeaf then 0 else sizes[split] - keyless)
  }

  /** Nodes that fit a page before the new one comes, none larger than half a
      page; a branch starts with a keyless node. */
  ghost predicate Overfull(sizes: seq<nat>, newindx: nat, isLeaf: bool, pmax: nat, keyless: nat) {
    && newindx < |sizes|
    && (forall i :: 0 <= i < |sizes| ==> 2 * sizes[i] <= pmax)
    && Sum(sizes) - sizes[newindx] <= pmax < Sum(sizes)
    && (!isLeaf ==> newindx > 0 && sizes[0] == keyless && forall i :: 0 <= i < |sizes| ==> keyless <= sizes[i])
  }

  lemma {:induction false} TwoNodesFit(sizes: seq<nat>, pmax: nat)
    requires |sizes| <= 2 && forall i :: 0 <= i < |sizes| ==> 2 * sizes[i] <= pmax
    ensures Sum(sizes) <= pmax
  {
    if sizes != [] {
      SumSplit(sizes, |sizes| - 1);
      assert sizes[|sizes|..] == [];
      if |sizes| == 2 {
        assert sizes[..1][..0] == [];
      } else {
        assert sizes[..0] == [];
      }
    }
  }

  lemma {:induction false} OverfullIsLong(sizes: seq<nat>, newindx: nat, isLeaf: bool, pmax: nat, keyless: nat)
    requires Overfull(sizes, newindx, isLeaf, pmax, keyless)
    ensures |sizes| >= 3
  {
    if |sizes| < 3 {
      TwoNodesFit(sizes, pmax);
    }
  }

  /** Both pages get at least one node and hold their nodes. */
  ghost predicate GoodSplit(sizes: seq<nat>, split: nat, isLeaf: bool, pmax: nat, keyless: nat) {
    && 1 <= split < |sizes|
    && Sum(sizes[..split]) <= pmax
    && RightBytes(sizes, split, isLeaf, keyless) <= pmax
  }

  /** Old nodes alone never exceed a page. */
  lemma {:induction false} WithoutNew(sizes: seq<nat>, newindx: nat, split: nat, pmax: nat)
    requires newindx < |sizes| && split <= |sizes| && Sum(sizes) - sizes[newindx] <= pmax
    ensures newindx < split ==> Sum(sizes[split..]) <= pmax && Sum(sizes[..split]) >= sizes[newindx]
    ensures newindx >= split ==> Sum(sizes[..split]) <= pmax && Sum(sizes[split..]) >= sizes[newindx]
  {
    SumSplit(sizes, split);
    if newindx < split {
      PartBound(sizes[..split], newindx);
    } else {
      PartBound(sizes[split..], newindx - split);
    }
  }

  lemma {:induction false} PartBound(s: seq<nat>, i: nat)
    requires i < |s|
    ensures s[i] <= Sum(s)
  {
    SumSplit(s, i);
  }

  lemma {:induction false} SearchedAppend(sizes: seq<nat>, isLeaf: bool, pmax: nat, keyless: nat)
    requires |sizes| >= 3 && Overfull(sizes, |sizes| - 1, isLeaf, pmax, keyless)
    ensures GoodSplit(sizes, ScanUp(sizes, 0, |sizes| - 1, 0, pmax), isLeaf, pmax, keyless)
  {
    ScanUpStops(sizes, 0, |sizes| - 1, 0, pmax);
    AppendedSplit(sizes, isLeaf, pmax, keyless, ScanUp(sizes, 0, |sizes| - 1, 0, pmax));
  }

  lemma {:induction false} SearchedLow(sizes: seq<nat>, newindx: nat, isLeaf: bool, pmax: nat, keyless: nat, k: nat)
    requires |sizes| >= 3 && Overfull(sizes, newindx, isLeaf, pmax, keyless) && newindx <= |sizes| / 2
    requires k == |sizes| / 2 + 1 + (if isLeaf then 1 else 0) <= |sizes|
    ensures GoodSplit(sizes, ScanUp(sizes, 0, k, 0, pmax), isLeaf, pmax, keyless)
  {
    ScanUpStops(sizes, 0, k, 0, pmax);
    LowSplit(sizes, newindx, isLeaf, pmax, keyless, ScanUp(sizes, 0, k, 0, pmax), k);
  }

  lemma {:induction false} SearchedHigh(sizes: seq<nat>, newindx: nat, isLeaf: bool, pmax: nat, keyless: nat,
                                        middle: nat)
    requires |sizes| >= 3 && Overfull(sizes, newindx, isLeaf, pmax, keyless)
    requires 1 <= middle < newindx < |sizes| - 1
    ensures GoodSplit(sizes, ScanDown(sizes, |sizes| - 1, middle - 1, 0, pmax), isLeaf, pmax, keyless)
  {
    assert sizes[|sizes|..] == [];
    ScanDownStops(sizes, |sizes| - 1, middle - 1, 0, pmax);
    HighSplit(sizes, newindx, isLeaf, pmax, keyless, ScanDown(sizes, |sizes| - 1, middle - 1, 0, pmax), middle);
  }

  /** Whenever the search runs, both pages get at least one node and everything
      fits, whatever the mix of node sizes. */
  lemma {:induction false} SearchedSplitFits(sizes: seq<nat>, newindx: nat, isLeaf: bool, pmax: nat, keyless: nat)
    requires Overfull(sizes, newindx, isLeaf, pmax, keyless) && Searches(sizes, newindx, pmax)
    ensures |sizes| >= 3 && GoodSplit(sizes, SplitIndex(sizes, newindx, isLeaf, pmax), isLeaf, pmax, keyless)
  {
    OverfullIsLong(sizes, newindx, isLeaf, pmax, keyless);
    var nkeys, middle := |sizes| - 1, |sizes| / 2;
    if newindx >= nkeys {
      SearchedAppend(sizes, isLeaf, pmax, keyless);
    } else if newindx <= middle {
      SearchedLow(sizes, newindx, isLeaf, pmax, keyless, middle + 1 + (if isLeaf then 1 else 0));
    } else {
      SearchedHigh(sizes, newindx, isLeaf, pmax, keyless, middle);
    }
  }

  /** The new node comes last: the old last node moves with it. */
  lemma {:induction false} AppendedSplit(sizes: seq<nat>, isLeaf: bool, pmax: nat, keyless: nat, split: nat)
    requires |sizes| >= 3 && Overfull(sizes, |sizes| - 1, isLeaf, pmax, keyless)
    requires split < |sizes| - 1 && Sum(sizes[..split]) <= pmax
    requires split == |sizes| - 2 || Sum(sizes[..split + 1]) > pmax
    ensures GoodSplit(sizes, split, isLeaf, pmax, keyless)
  {
    var nkeys := |sizes| - 1;
    SumSplit(sizes, nkeys);
    SumSplit(sizes[..nkeys], split + 1);
    assert sizes[..nkeys][..split + 1] == sizes[..split + 1];
    assert sizes[nkeys + 1..] == [];
    assert split == nkeys - 1;
    SumSplit(sizes, split);
    assert !isLeaf ==> keyless <= sizes[split];
  }

  /** The new node is in the lower half. */
  lemma {:induction false} LowSplit(sizes: seq<nat>, newindx: nat, isLeaf: bool, pmax: nat, keyless: nat, split: nat,
                                    k: nat)
    requires Overfull(sizes, newindx, isLeaf, pmax, keyless) && |sizes| >= 3
    requires k == |sizes| / 2 + 1 + (if isLeaf then 1 else 0) && newindx <= |sizes| / 2
    requires split < k <= |sizes| && Sum(sizes[..split]) <= pmax && (split == k - 1 || Sum(sizes[..split + 1]) > pmax)
    ensures GoodSplit(sizes, split, isLeaf, pmax, keyless)
  {
    SumSplit(sizes, split);
    assert sizes[..0] == [];
    if Sum(sizes[..split + 1]) <= pmax {
      if newindx < split {
        WithoutNew(sizes, newindx, split, pmax);
      } else {
        // a branch whose new node becomes the keyless first node of the right page
        assert !isLeaf && newindx == split;
        PartBound(sizes[..split], 0);
      }
    }
    assert !isLeaf ==> keyless <= sizes[split];
  }

  /** The new node is in the upper half. */
  lemma {:induction false} HighSplit(sizes: seq<nat>, newindx: nat, isLeaf: bool, pmax: nat, keyless: nat, split: nat,
                                     middle: nat)
    requires |sizes| >= 3 && Overfull(sizes, newindx, isLeaf, pmax, keyless)
    requires middle < newindx < |sizes| - 1
    requires middle + 1 <= split <= |sizes| && Sum(sizes[split..]) <= pmax
    requires split == middle + 1 || Sum(sizes[split - 1..]) > pmax
    ensures GoodSplit(sizes, split, isLeaf, pmax, keyless)
  {
    SumSplit(sizes, split - 1);
    SumSplit(sizes, split);
    assert sizes[|sizes|..] == [];
    if Sum(sizes[split - 1..]) <= pmax {
      WithoutNew(sizes, newindx, split, pmax);
    }
    assert !isLeaf ==> keyless <= sizes[split];
  }

  // ----- the shortcut -----

  /** With 32 nodes or more and a small new node the source splits in the middle
      without looking.  This is when that works: the new node fits into the free
      space plus what the other half takes with it. */
  predicate ShortcutFits(sizes: seq<nat>, newindx: nat, isLeaf: bool, pmax: nat, keyless: nat)
    requires newindx < |sizes|
  {
    var middle := |sizes| / 2;
    var free := pmax - (Sum(sizes) - sizes[newindx]);
    if newindx < middle then sizes[newindx] <= free + Sum(sizes[middle..])
    else sizes[newindx] <= free + Sum(sizes[..middle]) + (if isLeaf then 0 else sizes[middle] - keyless)
  }

  lemma {:induction false} ShortcutSplitFits(sizes: seq<nat>, newindx: nat, isLeaf: bool, pmax: nat, keyless: nat)
    requires Overfull(sizes, newindx, isLeaf, pmax, keyless) && !Searches(sizes, newindx, pmax)
    ensures GoodSplit(sizes, SplitIndex(sizes, newindx, isLeaf, pmax), isLeaf, pmax, keyless)
            <==> ShortcutFits(sizes, newindx, isLeaf, pmax, keyless)
  {
    var middle := |sizes| / 2;
    SumSplit(sizes, middle);
    WithoutNew(sizes, newindx, middle, pmax);
    assert !isLeaf ==> keyless <= sizes[middle];
  }

  function Repeat(n: nat, size: nat): seq<nat> {
    seq(n, _ => size)
  }

  lemma {:induction false} SumRepeat(n: nat, size: nat)
    ensures Sum(Repeat(n, size)) == n * size
  {
    if n > 0 {
      SumRepeat(n - 1, size);
      assert Repeat(n, size)[..n - 1] == Repeat(n - 1, size);
      assert n * size == (n - 1) * size + size;
    }
  }

  lemma {:induction false} SumAtLeast(s: seq<nat>, least: nat, k: nat)
    requires k <= |s| && forall i :: 0 <= i < |s| ==> least <= s[i]
    ensures Sum(s) >= k * least
  {
    if k > 0 {
      SumAtLeast(s[..|s| - 1], least, k - 1);
      assert k * least == (k - 1) * least + least;
    }
  }

  /** A new node of at most sixteen times the smallest node is always placed
      well: at least sixteen nodes go to the other half. */
  lemma {:induction false} SmallNodeFits(sizes: seq<nat>, newindx: nat, isLeaf: bool, pmax: nat, keyless: nat,
                                         least: nat)
    requires Overfull(sizes, newindx, isLeaf, pmax, keyless) && !Searches(sizes, newindx, pmax)
    requires sizes[newindx] <= 16 * least && forall i :: 0 <= i < |sizes| ==> least <= sizes[i]
    ensures ShortcutFits(sizes, newindx, isLeaf, pmax, keyless)
  {
    var middle := |sizes| / 2;
    SumAtLeast(sizes[..middle], least, 16);
    SumAtLeast(sizes[middle..], least, 16);
  }

  /** Sixteen small nodes, then sixteen large ones with the new node among them:
      the shortcut leaves the right page overfull, a split after the next four
      nodes does not. */
  lemma {:induction false} ShortcutCanOverflow()
    ensures var all := WithNew(Repeat(16, 12) + Repeat(16, 242), 254, 20);
            && Overfull(all, 20, true, 4080, 10) && !Searches(all, 20, 4080)
            && !GoodSplit(all, SplitIndex(all, 20, true, 4080), true, 4080, 10)
            && GoodSplit(all, 20, true, 4080, 10)
  {
    var all := WithNew(Repeat(16, 12) + Repeat(16, 242), 254, 20);
    assert all[..16] == Repeat(16, 12);
    assert all[16..] == Repeat(4, 242) + [254] + Repeat(12, 242);
    SumRepeat(16, 12);
    SumRepeat(4, 242);
    SumRepeat(12, 242);
    SumAppend(Repeat(4, 242), [254]);
    SumAppend(Repeat(4, 242) + [254], Repeat(12, 242));
    assert Sum([254]) == 254 by {
      assert [254][..0] == [];
    }
    SumSplit(all, 16);
    assert all[20] == 254;
    assert all[..20] == Repeat(16, 12) + Repeat(4, 242);
    SumAppend(Repeat(16, 12), Repeat(4, 242));
    SumSplit(all, 20);
  }

  /** Some split always fits: as many nodes to the left as a page holds. */
  lemma {:induction false} SomeSplitFits(sizes: seq<nat>, newindx: nat, isLeaf: bool, pmax: nat, keyless: nat)
    returns (split: nat)
    requires Overfull(sizes, newindx, isLeaf, pmax, keyless)
    ensures GoodSplit(sizes, split, isLeaf, pmax, keyless)
  {
    assert sizes[..|sizes|] == sizes;
    split := LongestPrefix(sizes, pmax, |sizes|);
    SumSplit(sizes, split);
    assert sizes[..split + 1][..split] == sizes[..split];
  }

  lemma {:induction false} LongestPrefix(sizes: seq<nat>, pmax: nat, n: nat) returns (k: nat)
    requires n <= |sizes| && Sum(sizes[..n]) > pmax
    ensures k < n && Sum(sizes[..k]) <= pmax < Sum(sizes[..k + 1])
  {
    assert sizes[..n][..n - 1] == sizes[..n - 1];
    if Sum(sizes[..n - 1]) <= pmax {
      k := n - 1;
    } else {
      k := LongestPrefix(sizes, pmax, n - 1);
    }
  }

  lemma {:induction false} FourNodesFit(sizes: seq<nat>, pmax: nat)
    requires 2 <= |sizes| <= 4 && forall i :: 0 <= i < |sizes| ==> 4 * sizes[i] <= pmax
    ensures Sum(sizes) <= pmax
  {
    SumSplit(sizes, 2);
    TwoNodesFit(sizes[..2], pmax / 2);
    TwoNodesFit(sizes[2..], pmax / 2);
  }

  /** Nodes of at most a quarter page: both pages get at least two. */
  lemma {:induction false} SplitLeavesTwo(sizes: seq<nat>, newindx: nat, isLeaf: bool, pmax: nat, keyless: nat)
    requires Overfull(sizes, newindx, isLeaf, pmax, keyless) && !isLeaf && |sizes| >= 3
    requires forall i :: 0 <= i < |sizes| ==> 4 * sizes[i] <= pmax
    ensures 2 <= SplitIndex(sizes, newindx, isLeaf, pmax) <= |sizes| - 2
  {
    var nkeys, middle := |sizes| - 1, |sizes| / 2;
    if |sizes| <= 4 {
      FourNodesFit(sizes, pmax);
      assert false;
    }
    if Searches(sizes, newindx, pmax) {
      if newindx >= nkeys {
        UpStopsLate(sizes, nkeys, pmax);
      } else if newindx <= middle {
        UpStopsLate(sizes, middle + 1, pmax);
      } else {
        DownStopsLate(sizes, middle - 1, pmax);
      }
    }
  }

  lemma {:induction false} UpStopsLate(sizes: seq<nat>, k: nat, pmax: nat)
    requires 3 <= k <= |sizes| && forall i :: 0 <= i < |sizes| ==> 4 * sizes[i] <= pmax
    ensures 2 <= ScanUp(sizes, 0, k, 0, pmax) < k
  {
    ScanUpStops(sizes, 0, k, 0, pmax);
    var r := ScanUp(sizes, 0, k, 0, pmax);
    if r < 2 {
      TwoNodesFit(sizes[..r + 1], pmax);
    }
  }

  lemma {:induction false} DownStopsLate(sizes: seq<nat>, k: nat, pmax: nat)
    requires k + 4 <= |sizes| && forall i :: 0 <= i < |sizes| ==> 4 * sizes[i] <= pmax
    ensures k + 2 <= ScanDown(sizes, |sizes| - 1, k, 0, pmax) <= |sizes| - 2
  {
    assert sizes[|sizes|..] == [];
    ScanDownStops(sizes, |sizes| - 1, k, 0, pmax);
    var r := ScanDown(sizes, |sizes| - 1, k, 0, pmax);
    if r > |sizes| - 2 {
      TwoNodesFit(sizes[r - 1..], pmax);
    }
  }

  // ----- moving the nodes -----

  /** The old nodes with the new one at position newindx. */
  function WithNew<T>(nodes: seq<T>, node: T, newindx: nat): seq<T>
    requires newindx <= |nodes|
  {
    nodes[..newindx] + [node] + nodes[newindx..]
  }

  /** The nodes without the one at position p. */
  function Dropped<T>(nodes: seq<T>, p: nat): seq<T>
    requires p < |nodes|
  {
    nodes[..p] + nodes[p + 1..]
  }

  /** The moving loop: it starts at the split point, fills the right page up to
      the last node, wraps around and fills the copy of the left page. */
  method MoveNodes<T>(nodes: seq<T>, node: T, newindx: nat, split: nat) returns (left: seq<T>, right: seq<T>)
    requires newindx <= |nodes| && 1 <= split <= |nodes|
    ensures left == WithNew(nodes, node, newindx)[..split] && right == WithNew(nodes, node, newindx)[split..]
    ensures left + right == WithNew(nodes, node, newindx)
  {
    var nkeys := |nodes|;
    ghost var all := WithNew(nodes, node, newindx);
    left, right := [], [];
    var i, onRight := split, true;
    while true
      invariant onRight ==> split <= i <= nkeys && right == all[split..i] && left == []
      invariant !onRight ==> 0 <= i < split && right == all[split..] && left == all[..i]
      decreases if onRight then nkeys + 1 + split - i else split - i
    {
      var item := if i == newindx then node else if i < newindx then nodes[i] else nodes[i - 1];
      assert item == all[i];
      if onRight {
        right := right + [item];
      } else {
        left := left + [item];
      }
      if i == nkeys {
        i, onRight := 0, false;
      } else {
        i := i + 1;
      }
      if i == split {
        break;
      }
    }
  }
}
