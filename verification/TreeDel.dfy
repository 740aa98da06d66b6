/** Deleting a record: mdb_cursor_del0, mdb_rebalance, mdb_node_move and
    mdb_page_merge on page values. */
module TreeDel {
  import opened Basics
  import opened SplitPoint
  import opened Tree
  import opened TreePut

  /** What a deletion makes of a subtree: a page that still has to go through
      mdb_rebalance, a page that is in order, or two pages, because a longer
      separator did not fit. */
  datatype DelResult =
    | NotFound
    | Check(node: Node)
    | Stable(node: Node)
    | Grew(left: Node, sep: Key, right: Node)
    | Overflow(sizes: seq<nat>, newindx: nat, isLeaf: bool)

  // ----- the fill of a page -----

  /** PAGEFILL, in tenths of a percent. */
  function PageFill(n: Node): int {
    1000 * Used(n) / pmax
  }

  /** The fill is at least the threshold: a quarter for leaves, a thousandth for
      branches. */
  predicate Filled(n: Node) {
    if n.Leaf? then 4 * Used(n) >= pmax else 1000 * Used(n) >= pmax
  }

  /** The page needs no rebalancing. */
  predicate InOrder(n: Node) {
    Filled(n) && Count(n) >= MinCount(n)
  }

  lemma {:induction false} QuotientAtLeast(a: nat, b: nat, t: nat)
    requires b > 0
    ensures a / b >= t <==> a >= t * b
  {
    var q := a / b;
    assert b * q <= a < b * q + b;
    if q >= t {
      assert b * q >= b * t;
    } else {
      assert b * (q + 1) <= b * t;
    }
  }

  lemma {:induction false} FilledIsThreshold(n: Node)
    ensures Filled(n) <==> PageFill(n) >= (if n.Leaf? then 250 else 1)
  {
    QuotientAtLeast(1000 * Used(n), pmax, 250);
    QuotientAtLeast(1000 * Used(n), pmax, 1);
  }

  // ----- lowest keys -----

  /** mdb_page_search_lowest: the first key below a page. */
  function LowestKey(n: Node): Key {
    match n
    case Leaf(es) => if es == [] then NoKey else es[0].key
    case Branch(_, kids) => if kids == [] then NoKey else LowestKey(kids[0])
  }

  /** A page's lower bound can be raised to its lowest key. */
  lemma {:induction false} RaiseLow(n: Node, d: nat, lo: Bound, hi: Bound)
    requires Valid(n, d, lo, hi)
    ensures var k := LowestKey(n); KeyOk(k) && InBounds(k.rank, lo, hi) && Valid(n, d, At(k.rank), hi)
    decreases d
  {
    assert Shape(n, d, lo, hi);
    var low := At(LowestKey(n).rank);
    if n.Branch? {
      assert KidsOk(n.keys, n.kids, d - 1, lo, hi);
      var first, fence := n.kids[0], Fence(n.keys, 1, lo, hi);
      RaiseLow(first, d - 1, Fence(n.keys, 0, lo, hi), fence);
      forall i | 1 <= i < |n.keys| ensures InBounds(n.keys[i].rank, low, hi) {
        assert n.keys[1].rank <= n.keys[i].rank;
      }
      forall i | 0 <= i < |n.kids| ensures Valid(n.kids[i], d - 1, Fence(n.keys, i, low, hi),
          Fence(n.keys, i + 1, low, hi)) {
        assert i > 0 ==> Fence(n.keys, i, low, hi) == Fence(n.keys, i, lo, hi);
        assert Fence(n.keys, i + 1, low, hi) == Fence(n.keys, i + 1, lo, hi);
      }
      assert KidsOk(n.keys, n.kids, d - 1, low, hi);
      assert Shape(n, d, low, hi);
    } else {
      assert EntriesOk(n.es, low, hi);
      assert Shape(n, d, low, hi);
    }
  }

  /** A page's upper bound can be raised. */
  lemma {:induction false} RaiseHigh(n: Node, d: nat, lo: Bound, hi: Bound, high: int)
    requires Valid(n, d, lo, hi) && hi.At? && hi.rank <= high
    ensures Valid(n, d, lo, At(high))
    decreases d
  {
    assert Shape(n, d, lo, hi);
    if n.Branch? {
      assert KidsOk(n.keys, n.kids, d - 1, lo, hi);
      var last := |n.kids| - 1;
      assert Fence(n.keys, last + 1, lo, hi) == hi;
      RaiseHigh(n.kids[last], d - 1, Fence(n.keys, last, lo, hi), hi, high);
      forall i | 0 <= i < |n.kids|
        ensures Valid(n.kids[i], d - 1, Fence(n.keys, i, lo, At(high)), Fence(n.keys, i + 1, lo, At(high)))
      {
        assert Fence(n.keys, i, lo, At(high)) == Fence(n.keys, i, lo, hi);
        assert i < last ==> Fence(n.keys, i + 1, lo, At(high)) == Fence(n.keys, i + 1, lo, hi);
      }
      assert KidsOk(n.keys, n.kids, d - 1, lo, At(high));
      assert Shape(n, d, lo, At(high));
    } else {
      assert EntriesOk(n.es, lo, At(high));
      assert Shape(n, d, lo, At(high));
    }
  }

  // ----- two neighbours -----

  predicate SameKind(l: Node, r: Node) {
    l.Leaf? == r.Leaf?
  }

  /** mdb_page_merge: the nodes of the right page behind those of the left; the
      keyless first node of a branch gets the lowest key below it. */
  function Merge(l: Node, r: Node): Node
    requires SameKind(l, r) && (r.Branch? ==> |r.keys| == |r.kids| > 0)
  {
    if l.Leaf? then Leaf(l.es + r.es)
    else Branch(l.keys + [LowestKey(r)] + r.keys[1..], l.kids + r.kids)
  }

  /** mdb_node_move from the left neighbour: its last node goes to the front;
      the key of the moved node is the new separator. */
  function MoveRight(l: Node, r: Node): (m: (Node, Key, Node))
    requires SameKind(l, r) && Count(l) > 1
    requires l.Branch? ==> |l.keys| == |l.kids| && |r.keys| == |r.kids| > 0
  {
    var last := Count(l) - 1;
    if l.Leaf? then (Leaf(l.es[..last]), l.es[last].key, Leaf([l.es[last]] + r.es))
    else (Branch(l.keys[..last], l.kids[..last]), l.keys[last],
          Branch([NoKey, LowestKey(r)] + r.keys[1..], [l.kids[last]] + r.kids))
  }

  /** mdb_node_move from the right neighbour: its first node goes to the end;
      the key of its new first node is the new separator. */
  function MoveLeft(l: Node, r: Node): (m: (Node, Key, Node))
    requires SameKind(l, r) && Count(r) > 1
    requires l.Branch? ==> |l.keys| == |l.kids| && |r.keys| == |r.kids|
  {
    if l.Leaf? then (Leaf(l.es + [r.es[0]]), r.es[1].key, Leaf(r.es[1..]))
    else (Branch(l.keys + [LowestKey(r)], l.kids + [r.kids[0]]), r.keys[1],
          Branch([NoKey] + r.keys[2..], r.kids[1..]))
  }

  /** Cut a page before node k. */
  function Cut(n: Node, k: nat): (Node, Key, Node)
    requires k < Count(n) && (n.Branch? ==> |n.keys| == |n.kids|)
  {
    if n.Leaf? then (Leaf(n.es[..k]), n.es[k].key, Leaf(n.es[k..]))
    else (Branch(n.keys[..k], n.kids[..k]), n.keys[k], Branch([NoKey] + n.keys[k + 1..], n.kids[k..]))
  }

  /** Moving a node is merging and cutting again one node further. */
  lemma {:induction false} MoveRightIsCut(l: Node, r: Node)
    requires SameKind(l, r) && Count(l) > 1
    requires l.Branch? ==> |l.keys| == |l.kids| && |r.keys| == |r.kids| > 0
    ensures MoveRight(l, r) == Cut(Merge(l, r), Count(l) - 1)
  {
    var k := Count(l) - 1;
    if l.Leaf? {
      var all := l.es + r.es;
      assert all[..k] == l.es[..k] && all[k..] == [l.es[k]] + r.es;
    } else {
      var keys, kids := l.keys + [LowestKey(r)] + r.keys[1..], l.kids + r.kids;
      assert keys[..k] == l.keys[..k] && [NoKey] + keys[k + 1..] == [NoKey, LowestKey(r)] + r.keys[1..];
      assert kids[..k] == l.kids[..k] && kids[k..] == [l.kids[k]] + r.kids;
    }
  }

  lemma {:induction false} MoveLeftIsCut(l: Node, r: Node)
    requires SameKind(l, r) && Count(r) > 1
    requires l.Branch? ==> |l.keys| == |l.kids| && |r.keys| == |r.kids|
    ensures MoveLeft(l, r) == Cut(Merge(l, r), Count(l) + 1)
  {
    var k := Count(l) + 1;
    if l.Leaf? {
      var all := l.es + r.es;
      assert all[..k] == l.es + [r.es[0]] && all[k..] == r.es[1..];
    } else {
      var keys, kids := l.keys + [LowestKey(r)] + r.keys[1..], l.kids + r.kids;
      assert keys[..k] == l.keys + [LowestKey(r)] && [NoKey] + keys[k + 1..] == [NoKey] + r.keys[2..];
      assert kids[..k] == l.kids + [r.kids[0]] && kids[k..] == r.kids[1..];
    }
  }

  // ----- merged children -----

  lemma {:induction false} KeysJoin(keysL: seq<Key>, keysR: seq<Key>, low: Key, lo: Bound, mid: int, hi: Bound)
    requires KeysOk(keysL, lo, At(mid)) && KeysOk(keysR, At(mid), hi) && InBounds(mid, lo, hi)
    requires KeyOk(low) && mid <= low.rank && (hi.At? ==> low.rank < hi.rank)
    requires |keysR| > 1 ==> low.rank < keysR[1].rank
    ensures KeysOk(keysL + [low] + keysR[1..], lo, hi)
  {
    var keys, n := keysL + [low] + keysR[1..], |keysL|;
    forall i | 1 <= i < |keys| ensures KeyOk(keys[i]) && InBounds(keys[i].rank, lo, hi) {
      assert keys[i] == if i < n then keysL[i] else if i == n then low else keysR[i - n];
    }
    forall i, j | 1 <= i < j < |keys| ensures keys[i].rank < keys[j].rank {
      assert keys[i] == if i < n then keysL[i] else if i == n then low else keysR[i - n];
      assert keys[j] == if j < n then keysL[j] else if j == n then low else keysR[j - n];
    }
  }

  lemma {:induction false} FenceJoin(keysL: seq<Key>, keysR: seq<Key>, low: Key, lo: Bound, mid: int, hi: Bound, i: nat)
    requires |keysL| > 0 && |keysR| > 0 && i <= |keysL| + |keysR|
    ensures var n := |keysL|;
            Fence(keysL + [low] + keysR[1..], i, lo, hi)
            == if i < n then Fence(keysL, i, lo, At(mid)) else if i == n then At(low.rank)
                else Fence(keysR, i - n, At(mid), hi)
  {
  }

  lemma {:induction false} KidsJoin(keysL: seq<Key>, kidsL: seq<Node>, keysR: seq<Key>, kidsR: seq<Node>, d: nat,
                                    lo: Bound, mid: int, hi: Bound)
    requires KidsOk(keysL, kidsL, d, lo, At(mid)) && KidsOk(keysR, kidsR, d, At(mid), hi) && InBounds(mid, lo, hi)
    ensures KidsOk(keysL + [LowestKey(kidsR[0])] + keysR[1..], kidsL + kidsR, d, lo, hi)
  {
    var low, n := LowestKey(kidsR[0]), |keysL|;
    RaiseLow(kidsR[0], d, At(mid), Fence(keysR, 1, At(mid), hi));
    assert Fence(keysL, n, lo, At(mid)) == At(mid);
    RaiseHigh(kidsL[n - 1], d, Fence(keysL, n - 1, lo, At(mid)), At(mid), low.rank);
    var keys, kids := keysL + [low] + keysR[1..], kidsL + kidsR;
    KeysJoin(keysL, keysR, low, lo, mid, hi);
    forall i | 0 <= i < |kids| ensures Valid(kids[i], d, Fence(keys, i, lo, hi), Fence(keys, i + 1, lo, hi)) {
      FenceJoin(keysL, keysR, low, lo, mid, hi, i);
      FenceJoin(keysL, keysR, low, lo, mid, hi, i + 1);
      assert kids[i] == if i < n then kidsL[i] else kidsR[i - n];
    }
  }

  lemma {:induction false} EntriesJoin(l: seq<Entry>, r: seq<Entry>, lo: Bound, mid: int, hi: Bound)
    requires EntriesOk(l, lo, At(mid)) && EntriesOk(r, At(mid), hi) && InBounds(mid, lo, hi)
    ensures EntriesOk(l + r, lo, hi)
  {
  }

  lemma {:induction false} LeafSizesJoin(l: seq<Entry>, r: seq<Entry>)
    ensures Recs(l + r) == Recs(l) + Recs(r)
    ensures Sum(LeafSizes(l + r)) == Sum(LeafSizes(l)) + Sum(LeafSizes(r))
  {
    assert LeafSizes(l + r) == LeafSizes(l) + LeafSizes(r);
    SumAppend(LeafSizes(l), LeafSizes(r));
  }

  lemma {:induction false} BranchSizesJoin(keysL: seq<Key>, low: Key, keysR: seq<Key>)
    requires |keysR| > 0 && keysR[0] == NoKey
    ensures Sum(BranchSizes(keysL + [low] + keysR[1..]))
            == Sum(BranchSizes(keysL)) + KeyBytes(low) + Sum(BranchSizes(keysR)) - KEYLESS
  {
    var a, b, c := BranchSizes(keysL), [KeyBytes(low)], BranchSizes(keysR);
    assert BranchSizes(keysL + [low] + keysR[1..]) == a + b + c[1..];
    SumAppend(a + b, c[1..]);
    SumAppend(a, b);
    SumSplit(c, 0);
    assert c[0..] == c && c[..0] == [] && b[..0] == [];
  }

  // ----- what fits -----

  /** Bytes of a page that has to be rebalanced. */
  lemma {:induction false} SmallBound(n: Node, d: nat, lo: Bound, hi: Bound)
    requires Shape(n, d, lo, hi) && !InOrder(n)
    ensures if n.Leaf? then 4 * Used(n) < pmax else Used(n) <= 66
  {
    if n.Branch? {
      assert KidsOk(n.keys, n.kids, d - 1, lo, hi);
      if |n.keys| == 1 {
        SumOne(BranchSizes(n.keys));
      }
    } else if |n.es| == 0 {
      assert LeafSizes(n.es) == [];
    }
  }

  /** Bytes of a neighbour that gives no node away. */
  lemma {:induction false} SpareBound(n: Node, d: nat, lo: Bound, hi: Bound)
    requires Shape(n, d, lo, hi) && !(Filled(n) && Count(n) > MinCount(n))
    ensures if n.Leaf? then 2 * Used(n) <= pmax else Used(n) <= 532
  {
    if n.Branch? {
      assert KidsOk(n.keys, n.kids, d - 1, lo, hi);
      if |n.keys| <= 2 {
        TwoKeys(n.keys, lo, hi);
      }
    } else if |n.es| == 1 {
      EntryFits(n.es[0]);
      SumOne(LeafSizes(n.es));
    } else if |n.es| == 0 {
      assert LeafSizes(n.es) == [];
    }
  }

  lemma {:induction false} TwoKeys(keys: seq<Key>, lo: Bound, hi: Bound)
    requires KeysOk(keys, lo, hi) && |keys| <= 2
    ensures Sum(BranchSizes(keys)) <= 532
  {
    var sizes := BranchSizes(keys);
    if |keys| == 2 {
      assert KeyBytes(keys[1]) <= 522;
      SumOne(sizes[..1]);
    } else {
      SumOne(sizes);
    }
  }

  /** Merging always fits. */
  lemma {:induction false} MergeGood(l: Node, r: Node, d: nat, lo: Bound, mid: int, hi: Bound)
    requires Shape(l, d, lo, At(mid)) && Shape(r, d, At(mid), hi) && InBounds(mid, lo, hi)
    ensures SameKind(l, r) && (r.Branch? ==> |r.keys| == |r.kids| > 0)
    ensures var m := Merge(l, r);
            && Records(m) == Records(l) + Records(r) && Count(m) == Count(l) + Count(r) && m.Leaf? == l.Leaf?
            && (Used(m) <= pmax ==> Shape(m, d, lo, hi))
            && Used(m) <= Used(l) + Used(r) + (if l.Leaf? then 0 else 512)
  {
    if l.Leaf? {
      EntriesJoin(l.es, r.es, lo, mid, hi);
      LeafSizesJoin(l.es, r.es);
    } else {
      assert KidsOk(l.keys, l.kids, d - 1, lo, At(mid)) && KidsOk(r.keys, r.kids, d - 1, At(mid), hi);
      RaiseLow(r.kids[0], d - 1, At(mid), Fence(r.keys, 1, At(mid), hi));
      KidsJoin(l.keys, l.kids, r.keys, r.kids, d - 1, lo, mid, hi);
      BranchSizesJoin(l.keys, LowestKey(r), r.keys);
      FlatAppend(l.kids, r.kids);
    }
  }

  /** A page that has to be rebalanced fits together with a neighbour that gives
      no node away. */
  lemma {:induction false} MergeFits(l: Node, r: Node, d: nat, lo: Bound, mid: int, hi: Bound)
    requires Shape(l, d, lo, At(mid)) && Shape(r, d, At(mid), hi) && InBounds(mid, lo, hi)
    requires (!InOrder(l) && !(Filled(r) && Count(r) > MinCount(r)))
             || (!InOrder(r) && !(Filled(l) && Count(l) > MinCount(l)))
    ensures SameKind(l, r) && (r.Branch? ==> |r.keys| == |r.kids| > 0)
    ensures Shape(Merge(l, r), d, lo, hi)
  {
    MergeGood(l, r, d, lo, mid, hi);
    if !InOrder(l) && !(Filled(r) && Count(r) > MinCount(r)) {
      SmallBound(l, d, lo, At(mid));
      SpareBound(r, d, At(mid), hi);
    } else {
      SmallBound(r, d, At(mid), hi);
      SpareBound(l, d, lo, At(mid));
    }
  }

  /** Two pages and a separator instead of two neighbours. */
  ghost predicate PairGood(m: (Node, Key, Node), rs: seq<Record>, d: nat, lo: Bound, hi: Bound) {
    PutGood(Split(m.0, m.1, m.2), rs, d, lo, hi)
  }

  /** A merged page, cut where both parts fit. */
  lemma {:induction false} CutGood(n: Node, k: nat, d: nat, lo: Bound, hi: Bound)
    requires n.Leaf? ==> d == 1 && EntriesOk(n.es, lo, hi) && 1 <= k < |n.es|
    requires n.Branch? ==> d > 1 && KidsOk(n.keys, n.kids, d - 1, lo, hi) && 2 <= k <= |n.keys| - 2
    requires var m := Cut(n, k); Used(m.0) <= pmax && Used(m.2) <= pmax
    ensures PairGood(Cut(n, k), Records(n), d, lo, hi)
  {
    if n.Leaf? {
      LeafSizesSlice(n.es, k);
      HalvesOk(n.es, k, lo, hi);
    } else {
      BranchSizesSlice(n.keys, k);
      BranchHalvesOk(n.keys, n.kids, k, d - 1, lo, hi);
    }
  }

  lemma {:induction false} LeafMoveFits(l: seq<Entry>, r: seq<Entry>, lo: Bound, hi: Bound)
    requires EntriesOk(l, lo, hi) && Sum(LeafSizes(l)) <= pmax && l != [] && 4 * Sum(LeafSizes(r)) < pmax
    ensures var last := |l| - 1; Sum(LeafSizes(l[..last])) <= pmax && Sum(LeafSizes([l[last]] + r)) <= pmax
  {
    var last := |l| - 1;
    assert l == l[..last] + [l[last]];
    LeafSizesJoin(l[..last], [l[last]]);
    LeafSizesJoin([l[last]], r);
    SumOne(LeafSizes([l[last]]));
    EntryFits(l[last]);
  }

  /** There is room even while the moved node still has its key. */
  lemma {:induction false} BranchMoveFits(l: seq<Key>, r: seq<Key>, low: Key, lo: Bound, hi: Bound)
    requires KeysOk(l, lo, hi) && Sum(BranchSizes(l)) <= pmax && |l| > 1
    requires |r| > 0 && r[0] == NoKey && Sum(BranchSizes(r)) <= 66 && KeyOk(low)
    ensures Sum(BranchSizes(l[..|l| - 1])) <= pmax
            && Sum(BranchSizes([NoKey, low] + r[1..])) + KeyBytes(l[|l| - 1]) <= pmax
  {
    var last := |l| - 1;
    BranchSizesSlice(l, last);
    SumSplit(BranchSizes(l), last);
    assert [NoKey, low] + r[1..] == [NoKey] + [low] + r[1..];
    BranchSizesJoin([NoKey], low, r);
    SumOne(BranchSizes([NoKey]));
  }

  lemma {:induction false} MoveRightFits(l: Node, r: Node, d: nat, lo: Bound, mid: int, hi: Bound)
    requires Shape(l, d, lo, At(mid)) && Shape(r, d, At(mid), hi)
    requires !InOrder(r) && Count(l) > MinCount(l)
    ensures SameKind(l, r) && (l.Branch? ==> |l.keys| == |l.kids| && |r.keys| == |r.kids| > 0)
    ensures var m := MoveRight(l, r); Used(m.0) <= pmax && Used(m.2) <= pmax
  {
    SmallBound(r, d, At(mid), hi);
    if l.Leaf? {
      LeafMoveFits(l.es, r.es, lo, At(mid));
    } else {
      assert KidsOk(l.keys, l.kids, d - 1, lo, At(mid)) && KidsOk(r.keys, r.kids, d - 1, At(mid), hi);
      RaiseLow(r.kids[0], d - 1, At(mid), Fence(r.keys, 1, At(mid), hi));
      BranchMoveFits(l.keys, r.keys, LowestKey(r), lo, At(mid));
    }
  }

  lemma {:induction false} MoveLeftFits(l: Node, r: Node, d: nat, lo: Bound, mid: int, hi: Bound)
    requires Shape(l, d, lo, At(mid)) && Shape(r, d, At(mid), hi)
    requires !InOrder(l) && Count(r) > MinCount(r)
    ensures SameKind(l, r) && (l.Branch? ==> |l.keys| == |l.kids| && |r.keys| == |r.kids|)
    ensures var m := MoveLeft(l, r); Used(m.0) <= pmax && Used(m.2) <= pmax
  {
    SmallBound(l, d, lo, At(mid));
    if l.Leaf? {
      assert r.es == [r.es[0]] + r.es[1..];
      LeafSizesJoin(l.es, [r.es[0]]);
      LeafSizesJoin([r.es[0]], r.es[1..]);
      SumOne(LeafSizes([r.es[0]]));
      EntryFits(r.es[0]);
    } else {
      assert KidsOk(l.keys, l.kids, d - 1, lo, At(mid)) && KidsOk(r.keys, r.kids, d - 1, At(mid), hi);
      RaiseLow(r.kids[0], d - 1, At(mid), Fence(r.keys, 1, At(mid), hi));
      BranchSizesJoin(l.keys, LowestKey(r), [NoKey]);
      assert l.keys + [LowestKey(r)] + [NoKey][1..] == l.keys + [LowestKey(r)];
      SumOne(BranchSizes([NoKey]));
      BranchSizesSlice(r.keys, 1);
      SumSplit(BranchSizes(r.keys), 1);
      KeyFits(r.keys[1]);
    }
  }

  lemma {:induction false} MoveRightGood(l: Node, r: Node, d: nat, lo: Bound, mid: int, hi: Bound)
    requires Shape(l, d, lo, At(mid)) && Shape(r, d, At(mid), hi) && InBounds(mid, lo, hi)
    requires !InOrder(r) && Count(l) > MinCount(l)
    ensures SameKind(l, r) && (l.Branch? ==> |l.keys| == |l.kids| && |r.keys| == |r.kids| > 0)
    ensures PairGood(MoveRight(l, r), Records(l) + Records(r), d, lo, hi)
  {
    MoveRightFits(l, r, d, lo, mid, hi);
    MergeGood(l, r, d, lo, mid, hi);
    MoveRightIsCut(l, r);
    MergedKids(l, r, d, lo, mid, hi);
    CutGood(Merge(l, r), Count(l) - 1, d, lo, hi);
  }

  lemma {:induction false} MoveLeftGood(l: Node, r: Node, d: nat, lo: Bound, mid: int, hi: Bound)
    requires Shape(l, d, lo, At(mid)) && Shape(r, d, At(mid), hi) && InBounds(mid, lo, hi)
    requires !InOrder(l) && Count(r) > MinCount(r)
    ensures SameKind(l, r) && (l.Branch? ==> |l.keys| == |l.kids| && |r.keys| == |r.kids|)
    ensures PairGood(MoveLeft(l, r), Records(l) + Records(r), d, lo, hi)
  {
    MoveLeftFits(l, r, d, lo, mid, hi);
    MergeGood(l, r, d, lo, mid, hi);
    MoveLeftIsCut(l, r);
    MergedKids(l, r, d, lo, mid, hi);
    CutGood(Merge(l, r), Count(l) + 1, d, lo, hi);
  }

  /** The nodes of a merged page are in order even if they do not fit. */
  lemma {:induction false} MergedKids(l: Node, r: Node, d: nat, lo: Bound, mid: int, hi: Bound)
    requires Shape(l, d, lo, At(mid)) && Shape(r, d, At(mid), hi) && InBounds(mid, lo, hi)
    ensures SameKind(l, r) && (l.Branch? ==> |l.keys| == |l.kids| > 0 && |r.keys| == |r.kids| > 0)
    ensures var m := Merge(l, r);
            && (m.Leaf? ==> d == 1 && EntriesOk(m.es, lo, hi))
            && (m.Branch? ==> d > 1 && KidsOk(m.keys, m.kids, d - 1, lo, hi))
  {
    if l.Leaf? {
      EntriesJoin(l.es, r.es, lo, mid, hi);
    } else {
      assert KidsOk(l.keys, l.kids, d - 1, lo, At(mid)) && KidsOk(r.keys, r.kids, d - 1, At(mid), hi);
      KidsJoin(l.keys, l.kids, r.keys, r.kids, d - 1, lo, mid, hi);
    }
  }

  // ----- the parent -----

  lemma {:induction false} SumUpdate(sizes: seq<nat>, j: nat, size: nat)
    requires j < |sizes|
    ensures Sum(sizes[j := size]) == Sum(sizes) - sizes[j] + size
  {
    var after := sizes[j := size];
    SumSplit(sizes, j);
    SumSplit(after, j);
    assert after[..j] == sizes[..j] && after[j + 1..] == sizes[j + 1..];
  }

  /** mdb_update_key: if the page overflows, the node is deleted and added again
      by a split. */
  lemma {:induction false} UpdatedOverfull(keys: seq<Key>, j: nat, sep: Key, lo: Bound, hi: Bound)
    requires KeysOk(keys, lo, hi) && 1 <= j < |keys| && KeyOk(sep) && Sum(BranchSizes(keys)) <= pmax
    ensures var sizes := BranchSizes(keys[j := sep]);
            Sum(sizes) > pmax ==> Overfull(sizes, j, false, pmax, KEYLESS)
  {
    var keys' := keys[j := sep];
    assert BranchSizes(keys') == BranchSizes(keys)[j := KeyBytes(sep)];
    SumUpdate(BranchSizes(keys), j, KeyBytes(sep));
    forall i | 0 <= i < |keys'| ensures KEYLESS <= BranchSizes(keys')[i] && 4 * BranchSizes(keys')[i] <= pmax {
      KeyFits(keys'[i]);
    }
    assert keys'[0] == NoKey;
  }

  lemma {:induction false} FenceUpdated(keys: seq<Key>, j: nat, sep: Key, lo: Bound, hi: Bound, i: nat)
    requires 1 <= j < |keys|
    ensures Fence(keys[j := sep], i, lo, hi) == if i == j then At(sep.rank) else Fence(keys, i, lo, hi)
  {
  }

  lemma {:induction false} KeysUpdated(keys: seq<Key>, j: nat, sep: Key, lo: Bound, hi: Bound)
    requires KeysOk(keys, lo, hi) && 1 <= j < |keys| && KeyOk(sep)
    requires InBounds(sep.rank, Fence(keys, j - 1, lo, hi), Fence(keys, j + 1, lo, hi))
             && Fence(keys, j - 1, lo, hi) != At(sep.rank)
    ensures KeysOk(keys[j := sep], lo, hi)
  {
    var keys' := keys[j := sep];
    assert j + 1 < |keys| ==> sep.rank < keys[j + 1].rank;
    assert j > 1 ==> keys[j - 1].rank < sep.rank;
    forall i, k | 1 <= i < k < |keys'| ensures keys'[i].rank < keys'[k].rank {
      assert k == j && i < j - 1 ==> keys[i].rank < keys[j - 1].rank;
      assert i == j && k > j + 1 ==> keys[j + 1].rank < keys[k].rank;
    }
  }

  /** Children j - 1 and j replaced by two others. */
  lemma {:induction false} PairReplaced(keys: seq<Key>, kids: seq<Node>, j: nat, m: (Node, Key, Node), rs: seq<Record>,
                                        d: nat, lo: Bound, hi: Bound)
    requires KidsOk(keys, kids, d, lo, hi) && 1 <= j < |keys|
    requires PairGood(m, rs, d, Fence(keys, j - 1, lo, hi), Fence(keys, j + 1, lo, hi))
    ensures KidsOk(keys[j := m.1], kids[j - 1 := m.0][j := m.2], d, lo, hi)
  {
    var keys', kids' := keys[j := m.1], kids[j - 1 := m.0][j := m.2];
    KeysUpdated(keys, j, m.1, lo, hi);
    forall i | 0 <= i < |kids'| ensures Valid(kids'[i], d, Fence(keys', i, lo, hi), Fence(keys', i + 1, lo, hi)) {
      FenceUpdated(keys, j, m.1, lo, hi, i);
      FenceUpdated(keys, j, m.1, lo, hi, i + 1);
    }
  }

  lemma {:induction false} FlatPair(kids: seq<Node>, j: nat, left: Node, right: Node)
    requires 1 <= j < |kids|
    ensures Flat(kids[j - 1 := left][j := right])
            == Flat(kids[..j - 1]) + (Records(left) + Records(right)) + Flat(kids[j + 1..])
  {
    var kids' := kids[j - 1 := left][j := right];
    FlatAround(kids', j - 1);
    FlatFrom(kids', j);
    assert kids'[..j - 1] == kids[..j - 1] && kids'[j..][1..] == kids[j + 1..];
  }

  lemma {:induction false} FenceDropped(keys: seq<Key>, j: nat, lo: Bound, hi: Bound, i: nat)
    requires 1 <= j < |keys| && i < |keys|
    ensures Fence(Dropped(keys, j), i, lo, hi) == if i < j then Fence(keys, i, lo, hi) else Fence(keys, i + 1, lo, hi)
  {
  }

  lemma {:induction false} KeysDropped(keys: seq<Key>, j: nat, lo: Bound, hi: Bound)
    requires KeysOk(keys, lo, hi) && 1 <= j < |keys|
    ensures KeysOk(Dropped(keys, j), lo, hi)
    ensures Sum(BranchSizes(Dropped(keys, j))) <= Sum(BranchSizes(keys))
  {
    assert keys == WithNew(Dropped(keys, j), keys[j], j);
    BranchSizesWithNew(Dropped(keys, j), keys[j], j);
  }

  lemma {:induction false} KidMerged(kids: seq<Node>, j: nat, m: Node, i: nat)
    requires 1 <= j < |kids| && i < |kids| - 1
    ensures Dropped(kids, j)[j - 1 := m][i] == if i < j - 1 then kids[i] else if i == j - 1 then m else kids[i + 1]
  {
  }

  lemma {:induction false} FlatMerged(kids: seq<Node>, j: nat, m: Node)
    requires 1 <= j < |kids|
    ensures Flat(Dropped(kids, j)[j - 1 := m]) == Flat(kids[..j - 1]) + Records(m) + Flat(kids[j + 1..])
  {
    var kids' := Dropped(kids, j)[j - 1 := m];
    FlatAround(kids', j - 1);
    assert kids'[..j - 1] == kids[..j - 1] && kids'[j..] == kids[j + 1..];
  }

  /** Children j - 1 and j replaced by one. */
  lemma {:induction false} PairMerged(keys: seq<Key>, kids: seq<Node>, j: nat, m: Node, d: nat, lo: Bound, hi: Bound)
    requires KidsOk(keys, kids, d, lo, hi) && 1 <= j < |keys|
    requires Valid(m, d, Fence(keys, j - 1, lo, hi), Fence(keys, j + 1, lo, hi))
    ensures KidsOk(Dropped(keys, j), Dropped(kids, j)[j - 1 := m], d, lo, hi)
  {
    var keys', kids' := Dropped(keys, j), Dropped(kids, j)[j - 1 := m];
    KeysDropped(keys, j, lo, hi);
    forall i | 0 <= i < |kids'| ensures Valid(kids'[i], d, Fence(keys', i, lo, hi), Fence(keys', i + 1, lo, hi)) {
      FenceDropped(keys, j, lo, hi, i);
      FenceDropped(keys, j, lo, hi, i + 1);
      KidMerged(kids, j, m, i);
    }
  }

  // ----- rebalancing -----

  /** What a deletion promises: the given records in a subtree whose pages are
      valid, the top page excepted if it is still to be checked. */
  ghost predicate DelGood(res: DelResult, rs: seq<Record>, d: nat, lo: Bound, hi: Bound) {
    match res
    case NotFound => false
    case Check(n) => Shape(n, d, lo, hi) && Records(n) == rs
    case Stable(n) => Valid(n, d, lo, hi) && Records(n) == rs
    case Grew(l, s, r) => PutGood(Split(l, s, r), rs, d, lo, hi)
    case Overflow(sizes, newindx, isLeaf) => ShortcutMisfit(sizes, newindx, isLeaf)
  }

  function FromPut(res: PutResult): DelResult {
    match res
    case Done(n) => Stable(n)
    case Split(l, s, r) => Grew(l, s, r)
    case Full(sizes, newindx, isLeaf) => Overflow(sizes, newindx, isLeaf)
  }

  /** A node has moved between children j - 1 and j: store the new separator. */
  function MovedPair(keys: seq<Key>, kids: seq<Node>, j: nat, m: (Node, Key, Node), ghost lo: Bound,
                     ghost hi: Bound): DelResult
    requires |keys| == |kids| && KeysOk(keys, lo, hi) && 1 <= j < |keys| && KeyOk(m.1) && Sum(BranchSizes(keys)) <= pmax
  {
    UpdatedOverfull(keys, j, m.1, lo, hi);
    FromPut(PlaceBranch(keys[j := m.1], kids[j - 1 := m.0][j := m.2], j))
  }

  /** Children j - 1 and j have become one: the separator goes, and the parent is
      rebalanced in turn. */
  function MergedPair(keys: seq<Key>, kids: seq<Node>, j: nat, m: Node): DelResult
    requires |keys| == |kids| && 1 <= j < |keys|
  {
    Check(Branch(Dropped(keys, j), Dropped(kids, j)[j - 1 := m]))
  }

  lemma {:induction false} MovedPairGood(keys: seq<Key>, kids: seq<Node>, j: nat, m: (Node, Key, Node),
                                         rs: seq<Record>, d: nat, lo: Bound, hi: Bound)
    requires KidsOk(keys, kids, d, lo, hi) && 1 <= j < |keys| && Sum(BranchSizes(keys)) <= pmax
    requires PairGood(m, rs, d, Fence(keys, j - 1, lo, hi), Fence(keys, j + 1, lo, hi))
    ensures DelGood(MovedPair(keys, kids, j, m, lo, hi), Flat(kids[..j - 1]) + rs + Flat(kids[j + 1..]), d + 1, lo, hi)
  {
    PairReplaced(keys, kids, j, m, rs, d, lo, hi);
    FlatPair(kids, j, m.0, m.2);
    UpdatedOverfull(keys, j, m.1, lo, hi);
    PlaceBranchGood(keys[j := m.1], kids[j - 1 := m.0][j := m.2], j, d, lo, hi);
  }

  lemma {:induction false} MergedPairGood(keys: seq<Key>, kids: seq<Node>, j: nat, m: Node, d: nat, lo: Bound,
                                          hi: Bound)
    requires KidsOk(keys, kids, d, lo, hi) && 1 <= j < |keys| && Sum(BranchSizes(keys)) <= pmax
    requires Valid(m, d, Fence(keys, j - 1, lo, hi), Fence(keys, j + 1, lo, hi))
    ensures DelGood(MergedPair(keys, kids, j, m), Flat(kids[..j - 1]) + Records(m) + Flat(kids[j + 1..]), d + 1, lo, hi)
  {
    PairMerged(keys, kids, j, m, d, lo, hi);
    FlatMerged(kids, j, m);
    KeysDropped(keys, j, lo, hi);
    assert Shape(m, d, Fence(keys, j - 1, lo, hi), Fence(keys, j + 1, lo, hi));
  }

  /** Does a neighbour give a node away? */
  predicate Gives(n: Node) {
    Filled(n) && Count(n) > MinCount(n)
  }

  lemma {:induction false} KidShape(keys: seq<Key>, kids: seq<Node>, i: nat, d: nat, lo: Bound, hi: Bound)
    requires KidsOk(keys, kids, d, lo, hi) && i < |keys|
    ensures Shape(kids[i], d, Fence(keys, i, lo, hi), Fence(keys, i + 1, lo, hi)) && Count(kids[i]) >= MinCount(kids[i])
  {
    assert Valid(kids[i], d, Fence(keys, i, lo, hi), Fence(keys, i + 1, lo, hi));
  }

  /** mdb_rebalance for child i, which has become c. */
  function Rebalance(keys: seq<Key>, kids: seq<Node>, i: nat, c: Node, ghost d: nat, ghost lo: Bound,
                     ghost hi: Bound): DelResult
    requires KidsOk(keys, kids, d, lo, hi) && i < |keys| && 2 <= |keys| && Sum(BranchSizes(keys)) <= pmax
    requires Shape(c, d, Fence(keys, i, lo, hi), Fence(keys, i + 1, lo, hi))
  {
    if InOrder(c) then Stable(Branch(keys, kids[i := c]))
    else if i == 0 then
      KidShape(keys, kids, 1, d, lo, hi);
      NeighboursMeet(keys, kids, 1, c, kids[1], d, lo, hi);
      if Gives(kids[1]) then MovedPair(keys, kids, 1, MoveLeft(c, kids[1]), lo, hi)
          else MergedPair(keys, kids, 1, Merge(c, kids[1]))
    else
      KidShape(keys, kids, i - 1, d, lo, hi);
      NeighboursMeet(keys, kids, i, kids[i - 1], c, d, lo, hi);
      if Gives(kids[i - 1]) then MovedPair(keys, kids, i, MoveRight(kids[i - 1], c), lo, hi)
      else MergedPair(keys, kids, i, Merge(kids[i - 1], c))
  }

  lemma {:induction false} NeighboursMeet(keys: seq<Key>, kids: seq<Node>, j: nat, l: Node, r: Node, d: nat, lo: Bound,
                                          hi: Bound)
    requires KidsOk(keys, kids, d, lo, hi) && 1 <= j < |keys|
    requires Shape(l, d, Fence(keys, j - 1, lo, hi), Fence(keys, j, lo, hi))
             && Shape(r, d, Fence(keys, j, lo, hi), Fence(keys, j + 1, lo, hi))
    ensures Fence(keys, j, lo, hi) == At(keys[j].rank)
    ensures InBounds(keys[j].rank, Fence(keys, j - 1, lo, hi), Fence(keys, j + 1, lo, hi))
    ensures SameKind(l, r) && (l.Branch? ==> |l.keys| == |l.kids| > 0 && |r.keys| == |r.kids| > 0)
    ensures !InOrder(l) && Gives(r) ==> KeyOk(MoveLeft(l, r).1)
    ensures !InOrder(r) && Gives(l) ==> KeyOk(MoveRight(l, r).1)
  {
    if l.Branch? {
      assert KidsOk(l.keys, l.kids, d - 1, Fence(keys, j - 1, lo, hi), Fence(keys, j, lo, hi));
      assert KidsOk(r.keys, r.kids, d - 1, Fence(keys, j, lo, hi), Fence(keys, j + 1, lo, hi));
    }
  }

  lemma {:induction false} RebalanceLeftmost(keys: seq<Key>, kids: seq<Node>, c: Node, d: nat, lo: Bound, hi: Bound)
    requires KidsOk(keys, kids, d, lo, hi) && 2 <= |keys| && Sum(BranchSizes(keys)) <= pmax && !InOrder(c)
    requires Shape(c, d, lo, Fence(keys, 1, lo, hi))
    ensures DelGood(Rebalance(keys, kids, 0, c, d, lo, hi), Records(c) + Records(kids[1]) + Flat(kids[2..]), d + 1, lo,
            hi)
  {
    KidShape(keys, kids, 1, d, lo, hi);
    NeighboursMeet(keys, kids, 1, c, kids[1], d, lo, hi);
    var mid, far := keys[1].rank, Fence(keys, 2, lo, hi);
    var rs := Records(c) + Records(kids[1]);
    assert Flat(kids[..0]) + rs + Flat(kids[2..]) == rs + Flat(kids[2..]);
    if Gives(kids[1]) {
      MoveLeftGood(c, kids[1], d, lo, mid, far);
      MovedPairGood(keys, kids, 1, MoveLeft(c, kids[1]), rs, d, lo, hi);
    } else {
      MergeGood(c, kids[1], d, lo, mid, far);
      MergeFits(c, kids[1], d, lo, mid, far);
      MergedPairGood(keys, kids, 1, Merge(c, kids[1]), d, lo, hi);
    }
  }

  lemma {:induction false} RebalanceInner(keys: seq<Key>, kids: seq<Node>, i: nat, c: Node, d: nat, lo: Bound,
                                          hi: Bound)
    requires KidsOk(keys, kids, d, lo, hi) && 1 <= i < |keys| && Sum(BranchSizes(keys)) <= pmax && !InOrder(c)
    requires Shape(c, d, Fence(keys, i, lo, hi), Fence(keys, i + 1, lo, hi))
    ensures DelGood(Rebalance(keys, kids, i, c, d, lo, hi),
                    Flat(kids[..i - 1]) + (Records(kids[i - 1]) + Records(c)) + Flat(kids[i + 1..]), d + 1, lo, hi)
  {
    var nb := kids[i - 1];
    KidShape(keys, kids, i - 1, d, lo, hi);
    NeighboursMeet(keys, kids, i, nb, c, d, lo, hi);
    var near, mid, far := Fence(keys, i - 1, lo, hi), keys[i].rank, Fence(keys, i + 1, lo, hi);
    if Gives(nb) {
      MoveRightGood(nb, c, d, near, mid, far);
      MovedPairGood(keys, kids, i, MoveRight(nb, c), Records(nb) + Records(c), d, lo, hi);
    } else {
      MergeGood(nb, c, d, near, mid, far);
      MergeFits(nb, c, d, near, mid, far);
      MergedPairGood(keys, kids, i, Merge(nb, c), d, lo, hi);
    }
  }

  lemma {:induction false} RebalanceGood(keys: seq<Key>, kids: seq<Node>, i: nat, c: Node, d: nat, lo: Bound, hi: Bound)
    requires KidsOk(keys, kids, d, lo, hi) && i < |keys| && 2 <= |keys| && Sum(BranchSizes(keys)) <= pmax
    requires Shape(c, d, Fence(keys, i, lo, hi), Fence(keys, i + 1, lo, hi))
    ensures DelGood(Rebalance(keys, kids, i, c, d, lo, hi), Flat(kids[..i]) + Records(c) + Flat(kids[i + 1..]), d + 1,
            lo, hi)
  {
    if InOrder(c) {
      KidReplaced(keys, kids, i, c, d, lo, hi);
      BranchValid(keys, kids[i := c], d, lo, hi);
    } else if i == 0 {
      RebalanceLeftmost(keys, kids, c, d, lo, hi);
      WithRightNeighbour(kids, c);
    } else {
      RebalanceInner(keys, kids, i, c, d, lo, hi);
      WithLeftNeighbour(kids, i, c);
    }
  }

  lemma {:induction false} WithRightNeighbour(kids: seq<Node>, c: Node)
    requires |kids| >= 2
    ensures Flat(kids[..0]) + Records(c) + Flat(kids[1..]) == Records(c) + Records(kids[1]) + Flat(kids[2..])
  {
    FlatFrom(kids, 1);
  }

  lemma {:induction false} WithLeftNeighbour(kids: seq<Node>, i: nat, c: Node)
    requires 1 <= i < |kids|
    ensures Flat(kids[..i]) + Records(c) + Flat(kids[i + 1..])
            == Flat(kids[..i - 1]) + (Records(kids[i - 1]) + Records(c)) + Flat(kids[i + 1..])
  {
    assert kids[..i] == kids[..i - 1] + [kids[i - 1]];
    FlatAppend(kids[..i - 1], [kids[i - 1]]);
    FlatOne(kids[i - 1]);
  }

  /** A new separator j does not fit, and the shortcut of the split goes wrong. */
  ghost predicate MoveJams(keys: seq<Key>, j: nat, sep: Key)
    requires j < |keys|
  {
    ShortcutMisfit(BranchSizes(keys[j := sep]), j, false)
  }

  /** Rebalancing moves a node whose separator its parent cannot take. */
  ghost predicate RebalanceJams(keys: seq<Key>, kids: seq<Node>, i: nat, c: Node, d: nat, lo: Bound, hi: Bound)
    requires KidsOk(keys, kids, d, lo, hi) && i < |keys| && 2 <= |keys|
    requires Shape(c, d, Fence(keys, i, lo, hi), Fence(keys, i + 1, lo, hi))
  {
    !InOrder(c) &&
    if i == 0 then
      KidShape(keys, kids, 1, d, lo, hi);
      NeighboursMeet(keys, kids, 1, c, kids[1], d, lo, hi);
      Gives(kids[1]) && MoveJams(keys, 1, MoveLeft(c, kids[1]).1)
    else
      KidShape(keys, kids, i - 1, d, lo, hi);
      NeighboursMeet(keys, kids, i, kids[i - 1], c, d, lo, hi);
      Gives(kids[i - 1]) && MoveJams(keys, i, MoveRight(kids[i - 1], c).1)
  }

  lemma {:induction false} MovedPairFullIff(keys: seq<Key>, kids: seq<Node>, j: nat, m: (Node, Key, Node), lo: Bound,
                                            hi: Bound)
    requires |keys| == |kids| && KeysOk(keys, lo, hi) && 1 <= j < |keys| && KeyOk(m.1) && Sum(BranchSizes(keys)) <= pmax
    ensures MovedPair(keys, kids, j, m, lo, hi).Overflow? <==> MoveJams(keys, j, m.1)
  {
    UpdatedOverfull(keys, j, m.1, lo, hi);
    PlaceBranchFullIff(keys[j := m.1], kids[j - 1 := m.0][j := m.2], j);
  }

  lemma {:induction false} RebalanceFullIff(keys: seq<Key>, kids: seq<Node>, i: nat, c: Node, d: nat, lo: Bound,
                                            hi: Bound)
    requires KidsOk(keys, kids, d, lo, hi) && i < |keys| && 2 <= |keys| && Sum(BranchSizes(keys)) <= pmax
    requires Shape(c, d, Fence(keys, i, lo, hi), Fence(keys, i + 1, lo, hi))
    ensures Rebalance(keys, kids, i, c, d, lo, hi).Overflow? <==> RebalanceJams(keys, kids, i, c, d, lo, hi)
  {
    if !InOrder(c) {
      if i == 0 {
        KidShape(keys, kids, 1, d, lo, hi);
        NeighboursMeet(keys, kids, 1, c, kids[1], d, lo, hi);
        if Gives(kids[1]) {
          MovedPairFullIff(keys, kids, 1, MoveLeft(c, kids[1]), lo, hi);
        }
      } else {
        KidShape(keys, kids, i - 1, d, lo, hi);
        NeighboursMeet(keys, kids, i, kids[i - 1], c, d, lo, hi);
        if Gives(kids[i - 1]) {
          MovedPairFullIff(keys, kids, i, MoveRight(kids[i - 1], c), lo, hi);
        }
      }
    }
  }

  // ----- the whole tree -----

  lemma {:induction false} DroppedRecords(es: seq<Entry>, p: nat)
    requires p < |es|
    ensures Recs(Dropped(es, p)) == Dropped(Recs(es), p)
  {
  }

  function DeleteFromLeaf(es: seq<Entry>, r: int, ghost lo: Bound, ghost hi: Bound): (res: DelResult)
    requires EntriesOk(es, lo, hi) && Sum(LeafSizes(es)) <= pmax
    ensures res.NotFound? <==> Lookup(Recs(es), r).None?
    ensures !res.NotFound? ==> DelGood(res, Remove(Recs(es), r), 1, lo, hi)
  {
    EntryPosition(es, r, lo, hi);
    var p := LowerBound(EntryRanks(es), r);
    if p < |es| && es[p].key.rank == r then
      DroppedOk(es, p, lo, hi);
      DroppedRecords(es, p);
      Check(Leaf(Dropped(es, p)))
    else NotFound
  }

  /** Pass the result of the i-th child up. */
  function AbsorbDel(keys: seq<Key>, kids: seq<Node>, i: nat, res: DelResult, ghost d: nat, ghost lo: Bound,
                     ghost hi: Bound): DelResult
    requires KidsOk(keys, kids, d, lo, hi) && i < |keys| && 2 <= |keys| && Sum(BranchSizes(keys)) <= pmax
    requires res.Check? ==> Shape(res.node, d, Fence(keys, i, lo, hi), Fence(keys, i + 1, lo, hi))
    requires res.Grew? ==> KeyOk(res.sep)
  {
    match res
    case NotFound => NotFound
    case Check(c) => Rebalance(keys, kids, i, c, d, lo, hi)
    case Stable(c) => Stable(Branch(keys, kids[i := c]))
    case Grew(left, sep, right) => FromPut(AddToBranch(keys, kids, i, left, sep, right, lo, hi))
    case Overflow(_, _, _) => res
  }

  lemma {:induction false} AbsorbDelGood(keys: seq<Key>, kids: seq<Node>, i: nat, res: DelResult, rs: seq<Record>,
                                         d: nat, lo: Bound, hi: Bound)
    requires KidsOk(keys, kids, d, lo, hi) && i < |keys| && 2 <= |keys| && Sum(BranchSizes(keys)) <= pmax
    requires DelGood(res, rs, d, Fence(keys, i, lo, hi), Fence(keys, i + 1, lo, hi))
    ensures DelGood(AbsorbDel(keys, kids, i, res, d, lo, hi), Flat(kids[..i]) + rs + Flat(kids[i + 1..]), d + 1, lo, hi)
  {
    match res
    case Check(c) =>
      RebalanceGood(keys, kids, i, c, d, lo, hi);
    case Stable(c) =>
      AbsorbGood(keys, kids, i, Done(c), rs, d, lo, hi);
    case Grew(left, sep, right) =>
      AbsorbGood(keys, kids, i, Split(left, sep, right), rs, d, lo, hi);
    case Overflow(_, _, _) =>
  }

  lemma {:induction false} DeleteBelowGood(keys: seq<Key>, kids: seq<Node>, r: int, res: DelResult, d: nat, lo: Bound,
                                           hi: Bound)
    requires KidsOk(keys, kids, d, lo, hi) && 2 <= |keys| && Sum(BranchSizes(keys)) <= pmax && InBounds(r, lo, hi)
    requires var kid := kids[ChildIndex(keys, r)]; res.NotFound? <==> Lookup(Records(kid), r).None?
    requires var i := ChildIndex(keys, r);
             !res.NotFound? ==> DelGood(res, Remove(Records(kids[i]), r), d, Fence(keys, i, lo, hi),
                 Fence(keys, i + 1, lo, hi))
    ensures res.NotFound? <==> Lookup(Flat(kids), r).None?
    ensures var out := AbsorbDel(keys, kids, ChildIndex(keys, r), res, d, lo, hi);
            && (out.NotFound? <==> res.NotFound?)
            && (!res.NotFound? ==> DelGood(out, Remove(Flat(kids), r), d + 1, lo, hi))
  {
    AroundChild(keys, kids, d, lo, hi, r);
    var i := ChildIndex(keys, r);
    var a, b, c := Flat(kids[..i]), Records(kids[i]), Flat(kids[i + 1..]);
    LookupInMiddle(a, b, c, r);
    RemoveInMiddle(a, b, c, r);
    if !res.NotFound? {
      AbsorbDelGood(keys, kids, i, res, Remove(b, r), d, lo, hi);
    }
  }

  /** The part of a deletion above child i, given what became of the child. */
  function DeleteBelow(keys: seq<Key>, kids: seq<Node>, r: int, res: DelResult, ghost d: nat, ghost lo: Bound,
                       ghost hi: Bound): (out: DelResult)
    requires KidsOk(keys, kids, d, lo, hi) && 2 <= |keys| && Sum(BranchSizes(keys)) <= pmax && InBounds(r, lo, hi)
    requires var kid := kids[ChildIndex(keys, r)]; res.NotFound? <==> Lookup(Records(kid), r).None?
    requires var i := ChildIndex(keys, r);
             !res.NotFound? ==> DelGood(res, Remove(Records(kids[i]), r), d, Fence(keys, i, lo, hi),
                 Fence(keys, i + 1, lo, hi))
    ensures out.NotFound? <==> Lookup(Flat(kids), r).None?
    ensures !out.NotFound? ==> DelGood(out, Remove(Flat(kids), r), d + 1, lo, hi)
  {
    DeleteBelowGood(keys, kids, r, res, d, lo, hi);
    AbsorbDel(keys, kids, ChildIndex(keys, r), res, d, lo, hi)
  }

  /** Delete below a page: not found exactly if the key is absent; otherwise the
      other records remain, in pages that are valid up to the one still to be
      rebalanced. */
  function Delete(n: Node, r: int, ghost d: nat, ghost lo: Bound, ghost hi: Bound): (res: DelResult)
    requires Valid(n, d, lo, hi) && InBounds(r, lo, hi)
    ensures res.NotFound? <==> Lookup(Records(n), r).None?
    ensures !res.NotFound? ==> DelGood(res, Remove(Records(n), r), d, lo, hi)
    decreases d
  {
    assert Shape(n, d, lo, hi);
    match n
    case Leaf(es) => DeleteFromLeaf(es, r, lo, hi)
    case Branch(keys, kids) =>
      assert KidsOk(keys, kids, d - 1, lo, hi);
      ChildBounds(keys, r, lo, hi);
      var i := ChildIndex(keys, r);
      var res := Delete(kids[i], r, d - 1, Fence(keys, i, lo, hi), Fence(keys, i + 1, lo, hi));
      DeleteBelow(keys, kids, r, res, d - 1, lo, hi)
  }

  /** The same for any result of the i-th child. */
  ghost predicate ParentJams(keys: seq<Key>, kids: seq<Node>, i: nat, res: DelResult, d: nat, lo: Bound, hi: Bound)
    requires KidsOk(keys, kids, d, lo, hi) && i < |keys| && 2 <= |keys|
    requires res.Check? ==> Shape(res.node, d, Fence(keys, i, lo, hi), Fence(keys, i + 1, lo, hi))
  {
    || (res.Grew? && BranchJams(keys, i, res.sep))
    || (res.Check? && RebalanceJams(keys, kids, i, res.node, d, lo, hi))
  }

  lemma {:induction false} AbsorbDelFullIff(keys: seq<Key>, kids: seq<Node>, i: nat, res: DelResult, d: nat, lo: Bound,
                                            hi: Bound)
    requires KidsOk(keys, kids, d, lo, hi) && i < |keys| && 2 <= |keys| && Sum(BranchSizes(keys)) <= pmax
    requires res.Check? ==> Shape(res.node, d, Fence(keys, i, lo, hi), Fence(keys, i + 1, lo, hi))
    requires res.Grew? ==> KeyOk(res.sep)
    ensures AbsorbDel(keys, kids, i, res, d, lo, hi).Overflow?
            <==> res.Overflow? || ParentJams(keys, kids, i, res, d, lo, hi)
  {
    match res
    case Check(c) => RebalanceFullIff(keys, kids, i, c, d, lo, hi);
    case Grew(left, sep, right) => AbsorbFullIff(keys, kids, i, Split(left, sep, right), lo, hi);
    case _ =>
  }

  ghost predicate BelowJams(keys: seq<Key>, kids: seq<Node>, r: int, res: DelResult, d: nat, lo: Bound, hi: Bound)
    requires KidsOk(keys, kids, d, lo, hi) && 2 <= |keys|
    requires var i := ChildIndex(keys, r);
             !res.NotFound? ==> DelGood(res, Remove(Records(kids[i]), r), d, Fence(keys, i, lo, hi),
                 Fence(keys, i + 1, lo, hi))
  {
    ParentJams(keys, kids, ChildIndex(keys, r), res, d, lo, hi)
  }

  lemma {:induction false} DeleteBelowFullIff(keys: seq<Key>, kids: seq<Node>, r: int, res: DelResult, d: nat,
                                              lo: Bound, hi: Bound)
    requires KidsOk(keys, kids, d, lo, hi) && 2 <= |keys| && Sum(BranchSizes(keys)) <= pmax && InBounds(r, lo, hi)
    requires var kid := kids[ChildIndex(keys, r)]; res.NotFound? <==> Lookup(Records(kid), r).None?
    requires var i := ChildIndex(keys, r);
             !res.NotFound? ==> DelGood(res, Remove(Records(kids[i]), r), d, Fence(keys, i, lo, hi),
                 Fence(keys, i + 1, lo, hi))
    ensures DeleteBelow(keys, kids, r, res, d, lo, hi).Overflow?
            <==> res.Overflow? || BelowJams(keys, kids, r, res, d, lo, hi)
  {
    AbsorbDelFullIff(keys, kids, ChildIndex(keys, r), res, d, lo, hi);
  }

  /** Exactly when a deletion fails: on the way up a separator arrives, from a
      moved node or from a split below, that its page cannot take. */
  ghost predicate DeleteJams(n: Node, r: int, d: nat, lo: Bound, hi: Bound)
    requires Valid(n, d, lo, hi) && InBounds(r, lo, hi)
    decreases d
  {
    assert Shape(n, d, lo, hi);
    match n
    case Leaf(_) => false
    case Branch(keys, kids) =>
      assert KidsOk(keys, kids, d - 1, lo, hi);
      ChildBounds(keys, r, lo, hi);
      var i := ChildIndex(keys, r);
      var below, above := Fence(keys, i, lo, hi), Fence(keys, i + 1, lo, hi);
      var res := Delete(kids[i], r, d - 1, below, above);
      DeleteJams(kids[i], r, d - 1, below, above) || BelowJams(keys, kids, r, res, d - 1, lo, hi)
  }

  lemma {:induction false} DeleteUnfolds(keys: seq<Key>, kids: seq<Node>, r: int, d: nat, lo: Bound, hi: Bound)
    requires Valid(Branch(keys, kids), d, lo, hi) && InBounds(r, lo, hi)
    ensures d > 1 && KidsOk(keys, kids, d - 1, lo, hi) && 2 <= |keys| && Sum(BranchSizes(keys)) <= pmax
    ensures var i := ChildIndex(keys, r);
            InBounds(r, Fence(keys, i, lo, hi), Fence(keys, i + 1, lo, hi))
    ensures var i := ChildIndex(keys, r);
            Delete(Branch(keys, kids), r, d, lo, hi)
            == DeleteBelow(keys, kids, r, Delete(kids[i], r, d - 1, Fence(keys, i, lo, hi),
                Fence(keys, i + 1, lo, hi)), d - 1, lo, hi)
  {
    assert Shape(Branch(keys, kids), d, lo, hi);
    assert KidsOk(keys, kids, d - 1, lo, hi);
    ChildBounds(keys, r, lo, hi);
  }

  lemma {:induction false} DeleteFullIff(n: Node, r: int, d: nat, lo: Bound, hi: Bound)
    requires Valid(n, d, lo, hi) && InBounds(r, lo, hi)
    ensures Delete(n, r, d, lo, hi).Overflow? <==> DeleteJams(n, r, d, lo, hi)
    decreases d
  {
    match n
    case Leaf(_) => assert Shape(n, d, lo, hi);
    case Branch(keys, kids) =>
      DeleteUnfolds(keys, kids, r, d, lo, hi);
      var i := ChildIndex(keys, r);
      var below, above := Fence(keys, i, lo, hi), Fence(keys, i + 1, lo, hi);
      DeleteFullIff(kids[i], r, d - 1, below, above);
      DeleteBelowFullIff(keys, kids, r, Delete(kids[i], r, d - 1, below, above), d - 1, lo, hi);
  }

  datatype DelOutcome =
    | Deleted(db: Database)
    | NoSuchKey
    | PageFull(sizes: seq<nat>, newindx: nat, isLeaf: bool)

  /** The end of mdb_rebalance at the root: an empty leaf goes, a branch with one
      child is replaced by it. */
  function Collapse(n: Node, depth: nat): Database {
    if Count(n) == 0 then Empty
    else if n.Branch? && |n.kids| == 1 && depth > 0 then Root(n.kids[0], depth - 1)
    else Root(n, depth)
  }

  lemma {:induction false} CollapseGood(n: Node, depth: nat)
    requires Shape(n, depth, Open, Open)
    ensures ValidDatabase(Collapse(n, depth)) && Contents(Collapse(n, depth)) == Records(n)
  {
    if n.Branch? {
      assert KidsOk(n.keys, n.kids, depth - 1, Open, Open);
      if |n.kids| == 1 {
        KidShape(n.keys, n.kids, 0, depth - 1, Open, Open);
        assert n.kids == [n.kids[0]];
        FlatOne(n.kids[0]);
      }
    }
  }

  /** The root after a deletion. */
  function Outcome(res: DelResult, depth: nat, ghost rs: seq<Record>): (out: DelOutcome)
    requires !res.NotFound? ==> DelGood(res, rs, depth, Open, Open)
    ensures out.NoSuchKey? <==> res.NotFound?
    ensures out.Deleted? ==> ValidDatabase(out.db) && Contents(out.db) == rs
    ensures out.PageFull? <==> res.Overflow?
    ensures out.PageFull? ==> ShortcutMisfit(out.sizes, out.newindx, out.isLeaf)
  {
    match res
    case NotFound => NoSuchKey
    case Check(n) => CollapseGood(n, depth); Deleted(Collapse(n, depth))
    case Stable(n) => Deleted(Root(n, depth))
    case Grew(l, s, rt) => NewRootValid(l, s, rt, depth); Deleted(Root(NewRoot(l, s, rt), depth + 1))
    case Overflow(sizes, newindx, isLeaf) => DelOutcome.PageFull(sizes, newindx, isLeaf)
  }

  /** mdb_del */
  function DeleteRecord(t: Database, r: int): (out: DelOutcome)
    requires ValidDatabase(t)
    ensures out.NoSuchKey? <==> Lookup(Contents(t), r).None?
    ensures out.Deleted? ==> ValidDatabase(out.db) && Contents(out.db) == Remove(Contents(t), r)
    ensures out.PageFull? ==> ShortcutMisfit(out.sizes, out.newindx, out.isLeaf)
  {
    if t.Empty? then NoSuchKey
    else Outcome(Delete(t.node, r, t.depth, Open, Open), t.depth, Remove(Contents(t), r))
  }

  /** Exactly when mdb_del reports MDB_PAGE_FULL. */
  lemma {:induction false} DeleteFailsIff(t: Database, r: int)
    requires ValidDatabase(t)
    ensures DeleteRecord(t, r).PageFull? <==> t.Root? && DeleteJams(t.node, r, t.depth, Open, Open)
  {
    if t.Root? {
      DeleteFullIff(t.node, r, t.depth, Open, Open);
    }
  }
}
