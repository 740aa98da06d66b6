/** What a rebalance does to the pages: when neighbours are merged and when a node
    changes sides, in the numbers of the source, and how deep the tree is after a
    deletion. */
module DeleteShape {
  import opened Basics
  import opened SplitPoint
  import opened Tree
  import opened TreePut
  import opened TreeDel

  /** Less than a quarter full, or empty; for a branch, less than a thousandth, or
      fewer than two children. */
  ghost predicate TooSmall(n: Node) {
    match n
    case Leaf(es) => 4 * Sum(LeafSizes(es)) < pmax || |es| < 1
    case Branch(keys, kids) => 1000 * Sum(BranchSizes(keys)) < pmax || |kids| < 2
  }

  /** Above the same threshold, and a node more than it must keep. */
  ghost predicate HasSpare(n: Node) {
    match n
    case Leaf(es) => 4 * Sum(LeafSizes(es)) >= pmax && |es| > 1
    case Branch(keys, kids) => 1000 * Sum(BranchSizes(keys)) >= pmax && |kids| > 2
  }

  /** The neighbour asked: the left one, for the first child the right one. */
  function Neighbour(i: nat): nat {
    if i == 0 then 1 else i - 1
  }

  /** The right one of the two. */
  function RightOf(i: nat): nat {
    if i == 0 then 1 else i
  }

  /** mdb_page_search_lowest finds the key of the first record. */
  lemma {:induction false} LowestIsFirst(n: Node, d: nat, lo: Bound, hi: Bound)
    requires Valid(n, d, lo, hi)
    ensures Records(n) != [] && LowestKey(n).rank == Records(n)[0].rank
    decreases d
  {
    assert Shape(n, d, lo, hi);
    if n.Branch? {
      assert KidsOk(n.keys, n.kids, d - 1, lo, hi);
      LowestIsFirst(n.kids[0], d - 1, Fence(n.keys, 0, lo, hi), Fence(n.keys, 1, lo, hi));
      FlatFrom(n.kids, 0);
      assert n.kids[0..] == n.kids;
    }
  }

  /** One page in place of two: the nodes of both, in order.  The first child of the
      right page gets the lowest key below it. */
  ghost predicate Joined(l: Node, r: Node, m: Node) {
    if l.Leaf? then r.Leaf? && m == Leaf(l.es + r.es)
    else
      && r.Branch? && m.Branch? && |r.keys| > 0 && m.kids == l.kids + r.kids
      && m.keys == l.keys + [LowestKey(r)] + r.keys[1..]
  }

  /** Two pages and a separator with the nodes of l and r, in order. */
  ghost predicate Shared(l: Node, r: Node, a: Node, sep: Key, b: Node) {
    if l.Leaf? then
      && r.Leaf? && a.Leaf? && b.Leaf? && a.es + b.es == l.es + r.es && b.es != [] && sep == b.es[0].key
    else
      && r.Branch? && a.Branch? && b.Branch? && |r.keys| > 0 && |b.keys| > 0 && b.keys[0] == NoKey
      && |a.keys| == |a.kids| && |b.keys| == |b.kids| && a.kids + b.kids == l.kids + r.kids
      && a.keys + [sep] + b.keys[1..] == l.keys + [LowestKey(r)] + r.keys[1..]
  }

  /** The children before and after: two of them have become one. */
  ghost predicate OneFewer(was: seq<Node>, j: nat, now: seq<Node>) {
    && 1 <= j < |was| && |now| == |was| - 1 && now[..j - 1] == was[..j - 1] && now[j..] == was[j + 1..]
    && Joined(was[j - 1], was[j], now[j - 1])
  }

  /** A node has gone to child i from its neighbour. */
  ghost predicate NodeMoved(was: seq<Node>, i: nat, now: seq<Node>, sep: Key) {
    var j := RightOf(i);
    && j < |was| == |now| && now[..j - 1] == was[..j - 1] && now[j + 1..] == was[j + 1..]
    && Shared(was[j - 1], was[j], now[j - 1], sep, now[j])
    && Count(now[i]) == Count(was[i]) + 1 && Count(now[Neighbour(i)]) == Count(was[Neighbour(i)]) - 1
  }

  // ----- the three cases -----

  lemma {:induction false} InOrderIs(n: Node)
    ensures InOrder(n) <==> !TooSmall(n)
    ensures Gives(n) <==> HasSpare(n)
  {
  }

  lemma {:induction false} MergedIs(keys: seq<Key>, kids: seq<Node>, j: nat, m: Node, was: seq<Node>)
    requires |keys| == |kids| == |was| && 1 <= j < |keys| && Joined(was[j - 1], was[j], m)
    requires forall k :: 0 <= k < |kids| && k != j && k != j - 1 ==> was[k] == kids[k]
    ensures var n := MergedPair(keys, kids, j, m).node;
            n.Branch? && n.keys == Dropped(keys, j) && OneFewer(was, j, n.kids)
  {
    var now := Dropped(kids, j)[j - 1 := m];
    assert now[..j - 1] == was[..j - 1] && now[j..] == was[j + 1..];
  }

  /** Neighbours that have been cut anew. */
  lemma {:induction false} SharedByCut(l: Node, r: Node, k: nat)
    requires SameKind(l, r) && (l.Branch? ==> |l.keys| == |l.kids| && |r.keys| == |r.kids| > 0)
    requires 0 < k < Count(l) + Count(r)
    ensures var m := Cut(Merge(l, r), k);
            Shared(l, r, m.0, m.1, m.2) && Count(m.0) == k && Count(m.2) == Count(l) + Count(r) - k
  {
    var all := Merge(l, r);
    if l.Leaf? {
      assert all.es[..k] + all.es[k..] == all.es;
    } else {
      assert all.kids[..k] + all.kids[k..] == all.kids;
      assert all.keys[..k] + [all.keys[k]] + all.keys[k + 1..] == all.keys;
    }
  }

  lemma {:induction false} MovedIs(kids: seq<Node>, i: nat, c: Node, m: (Node, Key, Node))
    requires RightOf(i) < |kids|
    requires var was := kids[i := c]; var j := RightOf(i);
             Shared(was[j - 1], was[j], m.0, m.1, m.2)
             && Count(m.0) == Count(was[j - 1]) + (if i == 0 then 1 else -1)
             && Count(m.2) == Count(was[j]) - (if i == 0 then 1 else -1)
    ensures var j := RightOf(i); NodeMoved(kids[i := c], i, kids[j - 1 := m.0][j := m.2], m.1)
  {
    var j, was := RightOf(i), kids[i := c];
    var now := kids[j - 1 := m.0][j := m.2];
    assert now[..j - 1] == was[..j - 1] && now[j + 1..] == was[j + 1..];
  }

  /** The new separator is stored, with a split of the parent if it does not fit. */
  ghost predicate Placed(res: DelResult, keys: seq<Key>, kids: seq<Node>, j: nat) {
    match res
    case Stable(n) => Sum(BranchSizes(keys)) <= pmax && n == Branch(keys, kids)
    case Grew(l, sep, r) =>
      && Sum(BranchSizes(keys)) > pmax && l.Branch? && r.Branch? && r.keys != []
      && l.kids + r.kids == kids && l.keys + [sep] + r.keys[1..] == keys
    case Overflow(sizes, newindx, isLeaf) => sizes == BranchSizes(keys) && newindx == j && !isLeaf && Sum(sizes) > pmax
    case _ => false
  }

  lemma {:induction false} PlacedIs(keys: seq<Key>, kids: seq<Node>, j: nat)
    requires |keys| == |kids|
    requires Sum(BranchSizes(keys)) > pmax ==> Overfull(BranchSizes(keys), j, false, pmax, KEYLESS)
    ensures Placed(FromPut(PlaceBranch(keys, kids, j)), keys, kids, j)
  {
    if Sum(BranchSizes(keys)) > pmax {
      SplitIndexInside(BranchSizes(keys), j, false);
      var k := SplitIndex(BranchSizes(keys), j, false, pmax);
      assert kids[..k] + kids[k..] == kids && keys[..k] + [keys[k]] + keys[k + 1..] == keys;
    }
  }

  /** The key that becomes the separator when a page gives its last or its first node
      away. */
  ghost function SpareKey(n: Node, last: bool): Key
    requires HasSpare(n)
  {
    match n
    case Leaf(es) => if last then es[|es| - 1].key else es[1].key
    case Branch(keys, _) => if |keys| < 2 then NoKey else if last then keys[|keys| - 1] else keys[1]
  }

  lemma {:induction false} MovedThen(keys: seq<Key>, kids: seq<Node>, i: nat, c: Node, m: (Node, Key, Node), lo: Bound,
                                     hi: Bound)
    requires |keys| == |kids| && KeysOk(keys, lo, hi) && RightOf(i) < |keys| && KeyOk(m.1)
    requires Sum(BranchSizes(keys)) <= pmax
    requires var was := kids[i := c]; var j := RightOf(i);
             Shared(was[j - 1], was[j], m.0, m.1, m.2)
             && Count(m.0) == Count(was[j - 1]) + (if i == 0 then 1 else -1)
             && Count(m.2) == Count(was[j]) - (if i == 0 then 1 else -1)
    ensures var j := RightOf(i); var now := kids[j - 1 := m.0][j := m.2];
            NodeMoved(kids[i := c], i, now, m.1) && Placed(MovedPair(keys, kids, j, m, lo, hi), keys[j := m.1], now, j)
  {
    var j := RightOf(i);
    MovedIs(kids, i, c, m);
    UpdatedOverfull(keys, j, m.1, lo, hi);
    PlacedIs(keys[j := m.1], kids[j - 1 := m.0][j := m.2], j);
  }

  // ----- main results -----

  /** Child i has been given a node, and the parent the new separator. */
  ghost predicate Passed(keys: seq<Key>, kids: seq<Node>, i: nat, c: Node, res: DelResult, now: seq<Node>)
    requires |keys| == |kids| > 1 && i < |keys| && HasSpare(kids[Neighbour(i)])
  {
    var j, sep := RightOf(i), SpareKey(kids[Neighbour(i)], i != 0);
    NodeMoved(kids[i := c], i, now, sep) && Placed(res, keys[j := sep], now, j)
  }

  /** What mdb_rebalance does for child i, which has become c. */
  ghost predicate Rebalanced(keys: seq<Key>, kids: seq<Node>, i: nat, c: Node, res: DelResult)
    requires |keys| == |kids| > 1 && i < |keys|
  {
    var was, j := kids[i := c], RightOf(i);
    if !TooSmall(c) then res == Stable(Branch(keys, was))
    else if !HasSpare(kids[Neighbour(i)]) then
      res.Check? && res.node.Branch? && res.node.keys == Dropped(keys, j) && OneFewer(was, j, res.node.kids)
    else
      exists now :: Passed(keys, kids, i, c, res, now)
  }

  /** A page that gives its last node to the right, or its first one to the left. */
  lemma {:induction false} RightShares(l: Node, r: Node)
    requires SameKind(l, r) && (l.Branch? ==> |l.keys| == |l.kids| && |r.keys| == |r.kids| > 0) && HasSpare(l)
    ensures Count(l) > 1
    ensures var m := MoveRight(l, r);
            && Shared(l, r, m.0, m.1, m.2) && Count(m.0) == Count(l) - 1 && Count(m.2) == Count(r) + 1
            && m.1 == SpareKey(l, true)
  {
    MoveRightIsCut(l, r);
    SharedByCut(l, r, Count(l) - 1);
  }

  lemma {:induction false} LeftShares(l: Node, r: Node)
    requires SameKind(l, r) && (l.Branch? ==> |l.keys| == |l.kids| && |r.keys| == |r.kids| > 0) && HasSpare(r)
    ensures Count(r) > 1
    ensures var m := MoveLeft(l, r);
            && Shared(l, r, m.0, m.1, m.2) && Count(m.0) == Count(l) + 1 && Count(m.2) == Count(r) - 1
            && m.1 == SpareKey(r, false)
  {
    MoveLeftIsCut(l, r);
    SharedByCut(l, r, Count(l) + 1);
  }

  lemma {:induction false} GivenIsRebalanced(keys: seq<Key>, kids: seq<Node>, i: nat, c: Node, m: (Node, Key, Node),
                                             lo: Bound, hi: Bound)
    requires |keys| == |kids| > 1 && KeysOk(keys, lo, hi) && i < |keys| && KeyOk(m.1)
    requires Sum(BranchSizes(keys)) <= pmax && TooSmall(c) && HasSpare(kids[Neighbour(i)])
    requires m.1 == SpareKey(kids[Neighbour(i)], i != 0)
    requires var was := kids[i := c]; var j := RightOf(i);
             Shared(was[j - 1], was[j], m.0, m.1, m.2)
             && Count(m.0) == Count(was[j - 1]) + (if i == 0 then 1 else -1)
             && Count(m.2) == Count(was[j]) - (if i == 0 then 1 else -1)
    ensures Rebalanced(keys, kids, i, c, MovedPair(keys, kids, RightOf(i), m, lo, hi))
  {
    var j := RightOf(i);
    MovedThen(keys, kids, i, c, m, lo, hi);
    assert Passed(keys, kids, i, c, MovedPair(keys, kids, j, m, lo, hi), kids[j - 1 := m.0][j := m.2]);
  }

  lemma {:induction false} LeftGets(keys: seq<Key>, kids: seq<Node>, c: Node, d: nat, lo: Bound, hi: Bound)
    requires KidsOk(keys, kids, d, lo, hi) && 2 <= |keys| && Sum(BranchSizes(keys)) <= pmax && TooSmall(c)
    requires Shape(c, d, Fence(keys, 0, lo, hi), Fence(keys, 1, lo, hi)) && HasSpare(kids[1])
    ensures Rebalanced(keys, kids, 0, c, Rebalance(keys, kids, 0, c, d, lo, hi))
  {
    var nb := kids[1];
    InOrderIs(c);
    InOrderIs(nb);
    KidShape(keys, kids, 1, d, lo, hi);
    NeighboursMeet(keys, kids, 1, c, nb, d, lo, hi);
    LeftShares(c, nb);
    GivenIsRebalanced(keys, kids, 0, c, MoveLeft(c, nb), lo, hi);
  }

  lemma {:induction false} LeftMerges(keys: seq<Key>, kids: seq<Node>, c: Node, d: nat, lo: Bound, hi: Bound)
    requires KidsOk(keys, kids, d, lo, hi) && 2 <= |keys| && Sum(BranchSizes(keys)) <= pmax && TooSmall(c)
    requires Shape(c, d, Fence(keys, 0, lo, hi), Fence(keys, 1, lo, hi)) && !HasSpare(kids[1])
    ensures Rebalanced(keys, kids, 0, c, Rebalance(keys, kids, 0, c, d, lo, hi))
  {
    var nb := kids[1];
    InOrderIs(c);
    InOrderIs(nb);
    KidShape(keys, kids, 1, d, lo, hi);
    NeighboursMeet(keys, kids, 1, c, nb, d, lo, hi);
    MergedIs(keys, kids, 1, Merge(c, nb), kids[0 := c]);
  }

  lemma {:induction false} RightMoves(keys: seq<Key>, kids: seq<Node>, i: nat, c: Node, d: nat, lo: Bound, hi: Bound)
    requires KidsOk(keys, kids, d, lo, hi) && 1 <= i < |keys| && Sum(BranchSizes(keys)) <= pmax && TooSmall(c)
    requires Shape(c, d, Fence(keys, i, lo, hi), Fence(keys, i + 1, lo, hi)) && HasSpare(kids[i - 1])
    ensures var nb := kids[i - 1];
            && SameKind(nb, c) && Count(nb) > 1
            && (nb.Branch? ==> |nb.keys| == |nb.kids| && |c.keys| == |c.kids| > 0) && KeyOk(MoveRight(nb, c).1)
            && Rebalance(keys, kids, i, c, d, lo, hi) == MovedPair(keys, kids, i, MoveRight(nb, c), lo, hi)
  {
    var nb := kids[i - 1];
    InOrderIs(c);
    InOrderIs(nb);
    KidShape(keys, kids, i - 1, d, lo, hi);
    NeighboursMeet(keys, kids, i, nb, c, d, lo, hi);
  }

  lemma {:induction false} RightGets(keys: seq<Key>, kids: seq<Node>, i: nat, c: Node, d: nat, lo: Bound, hi: Bound)
    requires KidsOk(keys, kids, d, lo, hi) && 1 <= i < |keys| && Sum(BranchSizes(keys)) <= pmax && TooSmall(c)
    requires Shape(c, d, Fence(keys, i, lo, hi), Fence(keys, i + 1, lo, hi)) && HasSpare(kids[i - 1])
    ensures Rebalanced(keys, kids, i, c, Rebalance(keys, kids, i, c, d, lo, hi))
  {
    var nb := kids[i - 1];
    RightMoves(keys, kids, i, c, d, lo, hi);
    RightShares(nb, c);
    var m := MoveRight(nb, c);
    assert kids[i := c][i - 1] == nb && kids[i := c][i] == c;
    GivenIsRebalanced(keys, kids, i, c, m, lo, hi);
  }

  lemma {:induction false} RightMerges(keys: seq<Key>, kids: seq<Node>, i: nat, c: Node, d: nat, lo: Bound, hi: Bound)
    requires KidsOk(keys, kids, d, lo, hi) && 1 <= i < |keys| && Sum(BranchSizes(keys)) <= pmax && TooSmall(c)
    requires Shape(c, d, Fence(keys, i, lo, hi), Fence(keys, i + 1, lo, hi)) && !HasSpare(kids[i - 1])
    ensures Rebalanced(keys, kids, i, c, Rebalance(keys, kids, i, c, d, lo, hi))
  {
    var nb := kids[i - 1];
    InOrderIs(c);
    InOrderIs(nb);
    KidShape(keys, kids, i - 1, d, lo, hi);
    NeighboursMeet(keys, kids, i, nb, c, d, lo, hi);
    MergedIs(keys, kids, i, Merge(nb, c), kids[i := c]);
  }

  /** A page that has not become too small stays; otherwise it is merged with the
      neighbour if and only if that one has no node to spare, and gets one node of it
      if it has. */
  lemma {:induction false} RebalanceIs(keys: seq<Key>, kids: seq<Node>, i: nat, c: Node, d: nat, lo: Bound, hi: Bound)
    requires KidsOk(keys, kids, d, lo, hi) && i < |keys| && 2 <= |keys| && Sum(BranchSizes(keys)) <= pmax
    requires Shape(c, d, Fence(keys, i, lo, hi), Fence(keys, i + 1, lo, hi))
    ensures Rebalanced(keys, kids, i, c, Rebalance(keys, kids, i, c, d, lo, hi))
  {
    if !TooSmall(c) {
      InOrderIs(c);
    } else if i == 0 {
      if HasSpare(kids[1]) {
        LeftGets(keys, kids, c, d, lo, hi);
      } else {
        LeftMerges(keys, kids, c, d, lo, hi);
      }
    } else if HasSpare(kids[i - 1]) {
      RightGets(keys, kids, i, c, d, lo, hi);
    } else {
      RightMerges(keys, kids, i, c, d, lo, hi);
    }
  }

  function OneIf(b: bool): int {
    if b then 1 else 0
  }

  /** Levels gained or lost above child i of the root, given what became of it: one is
      lost if it was one of two children and they are merged, one is gained if the
      root cannot take a new separator. */
  ghost function LevelsGained(keys: seq<Key>, kids: seq<Node>, i: nat, res: DelResult): int
    requires |keys| == |kids| > 1 && i < |keys|
  {
    match res
    case Grew(_, sep, _) => OneIf(Sum(BranchSizes(WithNew(keys, sep, i + 1))) > pmax)
    case Check(c) =>
      if !TooSmall(c) then 0
      else if HasSpare(kids[Neighbour(i)]) then
        OneIf(Sum(BranchSizes(keys[RightOf(i) := SpareKey(kids[Neighbour(i)], i != 0)])) > pmax)
      else -OneIf(|kids| == 2)
    case _ => 0
  }

  ghost function DepthOf(res: DelResult, depth: nat): int {
    match res
    case Check(n) => if n.Branch? && |n.kids| == 1 then depth - 1 else depth
    case Grew(_, _, _) => depth + 1
    case _ => depth
  }

  lemma {:induction false} RebalancedDepth(keys: seq<Key>, kids: seq<Node>, i: nat, c: Node, out: DelResult, d: nat)
    requires |keys| == |kids| > 1 && i < |keys| && Rebalanced(keys, kids, i, c, out) && !out.Overflow?
    ensures DepthOf(out, d) == d + LevelsGained(keys, kids, i, Check(c))
    ensures out.Check? ==> out.node.Branch? && out.node.kids != []
  {
  }

  lemma {:induction false} OutcomeDepth(res: DelResult, depth: nat, rs: seq<Record>)
    requires !res.NotFound? && !res.Overflow? && DelGood(res, rs, depth, Open, Open) && depth > 0
    requires res.Check? ==> res.node.Branch? && res.node.kids != []
    ensures var out := TreeDel.Outcome(res, depth, rs);
            out.Deleted? && out.db.Root? && out.db.depth == DepthOf(res, depth)
  {
  }

  lemma {:induction false} AbsorbedDepth(keys: seq<Key>, kids: seq<Node>, i: nat, res: DelResult, d: nat, lo: Bound,
                                         hi: Bound)
    requires KidsOk(keys, kids, d, lo, hi) && i < |keys| && 2 <= |keys| && Sum(BranchSizes(keys)) <= pmax
    requires res.Check? ==> Shape(res.node, d, Fence(keys, i, lo, hi), Fence(keys, i + 1, lo, hi))
    requires res.Grew? ==> KeyOk(res.sep)
    requires var out := AbsorbDel(keys, kids, i, res, d, lo, hi); !out.NotFound? && !out.Overflow?
    ensures var out := AbsorbDel(keys, kids, i, res, d, lo, hi);
            && DepthOf(out, d + 1) == d + 1 + LevelsGained(keys, kids, i, res)
            && (out.Check? ==> out.node.Branch? && out.node.kids != [])
  {
    match res
    case Check(c) =>
      RebalanceIs(keys, kids, i, c, d, lo, hi);
      RebalancedDepth(keys, kids, i, c, Rebalance(keys, kids, i, c, d, lo, hi), d + 1);
    case Grew(left, sep, right) =>
      BranchOverfull(keys, sep, i + 1, lo, hi);
      PlacedIs(WithNew(keys, sep, i + 1), WithNew(kids[i := left], right, i + 1), i + 1);
    case _ =>
  }

  /** What becomes of the child of the root that the key belongs to. */
  ghost function ChildResult(keys: seq<Key>, kids: seq<Node>, d: nat, r: int): DelResult
    requires Valid(Branch(keys, kids), d, Open, Open)
  {
    DeleteUnfolds(keys, kids, r, d, Open, Open);
    var i := ChildIndex(keys, r);
    Delete(kids[i], r, d - 1, Fence(keys, i, Open, Open), Fence(keys, i + 1, Open, Open))
  }

  lemma {:induction false} DepthBelow(keys: seq<Key>, kids: seq<Node>, r: int, res: DelResult, d: nat)
    requires KidsOk(keys, kids, d, Open, Open) && 2 <= |keys| && Sum(BranchSizes(keys)) <= pmax
    requires var kid := kids[ChildIndex(keys, r)]; res.NotFound? <==> Lookup(Records(kid), r).None?
    requires var i := ChildIndex(keys, r);
             !res.NotFound? ==> DelGood(res, Remove(Records(kids[i]), r), d, Fence(keys, i, Open, Open),
                 Fence(keys, i + 1, Open, Open))
    requires var out := DeleteBelow(keys, kids, r, res, d, Open, Open); !out.NotFound? && !out.Overflow?
    ensures var out := DeleteBelow(keys, kids, r, res, d, Open, Open);
            && DepthOf(out, d + 1) == d + 1 + LevelsGained(keys, kids, ChildIndex(keys, r), res)
            && (out.Check? ==> out.node.Branch? && out.node.kids != [])
  {
    AbsorbedDepth(keys, kids, ChildIndex(keys, r), res, d, Open, Open);
  }

  lemma {:induction false} BranchDepth(keys: seq<Key>, kids: seq<Node>, d: nat, r: int)
    requires Valid(Branch(keys, kids), d, Open, Open)
    requires var out := Delete(Branch(keys, kids), r, d, Open, Open); !out.NotFound? && !out.Overflow?
    ensures |keys| == |kids| > 1 && d > 1
    ensures var out := Delete(Branch(keys, kids), r, d, Open, Open);
            && DepthOf(out, d) == d + LevelsGained(keys, kids, ChildIndex(keys, r), ChildResult(keys, kids, d, r))
            && (out.Check? ==> out.node.Branch? && out.node.kids != [])
  {
    DeleteUnfolds(keys, kids, r, d, Open, Open);
    DepthBelow(keys, kids, r, ChildResult(keys, kids, d, r), d - 1);
  }

  /** The depth after a deletion. */
  lemma {:induction false} DepthAfterDelete(t: Database, r: int)
    requires ValidDatabase(t) && t.Root? && DeleteRecord(t, r).Deleted?
    ensures var db := DeleteRecord(t, r).db;
            match t.node
            case Leaf(es) => if |es| == 1 then db.Empty? else db.Root? && db.depth == t.depth
            case Branch(keys, kids) =>
              && |keys| == |kids| > 1 && db.Root?
              && db.depth
                 == t.depth + LevelsGained(keys, kids, ChildIndex(keys, r), ChildResult(keys, kids, t.depth, r))
  {
    if t.node.Branch? {
      var keys, kids := t.node.keys, t.node.kids;
      BranchDepth(keys, kids, t.depth, r);
      OutcomeDepth(Delete(t.node, r, t.depth, Open, Open), t.depth, Remove(Contents(t), r));
    } else {
      LeafRootDepth(t.node.es, t.depth, r);
    }
  }

  lemma {:induction false} LeafRootDepth(es: seq<Entry>, d: nat, r: int)
    requires Valid(Leaf(es), d, Open, Open) && DeleteRecord(Root(Leaf(es), d), r).Deleted?
    ensures var db := DeleteRecord(Root(Leaf(es), d), r).db;
            if |es| == 1 then db.Empty? else db.Root? && db.depth == d
  {
    assert Shape(Leaf(es), d, Open, Open);
  }
}
