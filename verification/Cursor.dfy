/** Cursors: mdb_cursor_sibling, mdb_cursor_next, mdb_cursor_prev,
    mdb_cursor_first, mdb_cursor_last and mdb_cursor_set with MDB_SET_RANGE, over
    a tree that does not change. */
module Cursors {
  import opened Basics
  import opened Tree
  import opened TreePut

  /** mc_pg and mc_ki have this many slots. */
  const CURSOR_STACK: nat := 32

  // ----- trees without empty pages -----

  /** Every page has records below it, branches at least two children, and all
      leaves are equally deep. */
  ghost predicate Populated(n: Node, d: nat)
    decreases d
  {
    match n
    case Leaf(es) => d == 1 && es != []
    case Branch(keys, kids) =>
      d > 1 && |keys| == |kids| >= 2 && forall i :: 0 <= i < |kids| ==> Populated(kids[i], d - 1)
  }

  lemma {:induction false} ValidIsPopulated(n: Node, d: nat, lo: Bound, hi: Bound)
    requires Valid(n, d, lo, hi)
    ensures Populated(n, d)
    decreases d
  {
    assert Shape(n, d, lo, hi);
    if n.Branch? {
      assert KidsOk(n.keys, n.kids, d - 1, lo, hi);
      forall i | 0 <= i < |n.kids| ensures Populated(n.kids[i], d - 1) {
        ValidIsPopulated(n.kids[i], d - 1, Fence(n.keys, i, lo, hi), Fence(n.keys, i + 1, lo, hi));
      }
    }
  }

  lemma {:induction false} PopulatedHasRecords(n: Node, d: nat)
    requires Populated(n, d)
    ensures Records(n) != []
    decreases d
  {
    if n.Branch? {
      PopulatedHasRecords(n.kids[0], d - 1);
    }
  }

  // ----- paths -----

  /** pg[0..t] is a way down from the root, ki the slots taken. */
  ghost predicate Path(root: Node, pg: seq<Node>, ki: seq<nat>, t: nat) {
    && t < |pg| == |ki|
    && if t == 0 then pg[0] == root
       else && Path(root, pg, ki, t - 1)
            && pg[t - 1].Branch? && ki[t - 1] < |pg[t - 1].kids| && pg[t] == pg[t - 1].kids[ki[t - 1]]
  }

  lemma {:induction false} PathPrefix(root: Node, pg: seq<Node>, ki: seq<nat>, s: nat, t: nat)
    requires Path(root, pg, ki, t) && s <= t
    ensures Path(root, pg, ki, s)
    decreases t - s
  {
    if s < t {
      PathPrefix(root, pg, ki, s, t - 1);
    }
  }

  /** Number of records before page pg[t]. */
  ghost function Start(root: Node, pg: seq<Node>, ki: seq<nat>, t: nat): nat
    requires Path(root, pg, ki, t)
  {
    if t == 0 then 0 else Start(root, pg, ki, t - 1) + |Flat(pg[t - 1].kids[..ki[t - 1]])|
  }

  /** Number of records up to the end of page pg[t]. */
  ghost function End(root: Node, pg: seq<Node>, ki: seq<nat>, t: nat): nat
    requires Path(root, pg, ki, t)
  {
    Start(root, pg, ki, t) + |Records(pg[t])|
  }

  lemma {:induction false} StartFrame(root: Node, pg: seq<Node>, ki: seq<nat>, pg': seq<Node>, ki': seq<nat>, t: nat)
    requires Path(root, pg, ki, t) && |pg'| == |ki'| == |pg|
    requires pg'[..t + 1] == pg[..t + 1] && ki'[..t] == ki[..t]
    ensures Path(root, pg', ki', t) && Start(root, pg', ki', t) == Start(root, pg, ki, t)
  {
    assert pg'[..t + 1][t] == pg[..t + 1][t];
    if t > 0 {
      assert pg'[..t + 1][t - 1] == pg[..t + 1][t - 1] && ki'[..t][t - 1] == ki[..t][t - 1];
      assert pg'[..t] == pg'[..t + 1][..t] && pg[..t] == pg[..t + 1][..t];
      assert ki'[..t - 1] == ki'[..t][..t - 1] && ki[..t - 1] == ki[..t][..t - 1];
      StartFrame(root, pg, ki, pg', ki', t - 1);
    }
  }

  lemma {:induction false} PathPopulated(root: Node, pg: seq<Node>, ki: seq<nat>, t: nat, d: nat)
    requires Path(root, pg, ki, t) && Populated(root, d)
    ensures t < d && Populated(pg[t], d - t)
  {
    if t > 0 {
      PathPopulated(root, pg, ki, t - 1, d);
      assert pg[t] == pg[t - 1].kids[ki[t - 1]];
    }
  }

  /** The records of a page on the path, within those of the root. */
  lemma {:induction false} RecordsBelow(root: Node, pg: seq<Node>, ki: seq<nat>, t: nat)
    requires Path(root, pg, ki, t)
    ensures End(root, pg, ki, t) <= |Records(root)|
    ensures Records(root)[Start(root, pg, ki, t)..End(root, pg, ki, t)] == Records(pg[t])
  {
    if t == 0 {
      assert Records(root)[..|Records(root)|] == Records(root);
    } else {
      RecordsBelow(root, pg, ki, t - 1);
      var parent, i := pg[t - 1], ki[t - 1];
      assert pg[t] == parent.kids[i];
      FlatAround(parent.kids, i);
      SliceOfSlice(Records(root), Start(root, pg, ki, t - 1), End(root, pg, ki, t - 1), Flat(parent.kids[..i]),
          Records(pg[t]), Flat(parent.kids[i + 1..]));
    }
  }

  lemma {:induction false} SliceOfSlice<T>(all: seq<T>, s: nat, e: nat, a: seq<T>, b: seq<T>, c: seq<T>)
    requires s <= e <= |all| && all[s..e] == a + b + c
    ensures s + |a| + |b| <= e && all[s + |a|..s + |a| + |b|] == b
  {
    assert |all[s..e]| == |a| + |b| + |c|;
    forall i | 0 <= i < |b| ensures all[s + |a| + i] == b[i] {
      assert all[s..e][|a| + i] == (a + b + c)[|a| + i];
    }
  }

  // ----- neighbours -----

  /** Taking another slot of the page above. */
  lemma {:induction false} ChangeSlot(root: Node, pg: seq<Node>, ki: seq<nat>, t: nat, i: nat)
    requires 1 <= t < |pg| == |ki| && Path(root, pg, ki, t - 1) && pg[t - 1].Branch? && i < |pg[t - 1].kids|
    ensures var pg', ki' := pg[t := pg[t - 1].kids[i]], ki[t - 1 := i];
            && Path(root, pg', ki', t) && Start(root, pg', ki', t)
               == Start(root, pg, ki, t - 1) + |Flat(pg[t - 1].kids[..i])|
  {
    var pg', ki' := pg[t := pg[t - 1].kids[i]], ki[t - 1 := i];
    assert pg'[..t] == pg[..t] && ki'[..t - 1] == ki[..t - 1];
    StartFrame(root, pg, ki, pg', ki', t - 1);
  }

  lemma {:induction false} FlatNext(kids: seq<Node>, i: nat)
    requires i < |kids|
    ensures Flat(kids[..i + 1]) == Flat(kids[..i]) + Records(kids[i])
  {
    assert kids[..i + 1] == kids[..i] + [kids[i]];
    FlatAppend(kids[..i], [kids[i]]);
    FlatOne(kids[i]);
  }

  /** The last child ends where its parent ends, the first begins where it
      begins. */
  lemma {:induction false} OuterChild(root: Node, pg: seq<Node>, ki: seq<nat>, t: nat)
    requires 1 <= t && Path(root, pg, ki, t)
    ensures ki[t - 1] + 1 == |pg[t - 1].kids| ==> End(root, pg, ki, t) == End(root, pg, ki, t - 1)
    ensures ki[t - 1] == 0 ==> Start(root, pg, ki, t) == Start(root, pg, ki, t - 1)
  {
    var kids, i := pg[t - 1].kids, ki[t - 1];
    assert pg[t] == kids[i];
    FlatNext(kids, i);
    assert i + 1 == |kids| ==> kids[..i + 1] == kids;
  }

  /** A child that is not the last is followed by its right neighbour. */
  lemma {:induction false} InnerRight(root: Node, pg: seq<Node>, ki: seq<nat>, t: nat, d: nat)
    requires 1 <= t && Path(root, pg, ki, t) && Populated(root, d) && ki[t - 1] + 1 < |pg[t - 1].kids|
    ensures End(root, pg, ki, t) == Start(root, pg, ki, t - 1) + |Flat(pg[t - 1].kids[..ki[t - 1] + 1])|
    ensures End(root, pg, ki, t) < |Records(root)|
  {
    var kids, i := pg[t - 1].kids, ki[t - 1];
    assert pg[t] == kids[i];
    FlatNext(kids, i);
    PathPopulated(root, pg, ki, t - 1, d);
    PopulatedHasRecords(kids[i + 1], d - t);
    FlatAround(kids, i + 1);
    RecordsBelow(root, pg, ki, t - 1);
  }

  lemma {:induction false} InnerLeft(root: Node, pg: seq<Node>, ki: seq<nat>, t: nat, d: nat)
    requires 1 <= t && Path(root, pg, ki, t) && Populated(root, d) && ki[t - 1] > 0
    ensures Start(root, pg, ki, t)
            == Start(root, pg, ki, t - 1) + |Flat(pg[t - 1].kids[..ki[t - 1] - 1])|
                + |Records(pg[t - 1].kids[ki[t - 1] - 1])|
    ensures Start(root, pg, ki, t) > 0
  {
    var kids, i := pg[t - 1].kids, ki[t - 1];
    PathPopulated(root, pg, ki, t - 1, d);
    assert Populated(pg[t - 1], d - (t - 1));
    PopulatedHasRecords(kids[i - 1], d - t);
    FlatNext(kids, i - 1);
  }

  /** Are there records to the right, or left, of page pg[t]? */
  ghost predicate Beyond(right: bool, root: Node, pg: seq<Node>, ki: seq<nat>, t: nat)
    requires Path(root, pg, ki, t)
  {
    if right then End(root, pg, ki, t) < |Records(root)| else Start(root, pg, ki, t) > 0
  }

  /** Is slot i of a page the last, or first, one? */
  predicate AtEdge(right: bool, page: Node, i: nat) {
    if right then i + 1 >= Count(page) else i == 0
  }

  /** The slot on which a page is entered. */
  function Entering(right: bool, page: Node): nat {
    if right || Count(page) == 0 then 0 else Count(page) - 1
  }

  lemma {:induction false} BeyondTheRoot(right: bool, root: Node, pg: seq<Node>, ki: seq<nat>)
    requires Path(root, pg, ki, 0)
    ensures !Beyond(right, root, pg, ki, 0)
  {
  }

  lemma {:induction false} BeyondTheEdge(right: bool, root: Node, pg: seq<Node>, ki: seq<nat>, t: nat)
    requires 1 <= t && Path(root, pg, ki, t) && AtEdge(right, pg[t - 1], ki[t - 1])
    ensures Beyond(right, root, pg, ki, t) <==> Beyond(right, root, pg, ki, t - 1)
  {
    OuterChild(root, pg, ki, t);
  }

  /** The page at level t that follows, or precedes, the one on the old path. */
  ghost predicate Neighbour(right: bool, root: Node, pg: seq<Node>, ki: seq<nat>, was: seq<Node>, wasKi: seq<nat>,
                            t: nat) {
    && Path(root, pg, ki, t) && Path(root, was, wasKi, t)
    && (right ==> Start(root, pg, ki, t) == End(root, was, wasKi, t) && ki[t] == 0)
    && (!right ==> End(root, pg, ki, t) == Start(root, was, wasKi, t) && ki[t] + 1 == Count(pg[t]))
  }

  /** Going down from a neighbour of the page above. */
  lemma {:induction false} PushNeighbour(right: bool, root: Node, pg: seq<Node>, ki: seq<nat>, was: seq<Node>,
                                         wasKi: seq<nat>, t: nat, d: nat)
    requires 1 <= t && Path(root, was, wasKi, t) && |pg| == |ki| == |was| && Populated(root, d)
    requires Neighbour(right, root, pg, ki, was, wasKi, t - 1) && AtEdge(right, was[t - 1], wasKi[t - 1])
    ensures pg[t - 1].Branch? && ki[t - 1] < |pg[t - 1].kids|
    ensures var kid := pg[t - 1].kids[ki[t - 1]];
            Neighbour(right, root, pg[t := kid], ki[t := Entering(right, kid)], was, wasKi, t)
  {
    PathPopulated(root, was, wasKi, t - 1, d);
    PathPopulated(root, pg, ki, t - 1, d);
    var i, kids := ki[t - 1], pg[t - 1].kids;
    ChangeSlot(root, pg, ki, t, i);
    assert ki[t - 1 := i] == ki;
    var pg', ki' := pg[t := kids[i]], ki[t := Entering(right, kids[i])];
    assert ki'[..t] == ki[..t];
    StartFrame(root, pg', ki, pg', ki', t);
    OuterChild(root, was, wasKi, t);
    PathPopulated(root, pg', ki', t, d);
    if !right {
      FlatNext(kids, i);
      assert kids[..i + 1] == kids;
    }
  }

  /** Taking the next slot of the page above. */
  lemma {:induction false} StepNeighbour(right: bool, root: Node, was: seq<Node>, wasKi: seq<nat>, t: nat, d: nat,
                                         i: nat)
    requires 1 <= t && Path(root, was, wasKi, t) && Populated(root, d)
    requires !AtEdge(right, was[t - 1], wasKi[t - 1]) && i == if right then wasKi[t - 1] + 1 else wasKi[t - 1] - 1
    ensures i < |was[t - 1].kids|
    ensures var kid := was[t - 1].kids[i];
            Neighbour(right, root, was[t := kid], wasKi[t - 1 := i][t := Entering(right, kid)], was, wasKi, t)
    ensures Beyond(right, root, was, wasKi, t)
  {
    var kids := was[t - 1].kids;
    ChangeSlot(root, was, wasKi, t, i);
    var pg', mid := was[t := kids[i]], wasKi[t - 1 := i];
    var ki' := mid[t := Entering(right, kids[i])];
    assert ki'[..t] == mid[..t];
    StartFrame(root, pg', mid, pg', ki', t);
    PathPopulated(root, pg', ki', t, d);
    if right {
      InnerRight(root, was, wasKi, t, d);
    } else {
      InnerLeft(root, was, wasKi, t, d);
    }
  }

  /** Between leaves: the position moves by one. */
  lemma {:induction false} Crossed(right: bool, root: Node, pg: seq<Node>, ki: seq<nat>, was: seq<Node>,
                                   wasKi: seq<nat>, t: nat, d: nat)
    requires Neighbour(right, root, pg, ki, was, wasKi, t) && Populated(root, d) && was[t].Leaf?
    requires right ==> wasKi[t] + 1 == |was[t].es|
    requires !right ==> wasKi[t] == 0
    ensures pg[t].Leaf? && ki[t] < |pg[t].es|
    ensures Start(root, pg, ki, t) + ki[t] == Start(root, was, wasKi, t) + wasKi[t] + (if right then 1 else -1)
  {
    PathPopulated(root, pg, ki, t, d);
    PathPopulated(root, was, wasKi, t, d);
  }

  // ----- going down -----

  /** The first child begins where its parent begins. */
  lemma {:induction false} DownFirst(root: Node, pg: seq<Node>, ki: seq<nat>, t: nat, d: nat)
    requires t + 1 < |pg| && Path(root, pg, ki, t) && pg[t].Branch? && Populated(root, d)
    ensures pg[t].kids != []
    ensures var pg', ki' := pg[t + 1 := pg[t].kids[0]], ki[t := 0][t + 1 := 0];
            Path(root, pg', ki', t + 1) && Start(root, pg', ki', t + 1) == Start(root, pg, ki, t)
  {
    PathPopulated(root, pg, ki, t, d);
    Down(root, pg, ki, t, 0);
  }

  lemma {:induction false} Down(root: Node, pg: seq<Node>, ki: seq<nat>, t: nat, i: nat)
    requires t + 1 < |pg| && Path(root, pg, ki, t) && pg[t].Branch? && i < |pg[t].kids|
    ensures var pg', ki' := pg[t + 1 := pg[t].kids[i]], ki[t := i][t + 1 := 0];
            Path(root, pg', ki', t + 1) && Start(root, pg', ki', t + 1)
                == Start(root, pg, ki, t) + |Flat(pg[t].kids[..i])|
  {
    ChangeSlot(root, pg, ki, t + 1, i);
    var pg', mid, ki' := pg[t + 1 := pg[t].kids[i]], ki[t := i], ki[t := i][t + 1 := 0];
    assert ki'[..t + 1] == mid[..t + 1];
    StartFrame(root, pg', mid, pg', ki', t + 1);
  }

  lemma {:induction false} DownLast(root: Node, pg: seq<Node>, ki: seq<nat>, t: nat, d: nat)
    requires t + 1 < |pg| && Path(root, pg, ki, t) && pg[t].Branch? && Populated(root, d)
    ensures |pg[t].kids| >= 2
    ensures var i := |pg[t].kids| - 1;
            var pg', ki' := pg[t + 1 := pg[t].kids[i]], ki[t := i][t + 1 := 0];
            Path(root, pg', ki', t + 1) && End(root, pg', ki', t + 1) == End(root, pg, ki, t)
  {
    PathPopulated(root, pg, ki, t, d);
    var kids := pg[t].kids;
    var i := |kids| - 1;
    Down(root, pg, ki, t, i);
    FlatNext(kids, i);
    assert kids[..i + 1] == kids;
  }

  /** On the way to the last leaf, with n pages on the stack.  `keeping`: the
      cursor was on a leaf before, and below the top the stack is still the old
      one, or it has been left and the top page was entered at slot 0. */
  ghost predicate Towards(root: Node, pg: seq<Node>, ki: seq<nat>, n: nat, d: nat, keeping: bool) {
    && 1 <= n && Path(root, pg, ki, n - 1) && End(root, pg, ki, n - 1) == |Records(root)|
    && (keeping ==> 1 <= d <= |pg| && (Path(root, pg, ki, d - 1) || ki[n - 1] == 0))
  }

  /** One step down: the stack is kept, or the last child is pushed. */
  ghost predicate StepsToLast(pg: seq<Node>, ki: seq<nat>, n: nat, keeping: bool, pg': seq<Node>, ki': seq<nat>) {
    && 1 <= n < |pg| == |ki| && pg[n - 1].Branch? && pg[n - 1].kids != []
    && var i := |pg[n - 1].kids| - 1;
       if keeping && ki[n - 1] == i then pg' == pg && ki' == ki
       else pg' == pg[n := pg[n - 1].kids[i]] && ki' == ki[n - 1 := i][n := 0]
  }

  lemma {:induction false} BeforeStep(root: Node, pg: seq<Node>, ki: seq<nat>, n: nat, d: nat, keeping: bool)
    requires Towards(root, pg, ki, n, d, keeping) && Populated(root, d) && pg[n - 1].Branch?
    ensures |pg[n - 1].kids| >= 2 && n < d
    ensures keeping && ki[n - 1] + 1 == |pg[n - 1].kids| ==> n < |pg|
  {
    PathPopulated(root, pg, ki, n - 1, d);
  }

  /** The stack already goes to the last child.  A page that has just been
      entered at slot 0 cannot be mistaken for it, having two children. */
  lemma {:induction false} KeptLast(root: Node, pg: seq<Node>, ki: seq<nat>, n: nat, d: nat)
    requires Towards(root, pg, ki, n, d, true) && Populated(root, d)
    requires pg[n - 1].Branch? && ki[n - 1] + 1 == |pg[n - 1].kids|
    ensures n < |pg| && Towards(root, pg, ki, n + 1, d, true)
  {
    PathPopulated(root, pg, ki, n - 1, d);
    assert ki[n - 1] != 0;
    PathPrefix(root, pg, ki, n, d - 1);
    OuterChild(root, pg, ki, n);
  }

  lemma {:induction false} PushedLast(root: Node, pg: seq<Node>, ki: seq<nat>, n: nat, d: nat, keeping: bool)
    requires Towards(root, pg, ki, n, d, keeping) && Populated(root, d) && n < |pg| && pg[n - 1].Branch?
    ensures |pg[n - 1].kids| >= 2
    ensures var i := |pg[n - 1].kids| - 1;
            Towards(root, pg[n := pg[n - 1].kids[i]], ki[n - 1 := i][n := 0], n + 1, d, keeping)
  {
    DownLast(root, pg, ki, n - 1, d);
  }

  lemma {:induction false} AfterStep(root: Node, pg: seq<Node>, ki: seq<nat>, n: nat, d: nat, keeping: bool,
                                     pg': seq<Node>, ki': seq<nat>)
    requires Towards(root, pg, ki, n, d, keeping) && Populated(root, d) && StepsToLast(pg, ki, n, keeping, pg', ki')
    ensures Towards(root, pg', ki', n + 1, d, keeping)
  {
    if keeping && ki[n - 1] + 1 == |pg[n - 1].kids| {
      KeptLast(root, pg, ki, n, d);
    } else {
      PushedLast(root, pg, ki, n, d, keeping);
    }
  }

  /** Number of records below rank r. */
  ghost function Rank(n: Node, r: int): nat {
    LowerBound(RecordRanks(Records(n)), r)
  }

  lemma {:induction false} DownKey(n: Node, d: nat, lo: Bound, hi: Bound, r: int)
    requires n.Branch? && d > 1 && KidsOk(n.keys, n.kids, d - 1, lo, hi) && InBounds(r, lo, hi)
    ensures var i := ChildIndex(n.keys, r);
            && i < |n.kids| && Valid(n.kids[i], d - 1, Fence(n.keys, i, lo, hi), Fence(n.keys, i + 1, lo, hi))
            && InBounds(r, Fence(n.keys, i, lo, hi), Fence(n.keys, i + 1, lo, hi))
            && Rank(n, r) == |Flat(n.kids[..i])| + Rank(n.kids[i], r)
  {
    var i := ChildIndex(n.keys, r);
    AroundChild(n.keys, n.kids, d - 1, lo, hi, r);
    PositionInMiddle(Flat(n.kids[..i]), Records(n.kids[i]), Flat(n.kids[i + 1..]), r);
  }

  /** On the way to the leaf of rank r. */
  ghost predicate TowardsKey(root: Node, pg: seq<Node>, ki: seq<nat>, n: nat, r: int, d: nat, lo: Bound, hi: Bound) {
    && 1 <= n && Path(root, pg, ki, n - 1) && Valid(pg[n - 1], d, lo, hi) && InBounds(r, lo, hi)
    && Rank(root, r) == Start(root, pg, ki, n - 1) + Rank(pg[n - 1], r)
  }

  lemma {:induction false} KeyFromRoot(root: Node, pg: seq<Node>, ki: seq<nat>, r: int, d: nat)
    requires 1 <= |pg| == |ki| && pg[0] == root && Valid(root, d, Open, Open)
    ensures TowardsKey(root, pg, ki, 1, r, d, Open, Open)
  {
  }

  lemma {:induction false} PushedRank(root: Node, pg: seq<Node>, ki: seq<nat>, n: nat, r: int, i: nat)
    requires 1 <= n < |pg| && Path(root, pg, ki, n - 1) && pg[n - 1].Branch? && i < |pg[n - 1].kids|
    requires Rank(root, r) == Start(root, pg, ki, n - 1) + Rank(pg[n - 1], r)
    requires Rank(pg[n - 1], r) == |Flat(pg[n - 1].kids[..i])| + Rank(pg[n - 1].kids[i], r)
    ensures var kid := pg[n - 1].kids[i];
            var pg', ki' := pg[n := kid], ki[n - 1 := i][n := 0];
            Path(root, pg', ki', n) && Rank(root, r) == Start(root, pg', ki', n) + Rank(kid, r)
  {
    Down(root, pg, ki, n - 1, i);
  }

  /** A branch page that can be searched. */
  ghost predicate Searchable(n: Node) {
    && n.Branch? && |n.keys| == |n.kids| > 0
    && forall j, k :: 1 <= j < k < |n.keys| ==> n.keys[j].rank < n.keys[k].rank
  }

  lemma {:induction false} KeyPage(root: Node, pg: seq<Node>, ki: seq<nat>, n: nat, r: int, d: nat, lo: Bound,
                                   hi: Bound)
    requires TowardsKey(root, pg, ki, n, r, d, lo, hi)
    ensures if pg[n - 1].Branch? then d > 1 && Searchable(pg[n - 1]) else d == 1
  {
    var page := pg[n - 1];
    assert Shape(page, d, lo, hi);
    if page.Branch? {
      assert KidsOk(page.keys, page.kids, d - 1, lo, hi);
    }
  }

  /** One step down to the child for rank r. */
  ghost predicate StepsToKey(pg: seq<Node>, ki: seq<nat>, n: nat, r: int, pg': seq<Node>, ki': seq<nat>) {
    && 1 <= n < |pg| == |ki| && Searchable(pg[n - 1])
    && var i := ChildIndex(pg[n - 1].keys, r);
       pg' == pg[n := pg[n - 1].kids[i]] && ki' == ki[n - 1 := i][n := 0]
  }

  lemma {:induction false} AfterKeyStep(root: Node, pg: seq<Node>, ki: seq<nat>, n: nat, r: int, d: nat, lo: Bound,
                                        hi: Bound, pg': seq<Node>, ki': seq<nat>)
    returns (lo': Bound, hi': Bound)
    requires TowardsKey(root, pg, ki, n, r, d, lo, hi) && StepsToKey(pg, ki, n, r, pg', ki')
    ensures d > 1 && TowardsKey(root, pg', ki', n + 1, r, d - 1, lo', hi')
  {
    var page, i := pg[n - 1], ChildIndex(pg[n - 1].keys, r);
    lo', hi' := Fence(page.keys, i, lo, hi), Fence(page.keys, i + 1, lo, hi);
    assert Shape(page, d, lo, hi);
    assert KidsOk(page.keys, page.kids, d - 1, lo, hi);
    DownKey(page, d, lo, hi, r);
    PushedRank(root, pg, ki, n, r, i);
  }

  // ----- the leaf of a rank -----

  /** The i-th record of a leaf on the path. */
  lemma {:induction false} LeafRecord(root: Node, pg: seq<Node>, ki: seq<nat>, t: nat, i: nat)
    requires Path(root, pg, ki, t) && pg[t].Leaf? && i < |pg[t].es|
    ensures var p := Start(root, pg, ki, t) + i; p < |Records(root)| && Records(root)[p] == Rec(pg[t].es[i])
  {
    RecordsBelow(root, pg, ki, t);
    var s, e := Start(root, pg, ki, t), End(root, pg, ki, t);
    assert Records(root)[s..e][i] == Records(root)[s + i];
  }

  /** A place in ascending records, told by its neighbours. */
  lemma {:induction false} RankInOrder(rs: seq<Record>, r: int, p: nat)
    requires Ordered(rs, Open, Open) && p <= |rs| && (p < |rs| ==> rs[p].rank >= r)
    requires p == 0 || rs[p - 1].rank < r || (p < |rs| && rs[p].rank == r)
    ensures p == LowerBound(RecordRanks(rs), r)
  {
    assert forall i :: 0 <= i < |rs| ==> RecordRanks(rs)[i] == rs[i].rank;
    LowerBoundIs(RecordRanks(rs), r, p);
  }

  /** If r lies within a leaf's keys, its place is on that leaf. */
  lemma {:induction false} RankOnLeaf(root: Node, pg: seq<Node>, ki: seq<nat>, t: nat, r: int, i: nat)
    requires Ordered(Records(root), Open, Open) && Path(root, pg, ki, t) && pg[t].Leaf? && i < |pg[t].es|
    requires pg[t].es[i].key.rank >= r && (i > 0 ==> pg[t].es[i - 1].key.rank < r)
    requires i == 0 ==> pg[t].es[0].key.rank == r || t == 0
    ensures Rank(root, r) == Start(root, pg, ki, t) + i
  {
    var p := Start(root, pg, ki, t) + i;
    LeafRecord(root, pg, ki, t, i);
    if i > 0 {
      LeafRecord(root, pg, ki, t, i - 1);
      assert Records(root)[p - 1].rank < r;
    } else {
      assert p == 0 || Records(root)[p].rank == r;
    }
    RankInOrder(Records(root), r, p);
  }

  /** Nothing above the last key of the last leaf. */
  lemma {:induction false} RankAtEnd(root: Node, pg: seq<Node>, ki: seq<nat>, t: nat, r: int)
    requires Ordered(Records(root), Open, Open) && Path(root, pg, ki, t) && pg[t].Leaf? && pg[t].es != []
    requires End(root, pg, ki, t) == |Records(root)| && pg[t].es[|pg[t].es| - 1].key.rank < r
    ensures Rank(root, r) == |Records(root)|
  {
    LeafRecord(root, pg, ki, t, |pg[t].es| - 1);
    RankInOrder(Records(root), r, |Records(root)|);
  }

  lemma {:induction false} LeafAscending(root: Node, pg: seq<Node>, ki: seq<nat>, t: nat)
    requires Ordered(Records(root), Open, Open) && Path(root, pg, ki, t) && pg[t].Leaf?
    ensures var ranks := EntryRanks(pg[t].es); forall j, k :: 0 <= j < k < |ranks| ==> ranks[j] < ranks[k]
  {
    var es := pg[t].es;
    forall j, k | 0 <= j < k < |es| ensures es[j].key.rank < es[k].key.rank {
      LeafRecord(root, pg, ki, t, j);
      LeafRecord(root, pg, ki, t, k);
    }
  }

  lemma {:induction false} LeafRank(n: Node, r: int, i: nat)
    requires n.Leaf? && i <= |n.es| && (forall k :: 0 <= k < i ==> EntryRanks(n.es)[k] < r)
    requires i < |n.es| ==> EntryRanks(n.es)[i] >= r
    ensures Rank(n, r) == i
  {
    assert RecordRanks(Recs(n.es)) == EntryRanks(n.es);
    LowerBoundIs(EntryRanks(n.es), r, i);
  }

  /** mdb_node_search on a leaf: how many of its records are below rank r. */
  method LeafSearch(root: Node, pg: seq<Node>, ki: seq<nat>, t: nat, r: int) returns (i: nat)
    requires Ordered(Records(root), Open, Open) && Path(root, pg, ki, t) && pg[t].Leaf?
    ensures i == Rank(pg[t], r) <= |pg[t].es|
  {
    LeafAscending(root, pg, ki, t);
    var ranks := EntryRanks(pg[t].es);
    var exact;
    i, exact := NodeSearch(ranks, 0, r);
    LeafRank(pg[t], r, i);
  }

  /** The next leaf, entered at its first record. */
  lemma {:induction false} Entered(root: Node, pg: seq<Node>, ki: seq<nat>, was: seq<Node>, wasKi: seq<nat>, t: nat,
                                   d: nat)
    requires Neighbour(true, root, pg, ki, was, wasKi, t) && Populated(root, d) && was[t].Leaf?
    ensures pg[t].Leaf? && ki[t] < |pg[t].es|
            && Start(root, pg, ki, t) + ki[t] == Start(root, was, wasKi, t) + |was[t].es|
  {
    PathPopulated(root, pg, ki, t, d);
    PathPopulated(root, was, wasKi, t, d);
  }

  /** No page on the path has a right neighbour. */
  lemma {:induction false} LastPath(root: Node, pg: seq<Node>, ki: seq<nat>, t: nat)
    requires Path(root, pg, ki, t) && forall l :: 0 <= l < t ==> ki[l] + 1 == Count(pg[l])
    ensures End(root, pg, ki, t) == |Records(root)|
  {
    if t > 0 {
      LastPath(root, pg, ki, t - 1);
      OuterChild(root, pg, ki, t);
    }
  }

  // ----- the cursor -----

  /** What the current page says about a rank. */
  datatype Where = Here(i: nat) | Above | Elsewhere

  datatype Rc = Success | NotFound | CursorFull

  /** Has some page on the stack a right neighbour? */
  method HasRightSibling(root: Node, pg: seq<Node>, ki: seq<nat>, t: nat) returns (yes: bool)
    requires Path(root, pg, ki, t)
    ensures !yes ==> End(root, pg, ki, t) == |Records(root)|
  {
    var l := 0;
    while l < t
      invariant l <= t && forall k :: 0 <= k < l ==> ki[k] + 1 == Count(pg[k])
    {
      PathPrefix(root, pg, ki, l + 1, t);
      if ki[l] + 1 < Count(pg[l]) {
        return true;
      }
      l := l + 1;
    }
    LastPath(root, pg, ki, t);
    return false;
  }

  /** The first part of mdb_cursor_set: compare with the first, the last and the
      current key of the page; search the page if it is the right one. */
  method OnPage(es: seq<Entry>, at: nat, r: int, alone: bool) returns (w: Where)
    requires es != [] && var ranks := EntryRanks(es); forall j, k :: 0 <= j < k < |ranks| ==> ranks[j] < ranks[k]
    ensures w.Here? ==> && w.i < |es| && es[w.i].key.rank >= r && (w.i > 0 ==> es[w.i - 1].key.rank < r)
                        && (w.i == 0 ==> es[0].key.rank == r || alone)
    ensures w.Above? ==> es[|es| - 1].key.rank < r
  {
    var nkeys, ranks := |es|, EntryRanks(es);
    if r == ranks[0] {
      return Here(0);
    }
    if r > ranks[0] {
      if nkeys > 1 && r == ranks[nkeys - 1] {
        assert ranks[nkeys - 2] < ranks[nkeys - 1];
        return Here(nkeys - 1);
      }
      if nkeys > 1 && r < ranks[nkeys - 1] {
        if at < nkeys && r == ranks[at] {
          assert at > 0 ==> ranks[at - 1] < ranks[at];
          return Here(at);
        }
        var i, _ := NodeSearch(ranks, 0, r);
        assert i > 0 ==> ranks[i - 1] < r;
        return Here(i);
      }
      return Above;
    }
    return if alone then Here(0) else Elsewhere;
  }

  class Cursor {
    const db: Database
    var pg: seq<Node>
    var ki: seq<nat>
    var snum: nat
    var initialized: bool
    var eof: bool

    ghost predicate Stacked()
      reads this
    {
      |pg| == |ki| == CURSOR_STACK && snum <= CURSOR_STACK
    }

    /** The stack leads from the root to a leaf. */
    ghost predicate OnLeaf()
      reads this
    {
      Stacked() && db.Root? && snum == db.depth > 0 && Path(db.node, pg, ki, snum - 1) && pg[snum - 1].Leaf?
    }

    /** Index of the cursor's record among all records. */
    ghost function Position(): nat
      requires OnLeaf()
      reads this
    {
      Start(db.node, pg, ki, snum - 1) + ki[snum - 1]
    }

    /** The cursor is on a record, or behind the last one. */
    ghost predicate Valid()
      reads this
    {
      Stacked() && ValidDatabase(db) && (initialized ==>
                      && OnLeaf()
                      && (ki[snum - 1] < |pg[snum - 1].es|
                         || (ki[snum - 1] == |pg[snum - 1].es| && Position() == |Records(db.node)|))
                      && (eof ==> Position() + 1 >= |Records(db.node)|))
    }

    constructor (db: Database)
      requires ValidDatabase(db)
      ensures Valid() && !initialized && this.db == db
    {
      this.db := db;
      pg := seq(CURSOR_STACK, _ => Leaf([]));
      ki := seq(CURSOR_STACK, _ => 0);
      snum, initialized, eof := 0, false, false;
    }

    /** mdb_cursor_push */
    method Push(page: Node) returns (ok: bool)
      requires Stacked()
      modifies this`pg, this`ki, this`snum
      ensures Stacked() && (ok <==> old(snum) < CURSOR_STACK)
      ensures ok ==> snum == old(snum) + 1 && pg == old(pg)[old(snum) := page] && ki == old(ki)[old(snum) := 0]
      ensures !ok ==> snum == old(snum) && pg == old(pg) && ki == old(ki)
    {
      if snum >= CURSOR_STACK {
        return false;
      }
      pg, ki := pg[snum := page], ki[snum := 0];
      snum := snum + 1;
      return true;
    }

    /** The end of mdb_cursor_sibling: go down the current slot. */
    method Enter(right: bool)
      requires Stacked() && 1 <= snum < CURSOR_STACK
      requires pg[snum - 1].Branch? && ki[snum - 1] < |pg[snum - 1].kids|
      modifies this`pg, this`ki, this`snum
      ensures Stacked() && snum == old(snum) + 1
      ensures var kid := old(pg[snum - 1].kids[ki[snum - 1]]);
              pg == old(pg)[old(snum) := kid] && ki == old(ki)[old(snum) := Entering(right, kid)]
    {
      var page := pg[snum - 1].kids[ki[snum - 1]];
      var _ := Push(page);
      if !right && Count(page) > 0 {
        ki := ki[snum - 1 := Count(page) - 1];
      }
    }

    /** mdb_cursor_sibling: replace the top page by its neighbour.  There is one
        exactly if there are records on that side; if not, the stack and all
        indices stay as they were. */
    method Sibling(right: bool) returns (ok: bool)
      requires Stacked() && db.Root? && Populated(db.node, db.depth) && 1 <= snum && Path(db.node, pg, ki, snum - 1)
      modifies this`pg, this`ki, this`snum
      ensures Stacked() && snum == old(snum)
      ensures ok <==> old(Beyond(right, db.node, pg, ki, snum - 1))
      ensures ok ==> Neighbour(right, db.node, pg, ki, old(pg), old(ki), snum - 1)
      ensures !ok ==> pg == old(pg) && ki == old(ki)
      decreases snum
    {
      ghost var t, d, was, wasKi := snum - 1, db.depth, pg, ki;
      if snum < 2 {
        BeyondTheRoot(right, db.node, pg, ki);
        return false;
      }
      snum := snum - 1;
      if AtEdge(right, pg[snum - 1], ki[snum - 1]) {
        BeyondTheEdge(right, db.node, was, wasKi, t);
        ok := Sibling(right);
        if !ok {
          snum := snum + 1;
          return;
        }
        PushNeighbour(right, db.node, pg, ki, was, wasKi, t, d);
      } else {
        ki := ki[snum - 1 := if right then ki[snum - 1] + 1 else ki[snum - 1] - 1];
        ok := true;
        StepNeighbour(right, db.node, was, wasKi, t, d, ki[t - 1]);
      }
      Enter(right);
    }

    /** The end of a step of mdb_page_search_root: follow slot i. */
    method GoDown(i: nat) returns (ok: bool)
      requires Stacked() && 1 <= snum && pg[snum - 1].Branch? && i < |pg[snum - 1].kids|
      modifies this`pg, this`ki, this`snum
      ensures Stacked() && (ok <==> old(snum) < CURSOR_STACK)
      ensures ok ==> && snum == old(snum) + 1 && pg == old(pg)[old(snum) := old(pg[snum - 1].kids[i])]
                     && ki == old(ki)[old(snum) - 1 := i][old(snum) := 0]
    {
      ki := ki[snum - 1 := i];
      ok := Push(pg[snum - 1].kids[i]);
    }

    /** mdb_page_search with MDB_PS_FIRST */
    method DescendFirst() returns (rc: Rc)
      requires Stacked() && db.Root? && Populated(db.node, db.depth)
      modifies this`pg, this`ki, this`snum
      ensures Stacked() && (rc == CursorFull <==> db.depth > CURSOR_STACK) && rc != NotFound
      ensures rc == Success ==> OnLeaf() && Start(db.node, pg, ki, snum - 1) == 0
    {
      pg, snum := pg[0 := db.node], 1;
      while pg[snum - 1].Branch?
        invariant Stacked() && 1 <= snum && Path(db.node, pg, ki, snum - 1)
        invariant Start(db.node, pg, ki, snum - 1) == 0
        decreases db.depth - snum
      {
        PathPopulated(db.node, pg, ki, snum - 1, db.depth);
        if snum < CURSOR_STACK {
          DownFirst(db.node, pg, ki, snum - 1, db.depth);
        }
        var ok := GoDown(0);
        if !ok {
          return CursorFull;
        }
        PathPopulated(db.node, pg, ki, snum - 1, db.depth);
      }
      PathPopulated(db.node, pg, ki, snum - 1, db.depth);
      rc := Success;
    }

    /** One step of mdb_page_search_root with MDB_PS_LAST. */
    method DownToLast() returns (ok: bool)
      requires Stacked() && 1 <= snum && pg[snum - 1].Branch? && pg[snum - 1].kids != []
      requires initialized && ki[snum - 1] + 1 == |pg[snum - 1].kids| ==> snum < CURSOR_STACK
      modifies this`pg, this`ki, this`snum
      ensures Stacked() && (ok <==> old(snum) < CURSOR_STACK)
      ensures ok ==> snum == old(snum) + 1 && StepsToLast(old(pg), old(ki), old(snum), initialized, pg, ki)
    {
      var i := |pg[snum - 1].kids| - 1;
      if initialized && ki[snum - 1] == i {
        snum := snum + 1;
        return true;
      }
      ok := GoDown(i);
    }

    /** mdb_page_search with MDB_PS_LAST: as long as the stack already leads to
        the last page it is kept. */
    method DescendLast() returns (rc: Rc)
      requires Stacked() && db.Root? && Populated(db.node, db.depth) && (initialized ==> OnLeaf())
      modifies this`pg, this`ki, this`snum
      ensures Stacked() && (rc == CursorFull <==> db.depth > CURSOR_STACK) && rc != NotFound
      ensures rc == Success ==> OnLeaf() && End(db.node, pg, ki, snum - 1) == |Records(db.node)|
    {
      if initialized {
        PathPrefix(db.node, pg, ki, 0, snum - 1);
      }
      pg, snum := pg[0 := db.node], 1;
      assert initialized ==> pg == old(pg);
      while pg[snum - 1].Branch?
        invariant Stacked() && Towards(db.node, pg, ki, snum, db.depth, initialized)
        decreases db.depth - snum
      {
        ghost var pg0, ki0 := pg, ki;
        BeforeStep(db.node, pg, ki, snum, db.depth, initialized);
        var ok := DownToLast();
        if !ok {
          return CursorFull;
        }
        AfterStep(db.node, pg0, ki0, snum - 1, db.depth, initialized, pg, ki);
      }
      PathPopulated(db.node, pg, ki, snum - 1, db.depth);
      rc := Success;
    }

    /** The record under the cursor. */
    ghost predicate Shows(rec: Record)
      reads this
    {
      initialized && OnLeaf() && Position() < |Records(db.node)| && rec == Records(db.node)[Position()]
    }

    /** The key and data of the current node. */
    method Current() returns (rec: Record)
      requires Valid() && initialized && ki[snum - 1] < |pg[snum - 1].es|
      ensures Shows(rec)
    {
      LeafRecord(db.node, pg, ki, snum - 1, ki[snum - 1]);
      rec := Rec(pg[snum - 1].es[ki[snum - 1]]);
    }

    /** Set the index on the top page. */
    method SetIndex(i: nat, atEnd: bool)
      requires OnLeaf()
      modifies this`ki, this`initialized, this`eof
      ensures OnLeaf() && initialized && eof == atEnd && ki == old(ki)[snum - 1 := i]
      ensures Position() == Start(db.node, pg, old(ki), snum - 1) + i
      ensures Start(db.node, pg, ki, snum - 1) == old(Start(db.node, pg, ki, snum - 1))
    {
      ghost var was := ki;
      ki := ki[snum - 1 := i];
      initialized, eof := true, atEnd;
      assert ki[..snum - 1] == was[..snum - 1];
      StartFrame(db.node, pg, was, pg, ki, snum - 1);
    }

    /** mdb_cursor_first */
    method First() returns (rc: Rc, rec: Option<Record>)
      requires Valid()
      modifies this
      ensures Valid()
      ensures rc == NotFound <==> db.Empty?
      ensures rc == CursorFull <==> db.Root? && db.depth > CURSOR_STACK
      ensures rc == Success ==> rec.Some? && Shows(rec.value) && Position() == 0
    {
      if db.Empty? {
        return NotFound, None;
      }
      ValidIsPopulated(db.node, db.depth, Open, Open);
      if !initialized || snum > 1 {
        rc := DescendFirst();
        if rc != Success {
          return rc, None;
        }
      }
      PathPopulated(db.node, pg, ki, snum - 1, db.depth);
      SetIndex(0, false);
      var r := Current();
      return Success, Some(r);
    }

    /** mdb_cursor_last */
    method Last() returns (rc: Rc, rec: Option<Record>)
      requires Valid()
      modifies this
      ensures Valid()
      ensures rc == NotFound <==> db.Empty?
      ensures rc == CursorFull <==> db.Root? && db.depth > CURSOR_STACK
      ensures rc == Success ==> rec.Some? && Shows(rec.value)
      ensures rc == Success ==> Position() + 1 == |Records(db.node)| && ki[snum - 1] + 1 == |pg[snum - 1].es|
    {
      if db.Empty? {
        return NotFound, None;
      }
      ValidIsPopulated(db.node, db.depth, Open, Open);
      if !initialized || snum > 1 {
        rc := DescendLast();
        if rc != Success {
          return rc, None;
        }
      }
      PathPopulated(db.node, pg, ki, snum - 1, db.depth);
      SetIndex(|pg[snum - 1].es| - 1, true);
      var r := Current();
      return Success, Some(r);
    }

    /** To the next, or previous, leaf. */
    method Cross(right: bool) returns (ok: bool)
      requires OnLeaf() && Populated(db.node, db.depth)
      requires right && ki[snum - 1] + 1 != |pg[snum - 1].es| ==>
                 ki[snum - 1] == |pg[snum - 1].es| && Position() == |Records(db.node)|
      requires !right ==> ki[snum - 1] == 0
      modifies this`pg, this`ki, this`snum
      ensures OnLeaf()
      ensures ok <==> if right then old(Position()) + 1 < |Records(db.node)| else old(Position()) > 0
      ensures ok ==> Position() == old(Position()) + (if right then 1 else -1) && ki[snum - 1] < |pg[snum - 1].es|
      ensures !ok ==> pg == old(pg) && ki == old(ki) && snum == old(snum)
    {
      ghost var pg0, ki0 := pg, ki;
      RecordsBelow(db.node, pg, ki, snum - 1);
      ok := Sibling(right);
      if ok {
        Crossed(right, db.node, pg, ki, pg0, ki0, snum - 1, db.depth);
      }
    }

    /** The move of mdb_cursor_next. */
    method Forward() returns (ok: bool)
      requires Valid() && initialized
      modifies this`pg, this`ki, this`snum, this`eof, this`initialized
      ensures Valid() && initialized && (ok <==> old(Position()) + 1 < |Records(db.node)|)
      ensures ok ==> Position() == old(Position()) + 1 && ki[snum - 1] < |pg[snum - 1].es|
      ensures !ok ==> pg == old(pg) && ki == old(ki) && snum == old(snum)
    {
      ValidIsPopulated(db.node, db.depth, Open, Open);
      RecordsBelow(db.node, pg, ki, snum - 1);
      if ki[snum - 1] + 1 < |pg[snum - 1].es| {
        SetIndex(ki[snum - 1] + 1, false);
        return true;
      }
      if eof {
        return false;
      }
      ok := Cross(true);
      eof := !ok;
    }

    /** mdb_cursor_next */
    method Next() returns (rc: Rc, rec: Option<Record>)
      requires Valid()
      modifies this
      ensures Valid()
      ensures rc == Success ==> rec.Some? && Shows(rec.value)
      ensures old(initialized) ==> rc == if old(Position()) + 1 < |Records(db.node)| then Success else NotFound
      ensures old(initialized) && rc == Success ==> Position() == old(Position()) + 1
      ensures old(initialized) && rc == NotFound ==> initialized && pg == old(pg) && ki == old(ki) && snum == old(snum)
      ensures !old(initialized) ==>
                rc == if db.Empty? then NotFound else if db.depth > CURSOR_STACK then CursorFull else Success
      ensures !old(initialized) && rc == Success ==> Position() == 0
    {
      if !initialized {
        rc, rec := First();
        return;
      }
      var ok := Forward();
      if !ok {
        return NotFound, None;
      }
      var r := Current();
      return Success, Some(r);
    }

    /** The move of mdb_cursor_prev. */
    method Backward() returns (ok: bool)
      requires OnLeaf() && ValidDatabase(db) && initialized && ki[snum - 1] <= |pg[snum - 1].es|
      modifies this`pg, this`ki, this`snum, this`eof, this`initialized
      ensures OnLeaf() && initialized && !eof && (ok <==> old(Position()) > 0)
      ensures ok ==> Position() == old(Position()) - 1 && ki[snum - 1] < |pg[snum - 1].es|
      ensures !ok ==> pg == old(pg) && ki == old(ki) && snum == old(snum)
    {
      ValidIsPopulated(db.node, db.depth, Open, Open);
      eof := false;
      if ki[snum - 1] > 0 {
        SetIndex(ki[snum - 1] - 1, false);
        return true;
      }
      ok := Cross(false);
    }

    /** mdb_cursor_prev */
    method Prev() returns (rc: Rc, rec: Option<Record>)
      requires Valid()
      modifies this
      ensures Valid()
      ensures rc == Success ==> rec.Some? && Shows(rec.value)
      ensures old(initialized) ==> rc == if old(Position()) > 0 then Success else NotFound
      ensures old(initialized) && rc == Success ==> Position() == old(Position()) - 1
      ensures old(initialized) && rc == NotFound ==> initialized && pg == old(pg) && ki == old(ki) && snum == old(snum)
      ensures !old(initialized) ==>
                rc == if db.Empty? then NotFound else if db.depth > CURSOR_STACK then CursorFull else Success
      ensures !old(initialized) && rc == Success ==> Position() + 1 == |Records(db.node)|
    {
      if !initialized {
        rc, rec := Last();
        if rc != Success {
          return;
        }
        SetIndex(ki[snum - 1] + 1, true);
      }
      var ok := Backward();
      if !ok {
        return NotFound, None;
      }
      var r := Current();
      return Success, Some(r);
    }

    /** One step of mdb_page_search_root for a key. */
    method DownToKey(r: int) returns (ok: bool)
      requires Stacked() && 1 <= snum && Searchable(pg[snum - 1])
      modifies this`pg, this`ki, this`snum
      ensures Stacked() && (ok <==> old(snum) < CURSOR_STACK)
      ensures ok ==> snum == old(snum) + 1 && StepsToKey(old(pg), old(ki), old(snum), r, pg, ki)
    {
      var i := FollowIndex(pg[snum - 1].keys, r);
      ok := GoDown(i);
    }

    /** The same step, with what is known about the key. */
    method KeyTurn(r: int, ghost d: nat, ghost lo: Bound, ghost hi: Bound)
      returns (ok: bool, ghost lo': Bound, ghost hi': Bound)
      requires Stacked() && db.Root? && TowardsKey(db.node, pg, ki, snum, r, d, lo, hi) && pg[snum - 1].Branch?
      modifies this`pg, this`ki, this`snum
      ensures Stacked() && d > 1 && (ok <==> old(snum) < CURSOR_STACK)
      ensures ok ==> snum == old(snum) + 1 && TowardsKey(db.node, pg, ki, snum, r, d - 1, lo', hi')
    {
      ghost var pg0, ki0 := pg, ki;
      lo', hi' := lo, hi;
      KeyPage(db.node, pg, ki, snum, r, d, lo, hi);
      ok := DownToKey(r);
      if ok {
        lo', hi' := AfterKeyStep(db.node, pg0, ki0, snum - 1, r, d, lo, hi, pg, ki);
      }
    }

    /** mdb_page_search for a key */
    method DescendKey(r: int) returns (rc: Rc)
      requires Stacked() && ValidDatabase(db) && db.Root?
      modifies this`pg, this`ki, this`snum
      ensures Stacked() && (rc == CursorFull <==> db.depth > CURSOR_STACK) && rc != NotFound
      ensures rc == Success ==> OnLeaf() && Rank(db.node, r) == Start(db.node, pg, ki, snum - 1) + Rank(pg[snum - 1], r)
    {
      pg, snum := pg[0 := db.node], 1;
      ghost var d: nat, lo, hi := db.depth, Open, Open;
      KeyFromRoot(db.node, pg, ki, r, d);
      var ok := true;
      while ok && pg[snum - 1].Branch?
        invariant Stacked() && (ok ==> TowardsKey(db.node, pg, ki, snum, r, d, lo, hi) && d + snum == db.depth + 1)
        invariant !ok ==> db.depth > CURSOR_STACK
        decreases d, ok
      {
        ok, lo, hi := KeyTurn(r, d, lo, hi);
        d := d - 1;
      }
      if !ok {
        return CursorFull;
      }
      KeyPage(db.node, pg, ki, snum, r, d, lo, hi);
      rc := Success;
    }

    /** mdb_cursor_set, when the current page settles the matter. */
    method Glance(r: int) returns (w: Where)
      requires OnLeaf() && pg[snum - 1].es != [] && Ordered(Records(db.node), Open, Open)
      ensures w.Here? ==> w.i < |pg[snum - 1].es| && Rank(db.node, r) == Start(db.node, pg, ki, snum - 1) + w.i
      ensures w.Above? ==> Rank(db.node, r) == |Records(db.node)| == End(db.node, pg, ki, snum - 1)
    {
      LeafAscending(db.node, pg, ki, snum - 1);
      w := OnPage(pg[snum - 1].es, ki[snum - 1], r, snum == 1);
      if w.Here? {
        RankOnLeaf(db.node, pg, ki, snum - 1, r, w.i);
      } else if w.Above? {
        var more := HasRightSibling(db.node, pg, ki, snum - 1);
        if more {
          return Elsewhere;
        }
        RankAtEnd(db.node, pg, ki, snum - 1, r);
      }
    }

    /** Behind the last record of a leaf: on to the next leaf, if any. */
    method Overrun() returns (ok: bool)
      requires OnLeaf() && Populated(db.node, db.depth) && ki[snum - 1] == |pg[snum - 1].es|
      modifies this`pg, this`ki, this`snum
      ensures OnLeaf() && Position() == old(Position())
      ensures ok <==> Position() < |Records(db.node)|
      ensures ok ==> ki[snum - 1] < |pg[snum - 1].es|
      ensures !ok ==> Position() == |Records(db.node)| && ki[snum - 1] == |pg[snum - 1].es|
    {
      ghost var pg0, ki0 := pg, ki;
      RecordsBelow(db.node, pg, ki, snum - 1);
      ok := Sibling(true);
      if ok {
        Entered(db.node, pg, ki, pg0, ki0, snum - 1, db.depth);
      }
      RecordsBelow(db.node, pg, ki, snum - 1);
    }

    /** mdb_node_search on the leaf. */
    method FindOnLeaf(r: int)
      requires OnLeaf() && Ordered(Records(db.node), Open, Open)
      requires Rank(db.node, r) == Start(db.node, pg, ki, snum - 1) + Rank(pg[snum - 1], r)
      modifies this`ki, this`initialized, this`eof
      ensures OnLeaf() && initialized && !eof && Position() == Rank(db.node, r) && ki[snum - 1] <= |pg[snum - 1].es|
    {
      var i := LeafSearch(db.node, pg, ki, snum - 1, r);
      SetIndex(i, false);
    }

    /** The second part of mdb_cursor_set: search from the root, then the leaf,
        then its right neighbour. */
    method Seek(r: int) returns (rc: Rc)
      requires Stacked() && ValidDatabase(db) && db.Root? && Populated(db.node, db.depth)
               && Ordered(Records(db.node), Open, Open)
      modifies this
      ensures Stacked() && (rc == CursorFull <==> db.depth > CURSOR_STACK)
              && (rc == CursorFull ==> initialized == old(initialized))
      ensures rc != CursorFull ==> Valid() && initialized && Position() == Rank(db.node, r)
      ensures rc == Success ==> ki[snum - 1] < |pg[snum - 1].es|
      ensures rc == NotFound ==> Rank(db.node, r) == |Records(db.node)|
    {
      rc := DescendKey(r);
      if rc == CursorFull {
        return;
      }
      FindOnLeaf(r);
      if ki[snum - 1] >= |pg[snum - 1].es| {
        var ok := Overrun();
        if !ok {
          eof := true;
          return NotFound;
        }
      }
    }

    /** The first part of mdb_cursor_set. */
    method SettleHere(r: int) returns (settled: bool, rc: Rc)
      requires Valid() && initialized && Populated(db.node, db.depth) && Ordered(Records(db.node), Open, Open)
      modifies this`ki, this`initialized, this`eof
      ensures Valid() && initialized && rc != CursorFull && (settled ==> Position() == Rank(db.node, r))
      ensures settled && rc == Success ==> ki[snum - 1] < |pg[snum - 1].es|
      ensures settled && rc == NotFound ==> Rank(db.node, r) == |Records(db.node)|
    {
      PathPopulated(db.node, pg, ki, snum - 1, db.depth);
      var w := Glance(r);
      settled, rc := !w.Elsewhere?, if w.Above? then NotFound else Success;
      if settled {
        SetIndex(if w.Above? then |pg[snum - 1].es| else w.i, w.Above? && eof);
      }
    }

    /** mdb_cursor_set with MDB_SET_RANGE: the first record not below r.  The
        result does not depend on where the cursor was. */
    method SetRange(r: int) returns (rc: Rc, rec: Option<Record>)
      requires Valid()
      modifies this
      ensures Valid()
      ensures rc == if db.Empty? then NotFound else if db.depth > CURSOR_STACK then CursorFull
                    else if Rank(db.node, r) < |Records(db.node)| then Success else NotFound
      ensures rc == Success ==> rec.Some? && Shows(rec.value) && Position() == Rank(db.node, r)
      ensures rc == NotFound && db.Root? ==> initialized && Position() == |Records(db.node)|
    {
      if db.Empty? {
        return NotFound, None;
      }
      ValidIsPopulated(db.node, db.depth, Open, Open);
      ShapeOrdered(db.node, db.depth, Open, Open);
      var settled := false;
      if initialized {
        settled, rc := SettleHere(r);
      }
      if !settled {
        rc := Seek(r);
      }
      if rc != Success {
        return rc, None;
      }
      var found := Current();
      return Success, Some(found);
    }
  }

  // ----- whole scans -----

  /** MDB_FIRST and then MDB_NEXT to the end: every record once, in order. */
  method Scan(db: Database) returns (rs: seq<Record>, done: bool)
    requires ValidDatabase(db)
    ensures done <==> db.Empty? || db.depth <= CURSOR_STACK
    ensures done ==> rs == Contents(db)
  {
    var c := new Cursor(db);
    rs := [];
    var rc, rec := c.First();
    if rc != Success {
      return [], db.Empty?;
    }
    rs := [rec.value];
    while rc == Success
      invariant c.Valid() && c.initialized && c.db == db && fresh(c) && rc != CursorFull
      invariant c.Position() + 1 == |rs| <= |Records(db.node)| && rs == Records(db.node)[..|rs|]
      invariant rc == NotFound ==> |rs| == |Records(db.node)|
      decreases |Records(db.node)| - |rs|, rc == Success
    {
      rc, rec := c.Next();
      if rc == Success {
        rs := rs + [rec.value];
      }
    }
    done := true;
  }

  /** MDB_PREV from a new cursor to the beginning: every record once, in reverse. */
  method ScanBack(db: Database) returns (rs: seq<Record>, done: bool)
    requires ValidDatabase(db)
    ensures done <==> db.Empty? || db.depth <= CURSOR_STACK
    ensures done ==> |rs| == |Contents(db)| && forall i :: 0 <= i < |rs| ==> rs[i] == Contents(db)[|rs| - 1 - i]
  {
    var c := new Cursor(db);
    rs := [];
    var rc, rec := c.Prev();
    if rc != Success {
      return [], db.Empty?;
    }
    rs := [rec.value];
    while rc == Success
      invariant c.Valid() && c.initialized && c.db == db && fresh(c) && rc != CursorFull
      invariant c.Position() + |rs| == |Records(db.node)|
      invariant forall i :: 0 <= i < |rs| ==> rs[i] == Records(db.node)[|Records(db.node)| - 1 - i]
      invariant rc == NotFound ==> |rs| == |Records(db.node)|
      decreases |Records(db.node)| - |rs|, rc == Success
    {
      rc, rec := c.Prev();
      if rc == Success {
        rs := rs + [rec.value];
      }
    }
    done := true;
  }
}
