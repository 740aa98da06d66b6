/** What happens to a put, told from the pages on its search path alone: the keys
    and node sizes of the leaf, and of every branch above it the keys and the
    child that was followed. */
module PutPath {
  import opened Basics
  import opened SplitPoint
  import opened Tree
  import opened TreePut

  /** What a page passes to the one above: nothing, the separator of a split, or
      MDB_PAGE_FULL. */
  datatype Rise = Stays | Rises(sep: Key) | Jam

  /** A branch on the path. */
  datatype Level = Level(keys: seq<Key>, slot: nat)

  function RiseOf(res: PutResult): Rise {
    match res
    case Done(_) => Stays
    case Split(_, sep, _) => Rises(sep)
    case Full(_, _, _) => Jam
  }

  /** A page whose nodes have these sizes and keys, the one at p being new. */
  ghost function PageRise(sizes: seq<nat>, keys: seq<Key>, p: nat, isLeaf: bool): Rise
    requires |sizes| == |keys|
  {
    if !Overfull(sizes, p, isLeaf, pmax, KEYLESS) then Stays
    else if ShortcutMisfit(sizes, p, isLeaf) then Jam
    else
      SplitIndexInside(sizes, p, isLeaf);
      Rises(keys[SplitIndex(sizes, p, isLeaf, pmax)])
  }

  function EntryKeys(es: seq<Entry>): seq<Key> {
    seq(|es|, i requires 0 <= i < |es| => es[i].key)
  }

  ghost function EntryRise(es: seq<Entry>, e: Entry, p: nat, append: bool): Rise
    requires p <= |es|
  {
    var all := WithNew(es, e, p);
    if append then if Sum(LeafSizes(all)) <= pmax then Stays else Rises(e.key)
    else PageRise(LeafSizes(all), EntryKeys(all), p, true)
  }

  ghost function LeafRise(es: seq<Entry>, key: Key, v: Val, append: bool, reuse: bool): Rise {
    var p := LowerBound(EntryRanks(es), key.rank);
    if p < |es| && es[p].key.rank == key.rank then
      if (if es[p].big then reuse else |es[p].val| == |v|) then Stays
      else EntryRise(Dropped(es, p), NewEntry(key, v), p, false)
    else EntryRise(es, NewEntry(key, v), p, append)
  }

  ghost function LevelRise(l: Level, below: Rise): Rise {
    if below.Rises? && l.slot < |l.keys| then
      var keys := WithNew(l.keys, below.sep, l.slot + 1);
      PageRise(BranchSizes(keys), keys, l.slot + 1, false)
    else below
  }

  /** From the leaf up to the root, which is the first level. */
  ghost function Climb(path: seq<Level>, below: Rise): Rise {
    if path == [] then below else LevelRise(path[0], Climb(path[1..], below))
  }

  /** The branches a search follows. */
  function PathTo(n: Node, r: int, append: bool): seq<Level> {
    match n
    case Leaf(_) => []
    case Branch(keys, kids) =>
      if |keys| != |kids| || keys == [] then []
      else
        var i := Slot(keys, r, append);
        [Level(keys, i)] + if i < |kids| then PathTo(kids[i], r, append) else []
  }

  /** The entries of the leaf it ends in. */
  function LeafAt(n: Node, r: int, append: bool): seq<Entry> {
    match n
    case Leaf(es) => es
    case Branch(keys, kids) =>
      if |keys| != |kids| || keys == [] then []
      else
        var i := Slot(keys, r, append);
        if i < |kids| then LeafAt(kids[i], r, append) else []
  }

  /** The page picks the split point, and both halves fit or not. */
  lemma {:induction false} SplitRise(sizes: seq<nat>, keys: seq<Key>, p: nat, isLeaf: bool)
    requires |sizes| == |keys| && Overfull(sizes, p, isLeaf, pmax, KEYLESS)
    ensures |sizes| >= 3 && 1 <= SplitIndex(sizes, p, isLeaf, pmax) < |sizes|
    ensures var k := SplitIndex(sizes, p, isLeaf, pmax);
            PageRise(sizes, keys, p, isLeaf)
            == if Sum(sizes[..k]) <= pmax && RightBytes(sizes, k, isLeaf, KEYLESS) <= pmax then Rises(keys[k]) else Jam
  {
    SplitFits(sizes, p, isLeaf);
  }

  lemma {:induction false} SplitLeafRises(es: seq<Entry>, e: Entry, p: nat, lo: Bound, hi: Bound)
    requires EntriesOk(es, lo, hi) && EntryOk(e) && p <= |es|
    requires Sum(LeafSizes(es)) <= pmax < Sum(LeafSizes(es)) + EntryBytes(e)
    ensures RiseOf(SplitLeaf(es, e, p, false, lo, hi)) == EntryRise(es, e, p, false)
  {
    LeafOverfull(es, e, p, lo, hi);
    SplitRise(LeafSizes(WithNew(es, e, p)), EntryKeys(WithNew(es, e, p)), p, true);
  }

  lemma {:induction false} AppendRises(es: seq<Entry>, e: Entry, lo: Bound, hi: Bound)
    requires EntriesOk(es, lo, hi) && EntryOk(e)
    requires Sum(LeafSizes(es)) <= pmax < Sum(LeafSizes(es)) + EntryBytes(e)
    ensures RiseOf(SplitLeaf(es, e, |es|, true, lo, hi)) == Rises(e.key)
  {
    AppendedFits(es, e);
  }

  lemma {:induction false} EntryRises(es: seq<Entry>, e: Entry, p: nat, append: bool, lo: Bound, hi: Bound)
    requires EntriesOk(es, lo, hi) && EntryOk(e) && p <= |es| && (append ==> p == |es|)
    requires Sum(LeafSizes(es)) <= pmax
    ensures RiseOf(AddToLeaf(es, e, p, append, lo, hi)) == EntryRise(es, e, p, append)
  {
    LeafSizesWithNew(es, e, p);
    if Sum(LeafSizes(es)) + EntryBytes(e) > pmax {
      if append {
        AppendRises(es, e, lo, hi);
      } else {
        SplitLeafRises(es, e, p, lo, hi);
      }
    }
  }

  lemma {:induction false} LeafRises(es: seq<Entry>, key: Key, v: Val, append: bool, reuse: bool, lo: Bound, hi: Bound)
    requires EntriesOk(es, lo, hi) && Sum(LeafSizes(es)) <= pmax && KeyOk(key)
    requires append ==> AllBelow(Recs(es), key.rank)
    ensures RiseOf(PutInLeaf(es, key, v, append, reuse, lo, hi)) == LeafRise(es, key, v, append, reuse)
  {
    var p := LowerBound(EntryRanks(es), key.rank);
    if p < |es| && es[p].key.rank == key.rank {
      FoundRises(es, key, v, append, reuse, lo, hi);
    } else {
      NotFoundRises(es, key, v, append, reuse, lo, hi);
    }
  }

  lemma {:induction false} FoundRises(es: seq<Entry>, key: Key, v: Val, append: bool, reuse: bool, lo: Bound, hi: Bound)
    requires EntriesOk(es, lo, hi) && Sum(LeafSizes(es)) <= pmax && KeyOk(key)
    requires append ==> AllBelow(Recs(es), key.rank)
    requires var p := LowerBound(EntryRanks(es), key.rank); p < |es| && es[p].key.rank == key.rank
    ensures RiseOf(PutInLeaf(es, key, v, append, reuse, lo, hi)) == LeafRise(es, key, v, append, reuse)
  {
    var p := LowerBound(EntryRanks(es), key.rank);
    DroppedOk(es, p, lo, hi);
    EntryRises(Dropped(es, p), NewEntry(key, v), p, false, lo, hi);
  }

  lemma {:induction false} NotFoundRises(es: seq<Entry>, key: Key, v: Val, append: bool, reuse: bool, lo: Bound,
                                         hi: Bound)
    requires EntriesOk(es, lo, hi) && Sum(LeafSizes(es)) <= pmax && KeyOk(key)
    requires append ==> AllBelow(Recs(es), key.rank)
    requires var p := LowerBound(EntryRanks(es), key.rank); !(p < |es| && es[p].key.rank == key.rank)
    ensures RiseOf(PutInLeaf(es, key, v, append, reuse, lo, hi)) == LeafRise(es, key, v, append, reuse)
  {
    var p := LowerBound(EntryRanks(es), key.rank);
    AppendsLast(es, key.rank);
    EntryRises(es, NewEntry(key, v), p, append, lo, hi);
  }

  lemma {:induction false} BranchRises(keys: seq<Key>, kids: seq<Node>, p: nat)
    requires |keys| == |kids|
    requires Sum(BranchSizes(keys)) > pmax ==> Overfull(BranchSizes(keys), p, false, pmax, KEYLESS)
    ensures RiseOf(PlaceBranch(keys, kids, p)) == PageRise(BranchSizes(keys), keys, p, false)
  {
    if Sum(BranchSizes(keys)) > pmax {
      SplitRise(BranchSizes(keys), keys, p, false);
    }
  }

  lemma {:induction false} LevelRises(keys: seq<Key>, kids: seq<Node>, i: nat, res: PutResult, lo: Bound, hi: Bound)
    requires |keys| == |kids| && KeysOk(keys, lo, hi) && i < |keys| && Sum(BranchSizes(keys)) <= pmax
    requires res.Split? ==> KeyOk(res.sep)
    ensures RiseOf(Absorb(keys, kids, i, res, lo, hi)) == LevelRise(Level(keys, i), RiseOf(res))
  {
    if res.Split? {
      BranchOverfull(keys, res.sep, i + 1, lo, hi);
      BranchRises(WithNew(keys, res.sep, i + 1), WithNew(kids[i := res.left], res.right, i + 1), i + 1);
    }
  }

  /** Put passes up what the climb over its search path says. */
  lemma {:induction false} PutClimbs(n: Node, key: Key, v: Val, append: bool, reuse: bool, d: nat, lo: Bound, hi: Bound)
    requires Valid(n, d, lo, hi) && KeyOk(key) && InBounds(key.rank, lo, hi)
    requires append ==> AllBelow(Records(n), key.rank)
    ensures RiseOf(Put(n, key, v, append, reuse, d, lo, hi))
            == Climb(PathTo(n, key.rank, append), LeafRise(LeafAt(n, key.rank, append), key, v, append, reuse))
    decreases d
  {
    match n
    case Leaf(es) =>
      assert Shape(n, d, lo, hi);
      LeafRises(es, key, v, append, reuse, lo, hi);
    case Branch(keys, kids) =>
      PutUnfolds(keys, kids, key, v, append, reuse, d, lo, hi);
      var i := Slot(keys, key.rank, append);
      var below, above := Fence(keys, i, lo, hi), Fence(keys, i + 1, lo, hi);
      PutClimbs(kids[i], key, v, append, reuse, d - 1, below, above);
      LevelRises(keys, kids, i, Put(kids[i], key, v, append, reuse, d - 1, below, above), lo, hi);
      var path := PathTo(n, key.rank, append);
      assert path[0] == Level(keys, i) && path[1..] == PathTo(kids[i], key.rank, append);
  }

  /** Exactly when a put reports MDB_PAGE_FULL, and exactly when the tree becomes
      one level deeper. */
  lemma {:induction false} PutByPath(t: Database, key: Key, v: Val, append: bool, reuse: bool)
    requires ValidDatabase(t) && t.Root? && KeyOk(key) && (append ==> AllBelow(Contents(t), key.rank))
    ensures var rise := Climb(PathTo(t.node, key.rank, append),
                              LeafRise(LeafAt(t.node, key.rank, append), key, v, append, reuse));
            var out := PutOutcome(t, key, v, append, reuse);
            && (out.PageFull? <==> rise == Jam)
            && (out.Stored? ==> out.db.Root? && out.db.depth == t.depth + if rise.Rises? then 1 else 0)
  {
    PutClimbs(t.node, key, v, append, reuse, t.depth, Open, Open);
  }

  // ----- where pages are split -----

  /** A leaf is split where the sizes say, an appended record is alone in its page. */
  lemma {:induction false} LeafSplitsThere(es: seq<Entry>, e: Entry, p: nat, append: bool, lo: Bound, hi: Bound)
    requires EntriesOk(es, lo, hi) && EntryOk(e) && p <= |es| && (append ==> p == |es|)
    requires Sum(LeafSizes(es)) <= pmax < Sum(LeafSizes(es)) + EntryBytes(e)
    requires SplitLeaf(es, e, p, append, lo, hi).Split?
    ensures var Split(left, sep, right) := SplitLeaf(es, e, p, append, lo, hi);
            && left.Leaf? && right.Leaf? && left.es + right.es == WithNew(es, e, p) && right.es != []
            && sep == right.es[0].key
            && var sizes := LeafSizes(WithNew(es, e, p));
               |sizes| >= 3 && if append then left.es == es else IsSplit(sizes, p, true, pmax, |left.es|)
  {
    LeafOverfull(es, e, p, lo, hi);
    var sizes := LeafSizes(WithNew(es, e, p));
    SplitIndexInside(sizes, p, true);
    SplitIndexIs(sizes, p, true, pmax);
  }

  /** So is a branch; the first key of its right half goes up. */
  lemma {:induction false} BranchSplitsThere(keys: seq<Key>, kids: seq<Node>, p: nat)
    requires |keys| == |kids| && Overfull(BranchSizes(keys), p, false, pmax, KEYLESS)
    requires SplitBranch(keys, kids, p).Split?
    ensures var Split(left, sep, right) := SplitBranch(keys, kids, p);
            && left.Branch? && right.Branch? && right.keys != [] && right.keys[0] == NoKey
            && left.kids + right.kids == kids && left.keys + [sep] + right.keys[1..] == keys
            && |keys| >= 3 && IsSplit(BranchSizes(keys), p, false, pmax, |left.kids|)
  {
    SplitIndexInside(BranchSizes(keys), p, false);
    SplitIndexIs(BranchSizes(keys), p, false, pmax);
  }
}
