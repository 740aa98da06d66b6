/** Storing a record: mdb_cursor_put, mdb_page_split and mdb_node_add on page
    values. */
module TreePut {
  import opened Layout
  import opened Basics
  import opened SplitPoint
  import opened Tree

  /** What a put makes of a subtree.  `Full` is MDB_PAGE_FULL, with the page
      that was being split. */
  datatype PutResult =
    | Done(node: Node)
    | Split(left: Node, sep: Key, right: Node)
    | Full(sizes: seq<nat>, newindx: nat, isLeaf: bool)

  // ----- page sizes -----

  lemma {:induction false} SumWithNew(sizes: seq<nat>, size: nat, p: nat)
    requires p <= |sizes|
    ensures Sum(WithNew(sizes, size, p)) == Sum(sizes) + size
    ensures WithNew(sizes, size, p)[p] == size
  {
    SumAppend(sizes[..p] + [size], sizes[p..]);
    SumAppend(sizes[..p], [size]);
    SumSplit(sizes, p);
    assert [size][..0] == [];
  }

  lemma {:induction false} LeafSizesWithNew(es: seq<Entry>, e: Entry, p: nat)
    requires p <= |es|
    ensures LeafSizes(WithNew(es, e, p)) == WithNew(LeafSizes(es), EntryBytes(e), p)
    ensures Sum(LeafSizes(WithNew(es, e, p))) == Sum(LeafSizes(es)) + EntryBytes(e)
  {
    SumWithNew(LeafSizes(es), EntryBytes(e), p);
  }

  lemma {:induction false} BranchSizesWithNew(keys: seq<Key>, key: Key, p: nat)
    requires p <= |keys|
    ensures BranchSizes(WithNew(keys, key, p)) == WithNew(BranchSizes(keys), KeyBytes(key), p)
    ensures Sum(BranchSizes(WithNew(keys, key, p))) == Sum(BranchSizes(keys)) + KeyBytes(key)
  {
    SumWithNew(BranchSizes(keys), KeyBytes(key), p);
  }

  /** A node never takes more than half a page, a branch node a quarter. */
  lemma {:induction false} EntryFits(e: Entry)
    requires EntryOk(e)
    ensures 2 * EntryBytes(e) <= pmax
  {
  }

  lemma {:induction false} KeyFits(k: Key)
    requires KeyOk(k) || k == NoKey
    ensures KEYLESS <= KeyBytes(k) && 4 * KeyBytes(k) <= pmax
  {
  }

  /** A leaf that cannot take the new entry is overfull with it. */
  lemma {:induction false} LeafOverfull(es: seq<Entry>, e: Entry, p: nat, lo: Bound, hi: Bound)
    requires EntriesOk(es, lo, hi) && EntryOk(e) && p <= |es|
    requires Sum(LeafSizes(es)) <= pmax < Sum(LeafSizes(es)) + EntryBytes(e)
    ensures Overfull(LeafSizes(WithNew(es, e, p)), p, true, pmax, KEYLESS)
    ensures |es| >= 2
  {
    LeafSizesWithNew(es, e, p);
    HalfPages(es, e, p, lo, hi);
    assert WithNew(es, e, p)[p] == e;
    OverfullIsLong(LeafSizes(WithNew(es, e, p)), p, true, pmax, KEYLESS);
  }

  lemma {:induction false} HalfPages(es: seq<Entry>, e: Entry, p: nat, lo: Bound, hi: Bound)
    requires EntriesOk(es, lo, hi) && EntryOk(e) && p <= |es|
    ensures forall i :: 0 <= i <= |es| ==> 2 * LeafSizes(WithNew(es, e, p))[i] <= pmax
  {
    var all := WithNew(es, e, p);
    forall i | 0 <= i < |all| ensures 2 * LeafSizes(all)[i] <= pmax {
      assert all[i] == if i < p then es[i] else if i == p then e else es[i - 1];
      EntryFits(all[i]);
    }
  }

  lemma {:induction false} BranchOverfull(keys: seq<Key>, key: Key, p: nat, lo: Bound, hi: Bound)
    requires KeysOk(keys, lo, hi) && KeyOk(key) && 1 <= p <= |keys|
    requires Sum(BranchSizes(keys)) <= pmax
    ensures var sizes := BranchSizes(WithNew(keys, key, p));
            Sum(sizes) > pmax ==> Overfull(sizes, p, false, pmax, KEYLESS)
  {
    var all := WithNew(keys, key, p);
    BranchSizesWithNew(keys, key, p);
    assert all[p] == key && all[0] == NoKey;
    forall i | 0 <= i < |all| ensures KEYLESS <= BranchSizes(all)[i] && 4 * BranchSizes(all)[i] <= pmax {
      KeyFits(all[i]);
    }
  }

  lemma {:induction false} SplitIndexInside(sizes: seq<nat>, newindx: nat, isLeaf: bool)
    requires Overfull(sizes, newindx, isLeaf, pmax, KEYLESS)
    ensures |sizes| >= 3 && 1 <= SplitIndex(sizes, newindx, isLeaf, pmax) < |sizes|
  {
    OverfullIsLong(sizes, newindx, isLeaf, pmax, KEYLESS);
    if Searches(sizes, newindx, pmax) {
      SearchedSplitFits(sizes, newindx, isLeaf, pmax, KEYLESS);
    }
  }

  // ----- leaves -----

  /** Split a leaf; `append` is MDB_APPEND, which moves nothing. */
  function SplitLeaf(es: seq<Entry>, e: Entry, p: nat, append: bool, ghost lo: Bound, ghost hi: Bound): PutResult
    requires EntriesOk(es, lo, hi) && EntryOk(e) && p <= |es| && (append ==> p == |es|)
    requires Sum(LeafSizes(es)) <= pmax < Sum(LeafSizes(es)) + EntryBytes(e)
  {
    LeafOverfull(es, e, p, lo, hi);
    var all := WithNew(es, e, p);
    var sizes := LeafSizes(all);
    SplitIndexInside(sizes, p, true);
    var k := if append then p else SplitIndex(sizes, p, true, pmax);
    if Sum(sizes[..k]) <= pmax && Sum(sizes[k..]) <= pmax
    then Split(Leaf(all[..k]), all[k].key, Leaf(all[k..]))
    else Full(sizes, p, true)
  }

  /** Add an entry at position p. */
  function AddToLeaf(es: seq<Entry>, e: Entry, p: nat, append: bool, ghost lo: Bound, ghost hi: Bound): PutResult
    requires EntriesOk(es, lo, hi) && EntryOk(e) && p <= |es| && (append ==> p == |es|)
    requires Sum(LeafSizes(es)) <= pmax
  {
    if Sum(LeafSizes(es)) + EntryBytes(e) <= pmax then Done(Leaf(WithNew(es, e, p)))
    else SplitLeaf(es, e, p, append, lo, hi)
  }

  /** Data that does not fit a node goes to overflow pages. */
  function NewEntry(key: Key, v: Val): Entry {
    Entry(key, v, NODESIZE + key.size + |v| > nodeMax)
  }

  /** Data goes to overflow pages if and only if two such nodes would not fit a page. */
  lemma {:induction false} OverflowIff(key: Key, v: Val)
    ensures var e := NewEntry(key, v);
            && e.key == key && e.val == v
            && (e.big <==> 2 * (Even(NODESIZE + key.size + |v|) + 2) > pmax)
  {
    var size := NODESIZE + key.size + |v|;
    assert pmax == 4 * (pmax / 4);
    assert Even(size) > nodeMax <==> size > nodeMax;
  }

  /** Store in a leaf.  `reuse`: the old data is on overflow pages that are
      dirty in this transaction and long enough for the new data. */
  function PutInLeaf(es: seq<Entry>, key: Key, v: Val, append: bool, reuse: bool, ghost lo: Bound,
                     ghost hi: Bound): PutResult
    requires EntriesOk(es, lo, hi) && Sum(LeafSizes(es)) <= pmax && KeyOk(key)
    requires append ==> AllBelow(Recs(es), key.rank)
  {
    var p := LowerBound(EntryRanks(es), key.rank);
    if p < |es| && es[p].key.rank == key.rank then
      var was := es[p];
      if (if was.big then reuse else |was.val| == |v|) then Done(Leaf(es[p := was.(val := v)]))
      else
        DroppedOk(es, p, lo, hi);
        AddToLeaf(Dropped(es, p), NewEntry(key, v), p, false, lo, hi)
    else
      AppendsLast(es, key.rank);
      AddToLeaf(es, NewEntry(key, v), p, append, lo, hi)
  }

  lemma {:induction false} AppendsLast(es: seq<Entry>, r: int)
    ensures AllBelow(Recs(es), r) ==> LowerBound(EntryRanks(es), r) == |es|
  {
    var p := LowerBound(EntryRanks(es), r);
    assert p < |es| ==> EntryRanks(es)[p] == Recs(es)[p].rank;
  }

  lemma {:induction false} DroppedOk(es: seq<Entry>, p: nat, lo: Bound, hi: Bound)
    requires EntriesOk(es, lo, hi) && p < |es|
    ensures EntriesOk(Dropped(es, p), lo, hi)
    ensures Sum(LeafSizes(es)) == Sum(LeafSizes(Dropped(es, p))) + EntryBytes(es[p])
  {
    DroppedSizes(es, p);
  }

  lemma {:induction false} DroppedSizes(es: seq<Entry>, p: nat)
    requires p < |es|
    ensures Sum(LeafSizes(es)) == Sum(LeafSizes(Dropped(es, p))) + EntryBytes(es[p])
  {
    assert es == WithNew(Dropped(es, p), es[p], p);
    LeafSizesWithNew(Dropped(es, p), es[p], p);
  }

  /** What a put promises: the contents with the record stored, in valid pages;
      a failure can only come from the shortcut of the split. */
  ghost predicate PutGood(res: PutResult, rs: seq<Record>, d: nat, lo: Bound, hi: Bound) {
    match res
    case Done(n) => Valid(n, d, lo, hi) && Records(n) == rs
    case Split(l, s, rt) =>
      && KeyOk(s) && InBounds(s.rank, lo, hi) && lo != At(s.rank)
      && Valid(l, d, lo, At(s.rank)) && Valid(rt, d, At(s.rank), hi) && Records(l) + Records(rt) == rs
    case Full(sizes, newindx, isLeaf) => ShortcutMisfit(sizes, newindx, isLeaf)
  }

  /** The page is split in the middle without looking at the sizes, and the new
      node's half does not fit. */
  ghost predicate ShortcutMisfit(sizes: seq<nat>, newindx: nat, isLeaf: bool) {
    && Overfull(sizes, newindx, isLeaf, pmax, KEYLESS)
    && |sizes| >= 33 && 16 * sizes[newindx] <= pmax && newindx + 1 < |sizes|
    && !GoodSplit(sizes, |sizes| / 2, isLeaf, pmax, KEYLESS)
  }

  lemma {:induction false} MisfitIs(sizes: seq<nat>, newindx: nat, isLeaf: bool)
    requires Overfull(sizes, newindx, isLeaf, pmax, KEYLESS)
    ensures ShortcutMisfit(sizes, newindx, isLeaf)
            <==> !Searches(sizes, newindx, pmax) && !ShortcutFits(sizes, newindx, isLeaf, pmax, KEYLESS)
  {
    if !Searches(sizes, newindx, pmax) {
      ShortcutSplitFits(sizes, newindx, isLeaf, pmax, KEYLESS);
    }
  }

  lemma {:induction false} WithNewOk(es: seq<Entry>, e: Entry, p: nat, lo: Bound, hi: Bound)
    requires EntriesOk(es, lo, hi) && EntryOk(e) && InBounds(e.key.rank, lo, hi) && p <= |es|
    requires forall i :: 0 <= i < p ==> es[i].key.rank < e.key.rank
    requires forall i :: p <= i < |es| ==> es[i].key.rank > e.key.rank
    ensures EntriesOk(WithNew(es, e, p), lo, hi)
    ensures Recs(WithNew(es, e, p)) == WithNew(Recs(es), Rec(e), p)
  {
  }

  lemma {:induction false} LeafSizesSlice(all: seq<Entry>, k: nat)
    requires k <= |all|
    ensures LeafSizes(all)[..k] == LeafSizes(all[..k]) && LeafSizes(all)[k..] == LeafSizes(all[k..])
    ensures Recs(all[..k]) + Recs(all[k..]) == Recs(all)
  {
  }

  lemma {:induction false} EntriesSlice(all: seq<Entry>, k: nat, lo: Bound, hi: Bound)
    requires EntriesOk(all, lo, hi) && 1 <= k < |all|
    ensures EntriesOk(all[..k], lo, At(all[k].key.rank)) && EntriesOk(all[k..], At(all[k].key.rank), hi)
    ensures KeyOk(all[k].key) && InBounds(all[k].key.rank, lo, hi) && lo != At(all[k].key.rank)
  {
    assert all[0].key.rank < all[k].key.rank;
  }

  /** Two halves of a leaf. */
  lemma {:induction false} HalvesOk(all: seq<Entry>, k: nat, lo: Bound, hi: Bound)
    requires EntriesOk(all, lo, hi) && 1 <= k < |all|
    requires Sum(LeafSizes(all)[..k]) <= pmax && Sum(LeafSizes(all)[k..]) <= pmax
    ensures PutGood(Split(Leaf(all[..k]), all[k].key, Leaf(all[k..])), Recs(all), 1, lo, hi)
  {
    LeafSizesSlice(all, k);
    EntriesSlice(all, k, lo, hi);
  }

  /** Both halves fit, unless the shortcut chose badly. */
  lemma {:induction false} SplitFits(sizes: seq<nat>, p: nat, isLeaf: bool)
    requires Overfull(sizes, p, isLeaf, pmax, KEYLESS)
    ensures |sizes| >= 3
    ensures var k := SplitIndex(sizes, p, isLeaf, pmax);
            && 1 <= k < |sizes|
            && (Sum(sizes[..k]) <= pmax && RightBytes(sizes, k, isLeaf, KEYLESS) <= pmax
               <==> !ShortcutMisfit(sizes, p, isLeaf))
  {
    SplitIndexInside(sizes, p, isLeaf);
    MisfitIs(sizes, p, isLeaf);
    if Searches(sizes, p, pmax) {
      SearchedSplitFits(sizes, p, isLeaf, pmax, KEYLESS);
    } else {
      ShortcutSplitFits(sizes, p, isLeaf, pmax, KEYLESS);
    }
  }

  lemma {:induction false} SplitLeafGood(es: seq<Entry>, e: Entry, p: nat, append: bool, lo: Bound, hi: Bound)
    requires EntriesOk(es, lo, hi) && EntryOk(e) && p <= |es| && (append ==> p == |es|)
    requires Sum(LeafSizes(es)) <= pmax < Sum(LeafSizes(es)) + EntryBytes(e)
    requires EntriesOk(WithNew(es, e, p), lo, hi)
    ensures PutGood(SplitLeaf(es, e, p, append, lo, hi), Recs(WithNew(es, e, p)), 1, lo, hi)
  {
    LeafOverfull(es, e, p, lo, hi);
    var all := WithNew(es, e, p);
    var sizes := LeafSizes(all);
    SplitFits(sizes, p, true);
    if append {
      AppendedFits(es, e);
    }
    var k := if append then p else SplitIndex(sizes, p, true, pmax);
    if Sum(sizes[..k]) <= pmax && Sum(sizes[k..]) <= pmax {
      HalvesOk(all, k, lo, hi);
    }
  }

  lemma {:induction false} AppendedFits(es: seq<Entry>, e: Entry)
    requires EntryOk(e) && Sum(LeafSizes(es)) <= pmax
    ensures var sizes := LeafSizes(WithNew(es, e, |es|)); Sum(sizes[..|es|]) <= pmax && Sum(sizes[|es|..]) <= pmax
  {
    var sizes := LeafSizes(WithNew(es, e, |es|));
    assert sizes[..|es|] == LeafSizes(es);
    assert sizes[|es|..] == [EntryBytes(e)];
    assert [EntryBytes(e)][..0] == [];
    EntryFits(e);
  }

  lemma {:induction false} AddToLeafGood(es: seq<Entry>, e: Entry, p: nat, append: bool, lo: Bound, hi: Bound)
    requires EntriesOk(es, lo, hi) && EntryOk(e) && p <= |es| && (append ==> p == |es|)
    requires Sum(LeafSizes(es)) <= pmax && EntriesOk(WithNew(es, e, p), lo, hi)
    ensures PutGood(AddToLeaf(es, e, p, append, lo, hi), Recs(WithNew(es, e, p)), 1, lo, hi)
  {
    LeafSizesWithNew(es, e, p);
    if Sum(LeafSizes(es)) + EntryBytes(e) > pmax {
      SplitLeafGood(es, e, p, append, lo, hi);
    }
  }

  // ----- a put into a leaf -----

  lemma {:induction false} EntryPosition(es: seq<Entry>, r: int, lo: Bound, hi: Bound)
    requires EntriesOk(es, lo, hi)
    ensures var p := LowerBound(EntryRanks(es), r);
            && p <= |es| && (forall i :: 0 <= i < p ==> es[i].key.rank < r)
            && (forall i :: p < i < |es| ==> es[i].key.rank > r) && (p < |es| ==> es[p].key.rank >= r)
            && LowerBound(RecordRanks(Recs(es)), r) == p
  {
    var p := LowerBound(EntryRanks(es), r);
    assert forall i :: 0 <= i < |es| ==> EntryRanks(es)[i] == es[i].key.rank;
    assert RecordRanks(Recs(es)) == EntryRanks(es);
  }

  /** Replacing an entry in place. */
  lemma {:induction false} ReplacedOk(es: seq<Entry>, e: Entry, p: nat, lo: Bound, hi: Bound)
    requires EntriesOk(es, lo, hi) && p < |es| && EntryOk(e) && e.key.rank == es[p].key.rank
    ensures EntriesOk(es[p := e], lo, hi) && Recs(es[p := e]) == Recs(es)[p := Rec(e)]
    ensures WithNew(Dropped(es, p), e, p) == es[p := e]
  {
  }

  lemma {:induction false} OverwriteGood(es: seq<Entry>, p: nat, v: Val, lo: Bound, hi: Bound)
    requires EntriesOk(es, lo, hi) && p < |es| && Sum(LeafSizes(es)) <= pmax
    requires es[p].big || |es[p].val| == |v|
    ensures PutGood(Done(Leaf(es[p := es[p].(val := v)])), Recs(es)[p := Record(es[p].key.rank, v)], 1, lo, hi)
  {
    var e := es[p].(val := v);
    ReplacedOk(es, e, p, lo, hi);
    SameSize(es, e, p);
  }

  lemma {:induction false} SameSize(es: seq<Entry>, e: Entry, p: nat)
    requires p < |es| && EntryBytes(e) == EntryBytes(es[p])
    ensures LeafSizes(es[p := e]) == LeafSizes(es)
  {
  }

  lemma {:induction false} ReplaceGood(es: seq<Entry>, e: Entry, p: nat, lo: Bound, hi: Bound)
    requires EntriesOk(es, lo, hi) && p < |es| && EntryOk(e) && e.key.rank == es[p].key.rank
             && Sum(LeafSizes(es)) <= pmax
    ensures EntriesOk(Dropped(es, p), lo, hi) && Sum(LeafSizes(Dropped(es, p))) <= pmax
    ensures PutGood(AddToLeaf(Dropped(es, p), e, p, false, lo, hi), Recs(es)[p := Rec(e)], 1, lo, hi)
  {
    DroppedOk(es, p, lo, hi);
    ReplacedOk(es, e, p, lo, hi);
    AddToLeafGood(Dropped(es, p), e, p, false, lo, hi);
  }

  lemma {:induction false} PutInLeafGood(es: seq<Entry>, key: Key, v: Val, append: bool, reuse: bool, lo: Bound,
                                         hi: Bound)
    requires EntriesOk(es, lo, hi) && Sum(LeafSizes(es)) <= pmax && KeyOk(key) && InBounds(key.rank, lo, hi)
    requires append ==> AllBelow(Recs(es), key.rank)
    ensures PutGood(PutInLeaf(es, key, v, append, reuse, lo, hi), Upsert(Recs(es), key.rank, v), 1, lo, hi)
  {
    var p := LowerBound(EntryRanks(es), key.rank);
    EntryPosition(es, key.rank, lo, hi);
    var e := NewEntry(key, v);
    if p < |es| && es[p].key.rank == key.rank {
      if if es[p].big then reuse else |es[p].val| == |v| {
        OverwriteGood(es, p, v, lo, hi);
      } else {
        ReplaceGood(es, e, p, lo, hi);
      }
    } else {
      WithNewOk(es, e, p, lo, hi);
      AppendsLast(es, key.rank);
      AddToLeafGood(es, e, p, append, lo, hi);
    }
  }

  // ----- branches -----

  /** Split a branch that holds one node too many, the one at newindx.  The
      first node of the right page loses its key to the parent. */
  function SplitBranch(keys: seq<Key>, kids: seq<Node>, newindx: nat): PutResult
    requires |keys| == |kids| && Overfull(BranchSizes(keys), newindx, false, pmax, KEYLESS)
  {
    var sizes := BranchSizes(keys);
    SplitIndexInside(sizes, newindx, false);
    var k := SplitIndex(sizes, newindx, false, pmax);
    if Sum(sizes[..k]) <= pmax && RightBytes(sizes, k, false, KEYLESS) <= pmax
    then Split(Branch(keys[..k], kids[..k]), keys[k], Branch([NoKey] + keys[k + 1..], kids[k..]))
    else Full(sizes, newindx, false)
  }

  /** A branch with a node added at newindx: split if it does not fit. */
  function PlaceBranch(keys: seq<Key>, kids: seq<Node>, newindx: nat): PutResult
    requires |keys| == |kids|
    requires Sum(BranchSizes(keys)) > pmax ==> Overfull(BranchSizes(keys), newindx, false, pmax, KEYLESS)
  {
    if Sum(BranchSizes(keys)) <= pmax then Done(Branch(keys, kids)) else SplitBranch(keys, kids, newindx)
  }

  /** The i-th child has become two. */
  function AddToBranch(keys: seq<Key>, kids: seq<Node>, i: nat, left: Node, sep: Key, right: Node, ghost lo: Bound,
                       ghost hi: Bound)
      : PutResult
    requires |keys| == |kids| && KeysOk(keys, lo, hi) && KeyOk(sep) && i < |keys|
    requires Sum(BranchSizes(keys)) <= pmax
  {
    BranchOverfull(keys, sep, i + 1, lo, hi);
    PlaceBranch(WithNew(keys, sep, i + 1), WithNew(kids[i := left], right, i + 1), i + 1)
  }

  /** Children of the two halves of a branch. */
  lemma {:induction false} KidsSlice(keys: seq<Key>, kids: seq<Node>, k: nat, d: nat, lo: Bound, hi: Bound)
    requires KidsOk(keys, kids, d, lo, hi) && 1 <= k < |keys|
    ensures KidsOk(keys[..k], kids[..k], d, lo, At(keys[k].rank))
  {
    var fence := At(keys[k].rank);
    forall i | 0 <= i < k
      ensures Valid(kids[..k][i], d, Fence(keys[..k], i, lo, fence), Fence(keys[..k], i + 1, lo, fence))
    {
      assert Valid(kids[i], d, Fence(keys, i, lo, hi), Fence(keys, i + 1, lo, hi));
    }
  }

  lemma {:induction false} KidsSliceRight(keys: seq<Key>, kids: seq<Node>, k: nat, d: nat, lo: Bound, hi: Bound)
    requires KidsOk(keys, kids, d, lo, hi) && 1 <= k < |keys|
    ensures KidsOk([NoKey] + keys[k + 1..], kids[k..], d, At(keys[k].rank), hi)
  {
    var keys', fence := [NoKey] + keys[k + 1..], At(keys[k].rank);
    forall i | 0 <= i < |keys| - k
      ensures Valid(kids[k..][i], d, Fence(keys', i, fence, hi), Fence(keys', i + 1, fence, hi))
    {
      assert Valid(kids[k + i], d, Fence(keys, k + i, lo, hi), Fence(keys, k + i + 1, lo, hi));
    }
  }

  lemma {:induction false} BranchSizesSlice(keys: seq<Key>, k: nat)
    requires 1 <= k < |keys|
    ensures BranchSizes(keys)[..k] == BranchSizes(keys[..k])
    ensures Sum(BranchSizes([NoKey] + keys[k + 1..])) == RightBytes(BranchSizes(keys), k, false, KEYLESS)
  {
    var sizes := BranchSizes(keys);
    assert BranchSizes([NoKey] + keys[k + 1..]) == [KEYLESS] + sizes[k + 1..];
    SumAppend([KEYLESS], sizes[k + 1..]);
    assert [KEYLESS][..0] == [];
    SumSplit(sizes, k);
  }

  /** A branch of at least two nodes that fits. */
  lemma {:induction false} BranchValid(keys: seq<Key>, kids: seq<Node>, d: nat, lo: Bound, hi: Bound)
    requires KidsOk(keys, kids, d, lo, hi) && Sum(BranchSizes(keys)) <= pmax && |kids| >= 2
    ensures Valid(Branch(keys, kids), d + 1, lo, hi)
  {
    assert Valid(kids[0], d, Fence(keys, 0, lo, hi), Fence(keys, 1, lo, hi));
    assert d >= 1;
  }

  lemma {:induction false} BranchHalvesOk(keys: seq<Key>, kids: seq<Node>, k: nat, d: nat, lo: Bound, hi: Bound)
    requires KidsOk(keys, kids, d, lo, hi) && 2 <= k <= |keys| - 2
    requires Sum(BranchSizes(keys)[..k]) <= pmax && RightBytes(BranchSizes(keys), k, false, KEYLESS) <= pmax
    ensures PutGood(Split(Branch(keys[..k], kids[..k]), keys[k], Branch([NoKey] + keys[k + 1..], kids[k..])),
            Flat(kids), d + 1, lo, hi)
  {
    KidsSlice(keys, kids, k, d, lo, hi);
    KidsSliceRight(keys, kids, k, d, lo, hi);
    BranchSizesSlice(keys, k);
    BranchValid(keys[..k], kids[..k], d, lo, At(keys[k].rank));
    BranchValid([NoKey] + keys[k + 1..], kids[k..], d, At(keys[k].rank), hi);
    FlatAppend(kids[..k], kids[k..]);
    assert kids[..k] + kids[k..] == kids;
    assert keys[1].rank < keys[k].rank;
  }

  lemma {:induction false} SplitBranchGood(keys: seq<Key>, kids: seq<Node>, newindx: nat, d: nat, lo: Bound, hi: Bound)
    requires KidsOk(keys, kids, d, lo, hi) && Overfull(BranchSizes(keys), newindx, false, pmax, KEYLESS)
    ensures PutGood(SplitBranch(keys, kids, newindx), Flat(kids), d + 1, lo, hi)
  {
    var sizes := BranchSizes(keys);
    SplitIndexInside(sizes, newindx, false);
    forall i | 0 <= i < |keys| ensures 4 * sizes[i] <= pmax {
      KeyFits(keys[i]);
    }
    SplitLeavesTwo(sizes, newindx, false, pmax, KEYLESS);
    SplitFits(sizes, newindx, false);
    var k := SplitIndex(sizes, newindx, false, pmax);
    if Sum(sizes[..k]) <= pmax && RightBytes(sizes, k, false, KEYLESS) <= pmax {
      BranchHalvesOk(keys, kids, k, d, lo, hi);
    }
  }

  /** A child made two: the children stay between their separators. */
  lemma {:induction false} KeysGrow(keys: seq<Key>, i: nat, sep: Key, lo: Bound, hi: Bound)
    requires KeysOk(keys, lo, hi) && i < |keys| && KeyOk(sep)
    requires InBounds(sep.rank, Fence(keys, i, lo, hi), Fence(keys, i + 1, lo, hi))
             && Fence(keys, i, lo, hi) != At(sep.rank)
    ensures KeysOk(WithNew(keys, sep, i + 1), lo, hi)
  {
    var keys' := WithNew(keys, sep, i + 1);
    forall j | 1 <= j < |keys'| ensures KeyOk(keys'[j]) && InBounds(keys'[j].rank, lo, hi) {
      assert keys'[j] == if j <= i then keys[j] else if j == i + 1 then sep else keys[j - 1];
    }
  }

  lemma {:induction false} FenceGrows(keys: seq<Key>, i: nat, sep: Key, lo: Bound, hi: Bound, j: nat)
    requires i < |keys| && j <= |keys| + 1
    ensures Fence(WithNew(keys, sep, i + 1), j, lo, hi)
            == if j <= i then Fence(keys, j, lo, hi) else if j == i + 1 then At(sep.rank)
                else Fence(keys, j - 1, lo, hi)
  {
  }

  lemma {:induction false} KidsGrow(keys: seq<Key>, kids: seq<Node>, i: nat, left: Node, sep: Key, right: Node, d: nat,
                                    lo: Bound, hi: Bound)
    requires KidsOk(keys, kids, d, lo, hi) && i < |keys| && KeyOk(sep)
    requires InBounds(sep.rank, Fence(keys, i, lo, hi), Fence(keys, i + 1, lo, hi))
             && Fence(keys, i, lo, hi) != At(sep.rank)
    requires Valid(left, d, Fence(keys, i, lo, hi), At(sep.rank))
             && Valid(right, d, At(sep.rank), Fence(keys, i + 1, lo, hi))
    ensures KidsOk(WithNew(keys, sep, i + 1), WithNew(kids[i := left], right, i + 1), d, lo, hi)
  {
    var keys', kids' := WithNew(keys, sep, i + 1), WithNew(kids[i := left], right, i + 1);
    KeysGrow(keys, i, sep, lo, hi);
    forall j | 0 <= j < |kids'| ensures Valid(kids'[j], d, Fence(keys', j, lo, hi), Fence(keys', j + 1, lo, hi)) {
      FenceGrows(keys, i, sep, lo, hi, j);
      FenceGrows(keys, i, sep, lo, hi, j + 1);
      KidGrows(kids, i, left, right, j);
    }
  }

  lemma {:induction false} KidGrows(kids: seq<Node>, i: nat, left: Node, right: Node, j: nat)
    requires i < |kids| && j <= |kids|
    ensures WithNew(kids[i := left], right, i + 1)[j]
            == if j < i then kids[j] else if j == i then left else if j == i + 1 then right else kids[j - 1]
  {
  }

  lemma {:induction false} FlatGrows(kids: seq<Node>, i: nat, left: Node, right: Node)
    requires i < |kids|
    ensures Flat(WithNew(kids[i := left], right, i + 1))
            == Flat(kids[..i]) + (Records(left) + Records(right)) + Flat(kids[i + 1..])
  {
    var kids' := WithNew(kids[i := left], right, i + 1);
    FlatAround(kids', i);
    FlatFrom(kids', i + 1);
    assert kids'[..i] == kids[..i];
    assert kids'[i + 2..] == kids[i + 1..];
  }

  lemma {:induction false} PlaceBranchGood(keys: seq<Key>, kids: seq<Node>, newindx: nat, d: nat, lo: Bound, hi: Bound)
    requires KidsOk(keys, kids, d, lo, hi) && |kids| >= 2
    requires Sum(BranchSizes(keys)) > pmax ==> Overfull(BranchSizes(keys), newindx, false, pmax, KEYLESS)
    ensures PutGood(PlaceBranch(keys, kids, newindx), Flat(kids), d + 1, lo, hi)
  {
    if Sum(BranchSizes(keys)) <= pmax {
      BranchValid(keys, kids, d, lo, hi);
    } else {
      SplitBranchGood(keys, kids, newindx, d, lo, hi);
    }
  }

  lemma {:induction false} AddToBranchGood(keys: seq<Key>, kids: seq<Node>, i: nat, left: Node, sep: Key, right: Node,
                                           d: nat, lo: Bound, hi: Bound)
    requires KidsOk(keys, kids, d, lo, hi) && i < |keys| && KeyOk(sep) && Sum(BranchSizes(keys)) <= pmax
    requires InBounds(sep.rank, Fence(keys, i, lo, hi), Fence(keys, i + 1, lo, hi))
             && Fence(keys, i, lo, hi) != At(sep.rank)
    requires Valid(left, d, Fence(keys, i, lo, hi), At(sep.rank))
             && Valid(right, d, At(sep.rank), Fence(keys, i + 1, lo, hi))
    ensures PutGood(AddToBranch(keys, kids, i, left, sep, right, lo, hi),
                    Flat(kids[..i]) + (Records(left) + Records(right)) + Flat(kids[i + 1..]), d + 1, lo, hi)
  {
    KidsGrow(keys, kids, i, left, sep, right, d, lo, hi);
    FlatGrows(kids, i, left, right);
    BranchOverfull(keys, sep, i + 1, lo, hi);
    PlaceBranchGood(WithNew(keys, sep, i + 1), WithNew(kids[i := left], right, i + 1), i + 1, d, lo, hi);
  }

  // ----- exactly when a put fails -----

  ghost predicate EntryJams(es: seq<Entry>, e: Entry, p: nat)
    requires p <= |es|
  {
    ShortcutMisfit(LeafSizes(WithNew(es, e, p)), p, true)
  }

  /** A branch that cannot take the separator of its i-th child's two halves. */
  ghost predicate BranchJams(keys: seq<Key>, i: nat, sep: Key)
    requires i < |keys|
  {
    ShortcutMisfit(BranchSizes(WithNew(keys, sep, i + 1)), i + 1, false)
  }

  /** A leaf whose split goes wrong: a node is added, not overwritten, and the
      shortcut misplaces it. */
  ghost predicate LeafJams(es: seq<Entry>, key: Key, v: Val, append: bool, reuse: bool) {
    var p := LowerBound(EntryRanks(es), key.rank);
    if p < |es| && es[p].key.rank == key.rank
    then !(if es[p].big then reuse else |es[p].val| == |v|) && EntryJams(Dropped(es, p), NewEntry(key, v), p)
    else !append && EntryJams(es, NewEntry(key, v), p)
  }

  lemma {:induction false} SmallNeverMisfits(sizes: seq<nat>, p: nat, isLeaf: bool, least: nat)
    requires p < |sizes| && sizes[p] <= 16 * least && forall i :: 0 <= i < |sizes| ==> least <= sizes[i]
    ensures !ShortcutMisfit(sizes, p, isLeaf)
  {
    if ShortcutMisfit(sizes, p, isLeaf) {
      MisfitIs(sizes, p, isLeaf);
      SmallNodeFits(sizes, p, isLeaf, pmax, KEYLESS, least);
    }
  }

  /** Nodes of at most 192 bytes never jam a leaf. */
  lemma {:induction false} SmallEntryNeverJams(es: seq<Entry>, e: Entry, p: nat, lo: Bound, hi: Bound)
    requires EntriesOk(es, lo, hi) && EntryOk(e) && p <= |es| && EntryBytes(e) <= 16 * 12
    ensures !EntryJams(es, e, p)
  {
    var all := WithNew(es, e, p);
    assert all[p] == e;
    forall j | 0 <= j < |all|
      ensures 12 <= LeafSizes(all)[j]
    {
      assert all[j] == if j < p then es[j] else if j == p then e else es[j - 1];
      assert KeyOk(all[j].key);
    }
    SmallNeverMisfits(LeafSizes(all), p, true, 12);
  }

  /** Keys of at most 150 bytes never jam a branch. */
  lemma {:induction false} SmallKeyNeverJams(keys: seq<Key>, i: nat, sep: Key, lo: Bound, hi: Bound)
    requires KeysOk(keys, lo, hi) && i < |keys| && KeyOk(sep) && sep.size <= 150
    ensures !BranchJams(keys, i, sep)
  {
    var all := WithNew(keys, sep, i + 1);
    assert all[i + 1] == sep;
    assert forall j :: 0 <= j < |all| ==> KEYLESS <= KeyBytes(all[j]);
    SmallNeverMisfits(BranchSizes(all), i + 1, false, KEYLESS);
  }

  lemma {:induction false} AddToLeafFullIff(es: seq<Entry>, e: Entry, p: nat, append: bool, lo: Bound, hi: Bound)
    requires EntriesOk(es, lo, hi) && EntryOk(e) && p <= |es| && (append ==> p == |es|)
    requires Sum(LeafSizes(es)) <= pmax
    ensures AddToLeaf(es, e, p, append, lo, hi).Full? <==> !append && EntryJams(es, e, p)
  {
    LeafSizesWithNew(es, e, p);
    if Sum(LeafSizes(es)) + EntryBytes(e) > pmax {
      LeafOverfull(es, e, p, lo, hi);
      SplitFits(LeafSizes(WithNew(es, e, p)), p, true);
      if append {
        AppendedFits(es, e);
      }
    }
  }

  lemma {:induction false} LeafFullIff(es: seq<Entry>, key: Key, v: Val, append: bool, reuse: bool, lo: Bound,
                                       hi: Bound)
    requires EntriesOk(es, lo, hi) && Sum(LeafSizes(es)) <= pmax && KeyOk(key)
    requires append ==> AllBelow(Recs(es), key.rank)
    ensures PutInLeaf(es, key, v, append, reuse, lo, hi).Full? <==> LeafJams(es, key, v, append, reuse)
  {
    var p := LowerBound(EntryRanks(es), key.rank);
    if p < |es| && es[p].key.rank == key.rank {
      ReplaceFullIff(es, key, v, append, reuse, p, lo, hi);
    } else {
      AppendsLast(es, key.rank);
      AddToLeafFullIff(es, NewEntry(key, v), p, append, lo, hi);
    }
  }

  lemma {:induction false} ReplaceFullIff(es: seq<Entry>, key: Key, v: Val, append: bool, reuse: bool, p: nat,
                                          lo: Bound, hi: Bound)
    requires EntriesOk(es, lo, hi) && Sum(LeafSizes(es)) <= pmax && KeyOk(key)
    requires append ==> AllBelow(Recs(es), key.rank)
    requires p < |es| && p == LowerBound(EntryRanks(es), key.rank) && es[p].key.rank == key.rank
    ensures PutInLeaf(es, key, v, append, reuse, lo, hi).Full?
            <==> !(if es[p].big then reuse else |es[p].val| == |v|) && EntryJams(Dropped(es, p), NewEntry(key, v), p)
  {
    DroppedOk(es, p, lo, hi);
    AddToLeafFullIff(Dropped(es, p), NewEntry(key, v), p, false, lo, hi);
  }

  lemma {:induction false} PlaceBranchFullIff(keys: seq<Key>, kids: seq<Node>, newindx: nat)
    requires |keys| == |kids|
    requires Sum(BranchSizes(keys)) > pmax ==> Overfull(BranchSizes(keys), newindx, false, pmax, KEYLESS)
    ensures PlaceBranch(keys, kids, newindx).Full? <==> ShortcutMisfit(BranchSizes(keys), newindx, false)
  {
    if Sum(BranchSizes(keys)) > pmax {
      SplitFits(BranchSizes(keys), newindx, false);
    }
  }

  lemma {:induction false} AbsorbFullIff(keys: seq<Key>, kids: seq<Node>, i: nat, res: PutResult, lo: Bound, hi: Bound)
    requires |keys| == |kids| && KeysOk(keys, lo, hi) && i < |keys| && Sum(BranchSizes(keys)) <= pmax
    requires res.Split? ==> KeyOk(res.sep)
    ensures Absorb(keys, kids, i, res, lo, hi).Full? <==> res.Full? || (res.Split? && BranchJams(keys, i, res.sep))
  {
    if res.Split? {
      BranchOverfull(keys, res.sep, i + 1, lo, hi);
      PlaceBranchFullIff(WithNew(keys, res.sep, i + 1), WithNew(kids[i := res.left], res.right, i + 1), i + 1);
    }
  }

  // ----- the whole tree -----

  /** A key above all others belongs in the last child. */
  lemma {:induction false} AppendSlot(keys: seq<Key>, kids: seq<Node>, d: nat, lo: Bound, hi: Bound, r: int)
    requires KidsOk(keys, kids, d, lo, hi) && AllBelow(Flat(kids), r)
    ensures ChildIndex(keys, r) == |keys| - 1
  {
    var last := |keys| - 1;
    ValidHasRecords(kids[last], d, Fence(keys, last, lo, hi), Fence(keys, last + 1, lo, hi));
    ShapeOrdered(kids[last], d, Fence(keys, last, lo, hi), Fence(keys, last + 1, lo, hi));
    FlatAround(kids, last);
    var before := Flat(kids[..last]);
    assert Flat(kids)[|before|] == Records(kids[last])[0];
    var tail := KeyRanks(keys[1..]);
    assert forall k :: 0 <= k < |tail| ==> tail[k] == keys[k + 1].rank;
    assert last > 0 ==> keys[last].rank < r;
    LowerBoundIs(tail, r, last);
  }

  /** The slot followed on the way down: mdb_cursor_last takes the last one. */
  function Slot(keys: seq<Key>, r: int, append: bool): nat
    requires |keys| > 0
  {
    if append then |keys| - 1 else ChildIndex(keys, r)
  }

  lemma {:induction false} SlotAround(keys: seq<Key>, kids: seq<Node>, d: nat, lo: Bound, hi: Bound, r: int,
                                      append: bool)
    requires KidsOk(keys, kids, d, lo, hi) && InBounds(r, lo, hi) && (append ==> AllBelow(Flat(kids), r))
    ensures var i := Slot(keys, r, append);
            && i < |kids| && AllBelow(Flat(kids[..i]), r) && AllAbove(Flat(kids[i + 1..]), r)
            && Valid(kids[i], d, Fence(keys, i, lo, hi), Fence(keys, i + 1, lo, hi))
            && InBounds(r, Fence(keys, i, lo, hi), Fence(keys, i + 1, lo, hi))
            && Flat(kids) == Flat(kids[..i]) + Records(kids[i]) + Flat(kids[i + 1..])
            && (append ==> AllBelow(Records(kids[i]), r))
  {
    AroundChild(keys, kids, d, lo, hi, r);
    if append {
      AppendSlot(keys, kids, d, lo, hi, r);
      var i := |keys| - 1;
      var before := Flat(kids[..i]);
      forall k | 0 <= k < |Records(kids[i])| ensures Records(kids[i])[k].rank < r {
        assert Records(kids[i])[k] == Flat(kids)[|before| + k];
      }
    }
  }

  lemma {:induction false} KidReplaced(keys: seq<Key>, kids: seq<Node>, i: nat, kid: Node, d: nat, lo: Bound, hi: Bound)
    requires KidsOk(keys, kids, d, lo, hi) && i < |kids|
    requires Valid(kid, d, Fence(keys, i, lo, hi), Fence(keys, i + 1, lo, hi))
    ensures KidsOk(keys, kids[i := kid], d, lo, hi)
    ensures Flat(kids[i := kid]) == Flat(kids[..i]) + Records(kid) + Flat(kids[i + 1..])
  {
    FlatAround(kids[i := kid], i);
    assert kids[i := kid][..i] == kids[..i] && kids[i := kid][i + 1..] == kids[i + 1..];
  }

  /** Pass the result of the i-th child up. */
  function Absorb(keys: seq<Key>, kids: seq<Node>, i: nat, res: PutResult, ghost lo: Bound, ghost hi: Bound): PutResult
    requires |keys| == |kids| && KeysOk(keys, lo, hi) && i < |keys| && Sum(BranchSizes(keys)) <= pmax
    requires res.Split? ==> KeyOk(res.sep)
  {
    match res
    case Done(kid) => Done(Branch(keys, kids[i := kid]))
    case Split(left, sep, right) => AddToBranch(keys, kids, i, left, sep, right, lo, hi)
    case Full(_, _, _) => res
  }

  lemma {:induction false} AbsorbGood(keys: seq<Key>, kids: seq<Node>, i: nat, res: PutResult, rs: seq<Record>, d: nat,
                                      lo: Bound, hi: Bound)
    requires KidsOk(keys, kids, d, lo, hi) && 2 <= |keys| && i < |keys| && Sum(BranchSizes(keys)) <= pmax
    requires PutGood(res, rs, d, Fence(keys, i, lo, hi), Fence(keys, i + 1, lo, hi))
    ensures PutGood(Absorb(keys, kids, i, res, lo, hi), Flat(kids[..i]) + rs + Flat(kids[i + 1..]), d + 1, lo, hi)
  {
    match res
    case Done(kid) =>
      KidReplaced(keys, kids, i, kid, d, lo, hi);
      BranchValid(keys, kids[i := kid], d, lo, hi);
    case Split(left, sep, right) =>
      AddToBranchGood(keys, kids, i, left, sep, right, d, lo, hi);
    case Full(_, _, _) =>
  }

  /** Store a record below a page.  Whatever the shapes of the pages on the way:
      the result holds the old records with this one stored, all pages are
      valid, and failure has one cause. */
  function Put(n: Node, key: Key, v: Val, append: bool, reuse: bool, ghost d: nat, ghost lo: Bound,
               ghost hi: Bound): (res: PutResult)
    requires Valid(n, d, lo, hi) && KeyOk(key) && InBounds(key.rank, lo, hi)
    requires append ==> AllBelow(Records(n), key.rank)
    ensures PutGood(res, Upsert(Records(n), key.rank, v), d, lo, hi)
    decreases d
  {
    assert Shape(n, d, lo, hi);
    match n
    case Leaf(es) =>
      PutInLeafGood(es, key, v, append, reuse, lo, hi);
      PutInLeaf(es, key, v, append, reuse, lo, hi)
    case Branch(keys, kids) =>
      assert KidsOk(keys, kids, d - 1, lo, hi);
      SlotAround(keys, kids, d - 1, lo, hi, key.rank, append);
      var i := Slot(keys, key.rank, append);
      var res := Put(kids[i], key, v, append, reuse, d - 1, Fence(keys, i, lo, hi), Fence(keys, i + 1, lo, hi));
      AbsorbGood(keys, kids, i, res, Upsert(Records(kids[i]), key.rank, v), d - 1, lo, hi);
      UpsertInMiddle(Flat(kids[..i]), Records(kids[i]), Flat(kids[i + 1..]), key.rank, v);
      Absorb(keys, kids, i, res, lo, hi)
  }

  /** The page that fails is the leaf the key belongs to, or a branch above it
      that gets a separator from a split below. */
  ghost predicate Jams(n: Node, key: Key, v: Val, append: bool, reuse: bool, d: nat, lo: Bound, hi: Bound)
    requires Valid(n, d, lo, hi) && KeyOk(key) && InBounds(key.rank, lo, hi)
    requires append ==> AllBelow(Records(n), key.rank)
    decreases d
  {
    assert Shape(n, d, lo, hi);
    match n
    case Leaf(es) => LeafJams(es, key, v, append, reuse)
    case Branch(keys, kids) =>
      assert KidsOk(keys, kids, d - 1, lo, hi);
      SlotAround(keys, kids, d - 1, lo, hi, key.rank, append);
      var i := Slot(keys, key.rank, append);
      var below, above := Fence(keys, i, lo, hi), Fence(keys, i + 1, lo, hi);
      var res := Put(kids[i], key, v, append, reuse, d - 1, below, above);
      Jams(kids[i], key, v, append, reuse, d - 1, below, above) || (res.Split? && BranchJams(keys, i, res.sep))
  }

  lemma {:induction false} PutUnfolds(keys: seq<Key>, kids: seq<Node>, key: Key, v: Val, append: bool, reuse: bool,
                                      d: nat, lo: Bound, hi: Bound)
    requires Valid(Branch(keys, kids), d, lo, hi) && KeyOk(key) && InBounds(key.rank, lo, hi)
    requires append ==> AllBelow(Flat(kids), key.rank)
    ensures d > 1 && KidsOk(keys, kids, d - 1, lo, hi) && Sum(BranchSizes(keys)) <= pmax
    ensures var i := Slot(keys, key.rank, append);
            && i < |kids| && Valid(kids[i], d - 1, Fence(keys, i, lo, hi), Fence(keys, i + 1, lo, hi))
            && InBounds(key.rank, Fence(keys, i, lo, hi), Fence(keys, i + 1, lo, hi))
            && (append ==> AllBelow(Records(kids[i]), key.rank))
    ensures var i := Slot(keys, key.rank, append);
            var res := Put(kids[i], key, v, append, reuse, d - 1, Fence(keys, i, lo, hi), Fence(keys, i + 1, lo, hi));
            && (res.Split? ==> KeyOk(res.sep))
            && Put(Branch(keys, kids), key, v, append, reuse, d, lo, hi) == Absorb(keys, kids, i, res, lo, hi)
  {
    assert Shape(Branch(keys, kids), d, lo, hi);
    assert KidsOk(keys, kids, d - 1, lo, hi);
    SlotAround(keys, kids, d - 1, lo, hi, key.rank, append);
  }

  lemma {:induction false} PutFullIff(n: Node, key: Key, v: Val, append: bool, reuse: bool, d: nat, lo: Bound,
                                      hi: Bound)
    requires Valid(n, d, lo, hi) && KeyOk(key) && InBounds(key.rank, lo, hi)
    requires append ==> AllBelow(Records(n), key.rank)
    ensures Put(n, key, v, append, reuse, d, lo, hi).Full? <==> Jams(n, key, v, append, reuse, d, lo, hi)
    decreases d
  {
    match n
    case Leaf(es) =>
      assert Shape(n, d, lo, hi);
      LeafFullIff(es, key, v, append, reuse, lo, hi);
    case Branch(keys, kids) =>
      PutUnfolds(keys, kids, key, v, append, reuse, d, lo, hi);
      var i := Slot(keys, key.rank, append);
      var below, above := Fence(keys, i, lo, hi), Fence(keys, i + 1, lo, hi);
      PutFullIff(kids[i], key, v, append, reuse, d - 1, below, above);
      AbsorbFullIff(keys, kids, i, Put(kids[i], key, v, append, reuse, d - 1, below, above), lo, hi);
  }

  /** A database: its root page, if any, and md_depth. */
  datatype Database = Empty | Root(node: Node, depth: nat)

  ghost predicate ValidDatabase(t: Database) {
    t.Root? ==> Valid(t.node, t.depth, Open, Open)
  }

  ghost function Contents(t: Database): seq<Record> {
    if t.Empty? then [] else Records(t.node)
  }

  /** MAXDATASIZE */
  const MAX_DATA: nat := 0xffff_ffff

  datatype Outcome =
    | Stored(db: Database)
    | KeyExist
    | BadValSize
    | PageFull(sizes: seq<nat>, newindx: nat, isLeaf: bool)

  /** mdb_cursor_last: the greatest rank. */
  method LastRank(root: Node, ghost d0: nat) returns (r: int)
    requires Valid(root, d0, Open, Open)
    ensures Records(root) != [] && r == Records(root)[|Records(root)| - 1].rank
  {
    var n := root;
    ghost var d, lo, hi := d0, Open, Open;
    ValidHasRecords(n, d, lo, hi);
    while n.Branch?
      invariant Valid(n, d, lo, hi) && Records(n) != []
      invariant Records(root) != [] && Records(n)[|Records(n)| - 1] == Records(root)[|Records(root)| - 1]
      decreases d
    {
      var last := |n.kids| - 1;
      LastKid(n, d, lo, hi);
      d, lo, hi := d - 1, Fence(n.keys, last, lo, hi), Fence(n.keys, last + 1, lo, hi);
      n := n.kids[last];
    }
    r := n.es[|n.es| - 1].key.rank;
  }

  lemma {:induction false} LastKid(n: Node, d: nat, lo: Bound, hi: Bound)
    requires Valid(n, d, lo, hi) && n.Branch?
    ensures |n.kids| >= 2 && d > 1
    ensures var last := |n.kids| - 1; var rs := Records(n.kids[last]);
            && Valid(n.kids[last], d - 1, Fence(n.keys, last, lo, hi), Fence(n.keys, last + 1, lo, hi))
            && rs != [] && Records(n) != [] && rs[|rs| - 1] == Records(n)[|Records(n)| - 1]
  {
    assert Shape(n, d, lo, hi);
    assert KidsOk(n.keys, n.kids, d - 1, lo, hi);
    var last := |n.kids| - 1;
    ValidHasRecords(n.kids[last], d - 1, Fence(n.keys, last, lo, hi), Fence(n.keys, last + 1, lo, hi));
    FlatAround(n.kids, last);
    assert Flat(n.kids[last + 1..]) == [];
  }

  lemma {:induction false} AboveLast(rs: seq<Record>, r: int)
    requires Ordered(rs, Open, Open) && rs != [] && r > rs[|rs| - 1].rank
    ensures AllBelow(rs, r)
  {
  }

  /** A root page that has become two gets a new root above it. */
  function NewRoot(left: Node, sep: Key, right: Node): Node {
    Branch([NoKey, sep], [left, right])
  }

  lemma {:induction false} NewRootValid(left: Node, sep: Key, right: Node, d: nat)
    requires KeyOk(sep) && Valid(left, d, Open, At(sep.rank)) && Valid(right, d, At(sep.rank), Open)
    ensures Valid(NewRoot(left, sep, right), d + 1, Open, Open)
    ensures Records(NewRoot(left, sep, right)) == Records(left) + Records(right)
  {
    var keys, kids := [NoKey, sep], [left, right];
    assert BranchSizes(keys) == [KEYLESS, KeyBytes(sep)];
    KeyFits(sep);
    TwoNodesFit(BranchSizes(keys), pmax);
    BranchValid(keys, kids, d, Open, Open);
    assert kids[1..] == [right];
    FlatOne(right);
  }

  /** A first record makes a root leaf. */
  lemma {:induction false} FirstLeafValid(e: Entry)
    requires EntryOk(e)
    ensures Valid(Leaf([e]), 1, Open, Open) && Records(Leaf([e])) == Upsert([], e.key.rank, e.val)
  {
    EntryFits(e);
    TwoNodesFit(LeafSizes([e]), pmax);
    assert Recs([e]) == [Rec(e)];
  }

  /** The root after a put: a root page that was split gets a new one above it. */
  function NewOutcome(res: PutResult, depth: nat, ghost rs: seq<Record>): (out: Outcome)
    requires PutGood(res, rs, depth, Open, Open)
    ensures out.Stored? || out.PageFull?
    ensures out.Stored? ==> ValidDatabase(out.db) && Contents(out.db) == rs
    ensures out.PageFull? <==> res.Full?
    ensures out.PageFull? ==> ShortcutMisfit(out.sizes, out.newindx, out.isLeaf)
  {
    match res
    case Done(node) => Stored(Root(node, depth))
    case Split(left, sep, right) =>
      NewRootValid(left, sep, right, depth);
      Stored(Root(NewRoot(left, sep, right), depth + 1))
    case Full(sizes, newindx, isLeaf) => PageFull(sizes, newindx, isLeaf)
  }

  /** A put that neither its arguments nor its flags rule out. */
  function PutOutcome(t: Database, key: Key, v: Val, append: bool, reuse: bool): (out: Outcome)
    requires ValidDatabase(t) && KeyOk(key) && (append ==> AllBelow(Contents(t), key.rank))
    ensures out.Stored? || out.PageFull?
    ensures out.Stored? ==> ValidDatabase(out.db) && Contents(out.db) == Upsert(Contents(t), key.rank, v)
    ensures out.PageFull? ==> ShortcutMisfit(out.sizes, out.newindx, out.isLeaf)
  {
    if t.Empty? then
      FirstLeafValid(NewEntry(key, v));
      Stored(Root(Leaf([NewEntry(key, v)]), 1))
    else
      NewOutcome(Put(t.node, key, v, append, reuse, t.depth, Open, Open), t.depth, Upsert(Contents(t), key.rank, v))
  }

  /** Exactly when such a put reports MDB_PAGE_FULL. */
  lemma {:induction false} PutFailsIff(t: Database, key: Key, v: Val, append: bool, reuse: bool)
    requires ValidDatabase(t) && KeyOk(key) && (append ==> AllBelow(Contents(t), key.rank))
    ensures PutOutcome(t, key, v, append, reuse).PageFull?
            <==> t.Root? && Jams(t.node, key, v, append, reuse, t.depth, Open, Open)
  {
    if t.Root? {
      PutFullIff(t.node, key, v, append, reuse, t.depth, Open, Open);
    }
  }

  /** mdb_put.  The outcome says exactly what has happened, and after a success
      every key but this one maps to what it did before. */
  method PutRecord(t: Database, key: Key, v: Val, noOverwrite: bool, append: bool, reuse: bool) returns (out: Outcome)
    requires ValidDatabase(t)
    ensures out.BadValSize? <==> key.size == 0 || key.size > 511 || |v| > 0xffff_ffff
    ensures KeyOk(key) || out.BadValSize?
    ensures out.KeyExist? <==>
            && !out.BadValSize? && Contents(t) != []
            && if append then key.rank <= Contents(t)[|Contents(t)| - 1].rank
               else noOverwrite && Lookup(Contents(t), key.rank).Some?
    ensures !out.BadValSize? && !out.KeyExist? ==>
              (append ==> AllBelow(Contents(t), key.rank)) && out == PutOutcome(t, key, v, append, reuse)
    ensures out.Stored? ==> ValidDatabase(out.db) && Contents(out.db) == Upsert(Contents(t), key.rank, v)
    ensures out.PageFull? ==> ShortcutMisfit(out.sizes, out.newindx, out.isLeaf)
    ensures out.PageFull? <==>
            && t.Root? && !out.BadValSize? && !out.KeyExist? && (append ==> AllBelow(Contents(t), key.rank))
            && Jams(t.node, key, v, append, reuse, t.depth, Open, Open)
  {
    if key.size == 0 || key.size > MAX_KEY || |v| > MAX_DATA {
      return BadValSize;
    }
    if t.Empty? {
      return PutOutcome(t, key, v, append, reuse);
    }
    ValidHasRecords(t.node, t.depth, Open, Open);
    if append {
      var last := LastRank(t.node, t.depth);
      if key.rank <= last {
        return KeyExist;
      }
      ShapeOrdered(t.node, t.depth, Open, Open);
      AboveLast(Records(t.node), key.rank);
    } else if noOverwrite {
      var found := Find(t.node, t.depth, key.rank);
      if found.Some? {
        return KeyExist;
      }
    }
    PutFailsIff(t, key, v, append, reuse);
    out := PutOutcome(t, key, v, append, reuse);
  }

  /** Contents of a database are ascending, so the laws of puts and deletions
      hold of them. */
  lemma {:induction false} ContentsOrdered(t: Database)
    requires ValidDatabase(t)
    ensures Ordered(Contents(t), Open, Open)
  {
    if t.Root? {
      ShapeOrdered(t.node, t.depth, Open, Open);
    }
  }
}
