/** Which keys an update brings into a tree, and what follows for the sizes: with
    short keys and small nodes no put and no deletion ever fails. */
module SmallKeys {
  import opened Basics
  import opened SplitPoint
  import opened Tree
  import opened TreePut
  import opened TreeDel

  // ----- the keys of a tree -----

  /** All keys of the tree, of records and of separators, are in ks. */
  ghost predicate KeysIn(n: Node, ks: iset<Key>) {
    match n
    case Leaf(es) => EntriesIn(es, ks)
    case Branch(keys, kids) => SeparatorsIn(keys, ks) && forall i :: 0 <= i < |kids| ==> KeysIn(kids[i], ks)
  }

  ghost predicate EntriesIn(es: seq<Entry>, ks: iset<Key>) {
    forall i :: 0 <= i < |es| ==> es[i].key in ks
  }

  /** Slot 0 holds no key. */
  ghost predicate SeparatorsIn(keys: seq<Key>, ks: iset<Key>) {
    forall i :: 1 <= i < |keys| ==> keys[i] in ks
  }

  ghost predicate KidsIn(kids: seq<Node>, ks: iset<Key>) {
    forall i :: 0 <= i < |kids| ==> KeysIn(kids[i], ks)
  }

  // ----- a put -----

  ghost predicate PutKeysIn(res: PutResult, ks: iset<Key>) {
    match res
    case Done(n) => KeysIn(n, ks)
    case Split(l, s, r) => KeysIn(l, ks) && s in ks && KeysIn(r, ks)
    case Full(_, _, _) => true
  }

  lemma {:induction false} AddToLeafKeys(es: seq<Entry>, e: Entry, p: nat, append: bool, lo: Bound, hi: Bound,
                                         ks: iset<Key>)
    requires EntriesOk(es, lo, hi) && EntryOk(e) && p <= |es| && (append ==> p == |es|) && Sum(LeafSizes(es)) <= pmax
    requires EntriesIn(es, ks) && e.key in ks
    ensures PutKeysIn(AddToLeaf(es, e, p, append, lo, hi), ks)
  {
    EntryAdded(es, e, p, ks);
    if Sum(LeafSizes(es)) + EntryBytes(e) > pmax {
      SplitLeafKeys(es, e, p, append, lo, hi, ks);
    }
  }

  lemma {:induction false} EntryAdded(es: seq<Entry>, e: Entry, p: nat, ks: iset<Key>)
    requires p <= |es| && EntriesIn(es, ks) && e.key in ks
    ensures EntriesIn(WithNew(es, e, p), ks)
  {
  }

  lemma {:induction false} EntriesCut(all: seq<Entry>, k: nat, ks: iset<Key>)
    requires k < |all| && EntriesIn(all, ks)
    ensures EntriesIn(all[..k], ks) && all[k].key in ks && EntriesIn(all[k..], ks)
  {
  }

  lemma {:induction false} SplitLeafKeys(es: seq<Entry>, e: Entry, p: nat, append: bool, lo: Bound, hi: Bound,
                                         ks: iset<Key>)
    requires EntriesOk(es, lo, hi) && EntryOk(e) && p <= |es| && (append ==> p == |es|)
    requires Sum(LeafSizes(es)) <= pmax < Sum(LeafSizes(es)) + EntryBytes(e)
    requires EntriesIn(WithNew(es, e, p), ks)
    ensures PutKeysIn(SplitLeaf(es, e, p, append, lo, hi), ks)
  {
    LeafOverfull(es, e, p, lo, hi);
    var all := WithNew(es, e, p);
    SplitIndexInside(LeafSizes(all), p, true);
    EntriesCut(all, if append then p else SplitIndex(LeafSizes(all), p, true, pmax), ks);
  }

  lemma {:induction false} PutInLeafKeys(es: seq<Entry>, key: Key, v: Val, append: bool, reuse: bool, lo: Bound,
                                         hi: Bound, ks: iset<Key>)
    requires EntriesOk(es, lo, hi) && Sum(LeafSizes(es)) <= pmax && KeyOk(key)
    requires append ==> AllBelow(Recs(es), key.rank)
    requires EntriesIn(es, ks) && key in ks
    ensures PutKeysIn(PutInLeaf(es, key, v, append, reuse, lo, hi), ks)
  {
    var p := LowerBound(EntryRanks(es), key.rank);
    if p < |es| && es[p].key.rank == key.rank {
      ReplaceKeys(es, key, v, append, reuse, p, lo, hi, ks);
    } else {
      AppendsLast(es, key.rank);
      AddToLeafKeys(es, NewEntry(key, v), p, append, lo, hi, ks);
    }
  }

  lemma {:induction false} ReplaceKeys(es: seq<Entry>, key: Key, v: Val, append: bool, reuse: bool, p: nat, lo: Bound,
                                       hi: Bound, ks: iset<Key>)
    requires EntriesOk(es, lo, hi) && Sum(LeafSizes(es)) <= pmax && KeyOk(key)
    requires append ==> AllBelow(Recs(es), key.rank)
    requires p < |es| && p == LowerBound(EntryRanks(es), key.rank) && es[p].key.rank == key.rank
    requires EntriesIn(es, ks) && key in ks
    ensures PutKeysIn(PutInLeaf(es, key, v, append, reuse, lo, hi), ks)
  {
    DroppedOk(es, p, lo, hi);
    OtherEntriesIn(es, p, v, ks);
    AddToLeafKeys(Dropped(es, p), NewEntry(key, v), p, false, lo, hi, ks);
  }

  lemma {:induction false} OtherEntriesIn(es: seq<Entry>, p: nat, v: Val, ks: iset<Key>)
    requires p < |es| && EntriesIn(es, ks)
    ensures EntriesIn(Dropped(es, p), ks) && EntriesIn(es[p := es[p].(val := v)], ks)
  {
  }

  lemma {:induction false} PlaceBranchKeys(keys: seq<Key>, kids: seq<Node>, newindx: nat, ks: iset<Key>)
    requires |keys| == |kids|
    requires Sum(BranchSizes(keys)) > pmax ==> Overfull(BranchSizes(keys), newindx, false, pmax, KEYLESS)
    requires SeparatorsIn(keys, ks) && KidsIn(kids, ks)
    ensures PutKeysIn(PlaceBranch(keys, kids, newindx), ks)
  {
    if Sum(BranchSizes(keys)) > pmax {
      SplitIndexInside(BranchSizes(keys), newindx, false);
    }
  }

  lemma {:induction false} AbsorbKeys(keys: seq<Key>, kids: seq<Node>, i: nat, res: PutResult, lo: Bound, hi: Bound,
                                      ks: iset<Key>)
    requires |keys| == |kids| && KeysOk(keys, lo, hi) && i < |keys| && Sum(BranchSizes(keys)) <= pmax
    requires res.Split? ==> KeyOk(res.sep)
    requires SeparatorsIn(keys, ks) && KidsIn(kids, ks) && PutKeysIn(res, ks)
    ensures PutKeysIn(Absorb(keys, kids, i, res, lo, hi), ks)
  {
    match res
    case Done(kid) => ReplacedIn(keys, kids, i, kid, ks);
    case Split(left, sep, right) => AddToBranchKeys(keys, kids, i, left, sep, right, lo, hi, ks);
    case Full(_, _, _) =>
  }

  lemma {:induction false} ReplacedIn(keys: seq<Key>, kids: seq<Node>, i: nat, kid: Node, ks: iset<Key>)
    requires i < |kids| && SeparatorsIn(keys, ks) && KidsIn(kids, ks) && KeysIn(kid, ks)
    ensures KeysIn(Branch(keys, kids[i := kid]), ks)
  {
  }

  lemma {:induction false} AddToBranchKeys(keys: seq<Key>, kids: seq<Node>, i: nat, left: Node, sep: Key, right: Node,
                                           lo: Bound, hi: Bound, ks: iset<Key>)
    requires |keys| == |kids| && KeysOk(keys, lo, hi) && KeyOk(sep) && i < |keys| && Sum(BranchSizes(keys)) <= pmax
    requires SeparatorsIn(keys, ks) && KidsIn(kids, ks) && KeysIn(left, ks) && sep in ks && KeysIn(right, ks)
    ensures PutKeysIn(AddToBranch(keys, kids, i, left, sep, right, lo, hi), ks)
  {
    BranchOverfull(keys, sep, i + 1, lo, hi);
    GrownIn(keys, kids, i, left, sep, right, ks);
    PlaceBranchKeys(WithNew(keys, sep, i + 1), WithNew(kids[i := left], right, i + 1), i + 1, ks);
  }

  lemma {:induction false} GrownIn(keys: seq<Key>, kids: seq<Node>, i: nat, left: Node, sep: Key, right: Node,
                                   ks: iset<Key>)
    requires |keys| == |kids| && i < |keys| && SeparatorsIn(keys, ks) && KidsIn(kids, ks)
    requires KeysIn(left, ks) && sep in ks && KeysIn(right, ks)
    ensures SeparatorsIn(WithNew(keys, sep, i + 1), ks) && KidsIn(WithNew(kids[i := left], right, i + 1), ks)
  {
    var keys', kids' := WithNew(keys, sep, i + 1), WithNew(kids[i := left], right, i + 1);
    assert forall j :: 1 <= j < |keys'| ==>
             keys'[j] == if j <= i then keys[j] else if j == i + 1 then sep else keys[j - 1];
    forall j | 0 <= j < |kids'| ensures KeysIn(kids'[j], ks) {
      KidGrows(kids, i, left, right, j);
    }
  }

  /** A put adds no key but its own: every separator it makes is one. */
  lemma {:induction false} PutKeys(n: Node, key: Key, v: Val, append: bool, reuse: bool, d: nat, lo: Bound, hi: Bound,
                                   ks: iset<Key>)
    requires Valid(n, d, lo, hi) && KeyOk(key) && InBounds(key.rank, lo, hi)
    requires append ==> AllBelow(Records(n), key.rank)
    requires KeysIn(n, ks) && key in ks
    ensures PutKeysIn(Put(n, key, v, append, reuse, d, lo, hi), ks)
    decreases d
  {
    match n
    case Leaf(es) =>
      assert Shape(n, d, lo, hi);
      PutInLeafKeys(es, key, v, append, reuse, lo, hi, ks);
    case Branch(keys, kids) =>
      PutUnfolds(keys, kids, key, v, append, reuse, d, lo, hi);
      var i := Slot(keys, key.rank, append);
      var below, above := Fence(keys, i, lo, hi), Fence(keys, i + 1, lo, hi);
      PutKeys(kids[i], key, v, append, reuse, d - 1, below, above, ks);
      AbsorbKeys(keys, kids, i, Put(kids[i], key, v, append, reuse, d - 1, below, above), lo, hi, ks);
  }

  // ----- a deletion -----

  ghost predicate DelKeysIn(res: DelResult, ks: iset<Key>) {
    match res
    case NotFound => true
    case Check(n) => KeysIn(n, ks)
    case Stable(n) => KeysIn(n, ks)
    case Grew(l, s, r) => KeysIn(l, ks) && s in ks && KeysIn(r, ks)
    case Overflow(_, _, _) => true
  }

  lemma {:induction false} LowestKeyIn(n: Node, d: nat, lo: Bound, hi: Bound, ks: iset<Key>)
    requires Valid(n, d, lo, hi) && KeysIn(n, ks)
    ensures LowestKey(n) in ks
    decreases d
  {
    assert Shape(n, d, lo, hi);
    if n.Branch? {
      assert KidsOk(n.keys, n.kids, d - 1, lo, hi);
      LowestKeyIn(n.kids[0], d - 1, Fence(n.keys, 0, lo, hi), Fence(n.keys, 1, lo, hi), ks);
    }
  }

  /** The same for a page that may be short of nodes. */
  lemma {:induction false} LowestOfBranch(n: Node, d: nat, lo: Bound, hi: Bound, ks: iset<Key>)
    requires Shape(n, d, lo, hi) && n.Branch? && KeysIn(n, ks)
    ensures LowestKey(n) in ks
  {
    assert KidsOk(n.keys, n.kids, d - 1, lo, hi);
    LowestKeyIn(n.kids[0], d - 1, Fence(n.keys, 0, lo, hi), Fence(n.keys, 1, lo, hi), ks);
  }

  lemma {:induction false} MergeKeys(l: Node, r: Node, d: nat, lo: Bound, hi: Bound, ks: iset<Key>)
    requires SameKind(l, r) && (r.Branch? ==> |r.keys| == |r.kids| > 0) && (l.Branch? ==> |l.keys| == |l.kids| > 0)
    requires Shape(r, d, lo, hi) && KeysIn(l, ks) && KeysIn(r, ks)
    ensures KeysIn(Merge(l, r), ks)
  {
    if l.Branch? {
      LowestOfBranch(r, d, lo, hi, ks);
      var keys, kids, n := l.keys + [LowestKey(r)] + r.keys[1..], l.kids + r.kids, |l.keys|;
      forall i | 1 <= i < |keys| ensures keys[i] in ks {
        assert keys[i] == if i < n then l.keys[i] else if i == n then LowestKey(r) else r.keys[i - n];
      }
      forall i | 0 <= i < |kids| ensures KeysIn(kids[i], ks) {
        assert kids[i] == if i < n then l.kids[i] else r.kids[i - n];
      }
    }
  }

  /** A page cut in two, before node k. */
  lemma {:induction false} CutKeys(n: Node, k: nat, ks: iset<Key>)
    requires 1 <= k < Count(n) && (n.Branch? ==> |n.keys| == |n.kids|) && KeysIn(n, ks)
    ensures var m := Cut(n, k); KeysIn(m.0, ks) && m.1 in ks && KeysIn(m.2, ks)
  {
    if n.Branch? {
      var keys, kids := [NoKey] + n.keys[k + 1..], n.kids[k..];
      forall i | 1 <= i < |keys| ensures keys[i] in ks {
        assert keys[i] == n.keys[k + i];
      }
      forall i | 0 <= i < |kids| ensures KeysIn(kids[i], ks) {
        assert kids[i] == n.kids[k + i];
      }
    }
  }

  lemma {:induction false} MovedPairKeys(keys: seq<Key>, kids: seq<Node>, j: nat, m: (Node, Key, Node), lo: Bound,
                                         hi: Bound, ks: iset<Key>)
    requires |keys| == |kids| && KeysOk(keys, lo, hi) && 1 <= j < |keys| && KeyOk(m.1) && Sum(BranchSizes(keys)) <= pmax
    requires SeparatorsIn(keys, ks) && KidsIn(kids, ks) && KeysIn(m.0, ks) && m.1 in ks && KeysIn(m.2, ks)
    ensures DelKeysIn(MovedPair(keys, kids, j, m, lo, hi), ks)
  {
    UpdatedOverfull(keys, j, m.1, lo, hi);
    PlaceBranchKeys(keys[j := m.1], kids[j - 1 := m.0][j := m.2], j, ks);
  }

  lemma {:induction false} MergedPairKeys(keys: seq<Key>, kids: seq<Node>, j: nat, m: Node, ks: iset<Key>)
    requires |keys| == |kids| && 1 <= j < |keys| && SeparatorsIn(keys, ks) && KidsIn(kids, ks) && KeysIn(m, ks)
    ensures DelKeysIn(MergedPair(keys, kids, j, m), ks)
  {
    var keys', kids' := Dropped(keys, j), Dropped(kids, j)[j - 1 := m];
    forall i | 1 <= i < |keys'| ensures keys'[i] in ks {
      assert keys'[i] == if i < j then keys[i] else keys[i + 1];
    }
    forall i | 0 <= i < |kids'| ensures KeysIn(kids'[i], ks) {
      KidMerged(kids, j, m, i);
    }
  }

  /** Neighbours l and r, merged. */
  lemma {:induction false} NeighbourKeys(keys: seq<Key>, kids: seq<Node>, j: nat, l: Node, r: Node, d: nat, lo: Bound,
                                         hi: Bound, ks: iset<Key>)
    requires KidsOk(keys, kids, d, lo, hi) && 1 <= j < |keys| && KeysIn(l, ks) && KeysIn(r, ks)
    requires Shape(l, d, Fence(keys, j - 1, lo, hi), Fence(keys, j, lo, hi))
             && Shape(r, d, Fence(keys, j, lo, hi), Fence(keys, j + 1, lo, hi))
    ensures SameKind(l, r) && (l.Branch? ==> |l.keys| == |l.kids| > 0 && |r.keys| == |r.kids| > 0)
    ensures KeysIn(Merge(l, r), ks)
  {
    NeighboursMeet(keys, kids, j, l, r, d, lo, hi);
    MergeKeys(l, r, d, Fence(keys, j, lo, hi), Fence(keys, j + 1, lo, hi), ks);
  }

  lemma {:induction false} MovedKeys(l: Node, r: Node, ks: iset<Key>)
    requires SameKind(l, r) && (l.Branch? ==> |l.keys| == |l.kids| > 0 && |r.keys| == |r.kids| > 0)
             && KeysIn(Merge(l, r), ks)
    ensures Count(r) > 1 ==> var m := MoveLeft(l, r); KeysIn(m.0, ks) && m.1 in ks && KeysIn(m.2, ks)
    ensures Count(l) > 1 ==> var m := MoveRight(l, r); KeysIn(m.0, ks) && m.1 in ks && KeysIn(m.2, ks)
  {
    if Count(r) > 1 {
      MoveLeftIsCut(l, r);
      CutKeys(Merge(l, r), Count(l) + 1, ks);
    }
    if Count(l) > 1 {
      MoveRightIsCut(l, r);
      CutKeys(Merge(l, r), Count(l) - 1, ks);
    }
  }

  lemma {:induction false} RebalanceKeys(keys: seq<Key>, kids: seq<Node>, i: nat, c: Node, d: nat, lo: Bound,
                                         hi: Bound, ks: iset<Key>)
    requires KidsOk(keys, kids, d, lo, hi) && i < |keys| && 2 <= |keys| && Sum(BranchSizes(keys)) <= pmax
    requires Shape(c, d, Fence(keys, i, lo, hi), Fence(keys, i + 1, lo, hi))
    requires SeparatorsIn(keys, ks) && KidsIn(kids, ks) && KeysIn(c, ks)
    ensures DelKeysIn(Rebalance(keys, kids, i, c, d, lo, hi), ks)
  {
    if InOrder(c) {
      assert KidsIn(kids[i := c], ks);
    } else if i == 0 {
      KidShape(keys, kids, 1, d, lo, hi);
      NeighboursMeet(keys, kids, 1, c, kids[1], d, lo, hi);
      NeighbourKeys(keys, kids, 1, c, kids[1], d, lo, hi, ks);
      MovedKeys(c, kids[1], ks);
      if Gives(kids[1]) {
        MovedPairKeys(keys, kids, 1, MoveLeft(c, kids[1]), lo, hi, ks);
      } else {
        MergedPairKeys(keys, kids, 1, Merge(c, kids[1]), ks);
      }
    } else {
      KidShape(keys, kids, i - 1, d, lo, hi);
      NeighboursMeet(keys, kids, i, kids[i - 1], c, d, lo, hi);
      NeighbourKeys(keys, kids, i, kids[i - 1], c, d, lo, hi, ks);
      MovedKeys(kids[i - 1], c, ks);
      if Gives(kids[i - 1]) {
        MovedPairKeys(keys, kids, i, MoveRight(kids[i - 1], c), lo, hi, ks);
      } else {
        MergedPairKeys(keys, kids, i, Merge(kids[i - 1], c), ks);
      }
    }
  }

  lemma {:induction false} AbsorbDelKeys(keys: seq<Key>, kids: seq<Node>, i: nat, res: DelResult, d: nat, lo: Bound,
                                         hi: Bound, ks: iset<Key>)
    requires KidsOk(keys, kids, d, lo, hi) && i < |keys| && 2 <= |keys| && Sum(BranchSizes(keys)) <= pmax
    requires res.Check? ==> Shape(res.node, d, Fence(keys, i, lo, hi), Fence(keys, i + 1, lo, hi))
    requires res.Grew? ==> KeyOk(res.sep)
    requires SeparatorsIn(keys, ks) && KidsIn(kids, ks) && DelKeysIn(res, ks)
    ensures DelKeysIn(AbsorbDel(keys, kids, i, res, d, lo, hi), ks)
  {
    match res
    case Check(c) => RebalanceKeys(keys, kids, i, c, d, lo, hi, ks);
    case Stable(c) => assert KidsIn(kids[i := c], ks);
    case Grew(left, sep, right) => AbsorbKeys(keys, kids, i, Split(left, sep, right), lo, hi, ks);
    case _ =>
  }

  lemma {:induction false} DeleteBelowKeys(keys: seq<Key>, kids: seq<Node>, r: int, res: DelResult, d: nat, lo: Bound,
                                           hi: Bound, ks: iset<Key>)
    requires KidsOk(keys, kids, d, lo, hi) && 2 <= |keys| && Sum(BranchSizes(keys)) <= pmax && InBounds(r, lo, hi)
    requires var kid := kids[ChildIndex(keys, r)]; res.NotFound? <==> Lookup(Records(kid), r).None?
    requires var i := ChildIndex(keys, r);
             !res.NotFound? ==> DelGood(res, Remove(Records(kids[i]), r), d, Fence(keys, i, lo, hi),
                 Fence(keys, i + 1, lo, hi))
    requires SeparatorsIn(keys, ks) && KidsIn(kids, ks) && DelKeysIn(res, ks)
    ensures DelKeysIn(DeleteBelow(keys, kids, r, res, d, lo, hi), ks)
  {
    AbsorbDelKeys(keys, kids, ChildIndex(keys, r), res, d, lo, hi, ks);
  }

  lemma {:induction false} KidsAreIn(keys: seq<Key>, kids: seq<Node>, ks: iset<Key>, i: nat)
    requires KeysIn(Branch(keys, kids), ks) && i < |kids|
    ensures SeparatorsIn(keys, ks) && KidsIn(kids, ks) && KeysIn(kids[i], ks)
  {
  }

  lemma {:induction false} LeafDeleteKeys(es: seq<Entry>, r: int, lo: Bound, hi: Bound, ks: iset<Key>)
    requires EntriesOk(es, lo, hi) && Sum(LeafSizes(es)) <= pmax && EntriesIn(es, ks)
    ensures DelKeysIn(DeleteFromLeaf(es, r, lo, hi), ks)
  {
  }

  /** A deletion adds no key at all: the separators it makes were keys before. */
  lemma {:induction false} DeleteKeys(n: Node, r: int, d: nat, lo: Bound, hi: Bound, ks: iset<Key>)
    requires Valid(n, d, lo, hi) && InBounds(r, lo, hi) && KeysIn(n, ks)
    ensures DelKeysIn(Delete(n, r, d, lo, hi), ks)
    decreases d
  {
    match n
    case Leaf(es) =>
      assert Shape(n, d, lo, hi);
      LeafDeleteKeys(es, r, lo, hi, ks);
    case Branch(keys, kids) =>
      DeleteUnfolds(keys, kids, r, d, lo, hi);
      var i := ChildIndex(keys, r);
      var below, above := Fence(keys, i, lo, hi), Fence(keys, i + 1, lo, hi);
      KidsAreIn(keys, kids, ks, i);
      DeleteKeys(kids[i], r, d - 1, below, above, ks);
      DeleteBelowKeys(keys, kids, r, Delete(kids[i], r, d - 1, below, above), d - 1, lo, hi, ks);
  }

  // ----- short keys -----

  /** Keys of at most 150 bytes: a separator then takes at most sixteen times the
      bytes of a keyless node. */
  ghost function Short(): iset<Key> {
    iset k: Key | k.size <= 150
  }

  /** A new node that the shortcut never misplaces. */
  predicate SmallRecord(key: Key, v: Val) {
    key.size <= 150 && EntryBytes(NewEntry(key, v)) <= 192
  }

  lemma {:induction false} SmallLeafNeverJams(es: seq<Entry>, key: Key, v: Val, append: bool, reuse: bool, lo: Bound,
                                              hi: Bound)
    requires EntriesOk(es, lo, hi) && KeyOk(key) && SmallRecord(key, v)
    ensures !LeafJams(es, key, v, append, reuse)
  {
    var p := LowerBound(EntryRanks(es), key.rank);
    if p < |es| && es[p].key.rank == key.rank {
      DroppedOk(es, p, lo, hi);
      SmallEntryNeverJams(Dropped(es, p), NewEntry(key, v), p, lo, hi);
    } else {
      SmallEntryNeverJams(es, NewEntry(key, v), p, lo, hi);
    }
  }

  lemma {:induction false} SmallPutNeverJams(n: Node, key: Key, v: Val, append: bool, reuse: bool, d: nat, lo: Bound,
                                             hi: Bound)
    requires Valid(n, d, lo, hi) && KeyOk(key) && InBounds(key.rank, lo, hi)
    requires append ==> AllBelow(Records(n), key.rank)
    requires KeysIn(n, Short()) && SmallRecord(key, v)
    ensures !Jams(n, key, v, append, reuse, d, lo, hi)
    decreases d
  {
    match n
    case Leaf(es) =>
      assert Shape(n, d, lo, hi);
      SmallLeafNeverJams(es, key, v, append, reuse, lo, hi);
    case Branch(keys, kids) =>
      PutUnfolds(keys, kids, key, v, append, reuse, d, lo, hi);
      var i := Slot(keys, key.rank, append);
      var below, above := Fence(keys, i, lo, hi), Fence(keys, i + 1, lo, hi);
      SmallPutNeverJams(kids[i], key, v, append, reuse, d - 1, below, above);
      PutKeys(kids[i], key, v, append, reuse, d - 1, below, above, Short());
      var res := Put(kids[i], key, v, append, reuse, d - 1, below, above);
      if res.Split? {
        SmallKeyNeverJams(keys, i, res.sep, lo, hi);
      }
  }

  /** A short separator in place of another never jams a branch either. */
  lemma {:induction false} SmallMoveNeverJams(keys: seq<Key>, j: nat, sep: Key, lo: Bound, hi: Bound)
    requires KeysOk(keys, lo, hi) && 1 <= j < |keys| && KeyOk(sep) && sep.size <= 150
    ensures !MoveJams(keys, j, sep)
  {
    var keys' := keys[j := sep];
    var sizes := BranchSizes(keys');
    forall i | 0 <= i < |sizes| ensures KEYLESS <= sizes[i] {
      KeyFits(keys'[i]);
    }
    SmallNeverMisfits(sizes, j, false, KEYLESS);
  }

  lemma {:induction false} SmallRebalanceNeverJams(keys: seq<Key>, kids: seq<Node>, i: nat, c: Node, d: nat, lo: Bound,
                                                   hi: Bound)
    requires KidsOk(keys, kids, d, lo, hi) && i < |keys| && 2 <= |keys|
    requires Shape(c, d, Fence(keys, i, lo, hi), Fence(keys, i + 1, lo, hi))
    requires KidsIn(kids, Short()) && KeysIn(c, Short())
    ensures !RebalanceJams(keys, kids, i, c, d, lo, hi)
  {
    if !InOrder(c) {
      if i == 0 {
        KidShape(keys, kids, 1, d, lo, hi);
        NeighboursMeet(keys, kids, 1, c, kids[1], d, lo, hi);
        NeighbourKeys(keys, kids, 1, c, kids[1], d, lo, hi, Short());
        MovedKeys(c, kids[1], Short());
        if Gives(kids[1]) {
          SmallMoveNeverJams(keys, 1, MoveLeft(c, kids[1]).1, lo, hi);
        }
      } else {
        KidShape(keys, kids, i - 1, d, lo, hi);
        NeighboursMeet(keys, kids, i, kids[i - 1], c, d, lo, hi);
        NeighbourKeys(keys, kids, i, kids[i - 1], c, d, lo, hi, Short());
        MovedKeys(kids[i - 1], c, Short());
        if Gives(kids[i - 1]) {
          SmallMoveNeverJams(keys, i, MoveRight(kids[i - 1], c).1, lo, hi);
        }
      }
    }
  }

  lemma {:induction false} SmallParentNeverJams(keys: seq<Key>, kids: seq<Node>, i: nat, res: DelResult, d: nat,
                                                lo: Bound, hi: Bound)
    requires KidsOk(keys, kids, d, lo, hi) && i < |keys| && 2 <= |keys|
    requires res.Check? ==> Shape(res.node, d, Fence(keys, i, lo, hi), Fence(keys, i + 1, lo, hi))
    requires res.Grew? ==> KeyOk(res.sep)
    requires KidsIn(kids, Short()) && DelKeysIn(res, Short())
    ensures !ParentJams(keys, kids, i, res, d, lo, hi)
  {
    match res
    case Check(c) => SmallRebalanceNeverJams(keys, kids, i, c, d, lo, hi);
    case Grew(left, sep, right) => SmallKeyNeverJams(keys, i, sep, lo, hi);
    case _ =>
  }

  lemma {:induction false} SmallBelowNeverJams(keys: seq<Key>, kids: seq<Node>, r: int, res: DelResult, d: nat,
                                               lo: Bound, hi: Bound)
    requires KidsOk(keys, kids, d, lo, hi) && 2 <= |keys|
    requires var i := ChildIndex(keys, r);
             !res.NotFound? ==> DelGood(res, Remove(Records(kids[i]), r), d, Fence(keys, i, lo, hi),
                 Fence(keys, i + 1, lo, hi))
    requires KidsIn(kids, Short()) && DelKeysIn(res, Short())
    ensures !BelowJams(keys, kids, r, res, d, lo, hi)
  {
    SmallParentNeverJams(keys, kids, ChildIndex(keys, r), res, d, lo, hi);
  }

  lemma {:induction false} SmallDeleteNeverJams(n: Node, r: int, d: nat, lo: Bound, hi: Bound)
    requires Valid(n, d, lo, hi) && InBounds(r, lo, hi) && KeysIn(n, Short())
    ensures !DeleteJams(n, r, d, lo, hi)
    decreases d
  {
    match n
    case Leaf(_) =>
    case Branch(keys, kids) =>
      DeleteUnfolds(keys, kids, r, d, lo, hi);
      var i := ChildIndex(keys, r);
      var below, above := Fence(keys, i, lo, hi), Fence(keys, i + 1, lo, hi);
      SmallDeleteNeverJams(kids[i], r, d - 1, below, above);
      DeleteKeys(kids[i], r, d - 1, below, above, Short());
      SmallBelowNeverJams(keys, kids, r, Delete(kids[i], r, d - 1, below, above), d - 1, lo, hi);
  }

  // ----- whole databases -----

  ghost predicate DatabaseKeysIn(t: Database, ks: iset<Key>) {
    t.Root? ==> KeysIn(t.node, ks)
  }

  lemma {:induction false} OutcomeKeys(res: PutResult, depth: nat, rs: seq<Record>, ks: iset<Key>)
    requires PutGood(res, rs, depth, Open, Open) && PutKeysIn(res, ks)
    ensures var out := NewOutcome(res, depth, rs); out.Stored? ==> DatabaseKeysIn(out.db, ks)
  {
  }

  /** Keys after a put: those before, and the new one. */
  lemma {:induction false} PutOutcomeKeys(t: Database, key: Key, v: Val, append: bool, reuse: bool, ks: iset<Key>)
    requires ValidDatabase(t) && KeyOk(key) && (append ==> AllBelow(Contents(t), key.rank))
    requires DatabaseKeysIn(t, ks) && key in ks
    ensures var out := PutOutcome(t, key, v, append, reuse); out.Stored? ==> DatabaseKeysIn(out.db, ks)
  {
    if t.Root? {
      PutKeys(t.node, key, v, append, reuse, t.depth, Open, Open, ks);
      OutcomeKeys(Put(t.node, key, v, append, reuse, t.depth, Open, Open), t.depth, Upsert(Contents(t), key.rank, v),
          ks);
    }
  }

  /** With keys of at most 150 bytes in the database, a put of a node of at most
      192 bytes with such a key is never refused for want of space. */
  lemma {:induction false} SmallPutNeverFails(t: Database, key: Key, v: Val, append: bool, reuse: bool)
    requires ValidDatabase(t) && KeyOk(key) && (append ==> AllBelow(Contents(t), key.rank))
    requires DatabaseKeysIn(t, Short()) && SmallRecord(key, v)
    ensures var out := PutOutcome(t, key, v, append, reuse); out.Stored? && DatabaseKeysIn(out.db, Short())
  {
    PutFailsIff(t, key, v, append, reuse);
    if t.Root? {
      SmallPutNeverJams(t.node, key, v, append, reuse, t.depth, Open, Open);
    }
    PutOutcomeKeys(t, key, v, append, reuse, Short());
  }

  lemma {:induction false} DelOutcomeKeys(res: DelResult, depth: nat, rs: seq<Record>, ks: iset<Key>)
    requires (!res.NotFound? ==> DelGood(res, rs, depth, Open, Open)) && DelKeysIn(res, ks)
    ensures var out := TreeDel.Outcome(res, depth, rs); out.Deleted? ==> DatabaseKeysIn(out.db, ks)
  {
  }

  /** Keys after a deletion: none but those before. */
  lemma {:induction false} DeleteRecordKeys(t: Database, r: int, ks: iset<Key>)
    requires ValidDatabase(t) && DatabaseKeysIn(t, ks)
    ensures var out := DeleteRecord(t, r); out.Deleted? ==> DatabaseKeysIn(out.db, ks)
  {
    if t.Root? {
      DeleteKeys(t.node, r, t.depth, Open, Open, ks);
      DelOutcomeKeys(Delete(t.node, r, t.depth, Open, Open), t.depth, Remove(Contents(t), r), ks);
    }
  }

  /** With keys of at most 150 bytes no deletion is refused for want of space. */
  lemma {:induction false} SmallDeleteNeverFails(t: Database, r: int)
    requires ValidDatabase(t) && DatabaseKeysIn(t, Short())
    ensures var out := DeleteRecord(t, r); !out.PageFull? && (out.Deleted? ==> DatabaseKeysIn(out.db, Short()))
  {
    DeleteFailsIff(t, r);
    if t.Root? {
      SmallDeleteNeverJams(t.node, r, t.depth, Open, Open);
    }
    DeleteRecordKeys(t, r, Short());
  }

  // ----- whole runs -----

  datatype Op = PutOp(key: Key, val: Val, reuse: bool) | DelOp(rank: int)

  predicate SmallOp(op: Op) {
    op.PutOp? ==> KeyOk(op.key) && SmallRecord(op.key, op.val)
  }

  /** The database after an operation; a refused one leaves it as it is. */
  function Step(t: Database, op: Op): (t': Database)
    requires ValidDatabase(t) && SmallOp(op)
    ensures ValidDatabase(t')
  {
    match op
    case PutOp(key, v, reuse) =>
      var out := PutOutcome(t, key, v, false, reuse);
      if out.Stored? then out.db else t
    case DelOp(r) =>
      var out := DeleteRecord(t, r);
      if out.Deleted? then out.db else t
  }

  ghost function MapStep(m: map<int, Val>, op: Op): map<int, Val> {
    match op
    case PutOp(key, v, _) => m[key.rank := v]
    case DelOp(r) => m - {r}
  }

  function Run(t: Database, ops: seq<Op>): (t': Database)
    requires ValidDatabase(t) && forall i :: 0 <= i < |ops| ==> SmallOp(ops[i])
    ensures ValidDatabase(t')
    decreases |ops|
  {
    if ops == [] then t else Run(Step(t, ops[0]), ops[1..])
  }

  ghost function MapRun(m: map<int, Val>, ops: seq<Op>): map<int, Val>
    decreases |ops|
  {
    if ops == [] then m else MapRun(MapStep(m, ops[0]), ops[1..])
  }

  lemma {:induction false} SmallStepIsMapStep(t: Database, op: Op)
    requires ValidDatabase(t) && DatabaseKeysIn(t, Short()) && SmallOp(op)
    ensures DatabaseKeysIn(Step(t, op), Short())
    ensures AsMap(Contents(Step(t, op))) == MapStep(AsMap(Contents(t)), op)
  {
    ContentsOrdered(t);
    match op
    case PutOp(key, v, reuse) =>
      SmallPutNeverFails(t, key, v, false, reuse);
      UpsertIsMapUpdate(Contents(t), key.rank, v);
    case DelOp(r) =>
      SmallDeleteNeverFails(t, r);
      if DeleteRecord(t, r).Deleted? {
        RemoveIsMapRemoval(Contents(t), r);
      } else {
        AsMapLookup(Contents(t), r);
      }
  }

  /** Any sequence of puts and deletions with short keys and small nodes does to
      the database what it does to a map: none of them fails. */
  lemma {:induction false} SmallRunsAreMapRuns(t: Database, ops: seq<Op>)
    requires ValidDatabase(t) && DatabaseKeysIn(t, Short()) && forall i :: 0 <= i < |ops| ==> SmallOp(ops[i])
    ensures DatabaseKeysIn(Run(t, ops), Short())
    ensures AsMap(Contents(Run(t, ops))) == MapRun(AsMap(Contents(t)), ops)
    decreases |ops|
  {
    if ops != [] {
      SmallStepIsMapStep(t, ops[0]);
      SmallRunsAreMapRuns(Step(t, ops[0]), ops[1..]);
    }
  }
}
