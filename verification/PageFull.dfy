/** MDB_PAGE_FULL: whenever a put or a deletion reports it, another split of the
    page would have fitted; and databases for which it happens. */
module PageFull {
  import opened Basics
  import opened SplitPoint
  import opened Tree
  import opened TreePut
  import opened TreeDel

  // ----- it is always the shortcut's fault -----

  /** A page of 33 nodes or more with a new one that is not the last and at most a
      sixteenth of a page; another split of it would have fitted, the one in the
      middle does not. */
  ghost predicate ShortcutsFault(sizes: seq<nat>, newindx: nat, isLeaf: bool) {
    && |sizes| >= 33 && newindx + 1 < |sizes| && 16 * sizes[newindx] <= pmax
    && !GoodSplit(sizes, |sizes| / 2, isLeaf, pmax, KEYLESS)
    && exists split :: GoodSplit(sizes, split, isLeaf, pmax, KEYLESS)
  }

  lemma {:induction false} PutCouldFit(t: Database, key: Key, v: Val, append: bool, reuse: bool)
    requires ValidDatabase(t) && KeyOk(key) && (append ==> AllBelow(Contents(t), key.rank))
    requires PutOutcome(t, key, v, append, reuse).PageFull?
    ensures var out := PutOutcome(t, key, v, append, reuse);
            ShortcutsFault(out.sizes, out.newindx, out.isLeaf)
  {
    var out := PutOutcome(t, key, v, append, reuse);
    var split := SomeSplitFits(out.sizes, out.newindx, out.isLeaf, pmax, KEYLESS);
  }

  lemma {:induction false} DeleteCouldFit(t: Database, r: int)
    requires ValidDatabase(t) && DeleteRecord(t, r).PageFull?
    ensures var out := DeleteRecord(t, r); ShortcutsFault(out.sizes, out.newindx, out.isLeaf)
  {
    var out := DeleteRecord(t, r);
    var split := SomeSplitFits(out.sizes, out.newindx, out.isLeaf, pmax, KEYLESS);
  }

  // ----- a put that fails -----

  function Zeros(n: nat): Val {
    seq(n, _ => 0)
  }

  /** 32 records, the first sixteen small, in a page of 4096 bytes. */
  function LopsidedEntry(i: nat): Entry {
    Entry(Key(2 * i, 1), Zeros(if i < 16 then 1 else 231), false)
  }

  function LopsidedLeaf(): seq<Entry> {
    seq(32, i requires 0 <= i => LopsidedEntry(i))
  }

  lemma {:induction false} LopsidedSizes()
    ensures LeafSizes(LopsidedLeaf()) == Repeat(16, 12) + Repeat(16, 242)
    ensures Sum(LeafSizes(LopsidedLeaf())) == 4064
  {
    var sizes := LeafSizes(LopsidedLeaf());
    forall i | 0 <= i < 32 ensures sizes[i] == (Repeat(16, 12) + Repeat(16, 242))[i] {
      assert LopsidedLeaf()[i] == LopsidedEntry(i);
    }
    assert sizes == Repeat(16, 12) + Repeat(16, 242);
    SumRepeat(16, 12);
    SumRepeat(16, 242);
    SumAppend(Repeat(16, 12), Repeat(16, 242));
  }

  lemma {:induction false} LopsidedValid()
    requires pmax == 4080
    ensures EntriesOk(LopsidedLeaf(), Open, Open) && Valid(Leaf(LopsidedLeaf()), 1, Open, Open)
    ensures LowerBound(EntryRanks(LopsidedLeaf()), 39) == 20
  {
    var es := LopsidedLeaf();
    assert forall i :: 0 <= i < 32 ==> es[i] == LopsidedEntry(i);
    LopsidedSizes();
    assert EntriesOk(es, Open, Open);
    assert Shape(Leaf(es), 1, Open, Open);
    assert forall i :: 0 <= i < 32 ==> EntryRanks(es)[i] == 2 * i;
    LowerBoundIs(EntryRanks(es), 39, 20);
  }

  /** The page with the new node. */
  function LopsidedNew(): seq<nat> {
    WithNew(Repeat(16, 12) + Repeat(16, 242), 254, 20)
  }

  lemma {:induction false} LopsidedMisfit()
    requires pmax == 4080
    ensures ShortcutMisfit(LopsidedNew(), 20, true) && GoodSplit(LopsidedNew(), 20, true, pmax, KEYLESS)
  {
    ShortcutCanOverflow();
    ShortcutSplitFits(LopsidedNew(), 20, true, 4080, 10);
  }

  lemma {:induction false} LopsidedNewSizes()
    requires pmax == 4080
    ensures LeafSizes(WithNew(LopsidedLeaf(), NewEntry(Key(39, 1), Zeros(243)), 20)) == LopsidedNew()
  {
    LopsidedSizes();
    LeafSizesWithNew(LopsidedLeaf(), NewEntry(Key(39, 1), Zeros(243)), 20);
  }

  lemma {:induction false} LopsidedJams(reuse: bool)
    requires pmax == 4080
    ensures LeafJams(LopsidedLeaf(), Key(39, 1), Zeros(243), false, reuse)
  {
    LopsidedValid();
    LopsidedNewSizes();
    LopsidedMisfit();
    assert LopsidedLeaf()[20] == LopsidedEntry(20);
  }

  /** A valid database of one page, a new key and 243 bytes of data: the put is
      refused, although a split after 20 nodes would have fitted. */
  lemma {:induction false} PutCanFail(reuse: bool)
    requires pmax == 4080
    ensures var t, key, v := Root(Leaf(LopsidedLeaf()), 1), Key(39, 1), Zeros(243);
            && ValidDatabase(t) && KeyOk(key) && Lookup(Contents(t), 39).None?
            && PutOutcome(t, key, v, false, reuse).PageFull?
            && GoodSplit(LeafSizes(WithNew(LopsidedLeaf(), NewEntry(key, v), 20)), 20, true, pmax, KEYLESS)
  {
    var es, key, v := LopsidedLeaf(), Key(39, 1), Zeros(243);
    LopsidedValid();
    LopsidedJams(reuse);
    LopsidedNewSizes();
    LopsidedMisfit();
    PutFailsIff(Root(Leaf(es), 1), key, v, false, reuse);
    NothingAt(es, 39, 20);
  }

  lemma {:induction false} NothingAt(es: seq<Entry>, r: int, p: nat)
    requires p == LowerBound(EntryRanks(es), r) < |es| && es[p].key.rank != r
    ensures Lookup(Recs(es), r).None?
  {
    assert RecordRanks(Recs(es)) == EntryRanks(es);
  }

  // ----- a deletion that fails -----

  /** 33 separators, the long ones in the right half, in a page of 4096 bytes. */
  function LopsidedKey(i: nat): Key {
    if i == 0 then NoKey else Key(100 * i, if i <= 16 || i == 20 then 1 else 246)
  }

  function LopsidedKeys(): seq<Key> {
    seq(33, i requires 0 <= i => LopsidedKey(i))
  }

  /** The leaf under separator i holds one record, filled above the threshold; the
      one left of separator 20 a second record, with a long key. */
  function LopsidedKid(i: nat): Node {
    Leaf([Entry(Key(100 * i + 10, 1), Zeros(1020), false)] + if i == 19 then [Entry(Key(1950, 244), [], false)] else [])
  }

  function LopsidedKids(): seq<Node> {
    seq(33, i requires 0 <= i => LopsidedKid(i))
  }

  lemma {:induction false} SumOfFive(a: seq<nat>, b: seq<nat>, c: seq<nat>, d: seq<nat>, e: seq<nat>)
    ensures Sum(a + b + c + d + e) == Sum(a) + Sum(b) + Sum(c) + Sum(d) + Sum(e)
  {
    SumAppend(a + b + c + d, e);
    SumAppend(a + b + c, d);
    SumAppend(a + b, c);
    SumAppend(a, b);
  }

  /** Bytes of the branch with `size` bytes for separator 20. */
  function LopsidedBranch(size: nat): seq<nat> {
    [10] + Repeat(16, 12) + Repeat(3, 256) + [size] + Repeat(12, 256)
  }

  lemma {:induction false} LopsidedSum(size: nat)
    ensures Sum(LopsidedBranch(size)) == 4042 + size
  {
    SumOfFive([10], Repeat(16, 12), Repeat(3, 256), [size], Repeat(12, 256));
    SumRepeat(16, 12);
    SumRepeat(3, 256);
    SumRepeat(12, 256);
    SumOne([10]);
    SumOne([size]);
  }

  lemma {:induction false} LopsidedBranchSizes()
    ensures BranchSizes(LopsidedKeys()) == LopsidedBranch(12)
    ensures BranchSizes(LopsidedKeys()[20 := Key(1950, 244)]) == LopsidedBranch(254)
  {
    var a, b := BranchSizes(LopsidedKeys()), BranchSizes(LopsidedKeys()[20 := Key(1950, 244)]);
    assert |LopsidedBranch(12)| == |LopsidedBranch(254)| == 33;
    forall i | 0 <= i < 33 ensures a[i] == LopsidedBranch(12)[i] && b[i] == LopsidedBranch(254)[i] {
      assert LopsidedKeys()[i] == LopsidedKey(i);
    }
  }

  /** The longer separator makes the shortcut split the branch badly. */
  lemma {:induction false} LopsidedMoveJams()
    requires pmax == 4080
    ensures MoveJams(LopsidedKeys(), 20, Key(1950, 244))
  {
    LopsidedBranchSizes();
    LopsidedSum(254);
    var sizes := LopsidedBranch(254);
    assert sizes[20] == 254 && sizes[16] == 12 && sizes[0] == 10;
    assert sizes[..16] == [10] + Repeat(15, 12);
    SumAppend([10], Repeat(15, 12));
    SumOne([10]);
    SumRepeat(15, 12);
    assert Overfull(sizes, 20, false, pmax, KEYLESS);
    MisfitIs(sizes, 20, false);
  }

  lemma {:induction false} LopsidedKidValid(i: nat)
    requires pmax == 4080 && i < 33
    ensures Valid(LopsidedKid(i), 1, if i == 0 then Open else At(100 * i), if i == 32 then Open else At(100 * i + 100))
    ensures 4 * Used(LopsidedKid(i)) >= pmax
  {
    var es := LopsidedKid(i).es;
    var sizes := LeafSizes(es);
    assert sizes[0] == 1032;
    if i == 19 {
      assert sizes == [1032] + [254];
      SumAppend([1032], [254]);
      SumOne([1032]);
      SumOne([254]);
    } else {
      SumOne(sizes);
    }
    var lo, hi := if i == 0 then Open else At(100 * i), if i == 32 then Open else At(100 * i + 100);
    assert EntriesOk(es, lo, hi);
    assert Shape(Leaf(es), 1, lo, hi);
  }

  lemma {:induction false} LopsidedKidsOk()
    requires pmax == 4080
    ensures KidsOk(LopsidedKeys(), LopsidedKids(), 1, Open, Open)
  {
    var keys, kids := LopsidedKeys(), LopsidedKids();
    assert forall i :: 0 <= i < 33 ==> keys[i] == LopsidedKey(i);
    forall i | 0 <= i < |kids| ensures Valid(kids[i], 1, Fence(keys, i, Open, Open), Fence(keys, i + 1, Open, Open)) {
      LopsidedKidValid(i);
    }
  }

  lemma {:induction false} LopsidedFilled()
    requires pmax == 4080
    ensures forall i :: 0 <= i < |LopsidedKids()| ==> 4 * Used(LopsidedKids()[i]) >= pmax
  {
    forall i | 0 <= i < |LopsidedKids()|
      ensures 4 * Used(LopsidedKids()[i]) >= pmax
    {
      LopsidedKidValid(i);
    }
  }

  lemma {:induction false} LopsidedTreeValid()
    requires pmax == 4080
    ensures Valid(Branch(LopsidedKeys(), LopsidedKids()), 2, Open, Open)
  {
    LopsidedKidsOk();
    LopsidedBranchSizes();
    LopsidedSum(12);
    BranchValid(LopsidedKeys(), LopsidedKids(), 1, Open, Open);
  }

  lemma {:induction false} LopsidedChild()
    ensures ChildIndex(LopsidedKeys(), 2010) == 20
  {
    var keys := LopsidedKeys();
    var tail := KeyRanks(keys[1..]);
    assert forall k :: 0 <= k < |tail| ==> tail[k] == LopsidedKey(k + 1).rank;
    LowerBoundIs(tail, 2010, 20);
  }

  /** Deleting the only record of leaf 20 makes leaf 19 give its last record. */
  lemma {:induction false} LopsidedRebalance()
    requires pmax == 4080
    ensures KidsOk(LopsidedKeys(), LopsidedKids(), 1, Open, Open)
    ensures RebalanceJams(LopsidedKeys(), LopsidedKids(), 20, Leaf([]), 1, Open, Open)
  {
    LopsidedKidsOk();
    var keys, kids := LopsidedKeys(), LopsidedKids();
    assert LeafSizes([]) == [];
    assert EntriesOk([], Fence(keys, 20, Open, Open), Fence(keys, 21, Open, Open));
    assert kids[19] == LopsidedKid(19);
    LopsidedKidValid(19);
    LopsidedMoveJams();
  }

  lemma {:induction false} LopsidedDelete()
    requires pmax == 4080
    ensures Valid(LopsidedKid(20), 1, At(2000), At(2100))
    ensures Delete(LopsidedKid(20), 2010, 1, At(2000), At(2100)) == Check(Leaf([]))
  {
    LopsidedKidValid(20);
    var es := LopsidedKid(20).es;
    LowerBoundIs(EntryRanks(es), 2010, 0);
    assert Dropped(es, 0) == [];
  }

  /** A valid database of depth two, all of whose leaves are filled above the
      threshold: the deletion of a record is refused, although some split of the
      branch would have fitted. */
  lemma {:induction false} DeleteCanFail()
    requires pmax == 4080
    ensures var t := Root(Branch(LopsidedKeys(), LopsidedKids()), 2);
            && ValidDatabase(t) && Lookup(Contents(t), 2010).Some? && DeleteRecord(t, 2010).PageFull?
            && exists split :: GoodSplit(LopsidedBranch(254), split, false, pmax, KEYLESS)
    ensures forall i :: 0 <= i < |LopsidedKids()| ==> 4 * Used(LopsidedKids()[i]) >= pmax
  {
    var keys, kids := LopsidedKeys(), LopsidedKids();
    LopsidedFilled();
    LopsidedTreeValid();
    LopsidedChild();
    LopsidedDelete();
    LopsidedRebalance();
    DeleteUnfolds(keys, kids, 2010, 2, Open, Open);
    assert kids[20] == LopsidedKid(20) && keys[20] == LopsidedKey(20) && keys[21] == LopsidedKey(21);
    assert ParentJams(keys, kids, 20, Check(Leaf([])), 1, Open, Open);
    DeleteFailsIff(Root(Branch(keys, kids), 2), 2010);
    LopsidedMoveJams();
    LopsidedBranchSizes();
    var split := SomeSplitFits(LopsidedBranch(254), 20, false, pmax, KEYLESS);
  }
}
