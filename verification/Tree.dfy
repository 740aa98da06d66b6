/** The B+tree: pages as values, their validity, and searching.

    A key is what the tree code looks at: its position in the order of the
    comparison function, and its length (module Keys relates this to byte
    strings).  Page numbers do not appear: a branch node holds its child page. */
module Tree {
  import opened Basics
  import opened Layout
  import opened SplitPoint

  datatype Key = Key(rank: int, size: nat)

  /** The implicit key in slot 0 of every branch page. */
  const NoKey := Key(0, 0)

  type Val = seq<nat>

  /** `big` is F_BIGDATA: the data is on overflow pages, the node holds their
      page number. */
  datatype Entry = Entry(key: Key, val: Val, big: bool)

  datatype Node = Leaf(es: seq<Entry>) | Branch(keys: seq<Key>, kids: seq<Node>)

  // ----- sizes -----

  /** Free space of an empty page, me_psize - PAGEHDRSZ, for any page size from
      4096 to 65536 bytes. */
  type PageRoom = n: nat | 4080 <= n <= 65520 && n % 16 == 0 witness 4080

  const pmax: PageRoom

  const MAX_KEY: nat := 511

  /** me_nodemax: two nodes of this size and their slots fit a page. */
  const nodeMax: nat := pmax / 4 * 2 - 2

  /** Bytes of a leaf node and its slot. */
  function EntryBytes(e: Entry): nat {
    Even(NODESIZE + e.key.size + (if e.big then PGNO_BYTES else |e.val|)) + 2
  }

  /** Bytes of a branch node and its slot. */
  function KeyBytes(k: Key): nat {
    Even(NODESIZE + k.size) + 2
  }

  const KEYLESS: nat := 10

  function LeafSizes(es: seq<Entry>): seq<nat> {
    seq(|es|, i requires 0 <= i < |es| => EntryBytes(es[i]))
  }

  function BranchSizes(keys: seq<Key>): seq<nat> {
    seq(|keys|, i requires 0 <= i < |keys| => KeyBytes(keys[i]))
  }

  /** NUMKEYS */
  function Count(n: Node): nat {
    match n
    case Leaf(es) => |es|
    case Branch(keys, kids) => |kids|
  }

  /** me_psize - PAGEHDRSZ - SIZELEFT */
  function Used(n: Node): nat {
    match n
    case Leaf(es) => Sum(LeafSizes(es))
    case Branch(keys, kids) => Sum(BranchSizes(keys))
  }

  // ----- validity -----

  datatype Bound = Open | At(rank: int)

  predicate InBounds(r: int, lo: Bound, hi: Bound) {
    (lo.At? ==> lo.rank <= r) && (hi.At? ==> r < hi.rank)
  }

  /** Where the i-th child of a branch begins. */
  function Fence(keys: seq<Key>, i: nat, lo: Bound, hi: Bound): Bound {
    if i == 0 then lo else if i < |keys| then At(keys[i].rank) else hi
  }

  predicate KeyOk(k: Key) {
    1 <= k.size <= MAX_KEY
  }

  predicate EntryOk(e: Entry) {
    KeyOk(e.key) && (!e.big ==> NODESIZE + e.key.size + |e.val| <= nodeMax)
  }

  /** Entries of a leaf: ascending, within the bounds. */
  ghost predicate EntriesOk(es: seq<Entry>, lo: Bound, hi: Bound) {
    && (forall i :: 0 <= i < |es| ==> EntryOk(es[i]) && InBounds(es[i].key.rank, lo, hi))
    && (forall i, j :: 0 <= i < j < |es| ==> es[i].key.rank < es[j].key.rank)
  }

  /** Separators of a branch: slot 0 is empty, the others ascend. */
  ghost predicate KeysOk(keys: seq<Key>, lo: Bound, hi: Bound) {
    && |keys| > 0 && keys[0] == NoKey
    && (forall i :: 1 <= i < |keys| ==> KeyOk(keys[i]) && InBounds(keys[i].rank, lo, hi))
    && (forall i, j :: 1 <= i < j < |keys| ==> keys[i].rank < keys[j].rank)
  }

  /** The fewest nodes a page other than the root may have. */
  function MinCount(n: Node): nat {
    if n.Leaf? then 1 else 2
  }

  /** Children of depth d, each between its separators. */
  ghost predicate KidsOk(keys: seq<Key>, kids: seq<Node>, d: nat, lo: Bound, hi: Bound)
    decreases d, 2
  {
    && |keys| == |kids| && KeysOk(keys, lo, hi)
    && forall i :: 0 <= i < |kids| ==> Valid(kids[i], d, Fence(keys, i, lo, hi), Fence(keys, i + 1, lo, hi))
  }

  /** A subtree of depth d with keys in [lo, hi).  Its top page may be short of
      nodes, all pages below have at least their minimum. */
  ghost predicate Shape(n: Node, d: nat, lo: Bound, hi: Bound)
    decreases d, 0
  {
    && Used(n) <= pmax
    && match n
       case Leaf(es) => d == 1 && EntriesOk(es, lo, hi)
       case Branch(keys, kids) => d > 1 && KidsOk(keys, kids, d - 1, lo, hi)
  }

  ghost predicate Valid(n: Node, d: nat, lo: Bound, hi: Bound)
    decreases d, 1
  {
    Shape(n, d, lo, hi) && Count(n) >= MinCount(n)
  }

  // ----- contents -----

  datatype Record = Record(rank: int, val: Val)

  function Rec(e: Entry): Record {
    Record(e.key.rank, e.val)
  }

  function Recs(es: seq<Entry>): seq<Record> {
    seq(|es|, i requires 0 <= i < |es| => Rec(es[i]))
  }

  /** The records of a subtree in key order. */
  function Records(n: Node): seq<Record>
    decreases n, 1
  {
    match n
    case Leaf(es) => Recs(es)
    case Branch(_, kids) => Flat(kids)
  }

  function Flat(kids: seq<Node>): seq<Record>
    decreases kids, 0
  {
    if kids == [] then [] else Records(kids[0]) + Flat(kids[1..])
  }

  lemma {:induction false} FlatHead(kids: seq<Node>)
    requires kids != []
    ensures Flat(kids) == Records(kids[0]) + Flat(kids[1..])
  {
  }

  lemma {:induction false} Associative<T>(a: seq<T>, b: seq<T>, c: seq<T>)
    ensures a + (b + c) == a + b + c
  {
  }

  lemma {:induction false} FlatAppend(s: seq<Node>, t: seq<Node>)
    ensures Flat(s + t) == Flat(s) + Flat(t)
  {
    if s == [] {
      assert s + t == t;
    } else {
      FlatAppend(s[1..], t);
      assert (s + t)[1..] == s[1..] + t;
      FlatHead(s + t);
      FlatHead(s);
      Associative(Records(s[0]), Flat(s[1..]), Flat(t));
    }
  }

  lemma {:induction false} FlatOne(n: Node)
    ensures Flat([n]) == Records(n)
  {
    assert [n][1..] == [];
  }

  lemma {:induction false} FlatFrom(kids: seq<Node>, i: nat)
    requires i < |kids|
    ensures Flat(kids[i..]) == Records(kids[i]) + Flat(kids[i + 1..])
  {
    assert kids[i..][1..] == kids[i + 1..];
  }

  /** The records around the i-th child. */
  lemma {:induction false} FlatAround(kids: seq<Node>, i: nat)
    requires i < |kids|
    ensures Flat(kids) == Flat(kids[..i]) + Records(kids[i]) + Flat(kids[i + 1..])
  {
    assert kids[..i] + kids[i..] == kids;
    FlatAppend(kids[..i], kids[i..]);
    FlatFrom(kids, i);
  }

  ghost predicate Ordered(rs: seq<Record>, lo: Bound, hi: Bound) {
    && (forall i :: 0 <= i < |rs| ==> InBounds(rs[i].rank, lo, hi))
    && (forall i, j :: 0 <= i < j < |rs| ==> rs[i].rank < rs[j].rank)
  }

  lemma {:induction false} OrderedAppend(s: seq<Record>, t: seq<Record>, lo: Bound, mid: int, hi: Bound)
    requires Ordered(s, lo, At(mid)) && Ordered(t, At(mid), hi) && InBounds(mid, lo, hi)
    ensures Ordered(s + t, lo, hi)
  {
  }

  lemma {:induction false} ShapeOrdered(n: Node, d: nat, lo: Bound, hi: Bound)
    requires Shape(n, d, lo, hi)
    ensures Ordered(Records(n), lo, hi)
    decreases d, 1, 0
  {
    if n.Branch? {
      KidsOrdered(n.keys, n.kids, d - 1, lo, hi, |n.kids|);
      assert n.kids[..|n.kids|] == n.kids;
    }
  }

  /** The records of the first i children lie below the i-th fence. */
  lemma {:induction false} KidsOrdered(keys: seq<Key>, kids: seq<Node>, d: nat, lo: Bound, hi: Bound, i: nat)
    requires KidsOk(keys, kids, d, lo, hi) && i <= |kids|
    ensures i > 0 ==> Ordered(Flat(kids[..i]), lo, Fence(keys, i, lo, hi))
    ensures i == 0 ==> Flat(kids[..i]) == []
    decreases d, 2, i
  {
    if i > 0 {
      KidsOrdered(keys, kids, d, lo, hi, i - 1);
      ShapeOrdered(kids[i - 1], d, Fence(keys, i - 1, lo, hi), Fence(keys, i, lo, hi));
      assert kids[..i] == kids[..i - 1] + [kids[i - 1]];
      FlatAppend(kids[..i - 1], [kids[i - 1]]);
      FlatOne(kids[i - 1]);
      if i > 1 {
        OrderedAppend(Flat(kids[..i - 1]), Records(kids[i - 1]), lo, keys[i - 1].rank, Fence(keys, i, lo, hi));
      }
    }
  }

  /** The records from the i-th child on lie above its fence. */
  lemma {:induction false} LaterKidsOrdered(keys: seq<Key>, kids: seq<Node>, d: nat, lo: Bound, hi: Bound, i: nat)
    requires KidsOk(keys, kids, d, lo, hi) && i <= |kids|
    ensures i < |kids| ==> Ordered(Flat(kids[i..]), Fence(keys, i, lo, hi), hi)
    ensures i == |kids| ==> Flat(kids[i..]) == []
    decreases |kids| - i
  {
    if i < |kids| {
      LaterKidsOrdered(keys, kids, d, lo, hi, i + 1);
      ShapeOrdered(kids[i], d, Fence(keys, i, lo, hi), Fence(keys, i + 1, lo, hi));
      FlatFrom(kids, i);
      if i + 1 < |kids| {
        OrderedAppend(Records(kids[i]), Flat(kids[i + 1..]), Fence(keys, i, lo, hi), keys[i + 1].rank, hi);
      }
    }
  }

  lemma {:induction false} ValidHasRecords(n: Node, d: nat, lo: Bound, hi: Bound)
    requires Valid(n, d, lo, hi)
    ensures Records(n) != []
    decreases d
  {
    if n.Branch? {
      assert KidsOk(n.keys, n.kids, d - 1, lo, hi);
      ValidHasRecords(n.kids[0], d - 1, Fence(n.keys, 0, lo, hi), Fence(n.keys, 1, lo, hi));
    }
  }

  // ----- positions -----

  /** Position of the first rank that is at least r. */
  function LowerBound(ranks: seq<int>, r: int): (p: nat)
    ensures p <= |ranks| && (p < |ranks| ==> ranks[p] >= r)
    ensures forall i :: 0 <= i < p ==> ranks[i] < r
  {
    if ranks == [] || ranks[0] >= r then 0 else 1 + LowerBound(ranks[1..], r)
  }

  lemma {:induction false} LowerBoundIs(ranks: seq<int>, r: int, p: nat)
    requires p <= |ranks| && (p < |ranks| ==> ranks[p] >= r)
    requires forall i :: 0 <= i < p ==> ranks[i] < r
    ensures p == LowerBound(ranks, r)
  {
  }

  function EntryRanks(es: seq<Entry>): seq<int> {
    seq(|es|, i requires 0 <= i < |es| => es[i].key.rank)
  }

  function KeyRanks(keys: seq<Key>): seq<int> {
    seq(|keys|, i requires 0 <= i < |keys| => keys[i].rank)
  }

  function RecordRanks(rs: seq<Record>): seq<int> {
    seq(|rs|, i requires 0 <= i < |rs| => rs[i].rank)
  }

  /** The child of a branch in which rank r belongs. */
  function ChildIndex(keys: seq<Key>, r: int): (i: nat)
    requires |keys| > 0
    ensures i < |keys| && (i > 0 ==> keys[i].rank <= r)
  {
    var p := LowerBound(KeyRanks(keys[1..]), r);
    assert p > 0 ==> KeyRanks(keys[1..])[p - 1] < r;
    if p + 1 < |keys| && keys[p + 1].rank == r then p + 1 else p
  }

  lemma {:induction false} ChildBounds(keys: seq<Key>, r: int, lo: Bound, hi: Bound)
    requires KeysOk(keys, lo, hi) && InBounds(r, lo, hi)
    ensures var i := ChildIndex(keys, r); InBounds(r, Fence(keys, i, lo, hi), Fence(keys, i + 1, lo, hi))
  {
    var p := LowerBound(KeyRanks(keys[1..]), r);
    var i := ChildIndex(keys, r);
    assert forall k :: 0 <= k < |keys| - 1 ==> KeyRanks(keys[1..])[k] == keys[k + 1].rank;
    if i + 1 < |keys| && i == p + 1 {
      assert keys[i].rank < keys[i + 1].rank;
    }
  }

  /** mdb_node_search: binary search among the ranks from position `low` on. */
  method NodeSearch(ranks: seq<int>, low0: nat, r: int) returns (i: nat, exact: bool)
    requires low0 <= 1 && low0 <= |ranks| && forall j, k :: low0 <= j < k < |ranks| ==> ranks[j] < ranks[k]
    ensures low0 < |ranks| ==> low0 <= i <= |ranks|
    ensures low0 < |ranks| ==> forall k :: low0 <= k < i ==> ranks[k] < r
    ensures low0 < |ranks| ==> forall k :: i <= k < |ranks| ==> ranks[k] >= r
    ensures low0 < |ranks| ==> (exact <==> i < |ranks| && ranks[i] == r)
    ensures low0 >= |ranks| ==> i == 0 && (exact <==> |ranks| > 0)
  {
    var low: int, high: int, rc := low0, |ranks| - 1, 0;
    i := 0;
    while low <= high
      invariant low0 <= low <= high + 1 <= |ranks|
      invariant forall k :: low0 <= k < low ==> ranks[k] < r
      invariant forall k :: high < k < |ranks| ==> ranks[k] > r
      invariant rc == 0 ==> i == 0 && low == low0 && high == |ranks| - 1
      invariant rc > 0 ==> i == low - 1
      invariant low0 == |ranks| ==> rc == 0
      invariant rc < 0 ==> i == high + 1
    {
      i := (low + high) / 2;
      rc := if r > ranks[i] then 1 else if r < ranks[i] then -1 else 0;
      if rc == 0 {
        break;
      }
      if rc > 0 {
        low := i + 1;
      } else {
        high := i - 1;
      }
    }
    if rc > 0 {
      i := i + 1;
    }
    exact := rc == 0 && |ranks| > 0;
  }

  /** One step of mdb_page_search_root: the slot to follow. */
  method FollowIndex(keys: seq<Key>, r: int) returns (i: nat)
    requires |keys| > 0 && forall j, k :: 1 <= j < k < |keys| ==> keys[j].rank < keys[k].rank
    ensures i == ChildIndex(keys, r)
  {
    var exact;
    i, exact := NodeSearch(KeyRanks(keys), 1, r);
    ghost var tail := KeyRanks(keys[1..]);
    assert forall k :: 0 <= k < |tail| ==> tail[k] == KeyRanks(keys)[k + 1];
    if |keys| > 1 {
      LowerBoundIs(tail, r, i - 1);
    }
    if i >= |keys| {
      i := |keys| - 1;
    } else if !exact {
      i := i - 1;
    }
  }

  // ----- lookup -----

  /** Does rank r stand at position p? */
  predicate Stands(rs: seq<Record>, p: nat, r: int) {
    p < |rs| && rs[p].rank == r
  }

  function Lookup(rs: seq<Record>, r: int): Option<Val> {
    var p := LowerBound(RecordRanks(rs), r);
    if Stands(rs, p, r) then Some(rs[p].val) else None
  }

  ghost predicate AllBelow(rs: seq<Record>, r: int) {
    forall i :: 0 <= i < |rs| ==> rs[i].rank < r
  }

  ghost predicate AllAbove(rs: seq<Record>, r: int) {
    forall i :: 0 <= i < |rs| ==> rs[i].rank > r
  }

  lemma {:induction false} PositionInMiddle(a: seq<Record>, b: seq<Record>, c: seq<Record>, r: int)
    requires AllBelow(a, r) && AllAbove(c, r)
    ensures LowerBound(RecordRanks(a + b + c), r) == |a| + LowerBound(RecordRanks(b), r)
  {
    var p := LowerBound(RecordRanks(b), r);
    var all := a + b + c;
    assert forall i :: 0 <= i < |b| ==> RecordRanks(b)[i] == b[i].rank;
    assert forall i :: 0 <= i < |all| ==> RecordRanks(all)[i] == all[i].rank;
    LowerBoundIs(RecordRanks(all), r, |a| + p);
  }

  lemma {:induction false} LookupInMiddle(a: seq<Record>, b: seq<Record>, c: seq<Record>, r: int)
    requires AllBelow(a, r) && AllAbove(c, r)
    ensures Lookup(a + b + c, r) == Lookup(b, r)
  {
    PositionInMiddle(a, b, c, r);
  }

  /** The records around the child that rank r belongs to. */
  lemma {:induction false} AroundChild(keys: seq<Key>, kids: seq<Node>, d: nat, lo: Bound, hi: Bound, r: int)
    requires KidsOk(keys, kids, d, lo, hi) && InBounds(r, lo, hi)
    ensures var i := ChildIndex(keys, r);
            && AllBelow(Flat(kids[..i]), r) && AllAbove(Flat(kids[i + 1..]), r)
            && InBounds(r, Fence(keys, i, lo, hi), Fence(keys, i + 1, lo, hi))
            && Flat(kids) == Flat(kids[..i]) + Records(kids[i]) + Flat(kids[i + 1..])
  {
    var i := ChildIndex(keys, r);
    ChildBounds(keys, r, lo, hi);
    KidsOrdered(keys, kids, d, lo, hi, i);
    LaterKidsOrdered(keys, kids, d, lo, hi, i + 1);
    FlatAround(kids, i);
  }

  lemma {:induction false} LookupDescends(n: Node, d: nat, lo: Bound, hi: Bound, r: int)
    requires n.Branch? && d > 1 && KidsOk(n.keys, n.kids, d - 1, lo, hi) && InBounds(r, lo, hi)
    ensures var i := ChildIndex(n.keys, r);
            && i < |n.kids| && Valid(n.kids[i], d - 1, Fence(n.keys, i, lo, hi), Fence(n.keys, i + 1, lo, hi))
            && InBounds(r, Fence(n.keys, i, lo, hi), Fence(n.keys, i + 1, lo, hi))
            && Lookup(Records(n), r) == Lookup(Records(n.kids[i]), r)
  {
    var i := ChildIndex(n.keys, r);
    AroundChild(n.keys, n.kids, d - 1, lo, hi, r);
    LookupInMiddle(Flat(n.kids[..i]), Records(n.kids[i]), Flat(n.kids[i + 1..]), r);
  }

  method FindInLeaf(es: seq<Entry>, r: int, ghost lo: Bound, ghost hi: Bound) returns (found: Option<Val>)
    requires EntriesOk(es, lo, hi)
    ensures found == Lookup(Recs(es), r)
  {
    var p, exact := NodeSearch(EntryRanks(es), 0, r);
    if es == [] {
      return None;
    }
    assert RecordRanks(Recs(es)) == EntryRanks(es);
    LowerBoundIs(RecordRanks(Recs(es)), r, p);
    found := if exact then Some(es[p].val) else None;
  }

  /** mdb_page_search and mdb_node_search: look a key up from the root. */
  method Find(root: Node, ghost d0: nat, r: int) returns (found: Option<Val>)
    requires Shape(root, d0, Open, Open)
    ensures found == Lookup(Records(root), r)
  {
    var n := root;
    ghost var d, lo, hi := d0, Open, Open;
    while n.Branch?
      invariant Shape(n, d, lo, hi) && InBounds(r, lo, hi)
      invariant Lookup(Records(n), r) == Lookup(Records(root), r)
      decreases d
    {
      assert KidsOk(n.keys, n.kids, d - 1, lo, hi);
      LookupDescends(n, d, lo, hi, r);
      var i := FollowIndex(n.keys, r);
      d, lo, hi := d - 1, Fence(n.keys, i, lo, hi), Fence(n.keys, i + 1, lo, hi);
      n := n.kids[i];
    }
    found := FindInLeaf(n.es, r, lo, hi);
  }

  // ----- updates of the contents -----

  /** The records after a put of value v under rank r. */
  function Upsert(rs: seq<Record>, r: int, v: Val): seq<Record> {
    var p := LowerBound(RecordRanks(rs), r);
    if Stands(rs, p, r) then rs[p := Record(r, v)] else WithNew(rs, Record(r, v), p)
  }

  /** The records after a deletion of rank r. */
  function Remove(rs: seq<Record>, r: int): seq<Record> {
    var p := LowerBound(RecordRanks(rs), r);
    if Stands(rs, p, r) then Dropped(rs, p) else rs
  }

  lemma {:induction false} UpdateInMiddle<T>(a: seq<T>, b: seq<T>, c: seq<T>, p: nat, x: T)
    requires p < |b|
    ensures (a + b + c)[|a| + p := x] == a + b[p := x] + c
  {
  }

  lemma {:induction false} InsertInMiddle<T>(a: seq<T>, b: seq<T>, c: seq<T>, p: nat, x: T)
    requires p <= |b|
    ensures WithNew(a + b + c, x, |a| + p) == a + WithNew(b, x, p) + c
  {
    assert (a + b + c)[..|a| + p] == a + b[..p];
    assert (a + b + c)[|a| + p..] == b[p..] + c;
  }

  lemma {:induction false} DropInMiddle<T>(a: seq<T>, b: seq<T>, c: seq<T>, p: nat)
    requires p < |b|
    ensures Dropped(a + b + c, |a| + p) == a + Dropped(b, p) + c
  {
    assert (a + b + c)[..|a| + p] == a + b[..p];
    assert (a + b + c)[|a| + p + 1..] == b[p + 1..] + c;
  }

  lemma {:induction false} StandsInMiddle(a: seq<Record>, b: seq<Record>, c: seq<Record>, p: nat, r: int)
    requires p <= |b| && AllAbove(c, r)
    ensures Stands(a + b + c, |a| + p, r) <==> Stands(b, p, r)
  {
  }

  lemma {:induction false} UpsertInMiddle(a: seq<Record>, b: seq<Record>, c: seq<Record>, r: int, v: Val)
    requires AllBelow(a, r) && AllAbove(c, r)
    ensures Upsert(a + b + c, r, v) == a + Upsert(b, r, v) + c
  {
    PositionInMiddle(a, b, c, r);
    var p := LowerBound(RecordRanks(b), r);
    StandsInMiddle(a, b, c, p, r);
    var all, x := a + b + c, Record(r, v);
    if Stands(b, p, r) {
      UpdateInMiddle(a, b, c, p, x);
      assert Upsert(all, r, v) == all[|a| + p := x] && Upsert(b, r, v) == b[p := x];
    } else {
      InsertInMiddle(a, b, c, p, x);
      assert Upsert(all, r, v) == WithNew(all, x, |a| + p) && Upsert(b, r, v) == WithNew(b, x, p);
    }
  }

  lemma {:induction false} RemoveInMiddle(a: seq<Record>, b: seq<Record>, c: seq<Record>, r: int)
    requires AllBelow(a, r) && AllAbove(c, r)
    ensures Remove(a + b + c, r) == a + Remove(b, r) + c
  {
    PositionInMiddle(a, b, c, r);
    var p := LowerBound(RecordRanks(b), r);
    StandsInMiddle(a, b, c, p, r);
    RemoveIs(b, r, p);
    RemoveIs(a + b + c, r, |a| + p);
    if Stands(b, p, r) {
      DropInMiddle(a, b, c, p);
    }
  }

  lemma {:induction false} RemoveIs(rs: seq<Record>, r: int, p: nat)
    requires p == LowerBound(RecordRanks(rs), r)
    ensures Remove(rs, r) == if Stands(rs, p, r) then Dropped(rs, p) else rs
  {
  }

  /** In ascending records, a record is found exactly if it is there. */
  lemma {:induction false} LookupIsMembership(rs: seq<Record>, r: int, v: Val)
    requires Ordered(rs, Open, Open)
    ensures Lookup(rs, r) == Some(v) <==> Record(r, v) in rs
  {
    var p := LowerBound(RecordRanks(rs), r);
    assert forall i :: 0 <= i < |rs| ==> RecordRanks(rs)[i] == rs[i].rank;
    if Record(r, v) in rs {
      var i :| 0 <= i < |rs| && rs[i] == Record(r, v);
      assert !(i < p) && !(p < i);
    }
  }

  lemma {:induction false} PositionOf(rs: seq<Record>, r: int)
    ensures var p := LowerBound(RecordRanks(rs), r);
            && p <= |rs| && (forall i :: 0 <= i < p ==> rs[i].rank < r) && (p < |rs| ==> rs[p].rank >= r)
  {
    var p := LowerBound(RecordRanks(rs), r);
    assert forall i :: 0 <= i < |rs| ==> RecordRanks(rs)[i] == rs[i].rank;
  }

  /** Equal memberships, equal lookups. */
  lemma {:induction false} LookupFromMembership(rs: seq<Record>, ts: seq<Record>, x: int)
    requires Ordered(rs, Open, Open) && Ordered(ts, Open, Open)
    requires forall w :: Record(x, w) in rs <==> Record(x, w) in ts
    ensures Lookup(rs, x) == Lookup(ts, x)
  {
    if Lookup(rs, x).Some? {
      LookupIsMembership(rs, x, Lookup(rs, x).value);
      LookupIsMembership(ts, x, Lookup(rs, x).value);
    } else if Lookup(ts, x).Some? {
      LookupIsMembership(rs, x, Lookup(ts, x).value);
      LookupIsMembership(ts, x, Lookup(ts, x).value);
    }
  }

  lemma {:induction false} UpsertOrdered(rs: seq<Record>, r: int, v: Val)
    requires Ordered(rs, Open, Open)
    ensures Ordered(Upsert(rs, r, v), Open, Open) && Record(r, v) in Upsert(rs, r, v)
  {
    PositionOf(rs, r);
    var p := LowerBound(RecordRanks(rs), r);
    assert Upsert(rs, r, v)[p] == Record(r, v);
  }

  lemma {:induction false} UpsertKeeps(rs: seq<Record>, r: int, v: Val, x: Record)
    requires Ordered(rs, Open, Open) && x.rank != r
    ensures x in rs <==> x in Upsert(rs, r, v)
  {
    var p := LowerBound(RecordRanks(rs), r);
    if Stands(rs, p, r) {
      assert rs == rs[..p] + [rs[p]] + rs[p + 1..];
      assert Upsert(rs, r, v) == rs[..p] + [Record(r, v)] + rs[p + 1..];
    } else {
      assert rs == rs[..p] + rs[p..];
    }
  }

  /** A put changes one key and leaves all others. */
  lemma {:induction false} UpsertLaws(rs: seq<Record>, r: int, v: Val, x: int)
    requires Ordered(rs, Open, Open)
    ensures Ordered(Upsert(rs, r, v), Open, Open)
    ensures Lookup(Upsert(rs, r, v), x) == if x == r then Some(v) else Lookup(rs, x)
    ensures |Upsert(rs, r, v)| == |rs| + (if Lookup(rs, r).None? then 1 else 0)
  {
    UpsertOrdered(rs, r, v);
    var after := Upsert(rs, r, v);
    if x == r {
      LookupIsMembership(after, r, v);
    } else {
      forall w ensures Record(x, w) in rs <==> Record(x, w) in after {
        UpsertKeeps(rs, r, v, Record(x, w));
      }
      LookupFromMembership(rs, after, x);
    }
  }

  lemma {:induction false} NothingStands(rs: seq<Record>, r: int)
    requires forall i :: 0 <= i < |rs| ==> rs[i].rank != r
    ensures Lookup(rs, r) == None
  {
  }

  /** A deletion removes one key and leaves all others. */
  lemma {:induction false} RemoveLaws(rs: seq<Record>, r: int, x: int)
    requires Ordered(rs, Open, Open)
    ensures Ordered(Remove(rs, r), Open, Open)
    ensures Lookup(Remove(rs, r), x) == if x == r then None else Lookup(rs, x)
    ensures |Remove(rs, r)| == |rs| - (if Lookup(rs, r).None? then 0 else 1)
  {
    PositionOf(rs, r);
    var after := Remove(rs, r);
    if x == r {
      NothingStands(after, r);
    } else {
      LookupFromMembership(rs, after, x);
    }
  }

  // ----- the contents as a map -----

  ghost function AsMap(rs: seq<Record>): map<int, Val> {
    map r | r in (set x | x in rs :: x.rank) && Lookup(rs, r).Some? :: Lookup(rs, r).value
  }

  lemma {:induction false} AsMapLookup(rs: seq<Record>, r: int)
    ensures r in AsMap(rs) <==> Lookup(rs, r).Some?
    ensures r in AsMap(rs) ==> AsMap(rs)[r] == Lookup(rs, r).value
  {
    var p := LowerBound(RecordRanks(rs), r);
    if Stands(rs, p, r) {
      assert rs[p] in rs && rs[p].rank == r;
    }
  }

  /** A map that answers every lookup is the map of the records. */
  lemma {:induction false} AsMapUnique(rs: seq<Record>, m: map<int, Val>)
    requires forall x :: Lookup(rs, x) == if x in m then Some(m[x]) else None
    ensures AsMap(rs) == m
  {
    forall x ensures x in AsMap(rs) <==> x in m ensures x in m ==> AsMap(rs)[x] == m[x] {
      AsMapLookup(rs, x);
    }
  }

  /** A put is an update of the map. */
  lemma {:induction false} UpsertIsMapUpdate(rs: seq<Record>, r: int, v: Val)
    requires Ordered(rs, Open, Open)
    ensures AsMap(Upsert(rs, r, v)) == AsMap(rs)[r := v]
  {
    var m := AsMap(rs)[r := v];
    forall x ensures Lookup(Upsert(rs, r, v), x) == if x in m then Some(m[x]) else None {
      UpsertLaws(rs, r, v, x);
      AsMapLookup(rs, x);
    }
    AsMapUnique(Upsert(rs, r, v), m);
  }

  /** A deletion removes the key from the map. */
  lemma {:induction false} RemoveIsMapRemoval(rs: seq<Record>, r: int)
    requires Ordered(rs, Open, Open)
    ensures AsMap(Remove(rs, r)) == AsMap(rs) - {r}
  {
    var m := AsMap(rs) - {r};
    forall x ensures Lookup(Remove(rs, r), x) == if x in m then Some(m[x]) else None {
      RemoveLaws(rs, r, x);
      AsMapLookup(rs, x);
    }
    AsMapUnique(Remove(rs, r), m);
  }
}
