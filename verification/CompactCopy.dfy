/** The compacting copy: mdb_env_cwalk and the prediction of the new root in
    mdb_env_copyfd1.

    The pages of a database are written in the order in which the walk completes
    them, and numbered in that order from page 2 on. */
module CompactCopy {
  import opened PageAccounts

  type Key = seq<nat>
  type Val = seq<nat>

  /** A record of a leaf: data in the node, on `count` overflow pages from
      `pgno` on, or a named database. */
  datatype Item =
    | Inline(key: Key, val: Val)
    | Big(key: Key, pgno: Pgno, count: nat, val: Val)
    | Sub(key: Key, db: Database)

  datatype Database = Empty | Root(tree: Tree)

  datatype Tree =
    | Leaf(pgno: Pgno, items: seq<Item>)
    | Branch(pgno: Pgno, keys: seq<Key>, kids: seq<Tree>)

  // ----- what is written -----

  /** Records and pages as they stand in the new file. */
  datatype NewItem =
    | Stored(key: Key, val: Val)
    | Overflows(key: Key, pgno: Pgno)
    | NamedEmpty(key: Key)
    | Named(key: Key, root: Pgno)

  datatype Page =
    | LeafPage(items: seq<NewItem>)
    | BranchPage(keys: seq<Key>, refs: seq<Pgno>)
    | OverPages(count: nat, val: Val)

  datatype Numbered = Numbered(pgno: Pgno, page: Page)

  /** Every branch has children, as many as keys; every overflow run has pages. */
  ghost predicate Proper(t: Tree)
  {
    match t
    case Leaf(_, items) => forall i :: 0 <= i < |items| ==> ProperItem(items[i])
    case Branch(_, keys, kids) => |keys| == |kids| > 0 && forall i :: 0 <= i < |kids| ==> Proper(kids[i])
  }

  ghost predicate ProperItem(item: Item) {
    match item
    case Inline(_, _) => true
    case Big(_, _, count, _) => count > 0
    case Sub(_, db) => db.Root? ==> Proper(db.tree)
  }

  /** Number of pages of a tree, with overflow runs and named databases. */
  function Pages(t: Tree): (n: nat)
    ensures n > 0
  {
    match t
    case Leaf(_, items) => PagesOfItems(items) + 1
    case Branch(_, _, kids) => PagesOfKids(kids) + 1
  }

  function PagesOfItem(item: Item): nat {
    match item
    case Inline(_, _) => 0
    case Big(_, _, count, _) => count
    case Sub(_, db) => if db.Empty? then 0 else Pages(db.tree)
  }

  function PagesOfItems(items: seq<Item>): nat {
    if items == [] then 0 else PagesOfItem(items[0]) + PagesOfItems(items[1..])
  }

  function PagesOfKids(kids: seq<Tree>): nat {
    if kids == [] then 0 else Pages(kids[0]) + PagesOfKids(kids[1..])
  }

  /** The number of a tree's root page, if its pages are numbered from n on. */
  function RootNo(t: Tree, n: Pgno): Pgno {
    n + Pages(t) - 1
  }

  function RefsOf(kids: seq<Tree>, n: Pgno): (refs: seq<Pgno>)
    ensures |refs| == |kids|
  {
    if kids == [] then [] else [RootNo(kids[0], n)] + RefsOf(kids[1..], n + Pages(kids[0]))
  }

  function NewOf(item: Item, n: Pgno): NewItem {
    match item
    case Inline(key, val) => Stored(key, val)
    case Big(key, _, _, _) => Overflows(key, n)
    case Sub(key, db) => if db.Empty? then NamedEmpty(key) else Named(key, RootNo(db.tree, n))
  }

  function NewItems(items: seq<Item>, n: Pgno): (r: seq<NewItem>)
    ensures |r| == |items|
  {
    if items == [] then [] else [NewOf(items[0], n)] + NewItems(items[1..], n + PagesOfItem(items[0]))
  }

  /** The pages written for a tree whose numbers start at n. */
  function Written(t: Tree, n: Pgno): seq<Numbered> {
    match t
    case Leaf(_, items) => WrittenItems(items, n) + [Numbered(RootNo(t, n), LeafPage(NewItems(items, n)))]
    case Branch(_, keys, kids) => WrittenKids(kids, n) + [Numbered(RootNo(t, n), BranchPage(keys, RefsOf(kids, n)))]
  }

  function WrittenItem(item: Item, n: Pgno): seq<Numbered> {
    match item
    case Inline(_, _) => []
    case Big(_, _, count, val) => [Numbered(n, OverPages(count, val))]
    case Sub(_, db) => if db.Empty? then [] else Written(db.tree, n)
  }

  function WrittenItems(items: seq<Item>, n: Pgno): seq<Numbered> {
    if items == [] then [] else WrittenItem(items[0], n) + WrittenItems(items[1..], n + PagesOfItem(items[0]))
  }

  function WrittenKids(kids: seq<Tree>, n: Pgno): seq<Numbered> {
    if kids == [] then [] else Written(kids[0], n) + WrittenKids(kids[1..], n + Pages(kids[0]))
  }

  // ----- numbers without gaps or clashes -----

  function PageCount(p: Page): nat {
    if p.OverPages? then p.count else 1
  }

  /** The pages carry consecutive numbers, from `from` up to `to`. */
  ghost predicate Consecutive(out: seq<Numbered>, from: Pgno, to: Pgno) {
    if out == [] then from == to
    else out[0].pgno == from && PageCount(out[0].page) > 0 && Consecutive(out[1..], from + PageCount(out[0].page), to)
  }

  lemma {:induction false} ConsecutiveAppend(a: seq<Numbered>, b: seq<Numbered>, from: Pgno, mid: Pgno, to: Pgno)
    requires Consecutive(a, from, mid) && Consecutive(b, mid, to)
    ensures Consecutive(a + b, from, to)
  {
    if a == [] {
      assert a + b == b;
    } else {
      ConsecutiveAppend(a[1..], b, from + PageCount(a[0].page), mid, to);
      assert (a + b)[1..] == a[1..] + b;
    }
  }

  /** The copy of a tree fills its page numbers exactly; the root comes last. */
  lemma {:induction false} WrittenConsecutive(t: Tree, n: Pgno)
    requires Proper(t)
    ensures Consecutive(Written(t, n), n, n + Pages(t))
    ensures Written(t, n) != [] && Written(t, n)[|Written(t, n)| - 1].pgno == RootNo(t, n)
    decreases t, 1
  {
    var last := Written(t, n)[|Written(t, n)| - 1..];
    match t
    case Leaf(_, items) =>
      ItemsConsecutive(items, n);
      ConsecutiveAppend(WrittenItems(items, n), last, n, RootNo(t, n), n + Pages(t));
    case Branch(_, keys, kids) =>
      KidsConsecutive(kids, n);
      ConsecutiveAppend(WrittenKids(kids, n), last, n, RootNo(t, n), n + Pages(t));
  }

  lemma {:induction false} ItemsConsecutive(items: seq<Item>, n: Pgno)
    requires forall i :: 0 <= i < |items| ==> ProperItem(items[i])
    ensures Consecutive(WrittenItems(items, n), n, n + PagesOfItems(items))
    decreases items, 0
  {
    if items != [] {
      var mid := n + PagesOfItem(items[0]);
      assert ProperItem(items[0]);
      if items[0].Sub? && items[0].db.Root? {
        WrittenConsecutive(items[0].db.tree, n);
      } else if items[0].Big? {
        assert Consecutive([], mid, mid);
        assert WrittenItem(items[0], n)[1..] == [];
      }
      ItemsConsecutive(items[1..], mid);
      ConsecutiveAppend(WrittenItem(items[0], n), WrittenItems(items[1..], mid), n, mid, n + PagesOfItems(items));
    }
  }

  lemma {:induction false} KidsConsecutive(kids: seq<Tree>, n: Pgno)
    requires forall i :: 0 <= i < |kids| ==> Proper(kids[i])
    ensures Consecutive(WrittenKids(kids, n), n, n + PagesOfKids(kids))
    decreases kids, 0
  {
    if kids != [] {
      var mid, rest := n + Pages(kids[0]), kids[1..];
      WrittenConsecutive(kids[0], n);
      assert forall i :: 0 <= i < |rest| ==> rest[i] == kids[i + 1];
      KidsConsecutive(rest, mid);
      ConsecutiveAppend(Written(kids[0], n), WrittenKids(rest, mid), n, mid, n + PagesOfKids(kids));
    }
  }

  /** Children are written from left to right. */
  lemma {:induction false} RefsAscend(kids: seq<Tree>, n: Pgno, i: nat, j: nat)
    requires i < j < |kids|
    ensures n <= RefsOf(kids, n)[i] < RefsOf(kids, n)[j]
    decreases |kids|
  {
    var mid, rest := n + Pages(kids[0]), kids[1..];
    if i > 0 {
      RefsAscend(rest, mid, i - 1, j - 1);
    } else {
      RefsFrom(rest, mid, j - 1);
    }
  }

  lemma {:induction false} RefsFrom(kids: seq<Tree>, n: Pgno, i: nat)
    requires i < |kids|
    ensures n <= RefsOf(kids, n)[i]
    decreases |kids|
  {
    if i > 0 {
      RefsFrom(kids[1..], n + Pages(kids[0]), i - 1);
    }
  }

  /** The page a record leads to, if it has one outside its leaf. */
  function LeadsTo(item: NewItem): int {
    match item
    case Overflows(_, pgno) => pgno
    case Named(_, root) => root
    case _ => -1
  }

  /** So are overflow runs and named databases of a leaf, all before the leaf. */
  lemma {:induction false} ItemsAscend(items: seq<Item>, n: Pgno, i: nat, j: nat)
    requires i < j < |items| && (forall k :: 0 <= k < |items| ==> ProperItem(items[k]))
    requires LeadsTo(NewItems(items, n)[i]) >= 0 && LeadsTo(NewItems(items, n)[j]) >= 0
    ensures n <= LeadsTo(NewItems(items, n)[i]) < LeadsTo(NewItems(items, n)[j]) < n + PagesOfItems(items)
    decreases |items|
  {
    var mid, rest := n + PagesOfItem(items[0]), items[1..];
    assert forall k :: 0 <= k < |rest| ==> rest[k] == items[k + 1];
    assert ProperItem(items[0]);
    if i > 0 {
      ItemsAscend(rest, mid, i - 1, j - 1);
    } else {
      ItemWithin(rest, mid, j - 1);
    }
  }

  lemma {:induction false} ItemWithin(items: seq<Item>, n: Pgno, i: nat)
    requires i < |items| && (forall k :: 0 <= k < |items| ==> ProperItem(items[k]))
    requires LeadsTo(NewItems(items, n)[i]) >= 0
    ensures n <= LeadsTo(NewItems(items, n)[i]) < n + PagesOfItems(items)
    decreases |items|
  {
    var rest := items[1..];
    assert forall k :: 0 <= k < |rest| ==> rest[k] == items[k + 1];
    assert ProperItem(items[0]);
    if i > 0 {
      ItemWithin(rest, n + PagesOfItem(items[0]), i - 1);
    }
  }

  // ----- the same contents -----

  ghost predicate Holds(file: map<Pgno, Page>, out: seq<Numbered>) {
    forall i :: 0 <= i < |out| ==> out[i].pgno in file && file[out[i].pgno] == out[i].page
  }

  /** Page p of the file is the root of a tree with the shape, keys and data of t. */
  ghost predicate Represents(file: map<Pgno, Page>, p: Pgno, t: Tree)
    decreases t, 1
  {
    && p in file
    && match t
       case Leaf(_, items) =>
         && file[p].LeafPage? && |file[p].items| == |items|
         && forall i :: 0 <= i < |items| ==> RepresentsItem(file, file[p].items[i], items[i])
       case Branch(_, keys, kids) =>
         && file[p].BranchPage? && file[p].keys == keys && |file[p].refs| == |kids|
         && forall i :: 0 <= i < |kids| ==> Represents(file, file[p].refs[i], kids[i])
  }

  ghost predicate RepresentsItem(file: map<Pgno, Page>, stored: NewItem, item: Item)
    decreases item, 0
  {
    match item
    case Inline(key, val) => stored == Stored(key, val)
    case Big(key, _, count, val) => stored.Overflows? && stored.key == key && stored.pgno in file
      && file[stored.pgno] == OverPages(count, val)
    case Sub(key, db) =>
      if db.Empty? then stored == NamedEmpty(key)
      else stored.Named? && stored.key == key && Represents(file, stored.root, db.tree)
  }

  lemma {:induction false} HoldsParts(file: map<Pgno, Page>, a: seq<Numbered>, b: seq<Numbered>)
    requires Holds(file, a + b)
    ensures Holds(file, a) && Holds(file, b)
  {
    forall i | 0 <= i < |a| ensures a[i].pgno in file && file[a[i].pgno] == a[i].page {
      assert (a + b)[i] == a[i];
    }
    forall i | 0 <= i < |b| ensures b[i].pgno in file && file[b[i].pgno] == b[i].page {
      assert (a + b)[|a| + i] == b[i];
    }
  }

  /** A file with the written pages holds a copy of the tree. */
  lemma {:induction false} CopyRepresents(t: Tree, n: Pgno, file: map<Pgno, Page>)
    requires Proper(t) && Holds(file, Written(t, n))
    ensures Represents(file, RootNo(t, n), t)
    decreases t, 1
  {
    var last := Written(t, n)[|Written(t, n)| - 1..];
    match t
    case Leaf(_, items) =>
      HoldsParts(file, WrittenItems(items, n), last);
      assert last[0].pgno in file;
      ItemsRepresented(items, n, file);
    case Branch(_, keys, kids) =>
      HoldsParts(file, WrittenKids(kids, n), last);
      assert last[0].pgno in file;
      KidsRepresented(kids, n, file);
  }

  lemma {:induction false} ItemsRepresented(items: seq<Item>, n: Pgno, file: map<Pgno, Page>)
    requires (forall i :: 0 <= i < |items| ==> ProperItem(items[i])) && Holds(file, WrittenItems(items, n))
    ensures forall i :: 0 <= i < |items| ==> RepresentsItem(file, NewItems(items, n)[i], items[i])
    decreases items, 0
  {
    if items != [] {
      var mid, rest := n + PagesOfItem(items[0]), items[1..];
      HoldsParts(file, WrittenItem(items[0], n), WrittenItems(rest, mid));
      FirstItemRepresented(items[0], n, file);
      assert forall i :: 0 <= i < |rest| ==> rest[i] == items[i + 1];
      ItemsRepresented(rest, mid, file);
      forall i | 0 <= i < |items| ensures RepresentsItem(file, NewItems(items, n)[i], items[i]) {
        if i > 0 {
          assert NewItems(items, n)[i] == NewItems(rest, mid)[i - 1] && items[i] == rest[i - 1];
        }
      }
    }
  }

  lemma {:induction false} FirstItemRepresented(item: Item, n: Pgno, file: map<Pgno, Page>)
    requires ProperItem(item) && Holds(file, WrittenItem(item, n))
    ensures RepresentsItem(file, NewOf(item, n), item)
    decreases item, 0
  {
    if item.Sub? && item.db.Root? {
      CopyRepresents(item.db.tree, n, file);
    } else if item.Big? {
      assert WrittenItem(item, n)[0].pgno in file;
    }
  }

  lemma {:induction false} KidsRepresented(kids: seq<Tree>, n: Pgno, file: map<Pgno, Page>)
    requires (forall i :: 0 <= i < |kids| ==> Proper(kids[i])) && Holds(file, WrittenKids(kids, n))
    ensures forall i :: 0 <= i < |kids| ==> Represents(file, RefsOf(kids, n)[i], kids[i])
    decreases kids, 0
  {
    if kids != [] {
      var mid, rest := n + Pages(kids[0]), kids[1..];
      HoldsParts(file, Written(kids[0], n), WrittenKids(rest, mid));
      CopyRepresents(kids[0], n, file);
      assert forall i :: 0 <= i < |rest| ==> rest[i] == kids[i + 1];
      KidsRepresented(rest, mid, file);
      forall i | 0 <= i < |kids| ensures Represents(file, RefsOf(kids, n)[i], kids[i]) {
        if i > 0 {
          assert RefsOf(kids, n)[i] == RefsOf(rest, mid)[i - 1] && kids[i] == rest[i - 1];
        }
      }
    }
  }

  /** The file that results from writing pages. */
  ghost function FileOf(out: seq<Numbered>): map<Pgno, Page> {
    if out == [] then map[] else map[out[0].pgno := out[0].page] + FileOf(out[1..])
  }

  lemma {:induction false} FileHolds(out: seq<Numbered>, from: Pgno, to: Pgno)
    requires Consecutive(out, from, to)
    ensures Holds(FileOf(out), out) && forall p :: p in FileOf(out) ==> from <= p < to
    ensures from <= to
  {
    if out != [] {
      var rest, mid := out[1..], from + PageCount(out[0].page);
      FileHolds(rest, mid, to);
      forall i | 0 <= i < |out| ensures out[i].pgno in FileOf(out) && FileOf(out)[out[i].pgno] == out[i].page {
        if i > 0 {
          assert out[i] == rest[i - 1];
        }
      }
    }
  }

  /** The copy of a tree is the same tree in consecutive pages. */
  lemma {:induction false} CopyIsFaithful(t: Tree, n: Pgno)
    requires Proper(t)
    ensures Consecutive(Written(t, n), n, n + Pages(t))
    ensures Represents(FileOf(Written(t, n)), n + Pages(t) - 1, t)
  {
    WrittenConsecutive(t, n);
    FileHolds(Written(t, n), n, n + Pages(t));
    CopyRepresents(t, n, FileOf(Written(t, n)));
  }

  // ----- the walk -----

  /** A writable copy of a branch page on the cursor's stack: `refs` are the page
      numbers in it, new ones up to slot `at`. */
  datatype Frame = Frame(keys: seq<Key>, kids: seq<Tree>, refs: seq<Pgno>, at: nat)

  ghost predicate FrameOk(f: Frame) {
    f.at < |f.kids| == |f.refs| && forall i :: 0 <= i < |f.kids| ==> Proper(f.kids[i])
  }

  ghost predicate StackOk(stack: seq<Frame>) {
    forall i :: 0 <= i < |stack| ==> FrameOk(stack[i])
  }

  function OldRefs(kids: seq<Tree>): seq<Pgno> {
    seq(|kids|, i requires 0 <= i < |kids| => kids[i].pgno)
  }

  /** Slot `at` gets its new number. */
  function SetRef(f: Frame, no: Pgno): Frame
    requires f.at < |f.refs|
  {
    f.(refs := f.refs[f.at := no])
  }

  /** Pages still to be written for a branch whose slot `at` is done. */
  function AfterPages(f: Frame): nat
    requires f.at < |f.kids|
  {
    PagesOfKids(f.kids[f.at + 1..]) + 1
  }

  ghost function After(f: Frame, n: Pgno): seq<Numbered>
    requires f.at < |f.kids| == |f.refs|
  {
    var later := f.kids[f.at + 1..];
    WrittenKids(later, n) + [Numbered(n + PagesOfKids(later),
        BranchPage(f.keys, f.refs[..f.at + 1] + RefsOf(later, n)))]
  }

  /** What remains when the page in the current slots has been given number no. */
  ghost function Rest(stack: seq<Frame>, n: Pgno, no: Pgno): seq<Numbered>
    requires StackOk(stack)
  {
    if stack == [] then []
    else
      var m := |stack| - 1;
      var f := SetRef(stack[m], no);
      After(f, n) + Rest(stack[..m], n + AfterPages(f), n + AfterPages(f) - 1)
  }

  ghost function RestPages(stack: seq<Frame>): nat
    requires StackOk(stack)
  {
    if stack == [] then 0 else AfterPages(stack[|stack| - 1]) + RestPages(stack[..|stack| - 1])
  }

  /** What remains for a subtree and then for the pages above it. */
  ghost function Remaining(stack: seq<Frame>, c: Tree, n: Pgno): seq<Numbered>
    requires StackOk(stack)
  {
    Written(c, n) + Rest(stack, n + Pages(c), RootNo(c, n))
  }

  function Opened(c: Tree): Frame
    requires c.Branch?
  {
    Frame(c.keys, c.kids, OldRefs(c.kids), 0)
  }

  /** Going down to the first child changes nothing about what remains. */
  lemma {:induction false} DescendStep(stack: seq<Frame>, c: Tree, n: Pgno)
    requires StackOk(stack) && Proper(c) && c.Branch?
    ensures StackOk(stack + [Opened(c)])
    ensures Remaining(stack + [Opened(c)], c.kids[0], n) == Remaining(stack, c, n)
    ensures Pages(c.kids[0]) + RestPages(stack + [Opened(c)]) == Pages(c) + RestPages(stack)
  {
    var stack', kid, later := stack + [Opened(c)], c.kids[0], c.kids[1..];
    assert stack'[..|stack|] == stack && stack'[|stack|] == Opened(c);
    var f, n1 := SetRef(Opened(c), RootNo(kid, n)), n + Pages(kid);
    assert f.refs[..1] + RefsOf(later, n1) == RefsOf(c.kids, n);
    assert WrittenKids(c.kids, n) == Written(kid, n) + WrittenKids(later, n1);
    assert f.kids[f.at + 1..] == later && PagesOfKids(c.kids) == Pages(kid) + PagesOfKids(later);
    var own := [Numbered(RootNo(c, n), BranchPage(c.keys, RefsOf(c.kids, n)))];
    assert After(f, n1) == WrittenKids(later, n1) + own;
    assert Written(c, n) == Written(kid, n) + After(f, n1);
  }

  /** The "again" loop: down to the first leaf. */
  method Descend(stack0: seq<Frame>, c0: Tree, ghost n: Pgno) returns (stack: seq<Frame>, c: Tree)
    requires StackOk(stack0) && Proper(c0)
    ensures StackOk(stack) && Proper(c) && c.Leaf?
    ensures Remaining(stack, c, n) == Remaining(stack0, c0, n)
    ensures Pages(c) + RestPages(stack) == Pages(c0) + RestPages(stack0)
  {
    stack, c := stack0, c0;
    while c.Branch?
      invariant StackOk(stack) && Proper(c)
      invariant Remaining(stack, c, n) == Remaining(stack0, c0, n)
      invariant Pages(c) + RestPages(stack) == Pages(c0) + RestPages(stack0)
      decreases c
    {
      DescendStep(stack, c, n);
      stack, c := stack + [Opened(c)], c.kids[0];
    }
  }

  /** The next slot of a branch. */
  lemma {:induction false} NextSlot(stack: seq<Frame>, f: Frame, n: Pgno)
    requires StackOk(stack) && FrameOk(f) && f.at + 1 < |f.kids|
    ensures var g := f.(at := f.at + 1);
            && StackOk(stack + [g]) && Proper(g.kids[g.at])
            && Remaining(stack + [g], g.kids[g.at], n)
               == After(f, n) + Rest(stack, n + AfterPages(f), n + AfterPages(f) - 1)
            && Pages(g.kids[g.at]) + RestPages(stack + [g]) == AfterPages(f) + RestPages(stack)
  {
    var g := f.(at := f.at + 1);
    var kid, later := f.kids[g.at], f.kids[g.at + 1..];
    assert (stack + [g])[..|stack|] == stack && (stack + [g])[|stack|] == g;
    assert f.kids[f.at + 1..][1..] == later;
    var h, n1 := SetRef(g, RootNo(kid, n)), n + Pages(kid);
    assert h.refs[..h.at + 1] == f.refs[..f.at + 1] + [RootNo(kid, n)];
    assert h.refs[..h.at + 1] + RefsOf(later, n1) == f.refs[..f.at + 1] + RefsOf(f.kids[f.at + 1..], n);
    assert After(f, n) == Written(kid, n) + After(h, n1);
  }

  /** A branch whose last slot is done. */
  lemma {:induction false} LastSlot(f: Frame, n: Pgno)
    requires FrameOk(f) && f.at + 1 == |f.kids|
    ensures After(f, n) == [Numbered(n, BranchPage(f.keys, f.refs))] && AfterPages(f) == 1
  {
    assert f.kids[f.at + 1..] == [];
    assert f.refs[..f.at + 1] + [] == f.refs;
  }

  lemma {:induction false} ItemsFrom(items: seq<Item>, i: nat, n: Pgno)
    requires i < |items|
    ensures var n1 := n + PagesOfItem(items[i]);
            && WrittenItems(items[i..], n) == WrittenItem(items[i], n) + WrittenItems(items[i + 1..], n1)
            && NewItems(items[i..], n) == [NewOf(items[i], n)] + NewItems(items[i + 1..], n1)
            && PagesOfItems(items[i..]) == PagesOfItem(items[i]) + PagesOfItems(items[i + 1..])
  {
    assert items[i..][1..] == items[i + 1..];
  }

  /** What remains when the top of the stack, f, is a branch whose slot is done. */
  ghost function RemainingAbove(stack: seq<Frame>, f: Frame, n: Pgno): seq<Numbered>
    requires StackOk(stack) && FrameOk(f)
  {
    After(f, n) + Rest(stack, n + AfterPages(f), n + AfterPages(f) - 1)
  }

  /** A page has been written and is the child in the current slot of the top of
      the stack, which takes note of its number. */
  lemma {:induction false} NotedRemains(stack: seq<Frame>, n: Pgno, no: Pgno)
    requires StackOk(stack) && stack != []
    ensures var m := |stack| - 1;
            var f := SetRef(stack[m], no);
            && FrameOk(f) && StackOk(stack[..m]) && RemainingAbove(stack[..m], f, n) == Rest(stack, n, no)
            && RestPages(stack) == AfterPages(f) + RestPages(stack[..m])
  {
    assert FrameOk(stack[|stack| - 1]);
  }

  /** Where the walk stands: on a leaf below the stack, or back on a branch. */
  datatype Top = OnLeaf(c: Tree) | OnBranch(f: Frame) | Done(root: Pgno)

  /** Output and work still to do make up the whole. */
  ghost predicate Walking(out: seq<Numbered>, next: Pgno, stack: seq<Frame>, top: Top, goal: seq<Numbered>, end: Pgno) {
    && StackOk(stack)
    && match top
       case OnLeaf(c) =>
         Proper(c) && c.Leaf? && out + Remaining(stack, c, next) == goal && next + Pages(c) + RestPages(stack) == end
       case OnBranch(f) =>
         FrameOk(f) && out + RemainingAbove(stack, f, next) == goal && next + AfterPages(f) + RestPages(stack) == end
       case Done(root) => out == goal && next == end == root + 1
  }

  lemma {:induction false} WrittenLeaf(out: seq<Numbered>, c: Tree, n: Pgno, stack: seq<Frame>)
    requires c.Leaf? && StackOk(stack)
    ensures var no := n + PagesOfItems(c.items);
            out + Remaining(stack, c, n)
            == out + WrittenItems(c.items, n) + [Numbered(no, LeafPage(NewItems(c.items, n)))] + Rest(stack, no + 1, no)
  {
  }

  class Copier {
    var out: seq<Numbered>
    var next: Pgno

    constructor ()
      ensures out == [] && next == NUM_METAS
    {
      out, next := [], NUM_METAS;
    }

    /** Append a page to the output under the next number. */
    method Emit(page: Page) returns (no: Pgno)
      modifies this
      ensures no == old(next) && next == no + PageCount(page) && out == old(out) + [Numbered(no, page)]
    {
      no := next;
      out, next := out + [Numbered(no, page)], next + PageCount(page);
    }

    /** The loop over the nodes of a leaf: overflow runs and named databases are
        written first, their numbers go into the nodes. */
    method WalkItems(items: seq<Item>) returns (stored: seq<NewItem>)
      requires forall i :: 0 <= i < |items| ==> ProperItem(items[i])
      modifies this
      ensures out == old(out) + WrittenItems(items, old(next)) && next == old(next) + PagesOfItems(items)
      ensures stored == NewItems(items, old(next))
      decreases PagesOfItems(items), 3
    {
      stored := [];
      var i := 0;
      assert items[0..] == items;
      while i < |items|
        invariant 0 <= i <= |items|
        invariant out + WrittenItems(items[i..], next) == old(out) + WrittenItems(items, old(next))
        invariant next + PagesOfItems(items[i..]) == old(next) + PagesOfItems(items) && next >= old(next)
        invariant stored + NewItems(items[i..], next) == NewItems(items, old(next))
      {
        ItemsFrom(items, i, next);
        var item := WalkItem(items[i], items);
        stored := stored + [item];
        i := i + 1;
      }
    }

    method WalkItem(item: Item, ghost items: seq<Item>) returns (stored: NewItem)
      requires ProperItem(item) && PagesOfItem(item) <= PagesOfItems(items)
      modifies this
      ensures out == old(out) + WrittenItem(item, old(next)) && next == old(next) + PagesOfItem(item)
      ensures stored == NewOf(item, old(next))
      decreases PagesOfItems(items), 2
    {
      match item
      case Inline(key, val) => stored := Stored(key, val);
      case Big(key, _, count, val) =>
        var no := Emit(OverPages(count, val));
        stored := Overflows(key, no);
      case Sub(key, db) =>
        if db.Empty? {
          stored := NamedEmpty(key);
        } else {
          var root := Walk(db.tree);
          stored := Named(key, root);
        }
    }

    /** Write a page and go back to the page above it, if any. */
    method Finish(page: Page, stack: seq<Frame>, ghost goal: seq<Numbered>, ghost end: Pgno)
      returns (below: seq<Frame>, top: Top)
      requires StackOk(stack) && !page.OverPages?
      requires out + [Numbered(next, page)] + Rest(stack, next + 1, next) == goal && next + 1 + RestPages(stack) == end
      modifies this
      ensures Walking(out, next, below, top, goal, end) && !top.OnLeaf? && |out| == |old(out)| + 1 && next > old(next)
    {
      var no := Emit(page);
      if stack == [] {
        return [], Done(no);
      }
      NotedRemains(stack, next, no);
      var m := |stack| - 1;
      return stack[..m], OnBranch(SetRef(stack[m], no));
    }

    /** A leaf: its items, then the page. */
    method FinishLeaf(c: Tree, stack: seq<Frame>, ghost goal: seq<Numbered>, ghost end: Pgno)
      returns (below: seq<Frame>, top: Top)
      requires Walking(out, next, stack, OnLeaf(c), goal, end)
      modifies this
      ensures Walking(out, next, below, top, goal, end) && !top.OnLeaf? && |out| > |old(out)| && next > old(next)
      decreases Pages(c), 0
    {
      WrittenLeaf(out, c, next, stack);
      var stored := WalkItems(c.items);
      below, top := Finish(LeafPage(stored), stack, goal, end);
    }

    /** A branch: the next child, or the page itself. */
    method FinishSlot(f: Frame, stack: seq<Frame>, ghost goal: seq<Numbered>, ghost end: Pgno)
      returns (below: seq<Frame>, top: Top)
      requires Walking(out, next, stack, OnBranch(f), goal, end)
      modifies this
      ensures Walking(out, next, below, top, goal, end) && next >= old(next)
      ensures |out| > |old(out)| || (out == old(out) && top.OnLeaf?)
    {
      if f.at + 1 < |f.kids| {
        NextSlot(stack, f, next);
        var c;
        below, c := Descend(stack + [f.(at := f.at + 1)], f.kids[f.at + 1], next);
        top := OnLeaf(c);
      } else {
        LastSlot(f, next);
        below, top := Finish(BranchPage(f.keys, f.refs), stack, goal, end);
      }
    }

    /** mdb_env_cwalk: the walk with an explicit stack writes what the recursive
        definition says. */
    method Walk(t: Tree) returns (root: Pgno)
      requires Proper(t)
      modifies this
      ensures out == old(out) + Written(t, old(next)) && next == old(next) + Pages(t) && root == RootNo(t, old(next))
      decreases Pages(t), 1
    {
      ghost var goal, end := out + Written(t, next), next + Pages(t);
      var stack, c := Descend([], t, next);
      var top := OnLeaf(c);
      while !top.Done?
        invariant Walking(out, next, stack, top, goal, end) && next >= old(next)
        decreases |goal| - |out|, top.OnBranch?
      {
        if top.OnLeaf? {
          stack, top := FinishLeaf(top.c, stack, goal, end);
        } else {
          stack, top := FinishSlot(top.f, stack, goal, end);
        }
      }
      root := top.root;
    }
  }

  // ----- the predicted root -----

  /** The page numbers of a tree, with overflow runs and named databases. */
  ghost function PageNos(t: Tree): set<Pgno> {
    match t
    case Leaf(p, items) => {p} + NosOfItems(items)
    case Branch(p, _, kids) => {p} + NosOfKids(kids)
  }

  ghost function NosOfItem(item: Item): set<Pgno> {
    match item
    case Inline(_, _) => {}
    case Big(_, p, count, _) => PageRange(p, p + count)
    case Sub(_, db) => if db.Empty? then {} else PageNos(db.tree)
  }

  ghost function NosOfItems(items: seq<Item>): set<Pgno> {
    if items == [] then {} else NosOfItem(items[0]) + NosOfItems(items[1..])
  }

  ghost function NosOfKids(kids: seq<Tree>): set<Pgno> {
    if kids == [] then {} else PageNos(kids[0]) + NosOfKids(kids[1..])
  }

  /** No page is reached twice. */
  ghost predicate NoSharing(t: Tree) {
    match t
    case Leaf(p, items) => p !in NosOfItems(items) && ItemsApart(items)
    case Branch(p, _, kids) => p !in NosOfKids(kids) && KidsApart(kids)
  }

  ghost predicate ItemApart(item: Item) {
    item.Sub? && item.db.Root? ==> NoSharing(item.db.tree)
  }

  ghost predicate ItemsApart(items: seq<Item>) {
    items != [] ==> ItemApart(items[0]) && NosOfItem(items[0]) !! NosOfItems(items[1..]) && ItemsApart(items[1..])
  }

  ghost predicate KidsApart(kids: seq<Tree>) {
    kids != [] ==> NoSharing(kids[0]) && PageNos(kids[0]) !! NosOfKids(kids[1..]) && KidsApart(kids[1..])
  }

  /** Then the tree has as many pages as page numbers. */
  lemma {:induction false} PageNosSize(t: Tree)
    requires NoSharing(t)
    ensures |PageNos(t)| == Pages(t)
    decreases t, 1
  {
    match t
    case Leaf(_, items) => ItemNosSize(items);
    case Branch(_, _, kids) => KidNosSize(kids);
  }

  lemma {:induction false} ItemNosSize(items: seq<Item>)
    requires ItemsApart(items)
    ensures |NosOfItems(items)| == PagesOfItems(items)
    decreases items, 0
  {
    if items != [] {
      match items[0] {
        case Inline(_, _) =>
        case Big(_, p, count, _) => RangeSize(p, count);
        case Sub(_, db) =>
          if db.Root? {
            PageNosSize(db.tree);
          }
      }
      ItemNosSize(items[1..]);
    }
  }

  lemma {:induction false} KidNosSize(kids: seq<Tree>)
    requires KidsApart(kids)
    ensures |NosOfKids(kids)| == PagesOfKids(kids)
    decreases kids, 0
  {
    if kids != [] {
      PageNosSize(kids[0]);
      KidNosSize(kids[1..]);
    }
  }

  lemma {:induction false} SpanSize(next: Pgno)
    requires next >= NUM_METAS
    ensures |Span(next)| == next - NUM_METAS
  {
    RangeSize(NUM_METAS, next - NUM_METAS);
  }

  lemma {:induction false} EqualIfSameSize(a: set<Pgno>, b: set<Pgno>)
    requires a <= b && |a| == |b|
    ensures a == b
  {
    assert b == a + (b - a);
    assert |b| == |a| + |b - a|;
  }

  /** The counting loop over the freeDB: lengths of the records under `keys`. */
  function FreeCount(free: map<TxnId, set<Pgno>>, keys: seq<TxnId>): nat
    requires forall i :: 0 <= i < |keys| ==> keys[i] in free
  {
    if keys == [] then 0 else FreeCount(free, keys[..|keys| - 1]) + |free[keys[|keys| - 1]]|
  }

  ghost predicate Enumerates(free: map<TxnId, set<Pgno>>, keys: seq<TxnId>) {
    && (forall i :: 0 <= i < |keys| ==> keys[i] in free && keys[i] > 0)
    && (forall i, j :: 0 <= i < j < |keys| ==> keys[i] < keys[j])
  }

  ghost function ListedUnder(free: map<TxnId, set<Pgno>>, keys: seq<TxnId>): set<Pgno>
    requires forall i :: 0 <= i < |keys| ==> keys[i] in free
  {
    if keys == [] then {} else ListedUnder(free, keys[..|keys| - 1]) + free[keys[|keys| - 1]]
  }

  lemma {:induction false} ListedUnderKey(free: map<TxnId, set<Pgno>>, keys: seq<TxnId>, p: Pgno)
    requires forall i :: 0 <= i < |keys| ==> keys[i] in free
    ensures p in ListedUnder(free, keys) <==> exists k :: k in keys && p in free[k]
  {
    if keys != [] {
      var m := |keys| - 1;
      ListedUnderKey(free, keys[..m], p);
      assert keys == keys[..m] + [keys[m]];
    }
  }

  lemma {:induction false} FreeCountIsSize(free: map<TxnId, set<Pgno>>, keys: seq<TxnId>)
    requires Enumerates(free, keys) && RecordsDisjoint(free, 0)
    ensures FreeCount(free, keys) == |ListedUnder(free, keys)|
  {
    if keys != [] {
      var m := |keys| - 1;
      var rest := keys[..m];
      FreeCountIsSize(free, rest);
      forall p | p in ListedUnder(free, rest) ensures p !in free[keys[m]] {
        ListedUnderKey(free, rest, p);
        var k :| k in rest && p in free[k];
        assert k < keys[m];
      }
      assert ListedUnder(free, rest) !! free[keys[m]];
    }
  }

  /** The copy refuses (MDB_INCOMPATIBLE) exactly if a page has leaked: the
      predicted root number is the root's number if and only if the pages of the
      main database, of the freeDB and in its records are all the pages there
      are. */
  lemma {:induction false} PredictionHoldsIff(t: Tree, next: Pgno, freeDb: set<Pgno>, free: map<TxnId, set<Pgno>>,
                                              keys: seq<TxnId>)
    requires next >= NUM_METAS && Enumerates(free, keys) && RecordsDisjoint(free, 0) && NoSharing(t)
    requires PageNos(t) !! freeDb !! ListedUnder(free, keys)
             && PageNos(t) + freeDb + ListedUnder(free, keys) <= Span(next)
    ensures RootNo(t, NUM_METAS) == next - 1 - (FreeCount(free, keys) + |freeDb|)
            <==> PageNos(t) + freeDb + ListedUnder(free, keys) == Span(next)
  {
    PageNosSize(t);
    FreeCountIsSize(free, keys);
    SpanSize(next);
    var all := PageNos(t) + freeDb + ListedUnder(free, keys);
    assert |all| == |PageNos(t)| + |freeDb| + |ListedUnder(free, keys)|;
    if |all| == |Span(next)| {
      EqualIfSameSize(all, Span(next));
    }
  }

  /** Page conservation gives the predicted root. */
  lemma {:induction false} ConservedIsPredicted(t: Tree, a: Accounts, freeDb: set<Pgno>, keys: seq<TxnId>)
    requires Conserved(a) && a.head == a.freed == a.loose == {} && a.last == 0
    requires NoSharing(t) && a.inUse == PageNos(t) + freeDb && PageNos(t) !! freeDb
    requires Enumerates(a.free, keys) && forall k :: k in a.free && k > 0 ==> k in keys
    ensures RootNo(t, NUM_METAS) == a.next - 1 - (FreeCount(a.free, keys) + |freeDb|)
  {
    var listed := ListedUnder(a.free, keys);
    forall p ensures p in listed <==> p in Listed(a.free, 0) {
      ListedUnderKey(a.free, keys, p);
    }
    assert listed == Listed(a.free, 0);
    assert PageNos(t) + freeDb + listed == Span(a.next);
    PredictionHoldsIff(t, a.next, freeDb, a.free, keys);
  }
}
