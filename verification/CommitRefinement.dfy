/** The list operations of a child's commit do to the parent's lists what the
    nested-transaction machine does to the parent's level. */
module CommitRefinement {
  import opened IdList
  import opened IdPairs
  import opened ChildCommit
  import IdSort
  import Nested

  type Pages = map<Nested.Pgno, Nested.PageBytes>

  /** The dirty list xs, with the pages in memory, stands for a level's pages. */
  ghost predicate StandsFor(xs: seq<Pair>, memory: map<nat, Nested.PageBytes>, dirty: Pages) {
    && dirty.Keys == Mids(xs)
    && forall p :: p in xs ==> p.page in memory && p.mid in dirty && dirty[p.mid] == memory[p.page]
  }

  lemma {:induction false} MergedLists(xs: seq<Pair>, ys: seq<Pair>, zs: seq<Pair>, spill: set<nat>,
                                       memory: map<nat, Nested.PageBytes>,
                                       parent: Pages, child: Pages)
    requires StandsFor(xs, memory, parent) && StandsFor(ys, memory, child)
    requires Entries(zs) == Entries(ys) + Without(Entries(xs), spill + Mids(ys))
    ensures StandsFor(zs, memory, (parent - spill) + child)
  {
    var dirty := (parent - spill) + child;
    forall p | p in zs ensures p.page in memory && p.mid in dirty && dirty[p.mid] == memory[p.page] {
      assert p in Entries(zs);
      assert p in ys || (p in xs && p.mid !in spill && p.mid !in Mids(ys));
    }
    forall m | m in dirty ensures m in Mids(zs) {
      var p: Pair :| p.mid == m && (if m in child then p in ys else p in xs);
      assert p in Entries(zs);
    }
  }

  lemma {:induction false} MergedKeys(parent: Nested.Level, child: Nested.Level)
    ensures Nested.Merged(parent, child).dirty.Keys == (parent.dirty.Keys - child.spill) + child.dirty.Keys
  {
  }

  ghost predicate DirtyList(dl: array<Pair>, memory: map<nat, Nested.PageBytes>, dirty: Pages)
    reads dl
  {
    ValidPairs(dl) && Ascending(Pairs(dl)) && StandsFor(Pairs(dl), memory, dirty)
  }

  ghost predicate SpillList(sl: array<Id>, spill: set<Nested.Pgno>)
    reads sl
  {
    Valid(sl) && SpillOrder(Ids(sl)) && Spilled(Ids(sl)) == spill
  }

  /** No page number is so large that doubling it overflows. */
  ghost predicate Doublable(dl: array<Pair>)
    reads dl
  {
    ValidPairs(dl) && forall k :: 1 <= k <= dl[0].mid ==> 2 * dl[k].mid <= MAX_ID
  }

  method MergeDirtyLists(dst: array<Pair>, src: array<Pair>, cspill: array<Id>,
                         ghost memory: map<nat, Nested.PageBytes>, ghost parent: Nested.Level,
                         ghost child: Nested.Level)
    requires DirtyList(dst, memory, parent.dirty) && DirtyList(src, memory, child.dirty) && dst != src
    requires SpillList(cspill, child.spill) && |Nested.Merged(parent, child).dirty.Keys| < dst.Length
    modifies dst
    ensures DirtyList(dst, memory, Nested.Merged(parent, child).dirty)
  {
    ghost var xs, ys := Pairs(dst), Pairs(src);
    MergedKeys(parent, child);
    CommitDirty(dst, src, cspill);
    MergedLists(xs, ys, Pairs(dst), child.spill, memory, parent.dirty, child.dirty);
  }

  method MergeSpillLists(pspill: array<Id>, src: array<Pair>, cspill: array<Id>,
                         ghost memory: map<nat, Nested.PageBytes>, ghost parent: Nested.Level,
                         ghost child: Nested.Level)
    returns (spill: array<Id>)
    requires SpillList(pspill, parent.spill) && SpillList(cspill, child.spill) && cspill != pspill
    requires DirtyList(src, memory, child.dirty) && Doublable(src)
    requires pspill[0] + cspill[0] < IdSort.INT_LIMIT && parent.spill - child.dirty.Keys !! child.spill
    modifies pspill
    ensures SpillList(spill, Nested.Merged(parent, child).spill)
  {
    spill := CommitSpill(pspill, src, cspill);
  }

  /** What a chain of transactions guarantees of its two innermost levels. */
  lemma {:induction false} InnermostLevels(s: Nested.State)
    requires Nested.Inv(s) && |s.levels| > 1 && Nested.ListsFit(s.levels)
    ensures var parent, child := s.levels[|s.levels| - 2], s.levels[|s.levels| - 1];
            && parent.spill - child.dirty.Keys !! child.spill && |Nested.Merged(parent, child).dirty.Keys| <= UM_MAX
            && Nested.Last(Nested.Apply(s, Nested.CommitChild).levels) == Nested.Merged(parent, child)
  {
    Nested.MergedFits(s);
    Nested.CommitIs(s);
  }

  /** The part of mdb_txn_commit that gives a child's lists to its parent.  Lists
      that stand for the two innermost levels of a chain before stand for the
      innermost level after the machine's commit step. */
  method CommitLists(dst: array<Pair>, src: array<Pair>, pspill: array<Id>, cspill: array<Id>,
                     ghost memory: map<nat, Nested.PageBytes>, ghost s: Nested.State)
    returns (spill: array<Id>)
    requires Nested.Inv(s) && |s.levels| > 1 && Nested.ListsFit(s.levels)
    requires var parent := s.levels[|s.levels| - 2];
             DirtyList(dst, memory, parent.dirty) && SpillList(pspill, parent.spill)
    requires var child := s.levels[|s.levels| - 1];
             DirtyList(src, memory, child.dirty) && SpillList(cspill, child.spill)
    requires dst != src && dst.Length == UM_MAX + 1 && Doublable(src)
    requires cspill != pspill && pspill[0] + cspill[0] < IdSort.INT_LIMIT
    modifies dst, pspill
    ensures var after := Nested.Last(Nested.Apply(s, Nested.CommitChild).levels);
            DirtyList(dst, memory, after.dirty) && SpillList(spill, after.spill)
  {
    InnermostLevels(s);
    ghost var parent, child := s.levels[|s.levels| - 2], s.levels[|s.levels| - 1];
    MergeDirtyLists(dst, src, cspill, memory, parent, child);
    spill := MergeSpillLists(pspill, src, cspill, memory, parent, child);
  }
}
