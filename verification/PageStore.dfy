/** The page store of a write transaction: the allocator and the operations that
    move page numbers between the lists of the transaction and the environment. */
module PageStore {
  import opened IdList
  import opened PageAccounts
  import opened PageRuns

  datatype AllocResult = Allocated(pgno: Pgno) | TxnFull | MapFull

  ghost function RecordSets(db: map<TxnId, seq<Id>>): map<TxnId, set<Pgno>> {
    map k | k in db :: Elements(db[k])
  }

  // ----- reclaiming freeDB records -----

  /** `b` is `a` after merging the records with keys in (a.last, b.last]. */
  ghost predicate Reclaimed(a: Accounts, b: Accounts) {
    && b == a.(head := b.head, last := b.last)
    && a.last <= b.last && (a.last < b.last ==> b.last in a.free)
    && forall p :: p in b.head <==> p in a.head || exists k :: k in a.free && a.last < k <= b.last && p in a.free[k]
  }

  lemma {:induction false} ReclaimedOneMore(a: Accounts, b: Accounts, k: TxnId)
    requires Reclaimed(a, b) && IsNextRecord(b.free, b.last, k)
    ensures Reclaimed(a, Consume(b, k))
  {
    var c := Consume(b, k);
    forall p
      ensures p in c.head <==> p in a.head || exists j :: j in a.free && a.last < j <= c.last && p in a.free[j]
    {
      if p in c.head && p !in b.head {
        assert k in a.free && a.last < k <= c.last && p in a.free[k];
      }
      if exists j :: j in a.free && a.last < j <= c.last && p in a.free[j] {
        var j :| j in a.free && a.last < j <= c.last && p in a.free[j];
        assert j <= b.last || j == k;
      }
    }
  }

  predicate IsLeast<T>(db: map<TxnId, T>, last: TxnId, k: TxnId) {
    k > last && forall j :: j in db && j > last ==> k <= j
  }

  lemma {:induction false} LeastAbove<T>(db: map<TxnId, T>, last: TxnId, some: TxnId) returns (k: TxnId)
    requires some in db && some > last
    ensures k in db && IsLeast(db, last, k)
    decreases some
  {
    if IsLeast(db, last, some) {
      k := some;
    } else {
      var j :| j in db && j > last && j < some;
      k := LeastAbove(db, last, j);
    }
  }

  lemma {:induction false} ShortListHasNoRun(s: seq<Id>, num: nat)
    requires StrictlyDescending(s) && |s| < num
    ensures NoRun(s, num)
  {
    forall p | HasRun(s, p, num)
      ensures false
    {
      assert p in s;
      var k :| 0 <= k < |s| && s[k] == p;
      RunIsAdjacent(s, k, num, num - 1);
    }
  }

  ghost function Pending(db: map<TxnId, seq<Id>>, last: TxnId): set<TxnId> {
    set k | k in db && k > last
  }

  lemma {:induction false} PendingShrinks(db: map<TxnId, seq<Id>>, last: TxnId, k: TxnId)
    requires IsNextRecord(RecordSets(db), last, k)
    ensures |Pending(db, k)| == |Pending(db, last)| - 1
  {
    assert k in RecordSets(db) && forall j :: j in db ==> j in RecordSets(db);
    assert Pending(db, k) == Pending(db, last) - {k};
  }

  /** Why reclaiming stops without a run: a look at the readers has shown every
      further record to be too recent, or 60 records have been merged for each
      page wanted. */
  ghost predicate GaveUp(db: map<TxnId, seq<Id>>, from: TxnId, last: TxnId, num: nat, oldest: TxnId, scan: TxnId) {
    || (forall j :: j in db && j > last ==> oldest == scan <= j)
    || |Pending(db, from)| - |Pending(db, last)| >= 60 * num
  }

  /** The least key above `last`: mdb_cursor_get with MDB_FIRST, MDB_SET_RANGE or
      MDB_NEXT. */
  method NextKey(db: map<TxnId, seq<Id>>, last: TxnId) returns (found: bool, k: TxnId)
    ensures !found ==> forall j :: j in db ==> j <= last
    ensures found ==> k in db && IsLeast(db, last, k)
  {
    found, k := false, 0;
    if exists j :: j in db && j > last {
      ghost var some :| some in db && some > last;
      ghost var least := LeastAbove(db, last, some);
      k :| k in db && IsLeast(db, last, k);
      found := true;
    }
  }

  class Store {
    var id: TxnId                      // mt_txnid
    var pghead: seq<Id>                // me_pghead, empty while it does not exist
    var pglast: TxnId                  // me_pglast
    var pgoldest: TxnId                // me_pgoldest
    var nextPgno: Pgno                 // mt_next_pgno
    var maxPgno: Pgno                  // me_maxpg
    var freePgs: seq<Id>               // mt_free_pgs
    var loose: seq<Id>                 // mt_loose_pgs, first page first
    var freeDb: map<TxnId, seq<Id>>    // records of the freeDB
    var dirtyRoom: nat                 // mt_dirty_room
    ghost var inUse: set<Pgno>         // pages of the trees
    ghost var mine: set<Pgno>          // pages handed out by this transaction

    ghost function View(): Accounts
      reads this
    {
      Accounts(inUse, Elements(pghead), pglast, Elements(freePgs), Elements(loose), RecordSets(freeDb), nextPgno)
    }

    ghost predicate Valid()
      reads this
    {
      && Conserved(View())
      && StrictlyDescending(pghead) && (pglast == 0 ==> pghead == [])
      && Distinct(freePgs) && Distinct(loose)
      && (forall k :: k in freeDb ==> k > 0 && StrictlyDescending(freeDb[k]))
      && Elements(loose) <= mine
    }

    /** Merge record k, the next one, into the reclaimed list. */
    method MergeRecord(k: TxnId)
      requires Valid() && IsNextRecord(RecordSets(freeDb), pglast, k)
      modifies this`pghead, this`pglast
      ensures Valid() && View() == Consume(old(View()), k) && |pghead| >= |old(pghead)|
    {
      ghost var a := View();
      ConsumeConserves(a, k);
      assert Elements(freeDb[k]) <= Listed(a.free, a.last);
      MergeIsUnion(pghead, freeDb[k]);
      pghead := Merge(pghead, freeDb[k]);
      pglast := k;
    }

    /** Is transaction id `t` too recent to reclaim?  Looks at the readers, once,
        before it answers yes. */
    method TooRecent(t: TxnId, scan: TxnId, looked: bool) returns (recent: bool, looked': bool)
      requires looked ==> pgoldest == scan
      modifies this`pgoldest
      ensures recent <==> pgoldest <= t
      ensures looked' ==> pgoldest == scan
      ensures !looked' ==> !looked && pgoldest == old(pgoldest)
      ensures (looked ==> looked') && (recent ==> looked')
      ensures pgoldest == old(pgoldest) || pgoldest == scan
    {
      looked' := looked;
      recent := pgoldest <= t;
      if recent && !looked {
        pgoldest, looked' := scan, true;
        recent := pgoldest <= t;
      }
    }

    /** The next freeDB record, if there is one that may be reclaimed. */
    method NextRecord(scan: TxnId, looked: bool) returns (found: bool, k: TxnId, looked': bool)
      requires looked ==> pgoldest == scan
      modifies this`pgoldest
      ensures looked' ==> pgoldest == scan
      ensures pgoldest == old(pgoldest) || pgoldest == scan
      ensures found ==> IsNextRecord(RecordSets(freeDb), pglast, k) && k < pgoldest
      ensures !found ==> forall j :: j in freeDb && j > pglast ==> pgoldest == scan <= j
    {
      found, k := false, 0;
      var recent;
      recent, looked' := TooRecent(pglast + 1, scan, looked);
      if !recent {
        found, k := NextKey(freeDb, pglast);
        if found {
          recent, looked' := TooRecent(k, scan, looked');
          found := !recent;
        }
      }
    }

    /** Merge the next record, if there is one that may be reclaimed. */
    method MergeNext(scan: TxnId, looked: bool, ghost a: Accounts) returns (found: bool, looked': bool)
      requires Valid() && (looked ==> pgoldest == scan) && Reclaimed(a, View())
      modifies this`pghead, this`pglast, this`pgoldest
      ensures Valid() && Reclaimed(a, View()) && (looked' ==> pgoldest == scan)
      ensures pgoldest == old(pgoldest) || pgoldest == scan
      ensures !found ==> pghead == old(pghead) && pglast == old(pglast)
      ensures !found ==> forall j :: j in freeDb && j > pglast ==> pgoldest == scan <= j
      ensures found ==> old(pglast) < pglast < pgoldest
      ensures found ==> |Pending(freeDb, pglast)| == |Pending(freeDb, old(pglast))| - 1
      ensures |pghead| >= |old(pghead)|
    {
      var k;
      found, k, looked' := NextRecord(scan, looked);
      if found {
        ReclaimedOneMore(a, View(), k);
        PendingShrinks(freeDb, pglast, k);
        MergeRecord(k);
      }
    }

    /** The search in the reclaimed list, if it is long enough. */
    method SearchHead(num: nat) returns (i: nat)
      requires Valid() && num > 0
      ensures i == 0 ==> NoRun(pghead, num)
      ensures i > 0 ==> IsRunAt(pghead, i, num) && forall p :: HasRun(pghead, p, num) ==> pghead[i - 1] <= p
    {
      i := 0;
      if |pghead| >= num {
        i := FindRun(pghead, num);
      } else {
        ShortListHasNoRun(pghead, num);
      }
    }

    /** The main loop of mdb_page_alloc: reclaim records until the list holds
        `num` consecutive pages, the records run out or become too recent, or
        the search failed often enough.  `scan` is what mdb_find_oldest returns
        if it is called.  Returns the position of the run, or 0. */
    method Reclaim(num: nat, scan: TxnId) returns (i: nat)
      requires Valid() && num > 0
      modifies this`pghead, this`pglast, this`pgoldest
      ensures Valid() && Reclaimed(old(View()), View())
      ensures pglast > old(pglast) ==> pglast < old(pgoldest) || pglast < scan
      ensures pgoldest == old(pgoldest) || pgoldest == scan
      ensures pglast > old(pglast) ==> NoRun(old(pghead), num)
      ensures i > 0 ==> IsRunAt(pghead, i, num) && forall p :: HasRun(pghead, p, num) ==> pghead[i - 1] <= p
      ensures i == 0 ==> NoRun(pghead, num) && GaveUp(freeDb, old(pglast), pglast, num, pgoldest, scan)
      ensures |old(pghead)| >= num ==> |Pending(freeDb, old(pglast))| - |Pending(freeDb, pglast)| <= 60 * num
    {
      var retry, looked := num * 60, false;
      while true
        invariant retry >= num * 60 - (|Pending(freeDb, old(pglast))| - |Pending(freeDb, pglast)|)
        invariant |old(pghead)| >= num ==>
                    && |pghead| >= num && 0 <= retry
                    && retry == num * 60 - (|Pending(freeDb, old(pglast))| - |Pending(freeDb, pglast)|)
        invariant pglast == old(pglast) ==> pghead == old(pghead)
        invariant pglast > old(pglast) ==> NoRun(old(pghead), num)
        invariant Valid() && Reclaimed(old(View()), View())
        invariant pglast > old(pglast) ==> pglast < old(pgoldest) || pglast < scan
        invariant looked ==> pgoldest == scan
        invariant pgoldest == old(pgoldest) || pgoldest == scan
        decreases |Pending(freeDb, pglast)|
      {
        i := SearchHead(num);
        if i > 0 {
          return;
        }
        if |pghead| >= num {
          retry := retry - 1;
          if retry < 0 {
            return;
          }
        }
        var found;
        found, looked := MergeNext(scan, looked, old(View()));
        if !found {
          return;
        }
      }
    }

    /** Reuse the first loose page. */
    method TakeFirstLoose() returns (p: Pgno)
      requires Valid() && loose != []
      modifies this`loose, this`inUse, this`mine
      ensures Valid() && p == old(loose)[0] && loose == old(loose)[1..] && mine == old(mine) + {p}
      ensures p in old(View()).loose && View() == TakeLoose(old(View()), p)
    {
      p := loose[0];
      assert p in Elements(loose);
      MovesConserve(View(), {}, p, 0);
      LoosePop(loose);
      loose := loose[1..];
      inUse, mine := inUse + {p}, mine + {p};
    }

    /** Remove the run at position i from the reclaimed list. */
    method TakeFromHead(i: nat, num: nat) returns (p: Pgno)
      requires Valid() && IsRunAt(pghead, i, num)
      modifies this`pghead, this`inUse, this`mine
      ensures Valid() && p == old(pghead)[i - 1] && mine == old(mine) + PageRange(p, p + num)
      ensures PageRange(p, p + num) <= old(View()).head && View() == TakeHead(old(View()), PageRange(p, p + num))
    {
      p := pghead[i - 1];
      ghost var ps := PageRange(p, p + num);
      TakeRunFits(pghead, i, num);
      MovesConserve(View(), ps, 0, 0);
      pghead := WithoutRun(pghead, i, num);
      inUse, mine := inUse + ps, mine + ps;
    }

    /** Use new pages from the map. */
    method TakeNew(num: nat) returns (p: Pgno)
      requires Valid()
      modifies this`nextPgno, this`inUse, this`mine
      ensures Valid() && p == old(nextPgno) && mine == old(mine) + PageRange(p, p + num)
      ensures View() == Extend(old(View()), num)
    {
      MovesConserve(View(), {}, 0, num);
      p := nextPgno;
      inUse, mine := inUse + PageRange(p, p + num), mine + PageRange(p, p + num);
      nextPgno := p + num;
    }

    /** Pages from the reclaimed list, or new ones if it holds no run. */
    method TakeFresh(i: nat, num: nat) returns (r: AllocResult)
      requires Valid() && num > 0
      requires i > 0 ==> IsRunAt(pghead, i, num) && forall p :: HasRun(pghead, p, num) ==> pghead[i - 1] <= p
      requires i == 0 ==> NoRun(pghead, num)
      modifies this`pghead, this`nextPgno, this`inUse, this`mine
      ensures Valid() && mine == old(mine) + Handed(r, num) && r != TxnFull
      ensures r == MapFull ==> View() == old(View()) && NoRunIn(View().head, num) && nextPgno + num >= maxPgno
      ensures r.Allocated? ==> FreshEffect(old(View()), View(), num, r.pgno, maxPgno)
      ensures i > 0 ==> r.Allocated? && nextPgno == old(nextPgno)
    {
      var p;
      if i > 0 {
        LowestInElements(pghead, i, num);
        p := TakeFromHead(i, num);
      } else {
        NoRunInElements(pghead, num);
        if nextPgno + num >= maxPgno {
          return MapFull;
        }
        p := TakeNew(num);
      }
      r := Allocated(p);
    }

    /** mdb_page_alloc: a loose page if a single page is wanted and there is
        one; else the lowest run of the reclaimed list, extended by old enough
        freeDB records as needed; else new pages at the end of the map. */
    method PageAlloc(num: nat, scan: TxnId) returns (r: AllocResult)
      requires Valid() && num > 0
      modifies this`pghead, this`pglast, this`pgoldest, this`nextPgno, this`loose, this`dirtyRoom, this`inUse, this`mine
      ensures Valid() && mine == old(mine) + Handed(r, num)
      ensures pgoldest == old(pgoldest) || pgoldest == scan
      ensures pglast > old(pglast) ==> pglast < old(pgoldest) || pglast < scan
      ensures AllocEffect(old(View()), View(), num, r, maxPgno)
      ensures r == TxnFull <==> !(num == 1 && old(loose) != []) && old(dirtyRoom) == 0
      ensures num == 1 && old(loose) != [] ==> r == Allocated(old(loose)[0]) && loose == old(loose)[1..]
      ensures !(num == 1 && old(loose) != []) ==> loose == old(loose)
      ensures pglast > old(pglast) ==> NoRun(old(pghead), num)
      ensures r == MapFull || nextPgno > old(nextPgno) ==> GaveUp(freeDb, old(pglast), pglast, num, pgoldest, scan)
      ensures |old(pghead)| >= num ==> |Pending(freeDb, old(pglast))| - |Pending(freeDb, pglast)| <= 60 * num
      ensures dirtyRoom == if r.Allocated? && !(num == 1 && old(loose) != []) then old(dirtyRoom) - 1
              else old(dirtyRoom)
    {
      if num == 1 && loose != [] {
        var p := TakeFirstLoose();
        assert PageRange(p, p + 1) == {p};
        return Allocated(p);
      }
      if dirtyRoom == 0 {
        return TxnFull;
      }
      var i := Reclaim(num, scan);
      ghost var b := View();
      r := TakeFresh(i, num);
      if r.Allocated? {
        assert Reclaimed(old(View()), b) && FreshEffect(b, View(), num, r.pgno, maxPgno);
        dirtyRoom := dirtyRoom - 1;
      }
    }

    /** Put page p on mt_free_pgs. */
    method AppendFreed(p: Pgno)
      requires Valid() && p in inUse
      modifies this`freePgs, this`inUse
      ensures Valid() && freePgs == old(freePgs) + [p]
      ensures View() == Release(old(View()), {p})
    {
      MovesConserve(View(), {p}, 0, 0);
      AppendDistinct(freePgs, [p]);
      freePgs := freePgs + [p];
      inUse := inUse - {p};
    }

    /** mdb_page_touch without nested transactions: a clean page gets a new page
        number and its old number is freed; a dirty page stays where it is, and so
        does a spilled one, which needs room in the dirty list again. */
    method PageTouch(p: Pgno, dirty: bool, spilled: bool, scan: TxnId) returns (r: AllocResult, ghost mid: Accounts)
      requires Valid() && p in inUse
      modifies this`pghead, this`pglast, this`pgoldest, this`nextPgno, this`loose, this`dirtyRoom, this`inUse,
               this`mine, this`freePgs
      ensures Valid()
      ensures dirty || spilled ==> View() == old(View()) && mine == old(mine)
      ensures dirty ==> r == Allocated(p) && dirtyRoom == old(dirtyRoom)
      ensures !dirty && spilled ==> r == if old(dirtyRoom) == 0 then TxnFull else Allocated(p)
      ensures !dirty && spilled ==> dirtyRoom == if r.Allocated? then old(dirtyRoom) - 1 else old(dirtyRoom)
      ensures !dirty && !spilled ==> AllocEffect(old(View()), mid, 1, r, maxPgno) && mine == old(mine) + Handed(r, 1)
      ensures !dirty && !spilled && r.Allocated? ==> r.pgno != p && p in mid.inUse && View() == Release(mid, {p})
      ensures !dirty && !spilled && !r.Allocated? ==> View() == mid
    {
      mid := View();
      if dirty {
        return Allocated(p), mid;
      }
      if spilled {
        if dirtyRoom == 0 {
          return TxnFull, mid;
        }
        dirtyRoom := dirtyRoom - 1;
        return Allocated(p), mid;
      }
      r := PageAlloc(1, scan);
      mid := View();
      TouchedPage(old(View()), mid, p, r, maxPgno);
      if r.Allocated? {
        AppendFreed(p);
      }
    }

    /** mdb_page_loose without nested transactions: a dirty page outside the
        freeDB may be reused by this transaction, any other page is freed. */
    method PageLoose(p: Pgno, dirty: bool, inFreeDb: bool)
      requires Valid() && p in inUse && (dirty ==> p in mine)
      modifies this`loose, this`freePgs, this`inUse
      ensures Valid()
      ensures View() == if dirty && !inFreeDb then Loosen(old(View()), p) else Release(old(View()), {p})
      ensures loose == if dirty && !inFreeDb then [p] + old(loose) else old(loose)
    {
      if dirty && !inFreeDb {
        MovesConserve(View(), {}, p, 0);
        AppendDistinct([p], loose);
        loose := [p] + loose;
        inUse := inUse - {p};
      } else {
        AppendFreed(p);
      }
    }

    /** mdb_ovpage_free outside nested transactions: a run written by this
        transaction goes back to the reclaimed list, if that list exists; any
        other run is freed. */
    method OvpageFree(pg: Pgno, num: nat, dirty: bool, spilled: bool)
      requires Valid() && PageRange(pg, pg + num) <= inUse && (dirty || spilled ==> PageRange(pg, pg + num) <= mine)
      modifies this`pghead, this`freePgs, this`inUse, this`dirtyRoom
      ensures Valid()
      ensures View() == if pglast > 0 && (dirty || spilled) then GiveBack(old(View()), PageRange(pg, pg + num))
                        else Release(old(View()), PageRange(pg, pg + num))
      ensures dirtyRoom == if pglast > 0 && dirty then old(dirtyRoom) + 1 else old(dirtyRoom)
    {
      ghost var ps := PageRange(pg, pg + num);
      MovesConserve(View(), ps, 0, 0);
      if pglast > 0 && (dirty || spilled) {
        if dirty {
          dirtyRoom := dirtyRoom + 1;
        }
        PutRunIsUnion(pghead, pg, num);
        pghead := PutRun(pghead, pg, num);
      } else {
        RangeElements(pg, num);
        AppendDistinct(freePgs, DescendingRange(pg, num));
        freePgs := freePgs + DescendingRange(pg, num);
      }
      inUse := inUse - ps;
    }

    /** Start of mdb_freelist_save: without a reclaimed list, loose pages are
        freed like the others. */
    method FreeLoose()
      requires Valid()
      modifies this`loose, this`freePgs
      ensures Valid()
      ensures View() == if pglast == 0 then LooseToFreed(old(View())) else old(View())
    {
      if pglast == 0 {
        MovesConserve(View(), {}, 0, 0);
        AppendDistinct(freePgs, loose);
        freePgs, loose := freePgs + loose, [];
      }
    }
  }

  lemma {:induction false} RangeElements(pg: Id, num: nat)
    ensures Elements(DescendingRange(pg, num)) == PageRange(pg, pg + num)
    ensures StrictlyDescending(DescendingRange(pg, num))
  {
    var d := DescendingRange(pg, num);
    forall v: Id
      ensures v in d <==> pg <= v < pg + num
    {
      if pg <= v < pg + num {
        assert d[pg + num - 1 - v] == v;
      }
    }
  }

  lemma {:induction false} AppendDistinct(s: seq<Id>, t: seq<Id>)
    ensures Elements(s + t) == Elements(s) + Elements(t)
    ensures Distinct(s) && Distinct(t) && Elements(s) !! Elements(t) ==> Distinct(s + t)
  {
    if Distinct(s) && Distinct(t) && Elements(s) !! Elements(t) {
      forall i, j | 0 <= i < j < |s + t|
        ensures (s + t)[i] != (s + t)[j]
      {
        if i < |s| <= j {
          assert s[i] in Elements(s) && t[j - |s|] in Elements(t);
        }
      }
    }
  }

  /** An allocation never touches pages in use. */
  lemma {:induction false} TouchedPage(a: Accounts, mid: Accounts, p: Pgno, r: AllocResult, maxPgno: Pgno)
    requires Conserved(a) && Conserved(mid) && p in a.inUse && AllocEffect(a, mid, 1, r, maxPgno)
    ensures p in mid.inUse && (r.Allocated? ==> r.pgno != p)
  {
    if r.Allocated? {
      assert r.pgno in PageRange(r.pgno, r.pgno + 1);
      if !(r.pgno in a.loose && mid == TakeLoose(a, r.pgno)) {
        var b :| Reclaimed(a, b) && FreshEffect(b, mid, 1, r.pgno, maxPgno);
        if r.pgno in b.head && r.pgno !in a.head {
          var k :| k in a.free && a.last < k <= b.last && r.pgno in a.free[k];
          assert r.pgno in Listed(a.free, a.last);
        }
      }
    }
  }

  ghost function Handed(r: AllocResult, num: nat): set<Pgno> {
    if r.Allocated? then PageRange(r.pgno, r.pgno + num) else {}
  }

  /** No `num` consecutive pages in the set. */
  ghost predicate NoRunIn(s: set<Pgno>, num: nat) {
    forall p: Pgno :: !RunIn(s, p, num)
  }

  ghost predicate LowestIn(s: set<Pgno>, p: Pgno, num: nat) {
    forall q: Pgno :: RunIn(s, q, num) ==> p <= q
  }

  ghost predicate RunIn(s: set<Pgno>, p: Pgno, num: nat) {
    PageRange(p, p + num) <= s
  }

  /** What an allocation does to the accounts. */
  ghost predicate AllocEffect(a: Accounts, c: Accounts, num: nat, r: AllocResult, maxPgno: Pgno) {
    match r
    case TxnFull => c == a
    case MapFull => Reclaimed(a, c) && NoRunIn(c.head, num) && a.next + num >= maxPgno
    case Allocated(p) =>
      || (num == 1 && p in a.loose && c == TakeLoose(a, p))
      || exists b :: Reclaimed(a, b) && FreshEffect(b, c, num, p, maxPgno)
  }

  /** The pages come from the reclaimed list, or, if it holds no run, are new. */
  ghost predicate FreshEffect(b: Accounts, c: Accounts, num: nat, p: Pgno, maxPgno: Pgno) {
    || (RunIn(b.head, p, num) && LowestIn(b.head, p, num) && c == TakeHead(b, PageRange(p, p + num)))
    || (NoRunIn(b.head, num) && p == b.next && b.next + num < maxPgno && c == Extend(b, num))
  }

  lemma {:induction false} NoRunInElements(s: seq<Id>, num: nat)
    requires NoRun(s, num)
    ensures NoRunIn(Elements(s), num)
  {
    forall p: Pgno
      ensures !RunIn(Elements(s), p, num)
    {
      assert !HasRun(s, p, num);
      var q :| p <= q < p + num && q !in s;
      assert q in PageRange(p, p + num);
    }
  }

  lemma {:induction false} LowestInElements(s: seq<Id>, i: nat, num: nat)
    requires StrictlyDescending(s) && IsRunAt(s, i, num) && forall p :: HasRun(s, p, num) ==> s[i - 1] <= p
    ensures LowestIn(Elements(s), s[i - 1], num)
  {
    forall q: Pgno | RunIn(Elements(s), q, num)
      ensures HasRun(s, q, num)
    {
      forall x | q <= x < q + num ensures x in s {
        assert x in PageRange(q, q + num);
      }
    }
  }

  lemma {:induction false} LoosePop(s: seq<Id>)
    requires Distinct(s) && s != []
    ensures Distinct(s[1..]) && Elements(s[1..]) == Elements(s) - {s[0]}
  {
    assert s == [s[0]] + s[1..];
  }

  lemma {:induction false} TakeRunFits(s: seq<Id>, i: nat, num: nat)
    requires StrictlyDescending(s) && IsRunAt(s, i, num)
    ensures PageRange(s[i - 1], s[i - 1] + num) <= Elements(s)
    ensures StrictlyDescending(WithoutRun(s, i, num))
    ensures Elements(WithoutRun(s, i, num)) == Elements(s) - PageRange(s[i - 1], s[i - 1] + num)
  {
    RunAtIsRun(s, i, num);
    WithoutRunIsDifference(s, i, num);
  }
}
