/** Page accounting of one write transaction.

    Every page number from 2 up to the first unallocated page belongs to exactly
    one of five places: a tree of the transaction's view, the reclaimed list
    `me_pghead`, the list `mt_free_pgs` of pages this transaction stopped using,
    the loose list, or a freeDB record that has not been reclaimed yet.
    Each operation below moves page numbers between these places. */
module PageAccounts {
  type Pgno = nat
  type TxnId = nat

  /** Pages 0 and 1 hold the two meta pages and are never handed out. */
  const NUM_METAS: Pgno := 2

  datatype Accounts = Accounts(
    inUse: set<Pgno>,             // pages of the trees, freeDB included
    head: set<Pgno>,              // me_pghead
    last: TxnId,                  // me_pglast, 0 while me_pghead does not exist
    freed: set<Pgno>,             // mt_free_pgs
    loose: set<Pgno>,             // mt_loose_pgs
    free: map<TxnId, set<Pgno>>,  // freeDB records
    next: Pgno)                   // mt_next_pgno

  /** Pages of the freeDB records with a key above `last`: not reclaimed yet. */
  ghost function Listed(free: map<TxnId, set<Pgno>>, last: TxnId): set<Pgno> {
    set k, p | k in free && k > last && p in free[k] :: p
  }

  ghost predicate RecordsDisjoint(free: map<TxnId, set<Pgno>>, last: TxnId) {
    forall j, k :: j in free && k in free && last < j < k ==> free[j] !! free[k]
  }

  predicate Within(lo: Pgno, p: Pgno, hi: Pgno) {
    lo <= p < hi
  }

  /** The page numbers lo, lo + 1, ..., hi - 1. */
  ghost function PageRange(lo: Pgno, hi: Pgno): set<Pgno> {
    set p: Pgno | p < hi && Within(lo, p, hi)
  }

  lemma {:induction false} RangeSize(lo: Pgno, num: nat)
    ensures |PageRange(lo, lo + num)| == num
  {
    if num == 0 {
      assert PageRange(lo, lo) == {};
    } else {
      RangeSize(lo, num - 1);
      assert PageRange(lo, lo + num) == PageRange(lo, lo + num - 1) + {lo + num - 1};
    }
  }

  ghost function Span(next: Pgno): set<Pgno> {
    PageRange(NUM_METAS, next)
  }

  /** The five places are pairwise disjoint and cover [2, next) exactly. */
  ghost predicate Conserved(a: Accounts) {
    && a.next >= NUM_METAS
    && a.inUse !! a.head !! a.freed !! a.loose !! Listed(a.free, a.last)
    && RecordsDisjoint(a.free, a.last)
    && a.inUse + a.head + a.freed + a.loose + Listed(a.free, a.last) == Span(a.next)
  }

  ghost predicate IsNextRecord(free: map<TxnId, set<Pgno>>, last: TxnId, k: TxnId) {
    k in free && k > last && forall j :: j in free && j > last ==> k <= j
  }

  /** Merge the next freeDB record into the reclaimed list. */
  function Consume(a: Accounts, k: TxnId): Accounts
    requires k in a.free
  {
    a.(head := a.head + a.free[k], last := k)
  }

  lemma {:induction false} ConsumeConserves(a: Accounts, k: TxnId)
    requires Conserved(a) && IsNextRecord(a.free, a.last, k)
    ensures Conserved(Consume(a, k))
  {
    var r := Consume(a, k);
    forall p | p in Listed(a.free, a.last)
      ensures p in a.free[k] || p in Listed(r.free, r.last)
    {
      var j :| j in a.free && j > a.last && p in a.free[j];
      assert j == k || j > k;
    }
    assert Listed(a.free, a.last) == a.free[k] + Listed(r.free, r.last);
  }

  /** Hand out pages of the reclaimed list. */
  function TakeHead(a: Accounts, ps: set<Pgno>): (r: Accounts)
    requires ps <= a.head
  {
    a.(head := a.head - ps, inUse := a.inUse + ps)
  }

  /** Hand out a loose page. */
  function TakeLoose(a: Accounts, p: Pgno): (r: Accounts)
    requires p in a.loose
  {
    a.(loose := a.loose - {p}, inUse := a.inUse + {p})
  }

  ghost function Fresh(a: Accounts, num: nat): set<Pgno> {
    PageRange(a.next, a.next + num)
  }

  /** Hand out `num` new pages from the end of the map. */
  ghost function Extend(a: Accounts, num: nat): (r: Accounts) {
    a.(next := a.next + num, inUse := a.inUse + Fresh(a, num))
  }

  /** Pages leave the trees and wait in `mt_free_pgs` until the commit. */
  function Release(a: Accounts, ps: set<Pgno>): (r: Accounts)
    requires ps <= a.inUse
  {
    a.(inUse := a.inUse - ps, freed := a.freed + ps)
  }

  /** A page leaves the trees and may be reused by this same transaction. */
  function Loosen(a: Accounts, p: Pgno): (r: Accounts)
    requires p in a.inUse
  {
    a.(inUse := a.inUse - {p}, loose := a.loose + {p})
  }

  /** An overflow run written by this transaction goes back to `me_pghead`. */
  function GiveBack(a: Accounts, ps: set<Pgno>): (r: Accounts)
    requires ps <= a.inUse
  {
    a.(inUse := a.inUse - ps, head := a.head + ps)
  }

  /** Without a reclaimed list the loose pages join `mt_free_pgs` at commit. */
  function LooseToFreed(a: Accounts): (r: Accounts) {
    a.(loose := {}, freed := a.freed + a.loose)
  }

  lemma {:induction false} MovesConserve(a: Accounts, ps: set<Pgno>, p: Pgno, num: nat)
    requires Conserved(a)
    ensures ps <= a.head ==> Conserved(TakeHead(a, ps))
    ensures p in a.loose ==> Conserved(TakeLoose(a, p))
    ensures Conserved(Extend(a, num))
    ensures ps <= a.inUse ==> Conserved(Release(a, ps)) && Conserved(GiveBack(a, ps))
    ensures p in a.inUse ==> Conserved(Loosen(a, p))
    ensures Conserved(LooseToFreed(a))
  {
    var e := Extend(a, num);
    assert Span(e.next) == Span(a.next) + Fresh(a, num);
  }

  /** What `mdb_freelist_save` leaves under the keys it reserved: the pages of
      the reclaimed and the loose list, each exactly once, under keys in
      [1, me_pglast]. */
  ghost predicate IsLeftover(a: Accounts, left: map<TxnId, set<Pgno>>) {
    && (forall k :: k in left ==> 1 <= k <= a.last)
    && RecordsDisjoint(left, 0)
    && Listed(left, 0) == a.head + a.loose
  }

  /** The freeDB after the save: consumed records are gone, the pages freed by
      the transaction are listed under its own id. */
  function SavedRecords(a: Accounts, id: TxnId, left: map<TxnId, set<Pgno>>): map<TxnId, set<Pgno>> {
    (map k | k in a.free && k > a.last :: a.free[k])
    + left
    + (if a.freed == {} then map[] else map[id := a.freed])
  }

  function Save(a: Accounts, id: TxnId, left: map<TxnId, set<Pgno>>): Accounts {
    a.(free := SavedRecords(a, id, left), head := {}, loose := {}, freed := {}, last := 0)
  }

  lemma {:induction false} SavedRecordsAt(a: Accounts, id: TxnId, left: map<TxnId, set<Pgno>>)
    requires IsLeftover(a, left) && a.last < id && forall k :: k in a.free ==> 1 <= k < id
    ensures var f := SavedRecords(a, id, left);
            && (forall k :: k in f ==> 1 <= k <= id)
            && (forall k :: k in f && k == id ==> f[k] == a.freed)
            && (forall k :: k in f && a.last < k < id ==> k in a.free && f[k] == a.free[k])
            && (forall k :: k in f && k <= a.last ==> k in left && f[k] == left[k])
            && (forall k :: k in left ==> k in f && f[k] == left[k])
            && (forall k :: k in a.free && k > a.last ==> k in f && f[k] == a.free[k])
            && (a.freed != {} ==> id in f)
  {
  }

  lemma {:induction false} SaveConserves(a: Accounts, id: TxnId, left: map<TxnId, set<Pgno>>)
    requires Conserved(a) && IsLeftover(a, left)
    requires a.last < id && forall k :: k in a.free ==> 1 <= k < id
    ensures Conserved(Save(a, id, left))
    ensures forall k :: k in Save(a, id, left).free ==> 1 <= k <= id
  {
    var f := SavedRecords(a, id, left);
    SavedRecordsAt(a, id, left);
    forall p
      ensures p in Listed(f, 0) <==> p in Listed(a.free, a.last) + a.head + a.loose + a.freed
    {
      if p in Listed(a.free, a.last) {
        var k :| k in a.free && k > a.last && p in a.free[k];
        assert p in f[k];
      }
      if p in a.head + a.loose {
        var k :| k in left && k > 0 && p in left[k];
        assert p in f[k];
      }
      if p in a.freed {
        assert p in f[id];
      }
      if p in Listed(f, 0) {
        var k :| k in f && k > 0 && p in f[k];
        SavedPlace(a, id, left, k, p);
      }
    }
    assert Listed(f, 0) == Listed(a.free, a.last) + a.head + a.loose + a.freed;
    forall j, k | j in f && k in f && 0 < j < k
      ensures f[j] !! f[k]
    {
      forall p | p in f[j] && p in f[k]
        ensures false
      {
        SavedPlace(a, id, left, j, p);
        SavedPlace(a, id, left, k, p);
      }
    }
  }

  /** Where a page of a saved record came from. */
  lemma {:induction false} SavedPlace(a: Accounts, id: TxnId, left: map<TxnId, set<Pgno>>, k: TxnId, p: Pgno)
    requires IsLeftover(a, left) && a.last < id && forall j :: j in a.free ==> 1 <= j < id
    requires k in SavedRecords(a, id, left) && p in SavedRecords(a, id, left)[k]
    ensures 1 <= k <= id
    ensures k == id ==> p in a.freed
    ensures a.last < k < id ==> k in a.free && p in a.free[k] && p in Listed(a.free, a.last)
    ensures k <= a.last ==> k in left && p in left[k] && p in a.head + a.loose
  {
    SavedRecordsAt(a, id, left);
    if k <= a.last {
      assert p in Listed(left, 0);
    }
  }
}
