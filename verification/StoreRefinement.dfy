/** The allocator of PageStore takes only steps of the state machine of Mvcc, so
    what holds in every run of the machine holds of the pages it hands out. */
module StoreRefinement {
  import opened Basics
  import opened PageAccounts
  import PageStore
  import opened Mvcc

  ghost function WithAccounts(s: State, a: Accounts): State
    requires s.writer.Writer?
  {
    s.(writer := s.writer.(acc := a))
  }

  lemma {:induction false} NothingReclaimed(a: Accounts, b: Accounts)
    requires PageStore.Reclaimed(a, b) && a.last == b.last
    ensures b == a
  {
    assert b.head == a.head;
  }

  /** The first of several reclaimed records. */
  lemma {:induction false} ReclaimedAfterFirst(a: Accounts, b: Accounts, k: TxnId)
    requires PageStore.Reclaimed(a, b) && IsNextRecord(a.free, a.last, k) && k <= b.last
    ensures PageStore.Reclaimed(Consume(a, k), b)
  {
    var mid := Consume(a, k);
    forall p
      ensures p in b.head <==> p in mid.head || exists j :: j in mid.free && mid.last < j <= b.last && p in mid.free[j]
    {
      if p in b.head && p !in mid.head {
        var j :| j in a.free && a.last < j <= b.last && p in a.free[j];
        assert j > k;
      }
      if p in a.free[k] {
        assert a.last < k <= b.last;
      }
    }
  }

  /** Reclaiming is a run of ConsumeRecord events. */
  lemma {:induction false} ReclaimRun(s: State, b: Accounts) returns (events: seq<Event>)
    requires IsWorking(s) && PageStore.Reclaimed(s.writer.acc, b)
    requires b.last > s.writer.acc.last ==> b.last < s.writer.oldest
    ensures Run(s, events, WithAccounts(s, b))
    decreases b.last - s.writer.acc.last
  {
    var a := s.writer.acc;
    if a.last == b.last {
      NothingReclaimed(a, b);
      events := [];
    } else {
      var k := PageStore.LeastAbove(a.free, a.last, b.last);
      assert IsNextRecord(a.free, a.last, k);
      ReclaimedAfterFirst(a, b, k);
      var e := ConsumeRecord(k);
      var rest := ReclaimRun(Apply(s, e), b);
      events := [e] + rest;
      assert events[1..] == rest;
    }
  }

  /** The step that hands out the pages after reclaiming. */
  lemma {:induction false} FreshStep(s: State, c: Accounts, num: nat, p: Pgno, maxPgno: Pgno,
                                     content: map<Pgno, PageBytes>) returns (e: Event)
    requires IsWorking(s) && PageStore.FreshEffect(s.writer.acc, c, num, p, maxPgno)
             && content.Keys == PageRange(p, p + num)
    ensures Enabled(s, e) && HandedOut(e) == content.Keys && Apply(s, e).writer.Writer? && Apply(s, e).writer.acc == c
    ensures Apply(s, e).writer.mine == s.writer.mine + content.Keys
  {
    RangeSize(p, num);
    assert |content| == |content.Keys|;
    if content.Keys <= s.writer.acc.head && c == TakeHead(s.writer.acc, content.Keys) {
      e := AllocHead(content);
    } else {
      e := AllocNew(content);
    }
  }

  /** Reusing a loose page, which the transaction was given before. */
  lemma {:induction false} LooseStep(s: State, p: Pgno, bytes: PageBytes)
    requires Inv(s) && IsWorking(s) && p in s.writer.acc.loose
    ensures var e := AllocLoose(p, bytes);
            && Enabled(s, e) && HandedOut(e) == {p} && Apply(s, e).writer.Writer?
            && Apply(s, e).writer.acc == TakeLoose(s.writer.acc, p) && Apply(s, e).writer.mine == s.writer.mine + {p}
  {
    assert s.writer.acc.loose <= s.writer.mine;
  }

  /** A run of the writer's own steps that ends by handing out pages. */
  lemma {:induction false} HandsOutInTheEnd(s: State, events: seq<Event>, u: State, e: Event)
    requires Inv(s) && Run(s, events, u) && Live(u) == Live(s) && Enabled(u, e)
    ensures Run(s, events + [e], Apply(u, e)) && Inv(Apply(u, e))
    ensures forall x :: x in Live(s) ==> HandedOut(e) !! x.pages.Keys
  {
    RunThen(s, events, u, e);
    RunKeeps(s, events, u);
    StepKeeps(u, e);
    forall x | x in Live(s) ensures HandedOut(e) !! x.pages.Keys {
      HandsOutSafely(u, e, x);
    }
  }

  lemma {:induction false} LiveUnchanged(s: State, a: Accounts)
    requires s.writer.Writer?
    ensures Live(WithAccounts(s, a)) == Live(s)
  {
  }

  lemma {:induction false} LooseAllocation(s: State, p: Pgno, bytes: PageBytes) returns (events: seq<Event>, t: State)
    requires Inv(s) && IsWorking(s) && p in s.writer.acc.loose
    ensures Run(s, events, t) && t.writer.Writer? && t.writer.acc == TakeLoose(s.writer.acc, p)
            && t.writer.mine == s.writer.mine + {p}
    ensures forall x :: x in Live(s) ==> {p} !! x.pages.Keys
  {
    var e := AllocLoose(p, bytes);
    LooseStep(s, p, bytes);
    HandsOutInTheEnd(s, [], s, e);
    events, t := [] + [e], Apply(s, e);
  }

  lemma {:induction false} FreshAllocation(s: State, b: Accounts, c: Accounts, num: nat, p: Pgno, maxPgno: Pgno,
                                           content: map<Pgno, PageBytes>)
    returns (events: seq<Event>, t: State)
    requires Inv(s) && IsWorking(s) && content.Keys == PageRange(p, p + num)
    requires PageStore.Reclaimed(s.writer.acc, b) && PageStore.FreshEffect(b, c, num, p, maxPgno)
    requires b.last > s.writer.acc.last ==> b.last < s.writer.oldest
    ensures Run(s, events, t) && t.writer.Writer? && t.writer.acc == c && t.writer.mine == s.writer.mine + content.Keys
    ensures forall x :: x in Live(s) ==> content.Keys !! x.pages.Keys
  {
    var before := ReclaimRun(s, b);
    var u := WithAccounts(s, b);
    LiveUnchanged(s, b);
    var e := FreshStep(u, c, num, p, maxPgno, content);
    HandsOutInTheEnd(s, before, u, e);
    events, t := before + [e], Apply(u, e);
  }

  /** An allocation by PageStore, with the records it reclaims older than the
      writer's `oldest`, is a run of the machine; the pages it hands out belong to
      no reader's snapshot and to neither meta page's. */
  lemma {:induction false} AllocationIsARun(s: State, c: Accounts, num: nat, p: Pgno, maxPgno: Pgno,
                                            content: map<Pgno, PageBytes>)
    returns (events: seq<Event>, t: State)
    requires Reachable(s) && IsWorking(s) && content.Keys == PageRange(p, p + num)
    requires PageStore.AllocEffect(s.writer.acc, c, num, PageStore.Allocated(p), maxPgno)
    requires c.last > s.writer.acc.last ==> c.last < s.writer.oldest
    ensures Run(s, events, t) && t.writer.Writer? && t.writer.acc == c && t.writer.mine == s.writer.mine + content.Keys
    ensures forall x :: x in Live(s) ==> content.Keys !! x.pages.Keys
  {
    ReachableIsGood(s);
    var reclaimed, b := Source(s.writer.acc, c, num, p, maxPgno);
    if reclaimed {
      events, t := FreshAllocation(s, b, c, num, p, maxPgno, content);
    } else {
      assert content.Keys == {p};
      events, t := LooseAllocation(s, p, content[p]);
    }
  }

  /** Where the allocated pages come from. */
  lemma {:induction false} Source(a: Accounts, c: Accounts, num: nat, p: Pgno, maxPgno: Pgno)
    returns (reclaimed: bool, b: Accounts)
    requires PageStore.AllocEffect(a, c, num, PageStore.Allocated(p), maxPgno)
    ensures !reclaimed ==> num == 1 && p in a.loose && c == TakeLoose(a, p)
    ensures reclaimed ==> PageStore.Reclaimed(a, b) && PageStore.FreshEffect(b, c, num, p, maxPgno) && b.last == c.last
  {
    reclaimed, b := false, a;
    if !(num == 1 && p in a.loose && c == TakeLoose(a, p)) {
      b :| PageStore.Reclaimed(a, b) && PageStore.FreshEffect(b, c, num, p, maxPgno);
      reclaimed := true;
    }
  }

  lemma {:induction false} HandsOutSafely(s: State, e: Event, x: Snapshot)
    requires Inv(s) && Enabled(s, e) && x in Live(s)
    ensures HandedOut(e) !! x.pages.Keys
  {
    if e.AllocNew? {
      assert x.pages.Keys <= Span(x.next);
    }
    if e.AllocHead? || e.AllocLoose? {
      assert WriterSafe(s);
    }
  }

  // ----- with the look at the readers -----

  lemma {:induction false} RunsJoin(s: State, first: seq<Event>, t: State, second: seq<Event>, u: State)
    requires Run(s, first, t) && Run(t, second, u)
    ensures Run(s, first + second, u)
    decreases |first|
  {
    if first == [] {
      assert first + second == second;
    } else {
      RunsJoin(Apply(s, first[0]), first[1..], t, second, u);
      assert (first + second)[1..] == first[1..] + second;
    }
  }

  /** What is left of the loop of mdb_find_oldest. */
  ghost function ScanRest(slots: seq<Slot>, low: nat, min: TxnId): TxnId
    requires low <= |slots|
  {
    if low == 0 then min else ScanRest(slots, low - 1, ScanMin(slots[low - 1], min))
  }

  /** mdb_find_oldest */
  ghost function FindOldest(s: State): TxnId
    requires s.writer.Writer? && s.writer.id > 0
  {
    ScanRest(s.slots, |s.slots|, s.writer.id - 1)
  }

  predicate IsPublished(slot: Slot, t: TxnId) {
    slot.Claimed? && slot.txnid == Some(t)
  }

  lemma {:induction false} ScanRestIsLeast(slots: seq<Slot>, low: nat, min: TxnId)
    requires low <= |slots|
    ensures var r := ScanRest(slots, low, min);
            && r <= min && (forall i, t :: 0 <= i < low && IsPublished(slots[i], t) ==> r <= t)
            && (r == min || exists i :: 0 <= i < low && IsPublished(slots[i], r))
  {
    if low > 0 {
      ScanRestIsLeast(slots, low - 1, ScanMin(slots[low - 1], min));
    }
  }

  /** The result is the least of the last committed id and the ids that readers have
      published, no other lower bound. */
  lemma {:induction false} OldestIsLeast(s: State)
    requires s.writer.Writer? && s.writer.id > 0
    ensures var r := FindOldest(s);
            && r <= s.writer.id - 1 && (forall i, t :: 0 <= i < |s.slots| && IsPublished(s.slots[i], t) ==> r <= t)
            && (r == s.writer.id - 1 || exists i :: 0 <= i < |s.slots| && IsPublished(s.slots[i], r))
  {
    ScanRestIsLeast(s.slots, |s.slots|, s.writer.id - 1);
  }

  lemma {:induction false} ScanSlotsRun(s: State) returns (events: seq<Event>)
    requires IsWorking(s) && s.writer.scan.Scan? && s.writer.scan.low <= |s.slots|
    ensures var Scan(low, min) := s.writer.scan;
            Run(s, events, s.(writer := s.writer.(scan := Scan(0, ScanRest(s.slots, low, min)))))
    decreases s.writer.scan.low
  {
    events := [];
    if s.writer.scan.low > 0 {
      var rest := ScanSlotsRun(Apply(s, ScanSlot));
      events := [ScanSlot] + rest;
      assert events[1..] == rest;
    }
  }

  ghost function Scanned(s: State): State
    requires s.writer.Writer? && s.writer.id > 0
  {
    s.(writer := s.writer.(oldest := FindOldest(s), scan := NoScan), oldests := s.oldests + {FindOldest(s)})
  }

  lemma {:induction false} ScanRun(s: State) returns (events: seq<Event>)
    requires IsWorking(s) && s.writer.scan.NoScan? && s.writer.id > 0
    ensures Run(s, events, Scanned(s))
  {
    var started := Apply(s, StartScan);
    var slots := ScanSlotsRun(started);
    var done := started.(writer := started.writer.(scan := Scan(0, FindOldest(s))));
    RunThen(started, slots, done, FinishScan);
    events := [StartScan] + (slots + [FinishScan]);
    assert events[1..] == slots + [FinishScan];
    assert Apply(done, FinishScan) == Scanned(s);
  }

  /** The whole of mdb_page_alloc, from what PageStore.Store.PageAlloc promises:
      with the cached oldest id or with the one a look at the readers gives, it is
      a run of the machine that hands out no live page. */
  lemma {:induction false} PageAllocIsARun(s: State, scan: TxnId, c: Accounts, num: nat, p: Pgno, maxPgno: Pgno,
                                           content: map<Pgno, PageBytes>)
    returns (events: seq<Event>, t: State)
    requires Reachable(s) && IsWorking(s) && s.writer.scan.NoScan? && s.writer.id > 0 && scan == FindOldest(s)
    requires content.Keys == PageRange(p, p + num)
    requires PageStore.AllocEffect(s.writer.acc, c, num, PageStore.Allocated(p), maxPgno)
    requires c.last > s.writer.acc.last ==> c.last < s.writer.oldest || c.last < scan
    ensures Run(s, events, t) && t.writer.Writer? && t.writer.acc == c && t.writer.mine == s.writer.mine + content.Keys
    ensures forall x :: x in Live(s) ==> content.Keys !! x.pages.Keys
  {
    if c.last > s.writer.acc.last ==> c.last < s.writer.oldest {
      events, t := AllocationIsARun(s, c, num, p, maxPgno, content);
    } else {
      var first := ScanRun(s);
      var u := Scanned(s);
      ReachableOn(s, first, u);
      var second;
      second, t := AllocationIsARun(u, c, num, p, maxPgno, content);
      RunsJoin(s, first, u, second, t);
      events := first + second;
      assert Live(u) == Live(s);
    }
  }

  lemma {:induction false} ReachableOn(s: State, events: seq<Event>, t: State)
    requires Reachable(s) && Run(s, events, t)
    ensures Reachable(t)
  {
    var before :| Run(Start(), before, s);
    RunsJoin(Start(), before, s, events, t);
  }
}
