/** What a commit publishes, told from the events of the transaction: in every page
    the bytes last written to it, or those of the snapshot the writer began from. */
module WriterView {
  import opened Basics
  import opened PageAccounts
  import opened Mvcc

  /** The pages an event gives bytes to. */
  ghost function Written(e: Event): map<Pgno, PageBytes> {
    match e
    case AllocHead(content) => content
    case AllocNew(content) => content
    case AllocLoose(p, bytes) => map[p := bytes]
    case ModifyPage(p, bytes) => map[p := bytes]
    case _ => map[]
  }

  predicate EndsWriter(e: Event) {
    e.PublishCommit? || e.AbortWrite? || e.Crash?
  }

  ghost predicate KeepsWriter(events: seq<Event>) {
    forall i :: 0 <= i < |events| ==> !EndsWriter(events[i])
  }

  /** The last bytes written to each page, after what is in the log already. */
  ghost function Logged(log: map<Pgno, PageBytes>, events: seq<Event>): map<Pgno, PageBytes>
    decreases |events|
  {
    if events == [] then log else Logged(log + Written(events[0]), events[1..])
  }

  /** What the writer finds in a page: its own copy in memory, or the file. */
  function Seen(s: State, p: Pgno): Option<PageBytes>
    requires s.writer.Writer?
  {
    if p in s.writer.mem then Some(s.writer.mem[p]) else if p in s.disk then Some(s.disk[p]) else None
  }

  /** A writer that began from snapshot x and has written what is in the log. */
  ghost predicate Wrote(s: State, x: Snapshot, log: map<Pgno, PageBytes>) {
    && s.writer.Writer? && Meta(s, s.mti) == x && log.Keys == s.writer.mine
    && s.writer.acc.inUse <= log.Keys + x.pages.Keys && s.writer.mem.Keys <= log.Keys
    && forall p :: p in s.writer.acc.inUse && p in log ==> Seen(s, p) == Some(log[p])
  }

  // ----- every event -----

  lemma {:induction false} ReaderWrote(s: State, x: Snapshot, log: map<Pgno, PageBytes>, e: Event)
    requires Wrote(s, x, log) && Enabled(s, e) && IsReaderEvent(e)
    ensures Wrote(Apply(s, e), x, log + Written(e))
  {
    var t := Apply(s, e);
    assert t.writer == s.writer && t.disk == s.disk && t.metas == s.metas && t.mti == s.mti;
    assert log + Written(e) == log;
    assert forall p :: Seen(t, p) == Seen(s, p);
  }

  lemma {:induction false} AllocWrote(s: State, x: Snapshot, log: map<Pgno, PageBytes>, e: Event)
    requires Wrote(s, x, log) && Enabled(s, e) && (e.AllocHead? || e.AllocNew?)
    ensures Wrote(Apply(s, e), x, log + Written(e))
  {
    var t, log' := Apply(s, e), log + Written(e);
    assert e.content.Keys == Written(e).Keys && t.writer.acc.inUse == s.writer.acc.inUse + Written(e).Keys;
    forall p | p in t.writer.acc.inUse && p in log'
      ensures Seen(t, p) == Some(log'[p])
    {
      assert p !in Written(e) ==> Seen(t, p) == Seen(s, p);
    }
  }

  lemma {:induction false} OneWrote(s: State, x: Snapshot, log: map<Pgno, PageBytes>, e: Event)
    requires Inv(s) && Wrote(s, x, log) && Enabled(s, e) && (e.AllocLoose? || e.ModifyPage?)
    ensures Wrote(Apply(s, e), x, log + Written(e))
  {
    var t, log' := Apply(s, e), log + Written(e);
    assert e.p in s.writer.mine by {
      assert e.ModifyPage? ==> e.p in s.writer.mem.Keys;
    }
    assert log'.Keys == log.Keys;
    forall p | p in t.writer.acc.inUse && p in log'
      ensures Seen(t, p) == Some(log'[p])
    {
      assert p != e.p ==> Seen(t, p) == Seen(s, p);
    }
  }

  /** Steps that write nothing and leave memory and file as they are. */
  lemma {:induction false} QuietWrote(s: State, x: Snapshot, log: map<Pgno, PageBytes>, t: State)
    requires Wrote(s, x, log) && t.writer.Writer? && t.mti == s.mti && Meta(t, t.mti) == Meta(s, s.mti)
    requires t.writer.mem == s.writer.mem && t.disk == s.disk && t.writer.mine == s.writer.mine
    requires t.writer.acc.inUse <= s.writer.acc.inUse
    ensures Wrote(t, x, log)
  {
    assert forall p :: Seen(t, p) == Seen(s, p);
  }

  lemma {:induction false} QuietSteps(s: State, e: Event)
    requires Inv(s) && s.writer.Writer? && Enabled(s, e)
    requires e.StartScan? || e.ScanSlot? || e.FinishScan? || e.ConsumeRecord? || e.DropLoose? || e.SaveFreelist?
             || e.ReleasePages? || e.LoosenPage? || e.WriteMeta?
    ensures var t := Apply(s, e);
            && t.writer.Writer? && t.mti == s.mti && Meta(t, t.mti) == Meta(s, s.mti)
            && t.writer.mem == s.writer.mem && t.disk == s.disk && t.writer.mine == s.writer.mine
            && t.writer.acc.inUse <= s.writer.acc.inUse
  {
  }

  lemma {:induction false} MovedWrote(s: State, x: Snapshot, log: map<Pgno, PageBytes>, e: Event)
    requires Inv(s) && Wrote(s, x, log) && Enabled(s, e)
    requires e.GiveBackPages? || e.WriteOut? || e.BringBack?
    ensures Wrote(Apply(s, e), x, log + Written(e))
  {
    var t := Apply(s, e);
    assert log + Written(e) == log;
    assert t.writer.acc.inUse <= s.writer.acc.inUse;
    forall p | p in t.writer.acc.inUse && p in log
      ensures Seen(t, p) == Some(log[p])
    {
      assert Seen(t, p) == Seen(s, p);
    }
  }

  lemma {:induction false} StepWrote(s: State, x: Snapshot, log: map<Pgno, PageBytes>, e: Event)
    requires Inv(s) && Wrote(s, x, log) && Enabled(s, e) && !EndsWriter(e)
    ensures Wrote(Apply(s, e), x, log + Written(e))
  {
    if IsReaderEvent(e) {
      ReaderWrote(s, x, log, e);
    } else if e.AllocHead? || e.AllocNew? {
      AllocWrote(s, x, log, e);
    } else if e.AllocLoose? || e.ModifyPage? {
      OneWrote(s, x, log, e);
    } else if e.GiveBackPages? || e.WriteOut? || e.BringBack? {
      MovedWrote(s, x, log, e);
    } else {
      QuietSteps(s, e);
      QuietWrote(s, x, log, Apply(s, e));
      assert log + Written(e) == log;
    }
  }

  lemma {:induction false} RunWrote(s: State, x: Snapshot, log: map<Pgno, PageBytes>, events: seq<Event>, t: State)
    requires Inv(s) && Wrote(s, x, log) && Run(s, events, t) && KeepsWriter(events)
    ensures Inv(t) && Wrote(t, x, Logged(log, events))
    decreases |events|
  {
    if events != [] {
      StepKeeps(s, events[0]);
      StepWrote(s, x, log, events[0]);
      RunWrote(Apply(s, events[0]), x, log + Written(events[0]), events[1..], t);
    }
  }

  // ----- the pages in use -----

  /** The pages an event takes from the trees. */
  ghost function TakenOut(e: Event): set<Pgno> {
    match e
    case ReleasePages(ps) => ps
    case LoosenPage(p) => {p}
    case GiveBackPages(ps) => ps
    case _ => {}
  }

  /** The pages of the trees after the events. */
  ghost function UsedAfter(used: set<Pgno>, events: seq<Event>): set<Pgno>
    decreases |events|
  {
    if events == [] then used else UsedAfter(used + HandedOut(events[0]) - TakenOut(events[0]), events[1..])
  }

  lemma {:induction false} GrowUses(s: State, e: Event)
    requires s.writer.Writer? && Enabled(s, e) && (e.AllocHead? || e.AllocNew? || e.AllocLoose?)
    ensures Apply(s, e).writer.Writer? && Apply(s, e).writer.acc.inUse == s.writer.acc.inUse + HandedOut(e)
  {
  }

  lemma {:induction false} ShrinkUses(s: State, e: Event)
    requires s.writer.Writer? && Enabled(s, e) && (e.ReleasePages? || e.LoosenPage? || e.GiveBackPages?)
    ensures Apply(s, e).writer.Writer? && Apply(s, e).writer.acc.inUse == s.writer.acc.inUse - TakenOut(e)
  {
  }

  lemma {:induction false} OtherUses(s: State, e: Event)
    requires s.writer.Writer? && Enabled(s, e) && !EndsWriter(e) && !IsReaderEvent(e)
    requires HandedOut(e) == TakenOut(e) == {} && !e.ReleasePages? && !e.GiveBackPages? && !e.AllocHead? && !e.AllocNew?
    ensures Apply(s, e).writer.Writer? && Apply(s, e).writer.acc.inUse == s.writer.acc.inUse
  {
  }

  lemma {:induction false} StepUses(s: State, e: Event)
    requires s.writer.Writer? && Enabled(s, e) && !EndsWriter(e)
    ensures Apply(s, e).writer.Writer?
    ensures Apply(s, e).writer.acc.inUse == s.writer.acc.inUse + HandedOut(e) - TakenOut(e)
  {
    if IsReaderEvent(e) {
      assert Apply(s, e).writer == s.writer;
    } else if e.AllocHead? || e.AllocNew? || e.AllocLoose? {
      GrowUses(s, e);
    } else if e.ReleasePages? || e.LoosenPage? || e.GiveBackPages? {
      ShrinkUses(s, e);
    } else {
      OtherUses(s, e);
    }
  }

  lemma {:induction false} RunUses(s: State, events: seq<Event>, t: State)
    requires s.writer.Writer? && Run(s, events, t) && KeepsWriter(events)
    ensures t.writer.Writer? && t.writer.acc.inUse == UsedAfter(s.writer.acc.inUse, events)
    decreases |events|
  {
    if events != [] {
      StepUses(s, events[0]);
      RunUses(Apply(s, events[0]), events[1..], t);
    }
  }

  // ----- the log is the last write -----

  /** Event i is the last one that gives bytes to the page. */
  ghost predicate IsLastWrite(events: seq<Event>, i: nat, p: Pgno) {
    i < |events| && p in Written(events[i]) && forall j :: i < j < |events| ==> p !in Written(events[j])
  }

  ghost predicate NeverWritten(events: seq<Event>, p: Pgno) {
    forall j :: 0 <= j < |events| ==> p !in Written(events[j])
  }

  lemma {:induction false} LoggedStays(log: map<Pgno, PageBytes>, events: seq<Event>, p: Pgno)
    requires NeverWritten(events, p)
    ensures p in Logged(log, events) <==> p in log
    ensures p in log ==> Logged(log, events)[p] == log[p]
    decreases |events|
  {
    if events != [] {
      LoggedStays(log + Written(events[0]), events[1..], p);
    }
  }

  lemma {:induction false} LoggedIsLast(log: map<Pgno, PageBytes>, events: seq<Event>, i: nat, p: Pgno)
    requires IsLastWrite(events, i, p)
    ensures p in Logged(log, events) && Logged(log, events)[p] == Written(events[i])[p]
    decreases |events|
  {
    var log', rest := log + Written(events[0]), events[1..];
    if i == 0 {
      LoggedStays(log', rest, p);
    } else {
      assert IsLastWrite(rest, i - 1, p);
      LoggedIsLast(log', rest, i - 1, p);
    }
  }

  // ----- main results -----

  lemma {:induction false} BeginWrote(s: State, oldest: TxnId)
    requires Inv(s) && Enabled(s, BeginWrite(oldest))
    ensures Inv(Apply(s, BeginWrite(oldest))) && Wrote(Apply(s, BeginWrite(oldest)), Newest(s), map[])
  {
    StepKeeps(s, BeginWrite(oldest));
  }

  /** A transaction of the run from its begin to t. */
  ghost predicate Within(s: State, oldest: TxnId, events: seq<Event>, t: State) {
    && Reachable(s) && Enabled(s, BeginWrite(oldest))
    && Run(Apply(s, BeginWrite(oldest)), events, t) && KeepsWriter(events)
  }

  lemma {:induction false} TransactionWrote(s: State, oldest: TxnId, events: seq<Event>, t: State)
    requires Within(s, oldest, events, t)
    ensures Inv(t) && Wrote(t, Newest(s), Logged(map[], events)) && t.mti == Newest(s).id
    ensures t.writer.acc.inUse == UsedAfter(Newest(s).pages.Keys, events)
  {
    ReachableIsGood(s);
    BeginWrote(s, oldest);
    RunWrote(Apply(s, BeginWrite(oldest)), Newest(s), map[], events, t);
    RunUses(Apply(s, BeginWrite(oldest)), events, t);
  }

  /** The bytes of a page are those the last of the events gave it, or those of the
      old snapshot. */
  ghost predicate AsWritten(events: seq<Event>, was: Snapshot, p: Pgno, bytes: Option<PageBytes>) {
    && (forall i: nat :: IsLastWrite(events, i, p) ==> bytes == Some(Written(events[i])[p]))
    && (NeverWritten(events, p) ==> p in was.pages && bytes == Some(was.pages[p]))
  }

  lemma {:induction false} LogIsAsWritten(t: State, was: Snapshot, events: seq<Event>, p: Pgno)
    requires Inv(t) && Wrote(t, was, Logged(map[], events)) && p in t.writer.acc.inUse
    ensures AsWritten(events, was, p, Seen(t, p))
  {
    forall i: nat | IsLastWrite(events, i, p)
      ensures Seen(t, p) == Some(Written(events[i])[p])
    {
      LoggedIsLast(map[], events, i, p);
    }
    if NeverWritten(events, p) {
      LoggedStays(map[], events, p);
      UnwrittenIsOld(t, was, Logged(map[], events), p);
    }
  }

  lemma {:induction false} UnwrittenIsOld(t: State, x: Snapshot, log: map<Pgno, PageBytes>, p: Pgno)
    requires Inv(t) && Wrote(t, x, log) && p in t.writer.acc.inUse && p !in log
    ensures p in x.pages && Seen(t, p) == Some(x.pages[p])
  {
    assert x in Live(t) && Intact(x, t.disk);
    assert p !in t.writer.mem.Keys;
  }

  /** All along a transaction the writer reads back what it wrote last, and the
      snapshot it began from elsewhere. */
  lemma {:induction false} WriterReadsItsWrites(s: State, oldest: TxnId, events: seq<Event>, t: State, p: Pgno)
    requires Within(s, oldest, events, t)
    ensures t.writer.Writer? && (p in t.writer.acc.inUse ==> AsWritten(events, Newest(s), p, Seen(t, p)))
  {
    TransactionWrote(s, oldest, events, t);
    if p in t.writer.acc.inUse {
      LogIsAsWritten(t, Newest(s), events, p);
    }
  }

  lemma {:induction false} MetaLeadsToSeen(t: State, p: Pgno)
    requires Inv(t) && Enabled(t, WriteMeta)
    ensures var x := Newest(Apply(t, WriteMeta));
            && x.id == t.mti + 1 && x.pages.Keys == t.writer.acc.inUse
            && (p in x.pages ==> Seen(t, p) == Some(x.pages[p]))
  {
    CommittedPagesOnDisk(t);
    var x := Newest(Apply(t, WriteMeta));
    assert x == Snapshot(t.writer.id, OnDiskPages(t.writer, t.disk), t.writer.acc.free, t.writer.acc.next);
    assert p in t.writer.acc.inUse ==> p !in t.writer.mem.Keys;
  }

  /** Commit: the new snapshot has the pages of the one before, with those that the
      transaction allocated and without those it gave up, each with the bytes last
      written to it by this transaction, or with those it had before. */
  lemma {:induction false} CommitPublishesLastWrites(s: State, oldest: TxnId, events: seq<Event>, t: State, p: Pgno)
    requires Within(s, oldest, events, t) && Enabled(t, WriteMeta)
    ensures var x := Newest(Apply(t, WriteMeta));
            && x.id == Newest(s).id + 1 && x.pages.Keys == UsedAfter(Newest(s).pages.Keys, events)
            && (p in x.pages ==> AsWritten(events, Newest(s), p, Some(x.pages[p])))
  {
    TransactionWrote(s, oldest, events, t);
    MetaLeadsToSeen(t, p);
    if p in t.writer.acc.inUse {
      LogIsAsWritten(t, Newest(s), events, p);
    }
  }
}
