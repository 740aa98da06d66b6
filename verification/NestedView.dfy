/** What the transactions of a chain see, told from the events: in every page the
    bytes last written to it by a transaction that is open or has committed. */
module NestedView {
  import opened Basics
  import opened Nested

  // ----- one step, for the active transaction -----

  /** The page an event gives bytes to. */
  function Stored(e: Event): map<Pgno, PageBytes> {
    match e
    case NewPage(p, bytes) => map[p := bytes]
    case Write(p, bytes) => map[p := bytes]
    case ReuseLoose(p, bytes) => map[p := bytes]
    case _ => map[]
  }

  /** Copying, spilling and unspilling pages, dropping them, beginning and
      committing children change no page's bytes; the others change those of one
      page. */
  lemma {:induction false} StepView(s: State, e: Event, q: Pgno)
    requires Inv(s) && Enabled(s, e) && !e.AbortChild? && e != GiveBack(q)
    ensures var t := Apply(s, e);
            View(t.levels, t.disk, q)
            == if q in Stored(e) then Some(Stored(e)[q]) else View(s.levels, s.disk, q)
  {
    var t := Apply(s, e);
    if e.CommitChild? {
      CommitPublishesChildView(s, q);
    } else if e.Begin? {
      BeginIs(s);
      assert Front(Begun(s.levels)) == s.levels;
    } else {
      OwnStepView(s, e, q);
    }
  }

  lemma {:induction false} ViewLast(front: seq<Level>, l: Level, disk: map<Pgno, PageBytes>, q: Pgno)
    ensures View(front + [l], disk, q)
            == if q in l.spill then Mapped(disk, q) else if q in l.dirty then Some(l.dirty[q]) else View(front, disk, q)
  {
    assert Front(front + [l]) == front && Last(front + [l]) == l;
  }

  lemma {:induction false} SpillView(s: State, p: Pgno, q: Pgno)
    requires Separate(s.levels) && Enabled(s, Spill(p))
    ensures var t := Apply(s, Spill(p)); View(t.levels, t.disk, q) == View(s.levels, s.disk, q)
  {
    var t, front := Apply(s, Spill(p)), Front(s.levels);
    assert Last(s.levels).dirty.Keys !! Last(s.levels).spill;
    ViewLast(front, Last(t.levels), t.disk, q);
    if q != p {
      ViewFrame(front, s.disk, t.disk, q);
    }
  }

  lemma {:induction false} UnspillView(s: State, p: Pgno, q: Pgno)
    requires Separate(s.levels) && Enabled(s, Unspill(p))
    ensures var t := Apply(s, Unspill(p)); View(t.levels, t.disk, q) == View(s.levels, s.disk, q)
  {
    var t := Apply(s, Unspill(p));
    SpilledView(s.levels, s.disk, p);
    ViewLast(Front(s.levels), Last(t.levels), t.disk, q);
  }

  /** Steps that change the dirty list by one page, in place of what is seen. */
  lemma {:induction false} DirtyView(s: State, l: Level, p: Pgno, q: Pgno)
    requires Separate(s.levels) && s.levels != [] && l.spill == Last(s.levels).spill && p !in l.spill
    requires l.dirty == Last(s.levels).dirty || (p in l.dirty && l.dirty - {p} == Last(s.levels).dirty - {p})
    ensures var t := SetLast(s, l);
            View(t.levels, t.disk, q)
            == if q == p && p in l.dirty then Some(l.dirty[p]) else View(s.levels, s.disk, q)
  {
    ViewLast(Front(s.levels), l, s.disk, q);
    SplitLast(s.levels);
    ViewLast(Front(s.levels), Last(s.levels), s.disk, q);
    if q != p {
      assert q in l.dirty <==> q in l.dirty - {p};
    }
  }

  lemma {:induction false} OwnStepView(s: State, e: Event, q: Pgno)
    requires Inv(s) && Enabled(s, e) && IsOwnStep(e) && e != GiveBack(q)
    ensures var t := Apply(s, e);
            View(t.levels, t.disk, q)
            == if q in Stored(e) then Some(Stored(e)[q]) else View(s.levels, s.disk, q)
  {
    match e {
      case Spill(p) => SpillView(s, p, q);
      case Unspill(p) => UnspillView(s, p, q);
      case CopyFromParent(p) => CopyView(s, p, q);
      case Drop(p) => DropView(s, p, q);
      case GiveBack(p) => GiveBackView(s, p, q);
      case _ => WriteView(s, e, q);
    }
  }

  lemma {:induction false} WriteView(s: State, e: Event, q: Pgno)
    requires Separate(s.levels) && Enabled(s, e) && (e.NewPage? || e.Write? || e.ReuseLoose?)
    ensures var t := Apply(s, e);
            View(t.levels, t.disk, q) == if q == e.p then Some(e.bytes) else View(s.levels, s.disk, q)
  {
    var l := Last(s.levels);
    assert l.dirty.Keys !! l.spill;
    assert e.NewPage? ==> e.p !in Touched(l);
    DirtyView(s, Last(Apply(s, e).levels), e.p, q);
  }

  lemma {:induction false} CopyView(s: State, p: Pgno, q: Pgno)
    requires Separate(s.levels) && Enabled(s, CopyFromParent(p))
    ensures var t := Apply(s, CopyFromParent(p)); View(t.levels, t.disk, q) == View(s.levels, s.disk, q)
  {
    DirtyView(s, Last(Apply(s, CopyFromParent(p)).levels), p, q);
  }

  lemma {:induction false} DropView(s: State, p: Pgno, q: Pgno)
    requires Enabled(s, Drop(p))
    ensures var t := Apply(s, Drop(p)); View(t.levels, t.disk, q) == View(s.levels, s.disk, q)
  {
    ViewLast(Front(s.levels), Last(Apply(s, Drop(p)).levels), s.disk, q);
  }

  lemma {:induction false} GiveBackView(s: State, p: Pgno, q: Pgno)
    requires Enabled(s, GiveBack(p)) && q != p
    ensures var t := Apply(s, GiveBack(p)); View(t.levels, t.disk, q) == View(s.levels, s.disk, q)
  {
    ViewLast(Front(s.levels), Last(Apply(s, GiveBack(p)).levels), s.disk, q);
  }

  // ----- runs, for every transaction of the chain -----

  type Log = map<Pgno, PageBytes>

  /** What each transaction of the chain has written or taken over: a child begins
      with its parent's log, a commit hands the child's log over, and an abort
      forgets it. */
  function StepLogs(logs: seq<Log>, e: Event): seq<Log>
    requires logs != []
  {
    var top := logs[|logs| - 1];
    match e
    case Begin => logs + [top]
    case CommitChild => if |logs| > 1 then logs[..|logs| - 2] + [top] else logs
    case AbortChild => if |logs| > 1 then logs[..|logs| - 1] else logs
    case _ => logs[..|logs| - 1] + [top + Stored(e)]
  }

  function RunLogs(logs: seq<Log>, events: seq<Event>): seq<Log>
    requires logs != []
    decreases |events|
  {
    if events == [] then logs else RunLogs(StepLogs(logs, events[0]), events[1..])
  }

  function Expected(disk: map<Pgno, PageBytes>, log: Log, p: Pgno): Option<PageBytes> {
    if p in log then Some(log[p]) else Mapped(disk, p)
  }

  /** The pages of each transaction's trees, in the same way. */
  function StepUses(uses: seq<set<Pgno>>, e: Event): seq<set<Pgno>>
    requires uses != []
  {
    var front, top := uses[..|uses| - 1], uses[|uses| - 1];
    match e
    case NewPage(p, _) => front + [top + {p}]
    case ReuseLoose(p, _) => front + [top + {p}]
    case Drop(p) => front + [top - {p}]
    case GiveBack(p) => front + [top - {p}]
    case Begin => uses + [top]
    case CommitChild => if |uses| > 1 then uses[..|uses| - 2] + [top] else uses
    case AbortChild => if |uses| > 1 then front else uses
    case _ => uses
  }

  function RunUses(uses: seq<set<Pgno>>, events: seq<Event>): seq<set<Pgno>>
    requires uses != []
    decreases |events|
  {
    if events == [] then uses else RunUses(StepUses(uses, events[0]), events[1..])
  }

  ghost predicate HasUses(s: State, uses: seq<set<Pgno>>) {
    |uses| == |s.levels| && forall i :: 0 <= i < |uses| ==> s.levels[i].used == uses[i]
  }

  lemma {:induction false} StepHasUses(s: State, uses: seq<set<Pgno>>, e: Event)
    requires HasUses(s, uses) && Enabled(s, e)
    ensures HasUses(Apply(s, e), StepUses(uses, e))
  {
    var t, after := Apply(s, e), StepUses(uses, e);
    forall i | 0 <= i < |after|
      ensures t.levels[i].used == after[i]
    {
      if i < |t.levels| - 1 {
        assert t.levels[i] == s.levels[i];
      }
    }
  }

  lemma {:induction false} RunHasUses(s: State, uses: seq<set<Pgno>>, events: seq<Event>, t: State)
    requires HasUses(s, uses) && RunAbove(s, events, t, 0) && uses != []
    ensures HasUses(t, RunUses(uses, events))
    decreases |events|
  {
    if events != [] {
      StepHasUses(s, uses, events[0]);
      RunHasUses(Apply(s, events[0]), StepUses(uses, events[0]), events[1..], t);
    }
  }

  /** Every transaction sees in each page of its trees what its log says; `disk` is
      the file when the outermost one began. */
  ghost predicate SeesLogs(s: State, disk: map<Pgno, PageBytes>, logs: seq<Log>) {
    && |logs| == |s.levels|
    && forall i, p :: 0 <= i < |logs| && p in s.levels[i].used ==>
         View(s.levels[..i + 1], s.disk, p) == Expected(disk, logs[i], p)
  }

  lemma {:induction false} UsedBefore(s: State, e: Event, p: Pgno)
    requires Enabled(s, e) && !e.AbortChild? && p in Last(Apply(s, e).levels).used
    ensures e != GiveBack(p) && (p !in Stored(e) ==> p in Last(s.levels).used)
  {
  }

  lemma {:induction false} TopLog(logs: seq<Log>, e: Event)
    requires logs != [] && !e.AbortChild? && (e.CommitChild? ==> |logs| > 1)
    ensures var after := StepLogs(logs, e);
            after != [] && after[|after| - 1] == logs[|logs| - 1] + Stored(e)
  {
    assert e.Begin? || e.CommitChild? ==> logs[|logs| - 1] + Stored(e) == logs[|logs| - 1];
  }

  lemma {:induction false} ActiveSawLog(s: State, disk: map<Pgno, PageBytes>, logs: seq<Log>, p: Pgno)
    requires s.levels != [] && SeesLogs(s, disk, logs) && p in Last(s.levels).used
    ensures View(s.levels, s.disk, p) == Expected(disk, logs[|logs| - 1], p)
  {
    var n := |s.levels|;
    assert s.levels[..n - 1 + 1] == s.levels && p in s.levels[n - 1].used;
  }

  lemma {:induction false} ActiveSeesLog(s: State, disk: map<Pgno, PageBytes>, logs: seq<Log>, e: Event, p: Pgno)
    requires Inv(s) && SeesLogs(s, disk, logs) && Enabled(s, e) && !e.AbortChild?
    requires p in Last(Apply(s, e).levels).used
    ensures var t := Apply(s, e); var after := StepLogs(logs, e);
            after != [] && View(t.levels, t.disk, p) == Expected(disk, after[|after| - 1], p)
  {
    UsedBefore(s, e, p);
    StepView(s, e, p);
    TopLog(logs, e);
    if p !in Stored(e) {
      ActiveSawLog(s, disk, logs, p);
    }
  }

  /** Any step of the chain. */
  lemma {:induction false} StepSeesLogs(s: State, disk: map<Pgno, PageBytes>, logs: seq<Log>, e: Event)
    requires Inv(s) && SeesLogs(s, disk, logs) && Enabled(s, e)
    ensures SeesLogs(Apply(s, e), disk, StepLogs(logs, e))
  {
    var t, after := Apply(s, e), StepLogs(logs, e);
    var n := |t.levels|;
    forall i, p | 0 <= i < |after| && p in t.levels[i].used
      ensures View(t.levels[..i + 1], t.disk, p) == Expected(disk, after[i], p)
    {
      if i == n - 1 && !e.AbortChild? {
        assert t.levels[..i + 1] == t.levels;
        ActiveSeesLog(s, disk, logs, e, p);
      } else {
        OuterSeesLog(s, disk, logs, e, i, p);
      }
    }
  }

  lemma {:induction false} OuterStays(s: State, logs: seq<Log>, e: Event, i: nat)
    requires Enabled(s, e) && |logs| == |s.levels|
    requires i < |Apply(s, e).levels| && (i == |Apply(s, e).levels| - 1 ==> e.AbortChild?)
    ensures i < |s.levels| && Apply(s, e).levels[..i + 1] == s.levels[..i + 1] && Apply(s, e).levels[i] == s.levels[i]
    ensures i < |StepLogs(logs, e)| && StepLogs(logs, e)[i] == logs[i]
  {
    if e.Begin? {
      BeginIs(s);
    }
  }

  lemma {:induction false} OuterSeesLog(s: State, disk: map<Pgno, PageBytes>, logs: seq<Log>, e: Event, i: nat,
                                        p: Pgno)
    requires Inv(s) && SeesLogs(s, disk, logs) && Enabled(s, e)
    requires i < |Apply(s, e).levels| && (i == |Apply(s, e).levels| - 1 ==> e.AbortChild?)
    requires p in Apply(s, e).levels[i].used
    ensures var t := Apply(s, e);
            i < |StepLogs(logs, e)| && View(t.levels[..i + 1], t.disk, p) == Expected(disk, StepLogs(logs, e)[i], p)
  {
    OuterStays(s, logs, e, i);
    if IsOwnStep(e) {
      StepKeepsAncestors(s, e, i + 1, p);
    }
    assert View(s.levels[..i + 1], s.disk, p) == Expected(disk, logs[i], p);
  }

  lemma {:induction false} RunSeesLogs(s: State, disk: map<Pgno, PageBytes>, logs: seq<Log>, events: seq<Event>,
                                       t: State)
    requires Inv(s) && SeesLogs(s, disk, logs) && RunAbove(s, events, t, 0) && logs != []
    ensures SeesLogs(t, disk, RunLogs(logs, events))
    decreases |events|
  {
    if events != [] {
      StepKeeps(s, events[0]);
      StepSeesLogs(s, disk, logs, events[0]);
      RunSeesLogs(Apply(s, events[0]), disk, StepLogs(logs, events[0]), events[1..], t);
    }
  }

  // ----- main results -----

  /** Whatever happens in a chain that began with a fresh transaction, spills,
      commits and aborts of children included: each transaction sees in every page
      of its trees the last bytes that it, a committed child or, before it began,
      one of its ancestors has written there, and the file of the beginning
      elsewhere. */
  lemma {:induction false} EveryViewIsItsLog(disk: map<Pgno, PageBytes>, used: set<Pgno>, events: seq<Event>, s: State)
    requires RunAbove(Fresh(disk, used), events, s, 0)
    ensures SeesLogs(s, disk, RunLogs([map[]], events)) && HasUses(s, RunUses([used], events))
  {
    FreshIsGood(disk, used);
    var start := Fresh(disk, used);
    forall p | p in used
      ensures View(start.levels[..1], disk, p) == Mapped(disk, p)
    {
      assert start.levels[..1] == start.levels && Front(start.levels) == [];
    }
    RunSeesLogs(start, disk, [map[]], events, s);
    RunHasUses(start, [used], events, s);
  }

  /** Event i is the last one that gives bytes to the page. */
  ghost predicate IsLastWrite(events: seq<Event>, i: nat, p: Pgno) {
    i < |events| && p in Stored(events[i]) && forall j :: i < j < |events| ==> p !in Stored(events[j])
  }

  ghost predicate NeverWritten(events: seq<Event>, p: Pgno) {
    forall j :: 0 <= j < |events| ==> p !in Stored(events[j])
  }

  /** No child is aborted and the page is not given back. */
  ghost predicate Keeps(events: seq<Event>, p: Pgno) {
    AbortChild !in events && GiveBack(p) !in events
  }

  lemma {:induction false} UnwrittenStays(s: State, events: seq<Event>, t: State, p: Pgno)
    requires Inv(s) && RunAbove(s, events, t, 0) && Keeps(events, p) && NeverWritten(events, p)
    ensures View(t.levels, t.disk, p) == View(s.levels, s.disk, p)
    decreases |events|
  {
    if events != [] {
      StepKeeps(s, events[0]);
      StepView(s, events[0], p);
      UnwrittenStays(Apply(s, events[0]), events[1..], t, p);
    }
  }

  /** In a run without aborts the active transaction sees, in every page whatever,
      the bytes of the last event that wrote it. */
  lemma {:induction false} ViewIsLastWrite(s: State, events: seq<Event>, t: State, i: nat, p: Pgno)
    requires Inv(s) && RunAbove(s, events, t, 0) && Keeps(events, p) && IsLastWrite(events, i, p)
    ensures View(t.levels, t.disk, p) == Some(Stored(events[i])[p])
    decreases |events|
  {
    var next, rest := Apply(s, events[0]), events[1..];
    StepKeeps(s, events[0]);
    if i == 0 {
      StepView(s, events[0], p);
      UnwrittenStays(next, rest, t, p);
    } else {
      assert IsLastWrite(rest, i - 1, p);
      ViewIsLastWrite(next, rest, t, i - 1, p);
    }
  }
}
