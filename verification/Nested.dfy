/** Nested write transactions and spilling: every transaction of the chain has
    its own dirty list and spill list, and a page is looked up from the innermost
    transaction outwards. */
module Nested {
  import opened Basics
  import IdList

  type Pgno = nat
  type PageBytes = seq<nat>

  /** `used` are the pages of the transaction's trees, `room` is mt_dirty_room. */
  datatype Level = Level(
    dirty: map<Pgno, PageBytes>,
    spill: set<Pgno>,
    used: set<Pgno>,
    room: int)

  /** `levels[0]` is the outermost transaction, the last one is active. */
  datatype State = State(levels: seq<Level>, disk: map<Pgno, PageBytes>)

  function Last(levels: seq<Level>): Level
    requires levels != []
  {
    levels[|levels| - 1]
  }

  function Front(levels: seq<Level>): seq<Level>
    requires levels != []
  {
    levels[..|levels| - 1]
  }

  function Mapped(disk: map<Pgno, PageBytes>, p: Pgno): Option<PageBytes> {
    if p in disk then Some(disk[p]) else None
  }

  /** mdb_page_get: what the last transaction of the chain sees in page p. */
  function View(levels: seq<Level>, disk: map<Pgno, PageBytes>, p: Pgno): Option<PageBytes> {
    if levels == [] then Mapped(disk, p)
    else if p in Last(levels).spill then Mapped(disk, p)
    else if p in Last(levels).dirty then Some(Last(levels).dirty[p])
    else View(Front(levels), disk, p)
  }

  /** Pages that the transaction dirtied, in memory or spilled. */
  function Touched(l: Level): set<Pgno> {
    l.dirty.Keys + l.spill
  }

  /** Pages the last transaction sees in memory: these use up dirty room. */
  ghost function InMemory(levels: seq<Level>): set<Pgno> {
    if levels == [] then {} else InMemory(Front(levels)) - Last(levels).spill + Last(levels).dirty.Keys
  }

  datatype Event =
    | NewPage(p: Pgno, bytes: PageBytes)
    | CopyFromParent(p: Pgno)
    | Unspill(p: Pgno)
    | Write(p: Pgno, bytes: PageBytes)
    | Drop(p: Pgno)                          // freed, or loose if it is dirty here
    | ReuseLoose(p: Pgno, bytes: PageBytes)
    | GiveBack(p: Pgno)                      // mdb_ovpage_free, to me_pghead
    | Spill(p: Pgno)
    | Begin
    | CommitChild
    | AbortChild

  /** No transaction of the chain uses or has dirtied the page: the allocator
      takes page numbers from the reclaimed list or the end of the map. */
  ghost predicate IsFree(s: State, p: Pgno) {
    forall i :: 0 <= i < |s.levels| ==> p !in s.levels[i].used && p !in Touched(s.levels[i])
  }

  ghost predicate SpilledAbove(s: State, p: Pgno) {
    exists i :: 0 <= i < |s.levels| - 1 && p in s.levels[i].spill
  }

  /** The first transaction from the inside that touched the page spilled it. */
  ghost predicate SeenSpilled(levels: seq<Level>, p: Pgno) {
    levels != [] &&
    (p in Last(levels).spill || (p !in Last(levels).dirty && SeenSpilled(Front(levels), p)))
  }

  ghost predicate Enabled(s: State, e: Event) {
    s.levels != [] &&
    var t := Last(s.levels);
    match e
    case NewPage(p, _) => IsFree(s, p) && t.room > 0
    case CopyFromParent(p) => p !in Touched(t) && p in InMemory(s.levels) && View(s.levels, s.disk, p).Some?
    case Unspill(p) => SeenSpilled(s.levels, p) && p in s.disk && t.room > 0
    case Write(p, _) => p in t.dirty
    case Drop(p) => p in t.used
    case ReuseLoose(p, _) => p in t.dirty && p !in t.used
    case GiveBack(p) => |s.levels| == 1 && p in t.used && p in Touched(t)
    case Spill(p) => p in t.dirty && !SpilledAbove(s, p)
    case Begin => true
    case CommitChild => |s.levels| > 1
    case AbortChild => |s.levels| > 1
  }

  function SetLast(s: State, l: Level): State
    requires s.levels != []
  {
    s.(levels := Front(s.levels) + [l])
  }

  /** A page leaves the dirty list, or the spill list. */
  function GivenBack(t: Level, p: Pgno): Level {
    Level(t.dirty - {p}, t.spill - {p}, t.used - {p}, if p in t.dirty then t.room + 1 else t.room)
  }

  /** The parent's lists after the child's have been merged into them. */
  function Merged(parent: Level, child: Level): Level {
    Level((parent.dirty - child.spill) + child.dirty,
          parent.spill - child.dirty.Keys + child.spill,
          child.used,
          child.room)
  }

  /** The chain after the commit of the active transaction, and with a new one. */
  function Committed(levels: seq<Level>): seq<Level>
    requires |levels| > 1
  {
    Front(Front(levels)) + [Merged(Last(Front(levels)), Last(levels))]
  }

  function Begun(levels: seq<Level>): seq<Level>
    requires levels != []
  {
    levels + [Level(map[], {}, Last(levels).used, Last(levels).room)]
  }

  ghost function Apply(s: State, e: Event): State
    requires Enabled(s, e)
  {
    var t := Last(s.levels);
    match e
    case NewPage(p, bytes) => SetLast(s, t.(dirty := t.dirty[p := bytes], used := t.used + {p}, room := t.room - 1))
    case CopyFromParent(p) =>
      SetLast(s, t.(dirty := t.dirty[p := View(s.levels, s.disk, p).value]))
    case Unspill(p) =>
      SetLast(s, t.(dirty := t.dirty[p := s.disk[p]], spill := t.spill - {p}, room := t.room - 1))
    case Write(p, bytes) => SetLast(s, t.(dirty := t.dirty[p := bytes]))
    case Drop(p) => SetLast(s, t.(used := t.used - {p}))
    case ReuseLoose(p, bytes) => SetLast(s, t.(dirty := t.dirty[p := bytes], used := t.used + {p}))
    case GiveBack(p) => SetLast(s, GivenBack(t, p))
    case Spill(p) =>
      SetLast(s, t.(dirty := t.dirty - {p}, spill := t.spill + {p}, room := t.room + 1))
      .(disk := s.disk[p := t.dirty[p]])
    case Begin => s.(levels := Begun(s.levels))
    case CommitChild => s.(levels := Committed(s.levels))
    case AbortChild => s.(levels := Front(s.levels))
  }

  // ----- the invariant -----

  /** A page dirtied by a transaction and used by one of its ancestors was
      dirtied by that ancestor, or by one further out, as well. */
  ghost predicate Layered(levels: seq<Level>) {
    forall i, j, p :: 0 <= j < i < |levels| && p in Touched(levels[i]) && p in levels[j].used ==>
      exists k :: 0 <= k <= j && p in Touched(levels[k])
  }

  ghost predicate Separate(levels: seq<Level>) {
    forall i :: 0 <= i < |levels| ==> levels[i].dirty.Keys !! levels[i].spill
  }

  /** mt_dirty_room of each transaction counts the pages it sees in memory. */
  ghost predicate RoomsOk(levels: seq<Level>) {
    levels == [] || (Last(levels).room + |InMemory(levels)| == IdList.UM_MAX && RoomsOk(Front(levels)))
  }

  ghost predicate Inv(s: State) {
    s.levels != [] && Layered(s.levels) && Separate(s.levels) && RoomsOk(s.levels)
  }

  // ----- where a page is found -----

  /** A page seen in memory does not depend on the file. */
  lemma {:induction false} InMemoryView(levels: seq<Level>, disk: map<Pgno, PageBytes>, disk': map<Pgno, PageBytes>,
                                        p: Pgno)
    requires Separate(levels) && p in InMemory(levels)
    ensures View(levels, disk, p) == View(levels, disk', p) && View(levels, disk, p).Some?
  {
    if p !in Last(levels).dirty {
      assert Separate(Front(levels));
      InMemoryView(Front(levels), disk, disk', p);
    }
  }

  lemma {:induction false} SpilledView(levels: seq<Level>, disk: map<Pgno, PageBytes>, p: Pgno)
    requires Separate(levels) && SeenSpilled(levels, p)
    ensures View(levels, disk, p) == Mapped(disk, p) && p !in InMemory(levels)
  {
    if p !in Last(levels).spill {
      assert Separate(Front(levels));
      SpilledView(Front(levels), disk, p);
    }
  }

  /** Only the page's own bytes in the file matter. */
  lemma {:induction false} ViewFrame(levels: seq<Level>, disk: map<Pgno, PageBytes>, disk': map<Pgno, PageBytes>,
                                     p: Pgno)
    requires Mapped(disk, p) == Mapped(disk', p)
    ensures View(levels, disk, p) == View(levels, disk', p)
  {
    if levels != [] {
      ViewFrame(Front(levels), disk, disk', p);
    }
  }

  lemma {:induction false} DirtyIsInMemory(levels: seq<Level>, p: Pgno, k: nat)
    requires k < |levels| && p in levels[k].dirty
    requires forall i :: 0 <= i < |levels| ==> p !in levels[i].spill
    ensures p in InMemory(levels)
  {
    if k < |levels| - 1 {
      assert forall i :: 0 <= i < |levels| - 1 ==> Front(levels)[i] == levels[i];
      DirtyIsInMemory(Front(levels), p, k);
    }
  }

  lemma {:induction false} InMemoryIsDirty(levels: seq<Level>, p: Pgno) returns (k: nat)
    requires p in InMemory(levels)
    ensures k < |levels| && p in levels[k].dirty
  {
    if p in Last(levels).dirty {
      k := |levels| - 1;
    } else {
      k := InMemoryIsDirty(Front(levels), p);
    }
  }

  lemma {:induction false} SpilledIsTouched(levels: seq<Level>, p: Pgno) returns (k: nat)
    requires SeenSpilled(levels, p)
    ensures k < |levels| && p in levels[k].spill
  {
    if p in Last(levels).spill {
      k := |levels| - 1;
    } else {
      k := SpilledIsTouched(Front(levels), p);
    }
  }

  // ----- every event keeps the invariant -----

  lemma {:induction false} InMemoryLast(front: seq<Level>, l: Level)
    ensures Front(front + [l]) == front && Last(front + [l]) == l
    ensures InMemory(front + [l]) == InMemory(front) - l.spill + l.dirty.Keys
    ensures RoomsOk(front) && l.room + |InMemory(front + [l])| == IdList.UM_MAX ==> RoomsOk(front + [l])
  {
    assert Front(front + [l]) == front;
  }

  lemma {:induction false} SplitLast(levels: seq<Level>)
    requires levels != []
    ensures levels == Front(levels) + [Last(levels)]
  {
  }

  /** `p` was dirtied by one of the transactions up to number j. */
  ghost predicate TouchedUpTo(levels: seq<Level>, j: int, p: Pgno)
    requires j < |levels|
  {
    exists k :: 0 <= k <= j && p in Touched(levels[k])
  }

  lemma {:induction false} TouchedUpToStays(levels: seq<Level>, levels': seq<Level>, j: int, p: Pgno)
    requires 0 <= j < |levels| && j < |levels'| && levels[..j + 1] == levels'[..j + 1]
    ensures TouchedUpTo(levels, j, p) <==> TouchedUpTo(levels', j, p)
  {
    forall k | 0 <= k <= j
      ensures levels[k] == levels'[k]
    {
      assert levels[k] == levels[..j + 1][k];
    }
  }

  /** Replacing or adding the last transaction keeps the layering if the pages
      it touched were touched before by a transaction, or are in use by none. */
  lemma {:induction false} LayeredLast(levels: seq<Level>, front: seq<Level>, l: Level)
    requires Layered(levels) && |front| <= |levels| && front == levels[..|front|]
    requires forall q, j :: q in Touched(l) && 0 <= j < |front| && q in front[j].used ==> TouchedUpTo(front, j, q)
    ensures Layered(front + [l])
  {
    var levels' := front + [l];
    forall i, j, q | 0 <= j < i < |levels'| && q in Touched(levels'[i]) && q in levels'[j].used
      ensures exists k :: 0 <= k <= j && q in Touched(levels'[k])
    {
      assert levels'[j] == levels[j];
      if i == |front| {
        assert TouchedUpTo(front, j, q);
        assert front[..j + 1] == levels'[..j + 1];
        TouchedUpToStays(front, levels', j, q);
        assert TouchedUpTo(levels', j, q);
      } else {
        assert q in Touched(levels[i]);
        assert TouchedUpTo(levels, j, q);
        assert levels[..j + 1] == levels'[..j + 1];
        TouchedUpToStays(levels, levels', j, q);
        assert TouchedUpTo(levels', j, q);
      }
    }
  }

  /** The layering, for one page touched by transaction k. */
  lemma {:induction false} LayeredAt(levels: seq<Level>, k: nat, j: nat, q: Pgno)
    requires Layered(levels) && k < |levels| && q in Touched(levels[k]) && j < |levels| && q in levels[j].used
    ensures TouchedUpTo(levels, j, q)
  {
  }

  predicate IsOwnStep(e: Event) {
    !e.Begin? && !e.CommitChild? && !e.AbortChild?
  }

  /** Every page the active transaction has touched after a step was touched
      before by some transaction, or is in use by none. */
  lemma {:induction false} OwnStepTouches(s: State, e: Event, q: Pgno) returns (k: int)
    requires Enabled(s, e) && IsOwnStep(e) && q in Touched(Last(Apply(s, e).levels))
    ensures k == -1 ==> IsFree(s, q)
    ensures k != -1 ==> 0 <= k < |s.levels| && q in Touched(s.levels[k])
  {
    var t := Last(s.levels);
    if q in Touched(t) {
      k := |s.levels| - 1;
    } else if e.NewPage? {
      k := -1;
    } else if e.CopyFromParent? {
      k := InMemoryIsDirty(s.levels, q);
    } else {
      k := SpilledIsTouched(s.levels, q);
    }
  }

  lemma {:induction false} OwnStepLayers(s: State, e: Event)
    requires Layered(s.levels) && Enabled(s, e) && IsOwnStep(e)
    ensures Layered(Apply(s, e).levels)
  {
    var front, l := Front(s.levels), Last(Apply(s, e).levels);
    forall q, j | q in Touched(l) && 0 <= j < |front| && q in front[j].used
      ensures TouchedUpTo(front, j, q)
    {
      var k := OwnStepTouches(s, e, q);
      assert s.levels[j] == front[j];
      LayeredAt(s.levels, k, j, q);
      assert front[..j + 1] == s.levels[..j + 1];
      TouchedUpToStays(s.levels, front, j, q);
    }
    LayeredLast(s.levels, front, l);
  }

  /** Replacing the active transaction by `l`: its room follows the pages it
      sees in memory. */
  lemma {:induction false} SetLastRooms(s: State, l: Level, m: set<Pgno>)
    requires s.levels != [] && RoomsOk(s.levels)
    requires m == InMemory(Front(s.levels)) - l.spill + l.dirty.Keys
    requires l.room + |m| == Last(s.levels).room + |InMemory(s.levels)|
    ensures RoomsOk(SetLast(s, l).levels)
  {
    InMemoryLast(Front(s.levels), l);
  }

  lemma {:induction false} MemoryOf(levels: seq<Level>)
    requires levels != []
    ensures InMemory(levels) == InMemory(Front(levels)) - Last(levels).spill + Last(levels).dirty.Keys
  {
  }

  lemma {:induction false} FreeIsNotInMemory(s: State, p: Pgno)
    requires s.levels != [] && IsFree(s, p)
    ensures p !in InMemory(s.levels) && p !in Touched(Last(s.levels))
  {
    if p in InMemory(s.levels) {
      var k := InMemoryIsDirty(s.levels, p);
      assert false;
    }
  }

  lemma {:induction false} NewPageRooms(s: State, p: Pgno, bytes: PageBytes)
    requires RoomsOk(s.levels) && Enabled(s, NewPage(p, bytes))
    ensures RoomsOk(Apply(s, NewPage(p, bytes)).levels)
  {
    var t, m := Last(s.levels), InMemory(s.levels);
    MemoryOf(s.levels);
    FreeIsNotInMemory(s, p);
    SetLastRooms(s, t.(dirty := t.dirty[p := bytes], used := t.used + {p}, room := t.room - 1), m + {p});
  }

  lemma {:induction false} UnspillRooms(s: State, p: Pgno)
    requires Separate(s.levels) && RoomsOk(s.levels) && Enabled(s, Unspill(p))
    ensures RoomsOk(Apply(s, Unspill(p)).levels)
  {
    var t, m := Last(s.levels), InMemory(s.levels);
    MemoryOf(s.levels);
    SpilledView(s.levels, s.disk, p);
    SetLastRooms(s, t.(dirty := t.dirty[p := s.disk[p]], spill := t.spill - {p}, room := t.room - 1), m + {p});
  }

  lemma {:induction false} SpillRooms(s: State, p: Pgno)
    requires RoomsOk(s.levels) && Enabled(s, Spill(p))
    ensures RoomsOk(Apply(s, Spill(p)).levels)
  {
    var t, m := Last(s.levels), InMemory(s.levels);
    MemoryOf(s.levels);
    SetLastRooms(s, t.(dirty := t.dirty - {p}, spill := t.spill + {p}, room := t.room + 1), m - {p});
  }

  lemma {:induction false} GiveBackRooms(s: State, p: Pgno)
    requires RoomsOk(s.levels) && Enabled(s, GiveBack(p))
    ensures RoomsOk(Apply(s, GiveBack(p)).levels)
  {
    var t := Last(s.levels);
    MemoryOf(s.levels);
    assert InMemory(Front(s.levels)) == {} && InMemory(s.levels) == t.dirty.Keys;
    SetLastRooms(s, GivenBack(t, p), t.dirty.Keys - {p});
  }

  lemma {:induction false} OtherRooms(s: State, l: Level)
    requires s.levels != [] && RoomsOk(s.levels)
    requires l.spill == Last(s.levels).spill && l.room == Last(s.levels).room
    requires l.dirty.Keys <= Last(s.levels).dirty.Keys + InMemory(s.levels) && Last(s.levels).dirty.Keys <= l.dirty.Keys
    ensures RoomsOk(SetLast(s, l).levels)
  {
    MemoryOf(s.levels);
    SetLastRooms(s, l, InMemory(s.levels));
  }

  lemma {:induction false} OwnStepRooms(s: State, e: Event)
    requires Separate(s.levels) && RoomsOk(s.levels) && Enabled(s, e) && IsOwnStep(e)
    ensures RoomsOk(Apply(s, e).levels)
  {
    match e {
      case NewPage(p, bytes) => NewPageRooms(s, p, bytes);
      case Unspill(p) => UnspillRooms(s, p);
      case Spill(p) => SpillRooms(s, p);
      case CopyFromParent(p) => OtherRooms(s, Last(Apply(s, e).levels));
      case Write(p, _) => OtherRooms(s, Last(Apply(s, e).levels));
      case Drop(_) => OtherRooms(s, Last(Apply(s, e).levels));
      case ReuseLoose(_, _) => OtherRooms(s, Last(Apply(s, e).levels));
      case GiveBack(p) => GiveBackRooms(s, p);
    }
  }

  lemma {:induction false} OwnStepSeparates(s: State, e: Event)
    requires Separate(s.levels) && Enabled(s, e) && IsOwnStep(e)
    ensures Separate(Apply(s, e).levels)
  {
    var t, l := Last(s.levels), Last(Apply(s, e).levels);
    assert t.dirty.Keys !! t.spill;
    if e.NewPage? {
      assert e.p !in Touched(t);
    }
    assert l.dirty.Keys !! l.spill;
  }

  lemma {:induction false} OwnStepKeeps(s: State, e: Event)
    requires Inv(s) && Enabled(s, e) && IsOwnStep(e)
    ensures Inv(Apply(s, e))
  {
    OwnStepRooms(s, e);
    OwnStepLayers(s, e);
    OwnStepSeparates(s, e);
  }

  lemma {:induction false} BeginKeeps(s: State)
    requires Inv(s)
    ensures Inv(Apply(s, Begin))
  {
    var l := Last(Begun(s.levels));
    InMemoryLast(s.levels, l);
    assert InMemory(s.levels + [l]) == InMemory(s.levels);
    assert s.levels == s.levels[..|s.levels|];
    LayeredLast(s.levels, s.levels, l);
  }

  lemma {:induction false} FrontKeeps(s: State)
    requires Inv(s) && |s.levels| > 1
    ensures Inv(s.(levels := Front(s.levels)))
  {
    var levels, front := s.levels, Front(s.levels);
    forall i, j, q | 0 <= j < i < |front| && q in Touched(front[i]) && q in front[j].used
      ensures exists k :: 0 <= k <= j && q in Touched(front[k])
    {
      assert q in Touched(levels[i]) && q in levels[j].used;
      assert TouchedUpTo(levels, j, q);
      assert levels[..j + 1] == front[..j + 1];
      TouchedUpToStays(levels, front, j, q);
      assert TouchedUpTo(front, j, q);
    }
  }

  /** Merging keeps exactly the pages the child saw in memory. */
  lemma {:induction false} MergedMemory(levels: seq<Level>)
    requires Separate(levels) && |levels| > 1
    ensures InMemory(Committed(levels)) == InMemory(levels)
  {
    var front, child := Front(levels), Last(levels);
    var rest, parent := Front(front), Last(front);
    SplitLast(levels);
    SplitLast(front);
    InMemoryLast(front, child);
    InMemoryLast(rest, parent);
    InMemoryLast(rest, Merged(parent, child));
    assert child.dirty.Keys !! child.spill && parent.dirty.Keys !! parent.spill;
  }

  lemma {:induction false} MergedLayers(s: State)
    requires Layered(s.levels) && |s.levels| > 1
    ensures Layered(Committed(s.levels))
  {
    var front := Front(s.levels);
    var rest, l := Front(front), Merged(Last(front), Last(s.levels));
    forall q, j | q in Touched(l) && 0 <= j < |rest| && q in rest[j].used
      ensures TouchedUpTo(rest, j, q)
    {
      assert s.levels[j] == rest[j];
      var k := if q in Touched(Last(s.levels)) then |s.levels| - 1 else |s.levels| - 2;
      assert q in Touched(s.levels[k]);
      LayeredAt(s.levels, k, j, q);
      assert rest[..j + 1] == s.levels[..j + 1];
      TouchedUpToStays(s.levels, rest, j, q);
    }
    assert rest == s.levels[..|rest|];
    LayeredLast(s.levels, rest, l);
  }

  lemma {:induction false} MergedSeparates(s: State)
    requires Separate(s.levels) && |s.levels| > 1
    ensures Separate(Committed(s.levels))
  {
    var front, child := Front(s.levels), Last(s.levels);
    assert Last(front) == s.levels[|s.levels| - 2];
    assert child.dirty.Keys !! child.spill && Last(front).dirty.Keys !! Last(front).spill;
    assert Merged(Last(front), child).dirty.Keys !! Merged(Last(front), child).spill;
  }

  lemma {:induction false} CommitKeeps(s: State)
    requires Inv(s) && |s.levels| > 1
    ensures Inv(Apply(s, CommitChild))
  {
    MergedLayers(s);
    MergedSeparates(s);
    MergedRooms(s);
    InvOf(s.(levels := Committed(s.levels)));
    CommitIs(s);
  }

  lemma {:induction false} InvOf(s: State)
    requires s.levels != [] && Layered(s.levels) && Separate(s.levels) && RoomsOk(s.levels)
    ensures Inv(s)
  {
  }

  lemma {:induction false} MergedRooms(s: State)
    requires Separate(s.levels) && RoomsOk(s.levels) && |s.levels| > 1
    ensures RoomsOk(Committed(s.levels))
  {
    var front := Front(s.levels);
    MergedMemory(s.levels);
    assert RoomsOk(front) && RoomsOk(Front(front));
    InMemoryLast(Front(front), Merged(Last(front), Last(s.levels)));
  }

  lemma {:induction false} StepKeeps(s: State, e: Event)
    requires Inv(s) && Enabled(s, e)
    ensures Inv(Apply(s, e))
  {
    match e {
      case Begin => BeginKeeps(s);
      case CommitChild => CommitKeeps(s);
      case AbortChild => FrontKeeps(s);
      case _ => OwnStepKeeps(s, e);
    }
  }

  // ----- main results -----

  /** Commit of a child: the parent then sees in every page exactly what the
      child saw just before. */
  lemma {:induction false} CommitPublishesChildView(s: State, p: Pgno)
    requires Separate(s.levels) && |s.levels| > 1
    ensures View(Apply(s, CommitChild).levels, s.disk, p) == View(s.levels, s.disk, p)
  {
    var front, child := Front(s.levels), Last(s.levels);
    var rest, parent := Front(front), Last(front);
    var after := rest + [Merged(parent, child)];
    assert after == Apply(s, CommitChild).levels;
    assert Front(after) == rest && Last(after) == Merged(parent, child);
    assert child.dirty.Keys !! child.spill;
    if p !in child.spill && p !in child.dirty {
      assert View(s.levels, s.disk, p) == View(front, s.disk, p);
    }
  }

  /** With a single ancestor the merged dirty list has length
      MDB_IDL_UM_MAX - mt_dirty_room. */
  lemma {:induction false} SingleAncestorLength(s: State)
    requires Inv(s) && |s.levels| == 2
    ensures |Merged(s.levels[0], s.levels[1]).dirty.Keys| == IdList.UM_MAX - s.levels[1].room
  {
    MergedMemory(s.levels);
    var l := Merged(s.levels[0], s.levels[1]);
    assert Committed(s.levels) == [] + [l];
    InMemoryLast([], l);
  }

  /** No page is on the spill lists of two transactions of the chain, and no
      dirty list is overfull. */
  ghost predicate ListsFit(levels: seq<Level>) {
    && (forall i, j :: 0 <= i < j < |levels| ==> levels[i].spill !! levels[j].spill)
    && (forall i :: 0 <= i < |levels| ==> levels[i].room >= 0)
  }

  lemma {:induction false} StepKeepsListsFit(s: State, e: Event)
    requires ListsFit(s.levels) && Enabled(s, e)
    ensures ListsFit(Apply(s, e).levels)
  {
    var after := Apply(s, e).levels;
    forall i, j | 0 <= i < j < |after|
      ensures after[i].spill !! after[j].spill
    {
      assert i < |s.levels| && after[i] == s.levels[i];
      if e.Spill? && j == |after| - 1 {
        assert e.p !in s.levels[i].spill;
      }
    }
  }

  /** A merged dirty list is never longer than the list has room for. */
  lemma {:induction false} MergedFits(s: State)
    requires Inv(s) && |s.levels| > 1
    ensures |Merged(Last(Front(s.levels)), Last(s.levels)).dirty.Keys| <= IdList.UM_MAX - Last(s.levels).room
  {
    MergedMemory(s.levels);
    var after := Committed(s.levels);
    SubsetSize(Last(after).dirty.Keys, InMemory(after));
  }

  lemma {:induction false} SubsetSize(a: set<Pgno>, b: set<Pgno>)
    requires a <= b
    ensures |a| <= |b|
  {
    if a != {} {
      var x :| x in a;
      SubsetSize(a - {x}, b - {x});
    }
  }

  lemma {:induction false} StepKeepsPrefix(s: State, e: Event, n: nat)
    requires Enabled(s, e) && n < |s.levels| && n < |Apply(s, e).levels|
    ensures Apply(s, e).levels[..n] == s.levels[..n]
  {
  }

  /** A spilled page that an ancestor uses is in that ancestor's memory. */
  lemma {:induction false} SpillKeepsAncestors(s: State, p: Pgno, n: nat)
    requires Layered(s.levels) && Separate(s.levels) && Enabled(s, Spill(p)) && 0 < n < |s.levels|
    requires p in s.levels[n - 1].used
    ensures View(s.levels[..n], s.disk[p := Last(s.levels).dirty[p]], p) == View(s.levels[..n], s.disk, p)
  {
    var outer := s.levels[..n];
    LayeredAt(s.levels, |s.levels| - 1, n - 1, p);
    var k :| 0 <= k <= n - 1 && p in Touched(s.levels[k]);
    assert forall i :: 0 <= i < n ==> outer[i] == s.levels[i] && p !in s.levels[i].spill;
    DirtyIsInMemory(outer, p, k);
    InMemoryView(outer, s.disk, s.disk[p := Last(s.levels).dirty[p]], p);
  }

  /** A step of the active transaction does not change what the first `n`
      transactions of the chain see in their own pages. */
  lemma {:induction false} StepKeepsAncestors(s: State, e: Event, n: nat, p: Pgno)
    requires Layered(s.levels) && Separate(s.levels) && Enabled(s, e)
    requires 0 < n < |s.levels| && n < |Apply(s, e).levels|
    ensures Apply(s, e).levels[..n] == s.levels[..n]
    ensures p in s.levels[n - 1].used ==>
              View(s.levels[..n], Apply(s, e).disk, p) == View(s.levels[..n], s.disk, p)
  {
    StepKeepsPrefix(s, e, n);
    if e.Spill? && e.p == p {
      if p in s.levels[n - 1].used {
        SpillKeepsAncestors(s, p, n);
      }
    } else {
      ViewFrame(s.levels[..n], s.disk, Apply(s, e).disk, p);
    }
  }

  /** A run during which more than `n` transactions stay open. */
  ghost predicate RunAbove(s: State, events: seq<Event>, s': State, n: nat)
    decreases |events|
  {
    && n < |s.levels|
    && if events == [] then s' == s
       else Enabled(s, events[0]) && RunAbove(Apply(s, events[0]), events[1..], s', n)
  }

  lemma {:induction false} RunKeepsAncestors(s: State, events: seq<Event>, s': State, n: nat, p: Pgno)
    requires Inv(s) && RunAbove(s, events, s', n) && 0 < n
    ensures Inv(s') && n < |s'.levels| && s'.levels[..n] == s.levels[..n]
    ensures p in s.levels[n - 1].used ==> View(s'.levels[..n], s'.disk, p) == View(s.levels[..n], s.disk, p)
    decreases |events|
  {
    if events != [] {
      StepKeeps(s, events[0]);
      StepKeepsAncestors(s, events[0], n, p);
      var t := Apply(s, events[0]);
      assert t.levels[n - 1] == t.levels[..n][n - 1];
      RunKeepsAncestors(t, events[1..], s', n, p);
    }
  }

  /** Abort of a child: whatever the child and its own children did, spills to
      the file included, every page of the parent reads as before. */
  lemma {:induction false} AbortRestoresParentView(s: State, events: seq<Event>, s': State, p: Pgno)
    requires Inv(s) && RunAbove(Apply(s, Begin), events, s', |s.levels|) && |s'.levels| == |s.levels| + 1
    ensures Apply(s', AbortChild).levels == s.levels
    ensures p in Last(s.levels).used ==> View(s.levels, Apply(s', AbortChild).disk, p) == View(s.levels, s.disk, p)
  {
    BeginKeeps(s);
    BeginIs(s);
    ChildRunKeepsParent(s, Apply(s, Begin), events, s', p);
    AbortIs(s', s.levels);
  }

  lemma {:induction false} BeginIs(s: State)
    requires s.levels != []
    ensures Apply(s, Begin) == s.(levels := Begun(s.levels)) && Begun(s.levels)[..|s.levels|] == s.levels
  {
  }

  lemma {:induction false} AbortIs(s: State, levels: seq<Level>)
    requires levels != [] && |s.levels| == |levels| + 1 && s.levels[..|levels|] == levels
    ensures Apply(s, AbortChild) == s.(levels := levels)
  {
  }

  lemma {:induction false} CommitIs(s: State)
    requires |s.levels| > 1
    ensures Apply(s, CommitChild) == s.(levels := Committed(s.levels))
    ensures Last(Committed(s.levels)) == Merged(s.levels[|s.levels| - 2], s.levels[|s.levels| - 1])
  {
  }

  /** A run of children that starts in b. */
  lemma {:induction false} ChildRunKeepsParent(s: State, b: State, events: seq<Event>, s': State, p: Pgno)
    requires s.levels != [] && Inv(b) && b.disk == s.disk && |s.levels| < |b.levels|
             && b.levels[..|s.levels|] == s.levels
    requires RunAbove(b, events, s', |s.levels|)
    ensures |s.levels| < |s'.levels| && s'.levels[..|s.levels|] == s.levels
    ensures p in Last(s.levels).used ==> View(s.levels, s'.disk, p) == View(s.levels, s.disk, p)
  {
    var n := |s.levels|;
    assert b.levels[n - 1] == b.levels[..n][n - 1];
    RunKeepsAncestors(b, events, s', n, p);
  }

  /** Why a page already spilled by an ancestor must not be spilled again: the
      ancestor would see the child's bytes. */
  lemma {:induction false} SpillingTwiceLeaks(s: State, p: Pgno)
    requires Inv(s) && |s.levels| > 1 && p in Last(s.levels).dirty && p in s.disk && SeenSpilled(Front(s.levels), p)
    ensures var bytes := Last(s.levels).dirty[p];
            View(Front(s.levels), s.disk[p := bytes], p) == View(Front(s.levels), s.disk, p) <==> bytes == s.disk[p]
  {
    assert Separate(Front(s.levels));
    SpilledView(Front(s.levels), s.disk, p);
    SpilledView(Front(s.levels), s.disk[p := Last(s.levels).dirty[p]], p);
  }

  /** mdb_txn_renew0: an outermost transaction at its beginning. */
  function Fresh(disk: map<Pgno, PageBytes>, used: set<Pgno>): State {
    State([Level(map[], {}, used, IdList.UM_MAX)], disk)
  }

  /** Whatever happens after that, begins, commits and aborts of children
      included, the invariant holds and the lists fit. */
  lemma {:induction false} RunsFromFreshKeep(disk: map<Pgno, PageBytes>, used: set<Pgno>, events: seq<Event>, s: State)
    requires RunAbove(Fresh(disk, used), events, s, 0)
    ensures Inv(s) && ListsFit(s.levels)
  {
    FreshIsGood(disk, used);
    RunKeepsLists(Fresh(disk, used), events, s);
  }

  lemma {:induction false} FreshIsGood(disk: map<Pgno, PageBytes>, used: set<Pgno>)
    ensures Inv(Fresh(disk, used)) && ListsFit(Fresh(disk, used).levels)
  {
    var levels := Fresh(disk, used).levels;
    assert Front(levels) == [];
    assert InMemory(levels) == {};
    assert RoomsOk(Front(levels));
  }

  lemma {:induction false} RunKeepsLists(s: State, events: seq<Event>, s': State)
    requires Inv(s) && ListsFit(s.levels) && RunAbove(s, events, s', 0)
    ensures Inv(s') && ListsFit(s'.levels)
    decreases |events|
  {
    if events != [] {
      StepKeeps(s, events[0]);
      StepKeepsListsFit(s, events[0]);
      RunKeepsLists(Apply(s, events[0]), events[1..], s');
    }
  }
}
