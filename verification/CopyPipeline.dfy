/** The two-buffer protocol of the compacting copy: mdb_env_cthr_toggle in the
    thread that walks the trees (the provider) and mdb_env_copythr (the writer),
    with their mutex and condition variable.

    A state is one moment between two atomic actions; any enabled event may come
    next.  Write errors are not modelled. */
module CopyPipeline {

  /** A buffer: mc_wbuf up to mc_wlen, and the overflow tail mc_over. */
  datatype Buffer = Buffer(main: seq<nat>, tail: seq<nat>)

  function Data(b: Buffer): seq<nat> {
    b.main + b.tail
  }

  datatype Holder = Nobody | Provider | Writer

  /** Where the provider is: filling its buffer, bound to hand over because a tail
      is set, holding the mutex in the toggle, asleep, contending for the mutex
      after waking, about to switch buffers without the mutex, or finished. */
  datatype ProviderAt = Filling | TailSet | Toggling | ProviderAsleep | ProviderContends | Switching | ProviderDone

  /** Where the writer is: contending for the mutex, looking at mc_new, asleep,
      writing a buffer, writing its tail, or finished. */
  datatype WriterAt = WriterContends | Looking | WriterAsleep | WritingMain | WritingTail | WriterDone

  /** mc_new is `count` with MDB_EOF or-ed in if `eof`. */
  datatype State = State(
    bufs: seq<Buffer>,
    count: nat,
    eof: bool,
    holder: Holder,
    pAt: ProviderAt,
    pToggle: nat,       // mc_toggle
    ending: bool,       // the toggle under way is the last one
    wAt: WriterAt,
    wToggle: nat,       // the writer's own toggle
    todo: seq<nat>,     // what is left to write of the current piece
    out: seq<nat>,      // the output file
    handed: seq<nat>,   // everything handed over so far
    input: seq<nat>)    // everything the provider has produced

  datatype Event =
    | Fill(x: nat)
    | SetTail(xs: seq<nat>)
    | HandOver(last: bool)      // lock, mc_new += adjust, signal
    | ProviderWaits             // both buffers in use
    | ProviderWakes             // signalled or spuriously
    | ProviderLocks             // the end of its wait
    | ProviderGoesOn            // unlock
    | ProviderSwitches          // mc_toggle and mc_wlen, without the mutex
    | WriterLocks
    | WriterWaits               // nothing new
    | WriterWakes
    | WriterTakes               // a buffer to write
    | WriterExits
    | Write(k: nat)             // a write of k bytes
    | WriterTail
    | WriterReturns             // buffer empty, mc_new--, signal

  function Other(t: nat): nat {
    if t == 0 then 1 else 0
  }

  function Init(): State {
    State([Buffer([], []), Buffer([], [])], 0, false, Nobody, Filling, 0, false, WriterContends, 0, [], [], [], [])
  }

  /** A signal wakes the other thread if it sleeps. */
  function SignalWriter(s: State): State {
    if s.wAt == WriterAsleep then s.(wAt := WriterContends) else s
  }

  function SignalProvider(s: State): State {
    if s.pAt == ProviderAsleep then s.(pAt := ProviderContends) else s
  }

  predicate Shaped(s: State) {
    |s.bufs| == 2 && s.pToggle < 2 && s.wToggle < 2
  }

  predicate Enabled(s: State, e: Event)
    requires Shaped(s)
  {
    match e
    case Fill(_) => s.pAt == Filling
    case SetTail(xs) => s.pAt == Filling && xs != []
    case HandOver(last) => (s.pAt == Filling || (s.pAt == TailSet && !last)) && s.holder == Nobody
    case ProviderWaits => s.pAt == Toggling && s.count >= 2
    case ProviderWakes => s.pAt == ProviderAsleep
    case ProviderLocks => s.pAt == ProviderContends && s.holder == Nobody
    case ProviderGoesOn => s.pAt == Toggling && s.count < 2
    case ProviderSwitches => s.pAt == Switching
    case WriterLocks => s.wAt == WriterContends && s.holder == Nobody
    case WriterWaits => s.wAt == Looking && s.count == 0 && !s.eof
    case WriterWakes => s.wAt == WriterAsleep
    case WriterTakes => s.wAt == Looking && s.count > 0
    case WriterExits => s.wAt == Looking && s.count == 0 && s.eof
    case Write(k) => (s.wAt == WritingMain || s.wAt == WritingTail) && 1 <= k <= |s.todo|
    case WriterTail => s.wAt == WritingMain && s.todo == [] && s.bufs[s.wToggle].tail != []
    case WriterReturns =>
      && s.todo == [] && s.count > 0
      && (s.wAt == WritingTail || (s.wAt == WritingMain && s.bufs[s.wToggle].tail == []))
  }

  function Apply(s: State, e: Event): (r: State)
    requires Shaped(s) && Enabled(s, e)
  {
    match e
    case Fill(x) => s.(bufs := s.bufs[s.pToggle := s.bufs[s.pToggle].(main := s.bufs[s.pToggle].main + [x])],
      input := s.input + [x])
    case SetTail(xs) => s.(bufs := s.bufs[s.pToggle := s.bufs[s.pToggle].(tail := xs)], input := s.input + xs,
      pAt := TailSet)
    case HandOver(last) =>
      SignalWriter(s.(holder := Provider, pAt := Toggling, count := s.count + 1, eof := last, ending := last,
                      handed := s.handed + Data(s.bufs[s.pToggle])))
    case ProviderWaits => s.(holder := Nobody, pAt := ProviderAsleep)
    case ProviderWakes => s.(pAt := ProviderContends)
    case ProviderLocks => s.(holder := Provider, pAt := Toggling)
    case ProviderGoesOn => s.(holder := Nobody, pAt := Switching)
    case ProviderSwitches =>
      var t := Other(s.pToggle);
      s.(pToggle := t, bufs := s.bufs[t := s.bufs[t].(main := [])], pAt := if s.ending then ProviderDone else Filling)
    case WriterLocks => s.(holder := Writer, wAt := Looking)
    case WriterWaits => s.(holder := Nobody, wAt := WriterAsleep)
    case WriterWakes => s.(wAt := WriterContends)
    case WriterTakes => s.(wAt := WritingMain, todo := s.bufs[s.wToggle].main)
    case WriterExits => s.(holder := Nobody, wAt := WriterDone)
    case Write(k) => s.(out := s.out + s.todo[..k], todo := s.todo[k..])
    case WriterTail =>
      s.(wAt := WritingTail, todo := s.bufs[s.wToggle].tail,
          bufs := s.bufs[s.wToggle := s.bufs[s.wToggle].(tail := [])])
    case WriterReturns =>
      SignalProvider(s.(bufs := s.bufs[s.wToggle := s.bufs[s.wToggle].(main := [])], wToggle := Other(s.wToggle),
                        count := s.count - 1, wAt := Looking))
  }

  // ----- the invariant -----

  predicate Writing(s: State) {
    s.wAt == WritingMain || s.wAt == WritingTail
  }

  /** Is the provider between its hand-over and its switch of buffers? */
  predicate HandedOver(s: State) {
    s.pAt == Toggling || s.pAt == ProviderAsleep || s.pAt == ProviderContends || s.pAt == Switching
  }

  /** What the writer has still to write of the buffer it works on. */
  function Current(s: State): seq<nat>
    requires Shaped(s)
  {
    if s.wAt == WritingMain then s.todo + s.bufs[s.wToggle].tail
    else if s.wAt == WritingTail then s.todo
    else Data(s.bufs[s.wToggle])
  }

  /** Handed over, not yet written. */
  function Pending(s: State): seq<nat>
    requires Shaped(s)
  {
    if s.count == 0 then []
    else if s.count == 1 then Current(s)
    else Current(s) + Data(s.bufs[Other(s.wToggle)])
  }

  /** The buffer after the queued ones. */
  function FirstFree(s: State): nat {
    if s.count == 1 then Other(s.wToggle) else s.wToggle
  }

  /** Who may hold the mutex, and who must. */
  ghost predicate MutexOk(s: State) {
    && (s.holder == Provider <==> s.pAt == Toggling)
    && (s.holder == Writer <==> s.wAt == Looking || Writing(s))
  }

  /** A sleeping thread has something to wait for. */
  ghost predicate SleepOk(s: State) {
    && (s.pAt == ProviderAsleep ==> s.count == 2)
    && (s.wAt == WriterAsleep ==> s.count == 0 && !s.eof)
  }

  /** The provider's buffer is not among the queued ones. */
  ghost predicate BuffersOk(s: State) {
    && s.count <= 2 && (Writing(s) ==> s.count > 0)
    && (HandedOver(s) ==> s.pToggle == Other(FirstFree(s)))
    && (!HandedOver(s) ==> s.count <= 1 && s.pToggle == FirstFree(s))
    && (s.pAt == Switching ==> s.count <= 1)
  }

  /** Nothing is lost, repeated or out of order. */
  ghost predicate DataOk(s: State)
    requires Shaped(s)
  {
    && s.out + Pending(s) == s.handed
    && s.input == s.handed + (if HandedOver(s) || s.pAt == ProviderDone then [] else Data(s.bufs[s.pToggle]))
    && (s.pAt == Filling ==> s.bufs[s.pToggle].tail == [])
  }

  /** A buffer the provider may take next has no tail left over. */
  ghost predicate TailsOk(s: State)
    requires Shaped(s)
  {
    && (s.count == 0 ==> s.bufs[Other(FirstFree(s))].tail == [])
    && (s.count < 2 && s.pAt != Filling && s.pAt != TailSet ==> s.bufs[FirstFree(s)].tail == [])
    && (s.wAt == WritingTail ==> s.bufs[s.wToggle].tail == [])
  }

  /** The end of the input comes after the last buffer. */
  ghost predicate EndOk(s: State) {
    && (s.eof <==> s.ending) && (s.pAt == ProviderDone ==> s.eof) && (s.pAt == Filling || s.pAt == TailSet ==> !s.eof)
    && (s.wAt == WriterDone ==> s.eof && s.count == 0)
  }

  ghost predicate Inv(s: State) {
    Shaped(s) && MutexOk(s) && SleepOk(s) && BuffersOk(s) && DataOk(s) && TailsOk(s) && EndOk(s)
  }

  lemma {:induction false} InitInv()
    ensures Inv(Init())
  {
  }

  lemma {:induction false} FillKeeps(s: State, x: nat)
    requires Inv(s) && Enabled(s, Fill(x))
    ensures Inv(Apply(s, Fill(x)))
  {
    var r := Apply(s, Fill(x));
    assert Pending(r) == Pending(s);
    assert Data(r.bufs[r.pToggle]) == Data(s.bufs[s.pToggle]) + [x];
  }

  lemma {:induction false} SetTailKeeps(s: State, xs: seq<nat>)
    requires Inv(s) && Enabled(s, SetTail(xs))
    ensures Inv(Apply(s, SetTail(xs)))
  {
    var r := Apply(s, SetTail(xs));
    assert Pending(r) == Pending(s);
    assert Data(r.bufs[r.pToggle]) == Data(s.bufs[s.pToggle]) + xs;
  }

  lemma {:induction false} HandOverKeeps(s: State, last: bool)
    requires Inv(s) && Enabled(s, HandOver(last))
    ensures Inv(Apply(s, HandOver(last)))
  {
    var r := Apply(s, HandOver(last));
    if s.count == 0 {
      assert !Writing(s) && Pending(r) == Data(s.bufs[s.pToggle]);
    } else {
      assert Current(r) == Current(s) && Pending(r) == Current(s) + Data(s.bufs[s.pToggle]);
    }
    assert Pending(r) == Pending(s) + Data(s.bufs[s.pToggle]);
  }

  lemma {:induction false} ToggleKeeps(s: State, e: Event)
    requires Inv(s) && Enabled(s, e) && (e.ProviderWaits? || e.ProviderWakes? || e.ProviderLocks? || e.ProviderGoesOn?)
    ensures Inv(Apply(s, e))
  {
    assert Pending(Apply(s, e)) == Pending(s);
  }

  lemma {:induction false} SwitchKeeps(s: State)
    requires Inv(s) && Enabled(s, ProviderSwitches)
    ensures Inv(Apply(s, ProviderSwitches))
  {
    assert Pending(Apply(s, ProviderSwitches)) == Pending(s);
  }

  lemma {:induction false} WriterMovesKeep(s: State, e: Event)
    requires Inv(s) && Enabled(s, e)
             && (e.WriterLocks? || e.WriterWaits? || e.WriterWakes? || e.WriterTakes? || e.WriterExits?)
    ensures Inv(Apply(s, e))
  {
    assert Pending(Apply(s, e)) == Pending(s);
  }

  lemma {:induction false} WriteKeeps(s: State, k: nat)
    requires Inv(s) && Enabled(s, Write(k))
    ensures Inv(Apply(s, Write(k)))
  {
    var r := Apply(s, Write(k));
    assert s.todo == s.todo[..k] + s.todo[k..];
    assert Current(s) == s.todo[..k] + Current(r);
    assert Pending(s) == s.todo[..k] + Pending(r);
  }

  lemma {:induction false} WriterTailKeeps(s: State)
    requires Inv(s) && Enabled(s, WriterTail)
    ensures Inv(Apply(s, WriterTail))
  {
    var r := Apply(s, WriterTail);
    assert Current(r) == Current(s);
    assert r.bufs[Other(s.wToggle)] == s.bufs[Other(s.wToggle)];
    assert Pending(r) == Pending(s);
  }

  lemma {:induction false} WriterReturnsKeeps(s: State)
    requires Inv(s) && Enabled(s, WriterReturns)
    ensures Inv(Apply(s, WriterReturns))
  {
    assert Current(s) == [];
    assert Pending(Apply(s, WriterReturns)) == Pending(s);
  }

  lemma {:induction false} StepKeeps(s: State, e: Event)
    requires Inv(s) && Enabled(s, e)
    ensures Inv(Apply(s, e))
  {
    match e
    case Fill(x) => FillKeeps(s, x);
    case SetTail(xs) => SetTailKeeps(s, xs);
    case HandOver(last) => HandOverKeeps(s, last);
    case ProviderGoesOn => ToggleKeeps(s, e);
    case ProviderSwitches => SwitchKeeps(s);
    case Write(k) => WriteKeeps(s, k);
    case WriterTail => WriterTailKeeps(s);
    case WriterReturns => WriterReturnsKeeps(s);
    case WriterLocks => WriterMovesKeep(s, e);
    case WriterWaits => WriterMovesKeep(s, e);
    case WriterWakes => WriterMovesKeep(s, e);
    case WriterTakes => WriterMovesKeep(s, e);
    case WriterExits => WriterMovesKeep(s, e);
    case ProviderWaits => ToggleKeeps(s, e);
    case ProviderWakes => ToggleKeeps(s, e);
    case ProviderLocks => ToggleKeeps(s, e);
  }

  // ----- all runs -----

  /** The events, in this order, lead from s to t. */
  ghost predicate Run(s: State, es: seq<Event>, t: State)
    decreases |es|
  {
    if es == [] then s == t
    else Shaped(s) && Enabled(s, es[0]) && Run(Apply(s, es[0]), es[1..], t)
  }

  ghost predicate Reachable(s: State) {
    exists es :: Run(Init(), es, s)
  }

  lemma {:induction false} RunKeeps(s: State, es: seq<Event>, t: State)
    requires Inv(s) && Run(s, es, t)
    ensures Inv(t)
    decreases |es|
  {
    if es != [] {
      StepKeeps(s, es[0]);
      RunKeeps(Apply(s, es[0]), es[1..], t);
    }
  }

  lemma {:induction false} ReachableInv(s: State)
    requires Reachable(s)
    ensures Inv(s)
  {
    var es :| Run(Init(), es, s);
    InitInv();
    RunKeeps(Init(), es, s);
  }

  /** In every interleaving the output is a prefix of what the provider produced,
      in order; when the writer has gone, it is all of it. */
  lemma {:induction false} OutputInOrder(s: State)
    requires Reachable(s)
    ensures s.out <= s.input
    ensures s.wAt == WriterDone ==> s.out == s.input
  {
    ReachableInv(s);
    assert s.out + (Pending(s) + s.input[|s.handed|..]) == s.input;
  }

  /** Is buffer b waiting to be written, or being written? */
  predicate Queued(s: State, b: nat) {
    (s.count >= 1 && b == s.wToggle) || (s.count >= 2 && b == Other(s.wToggle))
  }

  /** The provider never touches a queued buffer: not when it fills one, and not
      when it clears the next one. */
  lemma {:induction false} NeverTouchesQueued(s: State)
    requires Reachable(s)
    ensures s.pAt == Filling || s.pAt == TailSet ==> !Queued(s, s.pToggle)
    ensures s.pAt == Switching ==> !Queued(s, Other(s.pToggle))
  {
    ReachableInv(s);
  }

  /** The threads never both sleep, and a sleeping thread has not missed its
      signal: what it waits for has not come. */
  lemma {:induction false} NeverBothAsleep(s: State)
    requires Reachable(s)
    ensures !(s.pAt == ProviderAsleep && s.wAt == WriterAsleep)
    ensures s.pAt == ProviderAsleep ==> s.count == 2
    ensures s.wAt == WriterAsleep ==> s.count == 0 && !s.eof
  {
    ReachableInv(s);
  }

  /** The writer leaves only after the end of the input, with nothing pending. */
  lemma {:induction false} WriterLeavesLast(s: State)
    requires Reachable(s) && s.wAt == WriterDone
    ensures s.eof && s.count == 0 && Shaped(s) && Pending(s) == []
  {
    ReachableInv(s);
  }

  /** Until both threads are done one of them can go on, without any spurious
      wake-up. */
  lemma {:induction false} NoDeadlock(s: State) returns (e: Event)
    requires Reachable(s) && !(s.pAt == ProviderDone && s.wAt == WriterDone)
    ensures Shaped(s) && Enabled(s, e) && !e.ProviderWakes? && !e.WriterWakes?
  {
    ReachableInv(s);
    if s.holder == Provider {
      e := if s.count >= 2 then ProviderWaits else ProviderGoesOn;
    } else if s.holder == Writer {
      e := if s.wAt == Looking then (if s.count > 0 then WriterTakes else if s.eof then WriterExits else WriterWaits)
           else if s.todo != [] then Write(|s.todo|)
           else if s.wAt == WritingMain && s.bufs[s.wToggle].tail != [] then WriterTail
           else WriterReturns;
    } else {
      e := if s.wAt == WriterContends then WriterLocks
           else if s.pAt == ProviderContends then ProviderLocks
           else if s.pAt == Switching then ProviderSwitches
           else HandOver(false);
    }
  }

  // ----- progress -----

  /** Steps by which the provider brings new work, and spurious wake-ups. */
  predicate FromOutside(e: Event) {
    e.Fill? || e.SetTail? || e.HandOver? || e.ProviderWakes? || e.WriterWakes?
  }

  function ProviderSteps(at: ProviderAt): nat {
    match at
    case ProviderContends => 3
    case Toggling => 2
    case Switching => 1
    case _ => 0
  }

  function WriterSteps(at: WriterAt): nat {
    match at
    case WriterContends => 3
    case Looking => 2
    case WritingMain => 1
    case _ => 0
  }

  /** Bytes still to write, buffers still to return, and steps within them. */
  function Work(s: State): nat
    requires Shaped(s)
  {
    |Pending(s)| + 6 * s.count + ProviderSteps(s.pAt) + WriterSteps(s.wAt)
  }

  lemma {:induction false} WriteWorks(s: State, k: nat)
    requires Inv(s) && Enabled(s, Write(k))
    ensures Work(Apply(s, Write(k))) < Work(s)
  {
    var r := Apply(s, Write(k));
    assert Current(s) == s.todo[..k] + Current(r);
    assert Pending(s) == s.todo[..k] + Pending(r);
  }

  lemma {:induction false} TailWorks(s: State)
    requires Inv(s) && Enabled(s, WriterTail)
    ensures Work(Apply(s, WriterTail)) < Work(s)
  {
    var r := Apply(s, WriterTail);
    assert Current(r) == Current(s) && r.bufs[Other(s.wToggle)] == s.bufs[Other(s.wToggle)];
    assert Pending(r) == Pending(s);
  }

  lemma {:induction false} ReturnsWorks(s: State)
    requires Inv(s) && Enabled(s, WriterReturns)
    ensures Work(Apply(s, WriterReturns)) < Work(s)
  {
    assert Current(s) == [];
    assert Pending(Apply(s, WriterReturns)) == Pending(s);
  }

  lemma {:induction false} WriterMovesWork(s: State, e: Event)
    requires Inv(s) && Enabled(s, e) && (e.WriterLocks? || e.WriterWaits? || e.WriterTakes? || e.WriterExits?)
    ensures Work(Apply(s, e)) < Work(s)
  {
    assert Pending(Apply(s, e)) == Pending(s);
  }

  lemma {:induction false} ProviderMovesWork(s: State, e: Event)
    requires Inv(s) && Enabled(s, e)
    requires e.ProviderWaits? || e.ProviderLocks? || e.ProviderGoesOn? || e.ProviderSwitches?
    ensures Work(Apply(s, e)) < Work(s)
  {
    assert Pending(Apply(s, e)) == Pending(s);
  }

  /** Every other step of either thread gets some of the work done. */
  lemma {:induction false} StepsWork(s: State, e: Event)
    requires Inv(s) && Enabled(s, e) && !FromOutside(e)
    ensures Inv(Apply(s, e)) && Work(Apply(s, e)) < Work(s)
  {
    StepKeeps(s, e);
    match e
    case Write(k) => WriteWorks(s, k);
    case WriterTail => TailWorks(s);
    case WriterReturns => ReturnsWorks(s);
    case WriterLocks => WriterMovesWork(s, e);
    case WriterWaits => WriterMovesWork(s, e);
    case WriterTakes => WriterMovesWork(s, e);
    case WriterExits => WriterMovesWork(s, e);
    case ProviderWaits => ProviderMovesWork(s, e);
    case ProviderLocks => ProviderMovesWork(s, e);
    case ProviderGoesOn => ProviderMovesWork(s, e);
    case ProviderSwitches => ProviderMovesWork(s, e);
  }

  /** However the threads are scheduled, they can take at most Work(s) steps before
      the provider brings new work or a wake-up comes without cause. */
  lemma {:induction false} RunsAreShort(s: State, es: seq<Event>, t: State)
    requires Inv(s) && Run(s, es, t) && forall i :: 0 <= i < |es| ==> !FromOutside(es[i])
    ensures Shaped(t) && |es| + Work(t) <= Work(s)
    decreases |es|
  {
    if es != [] {
      StepsWork(s, es[0]);
      RunsAreShort(Apply(s, es[0]), es[1..], t);
    }
  }

  /** And such a run cannot end but with the provider back at its buffer, or with
      both threads done and everything written. */
  lemma {:induction false} RunsEndWell(s: State, es: seq<Event>, t: State)
    requires Reachable(s) && Run(s, es, t) && forall i :: 0 <= i < |es| ==> !FromOutside(es[i])
    requires forall e :: CanStep(t, e) ==> FromOutside(e)
    ensures Shaped(s) && |es| <= Work(s)
    ensures t.pAt == Filling || t.pAt == TailSet || (t.pAt == ProviderDone && t.wAt == WriterDone && t.out == t.input)
  {
    ReachableInv(s);
    RunsAreShort(s, es, t);
    ReachableOn(s, es, t);
    if t.pAt == ProviderDone && t.wAt == WriterDone {
      OutputInOrder(t);
    } else {
      var e := NoDeadlock(t);
      assert CanStep(t, e);
    }
  }

  ghost predicate CanStep(s: State, e: Event) {
    Shaped(s) && Enabled(s, e)
  }

  lemma {:induction false} ReachableOn(s: State, es: seq<Event>, t: State)
    requires Reachable(s) && Run(s, es, t)
    ensures Reachable(t)
  {
    var before :| Run(Init(), before, s);
    RunsJoin(Init(), before, s, es, t);
  }

  lemma {:induction false} RunsJoin(s: State, first: seq<Event>, t: State, second: seq<Event>, u: State)
    requires Run(s, first, t) && Run(t, second, u)
    ensures Run(s, first + second, u)
    decreases |first|
  {
    if first == [] {
      assert first + second == second;
    } else {
      RunsJoin(Apply(s, first[0]), first[1..], t, second, u);
      assert (first + second)[1..] == first[1..] + second;
    }
  }
}
