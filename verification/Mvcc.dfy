/** Multi-version concurrency: the reader table, the single writer, the two
    alternating meta pages and the freeDB, as a state machine whose events are
    the individual loads and stores of shared memory.

    A reader loads the last committed id, publishes it in its slot, reads the
    last committed id again and retries if it moved, and only then copies the
    meta page.  The writer scans the slots one by one, while readers come and
    go, and reclaims the freeDB records below the smallest id it saw. */
module Mvcc {
  import opened Basics
  import opened PageAccounts

  type PageBytes = seq<nat>

  /** What a meta page leads to: the bytes of every page of its trees, its
      freeDB records, and the first page number after its last page. */
  datatype Snapshot = Snapshot(
    id: TxnId,
    pages: map<Pgno, PageBytes>,
    free: map<TxnId, set<Pgno>>,
    next: Pgno)

  /** Pages 0 and 1 of the file. */
  type Metas = m: seq<Snapshot> | |m| == 2
    witness [Snapshot(0, map[], map[], NUM_METAS), Snapshot(0, map[], map[], NUM_METAS)]

  /** Progress of the thread that owns a reader slot. */
  datatype Phase =
    | Idle
    | Loaded(seen: TxnId)      // mti_txnid is in a register, not yet stored
    | Published                // stored in the slot, not rechecked
    | Confirmed                // recheck passed, meta page not copied yet
    | Reading(snap: Snapshot)  // read transaction in progress

  /** `txnid` is None for the value (txnid_t)-1; a vacant slot has pid 0. */
  datatype Slot = Vacant | Claimed(txnid: Option<TxnId>, phase: Phase)

  datatype Stage = Working | Saved | MetaWritten

  /** Slots from `low` upwards have been looked at. */
  datatype Scan = NoScan | Scan(low: nat, min: TxnId)

  datatype Writer = NoWriter | Writer(
    id: TxnId,
    acc: Accounts,
    mine: set<Pgno>,               // every page handed to this transaction
    mem: map<Pgno, PageBytes>,     // dirty pages in memory
    oldest: TxnId,                 // value of `oldest` in mdb_page_alloc
    scan: Scan,
    stage: Stage)

  /** `oldests` holds every value a process may have cached as me_pgoldest. */
  datatype State = State(
    mti: TxnId,
    metas: Metas,
    slots: seq<Slot>,
    writer: Writer,
    oldests: set<TxnId>,
    disk: map<Pgno, PageBytes>)

  datatype Event =
    | ClaimSlot(i: nat)
    | LoadId(i: nat)
    | PublishId(i: nat)
    | Recheck(i: nat)
    | CopyMeta(i: nat)
    | EndRead(i: nat)
    | ReleaseSlot(i: nat)
    | BeginWrite(oldest: TxnId)
    | StartScan
    | ScanSlot
    | FinishScan
    | ConsumeRecord(k: TxnId)
    | AllocHead(content: map<Pgno, PageBytes>)
    | AllocLoose(p: Pgno, bytes: PageBytes)
    | AllocNew(content: map<Pgno, PageBytes>)
    | ModifyPage(p: Pgno, bytes: PageBytes)
    | ReleasePages(ps: set<Pgno>)
    | LoosenPage(p: Pgno)
    | GiveBackPages(ps: set<Pgno>)
    | WriteOut(p: Pgno)
    | BringBack(p: Pgno)
    | DropLoose
    | SaveFreelist(left: map<TxnId, set<Pgno>>)
    | WriteMeta
    | PublishCommit
    | AbortWrite
    | Crash

  // ----- the machine -----

  predicate IsClaimed(s: State, i: nat) {
    i < |s.slots| && s.slots[i].Claimed?
  }

  predicate IsWorking(s: State) {
    s.writer.Writer? && s.writer.stage == Working
  }

  /** Meta page selected by the low bit of a transaction id. */
  function Meta(s: State, t: TxnId): Snapshot
  {
    s.metas[t % 2]
  }

  /** mdb_env_pick_meta: the meta page with the larger id. */
  function PickMeta(s: State): Snapshot
  {
    if s.metas[0].id < s.metas[1].id then s.metas[1] else s.metas[0]
  }

  function SnapshotAccounts(x: Snapshot): Accounts {
    Accounts(x.pages.Keys, {}, 0, {}, {}, x.free, x.next)
  }

  /** The pages of the new snapshot, as they are on disk. */
  function OnDiskPages(w: Writer, disk: map<Pgno, PageBytes>): map<Pgno, PageBytes>
    requires w.Writer?
  {
    map p | p in w.acc.inUse && p in disk :: disk[p]
  }

  ghost predicate Enabled(s: State, e: Event) {
    match e
    case ClaimSlot(i) => i == |s.slots| || (i < |s.slots| && s.slots[i].Vacant?)
    case LoadId(i) => IsClaimed(s, i) &&
      (s.slots[i].phase == Idle || (s.slots[i].phase == Published && s.slots[i].txnid != Some(s.mti)))
    case PublishId(i) => IsClaimed(s, i) && s.slots[i].phase.Loaded?
    case Recheck(i) => IsClaimed(s, i) && s.slots[i].phase == Published && s.slots[i].txnid == Some(s.mti)
    case CopyMeta(i) => IsClaimed(s, i) && s.slots[i].phase == Confirmed && s.slots[i].txnid.Some?
    case EndRead(i) => IsClaimed(s, i) && (s.slots[i].phase.Reading? || s.slots[i].phase == Confirmed)
    case ReleaseSlot(i) => IsClaimed(s, i) && s.slots[i].phase == Idle
    case BeginWrite(oldest) => s.writer.NoWriter? && oldest in s.oldests
    case StartScan => IsWorking(s) && s.writer.scan.NoScan? && s.writer.id > 0
    case ScanSlot => IsWorking(s) && s.writer.scan.Scan? && 0 < s.writer.scan.low <= |s.slots|
    case FinishScan => IsWorking(s) && s.writer.scan.Scan? && s.writer.scan.low == 0
    case ConsumeRecord(k) => IsWorking(s) &&
      IsNextRecord(s.writer.acc.free, s.writer.acc.last, k) && k < s.writer.oldest
    case AllocHead(content) => IsWorking(s) && content.Keys <= s.writer.acc.head
    case AllocLoose(p, _) => IsWorking(s) && p in s.writer.acc.loose
    case AllocNew(content) => IsWorking(s) && content.Keys == Fresh(s.writer.acc, |content|)
    case ModifyPage(p, _) => IsWorking(s) && p in s.writer.mem
    case ReleasePages(ps) => IsWorking(s) && ps <= s.writer.acc.inUse
    case LoosenPage(p) => IsWorking(s) && p in s.writer.acc.inUse && p in s.writer.mem
    case GiveBackPages(ps) => IsWorking(s) && ps <= s.writer.acc.inUse && ps <= s.writer.mine && s.writer.acc.last > 0
    case WriteOut(p) => s.writer.Writer? && s.writer.stage != MetaWritten && p in s.writer.mem
    case BringBack(p) => IsWorking(s) &&
      p in s.writer.acc.inUse && p in s.writer.mine && p !in s.writer.mem && p in s.disk
    case DropLoose => IsWorking(s) && s.writer.acc.last == 0
    case SaveFreelist(left) => IsWorking(s) && IsLeftover(s.writer.acc, left)
    case WriteMeta => s.writer.Writer? && s.writer.stage == Saved && s.writer.mem.Keys !! s.writer.acc.inUse
    case PublishCommit => s.writer.Writer? && s.writer.stage == MetaWritten
    case AbortWrite => s.writer.Writer? && s.writer.stage != MetaWritten
    case Crash => true
  }

  function SetSlot(s: State, i: nat, slot: Slot): State
    requires i < |s.slots|
  {
    s.(slots := s.slots[i := slot])
  }

  /** One slot of the loop in mdb_find_oldest. */
  function ScanMin(slot: Slot, min: TxnId): TxnId {
    if slot.Claimed? && slot.txnid.Some? && slot.txnid.value < min then slot.txnid.value else min
  }

  ghost function Apply(s: State, e: Event): State
    requires Enabled(s, e)
  {
    match e
    case ClaimSlot(i) =>
      if i == |s.slots| then s.(slots := s.slots + [Claimed(None, Idle)])
      else SetSlot(s, i, Claimed(None, Idle))
    case LoadId(i) => SetSlot(s, i, s.slots[i].(phase := Loaded(s.mti)))
    case PublishId(i) => SetSlot(s, i, Claimed(Some(s.slots[i].phase.seen), Published))
    case Recheck(i) => SetSlot(s, i, s.slots[i].(phase := Confirmed))
    case CopyMeta(i) => SetSlot(s, i, s.slots[i].(phase := Reading(Meta(s, s.slots[i].txnid.value))))
    case EndRead(i) => SetSlot(s, i, Claimed(None, Idle))
    case ReleaseSlot(i) => SetSlot(s, i, Vacant)
    case BeginWrite(oldest) =>
      s.(writer := Writer(s.mti + 1, SnapshotAccounts(Meta(s, s.mti)), {}, map[], oldest, NoScan, Working))
    case StartScan => s.(writer := s.writer.(scan := Scan(|s.slots|, s.writer.id - 1)))
    case ScanSlot =>
      var Scan(low, min) := s.writer.scan;
      s.(writer := s.writer.(scan := Scan(low - 1, ScanMin(s.slots[low - 1], min))))
    case FinishScan =>
      s.(writer := s.writer.(oldest := s.writer.scan.min, scan := NoScan),
         oldests := s.oldests + {s.writer.scan.min})
    case ConsumeRecord(k) => s.(writer := s.writer.(acc := Consume(s.writer.acc, k)))
    case AllocHead(content) =>
      s.(writer := s.writer.(acc := TakeHead(s.writer.acc, content.Keys),
                             mine := s.writer.mine + content.Keys, mem := s.writer.mem + content))
    case AllocLoose(p, bytes) =>
      s.(writer := s.writer.(acc := TakeLoose(s.writer.acc, p), mem := s.writer.mem[p := bytes]))
    case AllocNew(content) =>
      s.(writer := s.writer.(acc := Extend(s.writer.acc, |content|),
                             mine := s.writer.mine + content.Keys, mem := s.writer.mem + content))
    case ModifyPage(p, bytes) => s.(writer := s.writer.(mem := s.writer.mem[p := bytes]))
    case ReleasePages(ps) => s.(writer := s.writer.(acc := Release(s.writer.acc, ps)))
    case LoosenPage(p) => s.(writer := s.writer.(acc := Loosen(s.writer.acc, p)))
    case GiveBackPages(ps) =>
      s.(writer := s.writer.(acc := GiveBack(s.writer.acc, ps), mem := s.writer.mem - ps))
    case WriteOut(p) =>
      s.(writer := s.writer.(mem := s.writer.mem - {p}), disk := s.disk[p := s.writer.mem[p]])
    case BringBack(p) => s.(writer := s.writer.(mem := s.writer.mem[p := s.disk[p]]))
    case DropLoose => s.(writer := s.writer.(acc := LooseToFreed(s.writer.acc)))
    case SaveFreelist(left) =>
      s.(writer := s.writer.(acc := Save(s.writer.acc, s.writer.id, left), stage := Saved))
    case WriteMeta =>
      var w := s.writer;
      s.(metas := s.metas[w.id % 2 := Snapshot(w.id, OnDiskPages(w, s.disk), w.acc.free, w.acc.next)],
         writer := w.(stage := MetaWritten))
    case PublishCommit => s.(mti := s.writer.id, writer := NoWriter)
    case AbortWrite => s.(writer := NoWriter)
    case Crash => s.(mti := PickMeta(s).id, slots := [], writer := NoWriter, oldests := {0})
  }

  /** A new environment: two empty meta pages with id 0. */
  function Start(): State {
    var empty := Snapshot(0, map[], map[], NUM_METAS);
    State(0, [empty, empty], [], NoWriter, {0}, map[])
  }

  // ----- the invariant -----

  predicate IsReading(slot: Slot) {
    slot.Claimed? && slot.phase.Reading?
  }

  /** The slot's published id is relied upon by its thread. */
  predicate IsPinned(slot: Slot) {
    slot.Claimed? && (slot.phase.Reading? || slot.phase == Confirmed)
  }

  /** Snapshots whose pages must stay intact: those of both meta pages and of
      every read transaction. */
  ghost function Live(s: State): set<Snapshot> {
    (set x | x in s.metas) + (set i | 0 <= i < |s.slots| && IsReading(s.slots[i]) :: s.slots[i].phase.snap)
  }

  ghost function Newest(s: State): Snapshot
  {
    if s.writer.Writer? && s.writer.stage == MetaWritten then Meta(s, s.writer.id) else Meta(s, s.mti)
  }

  ghost predicate Intact(x: Snapshot, disk: map<Pgno, PageBytes>) {
    forall p :: p in x.pages ==> p in disk && disk[p] == x.pages[p]
  }

  /** No page listed in a record up to the snapshot's id belongs to the snapshot. */
  ghost predicate NoClash(free: map<TxnId, set<Pgno>>, x: Snapshot) {
    forall k :: k in free && k <= x.id ==> free[k] !! x.pages.Keys
  }

  ghost predicate MetasInv(s: State) {
    && Meta(s, s.mti).id == s.mti
    && (s.writer.Writer? ==> s.writer.id == s.mti + 1)
    && (if s.writer.Writer? && s.writer.stage == MetaWritten then Meta(s, s.mti + 1).id == s.mti + 1
        else Meta(s, s.mti + 1).id == if s.mti == 0 then 0 else s.mti - 1)
  }

  ghost predicate NewestInv(s: State)
  {
    && Conserved(SnapshotAccounts(Newest(s)))
    && forall k :: k in Newest(s).free ==> 1 <= k <= Newest(s).id
  }

  ghost predicate LiveInv(s: State)
  {
    forall x :: x in Live(s) ==>
      && Intact(x, s.disk)
      && x.pages.Keys <= Span(x.next)
      && x.next <= Newest(s).next
      && x.id <= Newest(s).id
      && NoClash(Newest(s).free, x)
  }

  ghost predicate SlotInv(s: State, slot: Slot)
  {
    slot.Claimed? ==>
      && (slot.txnid.Some? ==> slot.txnid.value <= s.mti)
      && (slot.phase.Loaded? ==> slot.phase.seen <= s.mti)
      && (slot.phase == Published ==> slot.txnid.Some?)
      && (IsPinned(slot) ==> slot.txnid.Some?)
      && (slot.phase == Confirmed ==> slot.txnid.value <= Meta(s, slot.txnid.value).id)
      && (slot.phase.Reading? ==> slot.txnid.value <= slot.phase.snap.id)
  }

  ghost predicate SlotsInv(s: State)
  {
    forall i :: 0 <= i < |s.slots| ==> SlotInv(s, s.slots[i])
  }

  /** `t` is no larger than any id a reader from slot `low` on relies upon. */
  ghost predicate BelowReaders(s: State, t: TxnId, low: nat) {
    && t <= s.mti
    && forall i :: low <= i < |s.slots| && IsPinned(s.slots[i]) ==>
         s.slots[i].txnid.Some? && t <= s.slots[i].txnid.value
  }

  ghost predicate OldestsInv(s: State) {
    forall t :: t in s.oldests ==> BelowReaders(s, t, 0)
  }

  ghost predicate ScanInv(s: State)
    requires s.writer.Writer?
  {
    && s.writer.oldest in s.oldests
    && (s.writer.scan.Scan? ==>
          s.writer.scan.low <= |s.slots| && BelowReaders(s, s.writer.scan.min, s.writer.scan.low))
  }

  /** The writer only ever holds pages that no live snapshot contains. */
  ghost predicate WriterSafe(s: State)
    requires s.writer.Writer?
  {
    forall x :: x in Live(s) ==>
      && s.writer.mine + s.writer.acc.head !! x.pages.Keys
      && NoClash(s.writer.acc.free, x)
  }

  ghost predicate WriterInv(s: State)
    requires s.writer.Writer?
  {
    var w, a := s.writer, s.writer.acc;
    && Conserved(a)
    && a.last <= s.mti
    && Meta(s, s.mti).next <= a.next
    && (forall k :: k in a.free ==> 1 <= k <= (if w.stage == Working then s.mti else w.id))
    && a.loose <= w.mine
    && w.mem.Keys <= w.mine
    && a.inUse <= w.mine + Meta(s, s.mti).pages.Keys
    && (forall p :: p in a.inUse && p in w.mine ==> p in w.mem || p in s.disk)
    && WriterSafe(s)
    && ScanInv(s)
    && (w.stage == Saved ==> a == a.(head := {}, freed := {}, loose := {}, last := 0))
  }

  ghost predicate Inv(s: State) {
    && MetasInv(s)
    && NewestInv(s)
    && LiveInv(s)
    && SlotsInv(s)
    && OldestsInv(s)
    && (s.writer.Writer? && s.writer.stage != MetaWritten ==> WriterInv(s))
  }

  // ----- every event keeps the invariant -----

  /** Steps of the writer that touch only its own state and, perhaps, its own
      pages on disk. */
  ghost predicate OwnStep(s: State, s': State) {
    && s.writer.Writer? && s'.writer.Writer?
    && s.writer.stage != MetaWritten && s'.writer.stage != MetaWritten
    && s' == s.(writer := s'.writer, disk := s'.disk)
    && s'.writer.id == s.writer.id
    && (forall p :: p in s.disk && p !in s.writer.mine ==> p in s'.disk && s'.disk[p] == s.disk[p])
  }

  lemma {:induction false} OwnStepKeeps(s: State, s': State)
    requires Inv(s) && OwnStep(s, s')
    ensures MetasInv(s') && NewestInv(s') && LiveInv(s') && SlotsInv(s') && OldestsInv(s')
    ensures Live(s') == Live(s)
  {
    assert Live(s') == Live(s);
    assert Newest(s') == Newest(s);
    forall x | x in Live(s')
      ensures Intact(x, s'.disk)
    {
      assert x in Live(s) && Intact(x, s.disk);
      forall p | p in x.pages
        ensures p in s'.disk && s'.disk[p] == x.pages[p]
      {
        assert p in x.pages.Keys;
      }
    }
    forall i | 0 <= i < |s'.slots|
      ensures SlotInv(s', s'.slots[i])
    {
      assert SlotInv(s, s.slots[i]);
    }
    forall t | t in s'.oldests
      ensures BelowReaders(s', t, 0)
    {
      assert BelowReaders(s, t, 0);
    }
  }

  lemma {:induction false} ScanKeeps(s: State, s': State)
    requires Inv(s) && OwnStep(s, s')
    requires s'.writer.scan == s.writer.scan && s'.writer.oldest == s.writer.oldest
    ensures ScanInv(s')
  {
    if s.writer.scan.Scan? {
      assert BelowReaders(s, s.writer.scan.min, s.writer.scan.low);
    }
  }

  lemma {:induction false} AllocHeadKeeps(s: State, content: map<Pgno, PageBytes>)
    requires Inv(s) && Enabled(s, AllocHead(content))
    ensures Inv(Apply(s, AllocHead(content)))
  {
    var s' := Apply(s, AllocHead(content));
    OwnStepKeeps(s, s');
    ScanKeeps(s, s');
    MovesConserve(s.writer.acc, content.Keys, 0, 0);
    assert WriterSafe(s');
  }

  lemma {:induction false} AllocLooseKeeps(s: State, p: Pgno, bytes: PageBytes)
    requires Inv(s) && Enabled(s, AllocLoose(p, bytes))
    ensures Inv(Apply(s, AllocLoose(p, bytes)))
  {
    var s' := Apply(s, AllocLoose(p, bytes));
    OwnStepKeeps(s, s');
    ScanKeeps(s, s');
    MovesConserve(s.writer.acc, {}, p, 0);
    assert WriterSafe(s');
  }

  lemma {:induction false} AllocNewKeeps(s: State, content: map<Pgno, PageBytes>)
    requires Inv(s) && Enabled(s, AllocNew(content))
    ensures Inv(Apply(s, AllocNew(content)))
  {
    var s' := Apply(s, AllocNew(content));
    OwnStepKeeps(s, s');
    ScanKeeps(s, s');
    MovesConserve(s.writer.acc, {}, 0, |content|);
    NewPagesSafe(s, content.Keys, |content|);
    assert WriterSafe(s');
  }

  lemma {:induction false} NewPagesSafe(s: State, ps: set<Pgno>, num: nat)
    requires Inv(s) && IsWorking(s) && ps == Fresh(s.writer.acc, num)
    ensures forall x :: x in Live(s) ==> ps !! x.pages.Keys
  {
    forall x | x in Live(s)
      ensures ps !! x.pages.Keys
    {
      assert x.pages.Keys <= Span(x.next);
    }
  }

  lemma {:induction false} ModifyKeeps(s: State, p: Pgno, bytes: PageBytes)
    requires Inv(s) && Enabled(s, ModifyPage(p, bytes))
    ensures Inv(Apply(s, ModifyPage(p, bytes)))
  {
    var s' := Apply(s, ModifyPage(p, bytes));
    OwnStepKeeps(s, s');
    ScanKeeps(s, s');
    assert p in s.writer.mem.Keys;
    assert WriterSafe(s');
  }

  lemma {:induction false} MoveKeeps(s: State, e: Event)
    requires Inv(s) && Enabled(s, e)
    requires e.ReleasePages? || e.LoosenPage? || e.DropLoose?
    ensures Inv(Apply(s, e))
  {
    var s' := Apply(s, e);
    OwnStepKeeps(s, s');
    ScanKeeps(s, s');
    MovesConserve(s.writer.acc, if e.ReleasePages? then e.ps else {}, if e.LoosenPage? then e.p else 0, 0);
    assert e.LoosenPage? ==> e.p in s.writer.mem.Keys;
    assert WriterSafe(s');
  }

  lemma {:induction false} GiveBackKeeps(s: State, ps: set<Pgno>)
    requires Inv(s) && Enabled(s, GiveBackPages(ps))
    ensures Inv(Apply(s, GiveBackPages(ps)))
  {
    var s' := Apply(s, GiveBackPages(ps));
    OwnStepKeeps(s, s');
    ScanKeeps(s, s');
    MovesConserve(s.writer.acc, ps, 0, 0);
    assert WriterSafe(s');
  }

  lemma {:induction false} BringBackKeeps(s: State, p: Pgno)
    requires Inv(s) && Enabled(s, BringBack(p))
    ensures Inv(Apply(s, BringBack(p)))
  {
    var s' := Apply(s, BringBack(p));
    OwnStepKeeps(s, s');
    ScanKeeps(s, s');
    assert WriterSafe(s');
  }

  lemma {:induction false} WriteOutKeeps(s: State, p: Pgno)
    requires Inv(s) && Enabled(s, WriteOut(p))
    ensures Inv(Apply(s, WriteOut(p)))
  {
    var s' := Apply(s, WriteOut(p));
    assert p in s.writer.mem.Keys;
    OwnStepKeeps(s, s');
    ScanKeeps(s, s');
  }

  /** A record below the oldest id is not part of any live snapshot: a reader's
      snapshot is at least its published id, and both meta pages are at most one
      behind the last commit. */
  lemma {:induction false} ReclaimIsSafe(s: State, k: TxnId)
    requires Inv(s) && Enabled(s, ConsumeRecord(k))
    ensures forall x :: x in Live(s) ==> k <= x.id && s.writer.acc.free[k] !! x.pages.Keys
  {
    assert BelowReaders(s, s.writer.oldest, 0);
    forall x | x in Live(s)
      ensures k <= x.id && s.writer.acc.free[k] !! x.pages.Keys
    {
      if x in s.metas {
        assert x == Meta(s, s.mti) || x == Meta(s, s.mti + 1);
      } else {
        var i :| 0 <= i < |s.slots| && IsReading(s.slots[i]) && x == s.slots[i].phase.snap;
        assert IsPinned(s.slots[i]) && SlotInv(s, s.slots[i]);
      }
      assert NoClash(s.writer.acc.free, x);
    }
  }

  lemma {:induction false} ConsumeKeeps(s: State, k: TxnId)
    requires Inv(s) && Enabled(s, ConsumeRecord(k))
    ensures Inv(Apply(s, ConsumeRecord(k)))
  {
    var s' := Apply(s, ConsumeRecord(k));
    OwnStepKeeps(s, s');
    ScanKeeps(s, s');
    ConsumeConserves(s.writer.acc, k);
    ReclaimIsSafe(s, k);
    assert WriterSafe(s');
  }

  lemma {:induction false} ScanStepKeeps(s: State, e: Event)
    requires Inv(s) && Enabled(s, e)
    requires e.StartScan? || e.ScanSlot?
    ensures Inv(Apply(s, e))
  {
    var s' := Apply(s, e);
    OwnStepKeeps(s, s');
    if e.ScanSlot? {
      var Scan(low, min) := s.writer.scan;
      assert BelowReaders(s, min, low);
      assert SlotInv(s, s.slots[low - 1]);
      forall i | low - 1 <= i < |s.slots| && IsPinned(s.slots[i])
        ensures s.slots[i].txnid.Some? && s'.writer.scan.min <= s.slots[i].txnid.value
      {
      }
    }
    assert ScanInv(s');
    assert WriterSafe(s');
  }

  lemma {:induction false} FinishScanKeeps(s: State)
    requires Inv(s) && Enabled(s, FinishScan)
    ensures Inv(Apply(s, FinishScan))
  {
    var s' := Apply(s, FinishScan);
    assert Live(s') == Live(s);
    assert BelowReaders(s, s.writer.scan.min, 0);
    forall t | t in s'.oldests
      ensures BelowReaders(s', t, 0)
    {
      assert BelowReaders(s, t, 0);
    }
    forall i | 0 <= i < |s'.slots|
      ensures SlotInv(s', s'.slots[i])
    {
      assert SlotInv(s, s.slots[i]);
    }
    assert WriterSafe(s');
  }

  lemma {:induction false} SaveKeeps(s: State, left: map<TxnId, set<Pgno>>)
    requires Inv(s) && Enabled(s, SaveFreelist(left))
    ensures Inv(Apply(s, SaveFreelist(left)))
  {
    var s' := Apply(s, SaveFreelist(left));
    var a, id := s.writer.acc, s.writer.id;
    OwnStepKeeps(s, s');
    ScanKeeps(s, s');
    SaveConserves(a, id, left);
    forall x | x in Live(s')
      ensures s'.writer.mine + s'.writer.acc.head !! x.pages.Keys
      ensures NoClash(s'.writer.acc.free, x)
    {
      assert x in Live(s);
      assert x.id <= Newest(s).id;
      var f := s'.writer.acc.free;
      forall k | k in f && k <= x.id
        ensures f[k] !! x.pages.Keys
      {
        forall p | p in f[k]
          ensures p !in x.pages.Keys
        {
          SavedPlace(a, id, left, k, p);
        }
      }
    }
  }

  lemma {:induction false} SlotsStay(s: State, s': State)
    requires SlotsInv(s)
    requires s'.slots == s.slots && s.mti <= s'.mti
    requires forall j :: 0 <= j < 2 ==> s.metas[j].id <= s'.metas[j].id
    ensures SlotsInv(s')
  {
    forall i | 0 <= i < |s'.slots|
      ensures SlotInv(s', s'.slots[i])
    {
      assert SlotInv(s, s.slots[i]);
    }
  }

  lemma {:induction false} OldestsStay(s: State, s': State)
    requires OldestsInv(s) && s'.oldests == s.oldests && s'.slots == s.slots && s.mti <= s'.mti
    ensures OldestsInv(s')
  {
    forall t | t in s'.oldests
      ensures BelowReaders(s', t, 0)
    {
      assert BelowReaders(s, t, 0);
    }
  }

  lemma {:induction false} WriteMetaKeeps(s: State)
    requires Inv(s) && Enabled(s, WriteMeta)
    ensures Inv(Apply(s, WriteMeta))
  {
    var s' := Apply(s, WriteMeta);
    var w, a := s.writer, s.writer.acc;
    var x' := Meta(s', w.id);
    assert w.id % 2 != s.mti % 2;
    assert Meta(s', s.mti) == Meta(s, s.mti);
    assert x'.pages.Keys == a.inUse by {
      forall p | p in a.inUse
        ensures p in s.disk
      {
        if p !in w.mine {
          assert p in Meta(s, s.mti).pages;
        }
      }
    }
    assert SnapshotAccounts(x') == a;
    forall x | x in Live(s')
      ensures x == x' || x in Live(s)
    {
      if x in s'.metas {
        assert x == x' || x == Meta(s', s.mti);
      }
    }
    assert NoClash(x'.free, x') by {
      forall k | k in x'.free
        ensures x'.free[k] !! x'.pages.Keys
      {
        assert x'.free[k] <= Listed(a.free, a.last);
      }
    }
    assert LiveInv(s') by {
      forall x | x in Live(s')
        ensures x.id <= Newest(s').id && x.next <= Newest(s').next && NoClash(Newest(s').free, x)
        ensures Intact(x, s'.disk) && x.pages.Keys <= Span(x.next)
      {
      }
    }
    assert s.metas[w.id % 2].id <= w.id;
    SlotsStay(s, s');
    OldestsStay(s, s');
  }

  lemma {:induction false} PublishKeeps(s: State)
    requires Inv(s) && Enabled(s, PublishCommit)
    ensures Inv(Apply(s, PublishCommit))
  {
    var s' := Apply(s, PublishCommit);
    assert Live(s') == Live(s);
    assert Newest(s') == Newest(s);
    assert Meta(s', s'.mti + 1) == Meta(s, s.mti);
    SlotsStay(s, s');
    OldestsStay(s, s');
  }

  lemma {:induction false} BeginKeeps(s: State, oldest: TxnId)
    requires Inv(s) && Enabled(s, BeginWrite(oldest))
    ensures Inv(Apply(s, BeginWrite(oldest)))
  {
    var s' := Apply(s, BeginWrite(oldest));
    assert Live(s') == Live(s);
    assert Newest(s') == Newest(s) == Meta(s, s.mti);
    SlotsStay(s, s');
    OldestsStay(s, s');
    assert WriterSafe(s');
    assert WriterInv(s');
  }

  lemma {:induction false} AbortKeeps(s: State)
    requires Inv(s) && Enabled(s, AbortWrite)
    ensures Inv(Apply(s, AbortWrite))
  {
    var s' := Apply(s, AbortWrite);
    assert Live(s') == Live(s);
    assert Newest(s') == Newest(s);
    SlotsStay(s, s');
    OldestsStay(s, s');
  }

  lemma {:induction false} CrashKeeps(s: State)
    requires Inv(s)
    ensures Inv(Apply(s, Crash))
    ensures Meta(Apply(s, Crash), Apply(s, Crash).mti) == Newest(s)
  {
    var s' := Apply(s, Crash);
    assert s.metas == [s.metas[0], s.metas[1]];
    assert s.metas[0] == Meta(s, s.mti) || s.metas[1] == Meta(s, s.mti);
    assert s.metas[0] == Meta(s, s.mti + 1) || s.metas[1] == Meta(s, s.mti + 1);
  }

  predicate IsReaderEvent(e: Event) {
    e.ClaimSlot? || e.LoadId? || e.PublishId? || e.Recheck? || e.CopyMeta? || e.EndRead? || e.ReleaseSlot?
  }

  /** Events of readers change one slot and nothing else. */
  lemma {:induction false} ReaderFrame(s: State, e: Event)
    requires IsReaderEvent(e) && Enabled(s, e)
    ensures var s' := Apply(s, e);
            && s' == s.(slots := s'.slots)
            && e.i < |s'.slots| && |s.slots| <= |s'.slots|
            && (forall j :: 0 <= j < |s'.slots| && j != e.i ==> j < |s.slots| && s'.slots[j] == s.slots[j])
  {
  }

  lemma {:induction false} ReaderSlots(s: State, e: Event)
    requires Inv(s) && IsReaderEvent(e) && Enabled(s, e)
    ensures SlotsInv(Apply(s, e))
  {
    var s' := Apply(s, e);
    forall j | 0 <= j < |s'.slots|
      ensures SlotInv(s', s'.slots[j])
    {
      if j < |s.slots| {
        assert SlotInv(s, s.slots[j]);
      }
    }
  }

  lemma {:induction false} ReaderLive(s: State, e: Event)
    requires Inv(s) && IsReaderEvent(e) && Enabled(s, e)
    ensures Live(Apply(s, e)) <= Live(s)
  {
    var s' := Apply(s, e);
    ReaderFrame(s, e);
    forall x | x in Live(s')
      ensures x in Live(s)
    {
      if x !in s'.metas {
        var j :| 0 <= j < |s'.slots| && IsReading(s'.slots[j]) && x == s'.slots[j].phase.snap;
      }
    }
  }

  /** The recheck is what makes a cached oldest id stay valid: a reader that
      passes it relies on the last committed id, which no cached value exceeds. */
  lemma {:induction false} ReaderBelow(s: State, e: Event, t: TxnId, low: nat)
    requires Inv(s) && IsReaderEvent(e) && Enabled(s, e)
    requires BelowReaders(s, t, low)
    ensures BelowReaders(Apply(s, e), t, low)
  {
    var s' := Apply(s, e);
    ReaderFrame(s, e);
    forall j | low <= j < |s'.slots| && IsPinned(s'.slots[j])
      ensures s'.slots[j].txnid.Some? && t <= s'.slots[j].txnid.value
    {
      if j == e.i && !e.Recheck? {
        assert s'.slots[j].txnid == s.slots[j].txnid && IsPinned(s.slots[j]);
      }
    }
  }

  lemma {:induction false} ReaderKeeps(s: State, e: Event)
    requires Inv(s) && IsReaderEvent(e) && Enabled(s, e)
    ensures Inv(Apply(s, e))
  {
    var s' := Apply(s, e);
    ReaderFrame(s, e);
    ReaderSlots(s, e);
    ReaderLive(s, e);
    assert Newest(s') == Newest(s);
    forall t | t in s'.oldests
      ensures BelowReaders(s', t, 0)
    {
      assert BelowReaders(s, t, 0);
      ReaderBelow(s, e, t, 0);
    }
    if s.writer.Writer? && s.writer.stage != MetaWritten {
      if s.writer.scan.Scan? {
        ReaderBelow(s, e, s.writer.scan.min, s.writer.scan.low);
      }
      assert WriterSafe(s');
    }
  }

  /** Events that give pages to the writer. */
  predicate IsAllocation(e: Event) {
    e.ConsumeRecord? || e.AllocHead? || e.AllocLoose? || e.AllocNew?
  }

  lemma {:induction false} AllocationKeeps(s: State, e: Event)
    requires Inv(s) && Enabled(s, e) && IsAllocation(e)
    ensures Inv(Apply(s, e))
  {
    match e {
      case ConsumeRecord(k) => ConsumeKeeps(s, k);
      case AllocHead(content) => AllocHeadKeeps(s, content);
      case AllocLoose(p, bytes) => AllocLooseKeeps(s, p, bytes);
      case AllocNew(content) => AllocNewKeeps(s, content);
    }
  }

  /** Events that move or write the writer's own pages. */
  predicate IsOwnMove(e: Event) {
    e.ModifyPage? || e.ReleasePages? || e.LoosenPage? || e.GiveBackPages? || e.WriteOut? || e.BringBack? || e.DropLoose?
  }

  lemma {:induction false} OwnMoveKeeps(s: State, e: Event)
    requires Inv(s) && Enabled(s, e) && IsOwnMove(e)
    ensures Inv(Apply(s, e))
  {
    match e {
      case ModifyPage(p, bytes) => ModifyKeeps(s, p, bytes);
      case ReleasePages(_) => MoveKeeps(s, e);
      case LoosenPage(_) => MoveKeeps(s, e);
      case GiveBackPages(ps) => GiveBackKeeps(s, ps);
      case WriteOut(p) => WriteOutKeeps(s, p);
      case BringBack(p) => BringBackKeeps(s, p);
      case DropLoose => MoveKeeps(s, e);
    }
  }

  /** Events from the beginning of a write transaction to its end. */
  predicate IsCommitStep(e: Event) {
    || e.BeginWrite? || e.StartScan? || e.ScanSlot? || e.FinishScan? || e.SaveFreelist?
    || e.WriteMeta? || e.PublishCommit? || e.AbortWrite? || e.Crash?
  }

  lemma {:induction false} CommitStepKeeps(s: State, e: Event)
    requires Inv(s) && Enabled(s, e) && IsCommitStep(e)
    ensures Inv(Apply(s, e))
  {
    match e {
      case BeginWrite(oldest) => BeginKeeps(s, oldest);
      case StartScan => ScanStepKeeps(s, e);
      case ScanSlot => ScanStepKeeps(s, e);
      case FinishScan => FinishScanKeeps(s);
      case SaveFreelist(left) => SaveKeeps(s, left);
      case WriteMeta => WriteMetaKeeps(s);
      case PublishCommit => PublishKeeps(s);
      case AbortWrite => AbortKeeps(s);
      case Crash => CrashKeeps(s);
    }
  }

  lemma {:induction false} StepKeeps(s: State, e: Event)
    requires Inv(s) && Enabled(s, e)
    ensures Inv(Apply(s, e))
  {
    if IsAllocation(e) {
      AllocationKeeps(s, e);
    } else if IsOwnMove(e) {
      OwnMoveKeeps(s, e);
    } else if IsCommitStep(e) {
      CommitStepKeeps(s, e);
    } else {
      ReaderKeeps(s, e);
    }
  }

  // ----- runs -----

  /** `s'` is reached from `s` by the events in order. */
  ghost predicate Run(s: State, events: seq<Event>, s': State)
    decreases |events|
  {
    if events == [] then s' == s
    else Enabled(s, events[0]) && Run(Apply(s, events[0]), events[1..], s')
  }

  lemma {:induction false} RunKeeps(s: State, events: seq<Event>, s': State)
    requires Inv(s) && Run(s, events, s')
    ensures Inv(s')
    decreases |events|
  {
    if events != [] {
      StepKeeps(s, events[0]);
      RunKeeps(Apply(s, events[0]), events[1..], s');
    }
  }

  lemma {:induction false} RunThen(s: State, events: seq<Event>, t: State, e: Event)
    requires Run(s, events, t) && Enabled(t, e)
    ensures Run(s, events + [e], Apply(t, e))
    decreases |events|
  {
    var longer := events + [e];
    if events == [] {
      assert longer[1..] == [];
    } else {
      RunThen(Apply(s, events[0]), events[1..], t, e);
      assert longer[1..] == events[1..] + [e];
    }
  }

  lemma {:induction false} StartIsGood()
    ensures Inv(Start())
  {
  }

  ghost predicate Reachable(s: State) {
    exists events :: Run(Start(), events, s)
  }

  lemma {:induction false} ReachableIsGood(s: State)
    requires Reachable(s)
    ensures Inv(s)
  {
    var events :| Run(Start(), events, s);
    StartIsGood();
    RunKeeps(Start(), events, s);
  }

  // ----- main results -----

  /** Pages an allocation event hands to the writer. */
  ghost function HandedOut(e: Event): set<Pgno> {
    match e
    case AllocHead(content) => content.Keys
    case AllocLoose(p, _) => {p}
    case AllocNew(content) => content.Keys
    case _ => {}
  }

  /** No page given to the writer, and no page it writes to the file, belongs
      to the snapshot of a reader or of either meta page. */
  lemma {:induction false} WriterNeverTouchesLivePages(s: State, e: Event, x: Snapshot)
    requires Reachable(s) && Enabled(s, e) && x in Live(s)
    ensures HandedOut(e) !! x.pages.Keys
    ensures e.WriteOut? ==> e.p !in x.pages
  {
    ReachableIsGood(s);
    if e.WriteOut? {
      assert e.p in s.writer.mem.Keys;
    }
    if e.AllocNew? {
      assert x.pages.Keys <= Span(x.next);
    }
    if e.AllocHead? || e.AllocLoose? || e.WriteOut? {
      assert WriterSafe(s);
    }
  }

  /** Every value cached as me_pgoldest, by any process, stays a lower bound on
      the id published by each reader that passed its recheck. */
  lemma {:induction false} CachedOldestIsLowerBound(s: State, t: TxnId, i: nat)
    requires Reachable(s) && t in s.oldests && i < |s.slots| && IsPinned(s.slots[i])
    ensures s.slots[i].txnid.Some? && t <= s.slots[i].txnid.value <= s.mti
  {
    ReachableIsGood(s);
    assert BelowReaders(s, t, 0) && SlotInv(s, s.slots[i]);
  }

  lemma {:induction false} StepKeepsReader(s: State, e: Event, i: nat)
    requires Enabled(s, e) && i < |s.slots| && IsReading(s.slots[i])
    requires e != EndRead(i) && e != Crash
    ensures i < |Apply(s, e).slots| && Apply(s, e).slots[i] == s.slots[i]
  {
  }

  lemma {:induction false} RunKeepsReader(s: State, events: seq<Event>, s': State, i: nat)
    requires Run(s, events, s') && i < |s.slots| && IsReading(s.slots[i])
    requires EndRead(i) !in events && Crash !in events
    ensures i < |s'.slots| && s'.slots[i] == s.slots[i]
    decreases |events|
  {
    if events != [] {
      StepKeepsReader(s, events[0], i);
      RunKeepsReader(Apply(s, events[0]), events[1..], s', i);
    }
  }

  /** Snapshot isolation: whatever other readers and writers do, a read
      transaction finds in every page of its snapshot the same bytes from its
      first moment to its last. */
  lemma {:induction false} ReadersSeeAFrozenSnapshot(s: State, events: seq<Event>, s': State, i: nat, p: Pgno)
    requires Reachable(s) && Run(s, events, s')
    requires i < |s.slots| && IsReading(s.slots[i]) && p in s.slots[i].phase.snap.pages
    requires EndRead(i) !in events && Crash !in events
    ensures p in s.disk && p in s'.disk && s'.disk[p] == s.disk[p] == s.slots[i].phase.snap.pages[p]
  {
    ReachableIsGood(s);
    RunKeeps(s, events, s');
    RunKeepsReader(s, events, s', i);
    var x := s.slots[i].phase.snap;
    assert x in Live(s) && x in Live(s');
    assert Intact(x, s.disk) && Intact(x, s'.disk);
  }

  // ----- the snapshot a reader gets -----

  /** The reader's id picks one of the two meta pages; what is there by the time it
      is copied is the newest snapshot or the one before, by the parity of the id.
      It is never older than the id, and it is the one the id names exactly if
      fewer than two transactions have written their meta pages since. */
  lemma {:induction false} CopiedSnapshot(s: State, i: nat)
    requires Reachable(s) && Enabled(s, CopyMeta(i))
    ensures var s' := Apply(s, CopyMeta(i));
            IsReading(s'.slots[i]) && s'.slots[i].txnid == s.slots[i].txnid && s'.slots[i].phase.snap in Live(s)
    ensures var t, x, last := s.slots[i].txnid.value, Apply(s, CopyMeta(i)).slots[i].phase.snap, Newest(s).id;
            && t <= x.id <= last
            && x.id == (if last % 2 == t % 2 || last == 0 then last else last - 1)
            && (x.id == t <==> last < t + 2)
  {
    ReachableIsGood(s);
    assert SlotInv(s, s.slots[i]);
    MetaByParity(s, s.slots[i].txnid.value);
    assert Meta(s, s.slots[i].txnid.value) in s.metas;
  }

  /** The ids of the two meta pages follow from the newest. */
  lemma {:induction false} MetaByParity(s: State, t: TxnId)
    requires MetasInv(s)
    ensures var last := Newest(s).id; Meta(s, t).id == if last % 2 == t % 2 || last == 0 then last else last - 1
  {
    assert t % 2 == s.mti % 2 ==> Meta(s, t) == Meta(s, s.mti);
    assert t % 2 != s.mti % 2 ==> Meta(s, t) == Meta(s, s.mti + 1);
  }

  lemma {:induction false} ReachableThen(s: State, e: Event)
    requires Reachable(s) && Enabled(s, e)
    ensures Reachable(Apply(s, e))
  {
    var events :| Run(Start(), events, s);
    RunThen(Start(), events, s, e);
  }

  /** A write transaction that changes nothing. */
  lemma {:induction false} EmptyCommit(s: State) returns (t: State)
    requires Reachable(s) && s.writer.NoWriter? && 0 in s.oldests
    ensures Reachable(t) && t.writer.NoWriter? && t.mti == s.mti + 1 && t.slots == s.slots && t.oldests == s.oldests
  {
    ReachableThen(s, BeginWrite(0));
    var begun := Apply(s, BeginWrite(0));
    assert Listed(map[], 0) == {};
    ReachableThen(begun, SaveFreelist(map[]));
    var saved := Apply(begun, SaveFreelist(map[]));
    ReachableThen(saved, WriteMeta);
    var written := Apply(saved, WriteMeta);
    ReachableThen(written, PublishCommit);
    t := Apply(written, PublishCommit);
  }

  /** A reader that has passed its recheck, with id 0. */
  lemma {:induction false} ConfirmedReader() returns (s: State)
    ensures Reachable(s) && s == Start().(slots := [Claimed(Some(0), Confirmed)])
  {
    assert Run(Start(), [], Start());
    ReachableThen(Start(), ClaimSlot(0));
    var s1 := Apply(Start(), ClaimSlot(0));
    ReachableThen(s1, LoadId(0));
    var s2 := Apply(s1, LoadId(0));
    ReachableThen(s2, PublishId(0));
    var s3 := Apply(s2, PublishId(0));
    ReachableThen(s3, Recheck(0));
    s := Apply(s3, Recheck(0));
  }

  /** Two commits between a reader's recheck and its copy of the meta page: its id
      is 0, its snapshot that of transaction 2. */
  lemma {:induction false} SnapshotCanBeNewer() returns (s: State)
    ensures Reachable(s) && Enabled(s, CopyMeta(0)) && s.slots[0].txnid == Some(0)
    ensures Apply(s, CopyMeta(0)).slots[0].phase.snap.id == 2
  {
    s := ConfirmedReader();
    s := EmptyCommit(s);
    s := EmptyCommit(s);
    ReachableIsGood(s);
    CopiedSnapshot(s, 0);
  }

  /** In the newest snapshot every page from 2 up to its last page is either
      used by a tree or listed in one freeDB record, and only once. */
  lemma {:induction false} EveryPageExactlyOnce(s: State)
    requires Reachable(s)
    ensures Conserved(SnapshotAccounts(Newest(s)))
    ensures s.writer.Writer? && s.writer.stage != MetaWritten ==> Conserved(s.writer.acc)
  {
    ReachableIsGood(s);
  }

  lemma {:induction false} CrashPicksNewest(s: State)
    requires MetasInv(s)
    ensures Newest(s).id == s.mti + (if s.writer.Writer? && s.writer.stage == MetaWritten then 1 else 0)
    ensures Apply(s, Crash).mti == Newest(s).id && Meta(Apply(s, Crash), Newest(s).id) == Newest(s)
  {
    assert s.metas[0] == Meta(s, s.mti) || s.metas[1] == Meta(s, s.mti);
    assert s.metas[0] == Meta(s, s.mti + 1) || s.metas[1] == Meta(s, s.mti + 1);
  }

  /** A crash at any moment leaves a complete database: the meta page picked on
      reopening leads to pages that hold exactly what its transaction committed,
      no published commit is lost, and at most the one commit whose meta page is
      already written is gained. */
  lemma {:induction false} CrashRecovery(s: State)
    requires Reachable(s)
    ensures var s' := Apply(s, Crash);
            && s.mti <= s'.mti <= s.mti + 1
            && (s'.mti == s.mti + 1 <==> s.writer.Writer? && s.writer.stage == MetaWritten)
            && Meta(s', s'.mti) == Newest(s) && Newest(s).id == s'.mti
            && Intact(Newest(s), s'.disk)
            && Conserved(SnapshotAccounts(Newest(s)))
  {
    ReachableIsGood(s);
    CrashPicksNewest(s);
    assert Newest(s) in Live(s);
  }

  lemma {:induction false} CommittedPagesOnDisk(s: State)
    requires Inv(s) && Enabled(s, WriteMeta)
    ensures forall p :: p in s.writer.acc.inUse ==> p in s.disk
  {
    forall p | p in s.writer.acc.inUse
      ensures p in s.disk
    {
      if p !in s.writer.mine {
        assert p in Meta(s, s.mti).pages && Meta(s, s.mti) in Live(s);
      }
    }
  }

  /** Publishing makes exactly the writer's own view visible to new readers. */
  lemma {:induction false} CommitPublishesTheWritersView(s: State)
    requires Reachable(s) && Enabled(s, WriteMeta)
    ensures var s' := Apply(Apply(s, WriteMeta), PublishCommit);
            && s'.mti == s.writer.id
            && Newest(s').pages.Keys == s.writer.acc.inUse
            && (forall p :: p in s.writer.acc.inUse ==> p in s.disk && Newest(s').pages[p] == s.disk[p])
            && Newest(s').free == s.writer.acc.free
  {
    ReachableIsGood(s);
    CommittedPagesOnDisk(s);
    var s' := Apply(Apply(s, WriteMeta), PublishCommit);
    assert Newest(s') == Snapshot(s.writer.id, OnDiskPages(s.writer, s.disk), s.writer.acc.free, s.writer.acc.next);
  }
}
