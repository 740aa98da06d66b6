/** mdb_freelist_save: records are reserved in the freeDB for the pages that
    remain in me_pghead, and then filled from the tail of the list. */
module FreelistSave {
  import opened Basics
  import opened IdList
  import opened PageAccounts
  import IdSort

  // ----- reserving -----

  /** Room reserved under the keys lo, ..., hi. */
  function RoomIn(db: map<TxnId, nat>, lo: nat, hi: nat): nat
    decreases hi + 1 - lo
  {
    if lo > hi then 0 else (if lo in db then db[lo] else 0) + RoomIn(db, lo + 1, hi)
  }

  lemma {:induction false} RoomFrame(db: map<TxnId, nat>, db': map<TxnId, nat>, lo: nat, hi: nat)
    requires forall k :: lo <= k <= hi ==> (k in db <==> k in db') && (k in db ==> db[k] == db'[k])
    ensures RoomIn(db, lo, hi) == RoomIn(db', lo, hi)
    decreases hi + 1 - lo
  {
    if lo <= hi {
      RoomFrame(db, db', lo + 1, hi);
    }
  }

  /** What the lists look like after a Put(): it may use up or return pages of
      me_pghead, reclaim more freeDB records and free more pages. */
  datatype Lists = Lists(pglast: TxnId, mopLen: nat, freeLen: nat)

  /** A Put() moves me_pglast only to a record that is still in the freeDB, never
      shortens mt_free_pgs, and me_pghead has pages only once me_pglast is set. */
  ghost predicate Follows(l: Lists, l': Lists, records: set<TxnId>) {
    && l.pglast <= l'.pglast && l.freeLen <= l'.freeLen
    && (l'.pglast > l.pglast ==> l'.pglast in records)
    && (l'.mopLen > 0 ==> l'.pglast > 0)
  }

  /** Variables of the loop.  `db` maps the keys of the freeDB to the number of
      page numbers their records have room for. */
  datatype Loop = Loop(
    db: map<TxnId, nat>,
    pglast: TxnId,
    headId: TxnId,
    headRoom: nat,
    totalRoom: nat,
    freecnt: nat,
    more: int)

  /** The records up to pglast are those reserved in this save, their keys are
      headId, ..., pglast, and total_room is the room in them. */
  ghost predicate Reserved(v: Loop) {
    && (forall k :: k in v.db ==> k > 0)
    && (forall k :: k in v.db && k <= v.pglast ==> v.headId <= k)
    && v.headId <= v.pglast && (v.pglast > 0 ==> v.headId > 0)
    && v.headRoom == (if v.headId in v.db then v.db[v.headId] else 0)
    && v.totalRoom == RoomIn(v.db, v.headId, v.pglast)
  }

  lemma {:induction false} LeastKey(db: map<TxnId, nat>, some: TxnId) returns (k: TxnId)
    requires some in db
    ensures k in db && k <= some && forall j :: j in db ==> k <= j
    decreases some
  {
    if forall j :: j in db ==> some <= j {
      k := some;
    } else {
      var j :| j in db && j < some;
      k := LeastKey(db, j);
    }
  }

  /** Delete the records that have been used, and any that were reserved. */
  method DeleteUsed(v0: Loop, l: Lists) returns (v: Loop)
    requires Reserved(v0) && v0.pglast <= l.pglast && (v0.pglast < l.pglast ==> l.pglast in v0.db)
    ensures Reserved(v) && v.pglast == l.pglast && v.freecnt == v0.freecnt && v.more == v0.more
    ensures v0.pglast == l.pglast ==> v == v0
    ensures v0.pglast < l.pglast ==> v.db == (map k | k in v0.db && k > l.pglast :: v0.db[k])
    ensures v0.pglast < l.pglast ==> v.totalRoom == 0 && v.headId == l.pglast
  {
    v := v0;
    while v.pglast < l.pglast
      invariant v == v0 || (v.totalRoom == 0 && v.headRoom == 0 && v.headId == v.pglast && v0.pglast < l.pglast)
      invariant v.pglast <= l.pglast && (v.pglast < l.pglast ==> l.pglast in v.db)
      invariant v.freecnt == v0.freecnt && v.more == v0.more
      invariant v != v0 ==> forall k :: k in v.db <==> k in v0.db && k > v.pglast
      invariant forall k :: k in v.db ==> k in v0.db && v.db[k] == v0.db[k]
      invariant v == v0 ==> Reserved(v0)
      decreases v.db.Keys
    {
      ghost var least := LeastKey(v.db, l.pglast);
      var k :| k in v.db && forall j :: j in v.db ==> k <= j;
      assert k <= l.pglast;
      assert k in v.db.Keys;
      v := Loop(v.db - {k}, k, k, 0, 0, v.freecnt, v.more);
    }
    if v != v0 {
      EmptyRoom(v.db, v.headId, v.pglast);
    }
  }

  lemma {:induction false} EmptyRoom(db: map<TxnId, nat>, lo: nat, hi: nat)
    requires forall k :: lo <= k <= hi ==> k !in db
    ensures RoomIn(db, lo, hi) == 0
    decreases hi + 1 - lo
  {
    if lo <= hi {
      EmptyRoom(db, lo + 1, hi);
    }
  }

  /** Room for the next record: all that is missing, or, if that would need an
      overflow record of several pages and there are smaller keys left, a share
      rounded up to full pages. */
  function HeadRoom(missing: int, headId: TxnId, maxFree: nat): nat
    requires headId > 0 || missing <= maxFree
  {
    if missing > maxFree && headId > 1 then
      var share := missing / headId;
      share + (maxFree - share % (maxFree + 1))
    else if missing < 0 then 0
    else missing
  }

  /** A share takes whole pages, up to the last slot and with the count included;
      when no smaller key is left, or one page is enough, all that is missing gets
      room. */
  lemma {:induction false} HeadRoomFillsPages(missing: int, headId: TxnId, maxFree: nat)
    requires headId > 0 || missing <= maxFree
    ensures var room := HeadRoom(missing, headId, maxFree);
            if missing > maxFree && headId > 1 then room + 1 == (missing / headId / (maxFree + 1) + 1) * (maxFree + 1)
            else room >= missing && (missing >= 0 ==> room == missing)
  {
    if missing > maxFree && headId > 1 {
      RoundedUp(missing / headId, maxFree + 1);
    }
  }

  lemma {:induction false} RoundedUp(share: nat, n: nat)
    requires n > 0
    ensures share + (n - share % n) == (share / n + 1) * n
  {
    assert share == share / n * n + share % n;
  }

  /** (Re)write one reserved record. */
  function ReserveOne(v: Loop, mopLen: nat, maxFree: nat): Loop
    requires Reserved(v) && v.headId > 0
  {
    var w := if v.totalRoom < mopLen && v.headRoom >= maxFree && v.headId > 1
             then v.(headId := v.headId - 1, headRoom := 0) else v;
    var rest := w.totalRoom - w.headRoom;
    var room := HeadRoom(mopLen - rest, w.headId, maxFree);
    w.(db := w.db[w.headId := room], headRoom := room, totalRoom := rest + room)
  }

  lemma {:induction false} ReserveOneKeeps(v: Loop, mopLen: nat, maxFree: nat)
    requires Reserved(v) && v.headId > 0
    ensures Reserved(ReserveOne(v, mopLen, maxFree))
    ensures ReserveOne(v, mopLen, maxFree).pglast == v.pglast
    ensures forall k :: k > v.pglast ==> (k in ReserveOne(v, mopLen, maxFree).db <==> k in v.db)
    ensures forall k :: k > v.pglast && k in v.db ==> ReserveOne(v, mopLen, maxFree).db[k] == v.db[k]
  {
    var r := ReserveOne(v, mopLen, maxFree);
    RoomFrame(v.db, r.db, r.headId + 1, v.pglast);
  }

  /** More room is wanted, the current record fills its page, and there is a smaller
      key. */
  predicate AddsRecord(v: Loop, mopLen: nat, maxFree: nat) {
    v.totalRoom < mopLen && v.headRoom >= maxFree && v.headId > 1
  }

  /** Room in the records other than the one that is written. */
  function OtherRoom(v: Loop, mopLen: nat, maxFree: nat): int {
    if AddsRecord(v, mopLen, maxFree) then v.totalRoom else v.totalRoom - v.headRoom
  }

  /** One record is written: a new one under the next smaller key, or the current one
      anew. */
  lemma {:induction false} ReserveOneIs(v: Loop, mopLen: nat, maxFree: nat)
    requires Reserved(v) && v.headId > 0
    ensures var r := ReserveOne(v, mopLen, maxFree);
            && r.headId == v.headId - (if AddsRecord(v, mopLen, maxFree) then 1 else 0)
            && r.db == v.db[r.headId := r.headRoom] && r.totalRoom == OtherRoom(v, mopLen, maxFree) + r.headRoom
            && r.pglast == v.pglast && r.freecnt == v.freecnt && r.more == v.more
  {
  }

  /** With it the room is exactly what is wanted, unless the others have more already,
      or the record is one of several that share the pages: then it takes whole pages,
      and as many of its size as there are keys hold everything. */
  lemma {:induction false} ReservedRoom(v: Loop, mopLen: nat, maxFree: nat)
    requires Reserved(v) && v.headId > 0
    ensures var r := ReserveOne(v, mopLen, maxFree); var others := OtherRoom(v, mopLen, maxFree);
            if mopLen - others > maxFree && r.headId > 1 then
              && r.headRoom + 1 == ((mopLen - others) / r.headId / (maxFree + 1) + 1) * (maxFree + 1)
              && r.headRoom * r.headId + r.headId > mopLen - others
            else r.totalRoom == if others > mopLen then others else mopLen
  {
    var r, missing := ReserveOne(v, mopLen, maxFree), mopLen - OtherRoom(v, mopLen, maxFree);
    ReserveOneIs(v, mopLen, maxFree);
    assert r.headRoom == HeadRoom(missing, r.headId, maxFree);
    if missing > maxFree && r.headId > 1 {
      HeadRoomFillsPages(missing, r.headId, maxFree);
      ShareIsEnough(missing, r.headId, r.headRoom);
    }
  }

  /** As many records as there are keys, of this room each, hold everything. */
  lemma {:induction false} ShareIsEnough(missing: nat, keys: nat, room: nat)
    requires keys > 0 && room >= missing / keys
    ensures room * keys + keys > missing
  {
    var q := missing / keys;
    assert missing == q * keys + missing % keys;
    assert q * keys <= room * keys;
  }

  /** The record of the pages freed by this transaction.  `after` are the lists
      as the Put()s leave them; the loop repeats while mt_free_pgs grew. */
  method SaveFreed(v0: Loop, l0: Lists, id: TxnId, after: seq<Lists>) returns (v: Loop, l: Lists, t: nat)
    requires Reserved(v0) && v0.pglast < id && v0.freecnt < l0.freeLen && after != []
    ensures 0 < t <= |after| && l == after[t - 1]
    ensures v == v0.(db := v0.db[id := v.freecnt], freecnt := v.freecnt)
    ensures Reserved(v) && v0.freecnt < v.freecnt
    ensures v.freecnt < l.freeLen ==> t == |after|
    ensures v.freecnt == l0.freeLen || exists i :: 0 <= i < t && v.freecnt == after[i].freeLen
  {
    v, l, t := v0, l0, 0;
    while v.freecnt < l.freeLen && t < |after|
      invariant t <= |after| && (t == 0 ==> v == v0 && l == l0) && (t > 0 ==> l == after[t - 1])
      invariant t > 0 ==> v == v0.(db := v0.db[id := v.freecnt], freecnt := v.freecnt) && v0.freecnt < v.freecnt
      invariant t > 0 ==> v.freecnt == l0.freeLen || exists i :: 0 <= i < t && v.freecnt == after[i].freeLen
      decreases |after| - t
    {
      v := v.(db := v.db[id := l.freeLen], freecnt := l.freeLen);
      l := after[t];
      t := t + 1;
    }
    RoomFrame(v0.db, v.db, v0.headId, v0.pglast);
  }

  function ListsAt(l: Lists, after: seq<Lists>, i: nat): Lists
    requires i <= |after|
  {
    if i == 0 then l else after[i - 1]
  }

  /** The lists move as Put()s allow, records being those not yet reclaimed. */
  ghost predicate Plausible(l: Lists, after: seq<Lists>, records: set<TxnId>) {
    forall i :: 0 <= i < |after| ==> Follows(ListsAt(l, after, i), after[i], records)
  }

  lemma {:induction false} PlausibleAt(l: Lists, after: seq<Lists>, records: set<TxnId>, i: nat, j: nat)
    requires Plausible(l, after, records) && i <= j <= |after|
    ensures ListsAt(l, after, i).pglast <= ListsAt(l, after, j).pglast
    ensures ListsAt(l, after, i).freeLen <= ListsAt(l, after, j).freeLen
    ensures ListsAt(l, after, j).pglast in records || ListsAt(l, after, j).pglast == l.pglast
    decreases j
  {
    if j > 0 {
      PlausibleAt(l, after, records, if i < j then i else j - 1, j - 1);
      assert Follows(ListsAt(l, after, j - 1), after[j - 1], records);
    }
  }

  /** What holds when the reservation loop leaves. */
  ghost predicate Settled(v: Loop, l: Lists, id: TxnId) {
    && Reserved(v) && v.pglast == l.pglast
    && v.totalRoom >= l.mopLen
    && v.freecnt == l.freeLen
    && (v.freecnt > 0 ==> id in v.db && v.db[id] == v.freecnt)
  }

  /** The records above pglast, other than the transaction's own, are untouched. */
  ghost predicate OthersKept(db: map<TxnId, nat>, v: Loop, id: TxnId) {
    forall k :: k > v.pglast && k != id ==> (k in v.db <==> k in db) && (k in db ==> v.db[k] == db[k])
  }

  ghost predicate OwnRecord(v: Loop, id: TxnId) {
    v.freecnt > 0 ==> id in v.db && v.db[id] == v.freecnt
  }

  /** What the loop keeps. */
  ghost predicate LoopOk(v: Loop, l: Lists, id: TxnId, db: map<TxnId, nat>) {
    && Reserved(v) && OthersKept(db, v, id) && OwnRecord(v, id)
    && v.pglast <= l.pglast && v.freecnt <= l.freeLen
  }

  /** me_pglast names a record of the freeDB, and without it me_pghead is empty. */
  ghost predicate ListsOk(l: Lists, db: map<TxnId, nat>, id: TxnId) {
    && 0 < id && (forall k :: k in db ==> 0 < k < id)
    && (l.pglast > 0 ==> l.pglast in db)
    && (l.mopLen > 0 ==> l.pglast > 0)
  }

  lemma {:induction false} PlausibleLists(l: Lists, after: seq<Lists>, db: map<TxnId, nat>, id: TxnId, i: nat)
    requires Plausible(l, after, db.Keys) && i <= |after| && ListsOk(l, db, id)
    ensures ListsOk(ListsAt(l, after, i), db, id)
  {
    PlausibleAt(l, after, db.Keys, i, i);
    if i > 0 {
      assert Follows(ListsAt(l, after, i - 1), after[i - 1], db.Keys);
    }
  }

  method DeleteStep(v0: Loop, l: Lists, id: TxnId, ghost db: map<TxnId, nat>) returns (v: Loop)
    requires LoopOk(v0, l, id, db) && ListsOk(l, db, id)
    ensures LoopOk(v, l, id, db) && v.pglast == l.pglast && v.more == v0.more && v.freecnt == v0.freecnt
  {
    v := DeleteUsed(v0, l);
  }

  /** Write the record of the freed pages; the lists are then as in after[t]. */
  method SaveStep(v0: Loop, l0: Lists, id: TxnId, after: seq<Lists>, t0: nat, ghost db: map<TxnId, nat>)
    returns (v: Loop, t: nat)
    requires Plausible(l0, after, db.Keys) && t0 < |after|
    requires var l := ListsAt(l0, after, t0);
             LoopOk(v0, l, id, db) && ListsOk(l, db, id) && v0.pglast == l.pglast && v0.freecnt < l.freeLen
    ensures t0 < t <= |after| && LoopOk(v, ListsAt(l0, after, t), id, db) && v.more == v0.more
  {
    var l, n;
    v, l, n := SaveFreed(v0, ListsAt(l0, after, t0), id, after[t0..]);
    t := t0 + n;
    PlausibleAt(l0, after, db.Keys, t0, t);
    if v.freecnt != ListsAt(l0, after, t0).freeLen {
      ghost var i :| 0 <= i < n && v.freecnt == after[t0..][i].freeLen;
      PlausibleAt(l0, after, db.Keys, t0 + i + 1, t);
    }
  }

  /** The loop up to the decision whether enough is reserved: delete used
      records and save mt_free_pgs until both are up to date. */
  method BringUpToDate(v0: Loop, l0: Lists, id: TxnId, after: seq<Lists>, t0: nat, ghost db: map<TxnId, nat>)
    returns (v: Loop, t: nat, current: bool)
    requires Plausible(l0, after, db.Keys) && ListsOk(l0, db, id) && t0 <= |after|
    requires LoopOk(v0, ListsAt(l0, after, t0), id, db)
    ensures t0 <= t <= |after| && LoopOk(v, ListsAt(l0, after, t), id, db) && v.more == v0.more
    ensures current ==> v.pglast == ListsAt(l0, after, t).pglast && v.freecnt == ListsAt(l0, after, t).freeLen
    ensures !current ==> t == |after|
  {
    v, t, current := v0, t0, false;
    while true
      invariant t0 <= t <= |after| && LoopOk(v, ListsAt(l0, after, t), id, db) && v.more == v0.more
      decreases |after| - t
    {
      var l := ListsAt(l0, after, t);
      PlausibleLists(l0, after, db, id, t);
      v := DeleteStep(v, l, id, db);
      if v.freecnt == l.freeLen {
        current := true;
        return;
      }
      if t == |after| {
        return;
      }
      v, t := SaveStep(v, l0, id, after, t, db);
    }
  }

  lemma {:induction false} ReserveStep(v: Loop, l: Lists, l': Lists, id: TxnId, maxFree: nat, db: map<TxnId, nat>)
    requires LoopOk(v, l, id, db) && ListsOk(l, db, id) && v.pglast == l.pglast && v.totalRoom != l.mopLen
    requires Follows(l, l', db.Keys) && l.pglast < id
    ensures v.headId > 0 && LoopOk(ReserveOne(v, l.mopLen, maxFree), l', id, db)
  {
    ReserveOneKeeps(v, l.mopLen, maxFree);
  }

  /** Write one reserved record; the lists are then as in after[t]. */
  method ReserveNext(v0: Loop, l0: Lists, id: TxnId, maxFree: nat, after: seq<Lists>, t: nat,
                     ghost db: map<TxnId, nat>)
    returns (v: Loop)
    requires ListsOk(l0, db, id) && Plausible(l0, after, db.Keys) && t < |after|
    requires var l := ListsAt(l0, after, t);
             LoopOk(v0, l, id, db) && v0.pglast == l.pglast && v0.totalRoom != l.mopLen
    ensures LoopOk(v, after[t], id, db) && v.more == v0.more
    ensures Reserved(v0) && v0.headId > 0 && v == ReserveOne(v0, ListsAt(l0, after, t).mopLen, maxFree)
  {
    var l := ListsAt(l0, after, t);
    PlausibleLists(l0, after, db, id, t);
    assert Follows(l, after[t], db.Keys);
    ReserveStep(v0, l, after[t], id, maxFree, db);
    v := ReserveOne(v0, l.mopLen, maxFree);
  }

  /** Is enough reserved?  One time too much is not enough. */
  method EnoughRoom(v0: Loop, l: Lists, ghost id: TxnId, ghost db: map<TxnId, nat>) returns (v: Loop, enough: bool)
    requires 0 <= v0.more <= 1 && LoopOk(v0, l, id, db) && v0.pglast == l.pglast && v0.freecnt == l.freeLen
    ensures LoopOk(v, l, id, db) && v == v0.(more := v.more) && -1 <= v.more <= 1
    ensures enough ==> Settled(v, l, id) && (v.totalRoom == l.mopLen || v.more == -1)
    ensures !enough ==> v.totalRoom != l.mopLen && v.more >= 0
  {
    v, enough := v0, v0.totalRoom == l.mopLen;
    if v.totalRoom > l.mopLen {
      v := v.(more := v.more - 1);
      enough := v.more < 0;
    }
  }

  /** The reservation loop.  `after` lists the effects of the Put()s it makes, of
      which there are t; the result is `done` unless these run out first. */
  method Reserve(l0: Lists, db: map<TxnId, nat>, id: TxnId, maxFree: nat, after: seq<Lists>)
    returns (v: Loop, l: Lists, t: nat, done: bool)
    requires ListsOk(l0, db, id) && Plausible(l0, after, db.Keys)
    ensures t <= |after| && (!done ==> t == |after|)
    ensures done ==> l == ListsAt(l0, after, t) && Settled(v, l, id) && OthersKept(db, v, id)
    ensures -1 <= v.more <= 1 && (done ==> v.totalRoom == l.mopLen || v.more == -1)
  {
    v, l, t, done := Loop(db, 0, 0, 0, 0, 0, 1), l0, 0, false;
    assert RoomIn(db, 0, 0) == 0;
    while true
      invariant 0 <= t <= |after| && LoopOk(v, ListsAt(l0, after, t), id, db) && 0 <= v.more <= 1
      decreases |after| - t
    {
      var current;
      v, t, current := BringUpToDate(v, l0, id, after, t, db);
      if !current {
        return;
      }
      l := ListsAt(l0, after, t);
      v, done := EnoughRoom(v, l, id, db);
      if done {
        return;
      }
      if t == |after| {
        return;
      }
      v := ReserveNext(v, l0, id, maxFree, after, t, db);
      t := t + 1;
    }
  }

  // ----- filling -----

  function Min(a: nat, b: nat): nat {
    if a < b then a else b
  }

  /** The lists written into records with the given room, in key order: each
      takes what it has room for from the tail of the ids. */
  function Filled(ids: seq<Id>, rooms: seq<nat>): seq<seq<Id>>
    decreases |rooms|
  {
    if rooms == [] then []
    else
      var n := |ids| - Min(rooms[0], |ids|);
      [ids[n..]] + Filled(ids[..n], rooms[1..])
  }

  function ConcatReversed(lists: seq<seq<Id>>): seq<Id> {
    if lists == [] then [] else ConcatReversed(lists[1..]) + lists[0]
  }

  lemma {:induction false} ConcatHead(head: seq<Id>, rest: seq<seq<Id>>)
    ensures ConcatReversed([head] + rest) == ConcatReversed(rest) + head
  {
    assert ([head] + rest)[1..] == rest;
  }

  /** With room enough every id is written, once and in order. */
  lemma {:induction false} FilledIsComplete(ids: seq<Id>, rooms: seq<nat>)
    requires Sum(rooms) >= |ids|
    ensures |Filled(ids, rooms)| == |rooms| && ConcatReversed(Filled(ids, rooms)) == ids
    decreases |rooms|
  {
    if rooms != [] {
      var n := |ids| - Min(rooms[0], |ids|);
      var rest := Filled(ids[..n], rooms[1..]);
      SumSplit(rooms, 0);
      assert rooms[0..] == rooms && rooms[..0] == [];
      FilledIsComplete(ids[..n], rooms[1..]);
      ConcatHead(ids[n..], rest);
      assert ids[..n] + ids[n..] == ids;
    }
  }

  lemma {:induction false} PartsDisjoint(ids: seq<Id>, n: nat, part: seq<Id>)
    requires StrictlyDescending(ids) && n <= |ids| && forall v :: v in part ==> v in ids[..n]
    ensures Elements(part) !! Elements(ids[n..])
  {
    assert forall v :: v in part ==> v in ids[..n] && v !in ids[n..];
  }

  /** Every list fits its record and stays strictly descending. */
  lemma {:induction false} FilledLists(ids: seq<Id>, rooms: seq<nat>, i: nat)
    requires StrictlyDescending(ids) && i < |rooms|
    ensures |Filled(ids, rooms)| == |rooms| && |Filled(ids, rooms)[i]| <= rooms[i]
    ensures StrictlyDescending(Filled(ids, rooms)[i]) && forall v :: v in Filled(ids, rooms)[i] ==> v in ids
    decreases |rooms|
  {
    var n := |ids| - Min(rooms[0], |ids|);
    FilledCount(ids, rooms);
    if i > 0 {
      FilledLists(ids[..n], rooms[1..], i - 1);
      assert Filled(ids, rooms)[i] == Filled(ids[..n], rooms[1..])[i - 1];
    }
  }

  /** No two lists share an id. */
  lemma {:induction false} FilledDisjoint(ids: seq<Id>, rooms: seq<nat>, i: nat, j: nat)
    requires StrictlyDescending(ids) && i < j < |rooms|
    ensures |Filled(ids, rooms)| == |rooms|
    ensures Elements(Filled(ids, rooms)[i]) !! Elements(Filled(ids, rooms)[j])
    decreases |rooms|
  {
    var n := |ids| - Min(rooms[0], |ids|);
    FilledCount(ids, rooms);
    FilledCount(ids[..n], rooms[1..]);
    assert Filled(ids, rooms)[j] == Filled(ids[..n], rooms[1..])[j - 1];
    if i > 0 {
      FilledDisjoint(ids[..n], rooms[1..], i - 1, j - 1);
    } else {
      FilledLists(ids[..n], rooms[1..], j - 1);
      PartsDisjoint(ids, n, Filled(ids, rooms)[j]);
    }
  }

  lemma {:induction false} FilledCount(ids: seq<Id>, rooms: seq<nat>)
    ensures |Filled(ids, rooms)| == |rooms|
    decreases |rooms|
  {
    if rooms != [] {
      FilledCount(ids[..|ids| - Min(rooms[0], |ids|)], rooms[1..]);
    }
  }

  lemma {:induction false} FilledFromNothing(rooms: seq<nat>)
    ensures Filled([], rooms) == seq(|rooms|, _ => [])
  {
    if rooms != [] {
      FilledFromNothing(rooms[1..]);
    }
  }

  /** Write one record: slot `pos` is borrowed for the count, the record is
      copied out, and the slot is restored. */
  method WriteRecord(mop: array<Id>, pos: nat, len: nat) returns (record: seq<Id>)
    requires pos + len < mop.Length
    modifies mop
    ensures mop[..] == old(mop[..])
    ensures record == [len] + old(mop[pos + 1..pos + len + 1])
  {
    var save := mop[pos];
    mop[pos] := len;
    record := mop[pos..pos + len + 1];
    mop[pos] := save;
  }

  /** An id list as it is stored: the count, then the ids. */
  function Stored(list: seq<Id>): seq<Id> {
    [|list|] + list
  }

  lemma {:induction false} PartOfIds(s: seq<Id>, n: nat, a: nat, b: nat)
    requires a <= b <= n < |s|
    ensures s[a + 1..b + 1] == s[1..n + 1][a..b]
  {
    var t, u := s[a + 1..b + 1], s[1..n + 1][a..b];
    assert forall k :: 0 <= k < b - a ==> t[k] == u[k];
  }

  /** The record with the ids from `left - len` up to `left` of the list. */
  method WriteList(mop: array<Id>, left: nat, len: nat, ghost ids: seq<Id>) returns (record: seq<Id>)
    requires Valid(mop) && len <= left <= mop[0] && ids == Ids(mop)
    modifies mop
    ensures mop[..] == old(mop[..]) && Valid(mop) && Ids(mop) == ids && record == Stored(ids[left - len..left])
  {
    PartOfIds(mop[..], mop[0], left - len, left);
    record := WriteRecord(mop, left - len, len);
  }

  lemma {:induction false} FilledStep(ids: seq<Id>, rooms: seq<nat>, left: nat, i: nat, len: nat)
    requires left <= |ids| && i < |rooms| && len == Min(rooms[i], left)
    ensures Filled(ids[..left], rooms[i..]) == [ids[left - len..left]] + Filled(ids[..left - len], rooms[i + 1..])
  {
    assert ids[..left][left - len..] == ids[left - len..left] && ids[..left][..left - len] == ids[..left - len];
    assert rooms[i..][1..] == rooms[i + 1..];
  }

  /** State of the fill loop: the first i records hold their lists, the others
      the empty list written when they were reserved. */
  ghost predicate FillInv(records: seq<seq<Id>>, ids: seq<Id>, rooms: seq<nat>, i: nat, left: nat,
                          lists: seq<seq<Id>>) {
    && i <= |rooms| == |records| && left <= |ids| && |lists| == i
    && lists + Filled(ids[..left], rooms[i..]) == Filled(ids, rooms)
    && (forall k :: 0 <= k < i ==> records[k] == Stored(lists[k]))
    && (forall k :: i <= k < |records| ==> records[k] == [0])
  }

  lemma {:induction false} FillStart(records: seq<seq<Id>>, ids: seq<Id>, rooms: seq<nat>)
    requires |records| == |rooms| && forall k :: 0 <= k < |records| ==> records[k] == [0]
    ensures FillInv(records, ids, rooms, 0, |ids|, [])
  {
    assert ids[..|ids|] == ids && rooms[0..] == rooms;
  }

  lemma {:induction false} FillStep(records: seq<seq<Id>>, ids: seq<Id>, rooms: seq<nat>, i: nat, left: nat,
                                    lists: seq<seq<Id>>, record: seq<Id>)
    requires FillInv(records, ids, rooms, i, left, lists) && i < |rooms|
    requires record == Stored(ids[left - Min(rooms[i], left)..left])
    ensures FillInv(records[i := record], ids, rooms, i + 1, left - Min(rooms[i], left),
                    lists + [ids[left - Min(rooms[i], left)..left]])
  {
    FilledStep(ids, rooms, left, i, Min(rooms[i], left));
  }

  lemma {:induction false} FillDone(records: seq<seq<Id>>, ids: seq<Id>, rooms: seq<nat>, i: nat, left: nat,
                                    lists: seq<seq<Id>>)
    requires FillInv(records, ids, rooms, i, left, lists) && (i == |rooms| || left == 0)
    ensures |Filled(ids, rooms)| == |rooms|
    ensures forall k :: 0 <= k < |rooms| ==> records[k] == Stored(Filled(ids, rooms)[k])
  {
    FilledCount(ids, rooms);
    if left == 0 {
      assert ids[..left] == [];
      FilledFromNothing(rooms[i..]);
    }
  }

  /** One turn of the fill loop. */
  method FillOne(mop: array<Id>, records: seq<seq<Id>>, rooms: seq<nat>, i: nat, left: nat, ghost ids: seq<Id>,
                 ghost lists: seq<seq<Id>>)
    returns (filled: seq<seq<Id>>, len: nat)
    requires Valid(mop) && Ids(mop) == ids && FillInv(records, ids, rooms, i, left, lists) && i < |rooms|
    modifies mop
    ensures mop[..] == old(mop[..]) && Valid(mop) && Ids(mop) == ids && len <= left <= |ids|
    ensures FillInv(filled, ids, rooms, i + 1, left - len, lists + [ids[left - len..left]])
  {
    len := if rooms[i] > left then left else rooms[i];
    var record := WriteList(mop, left, len, ids);
    FillStep(records, ids, rooms, i, left, lists, record);
    filled := records[i := record];
  }

  /** The fill loop: the records, in key order, as they end up in the freeDB. */
  method Fill(mop: array<Id>, rooms: seq<nat>) returns (records: seq<seq<Id>>)
    requires Valid(mop)
    modifies mop
    ensures mop[..] == old(mop[..])
    ensures |records| == |rooms| == |Filled(Ids(mop), rooms)|
    ensures forall k :: 0 <= k < |rooms| ==> records[k] == Stored(Filled(Ids(mop), rooms)[k])
  {
    ghost var ids, before := Ids(mop), mop[..];
    ghost var lists: seq<seq<Id>> := [];
    records := seq(|rooms|, _ => [0]);
    var left: nat, i: nat := mop[0], 0;
    FillStart(records, ids, rooms);
    while i < |rooms| && left > 0
      invariant mop[..] == before && Valid(mop) && Ids(mop) == ids && FillInv(records, ids, rooms, i, left, lists)
    {
      var len;
      records, len := FillOne(mop, records, rooms, i, left, ids, lists);
      lists := lists + [ids[left - len..left]];
      left, i := left - len, i + 1;
    }
    FillDone(records, ids, rooms, i, left, lists);
  }

  // ----- returning loose pages -----

  lemma {:induction false} SortedDistinct(s: seq<Id>, t: seq<Id>)
    requires multiset(s) == multiset(t) && Distinct(t) && Descending(s)
    ensures StrictlyDescending(s) && Elements(s) == Elements(t)
  {
    forall v
      ensures v in s <==> v in t
    {
      assert v in s <==> v in multiset(s);
      assert v in t <==> v in multiset(t);
    }
    forall i, j | 0 <= i < j < |s|
      ensures s[i] > s[j]
    {
      if s[i] == s[j] {
        assert multiset(s)[s[i]] >= 2 by {
          assert s == s[..j] + [s[j]] + s[j + 1..];
          assert s[i] in s[..j];
        }
        AtMostOnce(t, s[i]);
      }
    }
  }

  lemma {:induction false} AtMostOnce(t: seq<Id>, v: Id)
    requires Distinct(t)
    ensures multiset(t)[v] <= 1
  {
    if t != [] {
      AtMostOnce(t[..|t| - 1], v);
      assert t == t[..|t| - 1] + [t[|t| - 1]];
      if t[|t| - 1] == v {
        assert v !in t[..|t| - 1];
      }
    }
  }

  /** The end of the round that saves mt_free_pgs, once the Put() no longer made it
      grow: the list is sorted and copied into the record, which then lists every
      freed page once. */
  method WriteFreed(v: Loop, id: TxnId, freePgs: array<Id>) returns (record: seq<Id>)
    requires Valid(freePgs) && Distinct(Ids(freePgs)) && freePgs[0] < IdSort.INT_LIMIT
    requires id in v.db && v.db[id] == v.freecnt == freePgs[0]
    modifies freePgs
    ensures Valid(freePgs) && |record| == v.db[id] + 1 && record[0] == v.db[id] && record[1..] == Ids(freePgs)
    ensures StrictlyDescending(record[1..]) && Elements(record[1..]) == old(Elements(Ids(freePgs)))
  {
    ghost var ids := Ids(freePgs);
    IdSort.Sort(freePgs, 0);
    record := freePgs[..v.freecnt + 1];
    assert record[1..] == freePgs[1..freePgs[0] + 1];
    SortedDistinct(Ids(freePgs), ids);
  }

  /** Build the temporary list of the loose pages in the last slots of `mop`. */
  method StoreLoose(mop: array<Id>, at: nat, loose: seq<Id>)
    requires at + |loose| < mop.Length
    modifies mop
    ensures mop[at] == |loose| && mop[at + 1..at + 1 + |loose|] == loose
    ensures forall k :: 0 <= k < at ==> mop[k] == old(mop[k])
  {
    var count := 0;
    while count < |loose|
      invariant 0 <= count <= |loose|
      invariant forall k :: at < k <= at + count ==> mop[k] == loose[k - at - 1]
      invariant forall k :: 0 <= k < at ==> mop[k] == old(mop[k])
    {
      count := count + 1;
      mop[at + count] := loose[count - 1];
    }
    mop[at] := |loose|;
  }

  /** Sort the temporary list at slot `at`. */
  method SortLoose(mop: array<Id>, at: nat, ghost loose: seq<Id>)
    requires at + |loose| < mop.Length
    requires mop[at] == |loose| < IdSort.INT_LIMIT && mop[at + 1..at + 1 + |loose|] == loose && Distinct(loose)
    requires forall v :: v in Elements(loose) ==> v <= MAX_ID
    modifies mop
    ensures mop[at] == |loose| && forall k :: 0 <= k < at ==> mop[k] == old(mop[k])
    ensures StrictlyDescending(mop[at + 1..at + 1 + |loose|])
    ensures Elements(mop[at + 1..at + 1 + |loose|]) == Elements(loose)
    ensures forall k :: at < k <= at + |loose| ==> mop[k] <= MAX_ID
  {
    IdSort.Sort(mop, at);
    ghost var ys := mop[at + 1..at + 1 + |loose|];
    SortedDistinct(ys, loose);
    forall k | at < k <= at + |loose|
      ensures mop[k] <= MAX_ID
    {
      assert mop[k] == ys[k - at - 1];
      assert mop[k] in Elements(ys);
    }
  }

  /** Sort the temporary list at slot `at` and merge it into the list at slot 0. */
  method SortAndMerge(mop: array<Id>, at: nat, ghost xs: seq<Id>, ghost loose: seq<Id>)
    requires Valid(mop) && Ids(mop) == xs && StrictlyDescending(xs)
    requires |xs| + |loose| < at && at + |loose| < mop.Length
    requires mop[at] == |loose| < IdSort.INT_LIMIT && mop[at + 1..at + 1 + |loose|] == loose
    requires Distinct(loose) && Elements(loose) !! Elements(xs) && forall v :: v in Elements(loose) ==> v <= MAX_ID
    modifies mop
    ensures Valid(mop) && StrictlyDescending(Ids(mop)) && Elements(Ids(mop)) == Elements(xs) + Elements(loose)
    ensures |Ids(mop)| == |xs| + |loose|
  {
    SortLoose(mop, at, loose);
    assert Ids(mop) == xs;
    MergeLoose(mop, at, xs, mop[at + 1..at + 1 + |loose|]);
  }

  method MergeLoose(mop: array<Id>, at: nat, ghost xs: seq<Id>, ghost ys: seq<Id>)
    requires Valid(mop) && Ids(mop) == xs && StrictlyDescending(xs) && |xs| + |ys| < at && at + |ys| < mop.Length
    requires mop[at] == |ys| && mop[at + 1..at + 1 + |ys|] == ys && StrictlyDescending(ys)
    requires Elements(xs) !! Elements(ys) && forall k :: at < k <= at + |ys| ==> mop[k] <= MAX_ID
    modifies mop
    ensures Valid(mop) && StrictlyDescending(Ids(mop)) && Elements(Ids(mop)) == Elements(xs) + Elements(ys)
    ensures |Ids(mop)| == |xs| + |ys|
  {
    XMerge(mop, mop, at);
    assert Ids(mop) == Merge(xs, ys);
    MergeIsUnion(xs, ys);
  }

  /** Return loose page numbers to me_pghead: the temporary list lies in the same
      array, behind everything the merge writes. */
  method ReturnLoose(pghead: array<Id>, loose: seq<Id>) returns (mop: array<Id>)
    requires Valid(pghead) && StrictlyDescending(Ids(pghead))
    requires Distinct(loose) && Elements(loose) !! Elements(Ids(pghead)) && |loose| < IdSort.INT_LIMIT
    requires forall v :: v in Elements(loose) ==> v <= MAX_ID
    modifies pghead
    ensures Valid(mop) && StrictlyDescending(Ids(mop))
    ensures Elements(Ids(mop)) == old(Elements(Ids(pghead))) + Elements(loose)
    ensures |Ids(mop)| == |old(Ids(pghead))| + |loose|
  {
    ghost var xs := Ids(pghead);
    mop := Need(pghead, 2 * |loose| + 1);
    var at := mop.Length - 1 - |loose|;
    StoreLoose(mop, at, loose);
    assert Ids(mop) == xs;
    SortAndMerge(mop, at, xs, loose);
  }

  // ----- what the save leaves behind -----

  /** Room of the records under the keys lo, ..., hi, in key order. */
  function RoomsIn(db: map<TxnId, nat>, lo: nat, hi: nat): seq<nat>
    decreases hi + 1 - lo
  {
    if lo > hi then [] else (if lo in db then [db[lo]] else []) + RoomsIn(db, lo + 1, hi)
  }

  lemma {:induction false} SumFirst(x: nat, rest: seq<nat>)
    ensures Sum([x] + rest) == x + Sum(rest)
  {
    SumAppend([x], rest);
    SumOne([x]);
  }

  lemma {:induction false} RoomsInSum(db: map<TxnId, nat>, lo: nat, hi: nat)
    ensures Sum(RoomsIn(db, lo, hi)) == RoomIn(db, lo, hi)
    decreases hi + 1 - lo
  {
    if lo <= hi {
      RoomsInSum(db, lo + 1, hi);
      var rest := RoomsIn(db, lo + 1, hi);
      if lo in db {
        assert RoomsIn(db, lo, hi) == [db[lo]] + rest;
        SumFirst(db[lo], rest);
      } else {
        assert RoomsIn(db, lo, hi) == rest;
      }
    }
  }

  /** Position of key k among the keys lo, ..., hi of the freeDB. */
  function PositionOf(db: map<TxnId, nat>, lo: nat, k: TxnId): nat
    requires lo <= k
    decreases k - lo
  {
    if lo == k then 0 else (if lo in db then 1 else 0) + PositionOf(db, lo + 1, k)
  }

  /** The page sets under the keys lo, ..., hi once the records are filled. */
  ghost function Leftover(ids: seq<Id>, db: map<TxnId, nat>, lo: nat, hi: nat): map<TxnId, set<Pgno>>
    decreases hi + 1 - lo
  {
    if lo > hi then map[]
    else if lo !in db then Leftover(ids, db, lo + 1, hi)
    else
      var n := |ids| - Min(db[lo], |ids|);
      Leftover(ids[..n], db, lo + 1, hi)[lo := Elements(ids[n..])]
  }

  /** These are the lists the fill loop writes. */
  lemma {:induction false} LeftoverIsFilled(ids: seq<Id>, db: map<TxnId, nat>, lo: nat, hi: nat, k: TxnId)
    requires lo <= k <= hi && k in db
    ensures var lists := Filled(ids, RoomsIn(db, lo, hi));
            var i := PositionOf(db, lo, k);
            i < |lists| && k in Leftover(ids, db, lo, hi) && Leftover(ids, db, lo, hi)[k] == Elements(lists[i])
    decreases hi + 1 - lo
  {
    var rooms := RoomsIn(db, lo, hi);
    if lo in db {
      var n := |ids| - Min(db[lo], |ids|);
      assert rooms[0] == db[lo] && rooms[1..] == RoomsIn(db, lo + 1, hi);
      if lo < k {
        LeftoverIsFilled(ids[..n], db, lo + 1, hi, k);
      }
    } else {
      assert rooms == RoomsIn(db, lo + 1, hi);
      LeftoverIsFilled(ids, db, lo + 1, hi, k);
    }
  }

  lemma {:induction false} LeftoverPages(ids: seq<Id>, db: map<TxnId, nat>, lo: nat, hi: nat)
    requires StrictlyDescending(ids)
    ensures var left := Leftover(ids, db, lo, hi);
            && (forall k :: k in left ==> lo <= k <= hi && k in db && left[k] <= Elements(ids))
            && (forall j, k :: j in left && k in left && j < k ==> left[j] !! left[k])
    decreases hi + 1 - lo
  {
    if lo > hi {
    } else if lo !in db {
      LeftoverPages(ids, db, lo + 1, hi);
    } else {
      var n := |ids| - Min(db[lo], |ids|);
      var head, tail := ids[..n], ids[n..];
      assert ids == head + tail;
      assert Elements(head) !! Elements(tail);
      LeftoverPages(head, db, lo + 1, hi);
    }
  }

  lemma {:induction false} LeftoverCovers(ids: seq<Id>, db: map<TxnId, nat>, lo: nat, hi: nat, p: Pgno)
    returns (k: TxnId)
    requires RoomIn(db, lo, hi) >= |ids| && p in ids
    ensures lo <= k && k in Leftover(ids, db, lo, hi) && p in Leftover(ids, db, lo, hi)[k]
    decreases hi + 1 - lo
  {
    if lo !in db {
      k := LeftoverCovers(ids, db, lo + 1, hi, p);
    } else {
      var n := |ids| - Min(db[lo], |ids|);
      assert ids == ids[..n] + ids[n..];
      if p in ids[n..] {
        k := lo;
      } else {
        k := LeftoverCovers(ids[..n], db, lo + 1, hi, p);
      }
    }
  }

  /** When the reservation loop has settled, the filled records list every page
      of the reclaimed and the loose list exactly once, under keys in
      [1, me_pglast]: this is the state the accounts continue from. */
  lemma {:induction false} SaveLeavesLeftover(a: Accounts, v: Loop, l: Lists, id: TxnId, ids: seq<Id>)
    requires Settled(v, l, id) && |ids| == l.mopLen && a.last == v.pglast
    requires StrictlyDescending(ids) && Elements(ids) == a.head + a.loose
    ensures IsLeftover(a, Leftover(ids, v.db, v.headId, v.pglast))
  {
    var left := Leftover(ids, v.db, v.headId, v.pglast);
    LeftoverPages(ids, v.db, v.headId, v.pglast);
    forall p
      ensures p in Listed(left, 0) <==> p in a.head + a.loose
    {
      if p in a.head + a.loose {
        assert p in Elements(ids);
        var k := LeftoverCovers(ids, v.db, v.headId, v.pglast, p);
        assert k > 0;
      }
    }
  }

  /** Lists in records with the given room: each fits its record and descends, no
      two share an id, and together they are the ids. */
  ghost predicate Distributed(lists: seq<seq<Id>>, rooms: seq<nat>, ids: seq<Id>) {
    && |lists| == |rooms| && ConcatReversed(lists) == ids
    && (forall i :: 0 <= i < |lists| ==> |lists[i]| <= rooms[i] && StrictlyDescending(lists[i]))
    && (forall i, j :: 0 <= i < j < |lists| ==> Elements(lists[i]) !! Elements(lists[j]))
    && (forall i, j :: 0 <= i < j < |lists| && lists[j] != [] ==> |lists[i]| == rooms[i])
  }

  /** A record is filled up before the next one gets anything. */
  lemma {:induction false} FilledInOrder(ids: seq<Id>, rooms: seq<nat>, i: nat, j: nat)
    requires i < j < |rooms|
    ensures |Filled(ids, rooms)| == |rooms|
    ensures Filled(ids, rooms)[j] != [] ==> |Filled(ids, rooms)[i]| == rooms[i]
    decreases |rooms|
  {
    FilledCount(ids, rooms);
    var n := |ids| - Min(rooms[0], |ids|);
    FilledCount(ids[..n], rooms[1..]);
    if i > 0 {
      FilledInOrder(ids[..n], rooms[1..], i - 1, j - 1);
    } else if n == 0 {
      assert ids[..n] == [];
      FilledFromNothing(rooms[1..]);
    }
  }

  lemma {:induction false} FilledIsDistributed(ids: seq<Id>, rooms: seq<nat>)
    requires StrictlyDescending(ids) && Sum(rooms) >= |ids|
    ensures Distributed(Filled(ids, rooms), rooms, ids)
  {
    FilledIsComplete(ids, rooms);
    forall i, j | 0 <= i < j < |rooms| && Filled(ids, rooms)[j] != []
      ensures |Filled(ids, rooms)[i]| == rooms[i]
    {
      FilledInOrder(ids, rooms, i, j);
    }
    forall j | 0 <= j < |rooms|
      ensures |Filled(ids, rooms)[j]| <= rooms[j] && StrictlyDescending(Filled(ids, rooms)[j])
    {
      FilledLists(ids, rooms, j);
    }
    forall i, j | 0 <= i < j < |rooms|
      ensures Elements(Filled(ids, rooms)[i]) !! Elements(Filled(ids, rooms)[j])
    {
      FilledDisjoint(ids, rooms, i, j);
    }
  }

  /** The lists written at the end are distributed over the reserved records, and
      the page sets under the records' keys are what the accounts continue from. */
  ghost predicate Saved(a: Accounts, v: Loop, ids: seq<Id>, lists: seq<seq<Id>>) {
    var left := Leftover(ids, v.db, v.headId, v.pglast);
    && Distributed(lists, RoomsIn(v.db, v.headId, v.pglast), ids)
    && IsLeftover(a, left)
    && forall k :: v.headId <= k <= v.pglast && k in v.db ==>
         var i := PositionOf(v.db, v.headId, k); i < |lists| && k in left && left[k] == Elements(lists[i])
  }

  /** Once the reservation loop has settled, there is room for everything. */
  lemma {:induction false} SettledIsSaved(a: Accounts, v: Loop, l: Lists, id: TxnId, ids: seq<Id>)
    requires Settled(v, l, id) && |ids| == l.mopLen && a.last == v.pglast
    requires StrictlyDescending(ids) && Elements(ids) == a.head + a.loose
    ensures Saved(a, v, ids, Filled(ids, RoomsIn(v.db, v.headId, v.pglast)))
  {
    var lists := Filled(ids, RoomsIn(v.db, v.headId, v.pglast));
    RoomsInSum(v.db, v.headId, v.pglast);
    FilledIsDistributed(ids, RoomsIn(v.db, v.headId, v.pglast));
    SaveLeavesLeftover(a, v, l, id, ids);
    forall k | v.headId <= k <= v.pglast && k in v.db
      ensures PositionOf(v.db, v.headId, k) < |lists| && k in Leftover(ids, v.db, v.headId, v.pglast)
      ensures Leftover(ids, v.db, v.headId, v.pglast)[k] == Elements(lists[PositionOf(v.db, v.headId, k)])
    {
      LeftoverIsFilled(ids, v.db, v.headId, v.pglast, k);
    }
  }

  /** The end of mdb_freelist_save: the records the fill loop writes once the
      reservation loop has settled. */
  method FillReserved(mop: array<Id>, v: Loop, l: Lists, id: TxnId, ghost a: Accounts)
    returns (records: seq<seq<Id>>, ghost lists: seq<seq<Id>>)
    requires Settled(v, l, id) && a.last == v.pglast
    requires Valid(mop) && mop[0] == l.mopLen && StrictlyDescending(Ids(mop)) && Elements(Ids(mop)) == a.head + a.loose
    modifies mop
    ensures mop[..] == old(mop[..]) && |records| == |lists|
    ensures forall i :: 0 <= i < |records| ==> records[i] == Stored(lists[i])
    ensures Saved(a, v, old(Ids(mop)), lists)
  {
    lists := Filled(Ids(mop), RoomsIn(v.db, v.headId, v.pglast));
    SettledIsSaved(a, v, l, id, Ids(mop));
    records := Fill(mop, RoomsIn(v.db, v.headId, v.pglast));
  }
}
