/** ID lists (midl): arrays of ids in descending order with the count in slot 0.

    The allocated length, which the source keeps in slot -1, is the number of
    slots after slot 0, that is `ids.Length - 1`. */
module IdList {
  type Id = nat

  /** (MDB_ID)-1: the largest id, and the sentinel of the merge. */
  const MAX_ID: Id := 0xFFFF_FFFF_FFFF_FFFF

  /** MDB_IDL_UM_MAX */
  const UM_MAX: nat := 0x1_FFFF

  ghost predicate Valid(ids: array<Id>)
    reads ids
  {
    ids.Length > 0 && ids[0] < ids.Length
  }

  /** The ids of a list, without the count. */
  ghost function Ids(ids: array<Id>): seq<Id>
    requires Valid(ids)
    reads ids
  {
    ids[1..ids[0] + 1]
  }

  ghost predicate Descending(s: seq<Id>) {
    forall i, j :: 0 <= i < j < |s| ==> s[i] >= s[j]
  }

  ghost predicate Distinct(s: seq<Id>) {
    forall i, j :: 0 <= i < j < |s| ==> s[i] != s[j]
  }

  ghost predicate StrictlyDescending(s: seq<Id>) {
    forall i, j :: 0 <= i < j < |s| ==> s[i] > s[j]
  }

  // ----- search -----

  /** Binary search in a descending list.  Returns a position of `id` if it is
      present, otherwise the position of the first smaller id. */
  method Search(ids: array<Id>, id: Id) returns (pos: nat)
    requires Valid(ids) && Descending(Ids(ids))
    ensures 1 <= pos <= ids[0] + 1
    ensures id in Ids(ids) <==> pos <= ids[0] && ids[pos] == id
    ensures id !in Ids(ids) ==>
              (forall k :: 1 <= k < pos ==> ids[k] > id) && (forall k :: pos <= k <= ids[0] ==> ids[k] < id)
  {
    ghost var s := Ids(ids);
    assert forall k :: 0 <= k < |s| ==> s[k] == ids[k + 1];
    var base, cursor, val, n := 0, 1, 0, ids[0];
    while 0 < n
      invariant 0 <= base && 0 <= n && base + n <= ids[0]
      invariant forall k :: 1 <= k <= base ==> ids[k] > id
      invariant forall k :: base + n < k <= ids[0] ==> ids[k] < id
      invariant val < 0 ==> cursor == base + n + 1
      invariant val > 0 ==> cursor == base
      invariant val == 0 ==> cursor == 1 && base == 0 && n == ids[0]
    {
      var pivot := n / 2;
      cursor := base + pivot + 1;
      val := if ids[cursor] < id then -1 else if ids[cursor] > id then 1 else 0;
      if val < 0 {
        forall k | cursor <= k <= ids[0]
          ensures ids[k] < id
        {
          assert s[cursor - 1] >= s[k - 1];
        }
        n := pivot;
      } else if val > 0 {
        forall k | 1 <= k <= cursor
          ensures ids[k] > id
        {
          assert s[k - 1] >= s[cursor - 1];
        }
        base := cursor;
        n := n - (pivot + 1);
      } else {
        assert s[cursor - 1] == id;
        return cursor;
      }
    }
    if val > 0 {
      cursor := cursor + 1;
    }
    return cursor;
  }

  // ----- growing and appending -----

  /** realloc: `slots` slots after slot 0, same ids. */
  method Reallocated(ids: array<Id>, slots: nat) returns (r: array<Id>)
    requires Valid(ids) && ids[0] <= slots
    ensures fresh(r) && Valid(r) && r.Length == slots + 1 && Ids(r) == Ids(ids)
  {
    r := new Id[slots + 1](_ => 0);
    var n := ids[0];
    for k := 0 to n + 1
      invariant forall m :: 0 <= m < k ==> r[m] == ids[m]
    {
      r[k] := ids[k];
    }
  }

  /** mdb_midl_need: make room for `num` more ids. */
  method Need(ids: array<Id>, num: nat) returns (r: array<Id>)
    requires Valid(ids)
    ensures Valid(r) && Ids(r) == Ids(ids)
    ensures r == ids || fresh(r)
    ensures r[0] + num < r.Length
  {
    r := ids;
    var want := num + ids[0];
    if want > ids.Length - 1 {
      want := (want + want / 4 + (256 + 2)) / 256 * 256;
      r := Reallocated(ids, want - 2);
    }
  }

  method Append(ids: array<Id>, id: Id) returns (r: array<Id>)
    requires Valid(ids)
    modifies ids
    ensures Valid(r) && Ids(r) == old(Ids(ids)) + [id]
    ensures r == ids || fresh(r)
  {
    r := ids;
    if ids[0] >= ids.Length - 1 {
      r := Reallocated(ids, ids.Length - 1 + UM_MAX);
    }
    r[0] := r[0] + 1;
    r[r[0]] := id;
  }

  /** memcpy of the ids of `app` to the slots after slot `len`. */
  method CopyIds(r: array<Id>, len: nat, app: array<Id>)
    requires Valid(app) && r != app && len + app[0] < r.Length
    modifies r
    ensures r[..] == old(r[..len + 1]) + Ids(app) + old(r[len + app[0] + 1..])
  {
    var n := app[0];
    for k := 0 to n
      invariant forall m :: 0 <= m <= len ==> r[m] == old(r[m])
      invariant forall m :: len < m <= len + k ==> r[m] == app[m - len]
      invariant forall m :: len + n < m < r.Length ==> r[m] == old(r[m])
    {
      r[len + 1 + k] := app[1 + k];
    }
  }

  method AppendList(ids: array<Id>, app: array<Id>) returns (r: array<Id>)
    requires Valid(ids) && Valid(app) && ids != app
    modifies ids
    ensures Valid(r) && Ids(r) == old(Ids(ids)) + Ids(app)
    ensures r == ids || fresh(r)
  {
    r := ids;
    if ids[0] + app[0] >= ids.Length - 1 {
      r := Reallocated(ids, ids.Length - 1 + app[0]);
    }
    var len, n := r[0], app[0];
    assert r[1..len + 1] == old(Ids(ids));
    ghost var before := r[..];
    CopyIds(r, len, app);
    r[0] := len + n;
    assert r[1..len + n + 1] == before[1..len + 1] + Ids(app);
  }

  /** The ids id + n - 1, ..., id + 1, id. */
  function DescendingRange(id: nat, n: nat): seq<Id> {
    seq(n, i requires 0 <= i < n => id + n - 1 - i)
  }

  /** n | MDB_IDL_UM_MAX */
  function OrUmMax(n: nat): (r: nat)
    ensures r >= n && r >= UM_MAX
  {
    n / (UM_MAX + 1) * (UM_MAX + 1) + UM_MAX
  }

  /** Store id + n - 1, ..., id in the `n` slots after slot `len`. */
  method FillRange(r: array<Id>, len: nat, id: Id, n: nat)
    requires len + n < r.Length
    modifies r
    ensures forall m :: 0 <= m <= len || len + n < m < r.Length ==> r[m] == old(r[m])
    ensures forall m :: len < m <= len + n ==> r[m] == id + n - (m - len)
  {
    var k, next := n, id;
    while k > 0
      invariant 0 <= k <= n && next == id + n - k
      invariant forall m :: 0 <= m <= len + k ==> r[m] == old(r[m])
      invariant forall m :: len + k < m <= len + n ==> r[m] == id + n - (m - len)
      invariant forall m :: len + n < m < r.Length ==> r[m] == old(r[m])
    {
      r[len + k] := next;
      k, next := k - 1, next + 1;
    }
  }

  method AppendRange(ids: array<Id>, id: Id, n: nat) returns (r: array<Id>)
    requires Valid(ids)
    modifies ids
    ensures Valid(r) && Ids(r) == old(Ids(ids)) + DescendingRange(id, n)
    ensures r == ids || fresh(r)
  {
    r := ids;
    var len := ids[0];
    if len + n > ids.Length - 1 {
      r := Reallocated(ids, ids.Length - 1 + OrUmMax(n));
    }
    r[0] := len + n;
    assert r[1..len + 1] == old(Ids(ids));
    ghost var before := r[1..len + 1];
    FillRange(r, len, id, n);
    assert r[1..len + n + 1] == before + DescendingRange(id, n);
  }

  // ----- merging -----

  /** Merge of two descending lists, described from the tails. */
  function Merge(xs: seq<Id>, ys: seq<Id>): seq<Id>
    decreases |xs| + |ys|
  {
    if ys == [] then xs
    else if xs == [] then ys
    else
      var x, y := xs[|xs| - 1], ys[|ys| - 1];
      if x < y then Merge(xs[..|xs| - 1], ys) + [x] else Merge(xs, ys[..|ys| - 1]) + [y]
  }

  lemma {:induction false} MergeLength(xs: seq<Id>, ys: seq<Id>)
    ensures |Merge(xs, ys)| == |xs| + |ys|
    decreases |xs| + |ys|
  {
    if ys != [] && xs != [] {
      MergeLength(xs[..|xs| - 1], ys);
      MergeLength(xs, ys[..|ys| - 1]);
    }
  }

  ghost function Elements(s: seq<Id>): set<Id> {
    set x | x in s
  }

  lemma {:induction false} SnocElements(s: seq<Id>, x: Id)
    ensures Elements(s + [x]) == Elements(s) + {x}
  {
  }

  lemma {:induction false} MergeElements(xs: seq<Id>, ys: seq<Id>)
    ensures Elements(Merge(xs, ys)) == Elements(xs) + Elements(ys)
    decreases |xs| + |ys|
  {
    if ys != [] && xs != [] {
      var x, y := xs[|xs| - 1], ys[|ys| - 1];
      var xs', ys' := xs[..|xs| - 1], ys[..|ys| - 1];
      assert xs == xs' + [x] && ys == ys' + [y];
      SnocElements(xs', x);
      SnocElements(ys', y);
      if x < y {
        MergeElements(xs', ys);
        SnocElements(Merge(xs', ys), x);
      } else {
        MergeElements(xs, ys');
        SnocElements(Merge(xs, ys'), y);
      }
    }
  }

  /** Merging disjoint lists is a disjoint union that stays strictly descending. */
  lemma {:induction false} MergeIsUnion(xs: seq<Id>, ys: seq<Id>)
    requires StrictlyDescending(xs) && StrictlyDescending(ys) && Elements(xs) !! Elements(ys)
    ensures Elements(Merge(xs, ys)) == Elements(xs) + Elements(ys)
    ensures StrictlyDescending(Merge(xs, ys)) && |Merge(xs, ys)| == |xs| + |ys|
    decreases |xs| + |ys|, 0
  {
    MergeElements(xs, ys);
    MergeLength(xs, ys);
    if ys != [] && xs != [] {
      var x, y := xs[|xs| - 1], ys[|ys| - 1];
      assert x in Elements(xs) && y in Elements(ys);
      if x < y {
        MergeTail(xs[..|xs| - 1], ys, x);
      } else {
        MergeTail(xs, ys[..|ys| - 1], y);
      }
    }
  }

  lemma {:induction false} MergeTail(xs: seq<Id>, ys: seq<Id>, z: Id)
    requires StrictlyDescending(xs) && StrictlyDescending(ys) && Elements(xs) !! Elements(ys)
    requires (forall k :: 0 <= k < |xs| ==> xs[k] > z) && (forall k :: 0 <= k < |ys| ==> ys[k] > z)
    ensures StrictlyDescending(Merge(xs, ys) + [z])
    decreases |xs| + |ys|, 1
  {
    var m := Merge(xs, ys);
    MergeIsUnion(xs, ys);
    forall i | 0 <= i < |m|
      ensures m[i] > z
    {
      assert m[i] in Elements(m);
    }
  }

  /** State of the backward merge: the first `j` ids of `xs` and `i` ids of
      `ys` are still to be merged, the tail of the result is in place. */
  ghost predicate MergeInv(s: seq<Id>, xs: seq<Id>, ys: seq<Id>, i: nat, j: nat) {
    var total := |xs| + |ys|;
    && i <= |ys| && j <= |xs| && total < |s|
    && s[0] == MAX_ID
    && s[1..j + 1] == xs[..j]
    && Merge(xs[..j], ys[..i]) + s[i + j + 1..total + 1] == Merge(xs, ys)
  }

  lemma {:induction false} MergeStart(s: seq<Id>, xs: seq<Id>, ys: seq<Id>)
    requires |xs| + |ys| < |s| && s[0] == MAX_ID && s[1..|xs| + 1] == xs
    ensures MergeInv(s, xs, ys, |ys|, |xs|)
  {
    assert xs[..|xs|] == xs && ys[..|ys|] == ys;
  }

  lemma {:induction false} MergeTakesOld(s: seq<Id>, xs: seq<Id>, ys: seq<Id>, i: nat, j: nat)
    requires MergeInv(s, xs, ys, i, j) && i > 0 && s[j] < ys[i - 1] <= MAX_ID
    ensures j > 0 && MergeInv(s[i + j := s[j]], xs, ys, i, j - 1)
  {
    var s' := s[i + j := s[j]];
    var total := |xs| + |ys|;
    assert s[j] == s[1..j + 1][j - 1] == xs[j - 1];
    assert xs[..j][..j - 1] == xs[..j - 1];
    assert Merge(xs[..j], ys[..i]) == Merge(xs[..j - 1], ys[..i]) + [s[j]];
    assert s'[i + j..total + 1] == [s[j]] + s[i + j + 1..total + 1];
    assert s'[1..j] == s[1..j + 1][..j - 1];
  }

  lemma {:induction false} MergeTakesNew(s: seq<Id>, xs: seq<Id>, ys: seq<Id>, i: nat, j: nat)
    requires MergeInv(s, xs, ys, i, j) && i > 0 && s[j] >= ys[i - 1]
    ensures MergeInv(s[i + j := ys[i - 1]], xs, ys, i - 1, j)
  {
    var s' := s[i + j := ys[i - 1]];
    var total := |xs| + |ys|;
    assert ys[..i][..i - 1] == ys[..i - 1] && ys[..i] == ys[..i - 1] + [ys[i - 1]];
    if j == 0 {
      assert xs[..0] == [];
      assert Merge([], ys[..i]) == ys[..i] && Merge([], ys[..i - 1]) == ys[..i - 1];
    } else {
      assert s[j] == s[1..j + 1][j - 1] == xs[j - 1];
    }
    assert Merge(xs[..j], ys[..i]) == Merge(xs[..j], ys[..i - 1]) + [ys[i - 1]];
    assert s'[i + j..total + 1] == [ys[i - 1]] + s[i + j + 1..total + 1];
    assert s'[1..j + 1] == s[1..j + 1];
  }

  lemma {:induction false} MergeEnd(s: seq<Id>, xs: seq<Id>, ys: seq<Id>, j: nat)
    requires MergeInv(s, xs, ys, 0, j)
    ensures s[1..|xs| + |ys| + 1] == Merge(xs, ys)
  {
    assert s[1..|xs| + |ys| + 1] == s[1..j + 1] + s[j + 1..|xs| + |ys| + 1];
  }

  /** The inner loop of the merge: ids of the old list that are smaller than
      `mergeId` move to the back. */
  method MoveSmaller(idl: array<Id>, i: nat, last: nat, mergeId: Id, ghost xs: seq<Id>, ghost ys: seq<Id>)
    returns (j: nat)
    requires MergeInv(idl[..], xs, ys, i, last) && i > 0 && ys[i - 1] == mergeId <= MAX_ID
    modifies idl
    ensures j <= |xs| && MergeInv(idl[..], xs, ys, i, j) && idl[j] >= mergeId
    ensures forall m :: |xs| + |ys| < m < idl.Length ==> idl[m] == old(idl[m])
  {
    j := last;
    var k, oldId := i + j, idl[j];
    while oldId < mergeId
      invariant 0 <= j <= |xs| && k == i + j && oldId == idl[j]
      invariant forall m :: |xs| + |ys| < m < idl.Length ==> idl[m] == old(idl[m])
      invariant MergeInv(idl[..], xs, ys, i, j)
      decreases j
    {
      MergeTakesOld(idl[..], xs, ys, i, j);
      ghost var before := idl[..];
      idl[k] := oldId;
      assert idl[..] == before[i + j := before[j]];
      k, j := k - 1, j - 1;
      oldId := idl[j];
    }
  }

  /** The outer loop of the merge, once slot 0 of `idl` holds the sentinel. */
  method MergeLoop(idl: array<Id>, src: array<Id>, at: nat, last: nat, ghost xs: seq<Id>, ghost ys: seq<Id>)
    requires at + |ys| < src.Length && src[at] == |ys| && src[at + 1..at + 1 + |ys|] == ys
    requires src != idl || |xs| + |ys| < at
    requires forall k :: 0 <= k < |ys| ==> ys[k] <= MAX_ID
    requires last == |xs| && MergeInv(idl[..], xs, ys, |ys|, |xs|)
    modifies idl
    ensures idl[1..|xs| + |ys| + 1] == Merge(xs, ys)
    ensures forall k :: |xs| + |ys| < k < idl.Length ==> idl[k] == old(idl[k])
  {
    var i, j := src[at], last;
    while i > 0
      invariant 0 <= i <= |ys| && 0 <= j <= |xs|
      invariant MergeInv(idl[..], xs, ys, i, j)
      invariant forall m :: |xs| + |ys| < m < idl.Length ==> idl[m] == old(idl[m])
      invariant src[at + 1..at + 1 + |ys|] == ys
    {
      var mergeId := src[at + i];
      assert mergeId == src[at + 1..at + 1 + |ys|][i - 1];
      j := MoveSmaller(idl, i, j, mergeId, xs, ys);
      MergeTakesNew(idl[..], xs, ys, i, j);
      ghost var before := idl[..];
      idl[i + j] := mergeId;
      assert idl[..] == before[i + j := ys[i - 1]];
      i := i - 1;
    }
    MergeEnd(idl[..], xs, ys, j);
  }

  /** mdb_midl_xmerge: merge the list that starts at slot `at` of `src` into
      `idl`, in place and from the back, with slot 0 of `idl` as a sentinel.
      The merged list may lie in the same array, behind the merged result. */
  method XMerge(idl: array<Id>, src: array<Id>, at: nat)
    requires Valid(idl) && at < src.Length && at + src[at] < src.Length
    requires idl[0] + src[at] < idl.Length
    requires src != idl || idl[0] + src[at] < at
    requires forall k :: at < k <= at + src[at] ==> src[k] <= MAX_ID
    modifies idl
    ensures Valid(idl) && Ids(idl) == Merge(old(Ids(idl)), old(src[at + 1..at + 1 + src[at]]))
    ensures forall k :: old(idl[0] + src[at]) < k < idl.Length ==> idl[k] == old(idl[k])
  {
    ghost var xs, ys := Ids(idl), src[at + 1..at + 1 + src[at]];
    MergeLength(xs, ys);
    var total, last := src[at] + idl[0], idl[0];
    idl[0] := MAX_ID;
    MergeStart(idl[..], xs, ys);
    MergeLoop(idl, src, at, last, xs, ys);
    idl[0] := total;
  }
}
