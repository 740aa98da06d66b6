/** Runs of consecutive page numbers in the reclaimed list `me_pghead`, which is
    kept strictly descending. */
module PageRuns {
  import opened IdList
  import opened PageAccounts

  /** The list contains p, p + 1, ..., p + num - 1. */
  ghost predicate HasRun(s: seq<Id>, p: Id, num: nat) {
    forall q :: p <= q < p + num ==> q in s
  }

  lemma {:induction false} GapAtLeast(s: seq<Id>, a: nat, b: nat)
    requires StrictlyDescending(s) && a <= b < |s|
    ensures s[a] >= s[b] + (b - a)
    decreases b - a
  {
    if a < b {
      GapAtLeast(s, a + 1, b);
    }
  }

  /** One comparison decides whether num entries are consecutive. */
  lemma {:induction false} TightIsRun(s: seq<Id>, a: nat, b: nat, k: nat)
    requires StrictlyDescending(s) && a <= k <= b < |s| && s[a] == s[b] + (b - a)
    ensures s[k] == s[b] + (b - k)
  {
    GapAtLeast(s, a, k);
    GapAtLeast(s, k, b);
  }

  /** In a strictly descending list p + t stands t places before p. */
  lemma {:induction false} RunIsAdjacent(s: seq<Id>, b: nat, num: nat, t: nat)
    requires StrictlyDescending(s) && b < |s| && HasRun(s, s[b], num) && t < num
    ensures t <= b && s[b - t] == s[b] + t
  {
    if t > 0 {
      RunIsAdjacent(s, b, num, t - 1);
      assert s[b] + t in s;
      var k :| 0 <= k < |s| && s[k] == s[b] + t;
      var a := b - (t - 1);
      assert k < a && s[a - 1] > s[a];
      if k < a - 1 {
        assert false;
      }
    }
  }

  ghost predicate NoRun(s: seq<Id>, num: nat) {
    forall p :: !HasRun(s, p, num)
  }

  /** Position i (from 1) holds the lowest page of a run of num pages. */
  ghost predicate IsRunAt(s: seq<Id>, i: nat, num: nat) {
    0 < num <= i <= |s| && forall k :: i - num <= k < i ==> s[k] == s[i - 1] + (i - 1 - k)
  }

  lemma {:induction false} RunAtIsRun(s: seq<Id>, i: nat, num: nat)
    requires IsRunAt(s, i, num)
    ensures HasRun(s, s[i - 1], num)
  {
    forall q | s[i - 1] <= q < s[i - 1] + num
      ensures q in s
    {
      assert s[i - 1 - (q - s[i - 1])] == q;
    }
  }

  lemma {:induction false} TightIsRunAt(s: seq<Id>, i: nat, num: nat)
    requires StrictlyDescending(s) && 0 < num <= i <= |s|
    ensures s[i - num] == s[i - 1] + (num - 1) <==> IsRunAt(s, i, num)
    ensures HasRun(s, s[i - 1], num) ==> IsRunAt(s, i, num)
  {
    if s[i - num] == s[i - 1] + (num - 1) {
      forall k | i - num <= k < i
        ensures s[k] == s[i - 1] + (i - 1 - k)
      {
        TightIsRun(s, i - num, i - 1, k);
      }
    }
    if HasRun(s, s[i - 1], num) {
      RunIsAdjacent(s, i - 1, num, num - 1);
    }
  }

  lemma {:induction false} NoTightNoRun(s: seq<Id>, num: nat)
    requires StrictlyDescending(s) && num > 0 && forall i :: num <= i <= |s| ==> !IsRunAt(s, i, num)
    ensures NoRun(s, num)
  {
    forall p | HasRun(s, p, num)
      ensures false
    {
      assert p in s;
      var k :| 0 <= k < |s| && s[k] == p;
      RunIsAdjacent(s, k, num, num - 1);
      TightIsRunAt(s, k + 1, num);
    }
  }

  /** The search loop of mdb_page_alloc, from the tail of the list.  Returns 0,
      or the position (from 1) of the lowest page of the lowest run. */
  method FindRun(mop: seq<Id>, num: nat) returns (i: nat)
    requires StrictlyDescending(mop) && num > 0
    ensures i == 0 <==> NoRun(mop, num)
    ensures i > 0 ==> IsRunAt(mop, i, num) && HasRun(mop, mop[i - 1], num)
    ensures i > 0 ==> forall p :: HasRun(mop, p, num) ==> mop[i - 1] <= p
  {
    var n2 := num - 1;
    i := |mop|;
    while i > n2
      invariant 0 <= i <= |mop|
      invariant forall k :: i < k <= |mop| && num <= k ==> !IsRunAt(mop, k, num)
    {
      TightIsRunAt(mop, i, num);
      if mop[i - 1 - n2] == mop[i - 1] + n2 {
        RunAtIsRun(mop, i, num);
        LowestRun(mop, i, num);
        return;
      }
      i := i - 1;
    }
    NoTightNoRun(mop, num);
    i := 0;
  }

  lemma {:induction false} LowestRun(s: seq<Id>, i: nat, num: nat)
    requires StrictlyDescending(s) && IsRunAt(s, i, num)
    requires forall k :: i < k <= |s| && num <= k ==> !IsRunAt(s, k, num)
    ensures forall p :: HasRun(s, p, num) ==> s[i - 1] <= p
  {
    forall p | HasRun(s, p, num)
      ensures s[i - 1] <= p
    {
      assert p in s;
      var k :| 0 <= k < |s| && s[k] == p;
      RunIsAdjacent(s, k, num, num - 1);
      TightIsRunAt(s, k + 1, num);
      assert k + 1 <= i;
    }
  }

  /** The list without the run that ends at position i. */
  function WithoutRun(s: seq<Id>, i: nat, num: nat): seq<Id>
    requires num <= i <= |s|
  {
    s[..i - num] + s[i..]
  }

  lemma {:induction false} WithoutRunElements(s: seq<Id>, i: nat, num: nat, v: Id)
    requires StrictlyDescending(s) && IsRunAt(s, i, num)
    ensures v in WithoutRun(s, i, num) <==> v in s && !(s[i - 1] <= v < s[i - 1] + num)
  {
    var r, p := WithoutRun(s, i, num), s[i - 1];
    if v in r {
      var k :| 0 <= k < |r| && r[k] == v;
      if k < i - num {
        assert s[k] > s[i - num] == p + num - 1;
      } else {
        assert s[k + num] < s[i - 1];
      }
    }
    if v in s && !(p <= v < p + num) {
      var k :| 0 <= k < |s| && s[k] == v;
      assert k < i - num || k >= i;
      assert r[if k < i then k else k - num] == v;
    }
  }

  lemma {:induction false} WithoutRunIsDifference(s: seq<Id>, i: nat, num: nat)
    requires StrictlyDescending(s) && IsRunAt(s, i, num)
    ensures StrictlyDescending(WithoutRun(s, i, num))
    ensures Elements(WithoutRun(s, i, num)) == Elements(s) - PageRange(s[i - 1], s[i - 1] + num)
  {
    forall v: Id
      ensures v in WithoutRun(s, i, num) <==> v in s && !(s[i - 1] <= v < s[i - 1] + num)
    {
      WithoutRunElements(s, i, num, v);
    }
  }

  /** Move any stragglers down: the in-place removal of mdb_page_alloc. */
  method TakeRun(mop: array<Id>, i0: nat, num: nat)
    requires Valid(mop) && 0 < num <= i0 <= mop[0]
    modifies mop
    ensures Valid(mop) && Ids(mop) == WithoutRun(old(Ids(mop)), i0, num)
  {
    ghost var s := Ids(mop);
    var i, len := i0, mop[0] - num;
    mop[0] := len;
    var j := i - num;
    while j < len
      invariant i0 - num <= j <= len && i == j + num && mop[0] == len
      invariant forall k :: 1 <= k <= i0 - num ==> mop[k] == s[k - 1]
      invariant forall k :: i0 - num < k <= j ==> mop[k] == s[k + num - 1]
      invariant forall k :: i < k <= |s| ==> mop[k] == s[k - 1]
    {
      j, i := j + 1, i + 1;
      mop[j] := mop[i];
    }
  }

  /** How many entries stay in front of page pg, counted from the tail. */
  function Staying(s: seq<Id>, pg: Id): (k: nat)
    ensures k <= |s| && (k > 0 ==> s[k - 1] >= pg)
    ensures forall m :: k <= m < |s| ==> s[m] < pg
  {
    if s == [] || s[|s| - 1] >= pg then |s| else Staying(s[..|s| - 1], pg)
  }

  /** The list with the pages pg, ..., pg + num - 1 put in their place. */
  function PutRun(s: seq<Id>, pg: Id, num: nat): seq<Id> {
    WithRun(s, Staying(s, pg), pg, num)
  }

  function WithRun(s: seq<Id>, k: nat, pg: Id, num: nat): seq<Id>
    requires k <= |s|
  {
    s[..k] + DescendingRange(pg, num) + s[k..]
  }

  lemma {:induction false} WithRunIsUnion(s: seq<Id>, k: nat, pg: Id, num: nat)
    requires StrictlyDescending(s) && k <= |s| && Elements(s) !! PageRange(pg, pg + num)
    requires (forall m :: 0 <= m < k ==> s[m] >= pg) && (forall m :: k <= m < |s| ==> s[m] < pg)
    ensures StrictlyDescending(WithRun(s, k, pg, num))
    ensures Elements(WithRun(s, k, pg, num)) == Elements(s) + PageRange(pg, pg + num)
  {
    var r, d := WithRun(s, k, pg, num), DescendingRange(pg, num);
    assert s == s[..k] + s[k..];
    forall m | 0 <= m < k
      ensures s[m] >= pg + num
    {
      assert s[m] in Elements(s);
    }
    assert forall v :: v in r <==> v in s[..k] || v in d || v in s[k..];
    assert forall v :: v in s <==> v in s[..k] || v in s[k..];
    forall v
      ensures v in d <==> pg <= v < pg + num
    {
      if pg <= v < pg + num {
        assert d[pg + num - 1 - v] == v;
      }
    }
  }

  /** Entries below pg move up by num slots; returns how many stay. */
  method ShiftBelow(mop: array<Id>, pg: Id, num: nat) returns (i: nat)
    requires Valid(mop) && mop[0] + num < mop.Length
    modifies mop
    ensures i <= old(mop[0]) && mop[0] == old(mop[0])
    ensures forall m :: 1 <= m <= i ==> mop[m] == old(mop[m])
    ensures forall m :: i + num < m <= mop[0] + num ==> mop[m] == old(mop[m - num])
    ensures i > 0 ==> mop[i] >= pg
    ensures forall m :: i < m <= mop[0] ==> old(mop[m]) < pg
  {
    var n := mop[0];
    i := n;
    var j := n + num;
    while i > 0 && mop[i] < pg
      invariant 0 <= i <= n && j == i + num && mop[0] == n
      invariant forall m :: 1 <= m <= i ==> mop[m] == old(mop[m])
      invariant forall m :: i + num < m <= n + num ==> mop[m] == old(mop[m - num])
      invariant forall m :: i < m <= n ==> old(mop[m]) < pg
    {
      mop[j] := mop[i];
      i, j := i - 1, j - 1;
    }
  }

  lemma {:induction false} StayingIs(s: seq<Id>, pg: Id, i: nat)
    requires i <= |s| && (i > 0 ==> s[i - 1] >= pg) && forall m :: i <= m < |s| ==> s[m] < pg
    ensures i == Staying(s, pg)
  {
  }

  /** Make room and store the run behind the `i` entries that stay. */
  method PlaceRun(mop: array<Id>, pg: Id, num: nat) returns (i: nat)
    requires Valid(mop) && mop[0] + num < mop.Length
    modifies mop
    ensures i <= old(mop[0]) && mop[0] == old(mop[0]) + num
    ensures forall m :: 1 <= m <= i ==> mop[m] == old(mop[m])
    ensures forall m :: i < m <= i + num ==> mop[m] == pg + num - (m - i)
    ensures forall m :: i + num < m <= mop[0] ==> mop[m] == old(mop[m - num])
    ensures i > 0 ==> old(mop[i]) >= pg
    ensures forall m :: i < m <= old(mop[0]) ==> old(mop[m]) < pg
  {
    i := ShiftBelow(mop, pg, num);
    FillRange(mop, i, pg, num);
    mop[0] := mop[0] + num;
  }

  /** Insert in me_pghead: the in-place insertion of mdb_ovpage_free. */
  method InsertRun(mop: array<Id>, pg: Id, num: nat)
    requires Valid(mop) && mop[0] + num < mop.Length
    modifies mop
    ensures Valid(mop) && Ids(mop) == PutRun(old(Ids(mop)), pg, num)
  {
    ghost var s := Ids(mop);
    var i := PlaceRun(mop, pg, num);
    StayingIs(s, pg, i);
    IsWithRun(s, Ids(mop), i, pg, num);
  }

  lemma {:induction false} IsWithRun(s: seq<Id>, r: seq<Id>, i: nat, pg: Id, num: nat)
    requires i <= |s| && |r| == |s| + num
    requires forall m :: 0 <= m < i ==> r[m] == s[m]
    requires forall m :: i <= m < i + num ==> r[m] == pg + num - 1 - (m - i)
    requires forall m :: i + num <= m < |r| ==> r[m] == s[m - num]
    ensures r == WithRun(s, i, pg, num)
  {
    assert r[..i] == s[..i];
    assert r[i..i + num] == DescendingRange(pg, num);
    assert r[i + num..] == s[i..];
    assert r == r[..i] + r[i..i + num] + r[i + num..];
  }

  lemma {:induction false} PutRunIsUnion(s: seq<Id>, pg: Id, num: nat)
    requires StrictlyDescending(s) && Elements(s) !! PageRange(pg, pg + num)
    ensures StrictlyDescending(PutRun(s, pg, num))
    ensures Elements(PutRun(s, pg, num)) == Elements(s) + PageRange(pg, pg + num)
  {
    var k := Staying(s, pg);
    assert forall m :: 0 <= m < k ==> s[m] >= s[k - 1];
    WithRunIsUnion(s, k, pg, num);
  }
}
