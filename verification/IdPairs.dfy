/** Dirty lists (mid2l): arrays of page number / page pairs in ascending order
    with the count in slot 0. */
module IdPairs {
  import opened IdList

  /** `page` stands for the address of the page in memory. */
  datatype Pair = Pair(mid: nat, page: nat)

  ghost predicate ValidPairs(dl: array<Pair>)
    reads dl
  {
    dl.Length > 0 && dl[0].mid < dl.Length
  }

  ghost function Pairs(dl: array<Pair>): seq<Pair>
    requires ValidPairs(dl)
    reads dl
  {
    dl[1..dl[0].mid + 1]
  }

  /** Page numbers are positive and strictly ascending. */
  ghost predicate Ascending(s: seq<Pair>) {
    && (forall i :: 0 <= i < |s| ==> s[i].mid > 0)
    && (forall i, j :: 0 <= i < j < |s| ==> s[i].mid < s[j].mid)
  }

  ghost function Entries(s: seq<Pair>): set<Pair> {
    set p | p in s
  }

  ghost function Mids(s: seq<Pair>): set<nat> {
    set p | p in s :: p.mid
  }

  // ----- search and insert -----

  /** Binary search: position of the first pair whose mid is at least `id`. */
  method SearchPairs(dl: array<Pair>, id: nat) returns (pos: nat)
    requires ValidPairs(dl) && Ascending(Pairs(dl))
    ensures 1 <= pos <= dl[0].mid + 1
    ensures forall k :: 1 <= k < pos ==> dl[k].mid < id
    ensures forall k :: pos <= k <= dl[0].mid ==> dl[k].mid >= id
  {
    ghost var s := Pairs(dl);
    assert forall k :: 1 <= k <= dl[0].mid ==> dl[k] == s[k - 1];
    var base, cursor, val, n := 0, 1, 0, dl[0].mid;
    while 0 < n
      invariant 0 <= base && 0 <= n && base + n <= dl[0].mid
      invariant forall k :: 1 <= k <= base ==> dl[k].mid < id
      invariant forall k :: base + n < k <= dl[0].mid ==> dl[k].mid > id
      invariant val < 0 ==> cursor == base + n + 1
      invariant val > 0 ==> cursor == base
      invariant val == 0 ==> cursor == 1 && base == 0 && n == dl[0].mid
    {
      var pivot := n / 2;
      cursor := base + pivot + 1;
      val := if id < dl[cursor].mid then -1 else if id > dl[cursor].mid then 1 else 0;
      if val < 0 {
        n := pivot;
      } else if val > 0 {
        base := cursor;
        n := n - (pivot + 1);
      } else {
        return cursor;
      }
    }
    if val > 0 {
      cursor := cursor + 1;
    }
    return cursor;
  }

  lemma {:induction false} InsertedEntries(s: seq<Pair>, x: nat, p: Pair)
    requires Ascending(s) && 0 <= x <= |s| && p.mid > 0
    requires forall k :: 0 <= k < x ==> s[k].mid < p.mid
    requires forall k :: x <= k < |s| ==> s[k].mid > p.mid
    ensures var t := s[..x] + [p] + s[x..];
            Ascending(t) && p.mid !in Mids(s) && Entries(t) == Entries(s) + {p}
  {
    var t := s[..x] + [p] + s[x..];
    assert s == s[..x] + s[x..];
    assert forall q :: q in t <==> q in s[..x] || q == p || q in s[x..];
    assert forall q :: q in s <==> q in s[..x] || q in s[x..];
  }

  /** Shift the pairs from slot x on up by one and store `p` in slot x. */
  method InsertAt(dl: array<Pair>, x: nat, p: Pair)
    requires ValidPairs(dl) && 1 <= x <= dl[0].mid + 1 < dl.Length
    modifies dl
    ensures ValidPairs(dl) && Pairs(dl) == old(Pairs(dl)[..x - 1]) + [p] + old(Pairs(dl)[x - 1..])
  {
    ghost var s := Pairs(dl);
    var n := dl[0].mid + 1;
    dl[0] := dl[0].(mid := n);
    var i := n;
    while i > x
      invariant x <= i <= n && dl[0].mid == n
      invariant forall k :: 1 <= k <= i && k < n ==> dl[k] == s[k - 1]
      invariant forall k :: i < k <= n ==> dl[k] == s[k - 2]
    {
      dl[i] := dl[i - 1];
      i := i - 1;
    }
    dl[x] := p;
  }

  /** mdb_mid2l_insert: 0, -1 if the id is present, -2 if the list is full. */
  method Insert(dl: array<Pair>, p: Pair) returns (rc: int)
    requires ValidPairs(dl) && Ascending(Pairs(dl)) && dl.Length == UM_MAX + 1 && p.mid > 0
    modifies dl
    ensures ValidPairs(dl) && Ascending(Pairs(dl))
    ensures rc == -1 <==> p.mid in old(Mids(Pairs(dl)))
    ensures rc == -2 <==> p.mid !in old(Mids(Pairs(dl))) && old(dl[0].mid) == UM_MAX
    ensures rc == 0 || rc == -1 || rc == -2
    ensures rc == 0 ==> Entries(Pairs(dl)) == old(Entries(Pairs(dl))) + {p}
    ensures rc != 0 ==> Pairs(dl) == old(Pairs(dl))
  {
    ghost var s := Pairs(dl);
    var x := SearchPairs(dl, p.mid);
    assert forall k :: 0 <= k < |s| ==> s[k] == dl[k + 1];
    if x <= dl[0].mid && dl[x].mid == p.mid {
      assert s[x - 1] in s;
      return -1;
    }
    InsertedEntries(s, x - 1, p);
    if dl[0].mid >= UM_MAX {
      return -2;
    }
    InsertAt(dl, x, p);
    return 0;
  }
}
