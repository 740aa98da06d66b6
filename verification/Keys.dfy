/** Key comparison: mdb_cmp_memn, mdb_cmp_memnr, and why the trees may look at
    ranks.

    A key of at most `width` bytes is read as a number in base 257 with `width`
    digits: a byte b is the digit b + 1, a missing byte the digit 0. */
module Keys {
  import opened Basics
  import Tree

  function Pow(n: nat): (p: nat)
    ensures p > 0
  {
    if n == 0 then 1 else 257 * Pow(n - 1)
  }

  function Digit(s: seq<Byte>): (d: nat)
    ensures d < 257
  {
    if s == [] then 0 else s[0] as int + 1
  }

  function Rest(s: seq<Byte>): seq<Byte> {
    if s == [] then [] else s[1..]
  }

  function Rank(s: seq<Byte>, width: nat): nat
    decreases width
  {
    if width == 0 then 0 else Digit(s) * Pow(width - 1) + Rank(Rest(s), width - 1)
  }

  /** The key the trees work with. */
  function TreeKey(s: seq<Byte>, width: nat): Tree.Key {
    Tree.Key(Rank(s, width), |s|)
  }

  /** Lexicographic order, a prefix before its extensions. */
  predicate Less(a: seq<Byte>, b: seq<Byte>) {
    b != [] && (a == [] || a[0] < b[0] || (a[0] == b[0] && Less(a[1..], b[1..])))
  }

  lemma {:induction false} RankBound(s: seq<Byte>, width: nat)
    ensures Rank(s, width) < Pow(width)
    decreases width
  {
    if width > 0 {
      RankBound(Rest(s), width - 1);
      DigitDecides(Digit(s), 257, Pow(width - 1), Rank(Rest(s), width - 1), 0);
    }
  }

  /** A larger first digit decides. */
  lemma {:induction false} DigitDecides(a: nat, b: nat, p: nat, x: nat, y: nat)
    requires a < b && x < p
    ensures a * p + x < b * p + y
  {
    assert (a + 1) * p <= b * p;
  }

  lemma {:induction false} LessIsRank(a: seq<Byte>, b: seq<Byte>, width: nat)
    requires |a| <= width && |b| <= width && Less(a, b)
    ensures Rank(a, width) < Rank(b, width)
    decreases width
  {
    RankBound(Rest(a), width - 1);
    if Digit(a) < Digit(b) {
      DigitDecides(Digit(a), Digit(b), Pow(width - 1), Rank(Rest(a), width - 1), Rank(Rest(b), width - 1));
    } else {
      LessIsRank(a[1..], b[1..], width - 1);
    }
  }

  lemma {:induction false} Total(a: seq<Byte>, b: seq<Byte>)
    ensures Less(a, b) || a == b || Less(b, a)
  {
    if a != [] && b != [] && a[0] == b[0] {
      Total(a[1..], b[1..]);
      assert a == [a[0]] + a[1..] && b == [b[0]] + b[1..];
    }
  }

  /** The order of the ranks is the order of the keys, and no two keys share a
      rank: the trees may look at ranks and lengths alone. */
  lemma {:induction false} RankIsOrder(a: seq<Byte>, b: seq<Byte>, width: nat)
    requires |a| <= width && |b| <= width
    ensures TreeKey(a, width).rank < TreeKey(b, width).rank <==> Less(a, b)
    ensures TreeKey(a, width).rank == TreeKey(b, width).rank <==> a == b
  {
    Total(a, b);
    if Less(a, b) {
      LessIsRank(a, b, width);
    } else if Less(b, a) {
      LessIsRank(b, a, width);
    }
  }

  // ----- the comparison functions -----

  /** Equal up to position i, then decided by the first difference. */
  lemma {:induction false} FirstDifference(a: seq<Byte>, b: seq<Byte>, i: nat)
    requires i <= |a| && i <= |b| && a[..i] == b[..i]
    ensures Less(a, b) <==> Less(a[i..], b[i..])
    ensures a == b <==> a[i..] == b[i..]
  {
    if i > 0 {
      assert a[..i][0] == b[..i][0];
      assert a[1..][..i - 1] == a[..i][1..] && b[1..][..i - 1] == b[..i][1..];
      FirstDifference(a[1..], b[1..], i - 1);
      assert a[1..][i - 1..] == a[i..] && b[1..][i - 1..] == b[i..];
      assert a == [a[0]] + a[1..] && b == [b[0]] + b[1..];
    }
  }

  /** The outcome of a comparison after i equal bytes. */
  lemma {:induction false} Decided(a: seq<Byte>, b: seq<Byte>, i: nat)
    requires i <= |a| && i <= |b| && a[..i] == b[..i]
    ensures i < |a| && i < |b| && a[i] < b[i] ==> Less(a, b) && !Less(b, a) && a != b
    ensures i < |a| && i < |b| && a[i] > b[i] ==> Less(b, a) && !Less(a, b) && a != b
    ensures i == |a| < |b| ==> Less(a, b) && !Less(b, a) && a != b
    ensures i == |b| < |a| ==> Less(b, a) && !Less(a, b) && a != b
    ensures i == |a| == |b| ==> a == b && !Less(a, b) && !Less(b, a)
  {
    FirstDifference(a, b, i);
    FirstDifference(b, a, i);
  }

  /** memcmp over the common length, then the lengths decide. */
  method Compare(a: seq<Byte>, b: seq<Byte>) returns (diff: int)
    ensures diff < 0 <==> Less(a, b)
    ensures diff == 0 <==> a == b
    ensures diff > 0 <==> Less(b, a)
  {
    var len, lenDiff := |a|, |a| - |b|;
    if lenDiff > 0 {
      len, lenDiff := |b|, 1;
    }
    var i := 0;
    while i < len
      invariant i <= len && a[..i] == b[..i]
    {
      Decided(a, b, i);
      if a[i] != b[i] {
        return a[i] as int - b[i] as int;
      }
      i := i + 1;
    }
    Decided(a, b, i);
    diff := if lenDiff < 0 then -1 else lenDiff;
  }

  function Reversed(s: seq<Byte>): seq<Byte> {
    seq(|s|, i requires 0 <= i < |s| => s[|s| - 1 - i])
  }

  lemma {:induction false} ReversedInjective(a: seq<Byte>, b: seq<Byte>)
    ensures Reversed(a) == Reversed(b) <==> a == b
  {
    if Reversed(a) == Reversed(b) {
      assert |a| == |b|;
      forall i | 0 <= i < |a| ensures a[i] == b[i] {
        assert Reversed(a)[|a| - 1 - i] == a[i] && Reversed(b)[|b| - 1 - i] == b[i];
      }
    }
  }

  /** mdb_cmp_memnr: the same from the last byte to the first. */
  method CompareReverse(a: seq<Byte>, b: seq<Byte>) returns (diff: int)
    ensures diff < 0 <==> Less(Reversed(a), Reversed(b))
    ensures diff == 0 <==> a == b
    ensures diff > 0 <==> Less(Reversed(b), Reversed(a))
  {
    ghost var ra, rb := Reversed(a), Reversed(b);
    ReversedInjective(a, b);
    var limit, lenDiff := 0, |a| - |b|;
    if lenDiff > 0 {
      limit, lenDiff := lenDiff, 1;
    }
    var p1, p2 := |a|, |b|;
    while p1 > limit
      invariant limit <= p1 <= |a| && |b| - p2 == |a| - p1 && 0 <= p2
      invariant ra[..|a| - p1] == rb[..|a| - p1]
    {
      Decided(ra, rb, |a| - p1);
      p1, p2 := p1 - 1, p2 - 1;
      assert ra[|a| - 1 - p1] == a[p1] && rb[|b| - 1 - p2] == b[p2];
      if a[p1] != b[p2] {
        return a[p1] as int - b[p2] as int;
      }
    }
    Decided(ra, rb, |a| - p1);
    diff := if lenDiff < 0 then -1 else lenDiff;
  }
}
