/** The chunked-body decoder inside getHTTPResponse.

    The decoder keeps the rest of the current chunk, the size digits seen so far
    and the content across reads.  A body is chunks of the form size in
    hexadecimal, chunk extension, CR LF, data, CR LF, ended by a chunk of size 0
    (section 4.1 of RFC 7230).  Extensions are discarded.  A read that begins inside
    an extension with a hexadecimal digit adds that digit to the size; the places
    where reads begin are therefore part of what a well-formed body is. */
module ChunkedBody {
  import opened Basics

  const CR: nat := 13
  const LF: nat := 10

  /** chunksize_buf has 32 bytes, one of them for the terminator. */
  const MAX_DIGITS: nat := 31
  const LIMIT: nat := 0x1_0000_0000

  /** isxdigit */
  predicate IsHex(b: nat) {
    48 <= b <= 57 || 65 <= b <= 70 || 97 <= b <= 102
  }

  function Digit(b: nat): nat
    requires IsHex(b)
  {
    if b <= 57 then b - 48 else if b <= 70 then b - 55 else b - 87
  }

  /** Number of hexadecimal digits at the front. */
  function HexRun(s: seq<Byte>): (k: nat)
    ensures k <= |s| && (k < |s| ==> !IsHex(s[k]))
    ensures forall i :: 0 <= i < k ==> IsHex(s[i])
  {
    if s == [] || !IsHex(s[0]) then 0 else 1 + HexRun(s[1..])
  }

  /** The first CR or LF from i on, or the end. */
  function LineRun(s: seq<Byte>, i: nat): (j: nat)
    requires i <= |s|
    ensures i <= j <= |s| && (j < |s| ==> s[j] == CR || s[j] == LF)
    ensures forall l :: i <= l < j ==> s[l] != CR && s[l] != LF
    decreases |s| - i
  {
    if i == |s| || s[i] == CR || s[i] == LF then i else LineRun(s, i + 1)
  }

  ghost predicate AllHex(d: seq<Byte>) {
    forall i :: 0 <= i < |d| ==> IsHex(d[i])
  }

  function Value(d: seq<Byte>): nat
    requires AllHex(d)
  {
    if d == [] then 0 else 16 * Value(d[..|d| - 1]) + Digit(d[|d| - 1])
  }

  /** Digits in both cases. */
  lemma {:induction false} DigitIs(b: nat, k: nat)
    requires IsHex(b) && k < 16
    ensures Digit(b) == k <==> b == "0123456789ABCDEF"[k] as int || b == "0123456789abcdef"[k] as int
  {
    var upper, lower := "0123456789ABCDEF", "0123456789abcdef";
    assert upper[k] as int == if k < 10 then 48 + k else 55 + k;
    assert lower[k] as int == if k < 10 then 48 + k else 87 + k;
  }

  function Pow16(n: nat): nat {
    if n == 0 then 1 else 16 * Pow16(n - 1)
  }

  /** Place values. */
  lemma {:induction false} ValueFromLeft(d: seq<Byte>)
    requires AllHex(d) && d != []
    ensures AllHex(d[1..]) && Value(d) == Digit(d[0]) * Pow16(|d| - 1) + Value(d[1..])
    decreases |d|
  {
    var m := |d| - 1;
    if m == 0 {
      assert d[..0] == [] && d[1..] == [];
    } else {
      Middle(d);
      ValueFromLeft(d[..m]);
      assert Value(d[1..]) == 16 * Value(d[1..m]) + Digit(d[m]);
      ShiftPlace(Digit(d[0]), m);
    }
  }

  lemma {:induction false} Middle(d: seq<Byte>)
    requires |d| >= 2
    ensures var m := |d| - 1; d[..m][1..] == d[1..m] == d[1..][..m - 1] && d[1..][m - 1] == d[m]
  {
  }

  lemma {:induction false} ShiftPlace(x: nat, m: nat)
    requires m > 0
    ensures 16 * (x * Pow16(m - 1)) == x * Pow16(m)
  {
  }

  // ----- well-formed input, as seen from a state of the decoder -----

  // Every read begins with a number of bytes still to come that is in `cuts`.

  /** No read begins with a hexadecimal digit between k and n. */
  ghost predicate CutsAvoid(cuts: set<nat>, rest: seq<Byte>, k: nat, n: nat)
    requires n <= |rest|
  {
    forall p :: k < p < n && |rest| - p in cuts ==> !IsHex(rest[p])
  }

  /** Digits d have been read, and the size line goes on with `rest`: k digits, and
      an extension that ends with the CR LF at n. */
  ghost predicate LineAt(cuts: set<nat>, d: seq<Byte>, rest: seq<Byte>, k: nat, n: nat) {
    && AllHex(d) && k == HexRun(rest) && n == LineRun(rest, k) && 1 <= |d| + k <= MAX_DIGITS
    && n + 2 <= |rest| && rest[n] == CR && rest[n + 1] == LF
    && CutsAvoid(cuts, rest, k, n)
  }

  /** The size line, and `more` is the data to come. */
  ghost predicate InSize(cuts: set<nat>, d: seq<Byte>, rest: seq<Byte>, more: seq<Byte>)
    decreases |rest|, 1
  {
    var k := HexRun(rest);
    var n := LineRun(rest, k);
    LineAt(cuts, d, rest, k, n) && SizeThen(cuts, d + rest[..k], rest[n + 2..], more)
  }

  /** The digits of a size are complete. */
  ghost predicate SizeThen(cuts: set<nat>, d: seq<Byte>, rest: seq<Byte>, more: seq<Byte>)
    decreases |rest|, 3
  {
    AllHex(d) && Value(d) < LIMIT && AfterSize(cuts, Value(d), rest, more)
  }

  ghost predicate AfterSize(cuts: set<nat>, v: nat, rest: seq<Byte>, more: seq<Byte>)
    decreases |rest|, 2
  {
    if v == 0 then more == [] else InData(cuts, v, rest, more)
  }

  /** c bytes of the current chunk are still to come. */
  ghost predicate InData(cuts: set<nat>, c: nat, rest: seq<Byte>, more: seq<Byte>)
    decreases |rest|, 1
  {
    && c + 2 <= |rest| && c <= |more| && rest[..c] == more[..c] && rest[c] == CR && rest[c + 1] == LF
    && InSize(cuts, [], rest[c + 2..], more[c..])
  }

  /** Before a size line, perhaps with the line end of the last chunk ahead. */
  ghost predicate AtLine(cuts: set<nat>, rest: seq<Byte>, more: seq<Byte>) {
    || InSize(cuts, [], rest, more)
    || (|rest| >= 2 && rest[0] == CR && rest[1] == LF && InSize(cuts, [], rest[2..], more))
    || (|rest| >= 1 && rest[0] == LF && InSize(cuts, [], rest[1..], more))
  }

  /** Within a size line, perhaps between its CR and LF. */
  ghost predicate InLine(cuts: set<nat>, d: seq<Byte>, rest: seq<Byte>, more: seq<Byte>) {
    || InSize(cuts, d, rest, more)
    || (|rest| >= 1 && rest[0] == LF && |d| <= MAX_DIGITS && SizeThen(cuts, d, rest[1..], more))
  }

  /** The decoder's state fits the rest of a well-formed body. */
  ghost predicate Fits(cuts: set<nat>, c: nat, d: seq<Byte>, rest: seq<Byte>, more: seq<Byte>) {
    if c > 0 then d == [] && InData(cuts, c, rest, more)
    else if d == [] then AtLine(cuts, rest, more)
    else InLine(cuts, d, rest, more)
  }

  /** A state after which nothing or the rest of a well-formed body is to come. */
  ghost predicate Goes(cuts: set<nat>, done: bool, c: nat, d: seq<Byte>, rest: seq<Byte>, more: seq<Byte>) {
    if done then more == [] else Fits(cuts, c, d, rest, more)
  }

  // ----- the steps -----

  lemma {:induction false} HexRunFrom(s: seq<Byte>, j: nat)
    requires j <= HexRun(s)
    ensures HexRun(s[j..]) == HexRun(s) - j
  {
    if j > 0 {
      HexRunFrom(s[1..], j - 1);
      assert s[1..][j - 1..] == s[j..];
    } else {
      assert s[0..] == s;
    }
  }

  lemma {:induction false} LineRunFrom(s: seq<Byte>, i: nat, j: nat)
    requires j <= i <= |s| && LineRun(s, i) < |s|
    ensures LineRun(s[j..], i - j) == LineRun(s, i) - j
  {
    var t, n := s[j..], LineRun(s, i);
    assert t[n - j] == s[n];
    assert forall l :: i - j <= l < n - j ==> t[l] == s[l + j];
  }

  lemma {:induction false} AvoidFrom(cuts: set<nat>, rest: seq<Byte>, k: nat, n: nat, j: nat)
    requires j <= k <= n <= |rest| && CutsAvoid(cuts, rest, k, n)
    ensures CutsAvoid(cuts, rest[j..], k - j, n - j)
  {
    var tail := rest[j..];
    forall p | k - j < p < n - j && |tail| - p in cuts
      ensures !IsHex(tail[p])
    {
      assert tail[p] == rest[p + j] && |rest| - (p + j) in cuts;
    }
  }

  lemma {:induction false} DigitsJoined(d: seq<Byte>, rest: seq<Byte>, j: nat, k: nat)
    requires j <= k <= |rest|
    ensures d + rest[..j] + rest[j..][..k - j] == d + rest[..k] && rest[..k][..j] == rest[..j]
  {
    assert rest[..k] == rest[..j] + rest[j..][..k - j];
  }

  lemma {:induction false} LineAtDigits(cuts: set<nat>, d: seq<Byte>, rest: seq<Byte>, j: nat, k: nat, n: nat)
    requires LineAt(cuts, d, rest, k, n) && AllHex(d + rest[..k]) && j <= k
    ensures LineAt(cuts, d + rest[..j], rest[j..], k - j, n - j)
    ensures d + rest[..j] + rest[j..][..k - j] == d + rest[..k]
  {
    HexRunFrom(rest, j);
    LineRunFrom(rest, k, j);
    AvoidFrom(cuts, rest, k, n, j);
    DigitsJoined(d, rest, j, k);
    assert rest[j..][n - j] == rest[n] && rest[j..][n - j + 1] == rest[n + 1];
  }

  lemma {:induction false} Dropped(s: seq<Byte>, i: nat, j: nat)
    requires i <= j <= |s|
    ensures s[i..][j - i..] == s[j..]
  {
  }

  lemma {:induction false} SizeFolds(cuts: set<nat>, d: seq<Byte>, rest: seq<Byte>, more: seq<Byte>, k: nat, n: nat)
    requires LineAt(cuts, d, rest, k, n) && SizeThen(cuts, d + rest[..k], rest[n + 2..], more)
    ensures InSize(cuts, d, rest, more)
  {
  }

  lemma {:induction false} DigitsFold(cuts: set<nat>, d: seq<Byte>, rest: seq<Byte>, more: seq<Byte>, j: nat, k: nat,
                                      n: nat)
    requires LineAt(cuts, d, rest, k, n) && SizeThen(cuts, d + rest[..k], rest[n + 2..], more) && j <= k
    ensures InSize(cuts, d + rest[..j], rest[j..], more)
  {
    LineAtDigits(cuts, d, rest, j, k, n);
    Dropped(rest, j, n + 2);
    SizeFolds(cuts, d + rest[..j], rest[j..], more, k - j, n - j);
  }

  /** Reading j digits. */
  lemma {:induction false} DigitsRead(cuts: set<nat>, d: seq<Byte>, rest: seq<Byte>, more: seq<Byte>, j: nat)
    requires InSize(cuts, d, rest, more) && j <= HexRun(rest)
    ensures InSize(cuts, d + rest[..j], rest[j..], more)
  {
    DigitsFold(cuts, d, rest, more, j, HexRun(rest), LineRun(rest, HexRun(rest)));
  }

  lemma {:induction false} AvoidExtension(cuts: set<nat>, rest: seq<Byte>, n: nat, m: nat)
    requires m <= n <= |rest| && CutsAvoid(cuts, rest, 0, n)
    ensures CutsAvoid(cuts, rest[m..], 0, n - m)
  {
    forall p | 0 < p < n - m && |rest[m..]| - p in cuts
      ensures !IsHex(rest[m..][p])
    {
      assert rest[m..][p] == rest[p + m] && |rest| - (p + m) in cuts;
    }
  }

  lemma {:induction false} LineAtExtension(cuts: set<nat>, d: seq<Byte>, rest: seq<Byte>, m: nat, n: nat)
    requires LineAt(cuts, d, rest, 0, n) && m <= n && |rest| - m in cuts
    ensures LineAt(cuts, d, rest[m..], 0, n - m)
  {
    var tail := rest[m..];
    AvoidExtension(cuts, rest, n, m);
    assert forall l :: 0 <= l < |tail| ==> tail[l] == rest[l + m];
    assert !IsHex(tail[0]) && LineRun(tail, 0) == n - m && tail[n - m + 1] == LF;
  }

  /** A read that ends m bytes into the extension, or in front of it. */
  lemma {:induction false} ExtensionCut(cuts: set<nat>, d: seq<Byte>, rest: seq<Byte>, more: seq<Byte>, m: nat)
    requires InSize(cuts, d, rest, more) && HexRun(rest) == 0 && m <= LineRun(rest, 0)
    requires |rest| - m in cuts
    ensures InSize(cuts, d, rest[m..], more)
  {
    var n := LineRun(rest, 0);
    LineAtExtension(cuts, d, rest, m, n);
    assert d + rest[..0] == d == d + rest[m..][..0];
    Dropped(rest, m, n + 2);
    SizeFolds(cuts, d, rest[m..], more, 0, n - m);
  }

  /** The line end behind the digits and the extension. */
  lemma {:induction false} LineEnd(cuts: set<nat>, d: seq<Byte>, rest: seq<Byte>, more: seq<Byte>, n: nat)
    requires InSize(cuts, d, rest, more) && HexRun(rest) == 0 && n == LineRun(rest, 0)
    ensures n + 2 <= |rest| && rest[n] == CR && InLine(cuts, d, rest[n + 1..], more) && rest[n + 1..][0] == LF
    ensures SizeThen(cuts, d, rest[n + 2..], more)
  {
    assert d + rest[..0] == d;
    assert rest[n + 1..][1..] == rest[n + 2..];
  }

  /** Copying m bytes of a chunk. */
  lemma {:induction false} DataCopied(cuts: set<nat>, c: nat, rest: seq<Byte>, more: seq<Byte>, m: nat)
    requires c > 0 && InData(cuts, c, rest, more) && m <= c
    ensures rest[..m] == more[..m] && Fits(cuts, c - m, [], rest[m..], more[m..])
  {
    assert rest[..c][..m] == rest[..m] && more[..c][..m] == more[..m];
    if m < c {
      assert rest[m..][..c - m] == rest[..c][m..] && more[m..][..c - m] == more[..c][m..];
      assert rest[m..][c - m + 2..] == rest[c + 2..] && more[m..][c - m..] == more[c..];
    } else {
      assert rest[m..][2..] == rest[c + 2..];
    }
  }

  lemma {:induction false} PartCopied(cuts: set<nat>, c: nat, r: seq<Byte>, after: seq<Byte>, more: seq<Byte>, m: nat)
    requires c > 0 && InData(cuts, c, r + after, more) && m <= c && m <= |r|
    ensures m <= |more| && r[..m] == more[..m] && Fits(cuts, c - m, [], r[m..] + after, more[m..])
  {
    DataCopied(cuts, c, r + after, more, m);
    assert (r + after)[..m] == r[..m] && (r + after)[m..] == r[m..] + after;
  }

  /** Behind an optional CR and an optional LF. */
  function PastLineEnd(buf: seq<Byte>, i: nat): (j: nat)
    requires i <= |buf|
    ensures i <= j <= |buf|
  {
    var c := if i < |buf| && buf[i] == CR then i + 1 else i;
    if c < |buf| && buf[c] == LF then c + 1 else c
  }

  lemma {:induction false} StartsWithDigit(cuts: set<nat>, rest: seq<Byte>, more: seq<Byte>)
    requires InSize(cuts, [], rest, more)
    ensures |rest| >= 3 && rest[0] != CR && rest[0] != LF
  {
    assert HexRun(rest) > 0 && IsHex(rest[0]);
  }

  /** Skipping the line end of the last chunk, as far as it is in the buffer. */
  lemma {:induction false} LineEndSkipped(cuts: set<nat>, buf: seq<Byte>, after: seq<Byte>, more: seq<Byte>)
    requires AtLine(cuts, buf + after, more)
    ensures var k := PastLineEnd(buf, 0);
            AtLine(cuts, buf[k..] + after, more) && (k < |buf| ==> InSize(cuts, [], buf[k..] + after, more))
  {
    var rest, k := buf + after, PastLineEnd(buf, 0);
    assert buf[k..] + after == rest[k..];
    if InSize(cuts, [], rest, more) {
      StartsWithDigit(cuts, rest, more);
      assert rest[0..] == rest;
    } else if rest[0] == LF {
      assert k == 0 ==> rest[0..] == rest;
    } else {
      assert rest[0] == CR && rest[1] == LF;
      assert k == 0 ==> rest[0..] == rest;
      assert rest[1..][1..] == rest[2..];
    }
  }

  lemma {:induction false} DigitAppended(d: seq<Byte>, buf: seq<Byte>, i: nat, j: nat)
    requires i <= j < |buf|
    ensures d + buf[i..j] + [buf[j]] == d + buf[i..j + 1]
  {
    assert buf[i..j + 1] == buf[i..j] + [buf[j]];
  }

  /** Behind an optional CR. */
  function PastReturn(r: seq<Byte>, i: nat): nat {
    if i < |r| && r[i] == CR then i + 1 else i
  }

  class Decoder {
    var chunksize: nat
    var digits: seq<Byte>
    var content: seq<Byte>
    var done: bool

    ghost predicate Valid()
      reads this
    {
      chunksize < LIMIT && |digits| <= MAX_DIGITS && AllHex(digits) && (chunksize > 0 ==> digits == [])
    }

    constructor ()
      ensures Valid() && !done && chunksize == 0 && digits == [] && content == []
    {
      chunksize, digits, content, done := 0, [], [], false;
    }

    /** Collect size digits. */
    method TakeDigits(buf: seq<Byte>, i: nat) returns (j: nat)
      requires i <= |buf| && |digits| <= MAX_DIGITS && AllHex(digits)
      modifies this`digits
      ensures i <= j <= |buf| && digits == old(digits) + buf[i..j] && AllHex(digits) && |digits| <= MAX_DIGITS
      ensures (forall l :: i <= l < j ==> IsHex(buf[l])) && (j == |buf| || !IsHex(buf[j]) || |digits| == MAX_DIGITS)
    {
      j := i;
      while j < |buf| && IsHex(buf[j]) && |digits| < MAX_DIGITS
        invariant i <= j <= |buf| && |digits| == |old(digits)| + j - i <= MAX_DIGITS
        invariant digits == old(digits) + buf[i..j]
        invariant forall k :: i <= k < j ==> IsHex(buf[k])
      {
        DigitAppended(old(digits), buf, i, j);
        digits := digits + [buf[j]];
        j := j + 1;
      }
    }

    /** The number in the size digits, modulo 2^32. */
    method ParseSize() returns (v: nat)
      requires Valid()
      ensures v == Value(digits) % LIMIT
    {
      v := 0;
      var j := 0;
      while j < |digits|
        invariant 0 <= j <= |digits| && AllHex(digits[..j]) && v == Value(digits[..j]) % LIMIT
      {
        assert digits[..j + 1][..j] == digits[..j];
        ShiftWraps(Value(digits[..j]), Digit(digits[j]));
        v := (16 * v + Digit(digits[j])) % LIMIT;
        j := j + 1;
      }
      assert digits[..j] == digits;
    }

    /** Up to the next CR or LF: a chunk extension is discarded. */
    method SkipExtension(r: seq<Byte>, i: nat) returns (j: nat)
      requires i <= |r|
      ensures j == LineRun(r, i)
    {
      j := i;
      while j < |r| && r[j] != CR && r[j] != LF
        invariant i <= j <= |r| && LineRun(r, i) == LineRun(r, j)
      {
        j := j + 1;
      }
    }

    /** Scan the bytes r for the end of the size line: behind a line end at a,
        digits up to b, k bytes before the LF. */
    method ScanSize(r: seq<Byte>) returns (a: nat, b: nat, k: nat)
      requires |digits| <= MAX_DIGITS && AllHex(digits) && r != []
      modifies this`digits
      ensures a == (if old(digits) == [] then PastLineEnd(r, 0) else 0) && a <= b <= k <= |r|
      ensures digits == old(digits) + r[a..b] && AllHex(digits) && |digits| <= MAX_DIGITS
      ensures forall l :: a <= l < b ==> IsHex(r[l])
      ensures b == |r| || !IsHex(r[b]) || |digits| == MAX_DIGITS
      ensures k == PastReturn(r, LineRun(r, b)) && (k > 0 || r[k] == LF)
      ensures old(digits) != [] ==> (digits == old(digits) <==> !IsHex(r[0]) || |old(digits)| == MAX_DIGITS)
    {
      a := 0;
      if digits == [] {
        if a < |r| && r[a] == CR {
          a := a + 1;
        }
        if a < |r| && r[a] == LF {
          a := a + 1;
        }
      }
      b := TakeDigits(r, a);
      k := SkipExtension(r, b);
      if k < |r| && r[k] == CR {
        k := k + 1;
      }
      assert |r[a..b]| == b - a;
    }

    /** The reading of a chunk size from the bytes r at hand: k of them are
        consumed, and the line is complete or not. */
    method ReadSize(ghost cuts: set<nat>, r: seq<Byte>, ghost after: seq<Byte>, ghost more: seq<Byte>)
      returns (k: nat, complete: bool)
      requires Valid() && chunksize == 0 && r != [] && |after| in cuts
      modifies this`digits, this`chunksize
      ensures Valid() && 0 < k <= |r| && (complete ==> digits == []) && (!complete ==> chunksize == 0)
      ensures old(Fits(cuts, 0, digits, r + after, more)) && complete ==>
                AfterSize(cuts, chunksize, r[k..] + after, more)
      ensures old(Fits(cuts, 0, digits, r + after, more)) && !complete ==>
                k == |r| && Fits(cuts, 0, digits, after, more)
    {
      ghost var d, fits := digits, Fits(cuts, 0, digits, r + after, more);
      var a, b;
      a, b, k := ScanSize(r);
      if fits {
        SizeRead(cuts, d, r, after, more, a, b, k);
      }
      complete := k < |r| && r[k] == LF;
      if complete {
        chunksize := ParseSize();
        digits := [];
        k := k + 1;
      }
    }

    /** Copy what is there of the current chunk. */
    method CopyData(ghost cuts: set<nat>, r: seq<Byte>, ghost after: seq<Byte>, ghost more: seq<Byte>)
      returns (m: nat, ghost left: seq<Byte>)
      requires Valid() && chunksize > 0
      modifies this`content, this`chunksize
      ensures Valid() && m == (if old(chunksize) < |r| then old(chunksize) else |r|) && content == old(content) + r[..m]
      ensures old(Fits(cuts, chunksize, digits, r + after, more)) ==>
                content + left == old(content) + more && Fits(cuts, chunksize, digits, r[m..] + after, left)
    {
      m, left := if chunksize < |r| then chunksize else |r|, more;
      if InData(cuts, chunksize, r + after, more) {
        PartCopied(cuts, chunksize, r, after, more, m);
        assert more == more[..m] + more[m..];
        left := more[m..];
      }
      content := content + r[..m];
      chunksize := chunksize - m;
    }

    /** Between chunks: read the size.  Go on with data, the next read, or not at
        all after a chunk of size 0. */
    method StartChunk(ghost cuts: set<nat>, r: seq<Byte>, ghost after: seq<Byte>, ghost more: seq<Byte>)
      returns (k: nat)
      requires Valid() && !done && r != [] && chunksize == 0 && |after| in cuts
      modifies this`digits, this`chunksize, this`done
      ensures Valid() && 0 < k <= |r| && (chunksize > 0 ==> !done)
      ensures chunksize > 0 ==> digits == []
      ensures old(Fits(cuts, 0, digits, r + after, more)) ==>
                Goes(cuts, done, chunksize, digits, r[k..] + after, more)
    {
      var complete;
      k, complete := ReadSize(cuts, r, after, more);
      done := complete && chunksize == 0;
      assert k == |r| ==> r[k..] + after == after;
    }

    /** One turn of the loop over a read. */
    method Turn(ghost cuts: set<nat>, r: seq<Byte>, ghost after: seq<Byte>, ghost more: seq<Byte>)
      returns (k: nat, ghost left: seq<Byte>)
      requires Valid() && !done && r != [] && |after| in cuts
      modifies this
      ensures Valid() && 0 < k <= |r| && old(content) <= content
      ensures old(Fits(cuts, chunksize, digits, r + after, more)) ==>
                && content + left == old(content) + more
                && Goes(cuts, done, chunksize, digits, r[k..] + after, left)
    {
      k, left := 0, more;
      assert r[0..] == r;
      if chunksize == 0 {
        k := StartChunk(cuts, r, after, more);
      }
      if chunksize > 0 {
        var m;
        m, left := CopyData(cuts, r[k..], after, more);
        assert r[k..][m..] == r[k + m..];
        k := k + m;
      }
    }

    /** The handling of one read.  If state, read and what is still to come are a
        well-formed body with data `more`, the content grows by the part of the
        data that was in the read, and the new state fits the rest. */
    method Read(ghost cuts: set<nat>, buf: seq<Byte>, ghost after: seq<Byte>, ghost more: seq<Byte>)
      returns (ghost left: seq<Byte>)
      requires Valid() && !done && |after| in cuts
      modifies this
      ensures Valid() && old(content) <= content
      ensures old(Fits(cuts, chunksize, digits, buf + after, more)) ==>
                content + left == old(content) + more && Goes(cuts, done, chunksize, digits, after, left)
    {
      ghost var fits := Fits(cuts, chunksize, digits, buf + after, more);
      left := more;
      var i := 0;
      assert buf[0..] == buf;
      while i < |buf| && !done
        invariant 0 <= i <= |buf| && Valid() && old(content) <= content
        invariant fits ==>
                    && content + left == old(content) + more
                    && Goes(cuts, done, chunksize, digits, buf[i..] + after, left)
        decreases |buf| - i
      {
        var k;
        k, left := Turn(cuts, buf[i..], after, left);
        assert buf[i..][k..] == buf[i + k..];
        i := i + k;
      }
      assert i == |buf| ==> buf[i..] + after == after;
    }
  }

  /** What reading the bytes r of a size line comes to: with digits d, the line ends
      at k in r, or goes on after it. */
  ghost predicate SizeDone(cuts: set<nat>, d: seq<Byte>, r: seq<Byte>, k: nat, after: seq<Byte>, more: seq<Byte>) {
    if k < |r| && r[k] == LF
    then SizeThen(cuts, d, r[k + 1..] + after, more)
    else k == |r| && Fits(cuts, 0, d, after, more)
  }

  /** Reading a size line that begins, or goes on, with the bytes r: from a on
      behind a line end, digits up to b, the rest of the line up to k. */
  lemma {:induction false} SizeRead(cuts: set<nat>, d: seq<Byte>, r: seq<Byte>, after: seq<Byte>, more: seq<Byte>,
                                    a: nat, b: nat, k: nat)
    requires Fits(cuts, 0, d, r + after, more) && r != [] && AllHex(d) && |after| in cuts
    requires a == (if d == [] then PastLineEnd(r, 0) else 0) && a <= b <= |r| && |d + r[a..b]| <= MAX_DIGITS
    requires forall l :: a <= l < b ==> IsHex(r[l])
    requires b == |r| || !IsHex(r[b]) || |d + r[a..b]| == MAX_DIGITS
    requires k == PastReturn(r, LineRun(r, b))
    ensures SizeDone(cuts, d + r[a..b], r, k, after, more)
  {
    if d == [] {
      LineEndSkipped(cuts, r, after, more);
      if a == |r| {
        assert r[a..] + after == after && d + r[a..b] == [];
      } else {
        SizeReadOn(cuts, d, r, after, more, a, b);
      }
    } else if InSize(cuts, d, r + after, more) {
      assert r[0..] == r;
      SizeReadOn(cuts, d, r, after, more, a, b);
    } else {
      assert r[0] == LF && d + r[a..b] == d;
      assert (r + after)[1..] == r[1..] + after;
    }
  }

  lemma {:induction false} SizeReadOn(cuts: set<nat>, d: seq<Byte>, r: seq<Byte>, after: seq<Byte>, more: seq<Byte>,
                                      a: nat, b: nat)
    requires a < |r| && InSize(cuts, d, r[a..] + after, more) && |after| in cuts
    requires a <= b <= |r| && |d + r[a..b]| <= MAX_DIGITS
    requires forall l :: a <= l < b ==> IsHex(r[l])
    requires b == |r| || !IsHex(r[b]) || |d + r[a..b]| == MAX_DIGITS
    ensures SizeDone(cuts, d + r[a..b], r, PastReturn(r, LineRun(r, b)), after, more)
  {
    var s, j, d' := r[a..], b - a, d + r[a..b];
    assert s[..j] == r[a..b];
    DigitsTaken(cuts, d, s, after, more, j);
    assert s[j..] == r[b..];
    if b == |r| {
      assert r[b..] + after == after && d' != [];
    } else {
      LineReadOn(cuts, d', r, after, more, b);
    }
  }

  /** The rest of the size line, behind its digits. */
  lemma {:induction false} LineReadOn(cuts: set<nat>, d: seq<Byte>, r: seq<Byte>, after: seq<Byte>, more: seq<Byte>,
                                      b: nat)
    requires b < |r| && InSize(cuts, d, r[b..] + after, more) && HexRun(r[b..] + after) == 0 && |after| in cuts
    ensures SizeDone(cuts, d, r, PastReturn(r, LineRun(r, b)), after, more)
  {
    LineRunWithin(r, after, b);
    TailOf(r, after, b);
    LineReadAs(cuts, d, r, after, more, b, r[b..] + after);
  }

  /** What is left behind the read. */
  lemma {:induction false} TailOf(r: seq<Byte>, after: seq<Byte>, b: nat)
    requires b <= |r|
    ensures |r[b..] + after| - (|r| - b) == |after| && (r[b..] + after)[|r| - b..] == after
  {
  }

  lemma {:induction false} LineReadAs(cuts: set<nat>, d: seq<Byte>, r: seq<Byte>, after: seq<Byte>, more: seq<Byte>,
                                      b: nat, rest: seq<Byte>)
    requires b < |r| && rest == r[b..] + after && InSize(cuts, d, rest, more) && HexRun(rest) == 0 && |after| in cuts
    requires rest[|r| - b..] == after && |rest| - (|r| - b) == |after|
    requires LineRun(rest, 0) >= LineRun(r, b) - b
    requires LineRun(r, b) < |r| ==> LineRun(rest, 0) == LineRun(r, b) - b
    ensures SizeDone(cuts, d, r, PastReturn(r, LineRun(r, b)), after, more)
  {
    if LineRun(r, b) == |r| {
      LineGoesOn(cuts, d, r, after, more, rest, |r| - b);
    } else {
      LineEndsIn(cuts, d, r, after, more, b, LineRun(r, b));
    }
  }

  lemma {:induction false} LineGoesOn(cuts: set<nat>, d: seq<Byte>, r: seq<Byte>, after: seq<Byte>, more: seq<Byte>,
                                      rest: seq<Byte>, m: nat)
    requires InSize(cuts, d, rest, more) && HexRun(rest) == 0 && m <= LineRun(rest, 0)
    requires rest[m..] == after && |rest| - m in cuts
    ensures SizeDone(cuts, d, r, |r|, after, more)
  {
    ExtensionCut(cuts, d, rest, more, m);
    SizeGoesOn(cuts, d, r, after, more);
  }

  lemma {:induction false} SizeGoesOn(cuts: set<nat>, d: seq<Byte>, r: seq<Byte>, after: seq<Byte>, more: seq<Byte>)
    requires InSize(cuts, d, after, more)
    ensures SizeDone(cuts, d, r, |r|, after, more)
  {
  }

  lemma {:induction false} DroppedFrom(r: seq<Byte>, after: seq<Byte>, b: nat, n: nat)
    requires b <= n <= |r|
    ensures (r[b..] + after)[n - b..] == r[n..] + after
  {
  }

  lemma {:induction false} LineEndsIn(cuts: set<nat>, d: seq<Byte>, r: seq<Byte>, after: seq<Byte>, more: seq<Byte>,
                                      b: nat, n: nat)
    requires b <= n < |r| && InSize(cuts, d, r[b..] + after, more) && HexRun(r[b..] + after) == 0
    requires LineRun(r[b..] + after, 0) == n - b
    ensures r[n] == CR && d != [] && SizeDone(cuts, d, r, n + 1, after, more)
  {
    var rest := r[b..] + after;
    LineEnd(cuts, d, rest, more, n - b);
    DroppedFrom(r, after, b, n + 1);
    assert r[n] == rest[n - b];
    if n + 1 < |r| {
      DroppedFrom(r, after, b, n + 2);
      assert r[n + 1] == rest[n + 1 - b];
    }
  }

  lemma {:induction false} LineRunWithin(r: seq<Byte>, after: seq<Byte>, b: nat)
    requires b <= |r|
    ensures LineRun(r[b..] + after, 0) >= LineRun(r, b) - b
    ensures LineRun(r, b) < |r| ==> LineRun(r[b..] + after, 0) == LineRun(r, b) - b
  {
    var rest, n := r[b..] + after, LineRun(r, b);
    assert forall l :: b <= l < |r| ==> rest[l - b] == r[l];
  }

  lemma {:induction false} ShiftWraps(v: nat, d: nat)
    ensures (16 * (v % LIMIT) + d) % LIMIT == (16 * v + d) % LIMIT
  {
    var q, r := v / LIMIT, v % LIMIT;
    assert 16 * v + d == 16 * r + d + 16 * q * LIMIT;
    ModPlusMultiple(16 * r + d, 16 * q);
  }

  lemma {:induction false} ModPlusMultiple(a: nat, q: nat)
    ensures (a + q * LIMIT) % LIMIT == a % LIMIT
  {
    if q > 0 {
      ModPlusMultiple(a, q - 1);
      assert a + q * LIMIT == a + (q - 1) * LIMIT + LIMIT;
    }
  }

  /** The first j bytes of the buffer are digits, and what stopped the reading is
      the end of the buffer, another character or a full list of digits. */
  lemma {:induction false} DigitsTaken(cuts: set<nat>, d: seq<Byte>, buf: seq<Byte>, after: seq<Byte>, more: seq<Byte>,
                                       j: nat)
    requires InSize(cuts, d, buf + after, more) && j <= |buf| && |d| + j <= MAX_DIGITS && AllHex(buf[..j])
    requires j == |buf| || !IsHex(buf[j]) || |d| + j == MAX_DIGITS
    ensures InSize(cuts, d + buf[..j], buf[j..] + after, more) && (j < |buf| ==> HexRun(buf[j..] + after) == 0)
  {
    DigitsAhead(buf, after, j);
    DigitsRead(cuts, d, buf + after, more, j);
    HexRunFrom(buf + after, j);
  }

  lemma {:induction false} DigitsAhead(buf: seq<Byte>, after: seq<Byte>, j: nat)
    requires j <= |buf| && AllHex(buf[..j])
    ensures j <= HexRun(buf + after)
    ensures (buf + after)[..j] == buf[..j] && (buf + after)[j..] == buf[j..] + after
  {
    var rest := buf + after;
    assert forall l :: 0 <= l < j ==> rest[l] == buf[..j][l];
  }

  // ----- whole bodies -----

  /** A size line: the digits, with any spelling of the size, and the extension. */
  datatype Line = Line(digits: seq<Byte>, extension: seq<Byte>)

  datatype Chunk = Chunk(line: Line, data: seq<Byte>)

  ghost predicate LineOk(line: Line, size: nat) {
    && 1 <= |line.digits| <= MAX_DIGITS && AllHex(line.digits) && Value(line.digits) == size < LIMIT
    && (line.extension != [] ==> !IsHex(line.extension[0]))
    && CR !in line.extension && LF !in line.extension
  }

  ghost predicate BodyOk(chunks: seq<Chunk>, zero: Line) {
    && (forall i :: 0 <= i < |chunks| ==> chunks[i].data != [] && LineOk(chunks[i].line, |chunks[i].data|))
    && LineOk(zero, 0)
  }

  function LineBreak(): seq<Byte> {
    [CR, LF]
  }

  function LineBytes(line: Line): seq<Byte> {
    line.digits + line.extension + LineBreak()
  }

  /** The body on the wire; `zero` is the size line of the last chunk, `trailer`
      what follows it. */
  function Encode(chunks: seq<Chunk>, zero: Line, trailer: seq<Byte>): seq<Byte> {
    if chunks == [] then LineBytes(zero) + trailer
    else LineBytes(chunks[0].line) + (chunks[0].data + LineBreak() + Encode(chunks[1..], zero, trailer))
  }

  function DataOf(chunks: seq<Chunk>): seq<Byte> {
    if chunks == [] then [] else chunks[0].data + DataOf(chunks[1..])
  }

  /** In a line with `total` bytes still to come from its start on, no read begins
      inside the extension with a hexadecimal digit. */
  ghost predicate CutOk(cuts: set<nat>, line: Line, total: nat) {
    forall i :: 0 < i < |line.extension| && IsHex(line.extension[i]) ==> total - |line.digits| - i !in cuts
  }

  ghost predicate CutsOk(cuts: set<nat>, chunks: seq<Chunk>, zero: Line, trailer: seq<Byte>) {
    var total := |Encode(chunks, zero, trailer)|;
    if chunks == [] then CutOk(cuts, zero, total)
    else CutOk(cuts, chunks[0].line, total) && CutsOk(cuts, chunks[1..], zero, trailer)
  }

  lemma {:induction false} HexRunStops(d: seq<Byte>, rest: seq<Byte>)
    requires AllHex(d) && (rest == [] || !IsHex(rest[0]))
    ensures HexRun(d + rest) == |d|
  {
    if d == [] {
      assert d + rest == rest;
    } else {
      HexRunStops(d[1..], rest);
      assert (d + rest)[1..] == d[1..] + rest;
    }
  }

  /** Where things are in a size line. */
  lemma {:induction false} LineParts(line: Line, rest: seq<Byte>)
    ensures var k := |line.digits|; var n := k + |line.extension|; var bytes := LineBytes(line) + rest;
            && bytes == line.digits + (line.extension + LineBreak() + rest) && bytes[..k] == line.digits
            && bytes[n] == CR && bytes[n + 1] == LF && bytes[n + 2..] == rest
            && forall p :: k <= p < n ==> bytes[p] == line.extension[p - k]
  {
  }

  lemma {:induction false} LineIsAt(cuts: set<nat>, line: Line, size: nat, rest: seq<Byte>)
    requires LineOk(line, size) && CutOk(cuts, line, |LineBytes(line) + rest|)
    ensures LineAt(cuts, [], LineBytes(line) + rest, |line.digits|, |line.digits| + |line.extension|)
  {
    var bytes, k := LineBytes(line) + rest, |line.digits|;
    var n, tail := k + |line.extension|, line.extension + LineBreak() + rest;
    LineParts(line, rest);
    assert tail[0] == if line.extension == [] then CR else line.extension[0];
    HexRunStops(line.digits, tail);
    forall p | k <= p < n
      ensures bytes[p] != CR && bytes[p] != LF
      ensures k < p && |bytes| - p in cuts ==> !IsHex(bytes[p])
    {
      assert bytes[p] == line.extension[p - k] && bytes[p] in line.extension;
    }
    assert LineRun(bytes, k) == n;
  }

  lemma {:induction false} LineThen(cuts: set<nat>, d: seq<Byte>, bytes: seq<Byte>, n: nat, rest: seq<Byte>,
                                    more: seq<Byte>)
    requires LineAt(cuts, [], bytes, |d|, n) && bytes[..|d|] == d && bytes[n + 2..] == rest
    requires SizeThen(cuts, d, rest, more)
    ensures InSize(cuts, [], bytes, more)
  {
    assert [] + bytes[..|d|] == d;
    SizeFolds(cuts, [], bytes, more, |d|, n);
  }

  lemma {:induction false} SizeLine(cuts: set<nat>, line: Line, size: nat, rest: seq<Byte>, more: seq<Byte>)
    requires LineOk(line, size) && AfterSize(cuts, size, rest, more) && CutOk(cuts, line, |LineBytes(line) + rest|)
    ensures InSize(cuts, [], LineBytes(line) + rest, more)
  {
    LineIsAt(cuts, line, size, rest);
    LineParts(line, rest);
    LineThen(cuts, line.digits, LineBytes(line) + rest, |line.digits| + |line.extension|, rest, more);
  }

  /** A chunk in front of a well-formed body. */
  lemma {:induction false} ChunkInFront(cuts: set<nat>, c: Chunk, tail: seq<Byte>, more: seq<Byte>)
    requires InSize(cuts, [], tail, more) && c.data != [] && LineOk(c.line, |c.data|)
    requires CutOk(cuts, c.line, |LineBytes(c.line) + (c.data + LineBreak() + tail)|)
    ensures InSize(cuts, [], LineBytes(c.line) + (c.data + LineBreak() + tail), c.data + more)
  {
    var rest, all := c.data + LineBreak() + tail, c.data + more;
    assert rest[..|c.data|] == c.data == all[..|c.data|];
    assert rest[|c.data| + 2..] == tail && all[|c.data|..] == more;
    SizeLine(cuts, c.line, |c.data|, rest, all);
  }

  /** Every body made of chunks is well-formed, with the chunks' data. */
  lemma {:induction false} EncodedIsWellFormed(cuts: set<nat>, chunks: seq<Chunk>, zero: Line, trailer: seq<Byte>)
    requires BodyOk(chunks, zero) && CutsOk(cuts, chunks, zero, trailer)
    ensures InSize(cuts, [], Encode(chunks, zero, trailer), DataOf(chunks))
  {
    if chunks == [] {
      SizeLine(cuts, zero, 0, trailer, []);
    } else {
      EncodedIsWellFormed(cuts, chunks[1..], zero, trailer);
      ChunkInFront(cuts, chunks[0], Encode(chunks[1..], zero, trailer), DataOf(chunks[1..]));
    }
  }

  ghost predicate NoExtensions(chunks: seq<Chunk>, zero: Line) {
    zero.extension == [] && forall i :: 0 <= i < |chunks| ==> chunks[i].line.extension == []
  }

  /** Without extensions reads may begin anywhere. */
  lemma {:induction false} PlainCuts(cuts: set<nat>, chunks: seq<Chunk>, zero: Line, trailer: seq<Byte>)
    requires NoExtensions(chunks, zero)
    ensures CutsOk(cuts, chunks, zero, trailer)
  {
    if chunks != [] {
      PlainCuts(cuts, chunks[1..], zero, trailer);
    }
  }

  function Concat(parts: seq<seq<Byte>>): seq<Byte> {
    if parts == [] then [] else parts[0] + Concat(parts[1..])
  }

  /** Where reads begin and the last one ends, counted from the end of the body. */
  ghost function Cuts(parts: seq<seq<Byte>>): set<nat> {
    set i | 0 <= i <= |parts| :: |Concat(parts[i..])|
  }

  /** The receiving loop.  However a well-formed body is cut into reads, the
      content is its data. */
  method Receive(parts: seq<seq<Byte>>, ghost data: seq<Byte>) returns (content: seq<Byte>, done: bool)
    ensures InSize(Cuts(parts), [], Concat(parts), data) ==> done && content == data
  {
    var d := new Decoder();
    ghost var left, cuts := data, Cuts(parts);
    var i := 0;
    assert parts[0..] == parts;
    while i < |parts| && !d.done
      invariant 0 <= i <= |parts| && d.Valid() && fresh(d)
      invariant InSize(cuts, [], Concat(parts), data) && d.done ==> d.content == data
      invariant InSize(cuts, [], Concat(parts), data) && !d.done ==>
                  Fits(cuts, d.chunksize, d.digits, Concat(parts[i..]), left) && d.content + left == data
      decreases |parts| - i
    {
      assert parts[i..][1..] == parts[i + 1..];
      left := d.Read(cuts, parts[i], Concat(parts[i + 1..]), left);
      i := i + 1;
    }
    return d.content, d.done;
  }

  /** Receiving a body made of chunks, cut anywhere but in front of a hexadecimal
      digit inside an extension. */
  method ReceiveChunks(parts: seq<seq<Byte>>, ghost chunks: seq<Chunk>, ghost zero: Line, ghost trailer: seq<Byte>)
    returns (content: seq<Byte>, done: bool)
    requires BodyOk(chunks, zero) && Concat(parts) == Encode(chunks, zero, trailer)
    ensures NoExtensions(chunks, zero) || CutsOk(Cuts(parts), chunks, zero, trailer) ==>
              done && content == DataOf(chunks)
  {
    if NoExtensions(chunks, zero) {
      PlainCuts(Cuts(parts), chunks, zero, trailer);
    }
    if CutsOk(Cuts(parts), chunks, zero, trailer) {
      EncodedIsWellFormed(Cuts(parts), chunks, zero, trailer);
    }
    content, done := Receive(parts, DataOf(chunks));
  }

  /** The size line 1;a read at once gives size 1; cut behind the semicolon it
      gives 26. */
  method CutExtension() returns (whole: nat, cut: nat)
    ensures whole == 1 && cut == 26
  {
    var d := new Decoder();
    var line := [49, 59, 97, CR, LF];
    var a, b, k := d.ScanSize(line);
    assert !IsHex(line[1]) && b == 1 && line[0..1] == [49];
    whole := d.ParseSize();
    d := new Decoder();
    line := [49, 59];
    a, b, k := d.ScanSize(line);
    assert !IsHex(line[1]) && b == 1 && line[0..1] == [49];
    line := [97, CR, LF];
    a, b, k := d.ScanSize(line);
    assert !IsHex(line[1]) && b == 1 && d.digits == [49, 97] && d.digits[..1] == [49];
    cut := d.ParseSize();
  }
}
