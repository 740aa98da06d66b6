/** Account numbers: block height and transaction index, printed as H-I-C with a
    Luhn check character in base 36. */
module AccountNumber {
  import opened Basics

  const UINT32: nat := 0x1_0000_0000
  const UINT64: nat := UINT32 * UINT32

  datatype Account = Account(blockHeight: nat, txIndex: nat)

  predicate AccountOk(a: Account) {
    a.blockHeight < UINT32 && a.txIndex < UINT32
  }

  // ----- packing -----

  function ToUint64(a: Account): nat {
    a.blockHeight * UINT32 + a.txIndex
  }

  function FromUint64(packed: nat): Account {
    Account(packed / UINT32, packed % UINT32)
  }

  lemma {:induction false} PackRoundTrip(a: Account)
    requires AccountOk(a)
    ensures ToUint64(a) < UINT64 && FromUint64(ToUint64(a)) == a
  {
    assert (a.blockHeight * UINT32 + a.txIndex) / UINT32 == a.blockHeight;
  }

  lemma {:induction false} UnpackRoundTrip(packed: nat)
    requires packed < UINT64
    ensures AccountOk(FromUint64(packed)) && ToUint64(FromUint64(packed)) == packed
  {
  }

  // ----- decimal numbers -----

  predicate IsDigit(c: char) {
    '0' <= c <= '9'
  }

  predicate AllDigits(s: string) {
    forall i :: 0 <= i < |s| ==> IsDigit(s[i])
  }

  function DigitChar(d: nat): (c: char)
    requires d < 10
    ensures IsDigit(c) && DigitOf(c) == d
  {
    '0' + d as char
  }

  function DigitOf(c: char): nat
    requires IsDigit(c)
  {
    c as int - '0' as int
  }

  /** std::to_string */
  function Decimal(n: nat): (s: string)
    ensures s != [] && AllDigits(s)
  {
    if n < 10 then [DigitChar(n)] else Decimal(n / 10) + [DigitChar(n % 10)]
  }

  /** The number a digit string stands for. */
  function Number(s: string): nat
    requires AllDigits(s)
  {
    if s == [] then 0 else 10 * Number(s[..|s| - 1]) + DigitOf(s[|s| - 1])
  }

  lemma {:induction false} NumberOfDecimal(n: nat)
    ensures Number(Decimal(n)) == n
  {
    var s := Decimal(n);
    if n < 10 {
      assert s[..0] == [];
    } else {
      NumberOfDecimal(n / 10);
      assert s[..|s| - 1] == Decimal(n / 10);
    }
  }

  // ----- the check character -----

  const ALPHABET := "0123456789ABCDEFGHIJKLMNOPQRSTUVWXYZ"

  function CharToCode(c: char): (r: int)
    ensures -1 <= r < 36
  {
    if '0' <= c <= '9' then c as int - '0' as int
    else if 'A' <= c <= 'Z' then c as int - 'A' as int + 10
    else if 'a' <= c <= 'z' then c as int - 'a' as int + 10
    else -1
  }

  ghost predicate AllCodes(s: string) {
    forall i :: 0 <= i < |s| ==> CharToCode(s[i]) >= 0
  }

  /** A doubled code, its two base 36 digits added. */
  function Doubled(c: nat): nat {
    if 2 * c >= 36 then 2 * c / 36 + 2 * c % 36 else 2 * c
  }

  function Term(c: nat, twice: bool): nat {
    if twice then Doubled(c) else c
  }

  /** The weighted sum, from the right; `twice`: the last character is doubled. */
  function LuhnSum(s: string, twice: bool): nat
    requires AllCodes(s)
  {
    if s == [] then 0 else Term(CharToCode(s[|s| - 1]), twice) + LuhnSum(s[..|s| - 1], !twice)
  }

  /** The characters of the alphabet by their codes. */
  function CodeToChar(i: nat): (c: char)
    requires i < 36
    ensures CharToCode(c) == i
  {
    if i < 10 then '0' + i as char else 'A' + (i - 10) as char
  }

  lemma {:induction false} AlphabetIs(i: nat)
    requires i < 36
    ensures ALPHABET[i] == CodeToChar(i)
  {
  }

  function AlphabetAt(i: nat): (c: char)
    requires i < 36
    ensures c == CodeToChar(i)
  {
    AlphabetIs(i);
    ALPHABET[i]
  }

  /** The code that brings the sum to a multiple of 36. */
  function CheckCode(sum: nat): (c: nat)
    ensures c < 36 && (sum + c) % 36 == 0
  {
    (36 - sum % 36) % 36
  }

  function CheckChar(s: string): char
    requires AllCodes(s)
  {
    CodeToChar(CheckCode(LuhnSum(s, true)))
  }

  lemma {:induction false} SumPeeled(s: string, k: nat, twice: bool)
    requires k < |s| && CharToCode(s[k]) >= 0
    ensures AllCodes(s[..k + 1]) ==>
              AllCodes(s[..k]) && LuhnSum(s[..k + 1], twice) == Term(CharToCode(s[k]), twice) + LuhnSum(s[..k], !twice)
  {
    assert s[..k + 1][..k] == s[..k];
    if AllCodes(s[..k + 1]) {
      forall i | 0 <= i < k ensures CharToCode(s[..k][i]) >= 0 {
        assert s[..k + 1][i] == s[..k][i];
      }
    }
  }

  /** luhnMod36Generate */
  method LuhnGenerate(input: string) returns (check: char)
    ensures AllCodes(input) ==> check == CheckChar(input)
    ensures !AllCodes(input) ==> check == '?'
  {
    var sum, twice, idx: int := 0, true, |input| - 1;
    assert input[..idx + 1] == input;
    while idx >= 0
      invariant -1 <= idx < |input| && sum >= 0
      invariant forall k :: idx < k < |input| ==> CharToCode(input[k]) >= 0
      invariant AllCodes(input) ==>
                  AllCodes(input[..idx + 1]) && sum + LuhnSum(input[..idx + 1], twice) == LuhnSum(input, true)
    {
      var code := CharToCode(input[idx]);
      if code < 0 {
        return '?';
      }
      SumPeeled(input, idx, twice);
      if twice {
        code := Doubled(code);
      }
      sum := sum + code;
      twice := !twice;
      idx := idx - 1;
    }
    check := AlphabetAt(CheckCode(sum));
  }

  // ----- printing and parsing -----

  lemma {:induction false} DigitsAreCodes(s: string, t: string)
    requires AllDigits(s) && AllDigits(t)
    ensures AllDigits(s + t) && AllCodes(s + t)
  {
  }

  function Print(a: Account): string {
    var h, i := Decimal(a.blockHeight), Decimal(a.txIndex);
    DigitsAreCodes(h, i);
    h + "-" + i + "-" + [CheckChar(h + i)]
  }

  /** Position of the first dash from `from` on, or the length. */
  function DashFrom(s: string, from: nat): (p: nat)
    requires from <= |s|
    ensures from <= p <= |s| && (p < |s| ==> s[p] == '-')
    ensures forall k :: from <= k < p ==> s[k] != '-'
    decreases |s| - from
  {
    if from == |s| || s[from] == '-' then from else DashFrom(s, from + 1)
  }

  /** toupper in the C locale */
  function ToUpper(c: char): char {
    if 'a' <= c <= 'z' then (c as int - 32) as char else c
  }

  method CheckDigits(s: string) returns (ok: bool)
    ensures ok <==> AllDigits(s)
  {
    var k := 0;
    while k < |s|
      invariant 0 <= k <= |s| && forall j :: 0 <= j < k ==> IsDigit(s[j])
    {
      if s[k] < '0' || s[k] > '9' {
        return false;
      }
      k := k + 1;
    }
    return true;
  }

  /** What the parts H, I and C of a string stand for. */
  function ParseParts(h: string, i: string, c: string): Option<Account> {
    if h == [] || i == [] || |c| != 1 then None
    else if !AllDigits(h) || !AllDigits(i) then None
    else if Number(h) >= UINT32 || Number(i) >= UINT32 then None
    else
      DigitsAreCodes(h, i);
      if ToUpper(c[0]) != CheckChar(h + i) then None else Some(Account(Number(h), Number(i)))
  }

  function Parse(str: string): Option<Account> {
    var dash1 := DashFrom(str, 0);
    if dash1 == |str| then None
    else
      var dash2 := DashFrom(str, dash1 + 1);
      if dash2 == |str| then None else ParseParts(str[..dash1], str[dash1 + 1..dash2], str[dash2 + 1..])
  }

  /** fromString */
  method FromString(str: string) returns (out: Option<Account>)
    ensures out == Parse(str)
  {
    var dash1 := DashFrom(str, 0);
    if dash1 == |str| {
      return None;
    }
    var dash2 := DashFrom(str, dash1 + 1);
    if dash2 == |str| {
      return None;
    }
    var h, i, c := str[..dash1], str[dash1 + 1..dash2], str[dash2 + 1..];
    if h == [] || i == [] || |c| != 1 {
      return None;
    }
    var hOk := CheckDigits(h);
    var iOk := CheckDigits(i);
    if !hOk || !iOk {
      return None;
    }
    if Number(h) >= UINT64 || Number(i) >= UINT64 {
      return None;
    }
    if Number(h) >= UINT32 || Number(i) >= UINT32 {
      return None;
    }
    DigitsAreCodes(h, i);
    var expected := LuhnGenerate(h + i);
    if ToUpper(c[0]) != expected {
      return None;
    }
    return Some(Account(Number(h), Number(i)));
  }

  lemma {:induction false} DashIs(s: string, from: nat, p: nat)
    requires from <= p < |s| && s[p] == '-' && forall k :: from <= k < p ==> s[k] != '-'
    ensures DashFrom(s, from) == p
    decreases p - from
  {
    if from < p {
      DashIs(s, from + 1, p);
    }
  }

  /** The parts of a string are where they were put. */
  lemma {:induction false} PartsOf(h: string, i: string, c: string)
    requires AllDigits(h) && AllDigits(i)
    ensures Parse(h + "-" + i + "-" + c) == ParseParts(h, i, c)
  {
    var str := h + "-" + i + "-" + c;
    var p, q := |h|, |h| + 1 + |i|;
    forall k | 0 <= k < p ensures str[k] != '-' {
      assert str[k] == h[k] && IsDigit(h[k]);
    }
    DashIs(str, 0, p);
    forall k | p + 1 <= k < q ensures str[k] != '-' {
      assert str[k] == i[k - p - 1] && IsDigit(i[k - p - 1]);
    }
    DashIs(str, p + 1, q);
    assert str[..p] == h && str[p + 1..q] == i && str[q + 1..] == c;
  }

  /** A string is accepted exactly if it is H-I-C with digits H and I below 2^32
      and their check character, in upper or lower case. */
  lemma {:induction false} AcceptedIff(str: string, a: Account)
    ensures Parse(str) == Some(a) <==>
            exists h, i, c :: str == h + "-" + i + "-" + c && AllDigits(h) && AllDigits(i)
                && ParseParts(h, i, c) == Some(a)
  {
    if Parse(str) == Some(a) {
      var p := DashFrom(str, 0);
      var q := DashFrom(str, p + 1);
      var h, i, c := str[..p], str[p + 1..q], str[q + 1..];
      assert str == h + "-" + i + "-" + c;
    }
    if h, i, c :| str == h + "-" + i + "-" + c && AllDigits(h) && AllDigits(i) && ParseParts(h, i, c) == Some(a) {
      PartsOf(h, i, c);
    }
  }

  /** A printed account number is read back as itself. */
  lemma {:induction false} PrintRoundTrip(a: Account)
    requires AccountOk(a)
    ensures Parse(Print(a)) == Some(a)
  {
    var h, i := Decimal(a.blockHeight), Decimal(a.txIndex);
    DigitsAreCodes(h, i);
    NumberOfDecimal(a.blockHeight);
    NumberOfDecimal(a.txIndex);
    PartsOf(h, i, [CheckChar(h + i)]);
  }

  /** Every accepted string, leading zeros and lower case included, prints back to
      one that is accepted for the same account. */
  lemma {:induction false} AcceptedReprints(str: string)
    requires Parse(str).Some?
    ensures AccountOk(Parse(str).value) && Parse(Print(Parse(str).value)) == Parse(str)
  {
    PrintRoundTrip(Parse(str).value);
  }

  // ----- what the check character detects -----

  lemma {:induction false} CheckCodeIs(sum: nat)
    ensures CheckCode(sum) == if sum % 36 == 0 then 0 else 36 - sum % 36
  {
  }

  lemma {:induction false} CheckCodeInjective(a: nat, b: nat)
    ensures CheckCode(a) == CheckCode(b) <==> a % 36 == b % 36
  {
    CheckCodeIs(a);
    CheckCodeIs(b);
  }

  /** Equal check characters mean equal sums modulo 36. */
  lemma {:induction false} CheckIsSum(s: string, t: string)
    requires AllCodes(s) && AllCodes(t)
    ensures CheckChar(s) == CheckChar(t) <==> LuhnSum(s, true) % 36 == LuhnSum(t, true) % 36
  {
    CheckCodeInjective(LuhnSum(s, true), LuhnSum(t, true));
  }

  /** Doubling permutes the codes. */
  lemma {:induction false} TermInjective(c: nat, d: nat, twice: bool)
    requires c < 36 && d < 36
    ensures Term(c, twice) < 36 && (Term(c, twice) == Term(d, twice) <==> c == d)
  {
    assert Doubled(c) == if c < 18 then 2 * c else 2 * c - 35;
    assert Doubled(d) == if d < 18 then 2 * d else 2 * d - 35;
  }

  /** Is position i of s doubled? */
  predicate Twice(s: string, i: nat, last: bool)
    requires i < |s|
    decreases |s|
  {
    if i == |s| - 1 then last else Twice(s[..|s| - 1], i, !last)
  }

  /** Changing one character changes the sum by the difference of its terms. */
  lemma {:induction false} SumAfterChange(s: string, i: nat, c: char, last: bool)
    requires AllCodes(s) && i < |s| && CharToCode(c) >= 0
    ensures AllCodes(s[i := c])
    ensures LuhnSum(s[i := c], last)
            == LuhnSum(s, last) - Term(CharToCode(s[i]), Twice(s, i, last)) + Term(CharToCode(c), Twice(s, i, last))
    decreases |s|
  {
    var m := |s| - 1;
    if i < m {
      SumAfterChange(s[..m], i, c, !last);
      assert s[i := c][..m] == s[..m][i := c];
    } else {
      assert s[i := c][..m] == s[..m];
    }
  }

  lemma {:induction false} ModDistinct(x: nat, y: nat, a: nat, b: nat)
    requires a < 36 && b < 36 && y == x - a + b
    ensures x % 36 == y % 36 <==> a == b
  {
  }

  lemma {:induction false} ModDifference(x: nat, y: nat)
    ensures x % 36 == y % 36 <==> (x - y) % 36 == 0
  {
  }

  /** A single changed character is always detected. */
  lemma {:induction false} SubstitutionDetected(s: string, i: nat, c: char)
    requires AllCodes(s) && i < |s| && CharToCode(c) >= 0 && CharToCode(c) != CharToCode(s[i])
    ensures AllCodes(s[i := c]) && CheckChar(s[i := c]) != CheckChar(s)
  {
    SumAfterChange(s, i, c, true);
    var t := Twice(s, i, true);
    TermInjective(CharToCode(s[i]), CharToCode(c), t);
    CheckIsSum(s, s[i := c]);
    ModDistinct(LuhnSum(s, true), LuhnSum(s[i := c], true), Term(CharToCode(s[i]), t), Term(CharToCode(c), t));
  }

  /** Neighbours have different weights. */
  lemma {:induction false} NeighboursDiffer(s: string, i: nat, last: bool)
    requires i + 1 < |s|
    ensures Twice(s, i, last) == !Twice(s, i + 1, last)
    decreases |s|
  {
    if i + 1 < |s| - 1 {
      NeighboursDiffer(s[..|s| - 1], i, !last);
    }
  }

  lemma {:induction false} TwiceKept(s: string, i: nat, c: char, j: nat, last: bool)
    requires i < |s| && j < |s|
    ensures Twice(s[i := c], j, last) == Twice(s, j, last)
    decreases |s|
  {
    var m := |s| - 1;
    if j < m {
      if i < m {
        TwiceKept(s[..m], i, c, j, !last);
        assert s[i := c][..m] == s[..m][i := c];
      } else {
        assert s[i := c][..m] == s[..m];
      }
    }
  }

  function Swapped(s: string, i: nat): string
    requires i + 1 < |s|
  {
    s[i := s[i + 1]][i + 1 := s[i]]
  }

  /** Adjacent characters swapped: the sum changes by what doubling one instead
      of the other makes. */
  lemma {:induction false} SumAfterSwap(s: string, i: nat)
    requires AllCodes(s) && i + 1 < |s|
    ensures AllCodes(Swapped(s, i))
    ensures var a, b := CharToCode(s[i]), CharToCode(s[i + 1]);
            var d := Doubled(a) + b - Doubled(b) - a;
            LuhnSum(Swapped(s, i), true) == LuhnSum(s, true) + (if Twice(s, i, true) then -d else d)
  {
    var t := s[i := s[i + 1]];
    SumAfterChange(s, i, s[i + 1], true);
    SumAfterChange(t, i + 1, s[i], true);
    TwiceKept(s, i, s[i + 1], i + 1, true);
    NeighboursDiffer(s, i, true);
  }

  lemma {:induction false} SwapDifference(a: nat, b: nat)
    requires a < 36 && b < 36
    ensures var d := Doubled(a) + b - Doubled(b) - a;
            d % 36 == 0 <==> a == b || (a == 0 && b == 35) || (a == 35 && b == 0)
  {
    assert Doubled(a) == if a < 18 then 2 * a else 2 * a - 35;
    assert Doubled(b) == if b < 18 then 2 * b else 2 * b - 35;
  }

  /** A swap of two neighbours goes undetected exactly if they are equal codes or
      0 and Z. */
  lemma {:induction false} SwapDetectedIff(s: string, i: nat)
    requires AllCodes(s) && i + 1 < |s|
    ensures AllCodes(Swapped(s, i))
    ensures var a, b := CharToCode(s[i]), CharToCode(s[i + 1]);
            CheckChar(Swapped(s, i)) == CheckChar(s) <==> a == b || (a == 0 && b == 35) || (a == 35 && b == 0)
  {
    var a, b := CharToCode(s[i]), CharToCode(s[i + 1]);
    SumAfterSwap(s, i);
    SwapDifference(a, b);
    SwapDifference(b, a);
    CheckIsSum(s, Swapped(s, i));
    ModDifference(LuhnSum(Swapped(s, i), true), LuhnSum(s, true));
  }

  /** In digit strings every swap of different neighbours is detected. */
  lemma {:induction false} DigitSwapDetected(s: string, i: nat)
    requires AllDigits(s) && i + 1 < |s| && s[i] != s[i + 1]
    ensures AllCodes(s) && AllCodes(Swapped(s, i)) && CheckChar(Swapped(s, i)) != CheckChar(s)
  {
    assert AllCodes(s);
    SwapDetectedIff(s, i);
  }

  /** One check character does not fit two different sums. */
  lemma {:induction false} OtherCheckRefused(h: string, i: string, c: string, h': string, i': string)
    requires AllDigits(h) && AllDigits(i) && AllDigits(h') && AllDigits(i') && ParseParts(h, i, c).Some?
    requires AllCodes(h + i) && AllCodes(h' + i') && CheckChar(h' + i') != CheckChar(h + i)
    ensures ParseParts(h', i', c) == None
  {
  }

  /** A digit of H mistyped in an accepted account number: the string is refused. */
  lemma {:induction false} MistypedHeightRefused(h: string, i: string, c: string, k: nat, d: char)
    requires AllDigits(h) && AllDigits(i) && Parse(h + "-" + i + "-" + c).Some? && k < |h| && IsDigit(d) && d != h[k]
    ensures Parse(h[k := d] + "-" + i + "-" + c) == None
  {
    var h' := h[k := d];
    PartsOf(h, i, c);
    PartsOf(h', i, c);
    DigitsAreCodes(h, i);
    DigitsAreCodes(h', i);
    assert (h + i)[k := d] == h' + i;
    SubstitutionDetected(h + i, k, d);
    OtherCheckRefused(h, i, c, h', i);
  }

  /** The same for a digit of I. */
  lemma {:induction false} MistypedIndexRefused(h: string, i: string, c: string, k: nat, d: char)
    requires AllDigits(h) && AllDigits(i) && Parse(h + "-" + i + "-" + c).Some? && k < |i| && IsDigit(d) && d != i[k]
    ensures Parse(h + "-" + i[k := d] + "-" + c) == None
  {
    var i' := i[k := d];
    PartsOf(h, i, c);
    PartsOf(h, i', c);
    DigitsAreCodes(h, i);
    DigitsAreCodes(h, i');
    assert (h + i)[|h| + k := d] == h + i';
    SubstitutionDetected(h + i, |h| + k, d);
    OtherCheckRefused(h, i, c, h, i');
  }

  /** Two different neighbouring digits swapped in an accepted account number, in H,
      in I or across the dash: the string is refused. */
  lemma {:induction false} SwappedDigitsRefused(h: string, i: string, c: string, k: nat)
    requires AllDigits(h) && AllDigits(i) && Parse(h + "-" + i + "-" + c).Some?
    requires k + 1 < |h + i| && (h + i)[k] != (h + i)[k + 1]
    ensures var s := Swapped(h + i, k); Parse(s[..|h|] + "-" + s[|h|..] + "-" + c) == None
  {
    var s := Swapped(h + i, k);
    var h', i' := s[..|h|], s[|h|..];
    assert AllDigits(h + i);
    assert AllDigits(s);
    assert h' + i' == s;
    PartsOf(h, i, c);
    PartsOf(h', i', c);
    DigitSwapDetected(h + i, k);
    OtherCheckRefused(h, i, c, h', i');
  }

  /** A moved dash is never detected: the check character is that of the digits of
      H and I together.  Such a string is refused only if a part is empty or too
      large. */
  lemma {:induction false} MovedDashAcceptedIff(h: string, i: string, c: string, h': string, i': string)
    requires AllDigits(h) && AllDigits(i) && AllDigits(h') && AllDigits(i') && h' + i' == h + i
    requires Parse(h + "-" + i + "-" + c).Some?
    ensures Parse(h' + "-" + i' + "-" + c)
            == if h' != [] && i' != [] && Number(h') < UINT32 && Number(i') < UINT32
               then Some(Account(Number(h'), Number(i'))) else None
  {
    PartsOf(h, i, c);
    PartsOf(h', i', c);
  }

  /** One digit string, one check character, two account numbers. */
  lemma {:induction false} MovedDashMissed()
    ensures exists c :: Parse("12-3-" + c) == Some(Account(12, 3)) && Parse("1-23-" + c) == Some(Account(1, 23))
  {
    NumberOfTwo('1', '2');
    NumberOfTwo('2', '3');
    NumberOfOne('1');
    NumberOfOne('3');
    DigitsAreCodes("12", "3");
    var c := [CheckChar("12" + "3")];
    PartsOf("12", "3", c);
    assert "12" + "-" + "3" + "-" + c == "12-3-" + c;
    assert ToUpper(c[0]) == c[0];
    MovedDashAcceptedIff("12", "3", c, "1", "23");
    assert "1" + "-" + "23" + "-" + c == "1-23-" + c;
  }

  lemma {:induction false} NumberOfOne(a: char)
    requires IsDigit(a)
    ensures AllDigits([a]) && Number([a]) == DigitOf(a)
  {
    assert [a][..0] == [];
  }

  lemma {:induction false} NumberOfTwo(a: char, b: char)
    requires IsDigit(a) && IsDigit(b)
    ensures AllDigits([a, b]) && Number([a, b]) == 10 * DigitOf(a) + DigitOf(b)
  {
    NumberOfOne(a);
    assert [a, b][..1] == [a];
  }
}
