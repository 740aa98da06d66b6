/** Account numbers in plain numbers: the check character by the digits it is
    computed from, decimal strings by place values, and packing by order. */
module AccountCheck {
  import opened Basics
  import opened AccountNumber

  // ----- the check character -----

  /** The sum of the digits of v in base 36. */
  function DigitSum36(v: nat): nat {
    if v == 0 then 0 else v % 36 + DigitSum36(v / 36)
  }

  /** Doubling adds the two base 36 digits of twice the code. */
  lemma {:induction false} DoubledIsDigitSum(c: nat)
    requires c < 36
    ensures Doubled(c) == DigitSum36(2 * c)
    ensures c < 10 ==> Doubled(c) == 2 * c
  {
    var v := 2 * c;
    assert v / 36 < 36;
    assert DigitSum36(v / 36) == v / 36 by {
      assert v / 36 == 0 || (v / 36) / 36 == 0;
    }
  }

  /** Is position k of n, counted from the right and from 0, an even one? */
  predicate IsSecond(n: nat, k: nat)
    requires k < n
  {
    (n - 1 - k) % 2 == 0
  }

  /** The weighted sum, from the left. */
  ghost function Weighted(s: string): nat
    requires AllCodes(s)
  {
    if s == [] then 0
    else (if IsSecond(|s|, 0) then DigitSum36(2 * CharToCode(s[0])) else CharToCode(s[0])) + Weighted(s[1..])
  }

  lemma {:induction false} SumFromLeft(s: string, twice: bool)
    requires AllCodes(s) && s != []
    ensures AllCodes(s[1..])
    ensures LuhnSum(s, twice) == Term(CharToCode(s[0]), IsSecond(|s|, 0) == twice) + LuhnSum(s[1..], twice)
    decreases |s|
  {
    var m := |s| - 1;
    if m == 0 {
      assert s[..0] == [] && s[1..] == [];
    } else {
      Middle(s);
      SumFromLeft(s[..m], !twice);
      Parity(m);
      assert LuhnSum(s[1..], twice) == Term(CharToCode(s[m]), twice) + LuhnSum(s[1..m], !twice);
    }
  }

  lemma {:induction false} Middle(s: string)
    requires |s| >= 2
    ensures var m := |s| - 1; s[..m][1..] == s[1..m] == s[1..][..m - 1] && s[1..][m - 1] == s[m]
  {
  }

  lemma {:induction false} Parity(m: nat)
    requires m > 0
    ensures IsSecond(m + 1, 0) == !IsSecond(m, 0)
  {
  }

  lemma {:induction false} WeightedIsSum(s: string)
    requires AllCodes(s)
    ensures LuhnSum(s, true) == Weighted(s)
  {
    if s != [] {
      SumFromLeft(s, true);
      DoubledIsDigitSum(CharToCode(s[0]));
      WeightedIsSum(s[1..]);
    }
  }

  /** The check character brings the weighted sum to a multiple of 36, and is the only
      character of the alphabet that does. */
  lemma {:induction false} CheckCharLaw(s: string, k: nat)
    requires AllCodes(s) && k < 36
    ensures CheckChar(s) == ALPHABET[k] <==> (k + Weighted(s)) % 36 == 0
  {
    WeightedIsSum(s);
    AlphabetIs(k);
    CheckCodeUnique(Weighted(s), k);
    assert CharToCode(CheckChar(s)) == CheckCode(Weighted(s));
  }

  lemma {:induction false} CheckCodeUnique(sum: nat, k: nat)
    requires k < 36
    ensures CheckCode(sum) == k <==> (k + sum) % 36 == 0
  {
    CheckCodeIs(sum);
    var q, r := sum / 36, sum % 36;
    assert k + sum == 36 * q + (k + r);
    assert (k + sum) % 36 == (k + r) % 36;
  }

  /** The digits at the even or at the odd positions from the right. */
  function DigitsAt(s: string, even: bool): nat
    requires AllDigits(s)
  {
    if s == [] then 0
    else (if IsSecond(|s|, 0) == even then DigitOf(s[0]) else 0) + DigitsAt(s[1..], even)
  }

  lemma {:induction false} DigitsWeigh(s: string)
    requires AllDigits(s)
    ensures AllCodes(s) && Weighted(s) == 2 * DigitsAt(s, true) + DigitsAt(s, false)
  {
    if s != [] {
      DigitsWeigh(s[1..]);
      assert AllCodes(s);
      DoubledIsDigitSum(CharToCode(s[0]));
    }
  }

  /** For digit strings: twice every second digit from the right, beginning with the
      last, plus the other digits, plus the check code is a multiple of 36. */
  lemma {:induction false} DigitCheckLaw(s: string, k: nat)
    requires AllDigits(s) && k < 36
    ensures AllCodes(s)
    ensures CheckChar(s) == ALPHABET[k] <==> (k + 2 * DigitsAt(s, true) + DigitsAt(s, false)) % 36 == 0
  {
    DigitsWeigh(s);
    CheckCharLaw(s, k);
  }

  // ----- the alphabet -----

  const LOWER := "0123456789abcdefghijklmnopqrstuvwxyz"

  /** Codes of characters, in either case. */
  lemma {:induction false} CodeOf(c: char, k: nat)
    requires k < 36
    ensures CharToCode(c) == k <==> c == ALPHABET[k] || c == LOWER[k]
    ensures ToUpper(c) == ALPHABET[k] <==> c == ALPHABET[k] || c == LOWER[k]
  {
    LowerIs(k);
    AlphabetIs(k);
  }

  lemma {:induction false} LowerIs(k: nat)
    requires k < 36
    ensures LOWER[k] == if k < 10 then '0' + k as char else 'a' + (k - 10) as char
  {
  }

  // ----- decimal strings -----

  function Pow10(n: nat): nat {
    if n == 0 then 1 else 10 * Pow10(n - 1)
  }

  /** Place values. */
  lemma {:induction false} NumberFromLeft(s: string)
    requires AllDigits(s) && s != []
    ensures Number(s) == DigitOf(s[0]) * Pow10(|s| - 1) + Number(s[1..])
    decreases |s|
  {
    var m := |s| - 1;
    if m == 0 {
      assert s[..0] == [] && s[1..] == [];
    } else {
      NumberFromLeft(s[..m]);
      assert s[..m][1..] == s[1..][..m - 1];
      assert 10 * (DigitOf(s[0]) * Pow10(m - 1)) == DigitOf(s[0]) * Pow10(m);
    }
  }

  /** Decimal strings have no leading zero. */
  lemma {:induction false} NoLeadingZero(n: nat)
    ensures Decimal(n)[0] == '0' <==> n == 0
    ensures n == 0 ==> Decimal(n) == "0"
  {
    if n >= 10 {
      NoLeadingZero(n / 10);
    }
  }

  // ----- packing -----

  /** Packed values are ordered by height first, by index second. */
  lemma {:induction false} PackedOrder(a: Account, b: Account)
    requires AccountOk(a) && AccountOk(b)
    ensures ToUint64(a) < ToUint64(b)
            <==> a.blockHeight < b.blockHeight || (a.blockHeight == b.blockHeight && a.txIndex < b.txIndex)
  {
    if a.blockHeight < b.blockHeight {
      assert (a.blockHeight + 1) * UINT32 <= b.blockHeight * UINT32;
    } else if a.blockHeight > b.blockHeight {
      assert (b.blockHeight + 1) * UINT32 <= a.blockHeight * UINT32;
    }
  }

  // ----- what is accepted -----

  /** H and I are digit strings of these numbers, below 2^32, and the character
      completes the check sum. */
  ghost predicate IsAccountString(str: string, a: Account, h: string, i: string, c: char) {
    && str == h + "-" + i + "-" + [c] && h != [] && i != [] && AllDigits(h) && AllDigits(i)
    && Number(h) == a.blockHeight < 0x1_0000_0000 && Number(i) == a.txIndex < 0x1_0000_0000
    && CharToCode(c) >= 0 && AllDigits(h + i)
    && (CharToCode(c) + 2 * DigitsAt(h + i, true) + DigitsAt(h + i, false)) % 36 == 0
  }

  lemma {:induction false} PartsAreChecked(h: string, i: string, c: char, a: Account)
    requires AllDigits(h) && AllDigits(i)
    ensures ParseParts(h, i, [c]) == Some(a) <==> IsAccountString(h + "-" + i + "-" + [c], a, h, i, c)
  {
    DigitsAreCodes(h, i);
    var check := CheckChar(h + i);
    var k := CheckCode(LuhnSum(h + i, true));
    AlphabetIs(k);
    DigitCheckLaw(h + i, k);
    CodeOf(c, k);
    if CharToCode(c) >= 0 {
      DigitCheckLaw(h + i, CharToCode(c));
      AlphabetIs(CharToCode(c));
    }
  }

  /** A string stands for an account if and only if it is H-I-C in these numbers. */
  lemma {:induction false} AcceptedInNumbers(str: string, a: Account)
    ensures Parse(str) == Some(a) <==> exists h, i, c :: IsAccountString(str, a, h, i, c)
  {
    AcceptedIff(str, a);
    if Parse(str) == Some(a) {
      var h, i, c :| str == h + "-" + i + "-" + c && AllDigits(h) && AllDigits(i) && ParseParts(h, i, c) == Some(a);
      assert c == [c[0]];
      PartsAreChecked(h, i, c[0], a);
      assert IsAccountString(str, a, h, i, c[0]);
    }
    if h, i, c :| IsAccountString(str, a, h, i, c) {
      PartsAreChecked(h, i, c, a);
    }
  }

  /** What is printed: decimal numbers without leading zeros, and the check character
      in upper case. */
  lemma {:induction false} PrintedInNumbers(a: Account) returns (k: nat)
    requires AccountOk(a)
    ensures k < 36 && Print(a) == Decimal(a.blockHeight) + "-" + Decimal(a.txIndex) + "-" + [ALPHABET[k]]
    ensures IsAccountString(Print(a), a, Decimal(a.blockHeight), Decimal(a.txIndex), ALPHABET[k])
  {
    var h, i := Decimal(a.blockHeight), Decimal(a.txIndex);
    DigitsAreCodes(h, i);
    k := CheckCode(LuhnSum(h + i, true));
    AlphabetIs(k);
    PrintRoundTrip(a);
    PartsOf(h, i, [ALPHABET[k]]);
    PartsAreChecked(h, i, ALPHABET[k], a);
  }
}
