/**
 * Decimal text of integers and Go's strconv.Atoi, as specification functions.
 * Digits and FormatInt stand for strconv.FormatUint/FormatInt in base 10 and
 * for the `%d` verb; Atoi is the parser readHashes uses for the count field.
 */
module Decimal {
  import opened Wrappers
  import opened GoInt

  predicate IsDigit(c: char) {
    '0' <= c <= '9'
  }

  predicate AllDigits(s: string) {
    forall k :: 0 <= k < |s| ==> IsDigit(s[k])
  }

  function DigitChar(d: nat): (c: char)
    requires d < 10
    ensures IsDigit(c) && c as int - '0' as int == d
  {
    ('0' as int + d) as char
  }

  function DigitValue(c: char): (d: nat)
    requires IsDigit(c)
    ensures d < 10 && DigitChar(d) == c
  {
    c as int - '0' as int
  }

  function Pow10(k: nat): (p: nat)
    ensures p >= 1
  {
    if k == 0 then 1 else 10 * Pow10(k - 1)
  }

  /** Decimal text of n: most significant digit first, no leading zero. */
  function Digits(n: nat): (s: string)
    ensures |s| >= 1 && AllDigits(s)
    ensures |s| > 1 ==> s[0] != '0'
    ensures (|s| == 1) == (n < 10)
    ensures s[|s| - 1] == DigitChar(n % 10)
    decreases n
  {
    if n < 10 then [DigitChar(n)] else Digits(n / 10) + [DigitChar(n % 10)]
  }

  /** Signed decimal text: a '-' in front of the magnitude of a negative value. */
  function FormatInt(i: int): (s: string)
    ensures |s| >= 1 && (s[0] == '-' <==> i < 0)
    ensures var digits := if i < 0 then s[1..] else s;
      AllDigits(digits) && ValueOf(digits) == (if i < 0 then -i else i)
  {
    var m: nat := if i < 0 then -i else i;
    ValueOfDigits(m);
    if i < 0 then
      assert ("-" + Digits(m))[1..] == Digits(m);
      "-" + Digits(m)
    else Digits(m)
  }

  /** The number a string of decimal digits denotes (the empty string denotes 0). */
  function ValueOf(s: string): (v: nat)
    requires AllDigits(s)
    ensures v < Pow10(|s|)
  {
    if s == [] then 0 else ValueOf(s[..|s| - 1]) * 10 + DigitValue(s[|s| - 1])
  }

  /** strconv.Atoi on a 64-bit platform: an optional '+' or '-', then one or
      more decimal digits (no '_', no base prefix); a value outside int64 is a
      range error. Every failure is None. */
  function Atoi(s: string): (r: Option<int>)
    ensures r.Some? ==> MinInt64 <= r.value <= MaxInt64
    ensures r.Some? ==> |s| >= 1 && IsDigit(s[|s| - 1])
  {
    var signed := |s| > 0 && (s[0] == '+' || s[0] == '-');
    var magnitude := if signed then s[1..] else s;
    if magnitude == [] || !AllDigits(magnitude) then None
    else
      var v := if signed && s[0] == '-' then 0 - ValueOf(magnitude) else ValueOf(magnitude);
      if MinInt64 <= v <= MaxInt64 then Some(v) else None
  }

  lemma Pow10Eighteen()
    ensures Pow10(18) == 1_000_000_000_000_000_000
  {
    assert Pow10(3) == 1000;
    assert Pow10(6) == 1000_000;
    assert Pow10(9) == 1000_000_000;
    assert Pow10(12) == 1000_000_000_000;
    assert Pow10(15) == 1000_000_000_000_000;
  }

  lemma {:induction false} Pow10Monotone(j: nat, k: nat)
    requires j <= k
    ensures Pow10(j) <= Pow10(k)
    decreases k
  {
    if j < k {
      Pow10Monotone(j, k - 1);
    }
  }

  /** Every unsigned digit string of at most 18 digits is in range, so Atoi accepts it. */
  lemma AtoiShortDigits(s: string)
    requires 0 < |s| <= 18 && AllDigits(s)
    ensures Atoi(s) == Some(ValueOf(s))
  {
    Pow10Monotone(|s|, 18);
    Pow10Eighteen();
  }

  /** Reading back the decimal text of n gives n. */
  lemma {:induction false} ValueOfDigits(n: nat)
    ensures ValueOf(Digits(n)) == n
    decreases n
  {
    var s := Digits(n);
    if n >= 10 {
      assert s[..|s| - 1] == Digits(n / 10);
      ValueOfDigits(n / 10);
    }
  }

  lemma {:induction false} ValueOfPositive(s: string)
    requires |s| >= 1 && AllDigits(s) && s[0] != '0'
    ensures ValueOf(s) >= 1
  {
    if |s| > 1 {
      ValueOfPositive(s[..|s| - 1]);
    }
  }

  /** A digit string without a leading zero is the decimal text of its value. */
  lemma {:induction false} DigitsValueOf(s: string)
    requires |s| >= 1 && AllDigits(s)
    requires |s| > 1 ==> s[0] != '0'
    ensures Digits(ValueOf(s)) == s
  {
    if |s| > 1 {
      var init := s[..|s| - 1];
      DigitsValueOf(init);
      ValueOfPositive(init);
      var n := ValueOf(s);
      assert n / 10 == ValueOf(init) && n % 10 == DigitValue(s[|s| - 1]);
      assert s == init + [s[|s| - 1]];
    }
  }

  /** Atoi reads back what FormatInt writes, for every int64. */
  lemma AtoiFormatInt(i: int64)
    ensures Atoi(FormatInt(i)) == Some(i)
  {
    var m: nat := if i < 0 then 0 - i else i;
    ValueOfDigits(m);
    if i < 0 {
      assert FormatInt(i)[1..] == Digits(m);
    }
  }
}
