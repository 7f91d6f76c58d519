/**
 * numbers.go of humanize-go: English ordinal suffixes ("1st", "12th",
 * "42nd") and thousands separators ("1,234,567") for 64-bit integers. Go's
 * `int` and `uint` are taken to be 64 bits wide, so the Int and Uint variants
 * are the Int64 and Uint64 ones on the same values.
 */
module Humanize {
  import opened GoInt
  import Decimal

  /** abs: the magnitude of i as a uint64. For MinInt64, `i * -1` wraps back
      to MinInt64, and converting that to uint64 gives 2^63, which is still
      the magnitude. */
  function Abs(i: int64): (r: uint64)
    ensures r == if i < 0 then -(i as int) else i as int
  {
    if i < 0 then
      AbsWrap(i);
      Uint64Of(WrapInt64(i * -1))
    else Uint64Of(i)
  }

  lemma AbsWrap(i: int64)
    requires i < 0
    ensures Uint64Of(WrapInt64(i * -1)) == -(i as int)
  {
  }

  const Ords: seq<string> := ["th", "st", "nd", "rd"]

  /** ordinality: "th" for numbers ending in 11, 12 or 13, otherwise chosen
      by the last digit ("st", "nd", "rd" for 1, 2, 3; "th" for the rest). */
  function Ordinality(i: uint64): (r: string)
    ensures r in Ords
  {
    var v := i % 100;
    if v == 11 || v == 12 || v == 13 then Ords[0]
    else
      var lastNum := i % 10;
      if lastNum < 4 then Ords[lastNum] else Ords[0]
  }

  /** The English rule on the written number: a tens digit of 1 always takes
      "th"; otherwise the final digit 1, 2 or 3 takes "st", "nd", "rd" and
      every other final digit takes "th". */
  function EnglishSuffix(s: string): string
    requires |s| >= 1
  {
    if |s| >= 2 && s[|s| - 2] == '1' then "th"
    else if s[|s| - 1] == '1' then "st"
    else if s[|s| - 1] == '2' then "nd"
    else if s[|s| - 1] == '3' then "rd"
    else "th"
  }

  /** The last two characters of the decimal text are the last two digits. */
  lemma DigitsTail(n: nat)
    ensures Decimal.Digits(n)[|Decimal.Digits(n)| - 1] == Decimal.DigitChar(n % 10)
    ensures n >= 10 ==>
      |Decimal.Digits(n)| >= 2 && Decimal.Digits(n)[|Decimal.Digits(n)| - 2] == Decimal.DigitChar(n / 10 % 10)
  {
  }

  /** ordinality picks the suffix the English rule gives for the number's
      decimal text. */
  lemma OrdinalityByText(i: uint64)
    ensures Ordinality(i) == EnglishSuffix(Decimal.Digits(i))
  {
    DigitsTail(i);
    Mod100(i);
    var s := Decimal.Digits(i);
    if i >= 10 {
      assert s[|s| - 2] == '1' <==> i / 10 % 10 == 1;
    }
    assert s[|s| - 1] == '1' <==> i % 10 == 1;
    assert s[|s| - 1] == '2' <==> i % 10 == 2;
    assert s[|s| - 1] == '3' <==> i % 10 == 3;
  }

  lemma Mod100(i: nat)
    ensures i % 100 == (i / 10 % 10) * 10 + i % 10
  {
  }

  /** OrdinalInt64: "%d%s" of i and the ordinality of its magnitude. */
  function OrdinalInt64(i: int64): (r: string)
    ensures r == Decimal.FormatInt(i) + EnglishSuffix(Decimal.Digits(Abs(i)))
  {
    OrdinalityByText(Abs(i));
    Decimal.FormatInt(i) + Ordinality(Abs(i))
  }

  /** OrdinalInt: int64(i) of a 64-bit int is i itself. */
  function OrdinalInt(i: int64): (r: string)
    ensures r == Decimal.FormatInt(i) + EnglishSuffix(Decimal.Digits(Abs(i)))
  {
    OrdinalInt64(i)
  }

  /** OrdinalUint64: "%d%s" of i and its ordinality. */
  function OrdinalUint64(i: uint64): (r: string)
    ensures r == Decimal.Digits(i) + EnglishSuffix(Decimal.Digits(i))
  {
    OrdinalityByText(i);
    Decimal.FormatInt(i) + Ordinality(i)
  }

  /** OrdinalUint: uint64(i) of a 64-bit uint is i itself. */
  function OrdinalUint(i: uint64): (r: string)
    ensures r == Decimal.Digits(i) + EnglishSuffix(Decimal.Digits(i))
  {
    OrdinalUint64(i)
  }

  /** A negative number takes the suffix of its magnitude, after a '-'. */
  lemma OrdinalNegative(i: int64)
    requires i > MinInt64
    ensures OrdinalInt64(-i) == (if i > 0 then "-" else "") + OrdinalUint64(Abs(i))
  {
  }

  /** The examples in the package's documentation. */
  lemma OrdinalDocExamples()
    ensures OrdinalInt(2) == "2nd" && OrdinalInt64(3) == "3rd"
    ensures OrdinalUint(4) == "4th" && OrdinalUint64(42) == "42nd"
  {
  }

  /** 11, 12 and 13 take "th" also inside larger numbers; 101 does not. */
  lemma OrdinalTeenExamples()
    ensures OrdinalUint64(111) == "111th" && OrdinalUint64(101) == "101st"
  {
    assert Decimal.Digits(11) == "11";
    assert Decimal.Digits(111) == "111";
    assert EnglishSuffix("111") == "th";
    assert Decimal.Digits(10) == "10";
    assert Decimal.Digits(101) == "101";
    assert EnglishSuffix("101") == "st";
  }

  /** Negative numbers keep their sign and take the suffix of the magnitude. */
  lemma OrdinalNegativeExamples()
    ensures OrdinalInt64(-1) == "-1st" && OrdinalInt64(-12) == "-12th"
  {
  }

  /** Thousands grouping of a digit string: a ',' before every third
      character counted from the right, never in front. */
  function Group(s: string): (r: string)
    ensures |s| > 0 ==> |r| == |s| + (|s| - 1) / 3
    ensures |s| > 0 ==> r[0] == s[0]
    decreases |s|
  {
    if |s| <= 3 then s else Group(s[..|s| - 3]) + "," + s[|s| - 3..]
  }

  /** What Group(s) holds at position p: counting q places from the right
      end, every fourth place (q = 3, 7, 11, ...) is a ',' and the others are
      the digits of s in order. */
  function GroupedAt(s: string, p: int): char
    requires |s| > 0 && 0 <= p < |s| + (|s| - 1) / 3
  {
    var q := |s| + (|s| - 1) / 3 - 1 - p;
    if q % 4 == 3 then ',' else s[|s| - 1 - (q - q / 4)]
  }

  lemma ThirdShift(n: int)
    requires n > 3
    ensures (n - 4) / 3 == (n - 1) / 3 - 1
  {
  }

  lemma QuarterShift(q: int)
    requires q >= 4
    ensures (q - 4) / 4 == q / 4 - 1 && (q - 4) % 4 == q % 4
  {
  }

  /** Dropping the last group leaves every position q >= 4 places from the
      right end described by the same rule. */
  lemma GroupedAtInit(s: string, p: int)
    requires |s| > 3 && 0 <= p < |s| + (|s| - 1) / 3
    requires |s| + (|s| - 1) / 3 - 1 - p >= 4
    ensures 0 <= p < (|s| - 3) + (|s| - 4) / 3
    ensures GroupedAt(s[..|s| - 3], p) == GroupedAt(s, p)
  {
    var n := |s|;
    var q := n + (n - 1) / 3 - 1 - p;
    ThirdShift(n);
    QuarterShift(q);
    assert (n - 3) + (n - 4) / 3 - 1 - p == q - 4;
  }

  /** The last three positions of Group(s) are the comma and the final
      group of digits. */
  lemma TailArith(n: int, p: int)
    requires n > 3 && 0 <= p < n + (n - 1) / 3
    requires n + (n - 1) / 3 - 1 - p < 4
    ensures var q := n + (n - 1) / 3 - 1 - p;
      0 <= q < 4 && q % 4 == q && q / 4 == 0
    ensures (n - 4) / 3 == (n - 1) / 3 - 1
  {
  }

  /** What the rule says about the last four positions: a ',' at q = 3 and
      the last three digits at q = 0, 1, 2. */
  lemma GroupedAtLast(s: string, p: int)
    requires |s| > 3 && 0 <= p < |s| + (|s| - 1) / 3
    requires |s| + (|s| - 1) / 3 - 1 - p < 4
    ensures var q := |s| + (|s| - 1) / 3 - 1 - p;
      GroupedAt(s, p) == if q == 3 then ',' else s[|s| - 1 - q]
  {
    TailArith(|s|, p);
  }

  /** The last four positions of Group(s) are the comma and the final
      group of digits. */
  lemma GroupLast(s: string, p: int)
    requires |s| > 3 && 0 <= p < |s| + (|s| - 1) / 3
    requires |s| + (|s| - 1) / 3 - 1 - p < 4
    ensures var q := |s| + (|s| - 1) / 3 - 1 - p;
      Group(s)[p] == if q == 3 then ',' else s[|s| - 1 - q]
  {
    var n := |s|;
    TailArith(n, p);
    var init := Group(s[..n - 3]);
    assert Group(s) == init + "," + s[n - 3..];
    assert |init| == n + (n - 1) / 3 - 4;
  }

  lemma {:induction false} GroupAt(s: string, p: int)
    requires |s| > 0 && 0 <= p < |s| + (|s| - 1) / 3
    ensures Group(s)[p] == GroupedAt(s, p)
    decreases |s|
  {
    var n := |s|;
    if n > 3 {
      if n + (n - 1) / 3 - 1 - p >= 4 {
        var init := s[..n - 3];
        ThirdShift(n);
        assert Group(s) == Group(init) + "," + s[n - 3..];
        assert |Group(init)| == n + (n - 1) / 3 - 4;
        GroupedAtInit(s, p);
        GroupAt(init, p);
      } else {
        GroupedAtLast(s, p);
        GroupLast(s, p);
      }
    }
  }

  /** s with every ',' removed. */
  function RemoveCommas(s: string): (r: string)
    ensures ',' !in r
  {
    if s == [] then []
    else (if s[0] == ',' then [] else [s[0]]) + RemoveCommas(s[1..])
  }

  lemma {:induction false} RemoveCommasAppend(a: string, b: string)
    ensures RemoveCommas(a + b) == RemoveCommas(a) + RemoveCommas(b)
  {
    if a != [] {
      assert (a + b)[0] == a[0] && (a + b)[1..] == a[1..] + b;
      RemoveCommasAppend(a[1..], b);
    } else {
      assert a + b == b;
    }
  }

  lemma {:induction false} RemoveCommasNone(s: string)
    requires ',' !in s
    ensures RemoveCommas(s) == s
  {
    if s != [] {
      RemoveCommasNone(s[1..]);
    }
  }

  /** Grouping only inserts separators: removing them gives the digits back. */
  lemma {:induction false} RemoveCommasGroup(s: string)
    requires ',' !in s
    ensures RemoveCommas(Group(s)) == s
    decreases |s|
  {
    if |s| > 3 {
      var init, tail := s[..|s| - 3], s[|s| - 3..];
      assert Group(s) == Group(init) + "," + tail;
      assert RemoveCommas(",") == [];
      RemoveCommasGroup(init);
      RemoveCommasAppend(Group(init) + ",", tail);
      RemoveCommasAppend(Group(init), ",");
      RemoveCommasNone(tail);
      assert s == init + tail;
    } else {
      RemoveCommasNone(s);
    }
  }

  /** The leftmost group has one to three digits and the first ',' follows it;
      every later group has exactly three digits. */
  lemma {:induction false} LeadingGroup(s: string)
    requires |s| > 3 && ',' !in s
    ensures var first := (|s| - 1) % 3 + 1;
      Group(s)[first] == ',' && Group(s)[..first] == s[..first] && ',' !in Group(s)[..first]
    decreases |s|
  {
    var n := |s|;
    var first := (n - 1) % 3 + 1;
    var init := s[..n - 3];
    assert Group(s) == Group(init) + "," + s[n - 3..];
    if |init| <= 3 {
      assert first == |init|;
    } else {
      LeadingGroup(init);
      assert (|init| - 1) % 3 + 1 == first;
      assert Group(s)[..first] == Group(init)[..first];
      assert init[..first] == s[..first];
    }
  }

  /** The c-th digit from the right (c counted from 0) belongs at
      |Group(s)| - 1 - c - c / 3. */
  lemma DigitSlot(s: string, c: nat)
    requires c < |s|
    ensures var f := |s| + (|s| - 1) / 3 - 1 - c - c / 3;
      0 <= f < |Group(s)| && Group(s)[f] == s[|s| - 1 - c]
  {
    var m, r := c / 3, c % 3;
    assert c + c / 3 == 4 * m + r;
    assert c / 3 <= (|s| - 1) / 3;
    GroupAt(s, |s| + (|s| - 1) / 3 - 1 - c - c / 3);
  }

  /** After c digits, c a positive multiple of 3 short of all of them, a ','
      comes next, and the slot before it is where the next digit goes. */
  lemma CommaSlot(s: string, c: nat)
    requires 1 <= c < |s| && c % 3 == 0
    ensures var f := |s| + (|s| - 1) / 3 - 1 - c - (c - 1) / 3;
      0 < f < |Group(s)| && Group(s)[f] == ',' && f - 1 == |s| + (|s| - 1) / 3 - 1 - c - c / 3
  {
    var m := c / 3;
    assert (c - 1) / 3 == m - 1;
    assert c + (c - 1) / 3 == 4 * (m - 1) + 3;
    assert c / 3 <= (|s| - 1) / 3;
    GroupAt(s, |s| + (|s| - 1) / 3 - 1 - c - (c - 1) / 3);
  }

  lemma NoCommaArith(c: nat)
    requires c >= 1 && c % 3 != 0
    ensures (c - 1) / 3 == c / 3
  {
  }

  /** The loop shared by commaInt64 and commaUint64: fills a buffer of
      len(str) + numCommas bytes from the right, one digit at a time, with a
      ',' after every third digit unless it would land in front. `writes`
      lists the indices written, in order: every slot once, right to left. */
  method FillGrouped(str: string) returns (r: string, ghost writes: seq<int>)
    requires |str| > 0
    ensures r == Group(str)
    ensures |writes| == |r| && forall k :: 0 <= k < |writes| ==> writes[k] == |r| - 1 - k
  {
    var lenStr := |str|;
    var numCommas := (lenStr - 1) / 3;
    var finalValue := new char[lenStr + numCommas];
    var L := finalValue.Length;
    var counter := 0;
    var fvIdx := L - 1;
    var i := lenStr - 1;
    writes := [];
    while i >= 0
      invariant -1 <= i < lenStr && counter == lenStr - 1 - i
      invariant |writes| == L - 1 - fvIdx && forall k :: 0 <= k < |writes| ==> writes[k] == L - 1 - k
      invariant i >= 0 ==> fvIdx == L - 1 - counter - counter / 3
      invariant i < 0 ==> fvIdx == -1
      invariant forall p :: fvIdx < p < L ==> finalValue[p] == Group(str)[p]
      decreases i
    {
      DigitSlot(str, counter);
      finalValue[fvIdx] := str[i];
      writes := writes + [fvIdx];
      fvIdx := fvIdx - 1;
      counter := counter + 1;
      if counter < lenStr {
        if counter % 3 == 0 {
          CommaSlot(str, counter);
        } else {
          NoCommaArith(counter);
        }
      }
      if counter % 3 == 0 && fvIdx > 0 {
        finalValue[fvIdx] := ',';
        writes := writes + [fvIdx];
        fvIdx := fvIdx - 1;
      }
      i := i - 1;
    }
    r := finalValue[..];
  }

  /** commaUint64: the decimal text of i grouped in thousands. */
  method FormatCommaUint64(i: uint64) returns (r: string)
    ensures r == Group(Decimal.Digits(i))
  {
    var str := Decimal.FormatInt(i);
    var lenStr := |str|;
    var numCommas := (lenStr - 1) / 3;
    if numCommas == 0 {
      return str;
    }
    ghost var writes;
    r, writes := FillGrouped(str);
  }

  /** commaInt64: the magnitude grouped in thousands, after a '-' when i is
      negative. */
  method FormatCommaInt64(i: int64) returns (r: string)
    ensures r == (if i < 0 then "-" else "") + Group(Decimal.Digits(Abs(i)))
  {
    var str := Decimal.FormatInt(i);
    var isNegative := i < 0;
    if isNegative {
      str := str[1..];
    }
    var lenStr := |str|;
    var numCommas := (lenStr - 1) / 3;
    if numCommas == 0 {
      if isNegative {
        return "-" + str;
      }
      return str;
    }
    ghost var writes;
    var finalValue;
    finalValue, writes := FillGrouped(str);
    r := if isNegative then "-" + finalValue else finalValue;
  }

  method CommaInt64(i: int64) returns (r: string)
    ensures r == (if i < 0 then "-" else "") + Group(Decimal.Digits(Abs(i)))
  {
    r := FormatCommaInt64(i);
  }

  method CommaInt(i: int64) returns (r: string)
    ensures r == (if i < 0 then "-" else "") + Group(Decimal.Digits(Abs(i)))
  {
    r := CommaInt64(i);
  }

  method CommaUint64(i: uint64) returns (r: string)
    ensures r == Group(Decimal.Digits(i))
  {
    r := FormatCommaUint64(i);
  }

  method CommaUint(i: uint64) returns (r: string)
    ensures r == Group(Decimal.Digits(i))
  {
    r := CommaUint64(i);
  }

  /** The grouped text of a number: its digits once the commas are removed,
      (digits - 1) / 3 commas, and at most three digits unchanged. */
  lemma GroupedNumber(n: nat)
    ensures RemoveCommas(Group(Decimal.Digits(n))) == Decimal.Digits(n)
    ensures |Group(Decimal.Digits(n))| == |Decimal.Digits(n)| + (|Decimal.Digits(n)| - 1) / 3
    ensures n < 1000 ==> Group(Decimal.Digits(n)) == Decimal.Digits(n)
  {
    var s := Decimal.Digits(n);
    assert ',' !in s by {
      forall k | 0 <= k < |s|
        ensures s[k] != ','
      {
        assert Decimal.IsDigit(s[k]);
      }
    }
    RemoveCommasGroup(s);
    if n < 1000 && n >= 10 {
      assert |Decimal.Digits(n / 10)| <= 2 by {
        if n / 10 >= 10 {
          assert n / 10 / 10 < 10;
        }
      }
    }
  }

  /** The decimal text of the example numbers. */
  lemma ExampleDigits()
    ensures Decimal.Digits(1000) == "1000" && Decimal.Digits(1000000) == "1000000"
    ensures Decimal.Digits(123456) == "123456" && Decimal.Digits(12) == "12"
  {
    assert Decimal.Digits(1) == "1";
    assert Decimal.Digits(10) == "10";
    assert Decimal.Digits(100) == "100";
    assert Decimal.Digits(1000) == "1000";
    assert Decimal.Digits(10000) == "10000";
    assert Decimal.Digits(100000) == "100000";
    assert Decimal.Digits(12) == "12";
    assert Decimal.Digits(123) == "123";
    assert Decimal.Digits(1234) == "1234";
    assert Decimal.Digits(12345) == "12345";
  }

  /** Examples: a thousand, a million, and a number too short to group. */
  lemma CommaExamples()
    ensures Group(Decimal.Digits(1000)) == "1,000"
    ensures Group(Decimal.Digits(1000000)) == "1,000,000"
    ensures Group(Decimal.Digits(123456)) == "123,456"
    ensures Group(Decimal.Digits(12)) == "12"
  {
    ExampleDigits();
  }
}
