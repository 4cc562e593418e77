/** The formatting helpers of Utils.cs: ordinals, repetition counts and the "@" user prefix. */
module Utils {
  import opened Int32

  predicate IsDigit(c: char) {
    '0' <= c <= '9'
  }

  function DigitChar(d: nat): (c: char)
    requires d < 10
    ensures IsDigit(c)
  {
    "0123456789"[d]
  }

  function DigitValue(c: char): (d: nat)
    requires IsDigit(c)
    ensures d < 10 && DigitChar(d) == c
  {
    (c as int - '0' as int) as nat
  }

  /** `ToString()` of a non-negative number: decimal digits, no leading zero. */
  function NatToString(n: nat): (s: string)
    ensures |s| >= 1
    ensures forall i :: 0 <= i < |s| ==> IsDigit(s[i])
    ensures |s| > 1 ==> s[0] != '0'
    ensures s[|s| - 1] == DigitChar(n % 10)
  {
    if n < 10 then [DigitChar(n)]
    else NatToString(n / 10) + [DigitChar(n % 10)]
  }

  /** `ToString()` of an `int`: a minus sign before the digits of a negative number. */
  function IntToString(n: int): (s: string)
    ensures |s| >= 1
    ensures s[|s| - 1] == DigitChar(if n < 0 then -n % 10 else n % 10)
    ensures s[0] == '-' <==> n < 0
  {
    if n < 0 then "-" + NatToString(-n) else NatToString(n)
  }

  /** Reads a string of decimal digits back as a number. */
  function ParseDigits(s: string): nat
    requires forall i :: 0 <= i < |s| ==> IsDigit(s[i])
  {
    if |s| == 0 then 0
    else ParseDigits(s[..|s| - 1]) * 10 + DigitValue(s[|s| - 1])
  }

  /** Rendering a number and reading it back gives the number: the decimal form loses nothing. */
  lemma {:induction false} NatToStringRoundTrip(n: nat)
    ensures ParseDigits(NatToString(n)) == n
  {
    var s := NatToString(n);
    if n >= 10 {
      NatToStringRoundTrip(n / 10);
      assert s[..|s| - 1] == NatToString(n / 10);
    }
  }

  /** Distinct numbers render differently. */
  lemma NatToStringInjective(m: nat, n: nat)
    requires NatToString(m) == NatToString(n)
    ensures m == n
  {
    NatToStringRoundTrip(m);
    NatToStringRoundTrip(n);
  }

  /** After an optional '-', an `int`'s text is all digits and reads back as its magnitude. */
  lemma IntToStringRoundTrip(n: int)
    ensures var s := IntToString(n);
            var digits := if n < 0 then s[1..] else s;
            && (forall i :: 0 <= i < |digits| ==> IsDigit(digits[i]))
            && ParseDigits(digits) == (if n < 0 then -n else n)
  {
    var m: nat := if n < 0 then -n else n;
    var digits := if n < 0 then IntToString(n)[1..] else IntToString(n);
    assert digits == NatToString(m);
    NatToStringRoundTrip(m);
  }

  /** The English ordinal suffix chosen by the last character of a rendered number. */
  function OrdinalSuffix(last: char): (r: string)
    ensures |r| == 2
    ensures r == "th" <==> last != '1' && last != '2' && last != '3'
    ensures last == '1' <==> r == "st"
    ensures last == '2' <==> r == "nd"
    ensures last == '3' <==> r == "rd"
  {
    if last == '1' then "st"
    else if last == '2' then "nd"
    else if last == '3' then "rd"
    else "th"
  }

  /**
   * `Stringify`: a zero-based queue index shown as a one-based ordinal, or
   * `zeroMsg` for zero and negatives. The suffix looks only at the last digit,
   * and `number + 1` wraps for `int.MaxValue`.
   */
  function Stringify(number: Int32, zeroMsg: string): (r: string)
    ensures number <= 0 ==> r == zeroMsg
    ensures 0 < number < MaxInt32 ==>
              r == NatToString(number + 1) + OrdinalSuffix(DigitChar((number + 1) % 10))
  {
    if number <= 0 then zeroMsg
    else
      var shown := IntToString(Wrap(number + 1));
      shown + OrdinalSuffix(shown[|shown| - 1])
  }

  /** At `int.MaxValue` the increment wraps to `int.MinValue`, whose rendering ends in 8: "th". */
  lemma StringifyWrapsAtMax(zeroMsg: string)
    ensures Stringify(MaxInt32, zeroMsg) == IntToString(MinInt32) + "th"
    ensures Stringify(MaxInt32, zeroMsg)[0] == '-'
  {
    assert Wrap(MaxInt32 + 1) == MinInt32;
    var shown := IntToString(MinInt32);
    assert shown[|shown| - 1] == '8';
  }

  /** The suffix follows the last digit only, so the 11th, 12th and 13th come out wrong. */
  lemma StringifyTeens(zeroMsg: string)
    ensures Stringify(10, zeroMsg) == "11st"
    ensures Stringify(11, zeroMsg) == "12nd"
    ensures Stringify(12, zeroMsg) == "13rd"
  {
    assert NatToString(1) == "1" && NatToString(2) == "2" && NatToString(3) == "3";
    assert NatToString(11) == "11" && NatToString(12) == "12" && NatToString(13) == "13";
    assert Stringify(10, zeroMsg) == NatToString(11) + OrdinalSuffix('1');
    assert Stringify(11, zeroMsg) == NatToString(12) + OrdinalSuffix('2');
    assert Stringify(12, zeroMsg) == NatToString(13) + OrdinalSuffix('3');
  }

  /** `MultiStringify`: how many times something happened, in words for one and two. */
  function MultiStringify(number: Int32, zeroMsg: string): (r: string)
    ensures number == 0 ==> r == zeroMsg
    ensures number == 1 ==> r == "once"
    ensures number == 2 ==> r == "twice"
    ensures number !in {0, 1, 2} ==> r == IntToString(number) + " times"
  {
    if number == 0 then zeroMsg
    else if number == 1 then "once"
    else if number == 2 then "twice"
    else IntToString(number) + " times"
  }

  /** Above two the count is spelt out in digits in front of " times" and can be read back. */
  lemma MultiStringifyCountReadable(number: Int32, zeroMsg: string)
    requires number > 2
    ensures var r := MultiStringify(number, zeroMsg);
            |r| > 6 && r[|r| - 6..] == " times"
            && (forall i :: 0 <= i < |r| - 6 ==> IsDigit(r[i]))
            && ParseDigits(r[..|r| - 6]) == number
  {
    var r := MultiStringify(number, zeroMsg);
    assert r[..|r| - 6] == NatToString(number);
    NatToStringRoundTrip(number);
  }

  predicate StartsWithAt(s: string) {
    |s| > 0 && s[0] == '@'
  }

  /** The user-name rule of `GetUser`: prefix "@" unless it is already there. */
  function AtPrefixed(user: string): (r: string)
    ensures StartsWithAt(r)
    ensures StartsWithAt(user) ==> r == user
    ensures !StartsWithAt(user) ==> r == "@" + user
  {
    if StartsWithAt(user) then user else "@" + user
  }

  /** Prefixing a name that already went through `GetUser` changes nothing. */
  lemma AtPrefixedIdempotent(user: string)
    ensures AtPrefixed(AtPrefixed(user)) == AtPrefixed(user)
  {
  }
}
