/** Decimal numerals: counting digits, recognising, reading and printing them (src/helper.c). */
module Decimals {
  import opened Integers

  function Abs(x: int): nat {
    if x < 0 then -x else x
  }

  function DigitChar(d: nat): (c: char)
    requires d < 10
    ensures IsDigit(c) && DigitValue(c) == d
  {
    (d + '0' as int) as char
  }

  predicate IsDigit(c: char) {
    '0' <= c <= '9'
  }

  function DigitValue(c: char): int {
    c as int - '0' as int
  }

  /** The digits of `n`, none for 0. */
  function Digits(n: nat): string {
    if n == 0 then "" else Digits(n / 10) + [DigitChar(n % 10)]
  }

  /** What `sprintf` prints for "%d". */
  function Decimal(x: int): string {
    if x == 0 then "0" else if x < 0 then "-" + Digits(-x) else Digits(x)
  }

  /** The index of the first digit: a leading minus sign is skipped. */
  function SignLength(s: string): nat {
    if s != "" && s[0] == '-' then 1 else 0
  }

  /** An optional minus sign and digits, possibly none of either. */
  predicate Numeric(s: string) {
    forall i :: SignLength(s) <= i < |s| ==> IsDigit(s[i])
  }

  function NatValue(s: string): int {
    if s == "" then 0 else NatValue(s[..|s| - 1]) * 10 + DigitValue(s[|s| - 1])
  }

  function Value(s: string): int {
    var v := NatValue(s[SignLength(s)..]);
    if SignLength(s) == 1 then -v else v
  }

  /** The value of a numeral as an `int`: beyond the range of `int` it is another number. */
  function IntValue(s: string): int32 {
    Wrap(Value(s))
  }

  /** What `ndigits` counts: no digit for 0, and none for the least `int`, whose negation is not positive. */
  function DigitCount(x: int): nat {
    if x == INT_MIN then 0 else |Digits(Abs(x))|
  }

  // ----- the loops

  method NDigits(x: int32) returns (res: int)
    ensures res == DigitCount(x)
  {
    var n: int := x;
    if n < 0 {
      assert FitsInt(n);
      n := Wrap(-n);
    }
    res := 0;
    while n > 0
      invariant n >= 0 || x == INT_MIN
      invariant n > 0 ==> x != INT_MIN
      invariant n >= 0 ==> res + |Digits(n)| == DigitCount(x)
      invariant n < 0 ==> res == DigitCount(x)
    {
      n := n / 10;
      res := res + 1;
    }
  }

  method IsNumber(str: string) returns (r: bool)
    ensures r <==> Numeric(str)
  {
    var n := |str|;
    var i := if n > 0 && str[0] == '-' then 1 else 0;
    while i < n
      invariant SignLength(str) <= i <= n
      invariant forall k :: SignLength(str) <= k < i ==> IsDigit(str[k])
    {
      if !IsDigit(str[i]) {
        return false;
      }
      i := i + 1;
    }
    return true;
  }

  lemma NoDigits()
    ensures NatValue("") == 0 && Digits(0) == ""
  {
  }

  /** One more digit, in an `int`. */
  lemma DigitRead(s: string, from: nat, i: nat)
    requires from <= i < |s|
    ensures Wrap(Wrap(NatValue(s[from..i])) * 10 + DigitValue(s[i])) == Wrap(NatValue(s[from..i + 1]))
  {
    assert s[from..i + 1][..i - from] == s[from..i];
    hide Wrap;
    WrapStep(NatValue(s[from..i]), 10, DigitValue(s[i]));
  }

  lemma SignRead(n: int)
    ensures Wrap(Wrap(n) * -1) == Wrap(-n)
  {
    WrapStep(n, -1, 0);
  }

  method StrToI(str: string) returns (res: int32)
    requires Numeric(str)
    ensures res == IntValue(str)
  {
    hide NatValue, Wrap;
    NoDigits();
    res := 0;
    var i := if |str| > 0 && str[0] == '-' then 1 else 0;
    var neg, n := i, |str|;
    assert str[neg..i] == "";
    while i < n
      invariant neg <= i <= n
      invariant res == Wrap(NatValue(str[neg..i]))
    {
      DigitRead(str, neg, i);
      res := Wrap(res * 10 + (str[i] as int - '0' as int));
      i := i + 1;
    }
    assert str[neg..i] == str[neg..];
    if neg != 0 {
      SignRead(NatValue(str[neg..]));
      res := Wrap(res * -1);
    }
  }

  // ----- printing and reading back

  lemma {:induction false} DigitsProperties(n: nat)
    ensures forall i :: 0 <= i < |Digits(n)| ==> IsDigit(Digits(n)[i])
    ensures NatValue(Digits(n)) == n
    ensures n > 0 ==> |Digits(n)| > 0 && Digits(n)[0] != '0'
  {
    if n > 0 {
      DigitsProperties(n / 10);
      assert Digits(n)[..|Digits(n)| - 1] == Digits(n / 10);
    }
  }

  /** What `intostr` prints is recognised as a number, and `strtoi` reads every `int` back from it. */
  lemma ReadBackDecimal(x: int)
    ensures Numeric(Decimal(x)) && Value(Decimal(x)) == x
    ensures FitsInt(x) ==> IntValue(Decimal(x)) == x
  {
    DigitsProperties(Abs(x));
    var s := Decimal(x);
    if x == 0 {
      assert s[..0] == "" && s[SignLength(s)..] == s;
      assert NatValue(s) == NatValue("") * 10 + 0;
    } else if x < 0 {
      assert s[1..] == Digits(-x);
      assert SignLength(s) == 1;
    } else {
      assert IsDigit(s[0]);
      assert s[0..] == s && SignLength(s) == 0;
    }
  }

  function Pow10(k: nat): int {
    if k == 0 then 1 else 10 * Pow10(k - 1)
  }

  lemma {:induction false} DigitsAtMost(n: nat, k: nat)
    requires n < Pow10(k)
    ensures |Digits(n)| <= k
    decreases k
  {
    if n > 0 {
      DigitsAtMost(n / 10, k - 1);
    }
  }

  lemma {:induction false} DigitsAtLeast(n: nat, k: nat)
    requires n >= Pow10(k)
    ensures |Digits(n)| >= k + 1
    decreases k
  {
    if k > 0 {
      DigitsAtLeast(n / 10, k - 1);
    }
  }

  /** `Decimal` prints a sign, or the digit of 0, beyond the digits counted, and all of the least `int` beyond none. */
  lemma DecimalLength(x: int)
    ensures x != INT_MIN ==> |Decimal(x)| == DigitCount(x) + if x <= 0 then 1 else 0
    ensures x == INT_MIN ==> |Decimal(x)| >= DigitCount(x) + 2
  {
    DigitsProperties(Abs(x));
  }

  /** A numeral as `Decimal` prints it: "0", or a non-zero first digit after an optional sign. */
  predicate Canonical(s: string) {
    s == "0" || (SignLength(s) < |s| && s[SignLength(s)] != '0')
  }

  lemma {:induction false} DigitsOfValue(s: string)
    requires forall i :: 0 <= i < |s| ==> IsDigit(s[i])
    requires s == "" || s[0] != '0'
    ensures NatValue(s) >= 0 && Digits(NatValue(s)) == s
    ensures s != "" ==> NatValue(s) > 0
  {
    hide NatValue, Digits;
    if s == "" {
      NoDigits();
    } else {
      var front, last := s[..|s| - 1], s[|s| - 1];
      LastDigit(s);
      assert IsDigit(last);
      assert front != "" ==> front[0] == s[0];
      NoDigits();
      DigitsOfValue(front);
      DigitAppended(NatValue(front), last);
      assert s == front + [last];
    }
  }

  lemma LastDigit(s: string)
    requires s != ""
    ensures NatValue(s) == NatValue(s[..|s| - 1]) * 10 + DigitValue(s[|s| - 1])
  {
  }

  /** Appending a digit to the digits of `n`. */
  lemma DigitAppended(n: nat, c: char)
    requires IsDigit(c) && (n == 0 ==> c != '0')
    ensures n * 10 + DigitValue(c) > 0
    ensures Digits(n * 10 + DigitValue(c)) == Digits(n) + [c]
  {
    var v, d := n * 10 + DigitValue(c), DigitValue(c);
    assert v / 10 == n && v % 10 == d;
    assert DigitChar(d) == c;
  }

  /** A string recognised as a number survives reading and printing exactly when it is canonical and an `int`. */
  lemma PrintBackIffCanonical(s: string)
    requires Numeric(s)
    ensures Decimal(IntValue(s)) == s <==> Canonical(s) && FitsInt(Value(s))
  {
    ValuePrintsBack(s);
    if Decimal(IntValue(s)) == s {
      ReadBackDecimal(IntValue(s));
    }
  }

  lemma ValuePrintsBack(s: string)
    requires Numeric(s)
    ensures Decimal(Value(s)) == s <==> Canonical(s)
  {
    hide NatValue, Digits;
    NoDigits();
    var k := SignLength(s);
    var ds := s[k..];
    forall i | 0 <= i < |ds|
      ensures IsDigit(ds[i])
    {
      assert ds[i] == s[k + i];
    }
    if Canonical(s) && s != "0" {
      assert ds[0] == s[k];
      DigitsOfValue(ds);
      assert s == s[..k] + ds;
      if k == 1 {
        assert s[..1] == "-";
      } else {
        assert s[..0] == "";
      }
    } else if s == "0" {
      assert s[..0] == "" && ds == s;
      LastDigit(s);
    } else {
      DecimalIsCanonical(Value(s));
    }
  }

  lemma DecimalIsCanonical(x: int)
    ensures Canonical(Decimal(x))
  {
    DigitsProperties(Abs(x));
    var s := Decimal(x);
    if x < 0 {
      assert s[1] == Digits(-x)[0];
    } else if x > 0 {
      assert IsDigit(s[0]);
    }
  }

  lemma DigitsNoControl(x: int)
    ensures '\r' !in Decimal(x) && '\n' !in Decimal(x)
  {
    DigitsProperties(Abs(x));
  }
}
