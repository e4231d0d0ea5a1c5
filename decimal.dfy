/** Base-10 text of non-negative integers: the specification (Digits, ValueOf)
    and the byte-buffer appender the renderer calls (AppendDecimal). */
module Decimal {

  /** 10^k */
  function Pow10(k: nat): (p: nat)
    ensures p >= 1
  {
    if k == 0 then 1 else 10 * Pow10(k - 1)
  }

  predicate IsDigit(c: char) {
    '0' <= c <= '9'
  }

  function DigitChar(d: nat): (c: char)
    requires d < 10
    ensures IsDigit(c)
  {
    ('0' as int + d) as char
  }

  function DigitValue(c: char): (d: nat)
    requires IsDigit(c)
    ensures d < 10 && DigitChar(d) == c
  {
    c as int - '0' as int
  }

  predicate AllDigits(s: string) {
    forall i :: 0 <= i < |s| ==> IsDigit(s[i])
  }

  /** Decimal text in canonical form: at least one digit, and a leading
      zero only in the text "0" itself. */
  predicate IsCanonical(s: string) {
    |s| >= 1 && AllDigits(s) && (s[0] == '0' ==> |s| == 1)
  }

  /** The base-10 digits of n, most significant first. */
  function Digits(n: nat): (s: string)
    ensures IsCanonical(s)
    ensures s[0] == '0' <==> n == 0
    decreases n
  {
    if n < 10 then [DigitChar(n)] else Digits(n / 10) + [DigitChar(n % 10)]
  }

  /** The number a string of digits denotes. */
  function ValueOf(s: string): (n: nat)
    requires AllDigits(s)
  {
    if s == [] then 0 else 10 * ValueOf(s[..|s| - 1]) + DigitValue(s[|s| - 1])
  }

  /** Reading the digits back gives the number that was written. */
  lemma {:induction false} DigitsRoundTrip(n: nat)
    ensures ValueOf(Digits(n)) == n
    decreases n
  {
    var s := Digits(n);
    if n >= 10 {
      DigitsRoundTrip(n / 10);
      assert s[..|s| - 1] == Digits(n / 10);
    }
  }

  lemma {:induction false} ValueOfZero(s: string)
    requires AllDigits(s) && |s| >= 1 && ValueOf(s) == 0
    ensures s[0] == '0'
    decreases |s|
  {
    if |s| > 1 {
      ValueOfZero(s[..|s| - 1]);
    }
  }

  /** Writing the value of canonical decimal text gives the same text back. */
  lemma {:induction false} ParseRoundTrip(s: string)
    requires IsCanonical(s)
    ensures Digits(ValueOf(s)) == s
    decreases |s|
  {
    var t, c := s[..|s| - 1], s[|s| - 1];
    var v := ValueOf(s);
    if |s| == 1 {
      assert s == [c];
    } else {
      assert t[0] == s[0];
      ParseRoundTrip(t);
      if ValueOf(t) == 0 {
        ValueOfZero(t);
        assert false;
      }
      assert v / 10 == ValueOf(t) && v % 10 == DigitValue(c);
      assert s == t + [c];
    }
  }

  /** n has at most k digits exactly when n < 10^k. */
  lemma {:induction false} DigitsLength(n: nat, k: nat)
    requires k >= 1
    ensures |Digits(n)| <= k <==> n < Pow10(k)
    decreases n
  {
    if n >= 10 && k >= 2 {
      DigitsLength(n / 10, k - 1);
    }
  }

  /** Appends the digits of number to buffer: a [20]byte scratch array is
      filled from the back, one digit per iteration, then its used tail is
      appended. The source demands a non-negative number. */
  method AppendDecimal(buffer: string, number: int) returns (r: string)
    requires 0 <= number < 0x8000_0000_0000_0000
    ensures r == buffer + Digits(number)
  {
    var buf := new char[20];
    var i := buf.Length - 1;
    var n := number;
    assert Pow10(10) == 10_000_000_000;
    assert Pow10(19) == 10_000_000_000_000_000_000;
    DigitsLength(number, 19);
    while n >= 10
      invariant 0 <= n
      invariant 0 <= i < buf.Length
      invariant |Digits(n)| <= i + 1
      invariant Digits(number) == Digits(n) + buf[i + 1..]
    {
      var q := n / 10;
      buf[i] := DigitChar(n - q * 10);
      assert buf[i..] == [DigitChar(n % 10)] + buf[i + 1..];
      i := i - 1;
      n := q;
    }
    buf[i] := DigitChar(n);
    assert buf[i..] == [DigitChar(n)] + buf[i + 1..];
    r := buffer + buf[i..];
  }
}
