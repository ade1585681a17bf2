/**
 Decimal text for integers: ASCII digits, the value a digit string denotes,
 and the shortest decimal form `std::to_string` produces.
 */
module Decimal {

  /** An ASCII decimal digit. */
  predicate IsDigit(c: char) {
    '0' <= c <= '9'
  }

  predicate AllDigits(s: string) {
    forall i :: 0 <= i < |s| ==> IsDigit(s[i])
  }

  /** The character for a digit value: its ASCII code is `48 + d`. */
  function DigitChar(d: int): (c: char)
    requires 0 <= d < 10
    ensures IsDigit(c) && DigitValue(c) == d
  {
    (48 + d) as char
  }

  function DigitValue(c: char): (d: int)
    requires IsDigit(c)
    ensures 0 <= d < 10
  {
    c as int - 48
  }

  function Pow10(k: nat): (p: nat)
    ensures p >= 1
  {
    if k == 0 then 1 else 10 * Pow10(k - 1)
  }

  /** The number a digit string denotes, most significant digit first. */
  function Value(s: string): (n: nat)
    requires AllDigits(s)
    ensures n < Pow10(|s|)
  {
    if |s| == 0 then 0
    else Value(s[..|s| - 1]) * 10 + DigitValue(s[|s| - 1])
  }

  /** `n` zero characters. */
  function ZeroChars(n: nat): (z: string)
    ensures |z| == n && AllDigits(z)
    ensures forall i :: 0 <= i < n ==> z[i] == '0'
  {
    seq(n, _ => '0')
  }

  /** The shortest decimal form of a natural number: no leading zero except for 0 itself. */
  function NatToString(n: nat): (s: string)
    ensures |s| >= 1 && AllDigits(s)
    ensures s[0] == '0' ==> n == 0
    decreases n
  {
    if n < 10 then [DigitChar(n)]
    else NatToString(n / 10) + [DigitChar(n % 10)]
  }

  /** `std::to_string` of an int: a minus sign before the magnitude when negative. */
  function ToString(i: int): (s: string)
    ensures |s| >= 1
    ensures i >= 0 <==> AllDigits(s)
    ensures i < 0 ==> s[0] == '-' && s[1..] == NatToString(-i)
  {
    if i >= 0 then NatToString(i)
    else
      var s := "-" + NatToString(-i);
      assert !IsDigit(s[0]);
      s
  }

  /** Reading back the decimal form of `n` gives `n`. */
  lemma {:induction false} NatToStringRoundTrip(n: nat)
    ensures Value(NatToString(n)) == n
    decreases n
  {
    if n >= 10 {
      NatToStringRoundTrip(n / 10);
      var s := NatToString(n);
      assert s[..|s| - 1] == NatToString(n / 10);
    }
  }

  /** The decimal form of a positive number has as many digits as its size demands. */
  lemma {:induction false} NatToStringLength(n: nat, k: nat)
    requires n < Pow10(k)
    ensures |NatToString(n)| <= k || (k == 0 && n == 0)
    decreases n
  {
    if n >= 10 {
      NatToStringLength(n / 10, k - 1);
    }
  }

  /** Putting a digit in front adds its weight at the new position. */
  lemma {:induction false} ValuePrepend(c: char, s: string)
    requires IsDigit(c) && AllDigits(s)
    ensures AllDigits([c] + s)
    ensures Value([c] + s) == DigitValue(c) * Pow10(|s|) + Value(s)
    decreases |s|
  {
    var t := [c] + s;
    if |s| > 0 {
      var s' := s[..|s| - 1];
      assert t[..|t| - 1] == [c] + s';
      assert t[|t| - 1] == s[|s| - 1];
      ValuePrepend(c, s');
      var d, p, e := DigitValue(c), Pow10(|s'|), DigitValue(s[|s| - 1]);
      assert Value(t) == Value([c] + s') * 10 + e;
      assert Value(s) == Value(s') * 10 + e;
      assert Pow10(|s|) == 10 * p;
      PrependArith(d, p, Value(s'), e);
    } else {
      assert t[..0] == [];
    }
  }

  /** Leading zeros do not change the value. */
  lemma {:induction false} ValueLeadingZeros(n: nat, s: string)
    requires AllDigits(s)
    ensures AllDigits(ZeroChars(n) + s)
    ensures Value(ZeroChars(n) + s) == Value(s)
    decreases n
  {
    if n == 0 {
      assert ZeroChars(n) + s == s;
    } else {
      ValueLeadingZeros(n - 1, s);
      assert ZeroChars(n) + s == ['0'] + (ZeroChars(n - 1) + s);
      ValuePrepend('0', ZeroChars(n - 1) + s);
    }
  }

  /** Two digit strings of one length denote the same number only if they are equal. */
  lemma {:induction false} ValueInjective(a: string, b: string)
    requires AllDigits(a) && AllDigits(b) && |a| == |b|
    requires Value(a) == Value(b)
    ensures a == b
    decreases |a|
  {
    if |a| > 0 {
      var n := |a| - 1;
      var da, db := DigitValue(a[n]), DigitValue(b[n]);
      var va, vb := Value(a[..n]), Value(b[..n]);
      assert va * 10 + da == vb * 10 + db;
      LastDigitUnique(va, da, vb, db);
      ValueInjective(a[..n], b[..n]);
      assert a == a[..n] + [a[n]];
      assert b == b[..n] + [b[n]];
    }
  }

  /** A number's last decimal digit and the rest are determined by the number. */
  lemma LastDigitUnique(va: int, da: int, vb: int, db: int)
    requires 0 <= da < 10 && 0 <= db < 10 && va * 10 + da == vb * 10 + db
    ensures va == vb && da == db
  {
  }

  lemma PrependArith(d: int, p: int, v: int, e: int)
    ensures (d * p + v) * 10 + e == d * (10 * p) + (v * 10 + e)
  {
  }
}
