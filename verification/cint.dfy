/**
 C++ integer division and remainder. Both truncate toward zero, unlike
 Dafny's Euclidean `/` and `%`; the model uses these wherever the source
 divides a value that may be negative.
 */
module CInt {

  function Abs(x: int): int {
    if x < 0 then -x else x
  }

  /**
   `a / b` in C++: the quotient truncated toward zero. The remainder
   `a - b * q` has the dividend's sign and is smaller than the divisor in
   magnitude; the quotient is non-negative iff the operands' signs agree
   (or it is zero).
   */
  function Div(a: int, b: int): (q: int)
    requires b != 0
    ensures a >= 0 ==> 0 <= a - b * q < Abs(b)
    ensures a < 0 ==> -Abs(b) < a - b * q <= 0
    ensures ((a >= 0) == (b > 0) ==> q >= 0) && ((a >= 0) != (b > 0) ==> q <= 0)
  {
    if a >= 0 then (if b > 0 then PosBoth(a, b) else NegDivisor(a, b))
    else (if b > 0 then NegQuotient(a, b) else NegBoth(a, b))
  }

  function PosBoth(a: int, b: int): (q: int)
    requires a >= 0 && b > 0
    ensures 0 <= a - b * q < Abs(b)
    ensures q >= 0
  {
    a / b
  }

  function NegDivisor(a: int, b: int): (q: int)
    requires a >= 0 && b < 0
    ensures 0 <= a - b * q < Abs(b)
    ensures q <= 0
  {
    var nb := -b;
    var p := a / nb;
    assert 0 <= a - nb * p < nb;
    NegMul(nb, p);
    -p
  }

  function NegBoth(a: int, b: int): (q: int)
    requires a < 0 && b < 0
    ensures -Abs(b) < a - b * q <= 0
    ensures q >= 0
  {
    var na, nb := -a, -b;
    var p := na / nb;
    assert 0 <= na - nb * p < nb;
    NegMul(nb, p);
    p
  }

  lemma NegMul(x: int, y: int)
    ensures (-x) * y == -(x * y) && x * (-y) == -(x * y)
  {
  }

  function NegQuotient(a: int, b: int): (q: int)
    requires a < 0 && b > 0
    ensures -Abs(b) < a - b * q <= 0
    ensures q <= 0
  {
    var p := (-a) / b;
    assert 0 <= -a - b * p < b;
    assert b * -p == -(b * p);
    -p
  }

  /** `a % b` in C++: the remainder, whose sign follows the dividend. */
  function Mod(a: int, b: int): (r: int)
    requires b != 0
    ensures a == b * Div(a, b) + r
    ensures b > 0 && a >= 0 ==> r == a % b
    ensures b > 0 && a < 0 ==> -b < r <= 0
    ensures b < 0 && a >= 0 ==> 0 <= r < -b
    ensures b < 0 && a < 0 ==> b < r <= 0
  {
    a - b * Div(a, b)
  }

  /** With a positive divisor, truncating division is monotone in the dividend. */
  lemma {:induction false} DivMonotone(a1: int, a2: int, b: int)
    requires b > 0 && a1 <= a2
    ensures Div(a1, b) <= Div(a2, b)
  {
    var q1, q2 := Div(a1, b), Div(a2, b);
    if q1 > q2 {
      MulStep(b, q1, q2);
    }
  }

  lemma MulStep(b: int, q1: int, q2: int)
    requires b > 0 && q1 > q2
    ensures b * q1 >= b * q2 + b
  {
    var k := q1 - q2 - 1;
    assert k >= 0;
    assert b * k >= 0;
    assert b * q1 == b * q2 + b * k + b;
  }

  /** The four sign combinations as C++ evaluates them: `7 / -2` is -3, `-7 % 2` is -1. */
  lemma TruncationCases()
    ensures Div(7, 2) == 3 && Mod(7, 2) == 1
    ensures Div(-7, 2) == -3 && Mod(-7, 2) == -1
    ensures Div(7, -2) == -3 && Mod(7, -2) == 1
    ensures Div(-7, -2) == 3 && Mod(-7, -2) == -1
  {
  }
}
