/**
 The pieces of the two front-ends that compute rather than draw: the
 end-of-game test of the terminal loop, the 7-character score field of the
 terminal front-end, and the zero-padded score label of the desktop one.
 */
module Frontend {
  import opened Defs
  import opened Decimal
  import CInt
  import Snake
  import SnakeCells

  /** Width of the score fields, and the largest score the terminal field shows. */
  const ScoreWidth: int := 7
  const ScoreLimit: int := 9999999

  /** `is_end`: the snapshot carries one of the two end-of-game level codes. */
  predicate IsEnd(info: GameInfo) {
    info.level == LoseLvl || info.level == WinLvl
  }

  /** While the snake game runs, the terminal loop keeps going. */
  lemma RunningSnakeNotEnded(g: Snake.Game)
    requires Snake.Valid(g) && g.phase != GameOver
    ensures !IsEnd(g.info)
  {
  }

  /**
   Once the snake reaches GameOver, the next step ends the terminal loop,
   and the level says which message it prints.
   */
  lemma GameOverEndsLoop(g: Snake.Game, inp: Snake.Inputs)
    requires Snake.Valid(g) && g.phase == GameOver
    ensures IsEnd(Snake.Fsm(g, inp).info)
    ensures Snake.Fsm(g, inp).info.level == WinLvl <==> g.size >= Snake.SnakeMaxSize
  {
    assert Snake.Fsm(g, inp) == Snake.GameOverStep(g);
  }

  // ------------------------------------------------------------ desktop label

  /** The padding loop of `format_score`: prepend '0' until seven characters. */
  function PadZeros(s: string): (r: string)
    ensures |r| == if |s| < ScoreWidth then ScoreWidth else |s|
    ensures r == ZeroChars(|r| - |s|) + s
    decreases ScoreWidth - |s|
  {
    if |s| < ScoreWidth then
      var r := PadZeros("0" + s);
      assert ZeroChars(|r| - |s| - 1) + ("0" + s) == ZeroChars(|r| - |s|) + s;
      r
    else
      s
  }

  /**
   `format_score`: the decimal form of the score, padded on the left with
   zeros to seven characters. Longer forms are returned as they are; a
   negative score keeps its minus sign after the zeros.
   */
  function FormatScore(score: int): (r: string)
    ensures |r| == if |ToString(score)| < ScoreWidth then ScoreWidth else |ToString(score)|
    ensures r == ZeroChars(|r| - |ToString(score)|) + ToString(score)
    ensures |ToString(score)| >= ScoreWidth ==> r == ToString(score)
  {
    PadZeros(ToString(score))
  }

  /** A non-negative label is all digits and reads back as the score. */
  lemma FormatScoreRoundTrip(score: int)
    requires score >= 0
    ensures AllDigits(FormatScore(score)) && Value(FormatScore(score)) == score
  {
    var s := ToString(score);
    ValueLeadingZeros(|FormatScore(score)| - |s|, s);
    NatToStringRoundTrip(score);
  }

  /** Scores up to the terminal limit give labels of exactly seven characters. */
  lemma FormatScoreWidth(score: int)
    requires 0 <= score <= ScoreLimit
    ensures |FormatScore(score)| == ScoreWidth
  {
    assert Pow10(7) == 10000000;
    NatToStringLength(score, 7);
  }

  // ----------------------------------------------------------- terminal field

  /**
   Reads a string of characters at or below '0' as the digits of a
   magnitude: '0' - d stands for d. This is what the loop below writes for
   a negative score, where C++'s `%` yields digits in -9 .. 0.
   */
  function MirrorChar(c: char): char {
    if '0' - 9 as char <= c <= '0' then (96 - c as int) as char else c
  }

  function Mirror(s: string): (m: string)
    ensures |m| == |s|
    ensures forall i :: 0 <= i < |s| ==> m[i] == MirrorChar(s[i])
  {
    seq(|s|, i requires 0 <= i < |s| => MirrorChar(s[i]))
  }

  /** The characters the loop writes for a negative score. */
  predicate AtMostZero(s: string) {
    forall i :: 0 <= i < |s| ==> '0' - 9 as char <= s[i] <= '0'
  }

  lemma MirrorPrepend(c: char, s: string)
    ensures Mirror([c] + s) == [MirrorChar(c)] + Mirror(s)
  {
  }

  /** The character the loop stores for a C++ remainder digit `d` in -9 .. 9. */
  function StoredChar(d: int): char
    requires -9 <= d <= 9
  {
    (d + 48) as char
  }

  /** The digits `w` written so far and the quotient `rem` still to write make up `n`. */
  predicate DigitsOf(n: int, rem: int, w: string) {
    rem >= 0 && AllDigits(w) && n == rem * Pow10(|w|) + Value(w)
  }

  /**
   What the loop of `score_to_string` keeps while it works from the right:
   for a non-negative score the written digits and the quotient make up the
   score; for a negative one the quotient is at most zero, the characters
   are at or below '0', and read mirrored they make up the magnitude.
   */
  predicate Written(score: int, rem: int, w: string) {
    && (score >= 0 ==> DigitsOf(score, rem, w))
    && (score < 0 ==> AtMostZero(w) && DigitsOf(-score, -rem, Mirror(w)))
  }

  lemma Distribute(q: int, d: int, p: int)
    ensures (10 * q + d) * p == q * (10 * p) + d * p
  {
  }

  /** One more digit in front: the quotient's last digit moves into the written part. */
  lemma DigitsStep(n: int, rem: int, w: string, q: int, d: int)
    requires DigitsOf(n, rem, w)
    requires rem == 10 * q + d && 0 <= d < 10 && q >= 0
    ensures DigitsOf(n, q, [DigitChar(d)] + w)
  {
    var p := Pow10(|w|);
    assert Pow10(|w| + 1) == 10 * p;
    ValuePrepend(DigitChar(d), w);
    Distribute(q, d, p);
  }

  /** The stored character of a non-positive remainder mirrors to the digit of its magnitude. */
  lemma MirrorStored(d: int)
    requires -9 <= d <= 0
    ensures '0' - 9 as char <= StoredChar(d) <= '0'
    ensures MirrorChar(StoredChar(d)) == DigitChar(-d)
  {
  }

  /** One iteration of the loop keeps `Written`. */
  lemma WrittenStep(score: int, rem: int, w: string)
    requires Written(score, rem, w)
    ensures -9 <= CInt.Mod(rem, 10) <= 9
    ensures Written(score, CInt.Div(rem, 10), [StoredChar(CInt.Mod(rem, 10))] + w)
  {
    var q, d := CInt.Div(rem, 10), CInt.Mod(rem, 10);
    assert CInt.Abs(10) == 10 && rem == 10 * q + d;
    if score >= 0 {
      assert 0 <= d < 10 && q >= 0;
      DigitsStep(score, rem, w, q, d);
    } else {
      assert -10 < d <= 0 && q <= 0;
      MirrorStored(d);
      MirrorPrepend(StoredChar(d), w);
      DigitsStep(-score, -rem, Mirror(w), -q, -d);
    }
  }

  /** A written part of full width leaves no quotient when the number fits. */
  lemma NoCarry(n: int, rem: int, w: string)
    requires DigitsOf(n, rem, w) && n < Pow10(|w|)
    ensures rem == 0 && Value(w) == n
  {
    NoCarryArith(n, rem, Pow10(|w|), Value(w));
  }

  lemma NoCarryArith(n: int, rem: int, p: int, v: int)
    requires p >= 1 && rem >= 0 && v >= 0 && n == rem * p + v && n < p
    ensures rem == 0 && v == n
  {
    if rem >= 1 {
      AtLeastOnce(rem, p);
    }
  }

  lemma AtLeastOnce(a: int, p: int)
    requires a >= 1 && p >= 0
    ensures a * p >= p
  {
    var k := a - 1;
    assert a * p == k * p + p;
    assert k * p >= 0;
  }

  lemma SevenDigits()
    ensures Pow10(ScoreWidth) == ScoreLimit + 1
  {
  }

  /** Seven digits that make up a score that fits are exactly its label. */
  lemma DigitsAreLabel(n: int, rem: int, w: string)
    requires DigitsOf(n, rem, w) && |w| == ScoreWidth && 0 <= n <= ScoreLimit
    ensures Value(w) == n && w == FormatScore(n)
  {
    SevenDigits();
    NoCarry(n, rem, w);
    FormatScoreRoundTrip(n);
    FormatScoreWidth(n);
    ValueInjective(w, FormatScore(n));
  }

  /** After seven digits of a non-negative score that fits, the field reads as the label. */
  lemma WrittenDone(score: int, rem: int, w: string)
    requires Written(score, rem, w) && |w| == ScoreWidth && 0 <= score <= ScoreLimit
    ensures AllDigits(w) && Value(w) == score && w == FormatScore(score)
  {
    DigitsAreLabel(score, rem, w);
  }

  /** After seven characters of a negative score that fits, the field mirrors the magnitude's label. */
  lemma WrittenDoneNegative(score: int, rem: int, w: string)
    requires Written(score, rem, w) && |w| == ScoreWidth && -ScoreLimit <= score < 0
    ensures Mirror(w) == FormatScore(-score)
  {
    var m, n := Mirror(w), -score;
    assert DigitsOf(n, -rem, m) && |m| == ScoreWidth && 0 <= n <= ScoreLimit;
    DigitsAreLabel(n, -rem, m);
  }

  /** Writing index `i` puts `c` in front of the part already written and touches nothing past it. */
  lemma StoreKeepsRest(r: string, i: int, c: char)
    requires 0 <= i < ScoreWidth <= |r|
    ensures r[i := c][i..ScoreWidth] == [c] + r[i + 1..ScoreWidth]
    ensures r[i := c][ScoreWidth..] == r[ScoreWidth..]
  {
  }

  /**
   `score_to_string`: for a score up to 9999999, write its last seven
   digits into `str[0..6]`, least significant last, using C++'s truncating
   `%` and `/`; a larger score leaves the buffer alone. Nothing past index 6
   is touched.
   */
  method ScoreToString(str: string, score: int) returns (r: string)
    requires |str| >= ScoreWidth
    ensures |r| == |str| && r[ScoreWidth..] == str[ScoreWidth..]
    ensures score > ScoreLimit ==> r == str
    ensures 0 <= score <= ScoreLimit ==> AllDigits(r[..ScoreWidth]) && Value(r[..ScoreWidth]) == score
    ensures 0 <= score <= ScoreLimit ==> r[..ScoreWidth] == FormatScore(score)
    ensures score < 0 ==> AtMostZero(r[..ScoreWidth])
    ensures -ScoreLimit <= score < 0 ==> Mirror(r[..ScoreWidth]) == FormatScore(-score)
  {
    r := str;
    if score <= ScoreLimit {
      var rem := score;
      var i := ScoreWidth;
      while i > 0
        invariant 0 <= i <= ScoreWidth && |r| == |str|
        invariant r[ScoreWidth..] == str[ScoreWidth..]
        invariant Written(score, rem, r[i..ScoreWidth])
      {
        i := i - 1;
        WrittenStep(score, rem, r[i + 1..ScoreWidth]);
        var number := CInt.Mod(rem, 10);
        StoreKeepsRest(r, i, StoredChar(number));
        r := r[i := StoredChar(number)];
        rem := CInt.Div(rem, 10);
      }
      assert r[0..ScoreWidth] == r[..ScoreWidth];
      if 0 <= score {
        WrittenDone(score, rem, r[..ScoreWidth]);
      } else if -ScoreLimit <= score {
        WrittenDoneNegative(score, rem, r[..ScoreWidth]);
      }
    }
  }
}
