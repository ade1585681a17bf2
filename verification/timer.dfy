/**
 The step timer. The clock is not modelled: a timer holds the instant (in
 milliseconds) it was last started, and every query takes the current
 instant `now` as an argument.
 */
module Timer {
  import CInt

  datatype Timer = Timer(start: int)

  /** `start()`: restart the timer at `now`. */
  function StartTimer(now: int): (t: Timer)
    ensures Elapsed(t, now) == 0
  {
    Timer(now)
  }

  /** `get_elapsed_time()`, in whole milliseconds. */
  function Elapsed(t: Timer, now: int): int {
    now - t.start
  }

  /**
   `calculate_delay`: linear interpolation from `maxDelay` at speed 1 down to
   `minDelay` at speed `maxSpeed`, with C++ truncating division.
   */
  function CalculateDelay(speed: int, maxDelay: int, minDelay: int, maxSpeed: int): int
    requires maxSpeed != 1
  {
    maxDelay - CInt.Div((speed - 1) * (maxDelay - minDelay), maxSpeed - 1)
  }

  /** The delay is `maxDelay` at speed 1 and `minDelay` at the top speed. */
  lemma DelayEndpoints(maxDelay: int, minDelay: int, maxSpeed: int)
    requires maxSpeed != 1
    ensures CalculateDelay(1, maxDelay, minDelay, maxSpeed) == maxDelay
    ensures CalculateDelay(maxSpeed, maxDelay, minDelay, maxSpeed) == minDelay
  {
    DelayAtOne(maxDelay, minDelay, maxSpeed);
    DelayAtTop(maxDelay, minDelay, maxSpeed);
  }

  lemma DelayAtOne(maxDelay: int, minDelay: int, maxSpeed: int)
    requires maxSpeed != 1
    ensures CalculateDelay(1, maxDelay, minDelay, maxSpeed) == maxDelay
  {
    assert (1 - 1) * (maxDelay - minDelay) == 0;
    assert CInt.Div(0, maxSpeed - 1) == 0;
  }

  lemma DelayAtTop(maxDelay: int, minDelay: int, maxSpeed: int)
    requires maxSpeed != 1
    ensures CalculateDelay(maxSpeed, maxDelay, minDelay, maxSpeed) == minDelay
  {
    var b, k := maxSpeed - 1, maxDelay - minDelay;
    QuotientOfProduct(k, b);
  }

  /** Truncating division of `b * k` by `b` gives back `k`, whatever the signs. */
  lemma QuotientOfProduct(k: int, b: int)
    requires b != 0
    ensures CInt.Div(b * k, b) == k
  {
    if b > 0 {
      ExactQuotient(k, b);
    } else {
      ExactQuotient(-k, -b);
      NegNeg(b, k);
    }
  }

  lemma NegNeg(b: int, k: int)
    ensures (-b) * (-k) == b * k
  {
  }

  /** Dividing `b * k` by `b` gives back `k`, whatever the signs. */
  lemma ExactQuotient(k: int, b: int)
    requires b > 0
    ensures CInt.Div(b * k, b) == k
    ensures CInt.Div(b * k, -b) == -k
  {
    var q := CInt.Div(b * k, b);
    if q != k {
      if q > k { CInt.MulStep(b, q, k); } else { CInt.MulStep(b, k, q); }
    }
    assert (b * k) / b == k || b * k < 0;
    if b * k >= 0 {
      assert (b * k) / b == k;
    } else {
      assert (-(b * k)) / b == -k by {
        assert -(b * k) == b * (-k);
      }
    }
  }

  /** A faster speed never yields a longer delay while `maxDelay >= minDelay`. */
  lemma {:induction false} DelayNonIncreasing(s1: int, s2: int, maxDelay: int, minDelay: int, maxSpeed: int)
    requires maxSpeed > 1 && maxDelay >= minDelay && s1 <= s2
    ensures CalculateDelay(s2, maxDelay, minDelay, maxSpeed) <= CalculateDelay(s1, maxDelay, minDelay, maxSpeed)
  {
    var d := maxDelay - minDelay;
    var a1, a2 := (s1 - 1) * d, (s2 - 1) * d;
    ScaleMonotone(s1 - 1, s2 - 1, d);
    CInt.DivMonotone(a1, a2, maxSpeed - 1);
  }

  lemma ScaleMonotone(x: int, y: int, d: int)
    requires x <= y && d >= 0
    ensures x * d <= y * d
  {
    var k := y - x;
    assert y * d == x * d + k * d;
    assert k * d >= 0;
  }

  /**
   `game_timer_check`: true once the elapsed time has reached the delay for
   the given speed. It only reads the timer; restarting is the caller's job.
   */
  function TimerCheck(t: Timer, now: int, speed: int, maxDelay: int, minDelay: int, maxSpeed: int): (fired: bool)
    requires maxSpeed != 1
    ensures fired <==> now >= t.start + CalculateDelay(speed, maxDelay, minDelay, maxSpeed)
  {
    var delay := CalculateDelay(speed, maxDelay, minDelay, maxSpeed);
    var elapsed := Elapsed(t, now);
    if elapsed >= delay then true else false
  }

  /** `get_miliseconds()`: the milliseconds within the current second. */
  function Milliseconds(t: Timer, now: int): (ms: int)
    ensures Elapsed(t, now) >= 0 ==> 0 <= ms <= 999
  {
    CInt.Mod(Elapsed(t, now), 1000)
  }

  /** `get_seconds()`: the whole seconds within the current minute. */
  function Seconds(t: Timer, now: int): (s: int)
    ensures Elapsed(t, now) >= 0 ==> 0 <= s <= 59
  {
    CInt.Mod(CInt.Div(Elapsed(t, now), 1000), 60)
  }

  /** `get_minutes()`: the whole minutes within the current hour. */
  function Minutes(t: Timer, now: int): (m: int)
    ensures Elapsed(t, now) >= 0 ==> 0 <= m <= 59
  {
    CInt.Mod(CInt.Div(Elapsed(t, now), 60000), 60)
  }

  /**
   The three displayed fields are the digits of the elapsed time in the mixed
   radix (hours, minutes, seconds, milliseconds): nothing is lost below an hour.
   */
  lemma {:induction false} ClockDecomposition(t: Timer, now: int)
    requires Elapsed(t, now) >= 0
    ensures Elapsed(t, now) == (Elapsed(t, now) / 3600000) * 3600000 + Minutes(t, now) * 60000 + Seconds(t, now) * 1000 + Milliseconds(t, now)
  {
    var e := Elapsed(t, now);
    var sec := e / 1000;
    var mins := e / 60000;
    assert mins == sec / 60;
    assert e / 3600000 == mins / 60;
    assert e == sec * 1000 + e % 1000;
    assert sec == (sec / 60) * 60 + sec % 60;
    assert mins == (mins / 60) * 60 + mins % 60;
  }
}
