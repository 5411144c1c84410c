/**
 * The time step between interpolated trackpoints (tcx-interpolate.py,
 * lines 84-87).
 *
 * Timestamps are integer microseconds, the resolution of Python's datetime
 * and timedelta, so `end_time - start_time` is exact. Dividing a timedelta
 * by an int rounds the quotient to the nearest microsecond, ties going to
 * the even neighbour (CPython's `_divide_and_round`).
 */
module TimeStep {

  /** An instant or a duration, in microseconds. */
  type Micros = int

  /** What `time_delta` holds when the loop starts: the int 0 it was
      initialised with (line 85), or the timedelta computed at line 87. */
  datatype StepValue = IntZero | Delta(micros: Micros)

  /** `a / b` rounded to the nearest integer, ties to even, for b > 0.
      Python's `divmod` floors, which for a positive divisor agrees with
      Dafny's Euclidean `/` and `%`. */
  function RoundHalfEven(a: int, b: int): (q: int)
    requires b > 0
    ensures -b <= 2 * (a - q * b) <= b
    ensures 2 * (a - q * b) == b || 2 * (a - q * b) == -b ==> q % 2 == 0
    ensures a % b == 0 ==> q * b == a
  {
    var q, r := a / b, a % b;
    assert a == q * b + r;
    assert (q + 1) * b == q * b + b;
    if 2 * r > b || (2 * r == b && q % 2 == 1) then q + 1 else q
  }

  lemma MulMonotone(x: int, y: int, b: int)
    requires b >= 0 && x <= y
    ensures x * b <= y * b
    ensures x * -b >= y * -b
  {
    assert y * b - x * b == (y - x) * b;
    assert x * -b == -(x * b) && y * -b == -(y * b);
  }

  /** The rounded quotient has the sign of the dividend. */
  lemma RoundHalfEvenSign(a: int, b: int)
    requires b > 0
    ensures a >= 0 ==> RoundHalfEven(a, b) >= 0
    ensures a <= 0 ==> RoundHalfEven(a, b) <= 0
  {
    var q := RoundHalfEven(a, b);
    if q <= -1 {
      MulMonotone(q, -1, b);
    }
    if q >= 1 {
      MulMonotone(1, q, b);
    }
  }

  /** The two conditions on RoundHalfEven (nearest, and even on a tie)
      determine its result: no other integer meets them. */
  lemma RoundHalfEvenUnique(a: int, b: int, p: int)
    requires b > 0
    requires -b <= 2 * (a - p * b) <= b
    requires 2 * (a - p * b) == b || 2 * (a - p * b) == -b ==> p % 2 == 0
    ensures p == RoundHalfEven(a, b)
  {
    var q := RoundHalfEven(a, b);
    var d := p - q;
    assert p * b - q * b == d * b;
    if d >= 2 {
      MulMonotone(2, d, b);
    } else if d <= -2 {
      MulMonotone(d, -2, b);
    }
  }

  /** The step computed at lines 84-87 for n trackpoints: a timedelta of
      (end - start) / (n - 1), rounded, when n > 1, and otherwise the int 0.
      Stepping n - 1 times from start lands within (n - 1) / 2 microseconds
      of end, and the step has the sign of end - start. */
  function TimeDelta(start: Micros, end: Micros, n: nat): (step: StepValue)
    ensures step.Delta? <==> n > 1
    ensures n > 1 ==> -(n - 1) <= 2 * (end - (start + (n - 1) * step.micros)) <= n - 1
    ensures n > 1 && (end - start) % (n - 1) == 0 ==> start + (n - 1) * step.micros == end
    ensures n > 1 && start <= end ==> step.micros >= 0
    ensures n > 1 && end <= start ==> step.micros <= 0
  {
    if n > 1 then
      RoundHalfEvenSign(end - start, n - 1);
      Delta(RoundHalfEven(end - start, n - 1))
    else IntZero
  }
}
