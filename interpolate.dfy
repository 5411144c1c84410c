/**
 * The trackpoint rewrite (tcx-interpolate.py, lines 81-95).
 *
 * The course's trackpoints, in document order, are rewritten in one pass:
 * each `DistanceMeters` is shifted by a constant offset fixed from the first
 * point, and each `Time` is overwritten with `start + i * step`. Everything
 * else in a trackpoint is left alone. The script does not guard against a
 * missing child, an empty course or a single point: each of these raises a
 * Python exception that ends the run before anything is written, and the
 * model reports it as an aborted outcome.
 */
module Interpolation {
  import opened Wrappers
  import opened TimeStep

  /** One `Trackpoint` element: the value of its first `DistanceMeters`
      child, the instant in its first `Time` child (None where the child is
      missing, which is when lxml's `find` returns None), and all its other
      content. */
  datatype Trackpoint<P> = Trackpoint(dist: Option<real>, time: Option<Micros>, payload: P)

  /** The exception that ends the run, with the index of the trackpoint
      being processed. */
  datatype Failure =
    | NoTrackpoints               // IndexError: `trackpoints[0]` on an empty list (line 83)
    | MissingDistance(index: nat) // AttributeError: `ed` is None (lines 92-93)
    | MissingTime(index: nat)     // AttributeError: `et` is None (line 95)
    | IntStep(index: nat)         // TypeError: datetime + int, `time_delta` still 0 (line 95)

  datatype Outcome = Completed | Aborted(failure: Failure)

  /** The trackpoints as the rewrite leaves them, and how it ended. */
  datatype Run<P> = Run(points: seq<Trackpoint<P>>, outcome: Outcome)

  /** Every trackpoint has a `DistanceMeters` and a `Time` child. */
  predicate HasFields<P>(ps: seq<Trackpoint<P>>)
  {
    forall j :: 0 <= j < |ps| ==> ps[j].dist.Some? && ps[j].time.Some?
  }

  /** `start_time + i*time_delta` (line 95); None where Python raises,
      which is when `time_delta` is still the int 0. Point 0 gets the start
      time, and with a non-negative step no point is before it. */
  function TimeAt(start: Micros, step: StepValue, i: nat): (t: Option<Micros>)
    ensures t.None? <==> step.IntZero?
    ensures step.Delta? && i == 0 ==> t == Some(start)
    ensures step.Delta? && step.micros >= 0 ==> t.value >= start
    ensures step.Delta? && step.micros <= 0 ==> t.value <= start
  {
    match step
    case IntZero => None
    case Delta(d) => Some(start + i * d)
  }

  /** The offset `dist_delta` captured on the first pass through the loop
      (lines 91-92): the requested start distance minus the first point's
      original distance. */
  function DistDelta<P>(ps: seq<Trackpoint<P>>, startDist: real): (delta: real)
    ensures |ps| > 0 && ps[0].dist.Some? ==> ps[0].dist.value + delta == startDist
  {
    if |ps| > 0 && ps[0].dist.Some? then startDist - ps[0].dist.value else 0.0
  }

  /** What one pass through the loop body (lines 90-95) does to trackpoint
      i, and the exception it raises, if any. The distance is rewritten
      before the time is looked at, so a point whose time cannot be written
      keeps its new distance. At line 95 Python evaluates the new time
      before it assigns to the `Time` child, so an int step raises
      `TypeError` even when that child is missing. */
  function Iterate<P>(p: Trackpoint<P>, i: nat, delta: real, start: Micros, step: StepValue): (r: Iteration<P>)
    ensures r.point.payload == p.payload
    ensures r.fault.None? <==> p.dist.Some? && p.time.Some? && step.Delta?
    ensures p.dist.None? ==> r == Iteration(p, Some(MissingDistance(i)))
    ensures p.dist.Some? ==> r.point.dist == Some(p.dist.value + delta)
    ensures p.dist.Some? && step.IntZero? ==> r.fault == Some(IntStep(i))
  {
    match p.dist
    case None => Iteration(p, Some(MissingDistance(i)))
    case Some(d) =>
      var moved := p.(dist := Some(d + delta));
      match TimeAt(start, step, i)
      case None => Iteration(moved, Some(IntStep(i)))
      case Some(t) =>
        if p.time.None? then Iteration(moved, Some(MissingTime(i)))
        else Iteration(moved.(time := Some(t)), None)
  }

  datatype Iteration<P> = Iteration(point: Trackpoint<P>, fault: Option<Failure>)

  /** The index of the first trackpoint, from `from` on, at which the loop
      body raises; |ps| when it raises at none. */
  function FirstFault<P>(ps: seq<Trackpoint<P>>, from: nat, delta: real, start: Micros, step: StepValue): (k: nat)
    requires from <= |ps|
    ensures from <= k <= |ps|
    ensures forall j :: from <= j < k ==> Iterate(ps[j], j, delta, start, step).fault.None?
    ensures k < |ps| ==> Iterate(ps[k], k, delta, start, step).fault.Some?
    decreases |ps| - from
  {
    if from == |ps| then from
    else if Iterate(ps[from], from, delta, start, step).fault.Some? then from
    else FirstFault(ps, from + 1, delta, start, step)
  }

  /** The whole of lines 83-95 as a function of the original trackpoints:
      every point up to the first that raises is rewritten by the loop
      body, the rest are untouched. The number and order of the points and
      every point's other content are always kept. */
  function Interpolated<P>(ps: seq<Trackpoint<P>>, startDist: real, start: Micros, end: Micros): (r: Run<P>)
    ensures |r.points| == |ps|
    ensures forall j :: 0 <= j < |ps| ==> r.points[j].payload == ps[j].payload
    ensures |ps| == 0 <==> r.outcome == Aborted(NoTrackpoints)
  {
    if |ps| == 0 then Run(ps, Aborted(NoTrackpoints))
    else
      var delta, step := DistDelta(ps, startDist), TimeDelta(start, end, |ps|);
      var k := FirstFault(ps, 0, delta, start, step);
      Run(seq(|ps|, j requires 0 <= j < |ps| =>
                      if j <= k then Iterate(ps[j], j, delta, start, step).point else ps[j]),
          if k == |ps| then Completed
          else Aborted(Iterate(ps[k], k, delta, start, step).fault.value))
  }

  /** A list of trackpoints in which every point before i went through the
      loop body without raising, point i (if any) is what the raising pass
      left, and the rest are untouched, is the rewrite's result. */
  lemma StoppedAt<P>(original: seq<Trackpoint<P>>, current: seq<Trackpoint<P>>,
                     startDist: real, start: Micros, end: Micros, i: nat)
    requires 0 < |original| == |current| && i <= |original|
    requires var delta, step := DistDelta(original, startDist), TimeDelta(start, end, |original|);
      (forall j :: 0 <= j < i ==>
         Iterate(original[j], j, delta, start, step) == Iteration(current[j], None)) &&
      (i < |original| ==>
         Iterate(original[i], i, delta, start, step).fault.Some? &&
         Iterate(original[i], i, delta, start, step).point == current[i]) &&
      (forall j :: i < j < |original| ==> current[j] == original[j])
    ensures var delta, step := DistDelta(original, startDist), TimeDelta(start, end, |original|);
      Interpolated(original, startDist, start, end)
        == Run(current, if i == |original| then Completed
                        else Aborted(Iterate(original[i], i, delta, start, step).fault.value))
  {
    var delta, step := DistDelta(original, startDist), TimeDelta(start, end, |original|);
    var k := FirstFault(original, 0, delta, start, step);
    assert k == i;
    var r := Interpolated(original, startDist, start, end);
    assert forall j :: 0 <= j < |current| ==> r.points[j] == current[j];
    assert r.points == current;
  }

  /** The loop of lines 89-95, run in place on the trackpoint list. */
  method Interpolate<P>(points: array<Trackpoint<P>>, startDist: real, start: Micros, end: Micros)
    returns (outcome: Outcome)
    modifies points
    ensures Run(points[..], outcome) == Interpolated(old(points[..]), startDist, start, end)
  {
    ghost var original := points[..];
    if points.Length == 0 {
      return Aborted(NoTrackpoints);
    }
    var n := points.Length;
    var timeDelta := TimeDelta(start, end, n);
    var distDelta: Option<real> := None;
    ghost var delta := DistDelta(original, startDist);
    var i := 0;
    while i < n
      invariant 0 <= i <= n
      invariant distDelta == if i == 0 then None else Some(delta)
      invariant forall j :: 0 <= j < i ==>
        Iterate(original[j], j, delta, start, timeDelta) == Iteration(points[j], None)
      invariant forall j :: i <= j < n ==> points[j] == original[j]
    {
      var p := points[i];
      if p.dist.None? {
        outcome := Aborted(MissingDistance(i));
        StoppedAt(original, points[..], startDist, start, end, i);
        return;
      }
      if distDelta.None? {
        distDelta := Some(startDist - p.dist.value);
      }
      points[i] := p.(dist := Some(p.dist.value + distDelta.value));
      match timeDelta
      case IntZero =>
        outcome := Aborted(IntStep(i));
        StoppedAt(original, points[..], startDist, start, end, i);
        return;
      case Delta(d) =>
        var t := start + i * d;
        if p.time.None? {
          outcome := Aborted(MissingTime(i));
          StoppedAt(original, points[..], startDist, start, end, i);
          return;
        }
        points[i] := points[i].(time := Some(t));
      i := i + 1;
    }
    outcome := Completed;
    StoppedAt(original, points[..], startDist, start, end, n);
  }

  /** The rewrite runs to the end exactly when the course has more than one
      trackpoint and every trackpoint has both children. */
  lemma CompletedIff<P>(ps: seq<Trackpoint<P>>, startDist: real, start: Micros, end: Micros)
    ensures Interpolated(ps, startDist, start, end).outcome == Completed <==> |ps| >= 2 && HasFields(ps)
  {
    if |ps| > 0 {
      var delta, step := DistDelta(ps, startDist), TimeDelta(start, end, |ps|);
      var k := FirstFault(ps, 0, delta, start, step);
      if |ps| >= 2 && HasFields(ps) {
        assert forall j :: 0 <= j < |ps| ==> Iterate(ps[j], j, delta, start, step).fault.None?;
        assert k == |ps|;
      }
      if k == |ps| {
        assert Iterate(ps[0], 0, delta, start, step).fault.None?;
        forall j | 0 <= j < |ps|
          ensures ps[j].dist.Some? && ps[j].time.Some?
        {
          assert Iterate(ps[j], j, delta, start, step).fault.None?;
        }
      }
    }
  }

  /** With more than one trackpoint, all with both children, point i gets
      distance `old + (startDist - old[0])` and time `start + i * step`,
      the step being the rounded `(end - start) / (n - 1)`; nothing else in
      any point changes. */
  lemma CompletedRewrite<P>(ps: seq<Trackpoint<P>>, startDist: real, start: Micros, end: Micros)
    requires |ps| >= 2 && HasFields(ps)
    ensures var r := Interpolated(ps, startDist, start, end);
      r.outcome == Completed &&
      forall j :: 0 <= j < |ps| ==>
        r.points[j] == ps[j].(dist := Some(ps[j].dist.value + (startDist - ps[0].dist.value)),
                              time := Some(start + j * RoundHalfEven(end - start, |ps| - 1)))
  {
    CompletedIff(ps, startDist, start, end);
    var delta, step := DistDelta(ps, startDist), TimeDelta(start, end, |ps|);
    assert FirstFault(ps, 0, delta, start, step) == |ps|;
  }

  /** The first trackpoint gets exactly the start distance and the start
      time. */
  lemma FirstPointExact<P>(ps: seq<Trackpoint<P>>, startDist: real, start: Micros, end: Micros)
    requires |ps| >= 2 && HasFields(ps)
    ensures Interpolated(ps, startDist, start, end).points[0]
         == ps[0].(dist := Some(startDist), time := Some(start))
  {
    CompletedRewrite(ps, startDist, start, end);
  }

  /** Consecutive trackpoints are exactly one step apart in time. */
  lemma TimesEquallySpaced<P>(ps: seq<Trackpoint<P>>, startDist: real, start: Micros, end: Micros, j: nat)
    requires |ps| >= 2 && HasFields(ps)
    requires j + 1 < |ps|
    ensures var r := Interpolated(ps, startDist, start, end);
      r.points[j].time.Some? && r.points[j + 1].time.Some? &&
      r.points[j + 1].time.value - r.points[j].time.value == RoundHalfEven(end - start, |ps| - 1)
  {
    CompletedRewrite(ps, startDist, start, end);
    var step := RoundHalfEven(end - start, |ps| - 1);
    assert (j + 1) * step == j * step + step;
  }

  /** The rewritten times run in the direction from start to end: never
      decreasing when end is not before start, never increasing when it is. */
  lemma TimesMonotone<P>(ps: seq<Trackpoint<P>>, startDist: real, start: Micros, end: Micros, i: nat, j: nat)
    requires |ps| >= 2 && HasFields(ps)
    requires i <= j < |ps|
    ensures var r := Interpolated(ps, startDist, start, end);
      r.points[i].time.Some? && r.points[j].time.Some? &&
      (start <= end ==> r.points[i].time.value <= r.points[j].time.value) &&
      (end <= start ==> r.points[i].time.value >= r.points[j].time.value)
  {
    CompletedRewrite(ps, startDist, start, end);
    var step := RoundHalfEven(end - start, |ps| - 1);
    RoundHalfEvenSign(end - start, |ps| - 1);
    if step >= 0 {
      MulMonotone(i, j, step);
    } else {
      MulMonotone(i, j, -step);
    }
  }

  /** The last trackpoint lands within (n - 1) / 2 microseconds of end,
      and exactly on it when the duration divides evenly into n - 1 steps. */
  lemma LastPointNearEnd<P>(ps: seq<Trackpoint<P>>, startDist: real, start: Micros, end: Micros)
    requires |ps| >= 2 && HasFields(ps)
    ensures var r := Interpolated(ps, startDist, start, end);
      var n := |ps|;
      r.points[n - 1].time.Some? &&
      -(n - 1) <= 2 * (r.points[n - 1].time.value - end) <= n - 1 &&
      ((end - start) % (n - 1) == 0 ==> r.points[n - 1].time == Some(end))
  {
    CompletedRewrite(ps, startDist, start, end);
    var n := |ps|;
    assert TimeDelta(start, end, n).micros == RoundHalfEven(end - start, n - 1);
  }

  /** The distance offset is one constant: the distance between any two
      trackpoints is what it was in the course. */
  lemma DistancesKeepDifferences<P>(ps: seq<Trackpoint<P>>, startDist: real, start: Micros, end: Micros, i: nat, j: nat)
    requires |ps| >= 2 && HasFields(ps)
    requires i < |ps| && j < |ps|
    ensures var r := Interpolated(ps, startDist, start, end);
      r.points[i].dist.Some? && r.points[j].dist.Some? &&
      r.points[j].dist.value - r.points[i].dist.value == ps[j].dist.value - ps[i].dist.value
  {
    CompletedRewrite(ps, startDist, start, end);
  }

  /** A course of one trackpoint does not get the start time: `time_delta`
      is still the int 0, so line 95 adds an int to a datetime and raises,
      after the point's distance has already been set to the start
      distance, and whether or not the point has a `Time` child. */
  lemma SinglePointRaises<P>(ps: seq<Trackpoint<P>>, startDist: real, start: Micros, end: Micros)
    requires |ps| == 1 && ps[0].dist.Some?
    ensures Interpolated(ps, startDist, start, end)
         == Run([ps[0].(dist := Some(startDist))], Aborted(IntStep(0)))
  {
    var delta, step := DistDelta(ps, startDist), TimeDelta(start, end, |ps|);
    assert FirstFault(ps, 0, delta, start, step) == 0;
  }

  /** At the first trackpoint that lacks a child the run aborts, naming the
      missing child (`DistanceMeters` is looked at first) and that point's
      index; every trackpoint after it is left as it was. A one-point course
      whose point lacks only `Time` raises `TypeError` instead, because the
      new time is computed before the child is touched. */
  lemma AbortsAtFirstMissing<P>(ps: seq<Trackpoint<P>>, startDist: real, start: Micros, end: Micros, k: nat)
    requires k < |ps| && HasFields(ps[..k])
    requires ps[k].dist.None? || ps[k].time.None?
    ensures var r := Interpolated(ps, startDist, start, end);
      r.outcome == Aborted(if ps[k].dist.None? then MissingDistance(k)
                           else if |ps| == 1 then IntStep(k)
                           else MissingTime(k)) &&
      forall j :: k < j < |ps| ==> r.points[j] == ps[j]
  {
    var delta, step := DistDelta(ps, startDist), TimeDelta(start, end, |ps|);
    var f := FirstFault(ps, 0, delta, start, step);
    forall j | 0 <= j < k
      ensures Iterate(ps[j], j, delta, start, step).fault == None || step == IntZero
    {
      assert ps[..k][j] == ps[j];
    }
    if step == IntZero {
      assert k == 0;
      assert f == 0;
    } else {
      assert f == k;
    }
  }

  /** The scenario of a three-point course with distances 100, 150 and 200
      metres, a start distance of 351 metres and a ten-second gap (as from
      09:21:43 to 09:21:53): the points get 351, 401 and 451 metres and
      times five seconds apart. */
  lemma ThreePointScenario<P>(start: Micros, t0: Micros, t1: Micros, t2: Micros, a: P, b: P, c: P)
    ensures Interpolated([Trackpoint(Some(100.0), Some(t0), a),
                          Trackpoint(Some(150.0), Some(t1), b),
                          Trackpoint(Some(200.0), Some(t2), c)], 351.0, start, start + 10_000_000)
         == Run([Trackpoint(Some(351.0), Some(start), a),
                 Trackpoint(Some(401.0), Some(start + 5_000_000), b),
                 Trackpoint(Some(451.0), Some(start + 10_000_000), c)], Completed)
  {
    var ps := [Trackpoint(Some(100.0), Some(t0), a),
               Trackpoint(Some(150.0), Some(t1), b),
               Trackpoint(Some(200.0), Some(t2), c)];
    CompletedRewrite(ps, 351.0, start, start + 10_000_000);
    assert RoundHalfEven(10_000_000, 2) == 5_000_000;
  }
}
