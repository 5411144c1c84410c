# tcx-interpolate, modelled in Dafny

`tcx-interpolate.py` fills a gap in a recorded ride. It takes a TCX course (a list of
`Trackpoint` elements) and gives its points evenly spaced timestamps between a start
and an end time. It also shifts every point's `DistanceMeters` by one constant, so
that the first point sits at a requested start distance.

This project models the transformation in the middle of the script:

- `namespaces.dfy`, module `Namespaces` (lines 73-78). The pass that removes
  Clark-notation namespaces (`{uri}Local` becomes `Local`) from every string tag in
  the tree. Non-string tags (comments, processing instructions, entities) are
  skipped. The pass is a method over an array of nodes. It is specified by the
  value-level function `StripAll`, which is built from the per-tag function `StripTag`.
- `timestep.dfy`, module `TimeStep` (lines 84-87). The time step. Instants and
  durations are integer microseconds, the resolution of Python's `datetime`.
  Dividing a `timedelta` by an `int` rounds to the nearest microsecond, with ties
  going to even (`RoundHalfEven`). `time_delta` is either the int `0` from line 85 or
  a timedelta, and `StepValue` keeps the two apart.
- `interpolate.dfy`, module `Interpolation` (lines 81-95). The rewrite loop, as a
  method over an array of `Trackpoint` records. A record holds the optional distance,
  the optional time and the untouched rest of the point. The method is specified by
  the function `Interpolated` of the original points. The lemmas state what the
  rewrite guarantees.
- `wrappers.dfy`, module `Wrappers`: `Option`.

The script does not guard against bad input. Each of these raises a Python exception
and ends the run before any output is written:

- an empty course (`IndexError`, line 83);
- a point without `DistanceMeters` (`AttributeError`, lines 92-93);
- a course of one point (`TypeError`, line 95). `time_delta` is still the int `0`, so
  `start_time + 0*0` adds an int to a datetime. By then the point's distance has
  already been rewritten. Python evaluates this sum before it assigns to `et.text`,
  so the `TypeError` comes first even when the point has no `Time` child
  (`SinglePointRaises`);
- a point without `Time` in a course of two or more points (`AttributeError`,
  line 95).

The model does not rule these out with preconditions. `Interpolate` returns
`Aborted(failure)` with the exception's kind and the index of the point being
processed. The array is left exactly as the loop left it when the exception was raised.

Further facts about the code that the model keeps:

- The step is rounded to the microsecond, so the last point lands only within (n-1)/2
  microseconds of the end time. It is exact when the duration divides evenly
  (`LastPointNearEnd`).
- Output times are written with `str(datetime)`, i.e. `YYYY-MM-DD HH:MM:SS+00:00`,
  with `.ffffff` added when the microseconds are non-zero. The model keeps the
  instant and leaves the rendering out.
- Only the TCX element names `Trackpoint`, `DistanceMeters` and `Time` are matched.

## Model

| member | source | states |
|---|---|---|
| `Namespaces.Find` | tcx-interpolate.py:76 | `str.find` for one character: -1 exactly when the character is absent, otherwise an index holding it with no earlier occurrence |
| `Namespaces.StripTag` | tcx-interpolate.py:76-78 | the result is a suffix of the tag; a tag without `}` is unchanged; otherwise the result is exactly what follows the first `}` |
| `Namespaces.ClarkLocalName` | tcx-interpolate.py:73-78 | a Clark tag `{ns}local` whose namespace has no `}` strips to exactly `local` |
| `Namespaces.StripNode` | tcx-interpolate.py:75-78 | string tags are stripped and stay string tags; non-string tags are left as they are |
| `Namespaces.StripAll` | tcx-interpolate.py:74-78 | the pass over the tree keeps the number of nodes |
| `Namespaces.StripAllAt` | tcx-interpolate.py:74-78 | node k after the pass has node k's content; its tag is stripped if it is a string and unchanged otherwise, so count and order are kept |
| `Namespaces.Decorate` | tcx-interpolate.py:73 | qualifying a node with a namespace, or leaving it bare, keeps its content and whether its tag is a string |
| `Namespaces.QualifiedStripsToBare` | tcx-interpolate.py:73-78 | a document in which each element carries its own namespace, or none, strips to the same nodes as the undecorated document, when no namespace and no local name contains `}` |
| `Namespaces.StripNamespaces` | tcx-interpolate.py:74-78 | the in-place loop leaves the node array equal to `StripAll` of its old contents |
| `TimeStep.RoundHalfEven` | tcx-interpolate.py:87 | timedelta / int: the quotient is within half a unit of the exact one, even on a tie, and exact when the division is exact |
| `TimeStep.RoundHalfEvenSign` | tcx-interpolate.py:87 | the rounded quotient has the sign of the dividend |
| `TimeStep.RoundHalfEvenUnique` | tcx-interpolate.py:87 | "nearest, ties to even" determines the quotient: any integer meeting both conditions is the rounded quotient |
| `TimeStep.TimeDelta` | tcx-interpolate.py:85-87 | the step is a timedelta exactly when n > 1; n-1 steps from start land within (n-1)/2 µs of end, exactly on it when the duration divides, and the step has the sign of end - start |
| `Interpolation.TimeAt` | tcx-interpolate.py:95 | `start_time + i*time_delta` raises exactly when the step is still the int 0; point 0 gets the start time; with a non-negative (non-positive) step no point is before (after) the start |
| `Interpolation.DistDelta` | tcx-interpolate.py:91-92 | the offset captured on the first pass brings the first point's original distance to exactly the start distance |
| `Interpolation.Iterate` | tcx-interpolate.py:90-95 | one loop pass keeps the point's other content; it raises exactly when a child is missing or the step is still the int 0; a missing distance raises before anything changes; an int step raises `TypeError` before the `Time` child is looked at; otherwise the distance gains the offset |
| `Interpolation.FirstFault` | tcx-interpolate.py:89-95 | the index of the first point whose loop pass raises, with no raise before it; the number of points if none raises |
| `Interpolation.Interpolated` | tcx-interpolate.py:82-95 | the rewrite keeps the number, order and other content of the points; it aborts with `NoTrackpoints` exactly when there are none |
| `Interpolation.StoppedAt` | tcx-interpolate.py:89-95 | a list in which the points before i went through the loop body without raising, point i is what the raising pass left, and the rest are untouched is exactly the rewrite's result and outcome |
| `Interpolation.Interpolate` | tcx-interpolate.py:83-95 | the in-place loop, with the offset captured on the first pass, leaves the array and the outcome equal to `Interpolated` of the old points |
| `Interpolation.CompletedIff` | tcx-interpolate.py:83-95 | the run completes if and only if there are at least two points and each has `DistanceMeters` and `Time` |
| `Interpolation.CompletedRewrite` | tcx-interpolate.py:84-95 | on such a course, point i gets distance `old[i] + (startDist - old[0])` and time `start + i*step`, with the rounded step; nothing else changes |
| `Interpolation.FirstPointExact` | tcx-interpolate.py:91-95 | the first point gets exactly the start distance and the start time |
| `Interpolation.TimesEquallySpaced` | tcx-interpolate.py:87-95 | the times of consecutive points differ by exactly the step |
| `Interpolation.TimesMonotone` | tcx-interpolate.py:87-95 | the times never decrease when end >= start, and never increase when end <= start |
| `Interpolation.LastPointNearEnd` | tcx-interpolate.py:86-95 | the last point's time is within (n-1)/2 µs of end, and equals end when the duration in µs is divisible by n-1 |
| `Interpolation.DistancesKeepDifferences` | tcx-interpolate.py:89-93 | the difference between any two points' distances is the same as in the course |
| `Interpolation.SinglePointRaises` | tcx-interpolate.py:85-95 | with one point that has a distance, the run raises `TypeError` at point 0, whether or not it has a `Time` child, after that point's distance was set to the start distance; its time is unchanged |
| `Interpolation.AbortsAtFirstMissing` | tcx-interpolate.py:89-95 | at the first point that lacks a child, the run aborts and names that child (distance checked first) and the point's index, except that a one-point course lacking only `Time` raises `TypeError`; later points are untouched |
| `Interpolation.ThreePointScenario` | tcx-interpolate.py:84-95 | distances 100/150/200 m, start distance 351 m and a 10 s gap give 351/401/451 m and times 0, 5 and 10 s after start |

## Left out

- Argument parsing and its defaults (lines 45-56): `startDist` is a parameter. When
  `-d` is missing, the script passes 0.
- Timestamp parsing with `dateutil` and its error exit (lines 57-62): start and end
  are given as microsecond instants. A mix of timezone-aware and naive instants would
  make line 87 raise. The model does not capture that.
- XML parsing, `objectify.deannotate` and the pretty-printed output with its error
  exits (lines 64-71, 79, 97-102). These are library calls and I/O. From the output
  step, the model keeps only one fact: a raised exception means nothing is written.
- The XPath query at line 82: the model takes the list of trackpoints as given.
  `//Trackpoint` returns every `Trackpoint` in the document in document order, so n
  counts points in every track. Only the first point's parent is written out.
- `root.getiterator()` order: the nodes to strip are given as an array in document
  order. The tree structure is not modelled.
- Text of the `Time` and `DistanceMeters` children: a distance is a `real` and a time
  is an instant in microseconds. The model leaves out `float()` parsing (a
  non-numeric distance raises `ValueError`), `str(float)` and the `str(datetime)`
  rendering.
- `Interpolation.Interpolated`: distances are exact reals, not IEEE doubles. The
  offset and differences are stated exactly, which the script's float arithmetic
  only approximates.
- `TimeStep.TimeDelta`: the range limits of `timedelta` and `datetime` are not
  modelled. A result before year 1 or after year 9999 would raise `OverflowError`.
- Only the first `DistanceMeters` and `Time` child of a point is rewritten, as lxml's
  `find` does. Any further children of those names are part of the untouched payload.
- `Namespaces.StripNamespaces`: a namespace URI containing `}` gives a tag such as
  `{a}b}c`. Line 78 then assigns `b}c`, which lxml rejects with `ValueError`
  (invalid tag name). The model keeps `b}c` and does not raise.
