# Stopwatch: a variable-speed logical clock, modelled in Dafny

The modelled system is the `stopwatch` class of `src/stopwatch.hpp`: a
clock-like object whose time runs at a settable speed relative to
`std::chrono::steady_clock`, including stopped (speed 0) and backwards
(negative speed). A stopwatch keeps a synchronisation pair
`m_sync = (steady reading, stopwatch time point)` and a speed `m_speed`;
`now()` projects the current steady reading through
`sync.second + trunc((t - sync.first) * speed)`, and `set_speed()` moves the
synchronisation pair to the current instant before adopting the new speed.

Modules:

- `Truncation` (truncation.dfy): the `duration_cast` of the scaled,
  floating-point tick count back to whole ticks, which for durations of equal
  period is a `static_cast` of the count and so truncates toward zero.
- `Segments` (segments.dfy): the piecewise-linear map a stopwatch follows over
  its life, one `Segment(startSteady, startLogical, speed)` per
  synchronisation point; the duration between two readings across any number
  of speed changes, and its distance from the exact sum of steady durations
  times speeds.
- `Stopwatch` (stopwatch.dfy): the class itself, with the fields `sync` and
  `speed` that the source mutates, and a ghost history `segments` of every
  synchronisation point, kept consistent by `Valid()`.
- `Scenario` (scenario.dfy): the demonstration program's speed -1 / 2.5 / 0
  run over chosen steady readings.

Representation: time points and durations are integer ticks (`int`), the
steady reading is the parameter `t` of every operation that reads the clock,
and `long double` speed is an exact `real`.

## Model

| member | source | states |
|---|---|---|
| Truncation.Trunc | src/stopwatch.hpp:41 | the cast to whole ticks truncates toward zero: the result has the sign of the argument and is less than one tick closer to zero |
| Truncation.TruncError | src/stopwatch.hpp:41 | truncation changes a value by less than one tick and keeps its sign |
| Truncation.TruncMonotone | src/stopwatch.hpp:41 | truncation toward zero preserves order |
| Truncation.TruncWhole | src/stopwatch.hpp:41 | a whole number of ticks is unchanged by the cast |
| Segments.AtStart | src/stopwatch.hpp:40-42 | at its own synchronisation point a segment gives exactly the synchronised logical time |
| Segments.AtBound | src/stopwatch.hpp:40-42 | within one segment the logical advance differs from steady advance times speed by less than one tick |
| Segments.AtForward | src/stopwatch.hpp:60-64 | with speed at least 0, a later steady reading never gives an earlier time point |
| Segments.AtBackward | src/stopwatch.hpp:60-64 | with speed at most 0, a later steady reading never gives a later time point |
| Segments.AdvanceBound | src/stopwatch.hpp:40-42 | the integer advance between two readings of one segment is the steady advance times speed up to two ticks, or one tick when measured from the synchronisation point |
| Segments.ChainedAppend | src/stopwatch.hpp:76-77 | a new synchronisation point taken at a later reading, at the logical time the current segment gives there, keeps the history continuous |
| Segments.Continuous | src/stopwatch.hpp:75-79 | at every synchronisation point the ending and the starting segment give the same logical time |
| Segments.DurationAcrossSegments | src/stopwatch.hpp:11-12 | reading B minus reading A equals the sum of the integer advances of all segments spanned between them |
| Segments.SumNearExact | src/stopwatch.hpp:11-12 | that sum is within one tick per spanned segment (plus one) of the exact sum of segment durations times speeds |
| Segments.FrozenHistory | src/stopwatch.hpp:48-49 | if every speed so far was 0, logical time is still the first synchronised time |
| Stopwatch.Stopwatch.constructor | src/stopwatch.hpp:53-58 | the sync pair is `(t0, t0)`, the speed is the one given (1 by default), `Now(t0) == t0` at any speed, and at speed 0 every later reading gives `t0` |
| Stopwatch.Stopwatch.ImplNow | src/stopwatch.hpp:37-43 | pairs the reading `t` with a logical time that is the sync time plus steady elapsed times speed, up to less than one tick, and equals the current segment's value at `t` |
| Stopwatch.Stopwatch.Now | src/stopwatch.hpp:65-67 | gives the sync time at the sync reading or at speed 0, never less than it at speed at least 0 and never more at speed at most 0, and the current segment's value at `t` |
| Stopwatch.Stopwatch.Speed | src/stopwatch.hpp:85-87 | is the speed of the latest segment, that is the speed last given to the constructor or `SetSpeed` |
| Stopwatch.Stopwatch.SetSpeed | src/stopwatch.hpp:75-79 | the new sync pair is `(t, old Now(t))`, the speed is `s` exactly, `Now(t)` is the same before and after, and the history gains exactly that segment |
| Stopwatch.Stopwatch.NowForward | src/stopwatch.hpp:60-64 | at speed at least 0, `Now` is monotone in the steady reading |
| Stopwatch.Stopwatch.NowBackward | src/stopwatch.hpp:60-64 | at speed at most 0, `Now` is antitone in the steady reading |
| Stopwatch.Stopwatch.NowLinear | src/stopwatch.hpp:40-42 | between two readings at one speed, logical time advances by steady advance times speed within rounding tolerance |
| Stopwatch.Stopwatch.ElapsedSince | src/stopwatch.hpp:11-12 | a reading taken in any earlier segment subtracted from the current reading is the sum of spanned segment advances, within tolerance of the exact sum |
| Stopwatch.Stopwatch.StoppedSinceConstruction | src/stopwatch.hpp:46-49 | while every speed so far is 0, `Now` is the steady reading at construction |
| Scenario.BasicUsage | examples/basic_usage.cpp:13-41 | speeds -1, 2.5 and 0 for five seconds each give -5 s, then +12.5 s, then no change, so finish minus start is 7.5 s, not real elapsed time times the final speed |

## Left out

- `steady_clock::now()`: the steady reading is a parameter `t`, required to be no earlier than the current synchronisation reading, because the steady clock never goes backwards.
- `long double` rounding: speed and the scaled elapsed time are exact reals; only the final truncation to ticks is modelled.
- 64-bit overflow of tick counts and time points before the epoch under negative speed: ticks are unbounded integers, with no precondition and no clamping.
- `is_steady`, the member type aliases and the note that the class is not a standard Clock: these are compile-time C++ facts with no behaviour.
- Thread safety: the class has no internal synchronisation and the model is sequential.
- The demonstration program's console output and sleeping: its run is `Scenario.BasicUsage` over chosen readings, taken once per phase rather than once per second.
