/** The demonstration program's run, with the steady clock replaced by chosen
    readings: one second is 10^9 ticks, and each phase lasts five seconds. */
module Scenario {
  import opened Stopwatch

  const Second: int := 1_000_000_000

  /** Default-constructed stopwatch, then speed -1, 2.5 and 0 for five seconds
      each. Returns the readings at construction and at the end of each phase. */
  method BasicUsage(t0: int) returns (start: int, reversed: int, fast: int, paused: int)
    ensures start == t0
    ensures reversed - start == -5 * Second
    ensures fast - reversed == 12 * Second + Second / 2
    ensures paused == fast
    ensures paused - start == 7 * Second + Second / 2
  {
    var sw := new Stopwatch(t0);
    start := sw.Now(t0);
    sw.SetSpeed(-1.0, t0);
    reversed := sw.Now(t0 + 5 * Second);
    sw.SetSpeed(2.5, t0 + 5 * Second);
    fast := sw.Now(t0 + 10 * Second);
    sw.SetSpeed(0.0, t0 + 10 * Second);
    paused := sw.Now(t0 + 15 * Second);
  }
}
