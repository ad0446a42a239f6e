/** The stopwatch: a clock whose logical time runs at a settable speed
    relative to the steady clock, anchored by a synchronisation pair. The
    steady clock is not modelled; each operation that reads it takes the
    reading `t` (in ticks since the steady clock's epoch) as a parameter. */
module Stopwatch {
  import opened Truncation
  import opened Segments

  /** A steady-clock reading and the stopwatch time point paired with it. */
  datatype SyncPoint = SyncPoint(steady: int, logical: int)

  class Stopwatch {
    /** When this stopwatch was last compared to the steady clock. */
    var sync: SyncPoint
    /** Logical ticks per steady tick since `sync`; any sign. */
    var speed: real
    /** Every synchronisation point so far with the speed adopted there,
        oldest first; the last one is the current `sync` and `speed`. */
    ghost var segments: seq<Segment>

    ghost predicate Valid()
      reads this
    {
      |segments| >= 1 && Chained(segments) &&
      Last(segments) == Segment(sync.steady, sync.logical, speed) &&
      segments[0].startLogical == segments[0].startSteady
    }

    /** Construction at steady reading `t0`: the stopwatch starts aligned with
        the steady clock's own time since epoch. */
    constructor (t0: int, speed: real := 1.0)
      ensures Valid()
      ensures sync == SyncPoint(t0, t0) && this.speed == speed
      ensures segments == [Segment(t0, t0, speed)]
      ensures Speed() == speed
      ensures Now(t0) == t0
      ensures speed == 0.0 ==> forall t :: t0 <= t ==> Now(t) == t0
    {
      this.speed := speed;
      sync := SyncPoint(t0, t0);
      segments := [Segment(t0, t0, speed)];
    }

    /** The steady reading `t` paired with the logical time it projects to:
        the sync time point plus the scaled steady time elapsed since the
        sync reading, truncated toward zero to whole ticks. */
    function ImplNow(t: int): (p: SyncPoint)
      reads this
      requires sync.steady <= t
      ensures p.steady == t
      ensures -1.0 < (p.logical - sync.logical) as real - (t - sync.steady) as real * speed < 1.0
      ensures Valid() ==> p.logical == At(Last(segments), t)
    {
      SyncPoint(t, sync.logical + Trunc(Scaled(t - sync.steady, speed)))
    }

    /** The current logical time at steady reading `t`; reading it changes
        nothing. */
    function Now(t: int): (r: int)
      reads this
      requires sync.steady <= t
      ensures t == sync.steady ==> r == sync.logical
      ensures speed == 0.0 ==> r == sync.logical
      ensures 0.0 <= speed ==> sync.logical <= r
      ensures speed <= 0.0 ==> r <= sync.logical
      ensures Valid() ==> r == At(Last(segments), t)
    {
      TruncError(Scaled(t - sync.steady, speed));
      ImplNow(t).logical
    }

    /** The current speed, which is the speed of the latest segment: the one
        given to the constructor or to the most recent `SetSpeed`. */
    function Speed(): (r: real)
      reads this
      ensures Valid() ==> r == Last(segments).speed
    {
      speed
    }

    /** Changes the speed at steady reading `t`: the sync pair moves to `t`
        and the logical time the old speed gives there, then the new speed is
        adopted. Logical time does not jump; only its slope changes. */
    method SetSpeed(s: real, t: int)
      requires Valid() && sync.steady <= t
      modifies this
      ensures Valid()
      ensures sync == SyncPoint(t, old(Now(t))) && speed == s
      ensures segments == old(segments) + [Segment(t, old(Now(t)), s)]
      ensures Now(t) == old(Now(t))
      ensures Speed() == s
    {
      var p := ImplNow(t);
      ChainedAppend(segments, Segment(t, p.logical, s));
      sync := p;
      speed := s;
      segments := segments + [Segment(t, p.logical, s)];
    }

    /** With a non-negative speed, later readings give later time points. */
    lemma NowForward(t1: int, t2: int)
      requires sync.steady <= t1 <= t2 && 0.0 <= speed
      ensures Now(t1) <= Now(t2)
    {
      var seg := Segment(sync.steady, sync.logical, speed);
      assert Now(t1) == At(seg, t1) && Now(t2) == At(seg, t2);
      AtForward(seg, t1, t2);
    }

    /** With a non-positive speed, later readings give earlier time points. */
    lemma NowBackward(t1: int, t2: int)
      requires sync.steady <= t1 <= t2 && speed <= 0.0
      ensures Now(t2) <= Now(t1)
    {
      var seg := Segment(sync.steady, sync.logical, speed);
      assert Now(t1) == At(seg, t1) && Now(t2) == At(seg, t2);
      AtBackward(seg, t1, t2);
    }

    /** Between two readings without a speed change in between, logical time
        advances by the steady advance times the speed, up to truncation. */
    lemma NowLinear(t1: int, t2: int)
      requires sync.steady <= t1 && sync.steady <= t2
      ensures -2.0 < (Now(t2) - Now(t1)) as real - (t2 - t1) as real * speed < 2.0
      ensures t1 == sync.steady ==> -1.0 < (Now(t2) - Now(t1)) as real - (t2 - t1) as real * speed < 1.0
    {
      AdvanceBound(Segment(sync.steady, sync.logical, speed), t1, t2);
    }

    /** A reading `a` taken at steady time `tA` while segment `k` was current,
        compared with a reading now at `tB`: their difference is the sum of
        the integer advances of the segments spanned, and lies within rounding
        tolerance of the exact sum of steady durations times speeds. */
    lemma ElapsedSince(k: nat, tA: int, tB: int)
      requires Valid() && k < |segments| && sync.steady <= tB
      ensures Now(tB) - At(segments[k], tA) == Sum(Advances(segments[k..], tA, tB))
      ensures var tol := Tolerance(segments[k..], tA);
        -tol < Sum(Advances(segments[k..], tA, tB)) as real - SumReal(ExactAdvances(segments[k..], tA, tB)) < tol
    {
      ChainedSuffix(segments, k);
      assert segments[k..][0] == segments[k];
      assert Last(segments[k..]) == Last(segments);
      DurationAcrossSegments(segments[k..], tA, tB);
      SumNearExact(segments[k..], tA, tB);
    }

    /** While every speed so far has been zero, the stopwatch reads the time
        of its construction. */
    lemma StoppedSinceConstruction(t: int)
      requires Valid() && sync.steady <= t
      requires forall i :: 0 <= i < |segments| ==> segments[i].speed == 0.0
      ensures Now(t) == segments[0].startSteady
    {
      FrozenHistory(segments, t);
    }
  }
}
