/** The piecewise-linear map from steady-clock ticks to stopwatch ticks that a
    stopwatch follows over its lifetime: one segment per synchronisation point
    (construction, then each speed change), each with a constant speed. */
module Segments {
  import opened Truncation

  /** A synchronisation point together with the speed adopted there. */
  datatype Segment = Segment(startSteady: int, startLogical: int, speed: real)

  /** A steady duration of `d` ticks scaled by `speed`, before truncation. */
  function Scaled(d: int, speed: real): real {
    d as real * speed
  }

  /** Logical time that the segment assigns to the steady reading `t`. */
  function At(seg: Segment, t: int): int {
    seg.startLogical + Trunc(Scaled(t - seg.startSteady, seg.speed))
  }

  /** Exact logical advance of one segment between two steady readings. */
  function ExactAdvance(seg: Segment, from: int, to: int): real {
    Scaled(to - from, seg.speed)
  }

  /** Integer logical advance of one segment between two steady readings. */
  function Advance(seg: Segment, from: int, to: int): int {
    At(seg, to) - At(seg, from)
  }

  function Last(segs: seq<Segment>): Segment
    requires |segs| >= 1
  {
    segs[|segs| - 1]
  }

  /** Consecutive segments start at non-decreasing steady readings, and each
      one starts at the logical time its predecessor reached at that reading. */
  ghost predicate Chained(segs: seq<Segment>) {
    forall i :: 0 <= i < |segs| - 1 ==>
      segs[i].startSteady <= segs[i + 1].startSteady &&
      segs[i + 1].startLogical == At(segs[i], segs[i + 1].startSteady)
  }

  /** Steady reading at which segment `i` starts to count: reading A for the
      first segment, the segment's own synchronisation point for the others. */
  function From(segs: seq<Segment>, tA: int, i: nat): int
    requires i < |segs|
  {
    if i == 0 then tA else segs[i].startSteady
  }

  /** Steady reading at which segment `i` stops counting: the next
      synchronisation point, or reading B for the last segment. */
  function To(segs: seq<Segment>, tB: int, i: nat): int
    requires i < |segs|
  {
    if i == |segs| - 1 then tB else segs[i + 1].startSteady
  }

  /** Integer logical advance of each segment spanned between reading A, taken
      in the first of `segs`, and reading B, taken in the last. */
  function Advances(segs: seq<Segment>, tA: int, tB: int): (r: seq<int>)
    ensures |r| == |segs|
  {
    seq(|segs|, i requires 0 <= i < |segs| => Advance(segs[i], From(segs, tA, i), To(segs, tB, i)))
  }

  /** The same advances taken exactly: each steady duration times its speed. */
  function ExactAdvances(segs: seq<Segment>, tA: int, tB: int): (r: seq<real>)
    ensures |r| == |segs|
  {
    seq(|segs|, i requires 0 <= i < |segs| => ExactAdvance(segs[i], From(segs, tA, i), To(segs, tB, i)))
  }

  function Sum(xs: seq<int>): int {
    if xs == [] then 0 else xs[0] + Sum(xs[1..])
  }

  function SumReal(xs: seq<real>): real {
    if xs == [] then 0.0 else xs[0] + SumReal(xs[1..])
  }

  /** At its own synchronisation point a segment reads its start exactly. */
  lemma AtStart(seg: Segment)
    ensures At(seg, seg.startSteady) == seg.startLogical
  {
    TruncWhole(0);
  }

  /** Within one segment, the logical advance is the steady advance times the
      speed, up to less than one tick of truncation. */
  lemma AtBound(seg: Segment, t: int)
    ensures -1.0 < (At(seg, t) - seg.startLogical) as real - ExactAdvance(seg, seg.startSteady, t) < 1.0
  {
    TruncError(Scaled(t - seg.startSteady, seg.speed));
  }

  /** With a non-negative speed, logical time does not decrease within a segment. */
  lemma AtForward(seg: Segment, t1: int, t2: int)
    requires seg.startSteady <= t1 <= t2 && 0.0 <= seg.speed
    ensures At(seg, t1) <= At(seg, t2)
  {
    ScaledMonotone(t1 - seg.startSteady, t2 - seg.startSteady, seg.speed);
    TruncMonotone(Scaled(t1 - seg.startSteady, seg.speed), Scaled(t2 - seg.startSteady, seg.speed));
  }

  /** With a non-positive speed, logical time does not increase within a segment. */
  lemma AtBackward(seg: Segment, t1: int, t2: int)
    requires seg.startSteady <= t1 <= t2 && seg.speed <= 0.0
    ensures At(seg, t2) <= At(seg, t1)
  {
    ScaledAntitone(t1 - seg.startSteady, t2 - seg.startSteady, seg.speed);
    TruncMonotone(Scaled(t2 - seg.startSteady, seg.speed), Scaled(t1 - seg.startSteady, seg.speed));
  }

  lemma ScaledMonotone(d1: int, d2: int, k: real)
    requires d1 <= d2 && 0.0 <= k
    ensures Scaled(d1, k) <= Scaled(d2, k)
  {
    assert Scaled(d2, k) - Scaled(d1, k) == (d2 - d1) as real * k;
  }

  lemma ScaledAntitone(d1: int, d2: int, k: real)
    requires d1 <= d2 && k <= 0.0
    ensures Scaled(d2, k) <= Scaled(d1, k)
  {
    assert Scaled(d1, k) - Scaled(d2, k) == (d2 - d1) as real * -k;
  }

  lemma ChainedSuffix(segs: seq<Segment>, k: nat)
    requires Chained(segs) && k <= |segs|
    ensures Chained(segs[k..])
  {
    forall i | 0 <= i < |segs[k..]| - 1
      ensures segs[k..][i].startSteady <= segs[k..][i + 1].startSteady
      ensures segs[k..][i + 1].startLogical == At(segs[k..][i], segs[k..][i + 1].startSteady)
    {
      assert segs[k..][i] == segs[k + i] && segs[k..][i + 1] == segs[k + i + 1];
    }
  }

  /** A segment that starts where the last one has got to extends the chain. */
  lemma ChainedAppend(segs: seq<Segment>, next: Segment)
    requires |segs| >= 1 && Chained(segs)
    requires Last(segs).startSteady <= next.startSteady
    requires next.startLogical == At(Last(segs), next.startSteady)
    ensures Chained(segs + [next])
  {
    var r := segs + [next];
    forall i | 0 <= i < |r| - 1
      ensures r[i].startSteady <= r[i + 1].startSteady
      ensures r[i + 1].startLogical == At(r[i], r[i + 1].startSteady)
    {
      if i < |segs| - 1 {
        assert r[i] == segs[i] && r[i + 1] == segs[i + 1];
      }
    }
  }

  /** Logical time is continuous at every synchronisation point: the segment
      that ends there and the one that starts there agree on its reading. */
  lemma Continuous(segs: seq<Segment>, i: nat)
    requires Chained(segs) && i + 1 < |segs|
    ensures At(segs[i], segs[i + 1].startSteady) == At(segs[i + 1], segs[i + 1].startSteady)
  {
    AtStart(segs[i + 1]);
  }

  /** Dropping the first segment leaves the advances of the others, counted
      from their own synchronisation points. */
  lemma AdvancesTail(segs: seq<Segment>, tA: int, tB: int)
    requires |segs| >= 2
    ensures Advances(segs, tA, tB) == [Advance(segs[0], tA, segs[1].startSteady)] + Advances(segs[1..], segs[1].startSteady, tB)
  {
    var r, rest := Advances(segs, tA, tB), Advances(segs[1..], segs[1].startSteady, tB);
    forall i | 1 <= i < |segs|
      ensures r[i] == rest[i - 1]
    {
      assert segs[1..][i - 1] == segs[i];
      assert From(segs[1..], segs[1].startSteady, i - 1) == From(segs, tA, i);
      assert To(segs[1..], tB, i - 1) == To(segs, tB, i);
    }
    assert r == [r[0]] + r[1..];
  }

  /** The duration between a reading in the first segment and a reading in the
      last one is the sum of the spanned segments' integer advances. */
  lemma {:induction false} DurationAcrossSegments(segs: seq<Segment>, tA: int, tB: int)
    requires |segs| >= 1 && Chained(segs)
    ensures At(Last(segs), tB) - At(segs[0], tA) == Sum(Advances(segs, tA, tB))
  {
    var r := Advances(segs, tA, tB);
    if |segs| == 1 {
      assert r[1..] == [];
    } else {
      ChainedSuffix(segs, 1);
      DurationAcrossSegments(segs[1..], segs[1].startSteady, tB);
      Continuous(segs, 0);
      AdvancesTail(segs, tA, tB);
      assert r[1..] == Advances(segs[1..], segs[1].startSteady, tB);
      assert Last(segs[1..]) == Last(segs);
    }
  }

  lemma Distribute(a: int, b: int, c: int, k: real)
    ensures Scaled(a - c, k) - Scaled(b - c, k) == Scaled(a - b, k)
  {
  }

  /** One segment's integer advance is its steady duration times its speed, up
      to less than one tick when it is measured from the synchronisation point
      and less than two otherwise. */
  lemma AdvanceBound(seg: Segment, from: int, to: int)
    ensures -2.0 < Advance(seg, from, to) as real - ExactAdvance(seg, from, to) < 2.0
    ensures from == seg.startSteady ==>
      -1.0 < Advance(seg, from, to) as real - ExactAdvance(seg, from, to) < 1.0
  {
    AtBound(seg, to);
    AtBound(seg, from);
    Distribute(to, from, seg.startSteady, seg.speed);
    if from == seg.startSteady {
      AtStart(seg);
    }
  }

  /** If every term but the first is within one of its exact counterpart and
      the first is within `e`, the sums are within `e` plus one per later term. */
  lemma {:induction false} SumsNear(xs: seq<int>, ys: seq<real>, e: real)
    requires |xs| == |ys| >= 1
    requires -e < xs[0] as real - ys[0] < e
    requires forall i :: 1 <= i < |xs| ==> -1.0 < xs[i] as real - ys[i] < 1.0
    ensures -(e + (|xs| - 1) as real) < Sum(xs) as real - SumReal(ys) < e + (|xs| - 1) as real
  {
    if |xs| == 1 {
      assert xs[1..] == [] && ys[1..] == [];
    } else {
      forall i | 1 <= i < |xs[1..]|
        ensures -1.0 < xs[1..][i] as real - ys[1..][i] < 1.0
      {
        assert xs[1..][i] == xs[i + 1] && ys[1..][i] == ys[i + 1];
      }
      SumsNear(xs[1..], ys[1..], 1.0);
    }
  }

  /** Rounding tolerance of a reading taken at `tA` in the first of `segs`:
      one tick per segment, plus one when `tA` is not a synchronisation point. */
  function Tolerance(segs: seq<Segment>, tA: int): real
    requires |segs| >= 1
  {
    (|segs| + (if tA == segs[0].startSteady then 0 else 1)) as real
  }

  /** The duration across segments is within rounding tolerance of the exact
      sum of the segments' steady durations times their speeds. */
  lemma SumNearExact(segs: seq<Segment>, tA: int, tB: int)
    requires |segs| >= 1
    ensures -Tolerance(segs, tA) < Sum(Advances(segs, tA, tB)) as real - SumReal(ExactAdvances(segs, tA, tB)) < Tolerance(segs, tA)
  {
    AdvancesNearExact(segs, tA, tB);
    SumsNear(Advances(segs, tA, tB), ExactAdvances(segs, tA, tB), if tA == segs[0].startSteady then 1.0 else 2.0);
  }

  /** Each spanned segment's integer advance is near its exact advance. */
  lemma AdvancesNearExact(segs: seq<Segment>, tA: int, tB: int)
    requires |segs| >= 1
    ensures var xs, ys := Advances(segs, tA, tB), ExactAdvances(segs, tA, tB);
      (forall i :: 1 <= i < |segs| ==> -1.0 < xs[i] as real - ys[i] < 1.0) &&
      -2.0 < xs[0] as real - ys[0] < 2.0 &&
      (tA == segs[0].startSteady ==> -1.0 < xs[0] as real - ys[0] < 1.0)
  {
    forall i | 0 <= i < |segs| {
      PieceNearExact(segs, tA, tB, i);
    }
  }

  lemma PieceNearExact(segs: seq<Segment>, tA: int, tB: int, i: nat)
    requires i < |segs|
    ensures var d := Advances(segs, tA, tB)[i] as real - ExactAdvances(segs, tA, tB)[i];
      -2.0 < d < 2.0 && ((i > 0 || tA == segs[0].startSteady) ==> -1.0 < d < 1.0)
  {
    var from, to := From(segs, tA, i), To(segs, tB, i);
    assert Advances(segs, tA, tB)[i] == Advance(segs[i], from, to);
    assert ExactAdvances(segs, tA, tB)[i] == ExactAdvance(segs[i], from, to);
    AdvanceBound(segs[i], from, to);
  }

  /** A history in which every speed was zero never moves: the last segment
      still reads the logical time of the first synchronisation point. */
  lemma {:induction false} FrozenHistory(segs: seq<Segment>, t: int)
    requires |segs| >= 1 && Chained(segs)
    requires forall i :: 0 <= i < |segs| ==> segs[i].speed == 0.0
    ensures At(Last(segs), t) == segs[0].startLogical
  {
    if |segs| == 1 {
      TruncWhole(0);
    } else {
      ChainedSuffix(segs, 1);
      FrozenHistory(segs[1..], t);
      TruncWhole(0);
      assert segs[1].startLogical == At(segs[0], segs[1].startSteady);
      assert Last(segs[1..]) == Last(segs);
    }
  }
}
