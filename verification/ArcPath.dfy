/** _PathArcToFastEx (imgui_draw.cpp): an arc walked over a 48-entry table of circle samples.
    The path gets room for a number of points computed by division; the loops that fill it step
    and wrap their own index. A path point is identified with the table sample it is made from. */
module ArcPath {
  const SAMPLE_MAX: int := 48

  /** Remainder of C, which has the sign of the dividend. */
  function TruncatedMod(a: int, m: nat): int
    requires m > 0
  {
    if a >= 0 then a % m else -((-a) % m)
  }

  /** The code's normalisation of a sample number into the table. */
  function Normalized(a: int): (i: nat)
    ensures i < SAMPLE_MAX
  {
    if 0 <= a < SAMPLE_MAX then a
    else
      var r := TruncatedMod(a, SAMPLE_MAX);
      if r < 0 then r + SAMPLE_MAX else r
  }

  lemma NormalizedIsMod(a: int)
    ensures Normalized(a) == Wrap(a) == a % 48
  {}

  function Clamp(x: int, lo: int, hi: int): int { if x < lo then lo else if x > hi then hi else x }

  function StepOf(aStep: int, segments: nat): (s: nat)
    requires segments > 0
    ensures 1 <= s <= SAMPLE_MAX / 4
  {
    Clamp(if aStep <= 0 then SAMPLE_MAX / segments else aStep, 1, SAMPLE_MAX / 4)
  }

  /** A step asked for is used as far as it lies between one sample and a quarter of the circle; without one,
      the largest such step that gives the circle at least the segments of its radius. */
  lemma StepMeaning(aStep: int, segments: nat)
    requires segments > 0
    ensures var s := StepOf(aStep, segments);
            && (aStep > 0 ==> s == if aStep < 12 then aStep else 12)
            && (aStep <= 0 && segments <= 4 ==> s == 12)
            && (aStep <= 0 && segments > 48 ==> s == 1)
            && (aStep <= 0 && 4 < segments <= 48 ==> s * segments <= 48 < (s + 1) * segments)
  {
    if aStep <= 0 {
      var q := 48 / segments;
      assert q * segments <= 48 < (q + 1) * segments;
      if segments <= 4 {
        assert q >= 12;
      } else if segments <= 48 {
        assert 1 <= q <= 9;
      }
    }
  }

  function Abs(x: int): nat { if x < 0 then -x else x }

  /** How far the k-th point lies from the first: a shortened first step evens out a remainder. */
  function Distance(range: nat, step: nat, k: nat): nat
    requires step > 0
  {
    if k == 0 then 0 else FirstStep(range, step) + (k - 1) * step
  }

  function FirstStep(range: nat, step: nat): (f: nat)
    requires step > 0
    ensures 1 <= f <= step
  {
    var overstep := range % step;
    if overstep > 0 then step - (step - overstep) / 2 else step
  }

  /** The table index of a sample number. */
  function Wrap(a: int): (i: nat)
    ensures i < SAMPLE_MAX
  {
    a % SAMPLE_MAX
  }

  lemma WrapStep(a: int, s: int)
    requires 0 <= s <= SAMPLE_MAX
    ensures Wrap(a + s) == Wrap(a) + s || Wrap(a + s) == Wrap(a) + s - SAMPLE_MAX
    ensures Wrap(a - s) == Wrap(a) - s || Wrap(a - s) == Wrap(a) - s + SAMPLE_MAX
  {}

  /** The table sample of the k-th point. */
  function Sample(aMin: int, aMax: int, step: nat, k: nat): (i: nat)
    requires step > 0
    ensures i < SAMPLE_MAX
  {
    var d := Distance(Abs(aMax - aMin), step, k);
    Wrap(if aMax >= aMin then aMin + d else aMin - d)
  }

  /** The arc the code promises: evenly stepped points that stay inside the range, then the end. */
  function Arc(aMin: int, aMax: int, step: nat): (path: seq<nat>)
    requires step > 0
  {
    var n := Points(Abs(aMax - aMin), step);
    seq(n, k requires 0 <= k < n => if k == n - 1 then Wrap(aMax) else Sample(aMin, aMax, step, k))
  }

  function Points(range: nat, step: nat): (n: nat)
    requires step > 0
    ensures n > 0
  {
    range / step + (if range % step > 0 then 2 else 1)
  }

  lemma MultiplesOrdered(a: int, b: int, step: nat)
    requires a <= b
    ensures a * step <= b * step
    ensures b * step == (b - 1) * step + step
  {
    assert b * step - a * step == (b - a) * step;
  }

  /** Exactly the first points stay inside the range, and with no remainder the last of them ends it. */
  lemma DistancesFit(range: nat, step: nat, k: nat)
    requires step > 0
    ensures Distance(range, step, k) <= range <==> k <= range / step
    ensures range % step == 0 ==> Distance(range, step, range / step) == range
  {
    var q, r, f := range / step, range % step, FirstStep(range, step);
    assert range == q * step + r;
    MultiplesOrdered(q, q, step);
    assert r < f;
    if 1 <= k <= q {
      MultiplesOrdered(k - 1, q - 1, step);
    } else if k > q {
      MultiplesOrdered(q, k - 1, step);
    }
  }

  /** What the shortened first step is for: it and the rest left for the last one differ by at most one. */
  lemma EvenEnds(range: nat, step: nat)
    requires step > 0 && range >= step && range % step > 0
    ensures var last := range - Distance(range, step, range / step);
            0 < last <= Distance(range, step, 1) <= last + 1
  {
    var q, r, f := range / step, range % step, FirstStep(range, step);
    assert range == q * step + r;
    MultiplesOrdered(q, q, step);
  }

  /** How far each point of an arc lies from its start. */
  function Places(range: nat, step: nat): (d: seq<nat>)
    requires step > 0
    ensures |d| == Points(range, step)
  {
    var n := Points(range, step);
    seq(n, k requires 0 <= k < n => if k == n - 1 then range else Distance(range, step, k))
  }

  /** From 0 to the end of the range, in full steps, except that a remainder makes the first and the last step
      shorter, as evenly as can be. */
  lemma PlacesEven(range: nat, step: nat)
    requires step > 0
    ensures var d := Places(range, step); var n := |d|;
            && d[0] == 0 && d[n - 1] == range
            && (forall k, j :: 0 < k < n - 2 && j == k + 1 ==> d[j] == d[k] + step)
            && (range % step == 0 ==> forall k, j :: 0 <= k < n - 1 && j == k + 1 ==> d[j] == d[k] + step)
            && (range % step > 0 && range >= step ==>
                  range - d[n - 2] <= d[1] <= range - d[n - 2] + 1 && d[1] <= step && d[n - 2] < range)
  {
    hide Distance, FirstStep;
    var d := Places(range, step);
    var q, n := range / step, |d|;
    FirstDistance(range, step);
    DistancesFit(range, step, 0);
    forall k, j | 0 <= k < n - 1 && j == k + 1 && (0 < k < n - 2 || range % step == 0) ensures d[j] == d[k] + step {
      NextDistance(range, step, k);
      StepOfFull(range, step);
    }
    if range % step > 0 && range >= step {
      EvenEnds(range, step);
      StepBounds(range, step);
      NextDistance(range, step, 0);
      QuotientPositive(range, step);
    }
  }

  lemma QuotientPositive(range: nat, step: nat)
    requires 0 < step <= range
    ensures range / step >= 1
  {}

  /** The shape of an arc: evenly stepped points from one end of its range to the other, towards the end. */
  lemma ArcShape(aMin: int, aMax: int, step: nat, k: nat)
    requires step > 0
    ensures var arc, d := Arc(aMin, aMax, step), Places(Abs(aMax - aMin), step);
            |arc| == |d| && (k < |d| ==> arc[k] == (if aMax >= aMin then aMin + d[k] else aMin - d[k]) % 48)
  {
    hide Arc, Distance, Points;
    ArcCount(aMin, aMax, step);
    if k < |Arc(aMin, aMax, step)| {
      ArcPoint(aMin, aMax, step, k);
    }
  }

  lemma StepOfFull(range: nat, step: nat)
    requires step > 0
    ensures range % step == 0 ==> FirstStep(range, step) == step
  {}

  lemma ArcPoint(aMin: int, aMax: int, step: nat, k: nat)
    requires step > 0 && k < |Arc(aMin, aMax, step)|
    ensures var arc, range := Arc(aMin, aMax, step), Abs(aMax - aMin);
            var d := if k == |arc| - 1 then range else Distance(range, step, k);
            arc[k] == (if aMax >= aMin then aMin + d else aMin - d) % 48
  {
    hide Distance, Sample;
    ArcCount(aMin, aMax, step);
    SampleIs(aMin, aMax, step, k);
    var range := Abs(aMax - aMin);
    assert aMax == if aMax >= aMin then aMin + range else aMin - range;
  }

  lemma LastSample(aMin: int, aMax: int, step: nat)
    requires step > 0 && Abs(aMax - aMin) % step == 0
    ensures Sample(aMin, aMax, step, Abs(aMax - aMin) / step) == Wrap(aMax)
  {
    DistancesFit(Abs(aMax - aMin), step, 0);
  }

  lemma NextDistance(range: nat, step: nat, k: nat)
    requires step > 0
    ensures Distance(range, step, k + 1) == Distance(range, step, k) + if k == 0 then FirstStep(range, step) else step
  {
    MultiplesOrdered(k, k, step);
  }

  /** How many points to reserve, the size of the first step, and whether the end is a point of its own. */
  method CountSamples(sampleRange: nat, aStep: nat) returns (samples: nat, firstStep: nat, extraMaxSample: bool)
    requires aStep >= 1
    ensures samples == Points(sampleRange, aStep) && firstStep == FirstStep(sampleRange, aStep)
    ensures samples == sampleRange / aStep + 1 + (if extraMaxSample then 1 else 0)
    ensures extraMaxSample <==> sampleRange % aStep > 0
    ensures !extraMaxSample ==> firstStep == aStep
    ensures extraMaxSample && sampleRange >= aStep ==>
              var last := sampleRange - firstStep - (sampleRange / aStep - 1) * aStep;
              0 < last <= firstStep <= last + 1
  {
    if sampleRange >= aStep && sampleRange % aStep > 0 {
      EvenEnds(sampleRange, aStep);
    }
    firstStep, samples, extraMaxSample := aStep, sampleRange + 1, false;
    if aStep > 1 {
      samples := sampleRange / aStep + 1;
      var overstep := sampleRange % aStep;
      if overstep > 0 {
        extraMaxSample := true;
        samples := samples + 1;
        firstStep := aStep - (aStep - overstep) / 2;
      }
    }
  }

  lemma ArcCount(aMin: int, aMax: int, step: nat)
    requires step > 0
    ensures |Arc(aMin, aMax, step)| == Points(Abs(aMax - aMin), step)
  {}

  lemma IsArc(s: seq<nat>, aMin: int, aMax: int, step: nat)
    requires step > 0 && |s| == Points(Abs(aMax - aMin), step) && s[|s| - 1] == Wrap(aMax)
    requires forall k: nat :: k < |s| - 1 ==> s[k] == Sample(aMin, aMax, step, k)
    ensures s == Arc(aMin, aMax, step)
  {
    hide Sample, Wrap;
  }

  class Path {
    var points: array<nat>

    /** Appends an arc; radiusTooSmall stands for radius < 0.5, and segments for the automatic
        segment count of the radius. Every slot reserved is filled, once, in order. */
    method ArcToFastEx(radiusTooSmall: bool, center: nat, aMin: int, aMax: int, aStep: int, segments: nat)
      requires segments > 0
      modifies this
      ensures fresh(points)
      ensures points[..] == old(points[..]) + if radiusTooSmall then [center] else Arc(aMin, aMax, StepOf(aStep, segments))
    {
      hide Arc, Distance, Sample, FirstStep, StepOf, Wrap, Normalized;
      ghost var before := points[..];
      var out := points.Length;
      if radiusTooSmall {
        points := Resize(points, out + 1);
        points[out] := center;
        assert points[..] == before + [center];
        return;
      }
      var nextStep := StepOf(aStep, segments);
      var sampleRange := Abs(aMax - aMin);
      var samples, step, extraMaxSample := CountSamples(sampleRange, nextStep);
      ArcCount(aMin, aMax, nextStep);
      points := Resize(points, out + samples);
      ghost var start := out;
      if aMax >= aMin {
        out := FillForward(points, out, aMin, aMax, step, nextStep);
      } else {
        out := FillBackward(points, out, aMin, aMax, step, nextStep);
      }
      if extraMaxSample {
        points[out] := Normalized(aMax);
        out := out + 1;
        NormalizedIsMod(aMax);
      } else {
        LastSample(aMin, aMax, nextStep);
      }
      IsArc(points[start..], aMin, aMax, nextStep);
      assert points[..] == points[..start] + points[start..];
    }
  }

  method Resize(a: array<nat>, n: nat) returns (b: array<nat>)
    requires a.Length <= n
    ensures fresh(b) && b.Length == n && b[..a.Length] == a[..]
  {
    b := new nat[n];
    for i := 0 to a.Length
      invariant b[..i] == a[..i]
    {
      b[i] := a[i];
    }
  }

  /** The walk towards a larger sample: the wrapped index always names the table entry of the
      unwrapped sample, and the loop writes exactly the points that stay inside the range. */
  method FillForward(points: array<nat>, start: nat, aMin: int, aMax: int, firstStep: nat, nextStep: nat)
    returns (out: nat)
    requires 1 <= nextStep <= SAMPLE_MAX / 4 && aMin <= aMax
    requires firstStep == FirstStep(Abs(aMax - aMin), nextStep)
    requires start + Abs(aMax - aMin) / nextStep + 1 <= points.Length
    modifies points
    ensures out == start + Abs(aMax - aMin) / nextStep + 1
    ensures points[..start] == old(points[..start])
    ensures forall k: nat :: k < out - start ==> points[start + k] == Sample(aMin, aMax, nextStep, k)
  {
    hide FirstStep, Distance, Sample, Wrap;
    var range := Abs(aMax - aMin);
    ghost var q := range / nextStep;
    var sampleIndex: int := Normalized(aMin);
    NormalizedIsMod(aMin);
    var a, step := aMin, firstStep;
    out := start;
    ghost var k := 0;
    DistancesFit(range, nextStep, 0);
    FirstDistance(range, nextStep);
    while a <= aMax
      invariant out == start + k <= start + q + 1
      invariant a == aMin + Distance(range, nextStep, k) && (a <= aMax <==> k <= q)
      invariant step == if k == 0 then firstStep else nextStep
      invariant sampleIndex == Wrap(a) || sampleIndex == Wrap(a) + SAMPLE_MAX
      invariant points[..start] == old(points[..start])
      invariant forall j: nat :: j < k ==> points[start + j] == Sample(aMin, aMax, nextStep, j)
      decreases aMax - a
    {
      DistancesFit(range, nextStep, k + 1);
      NextDistance(range, nextStep, k);
      StepBounds(range, nextStep);
      WrapStep(a, step);
      SampleIs(aMin, aMax, nextStep, k);
      if sampleIndex >= SAMPLE_MAX {
        sampleIndex := sampleIndex - SAMPLE_MAX;
      }
      points[out] := sampleIndex;
      out := out + 1;
      a, sampleIndex, step := a + step, sampleIndex + step, nextStep;
      k := k + 1;
    }
  }

  lemma SampleIs(aMin: int, aMax: int, step: nat, k: nat)
    requires step > 0
    ensures var d := Distance(Abs(aMax - aMin), step, k);
            Sample(aMin, aMax, step, k) == Wrap(if aMax >= aMin then aMin + d else aMin - d)
  {}

  lemma FirstDistance(range: nat, step: nat)
    requires step > 0
    ensures Distance(range, step, 0) == 0
  {}

  lemma StepBounds(range: nat, step: nat)
    requires step > 0
    ensures 1 <= FirstStep(range, step) <= step
  {}

  /** The walk towards a smaller sample. */
  method FillBackward(points: array<nat>, start: nat, aMin: int, aMax: int, firstStep: nat, nextStep: nat)
    returns (out: nat)
    requires 1 <= nextStep <= SAMPLE_MAX / 4 && aMax < aMin
    requires firstStep == FirstStep(Abs(aMax - aMin), nextStep)
    requires start + Abs(aMax - aMin) / nextStep + 1 <= points.Length
    modifies points
    ensures out == start + Abs(aMax - aMin) / nextStep + 1
    ensures points[..start] == old(points[..start])
    ensures forall k: nat :: k < out - start ==> points[start + k] == Sample(aMin, aMax, nextStep, k)
  {
    hide FirstStep, Distance, Sample, Wrap;
    var range := Abs(aMax - aMin);
    ghost var q := range / nextStep;
    var sampleIndex: int := Normalized(aMin);
    NormalizedIsMod(aMin);
    var a, step := aMin, firstStep;
    out := start;
    ghost var k := 0;
    DistancesFit(range, nextStep, 0);
    FirstDistance(range, nextStep);
    while a >= aMax
      invariant out == start + k <= start + q + 1
      invariant a == aMin - Distance(range, nextStep, k) && (a >= aMax <==> k <= q)
      invariant step == if k == 0 then firstStep else nextStep
      invariant sampleIndex == Wrap(a) || sampleIndex == Wrap(a) - SAMPLE_MAX
      invariant points[..start] == old(points[..start])
      invariant forall j: nat :: j < k ==> points[start + j] == Sample(aMin, aMax, nextStep, j)
      decreases a - aMax
    {
      DistancesFit(range, nextStep, k + 1);
      NextDistance(range, nextStep, k);
      StepBounds(range, nextStep);
      WrapStep(a, step);
      SampleIs(aMin, aMax, nextStep, k);
      if sampleIndex < 0 {
        sampleIndex := sampleIndex + SAMPLE_MAX;
      }
      points[out] := sampleIndex;
      out := out + 1;
      a, sampleIndex, step := a - step, sampleIndex - step, nextStep;
      k := k + 1;
    }
  }
}
