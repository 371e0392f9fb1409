/** The pitch estimator of `src/mellymell/pitch.py`: `yin` (steps 2 to 5 of
    YIN, de Cheveigne and Kawahara, JASA 2002: the difference function, the
    cumulative-mean-normalised difference, the absolute-threshold scan with
    parabolic refinement, and the fall-back to the minimum) and
    `detect_pitch`, which mixes a frame down to mono, applies the window and
    calls `yin`.

    Samples are exact reals, so floating-point rounding, NaN and infinities
    are not modelled; the constant 1e-12 is kept as a real. The coefficients
    of `np.hanning` involve a cosine and are a parameter. */
module Yin {
  import opened Common
  import Stats
  import Pitch

  /** The `1e-12` guard of the CMND denominator and of the parabola. */
  const Eps: real := 0.000000000001

  /** The threshold `detect_pitch` leaves at `yin`'s default. */
  const DefaultThreshold: real := 0.1

  datatype PitchResult = PitchResult(frequency: real, confidence: real)

  /** The lag window of the search, `[minTau, maxTau)`. */
  datatype Lags = Lags(minTau: nat, maxTau: nat)

  function IntMin(a: int, b: int): int { if a <= b then a else b }

  function IntMax(a: int, b: int): int { if a >= b then a else b }

  /** Python's `int` of a float: truncation toward zero. */
  function Trunc(r: real): (t: int)
    ensures 0.0 <= r ==> 0 <= t && t as real <= r < t as real + 1.0
    ensures r < 0.0 ==> t <= 0 && t as real - 1.0 < r <= t as real
  {
    if r >= 0.0 then r.Floor else -((-r).Floor)
  }

  /** `x - np.mean(x)`; the mean of an empty frame is never used. Removing
      the mean leaves a frame of the same length whose samples sum to zero. */
  function Demean(x: seq<real>): (y: seq<real>)
    ensures |y| == |x|
    ensures Stats.Sum(y) == 0.0
  {
    if |x| == 0 then []
    else
      DemeanSumsToZero(x);
      Shift(x, Stats.Mean(x))
  }

  function Shift(x: seq<real>, c: real): (y: seq<real>)
    ensures |y| == |x|
    ensures forall i :: 0 <= i < |x| ==> y[i] == x[i] - c
  {
    seq(|x|, i requires 0 <= i < |x| => x[i] - c)
  }

  lemma {:induction false} SumShift(x: seq<real>, c: real)
    ensures Stats.Sum(Shift(x, c)) == Stats.Sum(x) - (|x| as real) * c
  {
    if x != [] {
      var init := x[..|x| - 1];
      assert Shift(x, c)[..|x| - 1] == Shift(init, c);
      SumShift(init, c);
      assert (|x| as real) * c == (|init| as real) * c + c;
    }
  }

  lemma DemeanSumsToZero(x: seq<real>)
    requires |x| > 0
    ensures Stats.Sum(Shift(x, Stats.Mean(x))) == 0.0
  {
    SumShift(x, Stats.Mean(x));
    var n := |x| as real;
    assert Stats.Mean(x) == Stats.Sum(x) / n;
    assert n * (Stats.Sum(x) / n) == Stats.Sum(x);
  }

  /** The lag bounds of `yin` for a frame of `n` samples, with the exceptions
      raised on the way to the first use of the search window:
      `int(sr / fmin)` and `int(sr / fmax)` with a zero bound,
      `np.zeros(max_tau + 1)` with a negative size, `cmnd[0] = 1.0` on an
      empty array, and `np.argmin` of the empty slice `cmnd[min_tau:max_tau]`
      (an empty window can cross no threshold, so the fall-back is reached). */
  function LagBounds(n: nat, sr: int, fmin: real, fmax: real): (r: Result<Lags, Error>)
    ensures r.Success? <==>
              fmin != 0.0 && fmax != 0.0 &&
              IntMax(2, Trunc(sr as real / fmax)) < IntMin(Trunc(sr as real / fmin), n - 2)
    ensures r.Success? ==>
              && r.value.maxTau == IntMin(Trunc(sr as real / fmin), n - 2)
              && r.value.minTau == IntMax(2, Trunc(sr as real / fmax))
              && 2 <= r.value.minTau < r.value.maxTau <= n - 2
  {
    if fmin == 0.0 || fmax == 0.0 then Failure(ZeroDivision)
    else
      var maxTau := IntMin(Trunc(sr as real / fmin), n - 2);
      var minTau := IntMax(2, Trunc(sr as real / fmax));
      if maxTau + 1 < 0 then Failure(NegativeDimensions)
      else if maxTau + 1 == 0 then Failure(IndexOutOfRange)
      else if maxTau <= minTau then Failure(EmptyArgmin)
      else Success(Lags(minTau, maxTau))
  }

  /** `np.dot(a - b, a - b)`. */
  function SquaredDistance(a: seq<real>, b: seq<real>): (r: real)
    requires |a| == |b|
    ensures r >= 0.0
  {
    if |a| == 0 then 0.0
    else
      var e := a[|a| - 1] - b[|b| - 1];
      SquaredDistance(a[..|a| - 1], b[..|b| - 1]) + e * e
  }

  /** The difference function `d[tau]`: the squared distance between the
      frame and itself shifted by `tau` over their overlap. */
  function Diff(x: seq<real>, tau: nat): (r: real)
    requires tau <= |x|
    ensures r >= 0.0
  {
    SquaredDistance(x[..|x| - tau], x[tau..])
  }

  /** `d[1] + ... + d[tau]`, the `running_sum` of the CMND loop. */
  function DiffPrefixSum(x: seq<real>, tau: nat): (r: real)
    requires tau <= |x|
    ensures r >= 0.0
  {
    if tau == 0 then 0.0 else DiffPrefixSum(x, tau - 1) + Diff(x, tau)
  }

  lemma QuotientNonNegative(a: real, b: real, c: real)
    requires a >= 0.0 && b >= 0.0 && c > 0.0
    ensures a * b / c >= 0.0
  {
    assert a * b >= 0.0;
  }

  /** The cumulative-mean-normalised difference: 1 at lag 0, otherwise
      `d[tau] * tau / (running_sum + 1e-12)`; it is never negative. */
  function Cmnd(x: seq<real>, tau: nat): (r: real)
    requires tau <= |x|
    ensures r >= 0.0
    ensures tau == 0 ==> r == 1.0
  {
    if tau == 0 then 1.0
    else
      QuotientNonNegative(Diff(x, tau), tau as real, DiffPrefixSum(x, tau) + Eps);
      Diff(x, tau) * tau as real / (DiffPrefixSum(x, tau) + Eps)
  }

  /** The array `cmnd` of `yin`, lags 0 to `maxTau`: it starts at 1 and no
      entry is negative. */
  function CmndSeq(x: seq<real>, maxTau: nat): (c: seq<real>)
    requires maxTau <= |x|
    ensures |c| == maxTau + 1
    ensures c[0] == 1.0 && forall k :: 0 <= k <= maxTau ==> c[k] >= 0.0
    ensures forall k :: 0 <= k <= maxTau ==> c[k] == Cmnd(x, k)
  {
    seq(maxTau + 1, k requires 0 <= k <= maxTau => Cmnd(x, k))
  }

  /** The absolute-threshold scan: the smallest lag in `[lo, hi)` whose
      score is below the threshold, if there is one. */
  function FirstBelow(c: seq<real>, lo: nat, hi: nat, threshold: real): (r: Option<nat>)
    requires hi <= |c|
    ensures r.Some? ==> lo <= r.value < hi && c[r.value] < threshold
    ensures r.Some? ==> forall j :: lo <= j < r.value ==> c[j] >= threshold
    ensures r.None? ==> forall j :: lo <= j < hi ==> c[j] >= threshold
    decreases hi - lo
  {
    if lo >= hi then None
    else if c[lo] < threshold then Some(lo)
    else FirstBelow(c, lo + 1, hi, threshold)
  }

  /** `np.argmin(c[lo:hi]) + lo`: the first position of the minimum. */
  function ArgMin(c: seq<real>, lo: nat, hi: nat): (k: nat)
    requires lo < hi <= |c|
    ensures lo <= k < hi
    ensures forall j :: lo <= j < hi ==> c[k] <= c[j]
    ensures forall j :: lo <= j < k ==> c[k] < c[j]
    decreases hi - lo
  {
    if lo + 1 == hi then lo
    else
      var k := ArgMin(c, lo + 1, hi);
      if c[lo] <= c[k] then lo else k
  }

  /** The denominator of the parabola through `c[tau-1]`, `c[tau]`, `c[tau+1]`. */
  function Denom(c: seq<real>, tau: nat): real
    requires 1 <= tau && tau + 1 < |c|
  {
    2.0 * (2.0 * c[tau] - c[tau - 1] - c[tau + 1])
  }

  /** Parabolic refinement of a lag found by the scan: only for an interior
      lag (`1 <= tau < max_tau`, so both neighbours lie in `[0, max_tau]`)
      and only when the parabola's denominator exceeds 1e-12 in magnitude;
      otherwise the lag itself. */
  function Refine(c: seq<real>, tau: nat, maxTau: nat): (r: real)
    requires |c| == maxTau + 1 && tau <= maxTau
    ensures r != tau as real ==> 1 <= tau < maxTau && Abs(Denom(c, tau)) > Eps
  {
    if 1 <= tau < maxTau && Abs(Denom(c, tau)) > Eps then
      var offset := (c[tau + 1] - c[tau - 1]) / Denom(c, tau);
      tau as real + offset
    else tau as real
  }

  /** `best_tau`: the refined first crossing, or, when there is none or the
      refined lag is exactly 0 (`if best_tau == 0`), the first minimum. */
  function BestLag(c: seq<real>, lags: Lags, threshold: real): (best: real)
    requires 2 <= lags.minTau < lags.maxTau && |c| == lags.maxTau + 1
    ensures best != 0.0
    ensures FirstBelow(c, lags.minTau, lags.maxTau, threshold).None? ==>
              best == ArgMin(c, lags.minTau, lags.maxTau) as real
    ensures FirstBelow(c, lags.minTau, lags.maxTau, threshold).Some? ==>
              var refined := Refine(c, FirstBelow(c, lags.minTau, lags.maxTau, threshold).value, lags.maxTau);
              best == if refined == 0.0 then ArgMin(c, lags.minTau, lags.maxTau) as real else refined
  {
    var scanned := match FirstBelow(c, lags.minTau, lags.maxTau, threshold)
                   case Some(tau) => Refine(c, tau, lags.maxTau)
                   case None => 0.0;
    if scanned == 0.0 then ArgMin(c, lags.minTau, lags.maxTau) as real else scanned
  }

  /** A lag the scan finds always lies strictly inside `[1, max_tau)`, so the
      guard `1 <= tau < max_tau` of the refinement always holds and the
      neighbours it reads lie in `[1, max_tau]`. */
  lemma ScanLagIsInterior(c: seq<real>, lags: Lags, threshold: real)
    requires 2 <= lags.minTau < lags.maxTau && |c| == lags.maxTau + 1
    requires FirstBelow(c, lags.minTau, lags.maxTau, threshold).Some?
    ensures var tau := FirstBelow(c, lags.minTau, lags.maxTau, threshold).value;
            1 <= tau - 1 && tau + 1 <= lags.maxTau
  {
  }

  /** numpy indexing `c[i]`: negative positions count from the end. */
  function PyIndex(c: seq<real>, i: int): (r: Result<real, Error>)
    ensures r.Success? <==> -|c| <= i < |c|
    ensures 0 <= i < |c| ==> r == Success(c[i])
    ensures r.Failure? ==> r.error == IndexOutOfRange
  {
    if 0 <= i < |c| then Success(c[i])
    else if -|c| <= i < 0 then Success(c[|c| + i])
    else Failure(IndexOutOfRange)
  }

  /** `max(0, min(1, (0.5 - v) / 0.5))`: in [0, 1], positive exactly when
      the score is below 0.5 and 1 exactly when the score is at most 0. */
  function Confidence(v: real): (r: real)
    ensures 0.0 <= r <= 1.0
    ensures r > 0.0 <==> v < 0.5
    ensures r == 1.0 <==> v <= 0.0
  {
    var raw := (0.5 - v) / 0.5;
    if raw > 1.0 then 1.0 else if raw < 0.0 then 0.0 else raw
  }

  /** `yin(frame, sr, fmin, fmax, threshold)`: the chosen lag gives the
      frequency `sr / best_tau`, and the score at `round(best_tau)` gives
      the confidence. */
  function YinSpec(frame: seq<real>, sr: int, fmin: real, fmax: real, threshold: real): (r: Result<PitchResult, Error>)
    ensures r.Success? ==> 0.0 <= r.value.confidence <= 1.0
    ensures LagBounds(|frame|, sr, fmin, fmax).Failure? ==> r == Failure(LagBounds(|frame|, sr, fmin, fmax).error)
  {
    var x := Demean(frame);
    match LagBounds(|x|, sr, fmin, fmax)
    case Failure(e) => Failure(e)
    case Success(lags) => Estimate(x, sr, lags, threshold)
  }

  /** The estimate over a valid lag window: the frequency `sr / best_tau` and
      the confidence from the score at `round(best_tau)`. */
  function Estimate(x: seq<real>, sr: int, lags: Lags, threshold: real): (r: Result<PitchResult, Error>)
    requires 2 <= lags.minTau < lags.maxTau <= |x|
    ensures r.Success? ==> 0.0 <= r.value.confidence <= 1.0
  {
    var c := CmndSeq(x, lags.maxTau);
    var best := BestLag(c, lags, threshold);
    match PyIndex(c, Pitch.RoundHalfEven(best))
    case Failure(e) => Failure(e)
    case Success(v) => Success(PitchResult(sr as real / best, Confidence(v)))
  }

  /** When no lag of the window crosses the threshold, `yin` succeeds with
      the first minimum of the CMND over `[min_tau, max_tau)`. */
  lemma YinFallback(frame: seq<real>, sr: int, fmin: real, fmax: real, threshold: real)
    requires LagBounds(|frame|, sr, fmin, fmax).Success?
    ensures var lags := LagBounds(|frame|, sr, fmin, fmax).value;
            var c := CmndSeq(Demean(frame), lags.maxTau);
            FirstBelow(c, lags.minTau, lags.maxTau, threshold).None? ==>
              var k := ArgMin(c, lags.minTau, lags.maxTau);
              && lags.minTau <= k < lags.maxTau
              && YinSpec(frame, sr, fmin, fmax, threshold) == Success(PitchResult(sr as real / k as real, Confidence(c[k])))
  {
    var lags := LagBounds(|frame|, sr, fmin, fmax).value;
    var c := CmndSeq(Demean(frame), lags.maxTau);
    if FirstBelow(c, lags.minTau, lags.maxTau, threshold).None? {
      var k := ArgMin(c, lags.minTau, lags.maxTau);
      Pitch.RoundNear(k, 0.0);
      assert k as real + 0.0 == k as real;
    }
  }

  /** When the scan finds a lag and the parabola is too flat to refine it,
      `yin` succeeds with that lag, whose score is below the threshold; for
      a threshold of at most 0.5 the confidence is then positive. */
  lemma YinThresholdLag(frame: seq<real>, sr: int, fmin: real, fmax: real, threshold: real)
    requires LagBounds(|frame|, sr, fmin, fmax).Success?
    ensures var lags := LagBounds(|frame|, sr, fmin, fmax).value;
            var c := CmndSeq(Demean(frame), lags.maxTau);
            var found := FirstBelow(c, lags.minTau, lags.maxTau, threshold);
            found.Some? && Abs(Denom(c, found.value)) <= Eps ==>
              && c[found.value] < threshold
              && YinSpec(frame, sr, fmin, fmax, threshold) == Success(PitchResult(sr as real / found.value as real, Confidence(c[found.value])))
              && (threshold <= 0.5 ==> YinSpec(frame, sr, fmin, fmax, threshold).value.confidence > 0.0)
  {
    var lags := LagBounds(|frame|, sr, fmin, fmax).value;
    var c := CmndSeq(Demean(frame), lags.maxTau);
    var found := FirstBelow(c, lags.minTau, lags.maxTau, threshold);
    assert YinSpec(frame, sr, fmin, fmax, threshold) == Estimate(Demean(frame), sr, lags, threshold);
    if found.Some? && Abs(Denom(c, found.value)) <= Eps {
      var tau := found.value;
      assert Refine(c, tau, lags.maxTau) == tau as real;
      assert BestLag(c, lags, threshold) == tau as real;
      Pitch.RoundNear(tau, 0.0);
      assert tau as real + 0.0 == tau as real;
    }
  }

  /** The loop that fills `d`: `d[tau] = np.dot(diff, diff)` for lags 1 to
      `max_tau`, `d[0]` left at 0. */
  method DifferenceArray(x: seq<real>, maxTau: nat) returns (d: array<real>)
    requires maxTau <= |x|
    ensures fresh(d) && d.Length == maxTau + 1
    ensures forall k :: 1 <= k <= maxTau ==> d[k] == Diff(x, k)
  {
    d := new real[maxTau + 1](_ => 0.0);
    var tau := 1;
    while tau <= maxTau
      invariant 1 <= tau <= maxTau + 1
      invariant forall k :: 1 <= k < tau ==> d[k] == Diff(x, k)
    {
      d[tau] := Diff(x, tau);
      tau := tau + 1;
    }
  }

  /** The loop that fills `cmnd` from `d`, accumulating `running_sum`. */
  method CmndArray(x: seq<real>, d: array<real>, maxTau: nat) returns (cmnd: array<real>)
    requires maxTau <= |x| && d.Length == maxTau + 1
    requires forall k :: 1 <= k <= maxTau ==> d[k] == Diff(x, k)
    ensures fresh(cmnd)
    ensures cmnd[..] == CmndSeq(x, maxTau)
  {
    cmnd := new real[maxTau + 1](_ => 0.0);
    cmnd[0] := 1.0;
    var runningSum := 0.0;
    var tau := 1;
    while tau <= maxTau
      invariant 1 <= tau <= maxTau + 1
      invariant runningSum == DiffPrefixSum(x, tau - 1)
      invariant forall k :: 0 <= k < tau ==> cmnd[k] == Cmnd(x, k)
    {
      var dTau := d[tau];
      runningSum := runningSum + dTau;
      var score := dTau * tau as real / (runningSum + Eps);
      CmndStep(x, tau, dTau, runningSum);
      cmnd[tau] := score;
      tau := tau + 1;
    }
    CmndSeqEq(x, maxTau, cmnd[..]);
  }

  /** One step of the CMND loop: with `running_sum` at `d[1] + ... + d[tau]`
      the stored score is `Cmnd(x, tau)`. */
  lemma CmndStep(x: seq<real>, tau: nat, dTau: real, runningSum: real)
    requires 1 <= tau <= |x| && dTau == Diff(x, tau)
    requires runningSum == DiffPrefixSum(x, tau - 1) + dTau
    ensures dTau * tau as real / (runningSum + Eps) == Cmnd(x, tau)
  {
  }

  lemma CmndSeqEq(x: seq<real>, maxTau: nat, c: seq<real>)
    requires maxTau <= |x| && |c| == maxTau + 1
    requires forall k :: 0 <= k <= maxTau ==> c[k] == Cmnd(x, k)
    ensures c == CmndSeq(x, maxTau)
  {
  }

  /** The absolute-threshold loop: stops at the first lag of
      `[min_tau, max_tau)` whose score is below the threshold and refines it;
      0 when no lag crosses. */
  method ThresholdScan(cmnd: array<real>, minTau: nat, maxTau: nat, threshold: real) returns (bestTau: real)
    requires cmnd.Length == maxTau + 1
    ensures bestTau == match FirstBelow(cmnd[..], minTau, maxTau, threshold)
                       case Some(tau) => Refine(cmnd[..], tau, maxTau)
                       case None => 0.0
  {
    bestTau := 0.0;
    var tau := minTau;
    while tau < maxTau
      invariant tau == minTau || minTau <= tau <= maxTau
      invariant forall j :: minTau <= j < tau ==> cmnd[j] >= threshold
    {
      if cmnd[tau] < threshold {
        // Parabolic interpolation around tau
        var refined: real := tau as real;
        if 1 <= tau < maxTau {
          var a := cmnd[tau - 1];
          var b := cmnd[tau];
          var c := cmnd[tau + 1];
          var denom := 2.0 * (2.0 * b - a - c);
          if Abs(denom) > Eps {
            refined := tau as real + (c - a) / denom;
          }
        }
        assert FirstBelow(cmnd[..], minTau, maxTau, threshold) == Some(tau);
        return refined;
      }
      tau := tau + 1;
    }
  }

  /** The imperative `yin`: the lag bounds, the two array-filling loops, the
      threshold scan, the fall-back to the minimum and the confidence. */
  method Yin(frame: seq<real>, sr: int, fmin: real, fmax: real, threshold: real) returns (r: Result<PitchResult, Error>)
    ensures r == YinSpec(frame, sr, fmin, fmax, threshold)
  {
    var x := Demean(frame);
    var n := |x|;
    if fmin == 0.0 || fmax == 0.0 {
      return Failure(ZeroDivision);
    }
    var maxTau := Trunc(sr as real / fmin);
    var minTau := IntMax(2, Trunc(sr as real / fmax));
    maxTau := IntMin(maxTau, n - 2);
    if maxTau + 1 < 0 {
      return Failure(NegativeDimensions);
    }
    if maxTau + 1 == 0 {
      // `cmnd[0] = 1.0` on an empty array
      return Failure(IndexOutOfRange);
    }
    ghost var bounds := LagBounds(n, sr, fmin, fmax);
    assert maxTau <= minTau ==> bounds == Failure(EmptyArgmin);
    assert minTau < maxTau ==> bounds == Success(Lags(minTau, maxTau));
    r := EstimateLoops(x, sr, minTau, maxTau, threshold);
  }

  /** The part of `yin` after the lag bounds: the loops, the scan, the
      fall-back (which raises on an empty window) and the confidence. */
  method EstimateLoops(x: seq<real>, sr: int, minTau: nat, maxTau: nat, threshold: real) returns (r: Result<PitchResult, Error>)
    requires 2 <= minTau && maxTau <= |x|
    ensures maxTau <= minTau ==> r == Failure(EmptyArgmin)
    ensures minTau < maxTau ==> r == Estimate(x, sr, Lags(minTau, maxTau), threshold)
  {
    var d := DifferenceArray(x, maxTau);
    var cmnd := CmndArray(x, d, maxTau);
    var bestTau := ThresholdScan(cmnd, minTau, maxTau, threshold);
    if bestTau == 0.0 {
      // Fall back to the minimum CMND
      if maxTau <= minTau {
        return Failure(EmptyArgmin);
      }
      bestTau := ArgMin(cmnd[..], minTau, maxTau) as real;
    }
    assert maxTau > minTau;
    assert bestTau == BestLag(cmnd[..], Lags(minTau, maxTau), threshold);
    var idx := Pitch.RoundHalfEven(bestTau);
    if !(-cmnd.Length <= idx < cmnd.Length) {
      return Failure(IndexOutOfRange);
    }
    var v := if idx >= 0 then cmnd[idx] else cmnd[cmnd.Length + idx];
    r := Success(PitchResult(sr as real / bestTau, Confidence(v)));
  }

  /** An analysis frame: one sample per row, or rows of channel values
      (`frame.ndim > 1`). */
  datatype Frame = Mono(samples: seq<real>) | MultiChannel(rows: seq<seq<real>>)

  /** Every row has a channel value. `np.mean` of an empty row is NaN, which
      the model leaves out with the rest of NaN, so such frames are excluded. */
  predicate WellFormed(frame: Frame)
  {
    frame.MultiChannel? ==> forall i :: 0 <= i < |frame.rows| ==> |frame.rows[i]| > 0
  }

  /** `np.mean(frame, axis=-1)` for a multi-channel frame: every sample of
      the mix lies between the smallest and the largest of its channels. */
  function MonoMix(frame: Frame): (m: seq<real>)
    requires WellFormed(frame)
    ensures frame.Mono? ==> m == frame.samples
    ensures frame.MultiChannel? ==> |m| == |frame.rows|
    ensures frame.MultiChannel? ==> forall i :: 0 <= i < |m| ==>
              Stats.Min(frame.rows[i]) <= m[i] <= Stats.Max(frame.rows[i])
  {
    match frame
    case Mono(s) => s
    case MultiChannel(rows) => seq(|rows|, i requires 0 <= i < |rows| && |rows[i]| > 0 => Stats.Mean(rows[i]))
  }

  /** `frame * np.hanning(len(frame))` when the frame is not empty. */
  function Windowed(x: seq<real>, window: seq<real>): (y: seq<real>)
    requires |window| == |x|
    ensures |y| == |x|
  {
    if |x| > 0 then seq(|x|, i requires 0 <= i < |x| => x[i] * window[i]) else x
  }

  /** `detect_pitch(frame, sr, fmin, fmax, method)`: both branches of the
      method dispatch call `yin` with the default threshold. */
  function DetectPitchSpec(frame: Frame, sr: int, fmin: real, fmax: real, window: seq<real>): (r: Result<PitchResult, Error>)
    requires WellFormed(frame) && |window| == |MonoMix(frame)|
    ensures r.Success? ==> 0.0 <= r.value.confidence <= 1.0
    ensures LagBounds(|MonoMix(frame)|, sr, fmin, fmax).Failure? ==>
              r == Failure(LagBounds(|MonoMix(frame)|, sr, fmin, fmax).error)
  {
    YinSpec(Windowed(MonoMix(frame), window), sr, fmin, fmax, DefaultThreshold)
  }

  method DetectPitch(frame: Frame, sr: int, fmin: real, fmax: real, pitchMethod: string, window: seq<real>)
    returns (r: Result<PitchResult, Error>)
    requires WellFormed(frame) && |window| == |MonoMix(frame)|
    ensures r == DetectPitchSpec(frame, sr, fmin, fmax, window)
    ensures r.Success? ==> 0.0 <= r.value.confidence <= 1.0
  {
    var mono := MonoMix(frame);
    if |mono| > 0 {
      mono := Windowed(mono, window);
    }
    if pitchMethod == "yin" {
      r := Yin(mono, sr, fmin, fmax, DefaultThreshold);
    } else {
      r := Yin(mono, sr, fmin, fmax, DefaultThreshold);
    }
  }
}
