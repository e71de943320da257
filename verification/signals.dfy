/**
 * The position rules of the strategies: single-window momentum, fast/slow momentum with a
 * threshold, price+volume momentum, and rolling z-score mean reversion. A comparison
 * against a missing (NaN) indicator is false, so a row without enough history holds no
 * position.
 */
module Signals {
  import opened Wrappers
  import opened Series

  /** The indicator column of a rule that needs `lookback` earlier rows: defined from that row on. */
  function Ready(n: nat, lookback: nat): (r: seq<bool>)
    ensures |r| == n
    ensures forall t :: 0 <= t < n ==> (r[t] <==> t >= lookback)
  {
    seq(n, t requires 0 <= t < n => t >= lookback)
  }

  /** Row t of `(close.pct_change(window) > 0).astype(int)`. */
  function MomentumAt(close: seq<real>, window: nat, t: nat): int
    requires Positive(close) && t < |close|
  {
    var m := PctChangeAt(close, window, t);
    if m.Some? && m.value > 0.0 then 1 else 0
  }

  /** `(close.pct_change(window) > 0).astype(int)` */
  function Momentum(close: seq<real>, window: nat): (r: seq<int>)
    requires Positive(close)
    ensures |r| == |close|
    ensures forall t :: 0 <= t < |close| ==> r[t] == MomentumAt(close, window, t)
  {
    seq(|close|, t requires 0 <= t < |close| => MomentumAt(close, window, t))
  }

  /**
   * The momentum position is 0 or 1, and it is 1 exactly when `window` earlier rows exist
   * and the price is above the price `window` rows back; so it is 0 on every row before `window`.
   */
  lemma MomentumRule(close: seq<real>, window: nat)
    requires Positive(close)
    ensures forall t :: 0 <= t < |close| ==> Momentum(close, window)[t] == 0 || Momentum(close, window)[t] == 1
    ensures forall t :: 0 <= t < |close| ==>
      (Momentum(close, window)[t] == 1 <==> window <= t && close[t] > close[t - window])
  {
    PctChangeAboveAll(close, window, 0.0);
  }

  /** Row t of `((close.pct_change(fast) > threshold) & (close.pct_change(slow) > threshold)).astype(int)`. */
  function FastSlowAt(close: seq<real>, fast: nat, slow: nat, threshold: real, t: nat): int
    requires Positive(close) && t < |close|
  {
    var mf, ms := PctChangeAt(close, fast, t), PctChangeAt(close, slow, t);
    if mf.Some? && mf.value > threshold && ms.Some? && ms.value > threshold then 1 else 0
  }

  /** `((close.pct_change(fast) > threshold) & (close.pct_change(slow) > threshold)).astype(int)` */
  function FastSlow(close: seq<real>, fast: nat, slow: nat, threshold: real): (r: seq<int>)
    requires Positive(close)
    ensures |r| == |close|
    ensures forall t :: 0 <= t < |close| ==> r[t] == FastSlowAt(close, fast, slow, threshold, t)
  {
    seq(|close|, t requires 0 <= t < |close| => FastSlowAt(close, fast, slow, threshold, t))
  }

  /**
   * The fast/slow position is 0 or 1, and it is 1 exactly when both lookbacks exist and the
   * price beats both earlier prices by more than the threshold; before the longer lookback it is 0.
   */
  lemma FastSlowRule(close: seq<real>, fast: nat, slow: nat, threshold: real)
    requires Positive(close)
    ensures forall t :: 0 <= t < |close| ==>
      FastSlow(close, fast, slow, threshold)[t] == 0 || FastSlow(close, fast, slow, threshold)[t] == 1
    ensures forall t :: 0 <= t < |close| ==>
      (FastSlow(close, fast, slow, threshold)[t] == 1 <==>
        && fast <= t && slow <= t
        && close[t] > (1.0 + threshold) * close[t - fast]
        && close[t] > (1.0 + threshold) * close[t - slow])
    ensures forall t :: 0 <= t < |close| && (t < fast || t < slow) ==> FastSlow(close, fast, slow, threshold)[t] == 0
  {
    PctChangeAboveAll(close, fast, threshold);
    PctChangeAboveAll(close, slow, threshold);
  }

  /** The fixed price-momentum cutoff of the price+volume rule (1%). */
  const PriceCutoff: real := 0.01

  /** Row t of `((close.pct_change(pw) > 0.01) & (volume.pct_change(vw) > 0)).astype(int)`. */
  function PriceVolumeAt(close: seq<real>, volume: seq<real>, priceWindow: nat, volumeWindow: nat, t: nat): int
    requires Positive(close) && Positive(volume) && |volume| == |close| && t < |close|
  {
    var mp, mv := PctChangeAt(close, priceWindow, t), PctChangeAt(volume, volumeWindow, t);
    if mp.Some? && mp.value > PriceCutoff && mv.Some? && mv.value > 0.0 then 1 else 0
  }

  /** `((close.pct_change(pw) > 0.01) & (volume.pct_change(vw) > 0)).astype(int)` */
  function PriceVolume(close: seq<real>, volume: seq<real>, priceWindow: nat, volumeWindow: nat): (r: seq<int>)
    requires Positive(close) && Positive(volume) && |volume| == |close|
    ensures |r| == |close|
    ensures forall t :: 0 <= t < |close| ==> r[t] == PriceVolumeAt(close, volume, priceWindow, volumeWindow, t)
  {
    seq(|close|, t requires 0 <= t < |close| => PriceVolumeAt(close, volume, priceWindow, volumeWindow, t))
  }

  /**
   * The price+volume position is 0 or 1, and it is 1 exactly when the price rose more than
   * 1% over `priceWindow` rows and the volume rose over `volumeWindow` rows.
   */
  lemma PriceVolumeRule(close: seq<real>, volume: seq<real>, priceWindow: nat, volumeWindow: nat)
    requires Positive(close) && Positive(volume) && |volume| == |close|
    ensures forall t :: 0 <= t < |close| ==>
      PriceVolume(close, volume, priceWindow, volumeWindow)[t] == 0 || PriceVolume(close, volume, priceWindow, volumeWindow)[t] == 1
    ensures forall t :: 0 <= t < |close| ==>
      (PriceVolume(close, volume, priceWindow, volumeWindow)[t] == 1 <==>
        && priceWindow <= t && volumeWindow <= t
        && close[t] > (1.0 + PriceCutoff) * close[t - priceWindow]
        && volume[t] > volume[t - volumeWindow])
  {
    PctChangeAboveAll(close, priceWindow, PriceCutoff);
    PctChangeAboveAll(volume, volumeWindow, 0.0);
  }

  // ----- rolling z-score mean reversion -----

  function Sum(xs: seq<real>): real {
    if |xs| == 0 then 0.0 else Sum(xs[..|xs| - 1]) + xs[|xs| - 1]
  }

  /** The sum of squared deviations of xs from m. */
  function SquaredDeviations(xs: seq<real>, m: real): (r: real)
    ensures r >= 0.0
  {
    if |xs| == 0 then 0.0
    else
      var d := xs[|xs| - 1] - m;
      SquaredDeviations(xs[..|xs| - 1], m) + d * d
  }

  /** The `window` prices ending at row t. */
  function Trailing(close: seq<real>, window: nat, t: nat): (w: seq<real>)
    requires window <= t + 1 <= |close|
    ensures |w| == window
  {
    close[t + 1 - window..t + 1]
  }

  /** `close.rolling(window).mean()` on row t. */
  function RollingMean(close: seq<real>, window: nat, t: nat): real
    requires 1 <= window <= t + 1 <= |close|
  {
    Sum(Trailing(close, window, t)) / window as real
  }

  /** The square of `close.rolling(window).std()` (sample variance) on row t. */
  function RollingVariance(close: seq<real>, window: nat, t: nat): real
    requires 2 <= window <= t + 1 <= |close|
  {
    SquaredDeviations(Trailing(close, window, t), RollingMean(close, window, t)) / (window - 1) as real
  }

  /** The sum of squared deviations is 0 exactly when every value equals m. */
  lemma {:induction false} SquaredDeviationsZero(xs: seq<real>, m: real)
    ensures SquaredDeviations(xs, m) == 0.0 <==> forall i :: 0 <= i < |xs| ==> xs[i] == m
  {
    if |xs| > 0 {
      var init, d := xs[..|xs| - 1], xs[|xs| - 1] - m;
      SquaredDeviationsZero(init, m);
      assert forall i :: 0 <= i < |init| ==> init[i] == xs[i];
      if d > 0.0 {
        ProductSign(d, d);
      } else if d < 0.0 {
        ProductSign(-d, -d);
        assert (-d) * (-d) == d * d;
      }
    }
  }

  /** The sum of n copies of c is n * c. */
  lemma {:induction false} SumConstant(xs: seq<real>, c: real)
    requires forall i :: 0 <= i < |xs| ==> xs[i] == c
    ensures Sum(xs) == |xs| as real * c
  {
    if |xs| > 0 {
      SumConstant(xs[..|xs| - 1], c);
    }
  }

  /**
   * The rolling sample variance is never negative, and it is 0 exactly when the `window`
   * prices ending at row t are all equal: the case where the z-score is NaN.
   */
  lemma VarianceZeroIffFlat(close: seq<real>, window: nat, t: nat)
    requires 2 <= window <= t + 1 <= |close|
    ensures RollingVariance(close, window, t) >= 0.0
    ensures RollingVariance(close, window, t) == 0.0 <==>
      forall i :: t + 1 - window <= i <= t ==> close[i] == close[t]
  {
    var xs, mean := Trailing(close, window, t), RollingMean(close, window, t);
    var sd := SquaredDeviations(xs, mean);
    assert RollingVariance(close, window, t) * (window - 1) as real == sd;
    ProductSign(RollingVariance(close, window, t), (window - 1) as real);
    SquaredDeviationsZero(xs, mean);
    assert forall i :: 0 <= i < window ==> xs[i] == close[t + 1 - window + i];
    if forall i :: t + 1 - window <= i <= t ==> close[i] == close[t] {
      assert forall i :: 0 <= i < window ==> xs[i] == close[t];
      SumConstant(xs, close[t]);
      assert mean * window as real == window as real * close[t];
      assert mean == close[t];
    } else {
      var j :| t + 1 - window <= j <= t && close[j] != close[t];
      assert xs[j - (t + 1 - window)] != xs[window - 1];
    }
  }

  /**
   * The z-score of row t is a number: the rolling mean and sample std exist (at least two
   * prices, `window - 1` earlier rows) and the std is not 0, which would make it 0/0.
   */
  predicate ZDefined(close: seq<real>, window: nat, t: nat)
    requires t < |close|
  {
    2 <= window <= t + 1 && RollingVariance(close, window, t) > 0.0
  }

  /** `close - rolling_mean` on row t. */
  function Deviation(close: seq<real>, window: nat, t: nat): real
    requires 1 <= window <= t + 1 <= |close|
  {
    close[t] - RollingMean(close, window, t)
  }

  /**
   * `d / sqrt(v) > c` for a variance v > 0, decided without a square root by comparing
   * the squared deviation with `c * c * v`.
   */
  predicate ExceedsScaled(d: real, v: real, c: real) {
    if c >= 0.0 then d > 0.0 && d * d > c * c * v else d >= 0.0 || d * d < c * c * v
  }

  /** `z_score > z_threshold` on row t, false when the z-score is NaN. */
  predicate ZAbove(close: seq<real>, window: nat, zThreshold: real, t: nat)
    requires t < |close|
  {
    ZDefined(close, window, t) && ExceedsScaled(Deviation(close, window, t), RollingVariance(close, window, t), zThreshold)
  }

  /** `z_score < -z_threshold` on row t, false when the z-score is NaN. */
  predicate ZBelow(close: seq<real>, window: nat, zThreshold: real, t: nat)
    requires t < |close|
  {
    ZDefined(close, window, t) && ExceedsScaled(-Deviation(close, window, t), RollingVariance(close, window, t), zThreshold)
  }

  /** The indicator column of mean reversion: rolling mean, rolling std and z-score all defined. */
  function ZReady(close: seq<real>, window: nat): (r: seq<bool>)
    ensures |r| == |close|
    ensures forall t :: 0 <= t < |close| ==> (r[t] <==> ZDefined(close, window, t))
  {
    seq(|close|, t requires 0 <= t < |close| => ZDefined(close, window, t))
  }

  /**
   * The mean-reversion position after `signal = 0`, then `1` where the z-score is below
   * `-z_threshold`, then `-1` where it is above `z_threshold` (the later assignment wins).
   */
  function MeanReversion(close: seq<real>, window: nat, zThreshold: real): (r: seq<int>)
    ensures |r| == |close|
    ensures forall t :: 0 <= t < |close| ==> r[t] == MeanReversionAt(close, window, zThreshold, t)
  {
    seq(|close|, t requires 0 <= t < |close| => MeanReversionAt(close, window, zThreshold, t))
  }

  /** Row t of the mean-reversion position. */
  function MeanReversionAt(close: seq<real>, window: nat, zThreshold: real, t: nat): int
    requires t < |close|
  {
    if ZAbove(close, window, zThreshold, t) then -1 else if ZBelow(close, window, zThreshold, t) then 1 else 0
  }

  lemma SquareMonotone(a: real, b: real)
    requires a >= 0.0 && b >= 0.0
    ensures a > b <==> a * a > b * b
  {
    if a > b {
      assert a * a >= a * b;
      assert a * b >= b * b;
      assert a * a - b * b == (a - b) * (a + b);
      ProductSign(a - b, a + b);
    } else {
      assert b * b >= b * a;
      assert b * a >= a * a;
    }
  }

  /** The square-root-free comparison is the z-score comparison: for s > 0, it is `d / s > c` on variance s * s. */
  lemma ExceedsScaledIsQuotient(d: real, s: real, c: real)
    requires s > 0.0
    ensures ExceedsScaled(d, s * s, c) <==> d / s > c
  {
    var q := d / s;
    assert d == q * s;
    assert d - c * s == (q - c) * s;
    ProductSign(q - c, s);
    assert q > c <==> d > c * s;
    assert c * c * (s * s) == (c * s) * (c * s);
    if c >= 0.0 {
      assert c * s >= 0.0;
      if d > 0.0 {
        SquareMonotone(d, c * s);
      }
    } else {
      assert c * s < 0.0;
      if d < 0.0 {
        SquareMonotone(-d, -(c * s));
        assert (-d) * (-d) == d * d;
        assert (-(c * s)) * (-(c * s)) == (c * s) * (c * s);
      }
    }
  }

  /**
   * The mean-reversion position is -1, 0 or 1; it is 0 wherever the z-score is NaN (fewer
   * than `window` rows, or a zero rolling std); and when a row is both below `-z_threshold`
   * and above `z_threshold` (possible only for a negative threshold) the later `-1` wins.
   */
  lemma MeanReversionRange(close: seq<real>, window: nat, zThreshold: real)
    ensures forall t :: 0 <= t < |close| ==> -1 <= MeanReversion(close, window, zThreshold)[t] <= 1
    ensures forall t :: 0 <= t < |close| && !ZDefined(close, window, t) ==> MeanReversion(close, window, zThreshold)[t] == 0
    ensures forall t :: 0 <= t < |close| && t + 1 < window ==> MeanReversion(close, window, zThreshold)[t] == 0
    ensures forall t :: 0 <= t < |close| && ZAbove(close, window, zThreshold, t) ==> MeanReversion(close, window, zThreshold)[t] == -1
  {
  }

  /**
   * With a non-negative threshold the two extremes exclude each other: the position is 1
   * exactly when the z-score is below `-z_threshold` and -1 exactly when it is above `z_threshold`.
   */
  lemma MeanReversionRule(close: seq<real>, window: nat, zThreshold: real)
    requires zThreshold >= 0.0
    ensures forall t :: 0 <= t < |close| ==>
      && (MeanReversion(close, window, zThreshold)[t] == 1 <==> ZBelow(close, window, zThreshold, t))
      && (MeanReversion(close, window, zThreshold)[t] == -1 <==> ZAbove(close, window, zThreshold, t))
  {
  }
}
