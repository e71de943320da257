/**
 * The pandas column operations that every backtest script is written in, over exact
 * reals. A row whose value pandas would hold as NaN is `None`.
 */
module Series {
  import opened Wrappers

  /** Every entry strictly positive: closing prices, and the volume series. */
  predicate Positive(xs: seq<real>) {
    forall i :: 0 <= i < |xs| ==> xs[i] > 0.0
  }

  function Abs(x: int): nat {
    if x < 0 then -x else x
  }

  /** Row t of `xs.pct_change(periods = k)`: the relative change over k rows, NaN on the first k rows. */
  function PctChangeAt(xs: seq<real>, k: nat, t: nat): (c: Option<real>)
    requires Positive(xs) && t < |xs|
    ensures c.Some? <==> k <= t
  {
    if t < k then None else Some(xs[t] / xs[t - k] - 1.0)
  }

  /** `xs.pct_change(periods = k)` as a column. */
  function PctChange(xs: seq<real>, k: nat): (r: seq<Option<real>>)
    requires Positive(xs)
    ensures |r| == |xs|
    ensures forall t :: 0 <= t < |xs| ==> r[t] == PctChangeAt(xs, k, t)
  {
    seq(|xs|, t requires 0 <= t < |xs| => PctChangeAt(xs, k, t))
  }

  /** The change is a true relative change: applying it to the earlier value gives back the later one. */
  lemma PctChangeRecovers(xs: seq<real>, k: nat, t: nat)
    requires Positive(xs) && k <= t < |xs|
    ensures xs[t - k] * (1.0 + PctChange(xs, k)[t].value) == xs[t]
  {
    var b := xs[t - k];
    assert b * (xs[t] / b) == xs[t];
  }

  /** The change exceeds c exactly when the later value exceeds the earlier one scaled by 1 + c. */
  lemma PctChangeAbove(xs: seq<real>, k: nat, c: real, t: nat)
    requires Positive(xs) && k <= t < |xs|
    ensures PctChange(xs, k)[t].value > c <==> xs[t] > (1.0 + c) * xs[t - k]
  {
    var b := xs[t - k];
    var q := xs[t] / b;
    assert xs[t] == q * b;
    assert xs[t] - (1.0 + c) * b == (q - (1.0 + c)) * b;
    ProductSign(q - (1.0 + c), b);
  }

  /** The sign of a product with a positive factor is the sign of the other factor. */
  lemma ProductSign(x: real, b: real)
    requires b > 0.0
    ensures x > 0.0 <==> x * b > 0.0
    ensures x == 0.0 <==> x * b == 0.0
  {
  }

  lemma PctChangeAboveAll(xs: seq<real>, k: nat, c: real)
    requires Positive(xs)
    ensures forall t :: k <= t < |xs| ==>
      (PctChange(xs, k)[t].value > c <==> xs[t] > (1.0 + c) * xs[t - k])
  {
    forall t | k <= t < |xs|
      ensures PctChange(xs, k)[t].value > c <==> xs[t] > (1.0 + c) * xs[t - k]
    {
      PctChangeAbove(xs, k, c, t);
    }
  }

  /** Row t of `a.shift(1) * b` for an integer column a: b[t] times the previous row of a. */
  function LaggedProductAt(a: seq<int>, b: seq<Option<real>>, t: nat): (c: Option<real>)
    requires |a| == |b| && t < |b|
    ensures c.Some? <==> t > 0 && b[t].Some?
  {
    if t == 0 || b[t].None? then None else Some(a[t - 1] as real * b[t].value)
  }

  /** `a.shift(1) * b` as a column. */
  function LaggedProduct(a: seq<int>, b: seq<Option<real>>): (r: seq<Option<real>>)
    requires |a| == |b|
    ensures |r| == |b|
    ensures forall t :: 0 <= t < |b| ==> r[t] == LaggedProductAt(a, b, t)
  {
    seq(|b|, t requires 0 <= t < |b| => LaggedProductAt(a, b, t))
  }

  /** Row t of `a.diff().abs()`: the size of the change from the previous row, as a float, NaN on row 0. */
  function AbsDiffAt(a: seq<int>, t: nat): (c: Option<real>)
    requires t < |a|
    ensures c.Some? <==> t > 0
  {
    if t == 0 then None else Some(Abs(a[t] - a[t - 1]) as real)
  }

  /** `a.diff().abs()` as a column. */
  function AbsDiff(a: seq<int>): (r: seq<Option<real>>)
    ensures |r| == |a|
    ensures forall t :: 0 <= t < |a| ==> r[t] == AbsDiffAt(a, t)
  {
    seq(|a|, t requires 0 <= t < |a| => AbsDiffAt(a, t))
  }

  /** Row t of `gross - trade * fee`, NaN wherever either operand is. */
  function LessFeeAt(gross: seq<Option<real>>, trade: seq<Option<real>>, fee: real, t: nat): (c: Option<real>)
    requires |gross| == |trade| && t < |gross|
    ensures c.Some? <==> gross[t].Some? && trade[t].Some?
  {
    if gross[t].Some? && trade[t].Some? then Some(gross[t].value - trade[t].value * fee) else None
  }

  /** `gross - trade * fee` as a column. */
  function LessFee(gross: seq<Option<real>>, trade: seq<Option<real>>, fee: real): (r: seq<Option<real>>)
    requires |gross| == |trade|
    ensures |r| == |gross|
    ensures forall t :: 0 <= t < |gross| ==> r[t] == LessFeeAt(gross, trade, fee, t)
  {
    seq(|gross|, t requires 0 <= t < |gross| => LessFeeAt(gross, trade, fee, t))
  }

  /** `x.fillna(0)` for one entry. */
  function OrZero(x: Option<real>): real {
    if x.Some? then x.value else 0.0
  }

  /** Entry t of `(1 + xs.fillna(0)).cumprod()`. */
  function Compound(xs: seq<Option<real>>, t: nat): real
    requires t < |xs|
  {
    if t == 0 then 1.0 + OrZero(xs[0]) else Compound(xs, t - 1) * (1.0 + OrZero(xs[t]))
  }

  /** `(1 + xs.fillna(0)).cumprod()` as a column. */
  function Growth(xs: seq<Option<real>>): (r: seq<real>)
    ensures |r| == |xs|
    ensures forall t :: 0 <= t < |xs| ==> r[t] == Compound(xs, t)
  {
    seq(|xs|, t requires 0 <= t < |xs| => Compound(xs, t))
  }

  /** The curve grows by one factor per row. */
  lemma GrowthStep(xs: seq<Option<real>>, t: nat)
    requires 0 < t < |xs| && xs[t].Some?
    ensures Growth(xs)[t] == Growth(xs)[t - 1] * (1.0 + xs[t].value)
  {
    assert Growth(xs)[t] == Compound(xs, t);
    assert Growth(xs)[t - 1] == Compound(xs, t - 1);
  }

  /** Compounding one-row price changes telescopes to the price relative to the first row. */
  lemma {:induction false} CompoundTelescopes(xs: seq<real>, t: nat)
    requires Positive(xs) && t < |xs|
    ensures Compound(PctChange(xs, 1), t) == xs[t] / xs[0]
  {
    if t > 0 {
      CompoundTelescopes(xs, t - 1);
      assert 1.0 + OrZero(PctChange(xs, 1)[t]) == xs[t] / xs[t - 1];
      RatioChain(xs[0], xs[t - 1], xs[t]);
    }
  }

  /** Price relatives chain: b/a times c/b is c/a. */
  lemma RatioChain(a: real, b: real, c: real)
    requires a > 0.0 && b > 0.0
    ensures (b / a) * (c / b) == c / a
  {
    var p, g := b / a, c / b;
    assert p * a == b;
    assert g * b == c;
    assert (p * g) * a == g * (p * a);
  }

  /** Compounding a column whose defined entries are all zero leaves the curve at 1. */
  lemma {:induction false} CompoundOfZeros(xs: seq<Option<real>>, t: nat)
    requires t < |xs|
    requires forall i :: 0 <= i <= t ==> OrZero(xs[i]) == 0.0
    ensures Compound(xs, t) == 1.0
  {
    if t > 0 {
      CompoundOfZeros(xs, t - 1);
    }
  }

  /** Compounding returns that never reach -100% keeps the curve strictly positive. */
  lemma {:induction false} CompoundPositive(xs: seq<Option<real>>, t: nat)
    requires t < |xs|
    requires forall i :: 0 <= i <= t ==> OrZero(xs[i]) > -1.0
    ensures Compound(xs, t) > 0.0
  {
    if t > 0 {
      CompoundPositive(xs, t - 1);
      ProductSign(1.0 + OrZero(xs[t]), Compound(xs, t - 1));
    }
  }

  /** Compounding is monotone in its entries, as long as the smaller factors stay non-negative. */
  lemma {:induction false} CompoundMonotone(lo: seq<Option<real>>, hi: seq<Option<real>>, t: nat)
    requires t < |lo| && t < |hi|
    requires forall i :: 0 <= i <= t ==> -1.0 <= OrZero(lo[i]) <= OrZero(hi[i])
    ensures 0.0 <= Compound(lo, t) <= Compound(hi, t)
  {
    if t > 0 {
      CompoundMonotone(lo, hi, t - 1);
      var a, b := Compound(lo, t - 1), Compound(hi, t - 1);
      var x, y := 1.0 + OrZero(lo[t]), 1.0 + OrZero(hi[t]);
      assert 0.0 <= a <= b && 0.0 <= x <= y;
      assert a * x <= b * x;
      assert b * x <= b * y;
      assert 0.0 <= a * x;
    }
  }
}
