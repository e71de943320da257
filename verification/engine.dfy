/**
 * The backtest bookkeeping shared by every strategy of the three scripts: from a closing
 * price column and a position column it derives the one-bar return, the lagged strategy
 * return, the trade indicator, the return after fees and the two equity curves.
 */
module Engine {
  import opened Wrappers
  import opened Series

  /**
   * The frame a strategy function returns, column by column. `indicators[t]` says that
   * every strategy-specific column (momentum, rolling statistics, z-score) is defined on
   * row t; those columns matter downstream only through `dropna`.
   */
  datatype Run = Run(
    close: seq<real>,
    indicators: seq<bool>,
    signal: seq<int>,
    ret: seq<Option<real>>,
    strategyRet: seq<Option<real>>,
    trade: seq<Option<real>>,
    net: seq<Option<real>>,
    cumStrategy: seq<real>,
    cumBenchmark: seq<real>)
  {
    /** All columns are row-aligned with the price column. */
    predicate Aligned() {
      && |indicators| == |close| && |signal| == |close| && |ret| == |close|
      && |strategyRet| == |close| && |trade| == |close| && |net| == |close|
      && |cumStrategy| == |close| && |cumBenchmark| == |close|
    }
  }

  /**
   * The common tail of every strategy function: `ret = pct_change()`,
   * `strategy_ret = signal.shift(1) * ret`, `trade = signal.diff().abs()`,
   * `strategy_ret_after_fee = strategy_ret - trade * fee` and the two `cumprod` curves.
   */
  function Backtest(close: seq<real>, signal: seq<int>, indicators: seq<bool>, fee: real): (r: Run)
    requires Positive(close) && |signal| == |close| && |indicators| == |close|
    ensures r.Aligned() && r.close == close && r.signal == signal && r.indicators == indicators
    ensures forall t :: 0 <= t < |close| ==>
      (r.ret[t].Some? <==> t >= 1) && (r.strategyRet[t].Some? <==> t >= 1) &&
      (r.trade[t].Some? <==> t >= 1) && (r.net[t].Some? <==> t >= 1)
    ensures r.cumStrategy == Growth(r.net) && r.cumBenchmark == Growth(r.ret)
    ensures |close| > 0 ==> r.cumStrategy[0] == 1.0 && r.cumBenchmark[0] == 1.0
  {
    var ret := PctChange(close, 1);
    var gross := LaggedProduct(signal, ret);
    var trade := AbsDiff(signal);
    var net := LessFee(gross, trade, fee);
    Run(close, indicators, signal, ret, gross, trade, net, Growth(net), Growth(ret))
  }

  /** The defined rows of the bookkeeping columns, one formula per column. */
  lemma RowValues(close: seq<real>, signal: seq<int>, indicators: seq<bool>, fee: real, t: nat)
    requires Positive(close) && |signal| == |close| && |indicators| == |close|
    requires 1 <= t < |close|
    ensures var r := Backtest(close, signal, indicators, fee);
      && r.ret[t].value == close[t] / close[t - 1] - 1.0
      && r.strategyRet[t].value == signal[t - 1] as real * r.ret[t].value
      && r.trade[t].value == Abs(signal[t] - signal[t - 1]) as real
      && r.net[t].value == r.strategyRet[t].value - r.trade[t].value * fee
  {
  }

  /** Buy-and-hold equity telescopes: on every row it is the price relative to the first row. */
  lemma BenchmarkTelescopes(close: seq<real>, signal: seq<int>, indicators: seq<bool>, fee: real)
    requires Positive(close) && |signal| == |close| && |indicators| == |close|
    ensures forall t :: 0 <= t < |close| ==> Backtest(close, signal, indicators, fee).cumBenchmark[t] == close[t] / close[0]
  {
    forall t | 0 <= t < |close|
      ensures Growth(PctChange(close, 1))[t] == close[t] / close[0]
    {
      CompoundTelescopes(close, t);
    }
  }

  /**
   * One-bar execution lag: the strategy return of row t is the previous row's position
   * times row t's price change, and is undefined on row 0.
   */
  lemma StrategyReturnLag(close: seq<real>, signal: seq<int>, indicators: seq<bool>, fee: real, t: nat)
    requires Positive(close) && |signal| == |close| && |indicators| == |close|
    requires t < |close|
    ensures var r := Backtest(close, signal, indicators, fee);
      && (t == 0 ==> r.strategyRet[t].None?)
      && (t > 0 ==> r.strategyRet[t].value == signal[t - 1] as real * (close[t] / close[t - 1] - 1.0))
  {
    if t > 0 {
      RowValues(close, signal, indicators, fee, t);
    }
  }

  /**
   * No look-ahead: two position columns that agree on row t - 1 give the same strategy
   * return on row t, whatever they hold on row t itself or later.
   */
  lemma NoLookAhead(close: seq<real>, s1: seq<int>, s2: seq<int>, indicators: seq<bool>, fee: real, t: nat)
    requires Positive(close) && |s1| == |close| && |s2| == |close| && |indicators| == |close|
    requires 0 < t < |close| && s1[t - 1] == s2[t - 1]
    ensures Backtest(close, s1, indicators, fee).strategyRet[t].value == Backtest(close, s2, indicators, fee).strategyRet[t].value
  {
    StrategyReturnLag(close, s1, indicators, fee, t);
    StrategyReturnLag(close, s2, indicators, fee, t);
  }

  /** When every position lies in [lo, hi], every trade lies in [0, hi - lo]. */
  lemma TradeBounded(close: seq<real>, signal: seq<int>, indicators: seq<bool>, fee: real, lo: int, hi: int)
    requires Positive(close) && |signal| == |close| && |indicators| == |close|
    requires forall t :: 0 <= t < |signal| ==> lo <= signal[t] <= hi
    ensures forall t :: 1 <= t < |close| ==>
      0.0 <= Backtest(close, signal, indicators, fee).trade[t].value <= (hi - lo) as real
  {
  }

  /**
   * The fee is charged on the trade size only: the return after fees is the gross return
   * when the position did not change, and one trade costs exactly `fee` per unit of change.
   */
  lemma FeeCharge(close: seq<real>, signal: seq<int>, indicators: seq<bool>, fee: real, t: nat)
    requires Positive(close) && |signal| == |close| && |indicators| == |close|
    requires 1 <= t < |close|
    ensures var r := Backtest(close, signal, indicators, fee);
      && r.net[t].value == r.strategyRet[t].value - Abs(signal[t] - signal[t - 1]) as real * fee
      && (signal[t] == signal[t - 1] ==> r.net[t].value == r.strategyRet[t].value)
  {
  }

  /** A higher fee never raises any row's return after fees. */
  lemma NetAntitoneInFee(close: seq<real>, signal: seq<int>, indicators: seq<bool>, f1: real, f2: real, t: nat)
    requires Positive(close) && |signal| == |close| && |indicators| == |close|
    requires 0.0 <= f1 <= f2 && 1 <= t < |close|
    ensures Backtest(close, signal, indicators, f2).net[t].value <= Backtest(close, signal, indicators, f1).net[t].value
  {
    var tr := Backtest(close, signal, indicators, f1).trade[t].value;
    assert tr >= 0.0;
    assert tr * f1 <= tr * f2;
  }

  /**
   * A higher fee never raises the strategy equity curve, provided the curve under the
   * higher fee never loses 100% or more in one bar.
   */
  lemma EquityAntitoneInFee(close: seq<real>, signal: seq<int>, indicators: seq<bool>, f1: real, f2: real, t: nat)
    requires Positive(close) && |signal| == |close| && |indicators| == |close|
    requires 0.0 <= f1 <= f2 && t < |close|
    requires forall i :: 1 <= i <= t ==> Backtest(close, signal, indicators, f2).net[i].value >= -1.0
    ensures Backtest(close, signal, indicators, f2).cumStrategy[t] <= Backtest(close, signal, indicators, f1).cumStrategy[t]
  {
    var lo, hi := Backtest(close, signal, indicators, f2), Backtest(close, signal, indicators, f1);
    forall i | 0 <= i <= t
      ensures -1.0 <= OrZero(lo.net[i]) <= OrZero(hi.net[i])
    {
      if i > 0 {
        NetAntitoneInFee(close, signal, indicators, f1, f2, i);
      }
    }
    CompoundMonotone(lo.net, hi.net, t);
  }

  /** Without ever holding a position there is no return and no fee: the equity curve stays at 1. */
  lemma FlatWithoutPosition(close: seq<real>, signal: seq<int>, indicators: seq<bool>, fee: real)
    requires Positive(close) && |signal| == |close| && |indicators| == |close|
    requires forall t :: 0 <= t < |signal| ==> signal[t] == 0
    ensures forall t :: 1 <= t < |close| ==> Backtest(close, signal, indicators, fee).net[t].value == 0.0
    ensures forall t :: 0 <= t < |close| ==> Backtest(close, signal, indicators, fee).cumStrategy[t] == 1.0
  {
    var r := Backtest(close, signal, indicators, fee);
    forall t | 1 <= t < |close|
      ensures r.net[t].value == 0.0
    {
      RowValues(close, signal, indicators, fee, t);
    }
    forall t | 0 <= t < |close|
      ensures r.cumStrategy[t] == 1.0
    {
      CompoundOfZeros(r.net, t);
    }
  }

  /**
   * Flat until row m: the equity on the row a position is first opened is 1 minus the fee on
   * that position, so it stays positive for positions in [-1, 1] and a fee below 1.
   */
  lemma EntryCostsOnlyFee(close: seq<real>, signal: seq<int>, indicators: seq<bool>, fee: real, m: nat)
    requires Positive(close) && |signal| == |close| && |indicators| == |close|
    requires 1 <= m < |close| && forall t :: 0 <= t < m ==> signal[t] == 0
    ensures Backtest(close, signal, indicators, fee).cumStrategy[m] == 1.0 - Abs(signal[m]) as real * fee
    ensures -1 <= signal[m] <= 1 && 0.0 <= fee < 1.0 ==> Backtest(close, signal, indicators, fee).cumStrategy[m] > 0.0
  {
    var r := Backtest(close, signal, indicators, fee);
    FlatPrefixStaysAtOne(close, signal, indicators, fee, m - 1);
    NetAfterFlatRow(close, signal, indicators, fee, m);
    assert r.cumStrategy[m] == Compound(r.net, m - 1) * (1.0 + OrZero(r.net[m]));
    if -1 <= signal[m] <= 1 && 0.0 <= fee < 1.0 {
      assert Abs(signal[m]) as real * fee <= fee;
    }
  }

  /** While no position has been held, the strategy curve stays at 1. */
  lemma FlatPrefixStaysAtOne(close: seq<real>, signal: seq<int>, indicators: seq<bool>, fee: real, m: nat)
    requires Positive(close) && |signal| == |close| && |indicators| == |close|
    requires m < |close| && forall t :: 0 <= t <= m ==> signal[t] == 0
    ensures Compound(Backtest(close, signal, indicators, fee).net, m) == 1.0
  {
    var r := Backtest(close, signal, indicators, fee);
    forall i | 0 <= i <= m
      ensures OrZero(r.net[i]) == 0.0
    {
      if i > 0 {
        NetAfterFlatRow(close, signal, indicators, fee, i);
      }
    }
    CompoundOfZeros(r.net, m);
  }

  /**
   * A position held on rows 0 and 1 earns the first price change without a fee: the strategy
   * curve on row 1 is close[1] / close[0], which is positive.
   */
  lemma HeldFromStart(close: seq<real>, signal: seq<int>, indicators: seq<bool>, fee: real)
    requires Positive(close) && |signal| == |close| && |indicators| == |close|
    requires |close| > 1 && signal[0] == 1 && signal[1] == 1
    ensures Backtest(close, signal, indicators, fee).cumStrategy[1] == close[1] / close[0]
    ensures Backtest(close, signal, indicators, fee).cumStrategy[1] > 0.0
  {
    var r := Backtest(close, signal, indicators, fee);
    RowValues(close, signal, indicators, fee, 1);
    var q := close[1] / close[0];
    assert r.net[1].value == q - 1.0;
    assert r.cumStrategy[1] == Compound(r.net, 1);
    assert q * close[0] == close[1];
    ProductSign(q, close[0]);
  }

  /** After a flat row the strategy return is 0, so a row's net return is only the fee on its new position. */
  lemma NetAfterFlatRow(close: seq<real>, signal: seq<int>, indicators: seq<bool>, fee: real, t: nat)
    requires Positive(close) && |signal| == |close| && |indicators| == |close|
    requires 1 <= t < |close| && signal[t - 1] == 0
    ensures Backtest(close, signal, indicators, fee).net[t] == Some(-(Abs(signal[t]) as real * fee))
  {
    var r := Backtest(close, signal, indicators, fee);
    RowValues(close, signal, indicators, fee, t);
    assert r.strategyRet[t].value == 0.0;
    assert r.trade[t].value == Abs(signal[t]) as real;
    assert r.net[t].value == -(Abs(signal[t]) as real * fee);
  }

  /** If no bar loses 100% or more after fees, the strategy equity curve stays strictly positive. */
  lemma EquityPositive(close: seq<real>, signal: seq<int>, indicators: seq<bool>, fee: real)
    requires Positive(close) && |signal| == |close| && |indicators| == |close|
    requires forall t :: 1 <= t < |close| ==> Backtest(close, signal, indicators, fee).net[t].value > -1.0
    ensures forall t :: 0 <= t < |close| ==> Backtest(close, signal, indicators, fee).cumStrategy[t] > 0.0
  {
    var r := Backtest(close, signal, indicators, fee);
    forall t | 0 <= t < |close|
      ensures r.cumStrategy[t] > 0.0
    {
      CompoundPositive(r.net, t);
    }
  }

  /**
   * A long-or-flat position (0 or 1) with a fee below 1 never loses 100% in one row after fees,
   * as long as no row's price falls to `fee` times the previous price or less.
   */
  lemma LongOnlyNetAboveMinusOne(close: seq<real>, signal: seq<int>, indicators: seq<bool>, fee: real)
    requires Positive(close) && |signal| == |close| && |indicators| == |close|
    requires forall t :: 0 <= t < |signal| ==> signal[t] == 0 || signal[t] == 1
    requires 0.0 <= fee < 1.0
    requires forall t :: 1 <= t < |close| ==> close[t] > fee * close[t - 1]
    ensures forall t :: 1 <= t < |close| ==> Backtest(close, signal, indicators, fee).net[t].value > -1.0
  {
    forall t | 1 <= t < |close|
      ensures Backtest(close, signal, indicators, fee).net[t].value > -1.0
    {
      LongOnlyNetRow(close, signal, indicators, fee, t);
    }
  }

  /** The bound above on one row t, from that row's two positions and two prices. */
  lemma LongOnlyNetRow(close: seq<real>, signal: seq<int>, indicators: seq<bool>, fee: real, t: nat)
    requires Positive(close) && |signal| == |close| && |indicators| == |close|
    requires 1 <= t < |close| && close[t] > fee * close[t - 1] && 0.0 <= fee < 1.0
    requires (signal[t] == 0 || signal[t] == 1) && (signal[t - 1] == 0 || signal[t - 1] == 1)
    ensures Backtest(close, signal, indicators, fee).net[t].value > -1.0
  {
    var r := Backtest(close, signal, indicators, fee);
    RowValues(close, signal, indicators, fee, t);
    LongOnlyRow(close[t - 1], close[t], r.ret[t].value, signal[t - 1], r.trade[t].value, fee);
  }

  /** One row of the bound above, on plain numbers: prices c0 then c1, return ret, previous position s, trade size tr. */
  lemma LongOnlyRow(c0: real, c1: real, ret: real, s: int, tr: real, fee: real)
    requires c0 > 0.0 && c1 > fee * c0 && ret == c1 / c0 - 1.0
    requires (s == 0 || s == 1) && 0.0 <= tr <= 1.0 && 0.0 <= fee < 1.0
    ensures s as real * ret - tr * fee > -1.0
  {
    var q := c1 / c0;
    assert c1 == q * c0;
    assert c1 - fee * c0 == (q - fee) * c0;
    ProductSign(q - fee, c0);
    assert tr * fee <= fee;
  }
}
