/**
 * Single-window momentum, the strategy all three scripts share: hold the index while its price
 * is above the price `window` rows back.
 */
module MomentumStrategy {
  import opened Wrappers
  import opened Series
  import opened Signals
  import opened Engine
  import opened Metrics

  /** The default `fee` argument of `backtest_momentum`. */
  const DefaultFee: real := 0.001

  /** `backtest_momentum(df, window, fee)`: single-window momentum. */
  function BacktestMomentum(close: seq<real>, window: nat, fee: real): (r: Run)
    requires Positive(close)
    ensures r.Aligned() && r.close == close && r.signal == Momentum(close, window)
    ensures forall t :: 0 <= t < |close| ==> (r.indicators[t] <==> window <= t)
  {
    Backtest(close, Momentum(close, window), Ready(|close|, window), fee)
  }

  /**
   * The single-window momentum run holds positions 0/1 and trades at most one unit per row;
   * `KeptAfterWarmup` says which rows `dropna()` keeps.
   */
  lemma MomentumRun(close: seq<real>, window: nat, fee: real)
    requires Positive(close)
    ensures var r := BacktestMomentum(close, window, fee);
      && (forall t :: 0 <= t < |close| ==> r.signal[t] == 0 || r.signal[t] == 1)
      && (forall t :: 1 <= t < |close| ==> 0.0 <= r.trade[t].value <= 1.0)
  {
    MomentumRule(close, window);
    TradeBounded(close, Momentum(close, window), Ready(|close|, window), fee, 0, 1);
  }

  /** The first row `dropna()` keeps: the momentum look-back, and never row 0, which has no return. */
  function Warmup(window: nat): nat {
    if window < 1 then 1 else window
  }

  /**
   * A run whose indicators are ready from row `lookback` on: `dropna()` keeps exactly the rows
   * from Warmup(lookback) on, in order.
   */
  lemma KeptAfterWarmup(close: seq<real>, signal: seq<int>, lookback: nat, fee: real)
    requires Positive(close) && |signal| == |close|
    ensures var r := Backtest(close, signal, Ready(|close|, lookback), fee);
      && |DropNa(r)| == (if Warmup(lookback) < |close| then |close| - Warmup(lookback) else 0)
      && (forall i :: 0 <= i < |DropNa(r)| ==> DropNa(r)[i] == RowAt(r, Warmup(lookback) + i))
  {
    var r := Backtest(close, signal, Ready(|close|, lookback), fee);
    forall t | 0 <= t < |close|
      ensures Complete(r, t) <==> Warmup(lookback) <= t
    {
      assert r.indicators[t] <==> lookback <= t;
    }
    KeptFrom(r, Warmup(lookback), |close|);
  }

  /** Constant prices: the momentum position never opens, so there is no return, no fee and no growth. */
  lemma FlatMomentum(close: seq<real>, window: nat, fee: real)
    requires Positive(close)
    requires forall t :: 0 <= t < |close| ==> close[t] == close[0]
    ensures var r := BacktestMomentum(close, window, fee);
      && (forall t :: 0 <= t < |close| ==> r.signal[t] == 0 && r.cumStrategy[t] == 1.0)
      && (forall t :: 1 <= t < |close| ==> r.net[t].value == 0.0)
  {
    var signal := Momentum(close, window);
    MomentumRule(close, window);
    assert forall t :: 0 <= t < |close| ==> signal[t] == 0;
    FlatWithoutPosition(close, signal, Ready(|close|, window), fee);
  }

  /**
   * On constant prices every row `dropna()` keeps has equity 1 and a zero return, so the
   * maximum drawdown is 0 and the win rate is 0.
   */
  lemma ConstantPricesStayFlat(close: seq<real>, window: nat, fee: real)
    requires Positive(close)
    requires forall t :: 0 <= t < |close| ==> close[t] == close[0]
    ensures var rows := DropNa(BacktestMomentum(close, window, fee));
      rows != [] ==>
        PeaksNonZero(Equity(rows)) && MaxDrawdown(Equity(rows)) == 0.0 && WinRate(rows) == 0.0
  {
    FlatMomentum(close, window, fee);
    KeptAfterWarmup(close, Momentum(close, window), window, fee);
    var rows := DropNa(BacktestMomentum(close, window, fee));
    if rows != [] {
      FlatRows(rows);
    }
  }

  /**
   * Every momentum run with a fee below 1 is admissible: the position stays flat until the
   * first row `dropna()` keeps, so the kept equity curve starts at 1 minus at most one fee.
   */
  lemma MomentumAdmissible(close: seq<real>, window: nat, fee: real)
    requires Positive(close) && 0.0 <= fee < 1.0
    ensures Admissible(BacktestMomentum(close, window, fee))
  {
    MomentumRule(close, window);
    FlatBeforeFirstRowAdmissible(close, Momentum(close, window), Ready(|close|, window), fee);
  }
}
