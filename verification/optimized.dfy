/**
 * The strategy comparison script: four strategies run through the shared bookkeeping,
 * a detailed metric report with an empty-frame guard, a comparison of the four strategies
 * and a sweep over momentum windows, each picking the best total return.
 */
module Optimized {
  import opened Wrappers
  import opened Series
  import opened Signals
  import opened Engine
  import opened Metrics
  import opened MomentumStrategy

  /** The fee hard-coded by the fast/slow, price+volume and mean-reversion strategies. */
  const HardCodedFee: real := 0.001

  function Longer(a: nat, b: nat): nat {
    if a < b then b else a
  }

  /** `optimized_momentum_strategy(df, fast_window, slow_window, threshold)` */
  function OptimizedMomentumStrategy(close: seq<real>, fast: nat, slow: nat, threshold: real): (r: Run)
    requires Positive(close)
    ensures r.Aligned() && r.close == close && r.signal == FastSlow(close, fast, slow, threshold)
    ensures forall t :: 0 <= t < |close| ==> (r.indicators[t] <==> fast <= t && slow <= t)
  {
    Backtest(close, FastSlow(close, fast, slow, threshold), Ready(|close|, Longer(fast, slow)), HardCodedFee)
  }

  /** `dual_momentum_strategy(df, price_window, volume_window)`, with the volume column as an input. */
  function DualMomentumStrategy(close: seq<real>, volume: seq<real>, priceWindow: nat, volumeWindow: nat): (r: Run)
    requires Positive(close) && Positive(volume) && |volume| == |close|
    ensures r.Aligned() && r.close == close && r.signal == PriceVolume(close, volume, priceWindow, volumeWindow)
    ensures forall t :: 0 <= t < |close| ==> (r.indicators[t] <==> priceWindow <= t && volumeWindow <= t)
  {
    Backtest(close, PriceVolume(close, volume, priceWindow, volumeWindow),
      Ready(|close|, Longer(priceWindow, volumeWindow)), HardCodedFee)
  }

  /** The specification of `mean_reversion_strategy(df, window, z_threshold)`. */
  function MeanReversionRun(close: seq<real>, window: nat, zThreshold: real): (r: Run)
    requires Positive(close)
    ensures r.Aligned() && r.close == close && r.signal == MeanReversion(close, window, zThreshold)
    ensures forall t :: 0 <= t < |close| ==> (r.indicators[t] <==> ZDefined(close, window, t))
  {
    Backtest(close, MeanReversion(close, window, zThreshold), ZReady(close, window), HardCodedFee)
  }

  /**
   * Every fast/slow run is admissible. With a lookback of at least one row, or a threshold of
   * at least 0, the position opens only on kept rows; with both lookbacks 0 and a negative
   * threshold the position is held from row 0 on (`FastSlowHeldFromStart`).
   */
  lemma OptimizedMomentumAdmissible(close: seq<real>, fast: nat, slow: nat, threshold: real)
    requires Positive(close)
    ensures Admissible(OptimizedMomentumStrategy(close, fast, slow, threshold))
  {
    if Longer(fast, slow) >= 1 || threshold >= 0.0 {
      FastSlowRule(close, fast, slow, threshold);
      FlatBeforeFirstRowAdmissible(close, FastSlow(close, fast, slow, threshold),
        Ready(|close|, Longer(fast, slow)), HardCodedFee);
    } else {
      FastSlowHeldFromStart(close, threshold);
    }
  }

  /**
   * With both lookbacks 0 and a negative threshold the position is 1 on every row, so the first
   * kept row (row 1) has equity close[1] / close[0], which is positive.
   */
  lemma FastSlowHeldFromStart(close: seq<real>, threshold: real)
    requires Positive(close) && threshold < 0.0
    ensures Admissible(OptimizedMomentumStrategy(close, 0, 0, threshold))
  {
    var signal := FastSlow(close, 0, 0, threshold);
    var r := Backtest(close, signal, Ready(|close|, 0), HardCodedFee);
    KeptAfterWarmup(close, signal, 0, HardCodedFee);
    if |close| > 1 {
      FastSlowHeldRow(close, threshold, 0);
      FastSlowHeldRow(close, threshold, 1);
      HeldFromStart(close, signal, Ready(|close|, 0), HardCodedFee);
      PeaksPositive(Equity(DropNa(r)));
    }
  }

  /** With both lookbacks 0 both changes are 0, so a negative threshold holds the position on every row. */
  lemma FastSlowHeldRow(close: seq<real>, threshold: real, t: nat)
    requires Positive(close) && threshold < 0.0 && t < |close|
    ensures FastSlow(close, 0, 0, threshold)[t] == 1
  {
    assert close[t] / close[t] == 1.0;
    assert PctChangeAt(close, 0, t) == Some(0.0);
    assert FastSlowAt(close, 0, 0, threshold, t) == 1;
  }

  /** Every price+volume run is admissible: a 1% price rise needs at least one earlier row. */
  lemma DualMomentumAdmissible(close: seq<real>, volume: seq<real>, priceWindow: nat, volumeWindow: nat)
    requires Positive(close) && Positive(volume) && |volume| == |close|
    ensures Admissible(DualMomentumStrategy(close, volume, priceWindow, volumeWindow))
  {
    PriceVolumeRule(close, volume, priceWindow, volumeWindow);
    FlatBeforeFirstRowAdmissible(close, PriceVolume(close, volume, priceWindow, volumeWindow),
      Ready(|close|, Longer(priceWindow, volumeWindow)), HardCodedFee);
  }

  /** Every mean-reversion run is admissible: a position opens only where the z-score is defined. */
  lemma MeanReversionAdmissible(close: seq<real>, window: nat, zThreshold: real)
    requires Positive(close)
    ensures Admissible(MeanReversionRun(close, window, zThreshold))
  {
    MeanReversionRange(close, window, zThreshold);
    FlatBeforeFirstRowAdmissible(close, MeanReversion(close, window, zThreshold), ZReady(close, window), HardCodedFee);
  }

  /**
   * `mean_reversion_strategy(df, window, z_threshold)`: the signal column starts at 0 and is
   * overwritten in place, first with 1 on the oversold rows, then with -1 on the overbought rows.
   */
  method MeanReversionStrategy(close: seq<real>, window: nat, zThreshold: real) returns (run: Run)
    requires Positive(close)
    ensures run == MeanReversionRun(close, window, zThreshold)
    ensures forall t :: 0 <= t < |close| ==> -1 <= run.signal[t] <= 1
  {
    var n := |close|;
    var signal := new int[n](_ => 0);
    for t := 0 to n
      invariant forall i :: 0 <= i < t ==> signal[i] == (if ZBelow(close, window, zThreshold, i) then 1 else 0)
      invariant forall i :: t <= i < n ==> signal[i] == 0
    {
      if ZBelow(close, window, zThreshold, t) {
        signal[t] := 1;
      }
    }
    for t := 0 to n
      invariant forall i :: 0 <= i < t ==> signal[i] == MeanReversion(close, window, zThreshold)[i]
      invariant forall i :: t <= i < n ==> signal[i] == (if ZBelow(close, window, zThreshold, i) then 1 else 0)
    {
      if ZAbove(close, window, zThreshold, t) {
        signal[t] := -1;
      }
    }
    assert signal[..] == MeanReversion(close, window, zThreshold);
    run := Backtest(close, signal[..], ZReady(close, window), HardCodedFee);
  }

  /**
   * The fast/slow run holds 0/1 positions, trades at most one unit per row, and `dropna()`
   * keeps the rows from the longer lookback on.
   */
  lemma OptimizedMomentumRun(close: seq<real>, fast: nat, slow: nat, threshold: real)
    requires Positive(close)
    ensures var r := OptimizedMomentumStrategy(close, fast, slow, threshold);
      && (forall t :: 0 <= t < |close| ==> r.signal[t] == 0 || r.signal[t] == 1)
      && (forall t :: 1 <= t < |close| ==> 0.0 <= r.trade[t].value <= 1.0)
      && |DropNa(r)| == (if Warmup(Longer(fast, slow)) < |close| then |close| - Warmup(Longer(fast, slow)) else 0)
  {
    var signal := FastSlow(close, fast, slow, threshold);
    FastSlowRule(close, fast, slow, threshold);
    TradeBounded(close, signal, Ready(|close|, Longer(fast, slow)), HardCodedFee, 0, 1);
    KeptAfterWarmup(close, signal, Longer(fast, slow), HardCodedFee);
  }

  /**
   * The price+volume run holds 0/1 positions, trades at most one unit per row, and `dropna()`
   * keeps the rows from the longer of the two lookbacks on.
   */
  lemma DualMomentumRun(close: seq<real>, volume: seq<real>, priceWindow: nat, volumeWindow: nat)
    requires Positive(close) && Positive(volume) && |volume| == |close|
    ensures var r := DualMomentumStrategy(close, volume, priceWindow, volumeWindow);
      && (forall t :: 0 <= t < |close| ==> r.signal[t] == 0 || r.signal[t] == 1)
      && (forall t :: 1 <= t < |close| ==> 0.0 <= r.trade[t].value <= 1.0)
      && |DropNa(r)| ==
           (if Warmup(Longer(priceWindow, volumeWindow)) < |close| then |close| - Warmup(Longer(priceWindow, volumeWindow)) else 0)
  {
    var signal := PriceVolume(close, volume, priceWindow, volumeWindow);
    PriceVolumeRule(close, volume, priceWindow, volumeWindow);
    TradeBounded(close, signal, Ready(|close|, Longer(priceWindow, volumeWindow)), HardCodedFee, 0, 1);
    KeptAfterWarmup(close, signal, Longer(priceWindow, volumeWindow), HardCodedFee);
  }

  /**
   * The mean-reversion run holds -1, 0 or 1, so a row trades at most two units (a flip from
   * short to long); a series shorter than the window leaves nothing after `dropna()`.
   */
  lemma MeanReversionTrades(close: seq<real>, window: nat, zThreshold: real)
    requires Positive(close)
    ensures var r := MeanReversionRun(close, window, zThreshold);
      && (forall t :: 1 <= t < |close| ==> 0.0 <= r.trade[t].value <= 2.0)
      && (|close| < window ==> DropNa(r) == [])
  {
    var r := MeanReversionRun(close, window, zThreshold);
    MeanReversionRange(close, window, zThreshold);
    TradeBounded(close, r.signal, r.indicators, HardCodedFee, -1, 1);
    if |close| < window {
      KeptFrom(r, |close|, |close|);
    }
  }

  // ----- detailed metrics -----

  /**
   * One row of the comparison table. The formatted strings of the source are kept as
   * numbers; `calmarNA` says that the Calmar ratio is printed as "N/A".
   */
  datatype DetailedReport = DetailedReport(
    strategy: string,
    days: nat,
    years: real,
    totalReturn: real,
    maxDrawdown: real,
    winRate: real,
    totalTrades: int,
    calmarNA: bool)

  /** Python's `int()` on a float: truncation toward zero. */
  function Truncate(x: real): (n: int)
    ensures x >= 0.0 ==> 0 <= n && n as real <= x < n as real + 1.0
    ensures x < 0.0 ==> n <= 0 && n as real - 1.0 < x <= n as real
  {
    if x >= 0.0 then x.Floor else -((-x).Floor)
  }

  /**
   * `1 / years` is a whole number. numpy's `final_value ** (1 / years)` of a negative final
   * value is a number only for a whole exponent, and NaN otherwise. The exponent is 10 below
   * 26 rows, where the 0.1-year floor applies, and 252 / days from there on;
   * `WholeExponentDays` proves this equals the test on `1 / Years(days)` itself.
   */
  predicate WholeExponent(days: nat) {
    days < 26 || 252 % days == 0
  }

  /** `ann_ret = final_value ** (1 / years) - 1` is a number. */
  predicate AnnualReturnDefined(finalValue: real, days: nat) {
    finalValue >= 0.0 || WholeExponent(days)
  }

  /** A quotient of naturals is whole exactly when the division leaves no remainder. */
  lemma WholeQuotient(a: nat, b: nat)
    requires b > 0
    ensures var e := a as real / b as real; e == e.Floor as real <==> a % b == 0
  {
    var q, r := a / b, a % b;
    var e, f := a as real / b as real, r as real / b as real;
    assert a as real == q as real * b as real + r as real;
    assert f * b as real == r as real;
    assert e * b as real == a as real;
    assert (e - q as real) * b as real == r as real;
    assert e - q as real == f;
    assert 0.0 <= f < 1.0 by {
      ProductSign(f, b as real);
      assert (1.0 - f) * b as real == (b - r) as real;
      ProductSign(1.0 - f, b as real);
    }
    assert e.Floor == q;
    ProductSign(f, b as real);
  }

  /**
   * The exponent `1 / years` is whole for every run shorter than 26 rows, where the 0.1-year
   * floor makes it 10, and otherwise exactly when the row count divides 252.
   */
  lemma WholeExponentDays(days: nat)
    ensures var e := 1.0 / Years(days); e == e.Floor as real <==> WholeExponent(days)
  {
    YearsFloor(days);
    if days < 26 {
      assert Years(days) == 0.1;
      assert 1.0 / Years(days) == 10.0;
    } else {
      assert 1.0 / Years(days) == 252.0 / days as real;
      WholeQuotient(252, days);
    }
  }

  /** `calc_detailed_metrics(df, strategy_name)`, or None for the empty dictionary. */
  function CalcDetailedMetrics(run: Run, name: string): (r: Option<DetailedReport>)
    requires Admissible(run)
    ensures r.None? <==> DropNa(run) == []
    ensures r.Some? ==>
      var rows := DropNa(run);
      && r.value.strategy == name
      && r.value.days == |rows|
      && r.value.years == Years(|rows|)
      && r.value.totalReturn == rows[|rows| - 1].equity - 1.0
      && r.value.maxDrawdown == MaxDrawdown(Equity(rows))
      && r.value.winRate == WinRate(rows)
      && r.value.totalTrades == Truncate(TotalTrades(rows))
      && (r.value.calmarNA <==> r.value.maxDrawdown == 0.0 || !AnnualReturnDefined(rows[|rows| - 1].equity, |rows|))
  {
    var rows := DropNa(run);
    if |rows| == 0 then None
    else
      var e := Equity(rows);
      var maxDrawdown := MaxDrawdown(e);
      Some(DetailedReport(name, |rows|, Years(|rows|), e[|e| - 1] - 1.0, maxDrawdown,
        WinRate(rows), Truncate(TotalTrades(rows)),
        maxDrawdown == 0.0 || !AnnualReturnDefined(e[|e| - 1], |rows|)))
  }

  /**
   * Every report is within its ranges: at least 0.1 years, a drawdown of at most 0, a win rate
   * in [0, 1]. For an equity curve that starts positive, the Calmar ratio is "N/A" exactly
   * when the strategy never fell below a previous high, or when the final equity is negative
   * and the annual return is NaN because the exponent `1 / years` is not whole.
   */
  lemma DetailedMetricsRanges(run: Run, name: string)
    requires Admissible(run) && DropNa(run) != []
    ensures var r := CalcDetailedMetrics(run, name).value;
      && r.years >= 0.1 && r.years >= r.days as real / 252.0
      && r.maxDrawdown <= 0.0
      && 0.0 <= r.winRate <= 1.0
      && (DropNa(run)[0].equity > 0.0 ==>
            (r.calmarNA <==>
              || NonDecreasing(Equity(DropNa(run)))
              || (DropNa(run)[|DropNa(run)| - 1].equity < 0.0 && !(r.days < 26 || 252 % r.days == 0))))
  {
    var rows := DropNa(run);
    YearsFloor(|rows|);
    SummaryRanges(rows);
  }

  /** With trades in [0, m] on every kept row, the reported trade count is between 0 and m times the number of rows. */
  lemma TradeCountBounded(run: Run, name: string, m: real)
    requires Admissible(run) && DropNa(run) != []
    requires TradesWithin(DropNa(run), m)
    ensures var r := CalcDetailedMetrics(run, name).value;
      0 <= r.totalTrades && r.totalTrades as real <= m * r.days as real
  {
    TruncatedTradesBounded(DropNa(run), m);
  }

  /** The truncated trade count of rows with trades in [0, m] is between 0 and m times the number of rows. */
  lemma TruncatedTradesBounded(rows: seq<Row>, m: real)
    requires TradesWithin(rows, m)
    ensures 0 <= Truncate(TotalTrades(rows)) && Truncate(TotalTrades(rows)) as real <= m * |rows| as real
  {
    TotalTradesBounded(rows, m);
  }

  // ----- choosing the best report -----

  /**
   * `float(f"{total_ret * 100:.2f}%".rstrip('%'))`: the total return shown with two decimals,
   * in hundredths of a percent, rounding half up.
   */
  function DisplayedPercent(x: real): (k: int)
    ensures x * 10000.0 - 0.5 < k as real <= x * 10000.0 + 0.5
  {
    (x * 10000.0 + 0.5).Floor
  }

  /** Rounding to the display keeps the order of the exact values. */
  lemma DisplayedPercentRounds(x: real, y: real)
    ensures x <= y ==> DisplayedPercent(x) <= DisplayedPercent(y)
  {
  }

  function RankingKeys(reports: seq<DetailedReport>): (keys: seq<int>)
    ensures |keys| == |reports|
    ensures forall i :: 0 <= i < |reports| ==> keys[i] == DisplayedPercent(reports[i].totalReturn)
  {
    seq(|reports|, i requires 0 <= i < |reports| => DisplayedPercent(reports[i].totalReturn))
  }

  /** `max(..., key=...)`: k holds a largest key and no earlier entry holds one as large. */
  predicate FirstMaximal(keys: seq<int>, k: nat) {
    && k < |keys|
    && (forall i :: 0 <= i < |keys| ==> keys[i] <= keys[k])
    && (forall i :: 0 <= i < k ==> keys[i] < keys[k])
  }

  /** The first maximal entry is unique. */
  lemma FirstMaximalUnique(keys: seq<int>, j: nat, k: nat)
    requires FirstMaximal(keys, j) && FirstMaximal(keys, k)
    ensures j == k
  {
    assert keys[j] == keys[k];
  }

  /** Python's `max` over a non-empty list with a key: the first entry with the largest key. */
  method BestIndex(keys: seq<int>) returns (k: nat)
    requires |keys| > 0
    ensures FirstMaximal(keys, k)
  {
    k := 0;
    for i := 1 to |keys|
      invariant FirstMaximal(keys[..i], k)
    {
      if keys[i] > keys[k] {
        k := i;
      }
    }
    assert keys[..|keys|] == keys;
  }

  /**
   * Ranking on the displayed two-decimal percentage picks a report that no other report beats
   * by one hundredth of a percent or more in exact total return.
   */
  lemma BestIsNearlyBest(reports: seq<DetailedReport>, k: nat)
    requires FirstMaximal(RankingKeys(reports), k)
    ensures forall i :: 0 <= i < |reports| ==> reports[i].totalReturn < reports[k].totalReturn + 0.0001
  {
    forall i | 0 <= i < |reports|
      ensures reports[i].totalReturn < reports[k].totalReturn + 0.0001
    {
      var keys := RankingKeys(reports);
      assert keys[i] <= keys[k];
      DisplayedPercentRounds(reports[i].totalReturn, reports[k].totalReturn);
      DisplayedPercentRounds(reports[k].totalReturn, reports[i].totalReturn);
      assert reports[i].totalReturn * 10000.0 < reports[k].totalReturn * 10000.0 + 1.0;
    }
  }

  // ----- comparing the strategies -----

  /** The non-empty reports of the named runs, in order (`if metrics: all_metrics.append(metrics)`). */
  function Reports(entries: seq<(string, Run)>): (table: seq<DetailedReport>)
    requires forall i :: 0 <= i < |entries| ==> Admissible(entries[i].1)
  {
    if |entries| == 0 then []
    else Reports(entries[..|entries| - 1]) + ReportStep(entries[|entries| - 1])
  }

  /** The table's entry for one named run: its report, or nothing when the report is empty. */
  function ReportStep(entry: (string, Run)): (step: seq<DetailedReport>)
    requires Admissible(entry.1)
    ensures |step| == (if DropNa(entry.1) == [] then 0 else 1)
    ensures |step| == 1 ==> step[0].strategy == entry.0 && step[0].days > 0
  {
    match CalcDetailedMetrics(entry.1, entry.0) {
      case None => []
      case Some(m) => [m]
    }
  }

  /** The table has at most one report per run, and only reports of at least one row. */
  lemma {:induction false} ReportsSkipEmpty(entries: seq<(string, Run)>)
    requires forall i :: 0 <= i < |entries| ==> Admissible(entries[i].1)
    ensures |Reports(entries)| <= |entries|
    ensures forall j :: 0 <= j < |Reports(entries)| ==> Reports(entries)[j].days > 0
  {
    if |entries| > 0 {
      var init := entries[..|entries| - 1];
      assert forall i :: 0 <= i < |init| ==> init[i] == entries[i];
      ReportsSkipEmpty(init);
      var head, step := Reports(init), ReportStep(entries[|entries| - 1]);
      assert forall j :: |head| <= j < |head| + |step| ==> (head + step)[j] == step[j - |head|];
    }
  }

  /** When every run keeps a row, report i belongs to run i. */
  lemma {:induction false} ReportsAllKept(entries: seq<(string, Run)>)
    requires forall i :: 0 <= i < |entries| ==> Admissible(entries[i].1) && DropNa(entries[i].1) != []
    ensures |Reports(entries)| == |entries|
    ensures forall i :: 0 <= i < |entries| ==> Reports(entries)[i].strategy == entries[i].0
  {
    if |entries| > 0 {
      var init := entries[..|entries| - 1];
      assert forall i :: 0 <= i < |init| ==> init[i] == entries[i];
      ReportsAllKept(init);
    }
  }

  /** When no run keeps a row, the table is empty. */
  lemma {:induction false} ReportsNoneKept(entries: seq<(string, Run)>)
    requires forall i :: 0 <= i < |entries| ==> Admissible(entries[i].1) && DropNa(entries[i].1) == []
    ensures Reports(entries) == []
  {
    if |entries| > 0 {
      var init := entries[..|entries| - 1];
      assert forall i :: 0 <= i < |init| ==> init[i] == entries[i];
      ReportsNoneKept(init);
    }
  }

  /** The loop of `compare_strategies()`: each run's report is appended when it is not empty. */
  method CollectReports(entries: seq<(string, Run)>) returns (table: seq<DetailedReport>)
    requires forall i :: 0 <= i < |entries| ==> Admissible(entries[i].1)
    ensures table == Reports(entries)
  {
    table := [];
    for i := 0 to |entries|
      invariant table == Reports(entries[..i])
    {
      assert entries[..i + 1][..i] == entries[..i];
      var metrics := CalcDetailedMetrics(entries[i].1, entries[i].0);
      if metrics.Some? {
        table := table + [metrics.value];
      }
    }
    assert entries[..|entries|] == entries;
  }

  /** The four strategies of the comparison with the parameters it uses. */
  function StrategyRuns(close: seq<real>, volume: seq<real>): (entries: seq<(string, Run)>)
    requires Positive(close) && Positive(volume) && |volume| == |close|
    ensures |entries| == 4
    ensures forall i :: 0 <= i < 4 ==> Admissible(entries[i].1)
  {
    MomentumAdmissible(close, 20, DefaultFee);
    OptimizedMomentumAdmissible(close, 10, 30, 0.02);
    DualMomentumAdmissible(close, volume, 20, 10);
    MeanReversionAdmissible(close, 20, 2.0);
    [ ("Original Momentum (20 days)", BacktestMomentum(close, 20, DefaultFee)),
      ("Optimized Momentum (10/30 days)", OptimizedMomentumStrategy(close, 10, 30, 0.02)),
      ("Dual Momentum", DualMomentumStrategy(close, volume, 20, 10)),
      ("Mean Reversion (20 days)", MeanReversionRun(close, 20, 2.0)) ]
  }

  /**
   * `compare_strategies()` on a price series and the volume column of the price+volume rule:
   * the table of non-empty reports and the index of the best one by displayed total return.
   */
  method CompareStrategies(close: seq<real>, volume: seq<real>) returns (table: seq<DetailedReport>, best: Option<nat>)
    requires Positive(close) && Positive(volume) && |volume| == |close|
    ensures table == Reports(StrategyRuns(close, volume))
    ensures best.None? <==> table == []
    ensures best.Some? ==> FirstMaximal(RankingKeys(table), best.value)
  {
    var meanReversion := MeanReversionStrategy(close, 20, 2.0);
    var strategies := [
      ("Original Momentum (20 days)", BacktestMomentum(close, 20, DefaultFee)),
      ("Optimized Momentum (10/30 days)", OptimizedMomentumStrategy(close, 10, 30, 0.02)),
      ("Dual Momentum", DualMomentumStrategy(close, volume, 20, 10)),
      ("Mean Reversion (20 days)", meanReversion) ];
    assert strategies == StrategyRuns(close, volume);
    table := CollectReports(strategies);
    if |table| == 0 {
      best := None;
    } else {
      var k := BestIndex(RankingKeys(table));
      best := Some(k);
    }
  }

  // ----- the momentum window sweep -----

  /** The momentum windows `parameter_optimization()` tries. */
  const Windows: seq<nat> := [5, 10, 20, 30, 50]

  function DigitChar(d: nat): char
    requires d < 10
  {
    ('0' as int + d) as char
  }

  /** `str(n)` for a natural number: its decimal digits, most significant first. */
  function DecimalString(n: nat): (s: string)
    ensures |s| >= 1
  {
    if n < 10 then [DigitChar(n)] else DecimalString(n / 10) + [DigitChar(n % 10)]
  }

  /** Reads decimal digits back into a number. */
  function DecimalValue(s: string): nat {
    if |s| == 0 then 0
    else
      var c := s[|s| - 1];
      DecimalValue(s[..|s| - 1]) * 10 + (if '0' <= c <= '9' then c as int - '0' as int else 0)
  }

  /** The decimal string has only digits, no leading zero, and reads back as the number. */
  lemma {:induction false} DecimalStringRoundTrip(n: nat)
    ensures forall i :: 0 <= i < |DecimalString(n)| ==> '0' <= DecimalString(n)[i] <= '9'
    ensures |DecimalString(n)| > 1 ==> DecimalString(n)[0] != '0'
    ensures DecimalValue(DecimalString(n)) == n
  {
    if n >= 10 {
      DecimalStringRoundTrip(n / 10);
      var s := DecimalString(n);
      assert s[..|s| - 1] == DecimalString(n / 10);
    }
  }

  /** The strategy name `f"Momentum_{window}days"`. */
  function WindowName(window: nat): (name: string)
    ensures |name| >= 14 && name[..9] == "Momentum_" && name[|name| - 4..] == "days"
    ensures DecimalValue(name[9..|name| - 4]) == window
  {
    DecimalStringRoundTrip(window);
    var name := "Momentum_" + DecimalString(window) + "days";
    assert name[9..|name| - 4] == DecimalString(window);
    name
  }

  /** Different windows get different names. */
  lemma WindowNameInjective(v: nat, w: nat)
    requires WindowName(v) == WindowName(w)
    ensures v == w
  {
    var sv, sw := DecimalString(v), DecimalString(w);
    assert sv == WindowName(v)[9..|WindowName(v)| - 4];
    assert sw == WindowName(w)[9..|WindowName(w)| - 4];
    DecimalStringRoundTrip(v);
    DecimalStringRoundTrip(w);
  }

  /** The `(window, report)` pairs of the windows whose report is not empty, in order. */
  function Sweep(close: seq<real>, windows: seq<nat>): (results: seq<(nat, DetailedReport)>)
    requires Positive(close)
  {
    if |windows| == 0 then []
    else Sweep(close, windows[..|windows| - 1]) + SweepStep(close, windows[|windows| - 1])
  }

  /** The sweep's entry for one window: its report with the window, or nothing when the report is empty. */
  function SweepStep(close: seq<real>, window: nat): seq<(nat, DetailedReport)>
    requires Positive(close)
  {
    MomentumAdmissible(close, window, DefaultFee);
    match CalcDetailedMetrics(BacktestMomentum(close, window, DefaultFee), WindowName(window)) {
      case None => []
      case Some(m) => [(window, m)]
    }
  }

  /**
   * A window of at least one row has an entry exactly when it is shorter than the series; the
   * entry carries the window, its name and the rows from the window on.
   */
  lemma SweepStepKeeps(close: seq<real>, window: nat)
    requires Positive(close) && window >= 1
    ensures |SweepStep(close, window)| == (if window < |close| then 1 else 0)
    ensures window < |close| ==>
      && SweepStep(close, window)[0].0 == window
      && SweepStep(close, window)[0].1.strategy == WindowName(window)
      && SweepStep(close, window)[0].1.days == |close| - window
  {
    KeptAfterWarmup(close, Momentum(close, window), window, DefaultFee);
  }

  /** The windows shorter than the series, in order. */
  function WindowsBelow(windows: seq<nat>, n: nat): seq<nat> {
    if |windows| == 0 then []
    else
      var w := windows[|windows| - 1];
      WindowsBelow(windows[..|windows| - 1], n) + (if w < n then [w] else [])
  }

  /**
   * The sweep reports exactly the windows shorter than the series, in order, each under its
   * own name and over the rows from the window on.
   */
  lemma {:induction false} SweepKeepsShortWindows(close: seq<real>, windows: seq<nat>)
    requires Positive(close)
    requires forall i :: 0 <= i < |windows| ==> windows[i] >= 1
    ensures |Sweep(close, windows)| == |WindowsBelow(windows, |close|)|
    ensures forall i :: 0 <= i < |Sweep(close, windows)| ==>
      && Sweep(close, windows)[i].0 == WindowsBelow(windows, |close|)[i]
      && Sweep(close, windows)[i].1.strategy == WindowName(Sweep(close, windows)[i].0)
      && Sweep(close, windows)[i].1.days == |close| - Sweep(close, windows)[i].0
  {
    if |windows| > 0 {
      SweepKeepsShortWindows(close, windows[..|windows| - 1]);
      SweepStepKeeps(close, windows[|windows| - 1]);
    }
  }

  function SweepKeys(results: seq<(nat, DetailedReport)>): (keys: seq<int>)
    ensures |keys| == |results|
    ensures forall i :: 0 <= i < |results| ==> keys[i] == DisplayedPercent(results[i].1.totalReturn)
  {
    seq(|results|, i requires 0 <= i < |results| => DisplayedPercent(results[i].1.totalReturn))
  }

  /** The loop of `parameter_optimization()`: each window's report is appended, with its window, when it is not empty. */
  method CollectSweep(close: seq<real>, windows: seq<nat>) returns (results: seq<(nat, DetailedReport)>)
    requires Positive(close)
    ensures results == Sweep(close, windows)
  {
    results := [];
    for i := 0 to |windows|
      invariant results == Sweep(close, windows[..i])
    {
      assert windows[..i + 1][..i] == windows[..i];
      var window := windows[i];
      MomentumAdmissible(close, window, DefaultFee);
      var metrics := CalcDetailedMetrics(BacktestMomentum(close, window, DefaultFee), WindowName(window));
      if metrics.Some? {
        results := results + [(window, metrics.value)];
      }
    }
    assert windows[..|windows|] == windows;
  }

  /** No window is shorter than the series exactly when every window is at least as long. */
  lemma {:induction false} NoWindowBelow(windows: seq<nat>, n: nat)
    ensures WindowsBelow(windows, n) == [] <==> forall i :: 0 <= i < |windows| ==> windows[i] >= n
  {
    if |windows| > 0 {
      NoWindowBelow(windows[..|windows| - 1], n);
      assert forall i :: 0 <= i < |windows| - 1 ==> windows[..|windows| - 1][i] == windows[i];
    }
  }

  /**
   * The sweep over any windows of at least one row: the reports of the windows shorter than
   * the series, and the index of the best one by displayed total return.
   */
  method SweepBest(close: seq<real>, windows: seq<nat>) returns (results: seq<(nat, DetailedReport)>, best: Option<nat>)
    requires Positive(close)
    requires forall i :: 0 <= i < |windows| ==> windows[i] >= 1
    ensures results == Sweep(close, windows)
    ensures |results| == |WindowsBelow(windows, |close|)|
    ensures forall i :: 0 <= i < |results| ==> results[i].0 == WindowsBelow(windows, |close|)[i]
    ensures best.None? <==> forall i :: 0 <= i < |windows| ==> windows[i] >= |close|
    ensures best.Some? ==> FirstMaximal(SweepKeys(results), best.value)
  {
    results := CollectSweep(close, windows);
    SweepKeepsShortWindows(close, windows);
    NoWindowBelow(windows, |close|);
    if |results| == 0 {
      best := None;
    } else {
      var k := BestIndex(SweepKeys(results));
      best := Some(k);
    }
  }

  /** The shortest swept window is 5 rows. */
  lemma ShortestWindow(n: nat)
    ensures (forall i :: 0 <= i < |Windows| ==> Windows[i] >= n) <==> n <= 5
  {
    assert Windows[0] == 5;
  }

  /**
   * `parameter_optimization()` on a price series: windows 5, 10, 20, 30 and 50; a series of at
   * most 5 rows leaves every report empty and no best window.
   */
  method ParameterOptimization(close: seq<real>) returns (results: seq<(nat, DetailedReport)>, best: Option<nat>)
    requires Positive(close)
    ensures results == Sweep(close, Windows)
    ensures |results| == |WindowsBelow(Windows, |close|)|
    ensures forall i :: 0 <= i < |results| ==> results[i].0 == WindowsBelow(Windows, |close|)[i]
    ensures best.None? <==> |close| <= 5
    ensures best.Some? ==> FirstMaximal(SweepKeys(results), best.value)
  {
    results, best := SweepBest(close, Windows);
    ShortestWindow(|close|);
  }
}
