/**
 * The first, minimal script: the shared momentum backtest and a metric summary with no guard
 * against an empty frame.
 */
module PandasBacktest {
  import opened Engine
  import opened Metrics

  /** The figures `calc_metrics` formats that do not need a power or a square root. */
  datatype Summary = Summary(years: real, maxDrawdown: real, winRate: real)

  /**
   * `calc_metrics(df)`: the frame after `dropna()` must keep a row, since the last equity
   * value is read with `iloc[-1]`. The year count is then positive, the maximum drawdown is
   * at most 0 (and 0 exactly when the curve never fell below a previous high), and the win
   * rate lies in [0, 1].
   */
  function CalcMetrics(run: Run): (r: Summary)
    requires Admissible(run) && DropNa(run) != []
    ensures r.years > 0.0 && r.years * 252.0 == |DropNa(run)| as real
    ensures r.maxDrawdown == MaxDrawdown(Equity(DropNa(run))) && r.winRate == WinRate(DropNa(run))
    ensures r.maxDrawdown <= 0.0
    ensures DropNa(run)[0].equity > 0.0 ==> (r.maxDrawdown == 0.0 <==> NonDecreasing(Equity(DropNa(run))))
    ensures 0.0 <= r.winRate <= 1.0
  {
    var rows := DropNa(run);
    SummaryRanges(rows);
    Summary(|rows| as real / 252.0, MaxDrawdown(Equity(rows)), WinRate(rows))
  }
}
