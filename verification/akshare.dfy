/**
 * The single-strategy script over the exchange data: the shared momentum backtest and a
 * metric summary that reports an error entry for an empty frame.
 */
module Akshare {
  import opened Engine
  import opened Metrics

  /** The error text of an empty frame ("data is empty"). */
  const EmptyData: string := "数据为空"

  /** The dictionary `calc_metrics` returns: the error entry, or the figures it formats. */
  datatype Outcome =
    | Failure(reason: string)
    | Summary(days: nat, totalReturn: real, maxDrawdown: real, winRate: real, finalValue: real)

  /**
   * `calc_metrics(df)`: after `dropna()`, an empty frame gives the error entry; otherwise the
   * number of rows, the last equity value and the total return derived from it, the maximum
   * drawdown (at most 0, and 0 exactly when the curve never fell below a previous high) and
   * the share of rows with a positive return after fees.
   */
  function CalcMetrics(run: Run): (r: Outcome)
    requires Admissible(run)
    ensures r.Failure? <==> DropNa(run) == []
    ensures r.Failure? ==> r.reason == EmptyData
    ensures r.Summary? ==>
      var rows := DropNa(run);
      && r.days == |rows| > 0
      && r.finalValue == rows[|rows| - 1].equity
      && r.totalReturn == r.finalValue - 1.0
      && r.maxDrawdown == MaxDrawdown(Equity(rows))
      && r.winRate == WinRate(rows)
      && r.maxDrawdown <= 0.0
      && (rows[0].equity > 0.0 ==> (r.maxDrawdown == 0.0 <==> NonDecreasing(Equity(rows))))
      && 0.0 <= r.winRate <= 1.0
  {
    var rows := DropNa(run);
    if |rows| == 0 then Failure(EmptyData)
    else
      SummaryRanges(rows);
      var finalValue := rows[|rows| - 1].equity;
      Summary(|rows|, finalValue - 1.0, MaxDrawdown(Equity(rows)), WinRate(rows), finalValue)
  }
}
