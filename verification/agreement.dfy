/**
 * The three scripts compute the shared figures the same way: on the same backtest frame the
 * detailed report, the exchange-data summary and the minimal summary agree.
 */
module ScriptAgreement {
  import opened Engine
  import opened Metrics
  import Optimized
  import Akshare
  import PandasBacktest

  /**
   * On a frame that keeps a row, the three metric functions report the same total return,
   * maximum drawdown and win rate; the year counts differ only by the 0.1-year floor of the
   * detailed report, which matters below 26 rows.
   */
  lemma ReportsAgree(run: Run, name: string)
    requires Admissible(run) && DropNa(run) != []
    ensures
      var d := Optimized.CalcDetailedMetrics(run, name).value;
      var a := Akshare.CalcMetrics(run);
      var p := PandasBacktest.CalcMetrics(run);
      && a.Summary?
      && d.days == a.days
      && d.totalReturn == a.totalReturn
      && d.maxDrawdown == a.maxDrawdown == p.maxDrawdown
      && d.winRate == a.winRate == p.winRate
      && d.years >= p.years
      && (d.days >= 26 ==> d.years == p.years)
  {
    YearsFloor(|DropNa(run)|);
  }
}
