/**
 * The exactly computable part of the metric reports: `dropna()`, total return, the
 * running-max drawdown, win rate, trade count and the years floor.
 */
module Metrics {
  import opened Wrappers
  import opened Series
  import opened Engine

  /** A row that survives `dropna()`, reduced to the columns the metrics read. */
  datatype Row = Row(net: real, trade: real, equity: real)

  /** Row t has no NaN in any column. */
  predicate Complete(run: Run, t: nat)
    requires run.Aligned() && t < |run.close|
  {
    run.indicators[t] && run.ret[t].Some? && run.strategyRet[t].Some? && run.trade[t].Some? && run.net[t].Some?
  }

  function RowAt(run: Run, t: nat): Row
    requires run.Aligned() && t < |run.close| && Complete(run, t)
  {
    Row(run.net[t].value, run.trade[t].value, run.cumStrategy[t])
  }

  /** `dropna()` over the first n rows, keeping the order. */
  function KeptUpTo(run: Run, n: nat): (rows: seq<Row>)
    requires run.Aligned() && n <= |run.close|
    ensures |rows| <= n
  {
    if n == 0 then []
    else KeptUpTo(run, n - 1) + (if Complete(run, n - 1) then [RowAt(run, n - 1)] else [])
  }

  /** `df.dropna()` */
  function DropNa(run: Run): (rows: seq<Row>)
    requires run.Aligned()
    ensures |rows| <= |run.close|
  {
    KeptUpTo(run, |run.close|)
  }

  /**
   * The complete rows among the first n, in increasing order: every complete row below n
   * appears, and nothing else.
   */
  function CompleteUpTo(run: Run, n: nat): (idx: seq<nat>)
    requires run.Aligned() && n <= |run.close|
    ensures forall i :: 0 <= i < |idx| ==> idx[i] < n && Complete(run, idx[i])
    ensures forall i, j :: 0 <= i < j < |idx| ==> idx[i] < idx[j]
    ensures forall t :: 0 <= t < n && Complete(run, t) ==> t in idx
  {
    if n == 0 then []
    else CompleteUpTo(run, n - 1) + (if Complete(run, n - 1) then [n - 1] else [])
  }

  /** `dropna()` over the first n rows keeps row `CompleteUpTo(run, n)[i]` as its i-th row. */
  lemma {:induction false} KeptIsFilter(run: Run, n: nat)
    requires run.Aligned() && n <= |run.close|
    ensures |KeptUpTo(run, n)| == |CompleteUpTo(run, n)|
    ensures forall i :: 0 <= i < |KeptUpTo(run, n)| ==> KeptUpTo(run, n)[i] == RowAt(run, CompleteUpTo(run, n)[i])
  {
    if n > 0 {
      KeptIsFilter(run, n - 1);
    }
  }

  /**
   * `dropna()` keeps exactly the complete rows, in their order, whatever rows are missing
   * values: its i-th row is the i-th complete row of the frame, and no row before the first
   * kept one is complete.
   */
  lemma DropNaKeepsCompleteRows(run: Run)
    requires run.Aligned()
    ensures var idx := CompleteUpTo(run, |run.close|);
      && |DropNa(run)| == |idx|
      && (forall i :: 0 <= i < |idx| ==> DropNa(run)[i] == RowAt(run, idx[i]))
      && (|idx| > 0 ==> forall t :: 0 <= t < idx[0] ==> !Complete(run, t))
  {
    KeptIsFilter(run, |run.close|);
  }

  /**
   * When the complete rows are exactly those from row m on, `dropna()` keeps rows m, m+1, ...
   * in order, and nothing when m is past the end.
   */
  lemma {:induction false} KeptFrom(run: Run, m: nat, n: nat)
    requires run.Aligned() && n <= |run.close|
    requires forall t :: 0 <= t < |run.close| ==> (Complete(run, t) <==> m <= t)
    ensures |KeptUpTo(run, n)| == (if m < n then n - m else 0)
    ensures forall i :: 0 <= i < |KeptUpTo(run, n)| ==> KeptUpTo(run, n)[i] == RowAt(run, m + i)
  {
    if n > 0 {
      KeptFrom(run, m, n - 1);
    }
  }

  function Equity(rows: seq<Row>): (e: seq<real>)
    ensures |e| == |rows|
    ensures forall i :: 0 <= i < |rows| ==> e[i] == rows[i].equity
  {
    seq(|rows|, i requires 0 <= i < |rows| => rows[i].equity)
  }

  function Max(a: real, b: real): real {
    if a >= b then a else b
  }

  function Min(a: real, b: real): real {
    if a <= b then a else b
  }

  /** `equity.cummax()` on row t. */
  function RunningMax(e: seq<real>, t: nat): real
    requires t < |e|
  {
    if t == 0 then e[0] else Max(RunningMax(e, t - 1), e[t])
  }

  /** The running max is the peak so far: at least every earlier value, and equal to one of them. */
  lemma {:induction false} RunningMaxIsPeak(e: seq<real>, t: nat)
    requires t < |e|
    ensures forall i :: 0 <= i <= t ==> e[i] <= RunningMax(e, t)
    ensures exists i :: 0 <= i <= t && e[i] == RunningMax(e, t)
  {
    if t > 0 {
      RunningMaxIsPeak(e, t - 1);
      if RunningMax(e, t - 1) < e[t] {
        assert e[t] == RunningMax(e, t);
      } else {
        var j :| 0 <= j <= t - 1 && e[j] == RunningMax(e, t - 1);
        assert e[j] == RunningMax(e, t);
      }
    } else {
      assert e[0] == RunningMax(e, 0);
    }
  }

  /** The drawdown ratio `equity / cummax - 1` is a number on every row (the peak is never 0). */
  predicate PeaksNonZero(e: seq<real>) {
    forall t :: 0 <= t < |e| ==> RunningMax(e, t) != 0.0
  }

  function DrawdownAt(e: seq<real>, t: nat): real
    requires PeaksNonZero(e) && t < |e|
  {
    e[t] / RunningMax(e, t) - 1.0
  }

  function LowestDrawdown(e: seq<real>, t: nat): real
    requires PeaksNonZero(e) && t < |e|
  {
    if t == 0 then DrawdownAt(e, 0) else Min(LowestDrawdown(e, t - 1), DrawdownAt(e, t))
  }

  /** `drawdown.min()` */
  function MaxDrawdown(e: seq<real>): (d: real)
    requires |e| > 0 && PeaksNonZero(e)
    ensures forall t :: 0 <= t < |e| ==> d <= DrawdownAt(e, t)
    ensures exists t :: 0 <= t < |e| && d == DrawdownAt(e, t)
  {
    LowestDrawdownIsMin(e, |e| - 1);
    LowestDrawdown(e, |e| - 1)
  }

  /** The lowest drawdown up to row t is the minimum of the drawdowns of rows 0..t. */
  lemma {:induction false} LowestDrawdownIsMin(e: seq<real>, t: nat)
    requires PeaksNonZero(e) && t < |e|
    ensures forall i :: 0 <= i <= t ==> LowestDrawdown(e, t) <= DrawdownAt(e, i)
    ensures exists i :: 0 <= i <= t && LowestDrawdown(e, t) == DrawdownAt(e, i)
  {
    if t > 0 {
      LowestDrawdownIsMin(e, t - 1);
      if DrawdownAt(e, t) < LowestDrawdown(e, t - 1) {
        assert LowestDrawdown(e, t) == DrawdownAt(e, t);
      } else {
        var j :| 0 <= j <= t - 1 && LowestDrawdown(e, t - 1) == DrawdownAt(e, j);
        assert LowestDrawdown(e, t) == DrawdownAt(e, j);
      }
    } else {
      assert LowestDrawdown(e, 0) == DrawdownAt(e, 0);
    }
  }

  lemma {:induction false} LowestDrawdownBelowFirst(e: seq<real>, t: nat)
    requires PeaksNonZero(e) && t < |e|
    ensures LowestDrawdown(e, t) <= DrawdownAt(e, 0)
  {
    if t > 0 {
      LowestDrawdownBelowFirst(e, t - 1);
    }
  }

  /** The maximum drawdown is never positive: the first kept row is its own peak. */
  lemma MaxDrawdownNonPositive(e: seq<real>)
    requires |e| > 0 && PeaksNonZero(e)
    ensures MaxDrawdown(e) <= 0.0
  {
    LowestDrawdownBelowFirst(e, |e| - 1);
    assert RunningMax(e, 0) == e[0];
  }

  predicate NonDecreasing(e: seq<real>) {
    forall i :: 0 < i < |e| ==> e[i - 1] <= e[i]
  }

  /** Every row up to t sits at its running peak. */
  predicate AtPeakUpTo(e: seq<real>, t: nat)
    requires t < |e|
  {
    forall i :: 0 <= i <= t ==> e[i] == RunningMax(e, i)
  }

  lemma {:induction false} AtPeakIffNonDecreasing(e: seq<real>, t: nat)
    requires t < |e|
    ensures AtPeakUpTo(e, t) <==> forall i :: 0 < i <= t ==> e[i - 1] <= e[i]
  {
    if t > 0 {
      AtPeakIffNonDecreasing(e, t - 1);
      if AtPeakUpTo(e, t) {
        assert e[t - 1] == RunningMax(e, t - 1);
        assert e[t] == RunningMax(e, t);
      }
      if forall i :: 0 < i <= t ==> e[i - 1] <= e[i] {
        assert AtPeakUpTo(e, t - 1);
        assert RunningMax(e, t) == Max(e[t - 1], e[t]);
      }
    }
  }

  /** Under a positive peak, a row's drawdown is at most 0, and exactly 0 when the row is at its peak. */
  lemma DrawdownAtPeak(e: seq<real>, t: nat)
    requires PeaksNonZero(e) && t < |e| && RunningMax(e, t) > 0.0
    ensures DrawdownAt(e, t) <= 0.0
    ensures DrawdownAt(e, t) == 0.0 <==> e[t] == RunningMax(e, t)
  {
    RunningMaxIsPeak(e, t);
    var m, d := RunningMax(e, t), DrawdownAt(e, t);
    assert e[t] == (d + 1.0) * m;
    assert e[t] - m == d * m;
    ProductSign(d, m);
  }

  lemma {:induction false} LowestDrawdownZero(e: seq<real>, t: nat)
    requires PeaksNonZero(e) && t < |e| && e[0] > 0.0
    ensures LowestDrawdown(e, t) == 0.0 <==> AtPeakUpTo(e, t)
  {
    RunningMaxIsPeak(e, t);
    assert RunningMax(e, 0) == e[0];
    DrawdownAtPeak(e, t);
    if t > 0 {
      LowestDrawdownZero(e, t - 1);
      LowestDrawdownBelowFirst(e, t - 1);
      DrawdownAtPeak(e, 0);
      assert AtPeakUpTo(e, t) <==> AtPeakUpTo(e, t - 1) && e[t] == RunningMax(e, t);
    }
  }

  /**
   * With a positive first kept equity, the maximum drawdown is 0 exactly when the equity
   * curve never decreases over the kept rows.
   */
  lemma MaxDrawdownZeroIffNonDecreasing(e: seq<real>)
    requires |e| > 0 && PeaksNonZero(e) && e[0] > 0.0
    ensures MaxDrawdown(e) == 0.0 <==> NonDecreasing(e)
  {
    LowestDrawdownZero(e, |e| - 1);
    AtPeakIffNonDecreasing(e, |e| - 1);
  }

  /** A positive first value keeps every peak positive. */
  lemma PeaksPositive(e: seq<real>)
    requires |e| > 0 && e[0] > 0.0
    ensures PeaksNonZero(e)
  {
    forall t | 0 <= t < |e|
      ensures RunningMax(e, t) > 0.0
    {
      RunningMaxIsPeak(e, t);
    }
  }

  /** The number of rows whose return after fees is strictly positive. */
  function PositiveCount(rows: seq<Row>): nat {
    if |rows| == 0 then 0
    else PositiveCount(rows[..|rows| - 1]) + (if rows[|rows| - 1].net > 0.0 then 1 else 0)
  }

  lemma {:induction false} PositiveCountBounds(rows: seq<Row>)
    ensures PositiveCount(rows) <= |rows|
    ensures PositiveCount(rows) == 0 <==> forall i :: 0 <= i < |rows| ==> rows[i].net <= 0.0
    ensures PositiveCount(rows) == |rows| <==> forall i :: 0 <= i < |rows| ==> rows[i].net > 0.0
  {
    if |rows| > 0 {
      var init := rows[..|rows| - 1];
      PositiveCountBounds(init);
      assert forall i :: 0 <= i < |init| ==> init[i] == rows[i];
    }
  }

  /** `(net > 0).mean()` */
  function WinRate(rows: seq<Row>): (w: real)
    requires |rows| > 0
    ensures w * |rows| as real == PositiveCount(rows) as real
  {
    PositiveCount(rows) as real / |rows| as real
  }

  /**
   * The win rate is a fraction in [0, 1]: 0 exactly when no kept row gains, 1 exactly when
   * every kept row gains.
   */
  lemma WinRateBounds(rows: seq<Row>)
    requires |rows| > 0
    ensures 0.0 <= WinRate(rows) <= 1.0
    ensures WinRate(rows) == 0.0 <==> forall i :: 0 <= i < |rows| ==> rows[i].net <= 0.0
    ensures WinRate(rows) == 1.0 <==> forall i :: 0 <= i < |rows| ==> rows[i].net > 0.0
  {
    PositiveCountBounds(rows);
    FractionBounds(PositiveCount(rows) as real, |rows| as real);
  }

  /** A count c out of n > 0 gives a fraction in [0, 1] that is 0 only for c = 0 and 1 only for c = n. */
  lemma FractionBounds(c: real, n: real)
    requires 0.0 <= c <= n && n > 0.0
    ensures 0.0 <= c / n <= 1.0
    ensures c / n == 0.0 <==> c == 0.0
    ensures c / n == 1.0 <==> c == n
  {
    var f := c / n;
    assert f * n == c;
    ProductSign(f, n);
    assert (f - 1.0) * n == c - n;
    ProductSign(f - 1.0, n);
    ProductSign(1.0 - f, n);
  }

  /** Rows that never move the equity off 1 and never gain: no drawdown and no winning day. */
  lemma FlatRows(rows: seq<Row>)
    requires |rows| > 0
    requires forall i :: 0 <= i < |rows| ==> rows[i].equity == 1.0 && rows[i].net == 0.0
    ensures PeaksNonZero(Equity(rows)) && MaxDrawdown(Equity(rows)) == 0.0 && WinRate(rows) == 0.0
  {
    var e := Equity(rows);
    PeaksPositive(e);
    MaxDrawdownZeroIffNonDecreasing(e);
    WinRateBounds(rows);
  }

  /** `trade.sum()` over the kept rows. */
  function TotalTrades(rows: seq<Row>): (sum: real)
    ensures (forall i :: 0 <= i < |rows| ==> rows[i].trade >= 0.0) ==> sum >= 0.0
  {
    if |rows| == 0 then 0.0 else TotalTrades(rows[..|rows| - 1]) + rows[|rows| - 1].trade
  }

  /** Every row's trade size lies in [0, m]. */
  predicate TradesWithin(rows: seq<Row>, m: real) {
    forall i :: 0 <= i < |rows| ==> 0.0 <= rows[i].trade <= m
  }

  /** When every kept trade lies in [0, m], the trade count lies in [0, m * rows]. */
  lemma {:induction false} TotalTradesBounded(rows: seq<Row>, m: real)
    requires TradesWithin(rows, m)
    ensures 0.0 <= TotalTrades(rows) <= m * |rows| as real
  {
    if |rows| > 0 {
      var init := rows[..|rows| - 1];
      assert forall i :: 0 <= i < |init| ==> init[i] == rows[i];
      TotalTradesBounded(init, m);
      assert m * |rows| as real == m * |init| as real + m;
    }
  }

  /** `max(total_days / 252, 0.1)` */
  function Years(days: nat): (y: real)
    ensures y >= 0.1 && y >= days as real / 252.0
    ensures y == 0.1 || y == days as real / 252.0
  {
    Max(days as real / 252.0, 0.1)
  }

  /**
   * The floor keeps a run of any length, even a single row, at one tenth of a year or more:
   * it is exactly 0.1 years below 26 rows and days / 252 from there on.
   */
  lemma YearsFloor(days: nat)
    ensures Years(days) >= 0.1 && Years(days) >= days as real / 252.0
    ensures days < 26 ==> Years(days) == 0.1
    ensures days >= 26 ==> Years(days) == days as real / 252.0
  {
  }

  /** The metrics exist and can be computed without dividing by a zero running maximum. */
  predicate Admissible(run: Run) {
    run.Aligned() && PeaksNonZero(Equity(DropNa(run)))
  }

  /**
   * A run that holds no position before its first complete row, and positions in [-1, 1],
   * is admissible for any fee below 1: its first kept equity value is 1 minus the entry fee.
   */
  lemma FlatBeforeFirstRowAdmissible(close: seq<real>, signal: seq<int>, indicators: seq<bool>, fee: real)
    requires Positive(close) && |signal| == |close| && |indicators| == |close| && 0.0 <= fee < 1.0
    requires forall t :: 0 <= t < |close| ==> -1 <= signal[t] <= 1
    requires forall t :: 0 <= t < |close| && signal[t] != 0 ==> 1 <= t && indicators[t]
    ensures Admissible(Backtest(close, signal, indicators, fee))
  {
    var r := Backtest(close, signal, indicators, fee);
    var rows := DropNa(r);
    DropNaKeepsCompleteRows(r);
    if |rows| > 0 {
      var idx := CompleteUpTo(r, |close|);
      var m := idx[0];
      assert Complete(r, m);
      forall t | 0 <= t < m
        ensures signal[t] == 0
      {
        assert !Complete(r, t);
        if 1 <= t {
          assert r.ret[t].Some? && r.strategyRet[t].Some? && r.trade[t].Some? && r.net[t].Some?;
        }
      }
      EntryCostsOnlyFee(close, signal, indicators, fee, m);
      assert rows[0].equity == r.cumStrategy[m];
      PeaksPositive(Equity(rows));
    }
  }

  /**
   * The drawdown and win-rate figures every script reports: a drawdown of at most 0 that is 0
   * exactly when the curve never falls below a previous high (for a curve starting above 0),
   * and a win rate in [0, 1].
   */
  lemma SummaryRanges(rows: seq<Row>)
    requires |rows| > 0 && PeaksNonZero(Equity(rows))
    ensures MaxDrawdown(Equity(rows)) <= 0.0
    ensures rows[0].equity > 0.0 ==> (MaxDrawdown(Equity(rows)) == 0.0 <==> NonDecreasing(Equity(rows)))
    ensures 0.0 <= WinRate(rows) <= 1.0
  {
    MaxDrawdownNonPositive(Equity(rows));
    WinRateBounds(rows);
    if rows[0].equity > 0.0 {
      MaxDrawdownZeroIffNonDecreasing(Equity(rows));
    }
  }
}
