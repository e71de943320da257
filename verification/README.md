# Momentum backtests on A-share index prices, modelled in Dafny

The repository backtests single-asset strategies on a daily closing-price series of an
A-share index fund. It has three scripts. `backtest_pandas.py` is the first, minimal one.
`backtest_akshare.py` runs the same backtest on exchange data. `backtest_optimized.py`
adds three more strategies and compares all four. It also sweeps the momentum window.

Every strategy ends in the same bookkeeping:

- a position column (`signal`);
- the one-bar return;
- the strategy return, which uses the position of the previous bar;
- the trade size |Δsignal|;
- the return after a fee per unit traded;
- two equity curves: `(1 + r.fillna(0)).cumprod()` of the strategy return and of the benchmark return.

The metrics drop every row with a missing value. They then report:

- the total return, `final equity - 1`;
- the maximum drawdown against the running maximum of the equity curve;
- the win rate, the share of rows with a positive return after fees;
- the trade count;
- whether the Calmar ratio exists;
- the number of years.

The comparison and the sweep keep the non-empty reports. Each picks the first report with the
largest displayed total return.

The model works over exact reals. A pandas NaN is `None`, and a comparison with NaN is false.
The project has these modules:

- `Series`: the pandas column operations (`pct_change`, shift-and-multiply, `diff().abs()`, `fillna(0)` + `cumprod`).
- `Signals`: the four position rules:
  - single-window momentum;
  - fast/slow momentum with a threshold;
  - price+volume momentum;
  - rolling z-score mean reversion.
- `Engine`: the bookkeeping (`Backtest`) and its properties: the one-bar lag, fee charging, fee monotonicity, a flat equity curve without a position, and a positive equity curve.
- `Metrics`: `dropna`, the cummax drawdown, the win rate, the trade count and the year count.
- `MomentumStrategy`: the single-window momentum backtest, which all three scripts define identically.
- `Optimized`: the other three strategies; the mean-reversion signal written in place into an array; `calc_detailed_metrics`; `compare_strategies`; `parameter_optimization`.
- `Akshare` and `PandasBacktest`: the `calc_metrics` of the two smaller scripts.
- `ScriptAgreement`: the three metric functions agree on a common frame.

The mean-reversion rule compares a z-score `d / s` with a threshold `c`, where `s` is the
rolling sample standard deviation. The model does not take a square root. It decides the
comparison on the variance `v = s * s`:

- for `c >= 0`: `d > 0` and `d * d > c * c * v`;
- for `c < 0`: `d >= 0` or `d * d < c * c * v`.

`Signals.ExceedsScaledIsQuotient` proves that this is exactly `d / s > c`.

Behaviour worth noting:

- An empty frame is not an error at backtest time.
  - `calc_detailed_metrics` returns an empty report.
  - The exchange-data script returns an error entry.
  - The minimal script fails when it reads the last row.
- Runs that fail are skipped silently. They are not reported.
- The comparison ranks reports on the total return after it is formatted to two decimals. It does not rank on the exact value.
- The volume series is an input to the model. The script fabricates it from a random generator.

## Model

| member | source | states |
|---|---|---|
| Series.PctChangeAt | quant-momentum-a-shares/src/backtest_optimized.py:52 | row t of `pct_change(k)` is defined exactly from row k on |
| Series.PctChangeRecovers | quant-momentum-a-shares/src/backtest_akshare.py:39-41 | the momentum m on row t is a true relative change: close[t-window]·(1+m) = close[t] |
| Series.PctChangeAboveAll | quant-momentum-a-shares/src/backtest_pandas.py:15-17 | the momentum exceeds c exactly when close[t] > (1+c)·close[t-window] |
| Series.PctChange | quant-momentum-a-shares/src/backtest_optimized.py:52-54 | `pct_change(k)` has one entry per row, and entry t is the relative change over k rows, NaN before row k |
| Series.Growth | quant-momentum-a-shares/src/backtest_optimized.py:60-61 | `cumprod` has one entry per row, and entry t is the product of 1 + r (NaN as 0) over rows 0..t |
| Series.GrowthStep | quant-momentum-a-shares/src/backtest_optimized.py:60 | the cumulative product grows by the factor 1 + r on every row where r is defined |
| Series.CompoundTelescopes | quant-momentum-a-shares/src/backtest_optimized.py:61 | compounding the one-bar price changes gives close[t]/close[0] |
| Series.CompoundOfZeros | quant-momentum-a-shares/src/backtest_optimized.py:60 | compounding a column of zeros (NaN filled with 0) stays at 1 |
| Series.CompoundPositive | quant-momentum-a-shares/src/backtest_optimized.py:60 | compounding returns above -100% keeps the curve strictly positive |
| Series.CompoundMonotone | quant-momentum-a-shares/src/backtest_optimized.py:60 | compounding is monotone in the returns while they stay at or above -100% |
| Engine.Backtest | quant-momentum-a-shares/src/backtest_optimized.py:54-61 | return, strategy return, trade and net columns are NaN on row 0 only; the strategy curve is the cumulative product of 1 + net (NaN as 0), the benchmark curve that of 1 + ret; both start at 1 |
| Engine.RowValues | quant-momentum-a-shares/src/backtest_optimized.py:54-58 | on each row t ≥ 1: ret = close[t]/close[t-1]-1, strategy return = signal[t-1]·ret, trade = \|signal[t]-signal[t-1]\|, net = strategy return - trade·fee |
| Engine.BenchmarkTelescopes | quant-momentum-a-shares/src/backtest_optimized.py:61 | the benchmark curve on row t is close[t]/close[0] |
| Engine.StrategyReturnLag | quant-momentum-a-shares/src/backtest_optimized.py:55 | the strategy return is NaN on row 0 and uses the previous row's position afterwards |
| Engine.NoLookAhead | quant-momentum-a-shares/src/backtest_optimized.py:55 | two position columns that agree on row t-1 give the same strategy return on row t, whatever they hold on row t |
| Engine.TradeBounded | quant-momentum-a-shares/src/backtest_optimized.py:57 | positions within [lo, hi] give trades within [0, hi-lo] |
| Engine.FeeCharge | quant-momentum-a-shares/src/backtest_optimized.py:58 | net = strategy return - \|Δsignal\|·fee, and equals the strategy return when the position is unchanged |
| Engine.NetAntitoneInFee | quant-momentum-a-shares/src/backtest_optimized.py:58 | a larger fee never raises a row's net return |
| Engine.EquityAntitoneInFee | quant-momentum-a-shares/src/backtest_optimized.py:58-60 | a larger fee never raises the strategy curve while net returns stay at or above -100% |
| Engine.FlatWithoutPosition | quant-momentum-a-shares/src/backtest_optimized.py:55-60 | a position column of zeros gives zero net returns and a strategy curve fixed at 1 |
| Engine.EquityPositive | quant-momentum-a-shares/src/backtest_optimized.py:60 | net returns above -100% keep the strategy curve strictly positive |
| Engine.EntryCostsOnlyFee | quant-momentum-a-shares/src/backtest_optimized.py:55-60 | after a flat stretch, the strategy curve on the row a position opens is 1 - \|position\|·fee, positive for positions in [-1,1] and a fee below 1 |
| Engine.FlatPrefixStaysAtOne | quant-momentum-a-shares/src/backtest_optimized.py:55-60 | while the position has been 0 on every row so far, the strategy curve is 1 |
| Engine.NetAfterFlatRow | quant-momentum-a-shares/src/backtest_optimized.py:55-58 | after a row with position 0, the net return is minus the fee on the new position |
| Engine.HeldFromStart | quant-momentum-a-shares/src/backtest_optimized.py:55-60 | a position of 1 on rows 0 and 1 gives strategy equity close[1]/close[0] on row 1, which is positive |
| Engine.LongOnlyNetRow | quant-momentum-a-shares/src/backtest_optimized.py:53-58 | on a row whose two positions are 0/1 and whose price stays above fee × the previous price, the net return is above -100% |
| Engine.LongOnlyNetAboveMinusOne | quant-momentum-a-shares/src/backtest_optimized.py:53-58 | 0/1 positions with a fee in [0,1) lose less than 100% per row when no price falls to fee × the previous price |
| Signals.Momentum | quant-momentum-a-shares/src/backtest_optimized.py:52-53 | the momentum position column has one entry per row, each given by the momentum rule |
| Signals.MomentumRule | quant-momentum-a-shares/src/backtest_optimized.py:52-53 | the momentum position is 0 or 1, and 1 exactly when window ≤ t and close[t] > close[t-window] |
| Signals.FastSlow | quant-momentum-a-shares/src/backtest_optimized.py:76-81 | the fast/slow position column has one entry per row, each given by the fast/slow rule |
| Signals.FastSlowRule | quant-momentum-a-shares/src/backtest_optimized.py:76-81 | the fast/slow position is 0 or 1, 1 exactly when both lookbacks exist and the price beats both earlier prices by more than the threshold, and 0 before the longer lookback |
| Signals.PriceVolume | quant-momentum-a-shares/src/backtest_optimized.py:105-115 | the price+volume position column has one entry per row, each given by the price+volume rule |
| Signals.PriceVolumeRule | quant-momentum-a-shares/src/backtest_optimized.py:105-115 | the price+volume position is 0 or 1, and 1 exactly when the price rose more than 1% over the price window and the volume rose over the volume window |
| Signals.MeanReversion | quant-momentum-a-shares/src/backtest_optimized.py:137-146 | the mean-reversion position column has one entry per row: -1 where the z-score is above the threshold, else 1 where it is below minus the threshold, else 0 |
| Signals.ExceedsScaledIsQuotient | quant-momentum-a-shares/src/backtest_optimized.py:141 | the square-root-free comparison equals the z-score comparison d/s > c for every s > 0 |
| Signals.SquaredDeviationsZero | quant-momentum-a-shares/src/backtest_optimized.py:138 | the sum of squared deviations from m is 0 exactly when every value equals m |
| Signals.VarianceZeroIffFlat | quant-momentum-a-shares/src/backtest_optimized.py:138-141 | the rolling sample variance is ≥ 0, and 0 (a NaN z-score) exactly when the window of prices ending at row t is constant |
| Signals.MeanReversionRange | quant-momentum-a-shares/src/backtest_optimized.py:137-146 | the mean-reversion position is -1, 0 or 1; it is 0 where the z-score is NaN (fewer than window rows, or zero std); it is -1 wherever the z-score is above the threshold, even if it is also below -threshold |
| Signals.MeanReversionRule | quant-momentum-a-shares/src/backtest_optimized.py:144-146 | for a threshold ≥ 0, the position is 1 exactly when z < -threshold and -1 exactly when z > threshold |
| Metrics.DropNa | quant-momentum-a-shares/src/backtest_optimized.py:163 | dropna keeps at most as many rows as the frame has |
| Metrics.CompleteUpTo | quant-momentum-a-shares/src/backtest_optimized.py:163 | the complete rows below n in increasing order: each listed row is complete, and every complete row below n is listed |
| Metrics.KeptIsFilter | quant-momentum-a-shares/src/backtest_optimized.py:163 | dropna over the first n rows keeps, as its i-th row, the i-th complete row |
| Metrics.DropNaKeepsCompleteRows | quant-momentum-a-shares/src/backtest_optimized.py:163 | for any pattern of missing values, dropna keeps exactly the complete rows in order, and no row before the first kept one is complete |
| Metrics.KeptFrom | quant-momentum-a-shares/src/backtest_optimized.py:163 | when the complete rows are exactly those from row m on, dropna keeps rows m, m+1, … in order, and nothing when m is past the end |
| Metrics.RunningMaxIsPeak | quant-momentum-a-shares/src/backtest_optimized.py:184 | the running maximum is at least every earlier value and equals one of them |
| Metrics.MaxDrawdown | quant-momentum-a-shares/src/backtest_optimized.py:184-186 | the maximum drawdown is the smallest drawdown of any row: at most every row's and equal to one of them |
| Metrics.MaxDrawdownNonPositive | quant-momentum-a-shares/src/backtest_optimized.py:184-186 | the maximum drawdown is at most 0 |
| Metrics.MaxDrawdownZeroIffNonDecreasing | quant-momentum-a-shares/src/backtest_optimized.py:184-186 | for a curve that starts above 0, the maximum drawdown is 0 exactly when the curve never falls |
| Metrics.PeaksPositive | quant-momentum-a-shares/src/backtest_optimized.py:184-185 | a curve that starts above 0 has a positive running maximum everywhere, so the drawdown division is defined |
| Metrics.FlatBeforeFirstRowAdmissible | quant-momentum-a-shares/src/backtest_optimized.py:184-185 | a run that holds no position before its first complete row, with positions in [-1,1] and a fee in [0,1), has non-zero peaks on its kept equity curve |
| Metrics.PositiveCountBounds | quant-momentum-a-shares/src/backtest_optimized.py:189 | the number of winning rows is at most the row count; it is 0 exactly when no row wins and the row count exactly when every row wins |
| Metrics.WinRate | quant-momentum-a-shares/src/backtest_optimized.py:189 | the win rate times the row count is the number of rows with a positive net return |
| Metrics.WinRateBounds | quant-momentum-a-shares/src/backtest_optimized.py:189 | the win rate lies in [0,1]; it is 0 exactly when no row gains and 1 exactly when every row gains |
| Metrics.FlatRows | quant-momentum-a-shares/src/backtest_optimized.py:184-190 | rows with equity 1 and zero returns have drawdown 0 and win rate 0 |
| Metrics.TotalTrades | quant-momentum-a-shares/src/backtest_optimized.py:190 | the trade count is non-negative when every trade size is |
| Metrics.TotalTradesBounded | quant-momentum-a-shares/src/backtest_optimized.py:190 | trades within [0, m] per row sum to between 0 and m × rows |
| Metrics.Years | quant-momentum-a-shares/src/backtest_optimized.py:169 | the year count is the larger of 0.1 and days/252: at least both, and equal to one of them |
| Metrics.YearsFloor | quant-momentum-a-shares/src/backtest_optimized.py:168-169 | the year count is at least 0.1 and at least days/252; it is exactly 0.1 below 26 rows and exactly days/252 from 26 rows on |
| Metrics.SummaryRanges | quant-momentum-a-shares/src/backtest_akshare.py:82-86 | drawdown ≤ 0, 0 exactly when the curve never falls (for a curve starting above 0), and win rate in [0,1] |
| MomentumStrategy.BacktestMomentum | quant-momentum-a-shares/src/backtest_optimized.py:49-63 | the frame keeps the prices, its position column is the momentum rule over the window, and its indicator is ready exactly from the window on; `backtest_akshare.py:44-60` and `backtest_pandas.py:20-32` define the same backtest |
| MomentumStrategy.MomentumRun | quant-momentum-a-shares/src/backtest_optimized.py:49-63 | momentum positions are 0/1 and trades lie in [0,1] |
| MomentumStrategy.KeptAfterWarmup | quant-momentum-a-shares/src/backtest_optimized.py:163 | a frame whose indicators are ready from the lookback on keeps, after dropna, exactly the rows from max(lookback, 1) on, in order and with their values |
| MomentumStrategy.FlatMomentum | quant-momentum-a-shares/src/backtest_akshare.py:44-60 | on constant prices the momentum position never opens, net returns are 0 and the strategy curve stays at 1 |
| MomentumStrategy.ConstantPricesStayFlat | quant-momentum-a-shares/src/backtest_pandas.py:35-46 | on constant prices the metrics report a maximum drawdown of 0 and a win rate of 0 |
| MomentumStrategy.MomentumAdmissible | quant-momentum-a-shares/src/backtest_optimized.py:184-185 | every momentum run with a fee in [0,1) has a well-defined drawdown: every running peak of the kept equity curve is non-zero |
| Optimized.OptimizedMomentumStrategy | quant-momentum-a-shares/src/backtest_optimized.py:66-95 | the frame keeps the prices, its position column is the fast/slow rule, and its indicators are ready exactly from the longer lookback on |
| Optimized.OptimizedMomentumRun | quant-momentum-a-shares/src/backtest_optimized.py:66-95 | fast/slow positions are 0/1, trades at most 1, and dropna keeps the rows from the longer lookback on |
| Optimized.OptimizedMomentumAdmissible | quant-momentum-a-shares/src/backtest_optimized.py:66-95 | every fast/slow run, for any lookbacks and threshold, has a well-defined drawdown |
| Optimized.FastSlowHeldFromStart | quant-momentum-a-shares/src/backtest_optimized.py:76-81 | with both lookbacks 0 and a negative threshold the run (held from row 0) still has a well-defined drawdown |
| Optimized.FastSlowHeldRow | quant-momentum-a-shares/src/backtest_optimized.py:76-81 | with both lookbacks 0 and a negative threshold the position is 1 on every row |
| Optimized.DualMomentumStrategy | quant-momentum-a-shares/src/backtest_optimized.py:98-127 | the frame keeps the prices, its position column is the price+volume rule, and its indicators are ready exactly from the longer window on |
| Optimized.DualMomentumRun | quant-momentum-a-shares/src/backtest_optimized.py:98-127 | price+volume positions are 0/1, trades at most 1, and dropna keeps the rows from the longer lookback on |
| Optimized.DualMomentumAdmissible | quant-momentum-a-shares/src/backtest_optimized.py:98-127 | every price+volume run, for any windows and positive volumes, has a well-defined drawdown |
| Optimized.MeanReversionRun | quant-momentum-a-shares/src/backtest_optimized.py:130-158 | the frame keeps the prices, its position column is the mean-reversion rule, and its indicator is ready exactly where the z-score is defined |
| Optimized.MeanReversionAdmissible | quant-momentum-a-shares/src/backtest_optimized.py:130-158 | every mean-reversion run, for any window and threshold, has a well-defined drawdown |
| Optimized.MeanReversionStrategy | quant-momentum-a-shares/src/backtest_optimized.py:130-158 | the signal is zeroed, set to 1 where z < -threshold, then to -1 where z > threshold; the returned frame equals the bookkeeping over that signal at fee 0.001, with positions in [-1,1] |
| Optimized.MeanReversionTrades | quant-momentum-a-shares/src/backtest_optimized.py:144-152 | mean-reversion trades lie in [0,2], and a series shorter than the window keeps no row after dropna |
| Optimized.Truncate | quant-momentum-a-shares/src/backtest_optimized.py:203 | `int()` truncates toward zero: the result lies within one unit of the value, on the side of 0 |
| Optimized.CalcDetailedMetrics | quant-momentum-a-shares/src/backtest_optimized.py:161-204 | the report is empty exactly when dropna leaves no row; otherwise it carries the strategy name, the row count, years = Years(days), total return = last equity - 1, drawdown = MaxDrawdown of the kept curve, win rate = WinRate of the kept rows, the truncated trade sum, and Calmar "N/A" exactly when the drawdown is 0 or the annual return is NaN |
| Optimized.DetailedMetricsRanges | quant-momentum-a-shares/src/backtest_optimized.py:168-204 | years ≥ 0.1 and ≥ days/252; drawdown ≤ 0; win rate in [0,1]; for a curve starting above 0, Calmar is N/A exactly when the curve never falls below a previous high or the annual return is NaN (a negative final value raised to a non-whole power 1/years, i.e. days ≥ 26 and days not dividing 252) |
| Optimized.WholeExponentDays | quant-momentum-a-shares/src/backtest_optimized.py:169-173 | the exponent 1/years is a whole number exactly when days < 26 or days divides 252 |
| Optimized.WholeQuotient | quant-momentum-a-shares/src/backtest_optimized.py:173 | a/b is a whole number exactly when b divides a |
| Optimized.TradeCountBounded | quant-momentum-a-shares/src/backtest_optimized.py:190-203 | with trades in [0, m] on every kept row, the reported trade count lies in [0, m × days] |
| Optimized.DisplayedPercent | quant-momentum-a-shares/src/backtest_optimized.py:197 | the two-decimal percentage, in hundredths of a percent, is within half a unit of the exact value × 10000 |
| Optimized.DisplayedPercentRounds | quant-momentum-a-shares/src/backtest_optimized.py:197 | rounding to the display keeps the order of the exact values |
| Optimized.FirstMaximalUnique | quant-momentum-a-shares/src/backtest_optimized.py:245 | the first maximal entry is unique |
| Optimized.BestIndex | quant-momentum-a-shares/src/backtest_optimized.py:245 | `max` with a key returns the first entry with the largest key |
| Optimized.BestIsNearlyBest | quant-momentum-a-shares/src/backtest_optimized.py:245 | no report's exact total return exceeds the chosen one's by 0.0001 or more |
| Optimized.ReportsSkipEmpty | quant-momentum-a-shares/src/backtest_optimized.py:228-236 | the table has at most one report per run and only reports with rows |
| Optimized.ReportsAllKept | quant-momentum-a-shares/src/backtest_optimized.py:228-236 | when no run is empty, the table has one report per run and report i carries run i's name |
| Optimized.ReportsNoneKept | quant-momentum-a-shares/src/backtest_optimized.py:228-236 | when every run is empty, the table is empty |
| Optimized.CollectReports | quant-momentum-a-shares/src/backtest_optimized.py:228-236 | the loop appends each non-empty report in order |
| Optimized.StrategyRuns | quant-momentum-a-shares/src/backtest_optimized.py:221-226 | the comparison runs four strategies, and on every positive price and volume series each of them has a well-defined drawdown |
| Optimized.CompareStrategies | quant-momentum-a-shares/src/backtest_optimized.py:208-247 | the table is the non-empty reports of the four strategies in order; there is a best pick exactly when the table is non-empty, and it is the first report with the largest displayed total return |
| Optimized.DecimalStringRoundTrip | quant-momentum-a-shares/src/backtest_optimized.py:293 | the window's decimal text has only digits, no leading zero, and reads back as the window |
| Optimized.WindowName | quant-momentum-a-shares/src/backtest_optimized.py:293 | the name is "Momentum_", the window's decimal digits, then "days", and the text between the two reads back as the window |
| Optimized.WindowNameInjective | quant-momentum-a-shares/src/backtest_optimized.py:293 | different windows get different strategy names |
| Optimized.SweepKeepsShortWindows | quant-momentum-a-shares/src/backtest_optimized.py:291-297 | the sweep reports exactly the windows shorter than the series, in order, each under its own name and over \|close\| - window rows |
| Optimized.SweepStepKeeps | quant-momentum-a-shares/src/backtest_optimized.py:292-297 | a window of at least one row gets a report exactly when it is shorter than the series; the entry carries the window, its name and \|close\| - window rows |
| Optimized.CollectSweep | quant-momentum-a-shares/src/backtest_optimized.py:291-297 | the loop appends (window, report) for each non-empty report in order |
| Optimized.NoWindowBelow | quant-momentum-a-shares/src/backtest_optimized.py:294 | no report survives exactly when every window is at least as long as the series |
| Optimized.SweepBest | quant-momentum-a-shares/src/backtest_optimized.py:291-302 | the sweep results are the reports of the windows shorter than the series, and the best pick is the first maximal displayed total return, present exactly when some window is shorter |
| Optimized.ShortestWindow | quant-momentum-a-shares/src/backtest_optimized.py:288 | the shortest swept window is 5 |
| Optimized.ParameterOptimization | quant-momentum-a-shares/src/backtest_optimized.py:277-302 | with windows 5, 10, 20, 30, 50: results list the windows shorter than the series in order; there is no best window exactly when the series has at most 5 rows |
| Akshare.CalcMetrics | quant-momentum-a-shares/src/backtest_akshare.py:63-98 | an empty frame gives the "数据为空" error entry; otherwise days, final value, total return = final - 1, the drawdown is MaxDrawdown of the kept equity curve (≤ 0, and 0 exactly when the curve never falls, for a curve starting above 0) and the win rate is WinRate of the kept rows (in [0,1]) |
| PandasBacktest.CalcMetrics | quant-momentum-a-shares/src/backtest_pandas.py:35-53 | on a frame that keeps a row: years > 0 with years·252 = days; the drawdown is MaxDrawdown of the kept equity curve (≤ 0, 0 exactly when the curve never falls, for a curve starting above 0); the win rate is WinRate of the kept rows (in [0,1]) |
| ScriptAgreement.ReportsAgree | quant-momentum-a-shares/src/backtest_akshare.py:63-98 | the three metric functions agree on days, total return, drawdown and win rate; the detailed year count is at least the plain one and equal from 26 rows on |

## Left out

- Data loading (CSV reading, column renaming, date parsing), the download helpers, plotting and all printed output are I/O and are not modelled. The price series is an input.
- `Optimized.DualMomentumStrategy`: the volume column is an input, not the seeded random integers of the script. Random generation is outside the model.
- The annualised return (`final ** (1/years) - 1`), the annualised volatility (`std() * sqrt(252)`), the Sharpe ratio and the Calmar ratio's value need real powers and square roots, so their values are not modelled. Only whether Calmar is "N/A" is modelled, which includes deciding when the annual return is NaN: a negative final value raised to a non-whole exponent. For the same reason the minimal script's report omits them.
- Floating-point rounding is not modelled. All arithmetic is exact real arithmetic, so an equity curve cannot underflow or overflow.
- `Optimized.DisplayedPercent`: rounds half up. Python's two-decimal formatting rounds the binary value half to even, so a tie exactly at half a hundredth of a percent may rank differently. The formatted strings themselves are kept as numbers.
- `Optimized.CalcDetailedMetrics`: requires that the running maximum of the kept equity curve is never 0 (`Metrics.Admissible`), since the drawdown divides by it. The same precondition is on `Akshare.CalcMetrics` and `PandasBacktest.CalcMetrics`, which accept any frame. For the runs of the four strategies it always holds: `MomentumStrategy.MomentumAdmissible`, `Optimized.OptimizedMomentumAdmissible`, `Optimized.DualMomentumAdmissible` and `Optimized.MeanReversionAdmissible` prove it, so `Optimized.CompareStrategies` and `Optimized.ParameterOptimization` need only a positive price series.
- `PandasBacktest.CalcMetrics`: requires a row after `dropna()`, because the script raises an index error on an empty frame.
- `Akshare.CalcMetrics`: the `except` branch ("计算年化收益失败") is not modelled. It guards only the power of the annual return, which is not modelled, and with exact reals the other statements cannot raise. The same holds for the `except` of `calc_detailed_metrics`.
- `Optimized.TradeCountBounded`: the trade count is bounded only for rows whose trade sizes are known to lie in [0, m]. The momentum-family lemmas give m = 1 and `Optimized.MeanReversionTrades` gives m = 2.
- Windows of 0 and 1 follow the model's definitions. `pct_change(0)` is 0 on every row. Mean reversion with a window below 2 has no z-score, because the sample standard deviation of one value is undefined. What pandas does with `rolling(0)` is not modelled.
- The comparison runs `MeanReversionStrategy` through the method. The other three strategies are pure functions of the price series.
