# Backtest analyser: a verified Dafny model

This project models the analysis core of `backtest_analyzer_gpt.py`. The
script reads a backtest trade log from a workbook and runs three analyses on
the completed trades.

- **Trade pairing** (`Trades.dfy`). The log holds one row per fill, with
  entry and exit rows alternating. Rows `2k` and `2k+1` make trade `k+1`.
  Only the exit row's percentage return and date are kept, and an empty
  return counts as zero. A last row without a partner is skipped.
- **Over-optimisation diagnostics** (`Overfit.dfy`). There are four
  independent heuristics, each with its statistic and a warning flag:
  - fewer than 30 trades;
  - the best `min(10, n)` trades hold more than 60% of a positive total
    return;
  - more than 40% of calendar months lose;
  - the coefficient of variation of the monthly totals exceeds 1.5, taken
    as infinite for a zero mean and only evaluated with two months or more.
- **Liquidation simulation** (`Liquidation.dfy`). The trades' return
  fractions are replayed, compounding, against a leveraged margin account.
  - Each step's maintenance amount is computed from the equity held before
    the trade.
  - The first trade after which equity is at or below that amount is the
    liquidation point. It is never overwritten, and the replay continues to
    the end.
  - The report adds the minimum and final equity, the maximum drawdown in
    percent and the cushion: the minimum equity over the smallest
    maintenance amount.
- **Starting-capital detection** (`CapitalDetector.dfy`). A best-effort
  search of the workbook has two passes, and the first match wins.
  - The header pass looks for a column whose lower-cased label contains a
    keyword and takes that column's first numeric value.
  - The label pass runs only when the header pass finds nothing in any
    sheet. It visits the top-left 10 x 5 block of every sheet. For a trimmed,
    lower-cased label cell it takes the neighbour to the right, or the cell
    below when the right one is missing.

`Common.dfy` holds the shared values:
- an optional value;
- reals extended with +infinity;
- sums, minima and maxima over sequences of reals.

Stateful code is modelled imperatively and proved equal to a recursive
specification. Three places are written this way:
- the replay loop of the liquidation simulator (`AnalyzeLiquidationRisk`);
- the stride-2 pairing loop (`PairTrades`);
- the nested search loops of the detector (`DetectInitialCap`).

The rest of the source is expression code (pandas and numpy reductions), and
the model writes it as functions.

Numbers are Dafny `real`s. A month is an integer index
`12 * year + (month - 1)`, absent for a trade whose date cell is empty. Such a
trade has no month bucket, but it still counts as a trade and in the total
return. The reader's text-to-number coercion is a
parameter of the detector.

Two edge cases:
- With no trades the cushion is `None`, not infinity (lines 62-63;
  `Liquidation.Cushion`).
- With no complete trade the script stops at lines 213-214, so
  `Overfit.Report` gives no report at all (`Overfit.NoTradesNoReport`).

## Model

| member | source | states |
|---|---|---|
| Liquidation.FillMissing | backtest_analyzer_gpt.py:34 | One return per trade, in order; a missing return becomes 0. |
| Liquidation.EquitySeries | backtest_analyzer_gpt.py:29-54 | The equity path has one entry more than there are trades and starts at the initial capital. |
| Liquidation.EquityRecurrence | backtest_analyzer_gpt.py:45-48 | The equity after trade k is the equity before it times `1 + r_k`, so each return is relative to the current equity. |
| Liquidation.FinalEquityCompounds | backtest_analyzer_gpt.py:29-54 | The final equity is the capital times the product of all growth factors (compounding, not a summed return). |
| Liquidation.ConstantLossCompounds | backtest_analyzer_gpt.py:45-54 | n trades each losing fraction p leave `init * (1 - p)^n`. |
| Liquidation.MissingReturnKeepsEquity | backtest_analyzer_gpt.py:34-48 | A trade with a missing return leaves the equity unchanged. |
| Liquidation.MaintenanceAt | backtest_analyzer_gpt.py:36-43 | The maintenance amount recorded for step k is `rate * notional` of the equity held before trade k, with notional leveraged only under full exposure. |
| Liquidation.FirstBreach | backtest_analyzer_gpt.py:50-52 | The recorded index is a breaching trade with no breaching trade before it; it is absent exactly when no trade breaches. |
| Liquidation.LiquidationIsSticky | backtest_analyzer_gpt.py:51-52 | Once a liquidation index is recorded, later trades never change it. |
| Liquidation.RuinNotBeforeLiquidation | backtest_analyzer_gpt.py:36-52 | With a positive capital and non-negative leverage and rate, any trade that takes equity to zero or below is at or after a recorded liquidation. |
| Liquidation.TotalLossLiquidatesAtOnce | backtest_analyzer_gpt.py:18-52 | With the default parameters, one trade losing 100% gives the path [300, 0], maintenance 15 and liquidation at index 0. |
| Liquidation.Cushion | backtest_analyzer_gpt.py:62-65 | Absent exactly when no trade was replayed; infinite exactly when the smallest maintenance amount is not positive; otherwise the ratio of minimum equity to it. |
| Liquidation.DrawdownAt | backtest_analyzer_gpt.py:56-58 | Each step's drawdown from the running peak is at least 0, and at most 1 while equity is not negative. |
| Liquidation.DrawdownBounds | backtest_analyzer_gpt.py:56-59 | The maximum drawdown is non-negative, zero with no trades, and at most 100% while equity never goes negative. |
| Liquidation.AnalyzeLiquidationRisk | backtest_analyzer_gpt.py:18-79 | The replay loop's report equals the specification: the parameters, the equity path, the first-breach index, the flag, min and final equity, max drawdown and cushion. |
| CapitalDetector.KeywordsReduce | backtest_analyzer_gpt.py:91-103 | The seven keywords match exactly the texts containing "initial", "start", "capital" or "balance". |
| CapitalDetector.NoKeywordWithout | backtest_analyzer_gpt.py:91-103 | A text without the letters i, s and b matches no keyword. |
| CapitalDetector.WidthIsWidest | backtest_analyzer_gpt.py:118-120 | A sheet is as wide as its widest row: every row fits, and some row reaches the width. Shorter rows read as missing past their end. |
| CapitalDetector.FirstNumberInColumn | backtest_analyzer_gpt.py:105-107 | The value returned is the first cell below the header that coerces to a number; none when no cell does. |
| CapitalDetector.HeaderScan | backtest_analyzer_gpt.py:99-109 | A header-pass result always names a column. |
| CapitalDetector.HeaderScanNone | backtest_analyzer_gpt.py:99-109 | The header pass finds nothing exactly when no column of any sheet has a keyword label and a numeric value. |
| CapitalDetector.HeaderScanFirstHit | backtest_analyzer_gpt.py:99-109 | The first productive column in sheet-then-column order is what the header pass returns; a keyword column without numbers is passed over. |
| CapitalDetector.HeaderScanFound | backtest_analyzer_gpt.py:99-109 | Whatever the header pass returns comes from a productive column with none before it. |
| CapitalDetector.LabelScan | backtest_analyzer_gpt.py:117-140 | A label-pass result names a label cell with a 1-based position inside the 10 x 5 block. |
| CapitalDetector.LabelScanNone | backtest_analyzer_gpt.py:117-140 | The label pass finds nothing exactly when no block cell is a label with a numeric candidate. |
| CapitalDetector.LabelScanFirstHit | backtest_analyzer_gpt.py:117-140 | The first productive cell in sheet, row, column order is what the label pass returns; a label with a non-numeric candidate does not stop the scan. |
| CapitalDetector.LabelScanFound | backtest_analyzer_gpt.py:117-140 | Whatever the label pass returns comes from a productive block cell with none before it. |
| CapitalDetector.DetectPrefersHeader | backtest_analyzer_gpt.py:98-116 | If any header column is productive, the result comes from the header pass and names a column. |
| CapitalDetector.DetectFallsBack | backtest_analyzer_gpt.py:111-142 | With no productive header column the label pass decides; nothing is found exactly when no block cell is productive either. |
| CapitalDetector.DetectInitialCap | backtest_analyzer_gpt.py:82-142 | The nested search loops, returning at the first match, compute the two-pass specification. |
| CapitalDetector.StartingBalanceExample | backtest_analyzer_gpt.py:101-107 | A "Starting Balance" column holding 1000 then 2000 yields 1000, with the column as provenance. |
| CapitalDetector.LabelBesideValueExample | backtest_analyzer_gpt.py:129-140 | A label cell with a number to its right yields that number at position (1,1). |
| CapitalDetector.LabelAboveValueExample | backtest_analyzer_gpt.py:129-140 | A padded label with nothing to its right takes the number below it; the untrimmed label and its 1-based position are reported. |
| CapitalDetector.RaggedRowExample | backtest_analyzer_gpt.py:118-140 | A label on a row wider than the header row still reads the number to its right, because the grid is padded to its widest row. |
| Trades.Returns | backtest_analyzer_gpt.py:218 | One fractional return per trade, the percentage divided by 100. |
| Trades.PairedTrades | backtest_analyzer_gpt.py:198-209 | There are `rows / 2` trades. Trade k is numbered k+1 and carries the month (absent if undated) and the return (0 if empty) of row 2k+1. |
| Trades.PairTrades | backtest_analyzer_gpt.py:195-211 | The stride-2 loop produces exactly the paired trades. |
| Trades.EntryRowsIgnored | backtest_analyzer_gpt.py:199-203 | Logs that agree on every exit row give the same trades. |
| Trades.TrailingRowIgnored | backtest_analyzer_gpt.py:198-211 | An unpaired last row adds no trade. |
| Trades.PairAppended | backtest_analyzer_gpt.py:198-209 | One more entry/exit pair appends exactly one trade, numbered after the others. |
| Overfit.TopSumAll | backtest_analyzer_gpt.py:238-240 | Taking at least as many best trades as there are trades sums them all. |
| Overfit.TopAverageAtLeastMean | backtest_analyzer_gpt.py:238-240 | The k best returns average at least the mean return, stated without division. |
| Overfit.Concentration | backtest_analyzer_gpt.py:238-243 | A share is present exactly when the total is positive, and then share times total is the sum of the best `min(10, n)` returns. |
| Overfit.SmallSampleAlwaysConcentrated | backtest_analyzer_gpt.py:238-246 | With 10 trades or fewer and a positive total, the share is exactly 1 and over the 0.6 limit. |
| Overfit.FirstMonth | backtest_analyzer_gpt.py:250 | The earliest month of a dated trade: no dated trade is earlier. It is absent exactly when no trade has a date. |
| Overfit.LastMonth | backtest_analyzer_gpt.py:250 | The latest month of a dated trade: no dated trade is later. It is absent exactly when no trade has a date. |
| Overfit.MonthlyReturns | backtest_analyzer_gpt.py:250 | One total per calendar month from the first dated trade's month to the last one's. Entry k is the sum of the returns of the trades dated in that month. There are no months when no trade has a date, a case in which the source stops instead (see "Left out"). |
| Overfit.QuietMonthIsZero | backtest_analyzer_gpt.py:250 | A month without trades totals zero. |
| Overfit.MonthlyReturnsSumToTotal | backtest_analyzer_gpt.py:219-250 | The monthly totals add up to the total return of the dated trades. |
| Overfit.AllDatedReturns | backtest_analyzer_gpt.py:239-250 | When every trade has a date, the dated returns are all the returns, so the monthly totals add up to the total return. |
| Overfit.UndatedTradeLeftOut | backtest_analyzer_gpt.py:219-250 | A trade with an empty date changes no monthly total and no month range. |
| Overfit.LosingMonthsHaveLosingTrades | backtest_analyzer_gpt.py:250-256 | Every losing month holds a losing trade dated in it, so empty months never count as losing. |
| Overfit.CountNegativeIsCardinality | backtest_analyzer_gpt.py:256 | The losing-month count is the number of months with a strictly negative total. |
| Overfit.LosesOftenCount | backtest_analyzer_gpt.py:256-261 | The share of losing months exceeds 0.4 exactly when the losing months outnumber 0.4 times all months. |
| Overfit.VarianceNonNegative | backtest_analyzer_gpt.py:264 | The population variance of the monthly totals is non-negative. |
| Overfit.ConstantMonthsHaveNoVariance | backtest_analyzer_gpt.py:264-265 | Identical monthly totals have that total as mean and zero variance. |
| Overfit.ErraticMatchesRatio | backtest_analyzer_gpt.py:266-268 | The variance test holds exactly when the mean is zero (infinite cv) or `sd / abs(mean) > 1.5`. |
| Overfit.ConstantMonthsErraticOnlyAtZero | backtest_analyzer_gpt.py:263-269 | A flat month series is erratic exactly when it is flat at zero. |
| Overfit.Disperse | backtest_analyzer_gpt.py:263-269 | Dispersion is computed exactly when there are two months or more; the mean is the average month; the variance is non-negative; erratic means zero mean or variance over 2.25 mean squared. |
| Overfit.AnalyzeMonths | backtest_analyzer_gpt.py:249-269 | The monthly report carries the month series, which adds up to the dated trades' return. Its losing count is the number of negative months, its loss flag is the over-40% test, and dispersion is present exactly with two months or more. |
| Overfit.Analyze | backtest_analyzer_gpt.py:229-269 | The report's count and sample flag (under 30) are stated. Concentration is present exactly for a positive total, as top sum over total, and flagged over 0.6 (always with 10 trades or fewer). The months add up to the dated trades' return, and to the total return when every trade is dated. |
| Overfit.Report | backtest_analyzer_gpt.py:195-218 | No report exactly when the log has fewer than two rows; otherwise it counts `rows / 2` trades. |
| Overfit.Warnings | backtest_analyzer_gpt.py:232-269 | Each of the four warnings is raised exactly when its test fires, and no other warning exists. |
| Overfit.SampleSizeBoundary | backtest_analyzer_gpt.py:233-235 | 29 trades raise the sample-size warning and 30 do not. |
| Overfit.SmallProfitableSampleWarnsTwice | backtest_analyzer_gpt.py:234-246 | A profitable run of 10 trades or fewer raises both the sample-size and the concentration warning. |
| Overfit.NoConcentrationWithoutProfit | backtest_analyzer_gpt.py:242-246 | A total at or below zero reports no share and never raises the concentration warning. |
| Overfit.SingleMonthNoDispersion | backtest_analyzer_gpt.py:263 | Trades dated within one month, or undated, give at most one month, so no dispersion figure and no dispersion warning. |
| Overfit.NoDatesNoMonthlyWarnings | backtest_analyzer_gpt.py:249-269 | In the model, without any dated trade there are no months and neither monthly warning is raised; the source stops at line 250 instead (see "Left out"). |
| Overfit.LosingMonthsWarning | backtest_analyzer_gpt.py:256-261 | The losing-month warning fires exactly when there is a month and losing months over all months exceeds 0.4. |
| Overfit.ErraticWarningMatchesCv | backtest_analyzer_gpt.py:263-269 | The dispersion warning fires exactly when there are two months or more and the cv, `sd / abs(mean)`, exceeds 1.5 or is infinite. |
| Overfit.NoTradesNoReport | backtest_analyzer_gpt.py:213-214 | A log without a complete entry/exit pair gives no report. |

## Left out

- File selection, console prompts and printing, and the report text are left out. So are the text and image files written and the matplotlib charts: this is I/O only.
- Reading the workbook is left out. So is the reader's exception handling (an unreadable file or sheet yields nothing). The detector receives the sheets already parsed into cells.
- The detector sees one grid per sheet. For the header pass, row 0 of that grid is the header row. The reader's other conventions are not modelled: it renames duplicate header labels and names missing ones "Unnamed: n".
- Text-to-number coercion is a parameter of the detector, not a model of the reader's parser.
- Lower-casing and trimming cover ASCII only.
- The provenance is kept as structured data, not as the formatted message string.
- The detection of the return and date columns by name is left out (lines 171-192). So is the prompt for a column name: the rows arrive as a return and a month per row.
- Overfit.MonthlyReturns: a log in which no exit row has a date makes the month grouping at line 250 fail on an all-NaT date column, which stops the script before any report. The model gives that case an empty month series instead. `Overfit.NoDatesNoMonthlyWarnings` and the all-undated case of `Overfit.SingleMonthNoDispersion` therefore describe the model's choice, not the program. A log with at least one dated trade is modelled as the program behaves: undated trades are dropped from the months.
- A text cell in the return column passes the emptiness test at line 202 and then makes the division at line 218 fail with a type error. A row's return is a number or absent, so this failure is not modelled.
- Date parsing and month formatting are left out. Each row carries its month as an integer index, or none for an empty date cell. A date text that pandas cannot parse stops the script with an exception; that failure is not modelled.
- Floating point is left out: rounding, NaN and infinite returns. All arithmetic is exact over the reals.
- The square root is left out. The cv test is decided on the variance against 2.25 times the squared mean, and `ErraticMatchesRatio` proves this equals the cv test for any non-negative root. The report carries the variance, not the cv value.
- `nlargest` is modelled as repeated removal of a first largest element. Only the sum of the chosen elements is used, so ties do not matter.
- Liquidation.AnalyzeLiquidationRisk: requires a positive initial capital, although a detected capital of zero or below is accepted by the source. A zero capital keeps the running peak at zero, and its drawdowns are 0/0 (NaN in numpy), which exact reals cannot express. A negative capital gives drawdowns over a negative peak, which mean nothing economically. The model promises nothing about either case.
- The liquidation analysis's exception handling in the driver is left out. So is its fallback to 300.0 when nothing is detected: `DefaultConfig` carries that value.
