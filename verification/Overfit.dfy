/** Over-optimisation diagnostics over a list of completed trades: four
    independent heuristics (sample size, concentration of the return in a few
    trades, frequency of losing months, dispersion of monthly returns), each
    reported as a statistic and a warning flag. */
module Overfit {
  import opened Common
  import opened Trades

  /** Fewer completed trades than this is too small a sample. */
  const MinTrades: nat := 30
  /** How many of the best trades the concentration test adds up. */
  const TopCount: nat := 10
  /** Share of the total return held by the best trades above which the
      result is called concentrated. */
  const ConcentrationLimit: real := 0.6
  /** Share of losing months above which the result is called unstable. */
  const LosingMonthLimit: real := 0.4
  /** Coefficient of variation of monthly returns above which the result is
      called erratic, and its square. */
  const CvLimit: real := 1.5
  const CvLimitSquared: real := 2.25

  function Min(a: nat, b: nat): nat
  {
    if a < b then a else b
  }

  function Abs(x: real): real
  {
    if x < 0.0 then -x else x
  }

  // ---------------------------------------------------------------- arithmetic

  /** `n` copies of `x` added up: `n * x` without a product, so that the
      bounds below stay linear. */
  function Times(n: nat, x: real): real
  {
    if n == 0 then 0.0 else Times(n - 1, x) + x
  }

  lemma {:induction false} TimesIsProduct(n: nat, x: real)
    ensures Times(n, x) == n as real * x
  {
    if n > 0 {
      TimesIsProduct(n - 1, x);
      assert (n - 1) as real * x + x == n as real * x;
    }
  }

  lemma {:induction false} TimesMono(n: nat, x: real, y: real)
    requires x <= y
    ensures Times(n, x) <= Times(n, y)
  {
    if n > 0 {
      TimesMono(n - 1, x, y);
    }
  }

  lemma {:induction false} TimesAdd(n: nat, x: real, y: real)
    ensures Times(n, x + y) == Times(n, x) + Times(n, y)
  {
    if n > 0 {
      TimesAdd(n - 1, x, y);
    }
  }

  lemma {:induction false} TimesSplit(a: nat, b: nat, x: real)
    ensures Times(a + b, x) == Times(a, x) + Times(b, x)
  {
    if b > 0 {
      TimesSplit(a, b - 1, x);
    }
  }

  lemma DivSelf(x: real)
    requires x != 0.0
    ensures x / x == 1.0
  {
  }

  lemma {:induction false} DivTimes(n: nat, x: real)
    requires n > 0
    ensures Times(n, x) / n as real == x
  {
    TimesIsProduct(n, x);
  }

  lemma SquareNonNegative(d: real)
    ensures d * d >= 0.0
  {
  }

  lemma MulPos(a: real, b: real)
    requires a > 0.0 && b > 0.0
    ensures a * b > 0.0
  {
  }

  lemma MulNonNegative(a: real, b: real)
    requires a >= 0.0 && b >= 0.0
    ensures a * b >= 0.0
  {
  }

  lemma DiffOfSquares(x: real, y: real)
    ensures (x - y) * (x + y) == x * x - y * y
  {
  }

  /** For non-negative numbers, squaring keeps the strict order. */
  lemma SquareGreater(x: real, y: real)
    requires x >= 0.0 && y >= 0.0
    ensures x * x > y * y <==> x > y
  {
    DiffOfSquares(x, y);
    if x > y {
      MulPos(x - y, x + y);
    } else {
      DiffOfSquares(y, x);
      MulNonNegative(y - x, y + x);
    }
  }

  /** A ratio exceeds a limit exactly when the numerator exceeds the limit
      times the positive denominator. */
  lemma DivExceeds(a: real, b: real, limit: real)
    requires b > 0.0
    ensures a / b > limit <==> a > limit * b
  {
  }

  lemma ScaledSquare(m: real)
    ensures (CvLimit * Abs(m)) * (CvLimit * Abs(m)) == CvLimitSquared * (m * m)
  {
  }

  // ---------------------------------------------------------------- best trades

  /** Position of the first largest element; `ArgMaxIsLargest` says it is
      largest. */
  function ArgMax(s: seq<real>): (i: nat)
    requires |s| > 0
    ensures i < |s|
  {
    if |s| == 1 then 0
    else
      var j := ArgMax(s[..|s| - 1]);
      if s[|s| - 1] > s[j] then |s| - 1 else j
  }

  lemma {:induction false} ArgMaxIsLargest(s: seq<real>)
    requires |s| > 0
    ensures forall k :: 0 <= k < |s| ==> s[k] <= s[ArgMax(s)]
  {
    if |s| > 1 {
      ArgMaxIsLargest(s[..|s| - 1]);
    }
  }

  function Without(s: seq<real>, i: nat): (t: seq<real>)
    requires i < |s|
    ensures |t| == |s| - 1
  {
    s[..i] + s[i + 1..]
  }

  /** Sum of the `k` largest elements (all of them when there are fewer),
      taking a largest element out `k` times. */
  function TopSum(s: seq<real>, k: nat): real
    decreases |s|
  {
    if k == 0 || |s| == 0 then 0.0
    else
      var i := ArgMax(s);
      s[i] + TopSum(Without(s, i), k - 1)
  }

  /** Asking for at least as many trades as there are sums them all. */
  lemma {:induction false} TopSumAll(s: seq<real>, k: nat)
    requires |s| <= k
    ensures TopSum(s, k) == Sum(s)
    decreases |s|
  {
    if |s| > 0 {
      var i := ArgMax(s);
      TopSumAll(Without(s, i), k - 1);
      SumRemove(s, i);
    }
  }

  /** Taking out the largest element takes it out of the sum and puts it
      first among the best. */
  lemma {:induction false} TopSumStep(s: seq<real>, k: nat)
    requires |s| > 0 && k > 0
    ensures TopSum(s, k) == s[ArgMax(s)] + TopSum(Without(s, ArgMax(s)), k - 1)
    ensures Sum(s) == s[ArgMax(s)] + Sum(Without(s, ArgMax(s)))
  {
    SumRemove(s, ArgMax(s));
  }

  /** The largest element of a non-empty sequence. */
  function Largest(s: seq<real>): real
    requires |s| > 0
  {
    s[ArgMax(s)]
  }

  /** A sum is at most the number of its terms times its largest term. */
  lemma {:induction false} SumAtMostMax(s: seq<real>)
    requires |s| > 0
    ensures Sum(s) <= Times(|s|, Largest(s))
  {
    if |s| > 1 {
      var p := s[..|s| - 1];
      SumAtMostMax(p);
      ArgMaxIsLargest(s);
      assert Largest(p) == s[ArgMax(p)];
      TimesMono(|p|, Largest(p), Largest(s));
    }
  }

  /** Nothing larger than the largest element is left once it is taken
      out. */
  lemma {:induction false} LargestWithout(s: seq<real>)
    requires |s| > 1
    ensures Largest(Without(s, ArgMax(s))) <= Largest(s)
  {
    var i := ArgMax(s);
    var rest := Without(s, i);
    var j := ArgMax(rest);
    ArgMaxIsLargest(s);
    if j < i {
      assert rest[j] == s[j];
    } else {
      assert rest[j] == s[j + 1];
    }
  }

  /** What the `k` best leave over is at most `|s| - k` times the largest. */
  lemma {:induction false} RestAtMostMax(s: seq<real>, k: nat)
    requires 0 < |s| && k <= |s|
    ensures Sum(s) - TopSum(s, k) <= Times(|s| - k, Largest(s))
    decreases k
  {
    if k == 0 {
      SumAtMostMax(s);
    } else {
      var rest := Without(s, ArgMax(s));
      TopSumStep(s, k);
      if |rest| > 0 {
        LargestWithout(s);
        RestAtMostMax(rest, k - 1);
        TimesMono(|s| - k, Largest(rest), Largest(s));
      }
    }
  }

  /** The best trade is at least the mean trade. */
  lemma {:induction false} TopOneAtLeastMean(s: seq<real>)
    requires |s| > 0
    ensures Times(|s|, TopSum(s, 1)) >= Times(1, Sum(s))
  {
    TopSumStep(s, 1);
    SumAtMostMax(s);
  }

  /** The `k` best trades average at least the mean trade:
      `TopSum(s, k) / k >= Sum(s) / |s|`, stated without division. */
  lemma {:induction false} TopAverageAtLeastMean(s: seq<real>, k: nat)
    requires 0 < k <= |s|
    ensures Times(|s|, TopSum(s, k)) >= Times(k, Sum(s))
    decreases k
  {
    if k == 1 {
      TopOneAtLeastMean(s);
    } else {
      TopAverageAtLeastMean(Without(s, ArgMax(s)), k - 1);
      TopAverageStep(s, k);
    }
  }

  /** The inductive step of `TopAverageAtLeastMean`: the claim for the
      `k - 1` best of what remains once the best trade is taken out gives
      the claim for the `k` best of all. */
  lemma {:induction false} TopAverageStep(s: seq<real>, k: nat)
    requires 1 < k <= |s|
    requires Times(|Without(s, ArgMax(s))|, TopSum(Without(s, ArgMax(s)), k - 1)) >= Times(k - 1, Sum(Without(s, ArgMax(s))))
    ensures Times(|s|, TopSum(s, k)) >= Times(k, Sum(s))
  {
    var i := ArgMax(s);
    var rest := Without(s, i);
    RestAtMostMax(rest, k - 1);
    LargestWithout(s);
    TopSumStep(s, k);
    AverageStep(TopSum(s, k), Sum(s), s[i], TopSum(rest, k - 1), Sum(rest), Largest(rest), |rest|, k - 1, |s|, k);
  }

  /** The arithmetic of `TopAverageStep`: with `m` the best trade, `t` and
      `r` what the next `j` best and all `n` others add up to. */
  lemma {:induction false} AverageStep(top: real, total: real, m: real, t: real, r: real, mr: real, n: nat, j: nat, n': nat, j': nat)
    requires 0 < j <= n && n' == n + 1 && j' == j + 1
    requires top == m + t && total == m + r
    requires Times(n, t) >= Times(j, r)
    requires r - t <= Times(n - j, mr) && mr <= m
    ensures Times(n', top) >= Times(j', total)
  {
    TimesMono(n - j, mr, m);
    TimesAdd(n', m, t);
    TimesAdd(j', m, r);
    TimesSplit(j', n - j, m);
  }

  /** Share of a positive total held by the `TopCount` best returns; absent
      when the total is zero or negative. */
  function Concentration(rs: seq<real>): (c: Option<real>)
    ensures c.Some? <==> Sum(rs) > 0.0
    ensures c.Some? ==> c.value * Sum(rs) == TopSum(rs, Min(TopCount, |rs|))
  {
    if Sum(rs) > 0.0 then Some(TopSum(rs, Min(TopCount, |rs|)) / Sum(rs)) else None
  }

  /** With ten trades or fewer and a positive total, the best trades are all
      the trades: the share is exactly one and always over the limit. */
  lemma {:induction false} SmallSampleAlwaysConcentrated(rs: seq<real>)
    requires 1 <= |rs| <= TopCount && Sum(rs) > 0.0
    ensures Concentration(rs) == Some(1.0)
    ensures Concentration(rs).value > ConcentrationLimit
  {
    TopSumAll(rs, Min(TopCount, |rs|));
    DivSelf(Sum(rs));
  }

  // ---------------------------------------------------------------- months

  /** Total return of the trades that closed in month `m`; a trade without a
      date belongs to no month. */
  function MonthTotal(ts: seq<Trade>, m: int): real
  {
    if |ts| == 0 then 0.0
    else MonthTotal(ts[..|ts| - 1], m) + (if ts[|ts| - 1].month == Some(m) then Return(ts[|ts| - 1]) else 0.0)
  }

  /** Monthly totals of `n` consecutive months from month `lo`. */
  function MonthSeries(ts: seq<Trade>, lo: int, n: nat): (ms: seq<real>)
    ensures |ms| == n
    ensures forall k :: 0 <= k < n ==> ms[k] == MonthTotal(ts, lo + k)
  {
    if n == 0 then [] else MonthSeries(ts, lo, n - 1) + [MonthTotal(ts, lo + n - 1)]
  }

  /** The returns of the trades that carry a date, in order. */
  function DatedReturns(ts: seq<Trade>): seq<real>
  {
    if |ts| == 0 then []
    else DatedReturns(ts[..|ts| - 1]) + (if ts[|ts| - 1].month.Some? then [Return(ts[|ts| - 1])] else [])
  }

  /** Earliest month of a dated trade; absent when no trade has a date. */
  function FirstMonth(ts: seq<Trade>): (m: Option<int>)
    ensures m.None? <==> forall k :: 0 <= k < |ts| ==> ts[k].month.None?
    ensures m.Some? ==> exists k :: 0 <= k < |ts| && ts[k].month == m
    ensures m.Some? ==> forall k :: 0 <= k < |ts| && ts[k].month.Some? ==> m.value <= ts[k].month.value
  {
    if |ts| == 0 then None
    else
      var m' := FirstMonth(ts[..|ts| - 1]);
      var last := ts[|ts| - 1].month;
      assert forall k :: 0 <= k < |ts| - 1 ==> ts[..|ts| - 1][k] == ts[k];
      if last.Some? && (m'.None? || last.value < m'.value) then last else m'
  }

  /** Latest month of a dated trade; absent when no trade has a date. */
  function LastMonth(ts: seq<Trade>): (m: Option<int>)
    ensures m.None? <==> forall k :: 0 <= k < |ts| ==> ts[k].month.None?
    ensures m.Some? ==> exists k :: 0 <= k < |ts| && ts[k].month == m
    ensures m.Some? ==> forall k :: 0 <= k < |ts| && ts[k].month.Some? ==> ts[k].month.value <= m.value
  {
    if |ts| == 0 then None
    else
      var m' := LastMonth(ts[..|ts| - 1]);
      var last := ts[|ts| - 1].month;
      assert forall k :: 0 <= k < |ts| - 1 ==> ts[..|ts| - 1][k] == ts[k];
      if last.Some? && (m'.None? || last.value > m'.value) then last else m'
  }

  /** The first and the last month exist together, in order. */
  lemma MonthRange(ts: seq<Trade>)
    ensures FirstMonth(ts).Some? <==> LastMonth(ts).Some?
    ensures FirstMonth(ts).Some? ==> FirstMonth(ts).value <= LastMonth(ts).value
  {
    if FirstMonth(ts).Some? {
      var k :| 0 <= k < |ts| && ts[k].month == FirstMonth(ts);
    }
  }

  /** Calendar-month totals from the first dated trade's month to the last
      one's, months without trades included with a zero total; no months at
      all when no trade has a date. */
  function MonthlyReturns(ts: seq<Trade>): (ms: seq<real>)
    ensures FirstMonth(ts).None? ==> |ms| == 0
    ensures FirstMonth(ts).Some? ==>
      LastMonth(ts).Some? && |ms| == LastMonth(ts).value - FirstMonth(ts).value + 1
    ensures forall k :: 0 <= k < |ms| ==>
      FirstMonth(ts).Some? && ms[k] == MonthTotal(ts, FirstMonth(ts).value + k)
  {
    MonthRange(ts);
    if FirstMonth(ts).Some? then
      MonthSeries(ts, FirstMonth(ts).value, LastMonth(ts).value - FirstMonth(ts).value + 1)
    else []
  }

  /** A month in which no trade closed totals zero. */
  lemma {:induction false} QuietMonthIsZero(ts: seq<Trade>, m: int)
    requires forall k :: 0 <= k < |ts| ==> ts[k].month != Some(m)
    ensures MonthTotal(ts, m) == 0.0
  {
    if |ts| > 0 {
      QuietMonthIsZero(ts[..|ts| - 1], m);
    }
  }

  /** A losing month holds at least one losing trade. */
  lemma {:induction false} LosingMonthHasLosingTrade(ts: seq<Trade>, m: int)
    requires MonthTotal(ts, m) < 0.0
    ensures exists k :: 0 <= k < |ts| && ts[k].month == Some(m) && Return(ts[k]) < 0.0
  {
    var p := ts[..|ts| - 1];
    if MonthTotal(p, m) < 0.0 {
      LosingMonthHasLosingTrade(p, m);
      var k :| 0 <= k < |p| && p[k].month == Some(m) && Return(p[k]) < 0.0;
      assert ts[k] == p[k];
    } else {
      assert ts[|ts| - 1].month == Some(m) && Return(ts[|ts| - 1]) < 0.0;
    }
  }

  lemma {:induction false} MonthSeriesOfNothing(lo: int, n: nat)
    ensures Sum(MonthSeries([], lo, n)) == 0.0
  {
    if n > 0 {
      MonthSeriesOfNothing(lo, n - 1);
    }
  }

  /** One more trade adds its return to the month it closed in, if it has a
      date and that month is in range, and to no other. */
  lemma {:induction false} MonthSeriesStep(ts: seq<Trade>, t: Trade, lo: int, n: nat)
    ensures Sum(MonthSeries(ts + [t], lo, n)) ==
      Sum(MonthSeries(ts, lo, n)) + (if t.month.Some? && lo <= t.month.value < lo + n then Return(t) else 0.0)
  {
    if n > 0 {
      MonthSeriesStep(ts, t, lo, n - 1);
      assert (ts + [t])[..|ts + [t]| - 1] == ts;
    }
  }

  /** When every dated trade closed within the months covered, the monthly
      totals add up to the return of the dated trades. */
  lemma {:induction false} MonthSeriesTotal(ts: seq<Trade>, lo: int, n: nat)
    requires forall k :: 0 <= k < |ts| && ts[k].month.Some? ==> lo <= ts[k].month.value < lo + n
    ensures Sum(MonthSeries(ts, lo, n)) == Sum(DatedReturns(ts))
  {
    if |ts| == 0 {
      MonthSeriesOfNothing(lo, n);
    } else {
      var p, t := ts[..|ts| - 1], ts[|ts| - 1];
      MonthSeriesTotal(p, lo, n);
      assert p + [t] == ts;
      MonthSeriesStep(p, t, lo, n);
      SumAppend(DatedReturns(p), if t.month.Some? then [Return(t)] else []);
      assert Sum([Return(t)]) == Return(t) by { assert [Return(t)][..0] == []; }
    }
  }

  /** Without any date there is no dated return. */
  lemma {:induction false} UndatedHaveNoReturns(ts: seq<Trade>)
    requires forall k :: 0 <= k < |ts| ==> ts[k].month.None?
    ensures DatedReturns(ts) == []
  {
    if |ts| > 0 {
      UndatedHaveNoReturns(ts[..|ts| - 1]);
    }
  }

  /** When every trade has a date, the dated returns are all the returns. */
  lemma {:induction false} AllDatedReturns(ts: seq<Trade>)
    requires forall k :: 0 <= k < |ts| ==> ts[k].month.Some?
    ensures DatedReturns(ts) == Returns(ts)
  {
    if |ts| > 0 {
      AllDatedReturns(ts[..|ts| - 1]);
    }
  }

  /** Grouping by month neither loses nor invents the return of any dated
      trade. */
  lemma {:induction false} MonthlyReturnsSumToTotal(ts: seq<Trade>)
    ensures Sum(MonthlyReturns(ts)) == Sum(DatedReturns(ts))
  {
    MonthRange(ts);
    if FirstMonth(ts).Some? {
      var lo, hi := FirstMonth(ts).value, LastMonth(ts).value;
      MonthSeriesTotal(ts, lo, hi - lo + 1);
    } else {
      UndatedHaveNoReturns(ts);
    }
  }

  /** A trade without a date changes no monthly total and no month range. */
  lemma {:induction false} UndatedTradeLeftOut(ts: seq<Trade>, t: Trade)
    requires t.month.None?
    ensures MonthlyReturns(ts + [t]) == MonthlyReturns(ts)
    ensures DatedReturns(ts + [t]) == DatedReturns(ts)
  {
    var ts' := ts + [t];
    assert ts'[..|ts'| - 1] == ts;
    assert FirstMonth(ts') == FirstMonth(ts) && LastMonth(ts') == LastMonth(ts);
    assert forall m :: MonthTotal(ts', m) == MonthTotal(ts, m);
  }

  /** Number of negative entries. */
  function CountNegative(s: seq<real>): (c: nat)
    ensures c <= |s|
  {
    if |s| == 0 then 0 else CountNegative(s[..|s| - 1]) + (if s[|s| - 1] < 0.0 then 1 else 0)
  }

  /** The count is the number of positions holding a negative value (a
      zero month is not a losing month). */
  lemma {:induction false} CountNegativeIsCardinality(s: seq<real>)
    ensures CountNegative(s) == |set k | 0 <= k < |s| && s[k] < 0.0|
  {
    if |s| > 0 {
      var p := s[..|s| - 1];
      CountNegativeIsCardinality(p);
      var before := set k | 0 <= k < |p| && p[k] < 0.0;
      var after := set k | 0 <= k < |s| && s[k] < 0.0;
      if s[|s| - 1] < 0.0 {
        assert after == before + {|s| - 1};
      } else {
        assert after == before;
      }
    }
  }

  /** Every losing month holds a losing trade, so months without trades
      never count as losing. */
  lemma {:induction false} LosingMonthsHaveLosingTrades(ts: seq<Trade>, k: nat)
    requires k < |MonthlyReturns(ts)| && MonthlyReturns(ts)[k] < 0.0
    ensures FirstMonth(ts).Some?
    ensures exists j :: 0 <= j < |ts| && ts[j].month == Some(FirstMonth(ts).value + k) && Return(ts[j]) < 0.0
  {
    LosingMonthHasLosingTrade(ts, FirstMonth(ts).value + k);
  }

  /** The losing-month test: more than 40 percent of the months lost. */
  predicate LosesOften(ms: seq<real>)
    requires |ms| > 0
  {
    CountNegative(ms) as real / |ms| as real > LosingMonthLimit
  }

  function Mean(s: seq<real>): real
    requires |s| > 0
  {
    Sum(s) / |s| as real
  }

  function SquaredDeviations(s: seq<real>, mu: real): (d: seq<real>)
    ensures |d| == |s|
  {
    if |s| == 0 then [] else SquaredDeviations(s[..|s| - 1], mu) + [(s[|s| - 1] - mu) * (s[|s| - 1] - mu)]
  }

  /** Population variance (numpy's `std` squared: no degrees-of-freedom
      correction). */
  function Variance(s: seq<real>): real
    requires |s| > 0
  {
    Sum(SquaredDeviations(s, Mean(s))) / |s| as real
  }

  lemma {:induction false} SquaredDeviationsNonNegative(s: seq<real>, mu: real)
    ensures Sum(SquaredDeviations(s, mu)) >= 0.0
  {
    if |s| > 0 {
      SquaredDeviationsNonNegative(s[..|s| - 1], mu);
      SquareNonNegative(s[|s| - 1] - mu);
    }
  }

  lemma {:induction false} VarianceNonNegative(s: seq<real>)
    requires |s| > 0
    ensures Variance(s) >= 0.0
  {
    SquaredDeviationsNonNegative(s, Mean(s));
  }

  lemma {:induction false} SquaredDeviationsOfConstant(s: seq<real>, c: real)
    requires forall k :: 0 <= k < |s| ==> s[k] == c
    ensures Sum(s) == Times(|s|, c)
    ensures Sum(SquaredDeviations(s, c)) == 0.0
  {
    if |s| > 0 {
      SquaredDeviationsOfConstant(s[..|s| - 1], c);
    }
  }

  /** Months that all return the same amount have that amount as mean and
      no dispersion. */
  lemma {:induction false} ConstantMonthsHaveNoVariance(s: seq<real>, c: real)
    requires |s| > 0 && forall k :: 0 <= k < |s| ==> s[k] == c
    ensures Mean(s) == c && Variance(s) == 0.0
  {
    SquaredDeviationsOfConstant(s, c);
    DivTimes(|s|, c);
  }

  /** The dispersion test on the mean and the variance of the monthly
      returns: the coefficient of variation `sd / |mean|` counts as infinite
      for a zero mean, and otherwise exceeds 1.5 exactly when the variance
      exceeds `1.5^2 * mean^2`. */
  predicate Erratic(mean: real, variance: real)
  {
    mean == 0.0 || variance > CvLimitSquared * (mean * mean)
  }

  /** `Erratic` is the test on the coefficient of variation itself: for a
      standard deviation `sd` of the months (the non-negative root of the
      variance), it holds exactly when the mean is zero or
      `sd / |mean| > 1.5`. */
  lemma ErraticMatchesRatio(mean: real, variance: real, sd: real)
    requires sd >= 0.0 && sd * sd == variance
    ensures Erratic(mean, variance) <==> (mean == 0.0 || sd / Abs(mean) > CvLimit)
  {
    if mean != 0.0 {
      assert (sd / Abs(mean) > CvLimit) == (sd > CvLimit * Abs(mean)) by {
        DivExceeds(sd, Abs(mean), CvLimit);
      }
      assert (sd > CvLimit * Abs(mean)) == (sd * sd > (CvLimit * Abs(mean)) * (CvLimit * Abs(mean))) by {
        SquareGreater(sd, CvLimit * Abs(mean));
      }
      ScaledSquare(mean);
    }
  }

  /** A flat month series is never erratic unless it is flat at zero. */
  lemma {:induction false} ConstantMonthsErraticOnlyAtZero(s: seq<real>, c: real)
    requires |s| > 0 && forall k :: 0 <= k < |s| ==> s[k] == c
    ensures Erratic(Mean(s), Variance(s)) <==> c == 0.0
  {
    ConstantMonthsHaveNoVariance(s, c);
    if c != 0.0 {
      assert c * c > 0.0 by {
        if c > 0.0 { MulPos(c, c); } else { MulPos(-c, -c); }
      }
    }
  }

  // ---------------------------------------------------------------- report

  /** Dispersion of the monthly returns. */
  datatype Dispersion = Dispersion(mean: real, variance: real, erratic: bool)

  /** The monthly part of the report. */
  datatype MonthlyReport = MonthlyReport(
    firstMonth: Option<int>,
    monthReturns: seq<real>,
    losingMonths: nat,
    losesOften: bool,
    dispersion: Option<Dispersion>)

  datatype OverfitReport = OverfitReport(
    tradeCount: nat,
    tooFewTrades: bool,
    topCount: nat,
    totalReturn: real,
    topReturn: real,
    concentration: Option<real>,
    concentrated: bool,
    monthly: MonthlyReport)

  datatype Warning = TooFewTrades | Concentrated | LosingMonthsFrequent | MonthlyReturnsErratic

  /** Dispersion statistics, computed only for two months or more. */
  function Disperse(ms: seq<real>): (d: Option<Dispersion>)
    ensures d.Some? <==> |ms| > 1
    ensures d.Some? ==> d.value.mean == Sum(ms) / |ms| as real && d.value.variance >= 0.0
    ensures d.Some? ==> (d.value.erratic <==> d.value.mean == 0.0 || d.value.variance > CvLimitSquared * (d.value.mean * d.value.mean))
  {
    if |ms| > 1 then
      VarianceNonNegative(ms);
      Some(Dispersion(Mean(ms), Variance(ms), Erratic(Mean(ms), Variance(ms))))
    else None
  }

  /** The share of losing months exceeds the limit exactly when the losing
      months outnumber `0.4` times all months. */
  lemma LosesOftenCount(ms: seq<real>)
    requires |ms| > 0
    ensures LosesOften(ms) <==> CountNegative(ms) as real > LosingMonthLimit * |ms| as real
  {
    DivExceeds(CountNegative(ms) as real, |ms| as real, LosingMonthLimit);
  }

  /** The monthly part of the report: one total per calendar month from the
      first dated trade's month to the last one's.  Without any month the
      losing-month test is skipped. */
  function AnalyzeMonths(ts: seq<Trade>): (r: MonthlyReport)
    ensures r.firstMonth == FirstMonth(ts) && r.monthReturns == MonthlyReturns(ts)
    ensures Sum(r.monthReturns) == Sum(DatedReturns(ts))
    ensures r.losingMonths == CountNegative(r.monthReturns)
    ensures r.losesOften <==> r.losingMonths as real > LosingMonthLimit * |r.monthReturns| as real
    ensures r.dispersion.Some? <==> |r.monthReturns| > 1
  {
    var ms := MonthlyReturns(ts);
    MonthlyReturnsSumToTotal(ts);
    assert |ms| > 0 ==> (LosesOften(ms) <==> CountNegative(ms) as real > LosingMonthLimit * |ms| as real) by {
      if |ms| > 0 { LosesOftenCount(ms); }
    }
    MonthlyReport(FirstMonth(ts), ms, CountNegative(ms), |ms| > 0 && LosesOften(ms), Disperse(ms))
  }

  /** The whole over-optimisation report for a non-empty list of trades. */
  function Analyze(ts: seq<Trade>): (r: OverfitReport)
    requires |ts| > 0
    ensures r.tradeCount == |ts|
    ensures r.tooFewTrades <==> |ts| < MinTrades
    ensures r.topCount == Min(TopCount, |ts|)
    ensures r.totalReturn == Sum(Returns(ts)) && r.topReturn == TopSum(Returns(ts), r.topCount)
    ensures r.concentration.Some? <==> r.totalReturn > 0.0
    ensures r.concentration.Some? ==> r.concentration.value == r.topReturn / r.totalReturn
    ensures r.concentrated <==> r.concentration.Some? && r.concentration.value > ConcentrationLimit
    ensures |ts| <= TopCount && r.totalReturn > 0.0 ==> r.concentrated
    ensures Sum(r.monthly.monthReturns) == Sum(DatedReturns(ts))
    ensures (forall j :: 0 <= j < |ts| ==> ts[j].month.Some?) ==> Sum(r.monthly.monthReturns) == r.totalReturn
  {
    var rs := Returns(ts);
    assert (forall j :: 0 <= j < |ts| ==> ts[j].month.Some?) ==> DatedReturns(ts) == rs by {
      if forall j :: 0 <= j < |ts| ==> ts[j].month.Some? { AllDatedReturns(ts); }
    }
    var k := Min(TopCount, |ts|);
    var c := Concentration(rs);
    assert |ts| <= TopCount && Sum(rs) > 0.0 ==> c == Some(1.0) by {
      if |ts| <= TopCount && Sum(rs) > 0.0 {
        SmallSampleAlwaysConcentrated(rs);
      }
    }
    OverfitReport(
      |ts|, |ts| < MinTrades, k, Sum(rs), TopSum(rs, k), c,
      c.Some? && c.value > ConcentrationLimit,
      AnalyzeMonths(ts))
  }

  /** The report for a trade log: none when the log holds no complete
      entry/exit pair. */
  function Report(rows: seq<Row>): (r: Option<OverfitReport>)
    ensures r.None? <==> |rows| < 2
    ensures r.Some? ==> r.value.tradeCount == |rows| / 2
  {
    var ts := PairedTrades(rows);
    if |ts| == 0 then None else Some(Analyze(ts))
  }

  /** The warnings a report raises. */
  function Warnings(r: OverfitReport): (w: set<Warning>)
    ensures TooFewTrades in w <==> r.tooFewTrades
    ensures Concentrated in w <==> r.concentrated
    ensures LosingMonthsFrequent in w <==> r.monthly.losesOften
    ensures MonthlyReturnsErratic in w <==> r.monthly.dispersion.Some? && r.monthly.dispersion.value.erratic
    ensures w <= {TooFewTrades, Concentrated, LosingMonthsFrequent, MonthlyReturnsErratic}
  {
    (if r.tooFewTrades then {TooFewTrades} else {})
    + (if r.concentrated then {Concentrated} else {})
    + (if r.monthly.losesOften then {LosingMonthsFrequent} else {})
    + (if r.monthly.dispersion.Some? && r.monthly.dispersion.value.erratic then {MonthlyReturnsErratic} else {})
  }

  /** The sample-size warning switches off exactly at thirty trades. */
  lemma SampleSizeBoundary(ts: seq<Trade>)
    requires |ts| > 0
    ensures |ts| == 29 ==> TooFewTrades in Warnings(Analyze(ts))
    ensures |ts| == 30 ==> TooFewTrades !in Warnings(Analyze(ts))
  {
  }

  /** A profitable run of ten trades or fewer raises both the sample-size
      and the concentration warning. */
  lemma SmallProfitableSampleWarnsTwice(ts: seq<Trade>)
    requires 0 < |ts| <= TopCount && Sum(Returns(ts)) > 0.0
    ensures {TooFewTrades, Concentrated} <= Warnings(Analyze(ts))
  {
  }

  /** A losing or break-even total never raises the concentration warning. */
  lemma NoConcentrationWithoutProfit(ts: seq<Trade>)
    requires |ts| > 0 && Sum(Returns(ts)) <= 0.0
    ensures Analyze(ts).concentration.None? && Concentrated !in Warnings(Analyze(ts))
  {
  }

  /** Trades dated within one month, or not dated at all, are too few months
      for a dispersion figure. */
  lemma SingleMonthNoDispersion(ts: seq<Trade>, m: int)
    requires |ts| > 0 && forall k :: 0 <= k < |ts| ==> ts[k].month.None? || ts[k].month == Some(m)
    ensures |MonthlyReturns(ts)| <= 1
    ensures Analyze(ts).monthly.dispersion.None?
    ensures MonthlyReturnsErratic !in Warnings(Analyze(ts))
  {
    if FirstMonth(ts).Some? {
      assert FirstMonth(ts) == Some(m) && LastMonth(ts) == Some(m);
    }
  }

  /** Without any dated trade there are no months, so neither monthly
      warning is raised. */
  lemma NoDatesNoMonthlyWarnings(ts: seq<Trade>)
    requires |ts| > 0 && forall k :: 0 <= k < |ts| ==> ts[k].month.None?
    ensures Analyze(ts).monthly.monthReturns == []
    ensures LosingMonthsFrequent !in Warnings(Analyze(ts))
    ensures MonthlyReturnsErratic !in Warnings(Analyze(ts))
  {
  }

  /** The losing-month warning is the source's test on the share of losing
      months, taken over every calendar month in range, and skipped when
      there is no month. */
  lemma LosingMonthsWarning(ts: seq<Trade>)
    requires |ts| > 0
    ensures LosingMonthsFrequent in Warnings(Analyze(ts)) <==>
      |MonthlyReturns(ts)| > 0 &&
      CountNegative(MonthlyReturns(ts)) as real / |MonthlyReturns(ts)| as real > LosingMonthLimit
  {
    if |MonthlyReturns(ts)| > 0 {
      LosesOftenCount(MonthlyReturns(ts));
    }
  }

  /** The dispersion warning is the source's test on the coefficient of
      variation: with `sd` the standard deviation of the monthly totals, it
      fires exactly when there are two months or more and the mean is zero
      or `sd / |mean| > 1.5`. */
  lemma ErraticWarningMatchesCv(ts: seq<Trade>, sd: real)
    requires |ts| > 0 && sd >= 0.0
    requires |MonthlyReturns(ts)| > 0 ==> sd * sd == Variance(MonthlyReturns(ts))
    ensures MonthlyReturnsErratic in Warnings(Analyze(ts)) <==>
      |MonthlyReturns(ts)| > 1 &&
      (Mean(MonthlyReturns(ts)) == 0.0 || sd / Abs(Mean(MonthlyReturns(ts))) > CvLimit)
  {
    var ms := MonthlyReturns(ts);
    if |ms| > 0 {
      ErraticMatchesRatio(Mean(ms), Variance(ms), sd);
    }
  }

  /** A log without a complete entry/exit pair gives no report at all, so no
      statistic and no warning. */
  lemma NoTradesNoReport(rows: seq<Row>)
    requires |rows| <= 1
    ensures Report(rows).None?
  {
  }
}
