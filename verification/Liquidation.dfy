/** The leveraged-liquidation simulator: the trades' return fractions are
    replayed, compounding, against a margin account; the first trade after
    which equity is at or below the maintenance amount of that step is the
    liquidation point, and the replay goes on to the end regardless. */
module Liquidation {
  import opened Common

  /** Account parameters: starting capital, leverage, maintenance-margin rate
      and whether each trade is taken at full leveraged exposure. */
  datatype MarginConfig = MarginConfig(
    initCap: real,
    leverage: real,
    maintenanceRate: real,
    fullExposure: bool)

  /** The parameters the analysis is run with when nothing else is given. */
  const DefaultConfig := MarginConfig(300.0, 10.0, 0.005, true)

  /** Summary of one simulation run. */
  datatype LiquidationReport = LiquidationReport(
    initCap: real,
    leverage: real,
    maintenanceRate: real,
    liquidated: bool,
    liquidationIndex: Option<nat>,
    minEquity: real,
    finalEquity: real,
    maxDrawdownPct: real,
    cushion: Option<ExtReal>,
    equitySeries: seq<real>)

  /** Position size that an equity commands. */
  function Notional(cfg: MarginConfig, eq: real): real
  {
    if cfg.fullExposure then eq * cfg.leverage else eq
  }

  /** Maintenance amount of a step, from the equity held before the trade. */
  function MaintenanceAmount(cfg: MarginConfig, eq: real): real
  {
    cfg.maintenanceRate * Notional(cfg, eq)
  }

  /** Equity after a trade whose profit is `eq * r`. */
  function ApplyTrade(eq: real, r: real): real
  {
    eq + eq * r
  }

  /** A missing return counts as no return at all. */
  function FillMissing(tradeReturns: seq<Option<real>>): (rs: seq<real>)
    ensures |rs| == |tradeReturns|
    ensures forall k :: 0 <= k < |rs| ==>
      rs[k] == if tradeReturns[k].Some? then tradeReturns[k].value else 0.0
  {
    if |tradeReturns| == 0 then []
    else
      var last := match tradeReturns[|tradeReturns| - 1]
        case Some(r) => r
        case None => 0.0;
      FillMissing(tradeReturns[..|tradeReturns| - 1]) + [last]
  }

  /** The equity path: the starting capital, then the equity after each trade. */
  function EquitySeries(init: real, rs: seq<real>): (e: seq<real>)
    ensures |e| == |rs| + 1
    ensures e[0] == init
  {
    if |rs| == 0 then [init]
    else
      var prev := EquitySeries(init, rs[..|rs| - 1]);
      prev + [ApplyTrade(prev[|rs| - 1], rs[|rs| - 1])]
  }

  /** Each trade compounds the equity held before it: the equity after trade
      `k` is the equity before it times `1 + r_k`. */
  lemma {:induction false} EquityRecurrence(init: real, rs: seq<real>, k: nat)
    requires k < |rs|
    ensures EquitySeries(init, rs)[k + 1] == EquitySeries(init, rs)[k] * (1.0 + rs[k])
  {
    if k < |rs| - 1 {
      var prefix := rs[..|rs| - 1];
      EquityRecurrence(init, prefix, k);
      assert prefix[k] == rs[k];
    }
  }

  /** The maintenance amount recorded at each step of an equity path. */
  function MaintenanceSeries(cfg: MarginConfig, eqs: seq<real>): (m: seq<real>)
    requires |eqs| > 0
    ensures |m| == |eqs| - 1
  {
    if |eqs| == 1 then []
    else MaintenanceSeries(cfg, eqs[..|eqs| - 1]) + [MaintenanceAmount(cfg, eqs[|eqs| - 2])]
  }

  /** Trade `i` leaves equity at or below the maintenance amount recorded
      for its step. */
  predicate BreachAt(eqs: seq<real>, maint: seq<real>, i: nat)
    requires i < |maint| < |eqs|
  {
    eqs[i + 1] <= maint[i]
  }

  /** The liquidation index as the replay records it: set at the first breach
      and never overwritten.  It is the least breaching trade. */
  function FirstBreach(eqs: seq<real>, maint: seq<real>): (r: Option<nat>)
    requires |eqs| == |maint| + 1
    ensures r.Some? ==> r.value < |maint| && BreachAt(eqs, maint, r.value)
    ensures r.Some? ==> forall j :: 0 <= j < r.value ==> !BreachAt(eqs, maint, j)
    ensures r.None? ==> forall j :: 0 <= j < |maint| ==> !BreachAt(eqs, maint, j)
  {
    if |maint| == 0 then None
    else
      var n := |maint|;
      var eqs', maint' := eqs[..n], maint[..n - 1];
      assert forall j :: 0 <= j < n - 1 ==> (BreachAt(eqs', maint', j) <==> BreachAt(eqs, maint, j));
      match FirstBreach(eqs', maint')
      case Some(k) => Some(k)
      case None => if BreachAt(eqs, maint, n - 1) then Some(n - 1) else None
  }

  /** Liquidation index of an equity path under the given account parameters. */
  function LiquidationIndex(cfg: MarginConfig, eqs: seq<real>): Option<nat>
    requires |eqs| > 0
  {
    FirstBreach(eqs, MaintenanceSeries(cfg, eqs))
  }

  /** Running peak of the equity path up to and including step `i`. */
  function Peak(eqs: seq<real>, i: nat): real
    requires i < |eqs|
  {
    MaxOf(eqs[..i + 1])
  }

  /** Fractional decline from the running peak at every step. */
  function Drawdowns(eqs: seq<real>): (d: seq<real>)
    requires |eqs| > 0 && eqs[0] > 0.0
    ensures |d| == |eqs|
  {
    seq(|eqs|, i requires 0 <= i < |eqs| =>
      assert eqs[..i + 1][0] == eqs[0];
      (Peak(eqs, i) - eqs[i]) / Peak(eqs, i))
  }

  /** Largest drawdown of the path, in percent. */
  function MaxDrawdownPct(eqs: seq<real>): real
    requires |eqs| > 0 && eqs[0] > 0.0
  {
    MaxOf(Drawdowns(eqs)) * 100.0
  }

  /** Minimum equity over the smallest maintenance amount: absent when no
      trade was replayed, infinite when that amount is not positive. */
  function Cushion(eqs: seq<real>, maint: seq<real>): (c: Option<ExtReal>)
    requires |eqs| > 0
    ensures c.None? <==> |maint| == 0
    ensures c == Some(Infinite) <==> |maint| > 0 && MinOf(maint) <= 0.0
    ensures c.Some? && c.value.Finite? ==>
      MinOf(maint) > 0.0 && c.value.r * MinOf(maint) == MinOf(eqs)
  {
    if |maint| == 0 then None
    else
      var minMaint := MinOf(maint);
      if minMaint > 0.0 then Some(Finite(MinOf(eqs) / minMaint)) else Some(Infinite)
  }

  /** One more trade extends the equity path by the equity after that trade. */
  lemma {:induction false} EquityStep(init: real, rs: seq<real>, i: nat)
    requires i < |rs|
    ensures EquitySeries(init, rs[..i + 1])
      == EquitySeries(init, rs[..i]) + [ApplyTrade(EquitySeries(init, rs[..i])[i], rs[i])]
  {
    assert rs[..i + 1][..i] == rs[..i];
  }

  /** One more step extends the maintenance record by that step's amount. */
  lemma {:induction false} MaintenanceStep(cfg: MarginConfig, eqs: seq<real>, after: real)
    requires |eqs| > 0
    ensures MaintenanceSeries(cfg, eqs + [after])
      == MaintenanceSeries(cfg, eqs) + [MaintenanceAmount(cfg, eqs[|eqs| - 1])]
  {
    assert (eqs + [after])[..|eqs|] == eqs;
  }

  /** One more step leaves a recorded liquidation index alone and otherwise
      records this step if it breaches. */
  lemma {:induction false} BreachStep(eqs: seq<real>, maint: seq<real>, after: real, m: real)
    requires |eqs| == |maint| + 1
    ensures FirstBreach(eqs + [after], maint + [m]) ==
      match FirstBreach(eqs, maint)
      case Some(k) => Some(k)
      case None => if after <= m then Some(|maint|) else None
  {
    assert (eqs + [after])[..|eqs|] == eqs;
    assert (maint + [m])[..|maint|] == maint;
  }

  /** Replays the trades and summarises the run. */
  method AnalyzeLiquidationRisk(tradeReturns: seq<Option<real>>, cfg: MarginConfig)
    returns (rep: LiquidationReport)
    requires cfg.initCap > 0.0
    ensures rep.initCap == cfg.initCap && rep.leverage == cfg.leverage
    ensures rep.maintenanceRate == cfg.maintenanceRate
    ensures rep.equitySeries == EquitySeries(cfg.initCap, FillMissing(tradeReturns))
    ensures rep.liquidationIndex == LiquidationIndex(cfg, rep.equitySeries)
    ensures rep.liquidated <==> rep.liquidationIndex.Some?
    ensures rep.minEquity == MinOf(rep.equitySeries)
    ensures rep.minEquity <= rep.finalEquity && rep.minEquity <= cfg.initCap
    ensures rep.finalEquity == rep.equitySeries[|tradeReturns|]
    ensures rep.maxDrawdownPct == MaxDrawdownPct(rep.equitySeries)
    ensures rep.cushion == Cushion(rep.equitySeries, MaintenanceSeries(cfg, rep.equitySeries))
    ensures rep.maxDrawdownPct >= 0.0
    ensures |tradeReturns| == 0 ==>
      rep.equitySeries == [cfg.initCap] && !rep.liquidated
      && rep.maxDrawdownPct == 0.0 && rep.cushion.None?
  {
    var rs := FillMissing(tradeReturns);
    var eq := cfg.initCap;
    var equities := [eq];
    var maint: seq<real> := [];
    var liquidationIndex: Option<nat> := None;
    for i := 0 to |rs|
      invariant equities == EquitySeries(cfg.initCap, rs[..i])
      invariant eq == equities[i]
      invariant maint == MaintenanceSeries(cfg, equities)
      invariant liquidationIndex == FirstBreach(equities, maint)
    {
      var maintenance := MaintenanceAmount(cfg, eq);
      var eqAfter := ApplyTrade(eq, rs[i]);
      EquityStep(cfg.initCap, rs, i);
      MaintenanceStep(cfg, equities, eqAfter);
      BreachStep(equities, maint, eqAfter, maintenance);
      maint := maint + [maintenance];
      equities := equities + [eqAfter];
      if eqAfter <= maintenance && liquidationIndex.None? {
        liquidationIndex := Some(i);
      }
      eq := eqAfter;
    }
    assert rs[..|rs|] == rs;
    var minEquity := MinOf(equities);
    var finalEquity := equities[|equities| - 1];
    var maxDrawdown := MaxDrawdownPct(equities);
    DrawdownBounds(equities);
    var cushion := Cushion(equities, maint);
    rep := LiquidationReport(cfg.initCap, cfg.leverage, cfg.maintenanceRate,
      liquidationIndex.Some?, liquidationIndex, minEquity, finalEquity,
      maxDrawdown, cushion, equities);
  }

  /** Product of the growth factors `1 + r` of all trades. */
  function Growth(rs: seq<real>): real
  {
    if |rs| == 0 then 1.0 else Growth(rs[..|rs| - 1]) * (1.0 + rs[|rs| - 1])
  }

  function Pow(x: real, n: nat): real
  {
    if n == 0 then 1.0 else Pow(x, n - 1) * x
  }

  /** Compounding: the final equity is the starting capital times the product
      of the growth factors, not the capital plus the summed returns. */
  lemma {:induction false} FinalEquityCompounds(init: real, rs: seq<real>)
    ensures EquitySeries(init, rs)[|rs|] == init * Growth(rs)
  {
    if |rs| > 0 {
      var prefix := rs[..|rs| - 1];
      FinalEquityCompounds(init, prefix);
      var before := EquitySeries(init, prefix)[|rs| - 1];
      var g, a := Growth(prefix), 1.0 + rs[|rs| - 1];
      assert EquitySeries(init, rs)[|rs|] == before * a;
      assert before * a == (init * g) * a;
      assert (init * g) * a == init * (g * a);
    }
  }

  /** A constant loss fraction `p` applied `n` times leaves `init * (1 - p)^n`. */
  lemma {:induction false} ConstantLossCompounds(init: real, p: real, rs: seq<real>)
    requires forall k :: 0 <= k < |rs| ==> rs[k] == -p
    ensures EquitySeries(init, rs)[|rs|] == init * Pow(1.0 - p, |rs|)
  {
    ConstantGrowth(p, rs);
    FinalEquityCompounds(init, rs);
  }

  lemma {:induction false} ConstantGrowth(p: real, rs: seq<real>)
    requires forall k :: 0 <= k < |rs| ==> rs[k] == -p
    ensures Growth(rs) == Pow(1.0 - p, |rs|)
  {
    if |rs| > 0 {
      ConstantGrowth(p, rs[..|rs| - 1]);
    }
  }

  /** A trade whose return is missing leaves the equity where it was. */
  lemma {:induction false} MissingReturnKeepsEquity(init: real, tradeReturns: seq<Option<real>>, k: nat)
    requires k < |tradeReturns| && tradeReturns[k].None?
    ensures EquitySeries(init, FillMissing(tradeReturns))[k + 1]
         == EquitySeries(init, FillMissing(tradeReturns))[k]
  {
    EquityRecurrence(init, FillMissing(tradeReturns), k);
  }

  /** The equity path of a prefix of the trades is a prefix of the path. */
  lemma {:induction false} EquityPrefix(init: real, rs: seq<real>, m: nat)
    requires m <= |rs|
    ensures EquitySeries(init, rs[..m]) == EquitySeries(init, rs)[..m + 1]
  {
    if m < |rs| {
      var prefix := rs[..|rs| - 1];
      assert prefix[..m] == rs[..m];
      EquityPrefix(init, prefix, m);
    } else {
      assert rs[..m] == rs;
    }
  }

  /** The maintenance amount recorded for step `k` is computed from the
      equity held before trade `k`. */
  lemma {:induction false} MaintenanceAt(cfg: MarginConfig, eqs: seq<real>, k: nat)
    requires k < |eqs| - 1
    ensures MaintenanceSeries(cfg, eqs)[k] == MaintenanceAmount(cfg, eqs[k])
  {
    if k < |eqs| - 2 {
      MaintenanceAt(cfg, eqs[..|eqs| - 1], k);
    }
  }

  /** The maintenance record of a prefix of the path is a prefix of the record. */
  lemma {:induction false} MaintenancePrefix(cfg: MarginConfig, eqs: seq<real>, m: nat)
    requires 1 <= m <= |eqs|
    ensures MaintenanceSeries(cfg, eqs[..m]) == MaintenanceSeries(cfg, eqs)[..m - 1]
  {
    if m < |eqs| {
      var prev := eqs[..|eqs| - 1];
      assert prev[..m] == eqs[..m];
      MaintenancePrefix(cfg, prev, m);
    } else {
      assert eqs[..m] == eqs;
    }
  }

  /** A breach recorded on a prefix of the replay is the breach recorded on
      the whole replay. */
  lemma {:induction false} BreachPrefixSticky(eqs: seq<real>, maint: seq<real>, m: nat)
    requires |eqs| == |maint| + 1 && 1 <= m <= |eqs|
    requires FirstBreach(eqs[..m], maint[..m - 1]).Some?
    ensures FirstBreach(eqs, maint) == FirstBreach(eqs[..m], maint[..m - 1])
  {
    if m < |eqs| {
      var n := |maint|;
      assert eqs[..n][..m] == eqs[..m];
      assert maint[..n - 1][..m - 1] == maint[..m - 1];
      BreachPrefixSticky(eqs[..n], maint[..n - 1], m);
    } else {
      assert eqs[..m] == eqs && maint[..m - 1] == maint;
    }
  }

  /** Once a liquidation index is recorded, no later trade changes it. */
  lemma {:induction false} LiquidationIsSticky(cfg: MarginConfig, rs: seq<real>, m: nat)
    requires m <= |rs| && LiquidationIndex(cfg, EquitySeries(cfg.initCap, rs[..m])).Some?
    ensures LiquidationIndex(cfg, EquitySeries(cfg.initCap, rs))
         == LiquidationIndex(cfg, EquitySeries(cfg.initCap, rs[..m]))
  {
    var eqs := EquitySeries(cfg.initCap, rs);
    var prefix := EquitySeries(cfg.initCap, rs[..m]);
    assert prefix == eqs[..m + 1] by { EquityPrefix(cfg.initCap, rs, m); }
    StickyOnPath(cfg, eqs, prefix, m + 1);
  }

  lemma {:induction false} StickyOnPath(cfg: MarginConfig, eqs: seq<real>, prefix: seq<real>, m: nat)
    requires 1 <= m <= |eqs| && prefix == eqs[..m] && LiquidationIndex(cfg, prefix).Some?
    ensures LiquidationIndex(cfg, eqs) == LiquidationIndex(cfg, prefix)
  {
    MaintenancePrefix(cfg, eqs, m);
    BreachPrefixSticky(eqs, MaintenanceSeries(cfg, eqs), m);
  }

  /** With non-negative leverage and maintenance rate and a positive starting
      capital, equity never reaches zero before the recorded liquidation: the
      first trade that leaves equity at or below zero is at or after it. */
  lemma {:induction false} RuinNotBeforeLiquidation(cfg: MarginConfig, rs: seq<real>, j: nat)
    requires cfg.initCap > 0.0 && cfg.leverage >= 0.0 && cfg.maintenanceRate >= 0.0
    requires j < |rs| && EquitySeries(cfg.initCap, rs)[j + 1] <= 0.0
    ensures LiquidationIndex(cfg, EquitySeries(cfg.initCap, rs)).Some?
    ensures LiquidationIndex(cfg, EquitySeries(cfg.initCap, rs)).value <= j
  {
    var eqs := EquitySeries(cfg.initCap, rs);
    if eqs[j] > 0.0 {
      MaintenanceNonNegative(cfg, eqs[j]);
      MaintenanceAt(cfg, eqs, j);
      assert BreachAt(eqs, MaintenanceSeries(cfg, eqs), j);
    } else {
      assert j > 0;
      RuinNotBeforeLiquidation(cfg, rs, j - 1);
    }
  }

  lemma MaintenanceNonNegative(cfg: MarginConfig, eq: real)
    requires eq >= 0.0 && cfg.leverage >= 0.0 && cfg.maintenanceRate >= 0.0
    ensures MaintenanceAmount(cfg, eq) >= 0.0
  {
    assert Notional(cfg, eq) >= 0.0;
  }

  /** With the default parameters a single trade losing everything is
      liquidated at index 0: equity 0 is below the maintenance amount 15. */
  lemma TotalLossLiquidatesAtOnce()
    ensures EquitySeries(DefaultConfig.initCap, [-1.0]) == [300.0, 0.0]
    ensures MaintenanceSeries(DefaultConfig, [300.0, 0.0]) == [15.0]
    ensures LiquidationIndex(DefaultConfig, [300.0, 0.0]) == Some(0)
  {
    var eqs := EquitySeries(DefaultConfig.initCap, [-1.0]);
    assert [-1.0][..0] == [];
    assert eqs == [300.0, 0.0];
    assert [300.0, 0.0][..1] == [300.0];
    assert BreachAt([300.0, 0.0], [15.0], 0);
  }

  /** Each step's drawdown lies in [0, 1] (the upper bound while equity is
      not negative). */
  lemma {:induction false} DrawdownAt(eqs: seq<real>, i: nat)
    requires |eqs| > 0 && eqs[0] > 0.0 && i < |eqs|
    ensures Drawdowns(eqs)[i] >= 0.0
    ensures eqs[i] >= 0.0 ==> Drawdowns(eqs)[i] <= 1.0
  {
    var p := Peak(eqs, i);
    assert eqs[..i + 1][0] == eqs[0] && eqs[..i + 1][i] == eqs[i];
    assert p >= eqs[0] && p >= eqs[i];
    assert Drawdowns(eqs)[i] == (p - eqs[i]) / p;
    assert (p - eqs[i]) / p >= 0.0;
    if eqs[i] >= 0.0 {
      assert p - eqs[i] <= p;
    }
  }

  /** The maximum drawdown is non-negative, zero for a run without trades and
      at most 100 percent while equity never goes negative. */
  lemma {:induction false} DrawdownBounds(eqs: seq<real>)
    requires |eqs| > 0 && eqs[0] > 0.0
    ensures MaxDrawdownPct(eqs) >= 0.0
    ensures |eqs| == 1 ==> MaxDrawdownPct(eqs) == 0.0
    ensures (forall k :: 0 <= k < |eqs| ==> eqs[k] >= 0.0) ==> MaxDrawdownPct(eqs) <= 100.0
  {
    var d := Drawdowns(eqs);
    DrawdownAt(eqs, 0);
    assert eqs[..1] == [eqs[0]];
    assert d[0] == 0.0;
    var i :| 0 <= i < |d| && d[i] == MaxOf(d);
    DrawdownAt(eqs, i);
  }
}
