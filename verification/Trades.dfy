/** Turning the rows of a trade log into completed trades.  The log holds one
    row per fill, entry and exit alternating, so rows 2k and 2k+1 make trade
    k+1; only the exit row's return and date are kept, and a final row
    without a partner is skipped. */
module Trades {
  import opened Common

  /** One row of the log: its percentage return (absent when the cell is
      empty) and the calendar month of its date, as the month index
      `12 * year + (month - 1)` (absent when the cell holds no date). */
  datatype Row = Row(pnlPct: Option<real>, month: Option<int>)

  /** A completed trade: its 1-based number, its percentage return and the
      month it closed in, if its date is known. */
  datatype Trade = Trade(id: nat, pnlPct: real, month: Option<int>)

  /** The trade's return as a fraction (2.0 percent is 0.02). */
  function Return(t: Trade): real
  {
    t.pnlPct / 100.0
  }

  /** The fractional returns of a sequence of trades, in order. */
  function Returns(ts: seq<Trade>): (rs: seq<real>)
    ensures |rs| == |ts|
    ensures forall k :: 0 <= k < |ts| ==> rs[k] == Return(ts[k])
  {
    if |ts| == 0 then [] else Returns(ts[..|ts| - 1]) + [Return(ts[|ts| - 1])]
  }

  /** The trade made of rows `2k` (entry) and `2k+1` (exit): an empty return
      cell counts as a zero return. */
  function PairAt(rows: seq<Row>, k: nat): Trade
    requires 2 * k + 1 < |rows|
  {
    var exit := rows[2 * k + 1];
    Trade(k + 1, if exit.pnlPct.Some? then exit.pnlPct.value else 0.0, exit.month)
  }

  /** The first `m` trades of the log. */
  function PairsUpTo(rows: seq<Row>, m: nat): (ts: seq<Trade>)
    requires 2 * m <= |rows|
    ensures |ts| == m
    ensures forall k :: 0 <= k < m ==> ts[k] == PairAt(rows, k)
  {
    if m == 0 then [] else PairsUpTo(rows, m - 1) + [PairAt(rows, m - 1)]
  }

  /** Every complete entry/exit pair of the log, in order. */
  function PairedTrades(rows: seq<Row>): (ts: seq<Trade>)
    ensures |ts| == |rows| / 2
    ensures forall k :: 0 <= k < |ts| ==> ts[k].id == k + 1 && ts[k].month == rows[2 * k + 1].month
    ensures forall k :: 0 <= k < |ts| ==>
      ts[k].pnlPct == (if rows[2 * k + 1].pnlPct.Some? then rows[2 * k + 1].pnlPct.value else 0.0)
  {
    PairsUpTo(rows, |rows| / 2)
  }

  /** Entry rows play no part: two logs that agree on every exit row give
      the same trades. */
  lemma EntryRowsIgnored(rows: seq<Row>, rows': seq<Row>)
    requires |rows| == |rows'|
    requires forall k :: 0 <= k < |rows| / 2 ==> rows[2 * k + 1] == rows'[2 * k + 1]
    ensures PairedTrades(rows) == PairedTrades(rows')
  {
    var ts, ts' := PairedTrades(rows), PairedTrades(rows');
    assert forall k :: 0 <= k < |ts| ==> ts[k] == ts'[k];
  }

  /** A row left over at the end of a log of complete pairs is skipped. */
  lemma TrailingRowIgnored(rows: seq<Row>, r: Row)
    requires |rows| % 2 == 0
    ensures PairedTrades(rows + [r]) == PairedTrades(rows)
  {
    var ts, ts' := PairedTrades(rows + [r]), PairedTrades(rows);
    assert forall k :: 0 <= k < |ts| ==> ts[k] == ts'[k];
  }

  /** One more entry/exit pair at the end of a log adds exactly one trade,
      numbered after the others. */
  lemma PairAppended(rows: seq<Row>, entry: Row, exit: Row)
    requires |rows| % 2 == 0
    ensures PairedTrades(rows + [entry, exit]) ==
      PairedTrades(rows) + [Trade(|rows| / 2 + 1, if exit.pnlPct.Some? then exit.pnlPct.value else 0.0, exit.month)]
  {
    var ts, ts' := PairedTrades(rows + [entry, exit]), PairedTrades(rows);
    assert forall k :: 0 <= k < |ts'| ==> ts[k] == ts'[k];
  }

  /** The pairing loop: walk the rows two at a time and append a trade for
      every pair that has its exit row. */
  method PairTrades(rows: seq<Row>) returns (trades: seq<Trade>)
    ensures trades == PairedTrades(rows)
  {
    trades := [];
    var i := 0;
    while i < |rows|
      invariant 0 <= i <= |rows| + 1 && i % 2 == 0
      invariant i < |rows| ==> trades == PairsUpTo(rows, i / 2)
      invariant i >= |rows| ==> trades == PairsUpTo(rows, |rows| / 2)
    {
      if i + 1 < |rows| {
        var exit := rows[i + 1];
        var pnl := if exit.pnlPct.Some? then exit.pnlPct.value else 0.0;
        trades := trades + [Trade(i / 2 + 1, pnl, exit.month)];
      }
      i := i + 2;
    }
  }
}
