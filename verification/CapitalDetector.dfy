/** Best-effort recovery of a starting-capital figure from a workbook that has
    already been parsed into sheets of cells.  Two passes, first match wins:
    a header pass over column labels, then a label-cell pass over the top-left
    10 x 5 block of every sheet. */
module CapitalDetector {
  import opened Common

  /** A spreadsheet cell as the reader delivers it. */
  datatype Cell = Missing | Num(x: real) | Text(s: string)

  /** A sheet: its name and its rows of cells, row 0 first. */
  datatype Sheet = Sheet(name: string, grid: seq<seq<Cell>>)

  /** Where a detected figure came from: a labelled column, or a label cell
      and its 1-based position. */
  datatype Provenance =
    | Column(sheet: string, column: string)
    | Label(sheet: string, labelText: string, row: nat, col: nat)

  /** Text-to-number coercion of the workbook reader (numeric or absent). */
  type Parser = string -> Option<real>

  type Detection = Option<(real, Provenance)>

  const Keywords: seq<string> :=
    ["initial", "starting", "start", "capital", "balance", "initial capital", "initial balance"]

  /** Number of rows and columns the label pass looks at. */
  const BlockHeight := 10
  const BlockWidth := 5

  // ---------------------------------------------------------------- text

  function LowerChar(c: char): char
  {
    if 'A' <= c <= 'Z' then (c as int + 32) as char else c
  }

  /** Lower-casing of ASCII letters. */
  function Lower(s: string): (t: string)
    ensures |t| == |s|
  {
    seq(|s|, i requires 0 <= i < |s| => LowerChar(s[i]))
  }

  /** ASCII whitespace as trimmed by the reader's `strip`. */
  predicate IsSpace(c: char)
  {
    c == ' ' || 9 <= c as int <= 13 || 28 <= c as int <= 31
  }

  function StripLeft(s: string): string
  {
    if |s| > 0 && IsSpace(s[0]) then StripLeft(s[1..]) else s
  }

  function StripRight(s: string): string
  {
    if |s| > 0 && IsSpace(s[|s| - 1]) then StripRight(s[..|s| - 1]) else s
  }

  function Strip(s: string): string
  {
    StripRight(StripLeft(s))
  }

  /** `k` occurs in `s` starting at position `i`. */
  predicate OccursAt(s: string, k: string, i: nat)
  {
    i + |k| <= |s| && s[i..i + |k|] == k
  }

  /** Substring containment. */
  predicate Contains(s: string, k: string)
  {
    exists i | 0 <= i <= |s| :: OccursAt(s, k, i)
  }

  predicate HasKeyword(s: string)
  {
    exists k | k in Keywords :: Contains(s, k)
  }

  // ---------------------------------------------------------------- cells

  /** Width of a sheet: the reader pads every row to the longest one, so the
      sheet is as wide as its widest row (zero without rows);
      `WidthIsWidest` says so. */
  function Width(g: seq<seq<Cell>>): nat
  {
    if |g| == 0 then 0
    else
      var w' := Width(g[..|g| - 1]);
      if |g[|g| - 1]| > w' then |g[|g| - 1]| else w'
  }

  lemma {:induction false} WidthIsWidest(g: seq<seq<Cell>>)
    ensures forall i :: 0 <= i < |g| ==> |g[i]| <= Width(g)
    ensures Width(g) == 0 || exists i :: 0 <= i < |g| && |g[i]| == Width(g)
  {
    if |g| > 0 {
      var p := g[..|g| - 1];
      WidthIsWidest(p);
      assert forall i :: 0 <= i < |p| ==> p[i] == g[i];
    }
  }

  /** Cell at row `i`, column `j`; outside the grid, and past the end of a
      row shorter than the widest one, a cell is missing. */
  function At(g: seq<seq<Cell>>, i: nat, j: nat): Cell
  {
    if i < |g| && j < |g[i]| then g[i][j] else Missing
  }

  /** Numeric coercion of a cell: numbers stay, text goes through the reader's
      parser, missing cells have no value. */
  function Coerce(parse: Parser, c: Cell): Option<real>
  {
    match c
    case Missing => None
    case Num(x) => Some(x)
    case Text(s) => parse(s)
  }

  // ---------------------------------------------------------------- header pass

  /** A column label names a starting-capital column.  Labels that are not
      text (missing or numeric header cells) never contain a keyword. */
  predicate IsCapitalHeader(c: Cell)
  {
    c.Text? && HasKeyword(Lower(c.s))
  }

  /** First value of column `c`, from row `r` down, that coerces to a number. */
  function FirstNumberInColumn(parse: Parser, g: seq<seq<Cell>>, c: nat, r: nat): (v: Option<real>)
    decreases |g| - r
    ensures v.Some? ==> exists k :: (r <= k < |g| && Coerce(parse, At(g, k, c)) == v
                                     && forall k' :: r <= k' < k ==> Coerce(parse, At(g, k', c)).None?)
    ensures v.None? ==> forall k :: r <= k < |g| ==> Coerce(parse, At(g, k, c)).None?
  {
    if r >= |g| then None
    else
      match Coerce(parse, At(g, r, c))
      case Some(x) => Some(x)
      case None => FirstNumberInColumn(parse, g, c, r + 1)
  }

  /** What column `c` of a sheet contributes to the header pass: its first
      numeric value below the header row, if its label is a keyword label. */
  function ColumnHit(parse: Parser, sh: Sheet, c: nat): Detection
  {
    var header := At(sh.grid, 0, c);
    if c < Width(sh.grid) && IsCapitalHeader(header) then
      match FirstNumberInColumn(parse, sh.grid, c, 1)
      case Some(v) => Some((v, Column(sh.name, header.s)))
      case None => None
    else None
  }

  /** The header pass from sheet `s`, column `c` on, sheets then columns in
      order; the first column that yields a value wins. */
  function HeaderScan(parse: Parser, sheets: seq<Sheet>, s: nat, c: nat): (r: Detection)
    decreases |sheets| - s,
      if s < |sheets| && c <= Width(sheets[s].grid) then Width(sheets[s].grid) - c else 0
    ensures r.Some? ==> r.value.1.Column?
  {
    if s >= |sheets| then None
    else if c >= Width(sheets[s].grid) then HeaderScan(parse, sheets, s + 1, 0)
    else
      match ColumnHit(parse, sheets[s], c)
      case Some(h) => Some(h)
      case None => HeaderScan(parse, sheets, s, c + 1)
  }

  // ---------------------------------------------------------------- label pass

  function BlockRows(g: seq<seq<Cell>>): nat
  {
    if |g| < BlockHeight then |g| else BlockHeight
  }

  function BlockCols(g: seq<seq<Cell>>): nat
  {
    if Width(g) < BlockWidth then Width(g) else BlockWidth
  }

  /** The cell holding the figure for a label at (i, j): the right neighbour
      when there is one and it is not missing, else the cell below. */
  function Candidate(g: seq<seq<Cell>>, i: nat, j: nat): Cell
  {
    var right := if j + 1 < Width(g) then At(g, i, j + 1) else Missing;
    if right.Missing? && i + 1 < |g| then At(g, i + 1, j) else right
  }

  /** A label cell: present, and its trimmed lower-cased text holds a keyword. */
  predicate IsCapitalLabel(c: Cell)
  {
    c.Text? && HasKeyword(Lower(Strip(c.s)))
  }

  /** What cell (i, j) of a sheet contributes to the label pass. */
  function LabelHit(parse: Parser, sh: Sheet, i: nat, j: nat): Detection
  {
    var cell := At(sh.grid, i, j);
    if IsCapitalLabel(cell) then
      match Coerce(parse, Candidate(sh.grid, i, j))
      case Some(v) => Some((v, Label(sh.name, cell.s, i + 1, j + 1)))
      case None => None
    else None
  }

  /** The label pass from sheet `s`, cell (i, j) on: sheets, then rows, then
      columns of the top-left block; the first label that yields a value wins. */
  function LabelScan(parse: Parser, sheets: seq<Sheet>, s: nat, i: nat, j: nat): (r: Detection)
    decreases |sheets| - s,
      if s < |sheets| && i <= BlockRows(sheets[s].grid) then BlockRows(sheets[s].grid) - i else 0,
      if s < |sheets| && j <= BlockCols(sheets[s].grid) then BlockCols(sheets[s].grid) - j else 0
    ensures r.Some? ==> (r.value.1.Label?
                         && 1 <= r.value.1.row <= BlockHeight && 1 <= r.value.1.col <= BlockWidth)
  {
    if s >= |sheets| then None
    else if i >= BlockRows(sheets[s].grid) then LabelScan(parse, sheets, s + 1, 0, 0)
    else if j >= BlockCols(sheets[s].grid) then LabelScan(parse, sheets, s, i + 1, 0)
    else
      match LabelHit(parse, sheets[s], i, j)
      case Some(h) => Some(h)
      case None => LabelScan(parse, sheets, s, i, j + 1)
  }

  /** The detector: the header pass, and the label pass only when the header
      pass finds nothing in any sheet. */
  function Detect(parse: Parser, sheets: seq<Sheet>): Detection
  {
    match HeaderScan(parse, sheets, 0, 0)
    case Some(h) => Some(h)
    case None => LabelScan(parse, sheets, 0, 0, 0)
  }

  /** The detector as the nested search loops that return at the first match. */
  method DetectInitialCap(parse: Parser, sheets: seq<Sheet>) returns (r: Detection)
    ensures r == Detect(parse, sheets)
  {
    var s := 0;
    while s < |sheets|
      invariant 0 <= s <= |sheets|
      invariant HeaderScan(parse, sheets, s, 0) == HeaderScan(parse, sheets, 0, 0)
    {
      var g := sheets[s].grid;
      var c := 0;
      while c < Width(g)
        invariant 0 <= c <= Width(g)
        invariant HeaderScan(parse, sheets, s, c) == HeaderScan(parse, sheets, 0, 0)
      {
        var header := At(g, 0, c);
        if IsCapitalHeader(header) {
          var v := FirstNumberInColumn(parse, g, c, 1);
          if v.Some? {
            return Some((v.value, Column(sheets[s].name, header.s)));
          }
        }
        c := c + 1;
      }
      s := s + 1;
    }

    s := 0;
    while s < |sheets|
      invariant 0 <= s <= |sheets|
      invariant HeaderScan(parse, sheets, 0, 0).None?
      invariant LabelScan(parse, sheets, s, 0, 0) == LabelScan(parse, sheets, 0, 0, 0)
    {
      var g := sheets[s].grid;
      var rows := if |g| < BlockHeight then |g| else BlockHeight;
      var cols := if Width(g) < BlockWidth then Width(g) else BlockWidth;
      var i := 0;
      while i < rows
        invariant 0 <= i <= rows
        invariant LabelScan(parse, sheets, s, i, 0) == LabelScan(parse, sheets, 0, 0, 0)
      {
        var j := 0;
        while j < cols
          invariant 0 <= j <= cols
          invariant LabelScan(parse, sheets, s, i, j) == LabelScan(parse, sheets, 0, 0, 0)
        {
          var cell := At(g, i, j);
          if !cell.Missing? && IsCapitalLabel(cell) {
            var candidate := Missing;
            if j + 1 < Width(g) {
              candidate := At(g, i, j + 1);
            }
            if candidate.Missing? && i + 1 < |g| {
              candidate := At(g, i + 1, j);
            }
            if !candidate.Missing? {
              var num := Coerce(parse, candidate);
              if num.Some? {
                return Some((num.value, Label(sheets[s].name, cell.s, i + 1, j + 1)));
              }
            }
          }
          j := j + 1;
        }
        i := i + 1;
      }
      s := s + 1;
    }
    return None;
  }

  // ---------------------------------------------------------------- properties

  /** A keyword that extends another keyword adds nothing to a containment
      test: whatever holds the longer one holds its prefix. */
  lemma {:induction false} OccursPrefix(s: string, k: string, p: string, i: nat)
    requires OccursAt(s, k, i) && |p| <= |k| && k[..|p|] == p
    ensures OccursAt(s, p, i)
  {
    assert s[i..i + |p|] == s[i..i + |k|][..|p|];
  }

  /** The seven keywords reduce to four by substring containment. */
  lemma {:induction false} KeywordsReduce(s: string)
    ensures HasKeyword(s) <==>
      Contains(s, "initial") || Contains(s, "start") || Contains(s, "capital") || Contains(s, "balance")
  {
    if HasKeyword(s) {
      var k :| k in Keywords && Contains(s, k);
      var i :| 0 <= i <= |s| && OccursAt(s, k, i);
      if k == "starting" {
        OccursPrefix(s, k, "start", i);
      } else if k == "initial capital" || k == "initial balance" {
        OccursPrefix(s, k, "initial", i);
      }
    }
    if Contains(s, "initial") || Contains(s, "start") || Contains(s, "capital") || Contains(s, "balance") {
      assert "initial" in Keywords && "start" in Keywords && "capital" in Keywords && "balance" in Keywords;
    }
  }

  /** A text lacking one of the characters of `k` does not contain `k`. */
  lemma {:induction false} MissingCharNotContained(s: string, k: string, m: nat)
    requires m < |k| && k[m] !in s
    ensures !Contains(s, k)
  {
    forall i | 0 <= i <= |s|
      ensures !OccursAt(s, k, i)
    {
      if i + |k| <= |s| {
        assert s[i..i + |k|][m] == s[i + m];
      }
    }
  }

  /** Every keyword holds an `i`, an `s` or a `b`, so a text without those
      letters matches none. */
  lemma {:induction false} NoKeywordWithout(s: string)
    requires 'i' !in s && 's' !in s && 'b' !in s
    ensures !HasKeyword(s)
  {
    forall k | k in Keywords
      ensures !Contains(s, k)
    {
      MissingCharNotContained(s, k, if k == "capital" then 3 else 0);
    }
  }

  /** Column `(t, d)` comes before column `(s, c)` in the header pass order. */
  predicate ColumnBefore(t: nat, d: nat, s: nat, c: nat)
  {
    t < s || (t == s && d < c)
  }

  /** `(t, d)` names a column of the workbook. */
  predicate IsColumn(sheets: seq<Sheet>, t: nat, d: nat)
  {
    t < |sheets| && d < Width(sheets[t].grid)
  }

  /** No column from `(s, c)` on, and before `(u, e)`, yields a value. */
  ghost predicate NoColumnHitBetween(parse: Parser, sheets: seq<Sheet>, s: nat, c: nat, u: nat, e: nat)
  {
    forall t: nat, d: nat :: IsColumn(sheets, t, d) && !ColumnBefore(t, d, s, c) && ColumnBefore(t, d, u, e)
      ==> ColumnHit(parse, sheets[t], d).None?
  }

  lemma {:induction false} HeaderScanFrom(parse: Parser, sheets: seq<Sheet>, s: nat, c: nat)
    decreases |sheets| - s,
      if s < |sheets| && c <= Width(sheets[s].grid) then Width(sheets[s].grid) - c else 0
    ensures HeaderScan(parse, sheets, s, c).None? ==>
      NoColumnHitBetween(parse, sheets, s, c, |sheets|, 0)
    ensures HeaderScan(parse, sheets, s, c).Some? ==>
      exists t: nat, d: nat :: IsColumn(sheets, t, d) && !ColumnBefore(t, d, s, c)
        && ColumnHit(parse, sheets[t], d) == HeaderScan(parse, sheets, s, c)
        && NoColumnHitBetween(parse, sheets, s, c, t, d)
  {
    if s >= |sheets| {
    } else if c >= Width(sheets[s].grid) {
      HeaderScanFrom(parse, sheets, s + 1, 0);
      var r := HeaderScan(parse, sheets, s + 1, 0);
      if r.Some? {
        var t: nat, d: nat :| IsColumn(sheets, t, d) && !ColumnBefore(t, d, s + 1, 0)
          && ColumnHit(parse, sheets[t], d) == r && NoColumnHitBetween(parse, sheets, s + 1, 0, t, d);
        assert NoColumnHitBetween(parse, sheets, s, c, t, d);
      }
    } else if ColumnHit(parse, sheets[s], c).Some? {
      assert NoColumnHitBetween(parse, sheets, s, c, s, c);
    } else {
      HeaderScanFrom(parse, sheets, s, c + 1);
      var r := HeaderScan(parse, sheets, s, c + 1);
      if r.Some? {
        var t: nat, d: nat :| IsColumn(sheets, t, d) && !ColumnBefore(t, d, s, c + 1)
          && ColumnHit(parse, sheets[t], d) == r && NoColumnHitBetween(parse, sheets, s, c + 1, t, d);
        assert NoColumnHitBetween(parse, sheets, s, c, t, d);
      }
    }
  }

  /** The header pass finds nothing exactly when no column of any sheet
      yields a value. */
  lemma {:induction false} HeaderScanNone(parse: Parser, sheets: seq<Sheet>)
    ensures HeaderScan(parse, sheets, 0, 0).None? <==> NoColumnHitBetween(parse, sheets, 0, 0, |sheets|, 0)
  {
    HeaderScanFrom(parse, sheets, 0, 0);
  }

  /** A column that yields a value, with no productive column before it in
      sheet-then-column order, is what the header pass returns: a qualifying
      column without a number is passed over, and the first value of the
      first productive column wins. */
  lemma {:induction false} HeaderScanFirstHit(parse: Parser, sheets: seq<Sheet>, t: nat, d: nat)
    requires IsColumn(sheets, t, d) && ColumnHit(parse, sheets[t], d).Some?
    requires NoColumnHitBetween(parse, sheets, 0, 0, t, d)
    ensures HeaderScan(parse, sheets, 0, 0) == ColumnHit(parse, sheets[t], d)
  {
    HeaderScanFrom(parse, sheets, 0, 0);
    var r := HeaderScan(parse, sheets, 0, 0);
    if r.None? {
      assert ColumnBefore(t, d, |sheets|, 0);
    } else {
      var t': nat, d': nat :| IsColumn(sheets, t', d') && ColumnHit(parse, sheets[t'], d') == r
        && NoColumnHitBetween(parse, sheets, 0, 0, t', d');
      assert !ColumnBefore(t', d', t, d);
      assert !ColumnBefore(t, d, t', d');
    }
  }

  /** Conversely, whatever the header pass returns comes from a column that
      yields it with no productive column before it. */
  lemma {:induction false} HeaderScanFound(parse: Parser, sheets: seq<Sheet>)
    ensures HeaderScan(parse, sheets, 0, 0).Some? ==>
      exists t: nat, d: nat :: IsColumn(sheets, t, d)
        && ColumnHit(parse, sheets[t], d) == HeaderScan(parse, sheets, 0, 0)
        && NoColumnHitBetween(parse, sheets, 0, 0, t, d)
  {
    HeaderScanFrom(parse, sheets, 0, 0);
  }

  /** Cell `(t, a, b)` comes before cell `(s, i, j)` in the label pass order. */
  predicate CellBefore(t: nat, a: nat, b: nat, s: nat, i: nat, j: nat)
  {
    t < s || (t == s && (a < i || (a == i && b < j)))
  }

  /** `(t, a, b)` names a cell of the top-left block of a sheet. */
  predicate InBlock(sheets: seq<Sheet>, t: nat, a: nat, b: nat)
  {
    t < |sheets| && a < BlockRows(sheets[t].grid) && b < BlockCols(sheets[t].grid)
  }

  /** No block cell from `(s, i, j)` on, and before `(u, x, y)`, yields a value. */
  ghost predicate NoLabelHitBetween(parse: Parser, sheets: seq<Sheet>, s: nat, i: nat, j: nat, u: nat, x: nat, y: nat)
  {
    forall t: nat, a: nat, b: nat ::
      InBlock(sheets, t, a, b) && !CellBefore(t, a, b, s, i, j) && CellBefore(t, a, b, u, x, y)
      ==> LabelHit(parse, sheets[t], a, b).None?
  }

  /** Two adjacent stretches of the label pass order without a productive
      cell make one. */
  lemma {:induction false} NoLabelHitJoin(parse: Parser, sheets: seq<Sheet>, s: nat, i: nat, j: nat,
                       s2: nat, i2: nat, j2: nat, u: nat, x: nat, y: nat)
    requires !CellBefore(s2, i2, j2, s, i, j) && !CellBefore(u, x, y, s2, i2, j2)
    requires NoLabelHitBetween(parse, sheets, s, i, j, s2, i2, j2)
    requires NoLabelHitBetween(parse, sheets, s2, i2, j2, u, x, y)
    ensures NoLabelHitBetween(parse, sheets, s, i, j, u, x, y)
  {
  }

  lemma {:induction false} LabelScanFrom(parse: Parser, sheets: seq<Sheet>, s: nat, i: nat, j: nat)
    decreases |sheets| - s,
      if s < |sheets| && i <= BlockRows(sheets[s].grid) then BlockRows(sheets[s].grid) - i else 0,
      if s < |sheets| && j <= BlockCols(sheets[s].grid) then BlockCols(sheets[s].grid) - j else 0
    ensures LabelScan(parse, sheets, s, i, j).None? ==>
      NoLabelHitBetween(parse, sheets, s, i, j, |sheets|, 0, 0)
    ensures LabelScan(parse, sheets, s, i, j).Some? ==>
      exists t: nat, a: nat, b: nat :: InBlock(sheets, t, a, b) && !CellBefore(t, a, b, s, i, j)
        && LabelHit(parse, sheets[t], a, b) == LabelScan(parse, sheets, s, i, j)
        && NoLabelHitBetween(parse, sheets, s, i, j, t, a, b)
  {
    if s >= |sheets| {
    } else if i < BlockRows(sheets[s].grid) && j < BlockCols(sheets[s].grid)
      && LabelHit(parse, sheets[s], i, j).Some?
    {
      assert NoLabelHitBetween(parse, sheets, s, i, j, s, i, j);
    } else {
      var (s2, i2, j2) :=
        if i >= BlockRows(sheets[s].grid) then (s + 1, 0, 0)
        else if j >= BlockCols(sheets[s].grid) then (s, i + 1, 0)
        else (s, i, j + 1);
      LabelScanFrom(parse, sheets, s2, i2, j2);
      assert LabelScan(parse, sheets, s, i, j) == LabelScan(parse, sheets, s2, i2, j2);
      assert NoLabelHitBetween(parse, sheets, s, i, j, s2, i2, j2);
      var r := LabelScan(parse, sheets, s2, i2, j2);
      if r.None? {
        NoLabelHitJoin(parse, sheets, s, i, j, s2, i2, j2, |sheets|, 0, 0);
      } else {
        var t: nat, a: nat, b: nat :| InBlock(sheets, t, a, b) && !CellBefore(t, a, b, s2, i2, j2)
          && LabelHit(parse, sheets[t], a, b) == r && NoLabelHitBetween(parse, sheets, s2, i2, j2, t, a, b);
        NoLabelHitJoin(parse, sheets, s, i, j, s2, i2, j2, t, a, b);
      }
    }
  }

  /** The label pass finds nothing exactly when no block cell of any sheet
      yields a value. */
  lemma {:induction false} LabelScanNone(parse: Parser, sheets: seq<Sheet>)
    ensures LabelScan(parse, sheets, 0, 0, 0).None? <==> NoLabelHitBetween(parse, sheets, 0, 0, 0, |sheets|, 0, 0)
  {
    LabelScanFrom(parse, sheets, 0, 0, 0);
  }

  /** A block cell that yields a value, with no productive cell before it in
      sheet, row, column order, is what the label pass returns: a label whose
      candidate is missing or not numeric does not stop the scan. */
  lemma {:induction false} LabelScanFirstHit(parse: Parser, sheets: seq<Sheet>, t: nat, a: nat, b: nat)
    requires InBlock(sheets, t, a, b) && LabelHit(parse, sheets[t], a, b).Some?
    requires NoLabelHitBetween(parse, sheets, 0, 0, 0, t, a, b)
    ensures LabelScan(parse, sheets, 0, 0, 0) == LabelHit(parse, sheets[t], a, b)
  {
    LabelScanFrom(parse, sheets, 0, 0, 0);
    var r := LabelScan(parse, sheets, 0, 0, 0);
    if r.None? {
      assert CellBefore(t, a, b, |sheets|, 0, 0);
    } else {
      var t': nat, a': nat, b': nat :| InBlock(sheets, t', a', b') && LabelHit(parse, sheets[t'], a', b') == r
        && NoLabelHitBetween(parse, sheets, 0, 0, 0, t', a', b');
      assert !CellBefore(t', a', b', t, a, b);
      assert !CellBefore(t, a, b, t', a', b');
    }
  }

  /** Conversely, whatever the label pass returns comes from a block cell
      that yields it with no productive cell before it. */
  lemma {:induction false} LabelScanFound(parse: Parser, sheets: seq<Sheet>)
    ensures LabelScan(parse, sheets, 0, 0, 0).Some? ==>
      exists t: nat, a: nat, b: nat :: InBlock(sheets, t, a, b)
        && LabelHit(parse, sheets[t], a, b) == LabelScan(parse, sheets, 0, 0, 0)
        && NoLabelHitBetween(parse, sheets, 0, 0, 0, t, a, b)
  {
    LabelScanFrom(parse, sheets, 0, 0, 0);
  }

  /** Any productive header column decides the result: the label pass is
      then never consulted. */
  lemma {:induction false} DetectPrefersHeader(parse: Parser, sheets: seq<Sheet>, t: nat, d: nat)
    requires IsColumn(sheets, t, d) && ColumnHit(parse, sheets[t], d).Some?
    ensures Detect(parse, sheets) == HeaderScan(parse, sheets, 0, 0)
    ensures Detect(parse, sheets).Some? && Detect(parse, sheets).value.1.Column?
  {
    HeaderScanNone(parse, sheets);
    assert !ColumnBefore(t, d, 0, 0) && ColumnBefore(t, d, |sheets|, 0);
  }

  /** With no productive header column the label pass decides, and nothing
      at all is found exactly when it finds nothing either. */
  lemma {:induction false} DetectFallsBack(parse: Parser, sheets: seq<Sheet>)
    requires NoColumnHitBetween(parse, sheets, 0, 0, |sheets|, 0)
    ensures Detect(parse, sheets) == LabelScan(parse, sheets, 0, 0, 0)
    ensures Detect(parse, sheets).None? <==> NoLabelHitBetween(parse, sheets, 0, 0, 0, |sheets|, 0, 0)
  {
    HeaderScanNone(parse, sheets);
    LabelScanNone(parse, sheets);
  }

  /** A "Starting Balance" column holding 1000 then 2000 yields its first
      value, not the largest, smallest or mean. */
  lemma StartingBalanceExample(parse: Parser)
    ensures Detect(parse, [Sheet("Trades", [[Text("Starting Balance")], [Num(1000.0)], [Num(2000.0)]])])
      == Some((1000.0, Column("Trades", "Starting Balance")))
  {
    StartingBalanceIsHeader();
  }

  lemma StartingBalanceIsHeader()
    ensures IsCapitalHeader(Text("Starting Balance"))
  {
    assert Lower("Starting Balance") == "starting balance";
    assert OccursAt("starting balance", "start", 0);
    assert "start" in Keywords;
  }

  /** A label cell in the header row has no values under it as a column, so
      the label pass finds it and reads the figure to its right. */
  lemma LabelBesideValueExample(parse: Parser)
    ensures Detect(parse, [Sheet("Setup", [[Text("Initial Capital"), Num(5000.0)]])])
      == Some((5000.0, Label("Setup", "Initial Capital", 1, 1)))
  {
    var sheets := [Sheet("Setup", [[Text("Initial Capital"), Num(5000.0)]])];
    assert OccursAt(Lower(Strip("Initial Capital")), "initial", 0) by {
      assert Strip("Initial Capital") == "Initial Capital";
      assert Lower("Initial Capital") == "initial capital";
    }
    KeywordLabel("Initial Capital", "initial");
    assert Width(sheets[0].grid) == 2;
    assert HeaderScan(parse, sheets, 0, 0).None?;
  }

  /** A text whose trimmed lower-cased form starts with a keyword is a label. */
  lemma KeywordLabel(text: string, k: string)
    requires k in Keywords && OccursAt(Lower(Strip(text)), k, 0)
    ensures IsCapitalLabel(Text(text))
  {
  }

  /** A trimmed label with no cell to its right takes the cell below, and
      the position is reported 1-based. */
  lemma LabelAboveValueExample(parse: Parser)
    ensures Detect(parse, [Sheet("S", [[Text("Account")], [Text(" capital ")], [Num(700.0)]])])
      == Some((700.0, Label("S", " capital ", 2, 1)))
  {
    var sheets := [Sheet("S", [[Text("Account")], [Text(" capital ")], [Num(700.0)]])];
    AccountIsNoLabel();
    PaddedCapitalTrims();
    KeywordLabel(" capital ", "capital");
    var g := sheets[0].grid;
    SingleColumnWidth(g);
    assert HeaderScan(parse, sheets, 0, 0).None?;
    assert LabelHit(parse, sheets[0], 0, 0).None?;
    assert Candidate(g, 1, 0) == Num(700.0);
    assert LabelScan(parse, sheets, 0, 1, 0) == Some((700.0, Label("S", " capital ", 2, 1)));
  }

  /** Rows shorter than the widest one are padded with missing cells: a label
      on a row wider than the header row still reads the figure to its
      right. */
  lemma RaggedRowExample(parse: Parser)
    ensures Detect(parse, [Sheet("S", [[Text("Account")], [Text("Capital"), Num(500.0)]])])
      == Some((500.0, Label("S", "Capital", 2, 1)))
  {
    var sheets := [Sheet("S", [[Text("Account")], [Text("Capital"), Num(500.0)]])];
    AccountIsNoLabel();
    assert OccursAt(Lower(Strip("Capital")), "capital", 0) by {
      assert Strip("Capital") == "Capital";
      assert Lower("Capital") == "capital";
    }
    KeywordLabel("Capital", "capital");
    assert Width(sheets[0].grid) == 2;
    assert HeaderScan(parse, sheets, 0, 0).None?;
  }

  lemma PaddedCapitalTrims()
    ensures OccursAt(Lower(Strip(" capital ")), "capital", 0)
  {
    assert Strip(" capital ") == "capital";
    assert Lower("capital") == "capital";
  }

  /** A non-empty sheet whose rows all hold one cell is one column wide. */
  lemma {:induction false} SingleColumnWidth(g: seq<seq<Cell>>)
    requires |g| > 0 && forall i :: 0 <= i < |g| ==> |g[i]| == 1
    ensures Width(g) == 1
  {
    if |g| > 1 {
      SingleColumnWidth(g[..|g| - 1]);
    }
  }

  lemma AccountIsNoLabel()
    ensures !HasKeyword(Lower("Account")) && !IsCapitalLabel(Text("Account"))
  {
    assert Lower("Account") == "account";
    assert !HasKeyword("account") by { NoKeywordWithout("account"); }
    assert Strip("Account") == "Account";
  }
}
