/**
 * The layout pass of src/ElasticTabstops.cpp: `stretch_tabstops` filling a
 * grid of cells in place (scan, stretch and set-tabstop phases) and
 * `ElasticTabstops_OnModify`, which sets the width constants and picks the
 * block of lines to lay out around an edit.
 */
module ElasticTabstops {
  import opened Util
  import opened Cells
  import opened Columns
  import opened Boundary

  /**
   * One grid cell (`et_tabstop`).  `widest` stands for the pointer
   * `widest_width_pix`: it names the first line of the cell's block, whose
   * cell in the same column holds the block's width.
   */
  datatype Cell = Cell(textWidth: nat, widest: Option<nat>, endsInTab: bool)

  const EmptyCell: Cell := Cell(0, None, false)

  /** The padded cell widths of the `n` lines from line `first` on. */
  function BlockRows(w: Widths, measure: seq<char> -> nat, lines: seq<seq<char>>, first: nat, n: nat): seq<seq<nat>>
    requires first + n <= |lines|
  {
    seq(n, l requires 0 <= l < n => CellWidths(w, measure, lines[first + l]))
  }

  /** Tabstop lists `ts` with the lists of lines `first..first+|block|-1` replaced by `block`. */
  function Splice(ts: seq<seq<nat>>, first: nat, block: seq<seq<nat>>): (r: seq<seq<nat>>)
    requires first + |block| <= |ts|
    ensures |r| == |ts|
    ensures forall k :: 0 <= k < |ts| ==> r[k] == if first <= k < first + |block| then block[k - first] else ts[k]
  {
    seq(|ts|, k requires 0 <= k < |ts| => if first <= k < first + |block| then block[k - first] else ts[k])
  }

  /**
   * The editing surface as far as the engine uses it: the text, the
   * per-line tabstop lists it holds, whether the buffer indents with real
   * tabs, its tab width, the width of one character and the text-width oracle.
   */
  class Editor {
    var lines: seq<seq<char>>
    var tabstops: seq<seq<nat>>
    var useTabs: bool
    var tabWidth: nat
    var charWidth: nat
    var measure: seq<char> -> nat

    ghost predicate Valid()
      reads this
    {
      |lines| > 0 && |tabstops| == |lines|
    }

    constructor (text: seq<seq<char>>, useTabs: bool, tabWidth: nat, charWidth: nat, measure: seq<char> -> nat)
      requires |text| > 0
      ensures Valid()
      ensures lines == text && this.useTabs == useTabs && this.tabWidth == tabWidth
      ensures this.charWidth == charWidth && this.measure == measure
      ensures forall k :: 0 <= k < |tabstops| ==> tabstops[k] == []
    {
      lines, this.useTabs, this.tabWidth, this.charWidth, this.measure := text, useTabs, tabWidth, charWidth, measure;
      tabstops := seq(|text|, _ => []);
    }

    /** `SCI_CLEARTABSTOPS`. */
    method ClearTabstops(line: nat)
      requires Valid() && line < |lines|
      modifies this`tabstops
      ensures Valid()
      ensures tabstops == old(tabstops)[line := []]
    {
      tabstops := tabstops[line := []];
    }

    /** `SCI_ADDTABSTOP`, for offsets added in increasing order. */
    method AddTabstop(line: nat, offset: nat)
      requires Valid() && line < |lines|
      modifies this`tabstops
      ensures Valid()
      ensures tabstops == old(tabstops)[line := old(tabstops)[line] + [offset]]
    {
      tabstops := tabstops[line := tabstops[line] + [offset]];
    }
  }

  /** A cell as the scan phase leaves it. */
  ghost predicate ScannedCell(c: Cell, row: seq<nat>, t: nat)
  {
    if t < |row| then c == Cell(row[t], None, true) else c == EmptyCell
  }

  /**
   * A cell of column `t` once lines `0..done-1` of that column have been
   * stretched: it points at the first line of its block, and a block's first
   * cell holds the widest cell of the block seen so far.
   */
  ghost predicate StretchingCell(c: Cell, rows: seq<seq<nat>>, k: nat, t: nat, done: nat)
    requires k < done <= |rows|
  {
    if t < |rows[k]| then
      c.endsInTab && c.widest == Some(RunStart(rows, t, k)) &&
      c.textWidth == if RunStart(rows, t, k) == k
        then ColumnMax(rows, t, k, if RunEnd(rows, t, k) < done then RunEnd(rows, t, k) else done)
        else rows[k][t]
    else c == EmptyCell
  }

  /** A cell as the stretch phase leaves it. */
  ghost predicate StretchedCell(c: Cell, rows: seq<seq<nat>>, k: nat, t: nat)
    requires k < |rows|
  {
    if t < |rows[k]| then
      c.endsInTab && c.widest == Some(RunStart(rows, t, k)) &&
      c.textWidth == if RunStart(rows, t, k) == k then Stretched(rows, t, k) else rows[k][t]
    else c == EmptyCell
  }

  /**
   * Scan phase for line `l` of the grid: one cell per tab, holding
   * `calc_tab_width` of the text before the tab; returns the line's tab count.
   */
  method ScanLine(grid: array2<Cell>, l: nat, line: seq<char>, w: Widths, measure: seq<char> -> nat) returns (numTabs: nat)
    requires l < grid.Length0
    requires NumTabs(line) <= grid.Length1
    requires forall t :: 0 <= t < grid.Length1 ==> grid[l, t] == EmptyCell
    modifies grid
    ensures numTabs == |CellWidths(w, measure, line)|
    ensures forall t :: 0 <= t < grid.Length1 ==> ScannedCell(grid[l, t], CellWidths(w, measure, line), t)
    ensures forall k, t :: 0 <= k < grid.Length0 && 0 <= t < grid.Length1 && k != l ==> grid[k, t] == old(grid[k, t])
  {
    var textWidthInTab: nat := 0;
    var tabNum := 0;
    var cellEmpty := true;
    var i := 0;
    var cellStart := 0;
    ghost var cells: seq<seq<char>> := [];
    ghost var rest: seq<char> := [];
    ghost var row: seq<nat> := [];
    TabsFromDrop(line, 0);
    while true
      invariant 0 <= i <= |line|
      invariant forall k :: 0 <= k < i ==> line[k] != NUL
      invariant SplitCells(line[..i]) == Split(cells, rest)
      invariant tabNum == |cells| && tabNum + TabsFrom(line, i) == NumTabs(line)
      invariant row == PaddedWidths(w, measure, cells)
      invariant textWidthInTab == 0
      invariant cellEmpty <==> rest == []
      invariant !cellEmpty ==> cellStart < i && line[cellStart..i] == rest
      invariant forall t :: 0 <= t < grid.Length1 ==> ScannedCell(grid[l, t], row, t)
      invariant forall k, t :: 0 <= k < grid.Length0 && 0 <= t < grid.Length1 && k != l ==> grid[k, t] == old(grid[k, t])
      decreases |line| - i
    {
      if i == |line| || line[i] == NUL {
        // Line end or the end of the text.  At the line end the source also
        // clears `ends_in_tab` of the slot after the last cell; that slot is
        // past the row when the line has as many tabs as the grid has columns,
        // so the write is guarded here.  It assigns the default value.
        if i == |line| && tabNum < grid.Length1 {
          grid[l, tabNum] := grid[l, tabNum].(endsInTab := false);
        }
        break;
      }
      ScanStep(line, i, cells, rest);
      if line[i] == TAB {
        if !cellEmpty {
          textWidthInTab := measure(line[cellStart..i]);
        }
        assert textWidthInTab == TextWidth(measure, rest);
        grid[l, tabNum] := grid[l, tabNum].(endsInTab := true, textWidth := CalcTabWidth(w, textWidthInTab));
        PaddedWidthsSnoc(w, measure, cells, rest);
        row := row + [CalcTabWidth(w, textWidthInTab)];
        tabNum := tabNum + 1;
        textWidthInTab := 0;
        cellEmpty := true;
        cells, rest := cells + [rest], [];
      } else {
        if cellEmpty {
          cellStart := i;
          cellEmpty := false;
        }
        ExtendSlice(line, cellStart, i);
        rest := rest + [line[i]];
      }
      i := i + 1;
    }
    numTabs := tabNum;
    VisibleLengthUnique(line, i);
    assert line[..i] == Visible(line);
  }

  lemma ExtendSlice(line: seq<char>, start: nat, i: nat)
    requires start <= i < |line|
    ensures line[start..i + 1] == line[start..i] + [line[i]]
  {
  }

  /** Column `t` of the grid. */
  ghost function ColumnOf(grid: array2<Cell>, t: nat): (col: seq<Cell>)
    requires t < grid.Length1
    reads grid
    ensures |col| == grid.Length0
    ensures forall k :: 0 <= k < grid.Length0 ==> col[k] == grid[k, t]
  {
    seq(grid.Length0, k requires 0 <= k < grid.Length0 reads grid => grid[k, t])
  }

  /** The loop variables of the stretch phase after lines `0..l-1` of column `t`: the open block and its width. */
  ghost predicate StretchFlags(col: seq<Cell>, rows: seq<seq<nat>>, t: nat, l: nat, startingNewBlock: bool, firstLine: nat, maxWidth: nat)
    requires |col| == |rows| && l <= |rows|
  {
    (startingNewBlock <==> (l == 0 || !HasCell(rows, t, l - 1))) &&
    (!startingNewBlock ==> firstLine < l && col[l - 1].widest == Some(firstLine) && col[firstLine].textWidth == maxWidth)
  }

  /** Every visited cell of column `t` is partially stretched. */
  ghost predicate StretchVisited(col: seq<Cell>, rows: seq<seq<nat>>, t: nat, l: nat)
    requires |col| == |rows| && l <= |rows|
  {
    forall k {:trigger StretchingCell(col[k], rows, k, t, l)} :: 0 <= k < l ==> StretchingCell(col[k], rows, k, t, l)
  }

  /** Every block of column `t` that starts above line `l`, other than the open one, ends by line `l`. */
  ghost predicate StretchClosed(rows: seq<seq<nat>>, t: nat, l: nat, startingNewBlock: bool, firstLine: nat)
    requires l <= |rows|
  {
    forall k {:trigger RunStart(rows, t, k)} :: 0 <= k < l && t < |rows[k]| && RunStart(rows, t, k) == k && (startingNewBlock || k != firstLine)
      ==> RunEnd(rows, t, k) <= l
  }

  /** The cells of column `t` from line `l` on are as scanned. */
  ghost predicate StretchPending(col: seq<Cell>, rows: seq<seq<nat>>, t: nat, l: nat)
    requires |col| == |rows| && l <= |rows|
  {
    forall k {:trigger ScannedCell(col[k], rows[k], t)} :: l <= k < |rows| ==> ScannedCell(col[k], rows[k], t)
  }

  /** The state of the stretch phase after lines `0..l-1` of column `t`. */
  ghost predicate StretchState(col: seq<Cell>, rows: seq<seq<nat>>, t: nat, l: nat, startingNewBlock: bool, firstLine: nat, maxWidth: nat)
  {
    |col| == |rows| && l <= |rows| &&
    StretchFlags(col, rows, t, l, startingNewBlock, firstLine, maxWidth) &&
    StretchVisited(col, rows, t, l) &&
    StretchClosed(rows, t, l, startingNewBlock, firstLine) &&
    StretchPending(col, rows, t, l)
  }

  /** A visited cell whose block is already closed keeps its value when one more line is visited. */
  lemma KeepsStretching(c: Cell, rows: seq<seq<nat>>, k: nat, t: nat, l: nat)
    requires k < l < |rows|
    requires StretchingCell(c, rows, k, t, l)
    requires t < |rows[k]| && RunStart(rows, t, k) == k ==> RunEnd(rows, t, k) <= l
    ensures StretchingCell(c, rows, k, t, l + 1)
  {
  }

  /** The open block starts at `firstLine`, runs on past line `l - 1`, and `maxWidth` is its widest cell so far. */
  lemma OpenBlock(col: seq<Cell>, rows: seq<seq<nat>>, t: nat, l: nat, firstLine: nat, maxWidth: nat)
    requires StretchState(col, rows, t, l, false, firstLine, maxWidth)
    ensures firstLine < l && firstLine == RunStart(rows, t, l - 1)
    ensures HasCell(rows, t, firstLine) && RunStart(rows, t, firstLine) == firstLine && RunEnd(rows, t, firstLine) >= l
    ensures maxWidth == ColumnMax(rows, t, firstLine, l)
  {
    assert StretchingCell(col[l - 1], rows, l - 1, t, l);
    InRunIffSameStart(rows, t, l - 1, firstLine);
    SameRun(rows, t, firstLine, l - 1);
    assert StretchingCell(col[firstLine], rows, firstLine, t, l);
  }

  /** The cell of the line just visited, which joins (or opens) the block starting at `f`. */
  lemma JoinedCell(rows: seq<seq<nat>>, t: nat, l: nat, f: nat)
    requires l + 1 <= |rows| && HasCell(rows, t, l) && RunStart(rows, t, l) == f
    ensures StretchingCell(Cell(rows[l][t], Some(f), true), rows, l, t, l + 1)
  {
    if f == l {
      assert ColumnMax(rows, t, l, l + 1) == Max(0, rows[l][t]);
    }
  }

  /** The first cell of the open block after line `l` joined it. */
  lemma WidenedCell(c: Cell, rows: seq<seq<nat>>, t: nat, l: nat, f: nat, m: nat)
    requires f < l < |rows| && HasCell(rows, t, f) && RunStart(rows, t, f) == f && RunEnd(rows, t, f) > l
    requires StretchingCell(c, rows, f, t, l)
    requires m == ColumnMax(rows, t, f, l + 1)
    ensures StretchingCell(c.(textWidth := m), rows, f, t, l + 1)
  {
  }

  /** The visited cells after a line with a cell in column `t` joined the block starting at `f`. */
  lemma CellVisited(col: seq<Cell>, rows: seq<seq<nat>>, t: nat, l: nat, startingNewBlock: bool, firstLine: nat,
                    f: nat, m: nat, col2: seq<Cell>)
    requires |col| == |rows| && l < |rows| && HasCell(rows, t, l)
    requires StretchVisited(col, rows, t, l) && StretchClosed(rows, t, l, startingNewBlock, firstLine)
    requires f == if startingNewBlock then l else firstLine
    requires RunStart(rows, t, l) == f
    requires f < l ==> RunEnd(rows, t, f) > l && RunStart(rows, t, f) == f && HasCell(rows, t, f)
    requires m == ColumnMax(rows, t, f, l + 1)
    requires |col2| == |col|
    requires col2[l] == Cell(rows[l][t], Some(f), true)
    requires f < l ==> col2[f] == col[f].(textWidth := m)
    requires forall k :: 0 <= k < |col| && k != l && k != f ==> col2[k] == col[k]
    ensures StretchVisited(col2, rows, t, l + 1)
  {
    JoinedCell(rows, t, l, f);
    if f < l {
      WidenedCell(col[f], rows, t, l, f, m);
    }
    forall k | 0 <= k < l + 1
      ensures StretchingCell(col2[k], rows, k, t, l + 1)
    {
      if k < l && k != f {
        KeepsStretching(col[k], rows, k, t, l);
      }
    }
  }

  /** A line with a cell in column `t` joins the open block (or opens one at `f == l`). */
  lemma StretchStepCell(col: seq<Cell>, rows: seq<seq<nat>>, t: nat, l: nat, startingNewBlock: bool, firstLine: nat, maxWidth: nat,
                        f: nat, m: nat, col2: seq<Cell>)
    requires StretchState(col, rows, t, l, startingNewBlock, firstLine, maxWidth)
    requires HasCell(rows, t, l)
    requires f == if startingNewBlock then l else firstLine
    requires m == Max(if startingNewBlock then 0 else maxWidth, rows[l][t])
    requires |col2| == |col|
    requires col2[l] == Cell(rows[l][t], Some(f), true)
    requires f < l ==> col2[f] == col[f].(textWidth := m)
    requires forall k :: 0 <= k < |col| && k != l && k != f ==> col2[k] == col[k]
    ensures StretchState(col2, rows, t, l + 1, false, f, m)
  {
    if !startingNewBlock {
      OpenBlock(col, rows, t, l, firstLine, maxWidth);
    }
    assert RunStart(rows, t, l) == f;
    assert ColumnMax(rows, t, f, l + 1) == m;
    if f < l {
      SameRun(rows, t, f, l);
    }
    CellVisited(col, rows, t, l, startingNewBlock, firstLine, f, m, col2);
  }

  /** The loop body's two updates of column `t` for a line with a cell, stated cell by cell. */
  lemma StretchUpdates(col: seq<Cell>, rows: seq<seq<nat>>, t: nat, l: nat, startingNewBlock: bool, firstLine: nat, maxWidth: nat,
                       f: nat, col2: seq<Cell>)
    requires StretchState(col, rows, t, l, startingNewBlock, firstLine, maxWidth)
    requires HasCell(rows, t, l)
    requires f == if startingNewBlock then l else firstLine
    requires col2 == (var c1 := col[l := Cell(rows[l][t], Some(f), true)];
                      if rows[l][t] > (if startingNewBlock then 0 else maxWidth) then c1[f := c1[f].(textWidth := rows[l][t])] else c1)
    ensures col2[l] == Cell(rows[l][t], Some(f), true)
    ensures f < l ==> col2[f] == col[f].(textWidth := Max(maxWidth, rows[l][t]))
    ensures forall k :: 0 <= k < |col| && k != l && k != f ==> col2[k] == col[k]
  {
    assert ScannedCell(col[l], rows[l], t);
  }

  /** A line without a cell in column `t` closes the open block. */
  lemma StretchStepGap(col: seq<Cell>, rows: seq<seq<nat>>, t: nat, l: nat, startingNewBlock: bool, firstLine: nat, maxWidth: nat,
                       f: nat, m: nat)
    requires StretchState(col, rows, t, l, startingNewBlock, firstLine, maxWidth)
    requires l < |rows| && !HasCell(rows, t, l)
    ensures StretchState(col, rows, t, l + 1, true, f, m)
  {
    assert ScannedCell(col[l], rows[l], t);
    if !startingNewBlock {
      OpenBlock(col, rows, t, l, firstLine, maxWidth);
      SameRun(rows, t, firstLine, l - 1);
      assert RunEnd(rows, t, l - 1) == l;
    }
    forall k | 0 <= k < l
      ensures StretchingCell(col[k], rows, k, t, l + 1)
    {
      KeepsStretching(col[k], rows, k, t, l);
    }
  }

  /** The cell the stretch phase visits next is still as scanned. */
  lemma NextScanned(col: seq<Cell>, rows: seq<seq<nat>>, t: nat, l: nat, startingNewBlock: bool, firstLine: nat, maxWidth: nat)
    requires StretchState(col, rows, t, l, startingNewBlock, firstLine, maxWidth)
    requires l < |rows|
    ensures col[l] == if t < |rows[l]| then Cell(rows[l][t], None, true) else EmptyCell
    ensures !startingNewBlock ==> firstLine < l
  {
    assert ScannedCell(col[l], rows[l], t);
  }

  /** Once every line is visited, every cell of the column is stretched. */
  lemma StretchDone(col: seq<Cell>, rows: seq<seq<nat>>, t: nat, startingNewBlock: bool, firstLine: nat, maxWidth: nat)
    requires StretchState(col, rows, t, |rows|, startingNewBlock, firstLine, maxWidth)
    ensures forall k :: 0 <= k < |rows| ==> StretchedCell(col[k], rows, k, t)
  {
    forall k | 0 <= k < |rows|
      ensures StretchedCell(col[k], rows, k, t)
    {
      assert StretchingCell(col[k], rows, k, t, |rows|);
    }
  }

  /**
   * Stretch phase for column `t`: walks the lines top to bottom, starting a
   * block after each line without a cell in the column, points every cell at
   * its block's first line and keeps the block's widest cell there.
   */
  method StretchColumn(grid: array2<Cell>, ghost rows: seq<seq<nat>>, t: nat)
    requires grid.Length0 == |rows| && t < grid.Length1
    requires forall k :: 0 <= k < |rows| ==> ScannedCell(grid[k, t], rows[k], t)
    modifies grid
    ensures forall k :: 0 <= k < |rows| ==> StretchedCell(grid[k, t], rows, k, t)
    ensures forall k, u :: 0 <= k < grid.Length0 && 0 <= u < grid.Length1 && u != t ==> grid[k, u] == old(grid[k, u])
  {
    var startingNewBlock := true;
    var firstLine: nat := 0;
    var maxWidth: nat := 0;
    ghost var col := ColumnOf(grid, t);
    for l := 0 to grid.Length0
      invariant |col| == grid.Length0 && forall k :: 0 <= k < grid.Length0 ==> grid[k, t] == col[k]
      invariant StretchState(col, rows, t, l, startingNewBlock, firstLine, maxWidth)
      invariant forall k, u :: 0 <= k < grid.Length0 && 0 <= u < grid.Length1 && u != t ==> grid[k, u] == old(grid[k, u])
    {
      NextScanned(col, rows, t, l, startingNewBlock, firstLine, maxWidth);
      ghost var wasStarting, oldFirst, oldMax := startingNewBlock, firstLine, maxWidth;
      if startingNewBlock {
        startingNewBlock := false;
        firstLine := l;
        maxWidth := 0;
      }
      if grid[l, t].endsInTab {
        ghost var col2 := col[l := Cell(rows[l][t], Some(firstLine), true)];
        grid[l, t] := grid[l, t].(widest := Some(firstLine));
        if grid[l, t].textWidth > maxWidth {
          maxWidth := grid[l, t].textWidth;
          grid[firstLine, t] := grid[firstLine, t].(textWidth := maxWidth);
          col2 := col2[firstLine := col2[firstLine].(textWidth := maxWidth)];
        }
        StretchUpdates(col, rows, t, l, wasStarting, oldFirst, oldMax, firstLine, col2);
        StretchStepCell(col, rows, t, l, wasStarting, oldFirst, oldMax, firstLine, maxWidth, col2);
        col := col2;
      } else {
        startingNewBlock := true;
        StretchStepGap(col, rows, t, l, wasStarting, oldFirst, oldMax, firstLine, maxWidth);
      }
      assert ColumnOf(grid, t) == col;
    }
    StretchDone(col, rows, t, startingNewBlock, firstLine, maxWidth);
  }

  /** Every cell of the grid as the stretch phase leaves it. */
  ghost predicate GridStretched(grid: array2<Cell>, rows: seq<seq<nat>>)
    requires grid.Length0 == |rows|
    reads grid
  {
    forall k, t :: 0 <= k < grid.Length0 && 0 <= t < grid.Length1 ==> StretchedCell(grid[k, t], rows, k, t)
  }

  /**
   * Set phase for line `l` of the grid, which is line `lineNum` of the
   * document: clears its tabstops and adds one per tab at the running sum
   * of the widths its cells point at.
   */
  method SetLineTabstops(ed: Editor, grid: array2<Cell>, ghost rows: seq<seq<nat>>, l: nat, lineNum: nat, numTabs: nat)
    requires ed.Valid() && lineNum < |ed.lines|
    requires grid.Length0 == |rows| && l < |rows| && numTabs == |rows[l]| <= grid.Length1
    requires GridStretched(grid, rows)
    modifies ed`tabstops
    ensures ed.Valid()
    ensures ed.tabstops == old(ed.tabstops)[lineNum := Tabstops(rows, l)]
  {
    ghost var ws := StretchedRow(rows, l);
    ghost var stops := Offsets(ws);
    ed.ClearTabstops(lineNum);
    var acc: nat := 0;
    var t := 0;
    while t < numTabs && grid[l, t].widest.Some?
      invariant 0 <= t <= numTabs && ed.Valid()
      invariant acc == Sum(ws, t)
      invariant ed.tabstops == old(ed.tabstops)[lineNum := stops[..t]]
      invariant t < numTabs ==> grid[l, t].widest == Some(RunStart(rows, t, l))
    {
      var f := grid[l, t].widest.value;
      RunHead(rows, t, l);
      assert StretchedCell(grid[f, t], rows, f, t);
      assert grid[f, t].textWidth == ws[t];
      acc := acc + grid[f, t].textWidth;
      OffsetsPrefix(ws, t);
      ed.AddTabstop(lineNum, acc);
      t := t + 1;
      if t < numTabs {
        assert StretchedCell(grid[l, t], rows, l, t);
      }
    }
    assert stops[..t] == stops;
  }

  /**
   * Scan phase of `stretch_tabstops` for the `n` lines from `blockStart`
   * on: a fresh grid of `maxTabs` columns and the tab count of each line.
   */
  method ScanBlock(lines: seq<seq<char>>, blockStart: nat, n: nat, maxTabs: nat, w: Widths, measure: seq<char> -> nat)
    returns (grid: array2<Cell>, numTabs: array<nat>)
    requires blockStart + n <= |lines|
    requires forall k :: blockStart <= k < blockStart + n ==> NumTabs(lines[k]) <= maxTabs
    ensures fresh(grid) && fresh(numTabs)
    ensures grid.Length0 == n && grid.Length1 == maxTabs && numTabs.Length == n
    ensures forall k, t :: 0 <= k < n && 0 <= t < maxTabs ==>
      ScannedCell(grid[k, t], BlockRows(w, measure, lines, blockStart, n)[k], t)
    ensures forall k :: 0 <= k < n ==> numTabs[k] == |BlockRows(w, measure, lines, blockStart, n)[k]| <= maxTabs
  {
    ghost var rows := BlockRows(w, measure, lines, blockStart, n);
    grid := new Cell[n, maxTabs]((_, _) => EmptyCell);
    numTabs := new nat[n];
    for l := 0 to n
      invariant forall k, t :: 0 <= k < l && 0 <= t < maxTabs ==> ScannedCell(grid[k, t], rows[k], t)
      invariant forall k, t :: l <= k < n && 0 <= t < maxTabs ==> grid[k, t] == EmptyCell
      invariant forall k :: 0 <= k < l ==> numTabs[k] == |rows[k]| <= maxTabs
    {
      NumTabsCountsVisible(lines[blockStart + l]);
      var tabs := ScanLine(grid, l, lines[blockStart + l], w, measure);
      numTabs[l] := tabs;
    }
  }

  /** Stretch phase of `stretch_tabstops`: every column in turn. */
  method StretchGrid(grid: array2<Cell>, ghost rows: seq<seq<nat>>)
    requires grid.Length0 == |rows|
    requires forall k, t :: 0 <= k < grid.Length0 && 0 <= t < grid.Length1 ==> ScannedCell(grid[k, t], rows[k], t)
    modifies grid
    ensures GridStretched(grid, rows)
  {
    for t := 0 to grid.Length1
      invariant forall k, u :: 0 <= k < grid.Length0 && 0 <= u < t ==> StretchedCell(grid[k, u], rows, k, u)
      invariant forall k, u :: 0 <= k < grid.Length0 && t <= u < grid.Length1 ==> ScannedCell(grid[k, u], rows[k], u)
    {
      StretchColumn(grid, rows, t);
    }
  }

  /** Set phase of `stretch_tabstops`: the tabstops of every line of the block. */
  method SetBlockTabstops(ed: Editor, grid: array2<Cell>, ghost rows: seq<seq<nat>>, blockStart: nat, numTabs: array<nat>)
    requires ed.Valid() && blockStart + |rows| <= |ed.lines|
    requires grid.Length0 == |rows| == numTabs.Length
    requires forall k :: 0 <= k < |rows| ==> numTabs[k] == |rows[k]| <= grid.Length1
    requires GridStretched(grid, rows)
    modifies ed`tabstops
    ensures ed.Valid()
    ensures ed.tabstops == Splice(old(ed.tabstops), blockStart, Layout(rows))
  {
    ghost var layout := Layout(rows);
    for l := 0 to numTabs.Length
      invariant ed.Valid()
      invariant ed.tabstops == Splice(old(ed.tabstops), blockStart, layout[..l])
    {
      SetLineTabstops(ed, grid, rows, l, blockStart + l, numTabs[l]);
      LayoutLine(rows, l);
      SpliceStep(old(ed.tabstops), blockStart, layout, l);
    }
    assert layout[..|rows|] == layout;
  }

  /** Replacing the lists of one more line of the block. */
  lemma SpliceStep(ts: seq<seq<nat>>, first: nat, block: seq<seq<nat>>, l: nat)
    requires first + |block| <= |ts| && l < |block|
    ensures Splice(ts, first, block[..l])[first + l := block[l]] == Splice(ts, first, block[..l + 1])
  {
  }

  /** First line of the block `ElasticTabstops_OnModify` lays out for an edit starting at `start`. */
  function BlockFirst(doc: seq<seq<char>>, start: Pos): nat
    requires ValidPos(doc, start)
  {
    BackStop(doc, start.line)
  }

  /** Last line of the block laid out for an edit ending at `end`. */
  function BlockLast(doc: seq<seq<char>>, end: Pos): nat
    requires ValidPos(doc, end)
  {
    FwdBoundary(doc, end.line).line
  }

  /**
   * The tabstop lists `ts` once the `n` lines from line `first` on are laid
   * out as one block: their lists replaced by the block's layout.
   */
  function Relayout(ts: seq<seq<nat>>, w: Widths, measure: seq<char> -> nat, doc: seq<seq<char>>, first: nat, n: nat): seq<seq<nat>>
    requires first + n <= |doc| == |ts|
  {
    Splice(ts, first, Layout(BlockRows(w, measure, doc, first, n)))
  }

  /** The three scans together see at least as many tabs as every line of the block has. */
  lemma BlockCoverage(doc: seq<seq<char>>, start: Pos, end: Pos, k: nat)
    requires ValidDoc(doc) && ValidPos(doc, start) && ValidPos(doc, end) && PosLe(start, end)
    requires BlockFirst(doc, start) <= k <= BlockLast(doc, end)
    ensures LineTabs(doc, k) <= Max(Max(MaxTabs(doc, start.line, BetweenLast(start, end)),
                                        MaxTabs(doc, BlockFirst(doc, start), start.line)),
                                    MaxTabs(doc, end.line, BlockLast(doc, end)))
  {
  }

  /**
   * Laying out only the block around an edit gives each of its lines the
   * tabstops a layout of the whole document would give it: the block is
   * bounded by lines without tabs (or the ends of the document), and no
   * column block crosses such a line.
   */
  lemma BlockLayoutIsDocumentLayout(w: Widths, measure: seq<char> -> nat, doc: seq<seq<char>>, start: Pos, end: Pos)
    requires ValidDoc(doc) && ValidPos(doc, start) && ValidPos(doc, end) && PosLe(start, end)
    ensures BlockFirst(doc, start) <= start.line <= end.line <= BlockLast(doc, end) < |doc|
    ensures forall k :: BlockFirst(doc, start) <= k <= BlockLast(doc, end) ==>
      Layout(BlockRows(w, measure, doc, BlockFirst(doc, start), BlockLast(doc, end) - BlockFirst(doc, start) + 1))[k - BlockFirst(doc, start)]
        == Tabstops(BlockRows(w, measure, doc, 0, |doc|), k)
  {
    TabBoundedLayout(w, measure, doc, BlockFirst(doc, start), BlockLast(doc, end));
  }

  /** The lines `a..b`, bounded by lines without tabs or the ends of `doc`, are laid out as the whole document is. */
  lemma TabBoundedLayout(w: Widths, measure: seq<char> -> nat, doc: seq<seq<char>>, a: nat, b: nat)
    requires a <= b < |doc|
    requires a > 0 ==> LineTabs(doc, a) == 0
    requires b + 1 < |doc| ==> LineTabs(doc, b) == 0
    ensures forall k :: a <= k <= b ==>
      Layout(BlockRows(w, measure, doc, a, b - a + 1))[k - a] == Tabstops(BlockRows(w, measure, doc, 0, |doc|), k)
  {
    var rows := BlockRows(w, measure, doc, 0, |doc|);
    var win := BlockRows(w, measure, doc, a, b - a + 1);
    BlockRowsWindow(w, measure, doc, a, b - a + 1);
    if a > 0 {
      TablessRow(w, measure, doc, a);
    }
    if b + 1 < |doc| {
      TablessRow(w, measure, doc, b);
    }
    forall k | a <= k <= b
      ensures Layout(win)[k - a] == Tabstops(rows, k)
    {
      BoundedWindowLayout(rows, win, a, k - a, k);
    }
  }

  /** The cell widths of lines `first..first+n` are a window on those of the whole document. */
  lemma BlockRowsWindow(w: Widths, measure: seq<char> -> nat, doc: seq<seq<char>>, first: nat, n: nat)
    requires first + n <= |doc|
    ensures IsWindow(BlockRows(w, measure, doc, 0, |doc|), BlockRows(w, measure, doc, first, n), first)
  {
  }

  /** A line without tabs has no cells. */
  lemma TablessRow(w: Widths, measure: seq<char> -> nat, doc: seq<seq<char>>, k: nat)
    requires k < |doc| && LineTabs(doc, k) == 0
    ensures |BlockRows(w, measure, doc, 0, |doc|)[k]| == 0
  {
    NumTabsCountsVisible(doc[k]);
  }

  /**
   * The block search of `ElasticTabstops_OnModify`: the most tabs on any
   * line of the edit, of the block above it and of the block below it, and
   * the first line and line count of the block from the backward walk's
   * stop to the forward walk's stop.
   */
  method FindBlock(doc: seq<seq<char>>, start: Pos, end: Pos) returns (blockStartLine: nat, nofLines: nat, maxTabs: nat)
    requires ValidDoc(doc) && ValidPos(doc, start) && ValidPos(doc, end) && PosLe(start, end)
    ensures blockStartLine == BlockFirst(doc, start) <= BlockLast(doc, end)
    ensures nofLines == BlockLast(doc, end) - blockStartLine + 1
    ensures forall k :: blockStartLine <= k < blockStartLine + nofLines ==> NumTabs(doc[k]) <= maxTabs
  {
    var maxTabsBetween := GetNofTabsBetween(doc, start, end);
    var maxTabsBackwards, blockStartPos := GetBlockBoundary(doc, start, Backwards);
    var maxTabsForwards, blockEndPos := GetBlockBoundary(doc, end, Forwards);
    maxTabs := Max(Max(maxTabsBetween, maxTabsBackwards), maxTabsForwards);

    blockStartLine := blockStartPos.line;
    var blockEndLine := blockEndPos.line;
    assert blockStartLine == BlockFirst(doc, start) <= end.line <= blockEndLine == BlockLast(doc, end);
    nofLines := blockEndLine - blockStartLine + 1;
    forall k | blockStartLine <= k < blockStartLine + nofLines
      ensures NumTabs(doc[k]) <= maxTabs
    {
      BlockCoverage(doc, start, end, k);
    }
  }

  /**
   * The file-level state of src/ElasticTabstops.cpp: the two widths
   * `calc_tab_width` reads, set by each `ElasticTabstops_OnModify`.
   */
  class Engine {
    var tabWidthMinimum: nat
    var tabWidthPadding: nat

    constructor ()
      ensures tabWidthMinimum == 0 && tabWidthPadding == 0
    {
      tabWidthMinimum, tabWidthPadding := 0, 0;
    }

    /**
     * `stretch_tabstops`: lays out the `n` lines from `blockStart` on as one
     * block, given a bound on the tabs of each of its lines.
     */
    method StretchTabstops(ed: Editor, blockStart: nat, n: nat, maxTabs: nat)
      requires ed.Valid() && blockStart + n <= |ed.lines|
      requires forall k :: blockStart <= k < blockStart + n ==> NumTabs(ed.lines[k]) <= maxTabs
      modifies ed`tabstops
      ensures ed.Valid()
      ensures ed.tabstops == Relayout(old(ed.tabstops), Widths(tabWidthMinimum, tabWidthPadding), ed.measure, ed.lines, blockStart, n)
    {
      var w := Widths(tabWidthMinimum, tabWidthPadding);
      ghost var rows := BlockRows(w, ed.measure, ed.lines, blockStart, n);
      var grid, numTabs := ScanBlock(ed.lines, blockStart, n, maxTabs, w, ed.measure);
      StretchGrid(grid, rows);
      SetBlockTabstops(ed, grid, rows, blockStart, numTabs);
    }

    /**
     * `ElasticTabstops_OnModify` for an edit spanning `start..end`: sets the
     * widths from the character width, the tab width and the configured
     * padding, then lays out the block of lines around the edit.  Does
     * nothing when the buffer indents with spaces.
     */
    method OnModify(ed: Editor, minPadding: nat, start: Pos, end: Pos)
      requires ed.Valid() && ValidPos(ed.lines, start) && ValidPos(ed.lines, end) && PosLe(start, end)
      modifies this, ed`tabstops
      ensures ed.Valid()
      ensures !ed.useTabs ==> tabWidthMinimum == old(tabWidthMinimum) && tabWidthPadding == old(tabWidthPadding) && ed.tabstops == old(ed.tabstops)
      ensures ed.useTabs ==> tabWidthPadding == ed.charWidth * minPadding && tabWidthMinimum == Max(ed.charWidth * ed.tabWidth - tabWidthPadding, 0)
      ensures ed.useTabs ==> ed.tabstops == Relayout(old(ed.tabstops), Widths(tabWidthMinimum, tabWidthPadding), ed.measure, ed.lines,
                                            BlockFirst(ed.lines, start), BlockLast(ed.lines, end) - BlockFirst(ed.lines, start) + 1)
    {
      if ed.useTabs {
        SetWidths(ed.charWidth, ed.tabWidth, minPadding);
        assert ed.tabstops == old(ed.tabstops);
        LayoutAround(ed, start, end);
      }
    }

    /**
     * The widths of `ElasticTabstops_OnModify`: the padding is `minPadding`
     * characters, and the minimum makes an unstretched cell `tabWidth`
     * characters wide when the padding is not wider than that.
     */
    method SetWidths(charWidth: nat, tabWidth: nat, minPadding: nat)
      modifies this
      ensures tabWidthPadding == charWidth * minPadding
      ensures tabWidthMinimum == Max(charWidth * tabWidth - tabWidthPadding, 0)
      ensures minPadding <= tabWidth ==> tabWidthMinimum + tabWidthPadding == charWidth * tabWidth
    {
      tabWidthPadding := charWidth * minPadding;
      tabWidthMinimum := Max(charWidth * tabWidth - tabWidthPadding, 0);
    }

    /** The second half of `ElasticTabstops_OnModify`: find the block around `start..end` and lay it out. */
    method LayoutAround(ed: Editor, start: Pos, end: Pos)
      requires ed.Valid() && ValidPos(ed.lines, start) && ValidPos(ed.lines, end) && PosLe(start, end)
      modifies ed`tabstops
      ensures ed.Valid()
      ensures ed.tabstops == Relayout(old(ed.tabstops), Widths(tabWidthMinimum, tabWidthPadding), ed.measure, ed.lines,
                                            BlockFirst(ed.lines, start), BlockLast(ed.lines, end) - BlockFirst(ed.lines, start) + 1)
    {
      ghost var before := ed.tabstops;
      var blockStartLine, nofLines, maxTabs := FindBlock(ed.lines, start, end);
      StretchTabstops(ed, blockStartLine, nofLines, maxTabs);
      assert ed.tabstops == Relayout(before, Widths(tabWidthMinimum, tabWidthPadding), ed.measure, ed.lines, blockStartLine, nofLines);
    }
  }
}
