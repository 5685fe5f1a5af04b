/**
 * The cell scanner of the elastic-tabstop engine (src/ElasticTabstops.cpp):
 * how one line is cut into tab-terminated cells and how wide each cell is.
 */
module Cells {
  import opened Util

  const TAB: char := '\t'
  const NUL: char := '\0'

  /** The two process-wide constants `tab_width_minimum` and `tab_width_padding`. */
  datatype Widths = Widths(minimum: nat, padding: nat)

  /** `calc_tab_width`: a cell is at least `minimum` wide, plus the padding. */
  function CalcTabWidth(w: Widths, textWidth: nat): (r: nat)
    ensures r >= w.minimum + w.padding
    ensures r >= textWidth + w.padding
    ensures r == w.minimum + w.padding || r == textWidth + w.padding
  {
    var t := if textWidth < w.minimum then w.minimum else textWidth;
    t + w.padding
  }

  /**
   * The editor reports NUL past the end of the document, and every scan loop
   * of the engine stops at a NUL; so the part of a line the engine sees is
   * the part before its first NUL.
   */
  function VisibleLength(s: seq<char>): (n: nat)
    ensures n <= |s|
    ensures forall k :: 0 <= k < n ==> s[k] != NUL
    ensures n < |s| ==> s[n] == NUL
  {
    if s == [] || s[0] == NUL then 0 else 1 + VisibleLength(s[1..])
  }

  function Visible(s: seq<char>): seq<char>
  {
    s[..VisibleLength(s)]
  }

  /** The visible length is the first index without a NUL before it and NUL or end at it. */
  lemma VisibleLengthUnique(s: seq<char>, i: nat)
    requires i <= |s|
    requires forall k :: 0 <= k < i ==> s[k] != NUL
    requires i == |s| || s[i] == NUL
    ensures i == VisibleLength(s)
  {
  }

  /**
   * The cells of a line: every completed (tab-terminated) cell in order, and
   * the text pending after the last tab.  Defined one character at a time,
   * in the order the scanner reads them.
   */
  datatype Split = Split(cells: seq<seq<char>>, rest: seq<char>)

  function SplitCells(s: seq<char>): (r: Split)
    decreases |s|
  {
    if s == [] then Split([], [])
    else
      var p := SplitCells(s[..|s| - 1]);
      if s[|s| - 1] == TAB then Split(p.cells + [p.rest], [])
      else Split(p.cells, p.rest + [s[|s| - 1]])
  }

  /** Number of tab characters in `s`. */
  function CountTabs(s: seq<char>): nat
    decreases |s|
  {
    if s == [] then 0
    else CountTabs(s[..|s| - 1]) + (if s[|s| - 1] == TAB then 1 else 0)
  }

  predicate TabFree(s: seq<char>)
  {
    forall k :: 0 <= k < |s| ==> s[k] != TAB
  }

  predicate WellFormed(sp: Split)
  {
    (forall i :: 0 <= i < |sp.cells| ==> TabFree(sp.cells[i])) && TabFree(sp.rest)
  }

  /** Puts the cells back together, each followed by its tab. */
  function Join(sp: Split): seq<char>
    decreases |sp.cells|
  {
    if sp.cells == [] then sp.rest
    else Join(Split(sp.cells[..|sp.cells| - 1], [])) + sp.cells[|sp.cells| - 1] + [TAB] + sp.rest
  }

  /** One completed cell per tab character: a line with `k` tabs has exactly `k` tab-terminated cells. */
  lemma {:induction false} CellsCountTabs(s: seq<char>)
    ensures |SplitCells(s).cells| == CountTabs(s)
    ensures WellFormed(SplitCells(s))
    decreases |s|
  {
    if s != [] {
      CellsCountTabs(s[..|s| - 1]);
    }
  }

  lemma JoinSnoc(cells: seq<seq<char>>, c: seq<char>, rest: seq<char>)
    ensures Join(Split(cells + [c], rest)) == Join(Split(cells, [])) + c + [TAB] + rest
  {
    assert (cells + [c])[..|cells|] == cells;
  }

  lemma {:induction false} JoinRest(cells: seq<seq<char>>, rest: seq<char>)
    ensures Join(Split(cells, rest)) == Join(Split(cells, [])) + rest
  {
    if cells != [] {
      JoinSnoc(cells[..|cells| - 1], cells[|cells| - 1], rest);
      JoinSnoc(cells[..|cells| - 1], cells[|cells| - 1], []);
      assert cells[..|cells| - 1] + [cells[|cells| - 1]] == cells;
    }
  }

  /** Splitting loses nothing: joining the cells of a line gives the line back. */
  lemma {:induction false} SplitJoin(s: seq<char>)
    ensures Join(SplitCells(s)) == s
    decreases |s|
  {
    if s != [] {
      var init := s[..|s| - 1];
      var p := SplitCells(init);
      SplitJoin(init);
      assert init + [s[|s| - 1]] == s;
      if s[|s| - 1] == TAB {
        JoinTabStep(p);
      } else {
        JoinCharStep(p, s[|s| - 1]);
      }
    }
  }

  /** Closing the pending cell with a tab appends the tab to the joined text. */
  lemma JoinTabStep(p: Split)
    ensures Join(Split(p.cells + [p.rest], [])) == Join(p) + [TAB]
  {
    JoinSnoc(p.cells, p.rest, []);
    JoinRest(p.cells, p.rest);
  }

  /** Extending the pending cell appends the character to the joined text. */
  lemma JoinCharStep(p: Split, c: char)
    ensures Join(Split(p.cells, p.rest + [c])) == Join(p) + [c]
  {
    JoinRest(p.cells, p.rest + [c]);
    JoinRest(p.cells, p.rest);
  }

  lemma SplitAppendTabFree(s: seq<char>, t: seq<char>)
    requires TabFree(t)
    ensures SplitCells(s + t) == Split(SplitCells(s).cells, SplitCells(s).rest + t)
    decreases |t|
  {
    if t != [] {
      var u := t[..|t| - 1];
      assert (s + t)[..|s + t| - 1] == s + u;
      SplitAppendTabFree(s, u);
      assert SplitCells(s).rest + u + [t[|t| - 1]] == SplitCells(s).rest + t;
    } else {
      assert s + t == s;
    }
  }

  /** And conversely a split of tab-free pieces is recovered from its join. */
  lemma JoinSplit(sp: Split)
    requires WellFormed(sp)
    ensures SplitCells(Join(sp)) == sp
  {
    JoinRest(sp.cells, sp.rest);
    JoinSplitCells(sp.cells);
    SplitAppendTabFree(Join(Split(sp.cells, [])), sp.rest);
    assert [] + sp.rest == sp.rest;
  }

  /** Tab-free cells, each followed by its tab, split back into those cells. */
  lemma {:induction false} JoinSplitCells(cells: seq<seq<char>>)
    requires forall i :: 0 <= i < |cells| ==> TabFree(cells[i])
    ensures SplitCells(Join(Split(cells, []))) == Split(cells, [])
    decreases |cells|
  {
    if cells != [] {
      var init := cells[..|cells| - 1];
      var last := cells[|cells| - 1];
      var prefix := Join(Split(init, []));
      assert init + [last] == cells;
      JoinSnoc(init, last, []);
      var s := prefix + last;
      assert Join(Split(cells, [])) == s + [TAB];
      JoinSplitCells(init);
      SplitAppendTabFree(prefix, last);
      assert [] + last == last;
      assert SplitCells(s) == Split(init, last);
      SplitTab(s);
    }
  }

  /** A tab closes the pending cell. */
  lemma SplitTab(s: seq<char>)
    ensures SplitCells(s + [TAB]) == Split(SplitCells(s).cells + [SplitCells(s).rest], [])
  {
    assert (s + [TAB])[..|s|] == s;
  }

  /** Measured width of a cell's text: an empty cell is not measured and counts 0. */
  function TextWidth(measure: seq<char> -> nat, cell: seq<char>): nat
  {
    if cell == [] then 0 else measure(cell)
  }

  /** Padded widths of the tab-terminated cells of one line, left to right. */
  function CellWidths(w: Widths, measure: seq<char> -> nat, line: seq<char>): (r: seq<nat>)
    ensures |r| == CountTabs(Visible(line))
    ensures forall t :: 0 <= t < |r| ==> r[t] >= w.minimum + w.padding
  {
    CellsCountTabs(Visible(line));
    PaddedWidths(w, measure, SplitCells(Visible(line)).cells)
  }

  /** The padded width of each cell text in turn. */
  function PaddedWidths(w: Widths, measure: seq<char> -> nat, cells: seq<seq<char>>): (r: seq<nat>)
    ensures |r| == |cells|
    ensures forall t :: 0 <= t < |r| ==> r[t] == CalcTabWidth(w, TextWidth(measure, cells[t]))
  {
    seq(|cells|, k requires 0 <= k < |cells| => CalcTabWidth(w, TextWidth(measure, cells[k])))
  }

  /** One more closed cell adds its padded width at the end. */
  lemma PaddedWidthsSnoc(w: Widths, measure: seq<char> -> nat, cells: seq<seq<char>>, c: seq<char>)
    ensures PaddedWidths(w, measure, cells + [c]) == PaddedWidths(w, measure, cells) + [CalcTabWidth(w, TextWidth(measure, c))]
  {
  }

  /** Tabs on a line as the block scans count them: reading from the start up to the end or the first NUL. */
  function NumTabs(s: seq<char>): nat
  {
    if s == [] || s[0] == NUL then 0 else (if s[0] == TAB then 1 else 0) + NumTabs(s[1..])
  }

  lemma {:induction false} CountTabsCons(c: char, s: seq<char>)
    ensures CountTabs([c] + s) == (if c == TAB then 1 else 0) + CountTabs(s)
    decreases |s|
  {
    if s != [] {
      var u := s[..|s| - 1];
      assert ([c] + s)[..|[c] + s| - 1] == [c] + u;
      CountTabsCons(c, u);
    } else {
      assert [c] + s == [c];
      assert [c][..0] == [];
    }
  }

  /** One more visible character read by the cell scanner: it ends the pending cell or extends it. */
  lemma ScanStep(line: seq<char>, i: nat, cells: seq<seq<char>>, rest: seq<char>)
    requires i < |line| && line[i] != NUL
    requires SplitCells(line[..i]) == Split(cells, rest)
    ensures SplitCells(line[..i + 1]) ==
      if line[i] == TAB then Split(cells + [rest], []) else Split(cells, rest + [line[i]])
  {
    assert line[..i + 1][..i] == line[..i];
  }

  /** The tabs `NumTabs` counts from index `i` of `s` on, read forwards by index. */
  function TabsFrom(s: seq<char>, i: nat): nat
    decreases |s| - i
  {
    if i >= |s| || s[i] == NUL then 0 else (if s[i] == TAB then 1 else 0) + TabsFrom(s, i + 1)
  }

  lemma {:induction false} TabsFromDrop(s: seq<char>, i: nat)
    requires i <= |s|
    ensures TabsFrom(s, i) == NumTabs(s[i..])
    decreases |s| - i
  {
    if i < |s| && s[i] != NUL {
      TabsFromDrop(s, i + 1);
      assert s[i..][1..] == s[i + 1..];
    }
  }

  /** The block scans and the cell scanner agree on how many tabs a line has. */
  lemma {:induction false} NumTabsCountsVisible(s: seq<char>)
    ensures NumTabs(s) == CountTabs(Visible(s)) == |SplitCells(Visible(s)).cells|
    decreases |s|
  {
    CellsCountTabs(Visible(s));
    if s != [] && s[0] != NUL {
      NumTabsCountsVisible(s[1..]);
      assert Visible(s) == [s[0]] + Visible(s[1..]);
      CountTabsCons(s[0], Visible(s[1..]));
    }
  }

  /** A cell with no text before its tab gets `calc_tab_width(0)`, whatever the text around it measures. */
  lemma EmptyCellWidth(w: Widths, measure: seq<char> -> nat, line: seq<char>, t: nat)
    requires t < |SplitCells(Visible(line)).cells|
    requires SplitCells(Visible(line)).cells[t] == []
    ensures t < |CellWidths(w, measure, line)|
    ensures CellWidths(w, measure, line)[t] == CalcTabWidth(w, 0) == w.minimum + w.padding
  {
    CellsCountTabs(Visible(line));
  }

  /** Two adjacent tabs close an empty cell. */
  lemma AdjacentTabs(s: seq<char>)
    ensures SplitCells(s + [TAB, TAB]).cells == SplitCells(s).cells + [SplitCells(s).rest, []]
    ensures SplitCells(s + [TAB, TAB]).rest == []
  {
    var s1 := s + [TAB];
    var s2 := s + [TAB, TAB];
    assert s2[..|s2| - 1] == s1;
    assert s1[..|s1| - 1] == s;
  }

  /** A leading tab closes an empty first cell. */
  lemma {:induction false} LeadingTab(s: seq<char>)
    ensures |SplitCells([TAB] + s).cells| >= 1
    ensures SplitCells([TAB] + s).cells[0] == []
    decreases |s|
  {
    if s == [] {
      assert [TAB] + s == [TAB];
      assert [TAB][..0] == [];
    } else {
      var u := s[..|s| - 1];
      assert ([TAB] + s)[..|[TAB] + s| - 1] == [TAB] + u;
      LeadingTab(u);
    }
  }
}
