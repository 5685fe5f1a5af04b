/**
 * The column stretcher and tabstop projector of src/ElasticTabstops.cpp,
 * stated over the abstract grid `rows`: `rows[l]` lists the padded widths
 * of the tab-terminated cells of line `l` of the block, so line `l` has a
 * cell ending in a tab in column `t` exactly when `t < |rows[l]|`.
 */
module Columns {
  import opened Util

  predicate HasCell(rows: seq<seq<nat>>, t: nat, l: int)
  {
    0 <= l < |rows| && t < |rows[l]|
  }

  /** First line of the maximal run of lines around `l` that have a cell in column `t`. */
  function RunStart(rows: seq<seq<nat>>, t: nat, l: nat): (f: nat)
    requires HasCell(rows, t, l)
    ensures f <= l
    ensures forall k :: f <= k <= l ==> t < |rows[k]|
    ensures f == 0 || !HasCell(rows, t, f - 1)
    decreases l
  {
    if l == 0 || !HasCell(rows, t, l - 1) then l else RunStart(rows, t, l - 1)
  }

  /** One past the last line of that run. */
  function RunEnd(rows: seq<seq<nat>>, t: nat, l: nat): (e: nat)
    requires HasCell(rows, t, l)
    ensures l < e <= |rows|
    ensures forall k :: l <= k < e ==> t < |rows[k]|
    ensures e == |rows| || !HasCell(rows, t, e)
    decreases |rows| - l
  {
    if l + 1 == |rows| || !HasCell(rows, t, l + 1) then l + 1 else RunEnd(rows, t, l + 1)
  }

  /** Widest cell of column `t` over lines `lo..hi-1`, 0 for no lines. */
  function ColumnMax(rows: seq<seq<nat>>, t: nat, lo: nat, hi: nat): (r: nat)
    requires lo <= hi <= |rows|
    requires forall k :: lo <= k < hi ==> t < |rows[k]|
    ensures forall k :: lo <= k < hi ==> rows[k][t] <= r
    ensures lo == hi ==> r == 0
    decreases hi
  {
    if lo == hi then 0 else Max(ColumnMax(rows, t, lo, hi - 1), rows[hi - 1][t])
  }

  /** A non-empty range attains its column maximum on one of its lines. */
  lemma {:induction false} ColumnMaxAttained(rows: seq<seq<nat>>, t: nat, lo: nat, hi: nat)
    requires lo < hi <= |rows|
    requires forall k :: lo <= k < hi ==> t < |rows[k]|
    ensures exists k :: lo <= k < hi && ColumnMax(rows, t, lo, hi) == rows[k][t]
    decreases hi
  {
    if lo < hi - 1 && ColumnMax(rows, t, lo, hi - 1) >= rows[hi - 1][t] {
      ColumnMaxAttained(rows, t, lo, hi - 1);
    } else {
      assert ColumnMax(rows, t, lo, hi) == rows[hi - 1][t];
    }
  }

  /** The width every cell of a run is stretched to: the widest cell of the run. */
  function Stretched(rows: seq<seq<nat>>, t: nat, l: nat): (r: nat)
    requires HasCell(rows, t, l)
    ensures rows[l][t] <= r
  {
    ColumnMax(rows, t, RunStart(rows, t, l), RunEnd(rows, t, l))
  }

  /** The first line of a run is its own run start and is stretched to the run's width. */
  lemma {:induction false} RunHead(rows: seq<seq<nat>>, t: nat, l: nat)
    requires HasCell(rows, t, l)
    ensures HasCell(rows, t, RunStart(rows, t, l)) && RunStart(rows, t, RunStart(rows, t, l)) == RunStart(rows, t, l)
    ensures Stretched(rows, t, RunStart(rows, t, l)) == Stretched(rows, t, l)
    decreases l
  {
    if l > 0 && HasCell(rows, t, l - 1) {
      RunHead(rows, t, l - 1);
    }
  }

  /** All lines of one run agree on where it starts and ends. */
  lemma {:induction false} SameRun(rows: seq<seq<nat>>, t: nat, k: nat, l: nat)
    requires HasCell(rows, t, k)
    requires k <= l < RunEnd(rows, t, k)
    ensures HasCell(rows, t, l)
    ensures RunStart(rows, t, l) == RunStart(rows, t, k)
    ensures RunEnd(rows, t, l) == RunEnd(rows, t, k)
    decreases l - k
  {
    if k < l {
      SameRun(rows, t, k, l - 1);
    }
  }

  /** Two cells of column `t` lie in one run exactly when their runs start at the same line. */
  lemma InRunIffSameStart(rows: seq<seq<nat>>, t: nat, k: nat, l: nat)
    requires HasCell(rows, t, k) && HasCell(rows, t, l)
    ensures RunStart(rows, t, k) == RunStart(rows, t, l)
        <==> RunStart(rows, t, l) <= k < RunEnd(rows, t, l)
  {
    var f := RunStart(rows, t, l);
    if f <= k < RunEnd(rows, t, l) {
      if k <= l {
        SameRun(rows, t, k, l);
      } else {
        SameRun(rows, t, l, k);
      }
    } else if k < f {
      // the line above the run of `l` has no cell in column `t`, so `k`'s run stops before it
      assert !HasCell(rows, t, f - 1);
      assert RunEnd(rows, t, k) <= f - 1;
      assert RunStart(rows, t, k) <= k < f;
    } else {
      var e := RunEnd(rows, t, l);
      assert !HasCell(rows, t, e);
      assert RunStart(rows, t, k) > e;
    }
  }

  /**
   * Every cell of a run is stretched to one width, the width of the widest
   * cell of that run: no cell of the run is wider, and some cell is exactly that wide.
   */
  lemma {:induction false} StretchedIsRunMax(rows: seq<seq<nat>>, t: nat, l: nat)
    requires HasCell(rows, t, l)
    ensures forall k :: HasCell(rows, t, k) && RunStart(rows, t, k) == RunStart(rows, t, l) ==>
      Stretched(rows, t, k) == Stretched(rows, t, l) && rows[k][t] <= Stretched(rows, t, l)
    ensures exists k :: HasCell(rows, t, k) && RunStart(rows, t, k) == RunStart(rows, t, l) && rows[k][t] == Stretched(rows, t, l)
  {
    forall k | HasCell(rows, t, k) && RunStart(rows, t, k) == RunStart(rows, t, l)
      ensures Stretched(rows, t, k) == Stretched(rows, t, l) && rows[k][t] <= Stretched(rows, t, l)
    {
      InRunIffSameStart(rows, t, k, l);
      if k <= l { SameRun(rows, t, k, l); } else { SameRun(rows, t, l, k); }
    }
    var f, e := RunStart(rows, t, l), RunEnd(rows, t, l);
    ColumnMaxAttained(rows, t, f, e);
    var k :| f <= k < e && Stretched(rows, t, l) == rows[k][t];
    InRunIffSameStart(rows, t, k, l);
  }

  /** Two grids that agree in column `t` on lines `lo+1..hi-1`. */
  predicate AgreeInColumn(rows: seq<seq<nat>>, rows2: seq<seq<nat>>, t: nat, lo: int, hi: nat)
    requires hi <= |rows| && hi <= |rows2|
  {
    forall j :: lo < j < hi && 0 <= j ==>
      (t < |rows[j]| <==> t < |rows2[j]|) && (t < |rows[j]| ==> rows[j][t] == rows2[j][t])
  }

  lemma {:induction false} RunStartLocal(rows: seq<seq<nat>>, rows2: seq<seq<nat>>, t: nat, lo: int, hi: nat, l: nat)
    requires -1 <= lo < l < hi <= |rows| && hi <= |rows2|
    requires lo >= 0 ==> !HasCell(rows, t, lo) && !HasCell(rows2, t, lo)
    requires AgreeInColumn(rows, rows2, t, lo, hi)
    requires HasCell(rows, t, l)
    ensures HasCell(rows2, t, l) && RunStart(rows2, t, l) == RunStart(rows, t, l)
    decreases l
  {
    if l > 0 && HasCell(rows, t, l - 1) {
      RunStartLocal(rows, rows2, t, lo, hi, l - 1);
    }
  }

  lemma {:induction false} RunEndLocal(rows: seq<seq<nat>>, rows2: seq<seq<nat>>, t: nat, lo: int, hi: nat, l: nat)
    requires -1 <= lo < l < hi <= |rows| && hi <= |rows2|
    requires hi < |rows| ==> !HasCell(rows, t, hi)
    requires hi < |rows2| ==> !HasCell(rows2, t, hi)
    requires AgreeInColumn(rows, rows2, t, lo, hi)
    requires HasCell(rows, t, l)
    ensures HasCell(rows2, t, l) && RunEnd(rows2, t, l) == RunEnd(rows, t, l)
    decreases hi - l
  {
    if l + 1 < hi && HasCell(rows, t, l + 1) {
      RunEndLocal(rows, rows2, t, lo, hi, l + 1);
    }
  }

  lemma {:induction false} ColumnMaxLocal(rows: seq<seq<nat>>, rows2: seq<seq<nat>>, t: nat, lo: int, hi: nat, a: nat, b: nat)
    requires lo < a <= b <= hi <= |rows| && hi <= |rows2|
    requires AgreeInColumn(rows, rows2, t, lo, hi)
    requires forall k :: a <= k < b ==> t < |rows[k]|
    ensures forall k :: a <= k < b ==> t < |rows2[k]|
    ensures ColumnMax(rows2, t, a, b) == ColumnMax(rows, t, a, b)
    decreases b
  {
    if a < b {
      ColumnMaxLocal(rows, rows2, t, lo, hi, a, b - 1);
    }
  }

  /**
   * Block isolation: a line without a cell in column `t` closes the run.
   * Whatever lies above line `lo` or below line `hi` (both without a cell in
   * column `t`), and whatever the other columns hold, the stretched width of
   * column `t` between them is the same.
   */
  lemma BlockIsolation(rows: seq<seq<nat>>, rows2: seq<seq<nat>>, t: nat, lo: int, hi: nat, l: nat)
    requires -1 <= lo < l < hi <= |rows| && hi <= |rows2|
    requires lo >= 0 ==> !HasCell(rows, t, lo) && !HasCell(rows2, t, lo)
    requires hi < |rows| ==> !HasCell(rows, t, hi)
    requires hi < |rows2| ==> !HasCell(rows2, t, hi)
    requires AgreeInColumn(rows, rows2, t, lo, hi)
    requires HasCell(rows, t, l)
    ensures HasCell(rows2, t, l)
    ensures Stretched(rows2, t, l) == Stretched(rows, t, l)
  {
    RunStartLocal(rows, rows2, t, lo, hi, l);
    RunEndLocal(rows, rows2, t, lo, hi, l);
    ColumnMaxLocal(rows, rows2, t, lo, hi, RunStart(rows, t, l), RunEnd(rows, t, l));
  }

  /** A line with no tabs at all closes the runs of every column. */
  lemma TablessLineSplitsBlocks(rows: seq<seq<nat>>, t: nat, k: nat, l: nat)
    requires k < |rows| && |rows[k]| == 0
    requires HasCell(rows, t, l)
    ensures l < k ==> RunEnd(rows, t, l) <= k
    ensures k < l ==> RunStart(rows, t, l) > k
  {
    assert |rows[k]| == 0;
  }

  /** The stretched widths of the tab-terminated cells of line `l`, left to right. */
  function StretchedRow(rows: seq<seq<nat>>, l: nat): (ws: seq<nat>)
    requires l < |rows|
    ensures |ws| == |rows[l]|
    ensures forall t :: 0 <= t < |ws| ==> ws[t] == Stretched(rows, t, l)
  {
    seq(|rows[l]|, t requires 0 <= t < |rows[l]| => Stretched(rows, t, l))
  }

  /** Sum of `ws[0..k-1]`. */
  function Sum(ws: seq<nat>, k: nat): nat
    requires k <= |ws|
  {
    if k == 0 then 0 else Sum(ws, k - 1) + ws[k - 1]
  }

  /** Cumulative offsets: entry `t` is the sum of the widths of columns `0..t`. */
  function Offsets(ws: seq<nat>): seq<nat>
  {
    seq(|ws|, t requires 0 <= t < |ws| => Sum(ws, t + 1))
  }

  /** The tabstop list of line `l`: one cumulative offset per tab-terminated cell. */
  function Tabstops(rows: seq<seq<nat>>, l: nat): seq<nat>
    requires l < |rows|
  {
    Offsets(StretchedRow(rows, l))
  }

  /** The tabstop lists of a whole block. */
  function Layout(rows: seq<seq<nat>>): seq<seq<nat>>
  {
    LayoutFrom(rows, 0)
  }

  /** The tabstop lists of lines `i..` of the block. */
  function LayoutFrom(rows: seq<seq<nat>>, i: nat): (r: seq<seq<nat>>)
    requires i <= |rows|
    ensures |r| == |rows| - i
    decreases |rows| - i
  {
    if i == |rows| then [] else [Tabstops(rows, i)] + LayoutFrom(rows, i + 1)
  }

  /** Line `l` of the layout is the tabstop list of line `l`. */
  lemma LayoutLine(rows: seq<seq<nat>>, l: nat)
    requires l < |rows|
    ensures |Layout(rows)| == |rows|
    ensures Layout(rows)[l] == Tabstops(rows, l)
  {
    LayoutFromLine(rows, 0, l);
  }

  lemma {:induction false} LayoutFromLine(rows: seq<seq<nat>>, i: nat, l: nat)
    requires i <= l < |rows|
    ensures LayoutFrom(rows, i)[l - i] == Tabstops(rows, l)
    decreases l - i
  {
    if i < l {
      LayoutFromLine(rows, i + 1, l);
    }
  }

  /** One more offset: the running sum grows by the next width. */
  lemma OffsetsPrefix(ws: seq<nat>, t: nat)
    requires t < |ws|
    ensures Sum(ws, t + 1) == Sum(ws, t) + ws[t]
    ensures Offsets(ws)[..t + 1] == Offsets(ws)[..t] + [Sum(ws, t + 1)]
  {
    assert Offsets(ws)[..t + 1] == Offsets(ws)[..t] + [Offsets(ws)[t]];
  }

  /**
   * A line gets one tabstop per tab and none for its trailing text; the first
   * is the stretched width of column 0 and each further one adds the stretched
   * width of its own column.
   */
  lemma TabstopsCumulative(rows: seq<seq<nat>>, l: nat)
    requires l < |rows|
    ensures |Tabstops(rows, l)| == |rows[l]|
    ensures |rows[l]| > 0 ==> Tabstops(rows, l)[0] == Stretched(rows, 0, l)
    ensures forall t :: 0 < t < |rows[l]| ==>
      Tabstops(rows, l)[t] == Tabstops(rows, l)[t - 1] + Stretched(rows, t, l)
  {
    var ws := StretchedRow(rows, l);
    if |ws| > 0 {
      assert Sum(ws, 1) == Sum(ws, 0) + ws[0];
    }
  }

  predicate CellsAtLeast(rows: seq<seq<nat>>, m: nat)
  {
    forall j, t :: 0 <= j < |rows| && 0 <= t < |rows[j]| ==> rows[j][t] >= m
  }

  /** When every cell is at least `m > 0` wide, the tabstops of a line strictly increase. */
  lemma TabstopsIncreasing(rows: seq<seq<nat>>, l: nat, m: nat)
    requires l < |rows|
    requires m > 0
    requires CellsAtLeast(rows, m)
    ensures forall i, j :: 0 <= i < j < |rows[l]| ==> Tabstops(rows, l)[i] < Tabstops(rows, l)[j]
  {
    var ws := StretchedRow(rows, l);
    forall t | 0 <= t < |ws| ensures ws[t] >= m {
      assert rows[l][t] >= m;
    }
    OffsetsIncreasing(ws, m);
  }

  lemma OffsetsIncreasing(ws: seq<nat>, m: nat)
    requires m > 0
    requires forall t :: 0 <= t < |ws| ==> ws[t] >= m
    ensures forall i, j :: 0 <= i < j < |ws| ==> Offsets(ws)[i] < Offsets(ws)[j]
  {
    forall i, j | 0 <= i < j < |ws| ensures Offsets(ws)[i] < Offsets(ws)[j] {
      SumIncreasing(ws, m, i + 1, j + 1);
    }
  }

  lemma {:induction false} SumIncreasing(ws: seq<nat>, m: nat, a: nat, b: nat)
    requires a < b <= |ws|
    requires forall t :: 0 <= t < |ws| ==> ws[t] >= m
    ensures Sum(ws, a) + m <= Sum(ws, b)
    decreases b - a
  {
    if a < b - 1 {
      SumIncreasing(ws, m, a, b - 1);
    }
  }

  /** `win` is the slice of `rows` that begins at line `a`. */
  predicate IsWindow(rows: seq<seq<nat>>, win: seq<seq<nat>>, a: nat)
  {
    a + |win| <= |rows| && forall j :: 0 <= j < |win| ==> win[j] == rows[a + j]
  }

  lemma {:induction false} RunStartWindow(rows: seq<seq<nat>>, win: seq<seq<nat>>, a: nat, t: nat, l: nat)
    requires IsWindow(rows, win, a) && HasCell(win, t, l)
    requires HasCell(rows, t, a + l) && a <= RunStart(rows, t, a + l)
    ensures RunStart(win, t, l) + a == RunStart(rows, t, a + l)
    decreases l
  {
    if l > 0 {
      assert win[l - 1] == rows[a + l - 1];
      if HasCell(win, t, l - 1) {
        RunStartWindow(rows, win, a, t, l - 1);
      }
    }
  }

  lemma {:induction false} RunEndWindow(rows: seq<seq<nat>>, win: seq<seq<nat>>, a: nat, t: nat, l: nat)
    requires IsWindow(rows, win, a) && HasCell(win, t, l)
    requires HasCell(rows, t, a + l) && RunEnd(rows, t, a + l) <= a + |win|
    ensures RunEnd(win, t, l) + a == RunEnd(rows, t, a + l)
    decreases |win| - l
  {
    if l + 1 < |win| {
      assert win[l + 1] == rows[a + l + 1];
      if HasCell(win, t, l + 1) {
        RunEndWindow(rows, win, a, t, l + 1);
      }
    }
  }

  lemma {:induction false} ColumnMaxWindow(rows: seq<seq<nat>>, win: seq<seq<nat>>, a: nat, t: nat, lo: nat, hi: nat)
    requires IsWindow(rows, win, a) && lo <= hi <= |win|
    requires forall k :: lo <= k < hi ==> t < |win[k]|
    ensures forall k :: a + lo <= k < a + hi ==> t < |rows[k]|
    ensures ColumnMax(win, t, lo, hi) == ColumnMax(rows, t, a + lo, a + hi)
    decreases hi
  {
    forall k | a + lo <= k < a + hi ensures t < |rows[k]| {
      assert win[k - a] == rows[k];
    }
    if lo < hi {
      ColumnMaxWindow(rows, win, a, t, lo, hi - 1);
      assert win[hi - 1] == rows[a + hi - 1];
    }
  }

  /**
   * Stretching a window of the grid gives line `l` of the window the widths
   * the whole grid gives it, provided none of its runs crosses the window's edges.
   */
  lemma StretchedWindow(rows: seq<seq<nat>>, win: seq<seq<nat>>, a: nat, t: nat, l: nat)
    requires IsWindow(rows, win, a) && HasCell(win, t, l)
    requires HasCell(rows, t, a + l)
    requires a <= RunStart(rows, t, a + l) && RunEnd(rows, t, a + l) <= a + |win|
    ensures Stretched(win, t, l) == Stretched(rows, t, a + l)
  {
    RunStartWindow(rows, win, a, t, l);
    RunEndWindow(rows, win, a, t, l);
    ColumnMaxWindow(rows, win, a, t, RunStart(win, t, l), RunEnd(win, t, l));
  }

  /** The same for the whole tabstop list of a line; `g` is its line number in `rows`. */
  lemma TabstopsWindow(rows: seq<seq<nat>>, win: seq<seq<nat>>, a: nat, l: nat, g: nat)
    requires IsWindow(rows, win, a) && l < |win| && g == a + l
    requires forall t :: 0 <= t < |win[l]| ==>
      HasCell(rows, t, g) && a <= RunStart(rows, t, g) && RunEnd(rows, t, g) <= a + |win|
    ensures Tabstops(win, l) == Tabstops(rows, g)
  {
    assert win[l] == rows[g];
    forall t | 0 <= t < |win[l]| ensures StretchedRow(win, l)[t] == StretchedRow(rows, g)[t] {
      StretchedWindow(rows, win, a, t, l);
    }
    assert StretchedRow(win, l) == StretchedRow(rows, g);
  }

  /**
   * A window bounded by cell-less lines (or the ends of `rows`) is laid out
   * as `rows` is: no column block crosses its edges.
   */
  lemma BoundedWindowLayout(rows: seq<seq<nat>>, win: seq<seq<nat>>, a: nat, l: nat, g: nat)
    requires IsWindow(rows, win, a) && l < |win| && g == a + l
    requires a > 0 ==> |rows[a]| == 0
    requires a + |win| < |rows| ==> |rows[a + |win| - 1]| == 0
    ensures Layout(win)[l] == Tabstops(rows, g)
  {
    forall t | 0 <= t < |win[l]|
      ensures HasCell(rows, t, g) && a <= RunStart(rows, t, g) && RunEnd(rows, t, g) <= a + |win|
    {
      assert win[l] == rows[g];
      if a > 0 {
        TablessLineSplitsBlocks(rows, t, a, g);
      }
      if a + |win| < |rows| {
        TablessLineSplitsBlocks(rows, t, a + |win| - 1, g);
      }
    }
    TabstopsWindow(rows, win, a, l, g);
    LayoutLine(win, l);
  }
}
