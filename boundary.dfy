/**
 * Edit scoping of src/ElasticTabstops.cpp: the document as the engine
 * sees it, the walk to the edges of a block (`get_block_boundary`,
 * `change_line`) and the widest line of an edited range (`get_nof_tabs_between`).
 */
module Boundary {
  import opened Util
  import opened Cells

  /** A document is a non-empty sequence of lines, without their line-end characters. */
  predicate ValidDoc(doc: seq<seq<char>>)
  {
    |doc| > 0
  }

  /** A buffer position, as the line it lies on and its offset in that line. */
  datatype Pos = Pos(line: nat, col: nat)

  predicate ValidPos(doc: seq<seq<char>>, p: Pos)
  {
    p.line < |doc| && p.col <= |doc[p.line]|
  }

  /** Buffer positions are ordered by line, then by offset. */
  predicate PosLess(a: Pos, b: Pos)
  {
    a.line < b.line || (a.line == b.line && a.col < b.col)
  }

  predicate PosLe(a: Pos, b: Pos)
  {
    a == b || PosLess(a, b)
  }

  /** The position after the last character of the document. */
  function DocEnd(doc: seq<seq<char>>): (p: Pos)
    requires ValidDoc(doc)
    ensures ValidPos(doc, p)
  {
    Pos(|doc| - 1, |doc[|doc| - 1]|)
  }

  datatype Direction = Backwards | Forwards

  function LineTabs(doc: seq<seq<char>>, k: nat): nat
    requires k < |doc|
  {
    NumTabs(doc[k])
  }

  /** Largest tab count of lines `lo..hi`. */
  function MaxTabs(doc: seq<seq<char>>, lo: nat, hi: nat): (r: nat)
    requires lo <= hi < |doc|
    ensures forall k :: lo <= k <= hi ==> LineTabs(doc, k) <= r
    decreases hi
  {
    if lo == hi then LineTabs(doc, lo) else Max(MaxTabs(doc, lo, hi - 1), LineTabs(doc, hi))
  }

  /** ... and it is the tab count of one of those lines. */
  lemma {:induction false} MaxTabsAttained(doc: seq<seq<char>>, lo: nat, hi: nat)
    requires lo <= hi < |doc|
    ensures exists k :: lo <= k <= hi && MaxTabs(doc, lo, hi) == LineTabs(doc, k)
    decreases hi
  {
    if lo == hi || MaxTabs(doc, lo, hi) == LineTabs(doc, hi) {
      assert lo <= hi <= hi && MaxTabs(doc, lo, hi) == LineTabs(doc, hi);
    } else {
      MaxTabsAttained(doc, lo, hi - 1);
      var k :| lo <= k <= hi - 1 && MaxTabs(doc, lo, hi - 1) == LineTabs(doc, k);
      assert lo <= k <= hi && MaxTabs(doc, lo, hi) == LineTabs(doc, k);
    }
  }

  /** The maximum can also be taken from the top end of the range. */
  lemma {:induction false} MaxTabsFromTop(doc: seq<seq<char>>, lo: nat, hi: nat)
    requires lo < hi < |doc|
    ensures MaxTabs(doc, lo, hi) == Max(LineTabs(doc, lo), MaxTabs(doc, lo + 1, hi))
    decreases hi
  {
    if lo + 1 < hi {
      MaxTabsFromTop(doc, lo, hi - 1);
    }
  }

  /**
   * Where the backward walk from line `l` stops: the nearest line above `l`
   * with no tabs, or line 0.
   */
  function BackStop(doc: seq<seq<char>>, l: nat): (s: nat)
    requires l < |doc|
    ensures s <= l
    ensures forall k :: s < k < l ==> LineTabs(doc, k) > 0
    ensures s == 0 || (s < l && LineTabs(doc, s) == 0)
    decreases l
  {
    if l == 0 then 0
    else if LineTabs(doc, l - 1) == 0 then l - 1
    else BackStop(doc, l - 1)
  }

  /**
   * Where the forward walk from line `l` stops: the start of the nearest line
   * below `l` with no tabs or, when every line below has tabs, the end of the document.
   */
  function FwdBoundary(doc: seq<seq<char>>, l: nat): (p: Pos)
    requires l < |doc|
    ensures ValidPos(doc, p) && l <= p.line
    ensures forall k :: l < k < p.line ==> LineTabs(doc, k) > 0
    ensures (l < p.line && p.col == 0 && LineTabs(doc, p.line) == 0)
         || (p == DocEnd(doc) && forall k :: l < k < |doc| ==> LineTabs(doc, k) > 0)
    decreases |doc| - l
  {
    if l + 1 == |doc| then DocEnd(doc)
    else if LineTabs(doc, l + 1) == 0 then Pos(l + 1, 0)
    else FwdBoundary(doc, l + 1)
  }

  /** Last line `get_nof_tabs_between` scans: the line of `end`, or the one above it when `end` opens a later line. */
  function BetweenLast(start: Pos, end: Pos): nat
  {
    if end.line > start.line && end.col == 0 then end.line - 1 else end.line
  }

  /** `change_line`: move to the start of the neighbouring line. */
  method ChangeLine(doc: seq<seq<char>>, location: Pos, dir: Direction) returns (ok: bool, loc: Pos)
    requires ValidDoc(doc) && ValidPos(doc, location)
    ensures ValidPos(doc, loc)
    ensures dir == Backwards ==> ok == (location.line > 0)
    ensures dir == Backwards && ok ==> loc == Pos(location.line - 1, 0)
    ensures dir == Backwards && !ok ==> loc == location
    ensures dir == Forwards ==> ok
    ensures dir == Forwards ==> loc == if location.line + 1 < |doc| then Pos(location.line + 1, 0) else DocEnd(doc)
  {
    var line := location.line;
    loc := location;
    if dir == Forwards {
      // asking for the start of the line after the last one gives the end of the document
      loc := if line + 1 < |doc| then Pos(line + 1, 0) else DocEnd(doc);
    } else {
      if line <= 0 {
        return false, loc;
      }
      loc := Pos(line - 1, 0);
    }
    ok := true;
  }

  /** Counts the tabs from the start of `s` up to its end or its first NUL. */
  method CountLineTabs(s: seq<char>) returns (n: nat)
    ensures n == NumTabs(s)
  {
    n := 0;
    var i := 0;
    while i < |s| && s[i] != NUL
      invariant 0 <= i <= |s|
      invariant n + NumTabs(s[i..]) == NumTabs(s)
    {
      assert s[i..][1..] == s[i + 1..];
      if s[i] == TAB {
        n := n + 1;
      }
      i := i + 1;
    }
  }

  /**
   * `get_block_boundary`: walks from the line of `location` in direction `dir`,
   * scanning the starting line and then every line until one (other than the
   * starting line) has no tabs; returns the largest tab count it saw and
   * leaves `loc` where the walk stopped.
   */
  method GetBlockBoundary(doc: seq<seq<char>>, location: Pos, dir: Direction) returns (maxTabs: nat, loc: Pos)
    requires ValidDoc(doc) && ValidPos(doc, location)
    ensures ValidPos(doc, loc)
    ensures dir == Backwards ==> loc == Pos(BackStop(doc, location.line), 0)
    ensures dir == Backwards ==> maxTabs == MaxTabs(doc, loc.line, location.line)
    ensures dir == Forwards ==> loc == FwdBoundary(doc, location.line)
    ensures dir == Forwards ==> maxTabs == MaxTabs(doc, location.line, loc.line)
  {
    var l0 := location.line;
    maxTabs := 0;
    var origLine := true;
    loc := Pos(l0, 0);
    // `next` is the line about to be scanned, |doc| once the walk has passed the last line
    ghost var next: nat := l0;
    while true
      invariant next <= |doc| && ValidPos(doc, loc)
      invariant origLine ==> next == l0 && loc == Pos(l0, 0) && maxTabs == 0
      invariant next < |doc| ==> loc == Pos(next, 0)
      invariant next == |doc| ==> dir == Forwards && loc == DocEnd(doc) && !origLine
      invariant dir == Backwards ==> next <= l0
      invariant !origLine ==> Walked(doc, l0, dir, next, maxTabs)
      decreases if dir == Forwards then |doc| - next else next
    {
      var tabsOnLine := CountLineTabs(doc[loc.line][loc.col..]);
      if next == |doc| {
        assert doc[loc.line][loc.col..] == [];
      } else {
        assert doc[loc.line][loc.col..] == doc[next];
      }
      ghost var before := maxTabs;
      if tabsOnLine > maxTabs {
        maxTabs := tabsOnLine;
      }
      if tabsOnLine == 0 && !origLine {
        WalkStop(doc, l0, dir, next, before);
        return;
      }
      WalkOn(doc, l0, dir, next, before, tabsOnLine);
      origLine := false;
      var ok;
      ok, loc := ChangeLine(doc, loc, dir);
      if !ok {
        return;
      }
      next := if dir == Backwards then next - 1 else next + 1;
    }
  }

  /**
   * The walk from line `l0` has scanned the lines strictly between `l0` and
   * `next` and line `l0` itself, all of them but `l0` with tabs, and `m` is
   * their largest tab count.
   */
  ghost predicate Walked(doc: seq<seq<char>>, l0: nat, dir: Direction, next: nat, m: nat)
    requires l0 < |doc| && next <= |doc|
  {
    if dir == Forwards then
      l0 < next && m == MaxTabs(doc, l0, next - 1) && forall k :: l0 < k < next ==> LineTabs(doc, k) > 0
    else
      next < l0 && m == MaxTabs(doc, next + 1, l0) && forall k :: next < k < l0 ==> LineTabs(doc, k) > 0
  }

  /** Line `next` scanned with `t` tabs, and the walk goes on past it. */
  lemma WalkOn(doc: seq<seq<char>>, l0: nat, dir: Direction, next: nat, m: nat, t: nat)
    requires l0 < |doc| && next < |doc| && t == LineTabs(doc, next)
    requires dir == Backwards ==> next <= l0
    requires (next == l0 && m == 0) || (Walked(doc, l0, dir, next, m) && t > 0)
    ensures dir == Forwards ==> Walked(doc, l0, dir, next + 1, Max(m, t))
    ensures dir == Backwards && next > 0 ==> Walked(doc, l0, dir, next - 1, Max(m, t))
    ensures dir == Backwards && next == 0 ==> BackStop(doc, l0) == 0 && Max(m, t) == MaxTabs(doc, 0, l0)
  {
    if dir == Backwards && next < l0 {
      MaxTabsFromTop(doc, next, l0);
    }
    if dir == Backwards && next == 0 {
      BackStopAtTop(doc, l0);
    }
  }

  /** The walk stops at `next`: a line without tabs, or the end of the document. */
  lemma WalkStop(doc: seq<seq<char>>, l0: nat, dir: Direction, next: nat, m: nat)
    requires l0 < |doc| && next <= |doc| && Walked(doc, l0, dir, next, m)
    requires next < |doc| ==> LineTabs(doc, next) == 0
    ensures dir == Forwards ==> FwdBoundary(doc, l0) == (if next < |doc| then Pos(next, 0) else DocEnd(doc))
    ensures dir == Forwards ==> Max(m, 0) == MaxTabs(doc, l0, FwdBoundary(doc, l0).line)
    ensures dir == Backwards ==> BackStop(doc, l0) == next && Max(m, 0) == MaxTabs(doc, next, l0)
  {
    if dir == Forwards {
      if next < |doc| {
        FwdBoundaryAt(doc, l0, next);
      } else {
        FwdBoundaryAtEnd(doc, l0);
      }
    } else {
      BackStopAt(doc, l0, next);
      MaxTabsFromTop(doc, next, l0);
    }
  }

  lemma FwdBoundaryAt(doc: seq<seq<char>>, l0: nat, next: nat)
    requires l0 < next < |doc|
    requires forall k :: l0 < k < next ==> LineTabs(doc, k) > 0
    requires LineTabs(doc, next) == 0
    ensures FwdBoundary(doc, l0) == Pos(next, 0)
  {
  }

  lemma FwdBoundaryAtEnd(doc: seq<seq<char>>, l0: nat)
    requires l0 < |doc|
    requires forall k :: l0 < k < |doc| ==> LineTabs(doc, k) > 0
    ensures FwdBoundary(doc, l0) == DocEnd(doc)
  {
  }

  lemma BackStopAt(doc: seq<seq<char>>, l0: nat, next: nat)
    requires next < l0 < |doc|
    requires forall k :: next < k < l0 ==> LineTabs(doc, k) > 0
    requires LineTabs(doc, next) == 0
    ensures BackStop(doc, l0) == next
  {
  }

  lemma BackStopAtTop(doc: seq<seq<char>>, l0: nat)
    requires 0 < |doc| && l0 < |doc|
    requires forall k :: 0 < k < l0 ==> LineTabs(doc, k) > 0
    ensures BackStop(doc, l0) == 0
  {
  }

  /**
   * `get_nof_tabs_between`: the largest tab count over the lines from the line
   * of `start` while the next line starts before `end`.
   */
  method GetNofTabsBetween(doc: seq<seq<char>>, start: Pos, end: Pos) returns (maxTabs: nat)
    requires ValidDoc(doc) && ValidPos(doc, start) && ValidPos(doc, end)
    requires PosLe(start, end)
    ensures start.line <= BetweenLast(start, end) < |doc|
    ensures maxTabs == MaxTabs(doc, start.line, BetweenLast(start, end))
  {
    var last := BetweenLast(start, end);
    var current := Pos(start.line, 0);
    maxTabs := 0;
    while true
      invariant start.line <= current.line <= last && current.col == 0
      invariant current.line == start.line ==> maxTabs == 0
      invariant current.line > start.line ==> maxTabs == MaxTabs(doc, start.line, current.line - 1)
      decreases |doc| - current.line
    {
      ghost var scanned := current.line;
      var tabsOnLine := CountLineTabs(doc[current.line][current.col..]);
      assert doc[current.line][current.col..] == doc[scanned];
      if tabsOnLine > maxTabs {
        maxTabs := tabsOnLine;
      }
      assert maxTabs == MaxTabs(doc, start.line, scanned);
      var ok;
      ok, current := ChangeLine(doc, current, Forwards);
      if !(ok && PosLess(current, end)) {
        return;
      }
    }
  }
}
