/** Day 7: a tachyon beam enters at `S` and travels down the grid; a
    splitter `^` hit by the beam stops it and starts two beams in the cells
    to its left and right.  Part A draws the beams (`|`) row by row and
    counts the splitters hit; part B counts the distinct timelines, where
    every split doubles the current timeline. */
module Day7 {
  import opened Wrappers
  import opened Text
  import opened Grid

  const START: byte := 83  // 'S'
  const BEAM: byte := 124  // '|'
  const SPLIT: byte := 94  // '^'
  const EMPTY: byte := 46  // '.'

  // ---------------------------------------------------------------- part A

  /** The row being drawn after the visit of column `c`: a `.` below `S`
      or `|` becomes `|`; a `^` below `|` turns its `.` neighbours into
      `|`.  `above` is the finished row above. */
  function StepCells(above: seq<byte>, cells: seq<byte>, c: nat): (r: seq<byte>)
    requires |above| == |cells| && c < |cells|
    ensures |r| == |cells|
  {
    var a, cur := above[c], cells[c];
    var c1 := if (a == START || a == BEAM) && cur == EMPTY then cells[c := BEAM] else cells;
    if cur == SPLIT && a == BEAM then
      var c2 := if c > 0 && c1[c - 1] == EMPTY then c1[c - 1 := BEAM] else c1;
      if c + 1 < |c2| && c2[c + 1] == EMPTY then c2[c + 1 := BEAM] else c2
    else c1
  }

  /** Whether the visit of column `c` counts a split. */
  predicate Hit(above: seq<byte>, cells: seq<byte>, c: nat)
    requires |above| == |cells| && c < |cells|
  {
    cells[c] == SPLIT && above[c] == BEAM
  }

  datatype RowScan = RowScan(cells: seq<byte>, splits: nat)

  /** The inner loop of `part_a` over the first `n` columns of a row. */
  function ScanRowPrefix(above: seq<byte>, cur: seq<byte>, n: nat): (s: RowScan)
    requires |above| == |cur| && n <= |cur|
    ensures |s.cells| == |cur|
  {
    if n == 0 then RowScan(cur, 0)
    else
      var s := ScanRowPrefix(above, cur, n - 1);
      RowScan(StepCells(above, s.cells, n - 1), s.splits + (if Hit(above, s.cells, n - 1) then 1 else 0))
  }

  function ScanRow(above: seq<byte>, cur: seq<byte>): (s: RowScan)
    requires |above| == |cur|
    ensures |s.cells| == |cur|
  {
    ScanRowPrefix(above, cur, |cur|)
  }

  /** The reference rule for a finished row: a `.` cell becomes `|` iff the
      cell above is `S` or `|`, or a neighbour in the row is a `^` with `|`
      above it. */
  predicate Lights(above: seq<byte>, cur: seq<byte>, c: nat)
    requires |above| == |cur| && c < |cur|
  {
    && cur[c] == EMPTY
    && (|| above[c] == START || above[c] == BEAM
        || (c > 0 && cur[c - 1] == SPLIT && above[c - 1] == BEAM)
        || (c + 1 < |cur| && cur[c + 1] == SPLIT && above[c + 1] == BEAM))
  }

  /** The number of splitters in `cur[..n]` with a beam above. */
  function CountHits(above: seq<byte>, cur: seq<byte>, n: nat): nat
    requires |above| == |cur| && n <= |cur|
  {
    if n == 0 then 0
    else CountHits(above, cur, n - 1) + (if cur[n - 1] == SPLIT && above[n - 1] == BEAM then 1 else 0)
  }

  /** `Lights` as far as the visits of the first `n` columns can tell. */
  predicate LitBy(above: seq<byte>, cur: seq<byte>, c: nat, n: nat)
    requires |above| == |cur| && c < |cur|
  {
    && cur[c] == EMPTY
    && (|| (c < n && (above[c] == START || above[c] == BEAM))
        || (c > 0 && c - 1 < n && cur[c - 1] == SPLIT && above[c - 1] == BEAM)
        || (c + 1 < n && c + 1 < |cur| && cur[c + 1] == SPLIT && above[c + 1] == BEAM))
  }

  function Partial(above: seq<byte>, cur: seq<byte>, n: nat): (r: seq<byte>)
    requires |above| == |cur|
    ensures |r| == |cur|
  {
    seq(|cur|, c requires 0 <= c < |cur| => if LitBy(above, cur, c, n) then BEAM else cur[c])
  }

  /** One visit turns the picture after `n` columns into the picture after
      `n + 1`, and counts a split exactly at a `^` below `|`. */
  lemma StepPartial(above: seq<byte>, cur: seq<byte>, n: nat)
    requires |above| == |cur| && n < |cur|
    ensures StepCells(above, Partial(above, cur, n), n) == Partial(above, cur, n + 1)
    ensures Hit(above, Partial(above, cur, n), n) <==> cur[n] == SPLIT && above[n] == BEAM
  {
    var p, q := Partial(above, cur, n), Partial(above, cur, n + 1);
    var r := StepCells(above, p, n);
    assert p[n] == SPLIT <==> cur[n] == SPLIT;
    forall c | 0 <= c < |cur| ensures r[c] == q[c] {
      if c < n - 1 || c > n + 1 {
        assert LitBy(above, cur, c, n) == LitBy(above, cur, c, n + 1);
      }
    }
  }

  lemma {:induction false} ScanRowPrefixPartial(above: seq<byte>, cur: seq<byte>, n: nat)
    requires |above| == |cur| && n <= |cur|
    ensures ScanRowPrefix(above, cur, n).cells == Partial(above, cur, n)
    ensures ScanRowPrefix(above, cur, n).splits == CountHits(above, cur, n)
  {
    if n == 0 {
      assert Partial(above, cur, 0) == cur;
    } else {
      ScanRowPrefixPartial(above, cur, n - 1);
      StepPartial(above, cur, n - 1);
    }
  }

  /** A drawn row follows the reference rule cell by cell, and the row's
      split count is the number of its splitters hit from above. */
  lemma ScanRowMeaning(above: seq<byte>, cur: seq<byte>)
    requires |above| == |cur|
    ensures forall c :: 0 <= c < |cur| ==> ScanRow(above, cur).cells[c] == if Lights(above, cur, c) then BEAM else cur[c]
    ensures ScanRow(above, cur).splits == CountHits(above, cur, |cur|)
  {
    ScanRowPrefixPartial(above, cur, |cur|);
    forall c | 0 <= c < |cur| ensures LitBy(above, cur, c, |cur|) == Lights(above, cur, c) {
    }
  }

  datatype Beams = Beams(grid: seq<seq<byte>>, splits: nat)

  /** The outer loop of `part_a` after rows `1..n` have been drawn. */
  function Propagate(g: seq<seq<byte>>, rows: nat, cols: nat, n: nat): (b: Beams)
    requires IsGrid(g, rows, cols) && n <= rows
    ensures IsGrid(b.grid, rows, cols)
  {
    if n <= 1 then Beams(g, 0)
    else
      var prev := Propagate(g, rows, cols, n - 1);
      var s := ScanRow(prev.grid[n - 2], prev.grid[n - 1]);
      Beams(prev.grid[n - 1 := s.cells], prev.splits + s.splits)
  }

  /** The splits counted in rows `1..n` of the drawn grid `d` over the
      original `g`. */
  function RowHits(d: seq<seq<byte>>, g: seq<seq<byte>>, rows: nat, cols: nat, n: nat): nat
    requires IsGrid(d, rows, cols) && IsGrid(g, rows, cols) && n <= rows
  {
    if n <= 1 then 0 else RowHits(d, g, rows, cols, n - 1) + CountHits(d[n - 2], g[n - 1], cols)
  }

  /** After rows `1..n`: row 0 and the rows not yet reached are the
      original ones, every drawn row is the row scan of the drawn row above
      it over the original row, and the split count adds up the rows' hits. */
  lemma {:induction false} PropagateRows(g: seq<seq<byte>>, rows: nat, cols: nat, n: nat)
    requires IsGrid(g, rows, cols) && n <= rows
    ensures forall r :: 0 <= r < rows && (r == 0 || r >= n) ==> Propagate(g, rows, cols, n).grid[r] == g[r]
    ensures forall r :: 1 <= r < n ==>
      Propagate(g, rows, cols, n).grid[r] == ScanRow(Propagate(g, rows, cols, n).grid[r - 1], g[r]).cells
    ensures Propagate(g, rows, cols, n).splits == RowHits(Propagate(g, rows, cols, n).grid, g, rows, cols, n)
  {
    if n > 1 {
      PropagateRows(g, rows, cols, n - 1);
      var prev := Propagate(g, rows, cols, n - 1);
      var d := Propagate(g, rows, cols, n).grid;
      ScanRowMeaning(prev.grid[n - 2], prev.grid[n - 1]);
      assert d[..n - 1] == prev.grid[..n - 1];
      RowHitsPrefix(d, prev.grid, g, rows, cols, n - 1);
    }
  }

  /** `RowHits` up to `n` reads only the first `n - 1` drawn rows. */
  lemma {:induction false} RowHitsPrefix(d: seq<seq<byte>>, e: seq<seq<byte>>, g: seq<seq<byte>>, rows: nat, cols: nat, n: nat)
    requires IsGrid(d, rows, cols) && IsGrid(e, rows, cols) && IsGrid(g, rows, cols) && n <= rows
    requires forall r :: 0 <= r < n ==> d[r] == e[r]
    ensures RowHits(d, g, rows, cols, n) == RowHits(e, g, rows, cols, n)
  {
    if n > 1 {
      RowHitsPrefix(d, e, g, rows, cols, n - 1);
    }
  }

  /** What `part_a` computes: the grid with every beam drawn, and the
      number of splits. */
  function PartASpec(g: seq<seq<byte>>, rows: nat, cols: nat): Beams
    requires IsGrid(g, rows, cols)
  {
    Propagate(g, rows, cols, rows)
  }

  /** The finished picture: row 0 is unchanged, each later cell becomes `|`
      exactly when `Lights` holds over the finished row above and is
      otherwise unchanged, and the result counts the splitters hit from
      above. */
  lemma PartAMeaning(g: seq<seq<byte>>, rows: nat, cols: nat)
    requires IsGrid(g, rows, cols)
    ensures rows > 0 ==> PartASpec(g, rows, cols).grid[0] == g[0]
    ensures forall r, c :: 1 <= r < rows && 0 <= c < cols ==>
      PartASpec(g, rows, cols).grid[r][c] ==
        if Lights(PartASpec(g, rows, cols).grid[r - 1], g[r], c) then BEAM else g[r][c]
    ensures PartASpec(g, rows, cols).splits == RowHits(PartASpec(g, rows, cols).grid, g, rows, cols, rows)
  {
    PropagateRows(g, rows, cols, rows);
    var d := PartASpec(g, rows, cols).grid;
    forall r | 1 <= r < rows
      ensures forall c :: 0 <= c < cols ==> d[r][c] == if Lights(d[r - 1], g[r], c) then BEAM else g[r][c]
    {
      ScanRowMeaning(d[r - 1], g[r]);
    }
  }

  /** Part A only ever turns `.` into `|`. */
  lemma PartAOnlyDrawsBeams(g: seq<seq<byte>>, rows: nat, cols: nat)
    requires IsGrid(g, rows, cols)
    ensures forall r, c :: 0 <= r < rows && 0 <= c < cols ==>
      PartASpec(g, rows, cols).grid[r][c] == g[r][c] ||
      (g[r][c] == EMPTY && PartASpec(g, rows, cols).grid[r][c] == BEAM)
  {
    PartAMeaning(g, rows, cols);
  }

  /** One visit of the inner loop, in place. */
  method VisitCell(a: array2<byte>, row: nat, col: nat) returns (hit: bool)
    requires 1 <= row < a.Length0 && col < a.Length1
    modifies a
    ensures Snapshot(a) == old(Snapshot(a))[row := StepCells(old(Snapshot(a))[row - 1], old(Snapshot(a))[row], col)]
    ensures hit == Hit(old(Snapshot(a))[row - 1], old(Snapshot(a))[row], col)
  {
    ghost var g := Snapshot(a);
    ghost var aboveRow, cells := g[row - 1], g[row];
    var above := a[row - 1, col];
    var current := a[row, col];
    if above == START && current == EMPTY {
      SetCell(a, row, col, BEAM);
    }
    if above == BEAM && current == EMPTY {
      SetCell(a, row, col, BEAM);
    }
    ghost var c1 := if (above == START || above == BEAM) && current == EMPTY then cells[col := BEAM] else cells;
    assert Snapshot(a) == g[row := c1];
    hit := false;
    if current == SPLIT && above == BEAM {
      hit := true;
      var left := MoveCursor(a.Length0, a.Length1, LEFT, (row, col));
      var right := MoveCursor(a.Length0, a.Length1, RIGHT, (row, col));
      if left.Some? {
        if a[left.value.0, left.value.1] == EMPTY {
          SetCell(a, left.value.0, left.value.1, BEAM);
        }
      }
      ghost var c2 := if col > 0 && c1[col - 1] == EMPTY then c1[col - 1 := BEAM] else c1;
      assert Snapshot(a) == g[row := c2];
      if right.Some? {
        if a[right.value.0, right.value.1] == EMPTY {
          SetCell(a, right.value.0, right.value.1, BEAM);
        }
      }
    }
  }

  /** The inner loop of `part_a`: draw row `row` from the row above. */
  method DrawRow(a: array2<byte>, row: nat) returns (splits: nat)
    requires 1 <= row < a.Length0
    modifies a
    ensures Snapshot(a) == old(Snapshot(a))[row := ScanRow(old(Snapshot(a))[row - 1], old(Snapshot(a))[row]).cells]
    ensures splits == ScanRow(old(Snapshot(a))[row - 1], old(Snapshot(a))[row]).splits
  {
    ghost var g := Snapshot(a);
    splits := 0;
    for col := 0 to a.Length1
      invariant Snapshot(a) == g[row := ScanRowPrefix(g[row - 1], g[row], col).cells]
      invariant splits == ScanRowPrefix(g[row - 1], g[row], col).splits
    {
      var hit := VisitCell(a, row, col);
      if hit {
        splits := splits + 1;
      }
    }
  }

  /** `part_a`: draw every row below the first and count the splits. */
  method PartA(a: array2<byte>) returns (numBeamSplits: nat)
    modifies a
    ensures Snapshot(a) == PartASpec(old(Snapshot(a)), a.Length0, a.Length1).grid
    ensures numBeamSplits == PartASpec(old(Snapshot(a)), a.Length0, a.Length1).splits
  {
    ghost var g := Snapshot(a);
    numBeamSplits := 0;
    var row := 1;
    while row < a.Length0
      invariant 1 <= row && (a.Length0 > 0 ==> row <= a.Length0)
      invariant row <= a.Length0 ==> Snapshot(a) == Propagate(g, a.Length0, a.Length1, row).grid
      invariant row <= a.Length0 ==> numBeamSplits == Propagate(g, a.Length0, a.Length1, row).splits
      invariant a.Length0 == 0 ==> Snapshot(a) == g && numBeamSplits == 0
    {
      var k := DrawRow(a, row);
      numBeamSplits := numBeamSplits + k;
      row := row + 1;
    }
  }

  // ---------------------------------------------------------------- part B

  /** `recursively_explore_grid`: the timelines of a beam at `p`, moving to
      the next row.  Leaving the bottom is one timeline; a `.` lets it
      continue, a `^` splits it, anything else ends it.  The memoisation of
      the source only caches these values. */
  function ExploreGrid(g: seq<seq<byte>>, rows: nat, cols: nat, p: Pos): nat
    requires IsGrid(g, rows, cols) && InBounds(rows, cols, p)
    decreases rows - p.0, 0
  {
    var row := p.0 + 1;
    if row == rows then 1
    else
      var current := g[row][p.1];
      if current == EMPTY then ExploreGrid(g, rows, cols, (row, p.1))
      else if current == SPLIT then ExploreSplitter(g, rows, cols, (row, p.1))
      else 0
  }

  /** `recursively_explore_splitter`: the timelines of the two beams
      started left and right of a splitter, where those cells exist and
      are `.`. */
  function ExploreSplitter(g: seq<seq<byte>>, rows: nat, cols: nat, p: Pos): nat
    requires IsGrid(g, rows, cols) && InBounds(rows, cols, p)
    decreases rows - p.0, 1
  {
    var left := MoveCursor(rows, cols, LEFT, p);
    var right := MoveCursor(rows, cols, RIGHT, p);
    (if left.Some? && g[left.value.0][left.value.1] == EMPTY then ExploreGrid(g, rows, cols, left.value) else 0)
    + (if right.Some? && g[right.value.0][right.value.1] == EMPTY then ExploreGrid(g, rows, cols, right.value) else 0)
  }

  /** The first column of row 0 holding `S`. */
  function StartColumn(g: seq<seq<byte>>, rows: nat, cols: nat, from: nat): (c: Option<nat>)
    requires IsGrid(g, rows, cols) && from <= cols
    ensures c.Some? ==> rows > 0 && from <= c.value < cols && g[0][c.value] == START
    ensures c.Some? ==> forall k :: from <= k < c.value ==> g[0][k] != START
    ensures c.None? ==> rows == 0 || forall k :: from <= k < cols ==> g[0][k] != START
    decreases cols - from
  {
    if from == cols then None
    else if Get(g, rows, cols, 0, from) == Some(START) then Some(from)
    else StartColumn(g, rows, cols, from + 1)
  }

  /** `part_b`: panics when row 0 has no `S`. */
  function PartB(g: seq<seq<byte>>, rows: nat, cols: nat): (r: Result<nat>)
    requires IsGrid(g, rows, cols)
    ensures r.Panic? <==> rows == 0 || forall k :: 0 <= k < cols ==> g[0][k] != START
    ensures r.Ok? ==> StartColumn(g, rows, cols, 0).Some? &&
                      r.value == |Timelines(g, rows, cols, (0, StartColumn(g, rows, cols, 0).value))|
  {
    match StartColumn(g, rows, cols, 0)
    case None => Panic("called `Option::unwrap()` on a `None` value")
    case Some(c) =>
      TimelinesCount(g, rows, cols, (0, c));
      Ok(ExploreGrid(g, rows, cols, (0, c)))
  }

  function Pow2(n: nat): nat { if n == 0 then 1 else 2 * Pow2(n - 1) }

  lemma {:induction false} Pow2Mono(m: nat, n: nat)
    requires m <= n
    ensures Pow2(m) <= Pow2(n)
    decreases n
  {
    if m < n {
      Pow2Mono(m, n - 1);
    }
  }

  /** Each row below a beam can at most double its timelines. */
  lemma {:induction false} ExploreGridBound(g: seq<seq<byte>>, rows: nat, cols: nat, p: Pos)
    requires IsGrid(g, rows, cols) && InBounds(rows, cols, p)
    ensures ExploreGrid(g, rows, cols, p) <= Pow2(rows - 1 - p.0)
    decreases rows - p.0, 0
  {
    var row := p.0 + 1;
    if row < rows {
      var current := g[row][p.1];
      if current == EMPTY {
        ExploreGridBound(g, rows, cols, (row, p.1));
        Pow2Mono(rows - 1 - row, rows - 1 - p.0);
      } else if current == SPLIT {
        ExploreSplitterBound(g, rows, cols, (row, p.1));
      }
    }
  }

  lemma {:induction false} ExploreSplitterBound(g: seq<seq<byte>>, rows: nat, cols: nat, p: Pos)
    requires IsGrid(g, rows, cols) && InBounds(rows, cols, p)
    ensures ExploreSplitter(g, rows, cols, p) <= 2 * Pow2(rows - 1 - p.0)
    decreases rows - p.0, 1
  {
    var left := MoveCursor(rows, cols, LEFT, p);
    var right := MoveCursor(rows, cols, RIGHT, p);
    if left.Some? {
      ExploreGridBound(g, rows, cols, left.value);
    }
    if right.Some? {
      ExploreGridBound(g, rows, cols, right.value);
    }
  }

  /** A beam with only `.` below it leaves the grid in one timeline. */
  lemma {:induction false} StraightDown(g: seq<seq<byte>>, rows: nat, cols: nat, p: Pos)
    requires IsGrid(g, rows, cols) && InBounds(rows, cols, p)
    requires forall r :: p.0 < r < rows ==> g[r][p.1] == EMPTY
    ensures ExploreGrid(g, rows, cols, p) == 1
    decreases rows - p.0
  {
    if p.0 + 1 < rows {
      StraightDown(g, rows, cols, (p.0 + 1, p.1));
    }
  }

  /** A splitter whose neighbours are missing or not `.` ends both beams. */
  lemma BlockedSplitter(g: seq<seq<byte>>, rows: nat, cols: nat, p: Pos)
    requires IsGrid(g, rows, cols) && InBounds(rows, cols, p)
    requires p.1 > 0 ==> g[p.0][p.1 - 1] != EMPTY
    requires p.1 + 1 < cols ==> g[p.0][p.1 + 1] != EMPTY
    ensures ExploreSplitter(g, rows, cols, p) == 0
  {
  }

  // ------------------------------------------------------------ timelines

  /** One move of a beam at `q` into the next row: straight down onto a
      `.`, or, when a `^` is below it, off the splitter onto a `.` beside
      the splitter. */
  predicate BeamStep(g: seq<seq<byte>>, rows: nat, cols: nat, q: Pos, q': Pos)
    requires IsGrid(g, rows, cols)
  {
    q.0 + 1 < rows && q.1 < cols && q'.0 == q.0 + 1 && q'.1 < cols && g[q'.0][q'.1] == EMPTY &&
    (q'.1 == q.1 || (g[q.0 + 1][q.1] == SPLIT && (q'.1 + 1 == q.1 || q'.1 == q.1 + 1)))
  }

  /** A timeline from `p`: the cells a beam occupies, one per row, from `p`
      until it leaves through the last row. */
  predicate IsTimeline(g: seq<seq<byte>>, rows: nat, cols: nat, p: Pos, w: seq<Pos>)
    requires IsGrid(g, rows, cols)
  {
    |w| >= 1 && w[0] == p && w[|w| - 1].0 + 1 == rows &&
    forall k :: 0 <= k < |w| - 1 ==> BeamStep(g, rows, cols, w[k], w[k + 1])
  }

  /** `p` put in front of every timeline. */
  function Prefixed(p: Pos, ws: seq<seq<Pos>>): (r: seq<seq<Pos>>)
    ensures |r| == |ws| && forall k :: 0 <= k < |ws| ==> r[k] == [p] + ws[k]
  {
    seq(|ws|, k requires 0 <= k < |ws| => [p] + ws[k])
  }

  /** The timelines from `p`, listed in the order the search explores
      them. */
  function Timelines(g: seq<seq<byte>>, rows: nat, cols: nat, p: Pos): seq<seq<Pos>>
    requires IsGrid(g, rows, cols) && InBounds(rows, cols, p)
    decreases rows - p.0, 0
  {
    var row := p.0 + 1;
    if row == rows then [[p]]
    else
      var current := g[row][p.1];
      if current == EMPTY then Prefixed(p, Timelines(g, rows, cols, (row, p.1)))
      else if current == SPLIT then Prefixed(p, SideTimelines(g, rows, cols, (row, p.1)))
      else []
  }

  /** The timelines from the `.` cells left and right of the splitter `s`. */
  function SideTimelines(g: seq<seq<byte>>, rows: nat, cols: nat, s: Pos): seq<seq<Pos>>
    requires IsGrid(g, rows, cols) && InBounds(rows, cols, s)
    decreases rows - s.0, 1
  {
    (if s.1 > 0 && g[s.0][s.1 - 1] == EMPTY then Timelines(g, rows, cols, (s.0, s.1 - 1)) else [])
    + (if s.1 + 1 < cols && g[s.0][s.1 + 1] == EMPTY then Timelines(g, rows, cols, (s.0, s.1 + 1)) else [])
  }

  /** The search counts the listed timelines. */
  lemma {:induction false} TimelinesCount(g: seq<seq<byte>>, rows: nat, cols: nat, p: Pos)
    requires IsGrid(g, rows, cols) && InBounds(rows, cols, p)
    ensures ExploreGrid(g, rows, cols, p) == |Timelines(g, rows, cols, p)|
    decreases rows - p.0, 0
  {
    var row := p.0 + 1;
    if row < rows {
      var current := g[row][p.1];
      if current == EMPTY {
        TimelinesCount(g, rows, cols, (row, p.1));
      } else if current == SPLIT {
        SideTimelinesCount(g, rows, cols, (row, p.1));
      }
    }
  }

  lemma {:induction false} SideTimelinesCount(g: seq<seq<byte>>, rows: nat, cols: nat, s: Pos)
    requires IsGrid(g, rows, cols) && InBounds(rows, cols, s)
    ensures ExploreSplitter(g, rows, cols, s) == |SideTimelines(g, rows, cols, s)|
    decreases rows - s.0, 1
  {
    if s.1 > 0 {
      TimelinesCount(g, rows, cols, (s.0, s.1 - 1));
    }
    if s.1 + 1 < cols {
      TimelinesCount(g, rows, cols, (s.0, s.1 + 1));
    }
  }

  /** Every listed timeline is a timeline from `p`. */
  lemma {:induction false} TimelinesSound(g: seq<seq<byte>>, rows: nat, cols: nat, p: Pos, k: nat)
    requires IsGrid(g, rows, cols) && InBounds(rows, cols, p)
    requires k < |Timelines(g, rows, cols, p)|
    ensures IsTimeline(g, rows, cols, p, Timelines(g, rows, cols, p)[k])
    decreases rows - p.0, 0
  {
    var row := p.0 + 1;
    if row < rows {
      var current := g[row][p.1];
      var ws := Timelines(g, rows, cols, p);
      if current == EMPTY {
        var q := (row, p.1);
        var v := Timelines(g, rows, cols, q)[k];
        TimelinesSound(g, rows, cols, q, k);
        assert ws[k] == [p] + v;
        assert BeamStep(g, rows, cols, p, q);
      } else {
        var s := (row, p.1);
        var v := SideTimelines(g, rows, cols, s)[k];
        SideTimelinesSound(g, rows, cols, s, k);
        assert ws[k] == [p] + v;
        assert BeamStep(g, rows, cols, p, v[0]);
      }
    }
  }

  /** Every listed side timeline starts on a `.` beside the splitter. */
  lemma {:induction false} SideTimelinesSound(g: seq<seq<byte>>, rows: nat, cols: nat, s: Pos, k: nat)
    requires IsGrid(g, rows, cols) && InBounds(rows, cols, s)
    requires k < |SideTimelines(g, rows, cols, s)|
    ensures var w := SideTimelines(g, rows, cols, s)[k];
            |w| >= 1 && w[0].0 == s.0 && (w[0].1 + 1 == s.1 || w[0].1 == s.1 + 1) &&
            w[0].1 < cols && g[s.0][w[0].1] == EMPTY && IsTimeline(g, rows, cols, w[0], w)
    decreases rows - s.0, 1
  {
    var left := if s.1 > 0 && g[s.0][s.1 - 1] == EMPTY then Timelines(g, rows, cols, (s.0, s.1 - 1)) else [];
    if k < |left| {
      TimelinesSound(g, rows, cols, (s.0, s.1 - 1), k);
    } else {
      TimelinesSound(g, rows, cols, (s.0, s.1 + 1), k - |left|);
    }
  }

  /** A timeline has one cell per row from `p` down. */
  lemma TimelineRows(g: seq<seq<byte>>, rows: nat, cols: nat, p: Pos, w: seq<Pos>)
    requires IsGrid(g, rows, cols) && IsTimeline(g, rows, cols, p, w)
    ensures |w| == rows - p.0
  {
    var k := 0;
    while k < |w| - 1
      invariant 0 <= k < |w| && w[k].0 == p.0 + k
    {
      assert BeamStep(g, rows, cols, w[k], w[k + 1]);
      k := k + 1;
    }
  }

  /** A timeline after its first cell is a timeline from its second. */
  lemma TimelineTail(g: seq<seq<byte>>, rows: nat, cols: nat, p: Pos, w: seq<Pos>)
    requires IsGrid(g, rows, cols) && IsTimeline(g, rows, cols, p, w) && |w| > 1
    ensures BeamStep(g, rows, cols, p, w[1]) && IsTimeline(g, rows, cols, w[1], w[1..])
  {
    var v := w[1..];
    forall k | 0 <= k < |v| - 1
      ensures BeamStep(g, rows, cols, v[k], v[k + 1])
    {
      assert v[k] == w[k + 1] && v[k + 1] == w[k + 2];
    }
  }

  /** A timeline listed from the splitter's side cell `q` is listed among
      the side timelines of the splitter. */
  lemma SideListed(g: seq<seq<byte>>, rows: nat, cols: nat, s: Pos, q: Pos, v: seq<Pos>)
    requires IsGrid(g, rows, cols) && InBounds(rows, cols, s) && InBounds(rows, cols, q)
    requires q.0 == s.0 && (q.1 + 1 == s.1 || q.1 == s.1 + 1) && g[q.0][q.1] == EMPTY
    requires v in Timelines(g, rows, cols, q)
    ensures v in SideTimelines(g, rows, cols, s)
  {
  }

  /** Every timeline from `p` is listed. */
  lemma {:induction false} TimelinesComplete(g: seq<seq<byte>>, rows: nat, cols: nat, p: Pos, w: seq<Pos>)
    requires IsGrid(g, rows, cols) && InBounds(rows, cols, p)
    requires IsTimeline(g, rows, cols, p, w)
    ensures w in Timelines(g, rows, cols, p)
    decreases rows - p.0
  {
    TimelineRows(g, rows, cols, p, w);
    var row := p.0 + 1;
    if row == rows {
      assert w == [p];
    } else {
      var q, v := w[1], w[1..];
      TimelineTail(g, rows, cols, p, w);
      TimelinesComplete(g, rows, cols, q, v);
      assert w == [p] + v;
      var vs := if q.1 == p.1 then Timelines(g, rows, cols, q) else SideTimelines(g, rows, cols, (row, p.1));
      if q.1 != p.1 {
        SideListed(g, rows, cols, (row, p.1), q, v);
      }
      assert v in vs;
      var i :| 0 <= i < |vs| && vs[i] == v;
      assert Prefixed(p, vs)[i] == w;
    }
  }

  /** No timeline is listed twice. */
  lemma {:induction false} TimelinesDistinct(g: seq<seq<byte>>, rows: nat, cols: nat, p: Pos)
    requires IsGrid(g, rows, cols) && InBounds(rows, cols, p)
    ensures NoDuplicates(Timelines(g, rows, cols, p))
    decreases rows - p.0, 0
  {
    var row := p.0 + 1;
    if row < rows {
      var current := g[row][p.1];
      if current == EMPTY {
        TimelinesDistinct(g, rows, cols, (row, p.1));
        PrefixedDistinct(p, Timelines(g, rows, cols, (row, p.1)));
      } else if current == SPLIT {
        SideTimelinesDistinct(g, rows, cols, (row, p.1));
        PrefixedDistinct(p, SideTimelines(g, rows, cols, (row, p.1)));
      }
    }
  }

  lemma {:induction false} SideTimelinesDistinct(g: seq<seq<byte>>, rows: nat, cols: nat, s: Pos)
    requires IsGrid(g, rows, cols) && InBounds(rows, cols, s)
    ensures NoDuplicates(SideTimelines(g, rows, cols, s))
    decreases rows - s.0, 1
  {
    var left := if s.1 > 0 && g[s.0][s.1 - 1] == EMPTY then Timelines(g, rows, cols, (s.0, s.1 - 1)) else [];
    var right := if s.1 + 1 < cols && g[s.0][s.1 + 1] == EMPTY then Timelines(g, rows, cols, (s.0, s.1 + 1)) else [];
    if s.1 > 0 {
      TimelinesDistinct(g, rows, cols, (s.0, s.1 - 1));
    }
    if s.1 + 1 < cols {
      TimelinesDistinct(g, rows, cols, (s.0, s.1 + 1));
    }
    var all := left + right;
    forall i, j | 0 <= i < j < |all|
      ensures all[i] != all[j]
    {
      if j >= |left| && i < |left| {
        TimelinesSound(g, rows, cols, (s.0, s.1 - 1), i);
        TimelinesSound(g, rows, cols, (s.0, s.1 + 1), j - |left|);
        assert all[i][0] != all[j][0];
      } else if i >= |left| {
        assert all[i] == right[i - |left|] && all[j] == right[j - |left|];
      }
    }
  }

  lemma PrefixedDistinct(p: Pos, ws: seq<seq<Pos>>)
    requires NoDuplicates(ws)
    ensures NoDuplicates(Prefixed(p, ws))
  {
    var r := Prefixed(p, ws);
    forall i, j | 0 <= i < j < |r|
      ensures r[i] != r[j]
    {
      assert r[i][1..] == ws[i] && r[j][1..] == ws[j];
    }
  }

  /** The search from `p` counts exactly the distinct timelines from `p`:
      they are listed without repeats, and a sequence of cells is listed iff
      it is a timeline. */
  lemma ExploreGridCountsTimelines(g: seq<seq<byte>>, rows: nat, cols: nat, p: Pos)
    requires IsGrid(g, rows, cols) && InBounds(rows, cols, p)
    ensures ExploreGrid(g, rows, cols, p) == |Timelines(g, rows, cols, p)|
    ensures NoDuplicates(Timelines(g, rows, cols, p))
    ensures forall w :: w in Timelines(g, rows, cols, p) <==> IsTimeline(g, rows, cols, p, w)
  {
    TimelinesCount(g, rows, cols, p);
    TimelinesDistinct(g, rows, cols, p);
    forall w
      ensures w in Timelines(g, rows, cols, p) <==> IsTimeline(g, rows, cols, p, w)
    {
      if w in Timelines(g, rows, cols, p) {
        var k :| 0 <= k < |Timelines(g, rows, cols, p)| && Timelines(g, rows, cols, p)[k] == w;
        TimelinesSound(g, rows, cols, p, k);
      }
      if IsTimeline(g, rows, cols, p, w) {
        TimelinesComplete(g, rows, cols, p, w);
      }
    }
  }
}
