/** Day 9: a list of red tiles `x,y` on a floor.  Part A finds the largest
    rectangle with two red tiles as opposite corners.  Part B joins the red
    tiles in order into a closed outline of `#`, marks the cells a left to
    right sweep finds inside it with `O`, and finds the largest such
    rectangle that contains no cell left as `.`. */
module Day9 {
  import opened Wrappers
  import opened Text
  import opened Grid
  import opened RustInt

  const COMMA: byte := 44  // ','
  const HASH: byte := 35   // '#'
  const EMPTY: byte := 46  // '.'
  const INSIDE: byte := 79 // 'O'

  const UNWRAP_ERR := "called `Option::unwrap()` on a `None` value"
  const PARSE_ERR := "called `Result::unwrap()` on an `Err` value: ParseIntError"

  type Point = (int, int)
  type Pair = (Point, Point)

  function Abs(x: int): nat { if x < 0 then -x else x }
  function Min(a: int, b: int): int { if a <= b then a else b }
  function Max(a: int, b: int): int { if a >= b then a else b }

  /** The number of tiles of the rectangle with corners `p.0` and `p.1`,
      both corners included. */
  function Area(p: Pair): (a: int)
    ensures a >= 1
  {
    (Abs(p.0.0 - p.1.0) + 1) * (Abs(p.0.1 - p.1.1) + 1)
  }

  /** The corners can be given in either order. */
  lemma AreaSymmetric(p: Point, q: Point)
    ensures Area((p, q)) == Area((q, p))
  {
  }

  // ------------------------------------------------------------- parsing

  /** One line `x,y`: `parts.next().unwrap().parse().unwrap()` twice over
      the comma-separated fields, into a signed type holding `lo..=hi`
      (`i128` in part A, `i64` in part B).  The first field always exists,
      so a bad first number panics before a missing second field does;
      fields after the second are ignored. */
  function ParsePoint(line: Bytes, lo: int, hi: int): (r: Result<Point>)
    ensures COMMA !in line ==> r.Panic?
    ensures r.Ok? <==> |Split(line, COMMA)| >= 2 &&
                       ParseSignedWithin(Split(line, COMMA)[0], lo, hi).Some? &&
                       ParseSignedWithin(Split(line, COMMA)[1], lo, hi).Some?
    ensures r.Ok? ==> lo <= r.value.0 <= hi && lo <= r.value.1 <= hi &&
                      r.value == (ParseSigned(Split(line, COMMA)[0]).value, ParseSigned(Split(line, COMMA)[1]).value)
  {
    var fields := Split(line, COMMA);
    match ParseSignedWithin(fields[0], lo, hi)
    case None => Panic(PARSE_ERR)
    case Some(x) =>
      if |fields| < 2 then Panic(UNWRAP_ERR)
      else
        match ParseSignedWithin(fields[1], lo, hi)
        case None => Panic(PARSE_ERR)
        case Some(y) => Ok((x, y))
  }

  /** A point printed as `x,y` parses back when it fits the type. */
  lemma ParsePointOfText(x: nat, y: nat, lo: int, hi: int)
    requires lo <= 0 && x <= hi && y <= hi
    ensures ParsePoint(Decimal(x) + [COMMA] + Decimal(y), lo, hi) == Ok((x, y))
  {
    var dx, dy := Decimal(x), Decimal(y);
    assert COMMA !in dx && COMMA !in dy by {
      assert forall k :: 0 <= k < |dx| ==> IsDigit(dx[k]);
      assert forall k :: 0 <= k < |dy| ==> IsDigit(dy[k]);
    }
    SplitCons(dx, COMMA, dy);
    SplitNoSep(dy, COMMA);
    DecimalParses(x);
    DecimalParses(y);
  }

  /** The lines of the input, as points; panics iff some line does. */
  function ParsePoints(lines: seq<Bytes>, lo: int, hi: int): (r: Result<seq<Point>>)
  {
    MapAll(l => ParsePoint(l, lo, hi), lines)
  }

  // --------------------------------------------------------------- pairs

  /** `create_n_choice_sets_unordered(points, 2)`, read as selections with
      repetition: `(ps[i], ps[j])` for every `i <= j`, by `i`, then `j`. */
  function UnorderedPairs(ps: seq<Point>): (r: seq<Pair>)
    ensures r == [] <==> ps == []
  {
    if ps == [] then []
    else seq(|ps|, k requires 0 <= k < |ps| => (ps[0], ps[k])) + UnorderedPairs(ps[1..])
  }

  /** The pairs are exactly the selections of two points, the first not
      after the second. */
  lemma {:induction false} UnorderedPairsMember(ps: seq<Point>, x: Pair)
    ensures x in UnorderedPairs(ps) <==> exists i, j :: 0 <= i <= j < |ps| && x == (ps[i], ps[j])
  {
    if ps != [] {
      var head := seq(|ps|, k requires 0 <= k < |ps| => (ps[0], ps[k]));
      var tail := ps[1..];
      assert UnorderedPairs(ps) == head + UnorderedPairs(tail);
      UnorderedPairsMember(tail, x);
      if x in UnorderedPairs(ps) {
        if x in head {
          var k :| 0 <= k < |head| && head[k] == x;
          assert x == (ps[0], ps[k]);
        } else {
          var i, j :| 0 <= i <= j < |tail| && x == (tail[i], tail[j]);
          assert x == (ps[i + 1], ps[j + 1]);
        }
      }
      if exists i, j :: 0 <= i <= j < |ps| && x == (ps[i], ps[j]) {
        var i, j :| 0 <= i <= j < |ps| && x == (ps[i], ps[j]);
        if i == 0 {
          assert head[j] == x;
        } else {
          assert x == (tail[i - 1], tail[j - 1]);
        }
      }
    }
  }

  // -------------------------------------------------------------- part A

  /** `v` is the area of some pair of `combos`, and no pair is larger. */
  predicate IsLargestArea(combos: seq<Pair>, v: int)
  {
    (exists k :: 0 <= k < |combos| && Area(combos[k]) == v) &&
    forall k :: 0 <= k < |combos| ==> Area(combos[k]) <= v
  }

  /** The largest area of the pairs, 0 for none: the reference for the
      running maximum of `part_a`. */
  function MaxArea(combos: seq<Pair>): int
  {
    if combos == [] then 0 else Max(MaxArea(combos[..|combos| - 1]), Area(combos[|combos| - 1]))
  }

  lemma {:induction false} MaxAreaIsLargest(combos: seq<Pair>)
    requires combos != []
    ensures IsLargestArea(combos, MaxArea(combos))
  {
    var init, last := combos[..|combos| - 1], combos[|combos| - 1];
    assert MaxArea(combos) == Max(MaxArea(init), Area(last));
    if init == [] {
      assert MaxArea(combos) == Area(combos[0]);
    } else {
      MaxAreaIsLargest(init);
      var k :| 0 <= k < |init| && Area(init[k]) == MaxArea(init);
      assert combos[k] == init[k];
      assert forall j :: 0 <= j < |init| ==> combos[j] == init[j];
      if MaxArea(init) < Area(last) {
        assert Area(combos[|combos| - 1]) == MaxArea(combos);
      } else {
        assert Area(combos[k]) == MaxArea(combos);
      }
    }
  }

  /** `part_a`: the largest area over all pairs; the final `unwrap` panics
      when no pair exists, that is, when there are no points. */
  method PartA(lines: seq<Bytes>) returns (r: Result<int>)
    ensures r.Panic? <==> ParsePoints(lines, I128_MIN, I128_MAX).Panic? || ParsePoints(lines, I128_MIN, I128_MAX).value == []
    ensures r.Ok? ==> IsLargestArea(UnorderedPairs(ParsePoints(lines, I128_MIN, I128_MAX).value), r.value)
  {
    var parsed := ParsePoints(lines, I128_MIN, I128_MAX);
    if parsed.Panic? {
      return Panic(parsed.why);
    }
    var combos := UnorderedPairs(parsed.value);
    var maxSize := 0;
    var maxPair: Option<Pair> := None;
    for k := 0 to |combos|
      invariant maxPair.None? <==> k == 0
      invariant maxSize == MaxArea(combos[..k])
      invariant maxPair.Some? ==> Area(maxPair.value) == maxSize
    {
      var pair := combos[k];
      assert combos[..k + 1][..k] == combos[..k];
      var area := Area(pair);
      if area > maxSize {
        maxSize := area;
        maxPair := Some(pair);
      }
    }
    if maxPair.None? {
      return Panic(UNWRAP_ERR);
    }
    assert combos[..|combos|] == combos;
    MaxAreaIsLargest(combos);
    r := Ok(Area(maxPair.value));
  }

  /** Part A's answer bounds the rectangle of every two points (either
      order) and is the rectangle of some two points. */
  lemma LargestOverPoints(ps: seq<Point>, v: int)
    requires IsLargestArea(UnorderedPairs(ps), v)
    ensures forall i, j :: 0 <= i < |ps| && 0 <= j < |ps| ==> Area((ps[i], ps[j])) <= v
    ensures exists i, j :: 0 <= i <= j < |ps| && Area((ps[i], ps[j])) == v
  {
    var combos := UnorderedPairs(ps);
    forall i, j | 0 <= i < |ps| && 0 <= j < |ps|
      ensures Area((ps[i], ps[j])) <= v
    {
      if i <= j {
        PairBounded(ps, v, i, j);
      } else {
        PairBounded(ps, v, j, i);
        AreaSymmetric(ps[i], ps[j]);
      }
    }
    var k :| 0 <= k < |combos| && Area(combos[k]) == v;
    UnorderedPairsMember(ps, combos[k]);
  }

  lemma PairBounded(ps: seq<Point>, v: int, i: nat, j: nat)
    requires IsLargestArea(UnorderedPairs(ps), v) && i <= j < |ps|
    ensures Area((ps[i], ps[j])) <= v
  {
    var combos := UnorderedPairs(ps);
    UnorderedPairsMember(ps, (ps[i], ps[j]));
    var k :| 0 <= k < |combos| && combos[k] == (ps[i], ps[j]);
  }

  // ------------------------------------------------------ part B: tiles

  /** `part_b` keeps each point `(x, y)` as the tile `(y, x)`: row first. */
  function Tiles(ps: seq<Point>): (ts: seq<Point>)
    ensures |ts| == |ps|
  {
    seq(|ps|, k requires 0 <= k < |ps| => (ps[k].1, ps[k].0))
  }

  /** No tile has a negative coordinate (a negative one, cast to `usize`,
      lands outside the grid and its `set(..).unwrap()` panics). */
  predicate OnFloor(ts: seq<Point>)
  {
    forall k :: 0 <= k < |ts| ==> ts[k].0 >= 0 && ts[k].1 >= 0
  }

  predicate TilesWithin(ts: seq<Point>, rows: nat, cols: nat)
  {
    forall k :: 0 <= k < |ts| ==> 0 <= ts[k].0 < rows && 0 <= ts[k].1 < cols
  }

  /** `max_y`: the largest row, starting from 0. */
  function MaxRow(ts: seq<Point>): (m: int)
    ensures m >= 0 && forall k :: 0 <= k < |ts| ==> ts[k].0 <= m
    ensures m == 0 || exists k :: 0 <= k < |ts| && ts[k].0 == m
  {
    if ts == [] then 0
    else
      var init := ts[..|ts| - 1];
      assert forall k :: 0 <= k < |init| ==> init[k] == ts[k];
      Max(MaxRow(init), ts[|ts| - 1].0)
  }

  /** `max_x`: the largest column, starting from 0. */
  function MaxCol(ts: seq<Point>): (m: int)
    ensures m >= 0 && forall k :: 0 <= k < |ts| ==> ts[k].1 <= m
    ensures m == 0 || exists k :: 0 <= k < |ts| && ts[k].1 == m
  {
    if ts == [] then 0
    else
      var init := ts[..|ts| - 1];
      assert forall k :: 0 <= k < |init| ==> init[k] == ts[k];
      Max(MaxCol(init), ts[|ts| - 1].1)
  }

  /** Every tile lies in the `(max_y + 2) x (max_x + 2)` grid. */
  lemma TilesFit(ts: seq<Point>)
    requires OnFloor(ts)
    ensures TilesWithin(ts, MaxRow(ts) + 2, MaxCol(ts) + 2)
  {
  }

  // ---------------------------------------------------- part B: outline

  /** Cell `x` is drawn by the edge from tile `p` to tile `q`: the two
      tiles, and the run between them in `p`'s row when the rows agree,
      otherwise the run in `p`'s column between the two rows. */
  predicate OnSegment(p: Point, q: Point, x: Point)
  {
    x == p || x == q ||
    if p.0 == q.0 then x.0 == p.0 && Min(p.1, q.1) <= x.1 <= Max(p.1, q.1)
    else x.1 == p.1 && Min(p.0, q.0) <= x.0 <= Max(p.0, q.0)
  }

  /** Cell `x` is drawn by the edge from tile `i` to its cyclic successor. */
  predicate OnEdge(ts: seq<Point>, i: nat, x: Point)
    requires i < |ts|
  {
    OnSegment(ts[i], ts[(i + 1) % |ts|], x)
  }

  /** `(row, c)` set to `#` for `c` from `lo` up to `hi`. */
  function MarkRow(g: seq<seq<byte>>, rows: nat, cols: nat, row: nat, lo: int, hi: int): (h: seq<seq<byte>>)
    requires IsGrid(g, rows, cols) && row < rows && 0 <= lo && hi < cols
    ensures IsGrid(h, rows, cols)
    decreases hi - lo + 1
  {
    if lo > hi then g else MarkRow(Update(g, row, lo, HASH), rows, cols, row, lo + 1, hi)
  }

  /** `(r, col)` set to `#` for `r` from `lo` up to `hi`. */
  function MarkCol(g: seq<seq<byte>>, rows: nat, cols: nat, col: nat, lo: int, hi: int): (h: seq<seq<byte>>)
    requires IsGrid(g, rows, cols) && col < cols && 0 <= lo && hi < rows
    ensures IsGrid(h, rows, cols)
    decreases hi - lo + 1
  {
    if lo > hi then g else MarkCol(Update(g, lo, col, HASH), rows, cols, col, lo + 1, hi)
  }

  lemma {:induction false} MarkRowCell(g: seq<seq<byte>>, rows: nat, cols: nat, row: nat, lo: int, hi: int, r: nat, c: nat)
    requires IsGrid(g, rows, cols) && row < rows && 0 <= lo && hi < cols && r < rows && c < cols
    ensures MarkRow(g, rows, cols, row, lo, hi)[r][c] == if r == row && lo <= c <= hi then HASH else g[r][c]
    decreases hi - lo + 1
  {
    if lo <= hi {
      MarkRowCell(Update(g, row, lo, HASH), rows, cols, row, lo + 1, hi, r, c);
    }
  }

  lemma {:induction false} MarkColCell(g: seq<seq<byte>>, rows: nat, cols: nat, col: nat, lo: int, hi: int, r: nat, c: nat)
    requires IsGrid(g, rows, cols) && col < cols && 0 <= lo && hi < rows && r < rows && c < cols
    ensures MarkCol(g, rows, cols, col, lo, hi)[r][c] == if c == col && lo <= r <= hi then HASH else g[r][c]
    decreases hi - lo + 1
  {
    if lo <= hi {
      MarkColCell(Update(g, lo, col, HASH), rows, cols, col, lo + 1, hi, r, c);
    }
  }

  /** One iteration of the edge loop: `p` set, then the run, then `q`. */
  function DrawEdge(g: seq<seq<byte>>, rows: nat, cols: nat, p: Point, q: Point): (h: seq<seq<byte>>)
    requires IsGrid(g, rows, cols)
    requires 0 <= p.0 < rows && 0 <= p.1 < cols && 0 <= q.0 < rows && 0 <= q.1 < cols
    ensures IsGrid(h, rows, cols)
  {
    var g1 := Update(g, p.0, p.1, HASH);
    var g2 := if p.0 == q.0 then MarkRow(g1, rows, cols, p.0, Min(p.1, q.1), Max(p.1, q.1))
              else MarkCol(g1, rows, cols, p.1, Min(p.0, q.0), Max(p.0, q.0));
    Update(g2, q.0, q.1, HASH)
  }

  /** An edge sets exactly its own cells to `#`. */
  lemma DrawEdgeCell(g: seq<seq<byte>>, rows: nat, cols: nat, p: Point, q: Point, r: nat, c: nat)
    requires IsGrid(g, rows, cols)
    requires 0 <= p.0 < rows && 0 <= p.1 < cols && 0 <= q.0 < rows && 0 <= q.1 < cols
    requires r < rows && c < cols
    ensures DrawEdge(g, rows, cols, p, q)[r][c] == if OnSegment(p, q, (r, c)) then HASH else g[r][c]
  {
    var g1 := Update(g, p.0, p.1, HASH);
    if p.0 == q.0 {
      MarkRowCell(g1, rows, cols, p.0, Min(p.1, q.1), Max(p.1, q.1), r, c);
    } else {
      MarkColCell(g1, rows, cols, p.1, Min(p.0, q.0), Max(p.0, q.0), r, c);
    }
  }

  /** The first `k` iterations of the edge loop. */
  function DrawOutline(g: seq<seq<byte>>, rows: nat, cols: nat, ts: seq<Point>, k: nat): (h: seq<seq<byte>>)
    requires IsGrid(g, rows, cols) && TilesWithin(ts, rows, cols) && k <= |ts|
    ensures IsGrid(h, rows, cols)
  {
    if k == 0 then g
    else DrawEdge(DrawOutline(g, rows, cols, ts, k - 1), rows, cols, ts[k - 1], ts[k % |ts|])
  }

  /** Cell `x` is drawn by one of the first `k` edges. */
  predicate OnOutline(ts: seq<Point>, k: nat, x: Point)
    requires k <= |ts|
  {
    k > 0 && (OnOutline(ts, k - 1, x) || OnEdge(ts, k - 1, x))
  }

  lemma {:induction false} OnOutlineSome(ts: seq<Point>, k: nat, x: Point)
    requires k <= |ts|
    ensures OnOutline(ts, k, x) <==> exists i :: 0 <= i < k && OnEdge(ts, i, x)
  {
    if k > 0 {
      OnOutlineSome(ts, k - 1, x);
    }
  }

  /** After `k` edges, a cell is `#` iff one of them draws it; all other
      cells keep their value. */
  lemma {:induction false} DrawOutlineCell(g: seq<seq<byte>>, rows: nat, cols: nat, ts: seq<Point>, k: nat, r: nat, c: nat)
    requires IsGrid(g, rows, cols) && TilesWithin(ts, rows, cols) && k <= |ts| && r < rows && c < cols
    ensures DrawOutline(g, rows, cols, ts, k)[r][c] == if OnOutline(ts, k, (r, c)) then HASH else g[r][c]
  {
    if k > 0 {
      var h := DrawOutline(g, rows, cols, ts, k - 1);
      DrawOutlineCell(g, rows, cols, ts, k - 1, r, c);
      DrawEdgeCell(h, rows, cols, ts[k - 1], ts[k % |ts|], r, c);
    }
  }

  /** `for x in lo..=hi { array.set(row, x, b'#') }`. */
  method SetRowRun(a: array2<byte>, row: nat, lo: int, hi: int)
    requires row < a.Length0 && 0 <= lo <= hi < a.Length1
    modifies a
    ensures Snapshot(a) == MarkRow(old(Snapshot(a)), a.Length0, a.Length1, row, lo, hi)
  {
    ghost var g := Snapshot(a);
    for x := lo to hi + 1
      invariant MarkRow(Snapshot(a), a.Length0, a.Length1, row, x, hi) == MarkRow(g, a.Length0, a.Length1, row, lo, hi)
    {
      SetCell(a, row, x, HASH);
    }
  }

  /** `for y in lo..=hi { array.set(y, col, b'#') }`. */
  method SetColRun(a: array2<byte>, col: nat, lo: int, hi: int)
    requires col < a.Length1 && 0 <= lo <= hi < a.Length0
    modifies a
    ensures Snapshot(a) == MarkCol(old(Snapshot(a)), a.Length0, a.Length1, col, lo, hi)
  {
    ghost var g := Snapshot(a);
    for y := lo to hi + 1
      invariant MarkCol(Snapshot(a), a.Length0, a.Length1, col, y, hi) == MarkCol(g, a.Length0, a.Length1, col, lo, hi)
    {
      SetCell(a, y, col, HASH);
    }
  }

  /** The body of the edge loop for the tile `p` and its successor `q`. */
  method JoinTiles(a: array2<byte>, p: Point, q: Point)
    requires 0 <= p.0 < a.Length0 && 0 <= p.1 < a.Length1 && 0 <= q.0 < a.Length0 && 0 <= q.1 < a.Length1
    modifies a
    ensures Snapshot(a) == DrawEdge(old(Snapshot(a)), a.Length0, a.Length1, p, q)
  {
    SetCell(a, p.0, p.1, HASH);
    if p.0 == q.0 {
      SetRowRun(a, p.0, Min(p.1, q.1), Max(p.1, q.1));
    } else {
      SetColRun(a, p.1, Min(p.0, q.0), Max(p.0, q.0));
    }
    SetCell(a, q.0, q.1, HASH);
  }

  /** The edge loop: every tile joined to the next, the last to the first. */
  method DrawEdges(a: array2<byte>, ts: seq<Point>)
    requires TilesWithin(ts, a.Length0, a.Length1)
    modifies a
    ensures Snapshot(a) == DrawOutline(old(Snapshot(a)), a.Length0, a.Length1, ts, |ts|)
  {
    ghost var g := Snapshot(a);
    for k := 0 to |ts|
      invariant Snapshot(a) == DrawOutline(g, a.Length0, a.Length1, ts, k)
    {
      JoinTiles(a, ts[k], ts[(k + 1) % |ts|]);
    }
  }

  // ------------------------------------------------------- part B: fill

  /** The sweep along one row: its cells so far and the `in_poly` flag. */
  datatype Sweep = Sweep(cells: seq<byte>, inPoly: bool)

  /** The visit of column `col`.  The neighbours are read from the row as
      the sweep has left it, `.` past either end.  A `#` after a `.` or a
      `#` enters the polygon; a `#` after anything else, with a `.` after
      it, leaves it; a `.` inside becomes `O`. */
  function FillStep(s: Sweep, col: nat): (t: Sweep)
    requires col < |s.cells|
    ensures |t.cells| == |s.cells|
  {
    var previous := if col > 0 then s.cells[col - 1] else EMPTY;
    var next := if col + 1 < |s.cells| then s.cells[col + 1] else EMPTY;
    var current := s.cells[col];
    if current == HASH then
      var inPoly := if previous == EMPTY then true
                    else if previous == HASH then true
                    else if next == EMPTY && s.inPoly then false
                    else s.inPoly;
      Sweep(s.cells, inPoly)
    else if s.inPoly && current == EMPTY then Sweep(s.cells[col := INSIDE], s.inPoly)
    else s
  }

  /** The sweep over the first `n` columns of a row, from `in_poly = false`. */
  function SweepRow(cells: seq<byte>, n: nat): (s: Sweep)
    requires n <= |cells|
    ensures |s.cells| == |cells|
  {
    if n == 0 then Sweep(cells, false) else FillStep(SweepRow(cells, n - 1), n - 1)
  }

  function FillRow(cells: seq<byte>): (r: seq<byte>)
    ensures |r| == |cells|
  {
    SweepRow(cells, |cells|).cells
  }

  /** The grid after the fill loop has finished its first `n` rows. */
  function FillRows(g: seq<seq<byte>>, n: nat): (h: seq<seq<byte>>)
    ensures |h| == |g| && forall r :: 0 <= r < |g| ==> |h[r]| == |g[r]|
  {
    seq(|g|, r requires 0 <= r < |g| => if r < n then FillRow(g[r]) else g[r])
  }

  /** The fill pass: every row swept on its own. */
  function FillGrid(g: seq<seq<byte>>): (h: seq<seq<byte>>)
    ensures |h| == |g| && forall r :: 0 <= r < |g| ==> |h[r]| == |g[r]|
  {
    seq(|g|, r requires 0 <= r < |g| => FillRow(g[r]))
  }

  /** The sweep only turns `.` into `O`. */
  lemma {:induction false} SweepOnlyMarksEmpty(cells: seq<byte>, n: nat, c: nat)
    requires n <= |cells| && c < |cells|
    ensures SweepRow(cells, n).cells[c] == cells[c] ||
            (cells[c] == EMPTY && SweepRow(cells, n).cells[c] == INSIDE)
  {
    if n > 0 {
      SweepOnlyMarksEmpty(cells, n - 1, c);
    }
  }

  /** The fill pass only turns `.` into `O`: in particular a `#` stays. */
  lemma FillOnlyMarksEmpty(g: seq<seq<byte>>, r: nat, c: nat)
    requires r < |g| && c < |g[r]|
    ensures FillGrid(g)[r][c] == g[r][c] || (g[r][c] == EMPTY && FillGrid(g)[r][c] == INSIDE)
    ensures g[r][c] == HASH ==> FillGrid(g)[r][c] == HASH
  {
    SweepOnlyMarksEmpty(g[r], |g[r]|, c);
  }

  /** Before the first `#` of a row the sweep is outside the polygon, so a
      row without `#` is left as it is. */
  lemma {:induction false} SweepOutside(cells: seq<byte>, n: nat)
    requires n <= |cells| && HASH !in cells[..n]
    ensures SweepRow(cells, n) == Sweep(cells, false)
  {
    if n > 0 {
      assert cells[..n - 1] == cells[..n][..n - 1];
      assert cells[n - 1] == cells[..n][n - 1];
      SweepOutside(cells, n - 1);
    }
  }

  lemma FillRowWithoutEdge(cells: seq<byte>)
    requires HASH !in cells
    ensures FillRow(cells) == cells
  {
    assert cells[..|cells|] == cells;
    SweepOutside(cells, |cells|);
  }

  /** The visit of one cell by the fill loop. */
  method FillCell(a: array2<byte>, row: nat, col: nat, inPoly: bool) returns (inPoly': bool)
    requires row < a.Length0 && col < a.Length1
    modifies a
    ensures Snapshot(a) == old(Snapshot(a))[row := FillStep(Sweep(old(Snapshot(a))[row], inPoly), col).cells]
    ensures inPoly' == FillStep(Sweep(old(Snapshot(a))[row], inPoly), col).inPoly
  {
    ghost var g := Snapshot(a);
    ghost var s := Sweep(g[row], inPoly);
    var left := MoveCursor(a.Length0, a.Length1, LEFT, (row, col));
    var previous := if left.Some? then a[left.value.0, left.value.1] else EMPTY;
    var right := MoveCursor(a.Length0, a.Length1, RIGHT, (row, col));
    var next := if right.Some? then a[right.value.0, right.value.1] else EMPTY;
    assert previous == if col > 0 then s.cells[col - 1] else EMPTY;
    assert next == if col + 1 < |s.cells| then s.cells[col + 1] else EMPTY;
    inPoly' := inPoly;
    if a[row, col] == HASH {
      if previous == EMPTY {
        inPoly' := true;
      } else if previous == HASH {
        inPoly' := true;
      } else if next == EMPTY && inPoly {
        inPoly' := false;
      }
      assert g[row := s.cells] == g;
    } else if inPoly && a[row, col] == EMPTY {
      SetCell(a, row, col, INSIDE);
    } else {
      assert g[row := s.cells] == g;
    }
  }

  /** The fill loop over every row and column. */
  method FillInterior(a: array2<byte>)
    modifies a
    ensures Snapshot(a) == FillGrid(old(Snapshot(a)))
  {
    ghost var g := Snapshot(a);
    for row := 0 to a.Length0
      invariant Snapshot(a) == FillRows(g, row)
    {
      ghost var h := FillRows(g, row);
      var inPoly := false;
      assert h[row := SweepRow(g[row], 0).cells] == h;
      for col := 0 to a.Length1
        invariant Snapshot(a) == h[row := SweepRow(g[row], col).cells]
        invariant inPoly == SweepRow(g[row], col).inPoly
      {
        inPoly := FillCell(a, row, col, inPoly);
      }
      assert h[row := FillRow(g[row])] == FillRows(g, row + 1);
    }
    assert FillRows(g, a.Length0) == FillGrid(g);
  }

  // -------------------------------------------------- part B: rectangles

  /** Cell `(r, c)` lies in the closed rectangle with corners `p.0`, `p.1`. */
  predicate InRect(p: Pair, r: int, c: int)
  {
    Min(p.0.0, p.1.0) <= r <= Max(p.0.0, p.1.0) && Min(p.0.1, p.1.1) <= c <= Max(p.0.1, p.1.1)
  }

  /** Every cell of the rectangle lies in the grid and is not `.`. */
  ghost predicate Covered(g: seq<seq<byte>>, p: Pair)
  {
    forall r, c :: InRect(p, r, c) ==> 0 <= r < |g| && 0 <= c < |g[r]| && g[r][c] != EMPTY
  }

  predicate PairWithin(p: Pair, rows: nat, cols: nat)
  {
    0 <= p.0.0 < rows && 0 <= p.0.1 < cols && 0 <= p.1.0 < rows && 0 <= p.1.1 < cols
  }

  /** `get_pair_size_if_valid`: the four sides of the rectangle, then its
      inside, each cell looked up; the pair's area iff none is `.`. */
  method PairSizeIfValid(a: array2<byte>, p: Pair) returns (r: Option<int>)
    requires PairWithin(p, a.Length0, a.Length1)
    ensures r.Some? <==> Covered(Snapshot(a), p)
    ensures r.Some? ==> r.value == Area(p)
  {
    var rowMin, rowMax := Min(p.0.0, p.1.0), Max(p.0.0, p.1.0);
    var colMin, colMax := Min(p.0.1, p.1.1), Max(p.0.1, p.1.1);
    for row := rowMin to rowMax + 1
      invariant forall i :: rowMin <= i < row ==> a[i, colMin] != EMPTY && a[i, colMax] != EMPTY
    {
      if a[row, colMin] == EMPTY {
        assert InRect(p, row, colMin);
        return None;
      }
      if a[row, colMax] == EMPTY {
        assert InRect(p, row, colMax);
        return None;
      }
    }
    for col := colMin to colMax + 1
      invariant forall j :: colMin <= j < col ==> a[rowMin, j] != EMPTY && a[rowMax, j] != EMPTY
    {
      if a[rowMin, col] == EMPTY {
        assert InRect(p, rowMin, col);
        return None;
      }
      if a[rowMax, col] == EMPTY {
        assert InRect(p, rowMax, col);
        return None;
      }
    }
    var row := rowMin + 1;
    while row < rowMax
      invariant rowMin + 1 <= row <= Max(rowMin + 1, rowMax) <= a.Length0
      invariant forall i, j :: rowMin < i < row && colMin < j < colMax ==> a[i, j] != EMPTY
    {
      var col := colMin + 1;
      while col < colMax
        invariant colMin + 1 <= col <= Max(colMin + 1, colMax) <= a.Length1
        invariant forall j :: colMin < j < col ==> a[row, j] != EMPTY
      {
        if a[row, col] == EMPTY {
          assert InRect(p, row, col);
          return None;
        }
        col := col + 1;
      }
      row := row + 1;
    }
    forall i, j | InRect(p, i, j)
      ensures 0 <= i < a.Length0 && 0 <= j < a.Length1 && Snapshot(a)[i][j] != EMPTY
    {
      if i == rowMin || i == rowMax {
      } else if j == colMin || j == colMax {
      } else {
      }
    }
    var dx := Abs(p.0.0 - p.1.0) + 1;
    var dy := Abs(p.0.1 - p.1.1) + 1;
    r := Some(dx * dy);
  }

  // ------------------------------------------------------ part B: search

  /** `(i, area)`: a pair's index in the list of pairs, and its area. */
  type Entry = (nat, int)

  /** `combos.iter().enumerate().map(..)`, collected (the parallel bridge
      produces the same entries; their order is fixed by the sort). */
  function Enumerated(combos: seq<Pair>): (es: seq<Entry>)
    ensures |es| == |combos|
  {
    seq(|combos|, i requires 0 <= i < |combos| => (i, Area(combos[i])))
  }

  predicate ByAreaDescending(es: seq<Entry>)
  {
    forall i, j :: 0 <= i < j < |es| ==> es[i].1 >= es[j].1
  }

  /** `x` placed after every entry whose area is not smaller. */
  function InsertByArea(s: seq<Entry>, x: Entry): (t: seq<Entry>)
    requires ByAreaDescending(s)
    ensures ByAreaDescending(t) && multiset(t) == multiset(s) + multiset{x}
  {
    if s == [] then [x]
    else
      var init, last := s[..|s| - 1], s[|s| - 1];
      assert s == init + [last];
      if last.1 >= x.1 then
        ByAreaSnoc(s, x);
        s + [x]
      else
        var t := InsertByArea(init, x);
        AreasAboveLast(s, x, t);
        ByAreaSnoc(t, last);
        t + [last]
  }

  /** Everything inserted into the prefix of `s`, `x` included, stays on its
      side of the last element of `s`. */
  lemma AreasAboveLast(s: seq<Entry>, x: Entry, t: seq<Entry>)
    requires ByAreaDescending(s) && s != [] && s[|s| - 1].1 < x.1
    requires multiset(t) == multiset(s[..|s| - 1]) + multiset{x}
    ensures forall k :: 0 <= k < |t| ==> t[k].1 >= s[|s| - 1].1
  {
    var init, last := s[..|s| - 1], s[|s| - 1];
    forall k | 0 <= k < |t|
      ensures t[k].1 >= last.1
    {
      assert t[k] in multiset(t);
      if t[k] in multiset(init) {
        var j :| 0 <= j < |init| && init[j] == t[k];
        assert s[j] == init[j];
      }
    }
  }

  lemma ByAreaSnoc(s: seq<Entry>, y: Entry)
    requires ByAreaDescending(s) && forall k :: 0 <= k < |s| ==> s[k].1 >= y.1
    ensures ByAreaDescending(s + [y])
  {
    var t := s + [y];
    forall i, j | 0 <= i < j < |t|
      ensures t[i].1 >= t[j].1
    {
      assert t[i] == s[i];
      if j < |s| {
        assert t[j] == s[j];
      }
    }
  }

  /** `sort_by(|a, b| b.1.cmp(&a.1))`: largest area first, and the same
      entries. */
  function SortByArea(es: seq<Entry>): (s: seq<Entry>)
    ensures ByAreaDescending(s) && multiset(s) == multiset(es)
  {
    if es == [] then []
    else
      assert es == es[..|es| - 1] + [es[|es| - 1]];
      InsertByArea(SortByArea(es[..|es| - 1]), es[|es| - 1])
  }

  /** Every sorted entry names a pair and carries its area. */
  lemma EntryOfSorted(combos: seq<Pair>, sorted: seq<Entry>, u: nat)
    requires multiset(sorted) == multiset(Enumerated(combos)) && u < |sorted|
    ensures sorted[u].0 < |combos| && sorted[u].1 == Area(combos[sorted[u].0])
  {
    var es := Enumerated(combos);
    assert sorted[u] in multiset(es);
    var k :| 0 <= k < |es| && es[k] == sorted[u];
  }

  /** Every pair has its entry among the sorted ones. */
  lemma SortedHasEntry(combos: seq<Pair>, sorted: seq<Entry>, k: nat) returns (u: nat)
    requires multiset(sorted) == multiset(Enumerated(combos)) && k < |combos|
    ensures u < |sorted| && sorted[u] == (k, Area(combos[k]))
  {
    var es := Enumerated(combos);
    assert es[k] in multiset(sorted);
    u :| 0 <= u < |sorted| && sorted[u] == es[k];
  }

  /** `v` is 0 and no pair is covered, or `v` is the area of a covered
      pair and no covered pair is larger. */
  ghost predicate IsBestCovered(g: seq<seq<byte>>, combos: seq<Pair>, v: int)
  {
    (v == 0 && forall k :: 0 <= k < |combos| ==> !Covered(g, combos[k])) ||
    ((exists k :: 0 <= k < |combos| && Covered(g, combos[k]) && Area(combos[k]) == v) &&
     forall k :: 0 <= k < |combos| && Covered(g, combos[k]) ==> Area(combos[k]) <= v)
  }

  /** The entry names a pair that is not covered. */
  ghost predicate Rejected(g: seq<seq<byte>>, combos: seq<Pair>, e: Entry)
  {
    e.0 < |combos| && !Covered(g, combos[e.0])
  }

  lemma RejectedStep(g: seq<seq<byte>>, combos: seq<Pair>, sorted: seq<Entry>, t: nat)
    requires t < |sorted| && sorted[t].0 < |combos| && !Covered(g, combos[sorted[t].0])
    requires forall u :: 0 <= u < t ==> Rejected(g, combos, sorted[u])
    ensures forall u :: 0 <= u < t + 1 ==> Rejected(g, combos, sorted[u])
  {
  }

  /** The first covered pair met in descending order of area is a largest
      covered pair. */
  lemma FirstCoveredIsBest(g: seq<seq<byte>>, combos: seq<Pair>, sorted: seq<Entry>, t: nat)
    requires ByAreaDescending(sorted) && multiset(sorted) == multiset(Enumerated(combos)) && t < |sorted|
    requires forall u :: 0 <= u < t ==> Rejected(g, combos, sorted[u])
    requires sorted[t].0 < |combos| && Covered(g, combos[sorted[t].0])
    ensures IsBestCovered(g, combos, Area(combos[sorted[t].0]))
  {
    EntryOfSorted(combos, sorted, t);
    forall k | 0 <= k < |combos| && Covered(g, combos[k])
      ensures Area(combos[k]) <= Area(combos[sorted[t].0])
    {
      var u := SortedHasEntry(combos, sorted, k);
      if u > t {
        assert sorted[t].1 >= sorted[u].1;
      }
    }
  }

  /** When no entry's pair is covered, the answer 0 is right. */
  lemma NoneCovered(g: seq<seq<byte>>, combos: seq<Pair>, sorted: seq<Entry>)
    requires multiset(sorted) == multiset(Enumerated(combos))
    requires forall u :: 0 <= u < |sorted| ==> Rejected(g, combos, sorted[u])
    ensures IsBestCovered(g, combos, 0)
  {
    forall k | 0 <= k < |combos|
      ensures !Covered(g, combos[k])
    {
      var u := SortedHasEntry(combos, sorted, k);
      assert sorted[u].0 == k;
    }
  }

  // ------------------------------------------------------------ part B

  const SET_ERR := "called `Result::unwrap()` on an `Err` value"

  /** The grid part B searches: `.` everywhere, the outline drawn, the
      inside filled. */
  function PartBGrid(ts: seq<Point>): (g: seq<seq<byte>>)
    requires OnFloor(ts)
    ensures IsGrid(g, MaxRow(ts) + 2, MaxCol(ts) + 2)
  {
    var rows, cols := MaxRow(ts) + 2, MaxCol(ts) + 2;
    FillGrid(DrawOutline(Filled(EMPTY, rows, cols), rows, cols, ts, |ts|))
  }

  /** In that grid the `#` cells are exactly the outline, and every other
      cell is `.` or `O`. */
  lemma PartBGridCell(ts: seq<Point>, r: nat, c: nat)
    requires OnFloor(ts) && r < MaxRow(ts) + 2 && c < MaxCol(ts) + 2
    ensures PartBGrid(ts)[r][c] == HASH <==> OnOutline(ts, |ts|, (r, c))
    ensures !OnOutline(ts, |ts|, (r, c)) ==> PartBGrid(ts)[r][c] == EMPTY || PartBGrid(ts)[r][c] == INSIDE
  {
    OutlineFillCell(MaxRow(ts) + 2, MaxCol(ts) + 2, ts, r, c);
  }

  lemma OutlineFillCell(rows: nat, cols: nat, ts: seq<Point>, r: nat, c: nat)
    requires TilesWithin(ts, rows, cols) && r < rows && c < cols
    ensures var h := FillGrid(DrawOutline(Filled(EMPTY, rows, cols), rows, cols, ts, |ts|));
            (h[r][c] == HASH <==> OnOutline(ts, |ts|, (r, c))) &&
            (!OnOutline(ts, |ts|, (r, c)) ==> h[r][c] == EMPTY || h[r][c] == INSIDE)
  {
    var empty := Filled(EMPTY, rows, cols);
    var drawn := DrawOutline(empty, rows, cols, ts, |ts|);
    DrawOutlineCell(empty, rows, cols, ts, |ts|, r, c);
    FillOnlyMarksEmpty(drawn, r, c);
  }

  lemma PairsWithin(ts: seq<Point>, rows: nat, cols: nat)
    requires TilesWithin(ts, rows, cols)
    ensures forall k :: 0 <= k < |UnorderedPairs(ts)| ==> PairWithin(UnorderedPairs(ts)[k], rows, cols)
  {
    var combos := UnorderedPairs(ts);
    forall k | 0 <= k < |combos|
      ensures PairWithin(combos[k], rows, cols)
    {
      UnorderedPairsMember(ts, combos[k]);
    }
  }

  /** The grid of `part_b` up to the search: allocated full of `.`, the
      edges drawn, the inside filled. */
  method BuildGrid(ts: seq<Point>) returns (a: array2<byte>)
    requires OnFloor(ts)
    ensures fresh(a) && Snapshot(a) == PartBGrid(ts)
  {
    var rows, cols := MaxRow(ts) + 2, MaxCol(ts) + 2;
    a := new byte[rows, cols]((_, _) => EMPTY);
    ghost var empty := Filled(EMPTY, rows, cols);
    GridExt(Snapshot(a), empty, rows, cols);
    TilesFit(ts);
    DrawEdges(a, ts);
    ghost var drawn := Snapshot(a);
    assert drawn == DrawOutline(empty, rows, cols, ts, |ts|);
    FillInterior(a);
    assert Snapshot(a) == FillGrid(drawn);
  }

  /** The loop over the sorted entries: the first covered pair's area, or
      0 when none is covered. */
  method Search(a: array2<byte>, combos: seq<Pair>) returns (best: int)
    requires forall k :: 0 <= k < |combos| ==> PairWithin(combos[k], a.Length0, a.Length1)
    ensures IsBestCovered(Snapshot(a), combos, best)
  {
    ghost var g := Snapshot(a);
    var sorted := SortByArea(Enumerated(combos));
    for t := 0 to |sorted|
      invariant forall u :: 0 <= u < t ==> Rejected(g, combos, sorted[u])
    {
      EntryOfSorted(combos, sorted, t);
      var v := PairSizeIfValid(a, combos[sorted[t].0]);
      assert Snapshot(a) == g;
      if v.Some? {
        FirstCoveredIsBest(g, combos, sorted, t);
        return v.value;
      }
      RejectedStep(g, combos, sorted, t);
    }
    NoneCovered(g, combos, sorted);
    best := 0;
  }

  /** `part_b`: panics on a bad line or a tile off the grid; otherwise the
      largest rectangle of the filled grid with no `.` in it, or 0. */
  method PartB(lines: seq<Bytes>) returns (r: Result<int>)
    ensures r.Panic? <==> ParsePoints(lines, I64_MIN, I64_MAX).Panic? || !OnFloor(Tiles(ParsePoints(lines, I64_MIN, I64_MAX).value))
    ensures r.Ok? ==> var ts := Tiles(ParsePoints(lines, I64_MIN, I64_MAX).value);
                      IsBestCovered(PartBGrid(ts), UnorderedPairs(ts), r.value)
  {
    var parsed := ParsePoints(lines, I64_MIN, I64_MAX);
    if parsed.Panic? {
      return Panic(parsed.why);
    }
    var ts := Tiles(parsed.value);
    if !OnFloor(ts) {
      return Panic(SET_ERR);
    }
    var a := BuildGrid(ts);
    var combos := UnorderedPairs(ts);
    PairsWithin(ts, a.Length0, a.Length1);
    var best := Search(a, combos);
    r := Ok(best);
  }
}
