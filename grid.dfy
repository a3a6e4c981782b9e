/** The `Array2D` container of the `array2d` crate and the position helpers
    the shared library builds on it.

    A grid value is a `seq<seq<T>>` of `rows` rows of `cols` cells, addressed
    `(row, col)`; an algorithm that changes a grid in place works on an
    `array2<T>`, whose `Snapshot` is its grid value.  `Get` and `Set` fail out
    of bounds, as the crate's `get`/`set` do. */
module Grid {
  import opened Wrappers

  type Pos = (nat, nat)

  predicate IsGrid<T>(g: seq<seq<T>>, rows: nat, cols: nat)
  {
    |g| == rows && forall r :: 0 <= r < rows ==> |g[r]| == cols
  }

  predicate InBounds(rows: nat, cols: nat, p: Pos)
  {
    p.0 < rows && p.1 < cols
  }

  /** `Array2D::get`. */
  function Get<T>(g: seq<seq<T>>, rows: nat, cols: nat, r: nat, c: nat): (v: Option<T>)
    requires IsGrid(g, rows, cols)
    ensures v.Some? <==> InBounds(rows, cols, (r, c))
    ensures v.Some? ==> v.value == g[r][c]
  {
    if r < rows && c < cols then Some(g[r][c]) else None
  }

  /** `Array2D::set`: the grid with one cell replaced, or `None` out of
      bounds. */
  function Set<T>(g: seq<seq<T>>, rows: nat, cols: nat, r: nat, c: nat, v: T): (h: Option<seq<seq<T>>>)
    requires IsGrid(g, rows, cols)
    ensures h.Some? <==> InBounds(rows, cols, (r, c))
    ensures h.Some? ==> IsGrid(h.value, rows, cols)
    ensures h.Some? ==> forall i, j :: 0 <= i < rows && 0 <= j < cols ==>
                          h.value[i][j] == if (i, j) == (r, c) then v else g[i][j]
  {
    if r < rows && c < cols then Some(Update(g, r, c, v)) else None
  }

  /** The grid with cell `(r, c)` replaced by `v`. */
  function Update<T>(g: seq<seq<T>>, r: nat, c: nat, v: T): (h: seq<seq<T>>)
    requires r < |g| && c < |g[r]|
    ensures |h| == |g| && forall i :: 0 <= i < |g| ==> |h[i]| == |g[i]|
    ensures forall i, j :: 0 <= i < |g| && 0 <= j < |g[i]| ==> h[i][j] == if (i, j) == (r, c) then v else g[i][j]
  {
    var row: seq<T> := g[r][c := v];
    g[r := row]
  }

  /** `Array2D::set` on a mutable grid, for a position known to be in
      bounds. */
  method SetCell<T>(a: array2<T>, r: nat, c: nat, v: T)
    requires r < a.Length0 && c < a.Length1
    modifies a
    ensures Snapshot(a) == Update(old(Snapshot(a)), r, c, v)
  {
    ghost var g := Snapshot(a);
    a[r, c] := v;
    GridExt(Snapshot(a), Update(g, r, c, v), a.Length0, a.Length1);
  }

  /** The value of a mutable grid. */
  function Snapshot<T>(a: array2<T>): (s: seq<seq<T>>)
    reads a
    ensures IsGrid(s, a.Length0, a.Length1)
    ensures forall r, c :: 0 <= r < a.Length0 && 0 <= c < a.Length1 ==> s[r][c] == a[r, c]
  {
    seq(a.Length0, r requires 0 <= r < a.Length0 reads a =>
      seq(a.Length1, c requires 0 <= c < a.Length1 reads a => a[r, c]))
  }

  /** `Array2D::filled_with`. */
  function Filled<T>(v: T, rows: nat, cols: nat): (g: seq<seq<T>>)
    ensures IsGrid(g, rows, cols)
    ensures forall r, c :: 0 <= r < rows && 0 <= c < cols ==> g[r][c] == v
  {
    seq(rows, _ => seq(cols, _ => v))
  }

  /** The cells in row-major order (`as_row_major`, `enumerate_row_major`). */
  function RowMajor<T>(g: seq<seq<T>>): seq<T>
  {
    if g == [] then [] else g[0] + RowMajor(g[1..])
  }

  lemma {:induction false} RowMajorIndex<T>(g: seq<seq<T>>, rows: nat, cols: nat, i: nat, j: nat)
    requires IsGrid(g, rows, cols) && i < rows && j < cols
    ensures |RowMajor(g)| == rows * cols
    ensures i * cols + j < rows * cols && RowMajor(g)[i * cols + j] == g[i][j]
    decreases rows
  {
    RowMajorLength(g, rows, cols);
    if i > 0 {
      RowMajorIndex(g[1..], rows - 1, cols, i - 1, j);
      assert (i - 1) * cols + j + cols == i * cols + j;
    }
  }

  lemma {:induction false} RowMajorLength<T>(g: seq<seq<T>>, rows: nat, cols: nat)
    requires IsGrid(g, rows, cols)
    ensures |RowMajor(g)| == rows * cols
    decreases rows
  {
    if rows > 0 {
      RowMajorLength(g[1..], rows - 1, cols);
    }
  }

  /** `Array2D::from_row_major(elements, num_rows, num_columns)`: fails unless
      the element count is `num_rows * num_columns`. */
  function FromRowMajor<T>(elems: seq<T>, rows: nat, cols: nat): (r: Option<seq<seq<T>>>)
    ensures r.Some? <==> |elems| == rows * cols
    ensures r.Some? ==> IsGrid(r.value, rows, cols)
  {
    if |elems| != rows * cols then None else Some(Chunks(elems, rows, cols))
  }

  /** `elems` cut into `rows` consecutive rows of `cols` elements. */
  function Chunks<T>(elems: seq<T>, rows: nat, cols: nat): (g: seq<seq<T>>)
    requires |elems| == rows * cols
    ensures IsGrid(g, rows, cols)
    decreases rows
  {
    if rows == 0 then []
    else
      MulPred(rows, cols);
      [elems[..cols]] + Chunks(elems[cols..], rows - 1, cols)
  }

  lemma MulPred(rows: nat, cols: nat)
    requires rows > 0
    ensures cols <= rows * cols && (rows - 1) * cols == rows * cols - cols
  {
  }

  /** Cell `(i, j)` of a grid built from row-major elements is element
      `i * cols + j`. */
  lemma {:induction false} FromRowMajorCell<T>(elems: seq<T>, rows: nat, cols: nat, i: nat, j: nat)
    requires |elems| == rows * cols && i < rows && j < cols
    ensures i * cols + j < |elems|
    ensures FromRowMajor(elems, rows, cols).value[i][j] == elems[i * cols + j]
  {
    ChunksCell(elems, rows, cols, i, j);
  }

  lemma {:induction false} ChunksCell<T>(elems: seq<T>, rows: nat, cols: nat, i: nat, j: nat)
    requires |elems| == rows * cols && i < rows && j < cols
    ensures i * cols + j < |elems|
    ensures Chunks(elems, rows, cols)[i][j] == elems[i * cols + j]
    decreases rows
  {
    MulPred(rows, cols);
    if i > 0 {
      ChunksCell(elems[cols..], rows - 1, cols, i - 1, j);
      assert (i - 1) * cols + j + cols == i * cols + j;
    }
  }

  /** Building from the row-major cells gives the grid back. */
  lemma FromRowMajorOfRowMajor<T>(g: seq<seq<T>>, rows: nat, cols: nat)
    requires IsGrid(g, rows, cols)
    ensures FromRowMajor(RowMajor(g), rows, cols) == Some(g)
  {
    RowMajorLength(g, rows, cols);
    var h := FromRowMajor(RowMajor(g), rows, cols).value;
    forall i, j | 0 <= i < rows && 0 <= j < cols
      ensures h[i][j] == g[i][j]
    {
      FromRowMajorCell(RowMajor(g), rows, cols, i, j);
      RowMajorIndex(g, rows, cols, i, j);
    }
    GridExt(h, g, rows, cols);
  }

  /** Grids of the same shape with the same cells are equal. */
  lemma GridExt<T>(h: seq<seq<T>>, g: seq<seq<T>>, rows: nat, cols: nat)
    requires IsGrid(h, rows, cols) && IsGrid(g, rows, cols)
    requires forall i, j :: 0 <= i < rows && 0 <= j < cols ==> h[i][j] == g[i][j]
    ensures h == g
  {
    forall i | 0 <= i < rows ensures h[i] == g[i] {
      assert forall j :: 0 <= j < cols ==> h[i][j] == g[i][j];
    }
  }

  /** The number of cells of a row, and of a grid, equal to `v`. */
  function CountRow<T(==)>(row: seq<T>, v: T): (n: nat)
    ensures n <= |row|
  {
    if row == [] then 0 else (if row[|row| - 1] == v then 1 else 0) + CountRow(row[..|row| - 1], v)
  }

  function Count<T(==)>(g: seq<seq<T>>, v: T): nat
  {
    if g == [] then 0 else CountRow(g[|g| - 1], v) + Count(g[..|g| - 1], v)
  }

  lemma {:induction false} CountRowUpdate<T>(row: seq<T>, c: nat, v: T, w: T)
    requires c < |row| && row[c] == v && w != v
    ensures CountRow(row[c := w], v) == CountRow(row, v) - 1
    decreases |row|
  {
    if c < |row| - 1 {
      assert row[c := w][..|row| - 1] == row[..|row| - 1][c := w];
      CountRowUpdate(row[..|row| - 1], c, v, w);
    } else {
      assert row[c := w][..|row| - 1] == row[..|row| - 1];
    }
  }

  /** Overwriting one `v` cell with another value lowers the count of `v` by
      one. */
  lemma {:induction false} CountUpdate<T>(g: seq<seq<T>>, r: nat, c: nat, v: T, w: T)
    requires r < |g| && c < |g[r]| && g[r][c] == v && w != v
    ensures Count(Update(g, r, c, w), v) == Count(g, v) - 1
    decreases |g|
  {
    var h := Update(g, r, c, w);
    if r < |g| - 1 {
      assert h[..|g| - 1] == Update(g[..|g| - 1], r, c, w);
      CountUpdate(g[..|g| - 1], r, c, v, w);
    } else {
      assert h[..|g| - 1] == g[..|g| - 1];
      CountRowUpdate(g[r], c, v, w);
    }
  }

  /** Adjacency kinds and their `(dRow, dCol)` offsets.  `Adjacents`,
      `adjacent_positions`, `Directions` and `move_grid_cursor_by_direction`
      are used across the repository but defined in none of the modelled
      files; the definitions below give them the contract their callers rely
      on: every result is in bounds and one step of the kind away, and every
      such position is listed. */
  datatype Adjacents = ALL | DIAGONAL | HORIZONTAL | VERTICAL | CROSS

  function Offsets(kind: Adjacents): seq<(int, int)>
  {
    match kind
    case ALL => [(-1, -1), (-1, 0), (-1, 1), (0, -1), (0, 1), (1, -1), (1, 0), (1, 1)]
    case DIAGONAL => [(-1, -1), (-1, 1), (1, -1), (1, 1)]
    case HORIZONTAL => [(0, -1), (0, 1)]
    case VERTICAL => [(-1, 0), (1, 0)]
    case CROSS => [(0, -1), (0, 1), (-1, 0), (1, 0)]
  }

  predicate IsOffset(kind: Adjacents, p: Pos, q: Pos)
  {
    (q.0 - p.0, q.1 - p.1) in Offsets(kind)
  }

  /** `p` moved by `d`, when that stays inside the grid. */
  function Shift(rows: nat, cols: nat, p: Pos, d: (int, int)): (q: Option<Pos>)
    ensures q.Some? <==> 0 <= p.0 + d.0 < rows && 0 <= p.1 + d.1 < cols
    ensures q.Some? ==> q.value == (p.0 + d.0, p.1 + d.1)
  {
    if 0 <= p.0 + d.0 < rows && 0 <= p.1 + d.1 < cols then Some((p.0 + d.0, p.1 + d.1)) else None
  }

  /** The offset from `p` to `q`. */
  function OffsetOf(p: Pos, q: Pos): (int, int)
  {
    (q.0 - p.0, q.1 - p.1)
  }

  /** `p` moved by each offset of `ds` that stays inside the grid, in the
      order of `ds`. */
  function ShiftAll(rows: nat, cols: nat, p: Pos, ds: seq<(int, int)>): (r: seq<Pos>)
    ensures |r| <= |ds|
  {
    if ds == [] then []
    else
      var rest := ShiftAll(rows, cols, p, ds[1..]);
      match Shift(rows, cols, p, ds[0])
      case Some(q) => [q] + rest
      case None => rest
  }

  lemma {:induction false} ShiftAllMember(rows: nat, cols: nat, p: Pos, ds: seq<(int, int)>, q: Pos)
    ensures q in ShiftAll(rows, cols, p, ds) <==> InBounds(rows, cols, q) && OffsetOf(p, q) in ds
  {
    if ds != [] {
      ShiftAllMember(rows, cols, p, ds[1..], q);
      assert OffsetOf(p, q) in ds <==> OffsetOf(p, q) == ds[0] || OffsetOf(p, q) in ds[1..];
    }
  }

  lemma {:induction false} ShiftAllDistinct(rows: nat, cols: nat, p: Pos, ds: seq<(int, int)>)
    requires NoDuplicates(ds)
    ensures NoDuplicates(ShiftAll(rows, cols, p, ds))
  {
    if ds != [] {
      var rest := ShiftAll(rows, cols, p, ds[1..]);
      assert NoDuplicates(ds[1..]);
      ShiftAllDistinct(rows, cols, p, ds[1..]);
      var d := ds[0];
      assert d !in ds[1..] by {
        forall j | 0 <= j < |ds| - 1
          ensures ds[1..][j] != d
        {
          assert ds[1..][j] == ds[j + 1];
        }
      }
      var sh := Shift(rows, cols, p, d);
      if sh.Some? {
        var q := sh.value;
        assert OffsetOf(p, q) == d;
        ShiftAllMember(rows, cols, p, ds[1..], q);
        assert ShiftAll(rows, cols, p, ds) == [q] + rest;
      }
    }
  }

  /** `adjacent_positions(grid, p, kind)`: the in-bounds positions one offset
      of `kind` away from `p`, each once. */
  function AdjacentPositions(rows: nat, cols: nat, p: Pos, kind: Adjacents): (r: seq<Pos>)
    ensures forall k :: 0 <= k < |r| ==> InBounds(rows, cols, r[k]) && IsOffset(kind, p, r[k])
    ensures forall q: Pos :: InBounds(rows, cols, q) && IsOffset(kind, p, q) ==> q in r
  {
    var r := ShiftAll(rows, cols, p, Offsets(kind));
    assert forall q: Pos :: q in r <==> InBounds(rows, cols, q) && IsOffset(kind, p, q) by {
      forall q: Pos
        ensures q in r <==> InBounds(rows, cols, q) && IsOffset(kind, p, q)
      {
        ShiftAllMember(rows, cols, p, Offsets(kind), q);
      }
    }
    assert forall k :: 0 <= k < |r| ==> r[k] in r;
    r
  }

  /** `adjacent_positions` lists no position twice. */
  lemma AdjacentPositionsDistinct(rows: nat, cols: nat, p: Pos, kind: Adjacents)
    ensures NoDuplicates(AdjacentPositions(rows, cols, p, kind))
  {
    ShiftAllDistinct(rows, cols, p, Offsets(kind));
  }

  /** Two positions are CROSS neighbours: one cardinal step apart. */
  predicate CrossStep(p: Pos, q: Pos)
  {
    (p.0 == q.0 && (p.1 == q.1 + 1 || q.1 == p.1 + 1)) ||
    (p.1 == q.1 && (p.0 == q.0 + 1 || q.0 == p.0 + 1))
  }

  lemma CrossOffsetIsStep(p: Pos, q: Pos)
    ensures IsOffset(CROSS, p, q) <==> CrossStep(p, q)
  {
  }

  /** The eight surrounding cells: different from `p`, at most one step away
      in each coordinate. */
  predicate KingStep(p: Pos, q: Pos)
  {
    p != q && -1 <= q.0 - p.0 <= 1 && -1 <= q.1 - p.1 <= 1
  }

  lemma AllOffsetIsKingStep(p: Pos, q: Pos)
    ensures IsOffset(ALL, p, q) <==> KingStep(p, q)
  {
  }

  /** The four cardinal moves. */
  datatype Direction = UP | DOWN | LEFT | RIGHT

  function Delta(d: Direction): (int, int)
  {
    match d
    case UP => (-1, 0)
    case DOWN => (1, 0)
    case LEFT => (0, -1)
    case RIGHT => (0, 1)
  }

  /** `move_grid_cursor_by_direction`: the neighbour in direction `d`, if it
      lies inside the grid. */
  function MoveCursor(rows: nat, cols: nat, d: Direction, p: Pos): (q: Option<Pos>)
    ensures q.Some? <==> 0 <= p.0 + Delta(d).0 < rows && 0 <= p.1 + Delta(d).1 < cols
    ensures q.Some? ==> q.value == (p.0 + Delta(d).0, p.1 + Delta(d).1)
  {
    Shift(rows, cols, p, Delta(d))
  }
}
