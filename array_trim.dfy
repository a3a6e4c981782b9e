/** `trim_array_to_bounds`: a grid cropped to the smallest box of rows and
    columns holding every cell that is not the background value. */
module ArrayTrim {
  import opened Wrappers
  import opened Grid

  /** Row `r` holds a cell other than `bg` (the `any` over the columns). */
  predicate RowOccupied<T(==)>(g: seq<seq<T>>, bg: T, r: nat)
  {
    r < |g| && exists c :: 0 <= c < |g[r]| && g[r][c] != bg
  }

  /** Column `c` holds a cell other than `bg`. */
  predicate ColOccupied<T(==)>(g: seq<seq<T>>, bg: T, c: nat)
  {
    exists r :: 0 <= r < |g| && c < |g[r]| && g[r][c] != bg
  }

  /** Rows are searched with the `any` over columns, columns with the `any`
      over rows. */
  datatype Axis = Rows | Cols

  predicate Occupied<T(==)>(g: seq<seq<T>>, bg: T, axis: Axis, k: nat)
  {
    if axis == Rows then RowOccupied(g, bg, k) else ColOccupied(g, bg, k)
  }

  /** `(lo..hi).find(..)`: the first occupied line in `[lo, hi)`. */
  function FindFirst<T(==)>(g: seq<seq<T>>, bg: T, axis: Axis, lo: nat, hi: nat): (o: Option<nat>)
    ensures o.Some? ==> lo <= o.value < hi && Occupied(g, bg, axis, o.value)
                        && forall k :: lo <= k < o.value ==> !Occupied(g, bg, axis, k)
    ensures o.None? ==> forall k :: lo <= k < hi ==> !Occupied(g, bg, axis, k)
    decreases hi - lo
  {
    if lo >= hi then None else if Occupied(g, bg, axis, lo) then Some(lo) else FindFirst(g, bg, axis, lo + 1, hi)
  }

  /** `(0..hi).rev().find(..)`: the last occupied line below `hi`. */
  function FindLast<T(==)>(g: seq<seq<T>>, bg: T, axis: Axis, hi: nat): (o: Option<nat>)
    ensures o.Some? ==> o.value < hi && Occupied(g, bg, axis, o.value)
                        && forall k :: o.value < k < hi ==> !Occupied(g, bg, axis, k)
    ensures o.None? ==> forall k :: 0 <= k < hi ==> !Occupied(g, bg, axis, k)
  {
    if hi == 0 then None else if Occupied(g, bg, axis, hi - 1) then Some(hi - 1) else FindLast(g, bg, axis, hi - 1)
  }

  predicate AllBackground<T(==)>(g: seq<seq<T>>, rows: nat, cols: nat, bg: T)
    requires IsGrid(g, rows, cols)
  {
    forall r, c :: 0 <= r < rows && 0 <= c < cols ==> g[r][c] == bg
  }

  /** The kept region `min_row..=max_row` by `min_col..=max_col`. */
  datatype Box = Box(minRow: nat, maxRow: nat, minCol: nat, maxCol: nat)
  {
    predicate Contains(r: nat, c: nat)
    {
      minRow <= r <= maxRow && minCol <= c <= maxCol
    }
    function Height(): nat
    {
      if maxRow < minRow then 0 else maxRow - minRow + 1
    }
    function Width(): nat
    {
      if maxCol < minCol then 0 else maxCol - minCol + 1
    }
  }

  /** `b` is the bounding box of the non-background cells: it lies in the
      grid, its first and last row and column are occupied, and every
      non-background cell is inside it. */
  predicate IsBoundingBox<T(==)>(g: seq<seq<T>>, rows: nat, cols: nat, bg: T, b: Box)
    requires IsGrid(g, rows, cols)
  {
    b.minRow <= b.maxRow < rows && b.minCol <= b.maxCol < cols
    && RowOccupied(g, bg, b.minRow) && RowOccupied(g, bg, b.maxRow)
    && ColOccupied(g, bg, b.minCol) && ColOccupied(g, bg, b.maxCol)
    && forall r, c :: 0 <= r < rows && 0 <= c < cols && g[r][c] != bg ==> b.Contains(r, c)
  }

  lemma MarkOccupies<T>(g: seq<seq<T>>, rows: nat, cols: nat, bg: T)
    requires IsGrid(g, rows, cols)
    ensures forall r, c {:trigger g[r][c]} :: 0 <= r < rows && 0 <= c < cols && g[r][c] != bg ==>
              Occupied(g, bg, Rows, r) && Occupied(g, bg, Cols, c)
  {
  }

  /** The four `find`s; `None` where one of them finds nothing. */
  function Bounds<T(==)>(g: seq<seq<T>>, rows: nat, cols: nat, bg: T): (o: Option<Box>)
    requires IsGrid(g, rows, cols)
    ensures o.None? <==> AllBackground(g, rows, cols, bg)
    ensures o.Some? ==> IsBoundingBox(g, rows, cols, bg, o.value)
  {
    var minRow := FindFirst(g, bg, Rows, 0, rows);
    var maxRow := FindLast(g, bg, Rows, rows);
    var minCol := FindFirst(g, bg, Cols, 0, cols);
    var maxCol := FindLast(g, bg, Cols, cols);
    MarkOccupies(g, rows, cols, bg);
    if minRow.None? || maxRow.None? || minCol.None? || maxCol.None? then
      None
    else
      Some(Box(minRow.value, maxRow.value, minCol.value, maxCol.value))
  }

  /** The `filter_map` over `enumerate_row_major`, one row: the cells of
      `row`, whose first cell is at `(r, c)`, that lie in the box. */
  function KeepRow<T>(row: seq<T>, r: nat, c: nat, b: Box): seq<T>
  {
    if row == [] then [] else (if b.Contains(r, c) then [row[0]] else []) + KeepRow(row[1..], r, c + 1, b)
  }

  /** The `filter_map` over all rows; the first row of `g` is row `r`. */
  function KeepRows<T>(g: seq<seq<T>>, r: nat, b: Box): seq<T>
  {
    if g == [] then [] else KeepRow(g[0], r, 0, b) + KeepRows(g[1..], r + 1, b)
  }

  function Clamp(x: int, n: nat): (y: nat)
    ensures y <= n
  {
    if x < 0 then 0 else if x > n then n else x
  }

  /** Within a row the filter keeps one contiguous slice. */
  lemma {:induction false} KeepRowSlice<T>(row: seq<T>, r: nat, c: nat, b: Box)
    requires b.minCol <= b.maxCol
    ensures Clamp(b.minCol - c, |row|) <= Clamp(b.maxCol + 1 - c, |row|)
    ensures KeepRow(row, r, c, b) ==
              if b.minRow <= r <= b.maxRow then row[Clamp(b.minCol - c, |row|)..Clamp(b.maxCol + 1 - c, |row|)] else []
    decreases |row|
  {
    if row != [] {
      KeepRowSlice(row[1..], r, c + 1, b);
      if b.minRow <= r <= b.maxRow {
        var lo, hi := Clamp(b.minCol - c, |row|), Clamp(b.maxCol + 1 - c, |row|);
        var lo', hi' := Clamp(b.minCol - (c + 1), |row| - 1), Clamp(b.maxCol + 1 - (c + 1), |row| - 1);
        if c < b.minCol {
          assert lo == lo' + 1 && hi == hi' + 1;
          SliceOfTail(row, lo, hi);
        } else if c <= b.maxCol {
          assert lo == 0 && lo' == 0 && hi == hi' + 1;
          ConsSlice(row, hi);
        } else {
          assert lo == hi && lo' == hi';
        }
      }
    }
  }

  lemma SliceOfTail<T>(row: seq<T>, lo: nat, hi: nat)
    requires 1 <= lo <= hi <= |row|
    ensures row[1..][lo - 1..hi - 1] == row[lo..hi]
  {
  }

  lemma ConsSlice<T>(row: seq<T>, hi: nat)
    requires 1 <= hi <= |row|
    ensures [row[0]] + row[1..][0..hi - 1] == row[0..hi]
  {
  }

  /** Rows `minRow..=maxRow` of the grid, each cut to columns
      `minCol..=maxCol`. */
  function Cut<T>(g: seq<seq<T>>, b: Box): (t: seq<seq<T>>)
    requires b.minRow <= b.maxRow < |g| && b.minCol <= b.maxCol
    requires forall k :: 0 <= k < |g| ==> b.maxCol < |g[k]|
    ensures IsGrid(t, b.Height(), b.Width())
    ensures forall i, j :: 0 <= i < b.Height() && 0 <= j < b.Width() ==> t[i][j] == g[b.minRow + i][b.minCol + j]
  {
    seq(b.Height(), i requires 0 <= i < b.Height() => g[b.minRow + i][b.minCol..b.maxCol + 1])
  }

  /** The filter over rows `k..` yields the cut rows from the first kept row
      at or after `k`. */
  lemma {:induction false} KeepRowsSuffix<T>(g: seq<seq<T>>, b: Box, k: nat)
    requires b.minRow <= b.maxRow < |g| && b.minCol <= b.maxCol
    requires forall k :: 0 <= k < |g| ==> b.maxCol < |g[k]|
    requires k <= |g|
    ensures KeepRows(g[k..], k, b) == RowMajor(Cut(g, b)[Clamp(k - b.minRow, b.Height())..])
    decreases |g| - k
  {
    var t := Cut(g, b);
    var j := Clamp(k - b.minRow, b.Height());
    if k < |g| {
      KeepRowsSuffix(g, b, k + 1);
      KeepRowsStep(g, b, k);
      KeptRow(g, b, k);
      if b.minRow <= k <= b.maxRow {
        RowMajorStep(t, j);
      }
    } else {
      assert t[j..] == [];
    }
  }

  lemma KeepRowsStep<T>(g: seq<seq<T>>, b: Box, k: nat)
    requires k < |g|
    ensures KeepRows(g[k..], k, b) == KeepRow(g[k], k, 0, b) + KeepRows(g[k + 1..], k + 1, b)
  {
    assert g[k..][0] == g[k] && g[k..][1..] == g[k + 1..];
  }

  /** Row `k` contributes its cut row when the box spans it, nothing otherwise. */
  lemma KeptRow<T>(g: seq<seq<T>>, b: Box, k: nat)
    requires b.minRow <= b.maxRow < |g| && b.minCol <= b.maxCol
    requires forall k :: 0 <= k < |g| ==> b.maxCol < |g[k]|
    requires k < |g|
    ensures KeepRow(g[k], k, 0, b) == if b.minRow <= k <= b.maxRow then Cut(g, b)[k - b.minRow] else []
  {
    KeepRowSlice(g[k], k, 0, b);
  }

  lemma RowMajorStep<T>(t: seq<seq<T>>, j: nat)
    requires j < |t|
    ensures RowMajor(t[j..]) == t[j] + RowMajor(t[j + 1..])
  {
    assert t[j..][0] == t[j] && t[j..][1..] == t[j + 1..];
  }

  /** The filtered cells, rebuilt with the box's height and width, are the
      cut rows. */
  lemma CutGrid<T>(g: seq<seq<T>>, rows: nat, cols: nat, b: Box)
    requires IsGrid(g, rows, cols) && b.minRow <= b.maxRow < rows && b.minCol <= b.maxCol < cols
    ensures FromRowMajor(KeepRows(g, 0, b), b.Height(), b.Width()) == Some(Cut(g, b))
  {
    KeepRowsSuffix(g, b, 0);
    assert g[0..] == g;
    assert Cut(g, b)[0..] == Cut(g, b);
    FromRowMajorOfRowMajor(Cut(g, b), b.Height(), b.Width());
  }

  /** `trim_array_to_bounds(array, bg_char)`.  Every `unwrap` that fails
      becomes `Panic`. */
  function TrimArrayToBounds<T(==)>(g: seq<seq<T>>, rows: nat, cols: nat, bg: T): (res: Result<seq<seq<T>>>)
    requires IsGrid(g, rows, cols)
    ensures res.Panic? <==> AllBackground(g, rows, cols, bg)
    ensures res.Ok? ==>
              var b := Bounds(g, rows, cols, bg).value;
              IsGrid(res.value, b.Height(), b.Width())
              && forall i, j :: 0 <= i < b.Height() && 0 <= j < b.Width() ==>
                   res.value[i][j] == g[b.minRow + i][b.minCol + j]
  {
    match Bounds(g, rows, cols, bg)
    case None => Panic("called `Option::unwrap()` on a `None` value")
    case Some(b) =>
      var elems := KeepRows(g, 0, b);
      CutGrid(g, rows, cols, b);
      match FromRowMajor(elems, b.Height(), b.Width())
      case None => Panic("called `Result::unwrap()` on an `Err` value")
      case Some(t) => Ok(t)
  }

  /** Every non-background cell survives the crop, at its shifted position. */
  lemma TrimKeepsEveryMark<T>(g: seq<seq<T>>, rows: nat, cols: nat, bg: T, r: nat, c: nat)
    requires IsGrid(g, rows, cols) && r < rows && c < cols && g[r][c] != bg
    ensures TrimArrayToBounds(g, rows, cols, bg).Ok?
    ensures var b := Bounds(g, rows, cols, bg).value;
            b.Contains(r, c) && TrimArrayToBounds(g, rows, cols, bg).value[r - b.minRow][c - b.minCol] == g[r][c]
  {
  }

  /** The first and last rows and columns of a trimmed grid each hold a
      non-background cell. */
  lemma TrimEdgesOccupied<T>(g: seq<seq<T>>, rows: nat, cols: nat, bg: T)
    requires IsGrid(g, rows, cols) && !AllBackground(g, rows, cols, bg)
    ensures var b := Bounds(g, rows, cols, bg).value;
            var t := TrimArrayToBounds(g, rows, cols, bg).value;
            RowOccupied(t, bg, 0) && RowOccupied(t, bg, b.Height() - 1)
            && ColOccupied(t, bg, 0) && ColOccupied(t, bg, b.Width() - 1)
  {
    var b := Bounds(g, rows, cols, bg).value;
    var t := TrimArrayToBounds(g, rows, cols, bg).value;
    var c0 :| 0 <= c0 < cols && g[b.minRow][c0] != bg;
    assert t[0][c0 - b.minCol] != bg;
    var c1 :| 0 <= c1 < cols && g[b.maxRow][c1] != bg;
    assert t[b.Height() - 1][c1 - b.minCol] != bg;
    var r0 :| 0 <= r0 < rows && g[r0][b.minCol] != bg;
    assert t[r0 - b.minRow][0] != bg;
    var r1 :| 0 <= r1 < rows && g[r1][b.maxCol] != bg;
    assert t[r1 - b.minRow][b.Width() - 1] != bg;
  }

  /** A grid whose edge rows and columns are occupied is its own bounding
      box. */
  lemma BoundsOfTight<T>(t: seq<seq<T>>, h: nat, w: nat, bg: T)
    requires IsGrid(t, h, w) && 0 < h && 0 < w
    requires RowOccupied(t, bg, 0) && RowOccupied(t, bg, h - 1)
    requires ColOccupied(t, bg, 0) && ColOccupied(t, bg, w - 1)
    ensures Bounds(t, h, w, bg) == Some(Box(0, h - 1, 0, w - 1))
  {
    assert FindFirst(t, bg, Rows, 0, h) == Some(0);
    assert FindLast(t, bg, Rows, h) == Some(h - 1);
    assert FindFirst(t, bg, Cols, 0, w) == Some(0);
    assert FindLast(t, bg, Cols, w) == Some(w - 1);
  }

  /** Trimming a grid that is its own bounding box gives it back. */
  lemma TrimTight<T>(t: seq<seq<T>>, h: nat, w: nat, bg: T)
    requires IsGrid(t, h, w) && 0 < h && 0 < w && Bounds(t, h, w, bg) == Some(Box(0, h - 1, 0, w - 1))
    ensures TrimArrayToBounds(t, h, w, bg) == Ok(t)
  {
    var t2 := TrimArrayToBounds(t, h, w, bg).value;
    GridExt(t2, t, h, w);
  }

  /** Trimming a trimmed grid changes nothing. */
  lemma TrimIdempotent<T>(g: seq<seq<T>>, rows: nat, cols: nat, bg: T)
    requires IsGrid(g, rows, cols) && !AllBackground(g, rows, cols, bg)
    ensures var b := Bounds(g, rows, cols, bg).value;
            var t := TrimArrayToBounds(g, rows, cols, bg).value;
            TrimArrayToBounds(t, b.Height(), b.Width(), bg) == Ok(t)
  {
    var b := Bounds(g, rows, cols, bg).value;
    var t := TrimArrayToBounds(g, rows, cols, bg).value;
    TrimEdgesOccupied(g, rows, cols, bg);
    BoundsOfTight(t, b.Height(), b.Width(), bg);
    TrimTight(t, b.Height(), b.Width(), bg);
  }
}
