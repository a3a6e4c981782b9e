/** `rotate_array`: a square grid turned 90 degrees clockwise in place, by a
    transpose over the lower triangle followed by a reversal of every row. */
module Array2d {
  import opened Wrappers
  import opened Text
  import opened Grid

  /** The square grid `g` turned a quarter clockwise: result cell `(r, c)` is
      the original cell `(n - 1 - c, r)`. */
  function Rotated<T>(g: seq<seq<T>>): (h: seq<seq<T>>)
    requires IsGrid(g, |g|, |g|)
    ensures IsGrid(h, |g|, |g|)
  {
    var n := |g|;
    seq(n, r requires 0 <= r < n => seq(n, c requires 0 <= c < n => g[n - 1 - c][r]))
  }

  /** The cells of a grid as a multiset. */
  function Cells<T>(g: seq<seq<T>>): multiset<T>
  {
    if g == [] then multiset{} else Cells(g[..|g| - 1]) + multiset(g[|g| - 1])
  }

  /** `g` with cells `p` and `q` exchanged. */
  function Swap<T>(g: seq<seq<T>>, p: Pos, q: Pos): (h: seq<seq<T>>)
    requires p.0 < |g| && p.1 < |g[p.0]| && q.0 < |g| && q.1 < |g[q.0]|
    ensures |h| == |g| && forall i :: 0 <= i < |g| ==> |h[i]| == |g[i]|
    ensures forall i, j :: 0 <= i < |g| && 0 <= j < |g[i]| ==>
              h[i][j] == if (i, j) == q then g[p.0][p.1] else if (i, j) == p then g[q.0][q.1] else g[i][j]
  {
    Update(Update(g, p.0, p.1, g[q.0][q.1]), q.0, q.1, g[p.0][p.1])
  }

  /** Writing one cell trades its old value for the new one in the multiset
      of cells. */
  lemma {:induction false} CellsUpdate<T>(g: seq<seq<T>>, r: nat, c: nat, v: T)
    requires r < |g| && c < |g[r]|
    ensures Cells(Update(g, r, c, v)) == Cells(g) - multiset{g[r][c]} + multiset{v}
    decreases |g|
  {
    var h := Update(g, r, c, v);
    if r < |g| - 1 {
      assert h[..|g| - 1] == Update(g[..|g| - 1], r, c, v);
      assert h[|g| - 1] == g[|g| - 1];
      CellsUpdate(g[..|g| - 1], r, c, v);
      CellIn(g[..|g| - 1], r, c);
    } else {
      assert h[..|g| - 1] == g[..|g| - 1];
      assert h[r] == g[r][c := v];
    }
  }

  lemma {:induction false} CellIn<T>(g: seq<seq<T>>, r: nat, c: nat)
    requires r < |g| && c < |g[r]|
    ensures g[r][c] in Cells(g)
    decreases |g|
  {
    if r < |g| - 1 {
      CellIn(g[..|g| - 1], r, c);
    } else {
      assert g[r][c] in multiset(g[|g| - 1]);
    }
  }

  /** Exchanging two cells keeps the multiset of cells. */
  lemma SwapCells<T>(g: seq<seq<T>>, p: Pos, q: Pos)
    requires p.0 < |g| && p.1 < |g[p.0]| && q.0 < |g| && q.1 < |g[q.0]|
    ensures Cells(Swap(g, p, q)) == Cells(g)
  {
    var x, y := g[p.0][p.1], g[q.0][q.1];
    var g1 := Update(g, p.0, p.1, y);
    CellsUpdate(g, p.0, p.1, y);
    CellIn(g, p.0, p.1);
    CellsUpdate(g1, q.0, q.1, x);
    CellIn(g1, q.0, q.1);
  }

  /** Exchanges two cells of a mutable grid. */
  method SwapIn<T>(a: array2<T>, p: Pos, q: Pos)
    requires p.0 < a.Length0 && p.1 < a.Length1 && q.0 < a.Length0 && q.1 < a.Length1
    modifies a
    ensures Snapshot(a) == Swap(old(Snapshot(a)), p, q)
  {
    var tmp := a[p.0, p.1];
    var tmp2 := a[q.0, q.1];
    SetCell(a, p.0, p.1, tmp2);
    SetCell(a, q.0, q.1, tmp);
  }

  /** `g` is `g0` with rows and columns `0..r` transposed, and in row and
      column `r` the first `c` cells exchanged across the diagonal. */
  predicate TransposedUpTo<T(==)>(g: seq<seq<T>>, g0: seq<seq<T>>, n: nat, r: nat, c: nat)
    requires IsGrid(g, n, n) && IsGrid(g0, n, n)
  {
    forall i, j {:trigger g[i][j]} :: 0 <= i < n && 0 <= j < n ==>
      g[i][j] == if (i < r && j < r) || (i == r && j < c) || (j == r && i < c) then g0[j][i] else g0[i][j]
  }

  /** `g` is `t` with rows `0..r` reversed, and in row `r` the first and last
      `c` cells exchanged. */
  predicate FlippedUpTo<T(==)>(g: seq<seq<T>>, t: seq<seq<T>>, n: nat, r: nat, c: nat)
    requires IsGrid(g, n, n) && IsGrid(t, n, n)
  {
    forall i, j {:trigger g[i][j]} :: 0 <= i < n && 0 <= j < n ==>
      g[i][j] == if i < r || (i == r && (j < c || n - 1 - c < j)) then t[i][n - 1 - j] else t[i][j]
  }

  /** The inner transpose loop for row `r`. */
  method TransposeRow<T(==)>(a: array2<T>, r: nat, ghost g0: seq<seq<T>>)
    requires a.Length0 == a.Length1 && r < a.Length0 && IsGrid(g0, a.Length0, a.Length0)
    requires TransposedUpTo(Snapshot(a), g0, a.Length0, r, 0)
    modifies a
    ensures TransposedUpTo(Snapshot(a), g0, a.Length0, r + 1, 0)
    ensures Cells(Snapshot(a)) == Cells(old(Snapshot(a)))
  {
    var n := a.Length0;
    for c := 0 to r
      invariant TransposedUpTo(Snapshot(a), g0, n, r, c)
      invariant Cells(Snapshot(a)) == Cells(old(Snapshot(a)))
    {
      SwapCells(Snapshot(a), (r, c), (c, r));
      TransposeStep(Snapshot(a), g0, n, r, c);
      SwapIn(a, (r, c), (c, r));
    }
    TransposeNextRow(Snapshot(a), g0, n, r);
  }

  /** The inner flip loop for row `r`. */
  method FlipRow<T(==)>(a: array2<T>, r: nat, ghost t: seq<seq<T>>)
    requires a.Length0 == a.Length1 && r < a.Length0 && IsGrid(t, a.Length0, a.Length0)
    requires FlippedUpTo(Snapshot(a), t, a.Length0, r, 0)
    modifies a
    ensures FlippedUpTo(Snapshot(a), t, a.Length0, r + 1, 0)
    ensures Cells(Snapshot(a)) == Cells(old(Snapshot(a)))
  {
    var n := a.Length0;
    var half := n / 2;
    for c := 0 to half
      invariant FlippedUpTo(Snapshot(a), t, n, r, c)
      invariant Cells(Snapshot(a)) == Cells(old(Snapshot(a)))
    {
      var d := n - c - 1;
      SwapCells(Snapshot(a), (r, c), (r, d));
      FlipStep(Snapshot(a), t, n, r, c);
      SwapIn(a, (r, c), (r, d));
    }
    FlipNextRow(Snapshot(a), t, n, r);
  }

  /** The message of a failed `assert_eq!`. */
  const NOT_SQUARE := "assertion `left == right` failed"

  /** `rotate_array`.  The `assert_eq!` on the row and column lengths panics
      on a grid that is not square, before anything is written. */
  method RotateArray<T(==)>(a: array2<T>) returns (r: Result<()>)
    modifies a
    ensures r.Panic? <==> a.Length0 != a.Length1
    ensures r.Panic? ==> r.why == NOT_SQUARE && Snapshot(a) == old(Snapshot(a))
    ensures r.Ok? ==> Snapshot(a) == Rotated(old(Snapshot(a)))
    ensures Cells(Snapshot(a)) == Cells(old(Snapshot(a)))
  {
    if a.Length0 != a.Length1 {
      return Panic(NOT_SQUARE);
    }
    var n := a.Length0;
    ghost var g0 := Snapshot(a);
    // Transpose: swap (r, c) with (c, r) below the diagonal.
    for r := 0 to n
      invariant TransposedUpTo(Snapshot(a), g0, n, r, 0)
      invariant Cells(Snapshot(a)) == Cells(g0)
    {
      TransposeRow(a, r, g0);
    }
    ghost var t := Snapshot(a);
    // Reverse every row.
    for r := 0 to n
      invariant FlippedUpTo(Snapshot(a), t, n, r, 0)
      invariant Cells(Snapshot(a)) == Cells(g0)
    {
      FlipRow(a, r, t);
    }
    RotateFinish(Snapshot(a), t, g0, n);
    r := Ok(());
  }

  lemma TransposeStep<T>(g: seq<seq<T>>, g0: seq<seq<T>>, n: nat, r: nat, c: nat)
    requires IsGrid(g, n, n) && IsGrid(g0, n, n) && c < r < n
    requires TransposedUpTo(g, g0, n, r, c)
    ensures IsGrid(Swap(g, (r, c), (c, r)), n, n)
    ensures TransposedUpTo(Swap(g, (r, c), (c, r)), g0, n, r, c + 1)
  {
    var h := Swap(g, (r, c), (c, r));
    forall i, j | 0 <= i < n && 0 <= j < n
      ensures h[i][j] == if (i < r && j < r) || (i == r && j < c + 1) || (j == r && i < c + 1) then g0[j][i] else g0[i][j]
    {
    }
  }

  lemma TransposeNextRow<T>(g: seq<seq<T>>, g0: seq<seq<T>>, n: nat, r: nat)
    requires IsGrid(g, n, n) && IsGrid(g0, n, n) && r < n
    requires TransposedUpTo(g, g0, n, r, r)
    ensures TransposedUpTo(g, g0, n, r + 1, 0)
  {
  }

  lemma FlipStep<T>(g: seq<seq<T>>, t: seq<seq<T>>, n: nat, r: nat, c: nat)
    requires IsGrid(g, n, n) && IsGrid(t, n, n) && r < n && c < n / 2
    requires FlippedUpTo(g, t, n, r, c)
    ensures IsGrid(Swap(g, (r, c), (r, n - c - 1)), n, n)
    ensures FlippedUpTo(Swap(g, (r, c), (r, n - c - 1)), t, n, r, c + 1)
  {
    var h := Swap(g, (r, c), (r, n - c - 1));
    forall i, j | 0 <= i < n && 0 <= j < n
      ensures h[i][j] == if i < r || (i == r && (j < c + 1 || n - 1 - (c + 1) < j)) then t[i][n - 1 - j] else t[i][j]
    {
    }
  }

  lemma FlipNextRow<T>(g: seq<seq<T>>, t: seq<seq<T>>, n: nat, r: nat)
    requires IsGrid(g, n, n) && IsGrid(t, n, n) && r < n
    requires FlippedUpTo(g, t, n, r, n / 2)
    ensures FlippedUpTo(g, t, n, r + 1, 0)
  {
  }

  lemma RotateFinish<T>(g: seq<seq<T>>, t: seq<seq<T>>, g0: seq<seq<T>>, n: nat)
    requires IsGrid(g, n, n) && IsGrid(t, n, n) && IsGrid(g0, n, n)
    requires TransposedUpTo(t, g0, n, n, 0) && FlippedUpTo(g, t, n, n, 0)
    ensures g == Rotated(g0)
  {
    GridExt(g, Rotated(g0), n, n);
  }

  /** Row `r` of a rotated grid is column `r` read bottom-up. */
  lemma RotatedCell<T>(g: seq<seq<T>>, r: nat, c: nat)
    requires IsGrid(g, |g|, |g|) && r < |g| && c < |g|
    ensures Rotated(g)[r][c] == g[|g| - 1 - c][r]
  {
  }

  /** Four quarter turns give the grid back. */
  lemma RotateFourTimes<T>(g: seq<seq<T>>)
    requires IsGrid(g, |g|, |g|)
    ensures Rotated(Rotated(Rotated(Rotated(g)))) == g
  {
    var n := |g|;
    var g1 := Rotated(g);
    var g2 := Rotated(g1);
    var g3 := Rotated(g2);
    var g4 := Rotated(g3);
    forall i, j | 0 <= i < n && 0 <= j < n ensures g4[i][j] == g[i][j] {
      RotatedCell(g3, i, j);
      RotatedCell(g2, n - 1 - j, i);
      RotatedCell(g1, n - 1 - i, n - 1 - j);
      RotatedCell(g, j, n - 1 - i);
    }
    GridExt(g4, g, n, n);
  }

  /** Two quarter turns reverse the grid in both directions. */
  lemma RotateTwice<T>(g: seq<seq<T>>)
    requires IsGrid(g, |g|, |g|)
    ensures forall i, j :: 0 <= i < |g| && 0 <= j < |g| ==> Rotated(Rotated(g))[i][j] == g[|g| - 1 - i][|g| - 1 - j]
  {
    var n := |g|;
    forall i, j | 0 <= i < n && 0 <= j < n ensures Rotated(Rotated(g))[i][j] == g[n - 1 - i][n - 1 - j] {
      RotatedCell(Rotated(g), i, j);
      RotatedCell(g, n - 1 - j, i);
    }
  }
}
