/** Day 10: Gaussian elimination does not change which button presses
    solve a machine.  A swap only reorders the rows; the fraction-free
    integer step replaces a row by `pv * row - f * prow` with `pv != 0`,
    which keeps every integer solution and adds none; the GF(2) step adds
    the pivot row to a row modulo 2, which keeps every solution modulo 2
    and adds none. */
module Day10Solutions {
  import opened Grid
  import opened Day10

  /** How far row `row` of `[A | b]` misses at `x`: `A[r]·x - b[r]`. */
  function Residual(row: seq<int>, w: nat, x: seq<int>): int
    requires w >= 1 && |row| == w && |x| == w - 1
  {
    Dot(row, x, 0, w - 1) - row[w - 1]
  }

  /** Every row of `[A | b]` holds at `x` modulo 2. */
  predicate SolvesMod2(g: Matrix, w: nat, x: seq<int>)
    requires IsGrid(g, |g|, w) && w >= 1 && |x| == w - 1
  {
    forall r :: 0 <= r < |g| ==> Residual(g[r], w, x) % 2 == 0
  }

  /** Rows `p` onwards are zero left of column `c`. */
  predicate ZeroLeftFrom(g: Matrix, w: nat, p: nat, c: nat)
    requires IsGrid(g, |g|, w) && c <= w
  {
    forall r, k :: p <= r < |g| && 0 <= k < c ==> g[r][k] == 0
  }

  // ------------------------------------------------------- the row steps

  /** The integer step is linear where both rows are zero left of `c`. */
  lemma {:induction false} DotCombine(row: seq<int>, prow: seq<int>, c: nat, pv: int, f: int, x: seq<int>, hi: nat)
    requires |row| == |prow| && hi <= |row| && hi <= |x|
    requires forall k :: 0 <= k < c && k < hi ==> row[k] == 0 && prow[k] == 0
    ensures Dot(CombineFrom(row, prow, c, pv, f), x, 0, hi) == pv * Dot(row, x, 0, hi) - f * Dot(prow, x, 0, hi)
    decreases hi
  {
    if hi > 0 {
      var k, h := hi - 1, CombineFrom(row, prow, c, pv, f);
      DotCombine(row, prow, c, pv, f, x, k);
      var d1, d2 := Dot(row, x, 0, k), Dot(prow, x, 0, k);
      assert Dot(h, x, 0, hi) == pv * d1 - f * d2 + h[k] * x[k];
      assert h[k] * x[k] == pv * (row[k] * x[k]) - f * (prow[k] * x[k]) by {
        if k >= c {
          Distribute(row[k], prow[k], pv, f, x[k]);
        }
      }
      Collect(pv, f, d1, d2, row[k] * x[k], prow[k] * x[k]);
    }
  }

  lemma Distribute(a: int, b: int, pv: int, f: int, y: int)
    ensures (a * pv - b * f) * y == pv * (a * y) - f * (b * y)
  {
    calc {
      (a * pv - b * f) * y;
      (a * pv) * y - (b * f) * y;
      pv * (a * y) - f * (b * y);
    }
  }

  lemma Collect(pv: int, f: int, d1: int, d2: int, t1: int, t2: int)
    ensures pv * d1 - f * d2 + (pv * t1 - f * t2) == pv * (d1 + t1) - f * (d2 + t2)
  {
    calc {
      pv * (d1 + t1) - f * (d2 + t2);
      pv * d1 + pv * t1 - (f * d2 + f * t2);
    }
  }

  /** The combined row misses by the same combination of the two misses. */
  lemma CombineResidual(row: seq<int>, prow: seq<int>, w: nat, c: nat, pv: int, f: int, x: seq<int>)
    requires w >= 1 && |row| == w && |prow| == w && |x| == w - 1 && c < w
    requires forall k :: 0 <= k < c ==> row[k] == 0 && prow[k] == 0
    ensures Residual(CombineFrom(row, prow, c, pv, f), w, x) == pv * Residual(row, w, x) - f * Residual(prow, w, x)
  {
    DotCombine(row, prow, c, pv, f, x, w - 1);
  }

  /** Over GF(2) the xor-ed row is the sum of the two rows, modulo 2,
      where the pivot row is zero left of `c` and both are binary from `c`. */
  lemma {:induction false} DotXor(row: seq<int>, prow: seq<int>, c: nat, x: seq<int>, hi: nat)
    requires |row| == |prow| && hi <= |row| && hi <= |x|
    requires forall k :: 0 <= k < c && k < hi ==> prow[k] == 0
    requires forall k :: c <= k < hi ==> (row[k] == 0 || row[k] == 1) && (prow[k] == 0 || prow[k] == 1)
    ensures (Dot(XorFrom(row, prow, c), x, 0, hi) - Dot(row, x, 0, hi) - Dot(prow, x, 0, hi)) % 2 == 0
    decreases hi
  {
    if hi > 0 {
      DotXor(row, prow, c, x, hi - 1);
      var k := hi - 1;
      var d := XorFrom(row, prow, c)[k] - row[k] - prow[k];
      assert d == 0 || d == -2;
      assert XorFrom(row, prow, c)[k] * x[k] - row[k] * x[k] - prow[k] * x[k] == d * x[k];
    }
  }

  lemma XorResidual(row: seq<int>, prow: seq<int>, w: nat, c: nat, x: seq<int>)
    requires w >= 1 && |row| == w && |prow| == w && |x| == w - 1 && c < w
    requires forall k :: 0 <= k < c ==> prow[k] == 0
    requires forall k :: c <= k < w ==> (row[k] == 0 || row[k] == 1) && (prow[k] == 0 || prow[k] == 1)
    ensures (Residual(XorFrom(row, prow, c), w, x) - Residual(row, w, x) - Residual(prow, w, x)) % 2 == 0
  {
    DotXor(row, prow, c, x, w - 1);
  }

  // ---------------------------------------------------- the matrix steps

  /** Exchanging two rows keeps the solutions. */
  lemma SwapSolutions(g: Matrix, w: nat, i: nat, j: nat, x: seq<int>)
    requires IsGrid(g, |g|, w) && w >= 1 && i < |g| && j < |g| && |x| == w - 1
    ensures IsGrid(Swapped(g, i, j), |g|, w)
    ensures Solves(Swapped(g, i, j), w, |g|, x) <==> Solves(g, w, |g|, x)
    ensures SolvesMod2(Swapped(g, i, j), w, x) <==> SolvesMod2(g, w, x)
  {
    var h := Swapped(g, i, j);
    assert forall r :: 0 <= r < |g| ==> h[r] == g[if r == i then j else if r == j then i else r];
    if Solves(g, w, |g|, x) {
      forall r | 0 <= r < |g| ensures RowHolds(h, w, r, x) {
        assert RowHolds(g, w, if r == i then j else if r == j then i else r, x);
      }
    }
    if Solves(h, w, |g|, x) {
      forall r | 0 <= r < |g| ensures RowHolds(g, w, r, x) {
        assert RowHolds(h, w, if r == i then j else if r == j then i else r, x);
      }
    }
    if SolvesMod2(g, w, x) {
      forall r | 0 <= r < |g| ensures Residual(h[r], w, x) % 2 == 0 {
        assert h[r] == g[if r == i then j else if r == j then i else r];
      }
    }
    if SolvesMod2(h, w, x) {
      forall r | 0 <= r < |g| ensures Residual(g[r], w, x) % 2 == 0 {
        assert g[r] == h[if r == i then j else if r == j then i else r];
      }
    }
  }

  /** A nonzero multiple of a nonzero integer is nonzero. */
  lemma MulNonzero(a: int, b: int)
    requires a != 0 && b != 0
    ensures a * b != 0
  {
    if a > 0 && b > 0 {
      assert a * b >= b;
    } else if a > 0 {
      assert a * b <= b;
    } else if b > 0 {
      assert a * b <= a;
    } else {
      assert a * b >= -a;
    }
  }

  /** The fraction-free step with a nonzero pivot keeps exactly the
      integer solutions, when the rows it combines are zero left of `c`. */
  lemma ClearIntSolutions(s: Matrix, w: nat, p: nat, c: nat, x: seq<int>)
    requires IsGrid(s, |s|, w) && p < |s| && c + 1 < w && |x| == w - 1
    requires s[p][c] != 0 && ZeroLeftFrom(s, w, p, c)
    ensures Solves(ClearInt(s, w, p, c), w, |s|, x) <==> Solves(s, w, |s|, x)
  {
    var h, pv := ClearInt(s, w, p, c), s[p][c];
    forall r | 0 <= r < |s| && r > p && s[r][c] != 0
      ensures Residual(h[r], w, x) == pv * Residual(s[r], w, x) - s[r][c] * Residual(s[p], w, x)
    {
      CombineResidual(s[r], s[p], w, c, pv, s[r][c], x);
    }
    if Solves(h, w, |s|, x) {
      assert RowHolds(h, w, p, x);
      forall r | 0 <= r < |s| ensures RowHolds(s, w, r, x) {
        assert RowHolds(h, w, r, x);
        if r > p && s[r][c] != 0 && Residual(s[r], w, x) != 0 {
          MulNonzero(pv, Residual(s[r], w, x));
        }
      }
    }
    if Solves(s, w, |s|, x) {
      forall r | 0 <= r < |s| ensures RowHolds(h, w, r, x) {
        assert RowHolds(s, w, r, x) && RowHolds(s, w, p, x);
      }
    }
  }

  /** The GF(2) step keeps exactly the solutions modulo 2, when the pivot
      row is zero left of `c` and the matrix is binary. */
  lemma ClearGf2Solutions(s: Matrix, w: nat, p: nat, c: nat, x: seq<int>)
    requires IsGrid(s, |s|, w) && p < |s| && c + 1 < w && |x| == w - 1
    requires Binary(s) && forall k :: 0 <= k < c ==> s[p][k] == 0
    ensures SolvesMod2(ClearGf2(s, w, p, c), w, x) <==> SolvesMod2(s, w, x)
  {
    var h := ClearGf2(s, w, p, c);
    forall r | 0 <= r < |s|
      ensures r != p && s[r][c] == 1 ==> (Residual(h[r], w, x) - Residual(s[r], w, x) - Residual(s[p], w, x)) % 2 == 0
      ensures r == p || s[r][c] != 1 ==> h[r] == s[r]
    {
      if r != p && s[r][c] == 1 {
        XorResidual(s[r], s[p], w, c, x);
      }
    }
    assert h[p] == s[p];
    if SolvesMod2(h, w, x) {
      assert Residual(s[p], w, x) % 2 == 0;
      forall r | 0 <= r < |s| ensures Residual(s[r], w, x) % 2 == 0 {
        assert Residual(h[r], w, x) % 2 == 0;
      }
    }
    if SolvesMod2(s, w, x) {
      forall r | 0 <= r < |s| ensures Residual(h[r], w, x) % 2 == 0 {
        assert Residual(s[r], w, x) % 2 == 0 && Residual(s[p], w, x) % 2 == 0;
      }
    }
  }

  // ---------------------------------------------------- the whole method

  /** What the elimination invariant gives the next column: the rows from
      the next pivot row on are zero left of it, and over GF(2) the matrix
      is binary. */
  lemma InvBeforeColumn(e: Elim, w: nat, c: nat, gf2: bool)
    requires c < w && ElimInv(e, |e.g|, w, c, gf2)
    ensures ZeroLeftFrom(e.g, w, e.pivotRow, c) && (gf2 ==> Binary(e.g))
  {
    var cs := PivotColumns(e.pivots, c);
    assert |cs| == e.pivotRow && Cleared(e.g, w, c, cs);
  }

  /** Swapping a row from `p` on into row `p` keeps those rows zero left
      of `c`, and keeps a binary matrix binary. */
  lemma SwapKeepsZeroLeft(g: Matrix, w: nat, p: nat, r: nat, c: nat)
    requires IsGrid(g, |g|, w) && p <= r < |g| && c <= w && ZeroLeftFrom(g, w, p, c)
    ensures IsGrid(Swapped(g, p, r), |g|, w) && ZeroLeftFrom(Swapped(g, p, r), w, p, c)
    ensures Binary(g) ==> Binary(Swapped(g, p, r))
  {
    var h := Swapped(g, p, r);
    assert forall q :: 0 <= q < |g| ==> h[q] == g[if q == p then r else if q == r then p else q];
  }

  /** The pivot of column `c` in row `r`: swap, then clear. */
  lemma PivotedSolutions(e: Elim, w: nat, c: nat, gf2: bool, r: nat, x: seq<int>)
    requires IsGrid(e.g, |e.g|, w) && c + 1 < w && e.pivotRow <= r < |e.g| && |x| == w - 1
    requires e.g[r][c] != 0 && ZeroLeftFrom(e.g, w, e.pivotRow, c) && (gf2 ==> Binary(e.g))
    ensures gf2 ==> (SolvesMod2(Pivoted(e, w, c, gf2, r).g, w, x) <==> SolvesMod2(e.g, w, x))
    ensures !gf2 ==> (Solves(Pivoted(e, w, c, gf2, r).g, w, |e.g|, x) <==> Solves(e.g, w, |e.g|, x))
  {
    var pr := e.pivotRow;
    var s := if r != pr then Swapped(e.g, pr, r) else e.g;
    SwapSolutions(e.g, w, pr, r, x);
    SwapKeepsZeroLeft(e.g, w, pr, r, c);
    assert s[pr][c] != 0 && ZeroLeftFrom(s, w, pr, c);
    if gf2 {
      ClearGf2Solutions(s, w, pr, c, x);
    } else {
      ClearIntSolutions(s, w, pr, c, x);
    }
  }

  /** One column of elimination, from a state that keeps the elimination
      invariant, keeps the solutions. */
  lemma StepSolutions(e: Elim, w: nat, c: nat, gf2: bool, x: seq<int>)
    requires c + 1 < w && ElimInv(e, |e.g|, w, c, gf2) && |x| == w - 1
    ensures gf2 ==> (SolvesMod2(ElimStep(e, w, c, gf2).g, w, x) <==> SolvesMod2(e.g, w, x))
    ensures !gf2 ==> (Solves(ElimStep(e, w, c, gf2).g, w, |e.g|, x) <==> Solves(e.g, w, |e.g|, x))
  {
    var found := FindPivot(e.g, w, c, e.pivotRow);
    if found.Some? {
      InvBeforeColumn(e, w, c, gf2);
      PivotedSolutions(e, w, c, gf2, found.value, x);
    }
  }

  /** Elimination over the first `n` columns keeps the solutions: the
      integer solutions for the fraction-free method, the solutions modulo
      2 over GF(2). */
  lemma {:induction false} EliminateSolutions(g: Matrix, w: nat, n: nat, gf2: bool, x: seq<int>)
    requires IsGrid(g, |g|, w) && n < w && |x| == w - 1 && (gf2 ==> Binary(g))
    ensures IsGrid(Eliminate(g, w, n, gf2).g, |g|, w)
    ensures gf2 ==> (SolvesMod2(Eliminate(g, w, n, gf2).g, w, x) <==> SolvesMod2(g, w, x))
    ensures !gf2 ==> (Solves(Eliminate(g, w, n, gf2).g, w, |g|, x) <==> Solves(g, w, |g|, x))
    decreases n
  {
    EliminateShape(g, w, n, gf2);
    if n > 0 {
      var c := n - 1;
      EliminateSolutions(g, w, c, gf2, x);
      EliminateFacts(g, w, c, gf2);
      var e := Eliminate(g, w, c, gf2);
      assert Eliminate(g, w, n, gf2) == if e.pivotRow >= |g| then e else ElimStep(e, w, c, gf2);
      if e.pivotRow < |g| {
        StepSolutions(e, w, c, gf2, x);
      }
    }
  }

  /** The lights' matrix is binary. */
  lemma LightMatrixBinary(m: Machine)
    ensures Binary(LightMatrix(m))
  {
  }

  /** Part B's elimination of the counters' matrix keeps exactly the
      integer press counts that reach the wanted values. */
  lemma VoltageEliminationSolutions(m: Machine, x: seq<int>)
    requires |x| == |m.buttons|
    ensures var w := |m.buttons| + 1;
      Solves(Eliminated(VoltageMatrix(m), w, false).g, w, |m.voltages|, x) <==> Solves(VoltageMatrix(m), w, |m.voltages|, x)
  {
    EliminateSolutions(VoltageMatrix(m), |m.buttons| + 1, |m.buttons|, false, x);
  }

  /** Part A's elimination of the lights' matrix keeps exactly the press
      counts whose parities switch on the wanted lights. */
  lemma LightEliminationSolutions(m: Machine, x: seq<int>)
    requires |x| == |m.buttons|
    ensures var w := |m.buttons| + 1;
      SolvesMod2(Eliminated(LightMatrix(m), w, true).g, w, x) <==> SolvesMod2(LightMatrix(m), w, x)
  {
    LightMatrixBinary(m);
    EliminateSolutions(LightMatrix(m), |m.buttons| + 1, |m.buttons|, true, x);
  }
}
