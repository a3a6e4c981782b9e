/** Day 10: machines with indicator lights, buttons and counters.  Each
    button toggles some lights (part A) or adds one to some counters
    (part B).  Both parts build an augmented matrix `[A | b]` whose column
    `c` is button `c`, bring it to echelon form by Gaussian elimination
    (over GF(2) for the lights, fraction-free over the integers for the
    counters), and search the free variables for the fewest presses. */
module Day10 {
  import opened Wrappers
  import opened Grid
  import opened RustInt

  /** A machine as parsed from its line: the wanted pattern of the lights,
      the buttons (each the list of the light or counter indices it acts
      on) and the wanted counter values. */
  datatype Machine = Machine(lights: seq<bool>, buttons: seq<seq<int>>, voltages: seq<int>)

  type Matrix = seq<seq<int>>

  const I64_MAX: int := 0x7FFF_FFFF_FFFF_FFFF
  const USIZE_MAX: int := 0xFFFF_FFFF_FFFF_FFFF

  const NO_SOLUTION := "No solution for machine"
  const UNWRAP_NONE := "called `Option::unwrap()` on a `None` value"
  const NOT_POSITIVE := "assertion failed: presses > 0"

  // ------------------------------------------------------------ matrices

  /** Button `c` lists index `r`. */
  predicate Lists(buttons: seq<seq<int>>, c: nat, r: nat)
    requires c < |buttons|
  {
    r as int in buttons[c]
  }

  /** The coefficient of button `c` in row `r`. */
  function Coefficient(buttons: seq<seq<int>>, r: nat, c: nat): int
    requires c < |buttons|
  {
    if Lists(buttons, c, r) then 1 else 0
  }

  /** `[A | b]` for the lights: `A[r][c]` is 1 iff button `c` lists light
      `r`, and `b[r]` is 1 iff light `r` is to be on. */
  function LightMatrix(m: Machine): (g: Matrix)
    ensures IsGrid(g, |m.lights|, |m.buttons| + 1)
  {
    seq(|m.lights|, r requires 0 <= r < |m.lights| =>
      seq(|m.buttons| + 1, c requires 0 <= c < |m.buttons| + 1 =>
        if c < |m.buttons| then Coefficient(m.buttons, r, c) else if m.lights[r] then 1 else 0))
  }

  /** `[A | b]` for the counters: `A[r][c]` is 1 iff button `c` lists
      counter `r`, and `b[r]` is the wanted value of counter `r`. */
  function VoltageMatrix(m: Machine): (g: Matrix)
    ensures IsGrid(g, |m.voltages|, |m.buttons| + 1)
  {
    seq(|m.voltages|, r requires 0 <= r < |m.voltages| =>
      seq(|m.buttons| + 1, c requires 0 <= c < |m.buttons| + 1 =>
        if c < |m.buttons| then Coefficient(m.buttons, r, c) else m.voltages[r]))
  }

  /** The coefficient loops: `matrix[(idx, c)] = 1` for every index `idx`
      of button `c` that is a row of the matrix; other indices are
      skipped. */
  method MarkButtons(a: array2<int>, buttons: seq<seq<int>>)
    requires |buttons| <= a.Length1
    modifies a
    ensures forall r, c :: 0 <= r < a.Length0 && 0 <= c < a.Length1 ==>
              a[r, c] == if c < |buttons| && Lists(buttons, c, r) then 1 else old(a[r, c])
  {
    for c := 0 to |buttons|
      invariant forall r, k :: 0 <= r < a.Length0 && 0 <= k < a.Length1 ==>
                  a[r, k] == if k < c && Lists(buttons, k, r) then 1 else old(a[r, k])
    {
      var button := buttons[c];
      for j := 0 to |button|
        invariant forall r, k :: 0 <= r < a.Length0 && 0 <= k < a.Length1 ==>
                    a[r, k] == if (k < c && Lists(buttons, k, r)) || (k == c && r as int in button[..j]) then 1 else old(a[r, k])
      {
        var idx := button[j];
        assert button[..j + 1] == button[..j] + [idx];
        if idx >= 0 && idx < a.Length0 {
          a[idx, c] := 1;
        }
      }
      assert button[..|button|] == button;
    }
  }

  /** `find_optimal_button_presses_count`'s matrix. */
  method BuildLightMatrix(m: Machine) returns (a: array2<int>)
    ensures fresh(a) && a.Length0 == |m.lights| && a.Length1 == |m.buttons| + 1
    ensures Snapshot(a) == LightMatrix(m)
  {
    var rows, cols := |m.lights|, |m.buttons|;
    a := new int[rows, cols + 1]((_, _) => 0);
    MarkButtons(a, m.buttons);
    for r := 0 to rows
      invariant forall i, k :: 0 <= i < rows && 0 <= k < cols + 1 ==>
                  a[i, k] == if k < cols then Coefficient(m.buttons, i, k)
                             else if i < r then (if m.lights[i] then 1 else 0) else 0
    {
      a[r, cols] := if m.lights[r] then 1 else 0;
    }
    GridExt(Snapshot(a), LightMatrix(m), rows, cols + 1);
  }

  /** `find_optimal_button_presses_for_voltage`'s matrix: the coefficient
      matrix, then a copy of it with the counter values appended. */
  method BuildVoltageMatrix(m: Machine) returns (a: array2<int>)
    ensures fresh(a) && a.Length0 == |m.voltages| && a.Length1 == |m.buttons| + 1
    ensures Snapshot(a) == VoltageMatrix(m)
  {
    var rows, cols := |m.voltages|, |m.buttons|;
    var coeff := new int[rows, cols]((_, _) => 0);
    MarkButtons(coeff, m.buttons);
    a := new int[rows, cols + 1]((_, _) => 0);
    for r := 0 to rows
      invariant forall i, k :: 0 <= i < rows && 0 <= k < cols ==> coeff[i, k] == Coefficient(m.buttons, i, k)
      invariant forall i, k :: 0 <= i < rows && 0 <= k < cols + 1 ==>
                  a[i, k] == if i < r then VoltageMatrix(m)[i][k] else 0
    {
      for c := 0 to cols
        invariant forall i, k :: 0 <= i < rows && 0 <= k < cols ==> coeff[i, k] == Coefficient(m.buttons, i, k)
        invariant forall i, k :: 0 <= i < rows && 0 <= k < cols + 1 ==>
                    a[i, k] == if i < r || (i == r && k < c) then VoltageMatrix(m)[i][k] else 0
      {
        a[r, c] := coeff[r, c];
      }
      a[r, cols] := m.voltages[r];
    }
    GridExt(Snapshot(a), VoltageMatrix(m), rows, cols + 1);
  }

  // ---------------------------------------------------------- elimination

  /** Rust's `^` on signed integers: bitwise exclusive or in two's
      complement, where `!a == -1 - a`. */
  function Xor(a: int, b: int): (r: int)
    ensures (a == 0 || a == 1) && (b == 0 || b == 1) ==> r == if a == b then 0 else 1
  {
    if a >= 0 && b >= 0 then XorNat(a, b)
    else if a < 0 && b < 0 then XorNat(-1 - a, -1 - b)
    else if a < 0 then -1 - XorNat(-1 - a, b)
    else -1 - XorNat(a, -1 - b)
  }

  function XorNat(a: nat, b: nat): nat
    decreases a + b
  {
    if a == 0 then b
    else if b == 0 then a
    else 2 * XorNat(a / 2, b / 2) + (if a % 2 == b % 2 then 0 else 1)
  }

  /** Every entry of `g` is 0 or 1. */
  predicate Binary(g: Matrix)
  {
    forall i, k :: 0 <= i < |g| && 0 <= k < |g[i]| ==> g[i][k] == 0 || g[i][k] == 1
  }

  /** The `find` over rows `from..`: the first row whose entry in column
      `c` is nonzero. */
  function FindPivot(g: Matrix, w: nat, c: nat, from: nat): (r: Option<nat>)
    requires IsGrid(g, |g|, w) && c < w
    decreases |g| - from
    ensures r.Some? ==> from <= r.value < |g| && g[r.value][c] != 0
  {
    if from >= |g| then None
    else if g[from][c] != 0 then Some(from)
    else FindPivot(g, w, c, from + 1)
  }

  /** No row from `from` up to the pivot found (or to the end, when none
      is) has a nonzero entry in column `c`. */
  lemma {:induction false} FindPivotSkips(g: Matrix, w: nat, c: nat, from: nat)
    requires IsGrid(g, |g|, w) && c < w
    ensures FindPivot(g, w, c, from).Some? ==> forall i :: from <= i < FindPivot(g, w, c, from).value ==> g[i][c] == 0
    ensures FindPivot(g, w, c, from).None? ==> forall i :: from <= i < |g| ==> g[i][c] == 0
    decreases |g| - from
  {
    if from < |g| && g[from][c] == 0 {
      FindPivotSkips(g, w, c, from + 1);
    }
  }

  /** Rows `i` and `j` exchanged. */
  function Swapped(g: Matrix, i: nat, j: nat): (h: Matrix)
    requires i < |g| && j < |g|
    ensures |h| == |g| && h[i] == g[j] && h[j] == g[i]
  {
    g[i := g[j]][j := g[i]]
  }

  /** `row[k] ^= prow[k]` for every `k >= c`. */
  function XorFrom(row: seq<int>, prow: seq<int>, c: nat): (r: seq<int>)
    requires |prow| == |row|
    ensures |r| == |row|
  {
    seq(|row|, k requires 0 <= k < |row| => if k < c then row[k] else Xor(row[k], prow[k]))
  }

  /** `row[k] = row[k] * pv - prow[k] * factor` for every `k >= c`. */
  function CombineFrom(row: seq<int>, prow: seq<int>, c: nat, pv: int, factor: int): (r: seq<int>)
    requires |prow| == |row|
    ensures |r| == |row|
  {
    seq(|row|, k requires 0 <= k < |row| => if k < c then row[k] else row[k] * pv - prow[k] * factor)
  }

  /** The GF(2) step: every other row holding 1 in column `c` has the
      pivot row xor-ed into it from column `c` on. */
  function ClearGf2(g: Matrix, w: nat, p: nat, c: nat): (h: Matrix)
    requires IsGrid(g, |g|, w) && p < |g| && c < w
    ensures IsGrid(h, |g|, w)
  {
    seq(|g|, r requires 0 <= r < |g| => if r != p && g[r][c] == 1 then XorFrom(g[r], g[p], c) else g[r])
  }

  /** The fraction-free integer step: every row below the pivot row with a
      nonzero entry `f` in column `c` becomes `row * pv - prow * f` from
      column `c` on, where `pv` is the pivot entry. */
  function ClearInt(g: Matrix, w: nat, p: nat, c: nat): (h: Matrix)
    requires IsGrid(g, |g|, w) && p < |g| && c < w
    ensures IsGrid(h, |g|, w)
  {
    seq(|g|, r requires 0 <= r < |g| =>
      if r > p && g[r][c] != 0 then CombineFrom(g[r], g[p], c, g[p][c], g[r][c]) else g[r])
  }

  /** The state of `perform_elimination` between columns. */
  datatype Elim = Elim(g: Matrix, pivotRow: nat, pivots: map<nat, nat>)

  /** One column of `perform_elimination`. */
  function ElimStep(e: Elim, w: nat, c: nat, gf2: bool): (e': Elim)
    requires IsGrid(e.g, |e.g|, w) && c < w
    ensures IsGrid(e'.g, |e.g|, w)
  {
    match FindPivot(e.g, w, c, e.pivotRow)
    case None => e
    case Some(r) => Pivoted(e, w, c, gf2, r)
  }

  /** Column `c` with its pivot in row `r`: that row swapped up into the
      next pivot row, the column cleared, and the pivot recorded. */
  function Pivoted(e: Elim, w: nat, c: nat, gf2: bool, r: nat): (e': Elim)
    requires IsGrid(e.g, |e.g|, w) && c < w && e.pivotRow <= r < |e.g|
    ensures IsGrid(e'.g, |e.g|, w)
  {
    var s := if r != e.pivotRow then Swapped(e.g, e.pivotRow, r) else e.g;
    var h := if gf2 then ClearGf2(s, w, e.pivotRow, c) else ClearInt(s, w, e.pivotRow, c);
    Elim(h, e.pivotRow + 1, e.pivots[c := e.pivotRow])
  }

  /** `perform_elimination` over the first `n` columns, stopping once every
      row is a pivot row. */
  function Eliminate(g: Matrix, w: nat, n: nat, gf2: bool): Elim
    requires IsGrid(g, |g|, w) && n < w
    decreases n, 0
  {
    if n == 0 then Elim(g, 0, map[]) else Column(g, w, n - 1, gf2)
  }

  /** The elimination through column `c`: column `c` on top of the
      elimination of the columns before it, unless every row is already a
      pivot row. */
  function Column(g: Matrix, w: nat, c: nat, gf2: bool): Elim
    requires IsGrid(g, |g|, w) && c + 1 < w
    decreases c, 2
  {
    var e := Eliminate(g, w, c, gf2);
    EliminateShape(g, w, c, gf2);
    if e.pivotRow >= |g| then e else ElimStep(e, w, c, gf2)
  }

  /** Elimination keeps the shape of the matrix, and the pivot rows are
      rows of it. */
  lemma {:induction false} EliminateShape(g: Matrix, w: nat, n: nat, gf2: bool)
    requires IsGrid(g, |g|, w) && n < w
    ensures IsGrid(Eliminate(g, w, n, gf2).g, |g|, w) && Eliminate(g, w, n, gf2).pivotRow <= |g|
    decreases n, 1
  {
    if n > 0 {
      EliminateShape(g, w, n - 1, gf2);
      var e := Eliminate(g, w, n - 1, gf2);
      assert Eliminate(g, w, n, gf2) == Column(g, w, n - 1, gf2);
      if e.pivotRow < |g| {
        var found := FindPivot(e.g, w, n - 1, e.pivotRow);
      }
    }
  }

  /** The elimination over every coefficient column, with its shape. */
  function Eliminated(g: Matrix, w: nat, gf2: bool): (e: Elim)
    requires IsGrid(g, |g|, w) && w >= 1
    ensures IsGrid(e.g, |g|, w) && e.pivotRow <= |g|
    ensures e == Eliminate(g, w, w - 1, gf2)
  {
    EliminateShape(g, w, w - 1, gf2);
    Eliminate(g, w, w - 1, gf2)
  }

  /** Once every row is a pivot row the remaining columns change nothing,
      which is why the loop may `break`. */
  lemma {:induction false} EliminateSaturated(g: Matrix, w: nat, n: nat, m: nat, gf2: bool)
    requires IsGrid(g, |g|, w) && n <= m < w
    requires n == m || Eliminate(g, w, n, gf2).pivotRow >= |g|
    ensures Eliminate(g, w, m, gf2) == Eliminate(g, w, n, gf2)
    decreases m
  {
    if m > n {
      EliminateSaturated(g, w, n, m - 1, gf2);
    }
  }

  /** The row swap loop. */
  method SwapRows(a: array2<int>, i: nat, j: nat)
    requires i < a.Length0 && j < a.Length0
    modifies a
    ensures Snapshot(a) == Swapped(old(Snapshot(a)), i, j)
  {
    ghost var g := Snapshot(a);
    for k := 0 to a.Length1
      invariant forall r, q :: 0 <= r < a.Length0 && 0 <= q < a.Length1 ==>
                  a[r, q] == if q < k then Swapped(g, i, j)[r][q] else g[r][q]
    {
      var temp := a[i, k];
      a[i, k] := a[j, k];
      a[j, k] := temp;
    }
    GridExt(Snapshot(a), Swapped(g, i, j), a.Length0, a.Length1);
  }

  /** The GF(2) elimination loop for pivot row `p` and column `c`. */
  method ClearColumnGf2(a: array2<int>, p: nat, c: nat)
    requires p < a.Length0 && c < a.Length1
    modifies a
    ensures Snapshot(a) == ClearGf2(old(Snapshot(a)), a.Length1, p, c)
  {
    ghost var g := Snapshot(a);
    ghost var h := ClearGf2(g, a.Length1, p, c);
    for r := 0 to a.Length0
      invariant forall i, q :: 0 <= i < a.Length0 && 0 <= q < a.Length1 ==>
                  a[i, q] == if i < r then h[i][q] else g[i][q]
    {
      if r != p && a[r, c] == 1 {
        for k := c to a.Length1
          invariant forall i, q :: 0 <= i < a.Length0 && 0 <= q < a.Length1 ==>
                      a[i, q] == if i < r || (i == r && q < k) then h[i][q] else g[i][q]
        {
          a[r, k] := Xor(a[r, k], a[p, k]);
        }
      }
    }
    GridExt(Snapshot(a), h, a.Length0, a.Length1);
  }

  /** The integer elimination loop for pivot row `p` and column `c`. */
  method ClearColumnInt(a: array2<int>, p: nat, c: nat)
    requires p < a.Length0 && c < a.Length1
    modifies a
    ensures Snapshot(a) == ClearInt(old(Snapshot(a)), a.Length1, p, c)
  {
    ghost var g := Snapshot(a);
    ghost var h := ClearInt(g, a.Length1, p, c);
    var pivotVal := a[p, c];
    for r := p + 1 to a.Length0
      invariant forall i, q :: 0 <= i < a.Length0 && 0 <= q < a.Length1 ==>
                  a[i, q] == if p < i < r then h[i][q] else g[i][q]
    {
      if a[r, c] != 0 {
        var factor := a[r, c];
        for k := c to a.Length1
          invariant forall i, q :: 0 <= i < a.Length0 && 0 <= q < a.Length1 ==>
                      a[i, q] == if (p < i < r) || (i == r && q < k) then h[i][q] else g[i][q]
        {
          a[r, k] := a[r, k] * pivotVal - a[p, k] * factor;
        }
      }
    }
    GridExt(Snapshot(a), h, a.Length0, a.Length1);
  }

  /** One column of `perform_elimination`: find the pivot, swap it up,
      clear the column and record the pivot. */
  method EliminateColumn(a: array2<int>, c: nat, pivotRow: nat, pivots: map<nat, nat>, gf2: bool)
    returns (pivotRow': nat, pivots': map<nat, nat>)
    requires c < a.Length1 && pivotRow < a.Length0
    modifies a
    ensures Elim(Snapshot(a), pivotRow', pivots') == ElimStep(Elim(old(Snapshot(a)), pivotRow, pivots), a.Length1, c, gf2)
  {
    ghost var g := Snapshot(a);
    var r := pivotRow;
    while r < a.Length0 && a[r, c] == 0
      invariant pivotRow <= r <= a.Length0
      invariant FindPivot(g, a.Length1, c, r) == FindPivot(g, a.Length1, c, pivotRow)
    {
      r := r + 1;
    }
    pivotRow', pivots' := pivotRow, pivots;
    if r < a.Length0 {
      if r != pivotRow {
        SwapRows(a, pivotRow, r);
      }
      if gf2 {
        ClearColumnGf2(a, pivotRow, c);
      } else {
        ClearColumnInt(a, pivotRow, c);
      }
      pivots' := pivots[c := pivotRow];
      pivotRow' := pivotRow + 1;
    }
  }

  /** `perform_elimination`: the matrix in place, and the map from each
      pivot column to its pivot row. */
  method PerformElimination(a: array2<int>, gf2: bool) returns (pivots: map<nat, nat>)
    requires a.Length1 >= 1
    modifies a
    ensures Snapshot(a) == Eliminate(old(Snapshot(a)), a.Length1, a.Length1 - 1, gf2).g
    ensures pivots == Eliminate(old(Snapshot(a)), a.Length1, a.Length1 - 1, gf2).pivots
  {
    ghost var pivotRow;
    pivotRow, pivots := EliminateColumns(a, Snapshot(a), gf2);
  }

  /** The column loop of `perform_elimination`, from the matrix `g0`. */
  method EliminateColumns(a: array2<int>, ghost g0: Matrix, gf2: bool) returns (pivotRow: nat, pivots: map<nat, nat>)
    requires a.Length1 >= 1 && g0 == Snapshot(a)
    modifies a
    ensures Eliminate(g0, a.Length1, a.Length1 - 1, gf2) == Elim(Snapshot(a), pivotRow, pivots)
  {
    var rows, cols := a.Length0, a.Length1 - 1;
    pivotRow := 0;
    pivots := map[];
    var c := 0;
    while c < cols
      invariant 0 <= c <= cols
      invariant Eliminate(g0, a.Length1, c, gf2) == Elim(Snapshot(a), pivotRow, pivots)
    {
      if pivotRow >= rows {
        break;
      }
      pivotRow, pivots := EliminateNext(a, g0, c, pivotRow, pivots, gf2);
      c := c + 1;
    }
    EliminationDone(g0, a.Length1, c, gf2, Snapshot(a), pivotRow, pivots);
  }

  /** The column loop of `perform_elimination` ends with every column
      processed or every row a pivot row; either way its state is the
      elimination of all coefficient columns. */
  lemma EliminationDone(g: Matrix, w: nat, c: nat, gf2: bool, s: Matrix, pr: nat, pivots: map<nat, nat>)
    requires IsGrid(g, |g|, w) && c < w
    requires Eliminate(g, w, c, gf2) == Elim(s, pr, pivots)
    requires c == w - 1 || pr >= |g|
    ensures Eliminate(g, w, w - 1, gf2) == Elim(s, pr, pivots)
  {
    EliminateSaturated(g, w, c, w - 1, gf2);
  }

  /** One pass of the column loop before every row is a pivot row. */
  method EliminateNext(a: array2<int>, ghost g0: Matrix, c: nat, pivotRow: nat, pivots: map<nat, nat>, gf2: bool)
    returns (pivotRow': nat, pivots': map<nat, nat>)
    requires c + 1 < a.Length1 && pivotRow < a.Length0 && IsGrid(g0, |g0|, a.Length1)
    requires Eliminate(g0, a.Length1, c, gf2) == Elim(Snapshot(a), pivotRow, pivots)
    modifies a
    ensures Eliminate(g0, a.Length1, c + 1, gf2) == Elim(Snapshot(a), pivotRow', pivots')
  {
    ghost var e := Eliminate(g0, a.Length1, c, gf2);
    EliminateShape(g0, a.Length1, c, gf2);
    pivotRow', pivots' := EliminateColumn(a, c, pivotRow, pivots, gf2);
    assert Elim(Snapshot(a), pivotRow', pivots') == ElimStep(e, a.Length1, c, gf2);
  }

  // ------------------------------------------------- what elimination keeps

  /** The pivot columns below `n` in increasing order. */
  function PivotColumns(pivots: map<nat, nat>, n: nat): (cs: seq<nat>)
    ensures forall i :: 0 <= i < |cs| ==> cs[i] < n && cs[i] in pivots
  {
    if n == 0 then []
    else PivotColumns(pivots, n - 1) + (if n - 1 in pivots then [n - 1] else [])
  }

  /** Every key below `n` is a pivot column below `n`. */
  lemma {:induction false} PivotColumnsMembers(pivots: map<nat, nat>, n: nat)
    ensures forall k :: 0 <= k < n && k in pivots ==> k in PivotColumns(pivots, n)
  {
    if n > 0 {
      PivotColumnsMembers(pivots, n - 1);
    }
  }

  /** Maps agreeing on which columns below `n` are keys have the same
      pivot columns below `n`. */
  lemma {:induction false} PivotColumnsAgree(p: map<nat, nat>, q: map<nat, nat>, n: nat)
    requires forall k :: 0 <= k < n ==> (k in p <==> k in q)
    ensures PivotColumns(p, n) == PivotColumns(q, n)
  {
    if n > 0 {
      PivotColumnsAgree(p, q, n - 1);
    }
  }

  /** The pivot map of the first `n` columns with `pr` pivot rows: every
      key is a column below `n` mapped to a row below `pr`, pivot rows grow
      with the columns, and listing the pivot columns in increasing order
      gives rows 0, 1, 2, ... `pr - 1`. */
  predicate WellFormed(pivots: map<nat, nat>, n: nat, pr: nat)
  {
    && (forall k :: k in pivots ==> k < n && pivots[k] < pr)
    && (forall c1, c2 :: c1 in pivots && c2 in pivots && c1 < c2 ==> pivots[c1] < pivots[c2])
    && |pivots| == pr
    && |PivotColumns(pivots, n)| == pr
    && (forall i :: 0 <= i < |PivotColumns(pivots, n)| ==> pivots[PivotColumns(pivots, n)[i]] == i)
  }

  /** `cs` lists pivot columns below `n`, at most one per row. */
  predicate PivotsIn(cs: seq<nat>, rows: nat, n: nat)
  {
    |cs| <= rows && forall i :: 0 <= i < |cs| ==> cs[i] < n
  }

  /** Rows below the pivot rows are zero in the processed columns. */
  predicate Cleared(g: Matrix, w: nat, n: nat, cs: seq<nat>)
    requires IsGrid(g, |g|, w) && n <= w
  {
    forall r, k :: |cs| <= r < |g| && 0 <= k < n ==> g[r][k] == 0
  }

  /** Row `i` is nonzero in its pivot column `cs[i]`. */
  predicate PivotEntries(g: Matrix, w: nat, cs: seq<nat>)
    requires IsGrid(g, |g|, w) && PivotsIn(cs, |g|, w)
  {
    forall i :: 0 <= i < |cs| ==> g[i][cs[i]] != 0
  }

  /** Row `i` is zero left of its pivot column. */
  predicate LeadingZeros(g: Matrix, w: nat, cs: seq<nat>)
    requires IsGrid(g, |g|, w) && PivotsIn(cs, |g|, w)
  {
    forall i, q :: 0 <= i < |cs| && 0 <= q < cs[i] ==> g[i][q] == 0
  }

  /** Each pivot column is zero below its pivot row. */
  predicate ZeroBelowPivots(g: Matrix, w: nat, cs: seq<nat>)
    requires IsGrid(g, |g|, w) && PivotsIn(cs, |g|, w)
  {
    forall i, r :: 0 <= i < |cs| && i < r < |g| ==> g[r][cs[i]] == 0
  }

  /** Each pivot column is zero outside its pivot row. */
  predicate ZeroOffPivots(g: Matrix, w: nat, cs: seq<nat>)
    requires IsGrid(g, |g|, w) && PivotsIn(cs, |g|, w)
  {
    forall i, r :: 0 <= i < |cs| && 0 <= r < |g| && r != i ==> g[r][cs[i]] == 0
  }

  /** Row echelon form over the processed columns, and over GF(2) a binary
      matrix whose pivot columns are unit columns. */
  predicate Echelon(g: Matrix, w: nat, n: nat, cs: seq<nat>, gf2: bool)
    requires IsGrid(g, |g|, w) && n <= w && PivotsIn(cs, |g|, n)
  {
    && Cleared(g, w, n, cs)
    && PivotEntries(g, w, cs)
    && LeadingZeros(g, w, cs)
    && ZeroBelowPivots(g, w, cs)
    && (gf2 ==> Binary(g) && ZeroOffPivots(g, w, cs))
  }

  /** Exchanging the next pivot row with a later row keeps the form. */
  lemma {:induction false} SwapKeepsEchelon(g: Matrix, w: nat, c: nat, cs: seq<nat>, gf2: bool, r: nat)
    requires IsGrid(g, |g|, w) && c <= w && PivotsIn(cs, |g|, c)
    requires Echelon(g, w, c, cs, gf2) && |cs| <= r < |g|
    ensures IsGrid(Swapped(g, |cs|, r), |g|, w)
    ensures Echelon(Swapped(g, |cs|, r), w, c, cs, gf2)
  {
    var s := Swapped(g, |cs|, r);
    assert forall i :: 0 <= i < |cs| ==> s[i] == g[i];
    assert forall i :: |cs| <= i < |g| ==> s[i] == g[i] || s[i] == g[|cs|] || s[i] == g[r];
  }

  /** What the GF(2) step does to a binary matrix whose pivot entry is
      nonzero: columns left of `c` and the pivot row stay, the matrix stays
      binary and column `c` is zero outside the pivot row. */
  lemma {:induction false} ClearGf2Facts(s: Matrix, w: nat, p: nat, c: nat)
    requires IsGrid(s, |s|, w) && p < |s| && c < w
    requires Binary(s) && s[p][c] != 0
    ensures forall i, q :: 0 <= i < |s| && 0 <= q < c ==> ClearGf2(s, w, p, c)[i][q] == s[i][q]
    ensures ClearGf2(s, w, p, c)[p] == s[p]
    ensures forall i :: 0 <= i < |s| && i != p ==> ClearGf2(s, w, p, c)[i][c] == 0
    ensures Binary(ClearGf2(s, w, p, c))
  {
    var h := ClearGf2(s, w, p, c);
    assert s[p][c] == 1;
    forall i, q | 0 <= i < |s| && 0 <= q < w
      ensures h[i][q] == 0 || h[i][q] == 1
      ensures q < c ==> h[i][q] == s[i][q]
    {
    }
  }

  /** The GF(2) step on pivot row `|cs|` and column `c`. */
  lemma {:induction false} ClearGf2KeepsEchelon(s: Matrix, w: nat, c: nat, cs: seq<nat>)
    requires IsGrid(s, |s|, w) && c < w && PivotsIn(cs, |s|, c) && |cs| < |s|
    requires Echelon(s, w, c, cs, true) && s[|cs|][c] != 0
    ensures PivotsIn(cs + [c], |s|, c + 1)
    ensures Echelon(ClearGf2(s, w, |cs|, c), w, c + 1, cs + [c], true)
  {
    ClearGf2Facts(s, w, |cs|, c);
    EchelonAfterGf2(s, ClearGf2(s, w, |cs|, c), w, c, cs);
  }

  lemma {:induction false} EchelonAfterGf2(s: Matrix, h: Matrix, w: nat, c: nat, cs: seq<nat>)
    requires IsGrid(s, |s|, w) && IsGrid(h, |s|, w) && c < w && PivotsIn(cs, |s|, c) && |cs| < |s|
    requires Echelon(s, w, c, cs, true) && s[|cs|][c] != 0
    requires forall i, q :: 0 <= i < |s| && 0 <= q < c ==> h[i][q] == s[i][q]
    requires h[|cs|] == s[|cs|]
    requires forall i :: 0 <= i < |s| && i != |cs| ==> h[i][c] == 0
    requires Binary(h)
    ensures PivotsIn(cs + [c], |s|, c + 1)
    ensures Echelon(h, w, c + 1, cs + [c], true)
  {
    var cs' := cs + [c];
    assert forall i :: 0 <= i < |cs| ==> cs'[i] == cs[i];
  }

  /** The integer step on pivot row `|cs|` and column `c`. */
  lemma {:induction false} ClearIntKeepsEchelon(s: Matrix, w: nat, c: nat, cs: seq<nat>)
    requires IsGrid(s, |s|, w) && c < w && PivotsIn(cs, |s|, c) && |cs| < |s|
    requires Echelon(s, w, c, cs, false) && s[|cs|][c] != 0
    ensures PivotsIn(cs + [c], |s|, c + 1)
    ensures Echelon(ClearInt(s, w, |cs|, c), w, c + 1, cs + [c], false)
  {
    var p, h, cs' := |cs|, ClearInt(s, w, |cs|, c), cs + [c];
    assert forall i :: 0 <= i < |cs| ==> cs'[i] == cs[i];
    assert PivotsIn(cs', |s|, c + 1);
    assert Cleared(h, w, c + 1, cs') by {
      ClearIntFacts(s, w, p, c);
    }
    assert PivotEntries(h, w, cs') by {
      ClearIntFacts(s, w, p, c);
    }
    assert LeadingZeros(h, w, cs') by {
      ClearIntFacts(s, w, p, c);
    }
    assert ZeroBelowPivots(h, w, cs') by {
      ClearIntFacts(s, w, p, c);
    }
  }

  /** The integer step on pivot row `p` and column `c` keeps the columns
      left of `c` and the rows up to `p`, and zeroes column `c` below `p`. */
  lemma {:induction false} ClearIntFacts(s: Matrix, w: nat, p: nat, c: nat)
    requires IsGrid(s, |s|, w) && p < |s| && c < w
    ensures forall i, q :: 0 <= i < |s| && 0 <= q < c ==> ClearInt(s, w, p, c)[i][q] == s[i][q]
    ensures forall i :: 0 <= i <= p ==> ClearInt(s, w, p, c)[i] == s[i]
    ensures forall i :: p < i < |s| ==> ClearInt(s, w, p, c)[i][c] == 0
  {
    var h := ClearInt(s, w, p, c);
    forall i | p < i < |s|
      ensures h[i][c] == 0
    {
      if s[i][c] != 0 {
        assert h[i][c] == s[i][c] * s[p][c] - s[p][c] * s[i][c];
      }
    }
  }

  /** Everything elimination keeps after `n` columns, for a matrix of
      `rows` rows and `w` columns. */
  predicate ElimInv(e: Elim, rows: nat, w: nat, n: nat, gf2: bool)
  {
    && IsGrid(e.g, rows, w) && n <= w && e.pivotRow <= rows
    && WellFormed(e.pivots, n, e.pivotRow)
    && PivotsIn(PivotColumns(e.pivots, n), rows, n)
    && Echelon(e.g, w, n, PivotColumns(e.pivots, n), gf2)
  }

  /** A column without a pivot below the pivot rows leaves the pivots alone
      and extends the cleared part by that column. */
  lemma {:induction false} NoPivotStep(e: Elim, w: nat, c: nat, gf2: bool)
    requires c < w && ElimInv(e, |e.g|, w, c, gf2)
    requires FindPivot(e.g, w, c, e.pivotRow).None?
    ensures ElimInv(e, |e.g|, w, c + 1, gf2)
    ensures ElimStep(e, w, c, gf2) == e
  {
    FindPivotSkips(e.g, w, c, e.pivotRow);
    assert c !in e.pivots;
    var cs := PivotColumns(e.pivots, c);
    assert PivotColumns(e.pivots, c + 1) == cs;
    assert |cs| == e.pivotRow;
    forall r, k | |cs| <= r < |e.g| && 0 <= k < c + 1
      ensures e.g[r][k] == 0
    {
      if k == c {
        assert e.g[r][c] == 0;
      } else {
        assert Cleared(e.g, w, c, cs);
      }
    }
    assert PivotsIn(cs, |e.g|, c + 1);
    assert WellFormed(e.pivots, c + 1, e.pivotRow);
  }

  /** A column with a pivot: the new pivot column is appended, in the next
      pivot row. */
  lemma {:induction false} PivotStep(pivots: map<nat, nat>, c: nat, pr: nat)
    requires WellFormed(pivots, c, pr)
    ensures WellFormed(pivots[c := pr], c + 1, pr + 1)
    ensures PivotColumns(pivots[c := pr], c + 1) == PivotColumns(pivots, c) + [c]
  {
    var p, p' := pivots, pivots[c := pr];
    assert c !in p;
    PivotColumnsAgree(p', p, c);
    var cs := PivotColumns(p, c);
    assert PivotColumns(p', c + 1) == cs + [c];
    assert forall i :: 0 <= i < |cs| ==> p'[cs[i]] == p[cs[i]];
  }

  /** The pivot found in row `r` is swapped up and its column cleared. */
  lemma {:induction false} PivotCase(e: Elim, w: nat, c: nat, gf2: bool, r: nat)
    requires c < w && ElimInv(e, |e.g|, w, c, gf2)
    requires FindPivot(e.g, w, c, e.pivotRow) == Some(r)
    ensures ElimInv(Pivoted(e, w, c, gf2, r), |e.g|, w, c + 1, gf2)
  {
    var pr, cs := e.pivotRow, PivotColumns(e.pivots, c);
    assert |cs| == pr;
    var s := if r != pr then Swapped(e.g, pr, r) else e.g;
    if r != pr {
      SwapKeepsEchelon(e.g, w, c, cs, gf2, r);
    }
    assert IsGrid(s, |e.g|, w) && Echelon(s, w, c, cs, gf2) && s[pr][c] != 0;
    var h := if gf2 then ClearGf2(s, w, pr, c) else ClearInt(s, w, pr, c);
    if gf2 {
      ClearGf2KeepsEchelon(s, w, c, cs);
    } else {
      ClearIntKeepsEchelon(s, w, c, cs);
    }
    assert PivotsIn(cs + [c], |e.g|, c + 1) && Echelon(h, w, c + 1, cs + [c], gf2);
    PivotStep(e.pivots, c, pr);
  }

  /** One column of elimination keeps the invariant. */
  lemma {:induction false} ElimStepFacts(e: Elim, w: nat, c: nat, gf2: bool)
    requires c < w && ElimInv(e, |e.g|, w, c, gf2)
    ensures ElimInv(ElimStep(e, w, c, gf2), |e.g|, w, c + 1, gf2)
  {
    var found := FindPivot(e.g, w, c, e.pivotRow);
    if found.Some? {
      PivotCase(e, w, c, gf2, found.value);
    } else {
      NoPivotStep(e, w, c, gf2);
    }
  }

  /** What `perform_elimination` leaves after the first `n` columns: a well
      formed pivot map, the pivot columns in row order, and the matrix in
      echelon form (reduced, over GF(2), starting from a binary matrix). */
  lemma {:induction false} EliminateFacts(g: Matrix, w: nat, n: nat, gf2: bool)
    requires IsGrid(g, |g|, w) && n < w && (gf2 ==> Binary(g))
    ensures ElimInv(Eliminate(g, w, n, gf2), |g|, w, n, gf2)
    decreases n
  {
    if n > 0 {
      var c := n - 1;
      EliminateFacts(g, w, c, gf2);
      var e := Eliminate(g, w, c, gf2);
      assert |e.g| == |g|;
      assert Eliminate(g, w, n, gf2) == if e.pivotRow >= |g| then e else ElimStep(e, w, c, gf2);
      if e.pivotRow >= |g| {
        assert FindPivot(e.g, w, c, e.pivotRow).None?;
        NoPivotStep(e, w, c, gf2);
      } else {
        ElimStepFacts(e, w, c, gf2);
      }
    }
  }

  // ---------------------------------------------------------- consistency

  /** The first `n` entries of `row` are zero. */
  predicate ZeroCoefficients(row: seq<int>, n: nat)
    requires n <= |row|
  {
    forall k :: 0 <= k < n ==> row[k] == 0
  }

  /** Some row reads `0 = b` with `b != 0`. */
  predicate Contradiction(g: Matrix, w: nat)
    requires IsGrid(g, |g|, w) && w >= 1
  {
    exists r :: 0 <= r < |g| && ZeroCoefficients(g[r], w - 1) && g[r][w - 1] != 0
  }

  /** `check_consistency`: panics iff some row has all coefficients zero
      and a nonzero right-hand side. */
  method CheckConsistency(a: array2<int>) returns (r: Result<()>)
    requires a.Length1 >= 1
    ensures r == if Contradiction(Snapshot(a), a.Length1) then Panic(NO_SOLUTION) else Ok(())
  {
    ghost var g := Snapshot(a);
    var cols := a.Length1 - 1;
    for i := 0 to a.Length0
      invariant forall j :: 0 <= j < i ==> !(ZeroCoefficients(g[j], cols) && g[j][cols] != 0)
    {
      var c := 0;
      while c < cols && a[i, c] == 0
        invariant 0 <= c <= cols
        invariant forall k :: 0 <= k < c ==> g[i][k] == 0
      {
        c := c + 1;
      }
      var allZeros := c == cols;
      assert allZeros <==> ZeroCoefficients(g[i], cols);
      if allZeros && a[i, cols] != 0 {
        return Panic(NO_SOLUTION);
      }
    }
    r := Ok(());
  }

  /** After elimination over every coefficient column the check panics iff
      some row below the last pivot row has a nonzero right-hand side:
      pivot rows have a nonzero coefficient, and the rows below them have
      none. */
  lemma {:induction false} ContradictionAfterElimination(g: Matrix, w: nat, gf2: bool)
    requires IsGrid(g, |g|, w) && w >= 1 && (gf2 ==> Binary(g))
    ensures var e := Eliminated(g, w, gf2);
      Contradiction(e.g, w) <==> exists r :: e.pivotRow <= r < |g| && e.g[r][w - 1] != 0
  {
    var e := Eliminated(g, w, gf2);
    EliminateFacts(g, w, w - 1, gf2);
    var cs := PivotColumns(e.pivots, w - 1);
    assert |cs| == e.pivotRow;
    forall r | 0 <= r < |g|
      ensures ZeroCoefficients(e.g[r], w - 1) <==> r >= e.pivotRow
    {
      if r < e.pivotRow {
        assert PivotEntries(e.g, w, cs);
        assert e.g[r][cs[r]] != 0;
      } else {
        assert Cleared(e.g, w, w - 1, cs);
      }
    }
  }

  // ------------------------------------------------------- free variables

  /** The columns below `n` that are not pivot columns, ascending. */
  function FreeVars(pivots: map<nat, nat>, n: nat): (fs: seq<nat>)
    ensures forall i :: 0 <= i < |fs| ==> fs[i] < n && fs[i] !in pivots
    ensures forall k :: 0 <= k < n && k !in pivots ==> k in fs
  {
    if n == 0 then []
    else FreeVars(pivots, n - 1) + (if n - 1 in pivots then [] else [n - 1])
  }

  /** The free variables are listed in increasing order, so no column is
      listed twice. */
  lemma {:induction false} FreeVarsIncreasing(pivots: map<nat, nat>, n: nat)
    ensures forall i, j :: 0 <= i < j < |FreeVars(pivots, n)| ==> FreeVars(pivots, n)[i] < FreeVars(pivots, n)[j]
  {
    if n > 0 {
      FreeVarsIncreasing(pivots, n - 1);
      var fs := FreeVars(pivots, n - 1);
      assert forall i :: 0 <= i < |fs| ==> FreeVars(pivots, n)[i] == fs[i];
    }
  }

  /** The free-variable filter over the coefficient columns. */
  method FreeVariables(pivots: map<nat, nat>, n: nat) returns (free: seq<nat>)
    ensures free == FreeVars(pivots, n)
  {
    free := [];
    for c := 0 to n
      invariant free == FreeVars(pivots, c)
    {
      if c !in pivots {
        free := free + [c];
      }
    }
  }

  /** Sorting the pivot map's entries by row gives the pivot columns in
      increasing order: every pivot column occurs, once, and rows increase
      along the list. */
  lemma {:induction false} PivotOrderByRow(pivots: map<nat, nat>, n: nat, pr: nat)
    requires WellFormed(pivots, n, pr)
    ensures var cs := PivotColumns(pivots, n);
      && (forall k :: k in pivots ==> k in cs)
      && (forall i, j :: 0 <= i < j < |cs| ==> pivots[cs[i]] < pivots[cs[j]])
      && NoDuplicates(cs)
  {
    PivotColumnsMembers(pivots, n);
  }

  // -------------------------------------------------------- the GF(2) minimum

  /** `(i >> b) & 1`. */
  function Bit(i: nat, b: nat): (r: nat)
    ensures r == 0 || r == 1
  {
    if b == 0 then i % 2 else Bit(i / 2, b - 1)
  }

  /** The loop setting `x[free[b]] = 1` for every set bit `b` of `i`, from
      bit `b` on. */
  function AssignFree(x: seq<int>, free: seq<nat>, i: nat, b: nat): (y: seq<int>)
    requires b <= |free| && forall j :: 0 <= j < |free| ==> free[j] < |x|
    ensures |y| == |x|
    decreases |free| - b
  {
    if b == |free| then x
    else AssignFree(if Bit(i, b) == 1 then x[free[b] := 1] else x, free, i, b + 1)
  }

  /** The parity accumulated by `sum ^= 1` over the columns `lo..hi` where
      both the row and `x` hold 1. */
  function Parity(row: seq<int>, x: seq<int>, lo: nat, hi: nat): (s: int)
    requires hi <= |row| && hi <= |x|
    ensures s == 0 || s == 1
    decreases hi
  {
    if hi <= lo then 0
    else
      var s := Parity(row, x, lo, hi - 1);
      if row[hi - 1] == 1 && x[hi - 1] == 1 then Xor(s, 1) else s
  }

  /** `order` lists pivot columns below `n` whose rows exist in `g`. */
  predicate PivotOrder(g: Matrix, pivots: map<nat, nat>, order: seq<nat>, n: nat)
  {
    forall i :: 0 <= i < |order| ==> order[i] < n && order[i] in pivots && pivots[order[i]] < |g|
  }

  /** GF(2) back-substitution over `order`, last pivot first:
      `x[p] = b[r] ^ parity`, where `r` is the pivot row of column `p`. */
  function BackSubGf2(g: Matrix, w: nat, pivots: map<nat, nat>, order: seq<nat>, x: seq<int>): (y: seq<int>)
    requires IsGrid(g, |g|, w) && w >= 1 && |x| == w - 1 && PivotOrder(g, pivots, order, w - 1)
    ensures |y| == |x|
    decreases |order|
  {
    if order == [] then x
    else
      var p := order[|order| - 1];
      var r := pivots[p];
      BackSubGf2(g, w, pivots, order[..|order| - 1], x[p := Xor(g[r][w - 1], Parity(g[r], x, p + 1, w - 1))])
  }

  /** `v as usize` for a signed value: the low 64 bits. */
  function AsUsize(v: int): (u: nat)
    ensures u < USIZE_MAX + 1
    ensures 0 <= v <= USIZE_MAX ==> u == v
  {
    v % (USIZE_MAX + 1)
  }

  /** `x.iter().map(|&v| v as usize).sum()`. */
  function Presses(x: seq<int>): nat
  {
    if x == [] then 0 else Presses(x[..|x| - 1]) + AsUsize(x[|x| - 1])
  }

  /** The all-zero vector of `n` entries. */
  function Zeros(n: nat): (x: seq<int>)
    ensures |x| == n && forall k :: 0 <= k < n ==> x[k] == 0
  {
    seq(n, _ => 0)
  }

  /** The well-formedness `find_minimum_gf2_solution` and
      `find_minimum_integer_solution` rely on: every pivot column names an
      existing row. */
  predicate PivotsFit(g: Matrix, w: nat, pivots: map<nat, nat>)
  {
    w >= 1 && IsGrid(g, |g|, w) && WellFormed(pivots, w - 1, |pivots|) && |pivots| <= |g|
  }

  /** The pivot columns of a fitting pivot map name existing rows. */
  lemma PivotColumnsFit(g: Matrix, w: nat, pivots: map<nat, nat>)
    requires PivotsFit(g, w, pivots)
    ensures PivotOrder(g, pivots, PivotColumns(pivots, w - 1), w - 1)
  {
  }

  /** The button presses of assignment `i` of the free variables. */
  function CandidateGf2(g: Matrix, w: nat, pivots: map<nat, nat>, i: nat): seq<int>
    requires PivotsFit(g, w, pivots)
  {
    var x := AssignFree(Zeros(w - 1), FreeVars(pivots, w - 1), i, 0);
    PivotColumnsFit(g, w, pivots);
    BackSubGf2(g, w, pivots, PivotColumns(pivots, w - 1), x)
  }

  /** `min_presses` after the assignments `0..k`. */
  function MinGf2(g: Matrix, w: nat, pivots: map<nat, nat>, k: nat): nat
    requires PivotsFit(g, w, pivots)
  {
    if k == 0 then USIZE_MAX
    else
      var m := MinGf2(g, w, pivots, k - 1);
      var v := Presses(CandidateGf2(g, w, pivots, k - 1));
      if v < m then v else m
  }

  /** One more assignment: the running minimum with its presses. */
  lemma MinGf2Next(g: Matrix, w: nat, pivots: map<nat, nat>, k: nat, x: seq<int>, v: nat)
    requires PivotsFit(g, w, pivots)
    requires x == CandidateGf2(g, w, pivots, k) && v == Presses(x)
    ensures MinGf2(g, w, pivots, k + 1) == if v < MinGf2(g, w, pivots, k) then v else MinGf2(g, w, pivots, k)
  {
  }

  /** `MinGf2` is the least of `usize::MAX` and the presses of the first
      `k` assignments. */
  lemma {:induction false} MinGf2IsLeast(g: Matrix, w: nat, pivots: map<nat, nat>, k: nat)
    requires PivotsFit(g, w, pivots)
    ensures MinGf2(g, w, pivots, k) <= USIZE_MAX
    ensures forall i :: 0 <= i < k ==> MinGf2(g, w, pivots, k) <= Presses(CandidateGf2(g, w, pivots, i))
    ensures MinGf2(g, w, pivots, k) == USIZE_MAX
         || exists i :: 0 <= i < k && MinGf2(g, w, pivots, k) == Presses(CandidateGf2(g, w, pivots, i))
  {
    MinGf2IsLower(g, w, pivots, k);
    MinGf2Attained(g, w, pivots, k);
  }

  /** `MinGf2` bounds `usize::MAX` and the presses of the first `k`
      assignments from below. */
  lemma {:induction false} MinGf2IsLower(g: Matrix, w: nat, pivots: map<nat, nat>, k: nat)
    requires PivotsFit(g, w, pivots)
    ensures MinGf2(g, w, pivots, k) <= USIZE_MAX
    ensures forall i :: 0 <= i < k ==> MinGf2(g, w, pivots, k) <= Presses(CandidateGf2(g, w, pivots, i))
  {
    if k > 0 {
      MinGf2IsLower(g, w, pivots, k - 1);
      var m, v := MinGf2(g, w, pivots, k - 1), Presses(CandidateGf2(g, w, pivots, k - 1));
      var n := MinGf2(g, w, pivots, k);
      assert n <= m && n <= v;
      forall i | 0 <= i < k
        ensures n <= Presses(CandidateGf2(g, w, pivots, i))
      {
        if i < k - 1 {
          assert m <= Presses(CandidateGf2(g, w, pivots, i));
        }
      }
    }
  }

  /** `MinGf2` is `usize::MAX` or the presses of one of the first `k`
      assignments. */
  lemma {:induction false} MinGf2Attained(g: Matrix, w: nat, pivots: map<nat, nat>, k: nat)
    requires PivotsFit(g, w, pivots)
    ensures MinGf2(g, w, pivots, k) == USIZE_MAX
         || exists i :: 0 <= i < k && MinGf2(g, w, pivots, k) == Presses(CandidateGf2(g, w, pivots, i))
  {
    if k > 0 {
      MinGf2Attained(g, w, pivots, k - 1);
      var m, v := MinGf2(g, w, pivots, k - 1), Presses(CandidateGf2(g, w, pivots, k - 1));
      var n := MinGf2(g, w, pivots, k);
      if n == v {
        assert 0 <= k - 1 < k && n == Presses(CandidateGf2(g, w, pivots, k - 1));
      } else if n != USIZE_MAX {
        assert n == m;
        var i :| 0 <= i < k - 1 && m == Presses(CandidateGf2(g, w, pivots, i));
        assert 0 <= i < k && n == Presses(CandidateGf2(g, w, pivots, i));
      }
    }
  }

  /** The free-variable assignment loop of `find_minimum_gf2_solution`. */
  method AssignFreeBits(x: seq<int>, free: seq<nat>, i: nat) returns (y: seq<int>)
    requires forall j :: 0 <= j < |free| ==> free[j] < |x|
    ensures y == AssignFree(x, free, i, 0)
  {
    y := x;
    for b := 0 to |free|
      invariant |y| == |x|
      invariant AssignFree(y, free, i, b) == AssignFree(x, free, i, 0)
    {
      if Bit(i, b) == 1 {
        y := y[free[b] := 1];
      }
    }
  }

  /** The parity loop of one back-substitution row. */
  method RowParity(a: array2<int>, r: nat, x: seq<int>, lo: nat, hi: nat) returns (sum: int)
    requires r < a.Length0 && lo <= hi <= a.Length1 && hi <= |x|
    ensures sum == Parity(Snapshot(a)[r], x, lo, hi)
  {
    ghost var row := Snapshot(a)[r];
    sum := 0;
    for c := lo to hi
      invariant sum == Parity(row, x, lo, c)
    {
      if a[r, c] == 1 && x[c] == 1 {
        sum := Xor(sum, 1);
      }
    }
  }

  /** The back-substitution loop over the pivots, last pivot row first. */
  method BackSubstituteGf2(a: array2<int>, pivots: map<nat, nat>, order: seq<nat>, x: seq<int>) returns (y: seq<int>)
    requires a.Length1 >= 1 && |x| == a.Length1 - 1
    requires PivotOrder(Snapshot(a), pivots, order, a.Length1 - 1)
    ensures y == BackSubGf2(Snapshot(a), a.Length1, pivots, order, x)
  {
    ghost var g := Snapshot(a);
    var cols := a.Length1 - 1;
    y := x;
    var j := |order|;
    assert order[..j] == order;
    while j > 0
      invariant 0 <= j <= |order| && |y| == |x|
      invariant BackSubGf2(g, a.Length1, pivots, order[..j], y) == BackSubGf2(g, a.Length1, pivots, order, x)
    {
      assert order[..j][..j - 1] == order[..j - 1];
      j := j - 1;
      var pCol := order[j];
      var rIdx := pivots[pCol];
      var sum := RowParity(a, rIdx, y, pCol + 1, cols);
      y := y[pCol := Xor(a[rIdx, cols], sum)];
    }
  }

  /** The presses loop: each entry as `usize`, summed. */
  method SumPresses(x: seq<int>) returns (presses: nat)
    ensures presses == Presses(x)
  {
    presses := 0;
    for k := 0 to |x|
      invariant presses == Presses(x[..k])
    {
      assert x[..k + 1][..k] == x[..k];
      presses := presses + AsUsize(x[k]);
    }
    assert x[..|x|] == x;
  }

  /** `find_minimum_gf2_solution`: the fewest presses over all `2^f`
      assignments of the `f` free variables. */
  method FindMinimumGf2(a: array2<int>, pivots: map<nat, nat>) returns (minPresses: nat)
    requires PivotsFit(Snapshot(a), a.Length1, pivots)
    ensures minPresses == MinGf2(Snapshot(a), a.Length1, pivots, Pow(2, |FreeVars(pivots, a.Length1 - 1)|))
  {
    ghost var g := Snapshot(a);
    var cols := a.Length1 - 1;
    var free := FreeVariables(pivots, cols);
    minPresses := USIZE_MAX;
    var combinations := Pow(2, |free|);
    for i := 0 to combinations
      invariant minPresses == MinGf2(g, a.Length1, pivots, i)
    {
      var presses := CandidatePresses(a, pivots, free, i);
      MinGf2Next(g, a.Length1, pivots, i, CandidateGf2(g, a.Length1, pivots, i), presses);
      minPresses := if presses < minPresses then presses else minPresses;
    }
  }

  /** One pass of the loop of `find_minimum_gf2_solution`: assignment `i`
      of the free variables, back-substituted, and its presses. */
  method CandidatePresses(a: array2<int>, pivots: map<nat, nat>, free: seq<nat>, i: nat) returns (presses: nat)
    requires PivotsFit(Snapshot(a), a.Length1, pivots) && free == FreeVars(pivots, a.Length1 - 1)
    ensures presses == Presses(CandidateGf2(Snapshot(a), a.Length1, pivots, i))
  {
    var x0 := AssignFreeBits(Zeros(a.Length1 - 1), free, i);
    presses := BackSubPresses(a, pivots, x0);
  }

  /** The rest of that pass: back-substitution from the assignment `x0`,
      and the presses of the result. */
  method BackSubPresses(a: array2<int>, pivots: map<nat, nat>, x0: seq<int>) returns (presses: nat)
    requires PivotsFit(Snapshot(a), a.Length1, pivots) && |x0| == a.Length1 - 1
    ensures PivotOrder(Snapshot(a), pivots, PivotColumns(pivots, a.Length1 - 1), a.Length1 - 1)
    ensures presses == Presses(BackSubGf2(Snapshot(a), a.Length1, pivots, PivotColumns(pivots, a.Length1 - 1), x0))
  {
    PivotColumnsFit(Snapshot(a), a.Length1, pivots);
    var order := PivotColumns(pivots, a.Length1 - 1);
    var x := BackSubstituteGf2(a, pivots, order, x0);
    presses := SumPresses(x);
  }

  // ----------------------------------------------------- the integer minimum

  /** `SearchParams`: the free variables, the eliminated matrix, the pivot
      map and the number of buttons. */
  datatype SearchParams = SearchParams(free: seq<nat>, g: Matrix, pivots: map<nat, nat>, nb: nat)

  /** Pivot row `i` is nonzero in its pivot column `cs[i]`. */
  predicate NonzeroPivots(g: Matrix, cs: seq<nat>)
  {
    forall i :: 0 <= i < |cs| && i < |g| && cs[i] < |g[i]| ==> g[i][cs[i]] != 0
  }

  /** What `evaluate_solution` relies on: the pivot map fits the matrix,
      the free variables are buttons, and no pivot entry is zero (it is
      divided by). */
  predicate ValidParams(p: SearchParams)
  {
    && PivotsFit(p.g, p.nb + 1, p.pivots)
    && (forall j :: 0 <= j < |p.free| ==> p.free[j] < p.nb)
    && NonzeroPivots(p.g, PivotColumns(p.pivots, p.nb))
  }

  /** The loop `x[fv] = free_vals[i]`, from index `i` on. */
  function SetFree(x: seq<int>, free: seq<nat>, vals: seq<int>, i: nat): (y: seq<int>)
    requires |vals| == |free| && i <= |free| && forall j :: 0 <= j < |free| ==> free[j] < |x|
    ensures |y| == |x|
    decreases |free| - i
  {
    if i == |free| then x else SetFree(x[free[i] := vals[i]], free, vals, i + 1)
  }

  /** `sum_{lo <= k < hi} row[k] * x[k]`. */
  function Dot(row: seq<int>, x: seq<int>, lo: nat, hi: nat): int
    requires hi <= |row| && hi <= |x|
    decreases hi
  {
    if hi <= lo then 0 else Dot(row, x, lo, hi - 1) + row[hi - 1] * x[hi - 1]
  }

  /** Integer back-substitution over rows `j - 1` down to 0, where row `r`
      solves for its pivot column `cs[r]`: `None` as soon as a pivot does
      not divide its right-hand side or the quotient is negative. */
  function BackSubInt(g: Matrix, w: nat, cs: seq<nat>, j: nat, x: seq<int>): (y: Option<seq<int>>)
    requires IsGrid(g, |g|, w) && w >= 1 && |x| == w - 1
    requires j <= |cs| <= |g| && PivotsIn(cs, |g|, w - 1) && NonzeroPivots(g, cs)
    ensures y.Some? ==> |y.value| == |x|
    decreases j
  {
    if j == 0 then Some(x)
    else
      var r := j - 1;
      var pc := cs[r];
      var pv := g[r][pc];
      var rhs := g[r][w - 1] - Dot(g[r], x, pc + 1, w - 1);
      if TruncRem(rhs, pv) != 0 || TruncDiv(rhs, pv) < 0 then None
      else BackSubInt(g, w, cs, r, x[pc := TruncDiv(rhs, pv)])
  }

  /** `x.iter().sum()`. */
  function Sum(x: seq<int>): int
  {
    if x == [] then 0 else Sum(x[..|x| - 1]) + x[|x| - 1]
  }

  /** `evaluate_solution`: the total presses of the solution with the free
      variables set to `vals`, or `None` when back-substitution fails or the
      total lies outside `0..i64::MAX`. */
  function Evaluate(p: SearchParams, vals: seq<int>): (r: Option<nat>)
    requires ValidParams(p) && |vals| == |p.free|
    ensures r.Some? ==> r.value < I64_MAX
  {
    match Solution(p, vals)
    case None => None
    case Some(y) =>
      var sum := Sum(y);
      if 0 <= sum < I64_MAX then Some(sum) else None
  }

  /** The button presses `evaluate_solution` derives from the free values
      `vals`, before it sums them. */
  function Solution(p: SearchParams, vals: seq<int>): (y: Option<seq<int>>)
    requires ValidParams(p) && |vals| == |p.free|
    ensures y.Some? ==> |y.value| == p.nb
  {
    var x := SetFree(Zeros(p.nb), p.free, vals, 0);
    BackSubInt(p.g, p.nb + 1, PivotColumns(p.pivots, p.nb), |p.pivots|, x)
  }

  // ------------------------------------- what back-substitution computes

  /** Row `r` of `[A | b]` holds at `x`: the dot product of its
      coefficients with `x` is its right-hand side. */
  predicate RowHolds(g: Matrix, w: nat, r: nat, x: seq<int>)
    requires IsGrid(g, |g|, w) && w >= 1 && r < |g| && |x| == w - 1
  {
    Dot(g[r], x, 0, w - 1) == g[r][w - 1]
  }

  /** Rows `0..n` of `[A | b]` all hold at `x`. */
  predicate Solves(g: Matrix, w: nat, n: nat, x: seq<int>)
    requires IsGrid(g, |g|, w) && w >= 1 && n <= |g| && |x| == w - 1
  {
    forall r :: 0 <= r < n ==> RowHolds(g, w, r, x)
  }

  lemma {:induction false} DotSplit(row: seq<int>, x: seq<int>, lo: nat, m: nat, hi: nat)
    requires lo <= m <= hi <= |row| && hi <= |x|
    ensures Dot(row, x, lo, hi) == Dot(row, x, lo, m) + Dot(row, x, m, hi)
    decreases hi
  {
    if hi > m {
      DotSplit(row, x, lo, m, hi - 1);
    }
  }

  /** Changing `x` only where the row is zero leaves the dot product. */
  lemma {:induction false} DotAgree(row: seq<int>, x: seq<int>, y: seq<int>, lo: nat, hi: nat)
    requires hi <= |row| && hi <= |x| && hi <= |y|
    requires forall k :: lo <= k < hi ==> row[k] == 0 || x[k] == y[k]
    ensures Dot(row, x, lo, hi) == Dot(row, y, lo, hi)
    decreases hi
  {
    if hi > lo {
      DotAgree(row, x, y, lo, hi - 1);
    }
  }

  /** A zero stretch of the row contributes nothing. */
  lemma {:induction false} DotZero(row: seq<int>, x: seq<int>, lo: nat, hi: nat)
    requires hi <= |row| && hi <= |x|
    requires forall k :: lo <= k < hi ==> row[k] == 0
    ensures Dot(row, x, lo, hi) == 0
    decreases hi
  {
    if hi > lo {
      DotZero(row, x, lo, hi - 1);
    }
  }

  /** The pivot columns are listed in increasing order. */
  lemma {:induction false} PivotColumnsIncreasing(pivots: map<nat, nat>, n: nat)
    ensures forall i, j :: 0 <= i < j < |PivotColumns(pivots, n)| ==> PivotColumns(pivots, n)[i] < PivotColumns(pivots, n)[j]
  {
    if n > 0 {
      PivotColumnsIncreasing(pivots, n - 1);
      var cs := PivotColumns(pivots, n - 1);
      assert forall i :: 0 <= i < |cs| ==> PivotColumns(pivots, n)[i] == cs[i];
    }
  }

  /** `cs` increases. */
  predicate Increasing(cs: seq<nat>)
  {
    forall i, j :: 0 <= i < j < |cs| ==> cs[i] < cs[j]
  }

  /** Solving row `r` for its pivot column: with `pv * q` equal to the
      right-hand side less the later columns, the row holds. */
  lemma {:induction false} SolvedRowHolds(g: Matrix, w: nat, cs: seq<nat>, r: nat, x: seq<int>, q: int)
    requires IsGrid(g, |g|, w) && w >= 1 && |x| == w - 1 && PivotsIn(cs, |g|, w - 1) && r < |cs|
    requires LeadingZeros(g, w, cs)
    requires g[r][cs[r]] * q == g[r][w - 1] - Dot(g[r], x, cs[r] + 1, w - 1)
    ensures RowHolds(g, w, r, x[cs[r] := q])
  {
    var pc, x' := cs[r], x[cs[r] := q];
    DotSplit(g[r], x', 0, pc, w - 1);
    DotSplit(g[r], x', pc, pc + 1, w - 1);
    DotZero(g[r], x', 0, pc);
    DotAgree(g[r], x', x, pc + 1, w - 1);
  }

  /** Setting an earlier pivot column leaves a later row holding: that row
      is zero left of its own pivot column. */
  lemma {:induction false} LaterRowKeeps(g: Matrix, w: nat, cs: seq<nat>, i: nat, r: nat, x: seq<int>, q: int)
    requires IsGrid(g, |g|, w) && w >= 1 && |x| == w - 1 && PivotsIn(cs, |g|, w - 1) && i < r < |cs|
    requires LeadingZeros(g, w, cs) && Increasing(cs)
    requires RowHolds(g, w, r, x)
    ensures RowHolds(g, w, r, x[cs[i] := q])
  {
    assert g[r][cs[i]] == 0;
    DotAgree(g[r], x[cs[i] := q], x, 0, w - 1);
  }

  /** When integer back-substitution over rows `j - 1` down to 0 succeeds,
      every pivot row holds at the result, the solved pivot columns are
      nonnegative, and every other entry of `x` is kept. */
  lemma {:induction false} BackSubIntSolves(g: Matrix, w: nat, cs: seq<nat>, j: nat, x: seq<int>)
    requires IsGrid(g, |g|, w) && w >= 1 && |x| == w - 1
    requires j <= |cs| <= |g| && PivotsIn(cs, |g|, w - 1) && NonzeroPivots(g, cs)
    requires LeadingZeros(g, w, cs) && Increasing(cs)
    requires forall r :: j <= r < |cs| ==> RowHolds(g, w, r, x)
    requires BackSubInt(g, w, cs, j, x).Some?
    ensures var y := BackSubInt(g, w, cs, j, x).value;
      && (forall r :: 0 <= r < |cs| ==> RowHolds(g, w, r, y))
      && (forall i :: 0 <= i < j ==> y[cs[i]] >= 0)
      && (forall k :: 0 <= k < |x| && k !in cs[..j] ==> y[k] == x[k])
  {
    BackSubIntRows(g, w, cs, j, x);
    BackSubIntNonnegative(g, w, cs, j, x);
    BackSubIntKeeps(g, w, cs, j, x);
  }

  /** Back-substitution solves every pivot row. */
  lemma {:induction false} BackSubIntRows(g: Matrix, w: nat, cs: seq<nat>, j: nat, x: seq<int>)
    requires IsGrid(g, |g|, w) && w >= 1 && |x| == w - 1
    requires j <= |cs| <= |g| && PivotsIn(cs, |g|, w - 1) && NonzeroPivots(g, cs)
    requires LeadingZeros(g, w, cs) && Increasing(cs)
    requires forall r :: j <= r < |cs| ==> RowHolds(g, w, r, x)
    requires BackSubInt(g, w, cs, j, x).Some?
    ensures forall r :: 0 <= r < |cs| ==> RowHolds(g, w, r, BackSubInt(g, w, cs, j, x).value)
    decreases j
  {
    if j > 0 {
      var r := j - 1;
      var pc := cs[r];
      var rhs := g[r][w - 1] - Dot(g[r], x, pc + 1, w - 1);
      var q := TruncDiv(rhs, g[r][pc]);
      var x' := x[pc := q];
      assert TruncRem(rhs, g[r][pc]) == 0;
      assert g[r][pc] * q == rhs;
      SolvedRowHolds(g, w, cs, r, x, q);
      forall r' | j <= r' < |cs|
        ensures RowHolds(g, w, r', x')
      {
        LaterRowKeeps(g, w, cs, r, r', x, q);
      }
      BackSubIntRows(g, w, cs, r, x');
    }
  }

  /** Back-substitution leaves the entries outside the pivot columns it
      solved as they were. */
  lemma {:induction false} BackSubIntKeeps(g: Matrix, w: nat, cs: seq<nat>, j: nat, x: seq<int>)
    requires IsGrid(g, |g|, w) && w >= 1 && |x| == w - 1
    requires j <= |cs| <= |g| && PivotsIn(cs, |g|, w - 1) && NonzeroPivots(g, cs)
    requires LeadingZeros(g, w, cs) && Increasing(cs)
    requires BackSubInt(g, w, cs, j, x).Some?
    ensures var y := BackSubInt(g, w, cs, j, x).value;
      forall k :: 0 <= k < |x| && k !in cs[..j] ==> y[k] == x[k]
    decreases j
  {
    if j > 0 {
      var r := j - 1;
      var pc := cs[r];
      var q := TruncDiv(g[r][w - 1] - Dot(g[r], x, pc + 1, w - 1), g[r][pc]);
      var x' := x[pc := q];
      BackSubIntKeeps(g, w, cs, r, x');
      var y := BackSubInt(g, w, cs, j, x).value;
      assert y == BackSubInt(g, w, cs, r, x').value;
      assert cs[..j] == cs[..r] + [pc];
    }
  }

  /** Back-substitution gives the pivot columns it solved nonnegative
      values (a negative quotient is a failure). */
  lemma {:induction false} BackSubIntNonnegative(g: Matrix, w: nat, cs: seq<nat>, j: nat, x: seq<int>)
    requires IsGrid(g, |g|, w) && w >= 1 && |x| == w - 1
    requires j <= |cs| <= |g| && PivotsIn(cs, |g|, w - 1) && NonzeroPivots(g, cs)
    requires LeadingZeros(g, w, cs) && Increasing(cs)
    requires BackSubInt(g, w, cs, j, x).Some?
    ensures var y := BackSubInt(g, w, cs, j, x).value;
      forall i :: 0 <= i < j ==> y[cs[i]] >= 0
    decreases j
  {
    if j > 0 {
      var r := j - 1;
      var pc := cs[r];
      var q := TruncDiv(g[r][w - 1] - Dot(g[r], x, pc + 1, w - 1), g[r][pc]);
      var x' := x[pc := q];
      assert q >= 0;
      BackSubIntNonnegative(g, w, cs, r, x');
      BackSubIntKeeps(g, w, cs, r, x');
      var y := BackSubInt(g, w, cs, j, x).value;
      assert y == BackSubInt(g, w, cs, r, x').value;
      assert pc !in cs[..r];
      assert y[pc] == x'[pc];
    }
  }

  /** With distinct free columns, setting them from index `i` on puts
      `vals[j]` at `free[j]` and keeps every other entry. */
  lemma {:induction false} SetFreeFacts(x: seq<int>, free: seq<nat>, vals: seq<int>, i: nat)
    requires |vals| == |free| && i <= |free| && forall j :: 0 <= j < |free| ==> free[j] < |x|
    requires Increasing(free)
    ensures forall j :: i <= j < |free| ==> SetFree(x, free, vals, i)[free[j]] == vals[j]
    ensures forall k :: 0 <= k < |x| && k !in free[i..] ==> SetFree(x, free, vals, i)[k] == x[k]
    decreases |free| - i
  {
    if i < |free| {
      SetFreeFacts(x[free[i] := vals[i]], free, vals, i + 1);
      assert free[i..] == [free[i]] + free[i + 1..];
      forall j | i < j < |free|
        ensures free[i] !in free[j..]
      {
      }
    }
  }

  /** Back-substitution over all pivot rows, from the values `x` of
      the free columns. */
  lemma {:induction false} BackSubAll(g: Matrix, w: nat, cs: seq<nat>, x: seq<int>)
    requires IsGrid(g, |g|, w) && w >= 1 && |x| == w - 1
    requires |cs| <= |g| && PivotsIn(cs, |g|, w - 1) && NonzeroPivots(g, cs)
    requires LeadingZeros(g, w, cs) && Increasing(cs)
    requires BackSubInt(g, w, cs, |cs|, x).Some?
    ensures var y := BackSubInt(g, w, cs, |cs|, x).value;
      && Solves(g, w, |cs|, y)
      && (forall i :: 0 <= i < |cs| ==> y[cs[i]] >= 0)
      && (forall k :: 0 <= k < |x| && k !in cs ==> y[k] == x[k])
  {
    BackSubIntSolves(g, w, cs, |cs|, x);
    assert cs[..|cs|] == cs;
  }

  /** A successful back-substitution satisfies every pivot row of the
      eliminated system, is nonnegative in the pivot columns, and keeps
      the values set in the other columns. */
  lemma {:induction false} SolutionSolves(p: SearchParams, vals: seq<int>)
    requires ValidParams(p) && |vals| == |p.free|
    requires LeadingZeros(p.g, p.nb + 1, PivotColumns(p.pivots, p.nb))
    requires Solution(p, vals).Some?
    ensures var y := Solution(p, vals).value;
      var x := SetFree(Zeros(p.nb), p.free, vals, 0);
      var cs := PivotColumns(p.pivots, p.nb);
      && Solves(p.g, p.nb + 1, |p.pivots|, y)
      && (forall i :: 0 <= i < |cs| ==> y[cs[i]] >= 0)
      && (forall k :: 0 <= k < p.nb && k !in cs ==> y[k] == x[k])
  {
    var cs := PivotColumns(p.pivots, p.nb);
    var x := SetFree(Zeros(p.nb), p.free, vals, 0);
    assert |cs| == |p.pivots|;
    assert Solution(p, vals) == BackSubInt(p.g, p.nb + 1, cs, |cs|, x);
    assert |x| == p.nb;
    PivotColumnsIncreasing(p.pivots, p.nb);
    BackSubAll(p.g, p.nb + 1, cs, x);
    var y := Solution(p, vals).value;
    assert Solves(p.g, p.nb + 1, |cs|, y);
    assert forall i :: 0 <= i < |cs| ==> y[cs[i]] >= 0;
    assert forall k :: 0 <= k < |x| && k !in cs ==> y[k] == x[k];
  }

  /** Where `y` is nonnegative in the pivot columns `cs` and agrees
      with `x` elsewhere, and `x` holds the nonnegative `t` in the free
      columns, `y` is nonnegative and holds `t` in the free columns. */
  lemma FreeAndPivotValues(y: seq<int>, x: seq<int>, cs: seq<nat>, free: seq<nat>, t: seq<int>)
    requires |y| == |x| && |t| == |free|
    requires forall j :: 0 <= j < |free| ==> free[j] < |x| && free[j] !in cs
    requires forall k :: 0 <= k < |x| && k !in cs ==> k in free
    requires forall j :: 0 <= j < |free| ==> x[free[j]] == t[j] && t[j] >= 0
    requires forall i :: 0 <= i < |cs| ==> cs[i] < |y| && y[cs[i]] >= 0
    requires forall k :: 0 <= k < |x| && k !in cs ==> y[k] == x[k]
    ensures forall k :: 0 <= k < |y| ==> y[k] >= 0
    ensures forall j :: 0 <= j < |free| ==> y[free[j]] == t[j]
  {
    forall k | 0 <= k < |y|
      ensures y[k] >= 0
    {
      if k !in cs {
        var j :| 0 <= j < |free| && free[j] == k;
      } else {
        var i :| 0 <= i < |cs| && cs[i] == k;
      }
    }
  }

  /** Setting the free columns from `t`: each gets its value, no free
      column is a pivot column, and every other column is free. */
  lemma {:induction false} FreeColumnsSet(pivots: map<nat, nat>, nb: nat, t: seq<int>)
    requires |t| == |FreeVars(pivots, nb)|
    ensures var free := FreeVars(pivots, nb);
      var x := SetFree(Zeros(nb), free, t, 0);
      var cs := PivotColumns(pivots, nb);
      && |x| == nb
      && (forall j :: 0 <= j < |free| ==> free[j] < |x| && free[j] !in cs)
      && (forall k :: 0 <= k < |x| && k !in cs ==> k in free)
      && (forall j :: 0 <= j < |free| ==> x[free[j]] == t[j])
  {
    var free := FreeVars(pivots, nb);
    FreeVarsIncreasing(pivots, nb);
    PivotColumnsMembers(pivots, nb);
    SetFreeFacts(Zeros(nb), free, t, 0);
    assert free[0..] == free;
  }

  /** With the free columns set from nonnegative values, a successful
      back-substitution is nonnegative everywhere and gives each free
      column its value. */
  lemma {:induction false} SolutionNonnegative(p: SearchParams, t: seq<int>)
    requires ValidParams(p) && |t| == |p.free| && p.free == FreeVars(p.pivots, p.nb)
    requires LeadingZeros(p.g, p.nb + 1, PivotColumns(p.pivots, p.nb))
    requires forall i :: 0 <= i < |t| ==> t[i] >= 0
    requires Solution(p, t).Some?
    ensures var y := Solution(p, t).value;
      && (forall k :: 0 <= k < |y| ==> y[k] >= 0)
      && (forall i :: 0 <= i < |t| ==> y[p.free[i]] == t[i])
  {
    var cs := PivotColumns(p.pivots, p.nb);
    var x := SetFree(Zeros(p.nb), p.free, t, 0);
    var y := Solution(p, t).value;
    SolutionSolves(p, t);
    FreeColumnsSet(p.pivots, p.nb, t);
    FreeAndPivotValues(y, x, cs, p.free, t);
  }

  /** After elimination, the rows below the pivot rows have no nonzero
      coefficient; without a contradiction their right-hand side is zero
      too, so a solution of the pivot rows solves them all. */
  lemma {:induction false} ZeroRowsHold(g: Matrix, w: nat, cs: seq<nat>, y: seq<int>)
    requires IsGrid(g, |g|, w) && w >= 1 && |y| == w - 1 && |cs| <= |g|
    requires Cleared(g, w, w - 1, cs) && !Contradiction(g, w)
    requires Solves(g, w, |cs|, y)
    ensures Solves(g, w, |g|, y)
  {
    forall r | |cs| <= r < |g|
      ensures RowHolds(g, w, r, y)
    {
      DotZero(g[r], y, 0, w - 1);
      assert ZeroCoefficients(g[r], w - 1);
    }
  }

  /** A candidate assignment `t` of the free buttons is a real solution
      when it evaluates: the button presses are nonnegative, give `t` to
      the free buttons, satisfy every row of the eliminated system, and
      sum to the evaluated total. */
  ghost predicate RealSolution(p: SearchParams, t: seq<int>)
    requires ValidParams(p) && |t| == |p.free|
  {
    Evaluate(p, t).Some? ==>
      var y := Solution(p, t).value;
      && Sum(y) == Evaluate(p, t).value
      && (forall k :: 0 <= k < |y| ==> y[k] >= 0)
      && (forall i :: 0 <= i < |t| ==> y[p.free[i]] == t[i])
      && Solves(p.g, p.nb + 1, |p.g|, y)
  }

  /** With the rows below the pivot rows zero and no contradiction, a
      back-substituted solution satisfies every row. */
  lemma {:induction false} SolutionSolvesAll(p: SearchParams, t: seq<int>)
    requires ValidParams(p) && |t| == |p.free|
    requires LeadingZeros(p.g, p.nb + 1, PivotColumns(p.pivots, p.nb))
    requires Cleared(p.g, p.nb + 1, p.nb, PivotColumns(p.pivots, p.nb)) && !Contradiction(p.g, p.nb + 1)
    requires Solution(p, t).Some?
    ensures Solves(p.g, p.nb + 1, |p.g|, Solution(p, t).value)
  {
    var cs := PivotColumns(p.pivots, p.nb);
    var y := Solution(p, t).value;
    SolutionSolves(p, t);
    assert |cs| == |p.pivots|;
    ZeroRowsHold(p.g, p.nb + 1, cs, y);
  }

  /** The solution claim on any eliminated integer system: with the pivot
      rows in echelon form, the rows below them zero, and no
      contradiction, every evaluating assignment is a real solution. */
  lemma {:induction false} EliminatedSolution(p: SearchParams, t: seq<int>)
    requires ValidParams(p) && p.free == FreeVars(p.pivots, p.nb)
    requires |t| == |p.free| && (forall i :: 0 <= i < |t| ==> t[i] >= 0)
    requires LeadingZeros(p.g, p.nb + 1, PivotColumns(p.pivots, p.nb))
    requires Cleared(p.g, p.nb + 1, p.nb, PivotColumns(p.pivots, p.nb)) && !Contradiction(p.g, p.nb + 1)
    ensures RealSolution(p, t)
  {
    if Evaluate(p, t).Some? {
      EvaluateSum(p, t);
      SolutionNonnegative(p, t);
      SolutionSolvesAll(p, t);
    }
  }

  /** Part B's candidates are real solutions: whenever the consistency
      check passes, every assignment of nonnegative free values that
      evaluates is a real solution of the counters' system. */
  lemma {:induction false} VoltageSolution(m: Machine, t: seq<int>)
    requires var w := |m.buttons| + 1;
      var e := Eliminated(VoltageMatrix(m), w, false);
      && !Contradiction(e.g, w)
      && |t| == |FreeVars(e.pivots, w - 1)| && (forall i :: 0 <= i < |t| ==> t[i] >= 0)
    ensures var w := |m.buttons| + 1;
      var e := Eliminated(VoltageMatrix(m), w, false);
      var p := SearchParams(FreeVars(e.pivots, w - 1), e.g, e.pivots, w - 1);
      ValidParams(p) && RealSolution(p, t)
  {
    var w := |m.buttons| + 1;
    var g := VoltageMatrix(m);
    var e := Eliminated(g, w, false);
    EliminateFacts(g, w, w - 1, false);
    InvFits(e, |g|, w, false);
    var p := SearchParams(FreeVars(e.pivots, w - 1), e.g, e.pivots, w - 1);
    var cs := PivotColumns(e.pivots, w - 1);
    assert LeadingZeros(e.g, w, cs) && Cleared(e.g, w, w - 1, cs);
    EliminatedSolution(p, t);
  }

  /** An assignment that evaluates has a back-substituted solution whose
      sum is the evaluated total. */
  lemma EvaluateSum(p: SearchParams, vals: seq<int>)
    requires ValidParams(p) && |vals| == |p.free| && Evaluate(p, vals).Some?
    ensures Solution(p, vals).Some? && Evaluate(p, vals).value == Sum(Solution(p, vals).value)
  {
  }

  /** `optimisation_effort`: each free variable ranges over `0..=effort`. */
  function Effort(nfree: nat): nat
  {
    if nfree > 1 then 200 else 2000
  }

  /** `min_total = Some(total)` when `total` is smaller (or the first). */
  function Improve(best: Option<nat>, total: Option<nat>): Option<nat>
  {
    if total.Some? && (best.None? || total.value < best.value) then total else best
  }

  /** `search_integer_solutions` from the assigned `prefix`, given the
      smallest total found so far. */
  function Search(p: SearchParams, prefix: seq<int>, best: Option<nat>): Option<nat>
    requires ValidParams(p) && |prefix| <= |p.free|
    decreases |p.free| - |prefix|, Effort(|p.free|) + 2
  {
    if |prefix| == |p.free| then Improve(best, Evaluate(p, prefix))
    else Try(p, prefix, 0, best)
  }

  /** The loop `for v in 0..=effort` over the next free variable, from `v`. */
  function Try(p: SearchParams, prefix: seq<int>, v: nat, best: Option<nat>): Option<nat>
    requires ValidParams(p) && |prefix| < |p.free|
    decreases |p.free| - |prefix|, Effort(|p.free|) + 1 - v
  {
    if v > Effort(|p.free|) then best
    else Try(p, prefix, v + 1, Search(p, prefix + [v], best))
  }

  /** `row_to_pivot_col` inverts the pivot map: the column of pivot row `r`
      is `PivotColumns(pivots, n)[r]`, and no other column has row `r`. */
  lemma {:induction false} RowToPivotCol(pivots: map<nat, nat>, n: nat, pr: nat, r: nat, k: nat)
    requires WellFormed(pivots, n, pr) && r < pr && k in pivots
    ensures pivots[k] == r <==> k == PivotColumns(pivots, n)[r]
  {
    PivotColumnsMembers(pivots, n);
    var cs := PivotColumns(pivots, n);
    assert k in cs;
    var i :| 0 <= i < |cs| && cs[i] == k;
    assert pivots[k] == i;
  }

  /** The loop setting the free variables. */
  method SetFreeValues(nb: nat, free: seq<nat>, vals: array<int>) returns (x: seq<int>)
    requires vals.Length == |free| && forall j :: 0 <= j < |free| ==> free[j] < nb
    ensures x == SetFree(Zeros(nb), free, vals[..], 0)
  {
    x := Zeros(nb);
    for i := 0 to |free|
      invariant |x| == nb
      invariant SetFree(x, free, vals[..], i) == SetFree(Zeros(nb), free, vals[..], 0)
    {
      x := x[free[i] := vals[i]];
    }
  }

  /** The right-hand side loop of one back-substitution row. */
  method RowRhs(a: array2<int>, r: nat, x: seq<int>, lo: nat, nb: nat) returns (rhs: int)
    requires a.Length1 == nb + 1 && r < a.Length0 && lo <= nb && |x| == nb
    ensures rhs == Snapshot(a)[r][nb] - Dot(Snapshot(a)[r], x, lo, nb)
  {
    ghost var row := Snapshot(a)[r];
    rhs := a[r, nb];
    for k := lo to nb
      invariant rhs == row[nb] - Dot(row, x, lo, k)
    {
      rhs := rhs - a[r, k] * x[k];
    }
  }

  /** The back-substitution loop over the pivot rows, last row first. */
  method BackSubstituteInt(a: array2<int>, rowToPivotCol: seq<nat>, numPivots: nat, x: seq<int>)
    returns (y: Option<seq<int>>)
    requires a.Length1 >= 1 && |x| == a.Length1 - 1 && numPivots <= |rowToPivotCol| <= a.Length0
    requires PivotsIn(rowToPivotCol, a.Length0, a.Length1 - 1) && NonzeroPivots(Snapshot(a), rowToPivotCol)
    ensures y == BackSubInt(Snapshot(a), a.Length1, rowToPivotCol, numPivots, x)
  {
    ghost var g := Snapshot(a);
    var nb := a.Length1 - 1;
    var z := x;
    var j := numPivots;
    while j > 0
      invariant 0 <= j <= numPivots && |z| == nb
      invariant BackSubInt(g, a.Length1, rowToPivotCol, j, z) == BackSubInt(g, a.Length1, rowToPivotCol, numPivots, x)
    {
      j := j - 1;
      var pc := rowToPivotCol[j];
      var pivotVal := a[j, pc];
      assert pivotVal == g[j][pc] != 0;
      var rhs := RowRhs(a, j, z, pc + 1, nb);
      if TruncRem(rhs, pivotVal) != 0 || TruncDiv(rhs, pivotVal) < 0 {
        return None;
      }
      z := z[pc := TruncDiv(rhs, pivotVal)];
    }
    y := Some(z);
  }

  /** The sum loop. */
  method SumValues(x: seq<int>) returns (sum: int)
    ensures sum == Sum(x)
  {
    sum := 0;
    for k := 0 to |x|
      invariant sum == Sum(x[..k])
    {
      assert x[..k + 1][..k] == x[..k];
      sum := sum + x[k];
    }
    assert x[..|x|] == x;
  }

  /** `evaluate_solution`. */
  method EvaluateSolution(free: seq<nat>, vals: array<int>, a: array2<int>, pivots: map<nat, nat>, nb: nat)
    returns (r: Option<nat>)
    requires a.Length1 == nb + 1 && vals.Length == |free|
    requires ValidParams(SearchParams(free, Snapshot(a), pivots, nb))
    ensures r == Evaluate(SearchParams(free, Snapshot(a), pivots, nb), vals[..])
  {
    var x := SetFreeValues(nb, free, vals);
    var rowToPivotCol := PivotColumns(pivots, nb);
    var y := BackSubstituteInt(a, rowToPivotCol, |pivots|, x);
    if y.None? {
      return None;
    }
    var sum := SumValues(y.value);
    if 0 <= sum < I64_MAX {
      r := Some(sum);
    } else {
      r := None;
    }
  }

  /** `search_integer_solutions`: assigns `0..=effort` to each free
      variable from `idx` on, keeping the smallest total; the values before
      `idx` are left as they were. */
  method SearchIntegerSolutions(idx: nat, freeVals: array<int>, free: seq<nat>, a: array2<int>,
                                pivots: map<nat, nat>, nb: nat, minTotal: Option<nat>)
    returns (minTotal': Option<nat>)
    requires a.Length1 == nb + 1 && freeVals.Length == |free| && idx <= |free|
    requires ValidParams(SearchParams(free, Snapshot(a), pivots, nb))
    modifies freeVals
    ensures freeVals[..idx] == old(freeVals[..idx])
    ensures minTotal' == Search(SearchParams(free, Snapshot(a), pivots, nb), old(freeVals[..idx]), minTotal)
    decreases |free| - idx
  {
    ghost var p := SearchParams(free, Snapshot(a), pivots, nb);
    ghost var prefix := freeVals[..idx];
    if idx == |free| {
      assert freeVals[..] == prefix;
      var total := EvaluateSolution(free, freeVals, a, pivots, nb);
      if total.Some? && (minTotal.None? || total.value < minTotal.value) {
        return total;
      }
      return minTotal;
    }
    var effort := if |free| > 1 then 200 else 2000;
    minTotal' := minTotal;
    for v := 0 to effort + 1
      invariant freeVals[..idx] == prefix
      invariant Try(p, prefix, v, minTotal') == Try(p, prefix, 0, minTotal)
    {
      freeVals[idx] := v;
      assert freeVals[..idx + 1] == prefix + [v];
      minTotal' := SearchIntegerSolutions(idx + 1, freeVals, free, a, pivots, nb, minTotal');
      assert freeVals[..idx] == freeVals[..idx + 1][..idx];
    }
  }

  /** `find_minimum_integer_solution`: the search from no assigned value;
      `unwrap` panics when no assignment evaluated to a total. */
  method FindMinimumInteger(a: array2<int>, pivots: map<nat, nat>) returns (r: Result<nat>)
    requires a.Length1 >= 1
    requires ValidParams(SearchParams(FreeVars(pivots, a.Length1 - 1), Snapshot(a), pivots, a.Length1 - 1))
    ensures r == IntegerMinimum(Snapshot(a), a.Length1, pivots)
  {
    var nb := a.Length1 - 1;
    var free := FreeVariables(pivots, nb);
    var freeVals := new int[|free|](_ => 0);
    assert freeVals[..0] == [];
    var minTotal := SearchIntegerSolutions(0, freeVals, free, a, pivots, nb, None);
    if minTotal.None? {
      return Panic(UNWRAP_NONE);
    }
    r := Ok(minTotal.value);
  }

  /** `t` assigns every free variable, agrees with `prefix`, and keeps every
      later value in `0..=effort`. */
  predicate Completes(p: SearchParams, prefix: seq<int>, t: seq<int>)
  {
    && |prefix| <= |t| == |p.free| && t[..|prefix|] == prefix
    && forall i :: |prefix| <= i < |t| ==> 0 <= t[i] <= Effort(|p.free|)
  }

  /** A completion of `prefix + [v]` is a completion of `prefix` whose next
      value is `v`, and back. */
  lemma CompletesNext(p: SearchParams, prefix: seq<int>, v: nat, t: seq<int>)
    requires |prefix| < |t| && v <= Effort(|p.free|)
    ensures Completes(p, prefix + [v], t) <==> Completes(p, prefix, t) && t[|prefix|] == v
  {
    assert t[..|prefix| + 1] == t[..|prefix|] + [t[|prefix|]];
    if Completes(p, prefix + [v], t) {
      assert t[..|prefix|] == t[..|prefix| + 1][..|prefix|];
    }
  }

  /** The search from `prefix` returns the least of `best` and the totals
      of every completion of `prefix`, and that least value is `best` or
      the total of some completion. */
  lemma {:induction false} SearchIsLeast(p: SearchParams, prefix: seq<int>, best: Option<nat>)
    requires ValidParams(p) && |prefix| <= |p.free|
    ensures var r := Search(p, prefix, best);
      && (best.Some? ==> r.Some? && r.value <= best.value)
      && (forall t :: Completes(p, prefix, t) && Evaluate(p, t).Some? ==> r.Some? && r.value <= Evaluate(p, t).value)
      && (r == best || exists t :: Completes(p, prefix, t) && Evaluate(p, t) == r)
    decreases |p.free| - |prefix|, Effort(|p.free|) + 2
  {
    if |prefix| == |p.free| {
      forall t | Completes(p, prefix, t)
        ensures t == prefix
      {
        assert t[..|t|] == t;
      }
      assert Completes(p, prefix, prefix) by {
        assert prefix[..|prefix|] == prefix;
      }
    } else {
      TryIsLeast(p, prefix, 0, best);
    }
  }

  /** The loop from `v` returns the least of `best` and the totals of every
      completion of `prefix` whose next value is at least `v`. */
  lemma {:induction false} TryIsLeast(p: SearchParams, prefix: seq<int>, v: nat, best: Option<nat>)
    requires ValidParams(p) && |prefix| < |p.free|
    ensures var r := Try(p, prefix, v, best);
      && (best.Some? ==> r.Some? && r.value <= best.value)
      && (forall t :: Completes(p, prefix, t) && t[|prefix|] >= v && Evaluate(p, t).Some? ==>
            r.Some? && r.value <= Evaluate(p, t).value)
      && (r == best || exists t :: Completes(p, prefix, t) && t[|prefix|] >= v && Evaluate(p, t) == r)
    decreases |p.free| - |prefix|, Effort(|p.free|) + 1 - v
  {
    var k := |prefix|;
    if v <= Effort(|p.free|) {
      var mid := Search(p, prefix + [v], best);
      SearchIsLeast(p, prefix + [v], best);
      TryIsLeast(p, prefix, v + 1, mid);
      var r := Try(p, prefix, v, best);
      assert r == Try(p, prefix, v + 1, mid);
      forall t | Completes(p, prefix, t) && t[k] >= v && Evaluate(p, t).Some?
        ensures r.Some? && r.value <= Evaluate(p, t).value
      {
        if t[k] == v {
          CompletesNext(p, prefix, v, t);
        }
      }
      if r != best {
        if r == mid {
          var t :| Completes(p, prefix + [v], t) && Evaluate(p, t) == r;
          CompletesNext(p, prefix, v, t);
        } else {
          var t :| Completes(p, prefix, t) && t[k] >= v + 1 && Evaluate(p, t) == r;
        }
      }
    }
  }

  /** `find_minimum_integer_solution`'s value: with every free variable in
      `0..=effort`, the least total over all assignments that evaluate, and
      `None` (the unwrap panic) iff none does. */
  lemma {:induction false} IntegerMinimumIsLeast(p: SearchParams)
    requires ValidParams(p)
    ensures var r := Search(p, [], None);
      && (r.None? <==> forall t :: Completes(p, [], t) ==> Evaluate(p, t).None?)
      && (r.Some? ==> forall t :: Completes(p, [], t) && Evaluate(p, t).Some? ==> r.value <= Evaluate(p, t).value)
      && (r.Some? ==> exists t :: Completes(p, [], t) && Evaluate(p, t) == r)
  {
    SearchIsLeast(p, [], None);
  }

  // ------------------------------------------------------------ machines

  /** The lights' matrix is binary. */
  lemma LightMatrixBinary(m: Machine)
    ensures Binary(LightMatrix(m))
  {
  }

  /** The invariant after every coefficient column: the pivot map fits the
      matrix, and with the free columns it makes valid search parameters. */
  lemma {:induction false} InvFits(e: Elim, rows: nat, w: nat, gf2: bool)
    requires w >= 1 && ElimInv(e, rows, w, w - 1, gf2)
    ensures PivotsFit(e.g, w, e.pivots)
    ensures ValidParams(SearchParams(FreeVars(e.pivots, w - 1), e.g, e.pivots, w - 1))
  {
    var cs := PivotColumns(e.pivots, w - 1);
    assert PivotEntries(e.g, w, cs);
  }

  /** After elimination the pivot map fits the matrix. */
  lemma {:induction false} EliminatedFits(g: Matrix, w: nat, gf2: bool)
    requires IsGrid(g, |g|, w) && w >= 1 && (gf2 ==> Binary(g))
    ensures PivotsFit(Eliminated(g, w, gf2).g, w, Eliminated(g, w, gf2).pivots)
    ensures ValidParams(SearchParams(FreeVars(Eliminated(g, w, gf2).pivots, w - 1),
                                     Eliminated(g, w, gf2).g, Eliminated(g, w, gf2).pivots, w - 1))
  {
    EliminateFacts(g, w, w - 1, gf2);
    InvFits(Eliminated(g, w, gf2), |g|, w, gf2);
  }

  /** `find_optimal_button_presses_count` as a value: the GF(2) minimum of
      the eliminated lights' matrix, or the consistency panic. */
  function LightPresses(m: Machine): Result<nat>
  {
    var w := |m.buttons| + 1;
    var g := LightMatrix(m);
    var e := Eliminated(g, w, true);
    LightMatrixBinary(m);
    EliminatedFits(g, w, true);
    if Contradiction(e.g, w) then Panic(NO_SOLUTION)
    else Ok(MinGf2(e.g, w, e.pivots, Pow(2, |FreeVars(e.pivots, w - 1)|)))
  }

  /** `find_optimal_button_presses_for_voltage` as a value: the bounded
      integer minimum of the eliminated counters' matrix, the consistency
      panic, or the `unwrap` panic. */
  function VoltagePresses(m: Machine): Result<nat>
  {
    var w := |m.buttons| + 1;
    var g := VoltageMatrix(m);
    var e := Eliminated(g, w, false);
    EliminatedFits(g, w, false);
    if Contradiction(e.g, w) then Panic(NO_SOLUTION)
    else IntegerMinimum(e.g, w, e.pivots)
  }

  /** `find_minimum_integer_solution` as a value. */
  function IntegerMinimum(g: Matrix, w: nat, pivots: map<nat, nat>): Result<nat>
    requires w >= 1 && ValidParams(SearchParams(FreeVars(pivots, w - 1), g, pivots, w - 1))
  {
    var best := Search(SearchParams(FreeVars(pivots, w - 1), g, pivots, w - 1), [], None);
    if best.Some? then Ok(best.value) else Panic(UNWRAP_NONE)
  }

  /** Part B's value per machine: `assert!(presses > 0)`. */
  function CheckedVoltagePresses(m: Machine): Result<nat>
  {
    match VoltagePresses(m)
    case Panic(why) => Panic(why)
    case Ok(presses) => if presses > 0 then Ok(presses) else Panic(NOT_POSITIVE)
  }

  /** Part A per machine: a panic exactly when, after elimination, a row
      below the pivot rows asks for an odd number of toggles from no
      button; otherwise the fewest presses over every assignment of the
      free buttons (at most `usize::MAX`), attained by one of them. */
  lemma {:induction false} LightPressesIsLeast(m: Machine)
    ensures var w := |m.buttons| + 1;
      var e := Eliminated(LightMatrix(m), w, true);
      && PivotsFit(e.g, w, e.pivots)
      && (LightPresses(m).Panic? <==> exists r :: e.pivotRow <= r < |m.lights| && e.g[r][w - 1] != 0)
      && (LightPresses(m).Ok? ==>
            var n := Pow(2, |FreeVars(e.pivots, w - 1)|);
            && (forall i :: 0 <= i < n ==> LightPresses(m).value <= Presses(CandidateGf2(e.g, w, e.pivots, i)))
            && (LightPresses(m).value == USIZE_MAX
                || exists i :: 0 <= i < n && LightPresses(m).value == Presses(CandidateGf2(e.g, w, e.pivots, i))))
  {
    var w := |m.buttons| + 1;
    var g := LightMatrix(m);
    LightMatrixBinary(m);
    EliminatedFits(g, w, true);
    ContradictionAfterElimination(g, w, true);
    var e := Eliminated(g, w, true);
    MinGf2IsLeast(e.g, w, e.pivots, Pow(2, |FreeVars(e.pivots, w - 1)|));
  }

  /** Part B per machine: a panic when, after elimination, a row below the
      pivot rows asks for a nonzero count from no button, or when no
      assignment of the free buttons in `0..=effort` evaluates; otherwise
      the least evaluated total, attained by one assignment. */
  lemma {:induction false} VoltagePressesIsLeast(m: Machine)
    ensures var w := |m.buttons| + 1;
      var e := Eliminated(VoltageMatrix(m), w, false);
      var p := SearchParams(FreeVars(e.pivots, w - 1), e.g, e.pivots, w - 1);
      && ValidParams(p)
      && (VoltagePresses(m).Panic? <==>
            (exists r :: e.pivotRow <= r < |m.voltages| && e.g[r][w - 1] != 0)
            || forall t :: Completes(p, [], t) ==> Evaluate(p, t).None?)
      && (VoltagePresses(m).Ok? ==>
            && (forall t :: Completes(p, [], t) && Evaluate(p, t).Some? ==> VoltagePresses(m).value <= Evaluate(p, t).value)
            && exists t :: Completes(p, [], t) && Evaluate(p, t) == Some(VoltagePresses(m).value))
  {
    var w := |m.buttons| + 1;
    var g := VoltageMatrix(m);
    EliminatedFits(g, w, false);
    ContradictionAfterElimination(g, w, false);
    var e := Eliminated(g, w, false);
    IntegerMinimumIsLeast(SearchParams(FreeVars(e.pivots, w - 1), e.g, e.pivots, w - 1));
  }

  /** `find_optimal_button_presses_count`. */
  method FindOptimalButtonPressesCount(m: Machine) returns (r: Result<nat>)
    ensures r == LightPresses(m)
  {
    var a := BuildLightMatrix(m);
    ghost var g := Snapshot(a);
    ghost var e := Eliminated(g, a.Length1, true);
    LightMatrixBinary(m);
    EliminatedFits(g, a.Length1, true);
    var pivotCols := PerformElimination(a, true);
    assert Snapshot(a) == e.g && pivotCols == e.pivots;
    assert PivotsFit(e.g, a.Length1, e.pivots);
    var consistent := CheckConsistency(a);
    if consistent.Panic? {
      assert Contradiction(e.g, a.Length1);
      return Panic(consistent.why);
    }
    var presses := FindMinimumGf2(a, pivotCols);
    assert LightPresses(m).Ok? && LightPresses(m).value == presses;
    r := Ok(presses);
  }

  /** `find_optimal_button_presses_for_voltage`. */
  method FindOptimalButtonPressesForVoltage(m: Machine) returns (r: Result<nat>)
    ensures r == VoltagePresses(m)
  {
    var a := BuildVoltageMatrix(m);
    ghost var g := Snapshot(a);
    ghost var e := Eliminated(g, a.Length1, false);
    EliminatedFits(g, a.Length1, false);
    var pivotColToRow := PerformElimination(a, false);
    assert Snapshot(a) == e.g && pivotColToRow == e.pivots;
    var consistent := CheckConsistency(a);
    if consistent.Panic? {
      assert Contradiction(e.g, a.Length1);
      return Panic(consistent.why);
    }
    assert VoltagePresses(m) == IntegerMinimum(e.g, a.Length1, e.pivots);
    r := FindMinimumInteger(a, pivotColToRow);
  }

  /** `part_a`: the sum over the machines. */
  method PartA(machines: seq<Machine>) returns (r: Result<nat>)
    ensures r == SumAll(LightPresses, machines)
  {
    var sum := 0;
    var i := 0;
    while i < |machines|
      invariant 0 <= i <= |machines|
      invariant SumAll(LightPresses, machines[..i]).Ok?
      invariant SumAll(LightPresses, machines[..i]).value == sum
    {
      var presses := FindOptimalButtonPressesCount(machines[i]);
      if presses.Panic? {
        SumAllFirstPanic(LightPresses, machines, i);
        return Panic(presses.why);
      }
      SumAllSnoc(LightPresses, machines, i, sum, presses.value);
      sum := sum + presses.value;
      i := i + 1;
    }
    assert machines[..|machines|] == machines;
    return Ok(sum);
  }

  /** `part_b`: the sum over the machines, each asserted positive. */
  method PartB(machines: seq<Machine>) returns (r: Result<nat>)
    ensures r == SumAll(CheckedVoltagePresses, machines)
  {
    var sum := 0;
    var i := 0;
    while i < |machines|
      invariant 0 <= i <= |machines|
      invariant SumAll(CheckedVoltagePresses, machines[..i]).Ok?
      invariant SumAll(CheckedVoltagePresses, machines[..i]).value == sum
    {
      var presses := FindOptimalButtonPressesForVoltage(machines[i]);
      if presses.Panic? {
        SumAllFirstPanic(CheckedVoltagePresses, machines, i);
        return Panic(presses.why);
      }
      if presses.value == 0 {
        SumAllFirstPanic(CheckedVoltagePresses, machines, i);
        return Panic(NOT_POSITIVE);
      }
      assert CheckedVoltagePresses(machines[i]).value == presses.value;
      SumAllSnoc(CheckedVoltagePresses, machines, i, sum, presses.value);
      sum := sum + presses.value;
      i := i + 1;
    }
    assert machines[..|machines|] == machines;
    return Ok(sum);
  }
}
