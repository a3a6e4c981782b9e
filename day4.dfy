/** Day 4: rolls of paper (`@`) on a grid.  A roll is accessible when fewer
    than four of its eight neighbours hold rolls.  Part A counts the
    accessible rolls; part B removes them round after round until none is
    accessible and counts every roll removed. */
module Day4 {
  import opened Wrappers
  import opened Text
  import opened Grid
  import opened RustInt

  const ROLL: byte := 64   // '@'
  const EMPTY: byte := 46  // '.'

  /** The row-major index of a position, and the position of an index. */
  function IndexOf(p: Pos, cols: nat): nat
  {
    p.0 * cols + p.1
  }

  function PosOf(k: nat, cols: nat): (p: Pos)
    requires cols > 0
    ensures p.1 < cols
  {
    (k / cols, k % cols)
  }

  lemma PosOfInBounds(k: nat, rows: nat, cols: nat)
    requires k < rows * cols
    ensures cols > 0 && InBounds(rows, cols, PosOf(k, cols)) && IndexOf(PosOf(k, cols), cols) == k
  {
    if cols == 0 {
      assert false;
    }
    NatDivMod(k, cols);
  }

  lemma PosOfIndex(p: Pos, rows: nat, cols: nat)
    requires InBounds(rows, cols, p)
    ensures IndexOf(p, cols) < rows * cols && PosOf(IndexOf(p, cols), cols) == p
  {
    DivUnique(IndexOf(p, cols), cols, p.0, p.1);
    MulLe(cols, p.0, rows - 1);
  }

  /** `new_pos != pos && input_file.get(new_pos).unwrap_or(&b' ') == &b'@'`:
      a neighbour other than `p` holding a roll.  An out-of-bounds position
      reads as a blank, never as a roll. */
  predicate RollAt(g: seq<seq<byte>>, rows: nat, cols: nat, p: Pos, q: Pos)
    requires IsGrid(g, rows, cols)
  {
    q != p && Get(g, rows, cols, q.0, q.1) == Some(ROLL)
  }

  /** The number of positions of `qs` that `RollAt` accepts. */
  function CountRolls(g: seq<seq<byte>>, rows: nat, cols: nat, p: Pos, qs: seq<Pos>): (n: nat)
    requires IsGrid(g, rows, cols)
    ensures n <= |qs|
  {
    if qs == [] then 0
    else CountRolls(g, rows, cols, p, qs[..|qs| - 1]) + (if RollAt(g, rows, cols, p, qs[|qs| - 1]) then 1 else 0)
  }

  /** The in-bounds 8-neighbours of `p`. */
  function Neighbours(rows: nat, cols: nat, p: Pos): seq<Pos>
  {
    AdjacentPositions(rows, cols, p, ALL)
  }

  /** The 8-neighbours of `p` that hold a roll. */
  function RollNeighbours(g: seq<seq<byte>>, rows: nat, cols: nat, p: Pos): (s: set<Pos>)
    requires IsGrid(g, rows, cols)
  {
    set q | q in Neighbours(rows, cols, p) && RollAt(g, rows, cols, p, q)
  }

  /** The count `find_valid_ones` makes for `p`. */
  function NeighbourRolls(g: seq<seq<byte>>, rows: nat, cols: nat, p: Pos): nat
    requires IsGrid(g, rows, cols)
  {
    CountRolls(g, rows, cols, p, Neighbours(rows, cols, p))
  }

  /** A roll with fewer than four rolls around it. */
  predicate IsAccessible(g: seq<seq<byte>>, rows: nat, cols: nat, p: Pos)
    requires IsGrid(g, rows, cols) && InBounds(rows, cols, p)
  {
    g[p.0][p.1] == ROLL && NeighbourRolls(g, rows, cols, p) < 4
  }

  /** The accessible rolls among the first `n` cells in row-major order, in
      that order. */
  function AccessibleBelow(g: seq<seq<byte>>, rows: nat, cols: nat, n: nat): (s: seq<Pos>)
    requires IsGrid(g, rows, cols) && n <= rows * cols
  {
    if n == 0 then []
    else
      PosOfInBounds(n - 1, rows, cols);
      var p := PosOf(n - 1, cols);
      AccessibleBelow(g, rows, cols, n - 1) + (if IsAccessible(g, rows, cols, p) then [p] else [])
  }

  function Accessible(g: seq<seq<byte>>, rows: nat, cols: nat): seq<Pos>
    requires IsGrid(g, rows, cols)
  {
    AccessibleBelow(g, rows, cols, rows * cols)
  }

  /** Positions listed in strictly increasing row-major order. */
  predicate RowMajorSorted(s: seq<Pos>, cols: nat)
  {
    forall i, j :: 0 <= i < j < |s| ==> IndexOf(s[i], cols) < IndexOf(s[j], cols)
  }

  /** The count made for `p` is the number of its 8-neighbours holding a
      roll: `AdjacentPositions` lists each of them once. */
  lemma NeighbourRollsIsRollNeighbours(g: seq<seq<byte>>, rows: nat, cols: nat, p: Pos)
    requires IsGrid(g, rows, cols)
    ensures NeighbourRolls(g, rows, cols, p) == |RollNeighbours(g, rows, cols, p)|
    ensures forall q: Pos :: q in RollNeighbours(g, rows, cols, p) <==>
              InBounds(rows, cols, q) && KingStep(p, q) && g[q.0][q.1] == ROLL
  {
    var ns := Neighbours(rows, cols, p);
    AdjacentPositionsDistinct(rows, cols, p, ALL);
    CountIsSize(g, rows, cols, p, ns);
    forall q: Pos
      ensures q in RollNeighbours(g, rows, cols, p) <==>
              InBounds(rows, cols, q) && KingStep(p, q) && g[q.0][q.1] == ROLL
    {
      AllOffsetIsKingStep(p, q);
    }
  }

  lemma {:induction false} CountIsSize(g: seq<seq<byte>>, rows: nat, cols: nat, p: Pos, qs: seq<Pos>)
    requires IsGrid(g, rows, cols) && NoDuplicates(qs)
    ensures CountRolls(g, rows, cols, p, qs) == |set q | q in qs && RollAt(g, rows, cols, p, q)|
  {
    if qs != [] {
      var init, last := qs[..|qs| - 1], qs[|qs| - 1];
      assert NoDuplicates(init);
      CountIsSize(g, rows, cols, p, init);
      var s := set q | q in init && RollAt(g, rows, cols, p, q);
      var all := set q | q in qs && RollAt(g, rows, cols, p, q);
      assert last !in init;
      assert qs == init + [last];
      assert forall q :: q in qs <==> q in init || q == last;
      if RollAt(g, rows, cols, p, last) {
        assert all == s + {last};
      } else {
        assert all == s;
      }
    }
  }

  /** `AccessibleBelow` holds exactly the accessible rolls before index
      `n`. */
  lemma {:induction false} AccessibleBelowBound(g: seq<seq<byte>>, rows: nat, cols: nat, n: nat)
    requires IsGrid(g, rows, cols) && n <= rows * cols
    ensures forall q: Pos :: q in AccessibleBelow(g, rows, cols, n) ==> InBounds(rows, cols, q) && IndexOf(q, cols) < n
  {
    if n > 0 {
      var s := AccessibleBelow(g, rows, cols, n - 1);
      AccessibleBelowBound(g, rows, cols, n - 1);
      PosOfInBounds(n - 1, rows, cols);
      var p := PosOf(n - 1, cols);
      var t := if IsAccessible(g, rows, cols, p) then [p] else [];
      assert AccessibleBelow(g, rows, cols, n) == s + t;
      forall q: Pos | q in s + t
        ensures InBounds(rows, cols, q) && IndexOf(q, cols) < n
      {
        if q !in s {
          assert q == p;
        }
      }
    }
  }

  lemma {:induction false} AccessibleBelowMembers(g: seq<seq<byte>>, rows: nat, cols: nat, n: nat)
    requires IsGrid(g, rows, cols) && n <= rows * cols
    ensures forall q: Pos :: q in AccessibleBelow(g, rows, cols, n) ==> InBounds(rows, cols, q) && IndexOf(q, cols) < n
    ensures forall q: Pos :: InBounds(rows, cols, q) && IndexOf(q, cols) < n ==>
              (q in AccessibleBelow(g, rows, cols, n) <==> IsAccessible(g, rows, cols, q))
  {
    AccessibleBelowBound(g, rows, cols, n);
    if n > 0 {
      AccessibleBelowMembers(g, rows, cols, n - 1);
      PosOfInBounds(n - 1, rows, cols);
      var p := PosOf(n - 1, cols);
      forall q: Pos | InBounds(rows, cols, q) && IndexOf(q, cols) == n - 1
        ensures q == p
      {
        PosOfIndex(q, rows, cols);
      }
    }
  }

  /** A position after every listed one extends a sorted list. */
  lemma SortedAppend(s: seq<Pos>, p: Pos, cols: nat)
    requires RowMajorSorted(s, cols) && forall q :: q in s ==> IndexOf(q, cols) < IndexOf(p, cols)
    ensures RowMajorSorted(s + [p], cols)
  {
    var t := s + [p];
    forall i, j | 0 <= i < j < |t|
      ensures IndexOf(t[i], cols) < IndexOf(t[j], cols)
    {
      assert t[i] == s[i];
      if j < |s| {
        assert t[j] == s[j];
      } else {
        assert s[i] in s;
      }
    }
  }

  lemma {:induction false} AccessibleBelowSorted(g: seq<seq<byte>>, rows: nat, cols: nat, n: nat)
    requires IsGrid(g, rows, cols) && n <= rows * cols
    ensures RowMajorSorted(AccessibleBelow(g, rows, cols, n), cols)
  {
    if n > 0 {
      AccessibleBelowSorted(g, rows, cols, n - 1);
      AccessibleBelowBound(g, rows, cols, n - 1);
      PosOfInBounds(n - 1, rows, cols);
      SortedStep(AccessibleBelow(g, rows, cols, n - 1), PosOf(n - 1, cols), cols, n - 1, IsAccessible(g, rows, cols, PosOf(n - 1, cols)));
    }
  }

  /** Appending, or not, the position of index `k` to a sorted list of
      positions of smaller index keeps it sorted. */
  lemma SortedStep(s: seq<Pos>, p: Pos, cols: nat, k: nat, keep: bool)
    requires RowMajorSorted(s, cols) && IndexOf(p, cols) == k
    requires forall q: Pos :: q in s ==> IndexOf(q, cols) < k
    ensures RowMajorSorted(s + (if keep then [p] else []), cols)
  {
    if keep {
      SortedAppend(s, p, cols);
    } else {
      assert s + [] == s;
    }
  }

  /** `find_valid_ones` lists, in row-major order, exactly the rolls having
      fewer than four roll neighbours. */
  lemma AccessibleIsValid(g: seq<seq<byte>>, rows: nat, cols: nat)
    requires IsGrid(g, rows, cols)
    ensures RowMajorSorted(Accessible(g, rows, cols), cols)
    ensures NoDuplicates(Accessible(g, rows, cols))
    ensures forall q: Pos :: q in Accessible(g, rows, cols) <==>
              InBounds(rows, cols, q) && g[q.0][q.1] == ROLL && NeighbourRolls(g, rows, cols, q) < 4
  {
    AccessibleBelowSorted(g, rows, cols, rows * cols);
    AccessibleBelowMembers(g, rows, cols, rows * cols);
    forall q: Pos | InBounds(rows, cols, q)
      ensures IndexOf(q, cols) < rows * cols
    {
      PosOfIndex(q, rows, cols);
    }
  }

  /** The inner loop of `find_valid_ones`: count the roll neighbours of
      `pos`. */
  method CountNeighbourRolls(a: array2<byte>, pos: Pos) returns (count: nat)
    ensures count == NeighbourRolls(Snapshot(a), a.Length0, a.Length1, pos)
  {
    ghost var g := Snapshot(a);
    var neighbours := AdjacentPositions(a.Length0, a.Length1, pos, ALL);
    count := 0;
    for j := 0 to |neighbours|
      invariant count == CountRolls(g, a.Length0, a.Length1, pos, neighbours[..j])
    {
      var q := neighbours[j];
      assert neighbours[..j + 1][..j] == neighbours[..j];
      if q != pos && a[q.0, q.1] == ROLL {
        count := count + 1;
      }
    }
    assert neighbours[..|neighbours|] == neighbours;
  }

  /** The test `find_valid_ones` applies to one cell. */
  method CheckCell(a: array2<byte>, pos: Pos) returns (accessible: bool)
    requires InBounds(a.Length0, a.Length1, pos)
    ensures accessible == IsAccessible(Snapshot(a), a.Length0, a.Length1, pos)
  {
    accessible := false;
    if a[pos.0, pos.1] == ROLL {
      var count := CountNeighbourRolls(a, pos);
      accessible := count < 4;
    }
  }

  /** `find_valid_ones`. */
  method FindValidOnes(a: array2<byte>) returns (valid: seq<Pos>)
    ensures valid == Accessible(Snapshot(a), a.Length0, a.Length1)
  {
    ghost var g := Snapshot(a);
    var rows, cols := a.Length0, a.Length1;
    valid := [];
    for k := 0 to rows * cols
      invariant valid == AccessibleBelow(g, rows, cols, k)
    {
      PosOfInBounds(k, rows, cols);
      var pos := PosOf(k, cols);
      var accessible := CheckCell(a, pos);
      if accessible {
        valid := valid + [pos];
      }
    }
  }

  /** `part_a`: the number of accessible rolls. */
  method PartA(a: array2<byte>) returns (r: nat)
    ensures r == |Accessible(Snapshot(a), a.Length0, a.Length1)|
  {
    var valid := FindValidOnes(a);
    r := |valid|;
  }

  /** Every position of `ps` lies inside a `rows` by `cols` grid. */
  predicate AllInBounds(rows: nat, cols: nat, ps: seq<Pos>)
  {
    forall k :: 0 <= k < |ps| ==> InBounds(rows, cols, ps[k])
  }

  /** The grid with every position of `ps` set to `.`. */
  function ClearAll(g: seq<seq<byte>>, rows: nat, cols: nat, ps: seq<Pos>): (h: seq<seq<byte>>)
    requires IsGrid(g, rows, cols) && AllInBounds(rows, cols, ps)
    ensures IsGrid(h, rows, cols)
    ensures forall r, c :: 0 <= r < rows && 0 <= c < cols ==>
              h[r][c] == if (r, c) in ps then EMPTY else g[r][c]
  {
    if ps == [] then g
    else
      var last := ps[|ps| - 1];
      assert InBounds(rows, cols, last);
      Update(ClearAll(g, rows, cols, ps[..|ps| - 1]), last.0, last.1, EMPTY)
  }

  /** Clearing distinct rolls lowers the roll count by their number. */
  lemma {:induction false} ClearAllCount(g: seq<seq<byte>>, rows: nat, cols: nat, ps: seq<Pos>)
    requires IsGrid(g, rows, cols) && AllInBounds(rows, cols, ps)
    requires NoDuplicates(ps) && forall k :: 0 <= k < |ps| ==> Get(g, rows, cols, ps[k].0, ps[k].1) == Some(ROLL)
    ensures Count(ClearAll(g, rows, cols, ps), ROLL) == Count(g, ROLL) - |ps|
  {
    if ps != [] {
      var init, last := ps[..|ps| - 1], ps[|ps| - 1];
      assert NoDuplicates(init);
      ClearAllCount(g, rows, cols, init);
      assert last !in init;
      CountUpdate(ClearAll(g, rows, cols, init), last.0, last.1, ROLL, EMPTY);
    }
  }

  /** One round of `part_b`: the accessible rolls all become `.`. */
  function Round(g: seq<seq<byte>>, rows: nat, cols: nat): (h: seq<seq<byte>>)
    requires IsGrid(g, rows, cols)
  {
    AccessibleBelowMembers(g, rows, cols, rows * cols);
    ClearAll(g, rows, cols, Accessible(g, rows, cols))
  }

  /** A round changes exactly the accessible rolls, into `.`. */
  lemma RoundCells(g: seq<seq<byte>>, rows: nat, cols: nat)
    requires IsGrid(g, rows, cols)
    ensures IsGrid(Round(g, rows, cols), rows, cols)
    ensures forall r, c :: 0 <= r < rows && 0 <= c < cols ==>
              Round(g, rows, cols)[r][c] == if IsAccessible(g, rows, cols, (r, c)) then EMPTY else g[r][c]
  {
    AccessibleIsValid(g, rows, cols);
  }

  /** A round removes as many rolls as it found accessible. */
  lemma RoundCount(g: seq<seq<byte>>, rows: nat, cols: nat)
    requires IsGrid(g, rows, cols)
    ensures Count(Round(g, rows, cols), ROLL) == Count(g, ROLL) - |Accessible(g, rows, cols)|
  {
    var ps := Accessible(g, rows, cols);
    AccessibleIsValid(g, rows, cols);
    forall k | 0 <= k < |ps|
      ensures InBounds(rows, cols, ps[k]) && Get(g, rows, cols, ps[k].0, ps[k].1) == Some(ROLL)
    {
      assert ps[k] in ps;
    }
    ClearAllCount(g, rows, cols, ps);
  }

  /** The inner loop of `part_b`: clear each found position, counting it
      and noting that something was removed. */
  method ClearPositions(a: array2<byte>, valid: seq<Pos>, count0: nat, removed0: bool)
    returns (count: nat, removed: bool)
    requires AllInBounds(a.Length0, a.Length1, valid)
    modifies a
    ensures Snapshot(a) == ClearAll(old(Snapshot(a)), a.Length0, a.Length1, valid)
    ensures count == count0 + |valid| && removed == (removed0 || |valid| > 0)
  {
    ghost var g := Snapshot(a);
    count, removed := count0, removed0;
    for i := 0 to |valid|
      invariant Snapshot(a) == ClearAll(g, a.Length0, a.Length1, valid[..i])
      invariant count == count0 + i && removed == (removed0 || i > 0)
    {
      assert valid[..i + 1][..i] == valid[..i];
      SetCell(a, valid[i].0, valid[i].1, EMPTY);
      count := count + 1;
      removed := true;
    }
    assert valid[..|valid|] == valid;
  }

  /** No roll of `g` is accessible. */
  predicate Stable(g: seq<seq<byte>>, rows: nat, cols: nat)
    requires IsGrid(g, rows, cols)
  {
    forall r, c :: 0 <= r < rows && 0 <= c < cols && g[r][c] == ROLL ==>
      NeighbourRolls(g, rows, cols, (r, c)) >= 4
  }

  /** `find_valid_ones` comes back empty exactly on a stable grid. */
  lemma StableIffNoneAccessible(g: seq<seq<byte>>, rows: nat, cols: nat)
    requires IsGrid(g, rows, cols)
    ensures Stable(g, rows, cols) <==> Accessible(g, rows, cols) == []
  {
    AccessibleIsValid(g, rows, cols);
    var s := Accessible(g, rows, cols);
    if s != [] {
      assert s[0] in s;
    }
  }

  /** Every cell of `h` is the cell of `g`, or a roll of `g` turned into
      `.`. */
  predicate OnlyCleared(g: seq<seq<byte>>, h: seq<seq<byte>>, rows: nat, cols: nat)
    requires IsGrid(g, rows, cols) && IsGrid(h, rows, cols)
  {
    forall r, c :: 0 <= r < rows && 0 <= c < cols ==>
      h[r][c] == g[r][c] || (g[r][c] == ROLL && h[r][c] == EMPTY)
  }

  /** What one round keeps: only rolls get cleared since the start, and the
      rolls found are the rolls removed. */
  lemma RoundStep(g0: seq<seq<byte>>, g: seq<seq<byte>>, rows: nat, cols: nat)
    requires IsGrid(g0, rows, cols) && IsGrid(g, rows, cols) && OnlyCleared(g0, g, rows, cols)
    ensures IsGrid(Round(g, rows, cols), rows, cols)
    ensures OnlyCleared(g0, Round(g, rows, cols), rows, cols)
    ensures Count(Round(g, rows, cols), ROLL) + |Accessible(g, rows, cols)| == Count(g, ROLL)
  {
    RoundCells(g, rows, cols);
    RoundCount(g, rows, cols);
  }

  /** Rounds applied until no roll is accessible: what `part_b` leaves
      behind.  Every round with something to remove lowers the roll count. */
  function Peel(g: seq<seq<byte>>, rows: nat, cols: nat): (h: seq<seq<byte>>)
    requires IsGrid(g, rows, cols)
    ensures IsGrid(h, rows, cols)
    decreases Count(g, ROLL)
  {
    if Accessible(g, rows, cols) == [] then g
    else
      RoundCells(g, rows, cols);
      RoundCount(g, rows, cols);
      Peel(Round(g, rows, cols), rows, cols)
  }

  /** The rolls of `h` are rolls of `g`. */
  predicate RollsWithin(h: seq<seq<byte>>, g: seq<seq<byte>>, rows: nat, cols: nat)
    requires IsGrid(h, rows, cols) && IsGrid(g, rows, cols)
  {
    forall r, c :: 0 <= r < rows && 0 <= c < cols && h[r][c] == ROLL ==> g[r][c] == ROLL
  }

  /** More rolls around never mean fewer counted. */
  lemma {:induction false} CountRollsMono(h: seq<seq<byte>>, g: seq<seq<byte>>, rows: nat, cols: nat, p: Pos, qs: seq<Pos>)
    requires IsGrid(h, rows, cols) && IsGrid(g, rows, cols) && RollsWithin(h, g, rows, cols)
    ensures CountRolls(h, rows, cols, p, qs) <= CountRolls(g, rows, cols, p, qs)
  {
    if qs != [] {
      CountRollsMono(h, g, rows, cols, p, qs[..|qs| - 1]);
    }
  }

  /** Peeling only clears rolls, removes as many as it clears, and ends on
      a stable grid. */
  lemma {:induction false} PeelFacts(g: seq<seq<byte>>, rows: nat, cols: nat)
    requires IsGrid(g, rows, cols)
    ensures Stable(Peel(g, rows, cols), rows, cols)
    ensures OnlyCleared(g, Peel(g, rows, cols), rows, cols)
    decreases Count(g, ROLL)
  {
    if Accessible(g, rows, cols) == [] {
      StableIffNoneAccessible(g, rows, cols);
    } else {
      var h := Round(g, rows, cols);
      RoundCells(g, rows, cols);
      RoundCount(g, rows, cols);
      PeelFacts(h, rows, cols);
    }
  }

  /** Peeling keeps every stable sub-grid: a set of rolls each with at least
      four rolls of the set around it is never removed, so `Peel` leaves the
      largest stable grid inside `g`. */
  lemma {:induction false} PeelKeepsStable(g: seq<seq<byte>>, h: seq<seq<byte>>, rows: nat, cols: nat)
    requires IsGrid(g, rows, cols) && IsGrid(h, rows, cols)
    requires RollsWithin(h, g, rows, cols) && Stable(h, rows, cols)
    ensures RollsWithin(h, Peel(g, rows, cols), rows, cols)
    decreases Count(g, ROLL)
  {
    if Accessible(g, rows, cols) != [] {
      var g' := Round(g, rows, cols);
      RoundCells(g, rows, cols);
      RoundCount(g, rows, cols);
      forall r, c | 0 <= r < rows && 0 <= c < cols && h[r][c] == ROLL
        ensures g'[r][c] == ROLL
      {
        CountRollsMono(h, g, rows, cols, (r, c), Neighbours(rows, cols, (r, c)));
      }
      PeelKeepsStable(g', h, rows, cols);
    }
  }

  /** `part_b`: remove accessible rolls until none is left and count them.
      Each round removes at least one roll or ends the loop, so the roll
      count bounds the number of rounds. */
  method PartB(a: array2<byte>) returns (validCount: nat)
    modifies a
    ensures validCount == Count(old(Snapshot(a)), ROLL) - Count(Snapshot(a), ROLL)
    ensures Stable(Snapshot(a), a.Length0, a.Length1)
    ensures OnlyCleared(old(Snapshot(a)), Snapshot(a), a.Length0, a.Length1)
    ensures Snapshot(a) == Peel(old(Snapshot(a)), a.Length0, a.Length1)
  {
    ghost var g0 := Snapshot(a);
    var rows, cols := a.Length0, a.Length1;
    validCount := 0;
    var removed := true;
    ghost var k := 0;
    while removed
      invariant validCount + Count(Snapshot(a), ROLL) == Count(g0, ROLL)
      invariant !removed ==> Accessible(Snapshot(a), rows, cols) == []
      invariant OnlyCleared(g0, Snapshot(a), rows, cols)
      invariant Snapshot(a) == Rounds(g0, rows, cols, k)
      decreases Count(Snapshot(a), ROLL) + (if removed then 1 else 0)
    {
      ghost var before := Snapshot(a);
      removed := false;
      var valid := FindValidOnes(a);
      AccessibleInBounds(before, rows, cols);
      validCount, removed := ClearPositions(a, valid, validCount, removed);
      assert Snapshot(a) == Round(before, rows, cols);
      RoundLoopStep(g0, before, rows, cols);
      RoundsSnoc(g0, rows, cols, k);
      k := k + 1;
    }
    PeelDone(g0, k, Snapshot(a), rows, cols);
  }

  /** The accessible rolls lie on the grid. */
  lemma AccessibleInBounds(g: seq<seq<byte>>, rows: nat, cols: nat)
    requires IsGrid(g, rows, cols)
    ensures AllInBounds(rows, cols, Accessible(g, rows, cols))
  {
    AccessibleBelowMembers(g, rows, cols, rows * cols);
  }

  /** `k` rounds. */
  function Rounds(g: seq<seq<byte>>, rows: nat, cols: nat, k: nat): (h: seq<seq<byte>>)
    requires IsGrid(g, rows, cols)
    ensures IsGrid(h, rows, cols)
    decreases k
  {
    if k == 0 then g
    else
      RoundCells(g, rows, cols);
      Rounds(Round(g, rows, cols), rows, cols, k - 1)
  }

  /** One more round at the end. */
  lemma {:induction false} RoundsSnoc(g: seq<seq<byte>>, rows: nat, cols: nat, k: nat)
    requires IsGrid(g, rows, cols)
    ensures IsGrid(Rounds(g, rows, cols, k), rows, cols)
    ensures Rounds(g, rows, cols, k + 1) == Round(Rounds(g, rows, cols, k), rows, cols)
    decreases k
  {
    RoundCells(g, rows, cols);
    if k > 0 {
      RoundsSnoc(Round(g, rows, cols), rows, cols, k - 1);
    }
  }

  /** Rounds that end with nothing accessible have reached the peel. */
  lemma {:induction false} RoundsReachPeel(g: seq<seq<byte>>, rows: nat, cols: nat, k: nat)
    requires IsGrid(g, rows, cols) && Accessible(Rounds(g, rows, cols, k), rows, cols) == []
    ensures Rounds(g, rows, cols, k) == Peel(g, rows, cols)
    decreases k
  {
    PeelUnfold(g, rows, cols);
    RoundLoopStep(g, g, rows, cols);
    if k > 0 {
      RoundsReachPeel(Round(g, rows, cols), rows, cols, k - 1);
    }
  }

  /** When the loop stops the grid is stable and is the peel of the input. */
  lemma PeelDone(g0: seq<seq<byte>>, k: nat, g: seq<seq<byte>>, rows: nat, cols: nat)
    requires IsGrid(g0, rows, cols) && IsGrid(g, rows, cols)
    requires Accessible(g, rows, cols) == [] && g == Rounds(g0, rows, cols, k)
    ensures Stable(g, rows, cols) && g == Peel(g0, rows, cols)
  {
    StableIffNoneAccessible(g, rows, cols);
    RoundsReachPeel(g0, rows, cols, k);
  }

  /** What one pass of the `while removed` loop keeps: only cleared rolls,
      the count of removed rolls, and the final peeled grid; a pass that
      finds nothing changes nothing. */
  lemma RoundLoopStep(g0: seq<seq<byte>>, g: seq<seq<byte>>, rows: nat, cols: nat)
    requires IsGrid(g0, rows, cols) && IsGrid(g, rows, cols) && OnlyCleared(g0, g, rows, cols)
    ensures IsGrid(Round(g, rows, cols), rows, cols)
    ensures OnlyCleared(g0, Round(g, rows, cols), rows, cols)
    ensures Count(Round(g, rows, cols), ROLL) + |Accessible(g, rows, cols)| == Count(g, ROLL)
    ensures Peel(Round(g, rows, cols), rows, cols) == Peel(g, rows, cols)
    ensures Accessible(g, rows, cols) == [] ==> Round(g, rows, cols) == g
  {
    RoundStep(g0, g, rows, cols);
    PeelUnfold(g, rows, cols);
  }

  /** `Peel` is a fixpoint of the round: a grid with nothing accessible is
      its own peel, and otherwise a round does not change the peel. */
  lemma PeelUnfold(g: seq<seq<byte>>, rows: nat, cols: nat)
    requires IsGrid(g, rows, cols)
    ensures Accessible(g, rows, cols) == [] ==> Peel(g, rows, cols) == g
    ensures Accessible(g, rows, cols) != [] ==>
              IsGrid(Round(g, rows, cols), rows, cols) && Peel(Round(g, rows, cols), rows, cols) == Peel(g, rows, cols)
  {
    RoundCells(g, rows, cols);
  }
}
