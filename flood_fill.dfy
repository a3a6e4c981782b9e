/** `flood_fill` and `recursively_fill` (shared/src/flood_fill.rs): a
    recursive 4-connected fill done in place.  From a position, every CROSS
    neighbour that holds `empty` is overwritten with `fill` and the fill
    recurses from it; the start cell itself is never written directly.

    The method contracts say what every call leaves behind: only `empty`
    cells changed, each into `fill` (`OnlyFills`); no changed cell and no
    neighbour of the start has an `empty` neighbour left
    (`ChangedSealed`, `Sealed`); and a ghost certificate records, for every
    changed cell, the cell it was reached from.  The lemmas turn these into
    the two halves of "exactly the `empty` cells connected to the start were
    filled". */
module FloodFill {
  import opened Text
  import opened Grid

  /** Only `empty` cells change, and each changed cell becomes `fill`. */
  predicate OnlyFills(g0: seq<seq<byte>>, g1: seq<seq<byte>>, rows: nat, cols: nat, empty: byte, fill: byte)
  {
    IsGrid(g0, rows, cols) && IsGrid(g1, rows, cols) &&
    forall r, c :: 0 <= r < rows && 0 <= c < cols ==>
      g1[r][c] == g0[r][c] || (g0[r][c] == empty && g1[r][c] == fill)
  }

  /** No in-bounds CROSS neighbour of `p` holds `empty`. */
  predicate Sealed(g: seq<seq<byte>>, rows: nat, cols: nat, p: Pos, empty: byte)
    requires IsGrid(g, rows, cols)
  {
    forall r, c :: 0 <= r < rows && 0 <= c < cols && CrossStep(p, (r, c)) ==> g[r][c] != empty
  }

  /** Every cell that changed between `g0` and `g1` is sealed in `g1`. */
  predicate ChangedSealed(g0: seq<seq<byte>>, g1: seq<seq<byte>>, rows: nat, cols: nat, empty: byte)
    requires IsGrid(g0, rows, cols) && IsGrid(g1, rows, cols)
  {
    forall r, c :: 0 <= r < rows && 0 <= c < cols && g1[r][c] != g0[r][c] ==> Sealed(g1, rows, cols, (r, c), empty)
  }

  /** Each recorded cell was reached from the start `p` (parent `-1`) or from
      an earlier recorded cell, one CROSS step away. */
  predicate Certificate(p: Pos, order: seq<Pos>, parent: seq<int>)
  {
    |parent| == |order| &&
    forall i :: 0 <= i < |order| ==>
      (parent[i] == -1 && CrossStep(p, order[i])) ||
      (0 <= parent[i] < i && CrossStep(order[parent[i]], order[i]))
  }

  /** `order` lists exactly the cells that changed from `g0` to `g1`. */
  predicate Records(g0: seq<seq<byte>>, g1: seq<seq<byte>>, rows: nat, cols: nat, order: seq<Pos>)
    requires IsGrid(g0, rows, cols) && IsGrid(g1, rows, cols)
  {
    (forall i :: 0 <= i < |order| ==> InBounds(rows, cols, order[i]) && g1[order[i].0][order[i].1] != g0[order[i].0][order[i].1]) &&
    (forall r, c :: 0 <= r < rows && 0 <= c < cols && g1[r][c] != g0[r][c] ==> (r, c) in order)
  }

  /** A walk of `empty` cells of `g`, starting one CROSS step from `from`. */
  predicate EmptyPath(g: seq<seq<byte>>, rows: nat, cols: nat, from: Pos, path: seq<Pos>, empty: byte)
    requires IsGrid(g, rows, cols)
  {
    |path| > 0 && CrossStep(from, path[0]) &&
    (forall k :: 0 <= k < |path| ==> InBounds(rows, cols, path[k]) && g[path[k].0][path[k].1] == empty) &&
    (forall k :: 0 < k < |path| ==> CrossStep(path[k - 1], path[k]))
  }

  /** A certificate of the recursive call from `spot`, renumbered to follow
      the `base` cells already recorded and then `spot` itself. */
  function Rebase(parent: seq<int>, base: nat): (r: seq<int>)
    ensures |r| == |parent|
    ensures forall t :: 0 <= t < |parent| ==> r[t] == if parent[t] < 0 then base else parent[t] + base + 1
  {
    seq(|parent|, t requires 0 <= t < |parent| => if parent[t] < 0 then base else parent[t] + base + 1)
  }

  function Write(g: seq<seq<byte>>, q: Pos, v: byte): seq<seq<byte>>
    requires q.0 < |g| && q.1 < |g[q.0]|
  {
    Update(g, q.0, q.1, v)
  }

  lemma OnlyFillsTrans(g0: seq<seq<byte>>, g1: seq<seq<byte>>, g2: seq<seq<byte>>, rows: nat, cols: nat, empty: byte, fill: byte)
    requires OnlyFills(g0, g1, rows, cols, empty, fill) && OnlyFills(g1, g2, rows, cols, empty, fill)
    ensures OnlyFills(g0, g2, rows, cols, empty, fill)
  {
  }

  /** A sealed cell stays sealed: a non-`empty` cell never becomes `empty`. */
  lemma SealedStays(g1: seq<seq<byte>>, g2: seq<seq<byte>>, rows: nat, cols: nat, p: Pos, empty: byte, fill: byte)
    requires OnlyFills(g1, g2, rows, cols, empty, fill) && Sealed(g1, rows, cols, p, empty)
    ensures Sealed(g2, rows, cols, p, empty)
  {
  }

  lemma ChangedSealedTrans(g0: seq<seq<byte>>, g1: seq<seq<byte>>, g2: seq<seq<byte>>, rows: nat, cols: nat, empty: byte, fill: byte)
    requires OnlyFills(g0, g1, rows, cols, empty, fill) && OnlyFills(g1, g2, rows, cols, empty, fill)
    requires ChangedSealed(g0, g1, rows, cols, empty) && ChangedSealed(g1, g2, rows, cols, empty)
    ensures ChangedSealed(g0, g2, rows, cols, empty)
  {
    forall r, c | 0 <= r < rows && 0 <= c < cols && g2[r][c] != g0[r][c]
      ensures Sealed(g2, rows, cols, (r, c), empty)
    {
      if g1[r][c] != g0[r][c] {
        SealedStays(g1, g2, rows, cols, (r, c), empty, fill);
      }
    }
  }

  /** Writing `fill` over one `empty` cell. */
  lemma WriteFacts(g1: seq<seq<byte>>, rows: nat, cols: nat, spot: Pos, empty: byte, fill: byte)
    requires IsGrid(g1, rows, cols) && InBounds(rows, cols, spot) && g1[spot.0][spot.1] == empty && empty != fill
    ensures OnlyFills(g1, Write(g1, spot, fill), rows, cols, empty, fill)
    ensures Records(g1, Write(g1, spot, fill), rows, cols, [spot])
  {
  }

  /** The state after one neighbour has been filled and the recursion from it
      has returned, given the state before. */
  lemma StepFacts(g0: seq<seq<byte>>, g1: seq<seq<byte>>, g3: seq<seq<byte>>, rows: nat, cols: nat,
                  spot: Pos, empty: byte, fill: byte)
    requires empty != fill && InBounds(rows, cols, spot)
    requires OnlyFills(g0, g1, rows, cols, empty, fill) && ChangedSealed(g0, g1, rows, cols, empty)
    requires g1[spot.0][spot.1] == empty
    requires OnlyFills(Write(g1, spot, fill), g3, rows, cols, empty, fill)
    requires ChangedSealed(Write(g1, spot, fill), g3, rows, cols, empty)
    requires Sealed(g3, rows, cols, spot, empty)
    ensures OnlyFills(g0, g3, rows, cols, empty, fill) && ChangedSealed(g0, g3, rows, cols, empty)
    ensures OnlyFills(g1, g3, rows, cols, empty, fill)
  {
    var g2 := Write(g1, spot, fill);
    WriteFacts(g1, rows, cols, spot, empty, fill);
    OnlyFillsTrans(g1, g2, g3, rows, cols, empty, fill);
    assert ChangedSealed(g1, g3, rows, cols, empty) by {
      forall r, c | 0 <= r < rows && 0 <= c < cols && g3[r][c] != g1[r][c]
        ensures Sealed(g3, rows, cols, (r, c), empty)
      {
        if (r, c) != spot {
          assert g2[r][c] == g1[r][c];
        }
      }
    }
    OnlyFillsTrans(g0, g1, g3, rows, cols, empty, fill);
    ChangedSealedTrans(g0, g1, g3, rows, cols, empty, fill);
  }

  /** The combined certificate after one neighbour step. */
  lemma StepCertificate(p: Pos, spot: Pos, order: seq<Pos>, parent: seq<int>, sub: seq<Pos>, subParent: seq<int>)
    requires CrossStep(p, spot)
    requires Certificate(p, order, parent) && Certificate(spot, sub, subParent)
    ensures Certificate(p, order + [spot] + sub, parent + [-1] + Rebase(subParent, |order|))
  {
    var o := order + [spot] + sub;
    var q := parent + [-1] + Rebase(subParent, |order|);
    forall i | 0 <= i < |o|
      ensures (q[i] == -1 && CrossStep(p, o[i])) || (0 <= q[i] < i && CrossStep(o[q[i]], o[i]))
    {
      if i < |order| {
        assert o[i] == order[i] && q[i] == parent[i];
        if q[i] != -1 {
          assert o[q[i]] == order[parent[i]];
        }
      } else if i == |order| {
      } else {
        var t := i - |order| - 1;
        assert o[i] == sub[t] && q[i] == Rebase(subParent, |order|)[t];
        if subParent[t] != -1 {
          assert o[q[i]] == sub[subParent[t]];
        }
      }
    }
  }

  /** The combined record after one neighbour step. */
  lemma StepRecords(g0: seq<seq<byte>>, g1: seq<seq<byte>>, g3: seq<seq<byte>>, rows: nat, cols: nat,
                    spot: Pos, empty: byte, fill: byte, order: seq<Pos>, sub: seq<Pos>)
    requires empty != fill && InBounds(rows, cols, spot)
    requires OnlyFills(g0, g1, rows, cols, empty, fill) && Records(g0, g1, rows, cols, order)
    requires g1[spot.0][spot.1] == empty
    requires OnlyFills(Write(g1, spot, fill), g3, rows, cols, empty, fill)
    requires Records(Write(g1, spot, fill), g3, rows, cols, sub)
    ensures Records(g0, g3, rows, cols, order + [spot] + sub)
  {
    var g2 := Write(g1, spot, fill);
    var o := order + [spot] + sub;
    forall i | 0 <= i < |o|
      ensures InBounds(rows, cols, o[i]) && g3[o[i].0][o[i].1] != g0[o[i].0][o[i].1]
    {
      if i < |order| {
        assert o[i] == order[i];
      } else if i > |order| {
        assert o[i] == sub[i - |order| - 1];
      }
    }
    forall r, c | 0 <= r < rows && 0 <= c < cols && g3[r][c] != g0[r][c]
      ensures (r, c) in o
    {
      if g1[r][c] != g0[r][c] {
        var i :| 0 <= i < |order| && order[i] == (r, c);
        assert o[i] == (r, c);
      } else if (r, c) == spot {
        assert o[|order|] == spot;
      } else {
        assert g2[r][c] == g1[r][c];
        var i :| 0 <= i < |sub| && sub[i] == (r, c);
        assert o[|order| + 1 + i] == (r, c);
      }
    }
  }

  lemma CrossNeighbourListed(rows: nat, cols: nat, p: Pos, q: Pos)
    requires InBounds(rows, cols, q) && CrossStep(p, q)
    ensures q in AdjacentPositions(rows, cols, p, CROSS)
  {
    CrossOffsetIsStep(p, q);
  }

  /** Earlier neighbours stay non-`empty`, and the one just filled now is. */
  lemma KeepNonEmpty(g1: seq<seq<byte>>, g3: seq<seq<byte>>, rows: nat, cols: nat, empty: byte, fill: byte,
                     adj: seq<Pos>, i: nat)
    requires IsGrid(g1, rows, cols) && IsGrid(g3, rows, cols)
    requires i < |adj| && forall j :: 0 <= j < |adj| ==> adj[j].0 < rows && adj[j].1 < cols
    requires OnlyFills(g1, g3, rows, cols, empty, fill)
    requires OnlyFills(Write(g1, adj[i], fill), g3, rows, cols, empty, fill) && empty != fill
    requires forall j :: 0 <= j < i ==> g1[adj[j].0][adj[j].1] != empty
    ensures forall j :: 0 <= j <= i ==> g3[adj[j].0][adj[j].1] != empty
  {
    assert Write(g1, adj[i], fill)[adj[i].0][adj[i].1] == fill;
  }

  /** The loop invariant of `RecursivelyFill` from `p` over its neighbour
      list `adj`, with the first `i` neighbours handled. */
  predicate FillInv(g0: seq<seq<byte>>, g: seq<seq<byte>>, rows: nat, cols: nat, p: Pos, empty: byte, fill: byte,
                    adj: seq<Pos>, i: nat, order: seq<Pos>, parent: seq<int>)
  {
    i <= |adj| &&
    (forall j :: 0 <= j < |adj| ==> adj[j].0 < rows && adj[j].1 < cols && CrossStep(p, adj[j])) &&
    OnlyFills(g0, g, rows, cols, empty, fill) && ChangedSealed(g0, g, rows, cols, empty) &&
    (forall j :: 0 <= j < i ==> g[adj[j].0][adj[j].1] != empty) &&
    Certificate(p, order, parent) && Records(g0, g, rows, cols, order)
  }

  lemma StartInv(g0: seq<seq<byte>>, rows: nat, cols: nat, p: Pos, empty: byte, fill: byte)
    requires IsGrid(g0, rows, cols)
    ensures FillInv(g0, g0, rows, cols, p, empty, fill, AdjacentPositions(rows, cols, p, CROSS), 0, [], [])
  {
    var adj := AdjacentPositions(rows, cols, p, CROSS);
    forall j | 0 <= j < |adj| ensures CrossStep(p, adj[j]) {
      CrossOffsetIsStep(p, adj[j]);
    }
  }

  /** A neighbour that is not `empty` needs nothing. */
  lemma SkipInv(g0: seq<seq<byte>>, g: seq<seq<byte>>, rows: nat, cols: nat, p: Pos, empty: byte, fill: byte,
                adj: seq<Pos>, i: nat, order: seq<Pos>, parent: seq<int>)
    requires FillInv(g0, g, rows, cols, p, empty, fill, adj, i, order, parent) && i < |adj|
    requires g[adj[i].0][adj[i].1] != empty
    ensures FillInv(g0, g, rows, cols, p, empty, fill, adj, i + 1, order, parent)
  {
  }

  /** The loop invariant after the neighbour `adj[i]` has been filled and
      explored. */
  lemma Step(g0: seq<seq<byte>>, g1: seq<seq<byte>>, g3: seq<seq<byte>>, rows: nat, cols: nat, p: Pos,
             empty: byte, fill: byte, adj: seq<Pos>, i: nat,
             order: seq<Pos>, parent: seq<int>, sub: seq<Pos>, subParent: seq<int>)
    requires empty != fill && i < |adj|
    requires FillInv(g0, g1, rows, cols, p, empty, fill, adj, i, order, parent)
    requires g1[adj[i].0][adj[i].1] == empty
    requires OnlyFills(Write(g1, adj[i], fill), g3, rows, cols, empty, fill)
    requires ChangedSealed(Write(g1, adj[i], fill), g3, rows, cols, empty)
    requires Sealed(g3, rows, cols, adj[i], empty)
    requires Certificate(adj[i], sub, subParent) && Records(Write(g1, adj[i], fill), g3, rows, cols, sub)
    ensures FillInv(g0, g3, rows, cols, p, empty, fill, adj, i + 1, order + [adj[i]] + sub,
                    parent + [-1] + Rebase(subParent, |order|))
  {
    StepFacts(g0, g1, g3, rows, cols, adj[i], empty, fill);
    KeepNonEmpty(g1, g3, rows, cols, empty, fill, adj, i);
    StepCertificate(p, adj[i], order, parent, sub, subParent);
    StepRecords(g0, g1, g3, rows, cols, adj[i], empty, fill, order, sub);
  }

  /** Once every neighbour is handled, the start is sealed. */
  lemma FinishInv(g0: seq<seq<byte>>, g: seq<seq<byte>>, rows: nat, cols: nat, p: Pos, empty: byte, fill: byte,
                  order: seq<Pos>, parent: seq<int>)
    requires FillInv(g0, g, rows, cols, p, empty, fill, AdjacentPositions(rows, cols, p, CROSS),
                     |AdjacentPositions(rows, cols, p, CROSS)|, order, parent)
    ensures Sealed(g, rows, cols, p, empty)
  {
    var adj := AdjacentPositions(rows, cols, p, CROSS);
    forall r, c | 0 <= r < rows && 0 <= c < cols && CrossStep(p, (r, c))
      ensures g[r][c] != empty
    {
      CrossNeighbourListed(rows, cols, p, (r, c));
      var j :| 0 <= j < |adj| && adj[j] == (r, c);
    }
  }

  /** `recursively_fill(array, start_position, empty_char, fill_with)`.  The
      ghost results `order` and `parent` are the certificate of the cells
      written. */
  method RecursivelyFill(a: array2<byte>, p: Pos, empty: byte, fill: byte) returns (ghost order: seq<Pos>, ghost parent: seq<int>)
    requires empty != fill
    modifies a
    ensures OnlyFills(old(Snapshot(a)), Snapshot(a), a.Length0, a.Length1, empty, fill)
    ensures ChangedSealed(old(Snapshot(a)), Snapshot(a), a.Length0, a.Length1, empty)
    ensures Sealed(Snapshot(a), a.Length0, a.Length1, p, empty)
    ensures Certificate(p, order, parent)
    ensures Records(old(Snapshot(a)), Snapshot(a), a.Length0, a.Length1, order)
    ensures Count(Snapshot(a), empty) <= old(Count(Snapshot(a), empty))
    decreases Count(Snapshot(a), empty)
  {
    var rows, cols := a.Length0, a.Length1;
    ghost var g0 := Snapshot(a);
    order, parent := [], [];
    var adj := AdjacentPositions(rows, cols, p, CROSS);
    StartInv(g0, rows, cols, p, empty, fill);
    for i := 0 to |adj|
      invariant FillInv(g0, Snapshot(a), rows, cols, p, empty, fill, adj, i, order, parent)
      invariant Count(Snapshot(a), empty) <= Count(g0, empty)
    {
      var spot := adj[i];
      ghost var g1 := Snapshot(a);
      if a[spot.0, spot.1] == empty {
        SetCell(a, spot.0, spot.1, fill);
        CountUpdate(g1, spot.0, spot.1, empty, fill);
        var sub, subParent := RecursivelyFill(a, spot, empty, fill);
        Step(g0, g1, Snapshot(a), rows, cols, p, empty, fill, adj, i, order, parent, sub, subParent);
        order, parent := order + [spot] + sub, parent + [-1] + Rebase(subParent, |order|);
      } else {
        SkipInv(g0, g1, rows, cols, p, empty, fill, adj, i, order, parent);
      }
    }
    FinishInv(g0, Snapshot(a), rows, cols, p, empty, fill, order, parent);
  }

  /** `flood_fill(array_in, start, empty_char, fill_with)`.  The fill only
      terminates when `fill_with` differs from `empty_char`. */
  method FloodFill(a: array2<byte>, start: Pos, empty: byte, fill: byte) returns (ghost order: seq<Pos>, ghost parent: seq<int>)
    requires empty != fill
    modifies a
    ensures OnlyFills(old(Snapshot(a)), Snapshot(a), a.Length0, a.Length1, empty, fill)
    ensures ChangedSealed(old(Snapshot(a)), Snapshot(a), a.Length0, a.Length1, empty)
    ensures Sealed(Snapshot(a), a.Length0, a.Length1, start, empty)
    ensures Certificate(start, order, parent)
    ensures Records(old(Snapshot(a)), Snapshot(a), a.Length0, a.Length1, order)
  {
    order, parent := RecursivelyFill(a, start, empty, fill);
  }

  /** Completeness: every cell of an `empty` walk starting next to the start
      has been filled. */
  lemma {:induction false} FillReachesPath(g0: seq<seq<byte>>, g1: seq<seq<byte>>, rows: nat, cols: nat,
                                           start: Pos, empty: byte, fill: byte, path: seq<Pos>, k: nat)
    requires OnlyFills(g0, g1, rows, cols, empty, fill)
    requires ChangedSealed(g0, g1, rows, cols, empty) && Sealed(g1, rows, cols, start, empty)
    requires EmptyPath(g0, rows, cols, start, path, empty) && k < |path|
    ensures g1[path[k].0][path[k].1] == fill
  {
    if k > 0 {
      FillReachesPath(g0, g1, rows, cols, start, empty, fill, path, k - 1);
      assert Sealed(g1, rows, cols, path[k - 1], empty);
    }
  }

  /** Soundness: every changed cell is the end of an `empty` walk of the old
      grid that starts next to the start; other `empty` regions keep their
      value. */
  lemma {:induction false} CertificatePath(g0: seq<seq<byte>>, rows: nat, cols: nat, start: Pos, empty: byte,
                                           order: seq<Pos>, parent: seq<int>, i: nat) returns (path: seq<Pos>)
    requires IsGrid(g0, rows, cols) && Certificate(start, order, parent) && i < |order|
    requires forall k :: 0 <= k < |order| ==> InBounds(rows, cols, order[k]) && g0[order[k].0][order[k].1] == empty
    ensures EmptyPath(g0, rows, cols, start, path, empty) && path[|path| - 1] == order[i]
    decreases i
  {
    if parent[i] == -1 {
      path := [order[i]];
    } else {
      var pre := CertificatePath(g0, rows, cols, start, empty, order, parent, parent[i]);
      path := pre + [order[i]];
    }
  }

  lemma FillIsSound(g0: seq<seq<byte>>, g1: seq<seq<byte>>, rows: nat, cols: nat, start: Pos, empty: byte, fill: byte,
                    order: seq<Pos>, parent: seq<int>, r: nat, c: nat) returns (path: seq<Pos>)
    requires OnlyFills(g0, g1, rows, cols, empty, fill) && Certificate(start, order, parent)
    requires Records(g0, g1, rows, cols, order)
    requires r < rows && c < cols && g1[r][c] != g0[r][c]
    ensures EmptyPath(g0, rows, cols, start, path, empty) && path[|path| - 1] == (r, c)
  {
    var i :| 0 <= i < |order| && order[i] == (r, c);
    path := CertificatePath(g0, rows, cols, start, empty, order, parent, i);
  }
}
