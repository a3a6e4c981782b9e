/** `maze_shortest_path`: the maze becomes a weighted graph whose nodes are
    the `u32` indices `row * cols + col` of its non-wall cells; each node has
    an edge to every CROSS neighbour that is not a wall, weighted by `cost_fn`
    of the neighbour's value.  `pathfinding::dijkstra` is not part of this
    model: its answer is a parameter, constrained by `ShortestPathResult`, and
    the path it returns is decoded back into positions. */
module Maze {
  import opened Wrappers
  import opened Grid
  import opened RustInt
  import Text

  const U32: nat := 0x1_0000_0000

  /** An outgoing edge: the neighbour's node index and the cost of entering it. */
  type Edge = (nat, nat)
  type Graph = map<nat, seq<Edge>>
  /** `cost_fn: Fn(u8) -> u32`. */
  type CostFn = Text.byte -> nat

  function Cell(g: seq<seq<Text.byte>>, rows: nat, cols: nat, p: Pos): Text.byte
    requires IsGrid(g, rows, cols) && InBounds(rows, cols, p)
  {
    g[p.0][p.1]
  }

  /** `row_col_to_index`: `(row * cols + col) as u32`, which keeps the low 32 bits. */
  function Encode(cols: nat, p: Pos): (n: nat)
    ensures n < U32
    ensures p.0 * cols + p.1 < U32 ==> n == p.0 * cols + p.1
  {
    (p.0 * cols + p.1) % U32
  }

  /** The inverse map applied to the path: `(node / cols, node % cols)`. */
  function Decode(cols: nat, n: nat): (p: Pos)
    requires cols > 0
    ensures p.1 < cols && n == p.0 * cols + p.1
  {
    (n / cols, n % cols)
  }

  /** When `rows * cols` fits in a `u32`, encoding an in-bounds position is
      exact and decoding it gives the position back. */
  lemma DecodeEncode(rows: nat, cols: nat, p: Pos)
    requires InBounds(rows, cols, p) && rows * cols <= U32
    ensures cols > 0 && Encode(cols, p) == p.0 * cols + p.1 < rows * cols
    ensures Decode(cols, Encode(cols, p)) == p
  {
    MulLe(cols, p.0, rows - 1);
    DivUnique(p.0 * cols + p.1, cols, p.0, p.1);
  }

  lemma EncodeInjective(rows: nat, cols: nat, p: Pos, q: Pos)
    requires InBounds(rows, cols, p) && InBounds(rows, cols, q) && rows * cols <= U32
    requires Encode(cols, p) == Encode(cols, q)
    ensures p == q
  {
    DecodeEncode(rows, cols, p);
    DecodeEncode(rows, cols, q);
  }

  /** Without the size bound the `u32` cast aliases cells: in a grid with
      2^32 columns, cells (1, 0) and (0, 0) share node 0. */
  lemma EncodeWraps()
    ensures InBounds(2, U32, (1, 0)) && Encode(U32, (1, 0)) == Encode(U32, (0, 0)) == 0
  {
  }

  /** The edges recorded for the neighbours `ns` of a cell: one
      `(index, cost_fn(value))` per neighbour that is not a wall, in order. */
  function NeighbourEdges(g: seq<seq<Text.byte>>, rows: nat, cols: nat, wall: Text.byte, cost: CostFn, ns: seq<Pos>): (es: seq<Edge>)
    requires IsGrid(g, rows, cols)
    requires forall q :: q in ns ==> InBounds(rows, cols, q)
    ensures |es| <= |ns|
  {
    if ns == [] then []
    else
      var init := NeighbourEdges(g, rows, cols, wall, cost, ns[..|ns| - 1]);
      var q := ns[|ns| - 1];
      if Cell(g, rows, cols, q) != wall then init + [(Encode(cols, q), cost(Cell(g, rows, cols, q)))] else init
  }

  /** Every edge comes from a non-wall neighbour and carries that neighbour's
      cost; every non-wall neighbour has its edge. */
  lemma {:induction false} NeighbourEdgesExact(g: seq<seq<Text.byte>>, rows: nat, cols: nat, wall: Text.byte, cost: CostFn, ns: seq<Pos>)
    requires IsGrid(g, rows, cols)
    requires forall q :: q in ns ==> InBounds(rows, cols, q)
    ensures forall e :: e in NeighbourEdges(g, rows, cols, wall, cost, ns) ==>
              exists q :: q in ns && Cell(g, rows, cols, q) != wall && e == (Encode(cols, q), cost(Cell(g, rows, cols, q)))
    ensures forall q :: q in ns && Cell(g, rows, cols, q) != wall ==> (Encode(cols, q), cost(Cell(g, rows, cols, q))) in NeighbourEdges(g, rows, cols, wall, cost, ns)
  {
    if ns != [] {
      var init := ns[..|ns| - 1];
      NeighbourEdgesExact(g, rows, cols, wall, cost, init);
      assert ns == init + [ns[|ns| - 1]];
    }
  }

  /** The per-cell loop of `maze_shortest_path`: push an edge for every CROSS
      neighbour that is not a wall. */
  method NodeEdges(g: seq<seq<Text.byte>>, rows: nat, cols: nat, wall: Text.byte, cost: CostFn, p: Pos) returns (edges: seq<Edge>)
    requires IsGrid(g, rows, cols)
    ensures edges == NeighbourEdges(g, rows, cols, wall, cost, AdjacentPositions(rows, cols, p, CROSS))
  {
    var adjacent := AdjacentPositions(rows, cols, p, CROSS);
    edges := [];
    for k := 0 to |adjacent|
      invariant edges == NeighbourEdges(g, rows, cols, wall, cost, adjacent[..k])
    {
      var q := adjacent[k];
      var value := g[q.0][q.1];
      if value != wall {
        edges := edges + [(Encode(cols, q), cost(value))];
      }
      assert adjacent[..k + 1][..k] == adjacent[..k];
    }
    assert adjacent[..|adjacent|] == adjacent;
  }

  /** The edges of the node for cell `p`. */
  function EdgesAt(g: seq<seq<Text.byte>>, rows: nat, cols: nat, wall: Text.byte, cost: CostFn, p: Pos): seq<Edge>
    requires IsGrid(g, rows, cols)
  {
    NeighbourEdges(g, rows, cols, wall, cost, AdjacentPositions(rows, cols, p, CROSS))
  }

  /** `enumerate_row_major`: every position, row by row. */
  function RowMajorPositions(rows: nat, cols: nat): (ps: seq<Pos>)
    ensures forall q :: q in ps ==> InBounds(rows, cols, q)
    ensures forall p :: InBounds(rows, cols, p) ==> p in ps
  {
    if rows == 0 then []
    else
      var row: seq<Pos> := seq(cols, c requires 0 <= c < cols => (rows - 1, c));
      var ps := RowMajorPositions(rows - 1, cols) + row;
      assert forall p: Pos :: InBounds(rows, cols, p) && p.0 == rows - 1 ==> row[p.1] == p;
      ps
  }

  /** The `filter`/`map`/`collect` into a `HashMap`: one entry per non-wall
      cell of `ps`, a later cell replacing an earlier one with the same key. */
  function BuildGraph(g: seq<seq<Text.byte>>, rows: nat, cols: nat, wall: Text.byte, cost: CostFn, ps: seq<Pos>): Graph
    requires IsGrid(g, rows, cols)
    requires forall q :: q in ps ==> InBounds(rows, cols, q)
  {
    if ps == [] then map[]
    else
      var m := BuildGraph(g, rows, cols, wall, cost, ps[..|ps| - 1]);
      var p := ps[|ps| - 1];
      if Cell(g, rows, cols, p) != wall then m[Encode(cols, p) := EdgesAt(g, rows, cols, wall, cost, p)] else m
  }

  function MazeGraph(g: seq<seq<Text.byte>>, rows: nat, cols: nat, wall: Text.byte, cost: CostFn): Graph
    requires IsGrid(g, rows, cols)
  {
    BuildGraph(g, rows, cols, wall, cost, RowMajorPositions(rows, cols))
  }

  /** Every key is the index of a non-wall cell of `ps`. */
  lemma {:induction false} BuildGraphKeys(g: seq<seq<Text.byte>>, rows: nat, cols: nat, wall: Text.byte, cost: CostFn, ps: seq<Pos>)
    requires IsGrid(g, rows, cols)
    requires forall q :: q in ps ==> InBounds(rows, cols, q)
    ensures forall n :: n in BuildGraph(g, rows, cols, wall, cost, ps) ==>
              exists p :: p in ps && Cell(g, rows, cols, p) != wall && n == Encode(cols, p)
  {
    if ps != [] {
      var init := ps[..|ps| - 1];
      BuildGraphKeys(g, rows, cols, wall, cost, init);
      assert ps == init + [ps[|ps| - 1]];
    }
  }

  /** Every non-wall cell of `ps` has its edges under its index. */
  lemma {:induction false} BuildGraphValues(g: seq<seq<Text.byte>>, rows: nat, cols: nat, wall: Text.byte, cost: CostFn, ps: seq<Pos>)
    requires IsGrid(g, rows, cols) && rows * cols <= U32
    requires forall q :: q in ps ==> InBounds(rows, cols, q)
    ensures forall p :: p in ps && Cell(g, rows, cols, p) != wall ==>
              Encode(cols, p) in BuildGraph(g, rows, cols, wall, cost, ps) &&
              BuildGraph(g, rows, cols, wall, cost, ps)[Encode(cols, p)] == EdgesAt(g, rows, cols, wall, cost, p)
  {
    if ps != [] {
      var init := ps[..|ps| - 1];
      var last := ps[|ps| - 1];
      var m := BuildGraph(g, rows, cols, wall, cost, init);
      BuildGraphValues(g, rows, cols, wall, cost, init);
      assert ps == init + [last];
      forall p | p in ps && Cell(g, rows, cols, p) != wall
        ensures Encode(cols, p) in BuildGraph(g, rows, cols, wall, cost, ps) &&
                BuildGraph(g, rows, cols, wall, cost, ps)[Encode(cols, p)] == EdgesAt(g, rows, cols, wall, cost, p)
      {
        if Cell(g, rows, cols, last) != wall && Encode(cols, p) == Encode(cols, last) {
          EncodeInjective(rows, cols, p, last);
        } else {
          assert p in init;
        }
      }
    }
  }

  /** The graph's keys are exactly the encoded non-wall cells, and the entry
      of a cell lists its edges. */
  lemma MazeGraphExact(g: seq<seq<Text.byte>>, rows: nat, cols: nat, wall: Text.byte, cost: CostFn)
    requires IsGrid(g, rows, cols) && rows * cols <= U32
    ensures forall p :: InBounds(rows, cols, p) ==>
              (Encode(cols, p) in MazeGraph(g, rows, cols, wall, cost) <==> Cell(g, rows, cols, p) != wall)
    ensures forall n :: n in MazeGraph(g, rows, cols, wall, cost) ==>
              cols > 0 && InBounds(rows, cols, Decode(cols, n)) && Encode(cols, Decode(cols, n)) == n && Cell(g, rows, cols, Decode(cols, n)) != wall
    ensures forall p :: InBounds(rows, cols, p) && Cell(g, rows, cols, p) != wall ==>
              MazeGraph(g, rows, cols, wall, cost)[Encode(cols, p)] == EdgesAt(g, rows, cols, wall, cost, p)
  {
    var ps := RowMajorPositions(rows, cols);
    BuildGraphKeys(g, rows, cols, wall, cost, ps);
    BuildGraphValues(g, rows, cols, wall, cost, ps);
    forall p | InBounds(rows, cols, p) && Encode(cols, p) in MazeGraph(g, rows, cols, wall, cost)
      ensures Cell(g, rows, cols, p) != wall
    {
      var q :| q in ps && Cell(g, rows, cols, q) != wall && Encode(cols, p) == Encode(cols, q);
      EncodeInjective(rows, cols, p, q);
    }
    forall n | n in MazeGraph(g, rows, cols, wall, cost)
      ensures cols > 0 && InBounds(rows, cols, Decode(cols, n)) && Encode(cols, Decode(cols, n)) == n && Cell(g, rows, cols, Decode(cols, n)) != wall
    {
      var q :| q in ps && Cell(g, rows, cols, q) != wall && n == Encode(cols, q);
      DecodeEncode(rows, cols, q);
    }
  }

  /** The successor closure: a node that is not a key has no successors. */
  function Successors(graph: Graph, n: nat): (es: seq<Edge>)
    ensures n !in graph ==> es == []
  {
    if n in graph then graph[n] else []
  }

  predicate HasEdge(es: seq<Edge>, v: nat)
  {
    exists e :: e in es && e.0 == v
  }

  /** The weight of the first edge to `v`. */
  function EdgeWeight(es: seq<Edge>, v: nat): (w: nat)
    requires HasEdge(es, v)
    ensures (v, w) in es
  {
    if es[0].0 == v then es[0].1
    else
      assert HasEdge(es[1..], v) by {
        var e :| e in es && e.0 == v;
        assert e in es[1..];
      }
      EdgeWeight(es[1..], v)
  }

  /** When every edge to `v` has the same weight, that is the weight. */
  lemma {:induction false} EdgeWeightUnique(es: seq<Edge>, v: nat, w: nat)
    requires HasEdge(es, v)
    requires forall e :: e in es && e.0 == v ==> e.1 == w
    ensures EdgeWeight(es, v) == w
  {
  }

  /** Consecutive nodes of `walk` are joined by edges. */
  predicate Steps(graph: Graph, walk: seq<nat>)
  {
    forall i :: 1 <= i < |walk| ==> HasEdge(Successors(graph, walk[i - 1]), walk[i])
  }

  predicate IsGraphWalk(graph: Graph, walk: seq<nat>, s: nat, t: nat)
  {
    |walk| > 0 && walk[0] == s && walk[|walk| - 1] == t && Steps(graph, walk)
  }

  function WalkCost(graph: Graph, walk: seq<nat>): nat
    requires Steps(graph, walk)
  {
    if |walk| <= 1 then 0
    else
      assert Steps(graph, walk[..|walk| - 1]) by {
        forall i | 1 <= i < |walk| - 1 ensures walk[..|walk| - 1][i] == walk[i] {
        }
      }
      WalkCost(graph, walk[..|walk| - 1]) + EdgeWeight(Successors(graph, walk[|walk| - 2]), walk[|walk| - 1])
  }

  /** What `dijkstra` promises: `None` when `t` cannot be reached from `s`,
      otherwise a walk from `s` to `t` of least total weight. */
  ghost predicate ShortestPathResult(graph: Graph, s: nat, t: nat, found: Option<seq<nat>>)
  {
    match found
    case None => forall walk :: !IsGraphWalk(graph, walk, s, t)
    case Some(path) => IsGraphWalk(graph, path, s, t) && forall walk :: IsGraphWalk(graph, walk, s, t) ==> WalkCost(graph, path) <= WalkCost(graph, walk)
  }

  function DecodePath(cols: nat, walk: seq<nat>): (path: seq<Pos>)
    requires cols > 0
    ensures |path| == |walk| && forall i :: 0 <= i < |walk| ==> Encode(cols, path[i]) == walk[i] % U32
  {
    seq(|walk|, i requires 0 <= i < |walk| => Decode(cols, walk[i]))
  }

  /** `maze_shortest_path`, given dijkstra's answer `found` on the maze's
      graph.  `unwrap` panics when there is no path; decoding divides by the
      column count. */
  function MazeShortestPath(g: seq<seq<Text.byte>>, rows: nat, cols: nat, start: Pos, end: Pos, wall: Text.byte, cost: CostFn,
                            found: Option<seq<nat>>): (r: Result<seq<Pos>>)
    requires IsGrid(g, rows, cols)
    requires ShortestPathResult(MazeGraph(g, rows, cols, wall, cost), Encode(cols, start), Encode(cols, end), found)
    ensures r.Panic? <==> found.None? || cols == 0
    ensures r.Ok? ==> |r.value| == |found.value| > 0
  {
    match found
    case None => Panic("called `Option::unwrap()` on a `None` value")
    case Some(path) =>
      if cols == 0 then Panic("attempt to divide by zero") else Ok(DecodePath(cols, path))
  }

  /** A walk through the maze: in-bounds cells, one CROSS step apart, none
      after the first a wall. */
  predicate IsMazeWalk(g: seq<seq<Text.byte>>, rows: nat, cols: nat, wall: Text.byte, walk: seq<Pos>, start: Pos, end: Pos)
    requires IsGrid(g, rows, cols)
  {
    |walk| > 0 && walk[0] == start && walk[|walk| - 1] == end &&
    (forall i :: 0 <= i < |walk| ==> InBounds(rows, cols, walk[i])) &&
    (forall i :: 1 <= i < |walk| ==> Cell(g, rows, cols, walk[i]) != wall && CrossStep(walk[i - 1], walk[i]))
  }

  /** The total cost of entering every cell after the first. */
  function MazeCost(g: seq<seq<Text.byte>>, rows: nat, cols: nat, cost: CostFn, walk: seq<Pos>): nat
    requires IsGrid(g, rows, cols)
    requires forall i :: 1 <= i < |walk| ==> InBounds(rows, cols, walk[i])
  {
    if |walk| <= 1 then 0 else MazeCost(g, rows, cols, cost, walk[..|walk| - 1]) + cost(Cell(g, rows, cols, walk[|walk| - 1]))
  }

  /** An edge of the graph is a CROSS step between encoded non-wall cells,
      weighted by the cost of the cell it enters. */
  lemma EdgeIsStep(g: seq<seq<Text.byte>>, rows: nat, cols: nat, wall: Text.byte, cost: CostFn, u: nat, v: nat)
    requires IsGrid(g, rows, cols) && rows * cols <= U32
    requires HasEdge(Successors(MazeGraph(g, rows, cols, wall, cost), u), v)
    ensures cols > 0
    ensures var p, q := Decode(cols, u), Decode(cols, v);
            InBounds(rows, cols, p) && InBounds(rows, cols, q) && Cell(g, rows, cols, p) != wall && Cell(g, rows, cols, q) != wall &&
            Encode(cols, p) == u && Encode(cols, q) == v && CrossStep(p, q) &&
            EdgeWeight(Successors(MazeGraph(g, rows, cols, wall, cost), u), v) == cost(Cell(g, rows, cols, q))
  {
    var graph := MazeGraph(g, rows, cols, wall, cost);
    MazeGraphExact(g, rows, cols, wall, cost);
    assert u in graph;
    var p := Decode(cols, u);
    var ns := AdjacentPositions(rows, cols, p, CROSS);
    var es := NeighbourEdges(g, rows, cols, wall, cost, ns);
    assert Successors(graph, u) == es;
    NeighbourEdgesExact(g, rows, cols, wall, cost, ns);
    var e :| e in es && e.0 == v;
    var q :| q in ns && Cell(g, rows, cols, q) != wall && e == (Encode(cols, q), cost(Cell(g, rows, cols, q)));
    DecodeEncode(rows, cols, q);
    CrossOffsetIsStep(p, q);
    forall e' | e' in es && e'.0 == v ensures e'.1 == cost(Cell(g, rows, cols, q)) {
      var q' :| q' in ns && Cell(g, rows, cols, q') != wall && e' == (Encode(cols, q'), cost(Cell(g, rows, cols, q')));
      EncodeInjective(rows, cols, q, q');
    }
    EdgeWeightUnique(es, v, cost(Cell(g, rows, cols, q)));
  }

  /** Conversely a CROSS step into a non-wall cell, from a non-wall cell, is
      an edge weighted by the cost of the cell it enters. */
  lemma StepIsEdge(g: seq<seq<Text.byte>>, rows: nat, cols: nat, wall: Text.byte, cost: CostFn, p: Pos, q: Pos)
    requires IsGrid(g, rows, cols) && rows * cols <= U32
    requires InBounds(rows, cols, p) && InBounds(rows, cols, q) && Cell(g, rows, cols, p) != wall && Cell(g, rows, cols, q) != wall && CrossStep(p, q)
    ensures HasEdge(Successors(MazeGraph(g, rows, cols, wall, cost), Encode(cols, p)), Encode(cols, q))
    ensures EdgeWeight(Successors(MazeGraph(g, rows, cols, wall, cost), Encode(cols, p)), Encode(cols, q)) == cost(Cell(g, rows, cols, q))
  {
    MazeGraphExact(g, rows, cols, wall, cost);
    var ns := AdjacentPositions(rows, cols, p, CROSS);
    CrossOffsetIsStep(p, q);
    NeighbourEdgesExact(g, rows, cols, wall, cost, ns);
    var e := (Encode(cols, q), cost(Cell(g, rows, cols, q)));
    assert e in Successors(MazeGraph(g, rows, cols, wall, cost), Encode(cols, p));
    EdgeIsStep(g, rows, cols, wall, cost, Encode(cols, p), Encode(cols, q));
    DecodeEncode(rows, cols, q);
  }

  /** A graph walk from an in-bounds cell decodes to a maze walk. */
  lemma DecodedWalk(g: seq<seq<Text.byte>>, rows: nat, cols: nat, wall: Text.byte, cost: CostFn, walk: seq<nat>, start: Pos)
    requires IsGrid(g, rows, cols) && rows * cols <= U32 && cols > 0
    requires InBounds(rows, cols, start) && |walk| > 0 && walk[0] == Encode(cols, start)
    requires Steps(MazeGraph(g, rows, cols, wall, cost), walk)
    ensures IsMazeWalk(g, rows, cols, wall, DecodePath(cols, walk), start, Decode(cols, walk[|walk| - 1]))
  {
    var path := DecodePath(cols, walk);
    DecodeEncode(rows, cols, start);
    forall i | 1 <= i < |walk|
      ensures InBounds(rows, cols, path[i]) && Cell(g, rows, cols, path[i]) != wall && CrossStep(path[i - 1], path[i])
    {
      EdgeIsStep(g, rows, cols, wall, cost, walk[i - 1], walk[i]);
    }
  }

  /** Decoding keeps the cost: each edge weighs what entering its cell costs. */
  lemma {:induction false} DecodedCost(g: seq<seq<Text.byte>>, rows: nat, cols: nat, wall: Text.byte, cost: CostFn, walk: seq<nat>)
    requires IsGrid(g, rows, cols) && rows * cols <= U32 && cols > 0
    requires Steps(MazeGraph(g, rows, cols, wall, cost), walk)
    requires forall i :: 1 <= i < |walk| ==> InBounds(rows, cols, DecodePath(cols, walk)[i])
    ensures MazeCost(g, rows, cols, cost, DecodePath(cols, walk)) == WalkCost(MazeGraph(g, rows, cols, wall, cost), walk)
    decreases |walk|
  {
    if |walk| > 1 {
      var graph := MazeGraph(g, rows, cols, wall, cost);
      var path := DecodePath(cols, walk);
      var init := walk[..|walk| - 1];
      assert Steps(graph, init) by {
        forall i | 1 <= i < |init| ensures init[i] == walk[i] {
        }
      }
      assert DecodePath(cols, init) == path[..|walk| - 1];
      DecodedCost(g, rows, cols, wall, cost, init);
      EdgeIsStep(g, rows, cols, wall, cost, walk[|walk| - 2], walk[|walk| - 1]);
    }
  }

  /** The positions of a maze walk, encoded as graph nodes. */
  function EncodePath(cols: nat, walk: seq<Pos>): (w: seq<nat>)
    ensures |w| == |walk| && forall i :: 0 <= i < |walk| ==> w[i] == Encode(cols, walk[i])
  {
    seq(|walk|, i requires 0 <= i < |walk| => Encode(cols, walk[i]))
  }

  /** Every step of a maze walk from a non-wall cell is an edge of the graph. */
  lemma EncodedSteps(g: seq<seq<Text.byte>>, rows: nat, cols: nat, wall: Text.byte, cost: CostFn, walk: seq<Pos>, start: Pos, end: Pos)
    requires IsGrid(g, rows, cols) && rows * cols <= U32
    requires IsMazeWalk(g, rows, cols, wall, walk, start, end) && Cell(g, rows, cols, start) != wall
    ensures IsGraphWalk(MazeGraph(g, rows, cols, wall, cost), EncodePath(cols, walk), Encode(cols, start), Encode(cols, end))
  {
    var graph := MazeGraph(g, rows, cols, wall, cost);
    var w := EncodePath(cols, walk);
    forall i | 1 <= i < |walk| ensures HasEdge(Successors(graph, w[i - 1]), w[i]) {
      StepIsEdge(g, rows, cols, wall, cost, walk[i - 1], walk[i]);
    }
  }

  /** Encoding keeps the cost of a maze walk whose steps are graph edges. */
  lemma {:induction false} EncodedCost(g: seq<seq<Text.byte>>, rows: nat, cols: nat, wall: Text.byte, cost: CostFn, walk: seq<Pos>, start: Pos, end: Pos)
    requires IsGrid(g, rows, cols) && rows * cols <= U32
    requires IsMazeWalk(g, rows, cols, wall, walk, start, end) && Cell(g, rows, cols, start) != wall
    requires Steps(MazeGraph(g, rows, cols, wall, cost), EncodePath(cols, walk))
    ensures WalkCost(MazeGraph(g, rows, cols, wall, cost), EncodePath(cols, walk)) == MazeCost(g, rows, cols, cost, walk)
    decreases |walk|
  {
    if |walk| > 1 {
      var init := walk[..|walk| - 1];
      var prev := init[|init| - 1];
      var w := EncodePath(cols, walk);
      assert EncodePath(cols, init) == w[..|walk| - 1];
      EncodedSteps(g, rows, cols, wall, cost, init, start, prev);
      EncodedCost(g, rows, cols, wall, cost, init, start, prev);
      StepIsEdge(g, rows, cols, wall, cost, prev, end);
    }
  }

  /** A maze walk from a non-wall cell encodes to a graph walk of the same cost. */
  lemma EncodedWalk(g: seq<seq<Text.byte>>, rows: nat, cols: nat, wall: Text.byte, cost: CostFn, walk: seq<Pos>, start: Pos, end: Pos)
    requires IsGrid(g, rows, cols) && rows * cols <= U32
    requires IsMazeWalk(g, rows, cols, wall, walk, start, end) && Cell(g, rows, cols, start) != wall
    ensures IsGraphWalk(MazeGraph(g, rows, cols, wall, cost), EncodePath(cols, walk), Encode(cols, start), Encode(cols, end))
    ensures WalkCost(MazeGraph(g, rows, cols, wall, cost), EncodePath(cols, walk)) == MazeCost(g, rows, cols, cost, walk)
  {
    EncodedSteps(g, rows, cols, wall, cost, walk, start, end);
    EncodedCost(g, rows, cols, wall, cost, walk, start, end);
  }

  /** The returned path starts at `start`, ends at `end` and moves one CROSS
      step at a time through non-wall cells (from a wall it is just
      `[start]`); its cost is the weight of dijkstra's walk. */
  lemma PathIsMazeWalk(g: seq<seq<Text.byte>>, rows: nat, cols: nat, start: Pos, end: Pos, wall: Text.byte, cost: CostFn,
                       found: Option<seq<nat>>)
    requires IsGrid(g, rows, cols) && rows * cols <= U32 && InBounds(rows, cols, start) && InBounds(rows, cols, end)
    requires ShortestPathResult(MazeGraph(g, rows, cols, wall, cost), Encode(cols, start), Encode(cols, end), found)
    requires MazeShortestPath(g, rows, cols, start, end, wall, cost, found).Ok?
    ensures var path := MazeShortestPath(g, rows, cols, start, end, wall, cost, found).value;
            IsMazeWalk(g, rows, cols, wall, path, start, end) &&
            (Cell(g, rows, cols, start) == wall ==> path == [start]) &&
            MazeCost(g, rows, cols, cost, path) == WalkCost(MazeGraph(g, rows, cols, wall, cost), found.value)
  {
    var graph := MazeGraph(g, rows, cols, wall, cost);
    var walk := found.value;
    DecodedWalk(g, rows, cols, wall, cost, walk, start);
    DecodedCost(g, rows, cols, wall, cost, walk);
    DecodeEncode(rows, cols, end);
    assert |walk| > 1 ==> HasEdge(Successors(graph, walk[0]), walk[1]);
    if Cell(g, rows, cols, start) == wall {
      WallHasNoSuccessors(g, rows, cols, wall, cost, start);
    }
  }

  /** The returned path costs no more than any maze walk from `start` to `end`. */
  lemma PathIsShortest(g: seq<seq<Text.byte>>, rows: nat, cols: nat, start: Pos, end: Pos, wall: Text.byte, cost: CostFn,
                       found: Option<seq<nat>>, other: seq<Pos>)
    requires IsGrid(g, rows, cols) && rows * cols <= U32 && InBounds(rows, cols, start) && InBounds(rows, cols, end)
    requires ShortestPathResult(MazeGraph(g, rows, cols, wall, cost), Encode(cols, start), Encode(cols, end), found)
    requires MazeShortestPath(g, rows, cols, start, end, wall, cost, found).Ok?
    requires IsMazeWalk(g, rows, cols, wall, other, start, end)
    ensures var path := MazeShortestPath(g, rows, cols, start, end, wall, cost, found).value;
            IsMazeWalk(g, rows, cols, wall, path, start, end) &&
            MazeCost(g, rows, cols, cost, path) <= MazeCost(g, rows, cols, cost, other)
  {
    var graph := MazeGraph(g, rows, cols, wall, cost);
    PathIsMazeWalk(g, rows, cols, start, end, wall, cost, found);
    if Cell(g, rows, cols, start) != wall {
      var w := EncodePath(cols, other);
      EncodedWalk(g, rows, cols, wall, cost, other, start, end);
      assert IsGraphWalk(graph, w, Encode(cols, start), Encode(cols, end));
      assert WalkCost(graph, found.value) <= WalkCost(graph, w);
    }
  }

  /** When `end` is reachable from a non-wall `start`, no panic. */
  lemma ReachableDoesNotPanic(g: seq<seq<Text.byte>>, rows: nat, cols: nat, start: Pos, end: Pos, wall: Text.byte, cost: CostFn,
                              found: Option<seq<nat>>, walk: seq<Pos>)
    requires IsGrid(g, rows, cols) && rows * cols <= U32
    requires ShortestPathResult(MazeGraph(g, rows, cols, wall, cost), Encode(cols, start), Encode(cols, end), found)
    requires IsMazeWalk(g, rows, cols, wall, walk, start, end) && Cell(g, rows, cols, start) != wall
    ensures MazeShortestPath(g, rows, cols, start, end, wall, cost, found).Ok?
  {
    EncodedWalk(g, rows, cols, wall, cost, walk, start, end);
  }

  /** A wall cell has no successors. */
  lemma WallHasNoSuccessors(g: seq<seq<Text.byte>>, rows: nat, cols: nat, wall: Text.byte, cost: CostFn, p: Pos)
    requires IsGrid(g, rows, cols) && rows * cols <= U32 && InBounds(rows, cols, p) && Cell(g, rows, cols, p) == wall
    ensures Successors(MazeGraph(g, rows, cols, wall, cost), Encode(cols, p)) == []
  {
    MazeGraphExact(g, rows, cols, wall, cost);
  }
}
