/** Day 11, part B: each input line `node: a b c` lists the devices `node`
    feeds; the answer is the number of paths from `svr` to `out` that pass
    through both `dac` and `fft`.  The edges are grouped into an adjacency
    map, the map is listed in hash order, and a depth-first count walks the
    listing. */
module Day11 {
  import opened Wrappers
  import opened Text

  const COLON: byte := 58
  const DAC: Bytes := [100, 97, 99]    // "dac"
  const FFT: Bytes := [102, 102, 116]  // "fft"
  const SVR: Bytes := [115, 118, 114]  // "svr"
  const OUT: Bytes := [111, 117, 116]  // "out"
  const UNWRAP_NONE := "called `Option::unwrap()` on a `None` value"
  const UNWRAP_ERR := "called `Result::unwrap()` on an `Err` value"

  type Name = Bytes
  type Edge = (Name, Name)

  /** The adjacency listing the search walks: `(node, neighbours)` pairs. */
  type Listing = seq<(Name, seq<Name>)>

  // ---------------------------------------------------------------- parsing

  /** The edges `node -> t`, one per target, in order. */
  function EdgesFrom(node: Name, targets: seq<Name>): seq<Edge>
  {
    seq(|targets|, k requires 0 <= k < |targets| => (node, targets[k]))
  }

  /** The line mapper: split once at the first `:`, the (untrimmed) text
      before it is the source, the whitespace-separated words after it are
      the targets. */
  function LineEdges(line: Bytes): (r: Result<seq<Edge>>)
    ensures r.Panic? <==> COLON !in line
    ensures r.Ok? ==> forall k :: 0 <= k < |r.value| ==>
      r.value[k].0 == line[..IndexOf(line, COLON)] && IsWord(r.value[k].1)
  {
    match SplitOnce(line, COLON)
    case None => Panic(UNWRAP_NONE)
    case Some((node, links)) =>
      FirstSeparator(node, COLON, links);
      Ok(EdgesFrom(node, SplitWhitespace(links)))
  }

  /** A line written as `node: t1 t2 ...` yields exactly the edges
      `node -> t1`, `node -> t2`, ... */
  lemma LineEdgesOfText(node: Name, targets: seq<Name>)
    requires COLON !in node
    requires forall k :: 0 <= k < |targets| ==> IsWord(targets[k])
    ensures LineEdges(node + [COLON] + ([SPACE] + Spaced(targets))).Ok?
    ensures LineEdges(node + [COLON] + ([SPACE] + Spaced(targets))).value == EdgesFrom(node, targets)
  {
    var links := [SPACE] + Spaced(targets);
    SplitOnceAt(node, links);
    SpacedAfterSpace(targets);
  }

  /** The first `:` of `node:links` is the one after `node`. */
  lemma SplitOnceAt(node: Name, links: Bytes)
    requires COLON !in node
    ensures SplitOnce(node + [COLON] + links, COLON) == Some((node, links))
  {
    var line := node + [COLON] + links;
    FirstSeparator(node, COLON, links);
    assert line[..|node|] == node && line[|node| + 1..] == links;
  }

  /** A leading space does not change the words. */
  lemma SpacedAfterSpace(targets: seq<Name>)
    requires forall k :: 0 <= k < |targets| ==> IsWord(targets[k])
    ensures SplitWhitespace([SPACE] + Spaced(targets)) == targets
  {
    SplitWhitespaceSkipsLeading([SPACE] + Spaced(targets), Spaced(targets));
    SplitWhitespaceOfSpaced(targets);
  }

  /** The groups of a list concatenated in order. */
  function Concat<T>(groups: seq<seq<T>>): (r: seq<T>)
  {
    if groups == [] then [] else Concat(groups[..|groups| - 1]) + groups[|groups| - 1]
  }

  /** The edges `file_lines_to_graph_directed` collects from the line
      mapper: the edges of every line, line after line; any line without `:`
      panics. */
  function GraphEdges(lines: seq<Bytes>): (r: Result<seq<Edge>>)
    ensures r.Panic? <==> exists k :: 0 <= k < |lines| && COLON !in lines[k]
    ensures r.Ok? ==> r.value == Concat(MapAll(LineEdges, lines).value)
  {
    match MapAll(LineEdges, lines)
    case Panic(why) => Panic(why)
    case Ok(groups) => Ok(Concat(groups))
  }

  /** Each line of a well-formed input contributes its own edges in order. */
  lemma GraphEdgesOfLines(lines: seq<Bytes>, line: Bytes)
    requires GraphEdges(lines).Ok? && COLON in line
    ensures GraphEdges(lines + [line]).Ok?
    ensures GraphEdges(lines + [line]).value == GraphEdges(lines).value + LineEdges(line).value
  {
    MapAllSnoc(LineEdges, lines, line);
    var groups := MapAll(LineEdges, lines + [line]).value;
    assert groups[..|groups| - 1] == MapAll(LineEdges, lines).value;
  }

  // ------------------------------------------------------------------ graph

  /** Some edge runs from a node to itself. */
  predicate HasSelfLoop(edges: seq<Edge>)
  {
    exists k :: 0 <= k < |edges| && edges[k].0 == edges[k].1
  }

  /** Some edge is listed twice. */
  predicate HasRepeat(edges: seq<Edge>)
  {
    exists i, j :: 0 <= i < j < |edges| && edges[i] == edges[j]
  }

  /** `add_edges` on a directed graph that already holds the edges `present`
      and, as `GraphSpecs::directed_create_missing` specifies, allows neither
      self-loops nor parallel edges and reports either as an error: the edges
      go in one at a time, and the `unwrap` panics on the first one that is a
      self-loop or already there. */
  function AddEdges(present: set<Edge>, edges: seq<Edge>): (r: Result<set<Edge>>)
    ensures r.Panic? <==> HasSelfLoop(edges) || HasRepeat(edges) ||
                          exists k :: 0 <= k < |edges| && edges[k] in present
    ensures r.Ok? ==> r.value == present + set e | e in edges
    decreases |edges|
  {
    if edges == [] then Ok(present)
    else if edges[0].0 == edges[0].1 || edges[0] in present then Panic(UNWRAP_ERR)
    else
      var r := AddEdges(present + {edges[0]}, edges[1..]);
      AddEdgesStep(present, edges);
      r
  }

  /** Adding the first edge moves it from the list into the graph. */
  lemma AddEdgesStep(present: set<Edge>, edges: seq<Edge>)
    requires edges != [] && edges[0].0 != edges[0].1 && edges[0] !in present
    ensures HasSelfLoop(edges) <==> HasSelfLoop(edges[1..])
    ensures HasRepeat(edges) || (exists k :: 0 <= k < |edges| && edges[k] in present) <==>
            HasRepeat(edges[1..]) || exists k :: 0 <= k < |edges| - 1 && edges[1..][k] in present + {edges[0]}
    ensures present + {edges[0]} + (set e | e in edges[1..]) == present + set e | e in edges
  {
    var rest := edges[1..];
    if HasSelfLoop(edges) {
      var k :| 0 <= k < |edges| && edges[k].0 == edges[k].1;
      assert rest[k - 1] == edges[k];
    }
    RepeatStep(present, edges);
    assert edges == [edges[0]] + rest;
  }

  /** The repeat-or-present test of `AddEdges` before and after one edge. */
  lemma RepeatStep(present: set<Edge>, edges: seq<Edge>)
    requires edges != [] && edges[0] !in present
    ensures HasRepeat(edges) || (exists k :: 0 <= k < |edges| && edges[k] in present) <==>
            HasRepeat(edges[1..]) || exists k :: 0 <= k < |edges| - 1 && edges[1..][k] in present + {edges[0]}
  {
    var rest := edges[1..];
    if HasRepeat(edges) {
      var i, j :| 0 <= i < j < |edges| && edges[i] == edges[j];
      if i == 0 {
        assert rest[j - 1] in present + {edges[0]};
      } else {
        assert rest[i - 1] == rest[j - 1];
      }
    }
    if k :| 0 <= k < |edges| && edges[k] in present {
      assert rest[k - 1] in present + {edges[0]};
    }
    if k :| 0 <= k < |rest| && rest[k] in present + {edges[0]} {
      if rest[k] == edges[0] {
        assert edges[0] == edges[k + 1];
      }
    }
    if HasRepeat(rest) {
      var i, j :| 0 <= i < j < |rest| && rest[i] == rest[j];
      assert edges[i + 1] == edges[j + 1];
    }
  }

  /** `file_lines_to_graph_directed`: collect the edges of the lines, then
      add them to an empty graph.  The result is the graph's edges in the
      order they were added. */
  function FileLinesToGraph(lines: seq<Bytes>): (r: Result<seq<Edge>>)
    ensures r.Panic? <==> GraphEdges(lines).Panic? ||
                          HasSelfLoop(GraphEdges(lines).value) || HasRepeat(GraphEdges(lines).value)
    ensures r.Ok? ==> r.value == GraphEdges(lines).value && !HasRepeat(r.value) && !HasSelfLoop(r.value)
  {
    match GraphEdges(lines)
    case Panic(why) => Panic(why)
    case Ok(edges) =>
      match AddEdges({}, edges)
      case Panic(why) => Panic(why)
      case Ok(_) => Ok(edges)
  }

  /** A line naming the same target twice, such as `svr: out out`, makes
      building the graph panic. */
  lemma RepeatedTargetPanics(node: Name, t: Name)
    requires COLON !in node && IsWord(t)
    ensures FileLinesToGraph([node + [COLON] + ([SPACE] + Spaced([t, t]))]).Panic?
  {
    var line := node + [COLON] + ([SPACE] + Spaced([t, t]));
    LineEdgesOfText(node, [t, t]);
    var edges := GraphEdges([line]).value;
    assert MapAll(LineEdges, [line]).value == [EdgesFrom(node, [t, t])];
    assert edges == Concat([EdgesFrom(node, [t, t])]) == [] + EdgesFrom(node, [t, t]);
    assert edges[0] == edges[1];
  }

  /** A line naming its own node as a target, such as `a: a`, makes building
      the graph panic. */
  lemma SelfLoopPanics(node: Name)
    requires COLON !in node && IsWord(node)
    ensures FileLinesToGraph([node + [COLON] + ([SPACE] + Spaced([node]))]).Panic?
  {
    var line := node + [COLON] + ([SPACE] + Spaced([node]));
    LineEdgesOfText(node, [node]);
    var edges := GraphEdges([line]).value;
    assert MapAll(LineEdges, [line]).value == [EdgesFrom(node, [node])];
    assert edges == Concat([EdgesFrom(node, [node])]) == [] + EdgesFrom(node, [node]);
    assert edges[0].0 == edges[0].1;
  }

  // ------------------------------------------------------------- adjacency

  /** Some edge leaves `u`. */
  predicate HasSource(edges: seq<Edge>, u: Name)
  {
    exists k :: 0 <= k < |edges| && edges[k].0 == u
  }

  /** The targets of the edges leaving `u`, in edge order (repeats kept). */
  function Targets(edges: seq<Edge>, u: Name): (ts: seq<Name>)
    ensures |ts| <= |edges|
  {
    if edges == [] then []
    else
      var e := edges[|edges| - 1];
      Targets(edges[..|edges| - 1], u) + (if e.0 == u then [e.1] else [])
  }

  /** `v` is a target of `u` exactly when the edge `u -> v` is present. */
  lemma {:induction false} TargetsMember(edges: seq<Edge>, u: Name, v: Name)
    ensures v in Targets(edges, u) <==> exists k :: 0 <= k < |edges| && edges[k] == (u, v)
  {
    if edges != [] {
      var pre := edges[..|edges| - 1];
      TargetsMember(pre, u, v);
      assert forall k :: 0 <= k < |pre| ==> pre[k] == edges[k];
      if v in Targets(edges, u) && v !in Targets(pre, u) {
        assert edges[|edges| - 1] == (u, v);
      }
    }
  }

  /** A node without outgoing edges has no targets. */
  lemma {:induction false} TargetsOfNonSource(edges: seq<Edge>, u: Name)
    requires !HasSource(edges, u)
    ensures Targets(edges, u) == []
  {
    if edges != [] {
      var pre := edges[..|edges| - 1];
      assert forall k :: 0 <= k < |pre| ==> pre[k] == edges[k];
      assert !HasSource(pre, u);
      TargetsOfNonSource(pre, u);
      assert edges[|edges| - 1].0 != u;
    }
  }

  /** The nodes some edge leaves. */
  function Sources(edges: seq<Edge>): (us: set<Name>)
  {
    if edges == [] then {} else Sources(edges[..|edges| - 1]) + {edges[|edges| - 1].0}
  }

  /** `Sources` holds exactly the nodes with an outgoing edge. */
  lemma {:induction false} SourcesMember(edges: seq<Edge>, u: Name)
    ensures u in Sources(edges) <==> HasSource(edges, u)
  {
    if edges != [] {
      var pre := edges[..|edges| - 1];
      SourcesMember(pre, u);
      assert forall k :: 0 <= k < |pre| ==> pre[k] == edges[k];
      if HasSource(edges, u) && u != edges[|edges| - 1].0 {
        var k :| 0 <= k < |edges| && edges[k].0 == u;
        assert pre[k].0 == u;
      }
    }
  }

  /** The map `u -> targets of u` over exactly the sources of `edges`. */
  predicate IsAdjacency(adj: map<Name, seq<Name>>, edges: seq<Edge>)
  {
    adj.Keys == Sources(edges) &&
    forall u :: u in adj ==> adj[u] == Targets(edges, u)
  }

  /** One more edge extends the sources and its source's targets. */
  lemma PrefixStep(edges: seq<Edge>, i: nat)
    requires i < |edges|
    ensures Sources(edges[..i + 1]) == Sources(edges[..i]) + {edges[i].0}
    ensures forall u :: Targets(edges[..i + 1], u) == Targets(edges[..i], u) + (if edges[i].0 == u then [edges[i].1] else [])
  {
    assert edges[..i + 1][..i] == edges[..i];
  }

  /** One more edge pushed onto its source's list. */
  lemma AdjacencyStep(adj: map<Name, seq<Name>>, edges: seq<Edge>, i: nat)
    requires i < |edges| && IsAdjacency(adj, edges[..i])
    ensures var e := edges[i];
      IsAdjacency(adj[e.0 := (if e.0 in adj then adj[e.0] else []) + [e.1]], edges[..i + 1])
  {
    var e := edges[i];
    var pre, post := edges[..i], edges[..i + 1];
    var list := if e.0 in adj then adj[e.0] else [];
    var adj' := adj[e.0 := list + [e.1]];
    PrefixStep(edges, i);
    if e.0 !in adj {
      SourcesMember(pre, e.0);
      TargetsOfNonSource(pre, e.0);
    }
    assert list == Targets(pre, e.0);
    assert adj'.Keys == Sources(post);
    forall u | u in adj' ensures adj'[u] == Targets(post, u) {
      if u != e.0 {
        assert adj'[u] == adj[u];
      }
    }
  }

  /** The `entry(u).or_default().push(v)` loop over all edges. */
  method BuildAdjacency(edges: seq<Edge>) returns (adj: map<Name, seq<Name>>)
    ensures IsAdjacency(adj, edges)
  {
    adj := map[];
    var i := 0;
    while i < |edges|
      invariant i <= |edges|
      invariant IsAdjacency(adj, edges[..i])
    {
      var e := edges[i];
      AdjacencyStep(adj, edges, i);
      var old_list := if e.0 in adj then adj[e.0] else [];
      adj := adj[e.0 := old_list + [e.1]];
      i := i + 1;
    }
    assert edges[..i] == edges;
  }

  // --------------------------------------------------------------- listing

  /** Each key of the listing occurs once. */
  predicate UniqueKeys(l: Listing)
  {
    forall i, j :: 0 <= i < j < |l| ==> l[i].0 != l[j].0
  }

  /** Some entry of the listing is keyed by `u`. */
  predicate Listed(l: Listing, u: Name)
  {
    exists i :: 0 <= i < |l| && l[i].0 == u
  }

  /** `l` lists the entries of `m`, each once, in some order. */
  predicate ListsMap(l: Listing, m: map<Name, seq<Name>>)
  {
    UniqueKeys(l) &&
    (forall i :: 0 <= i < |l| ==> l[i].0 in m && l[i].1 == m[l[i].0]) &&
    (forall u :: u in m ==> Listed(l, u))
  }

  /** The entries of `m` already listed: all keys outside `remaining`. */
  predicate ListedSoFar(l: Listing, m: map<Name, seq<Name>>, remaining: set<Name>)
  {
    remaining <= m.Keys && UniqueKeys(l) &&
    (forall i :: 0 <= i < |l| ==> l[i].0 in m && l[i].0 !in remaining && l[i].1 == m[l[i].0]) &&
    (forall u :: u in m && u !in remaining ==> Listed(l, u))
  }

  /** Listing one more remaining key keeps `ListedSoFar`. */
  lemma ListingStep(l: Listing, m: map<Name, seq<Name>>, remaining: set<Name>, u: Name)
    requires ListedSoFar(l, m, remaining) && u in remaining
    ensures ListedSoFar(l + [(u, m[u])], m, remaining - {u})
  {
    var l' := l + [(u, m[u])];
    assert forall i :: 0 <= i < |l| ==> l'[i] == l[i];
    forall v | v in m && v !in remaining - {u} ensures Listed(l', v) {
      if v == u {
        assert l'[|l|].0 == v;
      } else {
        var i :| 0 <= i < |l| && l[i].0 == v;
        assert l'[i].0 == v;
      }
    }
  }

  /** `adjacency.iter().map(..).collect()`: the entries in an order the hash
      map chooses, which the model leaves open. */
  method ToListing(m: map<Name, seq<Name>>) returns (l: Listing)
    ensures ListsMap(l, m)
  {
    l := [];
    var remaining := m.Keys;
    while remaining != {}
      invariant ListedSoFar(l, m, remaining)
      decreases |remaining|
    {
      var u :| u in remaining;
      ListingStep(l, m, remaining, u);
      l := l + [(u, m[u])];
      remaining := remaining - {u};
    }
  }

  /** The neighbours the search uses: the list of the first entry keyed by
      `cur`, or none when no entry is. */
  function Neighbours(l: Listing, cur: Name): seq<Name>
  {
    if l == [] then []
    else if l[0].0 == cur then l[0].1
    else Neighbours(l[1..], cur)
  }

  /** The neighbours are those of the first entry keyed by `cur`, and none
      when no entry is. */
  lemma {:induction false} NeighboursFirst(l: Listing, cur: Name)
    ensures !Listed(l, cur) ==> Neighbours(l, cur) == []
    ensures forall i :: 0 <= i < |l| && l[i].0 == cur && (forall j :: 0 <= j < i ==> l[j].0 != cur) ==> Neighbours(l, cur) == l[i].1
  {
    if l != [] && l[0].0 != cur {
      NeighboursFirst(l[1..], cur);
      assert forall i :: 1 <= i < |l| ==> l[1..][i - 1] == l[i];
    }
  }

  /** Over a listing of a map, the neighbours are the map's entry (or none). */
  lemma NeighboursOfListing(l: Listing, m: map<Name, seq<Name>>, u: Name)
    requires ListsMap(l, m)
    ensures Neighbours(l, u) == if u in m then m[u] else []
  {
    NeighboursFirst(l, u);
    if u in m {
      var i :| 0 <= i < |l| && l[i].0 == u;
      assert forall j :: 0 <= j < i ==> l[j].0 != u;
    } else {
      assert forall i :: 0 <= i < |l| ==> l[i].0 != u;
    }
  }

  /** Over a listing of the adjacency of `edges`, the neighbours of every
      node are its targets, in edge order. */
  lemma NeighboursAreTargets(l: Listing, m: map<Name, seq<Name>>, edges: seq<Edge>, u: Name)
    requires ListsMap(l, m) && IsAdjacency(m, edges)
    ensures Neighbours(l, u) == Targets(edges, u)
  {
    NeighboursOfListing(l, m, u);
    if u !in m {
      SourcesMember(edges, u);
      TargetsOfNonSource(edges, u);
    }
  }

  // ---------------------------------------------------------------- search

  /** `dfs_memoized` (the cache only avoids recomputation).  The source
      recursion terminates on acyclic graphs only; `fuel` bounds the depth
      and `None` means the bound was reached. */
  function Dfs(l: Listing, cur: Name, target: Name, hasDac: bool, hasFft: bool, fuel: nat): (r: Option<nat>)
    decreases fuel, 0
  {
    if cur == target then Some(if hasDac && hasFft then 1 else 0)
    else
      var ns := Neighbours(l, cur);
      if ns == [] then Some(0)
      else if fuel == 0 then None
      else SumPaths(l, ns, target, hasDac || cur == DAC, hasFft || cur == FFT, fuel - 1)
  }

  /** `total_paths += dfs_memoized(..)` over the neighbours. */
  function SumPaths(l: Listing, ns: seq<Name>, target: Name, hasDac: bool, hasFft: bool, fuel: nat): (r: Option<nat>)
    decreases fuel, 1, |ns|
  {
    if ns == [] then Some(0)
    else
      match SumPaths(l, ns[..|ns| - 1], target, hasDac, hasFft, fuel)
      case None => None
      case Some(s) =>
        match Dfs(l, ns[|ns| - 1], target, hasDac, hasFft, fuel)
        case None => None
        case Some(v) => Some(s + v)
  }

  /** The search sees the listing only through `Neighbours`: two listings
      with the same neighbours give the same count. */
  lemma {:induction false} DfsSameNeighbours(l1: Listing, l2: Listing, cur: Name, target: Name, hasDac: bool, hasFft: bool, fuel: nat)
    requires forall u :: Neighbours(l1, u) == Neighbours(l2, u)
    ensures Dfs(l1, cur, target, hasDac, hasFft, fuel) == Dfs(l2, cur, target, hasDac, hasFft, fuel)
    decreases fuel, 0
  {
    if cur != target && Neighbours(l1, cur) != [] && fuel > 0 {
      SumPathsSameNeighbours(l1, l2, Neighbours(l1, cur), target, hasDac || cur == DAC, hasFft || cur == FFT, fuel - 1);
    }
  }

  lemma {:induction false} SumPathsSameNeighbours(l1: Listing, l2: Listing, ns: seq<Name>, target: Name, hasDac: bool, hasFft: bool, fuel: nat)
    requires forall u :: Neighbours(l1, u) == Neighbours(l2, u)
    ensures SumPaths(l1, ns, target, hasDac, hasFft, fuel) == SumPaths(l2, ns, target, hasDac, hasFft, fuel)
    decreases fuel, 1, |ns|
  {
    if ns != [] {
      SumPathsSameNeighbours(l1, l2, ns[..|ns| - 1], target, hasDac, hasFft, fuel);
      DfsSameNeighbours(l1, l2, ns[|ns| - 1], target, hasDac, hasFft, fuel);
    }
  }

  /** The order in which the hash map lists its entries does not change the
      count. */
  lemma ListingOrderIrrelevant(l1: Listing, l2: Listing, m: map<Name, seq<Name>>, cur: Name, target: Name, hasDac: bool, hasFft: bool, fuel: nat)
    requires ListsMap(l1, m) && ListsMap(l2, m)
    ensures Dfs(l1, cur, target, hasDac, hasFft, fuel) == Dfs(l2, cur, target, hasDac, hasFft, fuel)
  {
    forall u ensures Neighbours(l1, u) == Neighbours(l2, u) {
      NeighboursOfListing(l1, m, u);
      NeighboursOfListing(l2, m, u);
    }
    DfsSameNeighbours(l1, l2, cur, target, hasDac, hasFft, fuel);
  }

  /** A count reached within some depth bound is the count for every larger
      bound. */
  lemma {:induction false} DfsFuelMono(l: Listing, cur: Name, target: Name, hasDac: bool, hasFft: bool, fuel: nat, more: nat)
    requires Dfs(l, cur, target, hasDac, hasFft, fuel).Some? && fuel <= more
    ensures Dfs(l, cur, target, hasDac, hasFft, more) == Dfs(l, cur, target, hasDac, hasFft, fuel)
    decreases fuel, 0
  {
    if cur != target && Neighbours(l, cur) != [] {
      SumPathsFuelMono(l, Neighbours(l, cur), target, hasDac || cur == DAC, hasFft || cur == FFT, fuel - 1, more - 1);
    }
  }

  lemma {:induction false} SumPathsFuelMono(l: Listing, ns: seq<Name>, target: Name, hasDac: bool, hasFft: bool, fuel: nat, more: nat)
    requires SumPaths(l, ns, target, hasDac, hasFft, fuel).Some? && fuel <= more
    ensures SumPaths(l, ns, target, hasDac, hasFft, more) == SumPaths(l, ns, target, hasDac, hasFft, fuel)
    decreases fuel, 1, |ns|
  {
    if ns != [] {
      SumPathsFuelMono(l, ns[..|ns| - 1], target, hasDac, hasFft, fuel, more);
      DfsFuelMono(l, ns[|ns| - 1], target, hasDac, hasFft, fuel, more);
    }
  }

  /** Every listed edge goes strictly down in `rank`: the graph is acyclic. */
  predicate Ranked(l: Listing, rank: Name -> nat)
  {
    forall i, j :: 0 <= i < |l| && 0 <= j < |l[i].1| ==> rank(l[i].1[j]) < rank(l[i].0)
  }

  /** Every neighbour of `u` is ranked below `u`. */
  lemma NeighboursRanked(l: Listing, rank: Name -> nat, u: Name)
    requires Ranked(l, rank)
    ensures forall j :: 0 <= j < |Neighbours(l, u)| ==> rank(Neighbours(l, u)[j]) < rank(u)
  {
    NeighboursFirst(l, u);
    if Listed(l, u) {
      var i :| 0 <= i < |l| && l[i].0 == u && forall j :: 0 <= j < i ==> l[j].0 != u by {
        FirstListed(l, u);
      }
    }
  }

  lemma {:induction false} FirstListed(l: Listing, u: Name)
    requires Listed(l, u)
    ensures exists i :: 0 <= i < |l| && l[i].0 == u && forall j :: 0 <= j < i ==> l[j].0 != u
  {
    if l[0].0 != u {
      var t := l[1..];
      assert forall i :: 1 <= i < |l| ==> t[i - 1] == l[i];
      var i0 :| 0 <= i0 < |l| && l[i0].0 == u;
      assert t[i0 - 1].0 == u;
      FirstListed(t, u);
      var i :| 0 <= i < |t| && t[i].0 == u && forall j :: 0 <= j < i ==> t[j].0 != u;
      assert l[i + 1].0 == u;
      assert forall j :: 1 <= j < i + 1 ==> l[j].0 == t[j - 1].0;
    }
  }

  /** On an acyclic graph the search finishes once the depth bound reaches
      the rank of the start. */
  lemma {:induction false} DfsTerminates(l: Listing, rank: Name -> nat, cur: Name, target: Name, hasDac: bool, hasFft: bool, fuel: nat)
    requires Ranked(l, rank) && rank(cur) <= fuel
    ensures Dfs(l, cur, target, hasDac, hasFft, fuel).Some?
    decreases fuel, 0
  {
    var ns := Neighbours(l, cur);
    if cur != target && ns != [] {
      NeighboursRanked(l, rank, cur);
      assert rank(ns[0]) < rank(cur);
      SumPathsTerminates(l, rank, ns, |ns|, target, hasDac || cur == DAC, hasFft || cur == FFT, fuel - 1);
      assert ns[..|ns|] == ns;
    }
  }

  lemma {:induction false} SumPathsTerminates(l: Listing, rank: Name -> nat, ns: seq<Name>, n: nat, target: Name, hasDac: bool, hasFft: bool, fuel: nat)
    requires Ranked(l, rank) && n <= |ns|
    requires forall j :: 0 <= j < |ns| ==> rank(ns[j]) <= fuel
    ensures SumPaths(l, ns[..n], target, hasDac, hasFft, fuel).Some?
    decreases fuel, 1, n
  {
    if n > 0 {
      SumPathsTerminates(l, rank, ns, n - 1, target, hasDac, hasFft, fuel);
      assert ns[..n][..n - 1] == ns[..n - 1];
      DfsTerminates(l, rank, ns[n - 1], target, hasDac, hasFft, fuel);
    }
  }

  // ----------------------------------------------------------------- walks

  /** The walks the search explores: from `cur`, along neighbours, ending at
      the first visit of `target`, with at most `fuel` steps before it. */
  function Walks(l: Listing, cur: Name, target: Name, fuel: nat): seq<seq<Name>>
    decreases fuel, 0
  {
    if cur == target then [[cur]]
    else if fuel == 0 then []
    else Prefixed(cur, WalksFrom(l, Neighbours(l, cur), target, fuel - 1))
  }

  function WalksFrom(l: Listing, ns: seq<Name>, target: Name, fuel: nat): seq<seq<Name>>
    decreases fuel, 1, |ns|
  {
    if ns == [] then []
    else WalksFrom(l, ns[..|ns| - 1], target, fuel) + Walks(l, ns[|ns| - 1], target, fuel)
  }

  /** `x` put in front of every walk. */
  function Prefixed(x: Name, ws: seq<seq<Name>>): (r: seq<seq<Name>>)
    ensures |r| == |ws| && forall k :: 0 <= k < |ws| ==> r[k] == [x] + ws[k]
  {
    seq(|ws|, k requires 0 <= k < |ws| => [x] + ws[k])
  }

  /** `w` is a walk from `cur` to `target` along neighbours that reaches
      `target` only at its end. */
  predicate IsWalk(l: Listing, w: seq<Name>, cur: Name, target: Name)
  {
    |w| >= 1 && w[0] == cur && w[|w| - 1] == target &&
    (forall i :: 0 <= i < |w| - 1 ==> w[i] != target) &&
    (forall i :: 0 <= i < |w| - 1 ==> w[i + 1] in Neighbours(l, w[i]))
  }

  /** A walk one node longer at the front. */
  lemma WalkCons(l: Listing, cur: Name, w: seq<Name>, next: Name, target: Name)
    requires IsWalk(l, w, next, target) && cur != target && next in Neighbours(l, cur)
    ensures IsWalk(l, [cur] + w, cur, target)
  {
    var v := [cur] + w;
    forall i | 0 <= i < |v| - 1 ensures v[i + 1] in Neighbours(l, v[i]) {
      if i > 0 { assert v[i] == w[i - 1] && v[i + 1] == w[i]; }
    }
    forall i | 0 <= i < |v| - 1 ensures v[i] != target {
      if i > 0 { assert v[i] == w[i - 1]; }
    }
  }

  /** Every explored walk is a walk from `cur` to `target` of at most
      `fuel` steps. */
  lemma {:induction false} WalksAreWalks(l: Listing, cur: Name, target: Name, fuel: nat, k: nat)
    requires k < |Walks(l, cur, target, fuel)|
    ensures IsWalk(l, Walks(l, cur, target, fuel)[k], cur, target)
    ensures |Walks(l, cur, target, fuel)[k]| <= fuel + 1
    decreases fuel, 0
  {
    if cur != target {
      var ns := Neighbours(l, cur);
      var ws := WalksFrom(l, ns, target, fuel - 1);
      var j := WalksFromAreWalks(l, ns, target, fuel - 1, k);
      WalkCons(l, cur, ws[k], ns[j], target);
    }
  }

  /** Every walk explored from a list of neighbours starts at one of them. */
  lemma {:induction false} WalksFromAreWalks(l: Listing, ns: seq<Name>, target: Name, fuel: nat, k: nat) returns (j: nat)
    requires k < |WalksFrom(l, ns, target, fuel)|
    ensures j < |ns| && IsWalk(l, WalksFrom(l, ns, target, fuel)[k], ns[j], target)
    ensures |WalksFrom(l, ns, target, fuel)[k]| <= fuel + 1
    decreases fuel, 1, |ns|
  {
    var pre := WalksFrom(l, ns[..|ns| - 1], target, fuel);
    var last := Walks(l, ns[|ns| - 1], target, fuel);
    assert WalksFrom(l, ns, target, fuel) == pre + last;
    if k < |pre| {
      j := WalksFromAreWalks(l, ns[..|ns| - 1], target, fuel, k);
      assert ns[..|ns| - 1][j] == ns[j];
    } else {
      WalksAreWalks(l, ns[|ns| - 1], target, fuel, k - |pre|);
      j := |ns| - 1;
    }
  }

  /** Every walk from `cur` to `target` of at most `fuel` steps is
      explored. */
  lemma {:induction false} WalksComplete(l: Listing, w: seq<Name>, cur: Name, target: Name, fuel: nat)
    requires IsWalk(l, w, cur, target) && |w| <= fuel + 1
    ensures w in Walks(l, cur, target, fuel)
    decreases fuel, 0
  {
    if cur != target {
      var t := w[1..];
      assert |w| >= 2;
      forall i | 0 <= i < |t| - 1 ensures t[i + 1] in Neighbours(l, t[i]) && t[i] != target {
        assert t[i] == w[i + 1] && t[i + 1] == w[i + 2];
      }
      var ns := Neighbours(l, cur);
      assert w[1] in ns;
      var j :| 0 <= j < |ns| && ns[j] == w[1];
      WalksFromComplete(l, ns, |ns|, j, t, target, fuel - 1);
      assert ns[..|ns|] == ns;
      var ws := WalksFrom(l, ns, target, fuel - 1);
      var k :| 0 <= k < |ws| && ws[k] == t;
      assert w == [cur] + t;
      assert Walks(l, cur, target, fuel) == Prefixed(cur, ws);
      assert Prefixed(cur, ws)[k] == w;
    } else {
      assert |w| == 1;
      assert w == [cur];
    }
  }

  lemma {:induction false} WalksFromComplete(l: Listing, ns: seq<Name>, n: nat, j: nat, w: seq<Name>, target: Name, fuel: nat)
    requires j < n <= |ns| && IsWalk(l, w, ns[j], target) && |w| <= fuel + 1
    ensures w in WalksFrom(l, ns[..n], target, fuel)
    decreases fuel, 1, n
  {
    var m := ns[..n];
    assert m[..n - 1] == ns[..n - 1];
    if j < n - 1 {
      WalksFromComplete(l, ns, n - 1, j, w, target, fuel);
    } else {
      WalksComplete(l, w, ns[j], target, fuel);
    }
  }

  /** At `target`, both flags hold, counting the nodes before it. */
  predicate Through(w: seq<Name>, hasDac: bool, hasFft: bool)
  {
    |w| >= 1 &&
    (hasDac || DAC in w[..|w| - 1]) &&
    (hasFft || FFT in w[..|w| - 1])
  }

  /** The number of walks that pass both flags. */
  function CountThrough(ws: seq<seq<Name>>, hasDac: bool, hasFft: bool): (c: nat)
    ensures c <= |ws|
  {
    if ws == [] then 0
    else CountThrough(ws[..|ws| - 1], hasDac, hasFft) + (if Through(ws[|ws| - 1], hasDac, hasFft) then 1 else 0)
  }

  lemma {:induction false} CountThroughAppend(a: seq<seq<Name>>, b: seq<seq<Name>>, hasDac: bool, hasFft: bool)
    ensures CountThrough(a + b, hasDac, hasFft) == CountThrough(a, hasDac, hasFft) + CountThrough(b, hasDac, hasFft)
    decreases |b|
  {
    if b == [] {
      assert a + b == a;
    } else {
      assert (a + b)[..|a + b| - 1] == a + b[..|b| - 1];
      CountThroughAppend(a, b[..|b| - 1], hasDac, hasFft);
    }
  }

  /** Putting `x` in front of a walk moves the test for `x` into the flags. */
  lemma ThroughCons(x: Name, w: seq<Name>, hasDac: bool, hasFft: bool)
    requires |w| >= 1
    ensures Through([x] + w, hasDac, hasFft) == Through(w, hasDac || x == DAC, hasFft || x == FFT)
  {
    var v := [x] + w;
    assert v[..|v| - 1] == [x] + w[..|w| - 1];
  }

  lemma {:induction false} CountThroughPrefixed(x: Name, ws: seq<seq<Name>>, hasDac: bool, hasFft: bool)
    requires forall k :: 0 <= k < |ws| ==> |ws[k]| >= 1
    ensures CountThrough(Prefixed(x, ws), hasDac, hasFft) == CountThrough(ws, hasDac || x == DAC, hasFft || x == FFT)
    decreases |ws|
  {
    if ws != [] {
      var pre := ws[..|ws| - 1];
      assert Prefixed(x, ws)[..|ws| - 1] == Prefixed(x, pre);
      CountThroughPrefixed(x, pre, hasDac, hasFft);
      ThroughCons(x, ws[|ws| - 1], hasDac, hasFft);
    }
  }

  /** Every explored walk is non-empty. */
  lemma WalksNonEmpty(l: Listing, ns: seq<Name>, target: Name, fuel: nat)
    ensures forall k :: 0 <= k < |WalksFrom(l, ns, target, fuel)| ==> |WalksFrom(l, ns, target, fuel)[k]| >= 1
  {
    forall k | 0 <= k < |WalksFrom(l, ns, target, fuel)| ensures |WalksFrom(l, ns, target, fuel)[k]| >= 1 {
      var _ := WalksFromAreWalks(l, ns, target, fuel, k);
    }
  }

  /** What the search returns is the number of explored walks that pass
      through both `dac` and `fft` (counting the flags already set). */
  lemma {:induction false} DfsCountsWalks(l: Listing, cur: Name, target: Name, hasDac: bool, hasFft: bool, fuel: nat)
    requires Dfs(l, cur, target, hasDac, hasFft, fuel).Some?
    ensures Dfs(l, cur, target, hasDac, hasFft, fuel).value == CountThrough(Walks(l, cur, target, fuel), hasDac, hasFft)
    decreases fuel, 0
  {
    if cur == target {
      assert Walks(l, cur, target, fuel) == [[cur]];
      assert [[cur]][..0] == [];
    } else if Neighbours(l, cur) != [] {
      var ns := Neighbours(l, cur);
      var d, f := hasDac || cur == DAC, hasFft || cur == FFT;
      SumPathsCountsWalks(l, ns, target, d, f, fuel - 1);
      WalksNonEmpty(l, ns, target, fuel - 1);
      CountThroughPrefixed(cur, WalksFrom(l, ns, target, fuel - 1), hasDac, hasFft);
    } else if fuel > 0 {
      assert WalksFrom(l, [], target, fuel - 1) == [];
    }
  }

  lemma {:induction false} SumPathsCountsWalks(l: Listing, ns: seq<Name>, target: Name, hasDac: bool, hasFft: bool, fuel: nat)
    requires SumPaths(l, ns, target, hasDac, hasFft, fuel).Some?
    ensures SumPaths(l, ns, target, hasDac, hasFft, fuel).value == CountThrough(WalksFrom(l, ns, target, fuel), hasDac, hasFft)
    decreases fuel, 1, |ns|
  {
    if ns != [] {
      var pre := ns[..|ns| - 1];
      SumPathsCountsWalks(l, pre, target, hasDac, hasFft, fuel);
      DfsCountsWalks(l, ns[|ns| - 1], target, hasDac, hasFft, fuel);
      CountThroughAppend(WalksFrom(l, pre, target, fuel), Walks(l, ns[|ns| - 1], target, fuel), hasDac, hasFft);
    }
  }

  // ---------------------------------------------------------------- part B

  /** `part_b`: parse, group, list and count the `svr -> out` paths through
      `dac` and `fft`.  The count is the same for every order the hash map
      may list its entries in; `None` means `fuel` was too small. */
  method PartB(lines: seq<Bytes>, fuel: nat) returns (r: Result<Option<nat>>)
    ensures r.Panic? <==> (exists k :: 0 <= k < |lines| && COLON !in lines[k]) ||
                          HasSelfLoop(GraphEdges(lines).value) || HasRepeat(GraphEdges(lines).value)
    ensures r.Ok? ==> !HasRepeat(GraphEdges(lines).value) && forall l: Listing, m: map<Name, seq<Name>> ::
      ListsMap(l, m) && IsAdjacency(m, GraphEdges(lines).value) ==> r.value == Dfs(l, SVR, OUT, false, false, fuel)
  {
    match FileLinesToGraph(lines)
    case Panic(why) => r := Panic(why);
    case Ok(edges) =>
      var adj := BuildAdjacency(edges);
      var listing := ToListing(adj);
      r := Ok(Dfs(listing, SVR, OUT, false, false, fuel));
      forall l: Listing, m: map<Name, seq<Name>> | ListsMap(l, m) && IsAdjacency(m, edges)
        ensures r.value == Dfs(l, SVR, OUT, false, false, fuel)
      {
        forall u ensures Neighbours(l, u) == Neighbours(listing, u) {
          NeighboursAreTargets(l, m, edges, u);
          NeighboursAreTargets(listing, adj, edges, u);
        }
        DfsSameNeighbours(l, listing, SVR, OUT, false, false, fuel);
      }
  }
}
