/** `floyd_shortest_paths` after its two guards: the distance matrix is filled from the
    weighted edges, relaxed by Floyd–Warshall, and read out along the start vertex's row,
    one report line per other vertex in node order. */
module ShortestPaths {
  import opened Results
  import opened Graphs
  import opened Distances
  import opened Floyd

  /** The direct distance from `a` to `b`: the weight of the edge, or `Inf` without one. */
  function EdgeDist(g: WeightedDiGraph, a: Vertex, b: Vertex): Dist {
    if Edge(a, b) in g.weights then Fin(g.weights[Edge(a, b)]) else Inf
  }

  /** The matrix the initialisation should produce: entry `(i, j)` is the direct distance
      from the `i`-th to the `j`-th vertex. The diagonal gets no zero. */
  function InitMatrix(g: WeightedDiGraph): Matrix {
    var n := |g.nodes|;
    seq(n, i requires 0 <= i < n => seq(n, j requires 0 <= j < n => EdgeDist(g, g.nodes[i], g.nodes[j])))
  }

  /** The weight of a walk given by vertex names: the sum of its direct distances. */
  function WalkWeight(g: WeightedDiGraph, vs: seq<Vertex>): Dist {
    if |vs| < 2 then Fin(0) else Add(EdgeDist(g, vs[0], vs[1]), WalkWeight(g, vs[1..]))
  }

  /** The vertex names along an index walk. */
  function Names(nodes: seq<Vertex>, p: seq<nat>): (vs: seq<Vertex>)
    requires forall t :: 0 <= t < |p| ==> p[t] < |nodes|
    ensures |vs| == |p| && forall t :: 0 <= t < |p| ==> vs[t] == nodes[p[t]]
  {
    seq(|p|, t requires 0 <= t < |p| => nodes[p[t]])
  }

  /** The cost Floyd–Warshall assigns to an index walk over the initial matrix is the weight
      of the same walk in the graph: `Inf` exactly when some step is not an edge. */
  lemma {:induction false} CostIsWalkWeight(g: WeightedDiGraph, p: seq<nat>)
    requires forall t :: 0 <= t < |p| ==> p[t] < |g.nodes|
    ensures Cost(InitMatrix(g), p) == WalkWeight(g, Names(g.nodes, p))
  {
    if |p| >= 2 {
      CostIsWalkWeight(g, p[1..]);
      assert Names(g.nodes, p)[1..] == Names(g.nodes, p[1..]);
    }
  }

  /** The matrix after the edge loop has written the edges of `done`. */
  function Partial(g: WeightedDiGraph, done: set<Edge>): (W: Matrix)
    ensures IsSquare(W, |g.nodes|)
  {
    var n := |g.nodes|;
    seq(n, i requires 0 <= i < n => seq(n, j requires 0 <= j < n =>
      if Edge(g.nodes[i], g.nodes[j]) in done then EdgeDist(g, g.nodes[i], g.nodes[j]) else Inf))
  }

  /** `distance_matrix[node_to_index[a]][node_to_index[b]] = weight` for the edge `e`. */
  function Write(g: WeightedDiGraph, W: Matrix, e: Edge): Matrix
    requires IsSquare(W, |g.nodes|) && e in g.weights && e.src in g.nodes && e.dst in g.nodes
  {
    var a, b := IndexOf(g.nodes, e.src), IndexOf(g.nodes, e.dst);
    W[a := W[a][b := Fin(g.weights[e])]]
  }

  /** Writing the weight of edge `e` into its cell records exactly `e` more. */
  lemma FillStep(g: WeightedDiGraph, done: set<Edge>, e: Edge)
    requires Distinct(g.nodes) && e in g.weights && e.src in g.nodes && e.dst in g.nodes
    ensures Partial(g, done + {e}) == Write(g, Partial(g, done), e)
  {
    var n := |g.nodes|;
    var a, b := IndexOf(g.nodes, e.src), IndexOf(g.nodes, e.dst);
    var W := Partial(g, done);
    var W' := W[a := W[a][b := Fin(g.weights[e])]];
    forall i, j {:trigger W'[i][j]} | 0 <= i < n && 0 <= j < n ensures W'[i][j] == Partial(g, done + {e})[i][j] {
      FillCell(g, done, e, i, j);
    }
    assert forall i :: 0 <= i < n ==> W'[i] == Partial(g, done + {e})[i];
  }

  /** The cell `(i, j)` of `FillStep`: it is the written one exactly when it is `e`'s. */
  lemma FillCell(g: WeightedDiGraph, done: set<Edge>, e: Edge, i: nat, j: nat)
    requires Distinct(g.nodes) && e in g.weights && e.src in g.nodes && e.dst in g.nodes
    requires i < |g.nodes| && j < |g.nodes|
    ensures var a, b := IndexOf(g.nodes, e.src), IndexOf(g.nodes, e.dst);
            Partial(g, done + {e})[i][j]
            == if i == a && j == b then Fin(g.weights[e]) else Partial(g, done)[i][j]
  {
    IndexOfDistinct(g.nodes, i);
    IndexOfDistinct(g.nodes, j);
  }

  /** One turn of the edge loop, stated over the edges still to write. */
  lemma {:induction false} Advance(g: WeightedDiGraph, todo: set<Edge>, e: Edge, W: Matrix)
    requires WellFormedWeighted(g) && todo <= g.weights.Keys && e in todo
    requires W == Partial(g, g.weights.Keys - todo)
    ensures e.src in g.nodes && e.dst in g.nodes && IsSquare(W, |g.nodes|)
    ensures Write(g, W, e) == Partial(g, g.weights.Keys - (todo - {e}))
    ensures |todo - {e}| < |todo|
  {
    FillStep(g, g.weights.Keys - todo, e);
    assert g.weights.Keys - (todo - {e}) == (g.weights.Keys - todo) + {e};
  }

  /** The edge loop of the source, over the edges in whatever order the graph yields them:
      every cell starts at `Inf` and each edge writes its weight into its own cell. */
  method InitDistances(g: WeightedDiGraph) returns (W: Matrix)
    requires WellFormedWeighted(g)
    ensures W == InitMatrix(g)
  {
    W := AllInf(|g.nodes|);
    FilledNone(g);
    var todo := g.weights.Keys;
    assert g.weights.Keys - todo == {};
    while todo != {}
      invariant todo <= g.weights.Keys
      invariant W == Partial(g, g.weights.Keys - todo)
      decreases |todo|
    {
      var e :| e in todo;
      Advance(g, todo, e, W);
      W := Write(g, W, e);
      todo := todo - {e};
    }
    assert g.weights.Keys - todo == g.weights.Keys;
    FilledAll(g);
  }

  /** The `np.inf * np.ones((n, n))` start. */
  function AllInf(n: nat): (W: Matrix)
    ensures IsSquare(W, n) && forall i, j :: 0 <= i < n && 0 <= j < n ==> W[i][j] == Inf
  {
    seq(n, i => seq(n, j => Inf))
  }

  lemma FilledNone(g: WeightedDiGraph)
    ensures Partial(g, {}) == AllInf(|g.nodes|)
  {
    assert forall i :: 0 <= i < |g.nodes| ==> Partial(g, {})[i] == AllInf(|g.nodes|)[i];
  }

  /** Once every edge is written, the matrix is the initial one. */
  lemma FilledAll(g: WeightedDiGraph)
    ensures Partial(g, g.weights.Keys) == InitMatrix(g)
  {
    assert forall i :: 0 <= i < |g.nodes| ==> Partial(g, g.weights.Keys)[i] == InitMatrix(g)[i];
  }

  // ---------------------------------------------------------------- the report

  /** One line of the report: the start cannot reach `to`, or the least distance to `to`. */
  datatype ReportLine = Unreachable(from: Vertex, to: Vertex) | ShortestDistance(to: Vertex, distance: nat)

  function LineFor(start: Vertex, v: Vertex, d: Dist): ReportLine {
    if d.Inf? then Unreachable(start, v) else ShortestDistance(v, d.n)
  }

  /** The report loop from position `i` on. A vertex equal to the start is skipped; for any
      other, the start's row is looked up, which is a `KeyError` when the start is not a
      vertex. */
  function ReportFrom(nodes: seq<Vertex>, D: Matrix, start: Vertex, i: nat): (r: Result<seq<ReportLine>>)
    requires Distinct(nodes) && IsSquare(D, |nodes|) && i <= |nodes|
    ensures r.Err? ==> r.error == KeyError(start) && start !in nodes
    ensures r.Ok? ==> |r.value| <= |nodes| - i
    decreases |nodes| - i
  {
    if i == |nodes| then Ok([])
    else if nodes[i] == start then ReportFrom(nodes, D, start, i + 1)
    else if start !in nodes then Err(KeyError(start))
    else match ReportFrom(nodes, D, start, i + 1)
      case Err(e) => Err(e)
      case Ok(rest) => Ok([LineFor(start, nodes[i], D[IndexOf(nodes, start)][i])] + rest)
  }

  /** The whole report: a `KeyError` naming a start that is not a vertex, or at most one
      line per vertex. Which lines, in which order, is `ReportLines`. */
  function Report(nodes: seq<Vertex>, D: Matrix, start: Vertex): (r: Result<seq<ReportLine>>)
    requires Distinct(nodes) && IsSquare(D, |nodes|)
    ensures r.Err? ==> r.error == KeyError(start) && start !in nodes
    ensures r.Ok? ==> |r.value| <= |nodes|
  {
    ReportFrom(nodes, D, start, 0)
  }

  /** The vertex a line is about. */
  function Target(l: ReportLine): Vertex {
    l.to
  }

  /** The report fails exactly when the start is not a vertex and there is some vertex to
      report on, and then with a `KeyError` naming the start. */
  lemma {:induction false} ReportFromFails(nodes: seq<Vertex>, D: Matrix, start: Vertex, i: nat)
    requires Distinct(nodes) && IsSquare(D, |nodes|) && i <= |nodes|
    ensures ReportFrom(nodes, D, start, i).Err? <==> start !in nodes && i < |nodes|
    ensures ReportFrom(nodes, D, start, i).Err? ==> ReportFrom(nodes, D, start, i).error == KeyError(start)
    decreases |nodes| - i
  {
    if i < |nodes| {
      ReportFromFails(nodes, D, start, i + 1);
    }
  }

  lemma ReportFails(nodes: seq<Vertex>, D: Matrix, start: Vertex)
    requires Distinct(nodes) && IsSquare(D, |nodes|)
    ensures Report(nodes, D, start).Err? <==> start !in nodes && |nodes| > 0
    ensures Report(nodes, D, start).Err? ==> Report(nodes, D, start).error == KeyError(start)
  {
    ReportFromFails(nodes, D, start, 0);
  }

  /** The position in `nodes` of the `t`-th reported vertex when the start sits at `s`. */
  function Reported(s: nat, t: nat): nat {
    if t < s then t else t + 1
  }

  /** The position in `nodes` of the `t`-th line reported from position `i` on. */
  function Slot(s: nat, i: nat, t: nat): nat {
    if i <= s then i + Reported(s - i, t) else i + t
  }

  /** From position `i` on, with the start at position `s`, the lines are those of the
      vertices after `i` in order, the start left out. */
  lemma {:induction false} ReportFromLines(nodes: seq<Vertex>, D: Matrix, start: Vertex, i: nat)
    requires Distinct(nodes) && IsSquare(D, |nodes|) && i <= |nodes| && start in nodes
    ensures var s := IndexOf(nodes, start);
            var r := ReportFrom(nodes, D, start, i);
            && r.Ok?
            && |r.value| == |nodes| - i - (if i <= s then 1 else 0)
            && forall t :: 0 <= t < |r.value| ==>
                 Slot(s, i, t) < |nodes| && r.value[t] == LineFor(start, nodes[Slot(s, i, t)], D[s][Slot(s, i, t)])
    decreases |nodes| - i
  {
    var s := IndexOf(nodes, start);
    if i < |nodes| {
      ReportFromLines(nodes, D, start, i + 1);
      IndexOfDistinct(nodes, i);
      var rest := ReportFrom(nodes, D, start, i + 1).value;
      if nodes[i] == start {
        assert i == s;
        assert forall t :: Slot(s, i, t) == Slot(s, i + 1, t);
      } else {
        var line := LineFor(start, nodes[i], D[s][i]);
        assert ReportFrom(nodes, D, start, i).value == [line] + rest;
        assert Slot(s, i, 0) == i;
        assert forall t :: 0 < t ==> Slot(s, i, t) == Slot(s, i + 1, t - 1);
      }
    }
  }

  /** The line for a vertex other than the start names that vertex and mirrors its entry. */
  lemma LineFacts(nodes: seq<Vertex>, D: Matrix, start: Vertex, v: nat, l: ReportLine)
    requires Distinct(nodes) && IsSquare(D, |nodes|) && start in nodes && v < |nodes|
    requires v != IndexOf(nodes, start)
    requires l == LineFor(start, nodes[v], D[IndexOf(nodes, start)][v])
    ensures Target(l) == nodes[v] != start
    ensures l.Unreachable? <==> D[IndexOf(nodes, start)][v].Inf?
    ensures l.Unreachable? ==> l.from == start
    ensures l.ShortestDistance? ==> D[IndexOf(nodes, start)][v] == Fin(l.distance)
  {
    IndexOfDistinct(nodes, v);
  }

  /** The report of a start that is a vertex: one line for every other vertex, in node
      order; `Unreachable` exactly for an infinite entry of the start's row, the entry's value
      otherwise. */
  lemma ReportLines(nodes: seq<Vertex>, D: Matrix, start: Vertex)
    requires Distinct(nodes) && IsSquare(D, |nodes|) && start in nodes
    ensures var s := IndexOf(nodes, start);
            var r := Report(nodes, D, start);
            && r.Ok? && |r.value| == |nodes| - 1
            && (forall t :: 0 <= t < |r.value| ==>
                  var v := Reported(s, t);
                  && v < |nodes| && Target(r.value[t]) == nodes[v] != start
                  && (r.value[t].Unreachable? <==> D[s][v].Inf?)
                  && (r.value[t].Unreachable? ==> r.value[t].from == start)
                  && (r.value[t].ShortestDistance? ==> D[s][v] == Fin(r.value[t].distance)))
            && forall k :: 0 <= k < |nodes| && k != s ==> Target(r.value[if k < s then k else k - 1]) == nodes[k]
  {
    ReportFromLines(nodes, D, start, 0);
    ReportedLines(nodes, D, start, Report(nodes, D, start).value);
  }

  /** The line facts of `ReportLines`, from the position-wise description of the lines. */
  lemma ReportedLines(nodes: seq<Vertex>, D: Matrix, start: Vertex, r: seq<ReportLine>)
    requires Distinct(nodes) && IsSquare(D, |nodes|) && start in nodes
    requires |r| == |nodes| - 1
    requires forall t :: 0 <= t < |r| ==>
               var s := IndexOf(nodes, start);
               Slot(s, 0, t) < |nodes| && r[t] == LineFor(start, nodes[Slot(s, 0, t)], D[s][Slot(s, 0, t)])
    ensures var s := IndexOf(nodes, start);
            && (forall t :: 0 <= t < |r| ==>
                  var v := Reported(s, t);
                  && v < |nodes| && Target(r[t]) == nodes[v] != start
                  && (r[t].Unreachable? <==> D[s][v].Inf?)
                  && (r[t].Unreachable? ==> r[t].from == start)
                  && (r[t].ShortestDistance? ==> D[s][v] == Fin(r[t].distance)))
            && forall k :: 0 <= k < |nodes| && k != s ==> Target(r[if k < s then k else k - 1]) == nodes[k]
  {
    var s := IndexOf(nodes, start);
    forall t | 0 <= t < |r|
      ensures var v := Reported(s, t);
              && v < |nodes| && Target(r[t]) == nodes[v] != start
              && (r[t].Unreachable? <==> D[s][v].Inf?)
              && (r[t].Unreachable? ==> r[t].from == start)
              && (r[t].ShortestDistance? ==> D[s][v] == Fin(r[t].distance))
    {
      assert Slot(s, 0, t) == Reported(s, t);
      LineFacts(nodes, D, start, Reported(s, t), r[t]);
    }
    forall k | 0 <= k < |nodes| && k != s ensures Target(r[if k < s then k else k - 1]) == nodes[k] {
      assert Reported(s, if k < s then k else k - 1) == k;
    }
  }

  // ---------------------------------------------------------------- the whole computation

  /** `d` is the least weight of a walk from the `i`-th to the `j`-th vertex over `W`, and
      `Inf` only when every such walk has an infinite weight. */
  ghost predicate IsShortest(W: Matrix, i: nat, j: nat, d: Dist)
    requires IsSquare(W, |W|)
  {
    && (forall p :: IsRoute(|W|, p, i, j, |W|) ==> Le(d, Cost(W, p)))
    && (d.Fin? ==> exists p :: IsRoute(|W|, p, i, j, |W|) && Cost(W, p) == d)
  }

  /** What the report of `floyd_shortest_paths` for `start` promises: a `KeyError` exactly
      when the start is not a vertex and some vertex exists; nothing to say about a graph with
      no vertex; and otherwise one line per other vertex, in node order, each giving the least
      walk weight from the start. */
  ghost predicate IsReport(g: WeightedDiGraph, start: Vertex, r: Result<seq<ReportLine>>)
    requires WellFormedWeighted(g)
  {
    && (r.Err? <==> start !in g.nodes && |g.nodes| > 0)
    && (r.Err? ==> r.error == KeyError(start))
    && (start !in g.nodes && r.Ok? ==> r.value == [])
    && (start in g.nodes ==>
          var s := IndexOf(g.nodes, start);
          && r.Ok? && |r.value| == |g.nodes| - 1
          && forall t :: 0 <= t < |r.value| ==>
               var v := Reported(s, t);
               && v < |g.nodes| && Target(r.value[t]) == g.nodes[v] != start
               && (r.value[t].Unreachable? ==> r.value[t].from == start && IsShortest(InitMatrix(g), s, v, Inf))
               && (r.value[t].ShortestDistance? ==> IsShortest(InitMatrix(g), s, v, Fin(r.value[t].distance))))
  }

  /** The body of `floyd_shortest_paths` once both guards pass. */
  method FloydShortestPaths(g: WeightedDiGraph, start: Vertex) returns (r: Result<seq<ReportLine>>)
    requires WellFormedWeighted(g)
    ensures IsReport(g, start, r)
  {
    var W := InitDistances(g);
    var D := FloydWarshall(W);
    r := Report(g.nodes, D, start);
    ReportFails(g.nodes, D, start);
    if start !in g.nodes && r.Ok? {
      assert |g.nodes| == 0;
    }
    if start in g.nodes {
      ReportLines(g.nodes, D, start);
      var s := IndexOf(g.nodes, start);
      forall v | 0 <= v < |g.nodes| ensures IsShortest(W, s, v, D[s][v]) {
        BestIsShortest(W, s, v);
      }
    }
  }
}
