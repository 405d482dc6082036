/** networkx `DiGraph` as the applications use it: vertices in insertion order, and either a
    set of directed edges (`add_edges_from`) or one weight per ordered pair
    (`add_edge(a, b, weight=w)`). */
module Graphs {

  type Vertex = string

  datatype Edge = Edge(src: Vertex, dst: Vertex)

  datatype WeightedEdge = WeightedEdge(src: Vertex, dst: Vertex, weight: nat) {
    function Pair(): Edge { Edge(src, dst) }
  }

  datatype DiGraph = DiGraph(nodes: seq<Vertex>, edges: set<Edge>)

  datatype WeightedDiGraph = WeightedDiGraph(nodes: seq<Vertex>, weights: map<Edge, nat>)

  predicate Distinct<T(==)>(s: seq<T>) {
    forall i, j :: 0 <= i < j < |s| ==> s[i] != s[j]
  }

  /** The position of the first occurrence of `x` in `s`. */
  function IndexOf<T(==)>(s: seq<T>, x: T): (i: nat)
    requires x in s
    ensures i < |s| && s[i] == x && x !in s[..i]
  {
    if s[0] == x then 0 else 1 + IndexOf(s[1..], x)
  }

  lemma {:induction false} IndexOfDistinct<T>(s: seq<T>, i: nat)
    requires Distinct(s) && i < |s|
    ensures IndexOf(s, s[i]) == i
  {
    if i > 0 {
      assert s[0] != s[i];
      assert s[1..][i - 1] == s[i];
      IndexOfDistinct(s[1..], i - 1);
    }
  }

  /** Every edge joins two vertices of the graph, and no vertex is listed twice. */
  predicate WellFormed(g: DiGraph) {
    && Distinct(g.nodes)
    && forall e :: e in g.edges ==> e.src in g.nodes && e.dst in g.nodes
  }

  predicate WellFormedWeighted(g: WeightedDiGraph) {
    && Distinct(g.nodes)
    && forall e :: e in g.weights ==> e.src in g.nodes && e.dst in g.nodes
  }

  /** networkx's node insertion: a vertex that is already present keeps its place. */
  function AddNode(nodes: seq<Vertex>, v: Vertex): seq<Vertex> {
    if v in nodes then nodes else nodes + [v]
  }

  /** The vertices of `vs` in the order of their first occurrence. */
  function FirstSeen(vs: seq<Vertex>): (r: seq<Vertex>)
    ensures Distinct(r)
    ensures forall v :: v in r <==> v in vs
  {
    if |vs| == 0 then [] else AddNode(FirstSeen(vs[..|vs| - 1]), vs[|vs| - 1])
  }

  /** `FirstSeen` lists the vertices by increasing position of first occurrence. */
  lemma {:induction false} FirstSeenOrder(vs: seq<Vertex>)
    ensures forall i, j :: 0 <= i < j < |FirstSeen(vs)| ==>
              IndexOf(vs, FirstSeen(vs)[i]) < IndexOf(vs, FirstSeen(vs)[j])
  {
    if |vs| > 0 {
      var init, x := vs[..|vs| - 1], vs[|vs| - 1];
      assert vs == init + [x];
      FirstSeenOrder(init);
      var p := FirstSeen(init);
      forall v | v in init ensures IndexOf(vs, v) == IndexOf(init, v) {
        IndexOfPrefix(init, [x], v);
      }
      if x !in p {
        assert x !in init;
        IndexOfAfter(init, [x], x);
        forall i | 0 <= i < |p| ensures IndexOf(vs, p[i]) < IndexOf(vs, x) {
          assert p[i] in init;
        }
      }
    }
  }

  lemma {:induction false} IndexOfPrefix<T>(a: seq<T>, b: seq<T>, x: T)
    requires x in a
    ensures IndexOf(a + b, x) == IndexOf(a, x)
  {
    if a[0] != x {
      assert (a + b)[1..] == a[1..] + b;
      IndexOfPrefix(a[1..], b, x);
    }
  }

  lemma {:induction false} IndexOfAfter<T>(a: seq<T>, b: seq<T>, x: T)
    requires x !in a && x in b
    ensures IndexOf(a + b, x) >= |a|
  {
    if |a| > 0 {
      assert (a + b)[1..] == a[1..] + b;
      IndexOfAfter(a[1..], b, x);
    } else {
      assert a + b == b;
    }
  }

  /** The endpoints of the edges, source before target, edge after edge: the order in
      which `add_edges_from` meets the vertices. */
  function Endpoints(es: seq<Edge>): (vs: seq<Vertex>)
    ensures |vs| == 2 * |es|
    ensures forall e :: e in es ==> e.src in vs && e.dst in vs
  {
    if |es| == 0 then []
    else
      var init := Endpoints(es[..|es| - 1]);
      var e := es[|es| - 1];
      assert forall d :: d in es <==> d in es[..|es| - 1] || d == e;
      init + [e.src, e.dst]
  }

  /** Every endpoint belongs to some edge. */
  lemma {:induction false} EndpointOfSomeEdge(es: seq<Edge>, v: Vertex) returns (e: Edge)
    requires v in Endpoints(es)
    ensures e in es && (v == e.src || v == e.dst)
  {
    var init, last := es[..|es| - 1], es[|es| - 1];
    assert es == init + [last];
    if v in Endpoints(init) {
      e := EndpointOfSomeEdge(init, v);
    } else {
      e := last;
    }
  }

  /** Both ends of every edge are vertices of the built graph. */
  lemma EdgeEndsAreNodes(es: seq<Edge>, e: Edge)
    requires e in es
    ensures e.src in Build(es).nodes && e.dst in Build(es).nodes
  {
    assert e in Build(es).edges;
  }

  /** Every vertex of a built graph is an endpoint of one of the edges. */
  lemma {:induction false} NodeOfSomeEdge(es: seq<Edge>, v: Vertex) returns (e: Edge)
    requires v in Build(es).nodes
    ensures e in es && (v == e.src || v == e.dst)
  {
    e := EndpointOfSomeEdge(es, v);
  }

  function AddEdge(g: DiGraph, e: Edge): DiGraph {
    DiGraph(AddNode(AddNode(g.nodes, e.src), e.dst), g.edges + {e})
  }

  /** `G = nx.DiGraph(); G.add_edges_from(edges)`. The graph is well formed, its edge set
      is exactly the set of input pairs, and its vertices are the endpoints in first-seen
      order. */
  function Build(es: seq<Edge>): (g: DiGraph)
    ensures WellFormed(g)
    ensures forall e :: e in g.edges <==> e in es
    ensures g.nodes == FirstSeen(Endpoints(es))
  {
    if |es| == 0 then DiGraph([], {})
    else
      var init := es[..|es| - 1];
      var e := es[|es| - 1];
      var g := AddEdge(Build(init), e);
      assert forall d :: d in es <==> d in init || d == e;
      FirstSeenSnoc(Endpoints(init), e.src, e.dst);
      g
  }

  /** Meeting two more vertices adds each in turn. */
  lemma FirstSeenSnoc(vs: seq<Vertex>, a: Vertex, b: Vertex)
    ensures FirstSeen(vs + [a, b]) == AddNode(AddNode(FirstSeen(vs), a), b)
  {
    FirstSeenAppend(vs, a);
    assert vs + [a, b] == (vs + [a]) + [b];
    FirstSeenAppend(vs + [a], b);
  }

  lemma FirstSeenAppend(vs: seq<Vertex>, a: Vertex)
    ensures FirstSeen(vs + [a]) == AddNode(FirstSeen(vs), a)
  {
    assert (vs + [a])[..|vs|] == vs;
  }


  /** Re-adding an edge the list already holds leaves the graph unchanged. */
  lemma {:induction false} DuplicateEdgeIsIdempotent(es: seq<Edge>, e: Edge)
    requires e in es
    ensures Build(es + [e]) == Build(es)
  {
    assert (es + [e])[..|es|] == es;
    var g := Build(es);
    assert e.src in g.nodes && e.dst in g.nodes;
    assert g.edges + {e} == g.edges;
  }

  function AddWeightedEdge(g: WeightedDiGraph, t: WeightedEdge): WeightedDiGraph {
    WeightedDiGraph(AddNode(AddNode(g.nodes, t.src), t.dst), g.weights[t.Pair() := t.weight])
  }

  /** The ordered pairs of a list of weighted edges. */
  function Pairs(ts: seq<WeightedEdge>): (es: seq<Edge>)
    ensures |es| == |ts| && forall k :: 0 <= k < |ts| ==> es[k] == ts[k].Pair()
  {
    seq(|ts|, k requires 0 <= k < |ts| => ts[k].Pair())
  }

  /** Edge `i` is the last one in the list for its ordered pair. */
  predicate IsLastFor(ts: seq<WeightedEdge>, i: nat)
    requires i < |ts|
  {
    forall j :: i < j < |ts| ==> ts[j].Pair() != ts[i].Pair()
  }

  /** `self.G = nx.DiGraph()` followed by `self.G.add_edge(a, b, weight=w)` for every
      weighted edge. The vertices are those of the unweighted build of the same pairs, and a
      pair carries a weight exactly when some edge names it. */
  function BuildWeighted(ts: seq<WeightedEdge>): (g: WeightedDiGraph)
    ensures WellFormedWeighted(g)
    ensures g.nodes == Build(Pairs(ts)).nodes
    ensures forall e :: e in g.weights <==> e in Pairs(ts)
  {
    if |ts| == 0 then WeightedDiGraph([], map[])
    else
      var init := ts[..|ts| - 1];
      var t := ts[|ts| - 1];
      var ps := Pairs(ts);
      assert ps[..|ts| - 1] == Pairs(init);
      assert Build(ps).nodes == AddEdge(Build(Pairs(init)), t.Pair()).nodes;
      var h := BuildWeighted(init);
      var g := AddWeightedEdge(h, t);
      assert forall d :: d in ps <==> d in Pairs(init) || d == t.Pair();
      assert g.weights.Keys == h.weights.Keys + {t.Pair()};
      g
  }

  /** `add_edge` on an existing pair overwrites its weight: the weight kept for a pair is the
      one carried by the last edge naming it. */
  lemma {:induction false} LastWeightWins(ts: seq<WeightedEdge>, i: nat)
    requires i < |ts| && IsLastFor(ts, i)
    ensures ts[i].Pair() in BuildWeighted(ts).weights
    ensures BuildWeighted(ts).weights[ts[i].Pair()] == ts[i].weight
  {
    if i < |ts| - 1 {
      var init := ts[..|ts| - 1];
      assert ts[i] == init[i];
      assert IsLastFor(init, i);
      LastWeightWins(init, i);
    }
  }
}
