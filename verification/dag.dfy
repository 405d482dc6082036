/** Cycles and topological orders of a `DiGraph`, and the two networkx calls the applications
    make on them. `nx.is_directed_acyclic_graph` and `nx.all_topological_sorts` are library
    code; they are modelled by what they promise, as a `Library` value whose answers are
    tied to `IsAcyclic` and `IsTopologicalOrder` by `Faithful`. */
module Dag {
  import opened Graphs

  /** A walk: a non-empty vertex sequence with an edge from each vertex to the next. */
  predicate IsWalk(g: DiGraph, w: seq<Vertex>) {
    |w| >= 1 && forall k :: 0 <= k < |w| - 1 ==> Edge(w[k], w[k + 1]) in g.edges
  }

  /** A cycle: a walk with at least one edge that ends where it starts. */
  predicate IsCycle(g: DiGraph, w: seq<Vertex>) {
    IsWalk(g, w) && |w| >= 2 && w[0] == w[|w| - 1]
  }

  ghost predicate IsAcyclic(g: DiGraph) {
    forall w :: !IsCycle(g, w)
  }

  /** Every vertex exactly once, and every edge pointing forward. */
  predicate IsTopologicalOrder(g: DiGraph, ord: seq<Vertex>) {
    && Distinct(ord)
    && (forall v :: v in ord ==> v in g.nodes)
    && (forall v :: v in g.nodes ==> v in ord)
    && forall e :: e in g.edges ==>
         e.src in ord && e.dst in ord && IndexOf(ord, e.src) < IndexOf(ord, e.dst)
  }

  /** A topological order of the graph of a non-empty edge list holds at least one vertex. */
  lemma {:induction false} OrderOfEdgesNonEmpty(es: seq<Edge>, ord: seq<Vertex>)
    requires |es| > 0 && IsTopologicalOrder(Build(es), ord)
    ensures |ord| >= 1
  {
    FirstSourceIsNode(es);
    OrderHoldsNode(Build(es), es[0].src, ord);
  }

  lemma FirstSourceIsNode(es: seq<Edge>)
    requires |es| > 0
    ensures es[0].src in Build(es).nodes
  {
    assert es[0] in Build(es).edges;
  }

  lemma OrderHoldsNode(g: DiGraph, v: Vertex, ord: seq<Vertex>)
    requires v in g.nodes && IsTopologicalOrder(g, ord)
    ensures |ord| >= 1
  {
    assert v in ord;
  }

  /** The answers of the two library calls, as functions of the graph. */
  datatype Library = Library(isDag: DiGraph -> bool, sorts: DiGraph -> seq<seq<Vertex>>)

  /** The library keeps its documented promises: the DAG test decides acyclicity, and the
      sorts are all the topological orders. */
  ghost predicate Faithful(lib: Library) {
    forall g :: (lib.isDag(g) <==> IsAcyclic(g))
                && forall ord :: ord in lib.sorts(g) <==> IsTopologicalOrder(g, ord)
  }

  // ---------------------------------------------------------------- order => acyclic

  lemma {:induction false} WalkGoesForward(g: DiGraph, ord: seq<Vertex>, w: seq<Vertex>)
    requires IsTopologicalOrder(g, ord) && IsWalk(g, w) && |w| >= 2
    ensures w[0] in ord && w[|w| - 1] in ord
    ensures IndexOf(ord, w[0]) < IndexOf(ord, w[|w| - 1])
  {
    assert Edge(w[0], w[1]) in g.edges;
    if |w| > 2 {
      assert IsWalk(g, w[1..]) by {
        forall k | 0 <= k < |w| - 2 ensures Edge(w[1..][k], w[1..][k + 1]) in g.edges {
          assert Edge(w[k + 1], w[k + 2]) in g.edges;
        }
      }
      WalkGoesForward(g, ord, w[1..]);
    }
  }

  /** A graph with a topological order has no cycle. */
  lemma OrderedIsAcyclic(g: DiGraph, ord: seq<Vertex>)
    requires IsTopologicalOrder(g, ord)
    ensures IsAcyclic(g)
  {
    forall w | IsWalk(g, w) && |w| >= 2 ensures w[0] != w[|w| - 1] {
      WalkGoesForward(g, ord, w);
    }
  }

  /** An edge from a vertex to itself is a cycle, so such a graph has no topological order. */
  lemma SelfLoopIsCyclic(g: DiGraph, v: Vertex)
    requires Edge(v, v) in g.edges
    ensures !IsAcyclic(g)
    ensures forall ord :: !IsTopologicalOrder(g, ord)
  {
    assert IsCycle(g, [v, v]);
    forall ord | IsTopologicalOrder(g, ord) ensures false {
      OrderedIsAcyclic(g, ord);
    }
  }

  // ---------------------------------------------------------------- acyclic => order

  lemma {:induction false} DistinctCard(s: seq<Vertex>)
    requires Distinct(s)
    ensures |set v | v in s| == |s|
  {
    if |s| > 0 {
      assert Distinct(s[1..]) by {
        forall i, j | 0 <= i < j < |s| - 1 ensures s[1..][i] != s[1..][j] {
          assert s[1..][i] == s[i + 1] && s[1..][j] == s[j + 1];
        }
      }
      DistinctCard(s[1..]);
      assert (set v | v in s) == (set v | v in s[1..]) + {s[0]};
      assert s[0] !in s[1..];
    }
  }

  lemma {:induction false} SubsetCard(a: set<Vertex>, b: set<Vertex>)
    requires a <= b
    ensures |a| <= |b|
    decreases |a|
  {
    if a != {} {
      var x :| x in a;
      SubsetCard(a - {x}, b - {x});
    }
  }

  /** A sequence longer than the number of vertices it draws from repeats one of them. */
  lemma Pigeonhole(w: seq<Vertex>, r: seq<Vertex>)
    requires Distinct(r) && |w| > |r|
    requires forall k :: 0 <= k < |w| ==> w[k] in r
    ensures exists i, j :: 0 <= i < j < |w| && w[i] == w[j]
  {
    if Distinct(w) {
      DistinctCard(w);
      DistinctCard(r);
      SubsetCard(set v | v in w, set v | v in r);
      assert false;
    }
  }

  /** `u` has an edge into the vertex list `r`. */
  predicate HasSuccessorIn(g: DiGraph, r: seq<Vertex>, u: Vertex) {
    exists v :: v in r && Edge(u, v) in g.edges
  }

  /** If every vertex of `r` has a successor in `r`, walks inside `r` go on for ever. */
  lemma {:induction false} LongWalk(g: DiGraph, r: seq<Vertex>, n: nat) returns (w: seq<Vertex>)
    requires |r| > 0
    requires forall k :: 0 <= k < |r| ==> HasSuccessorIn(g, r, r[k])
    ensures IsWalk(g, w) && |w| == n + 1
    ensures forall k :: 0 <= k < |w| ==> w[k] in r
  {
    if n == 0 {
      w := [r[0]];
    } else {
      var p := LongWalk(g, r, n - 1);
      var u := p[|p| - 1];
      var i :| 0 <= i < |r| && r[i] == u;
      assert HasSuccessorIn(g, r, r[i]);
      var v :| v in r && Edge(u, v) in g.edges;
      w := p + [v];
      forall k | 0 <= k < |w| - 1 ensures Edge(w[k], w[k + 1]) in g.edges {
        if k < |p| - 1 {
          assert w[k] == p[k] && w[k + 1] == p[k + 1];
        } else {
          assert w[k] == u && w[k + 1] == v;
        }
      }
      forall k | 0 <= k < |w| ensures w[k] in r {
        if k < |p| { assert w[k] == p[k]; }
      }
    }
  }

  /** A piece of a walk is a walk. */
  lemma SubWalk(g: DiGraph, w: seq<Vertex>, i: nat, j: nat)
    requires IsWalk(g, w) && i < j <= |w|
    ensures IsWalk(g, w[i..j])
  {
    forall k | 0 <= k < j - i - 1 ensures Edge(w[i..j][k], w[i..j][k + 1]) in g.edges {
      assert w[i..j][k] == w[i + k] && w[i..j][k + 1] == w[i + k + 1];
    }
  }

  /** A walk that visits a vertex twice holds a cycle. */
  lemma RepeatIsCycle(g: DiGraph, w: seq<Vertex>, i: nat, j: nat)
    requires IsWalk(g, w) && i < j < |w| && w[i] == w[j]
    ensures !IsAcyclic(g)
  {
    SubWalk(g, w, i, j + 1);
    var c := w[i..j + 1];
    assert |c| >= 2 && c[0] == w[i] && c[|c| - 1] == w[j];
    assert IsCycle(g, c);
  }

  /** In an acyclic graph every non-empty vertex list has a member with no edge to the
      list: a sink of the induced subgraph. */
  lemma HasSink(g: DiGraph, r: seq<Vertex>) returns (v: Vertex)
    requires IsAcyclic(g) && Distinct(r) && |r| > 0
    ensures v in r && forall u :: u in r ==> Edge(v, u) !in g.edges
  {
    if forall k :: 0 <= k < |r| ==> HasSuccessorIn(g, r, r[k]) {
      var w := LongWalk(g, r, |r|);
      Pigeonhole(w, r);
      var i, j :| 0 <= i < j < |w| && w[i] == w[j];
      RepeatIsCycle(g, w, i, j);
      assert false;
    }
    var k :| 0 <= k < |r| && !HasSuccessorIn(g, r, r[k]);
    v := r[k];
  }

  /** Removing the element at position `i` of a distinct sequence. */
  function RemoveAt(r: seq<Vertex>, i: nat): (s: seq<Vertex>)
    requires Distinct(r) && i < |r|
    ensures Distinct(s) && |s| == |r| - 1
    ensures forall v :: v in s <==> v in r && v != r[i]
  {
    var s := r[..i] + r[i + 1..];
    assert forall k :: 0 <= k < |s| ==> s[k] == if k < i then r[k] else r[k + 1];
    assert forall v :: v in r <==> v in s || v == r[i] by {
      forall v | v in r ensures v in s || v == r[i] {
        var k :| 0 <= k < |r| && r[k] == v;
        if k < i { assert s[k] == v; } else if k > i { assert s[k - 1] == v; }
      }
    }
    s
  }

  /** Every vertex list of an acyclic graph can be ordered so that the edges among its
      members point forward: place a sink last and order the rest. */
  lemma {:induction false} OrderOf(g: DiGraph, r: seq<Vertex>) returns (ord: seq<Vertex>)
    requires IsAcyclic(g) && Distinct(r)
    ensures Distinct(ord) && forall v :: v in ord <==> v in r
    ensures forall e :: e in g.edges && e.src in r && e.dst in r ==>
              IndexOf(ord, e.src) < IndexOf(ord, e.dst)
    decreases |r|
  {
    if |r| == 0 {
      ord := [];
    } else {
      var v := HasSink(g, r);
      var i := IndexOf(r, v);
      var rest := RemoveAt(r, i);
      var p := OrderOf(g, rest);
      ord := p + [v];
      assert Distinct(ord) by {
        forall a, b | 0 <= a < b < |ord| ensures ord[a] != ord[b] {
          if b < |p| { assert ord[a] == p[a] && ord[b] == p[b]; } else { assert ord[a] in p; }
        }
      }
      forall e | e in g.edges && e.src in r && e.dst in r
        ensures IndexOf(ord, e.src) < IndexOf(ord, e.dst)
      {
        assert e.src != v;
        assert e.src in p;
        IndexOfPrefix(p, [v], e.src);
        if e.dst == v {
          IndexOfAfter(p, [v], v);
        } else {
          IndexOfPrefix(p, [v], e.dst);
        }
      }
    }
  }

  /** Every well-formed acyclic graph has a topological order. */
  lemma AcyclicHasOrder(g: DiGraph) returns (ord: seq<Vertex>)
    requires WellFormed(g) && IsAcyclic(g)
    ensures IsTopologicalOrder(g, ord)
  {
    ord := OrderOf(g, g.nodes);
  }

  /** A well-formed graph is acyclic exactly when it has a topological order. */
  lemma AcyclicIffOrdered(g: DiGraph)
    requires WellFormed(g)
    ensures IsAcyclic(g) <==> exists ord :: IsTopologicalOrder(g, ord)
  {
    if IsAcyclic(g) {
      var ord := AcyclicHasOrder(g);
    }
    if exists ord :: IsTopologicalOrder(g, ord) {
      var ord :| IsTopologicalOrder(g, ord);
      OrderedIsAcyclic(g, ord);
    }
  }

  /** With a faithful library, the DAG test passing means at least one order comes back, so
      the "no topological order" fallback after it can never run. */
  lemma SortsOfDagNonEmpty(lib: Library, g: DiGraph)
    requires Faithful(lib) && WellFormed(g) && lib.isDag(g)
    ensures |lib.sorts(g)| > 0
  {
    var ord := AcyclicHasOrder(g);
    assert ord in lib.sorts(g);
  }
}
