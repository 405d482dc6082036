/** What the three applications share: the window's two pieces of state, the guards that
    read them, the step of `generateGraph` after parsing, the guarded shortest-path report
    and the export format. */
module Session {
  import opened Results
  import opened Text
  import opened Graphs
  import opened Dag
  import opened ShortestPaths

  /** `self.graphGenerated` and `self.G`: whether a picture has been drawn, and the
      weighted graph, if one was built. */
  datatype App = App(graphGenerated: bool, g: Option<WeightedDiGraph>)

  /** The state `__init__` leaves. */
  const Initial := App(false, None)

  /** Only graphs built from edge lists are ever stored. */
  predicate Valid(app: App) {
    app.g.Some? ==> WellFormedWeighted(app.g.value)
  }

  // ---------------------------------------------------------------- generateGraph

  /** `generateGraph` once it holds its edge list: build the graph, refuse it when the library
      reports a cycle, ask for every topological order, and mark the picture as drawn only
      when some order came back. The weighted graph `G` is never assigned. */
  function TopoGate(app: App, es: seq<Edge>, lib: Library): (out: (App, Result<seq<seq<Vertex>>>))
    ensures out.0.g == app.g
    ensures out.0.graphGenerated == (app.graphGenerated || (out.1.Ok? && out.1.value != []))
    ensures out.1.Err? ==> out.1.error == CyclicInput
  {
    var g := Build(es);
    if !lib.isDag(g) then (app, Err(CyclicInput))
    else
      var orders := lib.sorts(g);
      if |orders| == 0 then (app, Ok([]))
      else (app.(graphGenerated := true), Ok(orders))
  }

  /** With a library that keeps its promises: the input is refused exactly when its graph has
      a cycle, and otherwise the answer is every topological order of the graph, at least
      one of them, and the picture is marked as drawn. */
  lemma {:induction false} TopoGateFaithful(app: App, es: seq<Edge>, lib: Library)
    requires Faithful(lib)
    ensures var out := TopoGate(app, es, lib);
            && (out.1.Err? <==> !IsAcyclic(Build(es)))
            && (out.1.Ok? ==> out.1.value != [] && out.0.graphGenerated)
            && (out.1.Ok? ==> forall ord :: ord in out.1.value <==> IsTopologicalOrder(Build(es), ord))
  {
    var g := Build(es);
    if lib.isDag(g) {
      SortsOfDagNonEmpty(lib, g);
    }
  }

  /** An edge from a vertex to itself is refused before any order is asked for, and the
      state is left as it was. */
  lemma {:induction false} SelfLoopRefused(app: App, es: seq<Edge>, lib: Library, v: Vertex)
    requires Faithful(lib) && Edge(v, v) in es
    ensures TopoGate(app, es, lib) == (app, Err(CyclicInput))
  {
    SelfLoopIsCyclic(Build(es), v);
  }

  // ---------------------------------------------------------------- guards

  /** The two guards of `floyd_shortest_paths`, in their order: no picture drawn, then no
      weighted graph. */
  function WeightedGraphOf(app: App): (r: Result<WeightedDiGraph>)
    ensures r.Ok? <==> app.graphGenerated && app.g.Some?
    ensures r.Ok? ==> r.value == app.g.value
    ensures !app.graphGenerated ==> r == Err(NotGenerated)
    ensures app.graphGenerated && app.g.None? ==> r == Err(NoWeightedGraph)
  {
    if !app.graphGenerated then Err(NotGenerated)
    else if app.g.None? then Err(NoWeightedGraph)
    else Ok(app.g.value)
  }

  /** `saveGraph`: refused until a picture has been drawn; the file dialog and `savefig` are
      outside the model. */
  function SaveGraph(app: App): (r: Result<()>)
    ensures r.Ok? <==> app.graphGenerated
    ensures r.Err? ==> r.error == NotGenerated
  {
    if !app.graphGenerated then Err(NotGenerated) else Ok(())
  }

  /** `floyd_shortest_paths(start)`: the guards, then the report of the weighted graph. */
  method ShortestPathsFrom(app: App, start: Vertex) returns (r: Result<seq<ReportLine>>)
    requires Valid(app)
    ensures WeightedGraphOf(app).Err? ==> r == Err(WeightedGraphOf(app).error)
    ensures WeightedGraphOf(app).Ok? ==> IsReport(app.g.value, start, r)
  {
    match WeightedGraphOf(app)
    case Err(f) => r := Err(f);
    case Ok(g) => r := FloydShortestPaths(g, start);
  }

  /** `generateOptimalRoute` as written: an empty start vertex only raises a warning box and
      the report goes ahead, so on any graph that has vertices but no vertex named by the
      empty string, the row lookup raises a `KeyError`. */
  method GenerateOptimalRouteAsWritten(app: App, start: Vertex) returns (r: Result<seq<ReportLine>>)
    requires Valid(app)
    ensures !app.graphGenerated ==> r == Err(NotGenerated)
    ensures app.graphGenerated && app.g.None? ==> r == Err(NoWeightedGraph)
    ensures app.graphGenerated && app.g.Some? ==> IsReport(app.g.value, start, r)
    ensures (start == [] && app.graphGenerated && app.g.Some? &&
             [] !in app.g.value.nodes && |app.g.value.nodes| > 0) ==> r == Err(KeyError([]))
  {
    if !app.graphGenerated {
      r := Err(NotGenerated);
    } else if app.g.None? {
      r := Err(NoWeightedGraph);
    } else {
      r := ShortestPathsFrom(app, start);
    }
  }

  /** `generateOptimalRoute` with the evident intent: an empty start vertex ends the call
      after its warning, so the report only ever runs for a named start and a `KeyError`
      can only name a non-empty start that is not a vertex. */
  method GenerateOptimalRoute(app: App, start: Vertex) returns (r: Result<seq<ReportLine>>)
    requires Valid(app)
    ensures !app.graphGenerated ==> r == Err(NotGenerated)
    ensures app.graphGenerated && start == [] ==> r == Err(NoStartVertex)
    ensures app.graphGenerated && start != [] && app.g.None? ==> r == Err(NoWeightedGraph)
    ensures app.graphGenerated && start != [] && app.g.Some? ==> IsReport(app.g.value, start, r)
    ensures r.Err? && r.error.KeyError? ==> r.error.key == start && start != []
  {
    if !app.graphGenerated {
      r := Err(NotGenerated);
    } else if start == [] {
      r := Err(NoStartVertex);
    } else if app.g.None? {
      r := Err(NoWeightedGraph);
    } else {
      r := ShortestPathsFrom(app, start);
    }
  }

  // ---------------------------------------------------------------- export

  /** `"\n".join(["->".join(order) for order in all_topo_orders])`: nothing for no order,
      otherwise the text opens with the first order and closes with the last. Reading it back
      is `ExportRoundTrip`. */
  function ExportText(orders: seq<seq<Vertex>>): (r: string)
    ensures |orders| == 0 ==> r == []
    ensures |orders| > 0 ==> Join(orders[0], "->") <= r
    ensures |orders| > 0 ==> var last := Join(orders[|orders| - 1], "->");
              |last| <= |r| && r[|r| - |last|..] == last
  {
    var lines := seq(|orders|, k requires 0 <= k < |orders| => Join(orders[k], "->"));
    if |orders| == 0 then []
    else
      assert lines[0] == Join(orders[0], "->") && lines[|lines| - 1] == Join(orders[|orders| - 1], "->");
      JoinLast(lines, "\n");
      Join(lines, "\n")
  }

  /** Reading an export back: one order per line, vertices separated by `->`. */
  function ReadExport(text: string): seq<seq<Vertex>> {
    var lines := Split(text, "\n");
    seq(|lines|, k requires 0 <= k < |lines| => Split(lines[k], "->"))
  }

  /** A vertex name that the export format keeps apart: no `-` and no line break. */
  predicate ExportableName(v: Vertex) {
    '-' !in v && '\n' !in v
  }

  /** The export of a non-empty list of non-empty orders over such names reads back as the
      same orders, so the file holds one line per order and one field per vertex. */
  lemma ExportRoundTrip(orders: seq<seq<Vertex>>)
    requires |orders| >= 1
    requires forall k :: 0 <= k < |orders| ==> |orders[k]| >= 1
    requires forall k, m :: 0 <= k < |orders| && 0 <= m < |orders[k]| ==> ExportableName(orders[k][m])
    ensures ReadExport(ExportText(orders)) == orders
  {
    var lines := seq(|orders|, k requires 0 <= k < |orders| => Join(orders[k], "->"));
    forall k | 0 <= k < |orders| ensures '\n' !in lines[k] && Split(lines[k], "->") == orders[k] {
      JoinAvoids(orders[k], "->", '\n');
      SplitJoin(orders[k], "->");
    }
    SplitJoin(lines, "\n");
  }

  /** `exportResults` as written, given what `generateGraph` would do to the state: refused
      until a picture has been drawn; then the orders `generateGraph` returns are formatted.
      When `generateGraph` stopped at a warning it returned `None`, and iterating over that
      raises a `TypeError`; an exception it raised goes through unchanged. */
  function ExportAsWritten(app: App, generated: (App, Result<seq<seq<Vertex>>>)): (out: (App, Result<string>))
    ensures !app.graphGenerated ==> out == (app, Err(NotGenerated))
    ensures app.graphGenerated ==> out.0 == generated.0
    ensures app.graphGenerated ==> (out.1.Ok? <==> generated.1.Ok?)
    ensures app.graphGenerated && generated.1.Ok? ==> out.1.value == ExportText(generated.1.value)
    ensures app.graphGenerated && generated.1.Err? && !Raises(generated.1.error) ==> out.1 == Err(TypeError)
    ensures app.graphGenerated && generated.1.Err? && Raises(generated.1.error) ==> out.1 == Err(generated.1.error)
  {
    if !app.graphGenerated then (app, Err(NotGenerated))
    else match generated.1
      case Ok(orders) => (generated.0, Ok(ExportText(orders)))
      case Err(f) => (generated.0, if Raises(f) then Err(f) else Err(TypeError))
  }

  /** `exportResults` with the evident intent: a failed `generateGraph` ends the export with
      its own warning or exception. */
  function Export(app: App, generated: (App, Result<seq<seq<Vertex>>>)): (out: (App, Result<string>))
    ensures !app.graphGenerated ==> out == (app, Err(NotGenerated))
    ensures app.graphGenerated ==> out.0 == generated.0
    ensures app.graphGenerated ==> (out.1.Ok? <==> generated.1.Ok?)
    ensures app.graphGenerated && generated.1.Ok? ==> out.1.value == ExportText(generated.1.value)
    ensures app.graphGenerated && generated.1.Err? ==> out.1 == Err(generated.1.error)
  {
    if !app.graphGenerated then (app, Err(NotGenerated))
    else match generated.1
      case Ok(orders) => (generated.0, Ok(ExportText(orders)))
      case Err(f) => (generated.0, Err(f))
  }
}
