/** busapp.py: the window that scans its whole input with regular expressions. Each
    callback is a step from one `App` state to the next, with the outcome the user sees. */
module BusApp {
  import opened Results
  import opened Text
  import opened Graphs
  import opened Dag
  import opened Scanner
  import opened ShortestPaths
  import opened Session

  /** `generateGraph`: every `<a,b>` / `《a,b》` token of the text is an edge; no token at all
      is refused with a warning; then the graph goes through the topological step. */
  function GenerateGraph(app: App, text: string, lib: Library): (out: (App, Result<seq<seq<Vertex>>>))
    ensures out.0.g == app.g
    ensures out.1.Err? ==> out.0 == app
    ensures out.1.Err? ==> out.1.error == NoMatches || out.1.error == CyclicInput
    ensures FindAllPairs(text) == [] ==> out == (app, Err(NoMatches))
    ensures out.0.graphGenerated && !app.graphGenerated ==>
              ScanEdges(text).Ok? && lib.isDag(Build(ScanEdges(text).value))
  {
    match ScanEdges(text)
    case Err(f) => (app, Err(f))
    case Ok(es) => TopoGate(app, es, lib)
  }

  /** On a file of edge tokens, with a library that keeps its promises: the window answers
      with every topological order of the edges' graph, and marks its picture, exactly when
      that graph has no cycle. */
  lemma {:induction false} GenerateGraphOfEdges(app: App, es: seq<Edge>, fullWidth: bool, lib: Library)
    requires Faithful(lib) && WordEdges(es) && |es| > 0
    ensures var out := GenerateGraph(app, RenderEdges(es, fullWidth), lib);
            && (out.1.Ok? <==> IsAcyclic(Build(es)))
            && (out.1.Ok? ==> out.0 == app.(graphGenerated := true))
            && (out.1.Ok? ==> forall ord :: ord in out.1.value <==> IsTopologicalOrder(Build(es), ord))
            && (out.1.Err? ==> out == (app, Err(CyclicInput)))
  {
    ScanRenderEdges(es, fullWidth);
    TopoGateFaithful(app, es, lib);
  }

  /** The parsing and building half of `weightedGraph`: the `<a,b,d>` / `《a,b,d》` tokens
      become the new `G`, and the picture is marked as drawn; no token at all is refused
      with a warning and nothing changes. */
  function WeightedBuild(app: App, text: string): (out: (App, Result<WeightedDiGraph>))
    ensures Valid(out.0) || out.0 == app
    ensures out.1.Err? <==> FindAllTriples(text) == []
    ensures out.1.Err? ==> out == (app, Err(NoMatches))
    ensures out.1.Ok? ==> out.0 == App(true, Some(out.1.value)) && WellFormedWeighted(out.1.value)
  {
    match ScanWeightedEdges(text)
    case Err(f) => (app, Err(f))
    case Ok(ts) =>
      var g := BuildWeighted(ts);
      (App(true, Some(g)), Ok(g))
  }

  /** On a file of weighted tokens the new `G` is the graph of exactly those edges. */
  lemma {:induction false} WeightedBuildOfEdges(app: App, ts: seq<WeightedEdge>, fullWidth: bool)
    requires WordWeightedEdges(ts) && |ts| > 0
    ensures WeightedBuild(app, RenderWeightedEdges(ts, fullWidth))
            == (App(true, Some(BuildWeighted(ts))), Ok(BuildWeighted(ts)))
  {
    ScanRenderWeightedEdges(ts, fullWidth);
  }

  /** `weightedGraph` as written: the build, then `generateOptimalRoute` as written, so an
      empty result box only warns and the report goes ahead. Every vertex of a built graph
      is a word, so that report ends in a `KeyError` naming the empty string. */
  method WeightedGraphAsWritten(app: App, text: string, start: Vertex) returns (next: App, r: Result<seq<ReportLine>>)
    requires Valid(app)
    ensures Valid(next)
    ensures FindAllTriples(text) == [] ==> next == app && r == Err(NoMatches)
    ensures FindAllTriples(text) != [] ==>
              && next == WeightedBuild(app, text).0 && next.graphGenerated && next.g.Some?
              && IsReport(next.g.value, start, r)
              && (start == [] ==> r == Err(KeyError([])))
  {
    var built := WeightedBuild(app, text);
    next := built.0;
    if built.1.Err? {
      r := Err(built.1.error);
    } else {
      WeightedWordNodes(ScanWeightedEdges(text).value);
      r := GenerateOptimalRouteAsWritten(next, start);
    }
  }

  /** `weightedGraph` with the evident intent: the build, then `generateOptimalRoute` with
      its empty-start guard, so the report only runs for a named start vertex. */
  method WeightedGraph(app: App, text: string, start: Vertex) returns (next: App, r: Result<seq<ReportLine>>)
    requires Valid(app)
    ensures Valid(next)
    ensures FindAllTriples(text) == [] ==> next == app && r == Err(NoMatches)
    ensures FindAllTriples(text) != [] ==>
              && next == WeightedBuild(app, text).0 && next.graphGenerated && next.g.Some?
              && (start == [] ==> r == Err(NoStartVertex))
              && (start != [] ==> IsReport(next.g.value, start, r))
  {
    var built := WeightedBuild(app, text);
    next := built.0;
    if built.1.Err? {
      r := Err(built.1.error);
    } else {
      r := GenerateOptimalRoute(next, start);
    }
  }

  /** `exportResults` as written: after a weighted build the flag is set, the text holds
      weighted tokens, `generateGraph` finds no `<a,b>` token and returns `None`, and the join
      raises a `TypeError`. */
  function ExportResultsAsWritten(app: App, text: string, lib: Library): (out: (App, Result<string>))
    ensures !app.graphGenerated ==> out == (app, Err(NotGenerated))
    ensures app.graphGenerated && FindAllPairs(text) == [] ==> out == (app, Err(TypeError))
    ensures app.graphGenerated && GenerateGraph(app, text, lib).1.Ok? ==>
              out.1 == Ok(ExportText(GenerateGraph(app, text, lib).1.value))
  {
    ExportAsWritten(app, GenerateGraph(app, text, lib))
  }

  /** The failure on any file of weighted tokens: build it, then export it. */
  lemma {:induction false} ExportAfterWeightedBuildRaises(ts: seq<WeightedEdge>, fullWidth: bool, lib: Library)
    requires WordWeightedEdges(ts) && |ts| > 0
    ensures var text := RenderWeightedEdges(ts, fullWidth);
            var built := WeightedBuild(Initial, text).0;
            && built.graphGenerated
            && ExportResultsAsWritten(built, text, lib).1 == Err(TypeError)
  {
    WeightedBuildOfEdges(Initial, ts, fullWidth);
    ScanEdgesOfWeightedText(ts, fullWidth);
  }

  /** The smallest such file: the single line `<a,b,1>`. */
  lemma {:induction false} ExportAfterOneWeightedEdgeRaises(lib: Library)
    ensures var text := RenderWeightedEdges([WeightedEdge("a", "b", 1)], false);
            ExportResultsAsWritten(WeightedBuild(Initial, text).0, text, lib).1 == Err(TypeError)
  {
    ExportAfterWeightedBuildRaises([WeightedEdge("a", "b", 1)], false, lib);
  }

  /** `exportResults` with the evident intent: a failed `generateGraph` ends the export with
      its own warning. */
  function ExportResults(app: App, text: string, lib: Library): (out: (App, Result<string>))
    ensures !app.graphGenerated ==> out == (app, Err(NotGenerated))
    ensures out.1.Err? ==> out.1.error == NotGenerated || out.1.error == NoMatches || out.1.error == CyclicInput
    ensures out.1.Ok? ==> app.graphGenerated && GenerateGraph(app, text, lib).1.Ok?
    ensures out.1.Ok? ==> out.1.value == ExportText(GenerateGraph(app, text, lib).1.value)
  {
    Export(app, GenerateGraph(app, text, lib))
  }

  /** Exporting an acyclic file of edge tokens writes every topological order of its graph,
      one per line, and the file reads back as exactly those orders. */
  lemma {:induction false} ExportOfEdges(app: App, es: seq<Edge>, fullWidth: bool, lib: Library)
    requires Faithful(lib) && WordEdges(es) && |es| > 0 && IsAcyclic(Build(es))
    requires app.graphGenerated
    ensures var out := ExportResults(app, RenderEdges(es, fullWidth), lib);
            && out.1.Ok?
            && forall ord :: ord in ReadExport(out.1.value) <==> IsTopologicalOrder(Build(es), ord)
  {
    var text := RenderEdges(es, fullWidth);
    var generated := GenerateGraph(app, text, lib);
    assert generated.1.Ok? && generated.1.value != []
           && forall ord :: ord in generated.1.value <==> IsTopologicalOrder(Build(es), ord) by {
      GenerateGraphOfEdges(app, es, fullWidth, lib);
      TopoGateFaithful(app, es, lib);
      ScanRenderEdges(es, fullWidth);
    }
    var orders := generated.1.value;
    assert ExportResults(app, text, lib).1 == Ok(ExportText(orders));
    assert ReadExport(ExportText(orders)) == orders by {
      OrdersExportable(es, orders);
      ExportRoundTrip(orders);
    }
  }

  /** Topological orders of a graph of word-named edges are non-empty lists of words. */
  lemma OrdersExportable(es: seq<Edge>, orders: seq<seq<Vertex>>)
    requires WordEdges(es) && |es| > 0 && |orders| > 0
    requires forall ord :: ord in orders ==> IsTopologicalOrder(Build(es), ord)
    ensures forall k :: 0 <= k < |orders| ==> |orders[k]| >= 1
    ensures forall k, m :: 0 <= k < |orders| && 0 <= m < |orders[k]| ==> ExportableName(orders[k][m])
  {
    forall k | 0 <= k < |orders| ensures |orders[k]| >= 1 {
      assert orders[k] in orders;
      OrderOfEdgesNonEmpty(es, orders[k]);
    }
    forall k, m | 0 <= k < |orders| && 0 <= m < |orders[k]| ensures ExportableName(orders[k][m]) {
      assert orders[k] in orders;
      OrderVertexIsWord(es, orders[k], orders[k][m]);
      WordExportable(orders[k][m]);
    }
  }

  lemma {:induction false} OrderVertexIsWord(es: seq<Edge>, ord: seq<Vertex>, v: Vertex)
    requires WordEdges(es) && IsTopologicalOrder(Build(es), ord) && v in ord
    ensures IsWord(v)
  {
    var e := NodeOfSomeEdge(es, v);
    var i :| 0 <= i < |es| && es[i] == e;
    assert IsWord(es[i].src) && IsWord(es[i].dst);
  }

  /** A word has neither `-` nor a line break. */
  lemma WordExportable(v: Vertex)
    requires IsWord(v)
    ensures ExportableName(v)
  {
  }
}
