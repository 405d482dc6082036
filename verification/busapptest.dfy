/** busapptest.py: the window that reads its input line by line. Each callback is a step
    from one `App` state to the next, with the outcome the user sees. */
module BusAppTest {
  import opened Results
  import opened Text
  import opened Graphs
  import opened Dag
  import opened LineParser
  import opened ShortestPaths
  import opened Session
  import Scanner

  /** `generateGraph`: the line parse of the text, then the topological step. A line
      without a comma stops it with a warning; a line with two or more raises `ValueError`. */
  function GenerateGraph(app: App, text: string, lib: Library): (out: (App, Result<seq<seq<Vertex>>>))
    ensures out.0.g == app.g
    ensures out.1.Err? ==> out.0 == app
    ensures out.1.Err? ==> out.1.error in {MalformedLine, ValueError, CyclicInput}
    ensures ParseEdges(text).Err? ==> out == (app, Err(ParseEdges(text).error))
    ensures out.0.graphGenerated && !app.graphGenerated ==>
              ParseEdges(text).Ok? && lib.isDag(Build(ParseEdges(text).value))
  {
    match ParseEdges(text)
    case Err(f) => (app, Err(f))
    case Ok(es) => TopoGate(app, es, lib)
  }

  /** On a file of `<a,b>` lines, with a library that keeps its promises: the window answers
      with every topological order of the edges' graph, and marks its picture, exactly when
      that graph has no cycle. */
  lemma {:induction false} GenerateGraphOfLines(app: App, es: seq<Edge>, lib: Library)
    requires Faithful(lib) && PlainEdges(es)
    ensures var out := GenerateGraph(app, RenderLines(es), lib);
            && (out.1.Ok? <==> IsAcyclic(Build(es)))
            && (out.1.Ok? ==> out.0 == app.(graphGenerated := true))
            && (out.1.Ok? ==> forall ord :: ord in out.1.value <==> IsTopologicalOrder(Build(es), ord))
            && (out.1.Err? ==> out == (app, Err(CyclicInput)))
  {
    ParseRenderLines(es);
    TopoGateFaithful(app, es, lib);
  }

  /** The parsing and building half of `weightedGraph`: every non-blank line must begin with
      a `<a,b,d>` token; the edges become the new `G` and the picture is marked as drawn
      (it is only redrawn when it was not drawn before, which leaves the flag set either
      way). A line that does not match is refused with a warning and nothing changes. */
  function WeightedBuild(app: App, text: string): (out: (App, Result<WeightedDiGraph>))
    ensures Valid(out.0) || out.0 == app
    ensures out.1.Err? <==> ParseWeightedEdges(text).Err?
    ensures out.1.Err? ==> out == (app, Err(MalformedLine))
    ensures out.1.Ok? ==> out.0 == App(true, Some(out.1.value)) && WellFormedWeighted(out.1.value)
  {
    match ParseWeightedEdges(text)
    case Err(f) => (app, Err(f))
    case Ok(ts) =>
      var g := BuildWeighted(ts);
      (App(true, Some(g)), Ok(g))
  }

  /** On a file of `<a,b,d>` lines the new `G` is the graph of exactly those edges. */
  lemma {:induction false} WeightedBuildOfLines(app: App, ts: seq<WeightedEdge>)
    requires Scanner.WordWeightedEdges(ts)
    ensures WeightedBuild(app, RenderWeightedLines(ts))
            == (App(true, Some(BuildWeighted(ts))), Ok(BuildWeighted(ts)))
  {
    ParseRenderWeightedLines(ts);
  }

  /** Blank input is not refused: it builds the graph with no vertex and sets the flag. */
  lemma {:induction false} BlankInputBuildsEmptyGraph(app: App, text: string)
    requires AllSpace(text)
    ensures WeightedBuild(app, text)
            == (App(true, Some(WeightedDiGraph([], map[]))), Ok(WeightedDiGraph([], map[])))
  {
    BlankWeightedInput(text);
  }

  /** `weightedGraph` as written: the build, then `generateOptimalRoute` as written, so an
      empty result box only warns and the report goes ahead. No vertex is the empty string,
      so that report is a `KeyError` naming it, or no line at all on a graph with no vertex. */
  method WeightedGraphAsWritten(app: App, text: string, start: Vertex) returns (next: App, r: Result<seq<ReportLine>>)
    requires Valid(app)
    ensures Valid(next)
    ensures ParseWeightedEdges(text).Err? ==> next == app && r == Err(MalformedLine)
    ensures ParseWeightedEdges(text).Ok? ==>
              && next == WeightedBuild(app, text).0 && next.graphGenerated && next.g.Some?
              && IsReport(next.g.value, start, r)
              && (start == [] && |next.g.value.nodes| > 0 ==> r == Err(KeyError([])))
              && (start == [] && |next.g.value.nodes| == 0 ==> r == Ok([]))
  {
    var built := WeightedBuild(app, text);
    next := built.0;
    if built.1.Err? {
      r := Err(built.1.error);
    } else {
      Scanner.WeightedWordNodes(ParseWeightedEdges(text).value);
      r := GenerateOptimalRouteAsWritten(next, start);
    }
  }

  /** `weightedGraph` with the evident intent: the build, then `generateOptimalRoute` with
      its empty-start guard, so the report only runs for a named start vertex. */
  method WeightedGraph(app: App, text: string, start: Vertex) returns (next: App, r: Result<seq<ReportLine>>)
    requires Valid(app)
    ensures Valid(next)
    ensures ParseWeightedEdges(text).Err? ==> next == app && r == Err(MalformedLine)
    ensures ParseWeightedEdges(text).Ok? ==>
              && next == WeightedBuild(app, text).0 && next.graphGenerated && next.g.Some?
              && (start == [] ==> r == Err(NoStartVertex))
              && (start != [] ==> IsReport(next.g.value, start, r))
  {
    var built := WeightedBuild(app, text);
    next := built.0;
    if built.1.Err? {
      r := Err(built.1.error);
    } else {
      r := GenerateOptimalRoute(next, start);
    }
  }

  /** `exportResults` as written: when `generateGraph` stops at a warning (a line without a
      comma, a cycle) it returns `None` and the join raises a `TypeError`. */
  function ExportResultsAsWritten(app: App, text: string, lib: Library): (out: (App, Result<string>))
    ensures !app.graphGenerated ==> out == (app, Err(NotGenerated))
    ensures app.graphGenerated && GenerateGraph(app, text, lib).1 in {Err(MalformedLine), Err(CyclicInput)} ==>
              out == (app, Err(TypeError))
    ensures app.graphGenerated && GenerateGraph(app, text, lib).1.Ok? ==>
              out.1 == Ok(ExportText(GenerateGraph(app, text, lib).1.value))
  {
    ExportAsWritten(app, GenerateGraph(app, text, lib))
  }

  /** The failure on any file of `<a,b>` lines whose graph has a cycle, once a picture is
      drawn: `generateGraph` warns and returns `None`, and the export raises `TypeError`. */
  lemma ExportOfCyclicLinesRaises(app: App, es: seq<Edge>, lib: Library)
    requires Faithful(lib) && app.graphGenerated && PlainEdges(es) && !IsAcyclic(Build(es))
    ensures ExportResultsAsWritten(app, RenderLines(es), lib) == (app, Err(TypeError))
  {
    GenerateGraphOfLines(app, es, lib);
  }

  /** Two edges `a -> b` and `b -> a` form a cycle. */
  lemma TwoCycle(a: Vertex, b: Vertex)
    ensures !IsAcyclic(Build([Edge(a, b), Edge(b, a)]))
  {
    var g := Build([Edge(a, b), Edge(b, a)]);
    assert Edge(a, b) in g.edges && Edge(b, a) in g.edges;
    assert IsCycle(g, [a, b, a]);
  }

  /** The failure on a two-line cycle: with the picture drawn, export the lines `<a,b>` and
      `<b,a>`. */
  lemma ExportOfCycleRaises(app: App, lib: Library, a: Vertex, b: Vertex)
    requires Faithful(lib) && app.graphGenerated && PlainName(a) && PlainName(b)
    ensures ExportResultsAsWritten(app, RenderLines([Edge(a, b), Edge(b, a)]), lib) == (app, Err(TypeError))
  {
    TwoCycle(a, b);
    ExportOfCyclicLinesRaises(app, [Edge(a, b), Edge(b, a)], lib);
  }

  /** `exportResults` with the evident intent: a failed `generateGraph` ends the export with
      its own warning, or its own `ValueError`; no `TypeError` is ever raised. */
  function ExportResults(app: App, text: string, lib: Library): (out: (App, Result<string>))
    ensures !app.graphGenerated ==> out == (app, Err(NotGenerated))
    ensures out.1.Err? ==> out.1.error in {NotGenerated, MalformedLine, ValueError, CyclicInput}
    ensures out.1.Ok? ==> app.graphGenerated && GenerateGraph(app, text, lib).1.Ok?
    ensures out.1.Ok? ==> out.1.value == ExportText(GenerateGraph(app, text, lib).1.value)
  {
    Export(app, GenerateGraph(app, text, lib))
  }
}
