/** test111.py: the smallest of the three windows, with the line parser, the topological
    step and saving the picture. Its `generateGraph` returns nothing; the orders are only
    printed, so the outcome here says whether the graph was accepted. */
module Test111 {
  import opened Results
  import opened Text
  import opened Graphs
  import opened Dag
  import opened LineParser
  import opened Session

  /** `generateGraph`: the line parse of the text, then the topological step. */
  function GenerateGraph(app: App, text: string, lib: Library): (out: (App, Result<()>))
    ensures out.0.g == app.g
    ensures out.1.Err? ==> out.0 == app
    ensures out.1.Err? ==> out.1.error in {MalformedLine, ValueError, CyclicInput}
    ensures out.0.graphGenerated && !app.graphGenerated ==>
              && ParseEdges(text).Ok?
              && lib.isDag(Build(ParseEdges(text).value))
              && |lib.sorts(Build(ParseEdges(text).value))| > 0
  {
    match ParseEdges(text)
    case Err(f) => (app, Err(f))
    case Ok(es) =>
      var gate := TopoGate(app, es, lib);
      (gate.0, if gate.1.Ok? then Ok(()) else Err(gate.1.error))
  }

  /** A non-blank line without a comma, after lines that were all accepted, stops the build
      with the warning, and nothing changes. */
  lemma {:induction false} NoCommaLineRefused(app: App, text: string, lib: Library, k: nat)
    requires var lines := Split(Unbracket(text), "\n");
             && k < |lines| && !AllSpace(lines[k]) && ',' !in lines[k]
             && forall m :: 0 <= m < k ==> LineAccepted(lines[m])
    ensures GenerateGraph(app, text, lib) == (app, Err(MalformedLine))
  {
    var lines := Split(Unbracket(text), "\n");
    CountPositive(',', lines[k]);
    ParseLinesOk(lines);
    ParseLinesError(lines);
    var j :| 0 <= j < |lines| && !LineAccepted(lines[j])
             && (forall m :: 0 <= m < j ==> LineAccepted(lines[m]))
             && ParseLines(lines).error == (if ',' in lines[j] then ValueError else MalformedLine);
    assert j == k;
  }

  /** On a file of `<a,b>` lines, with a library that keeps its promises: the graph is
      accepted and the picture marked exactly when it has no cycle; a refused graph leaves
      the state as it was. */
  lemma {:induction false} GenerateGraphOfLines(app: App, es: seq<Edge>, lib: Library)
    requires Faithful(lib) && PlainEdges(es)
    ensures var out := GenerateGraph(app, RenderLines(es), lib);
            && (out.1.Ok? <==> IsAcyclic(Build(es)))
            && (out.1.Ok? ==> out.0 == app.(graphGenerated := true))
            && (out.1.Err? ==> out == (app, Err(CyclicInput)))
  {
    ParseRenderLines(es);
    TopoGateFaithful(app, es, lib);
  }

  /** Saving is refused in the state `__init__` leaves, stays refused while every
      `generateGraph` is refused, and is allowed once one is accepted. */
  lemma SaveFollowsGenerate(app: App, text: string, lib: Library)
    requires Faithful(lib)
    ensures SaveGraph(Initial) == Err(NotGenerated)
    ensures GenerateGraph(app, text, lib).1.Ok? ==> SaveGraph(GenerateGraph(app, text, lib).0).Ok?
    ensures GenerateGraph(app, text, lib).1.Err? ==> SaveGraph(GenerateGraph(app, text, lib).0) == SaveGraph(app)
  {
    if ParseEdges(text).Ok? {
      TopoGateFaithful(app, ParseEdges(text).value, lib);
    }
  }
}
