# Topology-sorting-drawing, modelled in Dafny

The repository holds three small Qt windows that share one job. Each reads edges of a
bus network typed into a text box. It draws the directed graph, lists every topological
order of it, and for a weighted network reports the shortest distance from a start
station to every other station. The project models the logic of those windows:

- `busapp.py` finds `<a,b>` / `《a,b》` and `<a,b,d>` / `《a,b,d》` tokens anywhere in the
  text with `re.findall`.
- `busapptest.py` reads the text line by line: `<a,b>` lines with the brackets deleted,
  and `<a,b,d>` lines with an anchored `re.match`.
- `test111.py` has only the line-by-line `<a,b>` reader, the topological step and saving
  the picture.

Every callback is a function or method from one window state `App(graphGenerated, g)`
to the next, paired with a `Result` naming the outcome the user sees. The outcome is
either a value, a warning box or an uncaught Python exception.

The modules follow the program's structure:

| module | file | what it holds |
|---|---|---|
| `Results` | results.dfy | `Option`, `Result`, and the failures: warnings and exceptions |
| `Text` | text.dfy | `str.strip`, `str.split`, `str.join`, `str.replace`, `int()`, and the `\w` / `\d` classes |
| `Scanner` | scanner.dfy | the two `re.findall` patterns of `busapp.py` and the edge lists built from their matches |
| `LineParser` | lines.dfy | the line readers of `busapptest.py` and `test111.py` |
| `Graphs` | graphs.dfy | networkx `DiGraph` construction: nodes in insertion order, edge set, last weight wins |
| `Dag` | dag.dfy | walks, cycles and topological orders, and the two networkx calls as a `Library` value |
| `Distances` | distances.dfy | `Fin(n)` / `Inf` distances with the `+` and `<` of floats that include `inf` |
| `Floyd` | floyd.dfy | the Floyd–Warshall triple loop on a 2-D array, against the recurrence `Best` and the least route cost |
| `ShortestPaths` | paths.dfy | the distance-matrix set-up, the per-vertex report, and `floyd_shortest_paths` as a whole |
| `Session` | session.dfy | the shared state and guards, the topological step, route finding, the export text |
| `BusApp`, `BusAppTest`, `Test111` | busapp.dfy, busapptest.dfy, test111.dfy | the callbacks of each window |

Two networkx calls are library code whose source is not part of this model:
`nx.is_directed_acyclic_graph` and `nx.all_topological_sorts`. They are a `Library`
parameter. The predicate `Dag.Faithful` states their documented promises: the DAG test
holds exactly for graphs without a cycle, and the sorts are exactly the topological
orders. Results about what the windows answer assume a faithful library.

The export guard reads only the `graphGenerated` flag (busapp.py:268), and
`weightedGraph` sets that same flag once it has drawn the weighted graph
(busapp.py:227-228). So the export runs after a weighted build as well, which is the
second finding below.

## Model

| member | source | states |
|---|---|---|
| Text.Strip | busapptest.py:56-59 | `strip()` never lengthens a text and leaves it neither starting nor ending with whitespace; `StripTrims` states that it is the middle slice |
| Text.StripTrims | busapptest.py:56-59 | `strip()` removes exactly a whitespace prefix and a whitespace suffix, and keeps the middle as it was |
| Text.StripEmpty | busapptest.py:56 | a line strips to the empty string exactly when all of it is whitespace, which is the blank-line test |
| Text.StripNoSpace | busapp.py:82 | stripping a text that has no whitespace leaves it unchanged, so a captured word is its own strip |
| Text.StripAround | busapptest.py:58-59 | around a comma, the strip of a line is the left-stripped text before it, the comma, and the right-stripped text after it |
| Text.StripHalves | busapptest.py:58-59 | stripping the left- or right-stripped text gives the strip of the whole, so each half of a line strips as it would alone |
| Text.StripCount | busapptest.py:57-58 | stripping never removes a comma, so the comma test and the unpacking see the same commas |
| Text.SplitCount | busapptest.py:58 | splitting on a one-character separator gives one more piece than there are separators |
| Text.Split | busapptest.py:55 | `split` gives at least one piece, and joining the pieces with the separator gives back the text |
| Text.Join | busapp.py:274 | joining no pieces gives the empty text, and a join starts with its first piece |
| Text.JoinLast | busapp.py:274 | a join ends with its last piece |
| Text.SplitJoin | busapptest.py:55 | splitting a join gives back the pieces, when no piece contains the separator |
| Text.JoinSplit | busapptest.py:55 | joining the pieces of a split gives back the text |
| Text.RemoveCharAppend | busapptest.py:53 | deleting a character distributes over concatenation |
| Text.DecimalValue | busapp.py:195 | `int()` of the decimal writing of a number is that number |
| Scanner.SpanIsMaximalRun | busapp.py:68 | a greedy `\w+` / `\d+` run takes every class character up to the first that is not in the class |
| Scanner.MatchPairIff | busapp.py:68-69 | an alternative of the pair pattern matches at a position with groups `a`, `b` and length `n` exactly when the text there starts with the token `<a,b>` (or `《a,b》`) with word groups |
| Scanner.MatchTripleIff | busapp.py:183-184 | the same for the triple pattern and the token `<a,b,d>` with a digit group `d` |
| Scanner.FindAllPairs | busapp.py:68-69 | every tuple `findall` yields has exactly one alternative's groups filled, with word groups; `FindAllPairsToken` and `SkipPairs` say which tuples |
| Scanner.FindAllTriples | busapp.py:183-184 | the same for the triple pattern, with a digit group |
| Scanner.FindAllPairsToken | busapp.py:69 | `findall` on a token followed by more text yields that token's groups, then the matches of the rest |
| Scanner.FindAllTriplesToken | busapp.py:184 | the same for weighted tokens |
| Scanner.SkipPairs | busapp.py:69 | text without an opening bracket contributes no match, wherever it stands |
| Scanner.PairSkipsTripleToken | busapp.py:68-69 | the pair pattern finds nothing inside a weighted token |
| Scanner.TripleSkipsPairToken | busapp.py:183-184 | the triple pattern finds nothing inside a pair token |
| Scanner.EdgesFromMatches | busapp.py:79-88 | when every match filled one of its alternatives, the result holds one edge per match, in match order |
| Scanner.WeightedEdgesFromMatches | busapp.py:192-201 | the same for weighted matches, with the weight read by `int()` |
| Scanner.ScanEdges | busapp.py:68-88 | the no-match warning is given exactly when `findall` finds nothing; otherwise the edges are the matches in order, with word ends |
| Scanner.ScanWeightedEdges | busapp.py:183-201 | the same for weighted edges |
| Scanner.ScanRenderEdges | busapp.py:68-88 | scanning a text of edge tokens, in either bracket style, gives back exactly those edges |
| Scanner.ScanRenderWeightedEdges | busapp.py:183-201 | scanning a text of weighted tokens gives back exactly those weighted edges |
| Scanner.WeightedWordNodes | busapp.py:192-207 | every vertex built from word-ended weighted edges is a non-empty word, never the empty string, and one edge is enough for a vertex |
| Scanner.ScanEdgesOfWeightedText | busapp.py:68-76 | the pair pattern finds nothing in a text of weighted tokens, so `generateGraph` warns on it |
| Scanner.ScanWeightedEdgesOfText | busapp.py:183-189 | the triple pattern finds nothing in a text of pair tokens |
| LineParser.UnbracketAppend | busapptest.py:53 | deleting the angle brackets distributes over concatenation |
| LineParser.ParseLine | busapptest.py:56-63 | a refused line fails only with the no-comma warning or `ValueError`; which outcome, and which edge, are `ParseLineOutcome` and `ParseLineEdge` |
| LineParser.ParseLineOutcome | busapptest.py:56-63 | a blank line is skipped; a line without a comma gives the warning; two or more commas give `ValueError`; one comma gives an edge |
| LineParser.ParseLinesOk | busapptest.py:55-63 | the lines give an edge list exactly when every line is blank or has exactly one comma |
| LineParser.ParseLineEdge | busapptest.py:56-59 | a line `p,q` with exactly one comma gives the edge from `p.strip()` to `q.strip()` |
| LineParser.ParseLinesError | busapptest.py:55-63 | a failed parse ends at the first refused line, with that line's failure |
| LineParser.ParseEdges | busapptest.py:52-63 | the parse of a whole text fails only with the no-comma warning or `ValueError`; `ParseLinesOk` over the lines of the unbracketed text says when |
| LineParser.ParseRenderLines | busapptest.py:52-59 | a text of `<a,b>` lines parses back to exactly those edges |
| LineParser.ParseWeightedLine | busapptest.py:150-159 | a refused line gives the format warning, and an accepted line's edge has word ends; `ParseWeightedLineIff` says which edge |
| LineParser.ParseWeightedLineIff | busapptest.py:150-155 | a line gives the weighted edge `t` exactly when, once stripped, it begins with a token `<a,b,d>` for `t` |
| LineParser.TrailingTextAccepted | busapptest.py:152 | the match is anchored only at the start, so text after a weighted token is ignored |
| LineParser.FullWidthRejected | busapptest.py:152 | a line that starts with `《` is refused, because the line reader has no full-width alternative |
| LineParser.ParseWeightedLineOutcome | busapptest.py:150-159 | a weighted line gives nothing exactly when it is blank, and is accepted exactly when it is blank or its stripped text begins with a `<a,b,d>` token |
| LineParser.ParseWeightedLines | busapptest.py:149-159 | the loop gives at most one edge per line, every end a word, or fails with the format warning |
| LineParser.ParseWeightedLinesOk | busapptest.py:149-159 | the weighted lines give an edge list exactly when every line is blank or, stripped, begins with a `<a,b,d>` token |
| LineParser.ParseWeightedLinesError | busapptest.py:149-159 | a failed parse stops at a refused line with the format warning, and every earlier line is accepted |
| LineParser.ParseWeightedEdges | busapptest.py:147-159 | the parse of a whole weighted text fails only with the format warning; it is the weighted loop over the text's lines |
| LineParser.BlankWeightedInput | busapptest.py:149-150 | a blank text gives an empty edge list rather than a warning |
| LineParser.ParseRenderWeightedLines | busapptest.py:147-159 | a text of `<a,b,d>` lines parses back to exactly those weighted edges |
| Graphs.IndexOfDistinct | busapp.py:145 | on distinct nodes, the index of the node at position `i` is `i`, so `node_to_index` inverts the enumeration |
| Graphs.Build | busapp.py:91-92 | the graph's edges are exactly the listed edges, its nodes are distinct and are the endpoints in order of first appearance, and every edge joins two nodes |
| Graphs.FirstSeenOrder | busapp.py:91-92 | nodes are listed by increasing position of their first appearance |
| Graphs.NodeOfSomeEdge | busapp.py:92 | every node is an end of some listed edge |
| Graphs.DuplicateEdgeIsIdempotent | busapp.py:92 | listing an edge again changes neither the nodes nor the edges |
| Graphs.BuildWeighted | busapp.py:204-207 | the weighted graph has the same nodes as the unweighted one, and a weight for exactly the listed pairs |
| Graphs.LastWeightWins | busapp.py:205-207 | the weight of a pair is the weight of its last listing |
| Dag.OrderedIsAcyclic | busapp.py:95-112 | a graph that has a topological order has no cycle |
| Dag.AcyclicHasOrder | busapp.py:112-115 | every well-formed graph without a cycle has a topological order |
| Dag.AcyclicIffOrdered | busapp.py:95-115 | a well-formed graph has no cycle exactly when it has a topological order |
| Dag.SelfLoopIsCyclic | busapp.py:95-98 | an edge from a vertex to itself is a cycle, and no order can place it |
| Dag.SortsOfDagNonEmpty | busapp.py:112-115 | with a faithful library, a graph that passes the DAG test has at least one order, so the empty-list fallback never runs |
| Dag.OrderOfEdgesNonEmpty | busapp.py:112-119 | an order of the graph of a non-empty edge list holds at least one vertex |
| Distances.Relax | busapp.py:161-162 | a relaxed cell is at most both its old value and the candidate, and is one of them |
| Floyd.BestIsLowerBound | busapp.py:158-162 | the best distance through the first `k` vertices is at most the cost of every route through them |
| Floyd.BestIsAchieved | busapp.py:158-162 | a finite best distance is the cost of some route |
| Floyd.BestIsShortest | busapp.py:158-162 | the final best distance is the least route cost, and when finite some route achieves it |
| Floyd.FloydWarshall | busapp.py:158-162 | the matrix after the triple loop holds the best distance through all vertices in every cell, never above the initial cell |
| ShortestPaths.CostIsWalkWeight | busapp.py:149-155 | the cost of an index route over the initial matrix is the weight of the walk through the named vertices |
| ShortestPaths.FillStep | busapp.py:153-155 | writing one edge's weight into its cell records exactly that edge more |
| ShortestPaths.InitDistances | busapp.py:149-155 | after the edge loop, in any edge order, an edge's cell holds its weight and every other cell holds `inf` |
| ShortestPaths.ReportFrom | busapp.py:166-172 | the report loop from a position on fails only with `KeyError` naming a start that is not a vertex, and otherwise gives at most one line per remaining vertex |
| ShortestPaths.Report | busapp.py:165-172 | the same for the whole report: a `KeyError` for a start that is not a vertex, or at most one line per vertex |
| ShortestPaths.ReportFails | busapp.py:166-168 | the report raises `KeyError(start)` exactly when the start is not a vertex and the graph has a vertex |
| ShortestPaths.ReportLines | busapp.py:166-172 | a report from a vertex has one line per other vertex, in node order; a line says unreachable exactly when the cell is `inf`, and otherwise gives the cell's distance |
| ShortestPaths.FloydShortestPaths | busapp.py:142-172 | the report's lines give, for every other vertex in node order, the least walk weight from the start, or unreachable when no walk has a finite weight |
| Session.TopoGate | busapp.py:91-123 | the topological step never changes the weighted graph, and sets the flag only when it returns some order |
| Session.TopoGateFaithful | busapp.py:91-123 | with a faithful library, the input is refused exactly when its graph has a cycle; otherwise the answer is every topological order, at least one, and the flag is set |
| Session.SelfLoopRefused | busapp.py:95-98 | an edge from a vertex to itself is refused, and the state is unchanged |
| Session.WeightedGraphOf | busapp.py:133-139 | the two guards, in order: no picture drawn, then no weighted graph |
| Session.SaveGraph | busapp.py:253-257 | saving is refused exactly when no picture has been drawn |
| Session.ShortestPathsFrom | busapp.py:132-174 | the guards' warnings, or otherwise the report of the stored graph |
| Session.GenerateOptimalRouteAsWritten | busapp.py:233-250 | an empty start only warns and the report runs anyway, so on a graph with vertices but none named by the empty string it raises `KeyError` |
| Session.GenerateOptimalRoute | busapp.py:233-250 | with the return after the empty-start warning, a `KeyError` can only name a non-empty start |
| Session.ExportText | busapp.py:274 | no order gives the empty text; otherwise the text starts with the first order joined by `->` and ends with the last |
| Session.ExportRoundTrip | busapp.py:274 | the export text, read back one order per line and one vertex per `->` field, gives back the orders |
| Session.ExportAsWritten | busapp.py:267-274 | a warning from `generateGraph` returns `None`, and formatting it raises `TypeError`; an exception it raises goes through unchanged |
| Session.Export | busapp.py:267-274 | a failed `generateGraph` ends the export with its own failure |
| BusApp.GenerateGraph | busapp.py:63-129 | no token gives the warning with the state unchanged; a failure leaves the state as it was; the flag is newly set only for a scan whose graph passed the DAG test |
| BusApp.GenerateGraphOfEdges | busapp.py:63-129 | on a text of edge tokens, the window answers every topological order, and sets the flag, exactly when the graph has no cycle |
| BusApp.WeightedBuild | busapp.py:183-228 | no weighted token gives the warning and nothing changes; otherwise the stored graph is the built one and the flag is set |
| BusApp.WeightedBuildOfEdges | busapp.py:183-228 | on a text of weighted tokens, the stored graph is the graph of exactly those edges |
| BusApp.WeightedGraphAsWritten | busapp.py:176-250 | as written: the build, then route finding that goes ahead after the empty-start warning; on any accepted text the report follows the stored graph for every start, and an empty start raises `KeyError` naming the empty string, since every vertex is a non-empty word |
| BusApp.WeightedGraph | busapp.py:176-230 | corrected: the build, then route finding that returns after the empty-start warning, so the report only runs for a named start |
| BusApp.ExportResultsAsWritten | busapp.py:267-274 | with the flag set and no `<a,b>` token in the text, the export raises `TypeError` |
| BusApp.ExportAfterWeightedBuildRaises | busapp.py:267-274 | a weighted build sets the flag, and exporting the same text then raises `TypeError` |
| BusApp.ExportAfterOneWeightedEdgeRaises | busapp.py:267-274 | the single line `<a,b,1>` shows it |
| BusApp.ExportResults | busapp.py:267-274 | the corrected export: every failure is a warning of `generateGraph` or the flag guard |
| BusApp.ExportOfEdges | busapp.py:273-274 | exporting an acyclic text of edge tokens writes a file that reads back as exactly the topological orders of its graph |
| BusApp.OrdersExportable | busapp.py:274 | the orders of a graph of word-named edges are non-empty lists of names free of `-` and line breaks |
| BusAppTest.GenerateGraph | busapptest.py:50-99 | a refused line stops with its warning or `ValueError` and changes nothing; the flag is newly set only for a parse whose graph passed the DAG test |
| BusAppTest.GenerateGraphOfLines | busapptest.py:50-99 | on a text of `<a,b>` lines, the window answers every topological order, and sets the flag, exactly when the graph has no cycle |
| BusAppTest.WeightedBuild | busapptest.py:147-179 | a refused line gives the warning and nothing changes; otherwise the stored graph is the built one and the flag is set |
| BusAppTest.WeightedBuildOfLines | busapptest.py:147-179 | on a text of `<a,b,d>` lines, the stored graph is the graph of exactly those edges |
| BusAppTest.BlankInputBuildsEmptyGraph | busapptest.py:147-179 | a blank text is not refused: it stores the graph with no vertex and sets the flag |
| BusAppTest.WeightedGraphAsWritten | busapptest.py:144-200 | as written: the build, then route finding that goes ahead after the empty-start warning; the report follows the stored graph for every start, and an empty start raises `KeyError` on a graph with a vertex and gives no line for blank input |
| BusAppTest.WeightedGraph | busapptest.py:144-181 | corrected: the build, then route finding that returns after the empty-start warning, so the report only runs for a named start |
| BusAppTest.ExportResultsAsWritten | busapptest.py:215-222 | with the flag set, a text that `generateGraph` refuses with a warning makes the export raise `TypeError` |
| BusAppTest.TwoCycle | busapptest.py:69-72 | the two edges `a -> b` and `b -> a` form a cycle |
| BusAppTest.ExportOfCyclicLinesRaises | busapptest.py:215-222 | with the flag set, exporting any cyclic text of `<a,b>` lines raises `TypeError` |
| BusAppTest.ExportOfCycleRaises | busapptest.py:215-222 | the lines `<a,b>` and `<b,a>` show it |
| BusAppTest.ExportResults | busapptest.py:215-222 | the corrected export: every failure is a warning or exception of `generateGraph` or the flag guard |
| Test111.GenerateGraph | test111.py:40-83 | a refused line or a cycle changes nothing; the flag is newly set only when the graph passed the DAG test and has some order |
| Test111.NoCommaLineRefused | test111.py:45-53 | a non-blank line without a comma, after accepted lines, stops the build with the warning and changes nothing |
| Test111.GenerateGraphOfLines | test111.py:40-83 | on a text of `<a,b>` lines, the graph is accepted and the flag set exactly when it has no cycle |
| Test111.SaveFollowsGenerate | test111.py:78-89 | saving is refused at start-up, stays refused while every build is refused, and is allowed once one is accepted |

## Left out

- The Qt user interface: window set-up, widgets, menus, message-box texts, `help` and
  `close_window`.
- `importData` file reading, the file dialogs, and writing the export file. The export
  is modelled up to the text that would be written.
- Drawing with matplotlib and the layout choice, which only affect the picture.
- The thread that `generate_Graph` starts in `busapptest.py`.
- The `layout` argument of `generateGraph` in `test111.py`, which is never read.
- The wording of the shortest-path report. Each line is a `ReportLine` value: unreachable,
  or the distance to a named vertex. Floats print as `3.0` in the source; the model
  keeps the integer.
- Where the report goes: `busapp.py` writes it to the result box and `busapptest.py`
  prints it. Both are the same value here.
- The printing of the topological orders to standard output.
- The start vertex is read from the result box. Here it is an argument.
- Text.IsWordChar: Python's `\w` matches every Unicode letter and digit. The model keeps
  ASCII letters, digits, `_` and the CJK unified ideographs U+4E00 to U+9FFF, which are
  the characters station names use.
- Text.IsDigit: Python's `\d` matches every Unicode decimal digit. The model keeps the
  ASCII digits.
- The internals of `nx.is_directed_acyclic_graph` and `nx.all_topological_sorts`. They
  are stated by their promises through `Dag.Faithful`; the order in which networkx
  yields the topological orders is not modelled.
- ShortestPaths.InitDistances: the edge order of `G.edges(data=True)` is left open. The
  loop writes the edges in any order, and the result does not depend on it.
- ShortestPaths.FloydShortestPaths: distances are exact integers, and `inf` is the `Inf`
  distance. The source keeps them in a float64 matrix (busapp.py:150, busapptest.py:119).
  Storing a weight of 2^53 or more rounds it (busapp.py:155), a weight above about 1.8e308
  raises `OverflowError` there, and a path sum of 2^53 or more is rounded. The model agrees
  with the source only while every weight and every path sum stays below 2^53; the
  rounding and the `OverflowError` are not modelled.
- ShortestPaths.InitDistances: each weight is stored exactly, without the float64 rounding
  of weights of 2^53 or more.

## Findings

| source | as written | input that shows it | evidently intended | confidence | as-written member | corrected member |
|---|---|---|---|---|---|---|
| busapp.py:243-250 | an empty start vertex shows a warning but does not return, so `floyd_shortest_paths("")` runs and the lookup `node_to_index[""]` raises `KeyError` | a weighted build of `<a,b,1>` with the start box empty | return after the warning, as the other two guards do | not executed | BusApp.WeightedGraphAsWritten | BusApp.WeightedGraph |
| busapptest.py:193-200 | the same missing return after the empty-start warning, reached from `weightedGraph` at busapptest.py:181 | the line `<a,b,1>` with the start box empty | return after the warning | not executed | BusAppTest.WeightedGraphAsWritten | BusAppTest.WeightedGraph |
| busapp.py:267-274 | `weightedGraph` sets `graphGenerated`, so exporting a text of weighted tokens passes the guard; `generateGraph` then finds no `<a,b>` token, warns and returns `None`, and the join over `None` raises `TypeError` | the text `<a,b,1>`: weighted build, then export | end the export after `generateGraph`'s warning | not executed | BusApp.ExportAfterOneWeightedEdgeRaises | BusApp.ExportResults |
| busapptest.py:215-222 | once a picture is drawn, exporting a text that `generateGraph` refuses, such as a cycle, returns `None` from it, and the join raises `TypeError` | a drawn picture, then the text `<a,b>` and `<b,a>` on two lines | end the export after `generateGraph`'s warning | not executed | BusAppTest.ExportOfCycleRaises | BusAppTest.ExportResults |
