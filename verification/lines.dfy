/** The line-by-line input parsers of busapptest.py and test111.py.

    Unweighted: every `<` and `>` is deleted from the whole text, the text is split on
    `\n`, blank lines are skipped, and each other line must hold exactly one comma; its two
    halves, stripped, are an edge.

    Weighted: the text is split on `\n`, blank lines are skipped, and each other line, once
    stripped, must begin with `<w,w,d>` (`re.match` anchors at the start only). */
module LineParser {
  import opened Results
  import opened Text
  import opened Graphs
  import Scanner

  // ---------------------------------------------------------------- unweighted lines

  function OptionToSeq<T>(o: Option<T>): (r: seq<T>)
    ensures |r| <= 1
  {
    if o.Some? then [o.value] else []
  }

  /** `text.replace('<', '').replace('>', '')`. */
  function Unbracket(text: string): (r: string)
    ensures '<' !in r && '>' !in r
    ensures forall c :: c != '<' && c != '>' ==> (c in r <==> c in text)
  {
    RemoveChar(RemoveChar(text, '<'), '>')
  }

  lemma UnbracketAppend(a: string, b: string)
    ensures Unbracket(a + b) == Unbracket(a) + Unbracket(b)
  {
    RemoveCharAppend(a, b, '<');
    RemoveCharAppend(RemoveChar(a, '<'), RemoveChar(b, '<'), '>');
  }

  lemma UnbracketAbsent(s: string)
    requires '<' !in s && '>' !in s
    ensures Unbracket(s) == s
  {
    RemoveCharAbsent(s, '<');
    RemoveCharAbsent(s, '>');
  }

  /** One line of the loop: a blank line contributes nothing; a line without a comma is
      refused with a warning; otherwise `a, b = line.strip().split(',')` raises ValueError
      unless there are exactly two pieces, and the edge is `(a.strip(), b.strip())`. */
  function ParseLine(line: string): (r: Result<Option<Edge>>)
    ensures r.Err? ==> r.error == MalformedLine || r.error == ValueError
  {
    if Strip(line) == [] then Ok(None)
    else if ',' !in line then Err(MalformedLine)
    else
      var parts := Split(Strip(line), ",");
      if |parts| != 2 then Err(ValueError)
      else Ok(Some(Edge(Strip(parts[0]), Strip(parts[1]))))
  }

  /** A line the loop accepts: blank, or holding exactly one comma. */
  predicate LineAccepted(line: string) {
    AllSpace(line) || Count(',', line) == 1
  }

  /** The outcome of one line, by its comma count: blank lines are skipped, a line with no
      comma gives the warning, a line with two or more commas fails to unpack. */
  lemma ParseLineOutcome(line: string)
    ensures ParseLine(line) == Ok(None) <==> AllSpace(line)
    ensures ParseLine(line).Ok? <==> LineAccepted(line)
    ensures ParseLine(line) == Err(MalformedLine) <==> !AllSpace(line) && ',' !in line
    ensures ParseLine(line) == Err(ValueError) <==> !AllSpace(line) && Count(',', line) >= 2
  {
    StripEmpty(line);
    CountPositive(',', line);
    StripCount(',', line);
    SplitCount(Strip(line), ',');
  }

  /** A line with exactly one comma gives the edge whose ends are the two halves, each
      stripped. */
  lemma ParseLineEdge(p: string, q: string)
    requires ',' !in p && ',' !in q
    ensures ParseLine(p + "," + q) == Ok(Some(Edge(Strip(p), Strip(q))))
  {
    var line := p + "," + q;
    var a, b := StripLeft(p), StripRight(q);
    assert line[|p|] == ',';
    StripAround(p, ',', q);
    assert Strip(line) == a + "," + b;
    StripLeftTrims(p);
    StripRightTrims(q);
    assert ',' !in a by { assert a == p[|p| - |a|..]; }
    assert ',' !in b by { assert b == q[..|b|]; }
    assert Join([a, b], ",") == a + "," + b;
    SplitJoin([a, b], ",");
    StripHalves(p);
    StripHalves(q);
  }

  /** The loop over the lines: the edges of the accepted lines in line order, or the error of
      the first line refused. */
  function ParseLines(lines: seq<string>): (r: Result<seq<Edge>>)
    ensures r.Ok? ==> |r.value| <= |lines|
    ensures r.Err? ==> r.error == MalformedLine || r.error == ValueError
  {
    if |lines| == 0 then Ok([])
    else match ParseLine(lines[0])
      case Err(f) => Err(f)
      case Ok(e) =>
        match ParseLines(lines[1..])
        case Err(f) => Err(f)
        case Ok(rest) => Ok(OptionToSeq(e) + rest)
  }

  /** The loop succeeds exactly when every line is accepted. */
  lemma {:induction false} ParseLinesOk(lines: seq<string>)
    ensures ParseLines(lines).Ok? <==> forall k :: 0 <= k < |lines| ==> LineAccepted(lines[k])
  {
    if |lines| > 0 {
      ParseLineOutcome(lines[0]);
      ParseLinesOk(lines[1..]);
      assert forall k :: 1 <= k < |lines| ==> lines[k] == lines[1..][k - 1];
    }
  }

  /** On failure the error is that of the first refused line. */
  lemma {:induction false} ParseLinesError(lines: seq<string>)
    requires ParseLines(lines).Err?
    ensures exists k :: 0 <= k < |lines| && !LineAccepted(lines[k])
              && (forall m :: 0 <= m < k ==> LineAccepted(lines[m]))
              && ParseLines(lines).error == (if ',' in lines[k] then ValueError else MalformedLine)
  {
    ParseLineOutcome(lines[0]);
    CountPositive(',', lines[0]);
    if ParseLine(lines[0]).Ok? {
      ParseLinesError(lines[1..]);
      var k :| 0 <= k < |lines[1..]| && !LineAccepted(lines[1..][k])
               && (forall m :: 0 <= m < k ==> LineAccepted(lines[1..][m]))
               && ParseLines(lines[1..]).error == (if ',' in lines[1..][k] then ValueError else MalformedLine);
      assert forall m :: 0 <= m < k + 1 ==> LineAccepted(lines[m]) by {
        assert forall m :: 1 <= m < k + 1 ==> lines[m] == lines[1..][m - 1];
      }
      assert lines[k + 1] == lines[1..][k];
    } else {
      assert !LineAccepted(lines[0]);
    }
  }

  /** The unweighted parse of busapptest.py and test111.py. */
  function ParseEdges(text: string): (r: Result<seq<Edge>>)
    ensures r.Err? ==> r.error == MalformedLine || r.error == ValueError
  {
    ParseLines(Split(Unbracket(text), "\n"))
  }

  // ---------------------------------------------------------------- unweighted round trip

  /** A vertex name that survives the line format unchanged: no white space, no comma and
      no angle bracket. It may be empty. */
  predicate PlainName(v: string) {
    NoSpace(v) && ',' !in v && '<' !in v && '>' !in v
  }

  predicate PlainEdges(es: seq<Edge>) {
    forall k :: 0 <= k < |es| ==> PlainName(es[k].src) && PlainName(es[k].dst)
  }

  /** The line `<a,b>` for an edge, and the same line once the brackets are gone. */
  function LineOf(e: Edge): string { "<" + e.src + "," + e.dst + ">" }

  function BareLineOf(e: Edge): string { e.src + "," + e.dst }

  function LinesOf(es: seq<Edge>): (ls: seq<string>)
    ensures |ls| == |es| && forall k :: 0 <= k < |es| ==> ls[k] == LineOf(es[k])
  {
    seq(|es|, k requires 0 <= k < |es| => LineOf(es[k]))
  }

  function BareLinesOf(es: seq<Edge>): (ls: seq<string>)
    ensures |ls| == |es| && forall k :: 0 <= k < |es| ==> ls[k] == BareLineOf(es[k])
  {
    seq(|es|, k requires 0 <= k < |es| => BareLineOf(es[k]))
  }

  /** An input text with one `<a,b>` line per edge. */
  function RenderLines(es: seq<Edge>): string {
    Join(LinesOf(es), "\n")
  }

  lemma NoSpaceConcat(a: string, b: string)
    requires NoSpace(a) && NoSpace(b)
    ensures NoSpace(a + b)
  {
    assert forall k :: 0 <= k < |a + b| ==> (a + b)[k] == if k < |a| then a[k] else b[k - |a|];
  }

  lemma UnbracketLine(e: Edge)
    requires PlainName(e.src) && PlainName(e.dst)
    ensures Unbracket(LineOf(e)) == BareLineOf(e)
  {
    assert LineOf(e) == "<" + BareLineOf(e) + ">";
    UnbracketAppend("<" + BareLineOf(e), ">");
    UnbracketAppend("<", BareLineOf(e));
    UnbracketAbsent(BareLineOf(e));
  }

  lemma {:induction false} UnbracketJoin(es: seq<Edge>)
    requires PlainEdges(es)
    ensures Unbracket(Join(LinesOf(es), "\n")) == Join(BareLinesOf(es), "\n")
  {
    if |es| == 1 {
      UnbracketLine(es[0]);
    } else if |es| > 1 {
      var ls, bs := LinesOf(es), BareLinesOf(es);
      assert ls[1..] == LinesOf(es[1..]) && bs[1..] == BareLinesOf(es[1..]);
      UnbracketJoin(es[1..]);
      UnbracketLine(es[0]);
      UnbracketAppend(ls[0] + "\n", Join(ls[1..], "\n"));
      UnbracketAppend(ls[0], "\n");
      UnbracketAbsent("\n");
    }
  }

  /** An accepted line with one comma gives back the edge it was written from. */
  lemma ParseBareLine(e: Edge)
    requires PlainName(e.src) && PlainName(e.dst)
    ensures ParseLine(BareLineOf(e)) == Ok(Some(e))
  {
    var s := BareLineOf(e);
    NoSpaceConcat(e.src, ",");
    NoSpaceConcat(e.src + ",", e.dst);
    StripNoSpace(s);
    assert s[|e.src|] == ',';
    assert Join([e.src, e.dst], ",") == s;
    SplitJoin([e.src, e.dst], ",");
    StripNoSpace(e.src);
    StripNoSpace(e.dst);
  }

  lemma {:induction false} ParseBareLines(es: seq<Edge>)
    requires PlainEdges(es)
    ensures ParseLines(BareLinesOf(es)) == Ok(es)
  {
    if |es| > 0 {
      var ls := BareLinesOf(es);
      assert ParseLine(ls[0]) == Ok(Some(es[0])) by { ParseBareLine(es[0]); }
      assert ParseLines(ls[1..]) == Ok(es[1..]) by {
        assert ls[1..] == BareLinesOf(es[1..]);
        ParseBareLines(es[1..]);
      }
      assert [es[0]] + es[1..] == es;
    }
  }

  /** Parsing the rendered lines gives back the edges, in order; empty halves included. */
  lemma {:induction false} ParseRenderLines(es: seq<Edge>)
    requires PlainEdges(es)
    ensures ParseEdges(RenderLines(es)) == Ok(es)
  {
    if |es| == 0 {
      assert Split([], "\n") == [[]];
    } else {
      UnbracketJoin(es);
      var bs := BareLinesOf(es);
      forall k | 0 <= k < |bs| ensures '\n' !in bs[k] {
        assert NoSpace(es[k].src) && NoSpace(es[k].dst);
      }
      SplitJoin(bs, "\n");
      ParseBareLines(es);
    }
  }

  // ---------------------------------------------------------------- weighted lines

  /** One line of the weighted loop: blank lines contribute nothing; otherwise
      `re.match(r'<(\w+),(\w+),(\d+)>', line.strip())` must match at the start of the stripped
      line, and the edge is `(a.strip(), b.strip(), int(weight))`. */
  function ParseWeightedLine(line: string): (r: Result<Option<WeightedEdge>>)
    ensures r.Err? ==> r.error == MalformedLine
    ensures r.Ok? && r.value.Some? ==> IsWord(r.value.value.src) && IsWord(r.value.value.dst)
  {
    var s := Strip(line);
    if s == [] then Ok(None)
    else match Scanner.MatchTriple(s, false)
      case None => Err(MalformedLine)
      case Some(m) =>
        Scanner.StripWord(m.a);
        Scanner.StripWord(m.b);
        Ok(Some(WeightedEdge(Strip(m.a), Strip(m.b), DigitsValue(m.digits))))
  }

  /** The weighted line condition: the stripped line begins with `<src,dst,d>` for a digit
      string `d` whose value is the weight. */
  ghost predicate StartsWithToken(line: string, t: WeightedEdge) {
    exists d :: IsWord(t.src) && IsWord(t.dst) && IsDigits(d) && DigitsValue(d) == t.weight
                && Scanner.TripleToken(t.src, t.dst, d, false) <= Strip(line)
  }

  lemma {:induction false} ParseWeightedLineSound(line: string, t: WeightedEdge)
    requires ParseWeightedLine(line) == Ok(Some(t))
    ensures StartsWithToken(line, t)
  {
    var s := Strip(line);
    var m := Scanner.MatchTriple(s, false).value;
    Scanner.MatchTripleIff(s, false, m.a, m.b, m.digits, m.len);
    Scanner.StripWord(m.a);
    Scanner.StripWord(m.b);
    assert Scanner.TripleToken(t.src, t.dst, m.digits, false) <= s;
  }

  lemma {:induction false} ParseWeightedLineComplete(line: string, t: WeightedEdge, d: string)
    requires IsWord(t.src) && IsWord(t.dst) && IsDigits(d) && DigitsValue(d) == t.weight
    requires Scanner.TripleToken(t.src, t.dst, d, false) <= Strip(line)
    ensures ParseWeightedLine(line) == Ok(Some(t))
  {
    var s := Strip(line);
    var tok := Scanner.TripleToken(t.src, t.dst, d, false);
    var rest := s[|tok|..];
    assert s == tok + rest;
    Scanner.MatchTripleOfToken(t.src, t.dst, d, false, rest);
    assert Scanner.MatchTriple(s, false).Some?;
    Scanner.StripWord(t.src);
    Scanner.StripWord(t.dst);
    assert s != [];
    assert WeightedEdge(Strip(t.src), Strip(t.dst), DigitsValue(d)) == t;
  }

  /** A weighted line is accepted, giving edge `t`, exactly when its stripped text begins
      with `<src,dst,d>` for a digit string `d` whose value is the weight. */
  lemma {:induction false} ParseWeightedLineIff(line: string, t: WeightedEdge)
    ensures ParseWeightedLine(line) == Ok(Some(t)) <==> StartsWithToken(line, t)
  {
    if ParseWeightedLine(line) == Ok(Some(t)) {
      ParseWeightedLineSound(line, t);
    }
    if StartsWithToken(line, t) {
      var d :| IsWord(t.src) && IsWord(t.dst) && IsDigits(d) && DigitsValue(d) == t.weight
               && Scanner.TripleToken(t.src, t.dst, d, false) <= Strip(line);
      ParseWeightedLineComplete(line, t, d);
    }
  }

  /** Text after the closing `>` is ignored: `re.match` only anchors at the start. */
  lemma TrailingTextAccepted(t: WeightedEdge, junk: string)
    requires IsWord(t.src) && IsWord(t.dst)
    ensures ParseWeightedLine(Scanner.TripleToken(t.src, t.dst, Decimal(t.weight), false) + junk)
            == Ok(Some(t))
  {
    var tok := Scanner.TripleToken(t.src, t.dst, Decimal(t.weight), false);
    StripKeepsHead(tok, junk);
    DecimalValue(t.weight);
    ParseWeightedLineComplete(tok + junk, t, Decimal(t.weight));
  }

  /** The weighted line pattern has no full-width alternative. */
  lemma FullWidthRejected(line: string)
    requires |Strip(line)| > 0 && Strip(line)[0] == '《'
    ensures ParseWeightedLine(line) == Err(MalformedLine)
  {
  }

  /** A weighted line is accepted when it is blank or, once stripped, begins with a
      `<a,b,d>` token. */
  ghost predicate WeightedLineAccepted(line: string) {
    AllSpace(line) || exists t :: StartsWithToken(line, t)
  }

  /** A weighted line gives no edge exactly when it is blank, and is refused exactly when it
      is neither blank nor begins with a token. */
  lemma {:induction false} ParseWeightedLineOutcome(line: string)
    ensures ParseWeightedLine(line) == Ok(None) <==> AllSpace(line)
    ensures ParseWeightedLine(line).Ok? <==> WeightedLineAccepted(line)
  {
    StripEmpty(line);
    var r := ParseWeightedLine(line);
    if r.Ok? && r.value.Some? {
      ParseWeightedLineSound(line, r.value.value);
    }
    if exists t :: StartsWithToken(line, t) {
      var t :| StartsWithToken(line, t);
      ParseWeightedLineIff(line, t);
    }
  }

  /** The weighted loop: the edges of the accepted lines in line order, every endpoint a
      word, or `MalformedLine` for the first line refused. */
  function ParseWeightedLines(lines: seq<string>): (r: Result<seq<WeightedEdge>>)
    ensures r.Ok? ==> |r.value| <= |lines|
    ensures r.Ok? ==> Scanner.WordWeightedEdges(r.value)
    ensures r.Err? ==> r.error == MalformedLine
  {
    if |lines| == 0 then Ok([])
    else match ParseWeightedLine(lines[0])
      case Err(f) => Err(f)
      case Ok(e) =>
        match ParseWeightedLines(lines[1..])
        case Err(f) => Err(f)
        case Ok(rest) => Ok(OptionToSeq(e) + rest)
  }

  /** The weighted loop succeeds exactly when every line is accepted. */
  lemma {:induction false} ParseWeightedLinesOk(lines: seq<string>)
    ensures ParseWeightedLines(lines).Ok? <==> forall k :: 0 <= k < |lines| ==> WeightedLineAccepted(lines[k])
  {
    if |lines| > 0 {
      ParseWeightedLineOutcome(lines[0]);
      ParseWeightedLinesOk(lines[1..]);
      assert forall k :: 1 <= k < |lines| ==> lines[k] == lines[1..][k - 1];
    }
  }

  /** On failure there is a first refused line `k`, every line before it is accepted, and
      the error is `MalformedLine`. */
  lemma {:induction false} ParseWeightedLinesError(lines: seq<string>) returns (k: nat)
    requires ParseWeightedLines(lines).Err?
    ensures k < |lines| && !WeightedLineAccepted(lines[k])
    ensures forall m :: 0 <= m < k ==> WeightedLineAccepted(lines[m])
    ensures ParseWeightedLines(lines).error == MalformedLine
  {
    ParseWeightedLineOutcome(lines[0]);
    if ParseWeightedLine(lines[0]).Err? {
      k := 0;
    } else {
      var j := ParseWeightedLinesError(lines[1..]);
      AcceptedBefore(lines, j);
      assert lines[j + 1] == lines[1..][j];
      k := j + 1;
    }
  }

  lemma AcceptedBefore(lines: seq<string>, k: nat)
    requires k < |lines| - 1 && WeightedLineAccepted(lines[0])
    requires forall m :: 0 <= m < k ==> WeightedLineAccepted(lines[1..][m])
    ensures forall m :: 0 <= m < k + 1 ==> WeightedLineAccepted(lines[m])
  {
    assert forall m :: 1 <= m < k + 1 ==> lines[m] == lines[1..][m - 1];
  }

  /** The weighted parse of busapptest.py. */
  function ParseWeightedEdges(text: string): (r: Result<seq<WeightedEdge>>)
    ensures r.Err? ==> r.error == MalformedLine
  {
    ParseWeightedLines(Split(text, "\n"))
  }

  lemma {:induction false} ParseBlankWeightedLines(lines: seq<string>)
    requires forall k :: 0 <= k < |lines| ==> AllSpace(lines[k])
    ensures ParseWeightedLines(lines) == Ok([])
  {
    if |lines| > 0 {
      StripEmpty(lines[0]);
      assert forall k :: 0 <= k < |lines| - 1 ==> lines[1..][k] == lines[k + 1];
      ParseBlankWeightedLines(lines[1..]);
    }
  }

  /** Empty or blank weighted input is not an error: it gives no edges at all. */
  lemma BlankWeightedInput(text: string)
    requires AllSpace(text)
    ensures ParseWeightedEdges(text) == Ok([])
  {
    SplitFromAllSpace(text, "\n", []);
    ParseBlankWeightedLines(Split(text, "\n"));
  }

  // ---------------------------------------------------------------- weighted round trip

  function WeightedLineOf(t: WeightedEdge): string {
    Scanner.TripleToken(t.src, t.dst, Decimal(t.weight), false)
  }

  function WeightedLinesOf(ts: seq<WeightedEdge>): (ls: seq<string>)
    ensures |ls| == |ts| && forall k :: 0 <= k < |ts| ==> ls[k] == WeightedLineOf(ts[k])
  {
    seq(|ts|, k requires 0 <= k < |ts| => WeightedLineOf(ts[k]))
  }

  /** An input text with one `<a,b,w>` line per weighted edge. */
  function RenderWeightedLines(ts: seq<WeightedEdge>): string {
    Join(WeightedLinesOf(ts), "\n")
  }

  lemma {:induction false} ParseWeightedLinesOf(ts: seq<WeightedEdge>)
    requires Scanner.WordWeightedEdges(ts)
    ensures ParseWeightedLines(WeightedLinesOf(ts)) == Ok(ts)
  {
    if |ts| > 0 {
      var ls := WeightedLinesOf(ts);
      WeightedLineParses(ts[0]);
      assert ParseWeightedLines(ls[1..]) == Ok(ts[1..]) by {
        assert ls[1..] == WeightedLinesOf(ts[1..]);
        ParseWeightedLinesOf(ts[1..]);
      }
      assert [ts[0]] + ts[1..] == ts;
    }
  }

  lemma {:induction false} WeightedLineParses(t: WeightedEdge)
    requires IsWord(t.src) && IsWord(t.dst)
    ensures ParseWeightedLine(WeightedLineOf(t)) == Ok(Some(t))
  {
    TrailingTextAccepted(t, []);
    assert WeightedLineOf(t) + [] == WeightedLineOf(t);
  }

  lemma NoNewlineInToken(t: WeightedEdge)
    requires IsWord(t.src) && IsWord(t.dst)
    ensures '\n' !in WeightedLineOf(t)
  {
    var d := Decimal(t.weight);
    var tok := WeightedLineOf(t);
    assert forall k :: 0 <= k < |tok| ==>
      tok[k] == if k == 0 then '<'
                else if k < 1 + |t.src| then t.src[k - 1]
                else if k == 1 + |t.src| then ','
                else if k < 2 + |t.src| + |t.dst| then t.dst[k - 2 - |t.src|]
                else if k == 2 + |t.src| + |t.dst| then ','
                else if k < 3 + |t.src| + |t.dst| + |d| then d[k - 3 - |t.src| - |t.dst|]
                else '>';
  }

  /** Parsing the rendered weighted lines gives back the weighted edges, in order. */
  lemma {:induction false} ParseRenderWeightedLines(ts: seq<WeightedEdge>)
    requires Scanner.WordWeightedEdges(ts)
    ensures ParseWeightedEdges(RenderWeightedLines(ts)) == Ok(ts)
  {
    if |ts| == 0 {
      assert Split([], "\n") == [[]];
      StripEmpty([]);
    } else {
      var ls := WeightedLinesOf(ts);
      forall k | 0 <= k < |ls| ensures '\n' !in ls[k] {
        NoNewlineInToken(ts[k]);
      }
      SplitJoin(ls, "\n");
      ParseWeightedLinesOf(ts);
    }
  }
}
