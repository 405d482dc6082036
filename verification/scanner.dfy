/** The regular-expression edge scanner of busapp.py: `re.findall` with the patterns
    `<(\w+),(\w+)>|《(\w+),(\w+)》` (unweighted) and `<(\w+),(\w+),(\d+)>|《(\w+),(\w+),(\d+)》`
    (weighted), followed by the loop that turns the group tuples into edges.

    A `\w+` group is always followed by `,`, `>` or `》` and a `\d+` group by `>` or `》`, none
    of which the group's class matches, so the greedy groups never backtrack: the match at a
    position, if any, is unique and found by taking maximal runs. */
module Scanner {
  import opened Results
  import opened Text
  import opened Graphs

  /** The two character classes the patterns repeat: `\w` and `\d`. */
  datatype CharClass = WordClass | DigitClass

  predicate InClass(cls: CharClass, c: char) {
    match cls
    case WordClass => IsWordChar(c)
    case DigitClass => IsDigit(c)
  }

  /** Length of the longest prefix of `s` whose characters satisfy `P`: the extent of a greedy
      `\w+` or `\d+` run. */
  function Span(s: string, cls: CharClass): (n: nat)
    ensures n <= |s|
  {
    if |s| > 0 && InClass(cls, s[0]) then 1 + Span(s[1..], cls) else 0
  }

  /** The run `Span` measures is all in the class and cannot be extended. */
  lemma {:induction false} SpanIsMaximalRun(s: string, cls: CharClass)
    ensures forall k :: 0 <= k < Span(s, cls) ==> InClass(cls, s[k])
    ensures Span(s, cls) == |s| || !InClass(cls, s[Span(s, cls)])
  {
    if |s| > 0 && InClass(cls, s[0]) {
      SpanIsMaximalRun(s[1..], cls);
      forall k | 1 <= k < Span(s, cls) ensures InClass(cls, s[k]) {
        assert s[k] == s[1..][k - 1];
      }
    }
  }

  lemma {:induction false} SpanOfRun(w: string, t: string, cls: CharClass)
    requires forall k :: 0 <= k < |w| ==> InClass(cls, w[k])
    requires |t| == 0 || !InClass(cls, t[0])
    ensures Span(w + t, cls) == |w|
  {
    if |w| > 0 {
      assert (w + t)[0] == w[0] && (w + t)[1..] == w[1..] + t;
      SpanOfRun(w[1..], t, cls);
    } else {
      assert w + t == t;
    }
  }

  /** Opening and closing characters of the two accepted bracket styles. */
  function Open(fullWidth: bool): char { if fullWidth then '《' else '<' }
  function Close(fullWidth: bool): char { if fullWidth then '》' else '>' }

  /** The text `<a,b>` (or `《a,b》`). */
  function PairToken(a: string, b: string, fullWidth: bool): string {
    [Open(fullWidth)] + a + [','] + b + [Close(fullWidth)]
  }

  /** The text `<a,b,digits>` (or `《a,b,digits》`). */
  function TripleToken(a: string, b: string, digits: string, fullWidth: bool): string {
    [Open(fullWidth)] + a + [','] + b + [','] + digits + [Close(fullWidth)]
  }

  datatype PairMatch = PairMatch(a: string, b: string, len: nat)

  datatype TripleMatch = TripleMatch(a: string, b: string, digits: string, len: nat)

  /** A greedy non-empty run of `P`-characters followed by the character `delim`, at the start
      of `s`: the run and what follows the delimiter. */
  function RunThen(s: string, cls: CharClass, delim: char): (r: Option<(string, string)>)
    ensures r.Some? ==>
              && |r.value.0| > 0 && (forall k :: 0 <= k < |r.value.0| ==> InClass(cls, r.value.0[k]))
              && |r.value.0| + 1 + |r.value.1| == |s|
  {
    var n := Span(s, cls);
    SpanIsMaximalRun(s, cls);
    if n == 0 || n == |s| || s[n] != delim then None
    else Some((s[..n], s[n + 1..]))
  }

  lemma RunThenSplits(s: string, cls: CharClass, delim: char)
    ensures RunThen(s, cls, delim).Some? ==>
              s == RunThen(s, cls, delim).value.0 + [delim] + RunThen(s, cls, delim).value.1
  {
    var n := Span(s, cls);
    if !(n == 0 || n == |s| || s[n] != delim) {
      assert s == s[..n] + [delim] + s[n + 1..];
    }
  }

  lemma RunThenOf(w: string, cls: CharClass, delim: char, rest: string)
    requires |w| > 0 && forall k :: 0 <= k < |w| ==> InClass(cls, w[k])
    requires !InClass(cls, delim)
    ensures RunThen(w + [delim] + rest, cls, delim) == Some((w, rest))
  {
    var s := w + [delim] + rest;
    assert s == w + ([delim] + rest);
    SpanOfRun(w, [delim] + rest, cls);
    assert s[..|w|] == w && s[|w| + 1..] == rest;
  }

  /** The common head of both patterns at the start of `s`: the opening bracket, a word, a
      comma, a second word and then `delim`; gives the two words and what follows. */
  function WordsThen(s: string, fullWidth: bool, delim: char): (r: Option<(string, string, string)>)
    ensures r.Some? ==>
              && IsWord(r.value.0) && IsWord(r.value.1) && |r.value.0| + |r.value.1| + 3 + |r.value.2| == |s|
  {
    if |s| == 0 || s[0] != Open(fullWidth) then None
    else match RunThen(s[1..], WordClass, ',')
      case None => None
      case Some((a, t)) =>
        match RunThen(t, WordClass, delim)
        case None => None
        case Some((b, u)) => Some((a, b, u))
  }

  lemma WordsThenSplits(s: string, fullWidth: bool, delim: char)
    ensures WordsThen(s, fullWidth, delim).Some? ==>
              var (a, b, u) := WordsThen(s, fullWidth, delim).value;
              s == [Open(fullWidth)] + a + [','] + b + [delim] + u
  {
    if WordsThen(s, fullWidth, delim).Some? {
      var (a, t) := RunThen(s[1..], WordClass, ',').value;
      var (b, u) := RunThen(t, WordClass, delim).value;
      RunThenSplits(s[1..], WordClass, ',');
      RunThenSplits(t, WordClass, delim);
      JoinHead(s, a, t, b, delim, u);
    }
  }

  lemma JoinHead(s: string, a: string, t: string, b: string, delim: char, u: string)
    requires |s| > 0 && s[1..] == a + [','] + t && t == b + [delim] + u
    ensures s == [s[0]] + a + [','] + b + [delim] + u
  {
    assert s == [s[0]] + s[1..];
  }

  lemma WordsThenOf(a: string, b: string, fullWidth: bool, delim: char, rest: string)
    requires IsWord(a) && IsWord(b) && !IsWordChar(delim)
    ensures WordsThen([Open(fullWidth)] + a + [','] + b + [delim] + rest, fullWidth, delim)
            == Some((a, b, rest))
  {
    var s := [Open(fullWidth)] + a + [','] + b + [delim] + rest;
    var t := b + [delim] + rest;
    assert s[1..] == a + [','] + t;
    RunThenOf(a, WordClass, ',', t);
    RunThenOf(b, WordClass, delim, rest);
  }

  /** One alternative of the unweighted pattern, tried at the start of `s`: a match captures
      two words and consumes a non-empty prefix. `MatchPairIff` states exactly when it
      matches. */
  function MatchPair(s: string, fullWidth: bool): (r: Option<PairMatch>)
    ensures r.Some? ==> 0 < r.value.len <= |s| && IsWord(r.value.a) && IsWord(r.value.b)
  {
    match WordsThen(s, fullWidth, Close(fullWidth))
    case None => None
    case Some((a, b, u)) => Some(PairMatch(a, b, |s| - |u|))
  }

  /** One alternative of the weighted pattern, tried at the start of `s`: a match captures
      two words and a digit string. `MatchTripleIff` states exactly when it matches. */
  function MatchTriple(s: string, fullWidth: bool): (r: Option<TripleMatch>)
    ensures r.Some? ==>
              && 0 < r.value.len <= |s| && IsWord(r.value.a) && IsWord(r.value.b)
              && IsDigits(r.value.digits)
  {
    match WordsThen(s, fullWidth, ',')
    case None => None
    case Some((a, b, u)) =>
      match RunThen(u, DigitClass, Close(fullWidth))
      case None => None
      case Some((d, v)) => Some(TripleMatch(a, b, d, |s| - |v|))
  }

  lemma MatchPairOfToken(a: string, b: string, fullWidth: bool, rest: string)
    requires IsWord(a) && IsWord(b)
    ensures MatchPair(PairToken(a, b, fullWidth) + rest, fullWidth)
            == Some(PairMatch(a, b, |a| + |b| + 3))
  {
    WordsThenOf(a, b, fullWidth, Close(fullWidth), rest);
  }

  lemma MatchTripleOfToken(a: string, b: string, d: string, fullWidth: bool, rest: string)
    requires IsWord(a) && IsWord(b) && IsDigits(d)
    ensures MatchTriple(TripleToken(a, b, d, fullWidth) + rest, fullWidth)
            == Some(TripleMatch(a, b, d, |a| + |b| + |d| + 4))
  {
    var c := Close(fullWidth);
    var u := d + [c] + rest;
    var s := TripleToken(a, b, d, fullWidth) + rest;
    assert WordsThen(s, fullWidth, ',') == Some((a, b, u)) by {
      TripleTokenParts(a, b, d, fullWidth, rest);
      WordsThenOf(a, b, fullWidth, ',', u);
    }
    assert RunThen(u, DigitClass, c) == Some((d, rest)) by {
      RunThenOf(d, DigitClass, c, rest);
    }
    MatchTripleOfParts(s, fullWidth, a, b, u, d, rest, |a| + |b| + |d| + 4);
  }

  lemma MatchTripleOfParts(s: string, fullWidth: bool, a: string, b: string, u: string, d: string, v: string, n: nat)
    requires WordsThen(s, fullWidth, ',') == Some((a, b, u))
    requires RunThen(u, DigitClass, Close(fullWidth)) == Some((d, v))
    requires n == |s| - |v|
    ensures MatchTriple(s, fullWidth) == Some(TripleMatch(a, b, d, n))
  {
  }

  /** The unweighted alternative matches at the start of `s` exactly when `s` begins with a
      well-formed token, and then it reports that token's groups and length. */
  lemma MatchPairIff(s: string, fullWidth: bool, a: string, b: string, n: nat)
    ensures MatchPair(s, fullWidth) == Some(PairMatch(a, b, n))
            <==> n <= |s| && IsWord(a) && IsWord(b) && s[..n] == PairToken(a, b, fullWidth)
  {
    if MatchPair(s, fullWidth) == Some(PairMatch(a, b, n)) {
      MatchPairSplits(s, fullWidth);
    }
    if n <= |s| && IsWord(a) && IsWord(b) && s[..n] == PairToken(a, b, fullWidth) {
      MatchPairAtToken(s, fullWidth, a, b, n);
    }
  }

  lemma MatchPairSplits(s: string, fullWidth: bool)
    ensures MatchPair(s, fullWidth).Some? ==>
              var m := MatchPair(s, fullWidth).value;
              s[..m.len] == PairToken(m.a, m.b, fullWidth)
  {
    if MatchPair(s, fullWidth).Some? {
      WordsThenSplits(s, fullWidth, Close(fullWidth));
      var w := WordsThen(s, fullWidth, Close(fullWidth)).value;
      assert s == PairToken(w.0, w.1, fullWidth) + w.2;
    }
  }

  lemma MatchPairAtToken(s: string, fullWidth: bool, a: string, b: string, n: nat)
    requires n <= |s| && IsWord(a) && IsWord(b) && s[..n] == PairToken(a, b, fullWidth)
    ensures MatchPair(s, fullWidth) == Some(PairMatch(a, b, n))
  {
    PrefixThenRest(s, PairToken(a, b, fullWidth), n);
    MatchPairOfToken(a, b, fullWidth, s[n..]);
  }

  lemma MatchTripleSplits(s: string, fullWidth: bool)
    ensures MatchTriple(s, fullWidth).Some? ==>
              var m := MatchTriple(s, fullWidth).value;
              s[..m.len] == TripleToken(m.a, m.b, m.digits, fullWidth)
  {
    if MatchTriple(s, fullWidth).Some? {
      var w := WordsThen(s, fullWidth, ',').value;
      var r := RunThen(w.2, DigitClass, Close(fullWidth)).value;
      WordsThenSplits(s, fullWidth, ',');
      RunThenSplits(w.2, DigitClass, Close(fullWidth));
      TripleJoin(s, fullWidth, w.0, w.1, w.2, r.0, r.1);
    }
  }

  lemma TripleJoin(s: string, fullWidth: bool, a: string, b: string, u: string, d: string, v: string)
    requires s == [Open(fullWidth)] + a + [','] + b + [','] + u
    requires u == d + [Close(fullWidth)] + v
    ensures |v| <= |s| && s[..|s| - |v|] == TripleToken(a, b, d, fullWidth)
  {
    assert s == TripleToken(a, b, d, fullWidth) + v;
  }

  /** The weighted alternative matches at the start of `s` exactly when `s` begins with a
      well-formed weighted token. */
  lemma MatchTripleIff(s: string, fullWidth: bool, a: string, b: string, d: string, n: nat)
    ensures MatchTriple(s, fullWidth) == Some(TripleMatch(a, b, d, n))
            <==> n <= |s| && IsWord(a) && IsWord(b) && IsDigits(d)
                 && s[..n] == TripleToken(a, b, d, fullWidth)
  {
    if MatchTriple(s, fullWidth) == Some(TripleMatch(a, b, d, n)) {
      MatchTripleSplits(s, fullWidth);
    }
    if n <= |s| && IsWord(a) && IsWord(b) && IsDigits(d) && s[..n] == TripleToken(a, b, d, fullWidth) {
      MatchTripleAtToken(s, fullWidth, a, b, d, n);
    }
  }

  lemma PrefixThenRest(s: string, t: string, n: nat)
    requires n <= |s| && s[..n] == t
    ensures s == t + s[n..]
  {
    assert s == s[..n] + s[n..];
  }

  lemma MatchTripleAtToken(s: string, fullWidth: bool, a: string, b: string, d: string, n: nat)
    requires n <= |s| && IsWord(a) && IsWord(b) && IsDigits(d)
    requires s[..n] == TripleToken(a, b, d, fullWidth)
    ensures MatchTriple(s, fullWidth) == Some(TripleMatch(a, b, d, n))
  {
    PrefixThenRest(s, TripleToken(a, b, d, fullWidth), n);
    MatchTripleOfToken(a, b, d, fullWidth, s[n..]);
  }

  // ---------------------------------------------------------------- re.findall

  /** One tuple of `re.findall` for the unweighted pattern: the groups of the alternative
      that did not take part are empty strings. */
  datatype PairGroups = PairGroups(g1: string, g2: string, g3: string, g4: string)

  datatype TripleGroups = TripleGroups(g1: string, g2: string, g3: string, g4: string, g5: string, g6: string)

  /** Exactly one alternative filled its groups, with a word in each. */
  predicate PairFilled(m: PairGroups) {
    || (IsWord(m.g1) && IsWord(m.g2) && m.g3 == [] && m.g4 == [])
    || (m.g1 == [] && m.g2 == [] && IsWord(m.g3) && IsWord(m.g4))
  }

  predicate TripleFilled(m: TripleGroups) {
    || (IsWord(m.g1) && IsWord(m.g2) && IsDigits(m.g3) && m.g4 == [] && m.g5 == [] && m.g6 == [])
    || (m.g1 == [] && m.g2 == [] && m.g3 == [] && IsWord(m.g4) && IsWord(m.g5) && IsDigits(m.g6))
  }

  /** `re.findall(r'<(\w+),(\w+)>|《(\w+),(\w+)》', s)`: scanning left to right, a match is
      recorded and scanning resumes after it; where neither alternative matches, scanning
      moves on by one character. Every tuple has exactly one alternative filled. */
  function FindAllPairs(s: string): (ms: seq<PairGroups>)
    ensures forall k :: 0 <= k < |ms| ==> PairFilled(ms[k])
    decreases |s|
  {
    if |s| == 0 then []
    else match MatchPair(s, false)
      case Some(m) => [PairGroups(m.a, m.b, [], [])] + FindAllPairs(s[m.len..])
      case None =>
        match MatchPair(s, true)
        case Some(m) => [PairGroups([], [], m.a, m.b)] + FindAllPairs(s[m.len..])
        case None => FindAllPairs(s[1..])
  }

  /** `re.findall(r'<(\w+),(\w+),(\d+)>|《(\w+),(\w+),(\d+)》', s)`. */
  function FindAllTriples(s: string): (ms: seq<TripleGroups>)
    ensures forall k :: 0 <= k < |ms| ==> TripleFilled(ms[k])
    decreases |s|
  {
    if |s| == 0 then []
    else match MatchTriple(s, false)
      case Some(m) => [TripleGroups(m.a, m.b, m.digits, [], [], [])] + FindAllTriples(s[m.len..])
      case None =>
        match MatchTriple(s, true)
        case Some(m) => [TripleGroups([], [], [], m.a, m.b, m.digits)] + FindAllTriples(s[m.len..])
        case None => FindAllTriples(s[1..])
  }

  // ---------------------------------------------------------------- from groups to edges

  /** The edge a well-filled tuple names. */
  function PairOf(m: PairGroups): (e: Edge)
    ensures PairFilled(m) ==> IsWord(e.src) && IsWord(e.dst)
  {
    if m.g1 != [] then Edge(m.g1, m.g2) else Edge(m.g3, m.g4)
  }

  function TripleOf(m: TripleGroups): (t: WeightedEdge)
    requires TripleFilled(m)
    ensures IsWord(t.src) && IsWord(t.dst)
  {
    if m.g1 != [] then WeightedEdge(m.g1, m.g2, DigitsValue(m.g3))
    else WeightedEdge(m.g4, m.g5, DigitsValue(m.g6))
  }

  /** Stripping a word changes nothing: word characters are not white space. */
  lemma StripWord(w: string)
    ensures IsWord(w) ==> Strip(w) == w
  {
    if IsWord(w) { StripNoSpace(w); }
  }

  /** Python's `int(s)` on the text a `\d+` group can hold; anything else raises ValueError. */
  function IntOf(s: string): (r: Result<nat>)
    ensures IsDigits(s) ==> r == Ok(DigitsValue(s))
  {
    if IsDigits(s) then Ok(DigitsValue(s)) else Err(ValueError)
  }

  /** One pass of the loop in `generateGraph` (busapp.py): group 1 filled gives
      `(a.strip(), b.strip())`, else group 3 filled gives `(c.strip(), d.strip())`, else the
      warning. On a tuple with one alternative filled it succeeds and stripping changes
      nothing. */
  function EdgeFromGroups(m: PairGroups): (r: Result<Edge>)
    ensures PairFilled(m) ==> r == Ok(PairOf(m))
  {
    StripWord(m.g1); StripWord(m.g2); StripWord(m.g3); StripWord(m.g4);
    if m.g1 != [] then Ok(Edge(Strip(m.g1), Strip(m.g2)))
    else if m.g3 != [] then Ok(Edge(Strip(m.g3), Strip(m.g4)))
    else Err(MalformedEdge)
  }

  /** One pass of the loop in `weightedGraph` (busapp.py), with `int()` on the digit group. */
  function WeightedEdgeFromGroups(m: TripleGroups): (r: Result<WeightedEdge>)
    ensures TripleFilled(m) ==> r == Ok(TripleOf(m))
  {
    StripWord(m.g1); StripWord(m.g2); StripWord(m.g4); StripWord(m.g5);
    if m.g1 != [] then
      var w :- IntOf(m.g3);
      Ok(WeightedEdge(Strip(m.g1), Strip(m.g2), w))
    else if m.g4 != [] then
      var w :- IntOf(m.g6);
      Ok(WeightedEdge(Strip(m.g4), Strip(m.g5), w))
    else Err(MalformedEdge)
  }

  /** The whole loop over the tuples, stopping at the first failing one. On tuples with one
      alternative filled, which is all `re.findall` produces, it always succeeds and edge `k`
      is tuple `k`'s pair. */
  function EdgesFromMatches(ms: seq<PairGroups>): (r: Result<seq<Edge>>)
    ensures (forall k :: 0 <= k < |ms| ==> PairFilled(ms[k])) ==>
              && r.Ok? && |r.value| == |ms|
              && forall k :: 0 <= k < |ms| ==> r.value[k] == PairOf(ms[k])
  {
    if |ms| == 0 then Ok([])
    else
      var e :- EdgeFromGroups(ms[0]);
      var rest :- EdgesFromMatches(ms[1..]);
      Ok([e] + rest)
  }

  function WeightedEdgesFromMatches(ms: seq<TripleGroups>): (r: Result<seq<WeightedEdge>>)
    ensures (forall k :: 0 <= k < |ms| ==> TripleFilled(ms[k])) ==>
              && r.Ok? && |r.value| == |ms|
              && forall k :: 0 <= k < |ms| ==> r.value[k] == TripleOf(ms[k])
  {
    if |ms| == 0 then Ok([])
    else
      var t :- WeightedEdgeFromGroups(ms[0]);
      var rest :- WeightedEdgesFromMatches(ms[1..]);
      Ok([t] + rest)
  }

  /** The parsing half of `generateGraph` (busapp.py): the only failure is finding no match
      at all; otherwise there is one edge per match, in text order, each between two words. */
  function ScanEdges(text: string): (r: Result<seq<Edge>>)
    ensures r.Err? <==> FindAllPairs(text) == []
    ensures r.Err? ==> r.error == NoMatches
    ensures r.Ok? ==>
              && |r.value| == |FindAllPairs(text)|
              && forall k :: 0 <= k < |r.value| ==>
                   r.value[k] == PairOf(FindAllPairs(text)[k])
                   && IsWord(r.value[k].src) && IsWord(r.value[k].dst)
  {
    var ms := FindAllPairs(text);
    if |ms| == 0 then Err(NoMatches) else EdgesFromMatches(ms)
  }

  /** The parsing half of `weightedGraph` (busapp.py). */
  function ScanWeightedEdges(text: string): (r: Result<seq<WeightedEdge>>)
    ensures r.Err? <==> FindAllTriples(text) == []
    ensures r.Err? ==> r.error == NoMatches
    ensures r.Ok? ==>
              && |r.value| == |FindAllTriples(text)|
              && forall k :: 0 <= k < |r.value| ==>
                   r.value[k] == TripleOf(FindAllTriples(text)[k])
                   && IsWord(r.value[k].src) && IsWord(r.value[k].dst)
  {
    var ms := FindAllTriples(text);
    if |ms| == 0 then Err(NoMatches) else WeightedEdgesFromMatches(ms)
  }

  // ---------------------------------------------------------------- round trips

  /** Text in which neither pattern can start a match. */
  predicate NoOpen(s: string) {
    forall k :: 0 <= k < |s| ==> s[k] != '<' && s[k] != '《'
  }

  lemma WordNoOpen(w: string)
    requires IsWord(w) || IsDigits(w)
    ensures NoOpen(w)
  {
  }

  /** Characters that cannot open a match are skipped one by one and contribute nothing. */
  lemma {:induction false} SkipPairs(junk: string, rest: string)
    requires NoOpen(junk)
    ensures FindAllPairs(junk + rest) == FindAllPairs(rest)
  {
    if |junk| > 0 {
      var s := junk + rest;
      assert s[0] == junk[0] && s[1..] == junk[1..] + rest;
      assert MatchPair(s, false) == None && MatchPair(s, true) == None;
      SkipPairs(junk[1..], rest);
    } else {
      assert junk + rest == rest;
    }
  }

  lemma {:induction false} SkipTriples(junk: string, rest: string)
    requires NoOpen(junk)
    ensures FindAllTriples(junk + rest) == FindAllTriples(rest)
  {
    if |junk| > 0 {
      var s := junk + rest;
      assert s[0] == junk[0] && s[1..] == junk[1..] + rest;
      assert MatchTriple(s, false) == None && MatchTriple(s, true) == None;
      SkipTriples(junk[1..], rest);
    } else {
      assert junk + rest == rest;
    }
  }

  /** The tuple `re.findall` reports for a token in the given bracket style. */
  function PairGroupsOf(e: Edge, fullWidth: bool): PairGroups {
    if fullWidth then PairGroups([], [], e.src, e.dst) else PairGroups(e.src, e.dst, [], [])
  }

  function TripleGroupsOf(t: WeightedEdge, fullWidth: bool): TripleGroups {
    var d := Decimal(t.weight);
    if fullWidth then TripleGroups([], [], [], t.src, t.dst, d)
    else TripleGroups(t.src, t.dst, d, [], [], [])
  }

  /** A well-formed token is reported as one tuple and scanning resumes right after it. */
  lemma FindAllPairsToken(e: Edge, fullWidth: bool, rest: string)
    requires IsWord(e.src) && IsWord(e.dst)
    ensures FindAllPairs(PairToken(e.src, e.dst, fullWidth) + rest)
            == [PairGroupsOf(e, fullWidth)] + FindAllPairs(rest)
  {
    var tok := PairToken(e.src, e.dst, fullWidth);
    var s := tok + rest;
    MatchPairOfToken(e.src, e.dst, fullWidth, rest);
    assert s[|tok|..] == rest;
    if fullWidth {
      assert s[0] == '《';
      assert MatchPair(s, false) == None;
    }
  }

  lemma FindAllTriplesToken(t: WeightedEdge, fullWidth: bool, rest: string)
    requires IsWord(t.src) && IsWord(t.dst)
    ensures FindAllTriples(TripleToken(t.src, t.dst, Decimal(t.weight), fullWidth) + rest)
            == [TripleGroupsOf(t, fullWidth)] + FindAllTriples(rest)
  {
    var d := Decimal(t.weight);
    var tok := TripleToken(t.src, t.dst, d, fullWidth);
    var s := tok + rest;
    MatchTripleOfToken(t.src, t.dst, d, fullWidth, rest);
    assert s[|tok|..] == rest;
    if fullWidth {
      assert s[0] == '《';
      assert MatchTriple(s, false) == None;
    }
  }

  lemma NoOpenConcat(a: string, b: string)
    requires NoOpen(a) && NoOpen(b)
    ensures NoOpen(a + b)
  {
    assert forall k :: 0 <= k < |a + b| ==> (a + b)[k] == if k < |a| then a[k] else b[k - |a|];
  }

  /** The head of a pattern can be followed by only one delimiter. */
  lemma WordsThenDelim(s: string, fullWidth: bool, d1: char, d2: char)
    requires WordsThen(s, fullWidth, d1).Some? && WordsThen(s, fullWidth, d2).Some?
    ensures d1 == d2
  {
  }

  /** Where neither alternative matches, `re.findall` moves on by one character. */
  lemma FindAllPairsStep(s: string)
    requires |s| > 0 && MatchPair(s, false) == None && MatchPair(s, true) == None
    ensures FindAllPairs(s) == FindAllPairs(s[1..])
  {
  }

  lemma FindAllTriplesStep(s: string)
    requires |s| > 0 && MatchTriple(s, false) == None && MatchTriple(s, true) == None
    ensures FindAllTriples(s) == FindAllTriples(s[1..])
  {
  }

  /** A text opening with the head of the weighted pattern matches neither unweighted
      alternative. */
  lemma NoPairAtTripleHead(s: string, fullWidth: bool)
    requires WordsThen(s, fullWidth, ',').Some?
    ensures MatchPair(s, false) == None && MatchPair(s, true) == None
  {
    if WordsThen(s, fullWidth, Close(fullWidth)).Some? {
      WordsThenDelim(s, fullWidth, ',', Close(fullWidth));
    }
    assert s[0] == Open(fullWidth);
  }

  /** A text opening with the head of the unweighted pattern, closed, matches neither
      weighted alternative. */
  lemma NoTripleAtPairHead(s: string, fullWidth: bool)
    requires WordsThen(s, fullWidth, Close(fullWidth)).Some?
    ensures MatchTriple(s, false) == None && MatchTriple(s, true) == None
  {
    if WordsThen(s, fullWidth, ',').Some? {
      WordsThenDelim(s, fullWidth, ',', Close(fullWidth));
    }
    assert s[0] == Open(fullWidth);
  }

  /** The pieces of a weighted token followed by more text. */
  lemma TripleTokenParts(a: string, b: string, d: string, fullWidth: bool, rest: string)
    ensures TripleToken(a, b, d, fullWidth) + rest
            == [Open(fullWidth)] + a + [','] + b + [','] + (d + [Close(fullWidth)] + rest)
    ensures (TripleToken(a, b, d, fullWidth) + rest)[1..]
            == (a + [','] + b + [','] + d + [Close(fullWidth)]) + rest
  {
  }

  lemma PairTokenParts(a: string, b: string, fullWidth: bool, rest: string)
    ensures PairToken(a, b, fullWidth) + rest == [Open(fullWidth)] + a + [','] + b + [Close(fullWidth)] + rest
    ensures (PairToken(a, b, fullWidth) + rest)[1..] == (a + [','] + b + [Close(fullWidth)]) + rest
  {
  }

  /** What follows the opening bracket of a token cannot open a match. */
  lemma TripleBodyNoOpen(a: string, b: string, d: string, c: char)
    requires NoOpen(a) && NoOpen(b) && NoOpen(d) && c != '<' && c != '《'
    ensures NoOpen(a + [','] + b + [','] + d + [c])
  {
    NoOpenConcat(a, [',']);
    NoOpenConcat(a + [','], b);
    NoOpenConcat(a + [','] + b, [',']);
    NoOpenConcat(a + [','] + b + [','], d);
    NoOpenConcat(a + [','] + b + [','] + d, [c]);
  }

  lemma PairBodyNoOpen(a: string, b: string, c: char)
    requires NoOpen(a) && NoOpen(b) && c != '<' && c != '《'
    ensures NoOpen(a + [','] + b + [c])
  {
    NoOpenConcat(a, [',']);
    NoOpenConcat(a + [','], b);
    NoOpenConcat(a + [','] + b, [c]);
  }

  /** A weighted token never matches the unweighted pattern: after the second word comes a
      comma, not the closing bracket. */
  lemma PairSkipsTripleToken(t: WeightedEdge, fullWidth: bool, rest: string)
    requires IsWord(t.src) && IsWord(t.dst)
    ensures FindAllPairs(TripleToken(t.src, t.dst, Decimal(t.weight), fullWidth) + rest)
            == FindAllPairs(rest)
  {
    var d := Decimal(t.weight);
    var c := Close(fullWidth);
    var s := TripleToken(t.src, t.dst, d, fullWidth) + rest;
    TripleTokenParts(t.src, t.dst, d, fullWidth, rest);
    WordsThenOf(t.src, t.dst, fullWidth, ',', d + [c] + rest);
    NoPairAtTripleHead(s, fullWidth);
    FindAllPairsStep(s);
    WordNoOpen(t.src); WordNoOpen(t.dst); WordNoOpen(d);
    TripleBodyNoOpen(t.src, t.dst, d, c);
    SkipPairs(t.src + [','] + t.dst + [','] + d + [c], rest);
  }

  /** An unweighted token never matches the weighted pattern: after the second word comes
      the closing bracket, not a comma. */
  lemma TripleSkipsPairToken(e: Edge, fullWidth: bool, rest: string)
    requires IsWord(e.src) && IsWord(e.dst)
    ensures FindAllTriples(PairToken(e.src, e.dst, fullWidth) + rest) == FindAllTriples(rest)
  {
    var c := Close(fullWidth);
    var s := PairToken(e.src, e.dst, fullWidth) + rest;
    PairTokenParts(e.src, e.dst, fullWidth, rest);
    WordsThenOf(e.src, e.dst, fullWidth, c, rest);
    NoTripleAtPairHead(s, fullWidth);
    FindAllTriplesStep(s);
    WordNoOpen(e.src); WordNoOpen(e.dst);
    PairBodyNoOpen(e.src, e.dst, c);
    SkipTriples(e.src + [','] + e.dst + [c], rest);
  }

  /** Every endpoint is a non-empty run of word characters, as the pattern requires. */
  predicate WordEdges(es: seq<Edge>) {
    forall k :: 0 <= k < |es| ==> IsWord(es[k].src) && IsWord(es[k].dst)
  }

  predicate WordWeightedEdges(ts: seq<WeightedEdge>) {
    forall k :: 0 <= k < |ts| ==> IsWord(ts[k].src) && IsWord(ts[k].dst)
  }

  /** Every vertex built from word-ended edges is a word, so none is the empty string, and
      one edge is enough for the graph to have a vertex. */
  lemma WeightedWordNodes(ts: seq<WeightedEdge>)
    requires WordWeightedEdges(ts)
    ensures forall v :: v in BuildWeighted(ts).nodes ==> IsWord(v)
    ensures [] !in BuildWeighted(ts).nodes
    ensures |ts| > 0 ==> |BuildWeighted(ts).nodes| > 0
  {
    forall v | v in BuildWeighted(ts).nodes
      ensures IsWord(v)
    {
      WeightedWordNode(ts, v);
    }
    if |ts| > 0 {
      FirstPairIsNode(ts);
    }
  }

  lemma FirstPairIsNode(ts: seq<WeightedEdge>)
    requires |ts| > 0
    ensures ts[0].src in BuildWeighted(ts).nodes
  {
    var es := Pairs(ts);
    assert es[0] in Build(es).edges;
  }

  lemma WeightedWordNode(ts: seq<WeightedEdge>, v: Vertex)
    requires WordWeightedEdges(ts) && v in Build(Pairs(ts)).nodes
    ensures IsWord(v)
  {
    var es := Pairs(ts);
    var e := NodeOfSomeEdge(es, v);
    var k :| 0 <= k < |es| && es[k] == e;
    assert e == ts[k].Pair();
  }

  /** An input file listing the edges one token per line, all in one bracket style. */
  function RenderEdges(es: seq<Edge>, fullWidth: bool): string {
    if |es| == 0 then []
    else PairToken(es[0].src, es[0].dst, fullWidth) + "\n" + RenderEdges(es[1..], fullWidth)
  }

  function RenderWeightedEdges(ts: seq<WeightedEdge>, fullWidth: bool): string {
    if |ts| == 0 then []
    else TripleToken(ts[0].src, ts[0].dst, Decimal(ts[0].weight), fullWidth) + "\n"
         + RenderWeightedEdges(ts[1..], fullWidth)
  }

  lemma {:induction false} FindAllRenderEdges(es: seq<Edge>, fullWidth: bool)
    requires WordEdges(es)
    ensures |FindAllPairs(RenderEdges(es, fullWidth))| == |es|
    ensures forall k :: 0 <= k < |es| ==>
              FindAllPairs(RenderEdges(es, fullWidth))[k] == PairGroupsOf(es[k], fullWidth)
  {
    if |es| > 0 {
      var rest := RenderEdges(es[1..], fullWidth);
      var tok := PairToken(es[0].src, es[0].dst, fullWidth);
      assert RenderEdges(es, fullWidth) == tok + ("\n" + rest);
      FindAllPairsToken(es[0], fullWidth, "\n" + rest);
      SkipPairs("\n", rest);
      FindAllRenderEdges(es[1..], fullWidth);
    }
  }

  lemma {:induction false} FindAllRenderWeightedEdges(ts: seq<WeightedEdge>, fullWidth: bool)
    requires WordWeightedEdges(ts)
    ensures |FindAllTriples(RenderWeightedEdges(ts, fullWidth))| == |ts|
    ensures forall k :: 0 <= k < |ts| ==>
              FindAllTriples(RenderWeightedEdges(ts, fullWidth))[k] == TripleGroupsOf(ts[k], fullWidth)
  {
    if |ts| > 0 {
      var rest := RenderWeightedEdges(ts[1..], fullWidth);
      var tok := TripleToken(ts[0].src, ts[0].dst, Decimal(ts[0].weight), fullWidth);
      assert RenderWeightedEdges(ts, fullWidth) == tok + ("\n" + rest);
      FindAllTriplesToken(ts[0], fullWidth, "\n" + rest);
      SkipTriples("\n", rest);
      FindAllRenderWeightedEdges(ts[1..], fullWidth);
    }
  }

  lemma PairOfGroupsOf(e: Edge, fullWidth: bool)
    requires IsWord(e.src) && IsWord(e.dst)
    ensures PairFilled(PairGroupsOf(e, fullWidth)) && PairOf(PairGroupsOf(e, fullWidth)) == e
  {
  }

  lemma TripleOfGroupsOf(t: WeightedEdge, fullWidth: bool)
    requires IsWord(t.src) && IsWord(t.dst)
    ensures TripleFilled(TripleGroupsOf(t, fullWidth)) && TripleOf(TripleGroupsOf(t, fullWidth)) == t
  {
    DecimalValue(t.weight);
  }

  /** Scanning a rendered edge list gives the list back, in either bracket style. */
  lemma {:induction false} ScanRenderEdges(es: seq<Edge>, fullWidth: bool)
    requires WordEdges(es)
    ensures ScanEdges(RenderEdges(es, fullWidth)) == if |es| == 0 then Err(NoMatches) else Ok(es)
  {
    FindAllRenderEdges(es, fullWidth);
    if |es| > 0 {
      var ms := FindAllPairs(RenderEdges(es, fullWidth));
      var r := ScanEdges(RenderEdges(es, fullWidth));
      assert r.Ok? && |r.value| == |es|;
      forall k | 0 <= k < |es| ensures r.value[k] == es[k] {
        assert ms[k] == PairGroupsOf(es[k], fullWidth);
        PairOfGroupsOf(es[k], fullWidth);
      }
      assert r.value == es;
    }
  }

  /** Scanning a rendered weighted edge list gives the list back: `int()` of the decimal
      text of a weight is that weight. */
  lemma {:induction false} ScanRenderWeightedEdges(ts: seq<WeightedEdge>, fullWidth: bool)
    requires WordWeightedEdges(ts)
    ensures ScanWeightedEdges(RenderWeightedEdges(ts, fullWidth))
            == if |ts| == 0 then Err(NoMatches) else Ok(ts)
  {
    FindAllRenderWeightedEdges(ts, fullWidth);
    if |ts| > 0 {
      var ms := FindAllTriples(RenderWeightedEdges(ts, fullWidth));
      var r := ScanWeightedEdges(RenderWeightedEdges(ts, fullWidth));
      assert r.Ok? && |r.value| == |ts|;
      forall k | 0 <= k < |ts| ensures r.value[k] == ts[k] {
        assert ms[k] == TripleGroupsOf(ts[k], fullWidth);
        TripleOfGroupsOf(ts[k], fullWidth);
      }
      assert r.value == ts;
    }
  }

  /** A file of weighted tokens yields no unweighted edge at all, and vice versa. */
  lemma {:induction false} ScanEdgesOfWeightedText(ts: seq<WeightedEdge>, fullWidth: bool)
    requires WordWeightedEdges(ts)
    ensures ScanEdges(RenderWeightedEdges(ts, fullWidth)) == Err(NoMatches)
  {
    if |ts| > 0 {
      var rest := RenderWeightedEdges(ts[1..], fullWidth);
      var tok := TripleToken(ts[0].src, ts[0].dst, Decimal(ts[0].weight), fullWidth);
      assert RenderWeightedEdges(ts, fullWidth) == tok + ("\n" + rest);
      PairSkipsTripleToken(ts[0], fullWidth, "\n" + rest);
      SkipPairs("\n", rest);
      ScanEdgesOfWeightedText(ts[1..], fullWidth);
    }
  }

  lemma {:induction false} ScanWeightedEdgesOfText(es: seq<Edge>, fullWidth: bool)
    requires WordEdges(es)
    ensures ScanWeightedEdges(RenderEdges(es, fullWidth)) == Err(NoMatches)
  {
    if |es| > 0 {
      var rest := RenderEdges(es[1..], fullWidth);
      var tok := PairToken(es[0].src, es[0].dst, fullWidth);
      assert RenderEdges(es, fullWidth) == tok + ("\n" + rest);
      TripleSkipsPairToken(es[0], fullWidth, "\n" + rest);
      SkipTriples("\n", rest);
      ScanWeightedEdgesOfText(es[1..], fullWidth);
    }
  }
}
