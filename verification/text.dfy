/** The Python string operations the parsers rely on, over `string` (= `seq<char>`):
    character classes of `re`, `str.strip()`, `str.split(sep)`, `sep.join(xs)`,
    `str.replace(c, '')` and `int(digits)`. */
module Text {

  /** Python's `str.isspace()`: the characters `str.strip()` removes. */
  predicate IsSpace(c: char) {
    c == ' ' || c == '\t' || c == '\n' || c == '\r' || c == '\U{000B}' || c == '\U{000C}'
    || ('\U{001C}' <= c <= '\U{001F}') || c == '\U{0085}' || c == '\U{00A0}' || c == '\U{1680}'
    || ('\U{2000}' <= c <= '\U{200A}') || c == '\U{2028}' || c == '\U{2029}' || c == '\U{202F}'
    || c == '\U{205F}' || c == '\U{3000}'
  }

  /** A character matched by `\w`: ASCII letters, digits and underscore, and the CJK unified
      ideographs (station names are typically written in Chinese). */
  predicate IsWordChar(c: char) {
    ('a' <= c <= 'z') || ('A' <= c <= 'Z') || ('0' <= c <= '9') || c == '_'
    || ('\U{4E00}' <= c <= '\U{9FFF}')
  }

  /** A character matched by `\d` (ASCII decimal digits). */
  predicate IsDigit(c: char) {
    '0' <= c <= '9'
  }

  /** A non-empty run of word characters: what one `(\w+)` group captures. */
  predicate IsWord(s: string) {
    |s| > 0 && forall k :: 0 <= k < |s| ==> IsWordChar(s[k])
  }

  /** A non-empty run of decimal digits: what one `(\d+)` group captures. */
  predicate IsDigits(s: string) {
    |s| > 0 && forall k :: 0 <= k < |s| ==> IsDigit(s[k])
  }

  predicate NoSpace(s: string) {
    forall k :: 0 <= k < |s| ==> !IsSpace(s[k])
  }

  predicate AllSpace(s: string) {
    forall k :: 0 <= k < |s| ==> IsSpace(s[k])
  }

  // ---------------------------------------------------------------- strip

  lemma AllSpaceConcat(a: string, b: string)
    requires AllSpace(a) && AllSpace(b)
    ensures AllSpace(a + b)
  {
    assert forall k :: 0 <= k < |a + b| ==> (a + b)[k] == if k < |a| then a[k] else b[k - |a|];
  }

  /** `s.lstrip()`. Its characterisation is `StripLeftTrims`. */
  function StripLeft(s: string): (r: string)
    ensures |r| <= |s|
  {
    if |s| > 0 && IsSpace(s[0]) then StripLeft(s[1..]) else s
  }

  /** `s.rstrip()`. Its characterisation is `StripRightTrims`. */
  function StripRight(s: string): (r: string)
    ensures |r| <= |s|
  {
    if |s| > 0 && IsSpace(s[|s| - 1]) then StripRight(s[..|s| - 1]) else s
  }

  /** `s.lstrip()` is the suffix of `s` left after all its leading white space. */
  lemma {:induction false} StripLeftTrims(s: string)
    ensures var r := StripLeft(s);
            r == s[|s| - |r|..] && AllSpace(s[..|s| - |r|]) && (|r| == 0 || !IsSpace(r[0]))
  {
    if |s| > 0 && IsSpace(s[0]) {
      StripLeftTrims(s[1..]);
      var r := StripLeft(s[1..]);
      assert s[..|s| - |r|] == [s[0]] + s[1..][..|s| - 1 - |r|];
      AllSpaceConcat([s[0]], s[1..][..|s| - 1 - |r|]);
    }
  }

  /** `s.rstrip()` is the prefix of `s` left before all its trailing white space. */
  lemma {:induction false} StripRightTrims(s: string)
    ensures var r := StripRight(s);
            r == s[..|r|] && AllSpace(s[|r|..]) && (|r| == 0 || !IsSpace(r[|r| - 1]))
  {
    if |s| > 0 && IsSpace(s[|s| - 1]) {
      StripRightTrims(s[..|s| - 1]);
      var r := StripRight(s[..|s| - 1]);
      assert s[|r|..] == s[..|s| - 1][|r|..] + [s[|s| - 1]];
      AllSpaceConcat(s[..|s| - 1][|r|..], [s[|s| - 1]]);
    }
  }

  /** Python's `s.strip()`: the result neither starts nor ends with white space. The full
      characterisation, that it is the slice of `s` between leading and trailing white space,
      is `StripTrims`. */
  function Strip(s: string): (r: string)
    ensures |r| <= |s|
    ensures |r| == 0 || (!IsSpace(r[0]) && !IsSpace(r[|r| - 1]))
  {
    StripLeftTrims(s);
    StripRightTrims(StripLeft(s));
    StripRight(StripLeft(s))
  }

  /** `s.strip()` is a slice of `s`, and everything cut off on either side is white space. */
  lemma StripTrims(s: string)
    ensures exists i, j :: 0 <= i <= j <= |s| && Strip(s) == s[i..j] && AllSpace(s[..i]) && AllSpace(s[j..])
  {
    var l := StripLeft(s);
    StripLeftTrims(s);
    StripRightTrims(l);
    var r := StripRight(l);
    var i := |s| - |l|;
    assert r == s[i..i + |r|];
    assert s[i + |r|..] == l[|r|..];
  }

  lemma StripNoSpace(s: string)
    requires NoSpace(s)
    ensures Strip(s) == s
  {
    if |s| > 0 {
      assert StripLeft(s) == s;
      assert StripRight(s) == s;
    }
  }

  /** Leading white space is cut whatever follows it. */
  lemma {:induction false} StripLeftSpaces(ws: string, x: string)
    requires AllSpace(ws)
    ensures StripLeft(ws + x) == StripLeft(x)
  {
    if |ws| > 0 {
      assert (ws + x)[1..] == ws[1..] + x;
      StripLeftSpaces(ws[1..], x);
    } else {
      assert ws + x == x;
    }
  }

  /** Trailing white space is cut whatever precedes it. */
  lemma {:induction false} StripRightSpaces(x: string, ws: string)
    requires AllSpace(ws)
    ensures StripRight(x + ws) == StripRight(x)
  {
    if |ws| > 0 {
      assert (x + ws)[..|x + ws| - 1] == x + ws[..|ws| - 1];
      StripRightSpaces(x, ws[..|ws| - 1]);
    } else {
      assert x + ws == x;
    }
  }

  /** Once a non-space character has been reached, `lstrip` leaves the rest alone. */
  lemma {:induction false} StripLeftAppend(x: string, t: string)
    requires !AllSpace(x)
    ensures StripLeft(x + t) == StripLeft(x) + t
  {
    if IsSpace(x[0]) {
      assert (x + t)[1..] == x[1..] + t;
      assert !AllSpace(x[1..]) by {
        var k :| 0 <= k < |x| && !IsSpace(x[k]);
        assert x[1..][k - 1] == x[k];
      }
      StripLeftAppend(x[1..], t);
    }
  }

  /** Trailing white space makes no difference to `strip`. */
  lemma StripTrailingSpaces(x: string, ws: string)
    requires AllSpace(ws)
    ensures Strip(x + ws) == Strip(x)
  {
    if AllSpace(x) {
      AllSpaceConcat(x, ws);
      StripEmpty(x);
      StripEmpty(x + ws);
    } else {
      StripLeftAppend(x, ws);
      StripRightSpaces(StripLeft(x), ws);
    }
  }

  /** `lstrip` stops at the first non-space character. */
  lemma StripLeftAround(p: string, c: char, q: string)
    requires !IsSpace(c)
    ensures StripLeft(p + [c] + q) == StripLeft(p) + [c] + q
  {
    var a := StripLeft(p);
    var y := a + [c] + q;
    StripLeftTrims(p);
    var ws := p[..|p| - |a|];
    assert p + [c] + q == ws + y by { assert p == ws + a; }
    StripLeftSpaces(ws, y);
    assert y[0] == if |a| == 0 then c else a[0];
  }

  /** `rstrip` stops at the last non-space character. */
  lemma StripRightAround(p: string, c: char, q: string)
    requires !IsSpace(c)
    ensures StripRight(p + [c] + q) == p + [c] + StripRight(q)
  {
    var b := StripRight(q);
    var z := p + [c] + b;
    StripRightTrims(q);
    var ws := q[|b|..];
    assert p + [c] + q == z + ws by { assert q == b + ws; }
    StripRightSpaces(z, ws);
    assert z[|z| - 1] == if |b| == 0 then c else b[|b| - 1];
  }

  /** Around a non-space character, `strip` is `lstrip` of what comes before it and `rstrip`
      of what comes after. */
  lemma StripAround(p: string, c: char, q: string)
    requires !IsSpace(c)
    ensures Strip(p + [c] + q) == StripLeft(p) + [c] + StripRight(q)
  {
    StripLeftAround(p, c, q);
    StripRightAround(StripLeft(p), c, q);
  }

  /** Stripping the `lstrip` of `s`, or its `rstrip`, gives the `strip` of `s`. */
  lemma StripHalves(s: string)
    ensures Strip(StripLeft(s)) == Strip(s)
    ensures Strip(StripRight(s)) == Strip(s)
  {
    StripLeftTrims(s);
    assert StripLeft(StripLeft(s)) == StripLeft(s);
    StripRightTrims(s);
    var b := StripRight(s);
    assert s == b + s[|b|..];
    StripTrailingSpaces(b, s[|b|..]);
  }

  /** `Strip(s)` is empty exactly when `s` consists of white space only. */
  lemma StripEmpty(s: string)
    ensures Strip(s) == [] <==> AllSpace(s)
  {
    var l := StripLeft(s);
    StripLeftTrims(s);
    StripRightTrims(l);
    if Strip(s) == [] {
      assert l[0..] == l;
      assert s == s[..|s| - |l|] + l;
      AllSpaceConcat(s[..|s| - |l|], l);
    }
  }

  /** Stripping text that begins and ends a non-space head only trims its tail: the head
      survives at the front. */
  lemma StripKeepsHead(p: string, rest: string)
    requires |p| > 0 && !IsSpace(p[0]) && !IsSpace(p[|p| - 1])
    ensures |p| <= |Strip(p + rest)| && Strip(p + rest)[..|p|] == p
  {
    var s := p + rest;
    StripTrims(s);
    var i, j :| 0 <= i <= j <= |s| && Strip(s) == s[i..j] && AllSpace(s[..i]) && AllSpace(s[j..]);
    forall k | 0 < k <= |s| ensures !AllSpace(s[..k]) {
      assert s[..k][0] == p[0];
    }
    forall k | 0 <= k < |p| ensures !AllSpace(s[k..]) {
      assert s[k..][|p| - 1 - k] == p[|p| - 1];
    }
    assert i == 0 && j >= |p|;
    assert s[..j][..|p|] == p;
  }

  // ---------------------------------------------------------------- split / join

  /** Python's `sep.join(xs)`: the pieces in order with `sep` between neighbours, so the text
      starts with the first piece and ends with the last. Splitting it again is `SplitJoin`. */
  function Join(xs: seq<string>, sep: string): (r: string)
    ensures |xs| == 0 ==> r == []
    ensures |xs| > 0 ==> xs[0] <= r
  {
    if |xs| == 0 then []
    else if |xs| == 1 then xs[0]
    else xs[0] + sep + Join(xs[1..], sep)
  }

  /** The join ends with the last piece. */
  lemma {:induction false} JoinLast(xs: seq<string>, sep: string)
    requires |xs| > 0
    ensures var r := Join(xs, sep); |xs[|xs| - 1]| <= |r| && r[|r| - |xs[|xs| - 1]|..] == xs[|xs| - 1]
  {
    if |xs| > 1 {
      JoinLast(xs[1..], sep);
      var j := Join(xs[1..], sep);
      assert Join(xs, sep) == (xs[0] + sep) + j;
      assert xs[1..][|xs| - 2] == xs[|xs| - 1];
    }
  }

  /** Python's `s.split(sep)` for a non-empty separator: the pieces between the
      non-overlapping occurrences of `sep` found left to right. */
  function Split(s: string, sep: string): (r: seq<string>)
    requires |sep| > 0
    ensures |r| >= 1
    ensures Join(r, sep) == s
  {
    JoinSplitFrom(s, sep, []);
    SplitFrom(s, sep, [])
  }

  /** The scan behind `Split`; `cur` is the piece gathered so far. */
  function SplitFrom(s: string, sep: string, cur: string): (r: seq<string>)
    requires |sep| > 0
    ensures |r| >= 1
    decreases |s|
  {
    if |s| == 0 then [cur]
    else if |sep| <= |s| && s[..|sep|] == sep then [cur] + SplitFrom(s[|sep|..], sep, [])
    else SplitFrom(s[1..], sep, cur + [s[0]])
  }

  /** A character in neither the pieces nor the separator is not in their join. */
  lemma {:induction false} JoinAvoids(xs: seq<string>, sep: string, c: char)
    requires c !in sep && forall k :: 0 <= k < |xs| ==> c !in xs[k]
    ensures c !in Join(xs, sep)
  {
    if |xs| > 1 {
      JoinAvoids(xs[1..], sep, c);
      assert xs[0] == xs[0];
    }
  }

  lemma {:induction false} JoinSplitFrom(s: string, sep: string, cur: string)
    requires |sep| > 0
    ensures Join(SplitFrom(s, sep, cur), sep) == cur + s
    decreases |s|
  {
    if |s| == 0 {
    } else if |sep| <= |s| && s[..|sep|] == sep {
      JoinSplitFrom(s[|sep|..], sep, []);
      assert s == sep + s[|sep|..];
    } else {
      JoinSplitFrom(s[1..], sep, cur + [s[0]]);
      assert cur + [s[0]] + s[1..] == cur + s;
    }
  }

  /** Joining the pieces of a split with the same separator gives back the text. */
  lemma {:induction false} JoinSplit(s: string, sep: string)
    requires |sep| > 0
    ensures Join(Split(s, sep), sep) == s
  {
    JoinSplitFrom(s, sep, []);
  }

  lemma {:induction false} SplitFromSkips(x: string, t: string, sep: string, cur: string)
    requires |sep| > 0 && sep[0] !in x
    ensures SplitFrom(x + t, sep, cur) == SplitFrom(t, sep, cur + x)
    decreases |x|
  {
    if |x| > 0 {
      assert (x + t)[0] == x[0] && (x + t)[1..] == x[1..] + t;
      assert !(|sep| <= |x + t| && (x + t)[..|sep|] == sep);
      SplitFromSkips(x[1..], t, sep, cur + [x[0]]);
      assert cur + [x[0]] + x[1..] == cur + x;
    } else {
      assert x + t == t && cur + x == cur;
    }
  }

  lemma {:induction false} SplitFromJoin(xs: seq<string>, sep: string, cur: string)
    requires |sep| > 0 && |xs| >= 1
    requires forall k :: 0 <= k < |xs| ==> sep[0] !in xs[k]
    ensures SplitFrom(Join(xs, sep), sep, cur) == [cur + xs[0]] + xs[1..]
    decreases |xs|
  {
    if |xs| == 1 {
      SplitFromSkips(xs[0], [], sep, cur);
      assert xs[0] + [] == xs[0];
    } else {
      var rest := Join(xs[1..], sep);
      assert Join(xs, sep) == xs[0] + (sep + rest);
      SplitFromSkips(xs[0], sep + rest, sep, cur);
      assert (sep + rest)[..|sep|] == sep && (sep + rest)[|sep|..] == rest;
      SplitFromJoin(xs[1..], sep, []);
      assert [] + xs[1..][0] == xs[1];
    }
  }

  /** Splitting a join recovers the pieces, provided no piece contains the separator's
      first character. */
  lemma {:induction false} SplitJoin(xs: seq<string>, sep: string)
    requires |sep| > 0 && |xs| >= 1
    requires forall k :: 0 <= k < |xs| ==> sep[0] !in xs[k]
    ensures Split(Join(xs, sep), sep) == xs
  {
    SplitFromJoin(xs, sep, []);
    assert [] + xs[0] == xs[0];
    assert [xs[0]] + xs[1..] == xs;
  }

  /** Number of occurrences of `c` in `s`. */
  function Count(c: char, s: string): nat {
    if |s| == 0 then 0 else (if s[0] == c then 1 else 0) + Count(c, s[1..])
  }

  lemma {:induction false} CountPositive(c: char, s: string)
    ensures Count(c, s) > 0 <==> c in s
  {
    if |s| > 0 {
      CountPositive(c, s[1..]);
      assert c in s <==> s[0] == c || c in s[1..];
    }
  }

  lemma {:induction false} SplitFromCount(s: string, c: char, cur: string)
    ensures |SplitFrom(s, [c], cur)| == Count(c, s) + 1
    decreases |s|
  {
    if |s| > 0 {
      if s[..1] == [c] {
        SplitFromCount(s[1..], c, []);
      } else {
        SplitFromCount(s[1..], c, cur + [s[0]]);
      }
    }
  }

  /** Splitting on a single character gives one more piece than there are occurrences. */
  lemma SplitCount(s: string, c: char)
    ensures |Split(s, [c])| == Count(c, s) + 1
  {
    SplitFromCount(s, c, []);
  }

  lemma {:induction false} CountConcat(c: char, a: string, b: string)
    ensures Count(c, a + b) == Count(c, a) + Count(c, b)
  {
    if |a| > 0 {
      assert (a + b)[0] == a[0] && (a + b)[1..] == a[1..] + b;
      CountConcat(c, a[1..], b);
    } else {
      assert a + b == b;
    }
  }

  lemma {:induction false} CountAllSpace(c: char, s: string)
    requires AllSpace(s) && !IsSpace(c)
    ensures Count(c, s) == 0
  {
    if |s| > 0 {
      assert AllSpace(s[1..]) by {
        forall k | 0 <= k < |s| - 1 ensures IsSpace(s[1..][k]) { assert s[1..][k] == s[k + 1]; }
      }
      CountAllSpace(c, s[1..]);
    }
  }

  /** Stripping removes white space only, so it keeps every other character. */
  lemma StripCount(c: char, s: string)
    requires !IsSpace(c)
    ensures Count(c, Strip(s)) == Count(c, s)
  {
    var l := StripLeft(s);
    StripLeftTrims(s);
    StripRightTrims(l);
    var i, r := |s| - |l|, StripRight(l);
    assert s == s[..i] + l;
    assert l == r + l[|r|..];
    CountConcat(c, s[..i], l);
    CountConcat(c, r, l[|r|..]);
    CountAllSpace(c, s[..i]);
    CountAllSpace(c, l[|r|..]);
  }

  /** Splitting white space gives white-space pieces only. */
  lemma {:induction false} SplitFromAllSpace(s: string, sep: string, cur: string)
    requires |sep| > 0 && AllSpace(s) && AllSpace(cur)
    ensures forall k :: 0 <= k < |SplitFrom(s, sep, cur)| ==> AllSpace(SplitFrom(s, sep, cur)[k])
    decreases |s|
  {
    if |s| > 0 {
      assert AllSpace(s[1..]) by {
        forall k | 0 <= k < |s| - 1 ensures IsSpace(s[1..][k]) { assert s[1..][k] == s[k + 1]; }
      }
      if |sep| <= |s| && s[..|sep|] == sep {
        assert AllSpace(s[|sep|..]) by {
          forall k | 0 <= k < |s| - |sep| ensures IsSpace(s[|sep|..][k]) { assert s[|sep|..][k] == s[k + |sep|]; }
        }
        SplitFromAllSpace(s[|sep|..], sep, []);
      } else {
        AllSpaceConcat(cur, [s[0]]);
        SplitFromAllSpace(s[1..], sep, cur + [s[0]]);
      }
    }
  }

  // ---------------------------------------------------------------- replace

  /** Python's `s.replace(c, '')`: `s` with every occurrence of `c` deleted. */
  function RemoveChar(s: string, c: char): (r: string)
    ensures c !in r
    ensures forall x :: x in r <==> x in s && x != c
    ensures |r| <= |s|
  {
    if |s| == 0 then []
    else if s[0] == c then RemoveChar(s[1..], c)
    else [s[0]] + RemoveChar(s[1..], c)
  }

  lemma {:induction false} RemoveCharAppend(a: string, b: string, c: char)
    ensures RemoveChar(a + b, c) == RemoveChar(a, c) + RemoveChar(b, c)
  {
    if |a| > 0 {
      assert (a + b)[0] == a[0] && (a + b)[1..] == a[1..] + b;
      RemoveCharAppend(a[1..], b, c);
    } else {
      assert a + b == b;
    }
  }

  lemma {:induction false} RemoveCharAbsent(s: string, c: char)
    requires c !in s
    ensures RemoveChar(s, c) == s
  {
    if |s| > 0 {
      assert c !in s[1..];
      RemoveCharAbsent(s[1..], c);
    }
  }

  // ---------------------------------------------------------------- int(digits)

  function DigitValue(c: char): nat
    requires IsDigit(c)
  {
    (c as int - '0' as int) as nat
  }

  function DigitChar(d: nat): (c: char)
    requires d < 10
    ensures IsDigit(c) && DigitValue(c) == d
  {
    ('0' as int + d) as char
  }

  /** Python's `int(s)` for a string of decimal digits (leading zeros allowed). */
  function DigitsValue(s: string): nat
    requires forall k :: 0 <= k < |s| ==> IsDigit(s[k])
  {
    if |s| == 0 then 0 else 10 * DigitsValue(s[..|s| - 1]) + DigitValue(s[|s| - 1])
  }

  /** `str(n)`: the shortest decimal spelling of `n`. */
  function Decimal(n: nat): (r: string)
    ensures IsDigits(r)
    ensures |r| > 1 ==> r[0] != '0'
  {
    if n < 10 then [DigitChar(n)] else Decimal(n / 10) + [DigitChar(n % 10)]
  }

  /** `int(str(n)) == n`. */
  lemma {:induction false} DecimalValue(n: nat)
    ensures DigitsValue(Decimal(n)) == n
  {
    if n >= 10 {
      DecimalValue(n / 10);
      var r := Decimal(n);
      assert r[..|r| - 1] == Decimal(n / 10);
    }
  }
}
