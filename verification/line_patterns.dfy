/** The per-line recognisers of the quiz parser: the fence test, the
    blank test, the header expression
    `^#+\s*(Q\d+\.|Question\s*\d+[:.]?|\d+\.)\s*(.*)$` (flag `i`) and the
    option expression `^\s*[-*]\s*\[(x|\s)\]\s*(.*)$` (flag `i`), written as
    matchers over indices rather than as a regular-expression engine.

    Every quantified part of both expressions is followed either by text
    that the quantifier cannot match or by `(.*)$`, and `(.*)$` fails exactly
    when the rest of the line holds a line terminator. Backtracking can only
    start `(.*)` earlier, which keeps that terminator inside it, so the greedy
    reading is the only one that can succeed. The matchers compute it; the
    lemmas at the end of this module show that they succeed exactly when
    some reading of the expression does, and capture what the greedy reading
    captures. */
module LinePatterns {
  import opened Options
  import opened Text

  // ---------------------------------------------------------------- headers

  predicate IsQ(c: char)
  {
    c == 'Q' || c == 'q'
  }

  /** `s` spells "question" from index `i`, ignoring ASCII case. */
  predicate QuestionWordAt(s: string, i: nat)
  {
    && i + 8 <= |s|
    && LowerAscii(s[i]) == 'q' && LowerAscii(s[i + 1]) == 'u' && LowerAscii(s[i + 2]) == 'e'
    && LowerAscii(s[i + 3]) == 's' && LowerAscii(s[i + 4]) == 't' && LowerAscii(s[i + 5]) == 'i'
    && LowerAscii(s[i + 6]) == 'o' && LowerAscii(s[i + 7]) == 'n'
  }

  /** The end of the numbering token of a header when one starts at `p`:
      `Q` digits `.`, or `Question`, whitespace, digits and an optional `:` or
      `.`, or digits `.`. At most one alternative can apply, because they
      differ in their first two characters. */
  function MarkerEnd(s: string, p: nat): (m: Option<nat>)
    requires p <= |s|
    ensures m.Some? ==> p < m.value <= |s|
  {
    if p + 1 < |s| && IsQ(s[p]) && IsDigit(s[p + 1]) then
      var d := DigitRun(s, p + 1);
      if d < |s| && s[d] == '.' then Some(d + 1) else None
    else if QuestionWordAt(s, p) then
      var w := WsRun(s, p + 8);
      if w < |s| && IsDigit(s[w]) then
        var d := DigitRun(s, w);
        if d < |s| && (s[d] == ':' || s[d] == '.') then Some(d + 1) else Some(d)
      else None
    else if p < |s| && IsDigit(s[p]) then
      var d := DigitRun(s, p);
      if d < |s| && s[d] == '.' then Some(d + 1) else None
    else None
  }

  /** The header expression applied to the untrimmed line: the captured
      question text, or `None` when the line is not a header. */
  function HeaderMatch(line: string): Option<string>
  {
    var h := CharRun(line, 0, '#');
    if h == 0 then None
    else
      var p := WsRun(line, h);
      match MarkerEnd(line, p)
      case None => None
      case Some(m) =>
        var q := WsRun(line, m);
        if NoLineTerminator(line[q..]) then Some(line[q..]) else None
  }

  // ---------------------------------------------------------------- options

  predicate IsX(c: char)
  {
    c == 'x' || c == 'X'
  }

  predicate IsListMarker(c: char)
  {
    c == '-' || c == '*'
  }

  /** The option expression: whether the box holds `x`/`X` (the source's
      `toLowerCase() === 'x'` test), and the captured option text. */
  function OptionMatch(line: string): Option<(bool, string)>
  {
    var a := WsRun(line, 0);
    if a < |line| && IsListMarker(line[a]) then
      var b := WsRun(line, a + 1);
      if b + 2 < |line| && line[b] == '[' && (IsX(line[b + 1]) || IsWs(line[b + 1])) && line[b + 2] == ']' then
        var c := WsRun(line, b + 3);
        if NoLineTerminator(line[c..]) then Some((IsX(line[b + 1]), line[c..])) else None
      else None
    else None
  }

  // --------------------------------------------------------- classification

  /** A fence line: its trimmed text starts with three backticks. */
  predicate IsFence(line: string)
  {
    StartsWith(Trim(line), "```")
  }

  /** What the parser makes of one line, in its priority order. */
  datatype LineKind =
    | FenceLine
    | CodeLine
    | BlankLine
    | HeaderLine(text: string)
    | OptionLine(checked: bool, text: string)
    | TextLine

  /** The classification of `line` given whether a fence is open: fence,
      code, blank, header, option, and otherwise plain text. */
  function Classify(line: string, inFence: bool): (k: LineKind)
    ensures k.FenceLine? <==> IsFence(line)
    ensures k.CodeLine? <==> !IsFence(line) && inFence
    ensures k.BlankLine? <==> !IsFence(line) && !inFence && IsBlank(line)
    ensures k.HeaderLine? <==> !IsFence(line) && !inFence && !IsBlank(line) && HeaderMatch(line).Some?
    ensures k.HeaderLine? ==> HeaderMatch(line) == Some(k.text)
    ensures k.OptionLine? <==>
              && !IsFence(line) && !inFence && !IsBlank(line)
              && HeaderMatch(line).None? && OptionMatch(line).Some?
    ensures k.OptionLine? ==> OptionMatch(line) == Some((k.checked, k.text))
    ensures k.TextLine? <==>
              && !IsFence(line) && !inFence && !IsBlank(line)
              && HeaderMatch(line).None? && OptionMatch(line).None?
  {
    if IsFence(line) then FenceLine
    else if inFence then CodeLine
    else if IsBlank(line) then BlankLine
    else match HeaderMatch(line)
      case Some(t) => HeaderLine(t)
      case None =>
        match OptionMatch(line)
        case Some(o) => OptionLine(o.0, o.1)
        case None => TextLine
  }

  /** A header line is neither a fence nor blank, so it is classified as a
      header whenever no fence is open. */
  lemma HeaderIsClassified(line: string, inFence: bool)
    requires HeaderMatch(line).Some?
    ensures !IsFence(line) && !IsBlank(line)
    ensures !inFence ==> Classify(line, inFence) == HeaderLine(HeaderMatch(line).value)
  {
    HeaderStartsWithHash(line);
    HashNotFenceOrBlank(line);
  }

  lemma HeaderStartsWithHash(line: string)
    requires HeaderMatch(line).Some?
    ensures |line| > 0 && line[0] == '#'
  {
  }

  /** An option line that is not also a header is neither a fence nor
      blank, so it is classified as an option whenever no fence is open. */
  lemma OptionIsClassified(line: string, inFence: bool)
    requires OptionMatch(line).Some? && HeaderMatch(line).None?
    ensures !IsFence(line) && !IsBlank(line)
    ensures !inFence ==>
              Classify(line, inFence) == OptionLine(OptionMatch(line).value.0, OptionMatch(line).value.1)
  {
    var a := WsRun(line, 0);
    assert a < |line| && IsListMarker(line[a]);
    TrimStartsAt(line, a);
    var t := Trim(line);
    assert !StartsWith(t, "```") by {
      if |t| >= 3 {
        assert t[..3][0] == t[0];
      }
    }
  }

  /** A line starting with `#` is neither a fence nor blank. */
  lemma HashNotFenceOrBlank(line: string)
    requires |line| > 0 && line[0] == '#'
    ensures !IsFence(line) && !IsBlank(line)
  {
    var t := Trim(line);
    assert |t| > 0 && t[0] == '#' by {
      assert !IsWs(line[0]);
    }
    assert !StartsWith(t, "```") by {
      if |t| >= 3 {
        assert t[..3][0] == '#';
      }
    }
  }

  // ------------------------------------------- the expressions, declaratively

  /** The numbering token of the header expression spans `line[p..m]`. */
  ghost predicate MarkerSpan(line: string, p: nat, m: nat)
  {
    && p <= m <= |line|
    && (|| (p + 3 <= m && IsQ(line[p]) && AllDigits(line[p + 1..m - 1]) && line[m - 1] == '.')
        || (exists w: nat, d: nat :: QuestionSpan(line, p, w, d, m))
        || (p + 2 <= m && AllDigits(line[p..m - 1]) && line[m - 1] == '.'))
  }

  /** The `Question\s*\d+[:.]?` alternative: the word up to `p + 8`,
      whitespace up to `w`, digits up to `d`, and an optional `:` or `.`. */
  ghost predicate QuestionSpan(line: string, p: nat, w: nat, d: nat, m: nat)
  {
    && p + 8 <= w < d <= m <= |line|
    && QuestionWordAt(line, p)
    && AllWs(line[p + 8..w])
    && AllDigits(line[w..d])
    && (m == d || (m == d + 1 && (line[d] == ':' || line[d] == '.')))
  }

  /** One reading of the header expression on `line`: `#` up to `h`,
      whitespace up to `p`, the numbering token up to `m`, whitespace up to
      `q`, and `line[q..]` captured by `(.*)$`. */
  ghost predicate HeaderSplit(line: string, h: nat, p: nat, m: nat, q: nat)
  {
    && 0 < h <= p <= m <= q <= |line|
    && (forall k :: 0 <= k < h ==> line[k] == '#')
    && AllWs(line[h..p])
    && MarkerSpan(line, p, m)
    && AllWs(line[m..q])
    && NoLineTerminator(line[q..])
  }

  /** One reading of the option expression on `line`: whitespace up to `a`,
      the list marker at `a`, whitespace up to `b`, the box `[?]` at `b`,
      whitespace up to `c`, and `line[c..]` captured by `(.*)$`. */
  ghost predicate OptionSplit(line: string, a: nat, b: nat, c: nat)
  {
    && a < b && b + 3 <= c <= |line|
    && AllWs(line[..a])
    && IsListMarker(line[a])
    && AllWs(line[a + 1..b])
    && line[b] == '[' && (IsX(line[b + 1]) || IsWs(line[b + 1])) && line[b + 2] == ']'
    && AllWs(line[b + 3..c])
    && NoLineTerminator(line[c..])
  }

  lemma NoLineTerminatorSuffix(s: string, i: nat, j: nat)
    requires i <= j <= |s| && NoLineTerminator(s[i..])
    ensures NoLineTerminator(s[j..])
  {
    assert forall k :: 0 <= k < |s| - j ==> s[j..][k] == s[i..][k + j - i];
  }

  /** The first character of a numbering token is neither whitespace nor `#`. */
  lemma MarkerStart(line: string, p: nat, m: nat)
    requires MarkerSpan(line, p, m)
    ensures p < |line| && !IsWs(line[p]) && line[p] != '#'
  {
    if exists w: nat, d: nat :: QuestionSpan(line, p, w, d, m) {
      var w: nat, d: nat :| QuestionSpan(line, p, w, d, m);
      assert LowerAscii(line[p]) == 'q';
    } else if !(p + 3 <= m && IsQ(line[p])) {
      assert IsDigit(line[p..m - 1][0]);
    }
  }

  /** When a numbering token spans `line[p..m]`, `MarkerEnd` finds a token
      ending at `m` or later; when later, the character at `m` is not
      whitespace, so no reading puts whitespace after the shorter token. */
  lemma MarkerEndComplete(line: string, p: nat, m: nat)
    requires MarkerSpan(line, p, m)
    ensures MarkerEnd(line, p).Some? && MarkerEnd(line, p).value >= m
    ensures MarkerEnd(line, p).value > m ==> m < |line| && !IsWs(line[m])
  {
    if p + 3 <= m && IsQ(line[p]) && AllDigits(line[p + 1..m - 1]) && line[m - 1] == '.' {
      QTokenEnd(line, p, m);
    } else if exists w: nat, d: nat :: QuestionSpan(line, p, w, d, m) {
      var w: nat, d: nat :| QuestionSpan(line, p, w, d, m);
      QuestionTokenEnd(line, p, w, d, m);
    } else {
      NumberTokenEnd(line, p, m);
    }
  }

  lemma QTokenEnd(line: string, p: nat, m: nat)
    requires p + 3 <= m <= |line| && IsQ(line[p]) && AllDigits(line[p + 1..m - 1]) && line[m - 1] == '.'
    ensures MarkerEnd(line, p) == Some(m)
  {
    assert IsDigit(line[p + 1..m - 1][0]);
    DigitRunStops(line, p + 1, m - 1);
  }

  lemma QuestionTokenEnd(line: string, p: nat, w: nat, d: nat, m: nat)
    requires QuestionSpan(line, p, w, d, m)
    ensures MarkerEnd(line, p).Some? && MarkerEnd(line, p).value >= m
    ensures MarkerEnd(line, p).value > m ==> m < |line| && !IsWs(line[m])
  {
    assert LowerAscii(line[p + 1]) == 'u';
    assert !IsDigit(line[p + 1]);
    assert IsDigit(line[w..d][0]);
    WsRunStops(line, p + 8, w);
    DigitRunIsMaximal(line, w, d);
  }

  lemma NumberTokenEnd(line: string, p: nat, m: nat)
    requires p + 2 <= m <= |line| && AllDigits(line[p..m - 1]) && line[m - 1] == '.'
    ensures MarkerEnd(line, p) == Some(m)
  {
    assert IsDigit(line[p..m - 1][0]);
    assert !IsQ(line[p]) && !QuestionWordAt(line, p);
    DigitRunStops(line, p, m - 1);
  }

  /** Every reading of the header expression is found by `HeaderMatch`, which
      captures a remainder no longer than that reading's: the greedy one. */
  lemma HeaderMatchComplete(line: string, h: nat, p: nat, m: nat, q: nat)
    requires HeaderSplit(line, h, p, m, q)
    ensures HeaderMatch(line).Some?
    ensures |HeaderMatch(line).value| <= |line| - q
  {
    MarkerStart(line, p, m);
    var h' := CharRun(line, 0, '#');
    assert h < p ==> IsWs(line[h..p][0]);
    assert h' == h;
    WsRunStops(line, h, p);
    MarkerEndComplete(line, p, m);
    var m' := MarkerEnd(line, p).value;
    var q' := WsRun(line, m');
    WsRunIsMaximal(line, m, q);
    if m' > m {
      assert WsRun(line, m) == m;
    }
    assert q <= q';
    NoLineTerminatorSuffix(line, q, q');
  }

  /** What `HeaderMatch` captures is what some reading of the header
      expression captures. */
  lemma HeaderMatchSound(line: string)
    requires HeaderMatch(line).Some?
    ensures exists h: nat, p: nat, m: nat, q: nat :: HeaderSplit(line, h, p, m, q) && HeaderMatch(line).value == line[q..]
  {
    var h := CharRun(line, 0, '#');
    var p := WsRun(line, h);
    var m := MarkerEnd(line, p).value;
    var q := WsRun(line, m);
    MarkerEndSound(line, p);
    assert HeaderSplit(line, h, p, m, q);
  }

  /** The token `MarkerEnd` finds is a numbering token. */
  lemma MarkerEndSound(line: string, p: nat)
    requires p <= |line| && MarkerEnd(line, p).Some?
    ensures MarkerSpan(line, p, MarkerEnd(line, p).value)
  {
    var m := MarkerEnd(line, p).value;
    if p + 1 < |line| && IsQ(line[p]) && IsDigit(line[p + 1]) {
      var d := DigitRun(line, p + 1);
      assert d + 1 == m;
    } else if QuestionWordAt(line, p) {
      var w := WsRun(line, p + 8);
      var d := DigitRun(line, w);
      assert QuestionSpan(line, p, w, d, m);
    } else {
      var d := DigitRun(line, p);
      assert d + 1 == m;
    }
  }

  /** Every reading of the option expression is found by `OptionMatch`, with
      the same box character, capturing a remainder no longer than that
      reading's. */
  lemma OptionMatchComplete(line: string, a: nat, b: nat, c: nat)
    requires OptionSplit(line, a, b, c)
    ensures OptionMatch(line).Some?
    ensures OptionMatch(line).value.0 == IsX(line[b + 1])
    ensures |OptionMatch(line).value.1| <= |line| - c
  {
    assert line[..a] == line[0..a];
    WsRunStops(line, 0, a);
    WsRunStops(line, a + 1, b);
    var c' := WsRun(line, b + 3);
    WsRunIsMaximal(line, b + 3, c);
    NoLineTerminatorSuffix(line, c, c');
    assert OptionMatch(line) == Some((IsX(line[b + 1]), line[c'..]));
  }

  /** What `OptionMatch` captures is what some reading of the option
      expression captures. */
  lemma OptionMatchSound(line: string)
    requires OptionMatch(line).Some?
    ensures exists a: nat, b: nat, c: nat :: OptionSplit(line, a, b, c)
              && OptionMatch(line).value == (IsX(line[b + 1]), line[c..])
  {
    var a := WsRun(line, 0);
    var b := WsRun(line, a + 1);
    var c := WsRun(line, b + 3);
    assert line[..a] == line[0..a];
    assert OptionSplit(line, a, b, c);
  }
}
