/** What the scan does to whole stretches of lines, stated against the
    classification of each line rather than against the scanning state:
    how many questions come out, which options and answer a question gets,
    how plain lines and fenced code extend its text, and what is ignored. */
module QuizBlocks {
  import opened Options
  import opened Text
  import opened Html
  import opened LinePatterns
  import opened QuizParser

  /** The kind of each line of `lines` when scanning starts with a fence open
      exactly when `inFence` holds. */
  function Kinds(inFence: bool, lines: seq<string>): (ks: seq<LineKind>)
    ensures |ks| == |lines|
    decreases |lines|
  {
    if |lines| == 0 then []
    else
      var init := lines[..|lines| - 1];
      Kinds(inFence, init) + [Classify(lines[|lines| - 1], FenceOpenAfter(inFence, init))]
  }

  /** Line `i` is classified with the fence state left by the lines before it. */
  lemma KindAt(inFence: bool, lines: seq<string>, i: nat)
    requires i < |lines|
    ensures Kinds(inFence, lines)[i] == Classify(lines[i], FenceOpenAfter(inFence, lines[..i]))
  {
    var upto := lines[..i + 1];
    KindsPrefix(inFence, lines, i + 1);
    assert upto[..i] == lines[..i] && upto[i] == lines[i];
    KindsLast(inFence, upto);
  }

  /** The kinds of a prefix are a prefix of the kinds. */
  lemma {:induction false} KindsPrefix(inFence: bool, lines: seq<string>, j: nat)
    requires j <= |lines|
    ensures Kinds(inFence, lines[..j]) == Kinds(inFence, lines)[..j]
    decreases |lines|
  {
    if j < |lines| {
      var init := lines[..|lines| - 1];
      KindsPrefix(inFence, init, j);
      assert init[..j] == lines[..j];
      KindsInitPrefix(inFence, lines, j);
    } else {
      assert lines[..j] == lines;
    }
  }

  lemma KindsInitPrefix(inFence: bool, lines: seq<string>, j: nat)
    requires j < |lines|
    ensures Kinds(inFence, lines)[..j] == Kinds(inFence, lines[..|lines| - 1])[..j]
  {
  }

  lemma KindsLast(inFence: bool, lines: seq<string>)
    requires |lines| > 0
    ensures Kinds(inFence, lines)[|lines| - 1] ==
              Classify(lines[|lines| - 1], FenceOpenAfter(inFence, lines[..|lines| - 1]))
  {
  }

  /** The scan driven by given line kinds: each line is handled as its kind
      says. Every scan is one of these (`RunIsFold`), so the lemmas below
      speak about kinds without re-deriving how each line is classified. */
  function Fold(st: ScanState, ks: seq<LineKind>, lines: seq<string>): ScanState
    requires |ks| == |lines|
    decreases |ks|
  {
    if |ks| == 0 then st
    else StepKind(Fold(st, ks[..|ks| - 1], lines[..|lines| - 1]), ks[|ks| - 1], lines[|lines| - 1])
  }

  /** Scanning is the fold over the kinds the lines are given. */
  lemma {:induction false} RunIsFold(st: ScanState, lines: seq<string>)
    ensures RunFrom(st, lines) == Fold(st, Kinds(st.inCodeBlock, lines), lines)
    decreases |lines|
  {
    if |lines| > 0 {
      var init := lines[..|lines| - 1];
      var ks := Kinds(st.inCodeBlock, lines);
      RunIsFold(st, init);
      FenceState(st, init);
      assert ks[..|ks| - 1] == Kinds(st.inCodeBlock, init);
      assert RunFrom(st, lines) == Step(RunFrom(st, init), lines[|lines| - 1]);
    }
  }

  lemma RunOne(st: ScanState, line: string)
    ensures RunFrom(st, [line]) == Step(st, line)
  {
    assert [line][..0] == [];
  }

  function HeaderCount(ks: seq<LineKind>): (n: nat)
    ensures n <= |ks|
  {
    if |ks| == 0 then 0
    else HeaderCount(ks[..|ks| - 1]) + (if ks[|ks| - 1].HeaderLine? then 1 else 0)
  }

  /** The option text a line of kind `k` contributes: the escaped, trimmed
      captured text of an option line, and nothing for any other kind. */
  function OptionOf(k: LineKind): seq<string>
  {
    if k.OptionLine? then [EscapeHtml(Trim(k.text))] else []
  }

  /** The same, for checked option lines only. */
  function CheckedOf(k: LineKind): seq<string>
  {
    if k.OptionLine? && k.checked then [EscapeHtml(Trim(k.text))] else []
  }

  /** The escaped, trimmed texts of the option lines, in order. */
  function OptionTexts(ks: seq<LineKind>): seq<string>
  {
    if |ks| == 0 then [] else OptionTexts(ks[..|ks| - 1]) + OptionOf(ks[|ks| - 1])
  }

  /** The escaped, trimmed texts of the checked option lines, in order. */
  function CheckedTexts(ks: seq<LineKind>): seq<string>
  {
    if |ks| == 0 then [] else CheckedTexts(ks[..|ks| - 1]) + CheckedOf(ks[|ks| - 1])
  }

  /** The last element of `xs`, or `default` when it is empty. */
  function LastOr<T>(xs: seq<T>, default: T): T
  {
    if |xs| == 0 then default else xs[|xs| - 1]
  }

  lemma LastOrAppend<T>(xs: seq<T>, ys: seq<T>, default: T)
    ensures LastOr(xs + ys, default) == LastOr(ys, LastOr(xs, default))
  {
  }

  lemma AppendAssoc<T>(a: seq<T>, b: seq<T>, c: seq<T>)
    ensures (a + b) + c == a + (b + c)
  {
    assert forall i :: 0 <= i < |a| + |b| + |c| ==> ((a + b) + c)[i] == (a + (b + c))[i];
  }

  lemma StartsWithTrans(a: string, b: string, c: string)
    requires StartsWith(c, b) && StartsWith(b, a)
    ensures StartsWith(c, a)
  {
    assert c[..|a|] == c[..|b|][..|a|];
  }

  lemma StartsWithAppend(a: string, b: string)
    ensures StartsWith(a + b, a)
  {
    assert (a + b)[..|a|] == a;
  }

  lemma {:induction false} NoHeaderKinds(ks: seq<LineKind>)
    requires forall i :: 0 <= i < |ks| ==> !ks[i].HeaderLine?
    ensures HeaderCount(ks) == 0
  {
    if |ks| > 0 {
      NoHeaderKinds(ks[..|ks| - 1]);
    }
  }

  // -------------------------------------------------------- question count

  lemma {:induction false} FoldCount(st: ScanState, ks: seq<LineKind>, lines: seq<string>)
    requires |ks| == |lines|
    ensures |Finish(Fold(st, ks, lines))| == |Finish(st)| + HeaderCount(ks)
    decreases |ks|
  {
    if |ks| > 0 {
      FoldCount(st, ks[..|ks| - 1], lines[..|lines| - 1]);
    }
  }

  /** Each header line closes the open question, if any, and opens a new one,
      and no other line opens or closes one: the questions at the end are the
      ones before plus one per header line. */
  lemma QuestionCount(st: ScanState, lines: seq<string>)
    ensures |Finish(RunFrom(st, lines))| == |Finish(st)| + HeaderCount(Kinds(st.inCodeBlock, lines))
  {
    RunIsFold(st, lines);
    FoldCount(st, Kinds(st.inCodeBlock, lines), lines);
  }

  /** At most one question per header line outside a fence is returned, and
      a document without such a line yields none. */
  lemma ParseBoundedByHeaders(lines: seq<string>)
    ensures |ParseLines(lines)| <= HeaderCount(Kinds(false, lines))
    ensures HeaderCount(Kinds(false, lines)) == 0 ==> ParseLines(lines) == []
  {
    QuestionCount(Start, lines);
  }

  /** A document in which no line matches the header expression yields no
      question: option and text lines are only read while one is open. */
  lemma NoHeaderNoQuestions(content: string)
    requires forall i :: 0 <= i < |Split(content, '\n')| ==> HeaderMatch(Split(content, '\n')[i]).None?
    ensures ParseQuizContent(content) == []
  {
    var lines := Split(content, '\n');
    var ks := Kinds(false, lines);
    forall i | 0 <= i < |ks|
      ensures !ks[i].HeaderLine?
    {
      KindAt(false, lines, i);
    }
    NoHeaderKinds(ks);
    ParseBoundedByHeaders(lines);
  }

  // ------------------------------------------------- options and the answer

  /** `next` continues the question open in `st`: nothing is closed, the
      options gain `added`, the answer becomes the last of `checked` (and
      stays when there is none), the text only grows, and plain lines stop
      extending the text once an option has been added. */
  predicate Continues(st: ScanState, next: ScanState, added: seq<string>, checked: seq<string>)
    requires st.current.Some?
  {
    && next.closed == st.closed
    && next.inQuestionText == (st.inQuestionText && |added| == 0)
    && next.current.Some?
    && next.current.value.options == st.current.value.options + added
    && next.current.value.correctAnswer == LastOr(checked, st.current.value.correctAnswer)
    && StartsWith(next.current.value.questionText, st.current.value.questionText)
  }

  /** One line of a question block that is not a header. */
  lemma StepAnswers(st: ScanState, k: LineKind, line: string)
    requires st.current.Some? && !k.HeaderLine?
    ensures Continues(st, StepKind(st, k, line), OptionOf(k), CheckedOf(k))
  {
    match k
    case FenceLine => FenceAnswers(st);
    case TextLine => TextAnswers(st, line);
    case OptionLine(checked, text) => OptionAnswers(st, checked, text);
    case CodeLine => CodeAnswers(st, line);
    case BlankLine => StartsWithAppend(st.current.value.questionText, "");
  }

  lemma FenceAnswers(st: ScanState)
    requires st.current.Some?
    ensures Continues(st, OnFence(st), [], [])
  {
    var q := st.current.value;
    assert q.options + [] == q.options;
    if st.inCodeBlock {
      StartsWithAppend(q.questionText, FormatCodeBlock(Join(st.codeLines, "\n")));
    } else {
      StartsWithAppend(q.questionText, "");
    }
  }

  lemma TextAnswers(st: ScanState, line: string)
    requires st.current.Some?
    ensures Continues(st, OnText(st, line), [], [])
  {
    var q := st.current.value;
    assert q.options + [] == q.options;
    if st.inQuestionText {
      assert q.questionText + "<br>" + EscapeHtml(line) == q.questionText + ("<br>" + EscapeHtml(line));
      StartsWithAppend(q.questionText, "<br>" + EscapeHtml(line));
    } else {
      StartsWithAppend(q.questionText, "");
    }
  }

  lemma OptionAnswers(st: ScanState, checked: bool, text: string)
    requires st.current.Some?
    ensures Continues(st, OnOption(st, checked, text), OptionOf(OptionLine(checked, text)),
                      CheckedOf(OptionLine(checked, text)))
  {
    var option := EscapeHtml(Trim(text));
    OptionRecorded(st, checked, option, OnOption(st, checked, text));
  }

  /** Recording the escaped option `option` in the open question. */
  lemma OptionRecorded(st: ScanState, checked: bool, option: string, next: ScanState)
    requires st.current.Some?
    requires next == st.(current := Some(st.current.value.(
               options := st.current.value.options + [option],
               correctAnswer := if checked then option else st.current.value.correctAnswer)),
             inQuestionText := false)
    ensures Continues(st, next, [option], if checked then [option] else [])
  {
    StartsWithAppend(st.current.value.questionText, "");
  }

  lemma CodeAnswers(st: ScanState, line: string)
    requires st.current.Some?
    ensures Continues(st, st.(codeLines := st.codeLines + [EscapeHtml(line)]), [], [])
  {
    assert st.current.value.options + [] == st.current.value.options;
    StartsWithAppend(st.current.value.questionText, "");
  }

  lemma {:induction false} FoldAnswers(st: ScanState, ks: seq<LineKind>, lines: seq<string>)
    requires |ks| == |lines| && st.current.Some? && HeaderCount(ks) == 0
    ensures Continues(st, Fold(st, ks, lines), OptionTexts(ks), CheckedTexts(ks))
    decreases |ks|
  {
    var q := st.current.value;
    if |ks| > 0 {
      var init, k := ks[..|ks| - 1], ks[|ks| - 1];
      var prev := Fold(st, init, lines[..|lines| - 1]);
      FoldAnswers(st, init, lines[..|lines| - 1]);
      StepAnswers(prev, k, lines[|lines| - 1]);
      assert Fold(st, ks, lines) == StepKind(prev, k, lines[|lines| - 1]);
      AnswersCombine(st, prev, Fold(st, ks, lines), ks);
    } else {
      assert q.options + [] == q.options;
      StartsWithAppend(q.questionText, "");
    }
  }

  /** The answers of a block, one line kind more. */
  lemma AnswersCombine(st: ScanState, prev: ScanState, next: ScanState, ks: seq<LineKind>)
    requires |ks| > 0 && st.current.Some?
    requires Continues(st, prev, OptionTexts(ks[..|ks| - 1]), CheckedTexts(ks[..|ks| - 1]))
    requires prev.current.Some?
    requires Continues(prev, next, OptionOf(ks[|ks| - 1]), CheckedOf(ks[|ks| - 1]))
    ensures Continues(st, next, OptionTexts(ks), CheckedTexts(ks))
  {
    var q := st.current.value;
    var init, k := ks[..|ks| - 1], ks[|ks| - 1];
    assert OptionTexts(ks) == OptionTexts(init) + OptionOf(k);
    assert CheckedTexts(ks) == CheckedTexts(init) + CheckedOf(k);
    AppendAssoc(q.options, OptionTexts(init), OptionOf(k));
    LastOrAppend(CheckedTexts(init), CheckedOf(k), q.correctAnswer);
    StartsWithTrans(q.questionText, prev.current.value.questionText, next.current.value.questionText);
  }

  /** Between two headers the options of the open question are extended by
      the escaped, trimmed text of each option line, in order and keeping
      duplicates; its answer becomes the text of the last checked option line
      and is left alone when there is none; its text only grows; and no
      question is closed. */
  lemma BlockAnswers(st: ScanState, body: seq<string>)
    requires st.current.Some?
    requires HeaderCount(Kinds(st.inCodeBlock, body)) == 0
    ensures var st' := RunFrom(st, body);
            var ks := Kinds(st.inCodeBlock, body);
            && st'.closed == st.closed
            && st'.current.Some?
            && st'.current.value.options == st.current.value.options + OptionTexts(ks)
            && st'.current.value.correctAnswer == LastOr(CheckedTexts(ks), st.current.value.correctAnswer)
            && StartsWith(st'.current.value.questionText, st.current.value.questionText)
            && st'.inQuestionText == (st.inQuestionText && |OptionTexts(ks)| == 0)
  {
    RunIsFold(st, body);
    FoldAnswers(st, Kinds(st.inCodeBlock, body), body);
  }

  /** A header line outside a fence closes the open question and opens one
      whose text starts with the escaped remainder of the header; up to the
      next header outside a fence, the new question's options are the
      escaped, trimmed option texts in order, and its answer is the last
      checked one, or empty when none is checked. */
  lemma QuestionFromHeader(st: ScanState, header: string, body: seq<string>)
    requires !st.inCodeBlock && HeaderMatch(header).Some?
    requires HeaderCount(Kinds(false, body)) == 0
    ensures var st' := RunFrom(st, [header] + body);
            var ks := Kinds(false, body);
            && st'.closed == st.closed + ToSeq(st.current)
            && st'.current.Some?
            && StartsWith(st'.current.value.questionText, EscapeHtml(HeaderMatch(header).value))
            && st'.current.value.options == OptionTexts(ks)
            && st'.current.value.correctAnswer == LastOr(CheckedTexts(ks), "")
            && st'.inQuestionText == (|OptionTexts(ks)| == 0)
  {
    HeaderIsClassified(header, false);
    RunOne(st, header);
    var started := RunFrom(st, [header]);
    assert started == OnHeader(st, HeaderMatch(header).value);
    RunFromAppend(st, [header], body);
    BlockAnswers(started, body);
  }

  // ---------------------------------------------------------- plain lines

  /** Only plain (non-header, non-option, non-fence) and blank lines. */
  predicate PlainOrBlank(ks: seq<LineKind>)
  {
    forall i :: 0 <= i < |ks| ==> ks[i].TextLine? || ks[i].BlankLine?
  }

  /** The question-text contribution of plain and blank lines: a line break
      and the escaped line for each plain one. */
  function BreakLines(ks: seq<LineKind>, lines: seq<string>): string
    requires |ks| == |lines|
    decreases |ks|
  {
    if |ks| == 0 then ""
    else
      var before := BreakLines(ks[..|ks| - 1], lines[..|lines| - 1]);
      if ks[|ks| - 1].TextLine? then before + "<br>" + EscapeHtml(lines[|lines| - 1]) else before
  }

  lemma {:induction false} FoldContinuation(st: ScanState, ks: seq<LineKind>, lines: seq<string>)
    requires |ks| == |lines| && st.current.Some? && st.inQuestionText && PlainOrBlank(ks)
    ensures Fold(st, ks, lines) == st.(current := Some(st.current.value.(
              questionText := st.current.value.questionText + BreakLines(ks, lines))))
    decreases |ks|
  {
    var q := st.current.value;
    if |ks| > 0 {
      var init, line := lines[..|lines| - 1], lines[|lines| - 1];
      assert PlainOrBlank(ks[..|ks| - 1]);
      FoldContinuation(st, ks[..|ks| - 1], init);
      if ks[|ks| - 1].TextLine? {
        assert q.questionText + BreakLines(ks[..|ks| - 1], init) + "<br>" + EscapeHtml(line)
            == q.questionText + BreakLines(ks, lines);
      }
    } else {
      assert q.questionText + "" == q.questionText;
    }
  }

  /** Before the first option line, each plain line extends the question
      text after a line break, and blank lines change nothing. */
  lemma ContinuationLines(st: ScanState, body: seq<string>)
    requires st.current.Some? && st.inQuestionText && !st.inCodeBlock
    requires PlainOrBlank(Kinds(false, body))
    ensures RunFrom(st, body) == st.(current := Some(st.current.value.(
              questionText := st.current.value.questionText + BreakLines(Kinds(false, body), body))))
  {
    RunIsFold(st, body);
    FoldContinuation(st, Kinds(false, body), body);
  }

  lemma {:induction false} FoldDropped(st: ScanState, ks: seq<LineKind>, lines: seq<string>)
    requires |ks| == |lines| && !st.inQuestionText && PlainOrBlank(ks)
    ensures Fold(st, ks, lines) == st
    decreases |ks|
  {
    if |ks| > 0 {
      assert PlainOrBlank(ks[..|ks| - 1]);
      FoldDropped(st, ks[..|ks| - 1], lines[..|lines| - 1]);
    }
  }

  /** After an option line, plain and blank lines are dropped: the state does
      not change. */
  lemma DroppedAfterOptions(st: ScanState, body: seq<string>)
    requires !st.inQuestionText && !st.inCodeBlock
    requires PlainOrBlank(Kinds(false, body))
    ensures RunFrom(st, body) == st
  {
    RunIsFold(st, body);
    FoldDropped(st, Kinds(false, body), body);
  }

  /** Once a block without headers has yielded an option and left no fence
      open, the plain and blank lines that follow it are dropped. */
  lemma DroppedAfterFirstOption(st: ScanState, block: seq<string>, rest: seq<string>)
    requires st.current.Some? && !st.inCodeBlock
    requires HeaderCount(Kinds(false, block)) == 0 && |OptionTexts(Kinds(false, block))| > 0
    requires !IsOdd(FenceCount(block))
    requires PlainOrBlank(Kinds(false, rest))
    ensures RunFrom(st, block + rest) == RunFrom(st, block)
  {
    var mid := RunFrom(st, block);
    BlockAnswers(st, block);
    FenceState(st, block);
    RunFromAppend(st, block, rest);
    DroppedAfterOptions(mid, rest);
  }

  // --------------------------------------------------------------- fences

  predicate NoFence(lines: seq<string>)
  {
    forall i :: 0 <= i < |lines| ==> !IsFence(lines[i])
  }

  lemma {:induction false} NoFenceCount(lines: seq<string>)
    requires NoFence(lines)
    ensures FenceCount(lines) == 0
    decreases |lines|
  {
    if |lines| > 0 {
      NoFenceCount(lines[..|lines| - 1]);
    }
  }

  /** Inside a fence, with no fence line ahead, every line is code. */
  lemma {:induction false} AllCodeLines(lines: seq<string>)
    requires NoFence(lines)
    ensures forall i :: 0 <= i < |lines| ==> Kinds(true, lines)[i] == CodeLine
    decreases |lines|
  {
    if |lines| > 0 {
      var init := lines[..|lines| - 1];
      AllCodeLines(init);
      NoFenceCount(init);
      assert Classify(lines[|lines| - 1], true) == CodeLine;
      var ks := Kinds(true, lines);
      assert ks == Kinds(true, init) + [CodeLine];
    }
  }

  /** The escaped form of each line. */
  function EscapeLines(lines: seq<string>): (r: seq<string>)
    ensures |r| == |lines|
  {
    if |lines| == 0 then []
    else EscapeLines(lines[..|lines| - 1]) + [EscapeHtml(lines[|lines| - 1])]
  }

  lemma {:induction false} EscapeLinesAt(lines: seq<string>, i: nat)
    requires i < |lines|
    ensures EscapeLines(lines)[i] == EscapeHtml(lines[i])
    decreases |lines|
  {
    if i < |lines| - 1 {
      EscapeLinesAt(lines[..|lines| - 1], i);
    }
  }

  /** Joining after one more part adds a separator and that part. */
  lemma {:induction false} JoinSnoc(parts: seq<string>, x: string, sep: string)
    requires |parts| > 0
    ensures Join(parts + [x], sep) == Join(parts, sep) + sep + x
    decreases |parts|
  {
    var ps := parts + [x];
    if |parts| == 1 {
      assert ps[1..] == [x];
    } else {
      assert ps[1..] == parts[1..] + [x];
      JoinSnoc(parts[1..], x, sep);
    }
  }

  /** Escaping each code line and joining them with newlines, as the scan
      does, is escaping the joined block: a newline is not escaped. */
  lemma {:induction false} EscapeJoin(lines: seq<string>)
    ensures Join(EscapeLines(lines), "\n") == EscapeHtml(Join(lines, "\n"))
    decreases |lines|
  {
    if |lines| == 1 {
      assert EscapeLines(lines) == [EscapeHtml(lines[0])];
    } else if |lines| > 1 {
      var init, last := lines[..|lines| - 1], lines[|lines| - 1];
      EscapeJoin(init);
      assert lines == init + [last];
      JoinSnoc(init, last, "\n");
      JoinSnoc(EscapeLines(init), EscapeHtml(last), "\n");
      EscapeHtmlConcat(Join(init, "\n") + "\n", last);
      EscapeHtmlConcat(Join(init, "\n"), "\n");
      EscapeHtmlIdentityOnSafe("\n");
    } else {
      assert EscapeHtml("") == "" by {
        EscapeHtmlIdentityOnSafe("");
      }
    }
  }

  lemma {:induction false} FoldCode(st: ScanState, ks: seq<LineKind>, lines: seq<string>)
    requires |ks| == |lines|
    requires forall i :: 0 <= i < |ks| ==> ks[i] == CodeLine
    ensures Fold(st, ks, lines) == st.(codeLines := st.codeLines + EscapeLines(lines))
    decreases |ks|
  {
    if |ks| > 0 {
      var init := lines[..|lines| - 1];
      FoldCode(st, ks[..|ks| - 1], init);
      assert st.codeLines + EscapeLines(init) + [EscapeHtml(lines[|lines| - 1])]
          == st.codeLines + EscapeLines(lines);
    } else {
      assert st.codeLines + [] == st.codeLines;
    }
  }

  /** Inside a fence every line, whatever it looks like, is escaped and
      stored in the code accumulator, and nothing else changes. */
  lemma CodeLinesAccumulate(st: ScanState, code: seq<string>)
    requires st.inCodeBlock && NoFence(code)
    ensures RunFrom(st, code) == st.(codeLines := st.codeLines + EscapeLines(code))
  {
    RunIsFold(st, code);
    AllCodeLines(code);
    FoldCode(st, Kinds(true, code), code);
  }

  /** A fenced block appends exactly one preformatted fragment, holding its
      escaped lines joined by newlines, to the open question's text, whether
      or not options have been seen; the fence lines themselves are stored
      nowhere; and a block closed with no question open is discarded. */
  lemma FencedBlock(st: ScanState, openFence: string, code: seq<string>, closeFence: string)
    requires !st.inCodeBlock && st.codeLines == []
    requires IsFence(openFence) && IsFence(closeFence) && NoFence(code)
    ensures RunFrom(st, [openFence] + code + [closeFence])
         == st.(current := AppendCode(st.current, EscapeLines(code)))
  {
    FenceOpens(st, openFence, code);
    var inside := RunFrom(st, [openFence] + code);
    RunFromAppend(st, [openFence] + code, [closeFence]);
    RunOne(inside, closeFence);
    FenceStep(inside, closeFence);
  }

  /** An opening fence and the code lines after it only collect the escaped
      lines. */
  lemma FenceOpens(st: ScanState, openFence: string, code: seq<string>)
    requires !st.inCodeBlock && st.codeLines == []
    requires IsFence(openFence) && NoFence(code)
    ensures RunFrom(st, [openFence] + code) == st.(inCodeBlock := true, codeLines := EscapeLines(code))
  {
    RunOne(st, openFence);
    FenceStep(st, openFence);
    var started := RunFrom(st, [openFence]);
    assert started == st.(inCodeBlock := true);
    RunFromAppend(st, [openFence], code);
    CodeLinesAccumulate(started, code);
  }

  /** A fence line is handled by `OnFence`, whatever the state. */
  lemma FenceStep(st: ScanState, line: string)
    requires IsFence(line)
    ensures Step(st, line) == OnFence(st)
  {
    assert Classify(line, st.inCodeBlock) == FenceLine;
  }

  /** A fence that is never closed contributes nothing to the result. */
  lemma UnterminatedFence(st: ScanState, openFence: string, rest: seq<string>)
    requires !st.inCodeBlock && IsFence(openFence) && NoFence(rest)
    ensures Finish(RunFrom(st, [openFence] + rest)) == Finish(st)
  {
    RunOne(st, openFence);
    FenceStep(st, openFence);
    RunFromAppend(st, [openFence], rest);
    CodeLinesAccumulate(RunFrom(st, [openFence]), rest);
  }

  // ------------------------------------------------------------- preamble

  /** The state of a scan that has met no header yet. */
  predicate BeforeFirstHeader(st: ScanState)
  {
    st.closed == [] && st.current.None? && !st.inQuestionText
  }

  lemma {:induction false} FoldPreamble(st: ScanState, ks: seq<LineKind>, lines: seq<string>)
    requires |ks| == |lines| && BeforeFirstHeader(st) && HeaderCount(ks) == 0
    ensures BeforeFirstHeader(Fold(st, ks, lines))
    decreases |ks|
  {
    if |ks| > 0 {
      FoldPreamble(st, ks[..|ks| - 1], lines[..|lines| - 1]);
    }
  }

  /** Lines before the first header are ignored, once any fence they open is
      closed: option-like and text lines there have no question to join. */
  lemma PreambleIgnored(pre: seq<string>, post: seq<string>)
    requires HeaderCount(Kinds(false, pre)) == 0 && !IsOdd(FenceCount(pre))
    ensures ParseLines(pre + post) == ParseLines(post)
  {
    RunIsFold(Start, pre);
    FoldPreamble(Start, Kinds(false, pre), pre);
    FenceState(Start, pre);
    RunSafe(Start, pre);
    assert RunFrom(Start, pre) == Start;
    RunFromAppend(Start, pre, post);
  }
}
