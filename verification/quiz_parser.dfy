/** `parseQuizContent`: a single pass over the lines of a quiz document that
    opens a question at each header line, collects its option lines and
    fenced code, closes it at the next header or at the end of input, and
    finally keeps only the well-formed questions. The scan is a fold of
    `Step` over the lines, threading an explicit `ScanState`. */
module QuizParser {
  import opened Options
  import opened Text
  import opened Html
  import opened LinePatterns

  /** A question record; every field holds escaped text. */
  datatype Question = Question(questionText: string, options: seq<string>, correctAnswer: string)

  /** The scanning state: the questions closed so far (`parsedQuestions`),
      the question under construction (`currentQuestion`), whether a fence is
      open, whether plain lines still extend the question text, and the
      escaped lines of the open fence (`currentCodeBlock`). */
  datatype ScanState = ScanState(
    closed: seq<Question>,
    current: Option<Question>,
    inCodeBlock: bool,
    inQuestionText: bool,
    codeLines: seq<string>)

  const Start: ScanState := ScanState([], None, false, false, [])

  /** The question text with the closed fence's code appended as a
      preformatted block; nothing happens when no question is open. */
  function AppendCode(current: Option<Question>, codeLines: seq<string>): (r: Option<Question>)
    ensures r.Some? <==> current.Some?
    ensures r.Some? ==> r.value.options == current.value.options
    ensures r.Some? ==> r.value.correctAnswer == current.value.correctAnswer
    ensures r.Some? ==> r.value.questionText == current.value.questionText + FormatCodeBlock(Join(codeLines, "\n"))
  {
    match current
    case None => None
    case Some(q) => Some(q.(questionText := q.questionText + FormatCodeBlock(Join(codeLines, "\n"))))
  }

  /** One iteration of the scanning loop: classify the line, then act on it. */
  function Step(st: ScanState, line: string): ScanState
  {
    StepKind(st, Classify(line, st.inCodeBlock), line)
  }

  /** The action taken for a line of kind `k`. */
  function StepKind(st: ScanState, k: LineKind, line: string): ScanState
  {
    match k
    case FenceLine => OnFence(st)
    case CodeLine => st.(codeLines := st.codeLines + [EscapeHtml(line)])
    case BlankLine => st
    case HeaderLine(text) => OnHeader(st, text)
    case OptionLine(checked, text) => OnOption(st, checked, text)
    case TextLine => OnText(st, line)
  }

  /** A fence line: closing a fence appends its code to the open question
      (if any) and clears the accumulator; opening one only sets the flag. */
  function OnFence(st: ScanState): ScanState
  {
    if st.inCodeBlock then
      st.(current := AppendCode(st.current, st.codeLines), codeLines := [], inCodeBlock := false)
    else
      st.(inCodeBlock := true)
  }

  /** A header line closes the open question and opens a new one. */
  function OnHeader(st: ScanState, text: string): ScanState
  {
    st.(closed := st.closed + ToSeq(st.current),
        current := Some(Question(EscapeHtml(text), [], "")),
        inQuestionText := true)
  }

  /** An option line adds an option to the open question; a checked one also
      replaces the correct answer. */
  function OnOption(st: ScanState, checked: bool, text: string): ScanState
  {
    match st.current
    case None => st
    case Some(q) =>
      var option := EscapeHtml(Trim(text));
      st.(current := Some(q.(options := q.options + [option],
                             correctAnswer := if checked then option else q.correctAnswer)),
          inQuestionText := false)
  }

  /** Any other line extends the question text while no option has been seen. */
  function OnText(st: ScanState, line: string): ScanState
  {
    match st.current
    case Some(q) =>
      if st.inQuestionText then
        st.(current := Some(q.(questionText := q.questionText + "<br>" + EscapeHtml(line))))
      else st
    case None => st
  }

  /** The state after scanning `lines` from `st`. */
  function RunFrom(st: ScanState, lines: seq<string>): ScanState
    decreases |lines|
  {
    if |lines| == 0 then st
    else Step(RunFrom(st, lines[..|lines| - 1]), lines[|lines| - 1])
  }

  /** End of input: a question still open is closed too. */
  function Finish(st: ScanState): seq<Question>
  {
    st.closed + ToSeq(st.current)
  }

  /** The filter at the end of the parse: non-empty text, at least two
      options, and a non-empty correct answer that is one of the options. */
  predicate IsValid(q: Question)
  {
    && |q.questionText| > 0
    && |q.options| >= 2
    && |q.correctAnswer| > 0
    && q.correctAnswer in q.options
  }

  /** `parsedQuestions.filter(...)`: the valid questions, in order. */
  function Filter(qs: seq<Question>): (r: seq<Question>)
    ensures |r| <= |qs|
    ensures forall q :: q in r <==> q in qs && IsValid(q)
  {
    if |qs| == 0 then []
    else (if IsValid(qs[0]) then [qs[0]] else []) + Filter(qs[1..])
  }

  /** The parse of a document already split into lines. */
  function ParseLines(lines: seq<string>): seq<Question>
  {
    Filter(Finish(RunFrom(Start, lines)))
  }

  /** Options and the correct answer never hold raw markup characters. */
  predicate SafeAnswers(q: Question)
  {
    && (forall k :: 0 <= k < |q.options| ==> NoRawMarkup(q.options[k]))
    && NoRawMarkup(q.correctAnswer)
  }

  /** `parseQuizContent(content)`: every question returned passes the
      filter, and its options and answer are escaped text. */
  function ParseQuizContent(content: string): (r: seq<Question>)
    ensures forall q :: q in r ==> IsValid(q) && SafeAnswers(q)
  {
    var lines := Split(content, '\n');
    RunSafe(Start, lines);
    ParseLines(lines)
  }

  // ------------------------------------------------------------ the fold

  /** Scanning a concatenation scans the parts in turn. */
  lemma {:induction false} RunFromAppend(st: ScanState, a: seq<string>, b: seq<string>)
    ensures RunFrom(st, a + b) == RunFrom(RunFrom(st, a), b)
    decreases |b|
  {
    if |b| == 0 {
      assert a + b == a;
    } else {
      assert (a + b)[..|a + b| - 1] == a + b[..|b| - 1];
      assert (a + b)[|a + b| - 1] == b[|b| - 1];
      RunFromAppend(st, a, b[..|b| - 1]);
    }
  }

  // ------------------------------------------------------------ invariants

  /** What every reachable state satisfies: no code is pending outside a
      fence, question text is only extended while a question is open, and
      every option and answer seen so far is escaped. */
  predicate WellFormed(st: ScanState)
  {
    && (!st.inCodeBlock ==> st.codeLines == [])
    && (st.inQuestionText ==> st.current.Some?)
    && (forall k :: 0 <= k < |st.closed| ==> SafeAnswers(st.closed[k]))
    && (st.current.Some? ==> SafeAnswers(st.current.value))
  }

  lemma StepSafe(st: ScanState, line: string)
    requires WellFormed(st)
    ensures WellFormed(Step(st, line))
  {
    StepKindSafe(st, Classify(line, st.inCodeBlock), line);
  }

  /** A code line only comes while a fence is open. */
  lemma StepKindSafe(st: ScanState, k: LineKind, line: string)
    requires WellFormed(st) && (k.CodeLine? ==> st.inCodeBlock)
    ensures WellFormed(StepKind(st, k, line))
  {
    match k
    case FenceLine =>
    case CodeLine =>
    case BlankLine =>
    case HeaderLine(text) => HeaderSafe(st, text);
    case OptionLine(checked, text) => OptionSafe(st, checked, text);
    case TextLine =>
  }

  lemma HeaderSafe(st: ScanState, text: string)
    requires WellFormed(st)
    ensures WellFormed(OnHeader(st, text))
  {
    var st' := OnHeader(st, text);
    assert forall j :: 0 <= j < |st'.closed| ==>
      st'.closed[j] == (if j < |st.closed| then st.closed[j] else st.current.value);
  }

  lemma OptionSafe(st: ScanState, checked: bool, text: string)
    requires WellFormed(st)
    ensures WellFormed(OnOption(st, checked, text))
  {
    if st.current.Some? {
      var option := EscapeHtml(Trim(text));
      EscapeHtmlNoRawMarkup(Trim(text));
      var q := st.current.value;
      var q' := q.(options := q.options + [option],
                   correctAnswer := if checked then option else q.correctAnswer);
      OptionAdded(q, checked, option, q');
      assert OnOption(st, checked, text) == st.(current := Some(q'), inQuestionText := false);
    }
  }

  /** Recording an escaped option keeps the question's answers escaped. */
  lemma OptionAdded(q: Question, checked: bool, option: string, q': Question)
    requires SafeAnswers(q) && NoRawMarkup(option)
    requires q' == q.(options := q.options + [option],
                      correctAnswer := if checked then option else q.correctAnswer)
    ensures SafeAnswers(q')
  {
    assert forall k :: 0 <= k < |q'.options| ==>
      q'.options[k] == (if k < |q.options| then q.options[k] else option);
  }

  lemma {:induction false} RunSafe(st: ScanState, lines: seq<string>)
    requires WellFormed(st)
    ensures WellFormed(RunFrom(st, lines))
    ensures forall q :: q in Finish(RunFrom(st, lines)) ==> SafeAnswers(q)
    decreases |lines|
  {
    if |lines| > 0 {
      RunSafe(st, lines[..|lines| - 1]);
      StepSafe(RunFrom(st, lines[..|lines| - 1]), lines[|lines| - 1]);
    }
    var end := RunFrom(st, lines);
    forall q | q in Finish(end)
      ensures SafeAnswers(q)
    {
      var k :| 0 <= k < |Finish(end)| && Finish(end)[k] == q;
      if k >= |end.closed| {
        assert q == end.current.value;
      }
    }
  }

  // ------------------------------------------------------------ the filter

  /** The filter distributes over concatenation, so it keeps the valid
      questions of each part, in order, and drops nothing else. */
  lemma {:induction false} FilterAppend(a: seq<Question>, b: seq<Question>)
    ensures Filter(a + b) == Filter(a) + Filter(b)
    decreases |a|
  {
    if |a| == 0 {
      assert a + b == b;
    } else {
      assert (a + b)[1..] == a[1..] + b;
      FilterAppend(a[1..], b);
    }
  }

  /** `a` can be obtained from `b` by deleting elements. */
  predicate IsSubsequence<T(==)>(a: seq<T>, b: seq<T>)
    decreases |b|
  {
    if |a| == 0 then true
    else if |b| == 0 then false
    else (a[0] == b[0] && IsSubsequence(a[1..], b[1..])) || IsSubsequence(a, b[1..])
  }

  /** The filter's result is an in-order subsequence of its input. */
  lemma {:induction false} FilterIsSubsequence(qs: seq<Question>)
    ensures IsSubsequence(Filter(qs), qs)
    decreases |qs|
  {
    if |qs| > 0 {
      FilterIsSubsequence(qs[1..]);
      var r := Filter(qs);
      if IsValid(qs[0]) {
        assert r == [qs[0]] + Filter(qs[1..]);
        assert r[0] == qs[0] && r[1..] == Filter(qs[1..]);
      } else {
        assert r == Filter(qs[1..]);
      }
    }
  }

  /** The filter keeps every occurrence of a valid question and none of an
      invalid one. */
  lemma {:induction false} FilterCounts(qs: seq<Question>, q: Question)
    ensures multiset(Filter(qs))[q] == (if IsValid(q) then multiset(qs)[q] else 0)
    decreases |qs|
  {
    if |qs| > 0 {
      FilterCounts(qs[1..], q);
      assert qs == [qs[0]] + qs[1..];
    }
  }

  // ------------------------------------------------------------ fence state

  /** How many fence lines `lines` holds. */
  function FenceCount(lines: seq<string>): (n: nat)
    ensures n <= |lines|
    decreases |lines|
  {
    if |lines| == 0 then 0
    else FenceCount(lines[..|lines| - 1]) + (if IsFence(lines[|lines| - 1]) then 1 else 0)
  }

  /** Whether a fence is open after `lines` when one was open before exactly
      when `inFence` holds: every fence line toggles. */
  function FenceOpenAfter(inFence: bool, lines: seq<string>): bool
  {
    inFence != IsOdd(FenceCount(lines))
  }

  predicate IsOdd(n: nat)
  {
    n % 2 == 1
  }

  lemma OddSucc(n: nat)
    ensures IsOdd(n + 1) == !IsOdd(n)
  {
  }

  /** The scan's fence flag is the parity of the fence lines seen. */
  lemma {:induction false} FenceState(st: ScanState, lines: seq<string>)
    ensures RunFrom(st, lines).inCodeBlock == FenceOpenAfter(st.inCodeBlock, lines)
    decreases |lines|
  {
    if |lines| > 0 {
      var init, last := lines[..|lines| - 1], lines[|lines| - 1];
      FenceState(st, init);
      RunFenceFlag(st, lines);
      FenceOpenSnoc(st.inCodeBlock, lines);
    }
  }

  /** A fence line as the last line toggles the parity of the count. */
  lemma FenceOpenSnoc(inFence: bool, lines: seq<string>)
    requires |lines| > 0
    ensures FenceOpenAfter(inFence, lines) ==
              (FenceOpenAfter(inFence, lines[..|lines| - 1]) != IsFence(lines[|lines| - 1]))
  {
    var b := IsFence(lines[|lines| - 1]);
    ParityToggle(inFence, FenceCount(lines[..|lines| - 1]), FenceCount(lines), b);
  }

  lemma ParityToggle(inFence: bool, n: nat, m: nat, b: bool)
    requires m == n + (if b then 1 else 0)
    ensures (inFence != IsOdd(m)) == ((inFence != IsOdd(n)) != b)
  {
    OddSucc(n);
  }

  /** The last line toggles the fence flag exactly when it is a fence line. */
  lemma RunFenceFlag(st: ScanState, lines: seq<string>)
    requires |lines| > 0
    ensures RunFrom(st, lines).inCodeBlock ==
              (RunFrom(st, lines[..|lines| - 1]).inCodeBlock != IsFence(lines[|lines| - 1]))
  {
    StepFenceFlag(RunFrom(st, lines[..|lines| - 1]), lines[|lines| - 1]);
  }

  lemma StepFenceFlag(st: ScanState, line: string)
    ensures Step(st, line).inCodeBlock == (st.inCodeBlock != IsFence(line))
  {
    var k := Classify(line, st.inCodeBlock);
    assert Step(st, line) == StepKind(st, k, line);
  }
}
