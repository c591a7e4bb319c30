/** The arithmetic of a quiz session: how many of the parsed questions are
    shown and which, how the answers are scored against the pass rate, how
    long the quiz lasts, and how the remaining time is written. */
module QuizSession {
  import opened Options
  import opened Text
  import opened Numbers
  import opened QuizParser
  import opened FisherYates
  import opened TimerDisplay

  const NumQuestionsToDisplay: nat := 20
  const PassRatePercentage: nat := 75
  /** In minutes. */
  const DefaultQuizTime: nat := 10

  // ------------------------------------------------------------ the sample

  /** `Math.min(NUM_QUESTIONS_TO_DISPLAY, n)`. */
  function SampleCount(n: nat): (k: nat)
    ensures k <= n && k <= NumQuestionsToDisplay
    ensures k == n || k == NumQuestionsToDisplay
  {
    if NumQuestionsToDisplay < n then NumQuestionsToDisplay else n
  }

  /** `shuffleArray([...all]).slice(0, count)`: a copy of the parsed list is
      shuffled with the choices `c` and its first `count` entries are shown.
      They are the leading entries of the shuffle, they come from distinct
      positions of `all`, and none is shown more often than it was parsed. */
  method SelectQuestions<T>(all: seq<T>, c: seq<nat>) returns (shown: seq<T>)
    requires ValidChoices(|all|, c)
    ensures |shown| == SampleCount(|all|)
    ensures |shown| == 0 <==> |all| == 0
    ensures shown == Shuffle(all, c)[..|shown|]
    ensures forall i :: 0 <= i < |shown| ==> shown[i] == all[PositionsDown(|all|, c, 1)[i]]
    ensures forall i, j :: 0 <= i < j < |shown| ==>
              PositionsDown(|all|, c, 1)[i] != PositionsDown(|all|, c, 1)[j]
    ensures multiset(shown) <= multiset(all)
  {
    var a := new T[|all|](i requires 0 <= i < |all| => all[i]);
    assert a[..] == all;
    var b := ShuffleArray(a, c);
    var count := SampleCount(|all|);
    shown := b[..count];
    LeadingOfShuffle(all, c, shown);
  }

  /** The leading entries of a shuffle come from distinct positions of the
      list, each read once. */
  lemma LeadingOfShuffle<T>(all: seq<T>, c: seq<nat>, shown: seq<T>)
    requires ValidChoices(|all|, c) && |shown| <= |all|
    requires shown == Shuffle(all, c)[..|shown|]
    ensures forall i :: 0 <= i < |shown| ==> shown[i] == all[PositionsDown(|all|, c, 1)[i]]
    ensures forall i, j :: 0 <= i < j < |shown| ==>
              PositionsDown(|all|, c, 1)[i] != PositionsDown(|all|, c, 1)[j]
    ensures multiset(shown) <= multiset(all)
  {
    var r := Shuffle(all, c);
    ShuffleIndex(all, c);
    assert r == shown + r[|shown|..];
    assert multiset(r) == multiset(shown) + multiset(r[|shown|..]);
  }

  // ------------------------------------------------------------ the score

  /** Question `i` counts as answered correctly: an option is selected and
      its value is exactly the correct answer. `None` is no selection. */
  predicate IsCorrectAt(shown: seq<Question>, selected: seq<Option<string>>, i: nat)
    requires |selected| == |shown| && i < |shown|
  {
    selected[i].Some? && selected[i].value == shown[i].correctAnswer
  }

  /** The `reduce` of `calculateResults`, one question at a time. */
  function CountCorrect(shown: seq<Question>, selected: seq<Option<string>>): (n: nat)
    requires |selected| == |shown|
    ensures n <= |shown|
  {
    if |shown| == 0 then 0
    else
      var k := |shown| - 1;
      CountCorrect(shown[..k], selected[..k]) + (if IsCorrectAt(shown, selected, k) then 1 else 0)
  }

  /** The indices of the correctly answered questions. */
  function CorrectSet(shown: seq<Question>, selected: seq<Option<string>>): set<nat>
    requires |selected| == |shown|
  {
    set i: nat | i < |shown| && IsCorrectAt(shown, selected, i)
  }

  /** The count is the number of correctly answered questions. */
  lemma {:induction false} CountIsCorrectSet(shown: seq<Question>, selected: seq<Option<string>>)
    requires |selected| == |shown|
    ensures CountCorrect(shown, selected) == |CorrectSet(shown, selected)|
    decreases |shown|
  {
    if |shown| > 0 {
      var k := |shown| - 1;
      CountIsCorrectSet(shown[..k], selected[..k]);
      var before := CorrectSet(shown[..k], selected[..k]);
      var here := if IsCorrectAt(shown, selected, k) then {k} else {};
      assert CorrectSet(shown, selected) == before + here;
      assert k !in before;
    } else {
      assert CorrectSet(shown, selected) == {};
    }
  }

  /** Every question right gives the full count, and only then; none right
      gives zero, and only then. */
  lemma {:induction false} CountExtremes(shown: seq<Question>, selected: seq<Option<string>>)
    requires |selected| == |shown|
    ensures CountCorrect(shown, selected) == |shown| <==>
              forall i :: 0 <= i < |shown| ==> IsCorrectAt(shown, selected, i)
    ensures CountCorrect(shown, selected) == 0 <==>
              forall i :: 0 <= i < |shown| ==> !IsCorrectAt(shown, selected, i)
    decreases |shown|
  {
    if |shown| > 0 {
      var k := |shown| - 1;
      CountExtremes(shown[..k], selected[..k]);
      assert forall i :: 0 <= i < k ==>
        IsCorrectAt(shown, selected, i) == IsCorrectAt(shown[..k], selected[..k], i);
    }
  }

  /** `scorePercentage >= PASS_RATE_PERCENTAGE`, with the percentage
      `count / total * 100` compared without rounding. With no question the
      percentage is `NaN` and the test fails. */
  predicate IsApproved(count: nat, total: nat)
  {
    total > 0 && 100 * count >= PassRatePercentage * total
  }

  /** The fewest correct answers that pass: the pass rate of the total,
      rounded up. */
  function MinimumToPass(total: nat): nat
  {
    (PassRatePercentage * total + 99) / 100
  }

  /** A quiz is passed exactly when at least `MinimumToPass(total)` answers
      are right. */
  lemma ApprovedIffMinimum(count: nat, total: nat)
    requires total > 0
    ensures IsApproved(count, total) <==> count >= MinimumToPass(total)
  {
    var m := MinimumToPass(total);
    assert 100 * m <= 75 * total + 99 < 100 * m + 100;
  }

  /** One more right answer never turns a pass into a fail. */
  lemma ApprovedMonotone(count: nat, more: nat, total: nat)
    requires IsApproved(count, total) && count <= more
    ensures IsApproved(more, total)
  {
  }

  // ------------------------------------------------------------ the timer

  /** A padded decimal numeral still reads as its number. */
  lemma PaddedValue(n: nat)
    ensures AllDigits(PadStart2(NatToString(n)))
    ensures AllRadixDigits(PadStart2(NatToString(n)), 10)
    ensures RadixValue(PadStart2(NatToString(n)), 10) == n
    ensures n < 100 ==> |PadStart2(NatToString(n))| == 2
  {
    var s := NatToString(n);
    NatToStringValue(n);
    if |s| < 2 {
      LeadingZerosValue(2 - |s|, s, 10);
      assert PadStart2(s) == seq(2 - |s|, _ => '0') + s;
      AllDigitsAreDecimal(s);
    }
  }

  /** `text` is `mm:ss` with a minutes field of at least two decimal digits
      holding `m` (exactly two below 100 minutes), a colon, a seconds field
      of exactly two decimal digits holding `sec`, and reads back as
      `60 * m + sec`. */
  predicate IsTimerDisplay(text: string, m: nat, sec: nat)
  {
    && |text| >= 5 && text[|text| - 3] == ':'
    && AllDigits(text[..|text| - 3]) && AllDigits(text[|text| - 2..])
    && AllRadixDigits(text[..|text| - 3], 10) && RadixValue(text[..|text| - 3], 10) == m
    && AllRadixDigits(text[|text| - 2..], 10) && RadixValue(text[|text| - 2..], 10) == sec
    && (m < 100 ==> |text| == 5)
    && ReadTimer(text) == Some(60 * m + sec)
  }

  /** For a non-negative time the display has a minutes field holding
      `t / 60`, a colon and a two-digit seconds field holding `t % 60`; it
      is five characters in all below 100 minutes, and it reads back as the
      time it shows. */
  lemma TimerTextShape(t: nat)
    ensures IsTimerDisplay(TimerText(t), t / 60, t % 60)
    ensures t < 6000 ==> |TimerText(t)| == 5
    ensures ReadTimer(TimerText(t)) == Some(t)
  {
    var m, sec := t / 60, t % 60;
    DivMod60(t, m, sec);
    assert TimerText(t) == Display(m, sec);
    DisplayFields(m, sec);
  }

  lemma DivMod60(t: nat, m: nat, sec: nat)
    requires m == t / 60 && sec == t % 60
    ensures 60 * m + sec == t && sec < 60 && (t < 6000 ==> m < 100)
  {
  }

  /** The display of `m` minutes and `sec` seconds is the two padded
      numerals around a colon, and reads back as `60 * m + sec`. */
  lemma DisplayFields(m: nat, sec: nat)
    requires sec < 60
    ensures IsTimerDisplay(Display(m, sec), m, sec)
  {
    PaddedValue(m);
    PaddedValue(sec);
    FieldsRead(Display(m, sec), PadStart2(NatToString(m)), PadStart2(NatToString(sec)), m, sec);
  }

  /** A text `mm:ss` of two decimal fields, the second of two digits. */
  lemma FieldsRead(text: string, mm: string, ss: string, m: nat, sec: nat)
    requires text == mm + ":" + ss
    requires |mm| >= 2 && (m < 100 ==> |mm| == 2) && |ss| == 2
    requires AllDigits(mm) && AllDigits(ss)
    requires AllRadixDigits(mm, 10) && AllRadixDigits(ss, 10)
    requires RadixValue(mm, 10) == m && RadixValue(ss, 10) == sec
    ensures IsTimerDisplay(text, m, sec)
  {
    ColonSplit(text, mm, ss);
    ReadFields(text, mm, ss, m, sec);
  }

  /** The two sides of the colon of `mm:ss`, when `ss` has two characters. */
  lemma ColonSplit(text: string, mm: string, ss: string)
    requires text == mm + ":" + ss && |ss| == 2
    ensures |text| == |mm| + 3 && text[|text| - 3] == ':'
    ensures text[..|text| - 3] == mm && text[|text| - 2..] == ss
  {
  }

  /** Two digit fields around a colon read as minutes and seconds. */
  lemma ReadFields(text: string, mm: string, ss: string, m: nat, sec: nat)
    requires |text| >= 5 && text[|text| - 3] == ':'
    requires text[..|text| - 3] == mm && text[|text| - 2..] == ss
    requires AllDigits(mm) && AllDigits(ss)
    requires AllRadixDigits(mm, 10) && AllRadixDigits(ss, 10)
    requires RadixValue(mm, 10) == m && RadixValue(ss, 10) == sec
    ensures ReadTimer(text) == Some(60 * m + sec)
  {
  }

  // ------------------------------------------------------------ the length

  /** `(parseInt(input) || DEFAULT_QUIZ_TIME) * 60`: `NaN` and `0` are
      falsy, so both fall back to the default number of minutes. */
  function QuizDurationSeconds(input: string): (seconds: int)
    ensures seconds % 60 == 0
  {
    var parsed := ParseInt(input);
    var minutes := if parsed.None? || parsed.value == 0 then DefaultQuizTime as int else parsed.value;
    minutes * 60
  }

  /** A field holding the decimal text of `n` minutes gives `n` minutes,
      except that zero minutes gives the default of ten. */
  lemma DurationOfMinutes(n: nat)
    ensures QuizDurationSeconds(NatToString(n)) == if n == 0 then 600 else 60 * n
  {
    ParseIntToString(n);
  }

  /** A field without a single decimal digit, an empty one included,
      gives the default of ten minutes. */
  lemma DurationWithoutDigits(input: string)
    requires forall i :: 0 <= i < |input| ==> !IsDigit(input[i])
    ensures QuizDurationSeconds(input) == 600
  {
    NoDigitsNaN(input);
  }

  /** `parseInt` of a text without decimal digits is `NaN`. */
  lemma NoDigitsNaN(input: string)
    requires forall i :: 0 <= i < |input| ==> !IsDigit(input[i])
    ensures ParseInt(input).None?
  {
    var t := TrimStart(input);
    NoDigitsInSuffix(input, |input| - |t|);
    NoDigitsUnsigned(t);
  }

  lemma NoDigitsInSuffix(s: string, k: nat)
    requires k <= |s| && forall i :: 0 <= i < |s| ==> !IsDigit(s[i])
    ensures forall i :: 0 <= i < |s[k..]| ==> !IsDigit(s[k..][i])
  {
    assert forall i :: 0 <= i < |s[k..]| ==> s[k..][i] == s[k + i];
  }

  /** Neither the text nor the text after a sign holds a magnitude. */
  lemma NoDigitsUnsigned(t: string)
    requires forall i :: 0 <= i < |t| ==> !IsDigit(t[i])
    ensures ParseMagnitude(t).None?
    ensures |t| > 0 ==> ParseMagnitude(t[1..]).None?
  {
    NoDigitsNoMagnitude(t);
    if |t| > 0 {
      NoDigitsInSuffix(t, 1);
      NoDigitsNoMagnitude(t[1..]);
    }
  }

  lemma NoDigitsNoMagnitude(u: string)
    requires forall i :: 0 <= i < |u| ==> !IsDigit(u[i])
    ensures ParseMagnitude(u).None?
  {
    if |u| > 0 {
      assert DigitValue(u[0]) >= 10;
    }
  }
}
