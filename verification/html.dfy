/** The two markup helpers of the quiz parser: `escapeHtml`, a chain of five
    global single-character replacements, and `formatCodeBlock`. */
module Html {
  import opened Text

  /** `s.replace(/t/g, with)`: every occurrence of the character `t` replaced
      by the string `with`. */
  function ReplaceAll(s: string, t: char, with: string): string
  {
    if |s| == 0 then ""
    else (if s[0] == t then with else [s[0]]) + ReplaceAll(s[1..], t, with)
  }

  /** Replacing in a concatenation replaces in each part. */
  lemma {:induction false} ReplaceAllConcat(a: string, b: string, t: char, with: string)
    ensures ReplaceAll(a + b, t, with) == ReplaceAll(a, t, with) + ReplaceAll(b, t, with)
    decreases |a|
  {
    if |a| > 0 {
      assert (a + b)[1..] == a[1..] + b;
      ReplaceAllConcat(a[1..], b, t, with);
    } else {
      assert a + b == b;
    }
  }

  /** A chain of `.replace` calls applied in order. */
  function ReplaceChain(s: string, steps: seq<(char, string)>): string
    decreases |steps|
  {
    if |steps| == 0 then s
    else ReplaceChain(ReplaceAll(s, steps[0].0, steps[0].1), steps[1..])
  }

  /** The replacements of `escapeHtml`, in the order written: `&` first. */
  const EscapeSteps: seq<(char, string)> :=
    [('&', "&amp;"), ('<', "&lt;"), ('>', "&gt;"), ('"', "&quot;"), ('\'', "&#039;")]

  /** `escapeHtml` exactly as written. */
  function EscapeHtml(s: string): string
  {
    ReplaceChain(s, EscapeSteps)
  }

  /** The chain spelled out one replacement at a time. */
  lemma EscapeHtmlUnrolled(s: string)
    ensures EscapeHtml(s)
         == ReplaceAll(ReplaceAll(ReplaceAll(ReplaceAll(ReplaceAll(
              s, '&', "&amp;"), '<', "&lt;"), '>', "&gt;"), '"', "&quot;"), '\'', "&#039;")
  {
    var steps := EscapeSteps;
    assert steps[1..][1..][1..][1..][1..] == [];
  }

  /** The character reference written for one character. */
  function EscapeChar(c: char): (r: string)
    ensures |r| >= 1
    ensures IsSpecial(c) <==> r != [c]
  {
    match c
    case '&' => "&amp;"
    case '<' => "&lt;"
    case '>' => "&gt;"
    case '"' => "&quot;"
    case '\'' => "&#039;"
    case _ => [c]
  }

  predicate IsSpecial(c: char)
  {
    c == '&' || c == '<' || c == '>' || c == '"' || c == '\''
  }

  /** The per-character reading of escaping: each character mapped on its own. */
  function EscapeEach(s: string): (r: string)
    ensures |r| >= |s|
    ensures NoRawMarkup(r)
    ensures (forall k :: 0 <= k < |s| ==> !IsSpecial(s[k])) ==> r == s
  {
    if |s| == 0 then "" else EscapeChar(s[0]) + EscapeEach(s[1..])
  }

  /** No character that markup would interpret other than `&` (which, after
      escaping, only ever starts a character reference). */
  predicate NoRawMarkup(s: string)
  {
    forall k :: 0 <= k < |s| ==> s[k] != '<' && s[k] != '>' && s[k] != '"' && s[k] != '\''
  }

  lemma EscapeHtmlConcat(a: string, b: string)
    ensures EscapeHtml(a + b) == EscapeHtml(a) + EscapeHtml(b)
  {
    EscapeHtmlUnrolled(a);
    EscapeHtmlUnrolled(b);
    EscapeHtmlUnrolled(a + b);
    var a1, b1 := ReplaceAll(a, '&', "&amp;"), ReplaceAll(b, '&', "&amp;");
    ReplaceAllConcat(a, b, '&', "&amp;");
    var a2, b2 := ReplaceAll(a1, '<', "&lt;"), ReplaceAll(b1, '<', "&lt;");
    ReplaceAllConcat(a1, b1, '<', "&lt;");
    var a3, b3 := ReplaceAll(a2, '>', "&gt;"), ReplaceAll(b2, '>', "&gt;");
    ReplaceAllConcat(a2, b2, '>', "&gt;");
    var a4, b4 := ReplaceAll(a3, '"', "&quot;"), ReplaceAll(b3, '"', "&quot;");
    ReplaceAllConcat(a3, b3, '"', "&quot;");
    ReplaceAllConcat(a4, b4, '\'', "&#039;");
  }

  /** Text without the target is left alone. */
  lemma {:induction false} ReplaceAllAbsent(s: string, t: char, with: string)
    requires t !in s
    ensures ReplaceAll(s, t, with) == s
    decreases |s|
  {
    if |s| > 0 {
      assert s == [s[0]] + s[1..];
      ReplaceAllAbsent(s[1..], t, with);
    }
  }

  lemma ReplaceAllOne(c: char, t: char, with: string)
    ensures ReplaceAll([c], t, with) == if c == t then with else [c]
  {
    assert [c][1..] == [];
  }

  /** On one character the chain produces that character's reference: each
      reference introduced by a step holds none of the later targets. */
  lemma EscapeHtmlChar(c: char)
    ensures EscapeHtml([c]) == EscapeChar(c)
  {
    EscapeHtmlUnrolled([c]);
    UnrolledChar(c);
  }

  lemma UnrolledChar(c: char)
    ensures ReplaceAll(ReplaceAll(ReplaceAll(ReplaceAll(ReplaceAll(
              [c], '&', "&amp;"), '<', "&lt;"), '>', "&gt;"), '"', "&quot;"), '\'', "&#039;")
         == EscapeChar(c)
  {
    ReplaceAllOne(c, '&', "&amp;");
    if c == '&' {
      EscapeTail("&amp;");
    } else {
      ReplaceAllOne(c, '<', "&lt;");
      if c == '<' {
        EscapeTail("&lt;");
      } else {
        ReplaceAllOne(c, '>', "&gt;");
        if c == '>' {
          EscapeTail("&gt;");
        } else {
          ReplaceAllOne(c, '"', "&quot;");
          if c == '"' {
            EscapeTail("&quot;");
          } else {
            ReplaceAllOne(c, '\'', "&#039;");
          }
        }
      }
    }
  }

  /** The later steps of the chain leave a reference alone. */
  lemma EscapeTail(s: string)
    requires forall i :: 0 <= i < |s| ==> s[i] !in "<>\"'"
    ensures ReplaceAll(s, '<', "&lt;") == s
    ensures ReplaceAll(s, '>', "&gt;") == s
    ensures ReplaceAll(s, '"', "&quot;") == s
    ensures ReplaceAll(s, '\'', "&#039;") == s
  {
    ReplaceAllAbsent(s, '<', "&lt;");
    ReplaceAllAbsent(s, '>', "&gt;");
    ReplaceAllAbsent(s, '"', "&quot;");
    ReplaceAllAbsent(s, '\'', "&#039;");
  }

  /** The five-step chain equals the per-character map. This holds because
      `&` is replaced first and no later reference contains a later target. */
  lemma {:induction false} EscapeHtmlIsCharMap(s: string)
    ensures EscapeHtml(s) == EscapeEach(s)
    decreases |s|
  {
    if |s| > 0 {
      assert s == [s[0]] + s[1..];
      EscapeHtmlConcat([s[0]], s[1..]);
      EscapeHtmlChar(s[0]);
      EscapeHtmlIsCharMap(s[1..]);
    }
  }

  /** Escaped text never holds a raw `<`, `>`, `"` or `'`. */
  lemma EscapeHtmlNoRawMarkup(s: string)
    ensures NoRawMarkup(EscapeHtml(s))
  {
    EscapeHtmlIsCharMap(s);
  }

  /** Escaping leaves text with none of the five characters unchanged. */
  lemma EscapeHtmlIdentityOnSafe(s: string)
    requires forall k :: 0 <= k < |s| ==> !IsSpecial(s[k])
    ensures EscapeHtml(s) == s
  {
    EscapeHtmlIsCharMap(s);
  }

  /** Decoding of the five references escaping writes, read left to right. */
  function Unescape(s: string): (r: string)
    ensures |r| <= |s|
    decreases |s|
  {
    if |s| == 0 then ""
    else
      var (c, n) := DecodeOne(s);
      [c] + Unescape(s[n..])
  }

  /** The character at the front of `s` and how many characters spell it. */
  function DecodeOne(s: string): (r: (char, nat))
    requires |s| > 0
    ensures 1 <= r.1 <= |s|
  {
    if StartsWith(s, "&amp;") then ('&', 5)
    else if StartsWith(s, "&lt;") then ('<', 4)
    else if StartsWith(s, "&gt;") then ('>', 4)
    else if StartsWith(s, "&quot;") then ('"', 6)
    else if StartsWith(s, "&#039;") then ('\'', 6)
    else (s[0], 1)
  }

  lemma DecodeOneEscaped(c: char, rest: string)
    ensures DecodeOne(EscapeChar(c) + rest) == (c, |EscapeChar(c)|)
  {
    var e := EscapeChar(c);
    var s := e + rest;
    assert s[..|e|] == e;
    if !IsSpecial(c) {
      assert s[0] == c;
    } else if c == '<' {
      assert s[1] == 'l';
    } else if c == '>' {
      assert s[1] == 'g';
    } else if c == '"' {
      assert s[1] == 'q';
    } else if c == '\'' {
      assert s[1] == '#';
    }
  }

  lemma UnescapeStep(c: char, rest: string)
    ensures Unescape(EscapeChar(c) + rest) == [c] + Unescape(rest)
  {
    var e := EscapeChar(c);
    DecodeOneEscaped(c, rest);
    assert (e + rest)[|e|..] == rest;
  }

  /** Escaping loses nothing: decoding the references gives the text back, so
      each character is escaped exactly once. */
  lemma {:induction false} UnescapeEscapeHtml(s: string)
    ensures Unescape(EscapeHtml(s)) == s
    decreases |s|
  {
    EscapeHtmlIsCharMap(s);
    if |s| > 0 {
      UnescapeStep(s[0], EscapeEach(s[1..]));
      UnescapeEscapeHtml(s[1..]);
      EscapeHtmlIsCharMap(s[1..]);
      assert s == [s[0]] + s[1..];
    }
  }

  /** Different texts escape differently. */
  lemma EscapeHtmlInjective(a: string, b: string)
    requires EscapeHtml(a) == EscapeHtml(b)
    ensures a == b
  {
    UnescapeEscapeHtml(a);
    UnescapeEscapeHtml(b);
  }

  const CodeOpen: string := "<pre class=\"code-snippet\">"
  const CodeClose: string := "</pre>"

  /** `formatCodeBlock`: the code wrapped, unchanged, in a preformatted element. */
  function FormatCodeBlock(code: string): (r: string)
    ensures |r| == |CodeOpen| + |code| + |CodeClose|
    ensures r[..|CodeOpen|] == CodeOpen
    ensures r[|CodeOpen|..|r| - |CodeClose|] == code
    ensures r[|r| - |CodeClose|..] == CodeClose
  {
    CodeOpen + code + CodeClose
  }

  /** The tags are the only markup of a block of escaped code: its `<`
      characters are the opening and the closing tag's first characters. */
  lemma FormatCodeBlockTags(code: string)
    requires NoRawMarkup(code)
    ensures var r := FormatCodeBlock(code);
            forall k :: 0 <= k < |r| && r[k] == '<' ==> k == 0 || k == |CodeOpen| + |code|
  {
    var r := FormatCodeBlock(code);
    assert forall k :: 0 < k < |CodeOpen| ==> CodeOpen[k] != '<';
    assert forall k :: 0 < k < |CodeClose| ==> CodeClose[k] != '<';
    assert forall k :: 0 <= k < |CodeOpen| ==> r[k] == CodeOpen[k];
    assert forall k :: |CodeOpen| <= k < |CodeOpen| + |code| ==> r[k] == code[k - |CodeOpen|];
    assert forall k :: |CodeOpen| + |code| <= k < |r| ==> r[k] == CodeClose[k - |CodeOpen| - |code|];
  }
}
