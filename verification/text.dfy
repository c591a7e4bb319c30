/** Character classes and string helpers with the meaning JavaScript gives
    them: the `\s` class and `String.prototype.trim`, `\d`, `.` (which never
    matches a line terminator), `split` on one character and `Array.join`. */
module Text {

  /** JavaScript's line terminators: the characters `.` in a regular
      expression refuses to match. */
  predicate IsLineTerminator(c: char)
  {
    c == '\n' || c == '\r' || c == '\U{2028}' || c == '\U{2029}'
  }

  /** JavaScript's WhiteSpace and LineTerminator characters together: the set
      matched by `\s` and removed by `trim()`. */
  predicate IsWs(c: char)
  {
    || c == '\t' || c == '\U{000B}' || c == '\U{000C}' || c == ' '
    || c == '\U{00A0}' || c == '\U{1680}' || ('\U{2000}' <= c <= '\U{200A}')
    || c == '\U{202F}' || c == '\U{205F}' || c == '\U{3000}' || c == '\U{FEFF}'
    || IsLineTerminator(c)
  }

  /** `\d`: the ASCII digits only. */
  predicate IsDigit(c: char)
  {
    '0' <= c <= '9'
  }

  /** ASCII lower-casing, the only folding a non-Unicode `/i` expression does
      for the ASCII letters it names. */
  function LowerAscii(c: char): (r: char)
    ensures 'A' <= c <= 'Z' ==> r as int == c as int + 32
    ensures !('A' <= c <= 'Z') ==> r == c
  {
    if 'A' <= c <= 'Z' then (c as int + 32) as char else c
  }

  predicate AllWs(s: string)
  {
    forall k :: 0 <= k < |s| ==> IsWs(s[k])
  }

  predicate AllDigits(s: string)
  {
    forall k :: 0 <= k < |s| ==> IsDigit(s[k])
  }

  /** What `(.*)$` can match without the `m` flag: a tail with no line terminator. */
  predicate NoLineTerminator(s: string)
  {
    forall k :: 0 <= k < |s| ==> !IsLineTerminator(s[k])
  }

  /** The end of the maximal whitespace run starting at `i`. */
  function WsRun(s: string, i: nat): (j: nat)
    requires i <= |s|
    ensures i <= j <= |s|
    ensures AllWs(s[i..j])
    ensures j == |s| || !IsWs(s[j])
    decreases |s| - i
  {
    if i < |s| && IsWs(s[i]) then WsRun(s, i + 1) else i
  }

  /** The end of the maximal run of ASCII digits starting at `i`. */
  function DigitRun(s: string, i: nat): (j: nat)
    requires i <= |s|
    ensures i <= j <= |s|
    ensures AllDigits(s[i..j])
    ensures j == |s| || !IsDigit(s[j])
    decreases |s| - i
  {
    if i < |s| && IsDigit(s[i]) then DigitRun(s, i + 1) else i
  }

  /** The end of the maximal run of copies of `c` starting at `i`. */
  function CharRun(s: string, i: nat, c: char): (j: nat)
    requires i <= |s|
    ensures i <= j <= |s|
    ensures forall k :: i <= k < j ==> s[k] == c
    ensures j == |s| || s[j] != c
    decreases |s| - i
  {
    if i < |s| && s[i] == c then CharRun(s, i + 1, c) else i
  }

  /** A run that ends at the first non-whitespace character cannot be
      extended past it: any whitespace prefix of `s[i..]` stops no later. */
  lemma {:induction false} WsRunIsMaximal(s: string, i: nat, j: nat)
    requires i <= j <= |s|
    requires AllWs(s[i..j])
    ensures j <= WsRun(s, i)
    decreases j - i
  {
    if i < j {
      assert IsWs(s[i..j][0]);
      assert s[i + 1..j] == s[i..j][1..];
      WsRunIsMaximal(s, i + 1, j);
    }
  }

  /** Same for digit runs. */
  lemma {:induction false} DigitRunIsMaximal(s: string, i: nat, j: nat)
    requires i <= j <= |s|
    requires AllDigits(s[i..j])
    ensures j <= DigitRun(s, i)
    decreases j - i
  {
    if i < j {
      assert IsDigit(s[i..j][0]);
      assert s[i + 1..j] == s[i..j][1..];
      DigitRunIsMaximal(s, i + 1, j);
    }
  }

  /** A whitespace run followed by a non-whitespace character ends there. */
  lemma {:induction false} WsRunStops(s: string, i: nat, j: nat)
    requires i <= j < |s|
    requires AllWs(s[i..j]) && !IsWs(s[j])
    ensures WsRun(s, i) == j
    decreases j - i
  {
    if i < j {
      assert IsWs(s[i..j][0]);
      assert s[i + 1..j] == s[i..j][1..];
      WsRunStops(s, i + 1, j);
    }
  }

  /** A digit run followed by a non-digit ends there. */
  lemma {:induction false} DigitRunStops(s: string, i: nat, j: nat)
    requires i <= j <= |s|
    requires AllDigits(s[i..j]) && (j == |s| || !IsDigit(s[j]))
    ensures DigitRun(s, i) == j
    decreases j - i
  {
    if i < j {
      assert IsDigit(s[i..j][0]);
      assert s[i + 1..j] == s[i..j][1..];
      DigitRunStops(s, i + 1, j);
    }
  }

  /** `trimStart()`: drop the leading whitespace. */
  function TrimStart(s: string): (r: string)
    ensures |r| <= |s| && r == s[|s| - |r|..]
    ensures AllWs(s[..|s| - |r|])
    ensures r == [] || !IsWs(r[0])
    ensures |s| > 0 && !IsWs(s[0]) ==> r == s
  {
    s[WsRun(s, 0)..]
  }

  /** `trimEnd()`: drop the trailing whitespace. */
  function TrimEnd(s: string): (r: string)
    ensures |r| <= |s| && r == s[..|r|]
    ensures AllWs(s[|r|..])
    ensures r == [] || !IsWs(r[|r| - 1])
    ensures |s| > 0 && !IsWs(s[0]) ==> |r| > 0
    decreases |s|
  {
    if |s| > 0 && IsWs(s[|s| - 1]) then
      var t := s[..|s| - 1];
      var r := TrimEnd(t);
      assert t[..|r|] == s[..|r|];
      assert s[|r|..] == t[|r|..] + [s[|s| - 1]];
      AllWsConcat(t[|r|..], [s[|s| - 1]]);
      assert |t| > 0 ==> t[0] == s[0];
      r
    else s
  }

  /** `trim()`: the text between the first and the last non-whitespace
      character. */
  function Trim(s: string): (r: string)
    ensures exists i {:trigger s[i..]} :: 0 <= i <= |s| - |r| && r == s[i..i + |r|]
                && AllWs(s[..i]) && AllWs(s[i + |r|..])
    ensures r == [] || (!IsWs(r[0]) && !IsWs(r[|r| - 1]))
    ensures |s| > 0 && !IsWs(s[0]) ==> |r| > 0 && r[0] == s[0]
  {
    var t := TrimStart(s);
    var r := TrimEnd(t);
    var i := |s| - |t|;
    assert t == s[i..];
    assert r == s[i..i + |r|] by {
      assert r == t[..|r|];
    }
    assert AllWs(s[i + |r|..]) by {
      assert s[i + |r|..] == t[|r|..];
    }
    assert AllWs(s[..i]);
    r
  }

  /** A line is blank for the parser when `trim()` leaves nothing. */
  predicate IsBlank(s: string)
  {
    Trim(s) == []
  }

  lemma BlankIffAllWs(s: string)
    ensures IsBlank(s) <==> AllWs(s)
  {
    var r := Trim(s);
    var i :| 0 <= i <= |s| - |r| && r == s[i..i + |r|] && AllWs(s[..i]) && AllWs(s[i + |r|..]);
    EmptySpanIffAllWs(s, r, i);
  }

  /** A slice with only whitespace around it is empty exactly when the
      whole text is whitespace, provided the slice does not start with
      whitespace. */
  lemma EmptySpanIffAllWs(s: string, r: string, i: nat)
    requires i <= |s| - |r| && r == s[i..i + |r|] && AllWs(s[..i]) && AllWs(s[i + |r|..])
    requires r == [] || !IsWs(r[0])
    ensures r == [] <==> AllWs(s)
  {
    if r == [] {
      AllWsConcat(s[..i], s[i..]);
      assert s == s[..i] + s[i..];
    } else {
      assert s[i] == r[0];
    }
  }

  /** When `s` is not all whitespace, `trim()` starts at the first
      character that is not. */
  lemma TrimStartsAt(s: string, a: nat)
    requires a == WsRun(s, 0) && a < |s|
    ensures |Trim(s)| > 0 && Trim(s)[0] == s[a]
  {
    var t := TrimStart(s);
    assert t == s[a..] && t[0] == s[a];
    var r := TrimEnd(t);
    assert r == t[..|r|];
  }

  lemma AllWsConcat(a: string, b: string)
    requires AllWs(a) && AllWs(b)
    ensures AllWs(a + b)
  {
    assert forall k :: 0 <= k < |b| ==> (a + b)[|a| + k] == b[k];
  }

  predicate StartsWith(s: string, prefix: string)
  {
    |prefix| <= |s| && s[..|prefix|] == prefix
  }

  /** `parts.join(sep)`. */
  function Join(parts: seq<string>, sep: string): string
  {
    if |parts| == 0 then ""
    else if |parts| == 1 then parts[0]
    else parts[0] + sep + Join(parts[1..], sep)
  }

  /** `s.split(sep)` for a one-character separator: the pieces between
      separators, one more piece than there are separators. */
  function Split(s: string, sep: char): (r: seq<string>)
    ensures |r| >= 1
    ensures forall k :: 0 <= k < |r| ==> sep !in r[k]
    decreases |s|
  {
    if |s| == 0 then [""]
    else
      var rest := Split(s[1..], sep);
      if s[0] == sep then [""] + rest
      else [[s[0]] + rest[0]] + rest[1..]
  }

  /** Prepending a character to the first piece prepends it to the join. */
  lemma {:induction false} JoinConsFirst(c: char, parts: seq<string>, sep: string)
    requires |parts| >= 1
    ensures Join([[c] + parts[0]] + parts[1..], sep) == [c] + Join(parts, sep)
  {
    var ps := [[c] + parts[0]] + parts[1..];
    assert ps[1..] == parts[1..];
  }

  /** Joining the pieces of a split with the separator gives back the input. */
  lemma {:induction false} JoinSplit(s: string, sep: char)
    ensures Join(Split(s, sep), [sep]) == s
    decreases |s|
  {
    if |s| > 0 {
      var rest := Split(s[1..], sep);
      JoinSplit(s[1..], sep);
      if s[0] == sep {
        var ps := [""] + rest;
        assert ps[1..] == rest;
        assert s == [sep] + s[1..];
      } else {
        JoinConsFirst(s[0], rest, [sep]);
        assert s == [s[0]] + s[1..];
      }
    }
  }
}
