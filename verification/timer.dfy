/** The text of the countdown display, `MM:SS`, as `updateTimerDisplay`
    writes it, and the reading of such a text back into seconds. */
module TimerDisplay {
  import opened Options
  import opened Text
  import opened Numbers

  /** JavaScript's `%`: the remainder takes the sign of the dividend. */
  function JsRem(a: int, b: nat): (r: int)
    requires b > 0
    ensures a >= 0 ==> r == a % b
    ensures a < 0 ==> -(b as int) < r <= 0
  {
    if a >= 0 then a % b else -((-a) % b)
  }

  /** `s.padStart(2, '0')`. */
  function PadStart2(s: string): (r: string)
    ensures |r| == if |s| >= 2 then |s| else 2
    ensures r[|r| - |s|..] == s
    ensures forall i :: 0 <= i < |r| - |s| ==> r[i] == '0'
  {
    if |s| >= 2 then s else seq(2 - |s|, _ => '0') + s
  }

  /** The text of `updateTimerDisplay` for `t` seconds remaining: minutes
      by `Math.floor(t / 60)` (Dafny's `/` by a positive divisor rounds
      down too) and seconds by `t % 60`, each padded to two characters. */
  function TimerText(t: int): string
  {
    Display(t / 60, JsRem(t, 60))
  }

  /** The number of seconds a `MM:SS` text shows, when it has that shape. */
  function ReadTimer(text: string): Option<nat>
  {
    if |text| >= 5 && text[|text| - 3] == ':'
       && AllDigits(text[..|text| - 3]) && AllDigits(text[|text| - 2..])
    then
      AllDigitsAreDecimal(text[..|text| - 3]);
      AllDigitsAreDecimal(text[|text| - 2..]);
      Some(60 * RadixValue(text[..|text| - 3], 10) + RadixValue(text[|text| - 2..], 10))
    else None
  }

  /** The two fields, each padded, around a colon. */
  function Display(minutes: int, seconds: int): string
  {
    PadStart2(IntToString(minutes)) + ":" + PadStart2(IntToString(seconds))
  }
}
