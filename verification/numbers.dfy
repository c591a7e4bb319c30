/** Decimal text for integers, as `Number.prototype.toString()` writes it for
    safe integers, and `parseInt(s)` with no radix argument. */
module Numbers {
  import opened Options
  import opened Text

  function DigitChar(d: nat): (c: char)
    requires d < 10
    ensures IsDigit(c) && c as int - '0' as int == d
  {
    ('0' as int + d) as char
  }

  /** The value of `c` as a digit in bases up to 36, or 36 when it is not an
      ASCII letter or digit. */
  function DigitValue(c: char): (v: nat)
    ensures v <= 36
    ensures IsDigit(c) <==> v < 10
    ensures IsDigit(c) ==> v == c as int - '0' as int
  {
    if '0' <= c <= '9' then c as int - '0' as int
    else if 'a' <= c <= 'z' then c as int - 'a' as int + 10
    else if 'A' <= c <= 'Z' then c as int - 'A' as int + 10
    else 36
  }

  predicate AllRadixDigits(s: string, radix: nat)
  {
    forall k :: 0 <= k < |s| ==> DigitValue(s[k]) < radix
  }

  /** The number written by the digits `s` in base `radix`, most significant first. */
  function RadixValue(s: string, radix: nat): nat
    requires AllRadixDigits(s, radix)
  {
    if |s| == 0 then 0
    else
      DigitsPrefix(s, radix, |s| - 1);
      RadixValue(s[..|s| - 1], radix) * radix + DigitValue(s[|s| - 1])
  }

  lemma DigitsPrefix(s: string, radix: nat, j: nat)
    requires AllRadixDigits(s, radix) && j <= |s|
    ensures AllRadixDigits(s[..j], radix)
  {
    assert forall k :: 0 <= k < j ==> s[..j][k] == s[k];
  }

  /** The end of the maximal run of base-`radix` digits starting at `i`. */
  function RadixRun(s: string, i: nat, radix: nat): (j: nat)
    requires i <= |s|
    ensures i <= j <= |s|
    ensures AllRadixDigits(s[i..j], radix)
    ensures j == |s| || DigitValue(s[j]) >= radix
    decreases |s| - i
  {
    if i < |s| && DigitValue(s[i]) < radix then RadixRun(s, i + 1, radix) else i
  }

  /** Decimal digits of `n`, with no leading zero. */
  function NatToString(n: nat): (r: string)
    ensures 1 <= |r| && AllDigits(r)
    ensures |r| > 1 ==> r[0] != '0'
    ensures n < 10 <==> |r| == 1
    ensures n < 100 ==> |r| <= 2
  {
    if n < 10 then [DigitChar(n)] else NatToString(n / 10) + [DigitChar(n % 10)]
  }

  /** `n.toString()` for an integer `n`. */
  function IntToString(n: int): string
  {
    if n < 0 then "-" + NatToString(-n) else NatToString(n)
  }

  lemma AllDigitsAreDecimal(s: string)
    requires AllDigits(s)
    ensures AllRadixDigits(s, 10)
  {
  }

  /** Reading back the decimal text of `n` gives `n`. */
  lemma {:induction false} NatToStringValue(n: nat)
    ensures AllRadixDigits(NatToString(n), 10)
    ensures RadixValue(NatToString(n), 10) == n
  {
    var s := NatToString(n);
    AllDigitsAreDecimal(s);
    if n >= 10 {
      NatToStringValue(n / 10);
      assert s[..|s| - 1] == NatToString(n / 10);
    }
  }

  /** Leading zeros do not change the value of a digit string. */
  lemma {:induction false} LeadingZerosValue(z: nat, s: string, radix: nat)
    requires AllRadixDigits(s, radix) && radix > 0
    ensures AllRadixDigits(seq(z, _ => '0') + s, radix)
    ensures RadixValue(seq(z, _ => '0') + s, radix) == RadixValue(s, radix)
    decreases |s|
  {
    var t := seq(z, _ => '0') + s;
    if |s| == 0 {
      assert t == seq(z, _ => '0');
      ZerosValue(z, radix);
    } else {
      assert t[..|t| - 1] == seq(z, _ => '0') + s[..|s| - 1];
      LeadingZerosValue(z, s[..|s| - 1], radix);
    }
  }

  lemma {:induction false} ZerosValue(z: nat, radix: nat)
    requires radix > 0
    ensures AllRadixDigits(seq(z, _ => '0'), radix)
    ensures RadixValue(seq(z, _ => '0'), radix) == 0
  {
    if z > 0 {
      assert seq(z, _ => '0')[..z - 1] == seq(z - 1, _ => '0');
      ZerosValue(z - 1, radix);
    }
  }

  /** `parseInt(s)`: skip leading whitespace, take one optional sign, then
      read an unsigned number. `None` stands for `NaN`. A negative zero is
      returned as 0. */
  function ParseInt(s: string): Option<int>
  {
    var t := TrimStart(s);
    if |t| > 0 && (t[0] == '-' || t[0] == '+') then
      match ParseMagnitude(t[1..])
      case None => None
      case Some(m) => Some(if t[0] == '-' then -(m as int) else m as int)
    else
      match ParseMagnitude(t)
      case None => None
      case Some(m) => Some(m)
  }

  /** The unsigned part of `parseInt`: base 16 after a `0x`/`0X` prefix,
      base 10 otherwise, reading the longest run of digits; `None` when that
      run is empty. */
  function ParseMagnitude(u: string): Option<nat>
  {
    var hex := |u| >= 2 && u[0] == '0' && (u[1] == 'x' || u[1] == 'X');
    var radix := if hex then 16 else 10;
    var body := if hex then u[2..] else u;
    var end := RadixRun(body, 0, radix);
    if end == 0 then None else Some(RadixValue(body[..end], radix))
  }

  /** An unsigned decimal numeral without a leading zero reads as its value. */
  lemma ParseMagnitudeDigits(u: string)
    requires |u| >= 1 && AllDigits(u) && (|u| > 1 ==> u[0] != '0')
    ensures AllRadixDigits(u, 10) && ParseMagnitude(u) == Some(RadixValue(u, 10))
  {
    RadixRunToEnd(u, 0, 10);
    assert u[..|u|] == u;
  }

  /** `parseInt` reads back the decimal text of every integer. */
  lemma ParseIntToString(n: int)
    ensures ParseInt(IntToString(n)) == Some(n)
  {
    var m: nat := if n < 0 then -n else n;
    var u := NatToString(m);
    NatToStringValue(m);
    ParseMagnitudeDigits(u);
    if n < 0 {
      ParseSigned(IntToString(n), u, m);
    } else {
      ParseUnsigned(u, m);
    }
  }

  /** A numeral starting with a digit is read by `ParseMagnitude` alone. */
  lemma ParseUnsigned(u: string, v: nat)
    requires |u| > 0 && IsDigit(u[0]) && ParseMagnitude(u) == Some(v)
    ensures ParseInt(u) == Some(v)
  {
    TrimStartNoop(u);
  }

  /** A `-` before a numeral negates it. */
  lemma ParseSigned(s: string, u: string, v: nat)
    requires s == "-" + u && ParseMagnitude(u) == Some(v)
    ensures ParseInt(s) == Some(-(v as int))
  {
    TrimStartNoop(s);
    assert s[1..] == u;
  }

  lemma TrimStartNoop(s: string)
    requires |s| > 0 && (s[0] == '-' || IsDigit(s[0]))
    ensures TrimStart(s) == s
  {
    assert !IsWs(s[0]);
    assert WsRun(s, 0) == 0;
  }

  lemma {:induction false} RadixRunToEnd(s: string, i: nat, radix: nat)
    requires i <= |s|
    requires AllRadixDigits(s[i..], radix)
    ensures RadixRun(s, i, radix) == |s|
    decreases |s| - i
  {
    if i < |s| {
      assert DigitValue(s[i..][0]) < radix;
      assert s[i + 1..] == s[i..][1..];
      RadixRunToEnd(s, i + 1, radix);
    }
  }
}
