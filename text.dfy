/**
 * The string primitives the pipeline leans on: Python's `str.isspace` and
 * `str.strip`, ASCII decimal digits, `str()` of an integer and `int()` of a
 * string.
 */
module Text {
  import opened Wrappers

  /** Python's `str.isspace()` for one character (also what `\s` matches in a str regex). */
  predicate IsSpace(c: char) {
    || ('\t' <= c <= '\r')
    || ('\U{1c}' <= c <= '\U{1f}')
    || c == ' ' || c == '\U{85}' || c == '\U{a0}' || c == '\U{1680}'
    || ('\U{2000}' <= c <= '\U{200a}')
    || c == '\U{2028}' || c == '\U{2029}' || c == '\U{202f}' || c == '\U{205f}' || c == '\U{3000}'
  }

  predicate AllSpace(s: string) {
    forall i | 0 <= i < |s| :: IsSpace(s[i])
  }

  /** Drops leading whitespace. */
  function StripStart(s: string): (r: string)
    ensures |r| <= |s| && r == s[|s| - |r|..]
    ensures AllSpace(s[..|s| - |r|])
    ensures r != "" ==> !IsSpace(r[0])
  {
    if s != "" && IsSpace(s[0]) then StripStart(s[1..]) else s
  }

  /** Drops trailing whitespace. */
  function StripEnd(s: string): (r: string)
    ensures |r| <= |s| && r == s[..|r|]
    ensures AllSpace(s[|r|..])
    ensures r != "" ==> !IsSpace(r[|r| - 1])
  {
    if s != "" && IsSpace(s[|s| - 1]) then
      var r := StripEnd(s[..|s| - 1]);
      assert s[|r|..] == s[..|s| - 1][|r|..] + [s[|s| - 1]];
      r
    else s
  }

  /** Python's `str.strip()` with no argument. */
  function Strip(s: string): string {
    StripEnd(StripStart(s))
  }

  /** `s.strip()` is empty exactly when `s` is whitespace only. */
  lemma StripEmptyIffAllSpace(s: string)
    ensures Strip(s) == "" <==> AllSpace(s)
  {
    var t := StripStart(s);
    if Strip(s) == "" {
      assert AllSpace(t[0..]);
      assert s == s[..|s| - |t|] + t;
    }
    if AllSpace(s) {
      StripStartOfSpace(s);
    }
  }

  lemma {:induction false} StripStartOfSpace(s: string)
    requires AllSpace(s)
    ensures StripStart(s) == ""
  {
    if s != "" {
      StripStartOfSpace(s[1..]);
    }
  }

  lemma {:induction false} StripStartOfPadded(pad: string, t: string)
    requires AllSpace(pad) && (t == "" || !IsSpace(t[0]))
    ensures StripStart(pad + t) == t
  {
    if pad != "" {
      assert (pad + t)[1..] == pad[1..] + t;
      StripStartOfPadded(pad[1..], t);
    }
  }

  lemma {:induction false} StripEndOfPadded(t: string, pad: string)
    requires AllSpace(pad) && (t == "" || !IsSpace(t[|t| - 1]))
    ensures StripEnd(t + pad) == t
  {
    if pad != "" {
      assert (t + pad)[..|t + pad| - 1] == t + pad[..|pad| - 1];
      StripEndOfPadded(t, pad[..|pad| - 1]);
    }
  }

  /** Stripping removes exactly the whitespace around a text that neither starts nor ends with whitespace. */
  lemma StripPadded(before: string, t: string, after: string)
    requires AllSpace(before) && AllSpace(after)
    requires t != "" && !IsSpace(t[0]) && !IsSpace(t[|t| - 1])
    ensures Strip(before + t + after) == t
  {
    assert before + t + after == before + (t + after);
    StripStartOfPadded(before, t + after);
    StripEndOfPadded(t, after);
  }

  predicate IsDigit(c: char) {
    '0' <= c <= '9'
  }

  predicate AllDigits(s: string) {
    forall i | 0 <= i < |s| :: IsDigit(s[i])
  }

  function DigitValue(c: char): (v: nat)
    requires IsDigit(c)
    ensures v < 10
  {
    c as int - '0' as int
  }

  function Digit(v: nat): (c: char)
    requires v < 10
    ensures IsDigit(c) && DigitValue(c) == v
  {
    ('0' as int + v) as char
  }

  /** The number a string of decimal digits denotes (leading zeros allowed). */
  function DigitsValue(s: string): nat
    requires AllDigits(s)
  {
    if s == "" then 0 else 10 * DigitsValue(s[..|s| - 1]) + DigitValue(s[|s| - 1])
  }

  /** Length of the longest prefix of `s` made of digits. */
  function DigitRunLength(s: string): (n: nat)
    ensures n <= |s| && AllDigits(s[..n])
    ensures n < |s| ==> !IsDigit(s[n])
  {
    if s != "" && IsDigit(s[0]) then
      var n := 1 + DigitRunLength(s[1..]);
      assert s[..n] == [s[0]] + s[1..][..n - 1];
      n
    else 0
  }

  /** Length of the longest prefix of `s` made of whitespace. */
  function SpaceRunLength(s: string): (n: nat)
    ensures n <= |s| && AllSpace(s[..n])
    ensures n < |s| ==> !IsSpace(s[n])
  {
    if s != "" && IsSpace(s[0]) then
      var n := 1 + SpaceRunLength(s[1..]);
      assert s[..n] == [s[0]] + s[1..][..n - 1];
      n
    else 0
  }

  /** Digits followed by a non-digit (or nothing) form a run of exactly their length. */
  lemma {:induction false} DigitRunOfPrefix(digits: string, rest: string)
    requires AllDigits(digits)
    requires rest == "" || !IsDigit(rest[0])
    ensures DigitRunLength(digits + rest) == |digits|
    ensures (digits + rest)[..|digits|] == digits && (digits + rest)[|digits|..] == rest
  {
    if digits != "" {
      assert (digits + rest)[1..] == digits[1..] + rest;
      DigitRunOfPrefix(digits[1..], rest);
    }
  }

  /** Appending a digit shifts the value one decimal place. */
  lemma DigitsValueSnoc(s: string, c: char)
    requires AllDigits(s) && IsDigit(c)
    ensures AllDigits(s + [c]) && DigitsValue(s + [c]) == 10 * DigitsValue(s) + DigitValue(c)
  {
    assert (s + [c])[..|s|] == s;
  }

  /** `n` zero-padded to two digits (strftime's `%m`, `%d`, `%H`, `%M`). */
  function Pad2(n: nat): (s: string)
    requires n < 100
    ensures |s| == 2 && AllDigits(s) && DigitsValue(s) == n
  {
    var first := [Digit(n / 10)];
    assert first[..0] == "";
    DigitsValueSnoc(first, Digit(n % 10));
    first + [Digit(n % 10)]
  }

  /** `n` zero-padded to four digits (strftime's `%Y`). */
  function Pad4(n: nat): (s: string)
    requires n < 10000
    ensures |s| == 4 && AllDigits(s) && DigitsValue(s) == n
  {
    var high, low := Pad2(n / 100), Pad2(n % 100);
    DigitsValueSnoc(high, low[0]);
    DigitsValueSnoc(high + [low[0]], low[1]);
    assert high + low == high + [low[0]] + [low[1]];
    high + low
  }

  /** Python's `str()` of a non-negative integer: shortest decimal form. */
  function NatToString(n: nat): (s: string)
    ensures s != "" && AllDigits(s) && DigitsValue(s) == n
    ensures |s| > 1 ==> s[0] != '0'
    ensures n < 10 ==> |s| == 1
    ensures n < 100 ==> |s| <= 2
  {
    if n < 10 then [Digit(n)]
    else
      var p := NatToString(n / 10);
      DigitsValueSnoc(p, Digit(n % 10));
      p + [Digit(n % 10)]
  }

  function Pow10(n: nat): nat {
    if n == 0 then 1 else 10 * Pow10(n - 1)
  }

  /** `n` digits denote a number below `10^n`. */
  lemma {:induction false} DigitsValueBelow(s: string)
    requires AllDigits(s)
    ensures DigitsValue(s) < Pow10(|s|)
  {
    if s != "" {
      DigitsValueBelow(s[..|s| - 1]);
    }
  }

  /** Two digit strings of the same length denote the same number only if they are equal. */
  lemma {:induction false} DigitsValueInjective(a: string, b: string)
    requires AllDigits(a) && AllDigits(b) && |a| == |b|
    requires DigitsValue(a) == DigitsValue(b)
    ensures a == b
  {
    if a != "" {
      var n := |a| - 1;
      assert DigitValue(a[n]) == DigitValue(b[n]);
      DigitsValueInjective(a[..n], b[..n]);
      assert a == a[..n] + [a[n]] && b == b[..n] + [b[n]];
    }
  }

  /** One digit is its value as `str()` writes it, two digits its value padded to two. */
  lemma ShortDigitsForm(t: string)
    requires AllDigits(t) && 1 <= |t| <= 2
    ensures DigitsValue(t) < 100
    ensures |t| == 1 ==> t == NatToString(DigitsValue(t))
    ensures |t| == 2 ==> t == Pad2(DigitsValue(t))
  {
    DigitsValueBelow(t);
    var v := DigitsValue(t);
    if |t| == 1 {
      DigitsValueInjective(t, NatToString(v));
    } else {
      DigitsValueInjective(t, Pad2(v));
    }
  }

  /** Four digits are their value padded to four. */
  lemma FourDigitsForm(t: string)
    requires AllDigits(t) && |t| == 4
    ensures DigitsValue(t) < 10000 && t == Pad4(DigitsValue(t))
  {
    DigitsValueBelow(t);
    DigitsValueInjective(t, Pad4(DigitsValue(t)));
  }

  /** Whitespace followed by a non-space (or nothing) forms a run of exactly its length. */
  lemma {:induction false} SpaceRunOfPrefix(gap: string, rest: string)
    requires AllSpace(gap)
    requires rest == "" || !IsSpace(rest[0])
    ensures SpaceRunLength(gap + rest) == |gap|
    ensures (gap + rest)[..|gap|] == gap && (gap + rest)[|gap|..] == rest
  {
    if gap != "" {
      assert (gap + rest)[1..] == gap[1..] + rest;
      SpaceRunOfPrefix(gap[1..], rest);
    }
  }

  /** Python's `str()` of an integer. */
  function IntToString(i: int): string {
    if i < 0 then "-" + NatToString(-i) else NatToString(i)
  }

  /**
   * Digits with single underscores between them, as `int()` accepts in base 10:
   * a digit, then digit groups again, either directly or after one underscore.
   */
  predicate DigitGroups(s: string)
    decreases |s|
  {
    && s != "" && IsDigit(s[0])
    && (|s| == 1 || if s[1] == '_' then |s| > 2 && DigitGroups(s[2..]) else DigitGroups(s[1..]))
  }

  /** Drops the underscores of digit groups. */
  function RemoveUnderscores(s: string): (r: string)
    requires DigitGroups(s)
    decreases |s|
    ensures r != "" && AllDigits(r)
  {
    if |s| == 1 then [s[0]]
    else if s[1] == '_' then [s[0]] + RemoveUnderscores(s[2..])
    else [s[0]] + RemoveUnderscores(s[1..])
  }

  /**
   * Python's `int(s)` for a string `s` already stripped of surrounding
   * whitespace: an optional sign, then digit groups. `None` stands for the
   * ValueError that `int()` raises on anything else.
   */
  function ParseInt(s: string): Option<int> {
    var signed := s != "" && (s[0] == '+' || s[0] == '-');
    var body := if signed then s[1..] else s;
    if !DigitGroups(body) then None
    else
      var magnitude: int := DigitsValue(RemoveUnderscores(body));
      Some(if signed && s[0] == '-' then -magnitude else magnitude)
  }

  /** A run of digits is digit groups without any underscore to drop. */
  lemma {:induction false} RemoveUnderscoresOfDigits(s: string)
    requires s != "" && AllDigits(s)
    ensures DigitGroups(s) && RemoveUnderscores(s) == s
  {
    if |s| > 1 {
      RemoveUnderscoresOfDigits(s[1..]);
    }
  }

  /** A non-empty run of digits reads as its value, and with a leading `-` as its negation. */
  lemma ParseIntOfDigits(digits: string)
    requires digits != "" && AllDigits(digits)
    ensures ParseInt(digits) == Some(DigitsValue(digits) as int)
    ensures ParseInt("-" + digits) == Some(-(DigitsValue(digits) as int))
  {
    RemoveUnderscoresOfDigits(digits);
    assert IsDigit(digits[0]);
    assert ("-" + digits)[1..] == digits;
  }

  /** `int(str(i)) == i`: the count a file row carries reads back as the same integer. */
  lemma ParseIntOfString(i: int)
    ensures ParseInt(IntToString(i)) == Some(i)
  {
    ParseIntOfDigits(NatToString(if i < 0 then -i else i));
  }
}
