/**
 * The part of `datetime.strptime` / `strftime` that the pipeline uses: the
 * date formats `%m/%d/%Y`, `%m/%d/%y`, `%d/%m/%Y`, `%d/%m/%y`, `%Y/%m/%d`,
 * the time format `%I:%M %p`, and the outputs `%Y-%m-%d` and `%H:%M`.
 *
 * strptime turns a format into a regular expression and requires it to match
 * the whole text. Each numeric directive there is an ordered alternation that
 * tries two digits before one (`%m` is `1[0-2]|0[1-9]|[1-9]`). In every format
 * used here such a directive is followed by a literal that is not a digit, or
 * by the end of the text, so falling back to a shorter alternative leaves a
 * digit where a non-digit is needed and can never succeed. A directive therefore
 * matches exactly when the whole run of digits at that point has the allowed
 * width and value, which is how it is modelled below.
 */
module Strptime {
  import opened Wrappers
  import opened Text

  datatype Date = Date(year: int, month: int, day: int)
  datatype Clock = Clock(hour: int, minute: int)

  predicate IsLeapYear(y: int) {
    y % 4 == 0 && (y % 100 != 0 || y % 400 == 0)
  }

  function DaysInMonth(y: int, m: int): (n: int)
    requires 1 <= m <= 12
    ensures 28 <= n <= 31
    ensures n == 29 <==> m == 2 && IsLeapYear(y)
  {
    if m == 2 then (if IsLeapYear(y) then 29 else 28)
    else if m == 4 || m == 6 || m == 9 || m == 11 then 30
    else 31
  }

  /** What the `datetime` constructor accepts (years 1 to 9999). */
  predicate ValidDate(d: Date) {
    && 1 <= d.year <= 9999
    && 1 <= d.month <= 12
    && 1 <= d.day <= DaysInMonth(d.year, d.month)
  }

  predicate ValidClock(c: Clock) {
    0 <= c.hour <= 23 && 0 <= c.minute <= 59
  }

  /** `%m`, `%d`, `%I`, `%M`: one or two digits whose value lies in `lo..hi`. */
  function Number(s: string, lo: int, hi: int): (r: Option<(int, string)>)
    ensures r.Some? ==> lo <= r.value.0 <= hi
  {
    var n := DigitRunLength(s);
    if (n == 1 || n == 2) && lo <= DigitsValue(s[..n]) <= hi then Some((DigitsValue(s[..n]), s[n..]))
    else None
  }

  /** `%Y` (width 4) and `%y` (width 2): exactly `width` digits. */
  function FixedDigits(s: string, width: nat): Option<(int, string)> {
    if DigitRunLength(s) == width then Some((DigitsValue(s[..width]), s[width..])) else None
  }

  /** `%d`, whose pattern also has the alternative ` [1-9]` (a space, then one digit). */
  function DayOfMonth(s: string): (r: Option<(int, string)>)
    ensures r.Some? ==> 1 <= r.value.0 <= 31
  {
    if s != "" && s[0] == ' ' then
      if DigitRunLength(s[1..]) == 1 && s[1] != '0' then Some((DigitValue(s[1]), s[2..])) else None
    else Number(s, 1, 31)
  }

  /** One literal character of the format. */
  function Literal(c: char, s: string): Option<string> {
    if s != "" && s[0] == c then Some(s[1..]) else None
  }

  datatype DateField = MonthField | DayField | YearField(century: bool)

  /** Parses one date directive; a two-digit year `yy` is 20yy up to 68 and 19yy from 69 on. */
  function ParseField(f: DateField, s: string): Option<(int, string)> {
    match f
    case MonthField => Number(s, 1, 12)
    case DayField => DayOfMonth(s)
    case YearField(century) =>
      if century then FixedDigits(s, 4)
      else
        match FixedDigits(s, 2)
        case None => None
        case Some((yy, rest)) => Some((if yy <= 68 then 2000 + yy else 1900 + yy, rest))
  }

  /** The five date formats, named by field order; `century` is `%Y` rather than `%y`. */
  datatype DateFormat = MonthDayYear(century: bool) | DayMonthYear(century: bool) | YearMonthDay

  function Fields(fmt: DateFormat): (DateField, DateField, DateField) {
    match fmt
    case MonthDayYear(century) => (MonthField, DayField, YearField(century))
    case DayMonthYear(century) => (DayField, MonthField, YearField(century))
    case YearMonthDay => (YearField(true), MonthField, DayField)
  }

  /** Tried by the importer, in this order. */
  const ImportFormats: seq<DateFormat> := [MonthDayYear(true), MonthDayYear(false)]

  /** Tried by the validator, in this order. */
  const RepairFormats: seq<DateFormat> :=
    [MonthDayYear(true), MonthDayYear(false), DayMonthYear(true), DayMonthYear(false), YearMonthDay]

  /** `datetime.strptime(s, fmt)`; `None` stands for the ValueError it raises. */
  function ParseDate(fmt: DateFormat, s: string): (r: Option<Date>)
    ensures r.Some? ==> ValidDate(r.value)
  {
    var (f1, f2, f3) := Fields(fmt);
    var p1 :- ParseField(f1, s);
    var s2 :- Literal('/', p1.1);
    var p2 :- ParseField(f2, s2);
    var s3 :- Literal('/', p2.1);
    var p3 :- ParseField(f3, s3);
    if p3.1 != "" then None
    else
      var date := match fmt
        case MonthDayYear(_) => Date(p3.0, p1.0, p2.0)
        case DayMonthYear(_) => Date(p3.0, p2.0, p1.0)
        case YearMonthDay => Date(p1.0, p2.0, p3.0);
      if ValidDate(date) then Some(date) else None
  }

  /** The formats tried in order; the first that parses wins. */
  function FirstParse(fmts: seq<DateFormat>, s: string): (r: Option<Date>)
    ensures r.Some? ==> ValidDate(r.value)
  {
    if fmts == [] then None
    else
      match ParseDate(fmts[0], s)
      case Some(d) => Some(d)
      case None => FirstParse(fmts[1..], s)
  }

  /**
   * The `for fmt in ...: try: strptime ... break / except: continue` loop.
   */
  method FirstMatch(fmts: seq<DateFormat>, s: string) returns (r: Option<Date>)
    ensures r == FirstParse(fmts, s)
  {
    r := None;
    var i := 0;
    while i < |fmts|
      invariant 0 <= i <= |fmts|
      invariant FirstParse(fmts, s) == FirstParse(fmts[i..], s)
    {
      assert fmts[i..][1..] == fmts[i + 1..];
      var attempt := ParseDate(fmts[i], s);
      if attempt.Some? {
        r := attempt;
        break;
      }
      i := i + 1;
    }
  }

  /**
   * The first-success search, stated without recursion: it yields `d` exactly
   * when some format parses `s` to `d` and every earlier format fails, and it
   * yields nothing exactly when every format fails.
   */
  lemma {:induction false} FirstParseIsFirstSuccess(fmts: seq<DateFormat>, s: string)
    ensures FirstParse(fmts, s).Some? <==> exists i | 0 <= i < |fmts| :: ParseDate(fmts[i], s).Some?
    ensures forall i | 0 <= i < |fmts| ::
      (ParseDate(fmts[i], s).Some? && forall j | 0 <= j < i :: ParseDate(fmts[j], s).None?)
      ==> FirstParse(fmts, s) == ParseDate(fmts[i], s)
  {
    if fmts != [] {
      FirstParseIsFirstSuccess(fmts[1..], s);
      if ParseDate(fmts[0], s).None? {
        forall i | 1 <= i < |fmts| ensures ParseDate(fmts[i], s) == ParseDate(fmts[1..][i - 1], s) { }
        if FirstParse(fmts, s).Some? {
          var k :| 0 <= k < |fmts[1..]| && ParseDate(fmts[1..][k], s).Some?;
          assert ParseDate(fmts[k + 1], s).Some?;
        }
      }
    }
  }

  /** strftime of one date directive. */
  function FieldText(f: DateField, d: Date): string
    requires ValidDate(d)
  {
    match f
    case MonthField => Pad2(d.month)
    case DayField => Pad2(d.day)
    case YearField(century) => if century then Pad4(d.year) else Pad2(d.year % 100)
  }

  function FieldValue(f: DateField, d: Date): int {
    match f
    case MonthField => d.month
    case DayField => d.day
    case YearField(_) => d.year
  }

  /** strftime with the same format: what a date written in that format looks like. */
  function Render(fmt: DateFormat, d: Date): string
    requires ValidDate(d)
  {
    var (f1, f2, f3) := Fields(fmt);
    FieldText(f1, d) + "/" + FieldText(f2, d) + "/" + FieldText(f3, d)
  }

  /** A digit string of one or two digits followed by a non-digit is read back as its value. */
  lemma NumberOf(digits: string, rest: string, lo: int, hi: int)
    requires AllDigits(digits) && (|digits| == 1 || |digits| == 2)
    requires rest == "" || !IsDigit(rest[0])
    requires lo <= DigitsValue(digits) <= hi
    ensures Number(digits + rest, lo, hi) == Some((DigitsValue(digits), rest))
  {
    DigitRunOfPrefix(digits, rest);
  }

  lemma FixedDigitsOf(digits: string, rest: string)
    requires AllDigits(digits)
    requires rest == "" || !IsDigit(rest[0])
    ensures FixedDigits(digits + rest, |digits|) == Some((DigitsValue(digits), rest))
  {
    DigitRunOfPrefix(digits, rest);
  }

  /**
   * The ways a writer may spell one date directive's value so that strptime
   * reads it: `%m` and `%d` with or without a leading zero, `%d` also as a
   * space and one digit, and the year as strftime writes it.
   */
  predicate Writes(f: DateField, d: Date, t: string)
    requires ValidDate(d)
  {
    match f
    case MonthField => t == Pad2(d.month) || t == NatToString(d.month)
    case DayField => t == Pad2(d.day) || t == NatToString(d.day) || (d.day < 10 && t == " " + NatToString(d.day))
    case YearField(_) => t == FieldText(f, d)
  }

  /** A one-digit day after a space, as the ` [1-9]` alternative of `%d` reads it. */
  lemma SpacedDayOf(day: int, rest: string)
    requires 1 <= day < 10
    requires rest == "" || !IsDigit(rest[0])
    ensures DayOfMonth(" " + NatToString(day) + rest) == Some((day, rest))
  {
    var digit := NatToString(day);
    var s := " " + digit + rest;
    assert s[1..] == digit + rest;
    DigitRunOfPrefix(digit, rest);
    assert digit == [digit[0]] && DigitsValue(digit) == DigitValue(digit[0]) by {
      assert digit[..0] == "";
    }
    assert s[2..] == rest;
  }

  /** Each directive reads back every writing of its value. */
  lemma ParseFieldOfWriting(f: DateField, d: Date, t: string, rest: string)
    requires ValidDate(d) && Writes(f, d, t)
    requires f.YearField? && !f.century ==> 1969 <= d.year <= 2068
    requires rest == "" || !IsDigit(rest[0])
    ensures ParseField(f, t + rest) == Some((FieldValue(f, d), rest))
  {
    match f
    case MonthField => NumberOf(t, rest, 1, 12);
    case DayField => DayOfWriting(d.day, t, rest);
    case YearField(century) => YearOfWriting(century, d, rest);
  }

  lemma YearOfWriting(century: bool, d: Date, rest: string)
    requires ValidDate(d) && (century || 1969 <= d.year <= 2068)
    requires rest == "" || !IsDigit(rest[0])
    ensures ParseField(YearField(century), FieldText(YearField(century), d) + rest) == Some((d.year, rest))
  {
    if century {
      FixedDigitsOf(Pad4(d.year), rest);
    } else {
      FixedDigitsOf(Pad2(d.year % 100), rest);
    }
  }

  lemma DayOfWriting(day: int, t: string, rest: string)
    requires 1 <= day <= 31
    requires t == Pad2(day) || t == NatToString(day) || (day < 10 && t == " " + NatToString(day))
    requires rest == "" || !IsDigit(rest[0])
    ensures DayOfMonth(t + rest) == Some((day, rest))
  {
    if t == " " + NatToString(day) {
      SpacedDayOf(day, rest);
    } else {
      NumberOf(t, rest, 1, 31);
      assert (t + rest)[0] == t[0];
    }
  }

  /**
   * strptime reads back every writing of a valid date in any of the five
   * formats, padded or not (with `%y`, for the years 1969 to 2068 it can
   * denote).
   */
  lemma ParseDateOfWriting(fmt: DateFormat, d: Date, t1: string, t2: string, t3: string)
    requires ValidDate(d)
    requires !fmt.YearMonthDay? && !fmt.century ==> 1969 <= d.year <= 2068
    requires Writes(Fields(fmt).0, d, t1) && Writes(Fields(fmt).1, d, t2) && Writes(Fields(fmt).2, d, t3)
    ensures ParseDate(fmt, t1 + "/" + t2 + "/" + t3) == Some(d)
  {
    var (f1, f2, f3) := Fields(fmt);
    var s2 := t2 + ("/" + t3);
    var r1 := "/" + s2;
    Slashed(t1, t2, t3);
    ParseFieldOfWriting(f1, d, t1, r1);
    ParseFieldOfWriting(f2, d, t2, "/" + t3);
    ParseFieldOfWriting(f3, d, t3, "");
    assert t3 + "" == t3;
    LiteralOf('/', s2);
    LiteralOf('/', t3);
    ParseDateOfFields(fmt, d, t1 + r1, r1, s2, "/" + t3, t3);
  }

  lemma Slashed(t1: string, t2: string, t3: string)
    ensures t1 + "/" + t2 + "/" + t3 == t1 + ("/" + (t2 + ("/" + t3)))
  {
  }

  lemma LiteralOf(c: char, rest: string)
    ensures Literal(c, [c] + rest) == Some(rest)
  {
    assert ([c] + rest)[1..] == rest;
  }

  /** The three directives and the two slashes between them, read one after the other. */
  lemma ParseDateOfFields(fmt: DateFormat, d: Date, s: string, r1: string, s2: string, r2: string, s3: string)
    requires ValidDate(d)
    requires ParseField(Fields(fmt).0, s) == Some((FieldValue(Fields(fmt).0, d), r1))
    requires Literal('/', r1) == Some(s2)
    requires ParseField(Fields(fmt).1, s2) == Some((FieldValue(Fields(fmt).1, d), r2))
    requires Literal('/', r2) == Some(s3)
    requires ParseField(Fields(fmt).2, s3) == Some((FieldValue(Fields(fmt).2, d), ""))
    ensures ParseDate(fmt, s) == Some(d)
  {
  }

  /** In particular strptime reads back what strftime wrote with the same format. */
  lemma ParseDateOfRender(fmt: DateFormat, d: Date)
    requires ValidDate(d)
    requires !fmt.YearMonthDay? && !fmt.century ==> 1969 <= d.year <= 2068
    ensures ParseDate(fmt, Render(fmt, d)) == Some(d)
  {
    var (f1, f2, f3) := Fields(fmt);
    ParseDateOfWriting(fmt, d, FieldText(f1, d), FieldText(f2, d), FieldText(f3, d));
  }

  /** What `%m`, `%d`, `%I` or `%M` reads is a writing of its value with or without a leading zero. */
  lemma NumberIsWriting(s: string, lo: int, hi: int)
    requires Number(s, lo, hi).Some?
    ensures var (v, rest) := Number(s, lo, hi).value;
      && 0 <= v < 100 && |rest| < |s| && s == s[..|s| - |rest|] + rest
      && (s[..|s| - |rest|] == NatToString(v) || s[..|s| - |rest|] == Pad2(v))
  {
    var n := DigitRunLength(s);
    assert s == s[..n] + s[n..];
    ShortDigitsForm(s[..n]);
  }

  /** What a directive reads is one of the writings of the value it reads. */
  lemma FieldIsWriting(f: DateField, s: string, d: Date)
    requires ValidDate(d)
    requires ParseField(f, s).Some? && ParseField(f, s).value.0 == FieldValue(f, d)
    ensures var rest := ParseField(f, s).value.1;
      && |rest| <= |s| && s == s[..|s| - |rest|] + rest
      && Writes(f, d, s[..|s| - |rest|])
    ensures f.YearField? && !f.century ==> 1969 <= d.year <= 2068
  {
    match f
    case MonthField => NumberIsWriting(s, 1, 12);
    case DayField => DayIsWriting(s, d);
    case YearField(century) => YearIsWriting(century, s, d);
  }

  lemma DayIsWriting(s: string, d: Date)
    requires ValidDate(d)
    requires DayOfMonth(s).Some? && DayOfMonth(s).value.0 == d.day
    ensures var rest := DayOfMonth(s).value.1;
      && |rest| <= |s| && s == s[..|s| - |rest|] + rest
      && Writes(DayField, d, s[..|s| - |rest|])
  {
    if s[0] == ' ' {
      var digit := s[1..2];
      assert digit == s[1..][..1];
      ShortDigitsForm(digit);
      assert DigitsValue(digit) == DigitValue(s[1]) by {
        assert digit[..0] == "";
      }
      assert s[..2] == " " + NatToString(d.day);
      assert s == s[..2] + s[2..];
    } else {
      NumberIsWriting(s, 1, 31);
    }
  }

  lemma YearIsWriting(century: bool, s: string, d: Date)
    requires ValidDate(d)
    requires ParseField(YearField(century), s).Some? && ParseField(YearField(century), s).value.0 == d.year
    ensures var rest := ParseField(YearField(century), s).value.1;
      && |rest| <= |s| && s == s[..|s| - |rest|] + rest
      && s[..|s| - |rest|] == FieldText(YearField(century), d)
    ensures !century ==> 1969 <= d.year <= 2068
  {
    if century {
      FourDigitsForm(s[..4]);
      assert s == s[..4] + s[4..];
    } else {
      ShortDigitsForm(s[..2]);
      assert s == s[..2] + s[2..];
    }
  }

  /** The texts `ParseDate` passes through: a directive, a slash, a directive, a slash, a directive, nothing more. */
  lemma ParseDateSteps(fmt: DateFormat, s: string) returns (r1: string, s2: string, r2: string, s3: string)
    requires ParseDate(fmt, s).Some?
    ensures var d := ParseDate(fmt, s).value;
      && ParseField(Fields(fmt).0, s) == Some((FieldValue(Fields(fmt).0, d), r1))
      && r1 == "/" + s2
      && ParseField(Fields(fmt).1, s2) == Some((FieldValue(Fields(fmt).1, d), r2))
      && r2 == "/" + s3
      && ParseField(Fields(fmt).2, s3) == Some((FieldValue(Fields(fmt).2, d), ""))
  {
    var (f1, f2, f3) := Fields(fmt);
    r1 := ParseField(f1, s).value.1;
    s2 := r1[1..];
    r2 := ParseField(f2, s2).value.1;
    s3 := r2[1..];
    assert r1 == [r1[0]] + s2;
    assert r2 == [r2[0]] + s3;
  }

  /**
   * The converse of `ParseDateOfWriting`: strptime accepts a text only when it
   * is one of the writings of the date it returns, with nothing before or
   * after it, and with `%y` only for a year from 1969 to 2068.
   */
  lemma ParseDateOnlyWritings(fmt: DateFormat, s: string)
    requires ParseDate(fmt, s).Some?
    ensures var d := ParseDate(fmt, s).value;
      !fmt.YearMonthDay? && !fmt.century ==> 1969 <= d.year <= 2068
    ensures var d := ParseDate(fmt, s).value;
      exists t1, t2, t3 ::
        && Writes(Fields(fmt).0, d, t1) && Writes(Fields(fmt).1, d, t2) && Writes(Fields(fmt).2, d, t3)
        && s == t1 + "/" + t2 + "/" + t3
  {
    var t1, t2, t3 := ParsedWritings(fmt, s);
  }

  /** The three writings `ParseDateOnlyWritings` asserts, cut out of the text. */
  lemma ParsedWritings(fmt: DateFormat, s: string) returns (t1: string, t2: string, t3: string)
    requires ParseDate(fmt, s).Some?
    ensures var d := ParseDate(fmt, s).value;
      && (!fmt.YearMonthDay? && !fmt.century ==> 1969 <= d.year <= 2068)
      && Writes(Fields(fmt).0, d, t1) && Writes(Fields(fmt).1, d, t2) && Writes(Fields(fmt).2, d, t3)
      && s == t1 + "/" + t2 + "/" + t3
  {
    var d := ParseDate(fmt, s).value;
    var (f1, f2, f3) := Fields(fmt);
    var r1, s2, r2, s3 := ParseDateSteps(fmt, s);
    FieldIsWriting(f1, s, d);
    FieldIsWriting(f2, s2, d);
    FieldIsWriting(f3, s3, d);
    t1, t2, t3 := s[..|s| - |r1|], s2[..|s2| - |r2|], s3;
    assert s3 == s3[..|s3| - 0] + "";
    Slashed(t1, t2, t3);
  }

  /** `%Y` needs four digits, so a date written with a two-digit year falls through to the `%y` format. */
  lemma CenturyRejectsShortYear(d: Date, month: string, day: string)
    requires ValidDate(d) && Writes(MonthField, d, month) && Writes(DayField, d, day)
    ensures ParseDate(MonthDayYear(true), month + "/" + day + "/" + Pad2(d.year % 100)).None?
  {
    var year := Pad2(d.year % 100);
    var s2 := day + ("/" + year);
    var r1 := "/" + s2;
    Slashed(month, day, year);
    ParseFieldOfWriting(MonthField, d, month, r1);
    ParseFieldOfWriting(DayField, d, day, "/" + year);
    LiteralOf('/', s2);
    LiteralOf('/', year);
    ShortYearRejected(year);
    ParseDateFailsAtYear(MonthDayYear(true), month + r1, r1, s2, "/" + year, year);
  }

  /** `%Y` rejects a year of two digits. */
  lemma ShortYearRejected(year: string)
    requires |year| == 2 && AllDigits(year)
    ensures ParseField(YearField(true), year).None?
  {
    DigitRunOfPrefix(year, "");
    assert year + "" == year;
  }

  /** When the first two directives and both slashes are read but the last directive fails, strptime fails. */
  lemma ParseDateFailsAtYear(fmt: DateFormat, s: string, r1: string, s2: string, r2: string, s3: string)
    requires ParseField(Fields(fmt).0, s).Some? && ParseField(Fields(fmt).0, s).value.1 == r1
    requires Literal('/', r1) == Some(s2)
    requires ParseField(Fields(fmt).1, s2).Some? && ParseField(Fields(fmt).1, s2).value.1 == r2
    requires Literal('/', r2) == Some(s3)
    requires ParseField(Fields(fmt).2, s3).None?
    ensures ParseDate(fmt, s).None?
  {
  }

  /** `date.strftime('%Y-%m-%d')`. */
  function FormatDate(d: Date): string
    requires ValidDate(d)
  {
    Pad4(d.year) + "-" + Pad2(d.month) + "-" + Pad2(d.day)
  }

  /** The validator's test `re.match(r'^\d{4}-\d{2}-\d{2}', s)`. */
  predicate HasIsoDatePrefix(s: string) {
    && |s| >= 10
    && AllDigits(s[..4]) && s[4] == '-'
    && AllDigits(s[5..7]) && s[7] == '-'
    && AllDigits(s[8..10])
  }

  /** A formatted date is ten characters long and passes the validator's prefix test, whatever follows it. */
  lemma FormatDateIsIso(d: Date, rest: string)
    requires ValidDate(d)
    ensures |FormatDate(d)| == 10
    ensures HasIsoDatePrefix(FormatDate(d) + rest)
  {
    var s := FormatDate(d) + rest;
    assert s[..4] == Pad4(d.year);
    assert s[5..7] == Pad2(d.month);
    assert s[8..10] == Pad2(d.day);
  }

  /** `%I` with `%p`: the 24-hour hour of a 12-hour clock reading. */
  function To24Hour(h: int, pm: bool): (r: int)
    requires 1 <= h <= 12
    ensures 0 <= r <= 23
    ensures r % 12 == h % 12
    ensures r >= 12 <==> pm
  {
    if h == 12 then (if pm then 12 else 0)
    else if pm then h + 12
    else h
  }

  /** `%p` in the C locale, matched case-insensitively: `Some(true)` for PM. */
  function Meridiem(s: string): Option<bool> {
    if |s| == 2 && (s[1] == 'M' || s[1] == 'm') then
      if s[0] == 'A' || s[0] == 'a' then Some(false)
      else if s[0] == 'P' || s[0] == 'p' then Some(true)
      else None
    else None
  }

  /** `datetime.strptime(s, '%I:%M %p')`; the space in the format matches any run of whitespace. */
  function ParseTime12(s: string): (r: Option<Clock>)
    ensures r.Some? ==> ValidClock(r.value)
  {
    var h :- Number(s, 1, 12);
    var rest :- Literal(':', h.1);
    MinuteAndMeridiem(h.0, rest)
  }

  /** The `%M %p` part, after the hour `hour` and its colon. */
  function MinuteAndMeridiem(hour: int, s: string): (r: Option<Clock>)
    requires 1 <= hour <= 12
    ensures r.Some? ==> ValidClock(r.value)
  {
    var m :- Number(s, 0, 59);
    var gap := SpaceRunLength(m.1);
    if gap == 0 then None
    else
      var pm :- Meridiem(m.1[gap..]);
      Some(Clock(To24Hour(hour, pm), m.0))
  }

  /** `time.strftime('%H:%M')`. */
  function FormatTime(c: Clock): (r: string)
    requires ValidClock(c)
  {
    Pad2(c.hour) + ":" + Pad2(c.minute)
  }

  /** A number of one or two digits, written with or without its leading zero. */
  predicate NumberWriting(t: string, v: nat)
    requires v < 100
  {
    t == NatToString(v) || t == Pad2(v)
  }

  /** `AM` or `PM` (`pm` tells which) in any mix of upper and lower case. */
  predicate MeridiemWriting(t: string, pm: bool) {
    && |t| == 2
    && (if pm then t[0] == 'P' || t[0] == 'p' else t[0] == 'A' || t[0] == 'a')
    && (t[1] == 'M' || t[1] == 'm')
  }

  /**
   * A 12-hour reading: the hour and the minute, each written with or without
   * its leading zero, a colon between them, then any non-empty run of
   * whitespace and AM or PM in any case. It parses to the 24-hour clock time
   * whose hour agrees with `h` modulo 12 and is in the afternoon exactly for PM.
   */
  lemma ParseTime12OfReading(hour: string, minute: string, gap: string, meridiem: string, h: int, m: nat, pm: bool)
    requires 1 <= h <= 12 && m <= 59
    requires NumberWriting(hour, h) && NumberWriting(minute, m)
    requires gap != "" && AllSpace(gap) && MeridiemWriting(meridiem, pm)
    ensures ParseTime12(hour + ":" + minute + gap + meridiem) == Some(Clock(To24Hour(h, pm), m))
    ensures To24Hour(h, pm) % 12 == h % 12 && (To24Hour(h, pm) >= 12 <==> pm)
  {
    var tail := gap + meridiem;
    var afterHour := ":" + (minute + tail);
    Clocked(hour, minute, gap, meridiem);
    NumberOf(hour, afterHour, 1, 12);
    LiteralOf(':', minute + tail);
    MinuteAndMeridiemOf(h, minute, gap, meridiem, m, pm);
  }

  lemma Clocked(hour: string, minute: string, gap: string, meridiem: string)
    ensures hour + ":" + minute + gap + meridiem == hour + (":" + (minute + (gap + meridiem)))
  {
  }

  lemma MinuteAndMeridiemOf(hour: int, minute: string, gap: string, meridiem: string, m: nat, pm: bool)
    requires 1 <= hour <= 12 && m <= 59 && NumberWriting(minute, m)
    requires gap != "" && AllSpace(gap) && MeridiemWriting(meridiem, pm)
    ensures MinuteAndMeridiem(hour, minute + (gap + meridiem)) == Some(Clock(To24Hour(hour, pm), m))
  {
    var tail := gap + meridiem;
    assert !IsDigit(tail[0]) by {
      assert tail[0] == gap[0] && IsSpace(gap[0]);
    }
    NumberOf(minute, tail, 0, 59);
    SpaceRunOfPrefix(gap, meridiem);
  }

  /**
   * The converse of `ParseTime12OfReading`: `%I:%M %p` accepts a text only
   * when it is such a reading of the time it returns, with nothing before or
   * after it.
   */
  lemma ParseTime12OnlyReadings(s: string)
    requires ParseTime12(s).Some?
    ensures var c := ParseTime12(s).value;
      exists hour, minute, gap, meridiem, h: int, pm: bool ::
        && 1 <= h <= 12 && NumberWriting(hour, h) && NumberWriting(minute, c.minute)
        && gap != "" && AllSpace(gap) && MeridiemWriting(meridiem, pm)
        && c.hour == To24Hour(h, pm)
        && s == hour + ":" + minute + gap + meridiem
  {
    var hour, minute, gap, meridiem, h, pm := ParsedReading(s);
  }

  /** The pieces `ParseTime12OnlyReadings` asserts, cut out of the text. */
  lemma ParsedReading(s: string) returns (hour: string, minute: string, gap: string, meridiem: string, h: int, pm: bool)
    requires ParseTime12(s).Some?
    ensures var c := ParseTime12(s).value;
      && 1 <= h <= 12 && NumberWriting(hour, h) && NumberWriting(minute, c.minute)
      && gap != "" && AllSpace(gap) && MeridiemWriting(meridiem, pm)
      && c.hour == To24Hour(h, pm)
      && s == hour + ":" + minute + gap + meridiem
  {
    var rest;
    hour, h, rest := HourOfReading(s);
    minute, gap, meridiem, pm := MinuteAndMeridiemIsReading(h, rest);
    Clocked(hour, minute, gap, meridiem);
  }

  /** The hour a time starts with, and what follows its colon. */
  lemma HourOfReading(s: string) returns (hour: string, h: int, rest: string)
    requires ParseTime12(s).Some?
    ensures 1 <= h <= 12 && NumberWriting(hour, h) && s == hour + (":" + rest)
    ensures MinuteAndMeridiem(h, rest) == ParseTime12(s)
  {
    var afterHour := Number(s, 1, 12).value.1;
    h := Number(s, 1, 12).value.0;
    NumberIsWriting(s, 1, 12);
    hour := s[..|s| - |afterHour|];
    rest := afterHour[1..];
    assert afterHour == ":" + rest;
  }

  lemma MinuteAndMeridiemIsReading(hour: int, s: string) returns (minute: string, gap: string, meridiem: string, pm: bool)
    requires 1 <= hour <= 12 && MinuteAndMeridiem(hour, s).Some?
    ensures var c := MinuteAndMeridiem(hour, s).value;
      && NumberWriting(minute, c.minute) && gap != "" && AllSpace(gap) && MeridiemWriting(meridiem, pm)
      && c.hour == To24Hour(hour, pm) && s == minute + (gap + meridiem)
  {
    var after := Number(s, 0, 59).value.1;
    NumberIsWriting(s, 0, 59);
    minute := s[..|s| - |after|];
    gap, meridiem, pm := GapAndMeridiem(after);
  }

  /** The whitespace run and the `AM`/`PM` after the minute. */
  lemma GapAndMeridiem(after: string) returns (gap: string, meridiem: string, pm: bool)
    requires SpaceRunLength(after) != 0 && Meridiem(after[SpaceRunLength(after)..]).Some?
    ensures gap != "" && AllSpace(gap) && MeridiemWriting(meridiem, pm) && after == gap + meridiem
    ensures Meridiem(after[SpaceRunLength(after)..]) == Some(pm)
  {
    var n := SpaceRunLength(after);
    gap, meridiem := after[..n], after[n..];
    pm := Meridiem(meridiem).value;
    assert after == gap + meridiem;
  }
}
