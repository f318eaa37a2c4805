/**
 * `import_dataset`: reshapes the records of the input CSV (one row per date
 * and time, one column per location) into one list of timestamped counts per
 * location.
 *
 * The reader's output is the input here: each record is a map from header to
 * cell, as `csv.DictReader` yields it, and a cell is `None` when its line is
 * shorter than the header line.
 */
module Importer {
  import opened Wrappers
  import opened Text
  import opened Strptime

  type Row = map<string, Option<string>>

  /** One observation: `{'datetime': ..., 'count': ...}`. */
  datatype Entry = Entry(datetime: string, count: int)

  /** Location name to its observations, in row order. */
  type Locations = map<string, seq<Entry>>

  /** Where `int()` raises on a count cell: the index of the record that holds it. */
  datatype ImportError = InvalidCount(row: nat)

  /** A cell that is missing or whitespace only. */
  predicate BlankCell(cell: Option<string>) {
    cell.None? || Strip(cell.value) == ""
  }

  /** Records whose every cell is blank are skipped. */
  predicate IsBlankRow(row: Row) {
    forall k | k in row :: BlankCell(row[k])
  }

  /** The columns that become locations: all but the unnamed one, `Date` and `Time`. */
  function LocationColumns(row: Row): set<string> {
    set k | k in row && k != "" && k != "Date" && k != "Time"
  }

  /** `row.get(name, '')`. */
  function Lookup(row: Row, name: string): Option<string> {
    if name in row then row[name] else Some("")
  }

  /** How an f-string shows a cell: a missing one is shown as `None`. */
  function CellText(cell: Option<string>): string {
    match cell
    case None => "None"
    case Some(text) => text
  }

  /** `date_formatted`: `YYYY-MM-DD` when `%m/%d/%Y` or else `%m/%d/%y` parses, otherwise the cell as it is. */
  function DateText(cell: Option<string>): string {
    match cell
    case None => CellText(cell)
    case Some(raw) =>
      match FirstParse(ImportFormats, raw)
      case Some(d) => FormatDate(d)
      case None => raw
  }

  /** `time_24hr`: `HH:MM` when `%I:%M %p` parses, otherwise the cell as it is. */
  function TimeText(cell: Option<string>): string {
    match cell
    case None => CellText(cell)
    case Some(raw) =>
      match ParseTime12(raw)
      case Some(c) => FormatTime(c)
      case None => raw
  }

  /** `datetime_str`: the date part, one space, the time part. */
  function Timestamp(row: Row): string {
    DateText(Lookup(row, "Date")) + " " + TimeText(Lookup(row, "Time"))
  }

  /** `count_value`: the stripped cell, or the literal `"-1"` for a missing or empty cell. */
  function CountText(cell: Option<string>): string {
    if cell.Some? && cell.value != "" then Strip(cell.value) else "-1"
  }

  /** `int(count_value) if count_value else 0`; `None` where `int()` raises. */
  function CountOf(cell: Option<string>): Option<int> {
    var text := CountText(cell);
    if text == "" then Some(0) else ParseInt(text)
  }

  /** Some location cell of the record holds a count `int()` rejects. */
  predicate HasInvalidCount(row: Row) {
    exists k | k in LocationColumns(row) :: CountOf(row[k]).None?
  }

  /** A record that is read (not blank) and makes `int()` raise. */
  predicate BadRow(row: Row) {
    !IsBlankRow(row) && HasInvalidCount(row)
  }

  predicate CountsParse(row: Row, columns: set<string>) {
    forall k | k in columns :: k in row && CountOf(row[k]).Some?
  }

  function Entries(locations: Locations, k: string): seq<Entry> {
    if k in locations then locations[k] else []
  }

  /** `locations[item].append(...)` for every column in `columns`. */
  function Appended(locations: Locations, row: Row, stamp: string, columns: set<string>): Locations
    requires CountsParse(row, columns)
  {
    map k | k in locations.Keys + columns ::
      if k in columns then Entries(locations, k) + [Entry(stamp, CountOf(row[k]).value)] else locations[k]
  }

  /** Appending to one more column updates that column's list only. */
  lemma AppendedStep(locations: Locations, row: Row, stamp: string, done: set<string>, item: string)
    requires CountsParse(row, done) && item !in done && item in row && CountOf(row[item]).Some?
    ensures CountsParse(row, done + {item})
    ensures Appended(locations, row, stamp, done + {item}) ==
      var before := Appended(locations, row, stamp, done);
      before[item := Entries(before, item) + [Entry(stamp, CountOf(row[item]).value)]]
  {
  }

  /** What appending over `columns` does to the list of any one location. */
  lemma AppendedEntries(locations: Locations, row: Row, stamp: string, columns: set<string>, k: string)
    requires CountsParse(row, columns)
    ensures Entries(Appended(locations, row, stamp, columns), k) ==
      Entries(locations, k) + (if k in columns then [Entry(stamp, CountOf(row[k]).value)] else [])
  {
  }

  /** One pass of the loop body over record number `index`. */
  function AddRow(locations: Locations, row: Row, index: nat): Result<Locations, ImportError> {
    if IsBlankRow(row) then Ok(locations)
    else if BadRow(row) then Err(InvalidCount(index))
    else Ok(Appended(locations, row, Timestamp(row), LocationColumns(row)))
  }

  /** What `import_dataset` returns for the records `rows`, or where it raises. */
  function Import(rows: seq<Row>): Result<Locations, ImportError> {
    if rows == [] then Ok(map[])
    else
      var locations :- Import(rows[..|rows| - 1]);
      AddRow(locations, rows[|rows| - 1], |rows| - 1)
  }

  /** The date and time of one record, as the loop body computes them. */
  method RowTimestamp(row: Row) returns (stamp: string)
    ensures stamp == Timestamp(row)
  {
    var date := Lookup(row, "Date");
    var time := Lookup(row, "Time");
    var dateFormatted := CellText(date);
    if date.Some? {
      var parsed := FirstMatch(ImportFormats, date.value);
      if parsed.Some? {
        dateFormatted := FormatDate(parsed.value);
      }
    }
    var time24 := CellText(time);
    if time.Some? {
      var clock := ParseTime12(time.value);
      if clock.Some? {
        time24 := FormatTime(clock.value);
      }
    }
    stamp := dateFormatted + " " + time24;
  }

  /**
   * The inner loop `for item in row`: appends one entry to each location
   * column, or gives `None` where `int()` raises on a count.
   */
  method AppendColumns(locations: Locations, row: Row, stamp: string) returns (result: Option<Locations>)
    ensures result.None? <==> HasInvalidCount(row)
    ensures result.Some? ==> CountsParse(row, LocationColumns(row))
    ensures result.Some? ==> result.value == Appended(locations, row, stamp, LocationColumns(row))
  {
    var next := locations;
    var pending := row.Keys - {""};
    assert next == Appended(locations, row, stamp, LocationColumns(row) - pending);
    while pending != {}
      invariant pending <= row.Keys
      invariant CountsParse(row, LocationColumns(row) - pending)
      invariant next == Appended(locations, row, stamp, LocationColumns(row) - pending)
      decreases pending
    {
      var item :| item in pending;
      ghost var done := LocationColumns(row) - pending;
      pending := pending - {item};
      if item != "Time" && item != "Date" {
        var count := CountOf(row[item]);
        if count.None? {
          assert item in LocationColumns(row);
          return None;
        }
        AppendedStep(locations, row, stamp, done, item);
        next := next[item := Entries(next, item) + [Entry(stamp, count.value)]];
        assert LocationColumns(row) - pending == done + {item};
      } else {
        assert LocationColumns(row) - pending == done;
      }
    }
    assert LocationColumns(row) - pending == LocationColumns(row);
    result := Some(next);
  }

  /** One more record: the import of `rows[..i + 1]` in terms of that of `rows[..i]`. */
  lemma ImportStep(rows: seq<Row>, i: nat)
    requires i < |rows|
    ensures Import(rows[..i + 1]) ==
      match Import(rows[..i])
      case Err(e) => Err(e)
      case Ok(locations) => AddRow(locations, rows[i], i)
  {
    assert rows[..i + 1][..i] == rows[..i];
  }

  /** `import_dataset` over the records the reader yields. */
  method ImportDataset(rows: seq<Row>) returns (result: Result<Locations, ImportError>)
    ensures result == Import(rows)
  {
    var locations: Locations := map[];
    var i := 0;
    while i < |rows|
      invariant 0 <= i <= |rows|
      invariant Import(rows[..i]) == Ok(locations)
    {
      var row := rows[i];
      ImportStep(rows, i);
      if !IsBlankRow(row) {
        var stamp := RowTimestamp(row);
        var appended := AppendColumns(locations, row, stamp);
        if appended.None? {
          ImportKeepsError(rows, i + 1);
          return Err(InvalidCount(i));
        }
        locations := appended.value;
      }
      i := i + 1;
    }
    assert rows[..|rows|] == rows;
    result := Ok(locations);
  }

  /** Once a record raises, the whole import raises with it. */
  lemma {:induction false} ImportKeepsError(rows: seq<Row>, n: nat)
    requires 0 < n <= |rows|
    requires Import(rows[..n]).Err?
    ensures Import(rows) == Import(rows[..n])
    decreases |rows|
  {
    if n < |rows| {
      var prefix := rows[..|rows| - 1];
      assert prefix[..n] == rows[..n];
      ImportKeepsError(prefix, n);
    } else {
      assert rows[..n] == rows;
    }
  }

  /** A blank record adds no entry to any location. */
  lemma BlankRowAddsNothing(rows: seq<Row>, row: Row)
    requires IsBlankRow(row)
    ensures Import(rows + [row]) == Import(rows)
  {
    assert (rows + [row])[..|rows|] == rows;
  }

  /** No record makes `int()` raise. */
  predicate NoBadRow(rows: seq<Row>) {
    rows == [] || (NoBadRow(rows[..|rows| - 1]) && !BadRow(rows[|rows| - 1]))
  }

  lemma {:induction false} NoBadRowAt(rows: seq<Row>, i: nat)
    requires NoBadRow(rows) && i < |rows|
    ensures !BadRow(rows[i])
  {
    if i < |rows| - 1 {
      var prefix := rows[..|rows| - 1];
      NoBadRowAt(prefix, i);
      assert prefix[i] == rows[i];
    }
  }

  /** The import succeeds exactly when no read record holds a count `int()` rejects. */
  lemma {:induction false} ImportSucceedsIffNoBadRow(rows: seq<Row>)
    ensures Import(rows).Ok? <==> NoBadRow(rows)
  {
    if rows != [] {
      ImportSucceedsIffNoBadRow(rows[..|rows| - 1]);
    }
  }

  /** When it fails, it names the first record that holds such a count. */
  lemma ImportFailsAtFirstBadRow(rows: seq<Row>, i: nat)
    requires i < |rows| && BadRow(rows[i]) && NoBadRow(rows[..i])
    ensures Import(rows) == Err(InvalidCount(i))
  {
    ImportSucceedsIffNoBadRow(rows[..i]);
    ImportStep(rows, i);
    ImportKeepsError(rows, i + 1);
  }

  /** The record is read, has column `k` as a location, and its count there is readable. */
  predicate Contributes(row: Row, k: string) {
    !IsBlankRow(row) && k in LocationColumns(row) && CountOf(row[k]).Some?
  }

  /** The entry a record gives location `k`, if any. */
  function RowEntry(row: Row, k: string): seq<Entry> {
    if Contributes(row, k) then [Entry(Timestamp(row), CountOf(row[k]).value)] else []
  }

  /** The entries of location `k`, read off the records one at a time, first to last. */
  function ColumnEntries(rows: seq<Row>, k: string): seq<Entry> {
    if rows == [] then [] else RowEntry(rows[0], k) + ColumnEntries(rows[1..], k)
  }

  lemma {:induction false} ColumnEntriesAppend(rows: seq<Row>, more: seq<Row>, k: string)
    ensures ColumnEntries(rows + more, k) == ColumnEntries(rows, k) + ColumnEntries(more, k)
  {
    if rows != [] {
      assert (rows + more)[1..] == rows[1..] + more;
      ColumnEntriesAppend(rows[1..], more, k);
    } else {
      assert rows + more == more;
    }
  }

  /** One read record adds its own entry, and only that, to each location's list. */
  lemma AddRowEntries(locations: Locations, row: Row, index: nat, k: string)
    requires AddRow(locations, row, index).Ok?
    ensures Entries(AddRow(locations, row, index).value, k) == Entries(locations, k) + RowEntry(row, k)
    ensures k in AddRow(locations, row, index).value ==> k in locations || RowEntry(row, k) != []
  {
    if !IsBlankRow(row) {
      AppendedEntries(locations, row, Timestamp(row), LocationColumns(row), k);
    }
  }

  /**
   * Grouping keeps row order: a successful import gives each location exactly
   * the entries its column yields, record by record in input order, and a
   * location is present exactly when it received at least one entry.
   */
  lemma {:induction false} ImportGroupsByColumn(rows: seq<Row>)
    requires Import(rows).Ok?
    ensures forall k :: Entries(Import(rows).value, k) == ColumnEntries(rows, k)
    ensures forall k | k in Import(rows).value :: Import(rows).value[k] != []
  {
    if rows != [] {
      var prefix, last := rows[..|rows| - 1], rows[|rows| - 1];
      ImportGroupsByColumn(prefix);
      assert prefix + [last] == rows;
      var before := Import(prefix).value;
      assert Import(rows) == AddRow(before, last, |rows| - 1);
      forall k ensures Entries(Import(rows).value, k) == ColumnEntries(rows, k) {
        AddRowEntries(before, last, |rows| - 1, k);
        ColumnEntriesAppend(prefix, [last], k);
        assert ColumnEntries([last], k) == RowEntry(last, k) + ColumnEntries([], k);
      }
      forall k | k in Import(rows).value ensures Import(rows).value[k] != [] {
        AddRowEntries(before, last, |rows| - 1, k);
      }
    }
  }

  /** The first record adds an entry exactly when it contributes. */
  lemma ColumnEntriesHead(rows: seq<Row>, k: string)
    requires rows != []
    ensures ColumnEntries(rows, k) != [] <==> Contributes(rows[0], k) || ColumnEntries(rows[1..], k) != []
  {
  }

  /** Some record contributes exactly when the first one does or some later one does. */
  lemma SomeContributes(rows: seq<Row>, tail: seq<Row>, k: string)
    requires rows != [] && tail == rows[1..]
    ensures (exists i | 0 <= i < |rows| :: Contributes(rows[i], k)) <==>
      Contributes(rows[0], k) || exists i | 0 <= i < |tail| :: Contributes(tail[i], k)
  {
    if i :| 0 <= i < |rows| && Contributes(rows[i], k) {
      if i > 0 {
        assert tail[i - 1] == rows[i];
      }
    }
    if i :| 0 <= i < |tail| && Contributes(tail[i], k) {
      assert rows[i + 1] == tail[i];
    }
  }

  /** `ColumnEntries` is non-empty exactly when some record gives the location an entry. */
  lemma {:induction false} ColumnEntriesNonEmpty(rows: seq<Row>, k: string)
    ensures ColumnEntries(rows, k) != [] <==> exists i | 0 <= i < |rows| :: Contributes(rows[i], k)
  {
    if rows != [] {
      ColumnEntriesNonEmpty(rows[1..], k);
      ColumnEntriesHead(rows, k);
      SomeContributes(rows, rows[1..], k);
    }
  }

  /**
   * The locations of a successful import are exactly the location columns of
   * the non-blank records; the unnamed column, `Date` and `Time` never are.
   */
  lemma ImportKeys(rows: seq<Row>)
    requires Import(rows).Ok?
    ensures forall k :: k in Import(rows).value <==>
      exists i | 0 <= i < |rows| :: !IsBlankRow(rows[i]) && k in LocationColumns(rows[i])
    ensures "" !in Import(rows).value && "Date" !in Import(rows).value && "Time" !in Import(rows).value
  {
    ImportGroupsByColumn(rows);
    ImportSucceedsIffNoBadRow(rows);
    forall k ensures k in Import(rows).value <==>
      exists i | 0 <= i < |rows| :: !IsBlankRow(rows[i]) && k in LocationColumns(rows[i])
    {
      ColumnEntriesNonEmpty(rows, k);
      forall i | 0 <= i < |rows|
        ensures Contributes(rows[i], k) <==> !IsBlankRow(rows[i]) && k in LocationColumns(rows[i])
      {
        NoBadRowAt(rows, i);
      }
    }
  }

  /** A missing or empty count cell gives -1, through the literal `"-1"`. */
  lemma CountOfMissing(cell: Option<string>)
    requires cell.None? || cell == Some("")
    ensures CountOf(cell) == Some(-1)
  {
    ParseIntOfString(-1);
    assert IntToString(-1) == "-1";
  }

  /** A non-empty count cell of whitespace only gives 0. */
  lemma CountOfWhitespace(cell: string)
    requires cell != "" && AllSpace(cell)
    ensures CountOf(Some(cell)) == Some(0)
  {
    StripEmptyIffAllSpace(cell);
  }

  /** A count written as `str()` writes it, with any whitespace around it, gives that count. */
  lemma CountOfNumber(n: int, before: string, after: string)
    requires AllSpace(before) && AllSpace(after)
    ensures CountOf(Some(before + IntToString(n) + after)) == Some(n)
  {
    var text := IntToString(n);
    assert text[0] == '-' || IsDigit(text[0]);
    StripPadded(before, text, after);
    ParseIntOfString(n);
  }

  /**
   * A date cell written `m/d/YYYY`, or `m/d/yy` for the years 1969 to 2068,
   * becomes that date as `YYYY-MM-DD`; month and day may carry a leading zero
   * or not, and a one-digit day may be preceded by a space.
   */
  lemma DateTextOfWritten(d: Date, century: bool, month: string, day: string)
    requires ValidDate(d) && (century || 1969 <= d.year <= 2068)
    requires Writes(MonthField, d, month) && Writes(DayField, d, day)
    ensures DateText(Some(month + "/" + day + "/" + FieldText(YearField(century), d))) == FormatDate(d)
  {
    var year := FieldText(YearField(century), d);
    var text := month + "/" + day + "/" + year;
    ParseDateOfWriting(MonthDayYear(century), d, month, day, year);
    if !century {
      CenturyRejectsShortYear(d, month, day);
      assert ImportFormats[1..] == [MonthDayYear(false)];
      assert FirstParse(ImportFormats[1..], text) == Some(d);
    }
  }

  /** The cell writes a date as `m/d/YYYY`, or as `m/d/yy` for a year from 1969 to 2068. */
  ghost predicate IsWrittenDate(raw: string) {
    exists d: Date, century: bool, month: string, day: string
      | ValidDate(d) && (century || 1969 <= d.year <= 2068) && Writes(MonthField, d, month) && Writes(DayField, d, day)
      :: raw == month + "/" + day + "/" + FieldText(YearField(century), d)
  }

  /** A date cell that some import format reads is one of those writings. */
  lemma ParsedDateIsWritten(raw: string)
    ensures FirstParse(ImportFormats, raw).Some? ==> IsWrittenDate(raw)
  {
    if FirstParse(ImportFormats, raw).Some? {
      FirstParseIsFirstSuccess(ImportFormats, raw);
      var i :| 0 <= i < |ImportFormats| && ParseDate(ImportFormats[i], raw).Some?;
      var fmt := ImportFormats[i];
      var d := ParseDate(fmt, raw).value;
      ParseDateOnlyWritings(fmt, raw);
      var month, day, year :| Writes(MonthField, d, month) && Writes(DayField, d, day)
        && Writes(YearField(fmt.century), d, year) && raw == month + "/" + day + "/" + year;
      assert year == FieldText(YearField(fmt.century), d);
    }
  }

  /** A date cell that is no such writing is kept as it is. */
  lemma DateTextOfUnread(raw: string)
    requires !IsWrittenDate(raw)
    ensures DateText(Some(raw)) == raw
  {
    ParsedDateIsWritten(raw);
  }

  /** The cell is a 12-hour reading `h:mm AM/PM` (see `ParseTime12OfReading`). */
  ghost predicate IsTimeReading(raw: string) {
    exists hour, minute, gap, meridiem, h: int, m: nat, pm: bool
      | 1 <= h <= 12 && m <= 59 && NumberWriting(hour, h) && NumberWriting(minute, m)
        && gap != "" && AllSpace(gap) && MeridiemWriting(meridiem, pm)
      :: raw == hour + ":" + minute + gap + meridiem
  }

  /** A time cell that is no 12-hour reading is kept as it is. */
  lemma TimeTextOfUnread(raw: string)
    requires !IsTimeReading(raw)
    ensures TimeText(Some(raw)) == raw
  {
    ParsedTimeIsReading(raw);
  }

  /** A time cell that `%I:%M %p` reads is a 12-hour reading. */
  lemma ParsedTimeIsReading(raw: string)
    ensures ParseTime12(raw).Some? ==> IsTimeReading(raw)
  {
    if ParseTime12(raw).Some? {
      ParseTime12OnlyReadings(raw);
    }
  }

  /**
   * A time cell `h:mm AM` or `h:mm PM` becomes `HH:MM` on the 24-hour clock:
   * 12 AM is hour 00, 12 PM stays 12, other PM hours gain 12, AM hours are kept.
   */
  lemma TimeTextOfReading(hour: string, minute: string, gap: string, meridiem: string, h: int, m: nat, pm: bool)
    requires 1 <= h <= 12 && m <= 59
    requires NumberWriting(hour, h) && NumberWriting(minute, m)
    requires gap != "" && AllSpace(gap) && MeridiemWriting(meridiem, pm)
    ensures TimeText(Some(hour + ":" + minute + gap + meridiem)) ==
      Pad2(if h == 12 then (if pm then 12 else 0) else if pm then h + 12 else h) + ":" + Pad2(m)
  {
    ParseTime12OfReading(hour, minute, gap, meridiem, h, m, pm);
  }

  /**
   * When both cells parse, the timestamp is `YYYY-MM-DD HH:MM`: ten characters
   * of date that pass the validator's prefix test, a space, and five of time.
   */
  lemma TimestampCanonical(row: Row)
    requires Lookup(row, "Date").Some? && FirstParse(ImportFormats, Lookup(row, "Date").value).Some?
    requires Lookup(row, "Time").Some? && ParseTime12(Lookup(row, "Time").value).Some?
    ensures |Timestamp(row)| == 16 && HasIsoDatePrefix(Timestamp(row))
    ensures Timestamp(row)[10] == ' ' && Timestamp(row)[13] == ':'
    ensures AllDigits(Timestamp(row)[11..13]) && AllDigits(Timestamp(row)[14..])
  {
    var d := FirstParse(ImportFormats, Lookup(row, "Date").value).value;
    var c := ParseTime12(Lookup(row, "Time").value).value;
    assert Timestamp(row) == FormatDate(d) + " " + FormatTime(c);
    CanonicalShape(d, c);
  }

  lemma CanonicalShape(d: Date, c: Clock)
    requires ValidDate(d) && ValidClock(c)
    ensures var s := FormatDate(d) + " " + FormatTime(c);
      && |s| == 16 && HasIsoDatePrefix(s) && s[10] == ' ' && s[13] == ':'
      && AllDigits(s[11..13]) && AllDigits(s[14..])
  {
    var rest := " " + FormatTime(c);
    FormatDateIsIso(d, rest);
    var s := FormatDate(d) + " " + FormatTime(c);
    assert s == FormatDate(d) + rest;
    assert s[11..13] == Pad2(c.hour);
    assert s[14..] == Pad2(c.minute);
  }

  /*
   * The worked example of one record, `01/15/2024`, `02:30 PM`, `GateA=5`.
   * The `Sample...` lemmas that take string parameters with literal
   * `requires` only state one concatenation or padding of literals each:
   * they keep every step of the example small enough for the verifier and
   * carry no property of the pipeline of their own.
   */

  lemma SampleDatePads()
    ensures Pad2(1) == "01" && Pad2(15) == "15" && Pad4(2024) == "2024"
  {
    assert Pad4(2024) == Pad2(20) + Pad2(24);
    assert Pad2(20) == "20";
    assert Pad2(24) == "24";
  }

  lemma SampleDate()
    ensures DateText(Some("01/15/2024")) == "2024-01-15"
  {
    var d := Date(2024, 1, 15);
    DateTextOfWritten(d, true, Pad2(1), Pad2(15));
    SampleDatePads();
    SampleSlashed(Pad2(1), Pad2(15), Pad4(2024), "01/15/2024");
    SampleIso(Pad4(2024), Pad2(1), Pad2(15));
  }

  lemma SampleSlashed(first: string, second: string, third: string, text: string)
    requires || (first == "01" && second == "15" && third == "2024" && text == "01/15/2024")
             || (first == "15" && second == "01" && third == "2024" && text == "15/01/2024")
    ensures first + "/" + second + "/" + third == text
  {
  }

  lemma SampleIso(year: string, month: string, day: string)
    requires year == "2024" && month == "01" && day == "15"
    ensures year + "-" + month + "-" + day == "2024-01-15"
  {
  }

  lemma SampleTimePads()
    ensures Pad2(2) == "02" && Pad2(14) == "14" && Pad2(30) == "30"
  {
  }

  lemma SampleReading(hour: string, minute: string, meridiem: string)
    requires hour == "02" && minute == "30" && meridiem == "PM"
    ensures hour + ":" + minute + " " + meridiem == "02:30 PM"
  {
  }

  lemma SampleClock(hour: string, minute: string)
    requires hour == "14" && minute == "30"
    ensures hour + ":" + minute == "14:30"
  {
  }

  lemma SampleTime()
    ensures TimeText(Some("02:30 PM")) == "14:30"
  {
    SampleTimePads();
    TimeTextOfReading("02", Pad2(30), " ", "PM", 2, 30, true);
    SampleReading("02", Pad2(30), "PM");
    SampleClock(Pad2(14), Pad2(30));
  }

  lemma SampleCount()
    ensures CountOf(Some("5")) == Some(5)
  {
    CountOfNumber(5, "", "");
    assert "" + IntToString(5) + "" == "5";
  }

  lemma SampleStamp(date: string, time: string)
    requires date == "2024-01-15" && time == "14:30"
    ensures date + " " + time == "2024-01-15 14:30"
  {
  }

  /** The sample record is read, has the one location `GateA`, and its count parses. */
  lemma SampleRow(row: Row)
    requires row == map["Date" := Some("01/15/2024"), "Time" := Some("02:30 PM"), "GateA" := Some("5")]
    ensures !IsBlankRow(row) && !BadRow(row) && LocationColumns(row) == {"GateA"}
    ensures CountOf(row["GateA"]) == Some(5)
  {
    SampleCount();
    assert LocationColumns(row) == {"GateA"};
    assert !BlankCell(row["GateA"]);
  }

  lemma SampleRowStamp(row: Row)
    requires row == map["Date" := Some("01/15/2024"), "Time" := Some("02:30 PM"), "GateA" := Some("5")]
    ensures Timestamp(row) == "2024-01-15 14:30"
  {
    SampleDate();
    SampleTime();
    assert Lookup(row, "Date") == Some("01/15/2024") && Lookup(row, "Time") == Some("02:30 PM");
    SampleStamp(DateText(Lookup(row, "Date")), TimeText(Lookup(row, "Time")));
  }

  lemma ImportOne(row: Row)
    requires !IsBlankRow(row) && !BadRow(row)
    ensures Import([row]) == Ok(Appended(map[], row, Timestamp(row), LocationColumns(row)))
  {
    assert [row][..0] == [];
  }

  lemma AppendedOne(row: Row, stamp: string, k: string, n: int)
    requires k in row && CountOf(row[k]) == Some(n)
    ensures CountsParse(row, {k})
    ensures Appended(map[], row, stamp, {k}) == map[k := [Entry(stamp, n)]]
  {
    var appended := Appended(map[], row, stamp, {k});
    assert appended.Keys == {k};
    var expected: Locations := map[k := [Entry(stamp, n)]];
    assert appended[k] == [Entry(stamp, n)] == expected[k];
    assert appended.Keys == expected.Keys;
  }

  /** One record: `01/15/2024`, `02:30 PM` and a count of 5 at `GateA`. */
  lemma SampleImport()
    ensures Import([map["Date" := Some("01/15/2024"), "Time" := Some("02:30 PM"), "GateA" := Some("5")]])
      == Ok(map["GateA" := [Entry("2024-01-15 14:30", 5)]])
  {
    var row: Row := map["Date" := Some("01/15/2024"), "Time" := Some("02:30 PM"), "GateA" := Some("5")];
    SampleRow(row);
    SampleRowStamp(row);
    ImportOne(row);
    AppendedOne(row, Timestamp(row), "GateA", 5);
  }
}
