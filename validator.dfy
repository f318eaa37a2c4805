/**
 * `validate_data`: a repair pass over the imported locations. A timestamp
 * that does not start with `YYYY-MM-DD` has its date part (the text before
 * the first space) re-read under five formats, and a negative count becomes 0.
 */
module Validator {
  import opened Wrappers
  import opened Text
  import opened Strptime
  import opened Importer

  /** Python's `s.split(sep)` for a one-character separator. */
  function Split(s: string, sep: char): (parts: seq<string>)
    ensures |parts| >= 1
    ensures forall i | 0 <= i < |parts| :: sep !in parts[i]
    ensures |parts| >= 2 <==> sep in s
  {
    if s == "" then [""]
    else
      var rest := Split(s[1..], sep);
      if s[0] == sep then [""] + rest
      else [[s[0]] + rest[0]] + rest[1..]
  }

  /** Python's `sep.join(parts)`. */
  function Join(sep: char, parts: seq<string>): string {
    if parts == [] then ""
    else if |parts| == 1 then parts[0]
    else parts[0] + [sep] + Join(sep, parts[1..])
  }

  /** Joining the pieces of a split with the same separator gives back the text. */
  lemma {:induction false} JoinSplit(s: string, sep: char)
    ensures Join(sep, Split(s, sep)) == s
  {
    if s != "" {
      JoinSplit(s[1..], sep);
      var rest := Split(s[1..], sep);
      if s[0] != sep {
        var parts := Split(s, sep);
        assert parts[1..] == rest[1..];
        if |rest| == 1 {
          assert Join(sep, parts) == [s[0]] + rest[0];
        } else {
          assert Join(sep, rest) == rest[0] + [sep] + Join(sep, rest[1..]);
        }
      } else {
        assert Split(s, sep)[1..] == rest;
      }
    }
  }

  /** Splitting a join of separator-free pieces gives back the pieces. */
  lemma {:induction false} SplitJoin(parts: seq<string>, sep: char)
    requires parts != []
    requires forall i | 0 <= i < |parts| :: sep !in parts[i]
    ensures Split(Join(sep, parts), sep) == parts
  {
    if |parts| == 1 {
      SplitOfPlain(parts[0], sep, []);
      assert parts[0] + [] == parts[0];
      assert Split([], sep) == [""];
    } else {
      SplitJoin(parts[1..], sep);
      var tail := Join(sep, parts[1..]);
      SplitOfPlain(parts[0], sep, [sep] + tail);
      assert Split([sep] + tail, sep) == [""] + Split(tail, sep) by {
        assert ([sep] + tail)[1..] == tail;
      }
      assert Join(sep, parts) == parts[0] + ([sep] + tail);
      assert parts[0] + "" == parts[0];
      assert [parts[0]] + parts[1..] == parts;
    }
  }

  /** A separator-free prefix joins onto the first piece of what follows it. */
  lemma {:induction false} SplitOfPlain(word: string, sep: char, rest: string)
    requires sep !in word
    ensures Split(word + rest, sep) ==
      var after := Split(rest, sep);
      [word + after[0]] + after[1..]
  {
    if word != "" {
      assert (word + rest)[1..] == word[1..] + rest;
      SplitOfPlain(word[1..], sep, rest);
      assert word + Split(rest, sep)[0] == [word[0]] + (word[1..] + Split(rest, sep)[0]);
    } else {
      var after := Split(rest, sep);
      assert word + rest == rest;
      assert word + after[0] == after[0];
      assert [after[0]] + after[1..] == after;
    }
  }

  /**
   * `parts[0]` and `' '.join(parts[1:])` of a text with a space in it: the
   * text before the first space and the exact text after it.
   */
  lemma DateAndTimeParts(date: string, time: string)
    requires ' ' !in date
    ensures Split(date + " " + time, ' ')[0] == date
    ensures Join(' ', Split(date + " " + time, ' ')[1..]) == time
  {
    SplitOfPlain(date, ' ', " " + time);
    assert Split(" " + time, ' ') == [""] + Split(time, ' ') by {
      assert (" " + time)[1..] == time;
    }
    assert date + " " + time == date + (" " + time);
    JoinSplit(time, ' ');
  }

  /** The timestamp after the repair pass. */
  function RepairTimestamp(s: string): string {
    if HasIsoDatePrefix(s) then s
    else
      var parts := Split(s, ' ');
      if |parts| < 2 then s
      else
        match FirstParse(RepairFormats, parts[0])
        case Some(d) => FormatDate(d) + " " + Join(' ', parts[1..])
        case None => s
  }

  /** `if entry['count'] < 0: entry['count'] = 0`. */
  function RepairCount(count: int): (r: int)
    ensures r >= 0
    ensures count >= 0 ==> r == count
    ensures count < 0 ==> r == 0
  {
    if count < 0 then 0 else count
  }

  function RepairEntry(e: Entry): Entry {
    Entry(RepairTimestamp(e.datetime), RepairCount(e.count))
  }

  function RepairEntries(entries: seq<Entry>): (r: seq<Entry>)
    ensures |r| == |entries|
    ensures forall i | 0 <= i < |r| :: r[i] == RepairEntry(entries[i])
  {
    seq(|entries|, i requires 0 <= i < |entries| => RepairEntry(entries[i]))
  }

  /** What `validate_data` leaves in the dictionary. */
  function Validated(locations: Locations): Locations {
    map k | k in locations :: RepairEntries(locations[k])
  }

  /**
   * A timestamp with the ISO prefix is kept; one whose date part re-reads
   * under a format gets that date in ISO form and keeps everything after its
   * first space; any other is kept as it is.
   */
  lemma RepairOfDateAndTime(date: string, time: string)
    requires ' ' !in date && !HasIsoDatePrefix(date + " " + time)
    ensures RepairTimestamp(date + " " + time) ==
      match FirstParse(RepairFormats, date)
      case Some(d) => FormatDate(d) + " " + time
      case None => date + " " + time
  {
    DateAndTimeParts(date, time);
  }

  /** A timestamp without a space, or one already in ISO form, is kept as it is. */
  lemma RepairKeeps(s: string)
    requires HasIsoDatePrefix(s) || ' ' !in s
    ensures RepairTimestamp(s) == s
  {
  }

  lemma RepairedIsIso(d: Date, time: string)
    requires ValidDate(d)
    ensures HasIsoDatePrefix(FormatDate(d) + " " + time)
  {
    assert FormatDate(d) + " " + time == FormatDate(d) + (" " + time);
    FormatDateIsIso(d, " " + time);
  }

  /** Whatever the repair produces is either the old text or starts with an ISO date. */
  lemma RepairedIsIsoOrKept(s: string)
    ensures RepairTimestamp(s) == s || HasIsoDatePrefix(RepairTimestamp(s))
  {
    if !HasIsoDatePrefix(s) {
      var parts := Split(s, ' ');
      if |parts| >= 2 {
        match FirstParse(RepairFormats, parts[0]) {
          case Some(d) =>
            RepairedIsIso(d, Join(' ', parts[1..]));
          case None =>
        }
      }
    }
  }

  /** Repairing twice is repairing once. */
  lemma RepairTimestampIdempotent(s: string)
    ensures RepairTimestamp(RepairTimestamp(s)) == RepairTimestamp(s)
  {
    RepairedIsIsoOrKept(s);
  }

  /** The repair pass keeps every location and every entry, in order, and leaves no negative count. */
  lemma ValidatedShape(locations: Locations)
    ensures Validated(locations).Keys == locations.Keys
    ensures forall k | k in locations :: |Validated(locations)[k]| == |locations[k]|
    ensures forall k, i | k in locations && 0 <= i < |locations[k]| ::
      && Validated(locations)[k][i].count >= 0
      && (locations[k][i].count >= 0 ==> Validated(locations)[k][i].count == locations[k][i].count)
      && Validated(locations)[k][i].datetime == RepairTimestamp(locations[k][i].datetime)
  {
  }

  /** Running the repair pass on its own output changes nothing. */
  lemma ValidatedIdempotent(locations: Locations)
    ensures Validated(Validated(locations)) == Validated(locations)
  {
    var once := Validated(locations);
    forall k | k in once ensures RepairEntries(once[k]) == once[k] {
      forall i | 0 <= i < |once[k]| ensures RepairEntry(once[k][i]) == once[k][i] {
        RepairTimestampIdempotent(locations[k][i].datetime);
      }
    }
  }

  /**
   * The timestamp of a record whose date cell parsed at import passes the
   * repair pass untouched, whatever its time cell holds.
   */
  lemma ImportedTimestampKept(row: Row)
    requires Lookup(row, "Date").Some? && FirstParse(ImportFormats, Lookup(row, "Date").value).Some?
    ensures RepairTimestamp(Timestamp(row)) == Timestamp(row)
  {
    var d := FirstParse(ImportFormats, Lookup(row, "Date").value).value;
    var time := TimeText(Lookup(row, "Time"));
    assert Timestamp(row) == FormatDate(d) + " " + time;
    RepairedIsIso(d, time);
    RepairKeeps(Timestamp(row));
  }

  /*
   * The worked example `15/01/2024 14:30`. As in the importer's example,
   * `SampleFormatted` and `SampleSpaced` only state one concatenation of
   * literals each, which keeps every step small for the verifier.
   */

  /** `15/01/2024` is not month-first: 15 is no month. */
  lemma DayFirstNotMonthFirst(century: bool)
    ensures ParseDate(MonthDayYear(century), "15/01/2024").None?
  {
    DigitRunOfPrefix("15", "/01/2024");
    assert "15" + "/01/2024" == "15/01/2024";
    assert DigitsValue("15") == 15;
  }

  /** `15/01/2024` read day-first. */
  lemma DayFirstReading()
    ensures ParseDate(DayMonthYear(true), "15/01/2024") == Some(Date(2024, 1, 15))
  {
    var d := Date(2024, 1, 15);
    ParseDateOfRender(DayMonthYear(true), d);
    SampleDatePads();
    SampleSlashed(Pad2(15), Pad2(1), Pad4(2024), "15/01/2024");
  }

  lemma SampleFormatted(time: string)
    requires time == "14:30"
    ensures FormatDate(Date(2024, 1, 15)) + " " + time == "2024-01-15 14:30"
  {
    SampleDatePads();
    var date := FormatDate(Date(2024, 1, 15));
    assert date == "2024-01-15";
    assert date + " " + time == "2024-01-15" + " " + "14:30";
  }

  lemma SampleSpaced(date: string, time: string, text: string)
    requires date == "15/01/2024" && time == "14:30" && text == "15/01/2024 14:30"
    ensures text == date + " " + time && !HasIsoDatePrefix(text)
  {
    assert text[4] == '1';
  }

  /** The first two formats reject `15/01/2024`; the third reads it. */
  lemma DayFirstParse()
    ensures FirstParse(RepairFormats, "15/01/2024") == Some(Date(2024, 1, 15))
  {
    DayFirstNotMonthFirst(true);
    DayFirstNotMonthFirst(false);
    DayFirstReading();
  }

  /** A day-first date the importer leaves alone is rewritten by the repair pass. */
  lemma RepairDayFirst()
    ensures RepairTimestamp("15/01/2024 14:30") == "2024-01-15 14:30"
  {
    var date, time := "15/01/2024", "14:30";
    SampleSpaced(date, time, "15/01/2024 14:30");
    DayFirstParse();
    RepairOfDateAndTime(date, time);
    SampleFormatted(time);
  }

  /** `entry['datetime'] = ...` as the loop body computes it. */
  method RepairDatetime(s: string) returns (r: string)
    ensures r == RepairTimestamp(s)
  {
    r := s;
    if !HasIsoDatePrefix(s) {
      var parts := Split(s, ' ');
      if |parts| >= 2 {
        var datePart := parts[0];
        var timePart := Join(' ', parts[1..]);
        var parsed := FirstMatch(RepairFormats, datePart);
        if parsed.Some? {
          r := FormatDate(parsed.value) + " " + timePart;
        }
      }
    }
  }

  /** The dictionary `validate_data` works on in place. */
  class Dataset {
    var locations: Locations

    constructor(locations: Locations)
      ensures this.locations == locations
    {
      this.locations := locations;
    }

    /** `validate_data(locations_dict)`: repairs every entry of every location. */
    method Validate()
      modifies this
      ensures locations == Validated(old(locations))
    {
      var pending := locations.Keys;
      while pending != {}
        invariant pending <= locations.Keys
        invariant locations.Keys == old(locations).Keys
        invariant forall k | k in locations ::
          locations[k] == if k in pending then old(locations)[k] else RepairEntries(old(locations)[k])
        decreases pending
      {
        var location :| location in pending;
        var entries := RepairList(locations[location]);
        locations := locations[location := entries];
        pending := pending - {location};
      }
      forall k | k in locations ensures locations[k] == Validated(old(locations))[k] { }
    }
  }

  /** `for entry in entries:` with the body applied to each entry in turn. */
  method RepairList(entries: seq<Entry>) returns (repaired: seq<Entry>)
    ensures repaired == RepairEntries(entries)
  {
    repaired := entries;
    var j := 0;
    while j < |repaired|
      invariant 0 <= j <= |repaired| == |entries|
      invariant forall i | 0 <= i < j :: repaired[i] == RepairEntry(entries[i])
      invariant forall i | j <= i < |repaired| :: repaired[i] == entries[i]
    {
      var entry := repaired[j];
      var datetime := RepairDatetime(entry.datetime);
      var count := entry.count;
      if count < 0 {
        count := 0;
      }
      repaired := repaired[j := Entry(datetime, count)];
      j := j + 1;
    }
  }
}
