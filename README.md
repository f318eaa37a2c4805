# building-entry-script: the `parse.py` pipeline in Dafny

`parse.py` turns a wide CSV of entry counts into one CSV per location. Each input
row is one date and time, and each column is one location (a gate). The pipeline
has three stages, and this project models all three:

- **`import_dataset`** skips blank records and drops the unnamed column. It
  normalises each record's `Date` to `YYYY-MM-DD` (trying `%m/%d/%Y`, then
  `%m/%d/%y`) and its `Time` from `%I:%M %p` to `%H:%M`. Each of the other
  cells becomes a count through the source's own rules: a missing or empty
  cell becomes -1, a whitespace-only cell 0, and anything else is read with
  `int()`. The result is one list of `(datetime, count)` entries per
  location, in row order.
- **`validate_data`** repairs every entry in place. A timestamp without a
  leading `YYYY-MM-DD` has the text before its first space re-read under
  five date formats; the first that parses wins. A negative count becomes 0.
- **`export_to_csv`** writes `data/<name>.csv`, with spaces and slashes in the
  name replaced by `_`. The file holds the header `date,gate_start` and then
  one row per entry.

The model has these modules:

- `Text`: Python's `isspace`, `strip`, `str()` of an integer and `int()` of a string.
- `Strptime`: only the strptime/strftime behaviour the pipeline uses:
  - the directives `%m %d %Y %y %I %M %p`;
  - the month-length and leap-year check of the `datetime` constructor;
  - the five date formats, tried in order.
- `Importer`: the import loop. `ImportDataset` is proved equal to `Import`, a
  specification function over the records.
- `Validator`: the repair pass. `Dataset.Validate` updates the dictionary held
  by a `Dataset` object and is proved equal to `Validated`.
- `Exporter`: file names, rows, and the write loop. The write loop is proved
  equal to `Exported`.
- `Wrappers`: `Option` and `Result`.

Where the code raises (`int()` on a count it cannot read), the model returns
`Err(InvalidCount(row))` with the index of the record.

Where the documented behaviour and the code differ, the model follows the code:

- A missing or empty count cell is stored as -1, not 0 (parse.py:43-46). The
  string `"-1"` is parsed by `int()`. Only the repair pass later turns it into 0.
- A timestamp is canonical only when both cells parse. Otherwise the raw cell
  text is kept (parse.py:22-38). A missing cell of a short line is printed as
  `None`.
- The locations are the non-reserved columns of the records actually read, not
  the header of row 1. A non-numeric count makes the whole import raise
  (parse.py:46).

## Model

| member | source | states |
|---|---|---|
| `Text.StripEmptyIffAllSpace` | parse.py:15 | `s.strip()` is empty exactly when `s` is whitespace only, which is the blank-cell test |
| `Text.StripPadded` | parse.py:43 | stripping removes exactly the whitespace around a text that neither starts nor ends with whitespace |
| `Text.ParseIntOfString` | parse.py:46 | `int(str(i)) == i` for every integer, negative ones included |
| `Strptime.DaysInMonth` | parse.py:25 | a month has 28 to 31 days, and 29 exactly for February of a leap year |
| `Strptime.ParseDate` | parse.py:25 | a date strptime accepts is a real calendar date (month 1-12, day within the month, year 1-9999) |
| `Strptime.FirstMatch` | parse.py:23-29 | the `for fmt ...: try strptime; break / except: continue` loop returns the first format's parse that succeeds |
| `Strptime.FirstParseIsFirstSuccess` | parse.py:23-29 | the search succeeds iff some format parses, and then it yields the parse of the first format that does, every earlier one having failed |
| `Strptime.ParseDateOfWriting` | parse.py:23-25 | every valid date written in any of the five formats parses back to itself: month and day with or without a leading zero, a one-digit day also after a space (for `%y`, years 1969-2068) |
| `Strptime.ParseDateOfRender` | parse.py:72-74 | in particular, a date written by strftime in one of the five formats parses back to itself with that format |
| `Strptime.ParseDateOnlyWritings` | parse.py:23-25 | conversely, a text a format accepts is a writing of the date it yields in that format: three fields separated by `/`, month and day with or without a leading zero (a one-digit day also after a space), `%Y` four digits, `%y` two digits and a year in 1969-2068 |
| `Strptime.CenturyRejectsShortYear` | parse.py:23-25 | `%m/%d/%Y` rejects a date written with a two-digit year, padded or not, so such a date reaches `%m/%d/%y` |
| `Strptime.FormatDateIsIso` | parse.py:26 | `strftime('%Y-%m-%d')` is ten characters and always passes the validator's `^\d{4}-\d{2}-\d{2}` test |
| `Strptime.To24Hour` | parse.py:33-34 | the 24-hour hour lies in 0-23, agrees with the 12-hour hour modulo 12, and is 12 or more exactly for PM |
| `Strptime.ParseTime12` | parse.py:33 | a time strptime accepts with `%I:%M %p` is a valid clock time |
| `Strptime.ParseTime12OfReading` | parse.py:32-34 | an hour 1-12 and a minute 0-59, each with or without a leading zero, then any run of whitespace and AM or PM in any letter case, parse to the 24-hour time of that reading |
| `Strptime.ParseTime12OnlyReadings` | parse.py:32-34 | conversely, a text `%I:%M %p` accepts is such a reading of the time it yields |
| `Importer.RowTimestamp` | parse.py:18-38 | the date and time conversion of one record yields the timestamp `Timestamp` specifies |
| `Importer.AppendColumns` | parse.py:40-48 | the inner loop either appends one entry to each location column or fails exactly when some count is unreadable |
| `Importer.ImportDataset` | parse.py:10-51 | the import loop returns exactly what `Import` specifies, and fails where `int()` raises |
| `Importer.ImportKeepsError` | parse.py:46 | once a record raises, further records cannot undo the failure |
| `Importer.BlankRowAddsNothing` | parse.py:15-16 | a record whose every cell is missing, empty or whitespace adds nothing |
| `Importer.ImportSucceedsIffNoBadRow` | parse.py:14-48 | the import succeeds exactly when no read record holds a count `int()` rejects |
| `Importer.ImportFailsAtFirstBadRow` | parse.py:43-46 | when it fails, the error names the first such record |
| `Importer.ImportGroupsByColumn` | parse.py:40-48 | each location's list is the entries its column yields, record by record in input order; no list is empty |
| `Importer.ImportKeys` | parse.py:17-19 | the locations are exactly the columns of read records other than the unnamed one, `Date` and `Time`; those three never are |
| `Importer.CountOfMissing` | parse.py:43-46 | a missing or empty count cell gives -1 |
| `Importer.CountOfWhitespace` | parse.py:43-46 | a whitespace-only count cell gives 0 |
| `Importer.CountOfNumber` | parse.py:43-46 | a count written as an integer, with whitespace around it, gives that integer |
| `Importer.DateTextOfWritten` | parse.py:22-29 | `m/d/YYYY`, or `m/d/yy` for 1969-2068, becomes that date as `YYYY-MM-DD`, whether month and day carry a leading zero or not and a one-digit day a leading space |
| `Importer.ParsedDateIsWritten` | parse.py:22-29 | a date cell either format reads is a `m/d/YYYY` writing, or a `m/d/yy` one for 1969-2068, of a valid date |
| `Importer.DateTextOfUnread` | parse.py:22-29 | a date cell that is no such writing of a valid date is kept as it is |
| `Importer.TimeTextOfReading` | parse.py:32-34 | for every reading `ParseTime12OfReading` accepts, 12 AM becomes 00, 12 PM stays 12, other PM hours gain 12, AM hours are kept, and hour and minute are zero-padded |
| `Importer.ParsedTimeIsReading` | parse.py:31-35 | a time cell `%I:%M %p` reads is such a 12-hour reading |
| `Importer.TimeTextOfUnread` | parse.py:31-35 | a time cell that is no 12-hour reading is kept as it is |
| `Importer.TimestampCanonical` | parse.py:38 | when both cells parse, the timestamp has the form `YYYY-MM-DD HH:MM` |
| `Importer.SampleImport` | parse.py:14-48 | the record `01/15/2024`, `02:30 PM`, `GateA=5` gives `{"GateA": [("2024-01-15 14:30", 5)]}` |
| `Validator.JoinSplit` | parse.py:66-69 | `' '.join(s.split(' ')) == s` |
| `Validator.SplitJoin` | parse.py:66-69 | splitting a join of space-free pieces gives back the pieces |
| `Validator.DateAndTimeParts` | parse.py:66-69 | `parts[0]` is the text before the first space and `' '.join(parts[1:])` the exact text after it |
| `Validator.RepairOfDateAndTime` | parse.py:62-78 | a timestamp without the ISO prefix has its date part rewritten as `YYYY-MM-DD` if a format reads it, and its time part kept exactly; otherwise it is kept |
| `Validator.RepairKeeps` | parse.py:62-67 | a timestamp with the ISO prefix, or without a space, is left as it is |
| `Validator.RepairedIsIsoOrKept` | parse.py:62-78 | the repair either keeps the timestamp or gives one with the ISO prefix |
| `Validator.RepairTimestampIdempotent` | parse.py:56-80 | repairing a timestamp twice gives what repairing once does |
| `Validator.RepairCount` | parse.py:83-84 | the count is never negative afterwards, and a count that was not negative is unchanged |
| `Validator.ValidatedShape` | parse.py:58-86 | no location or entry is added, removed or reordered; each count ends non-negative and non-negative counts are kept |
| `Validator.ValidatedIdempotent` | parse.py:54-86 | a second repair pass changes nothing |
| `Validator.ImportedTimestampKept` | parse.py:56-62 | a timestamp whose date cell parsed at import passes the repair pass untouched, whatever the time cell held |
| `Validator.DayFirstNotMonthFirst` | parse.py:72-73 | the month-first formats reject `15/01/2024` |
| `Validator.RepairDayFirst` | parse.py:72-75 | `15/01/2024 14:30` becomes `2024-01-15 14:30` |
| `Validator.RepairDatetime` | parse.py:61-78 | the repair of one timestamp computes `RepairTimestamp` |
| `Validator.RepairList` | parse.py:59-84 | the loop over one location's entries repairs each entry in place, in order |
| `Validator.Dataset.Validate` | parse.py:54-86 | the dictionary afterwards is the repair of the dictionary before |
| `Exporter.ReplaceChar` | parse.py:95 | `replace` keeps the length and changes exactly the occurrences of the old character |
| `Exporter.ExportFileNameShape` | parse.py:95 | the name is `data/`, the location with every space and slash as `_`, then `.csv`; it holds no space or slash after `data/` |
| `Exporter.SameFileIff` | parse.py:95 | two locations share a file exactly when they agree position by position up to space, slash and underscore |
| `Exporter.NamesCollide` | parse.py:95-97 | `A B` and `A/B` both write `data/A_B.csv` |
| `Exporter.ExportRowReadBack` | parse.py:104 | a row's fields are the entry's timestamp and a count that `int()` reads back as the entry's count |
| `Exporter.ExportRowsReadBack` | parse.py:100-104 | a file holds the header and then one row per entry, in order |
| `Exporter.ExportedFiles` | parse.py:93-104 | the files written are those named by the locations, each holding the rows of the last location written to it |
| `Exporter.ExportedWithoutCollision` | parse.py:93-104 | without name collisions, every location's file holds exactly its rows |
| `Exporter.ExportedNames` | parse.py:93-97 | the file names written are exactly the names of the locations |
| `Exporter.ExportToCsv` | parse.py:89-104 | the write loop leaves exactly the files `Exported` specifies, one per distinct name |

## Left out

- Reading the input file is not modelled. The records are an input: `open("dataset.csv")`
  ignores its `filename` argument (parse.py:12), and the BOM handling and CSV
  parsing of `csv.DictReader` belong to the reader.
- Records of a line longer than the header are not modelled. `csv.DictReader`
  stores the extra cells as a list under the key `None`, after the named cells.
  If some named cell is not blank, the blank test at parse.py:15 stops before
  that list, and `row[item].strip()` at parse.py:43 then raises on it. If every
  named cell is blank, the blank test itself raises on the list. Either way
  the import raises.
- Writing the output files is not modelled. `os.makedirs`, `csv.writer` quoting
  and line endings, and the `print` of each file name are I/O. The output is a
  map from file name to the list of rows.
- `main` is not part of this model: the command-line arguments and the `.csv`
  suffix test are plumbing.
- Dictionary order is not modelled. Python dictionaries keep insertion order;
  `Locations` is an unordered map. `ExportToCsv` therefore takes the order in
  which the dictionary yields its keys as a parameter. The inner import loop
  visits columns in any order, which gives the same lists because each column
  appends only to its own list.
- Entries are values, not shared dictionaries. Aliasing between the entry
  objects of `validate_data` is not modelled.
- `Strptime.ParseDate` (and `Text.ParseInt`): digits are ASCII only. Python's
  `\d` and `int()` also accept other Unicode decimal digits.
- `%p` is modelled for the C locale only: `AM`/`PM`, in any letter case.
- `Strptime.FormatDate`: a year below 1000 is zero-padded to four digits.
  glibc's `strftime('%Y')` prints such a year without padding, so the model
  differs there. Such a year can only come from a `%Y` or `%Y/%m/%d` date such
  as `01/01/0999`.
- strptime's handling of directives the pipeline never uses is not modelled.
- Reading a spreadsheet is not part of this model.
- The outer `try/except: pass` of `validate_data` (parse.py:64-80) has no
  counterpart. Its body cannot raise on string timestamps.
- The `.get('datetime', '')` and `.get('count', 0)` defaults have no
  counterpart either: every entry the importer makes has both keys.
