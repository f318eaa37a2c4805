/**
 * `export_to_csv`: one CSV file per location under `data/`, holding a header
 * row and one row per entry. The directory and the files are modelled as a
 * map from file name to the rows written into it; opening with `'w'`
 * replaces whatever an earlier location wrote under the same name.
 */
module Exporter {
  import opened Wrappers
  import opened Text
  import opened Importer

  /** Python's `s.replace(old, new)` for single characters. */
  function ReplaceChar(s: string, from: char, to: char): (r: string)
    ensures |r| == |s|
    ensures forall i | 0 <= i < |s| :: r[i] == if s[i] == from then to else s[i]
  {
    if s == "" then ""
    else [if s[0] == from then to else s[0]] + ReplaceChar(s[1..], from, to)
  }

  /** `location.replace(' ', '_').replace('/', '_')`. */
  function SafeName(location: string): string {
    ReplaceChar(ReplaceChar(location, ' ', '_'), '/', '_')
  }

  /** `f"data/{...}.csv"`. */
  function ExportFileName(location: string): string {
    "data/" + SafeName(location) + ".csv"
  }

  /** The characters that all end up as `_` in a file name. */
  predicate Blurred(c: char) {
    c == ' ' || c == '/' || c == '_'
  }

  /** Two characters that give the same file name character. */
  predicate SameInName(a: char, b: char) {
    a == b || (Blurred(a) && Blurred(b))
  }

  /**
   * The file name is `data/`, then the location with every space and slash
   * turned into `_` and every other character kept, then `.csv`; so the
   * file always lands directly inside `data/`.
   */
  lemma ExportFileNameShape(location: string)
    ensures |ExportFileName(location)| == |location| + 9
    ensures ExportFileName(location)[..5] == "data/"
    ensures ExportFileName(location)[|location| + 5..] == ".csv"
    ensures forall i | 0 <= i < |location| ::
      ExportFileName(location)[i + 5] == if Blurred(location[i]) then '_' else location[i]
    ensures forall i | 5 <= i < |location| + 5 :: ExportFileName(location)[i] != '/' && ExportFileName(location)[i] != ' '
  {
    var name := ExportFileName(location);
    var safe := SafeName(location);
    assert name == "data/" + safe + ".csv";
    forall i | 0 <= i < |location|
      ensures name[i + 5] == if Blurred(location[i]) then '_' else location[i]
    {
      assert name[i + 5] == safe[i];
    }
    forall i | 5 <= i < |location| + 5 ensures name[i] != '/' && name[i] != ' ' {
      assert name[i] == safe[i - 5];
    }
  }

  /**
   * Two locations share a file exactly when they have the same length and
   * agree at every position, up to spaces, slashes and underscores.
   */
  lemma SameFileIff(a: string, b: string)
    ensures ExportFileName(a) == ExportFileName(b) <==>
      |a| == |b| && forall i | 0 <= i < |a| :: SameInName(a[i], b[i])
  {
    ExportFileNameShape(a);
    ExportFileNameShape(b);
    if ExportFileName(a) == ExportFileName(b) {
      forall i | 0 <= i < |a| ensures SameInName(a[i], b[i]) {
        assert ExportFileName(a)[i + 5] == ExportFileName(b)[i + 5];
      }
    }
    if |a| == |b| && forall i | 0 <= i < |a| :: SameInName(a[i], b[i]) {
      assert SafeName(a) == SafeName(b);
    }
  }

  /** Different locations can overwrite each other: `A B` and `A/B` both go to `data/A_B.csv`. */
  lemma NamesCollide()
    ensures ExportFileName("A B") == ExportFileName("A/B") == "data/A_B.csv"
  {
    SameFileIff("A B", "A/B");
    assert SafeName("A B") == "A_B";
  }

  /** `writer.writerow(['date', 'gate_start'])`. */
  const Header: seq<string> := ["date", "gate_start"]

  /** `[entry['datetime'], entry['count']]`, the count written as `str()` writes it. */
  function ExportRow(entry: Entry): seq<string> {
    [entry.datetime, IntToString(entry.count)]
  }

  /** The rows written for one location: the header, then one row per entry. */
  function ExportRows(entries: seq<Entry>): seq<seq<string>> {
    [Header] + seq(|entries|, i requires 0 <= i < |entries| => ExportRow(entries[i]))
  }

  /** A row's two fields read back as the entry's timestamp and, under `int()`, its count. */
  lemma ExportRowReadBack(entry: Entry)
    ensures |ExportRow(entry)| == 2 && ExportRow(entry)[0] == entry.datetime
    ensures ParseInt(ExportRow(entry)[1]) == Some(entry.count)
  {
    ParseIntOfString(entry.count);
  }

  /**
   * A location's file holds the header and then, in order, one row per
   * entry whose first field is its timestamp and whose second reads back
   * under `int()` as its count.
   */
  lemma ExportRowsReadBack(entries: seq<Entry>)
    ensures |ExportRows(entries)| == |entries| + 1 && ExportRows(entries)[0] == Header
    ensures forall i | 0 <= i < |entries| ::
      && |ExportRows(entries)[i + 1]| == 2
      && ExportRows(entries)[i + 1][0] == entries[i].datetime
      && ParseInt(ExportRows(entries)[i + 1][1]) == Some(entries[i].count)
  {
    var rows := ExportRows(entries);
    forall i | 0 <= i < |entries|
      ensures |rows[i + 1]| == 2 && rows[i + 1][0] == entries[i].datetime
      ensures ParseInt(rows[i + 1][1]) == Some(entries[i].count)
    {
      assert rows[i + 1] == ExportRow(entries[i]);
      ExportRowReadBack(entries[i]);
    }
  }

  /** File name to rows: what the `data/` directory holds afterwards. */
  type Files = map<string, seq<seq<string>>>

  /** The files after writing the locations named by `order`, first to last. */
  function Exported(locations: Locations, order: seq<string>): Files
    requires forall i | 0 <= i < |order| :: order[i] in locations
  {
    if order == [] then map[]
    else
      var last := order[|order| - 1];
      Exported(locations, order[..|order| - 1])[ExportFileName(last) := ExportRows(locations[last])]
  }

  /** The location that wrote a file last. */
  function LastWriter(order: seq<string>, name: string): (r: Option<nat>)
    ensures r.Some? ==> r.value < |order| && ExportFileName(order[r.value]) == name
    ensures r.Some? ==> forall j | r.value < j < |order| :: ExportFileName(order[j]) != name
    ensures r.None? ==> forall j | 0 <= j < |order| :: ExportFileName(order[j]) != name
  {
    if order == [] then None
    else if ExportFileName(order[|order| - 1]) == name then Some(|order| - 1)
    else LastWriter(order[..|order| - 1], name)
  }

  /**
   * The files written are exactly those of the locations' names, and each
   * holds the rows of the last location in iteration order that maps to it.
   */
  lemma {:induction false} ExportedFiles(locations: Locations, order: seq<string>)
    requires forall i | 0 <= i < |order| :: order[i] in locations
    ensures forall name :: name in Exported(locations, order) <==> LastWriter(order, name).Some?
    ensures forall name | name in Exported(locations, order) ::
      Exported(locations, order)[name] == ExportRows(locations[order[LastWriter(order, name).value]])
  {
    if order != [] {
      ExportedFiles(locations, order[..|order| - 1]);
    }
  }

  /** Without collisions, every location's file holds that location's rows. */
  lemma ExportedWithoutCollision(locations: Locations, order: seq<string>)
    requires forall i | 0 <= i < |order| :: order[i] in locations
    requires forall i, j | 0 <= i < j < |order| :: ExportFileName(order[i]) != ExportFileName(order[j])
    ensures forall i | 0 <= i < |order| ::
      ExportFileName(order[i]) in Exported(locations, order)
      && Exported(locations, order)[ExportFileName(order[i])] == ExportRows(locations[order[i]])
  {
    ExportedFiles(locations, order);
    forall i | 0 <= i < |order|
      ensures Exported(locations, order)[ExportFileName(order[i])] == ExportRows(locations[order[i]])
    {
      var w := LastWriter(order, ExportFileName(order[i]));
      assert w.Some?;
      assert w.value == i;
    }
  }

  /** One file per distinct name: every location's file is written and no other. */
  lemma ExportedNames(locations: Locations, order: seq<string>)
    requires forall i | 0 <= i < |order| :: order[i] in locations
    requires forall k | k in locations :: k in order
    ensures Exported(locations, order).Keys == set k | k in locations :: ExportFileName(k)
  {
    ExportedFiles(locations, order);
    forall name | name in Exported(locations, order) ensures exists k | k in locations :: ExportFileName(k) == name {
      var w := LastWriter(order, name).value;
      assert order[w] in locations;
    }
    forall k | k in locations ensures ExportFileName(k) in Exported(locations, order) {
      var i :| 0 <= i < |order| && order[i] == k;
      assert LastWriter(order, ExportFileName(k)).Some?;
    }
  }

  /**
   * `export_to_csv(locations_dict)`, with `order` the dictionary's iteration
   * order: each key exactly once.
   */
  method ExportToCsv(locations: Locations, order: seq<string>) returns (files: Files)
    requires forall i | 0 <= i < |order| :: order[i] in locations
    requires forall k | k in locations :: k in order
    requires forall i, j | 0 <= i < j < |order| :: order[i] != order[j]
    ensures files == Exported(locations, order)
    ensures files.Keys == set k | k in locations :: ExportFileName(k)
  {
    files := map[];
    var i := 0;
    while i < |order|
      invariant 0 <= i <= |order|
      invariant files == Exported(locations, order[..i])
    {
      var location := order[i];
      var entries := locations[location];
      var filename := ExportFileName(location);
      var rows := [Header];
      var j := 0;
      while j < |entries|
        invariant 0 <= j <= |entries|
        invariant rows == ExportRows(entries[..j])
      {
        rows := rows + [ExportRow(entries[j])];
        j := j + 1;
      }
      assert entries[..j] == entries;
      assert order[..i + 1][..i] == order[..i];
      files := files[filename := rows];
      i := i + 1;
    }
    assert order[..i] == order;
    ExportedNames(locations, order);
  }
}
