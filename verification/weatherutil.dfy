/** Loading every CSV file of a directory into one list of observations with
    at most one observation per date (weatherutil.cpp). The file system is an
    input: a directory is either missing or the list of its CSV files, in the
    order the listing returns them, and each file is either unopenable or the
    lines a line reader returns from it. */
module WeatherUtil {
  import opened Wrappers
  import opened WeatherRecord

  /** One listed CSV file: `None` when it cannot be opened, otherwise its lines. */
  type CsvFile = Option<seq<string>>

  /** What the directory check and the `*.csv` listing see. */
  datatype Directory = Missing | Directory(csvFiles: seq<CsvFile>)

  /** The loader's state: the entries kept by the last successful load. */
  datatype Util = Util(entries: seq<Weather>)

  /** Some entry carries date `d`. */
  predicate HasDate(entries: seq<Weather>, d: DateTime)
  {
    exists e :: e in entries && e.date == d
  }

  /** No two entries share a date. */
  predicate UniqueDates(entries: seq<Weather>)
  {
    forall i, j :: 0 <= i < j < |entries| ==> entries[i].date != entries[j].date
  }

  /** `checkWeatherExists`: a linear scan of the entries for one with the same
      date as `weather`. It only reads the entries. */
  method CheckWeatherExists(entries: seq<Weather>, weather: Weather) returns (known: bool)
    ensures known <==> HasDate(entries, weather.date)
  {
    for i := 0 to |entries|
      invariant forall k :: 0 <= k < i ==> entries[k].date != weather.date
    {
      if entries[i].date == weather.date {
        return true;
      }
    }
    return false;
  }

  /* ---------------------------------------------------------------------- */
  /* What the loops compute, as folds                                        */
  /* ---------------------------------------------------------------------- */

  /** The records of the lines that parse, in line order. */
  function ParsedRecords(lines: seq<string>, conv: Conversions): seq<Weather>
  {
    if |lines| == 0 then []
    else
      var front := ParsedRecords(lines[..|lines| - 1], conv);
      match Parse(lines[|lines| - 1], conv)
      case Success(w) => front + [w]
      case Failure(_) => front
  }

  /** The records one file contributes: nothing when it cannot be opened, and
      otherwise the parsed lines after the first (header) line. */
  function FileRecords(file: CsvFile, conv: Conversions): seq<Weather>
  {
    match file
    case None => []
    case Some(lines) => if |lines| == 0 then [] else ParsedRecords(lines[1..], conv)
  }

  /** Every record the files contribute, file by file and line by line. */
  function Records(files: seq<CsvFile>, conv: Conversions): seq<Weather>
  {
    if |files| == 0 then []
    else Records(files[..|files| - 1], conv) + FileRecords(files[|files| - 1], conv)
  }

  /** One step of the loop body: keep `w` unless its date is already known. */
  function InsertIfNew(entries: seq<Weather>, w: Weather): seq<Weather>
  {
    if HasDate(entries, w.date) then entries else entries + [w]
  }

  /** Offers the records, in order, to `entries`. */
  function IngestRecords(entries: seq<Weather>, records: seq<Weather>): seq<Weather>
  {
    if |records| == 0 then entries
    else InsertIfNew(IngestRecords(entries, records[..|records| - 1]), records[|records| - 1])
  }

  /* ---------------------------------------------------------------------- */
  /* The reference: keep each record that no earlier record shares a date with */
  /* ---------------------------------------------------------------------- */

  /** No record before position `i` has the date of `records[i]`. */
  predicate FirstOfItsDate(records: seq<Weather>, i: int)
    requires 0 <= i < |records|
  {
    forall j :: 0 <= j < i ==> records[j].date != records[i].date
  }

  /** The records that are the first of their date, in their original order. */
  function FirstOccurrences(records: seq<Weather>): seq<Weather>
  {
    if |records| == 0 then []
    else
      var n := |records| - 1;
      FirstOccurrences(records[..n]) + (if FirstOfItsDate(records, n) then [records[n]] else [])
  }

  /* ---------------------------------------------------------------------- */
  /* loadFromDirectory                                                        */
  /* ---------------------------------------------------------------------- */

  /** `loadFromDirectory`. A missing directory or one without CSV files fails
      and leaves the entries as they were. Otherwise the entries are rebuilt
      from nothing: for each file that opens, the first line is skipped, each
      other line that parses is kept unless an entry with its date is already
      kept; unopenable files and bad lines are skipped, and the load succeeds. */
  method LoadFromDirectory(util: Util, dir: Directory, conv: Conversions) returns (ok: bool, loaded: Util)
    ensures !ok <==> dir.Missing? || |dir.csvFiles| == 0
    ensures !ok ==> loaded == util
    ensures ok ==> loaded.entries == FirstOccurrences(Records(dir.csvFiles, conv))
    ensures ok ==> UniqueDates(loaded.entries)
  {
    if dir.Missing? {
      return false, util;
    }
    var csvFiles := dir.csvFiles;
    if |csvFiles| == 0 {
      return false, util;
    }

    var entries: seq<Weather> := [];
    for i := 0 to |csvFiles|
      invariant entries == IngestRecords([], Records(csvFiles[..i], conv))
    {
      assert csvFiles[..i + 1][..i] == csvFiles[..i];
      IngestRecordsAppend([], Records(csvFiles[..i], conv), FileRecords(csvFiles[i], conv));
      match csvFiles[i]
      case None =>
      case Some(lines) =>
        entries := LoadFile(entries, lines, conv);
    }
    assert csvFiles[..|csvFiles|] == csvFiles;
    IngestIsFirstOccurrences(Records(csvFiles, conv));
    FirstOccurrencesKeepsFirst(Records(csvFiles, conv));
    return true, Util(entries);
  }

  /** The body of the per-file loop for a file that opened: the first line
      read is skipped, every other line is parsed, a line that fails to parse
      is skipped, and a parsed record is appended unless its date is known. */
  method LoadFile(entries: seq<Weather>, lines: seq<string>, conv: Conversions) returns (updated: seq<Weather>)
    ensures updated == IngestRecords(entries, FileRecords(Some(lines), conv))
  {
    updated := entries;
    var firstLine := true;
    for j := 0 to |lines|
      invariant firstLine <==> j == 0
      invariant updated == IngestRecords(entries, if j == 0 then [] else ParsedRecords(lines[1..j], conv))
    {
      var line := lines[j];
      if firstLine {
        firstLine := false;
        continue;
      }
      var before := ParsedRecords(lines[1..j], conv);
      assert lines[1..j + 1][..j - 1] == lines[1..j];
      assert lines[1..j + 1][j - 1] == line;
      match Parse(line, conv)
      case Failure(_) =>
      case Success(w) =>
        assert (before + [w])[..|before|] == before;
        var known := CheckWeatherExists(updated, w);
        if !known {
          updated := updated + [w];
        }
    }
    if |lines| > 0 {
      assert lines[1..|lines|] == lines[1..];
    }
  }

  /* ---------------------------------------------------------------------- */
  /* Lemmas                                                                   */
  /* ---------------------------------------------------------------------- */

  /** Every parsed record is the parse of one of the lines, and there are no
      more records than lines. */
  lemma {:induction false} ParsedRecordsComeFromLines(lines: seq<string>, conv: Conversions)
    ensures |ParsedRecords(lines, conv)| <= |lines|
    ensures forall k :: 0 <= k < |ParsedRecords(lines, conv)| ==>
              exists i :: 0 <= i < |lines| && Parse(lines[i], conv) == Success(ParsedRecords(lines, conv)[k])
    decreases |lines|
  {
    if |lines| > 0 {
      var front := lines[..|lines| - 1];
      ParsedRecordsComeFromLines(front, conv);
      var r := ParsedRecords(lines, conv);
      var f := ParsedRecords(front, conv);
      forall k | 0 <= k < |r|
        ensures exists i :: 0 <= i < |lines| && Parse(lines[i], conv) == Success(r[k])
      {
        if k < |f| {
          var i :| 0 <= i < |front| && Parse(front[i], conv) == Success(f[k]);
          assert lines[i] == front[i];
        } else {
          assert Parse(lines[|lines| - 1], conv) == Success(r[k]);
        }
      }
    }
  }

  /** Conversely, every line that parses gives a record. */
  lemma {:induction false} ParsedLinesAllKept(lines: seq<string>, conv: Conversions)
    ensures forall i :: 0 <= i < |lines| && Parse(lines[i], conv).Success? ==>
              Parse(lines[i], conv).value in ParsedRecords(lines, conv)
    decreases |lines|
  {
    if |lines| > 0 {
      var front := lines[..|lines| - 1];
      ParsedLinesAllKept(front, conv);
      var r := ParsedRecords(lines, conv);
      var f := ParsedRecords(front, conv);
      assert f <= r;
      forall i | 0 <= i < |front| && Parse(lines[i], conv).Success?
        ensures Parse(lines[i], conv).value in r
      {
        assert lines[i] == front[i];
      }
    }
  }

  /** A file's records are exactly the parses of its lines after the first:
      no record comes from the header line, and every later line that parses
      gives one. */
  lemma HeaderNeverARecord(lines: seq<string>, conv: Conversions)
    ensures forall k :: 0 <= k < |FileRecords(Some(lines), conv)| ==>
              exists i :: 1 <= i < |lines| && Parse(lines[i], conv) == Success(FileRecords(Some(lines), conv)[k])
    ensures forall i :: 1 <= i < |lines| && Parse(lines[i], conv).Success? ==>
              Parse(lines[i], conv).value in FileRecords(Some(lines), conv)
  {
    if |lines| > 0 {
      var r := FileRecords(Some(lines), conv);
      assert r == ParsedRecords(lines[1..], conv);
      ParsedRecordsComeFromLines(lines[1..], conv);
      ParsedLinesAllKept(lines[1..], conv);
      forall k | 0 <= k < |r|
        ensures exists i :: 1 <= i < |lines| && Parse(lines[i], conv) == Success(r[k])
      {
        var i :| 0 <= i < |lines[1..]| && Parse(lines[1..][i], conv) == Success(r[k]);
        assert lines[1..][i] == lines[i + 1];
      }
      forall i | 1 <= i < |lines| && Parse(lines[i], conv).Success?
        ensures Parse(lines[i], conv).value in r
      {
        assert lines[1..][i - 1] == lines[i];
      }
    } else {
      assert FileRecords(Some(lines), conv) == [];
    }
  }

  lemma HasDateAppend(a: seq<Weather>, b: seq<Weather>, d: DateTime)
    ensures HasDate(a + b, d) <==> HasDate(a, d) || HasDate(b, d)
  {
    if HasDate(a + b, d) {
      var e :| e in a + b && e.date == d;
      assert e in a || e in b;
    }
    if HasDate(a, d) {
      var e :| e in a && e.date == d;
      assert e in a + b;
    }
    if HasDate(b, d) {
      var e :| e in b && e.date == d;
      assert e in a + b;
    }
  }

  /** The fold from nothing is the reference, and it keeps a date exactly when
      some record has it. */
  lemma {:induction false} IngestIsFirstOccurrences(records: seq<Weather>)
    ensures IngestRecords([], records) == FirstOccurrences(records)
    ensures forall d :: HasDate(FirstOccurrences(records), d) <==> HasDate(records, d)
    decreases |records|
  {
    if |records| > 0 {
      var n := |records| - 1;
      var front := records[..n];
      var last := records[n];
      assert records == front + [last];
      IngestIsFirstOccurrences(front);
      assert FirstOfItsDate(records, n) <==> !HasDate(front, last.date) by {
        if !FirstOfItsDate(records, n) {
          var j :| 0 <= j < n && records[j].date == last.date;
          assert front[j] in front;
        }
        if HasDate(front, last.date) {
          var e :| e in front && e.date == last.date;
          var j :| 0 <= j < n && front[j] == e;
          assert records[j].date == last.date;
        }
      }
      var kept := if FirstOfItsDate(records, n) then [last] else [];
      forall d ensures HasDate(FirstOccurrences(records), d) <==> HasDate(records, d) {
        HasDateAppend(FirstOccurrences(front), kept, d);
        HasDateAppend(front, [last], d);
        assert HasDate([last], d) <==> last.date == d by {
          if last.date == d {
            assert last in [last];
          }
        }
      }
    }
  }

  /** What the reference keeps: no date twice, and each kept record is a record
      that no earlier record shares a date with. */
  lemma {:induction false} FirstOccurrencesKeepsFirst(records: seq<Weather>)
    ensures UniqueDates(FirstOccurrences(records))
    ensures forall k :: 0 <= k < |FirstOccurrences(records)| ==>
              exists i :: 0 <= i < |records| && records[i] == FirstOccurrences(records)[k] && FirstOfItsDate(records, i)
    decreases |records|
  {
    if |records| > 0 {
      var n := |records| - 1;
      var front := records[..n];
      var last := records[n];
      FirstOccurrencesKeepsFirst(front);
      IngestIsFirstOccurrences(front);
      var kept := FirstOccurrences(front);
      var r := FirstOccurrences(records);
      forall i | 0 <= i < |front| ensures FirstOfItsDate(front, i) == FirstOfItsDate(records, i) {
      }
      if FirstOfItsDate(records, n) {
        assert r == kept + [last];
        forall k | 0 <= k < |kept| ensures kept[k].date != last.date {
          var i :| 0 <= i < |front| && front[i] == kept[k] && FirstOfItsDate(front, i);
          assert records[i] == kept[k];
        }
        forall k | 0 <= k < |r|
          ensures exists i :: 0 <= i < |records| && records[i] == r[k] && FirstOfItsDate(records, i)
        {
          if k == |kept| {
            assert records[n] == r[k];
          } else {
            var i :| 0 <= i < |front| && front[i] == kept[k] && FirstOfItsDate(front, i);
            assert records[i] == r[k];
          }
        }
      } else {
        assert r == kept;
        forall k | 0 <= k < |r|
          ensures exists i :: 0 <= i < |records| && records[i] == r[k] && FirstOfItsDate(records, i)
        {
          var i :| 0 <= i < |front| && front[i] == kept[k] && FirstOfItsDate(front, i);
          assert records[i] == r[k];
        }
      }
    }
  }

  /** Later records only add to the end: what the first `n` records keep is a
      prefix of what all of them keep, so kept entries stay in encounter order. */
  lemma {:induction false} FirstOccurrencesGrowsAtEnd(records: seq<Weather>, n: nat)
    requires n <= |records|
    ensures FirstOccurrences(records[..n]) <= FirstOccurrences(records)
    decreases |records| - n
  {
    if n < |records| {
      var m := |records| - 1;
      assert records[..m][..n] == records[..n];
      FirstOccurrencesGrowsAtEnd(records[..m], n);
    } else {
      assert records[..n] == records;
    }
  }

  /** Offering records to entries without repeated dates never creates one. */
  lemma {:induction false} IngestKeepsDatesUnique(entries: seq<Weather>, records: seq<Weather>)
    requires UniqueDates(entries)
    ensures UniqueDates(IngestRecords(entries, records))
    decreases |records|
  {
    if |records| > 0 {
      var front := IngestRecords(entries, records[..|records| - 1]);
      var w := records[|records| - 1];
      IngestKeepsDatesUnique(entries, records[..|records| - 1]);
      if !HasDate(front, w.date) {
        forall i | 0 <= i < |front| ensures front[i].date != w.date {
          assert front[i] in front;
        }
      }
    }
  }

  /** Offering records whose dates are all known already changes nothing; in
      particular, offering a load's own records again leaves it as it is. */
  lemma {:induction false} IngestKnownDatesChangesNothing(entries: seq<Weather>, records: seq<Weather>)
    requires forall k :: 0 <= k < |records| ==> HasDate(entries, records[k].date)
    ensures IngestRecords(entries, records) == entries
    decreases |records|
  {
    if |records| > 0 {
      IngestKnownDatesChangesNothing(entries, records[..|records| - 1]);
    }
  }

  /** The duplicate rule adds nothing on a second pass: the records of the
      directory, offered again to the result of loading it, are all
      duplicates. (A second load clears the entries first, so its result does
      not depend on the first; `LoadFromDirectory` states that.) */
  lemma ReloadChangesNothing(files: seq<CsvFile>, conv: Conversions)
    ensures var loaded := FirstOccurrences(Records(files, conv));
      IngestRecords(loaded, Records(files, conv)) == loaded
  {
    var records := Records(files, conv);
    IngestIsFirstOccurrences(records);
    forall k | 0 <= k < |records| ensures HasDate(FirstOccurrences(records), records[k].date) {
      assert records[k] in records;
    }
    IngestKnownDatesChangesNothing(FirstOccurrences(records), records);
  }

  lemma {:induction false} ParsedRecordsAppend(a: seq<string>, b: seq<string>, conv: Conversions)
    ensures ParsedRecords(a + b, conv) == ParsedRecords(a, conv) + ParsedRecords(b, conv)
    decreases |b|
  {
    if |b| == 0 {
      assert a + b == a;
    } else {
      var b' := b[..|b| - 1];
      assert (a + b)[..|a + b| - 1] == a + b';
      ParsedRecordsAppend(a, b', conv);
    }
  }

  lemma {:induction false} RecordsAppend(a: seq<CsvFile>, b: seq<CsvFile>, conv: Conversions)
    ensures Records(a + b, conv) == Records(a, conv) + Records(b, conv)
    decreases |b|
  {
    if |b| == 0 {
      assert a + b == a;
    } else {
      var b' := b[..|b| - 1];
      var last := b[|b| - 1];
      assert (a + b)[..|a + b| - 1] == a + b';
      assert (a + b)[|a + b| - 1] == last;
      RecordsAppend(a, b', conv);
      calc {
        Records(a + b, conv);
        Records(a + b', conv) + FileRecords(last, conv);
        (Records(a, conv) + Records(b', conv)) + FileRecords(last, conv);
        Records(a, conv) + (Records(b', conv) + FileRecords(last, conv));
        Records(a, conv) + Records(b, conv);
      }
    }
  }

  /** Offering two batches in turn is offering their concatenation. */
  lemma {:induction false} IngestRecordsAppend(entries: seq<Weather>, a: seq<Weather>, b: seq<Weather>)
    ensures IngestRecords(entries, a + b) == IngestRecords(IngestRecords(entries, a), b)
    decreases |b|
  {
    if |b| == 0 {
      assert a + b == a;
    } else {
      var b' := b[..|b| - 1];
      assert (a + b)[..|a + b| - 1] == a + b';
      assert (a + b)[|a + b| - 1] == b[|b| - 1];
      IngestRecordsAppend(entries, a, b');
    }
  }

  /** A file that cannot be opened contributes nothing, wherever it is listed;
      the files after it are still read. */
  lemma UnopenableFileContributesNothing(files: seq<CsvFile>, i: nat, conv: Conversions)
    requires i <= |files|
    ensures Records(files[..i] + [None] + files[i..], conv) == Records(files, conv)
  {
    var before := files[..i];
    var after := files[i..];
    var withNone := before + [None];
    assert withNone[..|withNone| - 1] == before;
    assert withNone[|withNone| - 1] == None;
    calc {
      Records(withNone + after, conv);
      { RecordsAppend(withNone, after, conv); }
      Records(withNone, conv) + Records(after, conv);
      Records(before, conv) + Records(after, conv);
      { RecordsAppend(before, after, conv); }
      Records(before + after, conv);
      { assert before + after == files; }
      Records(files, conv);
    }
  }

  /** A line that does not parse, anywhere after the header, contributes nothing
      and does not stop the lines after it. */
  lemma BadLineContributesNothing(lines: seq<string>, k: nat, bad: string, conv: Conversions)
    requires 1 <= k <= |lines|
    requires Parse(bad, conv).Failure?
    ensures FileRecords(Some(lines[..k] + [bad] + lines[k..]), conv) == FileRecords(Some(lines), conv)
  {
    var withBad := lines[..k] + [bad] + lines[k..];
    assert withBad[1..] == (lines[1..k] + [bad]) + lines[k..];
    assert lines[1..] == lines[1..k] + lines[k..];
    ParsedRecordsAppend(lines[1..k] + [bad], lines[k..], conv);
    ParsedRecordsAppend(lines[1..k], [bad], conv);
    assert [bad][..0] == [];
    ParsedRecordsAppend(lines[1..k], lines[k..], conv);
  }

  /** The first line of a file never matters: replacing it by any other text
      leaves the loaded entries unchanged. */
  lemma HeaderLineIgnored(files: seq<CsvFile>, i: nat, header: string, conv: Conversions)
    requires i < |files|
    requires files[i].Some? && |files[i].value| > 0
    ensures var lines := files[i].value;
      Records(files[i := Some([header] + lines[1..])], conv) == Records(files, conv)
  {
    var lines := files[i].value;
    var changed := files[i := Some([header] + lines[1..])];
    assert ([header] + lines[1..])[1..] == lines[1..];
    assert files == files[..i] + [files[i]] + files[i + 1..];
    assert changed == files[..i] + [changed[i]] + files[i + 1..];
    RecordsAppend(files[..i] + [files[i]], files[i + 1..], conv);
    RecordsAppend(files[..i], [files[i]], conv);
    RecordsAppend(files[..i] + [changed[i]], files[i + 1..], conv);
    RecordsAppend(files[..i], [changed[i]], conv);
    assert [files[i]][..0] == [] && [changed[i]][..0] == [];
  }
}
