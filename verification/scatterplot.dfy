/**
 * The reader side of the output file, as `get_csv_data` in
 * generate-scatterplot.py consumes it: skip the first line, then turn each
 * CSV row into a `DataRow(row[0], int(row[1]))`. Clustering and plotting
 * are outside this model.
 */
module Scatterplot {
  import opened Optional
  import opened Decimal
  import opened Text
  import opened Records
  import opened OutputFile

  /** `DataRow`: the access-location field as text and the nanoseconds as an integer. */
  datatype DataRow = DataRow(access: string, nanoseconds: int)

  /**
   * One row: its comma-separated fields, the first kept as text and the
   * second read as an integer. A row with fewer than two fields or a second
   * field that is not a number makes the read fail.
   */
  function ParseRow(line: string): (r: Option<DataRow>)
    ensures r.Some? ==> r.value.access == Split(line, ',')[0]
    ensures r.Some? <==> 2 <= |Split(line, ',')| && ParseNat(Split(line, ',')[1]).Some?
    ensures r.Some? ==> r.value.nanoseconds == ParseNat(Split(line, ',')[1]).value
  {
    var fields := Split(line, ',');
    if |fields| < 2 then None
    else
      match ParseNat(fields[1])
      case None => None
      case Some(n) => Some(DataRow(fields[0], n))
  }

  /** Every row in order; the read fails when any row does. */
  function ParseRows(lines: seq<string>): (r: Option<seq<DataRow>>)
    ensures r.Some? <==> forall i :: 0 <= i < |lines| ==> ParseRow(lines[i]).Some?
    ensures r.Some? ==> |r.value| == |lines|
    ensures r.Some? ==> forall i :: 0 <= i < |lines| ==> Some(r.value[i]) == ParseRow(lines[i])
  {
    if forall i :: 0 <= i < |lines| ==> ParseRow(lines[i]).Some? then
      Some(seq(|lines|, i requires 0 <= i < |lines| => ParseRow(lines[i]).value))
    else
      None
  }

  /**
   * `get_csv_data`: the first line is skipped (an empty file has none to
   * skip, and the read fails) and every later line becomes one `DataRow`.
   */
  function ReadCsv(text: string): (r: Option<seq<DataRow>>)
    ensures r.Some? ==> |r.value| + 1 == |Lines(text)|
    ensures r.Some? ==> forall i :: 0 <= i < |r.value| ==> Some(r.value[i]) == ParseRow(Lines(text)[i + 1])
    ensures Lines(text) != [] && (forall i :: 1 <= i < |Lines(text)| ==> ParseRow(Lines(text)[i]).Some?) ==> r.Some?
  {
    var lines := Lines(text);
    if lines == [] then None else ParseRows(lines[1..])
  }

  /** What the reader should recover from a run's records: each location and its duration. */
  function Expected(records: seq<Record>): seq<DataRow>
  {
    seq(|records|, i requires 0 <= i < |records| => DataRow(Location(records[i]), records[i].duration))
  }

  /** A record's row reads back as its location and duration. */
  lemma ParseRowOfRecord(r: Record)
    ensures ParseRow(Row(r)) == Some(DataRow(Location(r), r.duration))
  {
    RowFields(r);
  }

  /** Every row of a record reads back as that record's location and duration. */
  lemma ParseRowsOfRecords(records: seq<Record>)
    ensures ParseRows(Rows(records)) == Some(Expected(records))
  {
    var rows := Rows(records);
    forall i | 0 <= i < |records|
      ensures ParseRow(rows[i]) == Some(Expected(records)[i])
    {
      ParseRowOfRecord(records[i]);
    }
    assert ParseRows(rows).value == Expected(records);
  }

  /** No record's row can be taken for the header: the header line occurs once, at the top. */
  lemma HeaderOnce(records: seq<Record>)
    ensures HEADER !in Rows(records)
  {
    assert HEADER[1] == 'c';
    forall r | r in records
      ensures Row(r) != HEADER
    {
      RowOpens(r);
      assert Row(r)[1] == Row(r)[..4][1] == 'r';
    }
  }

  /** The header and the rows of some records, each on its own line, read back as those lines. */
  lemma FileLines(records: seq<Record>)
    ensures Free([HEADER] + Rows(records), '\n')
    ensures Lines(Unlines([HEADER] + Rows(records))) == [HEADER] + Rows(records)
  {
    RowsFree(records);
    var rows := Rows(records);
    var lines := [HEADER] + rows;
    assert '\n' !in HEADER;
    forall i | 0 <= i < |lines|
      ensures '\n' !in lines[i]
    {
      if i > 0 {
        assert lines[i] == rows[i - 1];
      }
    }
    LinesUnlines(lines);
  }

  /**
   * A file holding the header line followed by the rows of some records is
   * read back as exactly those records' locations and durations, in order:
   * the reader's skipped line is the header and nothing else.
   */
  lemma ReadCsvRoundTrip(records: seq<Record>)
    ensures ReadCsv(Unlines([HEADER] + Rows(records))) == Some(Expected(records))
  {
    var lines := [HEADER] + Rows(records);
    FileLines(records);
    assert lines[1..] == Rows(records);
    ParseRowsOfRecords(records);
  }

  /**
   * The text of a complete output file for some records: the header line and
   * one row per record, as many line feeds as lines, and read back by the
   * consumer as exactly those records.
   */
  predicate CompleteOutput(text: string, records: seq<Record>)
  {
    && Lines(text) == [HEADER] + Rows(records)
    && |Lines(text)| == 1 + |records|
    && multiset(text)['\n'] == 1 + |records|
    && ReadCsv(text) == Some(Expected(records))
  }

  /** The header followed by the rows of some records, written as lines, is their complete output file. */
  lemma FileOfRecords(records: seq<Record>)
    ensures CompleteOutput(Unlines([HEADER] + Rows(records)), records)
  {
    FileLines(records);
    UnlinesLineFeeds([HEADER] + Rows(records));
    ReadCsvRoundTrip(records);
  }
}
