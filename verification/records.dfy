/**
 * The records `run_through_array` produces and the text each one becomes:
 * `snprintf(buffer, 64, "arr[%d],%llu\n", index, duration)`.
 */
module Records {
  import opened Machine
  import opened Decimal
  import opened Text
  import opened Optional

  /** The size of the buffer each record line is formatted into. */
  const LINE_BUFFER_SIZE: nat := 64

  /** One measurement: the `int` index that was read and the `uint64_t` nanoseconds the read took. */
  datatype Record = Record(index: i32, duration: u64)

  /**
   * `snprintf(buffer, size, ...)` given the full expansion of its format: the
   * longest prefix of at most size - 1 characters is stored, leaving room for
   * the terminating NUL.
   */
  function Snprintf(size: nat, text: string): (stored: string)
    requires size > 0
    ensures |stored| < size
    ensures stored <= text
    ensures |text| < size ==> stored == text
    ensures |text| >= size ==> |stored| == size - 1
  {
    if |text| < size then text else text[..size - 1]
  }

  /** The location field of a record, `arr[<index>]`. */
  function Location(r: Record): string
  {
    "arr[" + DecInt(r.index) + "]"
  }

  /** The CSV row of a record without its line feed: location, comma, nanoseconds. */
  function Row(r: Record): string
  {
    Location(r) + "," + Dec(r.duration)
  }

  lemma DigitsFree(s: string, c: char)
    requires AllDigits(s)
    requires !IsDigit(c)
    ensures c !in s
  {
  }

  /** Every row opens with the `arr[` of its location field. */
  lemma RowOpens(r: Record)
    ensures |Row(r)| > 4 && Row(r)[..4] == "arr["
  {
    assert Row(r) == "arr[" + (DecInt(r.index) + "]" + "," + Dec(r.duration));
  }

  /** Distinct `int`s print as distinct `%d` numerals. */
  lemma DecIntInjective(i: int, j: int)
    requires DecInt(i) == DecInt(j)
    ensures i == j
  {
    if i < 0 && j < 0 {
      assert Dec(-i) == DecInt(i)[1..] == DecInt(j)[1..] == Dec(-j);
      DecInjective(-i, -j);
    } else if i >= 0 && j >= 0 {
      DecInjective(i, j);
    }
  }

  /** The location field names the index it was made from: equal locations mean equal indices. */
  lemma LocationInjective(a: Record, b: Record)
    requires Location(a) == Location(b)
    ensures a.index == b.index
  {
    var la := Location(a);
    assert DecInt(a.index) == la[4..|la| - 1];
    assert DecInt(b.index) == la[4..|la| - 1];
    DecIntInjective(a.index, b.index);
  }

  /** Neither the location nor the nanoseconds field contains a comma or a line feed. */
  lemma FieldsClean(r: Record)
    ensures ',' !in Location(r) && '\n' !in Location(r)
    ensures ',' !in Dec(r.duration) && '\n' !in Dec(r.duration)
    ensures '\n' !in Row(r)
  {
    var n: nat := if r.index < 0 then -(r.index as int) else r.index as int;
    DigitsFree(Dec(n), ',');
    DigitsFree(Dec(n), '\n');
    DigitsFree(Dec(r.duration), ',');
    DigitsFree(Dec(r.duration), '\n');
    if r.index < 0 {
      assert DecInt(r.index) == "-" + Dec(n);
    }
  }

  /**
   * The line stored for a record: exactly `arr[<index>],<duration>` and a line
   * feed, at most 4 + 11 + 2 + 20 + 1 = 38 characters, so the 64-byte buffer
   * never truncates it.
   */
  function RecordLine(r: Record): (line: string)
    ensures line == "arr[" + DecInt(r.index) + "]," + Dec(r.duration) + "\n"
    ensures |line| <= 38 < LINE_BUFFER_SIZE
  {
    I32DecLength(r.index);
    U64DecLength(r.duration);
    Snprintf(LINE_BUFFER_SIZE, "arr[" + DecInt(r.index) + "]," + Dec(r.duration) + "\n")
  }

  /** The stored line is the record's row followed by one line feed, and the row holds no other line feed. */
  lemma RecordLineIsRow(r: Record)
    ensures RecordLine(r) == Row(r) + "\n"
    ensures '\n' !in Row(r)
  {
    FieldsClean(r);
  }

  /**
   * Cutting a row at its comma gives the location and the printed duration,
   * and the duration field reads back as the recorded duration.
   */
  lemma RowFields(r: Record)
    ensures Split(Row(r), ',') == [Location(r), Dec(r.duration)]
    ensures ParseNat(Split(Row(r), ',')[1]) == Some(r.duration as nat)
  {
    FieldsClean(r);
    var parts := [Location(r), Dec(r.duration)];
    assert Join(parts, ',') == Row(r);
    SplitJoin(parts, ',');
    ParseDec(r.duration);
  }

  /** The lines stored for a run's records, in order. */
  function RecordLines(records: seq<Record>): (lines: seq<string>)
    ensures |lines| == |records|
  {
    seq(|records|, i requires 0 <= i < |records| => RecordLine(records[i]))
  }

  /** The CSV rows of a run's records, in order. */
  function Rows(records: seq<Record>): (rows: seq<string>)
    ensures |rows| == |records|
  {
    seq(|records|, i requires 0 <= i < |records| => Row(records[i]))
  }

  lemma RecordLinesSnoc(records: seq<Record>, r: Record)
    ensures RecordLines(records + [r]) == RecordLines(records) + [RecordLine(r)]
  {
    forall j | 0 <= j <= |records|
      ensures RecordLines(records + [r])[j] == (RecordLines(records) + [RecordLine(r)])[j]
    {
    }
  }

  lemma RowsAppend(a: seq<Record>, b: seq<Record>)
    ensures Rows(a + b) == Rows(a) + Rows(b)
  {
    forall j | 0 <= j < |a| + |b|
      ensures Rows(a + b)[j] == (Rows(a) + Rows(b))[j]
    {
      if j < |a| {
        assert (a + b)[j] == a[j];
      } else {
        assert (a + b)[j] == b[j - |a|];
      }
    }
  }

  /** No row contains a line feed. */
  lemma RowsFree(records: seq<Record>)
    ensures Free(Rows(records), '\n')
  {
    forall i | 0 <= i < |records|
      ensures '\n' !in Rows(records)[i]
    {
      RecordLineIsRow(records[i]);
    }
  }

  lemma RecordLinesTail(records: seq<Record>)
    requires records != []
    ensures RecordLines(records)[1..] == RecordLines(records[1..])
  {
    forall j | 0 <= j < |records| - 1
      ensures RecordLines(records)[1..][j] == RecordLines(records[1..])[j]
    {
    }
  }

  lemma RowsTail(records: seq<Record>)
    requires records != []
    ensures Rows(records)[1..] == Rows(records[1..])
  {
    forall j | 0 <= j < |records| - 1
      ensures Rows(records)[1..][j] == Rows(records[1..])[j]
    {
    }
  }

  /** Writing a run's stored lines one after another puts exactly its rows in the file, one per line. */
  lemma {:induction false} RecordLinesText(records: seq<Record>)
    ensures Concat(RecordLines(records)) == Unlines(Rows(records))
  {
    if records != [] {
      var lines := RecordLines(records);
      var rows := Rows(records);
      RecordLinesText(records[1..]);
      RecordLineIsRow(records[0]);
      RecordLinesTail(records);
      RowsTail(records);
      assert Concat(lines) == lines[0] + Concat(lines[1..]);
      assert Unlines(rows) == rows[0] + "\n" + Unlines(rows[1..]);
    }
  }
}
