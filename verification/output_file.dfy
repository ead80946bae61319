/**
 * The output file `output.csv` as text: `init_file` recreates it with a
 * header line, `write_records_to_file` appends one run's lines to it, and a
 * session is an initialisation followed by the runs' appends.
 * Whether each `fopen` succeeds is decided by the operating system and is an
 * input here.
 */
module OutputFile {
  import opened Optional
  import opened Text

  /** The header line `init_file` writes. */
  const HEADER: string := "access-location,nanoseconds"

  /** What is in the file: `None` when it does not exist. */
  function Contents(f: Option<string>): string
  {
    if f.Some? then f.value else ""
  }

  /** The header written with its line feed is one line, the header. */
  lemma HeaderLine()
    ensures Unlines([HEADER]) == HEADER + "\n"
    ensures Lines(HEADER + "\n") == [HEADER]
  {
    LinesUnlines([HEADER]);
    assert Unlines([HEADER]) == HEADER + "\n" + Unlines([]);
    assert HEADER + "\n" + Unlines([]) == HEADER + "\n";
  }

  /**
   * `init_file`: remove the file, create it afresh with mode "w" and write the
   * header line. Earlier contents never survive; when the file cannot be
   * created, none exists afterwards.
   */
  function InitFile(previous: Option<string>, openSucceeds: bool): (f: Option<string>)
    ensures openSucceeds ==> f == Some(HEADER + "\n")
    ensures openSucceeds ==> f.Some? && Lines(f.value) == [HEADER]
    ensures !openSucceeds ==> f.None?
  {
    HeaderLine();
    if openSucceeds then Some(HEADER + "\n") else None
  }

  /**
   * `write_records_to_file`: open with mode "a" (which creates a missing file)
   * and write the lines in order. What was there stays as a prefix and the
   * lines follow it; when the open fails the file is left as it was.
   */
  function WriteRecords(f: Option<string>, lines: seq<string>, openSucceeds: bool): (f': Option<string>)
    ensures !openSucceeds ==> f' == f
    ensures openSucceeds ==> f'.Some? && Contents(f) <= f'.value
    ensures openSucceeds ==> f'.value[|Contents(f)|..] == Concat(lines)
  {
    if openSucceeds then Some(Contents(f) + Concat(lines)) else f
  }

  /** One call of `write_records_to_file`: the lines it is given and whether its open succeeds. */
  datatype Append = Append(lines: seq<string>, openSucceeds: bool)

  /** The file after the given appends, in order, starting from f. */
  function ApplyAppends(f: Option<string>, appends: seq<Append>): Option<string>
  {
    if appends == [] then f
    else
      var last := appends[|appends| - 1];
      WriteRecords(ApplyAppends(f, appends[..|appends| - 1]), last.lines, last.openSucceeds)
  }

  /** The file after `init_file` and then the given appends, in order. */
  function Session(previous: Option<string>, initSucceeds: bool, appends: seq<Append>): Option<string>
  {
    ApplyAppends(InitFile(previous, initSucceeds), appends)
  }

  /** The text the successful appends contributed, in order. */
  function Appended(appends: seq<Append>): string
  {
    if appends == [] then ""
    else
      var last := appends[|appends| - 1];
      Appended(appends[..|appends| - 1]) + (if last.openSucceeds then Concat(last.lines) else "")
  }

  predicate AnySucceeds(appends: seq<Append>)
  {
    exists k :: 0 <= k < |appends| && appends[k].openSucceeds
  }

  /** After appends the file exists exactly when it existed before or some open succeeded. */
  lemma {:induction false} AppendsExist(f: Option<string>, appends: seq<Append>)
    ensures ApplyAppends(f, appends).Some? <==> f.Some? || AnySucceeds(appends)
  {
    if appends != [] {
      var front := appends[..|appends| - 1];
      AppendsExist(f, front);
      if AnySucceeds(front) {
        var k :| 0 <= k < |front| && front[k].openSucceeds;
        assert appends[k].openSucceeds;
      }
      if AnySucceeds(appends) && !appends[|appends| - 1].openSucceeds {
        var k :| 0 <= k < |appends| && appends[k].openSucceeds;
        assert front[k].openSucceeds;
      }
    }
  }

  /** After appends the file holds what it held before, then the lines of every successful append in order. */
  lemma {:induction false} AppendsText(f: Option<string>, appends: seq<Append>)
    ensures Contents(ApplyAppends(f, appends)) == Contents(f) + Appended(appends)
  {
    if appends != [] {
      var front := appends[..|appends| - 1];
      var last := appends[|appends| - 1];
      AppendsText(f, front);
      if last.openSucceeds {
        var before := Contents(ApplyAppends(f, front));
        assert Contents(ApplyAppends(f, appends)) == before + Concat(last.lines);
      }
    } else {
      assert Contents(f) + "" == Contents(f);
    }
  }

  /** After a session the file exists exactly when some open succeeded. */
  lemma SessionExists(previous: Option<string>, initSucceeds: bool, appends: seq<Append>)
    ensures Session(previous, initSucceeds, appends).Some? <==> initSucceeds || AnySucceeds(appends)
  {
    AppendsExist(InitFile(previous, initSucceeds), appends);
  }

  /**
   * After a session the file holds the header if initialisation succeeded,
   * followed by the lines of every append whose open succeeded, in order.
   * Failed appends leave no trace, and nothing from before the session survives.
   */
  lemma SessionText(previous: Option<string>, initSucceeds: bool, appends: seq<Append>)
    ensures Contents(Session(previous, initSucceeds, appends))
         == (if initSucceeds then Unlines([HEADER]) else "") + Appended(appends)
  {
    HeaderLine();
    AppendsText(InitFile(previous, initSucceeds), appends);
  }

  /** Every string the appends carry, in order. */
  function AllLines(appends: seq<Append>): seq<string>
  {
    if appends == [] then [] else AllLines(appends[..|appends| - 1]) + appends[|appends| - 1].lines
  }

  /** When every open succeeds, the successful appends contribute every string, in order. */
  lemma {:induction false} AppendedAll(appends: seq<Append>)
    requires forall k :: 0 <= k < |appends| ==> appends[k].openSucceeds
    ensures Appended(appends) == Concat(AllLines(appends))
  {
    if appends != [] {
      var front := appends[..|appends| - 1];
      var last := appends[|appends| - 1];
      assert forall k :: 0 <= k < |front| ==> front[k] == appends[k];
      AppendedAll(front);
      ConcatAppend(AllLines(front), last.lines);
    }
  }

  /** When every open succeeds, an existing file gains all appended strings, in order. */
  lemma AppendsAllSucceed(text: string, appends: seq<Append>)
    requires forall k :: 0 <= k < |appends| ==> appends[k].openSucceeds
    ensures ApplyAppends(Some(text), appends) == Some(text + Concat(AllLines(appends)))
  {
    AppendsExist(Some(text), appends);
    AppendsText(Some(text), appends);
    AppendedAll(appends);
  }

  /** When every open succeeds, the file is the header line followed by all appended strings, in order. */
  lemma SessionAllSucceed(previous: Option<string>, appends: seq<Append>)
    requires forall k :: 0 <= k < |appends| ==> appends[k].openSucceeds
    ensures Session(previous, true, appends) == Some(Unlines([HEADER]) + Concat(AllLines(appends)))
  {
    HeaderLine();
    AppendsAllSucceed(HEADER + "\n", appends);
  }
}
