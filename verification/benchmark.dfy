/**
 * The measurement program: `run_through_array` draws random indices, times
 * one read each and formats a line per read; `main` initialises the output
 * file and appends the lines of each run to it.
 * `rand()` results, clock readings and the outcome of each `fopen` are
 * inputs; the cache flush before each run changes none of the values modelled.
 */
module Benchmark {
  import opened Optional
  import opened Machine
  import opened Clock
  import opened Text
  import opened Records
  import opened OutputFile
  import opened Scatterplot

  /** Number of timed runs. */
  const RUNS: nat := 1
  /** Size of the sample buffer in bytes. */
  const DATA_SIZE_BYTES: nat := 1_000_000
  /** `sizeof(int)` on the target. */
  const INT_SIZE: nat := 4
  /** Number of `int`s in the sample buffer, and the number of reads per run. */
  const INT_COUNT: nat := DATA_SIZE_BYTES / INT_SIZE

  /**
   * The environment supplies enough for `accesses` reads: one `rand()` result
   * in [0, RAND_MAX] per read, and two clock readings per read (before and after).
   */
  predicate Supplies(rands: seq<int>, clock: seq<Timespec>, accesses: nat)
  {
    && accesses <= |rands|
    && 2 * accesses <= |clock|
    && forall i :: 0 <= i < |rands| ==> 0 <= rands[i] <= RAND_MAX
  }

  /** Two readings of a clock that did not go backward, both within the range that fits 64 bits. */
  predicate Steady(before: Timespec, after: Timespec)
  {
    before.Fits() && after.Fits() && !after.Before(before)
  }

  /**
   * The record of iteration i: draw i picks the index `rand() % size`, and
   * clock readings 2i and 2i + 1 time the read of that element.
   */
  function Iteration(arr: seq<int>, size: i32, rands: seq<int>, clock: seq<Timespec>, i: nat): Record
    requires 0 < size <= |arr|
    requires i < |rands| && 2 * i + 1 < |clock| && 0 <= rands[i] <= RAND_MAX
  {
    var num := CRem(rands[i], size);
    Record(num, AccessMemory(arr, num, clock[2 * i], clock[2 * i + 1]))
  }

  /**
   * `run_through_array(arr, size, memory_accesses)`: one record and one
   * stored line per iteration, in iteration order. Record i takes its index
   * from draw i, which puts it in [0, size), and its duration from clock
   * readings 2i and 2i + 1, which is the true duration when the clock was
   * steady.
   */
  method RunThroughArray(arr: seq<int>, size: i32, accesses: i32, rands: seq<int>, clock: seq<Timespec>)
    returns (records: seq<Record>, lines: seq<string>)
    requires 0 < size <= |arr|
    requires 0 <= accesses
    requires Supplies(rands, clock, accesses)
    ensures |records| == accesses && lines == RecordLines(records)
    ensures forall i :: 0 <= i < accesses ==> 0 <= records[i].index < size
    ensures forall i :: 0 <= i < accesses ==> records[i].index == rands[i] % size
    ensures forall i :: 0 <= i < accesses ==>
              records[i].duration == AccessMemory(arr, records[i].index, clock[2 * i], clock[2 * i + 1])
    ensures forall i :: 0 <= i < accesses && Steady(clock[2 * i], clock[2 * i + 1]) ==>
              records[i].duration == clock[2 * i + 1].Nanos() - clock[2 * i].Nanos()
  {
    records := [];
    lines := [];
    var i := 0;
    while i < accesses
      invariant 0 <= i <= accesses
      invariant |records| == i && lines == RecordLines(records)
      invariant forall j :: 0 <= j < i ==> records[j] == Iteration(arr, size, rands, clock, j)
    {
      var record := Iteration(arr, size, rands, clock, i);
      RecordLinesSnoc(records, record);
      records := records + [record];
      lines := lines + [RecordLine(record)];
      i := i + 1;
    }
  }

  /** What one run of `main`'s loop is given: `rand()` results, clock readings, and whether its append can open the file. */
  datatype RunInputs = RunInputs(rands: seq<int>, clock: seq<Timespec>, appendSucceeds: bool)

  /** The records of several runs, run after run. */
  function Flatten(runs: seq<seq<Record>>): seq<Record>
  {
    if runs == [] then [] else Flatten(runs[..|runs| - 1]) + runs[|runs| - 1]
  }

  lemma {:induction false} FlattenLength(runs: seq<seq<Record>>, n: nat)
    requires forall k :: 0 <= k < |runs| ==> |runs[k]| == n
    ensures |Flatten(runs)| == |runs| * n
  {
    if runs != [] {
      var front := runs[..|runs| - 1];
      assert forall k :: 0 <= k < |front| ==> front[k] == runs[k];
      FlattenLength(front, n);
      assert |Flatten(runs)| == |Flatten(front)| + n;
      assert |front| * n + n == |runs| * n;
    }
  }

  /** The appends `main` makes: each run's stored lines, with whether that run's open succeeds. */
  function Appends(runs: seq<seq<Record>>, inputs: seq<RunInputs>): (appends: seq<Append>)
    requires |runs| <= |inputs|
  {
    seq(|runs|, k requires 0 <= k < |runs| => Append(RecordLines(runs[k]), inputs[k].appendSucceeds))
  }

  /** The strings all runs append are, written out, exactly the rows of all their records, one per line. */
  lemma {:induction false} AppendedRows(runs: seq<seq<Record>>, inputs: seq<RunInputs>)
    requires |runs| <= |inputs|
    ensures Concat(AllLines(Appends(runs, inputs))) == Unlines(Rows(Flatten(runs)))
  {
    if runs != [] {
      var front := runs[..|runs| - 1];
      var last := runs[|runs| - 1];
      var appends := Appends(runs, inputs);
      assert appends[..|appends| - 1] == Appends(front, inputs);
      AppendedRows(front, inputs);
      ConcatAppend(AllLines(Appends(front, inputs)), RecordLines(last));
      RecordLinesText(last);
      RowsAppend(Flatten(front), last);
      UnlinesAppend(Rows(Flatten(front)), Rows(last));
    } else {
      assert Rows([]) == [];
    }
  }

  /**
   * With initialisation and every append succeeding, the file holds the
   * header line and then the rows of every record of every run, in order,
   * one line each: the header appears once, at the top.
   */
  lemma CompleteSession(previous: Option<string>, runs: seq<seq<Record>>, inputs: seq<RunInputs>)
    requires |runs| <= |inputs|
    requires forall k :: 0 <= k < |runs| ==> inputs[k].appendSucceeds
    ensures Session(previous, true, Appends(runs, inputs)) == Some(Unlines([HEADER] + Rows(Flatten(runs))))
    ensures Lines(Contents(Session(previous, true, Appends(runs, inputs)))) == [HEADER] + Rows(Flatten(runs))
    ensures var lines := Lines(Contents(Session(previous, true, Appends(runs, inputs))));
            lines[0] == HEADER && forall i :: 1 <= i < |lines| ==> lines[i] != HEADER
  {
    var appends := Appends(runs, inputs);
    SessionAllSucceed(previous, appends);
    AppendedRows(runs, inputs);
    UnlinesAppend([HEADER], Rows(Flatten(runs)));
    FileLines(Flatten(runs));
    HeaderOnce(Flatten(runs));
  }

  /**
   * A complete session of RUNS runs of INT_COUNT reads each leaves the header
   * line and the rows of all 250000 records.
   */
  lemma CompleteFile(previous: Option<string>, runs: seq<seq<Record>>, inputs: seq<RunInputs>)
    requires |runs| == RUNS <= |inputs|
    requires forall k :: 0 <= k < RUNS ==> |runs[k]| == INT_COUNT
    requires forall k :: 0 <= k < RUNS ==> inputs[k].appendSucceeds
    ensures Contents(Session(previous, true, Appends(runs, inputs))) == Unlines([HEADER] + Rows(Flatten(runs)))
    ensures |Flatten(runs)| == RUNS * INT_COUNT == 250_000
  {
    CompleteSession(previous, runs, inputs);
    FlattenLength(runs, INT_COUNT);
  }

  /**
   * The body of `main` up to its return: zero the sample buffer, initialise
   * the file, then for each of the RUNS runs take INT_COUNT timed reads and
   * append their lines. Every run has INT_COUNT records with indices in
   * [0, INT_COUNT); record j of run k takes its index from run k's j-th draw
   * and its duration from run k's clock readings 2j and 2j + 1. The file
   * ends as the session of the runs' appends.
   */
  method MeasureAndRecord(previous: Option<string>, initSucceeds: bool, inputs: seq<RunInputs>)
    returns (file: Option<string>, runs: seq<seq<Record>>)
    requires |inputs| == RUNS
    requires forall k :: 0 <= k < |inputs| ==> Supplies(inputs[k].rands, inputs[k].clock, INT_COUNT)
    ensures |runs| == RUNS
    ensures forall k :: 0 <= k < RUNS ==> |runs[k]| == INT_COUNT
    ensures forall k, j :: 0 <= k < RUNS && 0 <= j < |runs[k]| ==> 0 <= runs[k][j].index < INT_COUNT
    ensures forall k, j :: 0 <= k < RUNS && 0 <= j < INT_COUNT ==>
              && j < |inputs[k].rands| && 2 * j + 1 < |inputs[k].clock|
              && runs[k][j].index == inputs[k].rands[j] % INT_COUNT
              && runs[k][j].duration == Elapsed(TimeNs(inputs[k].clock[2 * j]), TimeNs(inputs[k].clock[2 * j + 1]))
    ensures file == Session(previous, initSucceeds, Appends(runs, inputs))
  {
    var data := seq(INT_COUNT, _ => 0);
    file := InitFile(previous, initSucceeds);
    runs := [];
    var k := 0;
    while k < RUNS
      invariant 0 <= k <= RUNS
      invariant |runs| == k
      invariant forall m :: 0 <= m < k ==> |runs[m]| == INT_COUNT
      invariant forall m, j :: 0 <= m < k && 0 <= j < |runs[m]| ==> 0 <= runs[m][j].index < INT_COUNT
      invariant forall m, j :: 0 <= m < k && 0 <= j < INT_COUNT ==>
                  && j < |inputs[m].rands| && 2 * j + 1 < |inputs[m].clock|
                  && runs[m][j].index == inputs[m].rands[j] % INT_COUNT
                  && runs[m][j].duration == Elapsed(TimeNs(inputs[m].clock[2 * j]), TimeNs(inputs[m].clock[2 * j + 1]))
      invariant file == Session(previous, initSucceeds, Appends(runs, inputs))
    {
      var records, lines := RunThroughArray(data, INT_COUNT, INT_COUNT, inputs[k].rands, inputs[k].clock);
      file := WriteRecords(file, lines, inputs[k].appendSucceeds);
      assert Appends(runs + [records], inputs)[..k] == Appends(runs, inputs);
      runs := runs + [records];
      k := k + 1;
    }
  }

  /**
   * `main`: measure and record, then return 0. When initialisation and every
   * append succeed, the file holds 1 + RUNS * INT_COUNT = 250001 lines with
   * the header first, and the reader gets every record back in order.
   */
  method RunProgram(previous: Option<string>, initSucceeds: bool, inputs: seq<RunInputs>)
    returns (file: Option<string>, runs: seq<seq<Record>>, status: int)
    requires |inputs| == RUNS
    requires forall k :: 0 <= k < |inputs| ==> Supplies(inputs[k].rands, inputs[k].clock, INT_COUNT)
    ensures status == 0
    ensures |runs| == RUNS
    ensures forall k :: 0 <= k < RUNS ==> |runs[k]| == INT_COUNT
    ensures forall k, j :: 0 <= k < RUNS && 0 <= j < INT_COUNT ==> 0 <= runs[k][j].index < INT_COUNT
    ensures forall k, j :: 0 <= k < RUNS && 0 <= j < INT_COUNT ==>
              && j < |inputs[k].rands| && 2 * j + 1 < |inputs[k].clock|
              && runs[k][j].index == inputs[k].rands[j] % INT_COUNT
              && runs[k][j].duration == Elapsed(TimeNs(inputs[k].clock[2 * j]), TimeNs(inputs[k].clock[2 * j + 1]))
    ensures file == Session(previous, initSucceeds, Appends(runs, inputs))
    ensures |Flatten(runs)| == RUNS * INT_COUNT == 250_000
    ensures initSucceeds && (forall k :: 0 <= k < RUNS ==> inputs[k].appendSucceeds) ==>
              file.Some? && CompleteOutput(file.value, Flatten(runs))
  {
    file, runs := MeasureAndRecord(previous, initSucceeds, inputs);
    status := 0;
    FlattenLength(runs, INT_COUNT);
    if initSucceeds && (forall m :: 0 <= m < RUNS ==> inputs[m].appendSucceeds) {
      CompleteFile(previous, runs, inputs);
      FileOfRecords(Flatten(runs));
    }
  }
}
