# Memory-latency benchmark: a Dafny model

The benchmark (`main-arm32.c`) reads random elements of a zeroed buffer of
250000 `int`s, times each read with CLOCK_MONOTONIC, and writes one CSV line
per read, `arr[<index>],<nanoseconds>`, under the header
`access-location,nanoseconds` in `output.csv`. A Python script
(`generate-scatterplot.py`) reads the file back, skipping the header.

The timing itself cannot be modelled; what is modelled is the deterministic
layer around it:

- **Clock** — `get_time_ns` turns a `struct timespec` into a `uint64_t`
  nanosecond count with wrap-around at every step; `access_memory` returns the
  `uint64_t` difference of two counts. Readings are inputs.
- **Records** — a record is an `int` index and a `uint64_t` duration; its line is
  what `snprintf(buf, 64, "arr[%d],%llu\n", ...)` stores, with the decimal
  numerals of `%d` and `%llu` written out (module `Decimal`).
- **Benchmark** — `run_through_array` as a loop over a sequence of `rand()`
  results and a sequence of clock readings (two per read), and `main` as the
  initialisation followed by RUNS runs and their appends.
- **OutputFile** — the file as text (`None` when it does not exist):
  `init_file` recreates it with the header line, `write_records_to_file`
  appends, and a failed `fopen` is an input.
- **Scatterplot** — the reader's view: lines, the first one skipped, each row
  split at its comma and the second field read as an integer.

Modules `Machine` (the C integer types, `uint64_t` wrap-around, C's truncating
`%`), `Text` (concatenation, splitting, lines) and `Optional` support these.

## Behaviour worth noting

- an append whose `fopen(..., "a")` succeeds after a failed initialisation creates a file without a header (`OutputFile.WriteRecords`);
- if the clock went backward, the `uint64_t` subtraction would wrap rather than give a negative or zero duration (`Clock.Elapsed`);
- the index is `rand() % size`, not a uniformly drawn index; its distribution (modulo bias) is not modelled.

## Model

| member | source | states |
|---|---|---|
| Machine.ToU64 | main-arm32.c:29 | the conversion to `uint64_t` yields the value in [0, 2^64) congruent to the input modulo 2^64, and leaves values already in range unchanged |
| Machine.MulWrapped | main-arm32.c:29 | wrapping the seconds before multiplying by 10^9 gives the same `uint64_t` as wrapping the exact product |
| Machine.AddWrapped | main-arm32.c:29 | wrapping an operand before the addition gives the same `uint64_t` as wrapping the exact sum |
| Machine.CRem | main-arm32.c:87 | C's `%` keeps the remainder's magnitude below the divisor's and its sign with the dividend's, and agrees with the mathematical remainder for a non-negative dividend and positive divisor |
| Clock.TimeNs | main-arm32.c:26-30 | the stepwise `uint64_t` evaluation equals the exact count `sec*10^9 + nsec` reduced modulo 2^64, and is exactly that count when it fits |
| Clock.TimeNsDecomposes | main-arm32.c:29 | for a normalized reading that fits, dividing the count by 10^9 gives the seconds and the remainder gives the nanoseconds |
| Clock.TimeNsInjective | main-arm32.c:29 | two readings that fit and give the same count are the same reading |
| Clock.TimeNsMonotone | main-arm32.c:29 | among readings that fit, one is earlier in (seconds, nanoseconds) order exactly when its count is smaller |
| Clock.FitsBoundary | main-arm32.c:29 | a normalized reading fits in 64 bits exactly when it is not later than (18446744073 s, 709551615 ns) |
| Clock.WrapBreaksMonotonicity | main-arm32.c:29 | one second past that boundary the count wraps to 290448384, below the count of the earlier reading |
| Clock.Elapsed | main-arm32.c:54 | `end - start` is the `uint64_t` that, added to `start` with wrap-around, gives `end`; it is the true difference when `end >= start` and the difference plus 2^64 otherwise |
| Clock.ElapsedUnique | main-arm32.c:54 | no other `uint64_t` completes `start` to `end`, so the wrapped difference is the inverse of wrapped addition |
| Clock.OrderedReadingsElapsed | main-arm32.c:46-54 | readings of a clock that did not go backward, within the range that fits, give their true elapsed time and never wrap |
| Clock.AccessMemory | main-arm32.c:43-55 | the read needs an in-bounds index; the result added to the first count gives the second, and is the true elapsed time for a steady clock |
| Decimal.Dec | main-arm32.c:97 | the numeral of `%llu` is non-empty, all digits, and has no leading zero except "0" |
| Decimal.DecInt | main-arm32.c:97 | `%d` prints the numeral, preceded by a minus sign for a negative number |
| Decimal.ParseDec | generate-scatterplot.py:33 | `int()` of a printed numeral returns the number printed |
| Decimal.DecDigits | generate-scatterplot.py:33 | printing the value of a digit string without leading zero returns that string |
| Decimal.DecInjective | main-arm32.c:97 | distinct durations print as distinct numerals |
| Decimal.ParseNat | generate-scatterplot.py:33 | `int()` of a field succeeds exactly on non-empty digit strings, with a value below 10 to the field's length |
| Decimal.DecLength | main-arm32.c:97 | a number below 10^k prints in at most k digits |
| Decimal.U64DecLength | main-arm32.c:97 | `%llu` of a `uint64_t` prints at most 20 characters |
| Decimal.I32DecLength | main-arm32.c:97 | `%d` of a 32-bit `int` prints at most 11 characters |
| Records.Snprintf | main-arm32.c:97 | `snprintf` stores a prefix of the expansion shorter than the buffer, the whole expansion when it fits and size-1 characters otherwise |
| Records.RecordLine | main-arm32.c:91-97 | the stored line is exactly `arr[<index>],<duration>` and a line feed, at most 38 characters, so the 64-byte buffer never truncates |
| Records.RecordLineIsRow | main-arm32.c:97 | the stored line is the CSV row plus one line feed, and the row holds no other line feed |
| Records.FieldsClean | main-arm32.c:97 | neither field of a row contains a comma or a line feed |
| Records.RowFields | generate-scatterplot.py:30-33 | splitting a row at commas gives exactly `arr[<index>]` and the duration's numeral, and the second field reads back as the duration |
| Records.RowsFree | main-arm32.c:97 | no record's row contains a line feed, so each record is exactly one line |
| Records.RecordLinesText | main-arm32.c:68-70 | writing a run's lines one after another puts exactly its rows in the file, one per line |
| Records.DecIntInjective | main-arm32.c:97 | distinct indices print as distinct `%d` numerals, negative ones included |
| Records.LocationInjective | main-arm32.c:97 | two rows with the same `arr[...]` location were made from the same index |
| Records.RowOpens | main-arm32.c:97 | every stored row starts with `arr[`, longer than those four characters |
| Benchmark.RunThroughArray | main-arm32.c:77-101 | exactly `memory_accesses` records and lines in iteration order; record i uses draw i and clock readings 2i and 2i+1; every index is in [0, size); each line is the record's formatted line; a steady clock gives true durations |
| OutputFile.HeaderLine | main-arm32.c:113 | the header written with its line feed is one line, the header, and is that line written out |
| OutputFile.InitFile | main-arm32.c:106-115 | after initialisation the file is exactly `access-location,nanoseconds` and its line feed, whatever it held before, so its only line is the header; it is absent when it cannot be created |
| OutputFile.WriteRecords | main-arm32.c:60-72 | a failed open leaves the file unchanged; otherwise the old contents stay as a prefix and the lines follow in order |
| OutputFile.AppendsExist | main-arm32.c:60-72 | after a series of appends the file exists exactly when it existed before or some open succeeded |
| OutputFile.AppendsText | main-arm32.c:60-72 | after a series of appends the file holds its earlier contents followed by the lines of every successful append, in order |
| OutputFile.AppendedAll | main-arm32.c:60-72 | when every open succeeds, the appends contribute every line they carry, in order |
| OutputFile.AppendsAllSucceed | main-arm32.c:60-72 | when every open succeeds, an existing file gains all appended lines, in order |
| OutputFile.SessionExists | main-arm32.c:136-147 | after initialisation and the appends, the file exists exactly when some open succeeded |
| OutputFile.SessionText | main-arm32.c:136-147 | the file holds the header if initialisation succeeded, then the lines of every successful append in order; failed appends leave no trace |
| OutputFile.SessionAllSucceed | main-arm32.c:136-147 | when every open succeeds, the file is the header line followed by everything appended, in order |
| Benchmark.FlattenLength | main-arm32.c:138-144 | runs of n records each contribute runs*n records in all |
| Benchmark.AppendedRows | main-arm32.c:138-147 | the text all runs append is the rows of all their records, one per line, in order |
| Benchmark.CompleteSession | main-arm32.c:136-147 | with every open succeeding, the file's lines are the header followed by every record's row; the first line is the header and no later line equals it |
| Benchmark.CompleteFile | main-arm32.c:13-16 | a complete session of RUNS = 1 run of INT_COUNT = 1000000/4 reads leaves the header line and the rows of all 250000 records |
| Benchmark.MeasureAndRecord | main-arm32.c:130-147 | RUNS runs of exactly INT_COUNT records each; record j of run k has index `rands[j] % INT_COUNT`, in [0, INT_COUNT), and duration the `uint64_t` difference of clock readings 2j and 2j+1, all taken from run k's own inputs; the file is the session of the runs' appends |
| Benchmark.RunProgram | main-arm32.c:127-150 | exit status 0; RUNS runs of INT_COUNT records, record j of run k taking its index `rands[j] % INT_COUNT` in [0, INT_COUNT) and its duration from clock readings 2j and 2j+1 of run k's inputs; the file is the session of the runs' appends; 250000 records in all; when every open succeeds the file has 1 + RUNS*INT_COUNT = 250001 lines and line feeds, header first, and reads back as all records in order |
| Text.LinesUnlines | generate-scatterplot.py:27-32 | reading the lines of a text written line by line returns those lines |
| Text.UnlinesLines | generate-scatterplot.py:27-32 | a text that is empty or ends in a line feed is exactly its lines written back |
| Text.UnlinesLineFeeds | main-arm32.c:68-70 | a text written as n lines holds exactly n line feeds |
| Scatterplot.ParseRow | generate-scatterplot.py:33 | an unquoted row is accepted exactly when it has at least two comma-separated fields and the second is a number; its access is the first field and its nanoseconds the value of the second |
| Scatterplot.ParseRows | generate-scatterplot.py:32-33 | the read succeeds exactly when every row is accepted, and then element i is row i's `DataRow` |
| Scatterplot.ReadCsv | generate-scatterplot.py:22-35 | with lines cut at line feeds, a successful read yields one `DataRow` per line after the skipped first line, element i being line i+1 parsed; a non-empty text whose later lines all parse is read successfully |
| Scatterplot.ParseRowOfRecord | generate-scatterplot.py:33 | a record's row becomes a `DataRow` of its location and its duration |
| Scatterplot.ParseRowsOfRecords | generate-scatterplot.py:32-33 | every record's row becomes a `DataRow` of its location and its duration |
| Scatterplot.FileLines | generate-scatterplot.py:27-32 | the header and record rows written as lines are read back as those lines |
| Scatterplot.HeaderOnce | main-arm32.c:106-115 | no record's row equals the header line written by `init_file` |
| Scatterplot.ReadCsvRoundTrip | generate-scatterplot.py:22-35 | a file of the header and some records' rows is read as exactly those records' locations and durations, in order |
| Scatterplot.FileOfRecords | generate-scatterplot.py:22-35 | the header and n records' rows written as lines give n + 1 lines and n + 1 line feeds, and read back as those records |

## Left out

- `clock_gettime` and the latency it measures (main-arm32.c:28): clock readings are input `timespec` values; the volatile read only contributes its bounds requirement.
- `flush_memory_range` and the ARM `cacheflush` system call (main-arm32.c:35-37, 140): a hardware effect that changes no modelled value.
- `srand(time(NULL))` and the internals of `rand()` (main-arm32.c:87, 128): draws are an input sequence of values in [0, RAND_MAX], with RAND_MAX taken as glibc's 2^31 - 1.
- `malloc`, `free_records`, `perror` and `exit(1)` on allocation failure (main-arm32.c:80-84, 91-95, 117-125): memory management; allocation success is assumed through `memory_accesses >= 0`.
- Real file I/O: `remove`, `fopen`, `fprintf`, `fclose` and the messages on stderr (main-arm32.c:61-71, 107-114); whether each open succeeds is an input, and a failure of `remove` itself is not modelled.
- `write_records_to_file`'s `size_of_records` argument: the model writes the whole sequence of lines, which is what `main` asks for.
- The width of `tv_sec` (32- or 64-bit `time_t` on ARM32): the seconds are an unbounded integer converted to `uint64_t` modulo 2^64, which covers both widths.
- Decimal.ParseNat: models Python's `int()` only on plain digit strings; signs, surrounding whitespace, underscores and non-ASCII Unicode decimal digits, none of which the benchmark writes, are not accepted.
- Scatterplot.ParseRow: splits at every comma; the `csv` module's quoting (`"1,2",3` is one field `1,2` and a second field `3`) is not modelled, so the acceptance condition in its contract describes plain unquoted rows only.
- Scatterplot.ReadCsv: ends a line only at a line feed; the file opened with `newline=''` and read by `csv.reader` also ends a record at a carriage return (`\r` or `\r\n`), and quoted fields may span lines, neither of which is modelled. The benchmark writes only `\n` and no quotes.
- Scatterplot.ReadCsvRoundTrip: the `csv` module's quoting rules are not modelled; the written rows contain no quote characters.
- Everything in generate-scatterplot.py after reading the rows (generate-scatterplot.py:37-98): pandas, K-means clustering, floating-point logarithms and plotting.
- The distribution of `rand() % size` (including its modulo bias): each index is modelled exactly as `rand() % size` of its draw, but which draws occur, and so the distribution, is not modelled.
