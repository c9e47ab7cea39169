# termux-resource-monitor, modelled in Dafny

termux-resource-monitor is a small Go service (`main.go`). It samples one process
every five seconds from the Linux `/proc` pseudo-files and keeps the newest samples
in a bounded in-memory history, which it serves as JSON over HTTP. This project
models the parts of `main.go` that compute something:

- **the text parsers behind each sample** (`ProcParse`, in `proc_parse.dfy`). The text of
  the pseudo-file, or of the `pgrep` output, is a parameter. Each parser is a pure function
  with lemmas about it. Where Go loops, the loop is a method proved equal to that function:
  - `/proc/<pid>/stat`: a line with fewer than 17 fields is an error; otherwise the CPU
    ticks are utime + stime, the fields at positions 13 and 14, added as `uint64` with
    wrap-around;
  - `/proc/<pid>/status`: the second field of the first `VmRSS:` line that has at least
    two fields, in kB, or 0 when no line qualifies;
  - `/proc/net/dev`: the sums of field 1 (rx) and field 9 (tx) over the lines that
    contain `:` and have at least ten fields, wrapped to `uint64`;
  - `pgrep -x termux` output: the lines of the trimmed text that `strconv.Atoi` accepts,
    in order;
- **the bounded history** (`History`, in `history.dfy`): `statsHistory` as a class whose
  `Append` adds a record and then drops the head when the length exceeds `maxHistory`
  (1000). Its invariant is that the length never exceeds the capacity. Replaying appends
  from empty always leaves the newest `capacity` records, oldest first.
- **the Go library calls the parsers rely on** (`GoStrings`, `GoStrconv`):
  - `strings.Fields`, `Split` and `TrimSpace`, with `unicode.IsSpace`; `HasPrefix` and
    `Contains` are Dafny's sequence prefix and membership;
  - two of the three `strconv` calls: `ParseUint(s, 10, 64)` with its error ignored (a
    syntax error gives 0 and an overflow gives the maximum `uint64`, as Go's digit loop
    does) and `Atoi`. The third, `ParseFloat` on the `VmRSS:` field, is replaced by the
    digit reader `ParseDigits` (see KbValue under "## Left out");
  - used only in the round-trip lemmas, and not called by the monitor: `strings.Join` and
    the decimal rendering that the two parsers invert.

`Wrappers` (`wrappers.dfy`) holds the `Option` and `Result` types.

## Model

| member | source | states |
|---|---|---|
| GoStrings.IsSpaceLatin1 | main.go:38 | below U+0100, `unicode.IsSpace` holds exactly for tab, newline, vertical tab, form feed, carriage return, space, U+0085 and U+00A0 |
| GoStrings.Fields | main.go:38 | every field `strings.Fields` returns is non-empty and free of white space |
| GoStrings.FieldsOfField | main.go:38 | a single run of non-space characters is one field |
| GoStrings.FieldsAfterField | main.go:38 | any non-empty run of white space after a field separates it from the rest, like a single space |
| GoStrings.FieldsOfJoin | main.go:38 | splitting a line built from fields joined by single spaces gives exactly those fields back |
| GoStrings.FieldsOfPaddedJoin | main.go:85 | splitting a line built from fields separated by non-empty white-space runs of any width gives exactly those fields back |
| GoStrings.FieldsSkipSpace | main.go:38 | leading white space never changes the fields of a line |
| GoStrings.FieldsTrailingSpace | main.go:38 | trailing white space, such as a final newline, never changes the fields of a line |
| GoStrings.Split | main.go:64 | `strings.Split` on one separator gives at least one piece and no piece contains the separator |
| GoStrings.JoinSplit | main.go:82 | joining the pieces of a split with the separator gives the original text back |
| GoStrings.SplitJoin | main.go:82 | splitting pieces joined by a separator they do not contain gives the pieces back |
| GoStrings.TrimSpace | main.go:161 | the trimmed text neither starts nor ends with white space; all-space text trims to empty; text without white space at its ends is unchanged |
| GoStrings.TrimSpaceIsSlice | main.go:161 | the trimmed text is a contiguous slice of the input and only white space lies on either side of it |
| GoStrings.TrimSpaceTrailing | main.go:161 | trailing white space such as the final newline of command output is removed |
| GoStrconv.ParseUint | main.go:42-43 | a result other than 0 and the maximum `uint64` is the decimal value of text made only of digits; text starting with a non-digit gives 0 |
| GoStrconv.ParseUintOfDigits | main.go:42-43 | a non-empty run of digits parses to its decimal value, or to the maximum `uint64` when the value overflows |
| GoStrconv.ParseUintSyntaxError | main.go:42-43 | a non-digit reached before the value overflows makes the ignored-error parse yield 0 |
| GoStrconv.ParseUintOverflowFirst | main.go:87-88 | once the digits read so far exceed the `uint64` range, the parse is the maximum `uint64`, whatever follows |
| GoStrconv.ParseUintOfFormat | main.go:87-88 | parsing the decimal rendering of any `uint64` gives it back |
| GoStrconv.ParseDigitsSpec | main.go:69 | the digit reader accepts exactly the non-empty all-digit strings, with their decimal value |
| GoStrconv.Atoi | main.go:163 | every value `strconv.Atoi` accepts lies in the `int64` range |
| GoStrconv.AtoiSpec | main.go:163 | `Atoi` accepts exactly an optional sign followed by digits whose signed value fits in `int64`, and returns that value |
| GoStrconv.AtoiOfFormat | main.go:163 | parsing the rendering of any `int64` gives it back |
| GoStrconv.AtoiRejectsStray | main.go:163 | a stray character anywhere (white space included) makes `Atoi` fail |
| ProcParse.AddUint64 | main.go:44 | Go's `uint64` addition: the exact sum when it fits, otherwise the sum less 2^64 |
| ProcParse.StatTicks | main.go:38-41 | the stat parse fails exactly when the text has fewer than 17 fields |
| ProcParse.StatTicksOfFields | main.go:38-44 | for a stat line of fields followed by any white space (the final newline): fewer than 17 is the format error, otherwise the ticks are the parsed fields 13 and 14 added with wrap-around |
| ProcParse.StatTicksNoWrap | main.go:42-44 | when the parsed utime and stime do not overflow, the ticks are their plain sum |
| ProcParse.StatTicksExact | main.go:42-44 | a stat line, newline included, printing utime and stime as numbers yields utime + stime ticks when their sum fits in a `uint64` (a sum that does not fit wraps, as StatTicksOfFields states) |
| ProcParse.StatTicksNonNumeric | main.go:42-44 | a utime or stime field that does not start with a digit contributes 0 ticks |
| ProcParse.KbValue | main.go:69 | a field of digits counts as its decimal value in kB; any other field counts as 0 |
| ProcParse.MemoryKb | main.go:64-74 | a non-zero report is the decimal value of the digits in the second field of a qualifying `VmRSS:` line |
| ProcParse.RssField | main.go:65-73 | no value is found exactly when no line starts with `VmRSS:` and has at least two fields |
| ProcParse.GetMemoryUsage | main.go:64-74 | the scan with early return computes the kB value of the first qualifying `VmRSS:` line, or 0 |
| ProcParse.MemoryKbWithoutRssLine | main.go:74 | a status text with no qualifying `VmRSS:` line reports 0 kB and no error |
| ProcParse.RssFieldIndex | main.go:65-72 | a found value is the second field of a qualifying line that no earlier line qualifies before |
| ProcParse.RssFieldFirst | main.go:65-72 | the first qualifying line decides the value, whatever the later lines hold; shorter `VmRSS:` lines before it are skipped |
| ProcParse.RssLineFields | main.go:66-68 | a `VmRSS:` line padded with tabs and spaces before the number splits into exactly the prefix, the number and `kB` |
| ProcParse.RssOfStatusFile | main.go:64-74 | a status file whose `VmRSS:` line reads `VmRSS:<tab and spaces><n> kB` reports n kB |
| ProcParse.CounterTotal | main.go:83-93 | the exact, unbounded reference sum of one counter over the interface lines, which WrappedTotalIsModular and the CounterTotal lemmas tie to the loop; its ensures only bounds it by the number of lines times the maximum `uint64` |
| ProcParse.WrappedTotal | main.go:83-93 | the running `uint64` total never exceeds the exact sum |
| ProcParse.GetNetworkStats | main.go:82-94 | the loop returns the sums of field 1 and field 9 over the interface lines, each modulo 2^64 |
| ProcParse.CountLine | main.go:84-91 | one pass of the loop body adds the line's field 1 and field 9 when the line contains `:` and has at least ten fields, and nothing otherwise |
| ProcParse.WrappedTotalIsModular | main.go:89-90 | accumulating with Go's wrapping `+=` gives the exact total modulo 2^64 |
| ProcParse.CounterTotalAppend | main.go:83-93 | the totals of two blocks of lines add up |
| ProcParse.CounterTotalNoInterfaces | main.go:84-86 | lines without `:` or with fewer than ten fields contribute nothing |
| ProcParse.CounterTotalSkipsLine | main.go:84-86 | removing a non-interface line leaves both totals unchanged |
| ProcParse.InterfaceLineCounter | main.go:84-90 | an interface line, indented or not and with its columns separated by white-space runs of any width, contributes its parsed field 1 to rx and its parsed field 9 to tx |
| ProcParse.NetworkStatsOfEmptyText | main.go:82-94 | empty text gives rx = tx = 0 |
| ProcParse.PidsOf | main.go:162-166 | the pid list is never longer than the list of lines, and every pid lies in the `int64` range |
| ProcParse.PgrepPids | main.go:160-167 | every pid found in the `pgrep` output lies in the `int64` range |
| ProcParse.FindTermuxPids | main.go:160-167 | the loop returns the parsed pids of the lines of the trimmed output |
| ProcParse.PidsAreParsedLines | main.go:162-166 | the pid list holds, in line order, exactly the values of the lines `Atoi` accepts, each pid with the line it came from |
| ProcParse.PgrepRoundTrip | main.go:161-167 | `pgrep` output of one pid per line with a final newline parses back to those pids in order |
| ProcParse.PgrepAllSpace | main.go:161-167 | output that is all white space gives an empty pid list |
| History.Appended | main.go:133-135 | an append keeps a suffix of the old contents followed by the new record, drops at most the oldest record, and leaves the history over capacity only if it already was |
| History.AppendedBounded | main.go:133-136 | a history at most `maxHistory` long stays at most `maxHistory` long after an append, and a full one stays full |
| History.AppendedLast | main.go:133-135 | the appended record is always kept, as the last element, unless the capacity is 0 and the history empty |
| History.AppendedNotFull | main.go:133-134 | below capacity nothing is evicted: the result is the old contents followed by the new record |
| History.AppendedFull | main.go:133-135 | at capacity exactly the oldest record is evicted: the old contents minus the first, then the new record |
| History.ReplayIsNewest | main.go:132-137 | starting empty, the history always holds the newest `capacity` records appended, in insertion order |
| History.ReplayOverflowOnce | main.go:133-136 | after `maxHistory` + 1 appends from empty, exactly `maxHistory` records remain: the first record is gone (when distinct) and the newest is last |
| History.StatsHistory.constructor | main.go:27-31 | the history starts empty, with the given capacity |
| History.StatsHistory.Append | main.go:132-137 | the update appends the record, drops the head when over capacity, and keeps the length within the capacity |

## Left out

- Reading `/proc/<pid>/stat`, `/proc/uptime`, `/proc/<pid>/status`, `/proc/net/dev` and `/proc/<pid>/comm` (main.go:34, 45, 60, 78, 98) is I/O. The parsers take the text as a parameter, so the error returns for a failed read are not modelled.
- `getProcessName` (main.go:97-103), including its fallback to "unknown", is a file read followed by `TrimSpace`. It is not modelled.
- The CPU percentage (main.go:45-56) is floating-point arithmetic over `/proc/uptime` with a clock rate of 100. With `cpu = ticks / 100`, the process's CPU seconds, it computes `seconds = uptime - cpu`; when that is positive it returns `cpu / seconds * 100`, otherwise 0. The model stops at the integer tick count. As a result, the index-out-of-range panic on an empty `/proc/uptime` (main.go:50) is not modelled either.
- KbValue: `ParseFloat` (main.go:69) is modelled only on plain digit strings. Text that `ParseFloat` would also accept (a sign, a fraction, an exponent, `inf`) counts as 0 kB in the model. The division by 1024 into megabytes (main.go:70) is floating point and is left out.
- Atoi: models `strconv.Atoi` with Go's `int` as 64 bits. On a 32-bit Android build `int` is 32 bits, and Atoi rejects values outside the `int32` range; the model accepts them.
- Running `pgrep` (main.go:155-159), including the nil result when it exits with an error, is process I/O. Only the parsing of its output is modelled.
- The ticker loop of `monitorProcess` (main.go:105-131) is not modelled. That covers its skipping of a sample when the CPU or memory read fails, its zero network figures after a failed read, and its logging. Only the history update at main.go:132-137 is modelled, as one sequential step.
- The `sync.RWMutex` and the goroutine (main.go:29, 132, 137, 143-144, 181, 191) exist for concurrency. The history is modelled as used by one thread.
- `statsHandler`, `healthHandler`, JSON encoding and `http.ListenAndServe` (main.go:142-152, 193-198) are transport and serialisation.
- Configuration from `MONITOR_PORT` and `MONITOR_PID` and the `log.Fatal` paths in `main` (main.go:170-199) are plumbing.
- The record's CPU and memory figures come from floating-point code. They are kept as exact reals, and the timestamp is an integer parameter. The history treats records as opaque values.
- Text is a sequence of already-decoded code points. The handling of invalid UTF-8 bytes by `strings.Fields` and `TrimSpace` is not modelled.
