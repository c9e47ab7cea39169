/** The parsers behind each sample of main.go. The text of the kernel pseudo-file (or of
    the `pgrep` output) is a parameter: reading it is left to the caller. */
module ProcParse {
  import opened Wrappers
  import opened GoStrings
  import opened GoStrconv

  const TwoTo64: int := 0x1_0000_0000_0000_0000

  /** Go's `+` on `uint64`, which wraps around. */
  function AddUint64(a: Uint64, b: Uint64): (r: Uint64)
    ensures a + b <= MaxUint64 ==> r == a + b
    ensures a + b > MaxUint64 ==> r == a + b - TwoTo64
  {
    (a + b) % TwoTo64
  }

  lemma ModAddStep(a: nat, b: nat)
    ensures (a % TwoTo64 + b) % TwoTo64 == (a + b) % TwoTo64
  {
    var q := a / TwoTo64;
    assert a == q * TwoTo64 + a % TwoTo64;
    assert a + b == q * TwoTo64 + (a % TwoTo64 + b);
  }

  // ---------------------------------------------------------------------------
  // /proc/<pid>/stat, as getCPUUsage reads it before its floating-point step

  /** Fewer fields than this is "invalid stat format". */
  const StatMinFields: nat := 17
  /** Zero-based field positions of utime and stime. */
  const UtimeIndex: nat := 13
  const StimeIndex: nat := 14

  datatype StatError = InvalidStatFormat

  /** The process's cumulative CPU ticks, utime + stime, or the format error. */
  function StatTicks(stat: seq<char>): (r: Result<Uint64, StatError>)
    ensures r.Err? <==> |Fields(stat)| < StatMinFields
  {
    var fields := Fields(stat);
    if |fields| < StatMinFields then Err(InvalidStatFormat)
    else Ok(AddUint64(ParseUint(fields[UtimeIndex]), ParseUint(fields[StimeIndex])))
  }

  /** For a stat line of well-formed fields separated by single spaces and followed by
      any white space (the kernel ends the line with a newline): too few fields is an
      error; otherwise the ticks are the parsed fields 13 and 14 added with wrap-around. */
  lemma StatTicksOfFields(fs: seq<seq<char>>, ws: seq<char>)
    requires AllFields(fs) && AllSpace(ws)
    ensures |fs| < StatMinFields ==> StatTicks(Join(fs, ' ') + ws) == Err(InvalidStatFormat)
    ensures |fs| >= StatMinFields ==>
      StatTicks(Join(fs, ' ') + ws) == Ok(AddUint64(ParseUint(fs[UtimeIndex]), ParseUint(fs[StimeIndex])))
  {
    FieldsOfJoin(fs);
    FieldsTrailingSpace(Join(fs, ' '), ws);
  }

  /** When utime and stime are printed numbers whose sum fits, the ticks are that sum. */
  lemma StatTicksExact(fs: seq<seq<char>>, ws: seq<char>, utime: Uint64, stime: Uint64)
    requires AllFields(fs) && |fs| >= StatMinFields && AllSpace(ws)
    requires fs[UtimeIndex] == FormatUint(utime) && fs[StimeIndex] == FormatUint(stime)
    requires utime + stime <= MaxUint64
    ensures StatTicks(Join(fs, ' ') + ws).Ok?
    ensures StatTicks(Join(fs, ' ') + ws).value == utime + stime
  {
    ParseUintOfFormat(utime);
    ParseUintOfFormat(stime);
    StatTicksNoWrap(fs, ws);
  }

  /** Without wrap-around, the ticks are the plain sum of the parsed fields. */
  lemma StatTicksNoWrap(fs: seq<seq<char>>, ws: seq<char>)
    requires AllFields(fs) && |fs| >= StatMinFields && AllSpace(ws)
    requires ParseUint(fs[UtimeIndex]) + ParseUint(fs[StimeIndex]) <= MaxUint64
    ensures StatTicks(Join(fs, ' ') + ws).Ok?
    ensures StatTicks(Join(fs, ' ') + ws).value == ParseUint(fs[UtimeIndex]) + ParseUint(fs[StimeIndex])
  {
    StatTicksOfFields(fs, ws);
  }

  /** A utime or stime field that does not start with a digit counts as 0 ticks. */
  lemma StatTicksNonNumeric(fs: seq<seq<char>>, ws: seq<char>)
    requires AllFields(fs) && |fs| >= StatMinFields && AllSpace(ws)
    ensures !IsDigit(fs[UtimeIndex][0]) ==> StatTicks(Join(fs, ' ') + ws) == Ok(ParseUint(fs[StimeIndex]))
    ensures !IsDigit(fs[StimeIndex][0]) ==> StatTicks(Join(fs, ' ') + ws) == Ok(ParseUint(fs[UtimeIndex]))
  {
    StatTicksOfFields(fs, ws);
    var u, s := fs[UtimeIndex], fs[StimeIndex];
    var ticks := AddUint64(ParseUint(u), ParseUint(s));
    assert StatTicks(Join(fs, ' ') + ws) == Ok(ticks);
    if !IsDigit(u[0]) {
      assert u[..0] == [];
      ParseUintSyntaxError(u, 0);
      assert ticks == ParseUint(s);
    }
    if !IsDigit(s[0]) {
      assert s[..0] == [];
      ParseUintSyntaxError(s, 0);
      assert ticks == ParseUint(u);
    }
  }

  // ---------------------------------------------------------------------------
  // /proc/<pid>/status, as getMemoryUsage reads it

  const RssPrefix: seq<char> := "VmRSS:"

  /** A line that getMemoryUsage takes its value from: it starts with `VmRSS:` and has
      at least two fields. */
  predicate IsRssLine(line: seq<char>) {
    RssPrefix <= line && |Fields(line)| >= 2
  }

  /** The second field of the first `VmRSS:` line with at least two fields, if any. */
  function RssField(lines: seq<seq<char>>): (r: Option<seq<char>>)
    ensures r.None? <==> forall i :: 0 <= i < |lines| ==> !IsRssLine(lines[i])
  {
    if lines == [] then None
    else if IsRssLine(lines[0]) then Some(Fields(lines[0])[1])
    else
      var r := RssField(lines[1..]);
      assert forall i :: 1 <= i < |lines| ==> lines[i] == lines[1..][i - 1];
      r
  }

  /** The kB count of the `VmRSS:` field: its decimal value when it is a run of digits,
      0 when it does not parse. */
  function KbValue(field: seq<char>): (kb: nat)
    ensures field != [] && AllDigits(field) ==> kb == DecimalValue(field)
    ensures !(field != [] && AllDigits(field)) ==> kb == 0
  {
    ParseDigitsSpec(field);
    match ParseDigits(field)
    case Some(kb) => kb
    case None => 0
  }

  /** The resident set size in kB that getMemoryUsage reports (before dividing by 1024). */
  function MemoryKb(status: seq<char>): (kb: nat)
    ensures kb != 0 ==> RssField(Split(status, '\n')).Some?
    ensures kb != 0 ==> var f := RssField(Split(status, '\n')).value;
      f != [] && AllDigits(f) && kb == DecimalValue(f)
  {
    match RssField(Split(status, '\n'))
    case None => 0
    case Some(f) => KbValue(f)
  }

  /** A status text without a qualifying `VmRSS:` line (none at all, or only ones with
      fewer than two fields) reports 0 kB, not an error. */
  lemma MemoryKbWithoutRssLine(status: seq<char>)
    requires forall i :: 0 <= i < |Split(status, '\n')| ==> !IsRssLine(Split(status, '\n')[i])
    ensures MemoryKb(status) == 0
  {
  }

  /** getMemoryUsage's scan of the status lines, with its early return. */
  method GetMemoryUsage(status: seq<char>) returns (kb: nat)
    ensures kb == MemoryKb(status)
  {
    var lines := Split(status, '\n');
    var i := 0;
    while i < |lines|
      invariant 0 <= i <= |lines|
      invariant RssField(lines) == RssField(lines[i..])
    {
      var line := lines[i];
      if RssPrefix <= line {
        var fields := Fields(line);
        if |fields| >= 2 {
          return KbValue(fields[1]);
        }
      }
      assert lines[i..][1..] == lines[i + 1..];
      i := i + 1;
    }
    return 0;
  }

  /** When a `VmRSS:` line supplies the value, it is the second field of the first such line. */
  lemma {:induction false} RssFieldIndex(lines: seq<seq<char>>) returns (k: nat)
    requires RssField(lines).Some?
    ensures k < |lines| && IsRssLine(lines[k])
    ensures forall j :: 0 <= j < k ==> !IsRssLine(lines[j])
    ensures RssField(lines).value == Fields(lines[k])[1]
  {
    if IsRssLine(lines[0]) {
      k := 0;
    } else {
      var k' := RssFieldIndex(lines[1..]);
      k := k' + 1;
      assert forall j :: 1 <= j < k ==> lines[j] == lines[1..][j - 1];
    }
  }

  /** The first line with `VmRSS:` and two fields decides the value, whatever follows. */
  lemma {:induction false} RssFieldFirst(lines: seq<seq<char>>, k: nat)
    requires k < |lines| && IsRssLine(lines[k])
    requires forall j :: 0 <= j < k ==> !IsRssLine(lines[j])
    ensures RssField(lines) == Some(Fields(lines[k])[1])
  {
    if k > 0 {
      assert forall j :: 0 <= j < k - 1 ==> lines[1..][j] == lines[j + 1];
      RssFieldFirst(lines[1..], k - 1);
    }
  }

  /** White space that may pad the value of a status line: the kernel writes a tab and
      then spaces, never a newline. */
  predicate IsPadding(ws: seq<char>) {
    ws != [] && AllSpace(ws) && '\n' !in ws
  }

  /** The status line `VmRSS:<ws><n> kB`, with padding `ws` before the number. */
  function RssLine(ws: seq<char>, n: nat): seq<char> {
    RssPrefix + ws + FormatUint(n) + [' '] + "kB"
  }

  lemma RssLineFields(ws: seq<char>, n: nat)
    requires IsPadding(ws)
    ensures Fields(RssLine(ws, n)) == [RssPrefix, FormatUint(n), "kB"]
    ensures IsRssLine(RssLine(ws, n)) && Fields(RssLine(ws, n))[1] == FormatUint(n)
    ensures '\n' !in RssLine(ws, n)
  {
    LiteralFields();
    var tail := FormatUint(n) + [' '] + "kB";
    assert RssLine(ws, n) == RssPrefix + ws + tail;
    RssTailFields(n);
    FieldsAfterField(RssPrefix, ws, tail);
    assert RssPrefix <= RssLine(ws, n) by {
      assert RssLine(ws, n)[..|RssPrefix|] == RssPrefix;
    }
    RssLineNoNewline(ws, n);
  }

  /** The number and its unit are two fields. */
  lemma RssTailFields(n: nat)
    ensures Fields(FormatUint(n) + [' '] + "kB") == [FormatUint(n), "kB"]
  {
    LiteralFields();
    FieldsAfterField(FormatUint(n), [' '], "kB");
    FieldsOfField("kB");
  }

  lemma LiteralFields()
    ensures IsField(RssPrefix) && IsField("kB")
  {
    forall i | 0 <= i < |RssPrefix| ensures !IsSpace(RssPrefix[i]) {
      assert i == 0 || i == 1 || i == 2 || i == 3 || i == 4 || i == 5;
    }
    forall i | 0 <= i < 2 ensures !IsSpace("kB"[i]) {
      assert i == 0 || i == 1;
    }
  }

  lemma RssLineNoNewline(ws: seq<char>, n: nat)
    requires '\n' !in ws
    ensures '\n' !in RssLine(ws, n)
  {
    var digits := FormatUint(n);
    assert '\n' !in digits;
    assert '\n' !in RssPrefix;
  }

  /** A status file whose `VmRSS:` line reads `VmRSS:<ws><n> kB`, after lines that do not
      qualify, reports n kB. */
  lemma RssOfStatusFile(before: seq<seq<char>>, ws: seq<char>, n: nat, after: seq<seq<char>>)
    requires IsPadding(ws)
    requires forall j :: 0 <= j < |before| ==> !IsRssLine(before[j]) && '\n' !in before[j]
    requires forall j :: 0 <= j < |after| ==> '\n' !in after[j]
    ensures MemoryKb(Join(before + [RssLine(ws, n)] + after, '\n')) == n
  {
    var lines := before + [RssLine(ws, n)] + after;
    StatusFileLines(before, ws, n, after);
    RssFieldOfStatusLines(before, ws, n, after);
    ParseDigitsSpec(FormatUint(n));
    assert MemoryKb(Join(lines, '\n')) == KbValue(FormatUint(n));
  }

  lemma StatusFileLines(before: seq<seq<char>>, ws: seq<char>, n: nat, after: seq<seq<char>>)
    requires IsPadding(ws)
    requires forall j :: 0 <= j < |before| ==> '\n' !in before[j]
    requires forall j :: 0 <= j < |after| ==> '\n' !in after[j]
    ensures Split(Join(before + [RssLine(ws, n)] + after, '\n'), '\n') == before + [RssLine(ws, n)] + after
  {
    RssLineFields(ws, n);
    NoNewlineInLines(before, RssLine(ws, n), after);
    SplitJoin(before + [RssLine(ws, n)] + after, '\n');
  }

  lemma RssFieldOfStatusLines(before: seq<seq<char>>, ws: seq<char>, n: nat, after: seq<seq<char>>)
    requires IsPadding(ws)
    requires forall j :: 0 <= j < |before| ==> !IsRssLine(before[j])
    ensures RssField(before + [RssLine(ws, n)] + after) == Some(FormatUint(n))
  {
    RssLineFields(ws, n);
    var lines := before + [RssLine(ws, n)] + after;
    assert lines[|before|] == RssLine(ws, n);
    assert forall j :: 0 <= j < |before| ==> lines[j] == before[j];
    RssFieldFirst(lines, |before|);
  }

  lemma NoNewlineInLines(before: seq<seq<char>>, line: seq<char>, after: seq<seq<char>>)
    requires forall j :: 0 <= j < |before| ==> '\n' !in before[j]
    requires '\n' !in line
    requires forall j :: 0 <= j < |after| ==> '\n' !in after[j]
    ensures forall j :: 0 <= j < |before + [line] + after| ==> '\n' !in (before + [line] + after)[j]
  {
    var lines := before + [line] + after;
    forall j | 0 <= j < |lines| ensures '\n' !in lines[j] {
      if j < |before| {
        assert lines[j] == before[j];
      } else if j > |before| {
        assert lines[j] == after[j - |before| - 1];
      }
    }
  }

  // ---------------------------------------------------------------------------
  // /proc/net/dev, as getNetworkStats reads it

  /** Interface lines have at least this many fields. */
  const NetMinFields: nat := 10
  /** Zero-based field positions of the receive and transmit byte counts. */
  const RxIndex: nat := 1
  const TxIndex: nat := 9

  /** A line that getNetworkStats counts: it contains `:` and has at least ten fields. */
  predicate IsInterfaceLine(line: seq<char>) {
    ':' in line && |Fields(line)| >= NetMinFields
  }

  /** What one line adds to the counter in field `k`. */
  function LineCounter(line: seq<char>, k: nat): Uint64
    requires k < NetMinFields
  {
    if IsInterfaceLine(line) then ParseUint(Fields(line)[k]) else 0
  }

  /** The exact, unbounded sum of field `k` over the interface lines. */
  function CounterTotal(lines: seq<seq<char>>, k: nat): (total: nat)
    requires k < NetMinFields
    ensures total <= |lines| * MaxUint64
  {
    if lines == [] then 0
    else CounterTotal(lines[..|lines| - 1], k) + LineCounter(lines[|lines| - 1], k)
  }

  /** The running `uint64` total of field `k` over the interface lines, wrapping as Go's
      `+=` does. */
  function WrappedTotal(lines: seq<seq<char>>, k: nat): (total: Uint64)
    requires k < NetMinFields
    ensures total <= CounterTotal(lines, k)
  {
    if lines == [] then 0
    else AddUint64(WrappedTotal(lines[..|lines| - 1], k), LineCounter(lines[|lines| - 1], k))
  }

  /** The wrapped total is the exact total modulo 2^64. */
  lemma {:induction false} WrappedTotalIsModular(lines: seq<seq<char>>, k: nat)
    requires k < NetMinFields
    ensures WrappedTotal(lines, k) == CounterTotal(lines, k) % TwoTo64
  {
    if lines != [] {
      var init := lines[..|lines| - 1];
      WrappedTotalIsModular(init, k);
      ModAddStep(CounterTotal(init, k), LineCounter(lines[|lines| - 1], k));
    }
  }

  lemma WrappedTotalStep(lines: seq<seq<char>>, i: nat, k: nat)
    requires i < |lines| && k < NetMinFields
    ensures WrappedTotal(lines[..i + 1], k) == AddUint64(WrappedTotal(lines[..i], k), LineCounter(lines[i], k))
  {
    assert lines[..i + 1][..i] == lines[..i];
  }

  /** getNetworkStats's loop: rx and tx are the sums of fields 1 and 9 over the interface
      lines, wrapped to `uint64`. */
  method GetNetworkStats(dev: seq<char>) returns (rx: Uint64, tx: Uint64)
    ensures rx == CounterTotal(Split(dev, '\n'), RxIndex) % TwoTo64
    ensures tx == CounterTotal(Split(dev, '\n'), TxIndex) % TwoTo64
  {
    var lines := Split(dev, '\n');
    rx, tx := 0, 0;
    var i := 0;
    while i < |lines|
      invariant 0 <= i <= |lines|
      invariant rx == WrappedTotal(lines[..i], RxIndex)
      invariant tx == WrappedTotal(lines[..i], TxIndex)
    {
      WrappedTotalStep(lines, i, RxIndex);
      WrappedTotalStep(lines, i, TxIndex);
      rx, tx := CountLine(lines[i], rx, tx);
      i := i + 1;
    }
    assert lines[..|lines|] == lines;
    WrappedTotalIsModular(lines, RxIndex);
    WrappedTotalIsModular(lines, TxIndex);
  }

  /** The body of getNetworkStats's loop for one line: an interface line adds its
      fields 1 and 9 to the running totals; any other line leaves them alone. */
  method CountLine(line: seq<char>, rx: Uint64, tx: Uint64) returns (rx': Uint64, tx': Uint64)
    ensures rx' == AddUint64(rx, LineCounter(line, RxIndex))
    ensures tx' == AddUint64(tx, LineCounter(line, TxIndex))
  {
    rx', tx' := rx, tx;
    if ':' in line {
      var fields := Fields(line);
      if |fields| >= NetMinFields {
        var rxBytes := ParseUint(fields[RxIndex]);
        var txBytes := ParseUint(fields[TxIndex]);
        rx' := AddUint64(rx, rxBytes);
        tx' := AddUint64(tx, txBytes);
      }
    }
  }

  /** The totals of a text made of two blocks of lines are the sums of the blocks' totals. */
  lemma {:induction false} CounterTotalAppend(a: seq<seq<char>>, b: seq<seq<char>>, k: nat)
    requires k < NetMinFields
    ensures CounterTotal(a + b, k) == CounterTotal(a, k) + CounterTotal(b, k)
    decreases |b|
  {
    if b == [] {
      assert a + b == a;
    } else {
      var b' := b[..|b| - 1];
      assert (a + b)[..|a + b| - 1] == a + b';
      assert (a + b)[|a + b| - 1] == b[|b| - 1];
      CounterTotalAppend(a, b', k);
    }
  }

  /** Lines without `:` or with fewer than ten fields contribute nothing. */
  lemma {:induction false} CounterTotalNoInterfaces(lines: seq<seq<char>>, k: nat)
    requires k < NetMinFields
    requires forall i :: 0 <= i < |lines| ==> !IsInterfaceLine(lines[i])
    ensures CounterTotal(lines, k) == 0
  {
    if lines != [] {
      var init := lines[..|lines| - 1];
      assert forall i :: 0 <= i < |init| ==> init[i] == lines[i];
      CounterTotalNoInterfaces(init, k);
    }
  }

  /** Removing a line that is not an interface line leaves the totals unchanged. */
  lemma CounterTotalSkipsLine(a: seq<seq<char>>, line: seq<char>, b: seq<seq<char>>, k: nat)
    requires k < NetMinFields && !IsInterfaceLine(line)
    ensures CounterTotal(a + [line] + b, k) == CounterTotal(a + b, k)
  {
    CounterTotalAppend(a + [line], b, k);
    CounterTotalAppend(a, [line], k);
    CounterTotalAppend(a, b, k);
    assert [line][..0] == [];
  }

  /** An interface line as the kernel prints it, indented by white space and with its
      columns padded by runs of white space of any width, adds its field `k`. */
  lemma InterfaceLineCounter(lead: seq<char>, fs: seq<seq<char>>, gaps: seq<seq<char>>, k: nat)
    requires AllSpace(lead)
    requires AllFields(fs) && |fs| >= NetMinFields && ':' in fs[0] && k < NetMinFields
    requires |gaps| == |fs| - 1 && forall i :: 0 <= i < |gaps| ==> IsGap(gaps[i])
    ensures LineCounter(lead + PaddedJoin(fs, gaps), k) == ParseUint(fs[k])
  {
    var line := PaddedJoin(fs, gaps);
    FieldsOfPaddedJoin(fs, gaps);
    FieldsSkipSpace(lead, line);
    assert line == fs[0] + (gaps[0] + PaddedJoin(fs[1..], gaps[1..]));
    var c :| c in fs[0] && c == ':';
    assert c in lead + line;
  }

  /** Empty text gives (0, 0). */
  lemma NetworkStatsOfEmptyText()
    ensures CounterTotal(Split([], '\n'), RxIndex) == 0
    ensures CounterTotal(Split([], '\n'), TxIndex) == 0
  {
    var lines: seq<seq<char>> := [[]];
    assert Split([], '\n') == lines;
    assert lines[..0] == [];
  }

  // ---------------------------------------------------------------------------
  // `pgrep -x termux` output, as findTermuxProcesses reads it

  /** The pid a line contributes: its value when `Atoi` accepts it, nothing otherwise. */
  function LinePid(line: seq<char>): seq<int> {
    var parsed := Atoi(line);
    if parsed.Some? then [parsed.value] else []
  }

  /** The integers among the lines, in order. */
  function PidsOf(lines: seq<seq<char>>): (pids: seq<int>)
    ensures |pids| <= |lines|
    ensures forall i :: 0 <= i < |pids| ==> MinInt64 <= pids[i] <= MaxInt64
  {
    if lines == [] then [] else PidsOf(lines[..|lines| - 1]) + LinePid(lines[|lines| - 1])
  }

  /** findTermuxProcesses's result for the given `pgrep` output. */
  function PgrepPids(output: seq<char>): (pids: seq<int>)
    ensures forall i :: 0 <= i < |pids| ==> MinInt64 <= pids[i] <= MaxInt64
  {
    PidsOf(Split(TrimSpace(output), '\n'))
  }

  /** findTermuxProcesses's loop over the lines of the trimmed output. */
  method FindTermuxPids(output: seq<char>) returns (pids: seq<int>)
    ensures pids == PgrepPids(output)
  {
    var trimmed := TrimSpace(output);
    var lines := Split(trimmed, '\n');
    assert lines[..|lines|] == lines;
    pids := [];
    var i := 0;
    while i < |lines|
      invariant 0 <= i <= |lines|
      invariant pids == PidsOf(lines[..i])
    {
      PidsOfPrefixStep(lines, i);
      var parsed := Atoi(lines[i]);
      if parsed.Some? {
        pids := pids + [parsed.value];
      }
      i := i + 1;
    }
  }

  lemma PidsOfPrefixStep(lines: seq<seq<char>>, i: nat)
    requires i < |lines|
    ensures PidsOf(lines[..i + 1]) == PidsOf(lines[..i]) + LinePid(lines[i])
  {
    assert lines[..i + 1][..i] == lines[..i];
  }

  /** `idx` lists, in increasing order, exactly the lines that `Atoi` accepts, and
      `pids` holds their values in the same order. */
  predicate ParsedLinesAt(lines: seq<seq<char>>, pids: seq<int>, idx: seq<nat>) {
    && |idx| == |pids|
    && (forall k :: 0 <= k < |idx| ==> idx[k] < |lines| && Atoi(lines[idx[k]]) == Some(pids[k]))
    && (forall k, m :: 0 <= k < m < |idx| ==> idx[k] < idx[m])
    && (forall i :: 0 <= i < |lines| && Atoi(lines[i]).Some? ==> i in idx)
  }

  /** The pid list holds, in order, exactly the parses of the lines that `Atoi` accepts:
      `idx` gives the line each pid came from. */
  lemma {:induction false} PidsAreParsedLines(lines: seq<seq<char>>) returns (idx: seq<nat>)
    ensures ParsedLinesAt(lines, PidsOf(lines), idx)
  {
    if lines == [] {
      idx := [];
    } else {
      var n := |lines| - 1;
      var idx' := PidsAreParsedLines(lines[..n]);
      idx := ParsedLinesStep(lines, idx');
    }
  }

  lemma ParsedLinesStep(lines: seq<seq<char>>, idx': seq<nat>) returns (idx: seq<nat>)
    requires lines != [] && ParsedLinesAt(lines[..|lines| - 1], PidsOf(lines[..|lines| - 1]), idx')
    ensures ParsedLinesAt(lines, PidsOf(lines), idx)
  {
    var n := |lines| - 1;
    idx := if Atoi(lines[n]).Some? then idx' + [n] else idx';
    ParsedLinesStepValues(lines, idx', idx);
    ParsedLinesStepComplete(lines, idx', idx);
  }

  lemma ParsedLinesStepValues(lines: seq<seq<char>>, idx': seq<nat>, idx: seq<nat>)
    requires lines != [] && ParsedLinesAt(lines[..|lines| - 1], PidsOf(lines[..|lines| - 1]), idx')
    requires idx == if Atoi(lines[|lines| - 1]).Some? then idx' + [|lines| - 1] else idx'
    ensures |idx| == |PidsOf(lines)|
    ensures forall k :: 0 <= k < |idx| ==> idx[k] < |lines| && Atoi(lines[idx[k]]) == Some(PidsOf(lines)[k])
    ensures forall k, m :: 0 <= k < m < |idx| ==> idx[k] < idx[m]
  {
    var n := |lines| - 1;
    var init := lines[..n];
    var prev := PidsOf(init);
    var pids := PidsOf(lines);
    var parsed := Atoi(lines[n]);
    assert pids == prev + LinePid(lines[n]);
    assert |idx'| == |prev|;
    forall k | 0 <= k < |idx|
      ensures idx[k] < |lines| && Atoi(lines[idx[k]]) == Some(pids[k])
    {
      if k < |idx'| {
        assert idx[k] == idx'[k] && pids[k] == prev[k];
        assert init[idx'[k]] == lines[idx'[k]];
      } else {
        assert idx[k] == n && pids[k] == parsed.value;
      }
    }
  }

  lemma ParsedLinesStepComplete(lines: seq<seq<char>>, idx': seq<nat>, idx: seq<nat>)
    requires lines != [] && ParsedLinesAt(lines[..|lines| - 1], PidsOf(lines[..|lines| - 1]), idx')
    requires idx == if Atoi(lines[|lines| - 1]).Some? then idx' + [|lines| - 1] else idx'
    ensures forall i :: 0 <= i < |lines| && Atoi(lines[i]).Some? ==> i in idx
  {
    var n := |lines| - 1;
    var init := lines[..n];
    forall i | 0 <= i < n && Atoi(lines[i]).Some?
      ensures i in idx'
    {
      assert init[i] == lines[i];
    }
  }

  /** The renderings of the given integers, one per element. */
  function FormatAll(ns: seq<int>): (ss: seq<seq<char>>)
    ensures |ss| == |ns|
  {
    if ns == [] then [] else FormatAll(ns[..|ns| - 1]) + [FormatInt(ns[|ns| - 1])]
  }

  lemma {:induction false} PidsOfFormatAll(ns: seq<int>)
    requires forall k :: 0 <= k < |ns| ==> MinInt64 <= ns[k] <= MaxInt64
    ensures PidsOf(FormatAll(ns)) == ns
  {
    if ns != [] {
      var n := |ns| - 1;
      var init := ns[..n];
      assert ns == init + [ns[n]];
      PidsOfFormatAll(init);
      AtoiOfFormat(ns[n]);
      var ss := FormatAll(ns);
      assert ss == FormatAll(init) + [FormatInt(ns[n])];
      assert ss[..n] == FormatAll(init);
      assert LinePid(ss[n]) == [ns[n]];
    }
  }

  /** `pgrep` prints one pid per line with a final newline; parsing that output gives
      the pids back, in order. */
  lemma PgrepRoundTrip(ns: seq<int>)
    requires |ns| >= 1
    requires forall k :: 0 <= k < |ns| ==> MinInt64 <= ns[k] <= MaxInt64
    ensures PgrepPids(Join(FormatAll(ns), '\n') + ['\n']) == ns
  {
    var output := Join(FormatAll(ns), '\n') + ['\n'];
    PgrepOutputLines(ns);
    PidsOfFormatAll(ns);
    assert PgrepPids(output) == PidsOf(FormatAll(ns));
  }

  /** The trimmed `pgrep` output splits back into the printed pids. */
  lemma PgrepOutputLines(ns: seq<int>)
    requires |ns| >= 1
    ensures Split(TrimSpace(Join(FormatAll(ns), '\n') + ['\n']), '\n') == FormatAll(ns)
  {
    var parts := FormatAll(ns);
    FormattedLines(ns);
    var text := Join(parts, '\n');
    JoinEnds(parts, '\n');
    TrimSpaceTrailing(text, ['\n']);
    SplitJoin(parts, '\n');
  }

  /** Each printed pid is a non-empty line that neither starts nor ends with white space. */
  lemma FormattedLines(ns: seq<int>)
    ensures forall k :: 0 <= k < |ns| ==>
      var p := FormatAll(ns)[k];
      p != [] && '\n' !in p && !IsSpace(p[0]) && !IsSpace(p[|p| - 1])
  {
    FormatAllAt(ns);
    forall k | 0 <= k < |ns|
      ensures var p := FormatAll(ns)[k];
        p != [] && '\n' !in p && !IsSpace(p[0]) && !IsSpace(p[|p| - 1])
    {
      var p := FormatInt(ns[k]);
      FormatIntChars(ns[k]);
      SignOrDigitNotSpace(p[0]);
      SignOrDigitNotSpace(p[|p| - 1]);
    }
  }

  lemma SignOrDigitNotSpace(c: char)
    requires IsDigit(c) || c == '-'
    ensures !IsSpace(c)
  {
  }

  lemma {:induction false} FormatAllAt(ns: seq<int>)
    ensures forall k :: 0 <= k < |ns| ==> FormatAll(ns)[k] == FormatInt(ns[k])
  {
    if ns != [] {
      FormatAllAt(ns[..|ns| - 1]);
    }
  }

  lemma FormatIntChars(n: int)
    ensures FormatInt(n) != [] && '\n' !in FormatInt(n)
  {
    var s := FormatInt(n);
    if n < 0 {
      assert s == ['-'] + FormatUint(-n);
    }
  }

  /** Output that is all white space gives no pids. */
  lemma PgrepAllSpace(output: seq<char>)
    requires AllSpace(output)
    ensures PgrepPids(output) == []
  {
    assert TrimSpace(output) == [];
    var lines: seq<seq<char>> := [[]];
    assert Split([], '\n') == lines;
    assert lines[..0] == [];
    assert PidsOf(lines) == PidsOf([]) + LinePid([]);
    assert Atoi([]) == None;
  }
}
