/** The per-process statistics: the CPU-time samples read from /proc/stat and
    /proc/<pid>/stat, the usage computed from two samples, the per-thread
    cache of the last sample, the counters taken from /proc/<pid>/io and
    /proc/<pid>/status, and what is published for every process. */
module ProcessStatistics {
  import opened Globals
  import opened Stream
  import CpuStatistics

  // ---------------------------------------------------------------------
  // CPU-time samples.

  /** getCpuTimes on the text of /proc/stat: after ignore(5, ' '), the numbers
      up to the first that fails (the read runs on past the end of the first
      line, where "cpu0" stops it); fewer than 4 give nothing, otherwise their
      sum accumulated in an int and returned as a size_t. */
  function CpuTimes(text: string): Option<nat> {
    var times := CpuStatistics.LineValues(text);
    if |times| < 4 then None else Some(ToU64(CpuStatistics.Accumulate(0, times)))
  }

  method GetCpuTimes(text: string) returns (r: Option<nat>)
    ensures r == CpuTimes(text)
  {
    var cpuTimes := CpuStatistics.CpuStats.ReadValues(text);
    if |cpuTimes| < 4 {
      return None;
    }
    return Some(ToU64(CpuStatistics.Accumulate(0, cpuTimes)));
  }

  /** The numbers getProcessCpuTimes reads from /proc/<pid>/stat: everything
      up to the first ')' is skipped, then ignore(2, ' ') twice passes the
      blank and the one-letter state. */
  function ProcValues(text: string): seq<nat> {
    Numbers(IgnoreAtMost(IgnoreAtMost(IgnoreThrough(Open(text), ')'), 2, ' '), 2, ' '))
  }

  /** getProcessCpuTimes: (utime, stime), the numbers at indices 10 and 11,
      when at least 12 numbers were read. */
  function ProcessTimes(text: string): Option<(nat, nat)> {
    var data := ProcValues(text);
    if |data| < 12 then None else Some((data[10], data[11]))
  }

  method GetProcessCpuTimes(text: string) returns (r: Option<(nat, nat)>)
    ensures r == ProcessTimes(text)
  {
    var st := IgnoreAtMost(IgnoreAtMost(IgnoreThrough(Open(text), ')'), 2, ' '), 2, ' ');
    var procData := ReadNumbers(st);
    if |procData| < 12 {
      return None;
    }
    return Some((procData[10], procData[11]));
  }

  /** /proc/stat read as a whole: the aggregate line's values, and nothing
      after them, as long as what follows the line cannot start a number. */
  lemma StatValuesOfAggregate(values: seq<nat>, rest: string)
    requires CpuStatistics.Counted(values) && NoNumberNext("\n" + rest)
    ensures CpuStatistics.LineValues(CpuStatistics.AggregateLine(values) + ("\n" + rest)) == values
  {
    var j, t := Join(values), "\n" + rest;
    assert "cpu " == "cpu" + " ";
    AppendAssoc("cpu ", j, t);
    CpuStatistics.ShortTag("cpu", j + t);
    NumbersOfJoin(values, t);
  }

  /** getCpuTimes in terms of the values it reads. */
  lemma CpuTimesOfValues(text: string, values: seq<nat>)
    requires CpuStatistics.LineValues(text) == values
    ensures CpuTimes(text) == if |values| < 4 then None else Some(ToU64(ToInt32(CpuStatistics.Sum(values))))
  {
    CpuStatistics.AccumulateIsWrappedSum(0, values);
  }

  /** On a /proc/stat whose first line is "cpu", a blank and the counters,
      getCpuTimes gives nothing for fewer than 4 counters and otherwise their
      sum wrapped to an int, exact when it fits. */
  lemma CpuTimesOfStat(values: seq<nat>, rest: string)
    requires CpuStatistics.Counted(values) && NoNumberNext("\n" + rest)
    ensures CpuTimes(CpuStatistics.AggregateLine(values) + ("\n" + rest))
      == if |values| < 4 then None else Some(ToU64(ToInt32(CpuStatistics.Sum(values))))
    ensures 4 <= |values| && CpuStatistics.Sum(values) < TWO_31 ==>
      CpuTimes(CpuStatistics.AggregateLine(values) + ("\n" + rest)) == Some(CpuStatistics.Sum(values))
  {
    StatValuesOfAggregate(values, rest);
    CpuTimesOfValues(CpuStatistics.AggregateLine(values) + ("\n" + rest), values);
  }

  /** The text of /proc/<pid>/stat: the pid, the command name in parentheses,
      the state letter, the signed fields, then whatever follows. */
  function StatText(pid: nat, comm: string, state: char, fields: seq<int>, rest: string): string {
    (NatToString(pid) + " (" + comm) + (")" + (" " + ([state] + (JoinSigned(fields) + rest))))
  }

  lemma NoParenInNumber(pid: nat)
    ensures ')' !in NatToString(pid) + " ("
  {
    var d := NatToString(pid);
    assert forall i :: 0 <= i < |d| ==> IsDigit(d[i]);
  }

  /** The skipping before the number loop of getProcessCpuTimes ends on the
      first field, past its blank. */
  lemma ProcSkip(pid: nat, comm: string, state: char, fields: seq<int>, rest: string)
    requires ')' !in comm && state != ' ' && fields != []
    ensures IgnoreAtMost(IgnoreAtMost(IgnoreThrough(Open(StatText(pid, comm, state, fields, rest)), ')'), 2, ' '), 2, ' ')
      == Open(IntToString(fields[0]) + (JoinSigned(fields[1..]) + rest))
  {
    var head := NatToString(pid) + " (" + comm;
    var v := JoinSigned(fields) + rest;
    NoParenInNumber(pid);
    assert ')' !in head;
    DropThroughPast(head, " " + ([state] + v), ')');
    assert DropAtMost(" " + ([state] + v), 2, ' ') == [state] + v;
    SignedCons(fields, rest);
    assert DropAtMost([state] + v, 2, ' ') == IntToString(fields[0]) + (JoinSigned(fields[1..]) + rest);
  }

  lemma SignedCons(fields: seq<int>, rest: string)
    requires fields != []
    ensures JoinSigned(fields) + rest == " " + (IntToString(fields[0]) + (JoinSigned(fields[1..]) + rest))
  {
    var i, j := IntToString(fields[0]), JoinSigned(fields[1..]);
    AppendAssoc(" ", i, j);
    AppendAssoc(" " + i, j, rest);
    AppendAssoc(" ", i, j + rest);
  }

  /** The numbers after the state are the fields, negative ones (tpgid is -1
      without a controlling terminal) wrapped to 64 bits, as long as the
      command name holds no ')'. */
  lemma ProcValuesOfStat(pid: nat, comm: string, state: char, fields: seq<int>, rest: string)
    requires ')' !in comm && state != ' ' && fields != []
    requires InU64Range(fields) && NoNumberNext(rest)
    ensures ProcValues(StatText(pid, comm, state, fields, rest)) == Wrapped(fields)
  {
    var first := IntToString(fields[0]) + (JoinSigned(fields[1..]) + rest);
    ProcSkip(pid, comm, state, fields, rest);
    assert first[0] == '-' || IsDigit(first[0]);
    assert SkipSpace(" " + first) == SkipSpace(first);
    NumbersSeesPastSpace(" " + first, first);
    SignedCons(fields, rest);
    NumbersOfJoinSigned(fields, rest);
  }

  /** So utime and stime are the fields at indices 10 and 11 after the state. */
  lemma ProcessTimesOfStat(pid: nat, comm: string, state: char, fields: seq<int>, rest: string)
    requires ')' !in comm && state != ' ' && fields != []
    requires InU64Range(fields) && NoNumberNext(rest)
    ensures ProcessTimes(StatText(pid, comm, state, fields, rest))
      == if |fields| < 12 then None else Some((ToU64(fields[10]), ToU64(fields[11])))
  {
    ProcValuesOfStat(pid, comm, state, fields, rest);
    WrappedAt(fields);
  }

  lemma {:induction false} WrappedAt(xs: seq<int>)
    ensures |Wrapped(xs)| == |xs|
    ensures forall i :: 0 <= i < |xs| ==> Wrapped(xs)[i] == ToU64(xs[i])
    decreases |xs|
  {
    if xs != [] {
      WrappedAt(xs[1..]);
      assert Wrapped(xs) == [ToU64(xs[0])] + Wrapped(xs[1..]);
    }
  }

  // ---------------------------------------------------------------------
  // CPU usage between two samples.

  /** calculateCpuUsage: 0 when a sample is missing or when the process-time
      or total-time delta, each taken in size_t arithmetic, is 0; otherwise
      100 times the process share of the elapsed total. */
  function CalculateCpuUsage(
    totalBefore: Option<nat>, totalAfter: Option<nat>,
    procBefore: Option<(nat, nat)>, procAfter: Option<(nat, nat)>): (r: real)
    ensures r >= 0.0
    ensures r > 0.0 <==>
      && totalBefore.Some? && totalAfter.Some? && procBefore.Some? && procAfter.Some?
      && ToU64(procAfter.value.0 + procAfter.value.1 - procBefore.value.0 - procBefore.value.1) != 0
      && ToU64(totalAfter.value - totalBefore.value) != 0
  {
    if totalBefore.None? || totalAfter.None? || procBefore.None? || procAfter.None? then 0.0
    else
      var (utimeBefore, stimeBefore) := procBefore.value;
      var (utimeAfter, stimeAfter) := procAfter.value;
      var procDelta := ToU64(utimeAfter + stimeAfter - utimeBefore - stimeBefore);
      var totalDelta := ToU64(totalAfter.value - totalBefore.value);
      if procDelta == 0 || totalDelta == 0 then 0.0
      else 100.0 * (procDelta as real / totalDelta as real)
  }

  /** With counters that only move forward, no delta wraps: the usage is the
      process's share of the elapsed time, at most 100 when the process used
      no more time than elapsed in total. */
  lemma UsageOfForwardCounters(totalBefore: nat, totalAfter: nat, utimeBefore: nat, stimeBefore: nat,
                               utimeAfter: nat, stimeAfter: nat)
    requires totalBefore < totalAfter < TWO_64
    requires utimeBefore <= utimeAfter && stimeBefore <= stimeAfter && utimeAfter + stimeAfter < TWO_64
    ensures var used := (utimeAfter - utimeBefore) + (stimeAfter - stimeBefore);
      var r := CalculateCpuUsage(Some(totalBefore), Some(totalAfter),
                                 Some((utimeBefore, stimeBefore)), Some((utimeAfter, stimeAfter)));
      && r == 100.0 * (used as real / (totalAfter - totalBefore) as real)
      && (used <= totalAfter - totalBefore ==> r <= 100.0)
  {
    var used := (utimeAfter - utimeBefore) + (stimeAfter - stimeBefore);
    var elapsed := totalAfter - totalBefore;
    assert utimeAfter + stimeAfter - utimeBefore - stimeBefore == used;
    assert ToU64(used) == used && ToU64(elapsed) == elapsed;
    if used <= elapsed {
      PercentBounds(used, elapsed);
      assert 100.0 * (used as real / elapsed as real) == used as real / elapsed as real * 100.0;
    }
  }

  /** The cached sample of one thread: total CPU time, utime and stime. */
  datatype Sample = Sample(total: nat, utime: nat, stime: nat)

  /** getCpuUsage for thread tid, given what getCpuTimes and
      getProcessCpuTimes return during the call: the usage, or None where
      .value() on a missing sample throws std::bad_optional_access, and the
      cache afterwards.  A thread seen for the first time is stored with
      usage 0; a known one is compared with its stored sample, which the new
      one replaces.  A throw leaves the cache as it was. */
  function UsageStep(cache: map<int, Sample>, tid: int, total: Option<nat>, proc: Option<(nat, nat)>)
    : (r: (Option<real>, map<int, Sample>))
    ensures r.0.Some? <==> total.Some? && proc.Some?
    ensures r.0.None? ==> r.1 == cache
    ensures r.0.Some? ==> tid in r.1 && r.1[tid] == Sample(total.value, proc.value.0, proc.value.1)
    ensures r.0.Some? && tid !in cache ==> r.0.value == 0.0
  {
    if total.None? || proc.None? then (None, cache)
    else
      var now := Sample(total.value, proc.value.0, proc.value.1);
      if tid in cache then
        var before := cache[tid];
        (Some(CalculateCpuUsage(Some(before.total), total, Some((before.utime, before.stime)), proc)),
         cache[tid := now])
      else (Some(0.0), cache[tid := now])
  }

  /** A call touches only its own thread's entry and never removes one. */
  lemma UsageStepKeepsOthers(cache: map<int, Sample>, tid: int, total: Option<nat>, proc: Option<(nat, nat)>)
    ensures var after := UsageStep(cache, tid, total, proc).1;
      && cache.Keys <= after.Keys
      && after.Keys <= cache.Keys + {tid}
      && forall t :: t in cache && t != tid ==> after[t] == cache[t]
  {
  }

  /** The first call for a thread returns 0; the second measures against the
      first call's samples. */
  lemma TwoCalls(cache: map<int, Sample>, tid: int, total1: nat, proc1: (nat, nat), total2: nat, proc2: (nat, nat))
    requires tid !in cache
    ensures var (first, cache1) := UsageStep(cache, tid, Some(total1), Some(proc1));
      var (second, cache2) := UsageStep(cache1, tid, Some(total2), Some(proc2));
      && first == Some(0.0)
      && second == Some(CalculateCpuUsage(Some(total1), Some(total2), Some(proc1), Some(proc2)))
      && cache2 == cache[tid := Sample(total2, proc2.0, proc2.1)]
  {
    var cache1 := cache[tid := Sample(total1, proc1.0, proc1.1)];
    assert cache1[tid := Sample(total2, proc2.0, proc2.1)] == cache[tid := Sample(total2, proc2.0, proc2.1)];
  }

  // ---------------------------------------------------------------------
  // The counters of /proc/<pid>/io and /proc/<pid>/status.

  /** What one entry of getAssignMap publishes below the process path. */
  datatype Action =
    | Publish(leaf: string)        // the value as it is
    | PublishKBytes(leaf: string)  // the value divided by 1024
    | PublishFds                   // the value, and its share of the open-file limit

  /** getAssignMap: the seven keys and their lambdas. */
  const AssignMap: map<string, Action> := map[
    "syscr:" := Publish("/io/read-count"),
    "syscw:" := Publish("/io/write-count"),
    "read_bytes:" := PublishKBytes("/io/read-kbytes"),
    "write_bytes:" := PublishKBytes("/io/write-kbytes"),
    "voluntary_ctxt_switches:" := Publish("/voluntary-ctx-switches"),
    "nonvoluntary_ctxt_switches:" := Publish("/involuntary-ctx-switches"),
    "FDSize:" := PublishFds
  ]

  /** One lambda applied to value under path.  limit is what prlimit reports
      as the thread's soft limit on open files, None when the call fails. */
  function Apply(a: Action, value: nat, path: string, limit: Option<nat>): seq<Entry> {
    match a
    case Publish(leaf) => [Entry(path + leaf, Count(value))]
    case PublishKBytes(leaf) => [Entry(path + leaf, Count(value / 1024))]
    case PublishFds =>
      [Entry(path + "/open-file-descriptors", Count(value))]
      + if limit.Some? then [Entry(path + "/open-file-descriptors-perc", Share(value, limit.value))] else []
  }

  /** The loop of readAndSet on one file from stream position st: read a
      token; when getAssignMap knows it and a number follows, its lambda
      publishes; then skip the rest of the line.  A known token without a
      number fails the stream and ends the loop. */
  function FileEntries(st: IStream, path: string, limit: Option<nat>): seq<Entry>
    decreases |st.rest|
  {
    var (afterToken, token) := ReadWord(st);
    if token.None? then []
    else if token.value in AssignMap then
      var (afterNumber, value) := ReadU64(afterToken);
      (if afterNumber.ok then Apply(AssignMap[token.value], value.value, path, limit) else [])
      + FileEntries(IgnoreThrough(afterNumber, '\n'), path, limit)
    else FileEntries(IgnoreThrough(afterToken, '\n'), path, limit)
  }

  /** readAndSet on one file with the given text (a file that cannot be
      opened reads like an empty one). */
  method ReadAndSetFile(text: string, path: string, limit: Option<nat>) returns (out: seq<Entry>)
    ensures out == FileEntries(Open(text), path, limit)
  {
    out := [];
    var file := Open(text);
    var more := true;
    while more
      invariant more ==> out + FileEntries(file, path, limit) == FileEntries(Open(text), path, limit)
      invariant !more ==> out == FileEntries(Open(text), path, limit)
      decreases |file.rest|, more
    {
      var (afterToken, token) := ReadWord(file);
      if token.None? {
        more := false;
      } else {
        file := afterToken;
        if token.value in AssignMap {
          var (afterNumber, value) := ReadU64(file);
          file := afterNumber;
          var published := if file.ok then Apply(AssignMap[token.value], value.value, path, limit) else [];
          AppendAssoc(out, published, FileEntries(IgnoreThrough(file, '\n'), path, limit));
          out := out + published;
        }
        file := IgnoreThrough(file, '\n');
      }
    }
  }

  /** A line of /proc/<pid>/io or /proc/<pid>/status: a key, one white-space
      character, a counter and the rest of the line; or a key and any text. */
  datatype FileLine =
    | CounterLine(key: string, gap: char, value: nat, unit: string)
    | TextLine(key: string, text: string)

  predicate WellFormed(l: FileLine) {
    match l
    case CounterLine(key, gap, value, unit) =>
      && IsWord(key) && IsSpace(gap) && gap != '\n' && value <= U64_MAX
      && '\n' !in unit && (unit == [] || !IsDigit(unit[0]))
    case TextLine(key, text) =>
      && IsWord(key) && key !in AssignMap
      && '\n' !in text && (text == [] || IsSpace(text[0]))
  }

  /** What follows the key on a line. */
  function Body(l: FileLine): string {
    match l
    case CounterLine(_, gap, value, unit) => [gap] + NatToString(value) + unit
    case TextLine(_, text) => text
  }

  function RenderLine(l: FileLine): string {
    l.key + (Body(l) + "\n")
  }

  function Render(lines: seq<FileLine>): string {
    if lines == [] then "" else RenderLine(lines[0]) + Render(lines[1..])
  }

  /** What the lines publish: each counter line with a known key, in order. */
  function Published(lines: seq<FileLine>, path: string, limit: Option<nat>): seq<Entry> {
    if lines == [] then []
    else
      var l := lines[0];
      (if l.CounterLine? && l.key in AssignMap then Apply(AssignMap[l.key], l.value, path, limit) else [])
      + Published(lines[1..], path, limit)
  }

  lemma FileEntriesUnfold(st: IStream, path: string, limit: Option<nat>)
    ensures FileEntries(st, path, limit) ==
      var (afterToken, token) := ReadWord(st);
      if token.None? then []
      else if token.value in AssignMap then
        var (afterNumber, value) := ReadU64(afterToken);
        (if afterNumber.ok then Apply(AssignMap[token.value], value.value, path, limit) else [])
        + FileEntries(IgnoreThrough(afterNumber, '\n'), path, limit)
      else FileEntries(IgnoreThrough(afterToken, '\n'), path, limit)
  {
  }

  /** A rendered line followed by more text: the key, then the rest of the line, then the text. */
  lemma RenderLineThen(l: FileLine, r: string)
    ensures RenderLine(l) + r == l.key + (Body(l) + "\n" + r)
  {
    AppendAssoc(l.key, Body(l) + "\n", r);
  }

  lemma CounterBody(gap: char, d: string, unit: string, r: string)
    ensures [gap] + d + unit + "\n" + r == [gap] + (d + (unit + "\n" + r))
  {
    AppendAssoc([gap] + d, unit, "\n");
    AppendAssoc([gap] + d, unit + "\n", r);
    AppendAssoc([gap], d, unit + "\n" + r);
  }

  /** A counter line with a known key publishes through its lambda. */
  lemma KnownCounterLine(l: FileLine, r: string, path: string, limit: Option<nat>)
    requires l.CounterLine? && WellFormed(l) && l.key in AssignMap
    ensures FileEntries(Open(RenderLine(l) + r), path, limit)
      == Apply(AssignMap[l.key], l.value, path, limit) + FileEntries(Open(r), path, limit)
  {
    var d := NatToString(l.value);
    var afterNumber := l.unit + "\n" + r;
    var afterKey := [l.gap] + (d + afterNumber);
    RenderLineThen(l, r);
    CounterBody(l.gap, d, l.unit, r);
    assert RenderLine(l) + r == l.key + afterKey;
    ReadWordOf(l.key, afterKey, true);
    assert afterNumber == [] || !IsDigit(afterNumber[0]);
    ReadU64AfterSpace(l.gap, l.value, afterNumber);
    IgnoreLine(l.unit, r);
    FileEntriesUnfold(Open(RenderLine(l) + r), path, limit);
  }

  lemma NoNewlineInCounter(gap: char, n: nat, unit: string)
    requires gap != '\n' && '\n' !in unit
    ensures '\n' !in [gap] + NatToString(n) + unit
  {
    var d := NatToString(n);
    assert forall i :: 0 <= i < |d| ==> IsDigit(d[i]);
  }

  /** A line whose key getAssignMap does not know publishes nothing. */
  lemma UnknownLine(l: FileLine, r: string, path: string, limit: Option<nat>)
    requires WellFormed(l) && l.key !in AssignMap
    ensures FileEntries(Open(RenderLine(l) + r), path, limit) == FileEntries(Open(r), path, limit)
  {
    var body := Body(l);
    if l.CounterLine? {
      NoNewlineInCounter(l.gap, l.value, l.unit);
      assert body[0] == l.gap;
    }
    assert '\n' !in body && (body == [] || IsSpace(body[0]));
    RenderLineThen(l, r);
    ReadWordOf(l.key, body + "\n" + r, true);
    IgnoreLine(body, r);
    FileEntriesUnfold(Open(RenderLine(l) + r), path, limit);
  }

  /** On a file of well-formed lines, readAndSet publishes the counters of
      the known keys in file order and nothing else. */
  lemma {:induction false} ReadFileLines(lines: seq<FileLine>, path: string, limit: Option<nat>)
    requires forall i :: 0 <= i < |lines| ==> WellFormed(lines[i])
    ensures FileEntries(Open(Render(lines)), path, limit) == Published(lines, path, limit)
    decreases |lines|
  {
    if lines == [] {
      FileEntriesUnfold(Open(""), path, limit);
    } else {
      var l := lines[0];
      assert Render(lines) == RenderLine(l) + Render(lines[1..]);
      if l.key in AssignMap {
        assert l.CounterLine?;
        KnownCounterLine(l, Render(lines[1..]), path, limit);
      } else {
        UnknownLine(l, Render(lines[1..]), path, limit);
      }
      ReadFileLines(lines[1..], path, limit);
    }
  }

  /** A known key followed by something that is not a number fails the
      stream: nothing from there on is published. */
  lemma KnownKeyWithoutNumber(key: string, rest: string, path: string, limit: Option<nat>)
    requires IsWord(key) && key in AssignMap
    requires rest == [] || IsSpace(rest[0])
    requires NoNumberNext(rest)
    ensures FileEntries(Open(key + rest), path, limit) == []
  {
    ReadWordOf(key, rest, true);
    FileEntriesUnfold(Open(key + rest), path, limit);
    var (afterNumber, value) := ReadU64(Open(rest));
    assert !afterNumber.ok;
    FileEntriesUnfold(IgnoreThrough(afterNumber, '\n'), path, limit);
  }

  /** read_bytes and write_bytes are published in KiB, rounded down; the other
      counters as read. */
  lemma ByteCountersInKiB(key: string, value: nat, path: string, limit: Option<nat>)
    requires key in AssignMap && key != "FDSize:"
    ensures Apply(AssignMap[key], value, path, limit) ==
      if key == "read_bytes:" || key == "write_bytes:" then [Entry(path + AssignMap[key].leaf, Count(value / 1024))]
      else [Entry(path + AssignMap[key].leaf, Count(value))]
  {
  }

  // ---------------------------------------------------------------------
  // Every process.

  /** What readproc fills in for one process, with what its files hold when
      it is visited: /proc/<tid>/io, /proc/<tid>/status, /proc/<tid>/stat,
      /proc/stat at the time of getCpuUsage, and prlimit's outcome. */
  datatype Process = Process(
    tid: int, vmRss: nat, vmRssShared: nat, vmSize: nat, nlwp: nat,
    io: string, status: string, stat: string, cpuStat: string, limit: Option<nat>)

  const ProcessesPath := "/dt-metrics:system-metrics/processes/process[pid='"

  function ProcessPath(tid: int): string {
    ProcessesPath + IntToString(tid) + "']"
  }

  /** The memory leaves: real is vm_rss - vm_rss_shared in unsigned long
      arithmetic, rss and vsz as read. */
  function MemoryEntries(p: Process): seq<Entry> {
    var path := ProcessPath(p.tid);
    [Entry(path + "/memory/real", Count(ToU64(p.vmRss - p.vmRssShared))),
     Entry(path + "/memory/rss", Count(p.vmRss)),
     Entry(path + "/memory/vsz", Count(p.vmSize))]
  }

  /** What is published for a process before its CPU usage is asked for. */
  function ProcessHead(p: Process): seq<Entry> {
    var path := ProcessPath(p.tid);
    MemoryEntries(p)
    + FileEntries(Open(p.io), path, p.limit)
    + FileEntries(Open(p.status), path, p.limit)
    + [Entry(path + "/thread-count", Count(p.nlwp))]
  }

  /** What a pass over processes leaves: what it published, the cache, and
      whether it got through (false when getCpuUsage threw; what was
      published before the throw stays in the tree). */
  datatype Pass = Pass(out: seq<Entry>, cache: map<int, Sample>, completed: bool)

  /** One process: its leaves, then its CPU usage, unless asking for the
      usage throws. */
  function ProcessStep(cache: map<int, Sample>, p: Process): (r: Pass)
    ensures r.completed <==> CpuTimes(p.cpuStat).Some? && ProcessTimes(p.stat).Some?
  {
    var (usage, cache1) := UsageStep(cache, p.tid, CpuTimes(p.cpuStat), ProcessTimes(p.stat));
    if usage.None? then Pass(ProcessHead(p), cache, false)
    else Pass(ProcessHead(p) + [Entry(ProcessPath(p.tid) + "/cpu", Amount(usage.value))], cache1, true)
  }

  /** readAndSet over every process, in the order readproc returns them. */
  function ReadAll(cache: map<int, Sample>, procs: seq<Process>): Pass
    decreases |procs|
  {
    if procs == [] then Pass([], cache, true)
    else
      var first := ProcessStep(cache, procs[0]);
      if !first.completed then first else After(first.out, ReadAll(first.cache, procs[1..]))
  }

  /** A pass behind what has already been published. */
  function After(published: seq<Entry>, r: Pass): Pass {
    r.(out := published + r.out)
  }

  class ProcessStats {
    /** cached_cpu_values_: the last sample of every thread seen. */
    var cache: map<int, Sample>

    constructor ()
      ensures cache == map[]
    {
      cache := map[];
    }

    /** getCpuUsage for thread tid; stat is /proc/stat and procStat
        /proc/<tid>/stat at the time of the call. */
    method GetCpuUsage(tid: int, stat: string, procStat: string) returns (usage: Option<real>)
      modifies this
      ensures (usage, cache) == UsageStep(old(cache), tid, CpuTimes(stat), ProcessTimes(procStat))
    {
      if tid in cache {
        var timeTotalAfter := GetCpuTimes(stat);
        var timeProcAfter := GetProcessCpuTimes(procStat);
        if timeProcAfter.None? || timeTotalAfter.None? {
          return None;
        }
        var before := cache[tid];
        cache := cache[tid := Sample(timeTotalAfter.value, timeProcAfter.value.0, timeProcAfter.value.1)];
        usage := Some(CalculateCpuUsage(Some(before.total), timeTotalAfter,
                                        Some((before.utime, before.stime)), timeProcAfter));
      } else {
        var timeTotalBefore := GetCpuTimes(stat);
        var timeProcBefore := GetProcessCpuTimes(procStat);
        if timeTotalBefore.None? || timeProcBefore.None? {
          return None;
        }
        cache := cache[tid := Sample(timeTotalBefore.value, timeProcBefore.value.0, timeProcBefore.value.1)];
        usage := Some(0.0);
      }
    }

    /** The body of the loop over processes. */
    method PublishProcess(p: Process) returns (block: seq<Entry>, ok: bool)
      modifies this
      ensures Pass(block, cache, ok) == ProcessStep(old(cache), p)
    {
      var path := ProcessPath(p.tid);
      var io := ReadAndSetFile(p.io, path, p.limit);
      var status := ReadAndSetFile(p.status, path, p.limit);
      block := MemoryEntries(p) + io + status + [Entry(path + "/thread-count", Count(p.nlwp))];
      var usage := GetCpuUsage(p.tid, p.cpuStat, p.stat);
      ok := usage.Some?;
      if ok {
        block := block + [Entry(path + "/cpu", Amount(usage.value))];
      }
    }

    /** readAndSet over the processes readproc returns, in its order. */
    method ReadAndSetAll(procs: seq<Process>) returns (out: seq<Entry>, completed: bool)
      modifies this
      ensures Pass(out, cache, completed) == ReadAll(old(cache), procs)
    {
      out := [];
      var i := 0;
      assert procs[0..] == procs;
      AfterNothing(ReadAll(cache, procs));
      while i < |procs|
        invariant 0 <= i <= |procs|
        invariant After(out, ReadAll(cache, procs[i..])) == ReadAll(old(cache), procs)
        decreases |procs| - i
      {
        ghost var before := cache;
        var block, ok := PublishProcess(procs[i]);
        ReadAllStep(before, procs, i);
        AfterAppend(out, block, ReadAll(cache, procs[i + 1..]));
        out := out + block;
        if !ok {
          completed := false;
          return;
        }
        i := i + 1;
      }
      assert procs[i..] == [];
      assert out + [] == out;
      completed := true;
    }
  }

  /** One process of the pass, as the loop takes it. */
  lemma ReadAllStep(cache: map<int, Sample>, procs: seq<Process>, i: nat)
    requires i < |procs|
    ensures var first := ProcessStep(cache, procs[i]);
      ReadAll(cache, procs[i..]) ==
        if !first.completed then first else After(first.out, ReadAll(first.cache, procs[i + 1..]))
  {
    assert procs[i..][0] == procs[i] && procs[i..][1..] == procs[i + 1..];
  }

  lemma AfterNothing(r: Pass)
    ensures After([], r) == r
  {
    assert [] + r.out == r.out;
  }

  lemma AfterAppend(a: seq<Entry>, b: seq<Entry>, r: Pass)
    ensures After(a, After(b, r)) == After(a + b, r)
  {
    AppendAssoc(a, b, r.out);
  }

  // ---------------------------------------------------------------------
  // Properties of the whole pass.

  /** No cache entry is ever removed, and threads the pass does not visit
      keep theirs. */
  lemma {:induction false} ReadAllKeepsCache(cache: map<int, Sample>, procs: seq<Process>)
    ensures var after := ReadAll(cache, procs).cache;
      && cache.Keys <= after.Keys
      && forall t :: t in cache && (forall i :: 0 <= i < |procs| ==> procs[i].tid != t) ==> after[t] == cache[t]
    decreases |procs|
  {
    if procs != [] {
      var p := procs[0];
      var first := ProcessStep(cache, p);
      UsageStepKeepsOthers(cache, p.tid, CpuTimes(p.cpuStat), ProcessTimes(p.stat));
      if first.completed {
        ReadAllKeepsCache(first.cache, procs[1..]);
        forall t | t in cache && (forall i :: 0 <= i < |procs| ==> procs[i].tid != t)
          ensures ReadAll(cache, procs).cache[t] == cache[t]
        {
          assert procs[0].tid != t;
          forall i | 0 <= i < |procs[1..]|
            ensures procs[1..][i].tid != t
          {
            assert procs[1..][i] == procs[i + 1];
          }
        }
      }
    }
  }

  /** When every process has both CPU samples, the pass gets through, and
      afterwards every visited thread has a cache entry. */
  lemma {:induction false} ReadAllCompletes(cache: map<int, Sample>, procs: seq<Process>)
    requires forall i :: 0 <= i < |procs| ==> CpuTimes(procs[i].cpuStat).Some? && ProcessTimes(procs[i].stat).Some?
    ensures ReadAll(cache, procs).completed
    ensures forall i :: 0 <= i < |procs| ==> procs[i].tid in ReadAll(cache, procs).cache
    decreases |procs|
  {
    if procs != [] {
      var first := ProcessStep(cache, procs[0]);
      forall i | 0 <= i < |procs[1..]|
        ensures CpuTimes(procs[1..][i].cpuStat).Some? && ProcessTimes(procs[1..][i].stat).Some?
      {
        assert procs[1..][i] == procs[i + 1];
      }
      ReadAllCompletes(first.cache, procs[1..]);
      ReadAllKeepsCache(first.cache, procs[1..]);
      forall i | 0 <= i < |procs|
        ensures procs[i].tid in ReadAll(cache, procs).cache
      {
        if i > 0 {
          assert procs[i] == procs[1..][i - 1];
        }
      }
    }
  }

  /** vm_rss - vm_rss_shared is exact when the shared part is the smaller,
      and wraps otherwise. */
  lemma RealMemory(p: Process)
    requires p.vmRss < TWO_64 && p.vmRssShared < TWO_64
    ensures MemoryEntries(p)[0].value == Count(Sub64(p.vmRss, p.vmRssShared))
    ensures p.vmRssShared <= p.vmRss ==> MemoryEntries(p)[0].value == Count(p.vmRss - p.vmRssShared)
  {
  }

  lemma SuffixCancel(a: string, b: string, t: string)
    requires a + t == b + t
    ensures a == b
  {
    assert a == (a + t)[..|a|];
    assert b == (b + t)[..|b|];
  }

  /** Different threads are published under different paths. */
  lemma ProcessPathInjective(a: int, b: int)
    ensures ProcessPath(a) == ProcessPath(b) ==> a == b
  {
    if ProcessPath(a) == ProcessPath(b) {
      var sa, sb := IntToString(a), IntToString(b);
      AppendAssoc(ProcessesPath, sa, "']");
      AppendAssoc(ProcessesPath, sb, "']");
      PrefixInjective(ProcessesPath, sa + "']", sb + "']");
      SuffixCancel(sa, sb, "']");
      if a < 0 {
        assert sb[0] == '-';
        assert NatToString(-a) == sa[1..] == sb[1..] == NatToString(-b);
      } else {
        assert sb[0] != '-';
      }
      NatToStringInjective(if a < 0 then -a else a, if b < 0 then -b else b);
    }
  }
}
