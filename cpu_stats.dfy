/** /proc/stat CPU times: the aggregate "cpu" line and one line per core,
    each turned into eight counters and their total, published as shares of
    that total under the cpu-statistics container.

    The file is given as its lines, and the text is taken to end with a
    newline, as /proc/stat does.  Then std::getline past the last line
    fails and empties the line, which no longer contains "cpu" and so ends
    the scan. */
module CpuStatistics {
  import opened Globals
  import opened Stream

  /** The counters of one CoreStats, in the order of its members. */
  datatype Times = Times(user: nat, nice: nat, system: nat, idle: nat, iowait: nat,
                         irq: nat, softirq: nat, stolen: nat, total: nat)

  /** A default-constructed CoreStats. */
  const Initial := Times(0, 0, 0, 0, 0, 0, 0, 0, 1)

  /** The sum of the values, in unbounded arithmetic. */
  function Sum(xs: seq<nat>): nat {
    if xs == [] then 0 else xs[0] + Sum(xs[1..])
  }

  /** std::accumulate from acc with an int accumulator: each partial sum is
      computed in size_t and stored back into the int. */
  function Accumulate(acc: int, xs: seq<nat>): int
    decreases |xs|
  {
    if xs == [] then acc else Accumulate(ToInt32(acc + xs[0]), xs[1..])
  }

  lemma ToInt32Congruent(x: int, y: int)
    requires (x - y) % TWO_32 == 0
    ensures ToInt32(x) == ToInt32(y)
  {
    var k := (x - y) / TWO_32;
    assert x == y + k * TWO_32;
    assert x % TWO_32 == y % TWO_32;
  }

  /** The int accumulator ends with the sum wrapped to 32 bits. */
  lemma {:induction false} AccumulateIsWrappedSum(acc: int, xs: seq<nat>)
    requires -TWO_31 <= acc < TWO_31
    ensures Accumulate(acc, xs) == ToInt32(acc + Sum(xs))
    decreases |xs|
  {
    if xs != [] {
      var step := ToInt32(acc + xs[0]);
      AccumulateIsWrappedSum(step, xs[1..]);
      ToInt32Congruent(step + Sum(xs[1..]), acc + Sum(xs));
    }
  }

  /** What populateValues stores for the values read from one line. */
  function FromValues(values: seq<nat>): Times
    requires |values| >= 8
  {
    Times(values[0], values[1], values[2], values[3], values[4], values[5], values[6], values[7],
          ToU64(Accumulate(0, values)))
  }

  /** The total is the sum of every value on the line, past position 7 too,
      as long as that sum fits in an int; otherwise it is the sum wrapped to
      32 bits and then widened to size_t. */
  lemma TotalIsSum(values: seq<nat>)
    requires |values| >= 8
    ensures FromValues(values).total == ToU64(ToInt32(Sum(values)))
    ensures Sum(values) < TWO_31 ==> FromValues(values).total == Sum(values)
  {
    AccumulateIsWrappedSum(0, values);
  }

  class CoreStats {
    var user: nat
    var nice: nat
    var system: nat
    var idle: nat
    var iowait: nat
    var irq: nat
    var softirq: nat
    var stolen: nat
    var total: nat

    function Snapshot(): Times
      reads this
    {
      Times(user, nice, system, idle, iowait, irq, softirq, stolen, total)
    }

    /** Every counter 0 and the total 1, so that shares are defined. */
    constructor ()
      ensures Snapshot() == Initial
    {
      user, nice, system, idle, iowait := 0, 0, 0, 0, 0;
      irq, softirq, stolen, total := 0, 0, 0, 1;
    }

    constructor FromLine(values: seq<nat>)
      requires |values| >= 8
      ensures Snapshot() == FromValues(values)
    {
      new;
      PopulateValues(values);
    }

    /** Positions 0 to 7 go to user, nice, system, idle, iowait, irq, softirq
        and stolen; operator[] makes fewer than 8 values undefined. */
    method PopulateValues(values: seq<nat>)
      requires |values| >= 8
      modifies this
      ensures Snapshot() == FromValues(values)
    {
      user := values[0];
      nice := values[1];
      system := values[2];
      idle := values[3];
      iowait := values[4];
      irq := values[5];
      softirq := values[6];
      stolen := values[7];
      total := ToU64(Accumulate(0, values));
    }
  }

  // ---------------------------------------------------------------------
  // Reading /proc/stat.

  /** std::getline on the file for the line with index i, in a text whose
      last line ends with a newline. */
  function Line(lines: seq<string>, i: nat): string {
    if i < |lines| then lines[i] else ""
  }

  /** std::string::find(pat) != npos. */
  predicate Contains(s: string, pat: string)
    decreases |s|
  {
    |s| >= |pat| && (s[..|pat|] == pat || Contains(s[1..], pat))
  }

  /** The values read from one line: ignore(5, ' '), then numbers until one fails. */
  function LineValues(line: string): seq<nat> {
    Numbers(IgnoreAtMost(Open(line), 5, ' '))
  }

  /** The core entries appended for the lines from index i on. */
  function CoreEntries(lines: seq<string>, i: nat): (r: seq<Times>)
    requires CoreLinesReadable(lines, i)
    decreases |lines| - i
  {
    if i < |lines| && Contains(lines[i], "cpu") then
      [FromValues(LineValues(lines[i]))] + CoreEntries(lines, i + 1)
    else []
  }

  /** Every line the core scan consumes carries at least 8 values. */
  predicate CoreLinesReadable(lines: seq<string>, i: nat)
    decreases |lines| - i
  {
    i < |lines| && Contains(lines[i], "cpu") ==>
      |LineValues(lines[i])| >= 8 && CoreLinesReadable(lines, i + 1)
  }

  /** One more line of the core scan. */
  lemma ScanStep(lines: seq<string>, i: nat)
    requires CoreLinesReadable(lines, i) && Contains(Line(lines, i), "cpu")
    ensures i < |lines| && |LineValues(lines[i])| >= 8 && CoreLinesReadable(lines, i + 1)
    ensures CoreEntries(lines, i) == [FromValues(LineValues(lines[i]))] + CoreEntries(lines, i + 1)
  {
  }

  /** The scan ends at the first line without "cpu", or past the last line. */
  lemma ScanEnd(lines: seq<string>, i: nat)
    requires CoreLinesReadable(lines, i) && !Contains(Line(lines, i), "cpu")
    ensures CoreEntries(lines, i) == []
  {
  }

  /** What readCpuTimes needs of the file: the first line and every core line
      it consumes carry at least 8 values. */
  predicate StatReadable(lines: seq<string>) {
    |LineValues(Line(lines, 0))| >= 8 && CoreLinesReadable(lines, 1)
  }

  const BasePath := "/dt-metrics:system-metrics/cpu-statistics"

  /** What follows the base path: nothing for the aggregate, "/cpu[id='i']" for core i. */
  function CpuPath(index: Option<nat>): string {
    match index
    case None => ""
    case Some(i) => "/cpu[id='" + NatToString(i) + "']"
  }

  /** The leaves CoreStats::setXpathValues publishes, in its order ... */
  const LeafNames: seq<string> := ["/user", "/sys", "/nice", "/idle", "/wait", "/irq", "/softirq", "/stolen"]

  /** ... and the counters they are shares of. */
  function Counters(t: Times): seq<nat> {
    [t.user, t.system, t.nice, t.idle, t.iowait, t.irq, t.softirq, t.stolen]
  }

  /** The path of leaf k of the aggregate (no index) or of core i. */
  function LeafPath(index: Option<nat>, k: nat): string
    requires k < 8
  {
    BasePath + (CpuPath(index) + LeafNames[k])
  }

  /** The leaves of one CoreStats below the base path: each counter as a
      share of the total. */
  function CoreLeaves(t: Times, index: Option<nat>): seq<Entry> {
    seq(8, k requires 0 <= k < 8 => Entry(CpuPath(index) + LeafNames[k], Share(Counters(t)[k], t.total)))
  }

  /** CoreStats::setXpathValues. */
  function CoreOut(t: Times, index: Option<nat>): seq<Entry> {
    Prefixed(BasePath, CoreLeaves(t, index))
  }

  /** The cores from the one with index first on, each under its own index. */
  function CoresLeaves(cores: seq<Times>, first: nat): seq<Entry>
    decreases |cores|
  {
    if cores == [] then [] else CoreLeaves(cores[0], Some(first)) + CoresLeaves(cores[1..], first + 1)
  }

  /** CpuStats::setXpathValues: the aggregate, then every core by its index. */
  function Published(aggregate: Times, cores: seq<Times>): seq<Entry> {
    Prefixed(BasePath, CoreLeaves(aggregate, None) + CoresLeaves(cores, 0))
  }

  class CpuStats {
    const aggregate: CoreStats
    var coreTimes: seq<Times>

    constructor ()
      ensures fresh(aggregate)
      ensures aggregate.Snapshot() == Initial && coreTimes == []
    {
      aggregate := new CoreStats();
      coreTimes := [];
    }

    /** readCpuTimes: the first line feeds the aggregate; each following line
        that contains "cpu" appends one core, and the first that does not
        ends the scan.  Cores from an earlier read stay. */
    method ReadCpuTimes(lines: seq<string>)
      requires StatReadable(lines)
      modifies this, aggregate
      ensures aggregate.Snapshot() == FromValues(LineValues(Line(lines, 0)))
      ensures coreTimes == old(coreTimes) + CoreEntries(lines, 1)
    {
      var cpuTimes := ReadValues(Line(lines, 0));
      aggregate.PopulateValues(cpuTimes);
      ReadCores(lines);
    }

    /** The core part of readCpuTimes: from the second line on, while the line
        contains "cpu". */
    method ReadCores(lines: seq<string>)
      requires CoreLinesReadable(lines, 1)
      modifies this
      ensures coreTimes == old(coreTimes) + CoreEntries(lines, 1)
    {
      var i := 1;
      var line := Line(lines, i);
      while Contains(line, "cpu")
        invariant 1 <= i <= |lines| + 1
        invariant line == Line(lines, i)
        invariant CoreLinesReadable(lines, i)
        invariant coreTimes + CoreEntries(lines, i) == old(coreTimes) + CoreEntries(lines, 1)
        decreases |lines| + 1 - i
      {
        ScanStep(lines, i);
        var t := ReadCore(line);
        AppendAssoc(coreTimes, [t], CoreEntries(lines, i + 1));
        coreTimes := coreTimes + [t];
        i := i + 1;
        line := Line(lines, i);
      }
      ScanEnd(lines, i);
    }

    /** A line's stream after ignore(5, ' '), read into a vector until a number fails. */
    static method ReadValues(line: string) returns (values: seq<nat>)
      ensures values == LineValues(line)
    {
      values := ReadNumbers(IgnoreAtMost(Open(line), 5, ' '));
    }

    /** One core line: its values read and handed to a new CoreStats. */
    static method ReadCore(line: string) returns (t: Times)
      requires |LineValues(line)| >= 8
      ensures t == FromValues(LineValues(line))
    {
      var values := ReadValues(line);
      var core := new CoreStats.FromLine(values);
      t := core.Snapshot();
    }

    /** setXpathValues: the aggregate, then each core under its index. */
    method SetXpathValues() returns (out: seq<Entry>)
      ensures out == Published(aggregate.Snapshot(), coreTimes)
    {
      var head, cores := CoreLeaves(aggregate.Snapshot(), None), coreTimes;
      out := Prefixed(BasePath, head);
      var i := 0;
      while i < |cores|
        invariant 0 <= i <= |cores|
        invariant out == Prefixed(BasePath, head + CoresLeaves(cores[..i], 0))
      {
        PublishedStep(head, cores, i);
        out := out + CoreOut(cores[i], Some(i));
        i := i + 1;
      }
      assert cores[..i] == cores;
      assert head == head + CoresLeaves([], 0);
    }
  }

  /** Publishing core i after cores 0 to i - 1 extends the output by its block. */
  lemma PublishedStep(head: seq<Entry>, cores: seq<Times>, i: nat)
    requires i < |cores|
    ensures Prefixed(BasePath, head + CoresLeaves(cores[..i + 1], 0))
      == Prefixed(BasePath, head + CoresLeaves(cores[..i], 0)) + CoreOut(cores[i], Some(i))
  {
    var done, block := CoresLeaves(cores[..i], 0), CoreLeaves(cores[i], Some(i));
    assert cores[..i + 1] == cores[..i] + [cores[i]];
    CoresLeavesSnoc(cores[..i], cores[i], 0);
    assert CoresLeaves(cores[..i + 1], 0) == done + block;
    AppendAssoc(head, done, block);
    PrefixedAppend(BasePath, head + done, block);
  }

  /** One more core at the end publishes one more block at the end. */
  lemma {:induction false} CoresLeavesSnoc(cores: seq<Times>, t: Times, first: nat)
    ensures CoresLeaves(cores + [t], first) == CoresLeaves(cores, first) + CoreLeaves(t, Some(first + |cores|))
    decreases |cores|
  {
    if cores == [] {
      assert [] + [t] == [t];
      assert [t][1..] == [];
    } else {
      var c0, rest := CoreLeaves(cores[0], Some(first)), CoresLeaves(cores[1..], first + 1);
      var last := CoreLeaves(t, Some(first + |cores|));
      assert (cores + [t])[0] == cores[0];
      assert (cores + [t])[1..] == cores[1..] + [t];
      assert first + 1 + |cores[1..]| == first + |cores|;
      CoresLeavesSnoc(cores[1..], t, first + 1);
      assert CoresLeaves(cores + [t], first) == c0 + (rest + last);
      AppendAssoc(c0, rest, last);
    }
  }

  // ---------------------------------------------------------------------
  // What the reader makes of /proc/stat lines.

  /** The aggregate line as the kernel writes it: "cpu", two blanks, the values. */
  function AggregateLine(values: seq<nat>): string {
    "cpu " + Join(values)
  }

  /** The line of core k: "cpu" and the core number, a blank, the values. */
  function CoreLine(k: nat, values: seq<nat>): string {
    "cpu" + NatToString(k) + Join(values)
  }

  predicate Counted(values: seq<nat>) {
    forall i :: 0 <= i < |values| ==> values[i] <= U64_MAX
  }

  /** ignore(5, ' ') on a tag of at most four characters without a blank also
      takes the blank after it. */
  lemma ShortTag(tag: string, rest: string)
    requires |tag| < 5 && ' ' !in tag
    ensures LineValues(tag + " " + rest) == Numbers(Open(rest))
  {
    AppendAssoc(tag, " ", rest);
    DropPast(tag, " " + rest, 5, ' ');
    var blank := " " + rest;
    assert blank[0] == ' ' && blank[1..] == rest;
    assert DropAtMost(blank, 5 - |tag|, ' ') == rest;
  }

  /** ignore(5, ' ') on a tag of five characters without a blank stops right
      after the tag. */
  lemma FullTag(tag: string, rest: string)
    requires |tag| == 5 && ' ' !in tag
    ensures LineValues(tag + rest) == Numbers(Open(rest))
  {
    DropPast(tag, rest, 5, ' ');
  }

  lemma ReadJoined(values: seq<nat>)
    requires Counted(values)
    ensures Numbers(Open(Join(values))) == values
  {
    NumbersOfJoin(values, "");
    assert Join(values) + "" == Join(values);
  }

  /** A blank in front of a printed value is skipped like any other. */
  lemma BlankBeforeValue(n: nat, rest: string)
    ensures Numbers(Open(" " + (NatToString(n) + rest))) == Numbers(Open(NatToString(n) + rest))
  {
    var r := NatToString(n) + rest;
    assert r[0] == NatToString(n)[0] && !IsSpace(r[0]);
    assert (" " + r)[1..] == r;
    NumbersSeesPastSpace(" " + r, r);
  }

  lemma NoBlankInNumber(k: nat)
    ensures ' ' !in NatToString(k)
  {
    var d := NatToString(k);
    assert forall i :: 0 <= i < |d| ==> IsDigit(d[i]);
  }

  /** Dropping "cpu " leaves the blank before the first value. */
  lemma AggregateLineValues(values: seq<nat>)
    requires Counted(values)
    ensures LineValues(AggregateLine(values)) == values
  {
    assert AggregateLine(values) == "cpu" + " " + Join(values);
    ShortTag("cpu", Join(values));
    ReadJoined(values);
  }

  /** A core numbered below 100 has a label of at most five characters, so its
      line yields exactly its values. */
  lemma CoreLineValues(k: nat, values: seq<nat>)
    requires k < 100 && values != [] && Counted(values)
    ensures LineValues(CoreLine(k, values)) == values
  {
    var tag := "cpu" + NatToString(k);
    NoBlankInNumber(k);
    ReadJoined(values);
    if k < 10 {
      assert |tag| == 4;
      var rest := NatToString(values[0]) + Join(values[1..]);
      assert Join(values) == " " + NatToString(values[0]) + Join(values[1..]);
      AppendAssoc(" ", NatToString(values[0]), Join(values[1..]));
      AppendAssoc(tag, " ", rest);
      ShortTag(tag, rest);
      BlankBeforeValue(values[0], Join(values[1..]));
    } else {
      assert NatToString(k) == NatToString(k / 10) + [DigitChar(k % 10)];
      assert |tag| == 5;
      FullTag(tag, Join(values));
    }
  }

  /** From core 100 on, ignore(5, ' ') stops inside the label: the label's last
      digit is read as a leading value, so every counter moves one place. */
  lemma WideCoreLineValues(k: nat, values: seq<nat>)
    requires 100 <= k < 1000 && Counted(values)
    ensures LineValues(CoreLine(k, values)) == [k % 10] + values
  {
    var high, low := NatToString(k / 10), NatToString(k % 10);
    assert NatToString(k) == high + low;
    assert high == NatToString(k / 100) + [DigitChar(k / 10 % 10)];
    NoBlankInNumber(k / 10);
    var tag := "cpu" + high;
    assert |tag| == 5 && ' ' !in tag;
    AppendAssoc("cpu", high, low);
    AppendAssoc(tag, low, Join(values));
    FullTag(tag, low + Join(values));
    var more := [k % 10] + values;
    assert more[0] == k % 10 && more[1..] == values;
    assert Join(more) == " " + low + Join(values);
    AppendAssoc(" ", low, Join(values));
    BlankBeforeValue(k % 10, Join(values));
    ReadJoined(more);
  }

  lemma LabelledLine(k: nat, values: seq<nat>)
    ensures Contains(CoreLine(k, values), "cpu")
  {
    assert CoreLine(k, values)[..3] == "cpu";
  }

  /** A line the core scan takes, with the values it yields. */
  predicate IsCoreLine(line: string, values: seq<nat>) {
    Contains(line, "cpu") && |values| >= 8 && LineValues(line) == values
  }

  function AllFromValues(cores: seq<seq<nat>>): seq<Times>
    requires forall i :: 0 <= i < |cores| ==> |cores[i]| >= 8
  {
    if cores == [] then [] else [FromValues(cores[0])] + AllFromValues(cores[1..])
  }

  /** From index i on, a run of core lines ended by a line without "cpu" (or
      by the end of the file) gives one core per line, in file order. */
  /** A run of lines the core scan takes, from index i on, ended by a line
      without "cpu" or by the end of the file. */
  predicate CoreRun(lines: seq<string>, i: nat, cores: seq<seq<nat>>) {
    && i + |cores| <= |lines|
    && (forall j :: 0 <= j < |cores| ==> IsCoreLine(lines[i + j], cores[j]))
    && (i + |cores| == |lines| || !Contains(lines[i + |cores|], "cpu"))
  }

  /** A run that starts with one core line goes on with the rest. */
  lemma RunStep(lines: seq<string>, i: nat, cores: seq<seq<nat>>)
    requires cores != [] && CoreRun(lines, i, cores)
    ensures Contains(lines[i], "cpu") && |cores[0]| >= 8 && LineValues(lines[i]) == cores[0]
    ensures CoreRun(lines, i + 1, cores[1..])
  {
    var rest := cores[1..];
    assert IsCoreLine(lines[i + 0], cores[0]);
    forall j | 0 <= j < |rest|
      ensures IsCoreLine(lines[i + 1 + j], rest[j])
    {
      assert IsCoreLine(lines[i + (j + 1)], cores[j + 1]);
    }
  }

  /** The scan reads a whole run. */
  lemma {:induction false} ScanReadable(lines: seq<string>, i: nat, cores: seq<seq<nat>>)
    requires CoreRun(lines, i, cores)
    ensures CoreLinesReadable(lines, i)
    decreases |cores|
  {
    if cores == [] {
      assert i == |lines| || !Contains(lines[i], "cpu");
    } else {
      RunStep(lines, i, cores);
      ScanReadable(lines, i + 1, cores[1..]);
    }
  }

  /** ... and gives one core per line, in file order. */
  lemma {:induction false} ScanFrom(lines: seq<string>, i: nat, cores: seq<seq<nat>>)
    requires CoreRun(lines, i, cores)
    ensures CoreLinesReadable(lines, i)
    ensures forall j :: 0 <= j < |cores| ==> |cores[j]| >= 8
    ensures CoreEntries(lines, i) == AllFromValues(cores)
    decreases |cores|
  {
    ScanReadable(lines, i, cores);
    if cores == [] {
      assert i == |lines| || !Contains(lines[i], "cpu");
    } else {
      RunStep(lines, i, cores);
      ScanFrom(lines, i + 1, cores[1..]);
      assert CoreEntries(lines, i) == [FromValues(cores[0])] + CoreEntries(lines, i + 1);
    }
  }

  /** The lines of cores 0, 1, ... */
  function CoreLines(cores: seq<seq<nat>>): (r: seq<string>)
    ensures |r| == |cores|
    ensures forall j :: 0 <= j < |cores| ==> r[j] == CoreLine(j, cores[j])
  {
    seq(|cores|, j requires 0 <= j < |cores| => CoreLine(j, cores[j]))
  }

  /** On a /proc/stat with the aggregate line, up to 100 core lines and then
      lines without "cpu", the read is defined, the aggregate gets the first
      line's values and the cores come in file order. */
  lemma ReadWellFormed(aggregate: seq<nat>, cores: seq<seq<nat>>, tail: seq<string>)
    requires |aggregate| >= 8 && Counted(aggregate)
    requires |cores| <= 100
    requires forall i :: 0 <= i < |cores| ==> |cores[i]| >= 8 && Counted(cores[i])
    requires tail == [] || !Contains(tail[0], "cpu")
    ensures var lines := [AggregateLine(aggregate)] + CoreLines(cores) + tail;
      && StatReadable(lines)
      && LineValues(Line(lines, 0)) == aggregate
      && CoreEntries(lines, 1) == AllFromValues(cores)
  {
    var body := CoreLines(cores);
    var lines := [AggregateLine(aggregate)] + body + tail;
    assert |lines| == 1 + |cores| + |tail|;
    assert Line(lines, 0) == AggregateLine(aggregate);
    AggregateLineValues(aggregate);
    forall j | 0 <= j < |cores|
      ensures IsCoreLine(lines[1 + j], cores[j])
    {
      assert lines[1 + j] == body[j] == CoreLine(j, cores[j]);
      LabelledLine(j, cores[j]);
      CoreLineValues(j, cores[j]);
    }
    if tail != [] {
      assert lines[1 + |cores|] == tail[0];
    }
    assert CoreRun(lines, 1, cores);
    ScanFrom(lines, 1, cores);
    assert StatReadable(lines);
  }

  // ---------------------------------------------------------------------
  // Where the counters are published.

  lemma LeafNamesDistinct()
    ensures forall i, j :: 0 <= i < j < 8 ==> LeafNames[i] != LeafNames[j]
  {
  }

  /** Each leaf of one CoreStats carries its counter's share of the total. */
  lemma CoreLeavesLookup(t: Times, index: Option<nat>, k: nat)
    requires k < 8
    ensures Lookup(CoreLeaves(t, index), CpuPath(index) + LeafNames[k]) == Some(Share(Counters(t)[k], t.total))
  {
    var out := CoreLeaves(t, index);
    LeafNamesDistinct();
    forall i | 0 <= i < k
      ensures out[i].path != CpuPath(index) + LeafNames[k]
    {
      PrefixInjective(CpuPath(index), LeafNames[i], LeafNames[k]);
    }
    LookupFirst(out, CpuPath(index) + LeafNames[k], k);
  }

  /** Paths under two different cores differ, whatever leaves follow. */
  lemma CpuPathsDiffer(m: nat, n: nat, a: string, b: string)
    ensures CpuPath(Some(m)) + a == CpuPath(Some(n)) + b ==> m == n && a == b
  {
    var p := "/cpu[id='";
    var dm, dn := NatToString(m), NatToString(n);
    AppendAssoc(p, dm, "']");
    AppendAssoc(p, dm + "']", a);
    AppendAssoc(dm, "']", a);
    AppendAssoc(p, dn, "']");
    AppendAssoc(p, dn + "']", b);
    AppendAssoc(dn, "']", b);
    PrefixInjective(p, dm + ("']" + a), dn + ("']" + b));
    if CpuPath(Some(m)) + a == CpuPath(Some(n)) + b {
      DigitsSplit(dm, "']" + a, dn, "']" + b);
      NatToStringInjective(m, n);
      assert a == ("']" + a)[2..];
      assert b == ("']" + b)[2..];
    }
  }

  /** A core path starts "/c", which no aggregate leaf does. */
  lemma AggregateIsNoCore(i: nat, b: string, j: nat)
    requires j < 8
    ensures CpuPath(None) + LeafNames[j] != CpuPath(Some(i)) + b
  {
    var p := CpuPath(Some(i)) + b;
    assert p[1] == 'c';
    assert CpuPath(None) + LeafNames[j] == LeafNames[j];
  }

  /** No leaf of core m is found under the path of another core. */
  lemma CoreLeavesMiss(t: Times, m: nat, n: nat, b: string)
    requires m != n
    ensures Lookup(CoreLeaves(t, Some(m)), CpuPath(Some(n)) + b) == None
  {
    var out := CoreLeaves(t, Some(m));
    forall j | 0 <= j < 8
      ensures out[j].path != CpuPath(Some(n)) + b
    {
      CpuPathsDiffer(m, n, LeafNames[j], b);
    }
    LookupMissing(out, CpuPath(Some(n)) + b);
  }

  lemma {:induction false} CoresLeavesLookup(cores: seq<Times>, first: nat, i: nat, k: nat)
    requires i < |cores| && k < 8
    ensures Lookup(CoresLeaves(cores, first), CpuPath(Some(first + i)) + LeafNames[k])
      == Some(Share(Counters(cores[i])[k], cores[i].total))
    decreases i
  {
    var p := CpuPath(Some(first + i)) + LeafNames[k];
    var head, rest := CoreLeaves(cores[0], Some(first)), CoresLeaves(cores[1..], first + 1);
    assert CoresLeaves(cores, first) == head + rest;
    LookupAppend(head, rest, p);
    if i == 0 {
      CoreLeavesLookup(cores[0], Some(first), k);
    } else {
      CoreLeavesMiss(cores[0], first, first + i, LeafNames[k]);
      assert Lookup(head, p) == None;
      CoresLeavesLookup(cores[1..], first + 1, i - 1, k);
      assert first + 1 + (i - 1) == first + i && cores[1..][i - 1] == cores[i];
    }
  }

  /** The aggregate's leaves sit directly under cpu-statistics. */
  lemma AggregatePublished(aggregate: Times, cores: seq<Times>, k: nat)
    requires k < 8
    ensures Lookup(Published(aggregate, cores), LeafPath(None, k))
      == Some(Share(Counters(aggregate)[k], aggregate.total))
  {
    var p := CpuPath(None) + LeafNames[k];
    LookupPrefixed(BasePath, CoreLeaves(aggregate, None) + CoresLeaves(cores, 0), p);
    LookupAppend(CoreLeaves(aggregate, None), CoresLeaves(cores, 0), p);
    CoreLeavesLookup(aggregate, None, k);
    assert LeafPath(None, k) == BasePath + p;
  }

  /** Core i's leaves sit under "/cpu[id='i']", i its place in mCoreTimes, and
      carry core i's shares. */
  lemma CorePublished(aggregate: Times, cores: seq<Times>, i: nat, k: nat)
    requires i < |cores| && k < 8
    ensures Lookup(Published(aggregate, cores), LeafPath(Some(i), k))
      == Some(Share(Counters(cores[i])[k], cores[i].total))
  {
    var p := CpuPath(Some(i)) + LeafNames[k];
    var out, rest := CoreLeaves(aggregate, None), CoresLeaves(cores, 0);
    forall j | 0 <= j < 8
      ensures out[j].path != p
    {
      AggregateIsNoCore(i, LeafNames[k], j);
    }
    LookupMissing(out, p);
    LookupPrefixed(BasePath, out + rest, p);
    LookupAppend(out, rest, p);
    CoresLeavesLookup(cores, 0, i, k);
    var v := Some(Share(Counters(cores[i])[k], cores[i].total));
    assert Lookup(rest, CpuPath(Some(0 + i)) + LeafNames[k]) == v;
    assert CpuPath(Some(0 + i)) == CpuPath(Some(i));
    assert Lookup(rest, p) == v;
    calc {
      Lookup(Published(aggregate, cores), LeafPath(Some(i), k));
      Lookup(Prefixed(BasePath, out + rest), BasePath + p);
      Lookup(out + rest, p);
      { assert Lookup(out, p) == None; }
      Lookup(rest, p);
      { assert 0 + i == i; }
      Some(Share(Counters(cores[i])[k], cores[i].total));
    }
  }

}
