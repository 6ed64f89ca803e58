/** The memory statistics reader: the counters it keeps, how it fills them
    from the text of /proc/meminfo, what it publishes, and the usage figure the
    memory monitor samples. */
module MemoryStatistics {
  import opened Globals
  import opened Stream

  /** The twelve counters of MemoryStats. */
  datatype Field =
    | Free | SwapFree | SwapTotal | SwapUsed | Total | Usable
    | UsedBuffers | UsedCached | UsedShared
    | HugePagesTotal | HugePagesFree | HugePageSize

  /** The constructor's assignMap: the /proc/meminfo key whose number each
      counter takes (SwapUsed has none; it is derived). */
  const AssignMap: map<string, Field> := map[
    "MemTotal:" := Total,
    "MemFree:" := Free,
    "MemAvailable:" := Usable,
    "SwapTotal:" := SwapTotal,
    "SwapFree:" := SwapFree,
    "Shmem:" := UsedShared,
    "Cached:" := UsedCached,
    "Buffers:" := UsedBuffers,
    "HugePages_Total:" := HugePagesTotal,
    "HugePages_Free:" := HugePagesFree,
    "Hugepagesize:" := HugePageSize
  ]

  /** The values of the twelve uint64_t counters. */
  datatype Counters = Counters(
    free: nat, swapFree: nat, swapTotal: nat, swapUsed: nat, total: nat, usable: nat,
    usedBuffers: nat, usedCached: nat, usedShared: nat,
    hugePagesTotal: nat, hugePagesFree: nat, hugePageSize: nat)

  const Zero := Counters(0, 0, 0, 0, 0, 0, 0, 0, 0, 0, 0, 0)

  function Get(c: Counters, f: Field): nat {
    match f
    case Free => c.free
    case SwapFree => c.swapFree
    case SwapTotal => c.swapTotal
    case SwapUsed => c.swapUsed
    case Total => c.total
    case Usable => c.usable
    case UsedBuffers => c.usedBuffers
    case UsedCached => c.usedCached
    case UsedShared => c.usedShared
    case HugePagesTotal => c.hugePagesTotal
    case HugePagesFree => c.hugePagesFree
    case HugePageSize => c.hugePageSize
  }

  /** What one assignMap lambda does: set one counter, keep the others. */
  function Set(c: Counters, f: Field, v: nat): (c': Counters)
    ensures Get(c', f) == v
    ensures forall g :: g != f ==> Get(c', g) == Get(c, g)
    ensures Bounded(c) && v <= U64_MAX ==> Bounded(c')
  {
    Counters(
      if f == Free then v else c.free,
      if f == SwapFree then v else c.swapFree,
      if f == SwapTotal then v else c.swapTotal,
      if f == SwapUsed then v else c.swapUsed,
      if f == Total then v else c.total,
      if f == Usable then v else c.usable,
      if f == UsedBuffers then v else c.usedBuffers,
      if f == UsedCached then v else c.usedCached,
      if f == UsedShared then v else c.usedShared,
      if f == HugePagesTotal then v else c.hugePagesTotal,
      if f == HugePagesFree then v else c.hugePagesFree,
      if f == HugePageSize then v else c.hugePageSize)
  }

  /** Every counter fits its uint64_t. */
  ghost predicate Bounded(c: Counters) {
    && c.free <= U64_MAX && c.swapFree <= U64_MAX && c.swapTotal <= U64_MAX
    && c.swapUsed <= U64_MAX && c.total <= U64_MAX && c.usable <= U64_MAX
    && c.usedBuffers <= U64_MAX && c.usedCached <= U64_MAX && c.usedShared <= U64_MAX
    && c.hugePagesTotal <= U64_MAX && c.hugePagesFree <= U64_MAX && c.hugePageSize <= U64_MAX
  }

  /** The loop of readMemoryStats from stream position st: read a key; if
      assignMap knows it and a number follows, the matching counter takes the
      number; then skip the rest of the line.  It ends at the first key that
      cannot be read, or right after a known key not followed by a number. */
  function ReadFrom(st: IStream, c: Counters): (r: Counters)
    ensures Bounded(c) ==> Bounded(r)
    ensures r.swapUsed == c.swapUsed
    decreases |st.rest|
  {
    SwapUsedHasNoKey();
    var (afterToken, token) := ReadWord(st);
    if token.None? then c
    else if token.value in AssignMap then
      var (afterNumber, mem) := ReadU64(afterToken);
      ReadFrom(IgnoreThrough(afterNumber, '\n'),
               if afterNumber.ok then Set(c, AssignMap[token.value], mem.value) else c)
    else
      ReadFrom(IgnoreThrough(afterToken, '\n'), c)
  }

  lemma SwapUsedHasNoKey()
    ensures forall key :: key in AssignMap ==> AssignMap[key] != SwapUsed
  {
    assert SwapUsed !in AssignMap.Values;
  }

  /** The counters after readMemoryStats on a file with the given text. */
  function AfterRead(text: string, c: Counters): (r: Counters)
    requires Bounded(c)
    ensures Bounded(r)
  {
    var read := ReadFrom(Open(text), c);
    read.(swapUsed := Sub64(read.swapTotal, read.swapFree))
  }

  const MemoryPath := "/dt-metrics:system-metrics/memory/statistics/"

  /** The leaf under which each counter is published. */
  function LeafName(f: Field): string {
    match f
    case Free => "free"
    case SwapFree => "swap-free-mb"
    case SwapTotal => "swap-total"
    case SwapUsed => "swap-used"
    case Total => "total"
    case Usable => "usable-mb"
    case UsedBuffers => "used-buffers"
    case UsedCached => "used-cached"
    case UsedShared => "used-shared"
    case HugePagesTotal => "hugepages-total"
    case HugePagesFree => "hugepages-free"
    case HugePageSize => "hugepage-size"
  }

  predicate IsHugePageCounter(f: Field) {
    f == HugePagesTotal || f == HugePagesFree || f == HugePageSize
  }

  /** The order in which setXpathValues publishes the counters. */
  const Order: seq<Field> := [Free, SwapFree, SwapTotal, SwapUsed, Total, Usable,
                              UsedBuffers, UsedCached, UsedShared,
                              HugePagesTotal, HugePagesFree, HugePageSize]

  /** A counter as published: kB counters in MB, hugepage counters unscaled. */
  function Published(c: Counters, f: Field): Value {
    Count(if IsHugePageCounter(f) then Get(c, f) else Get(c, f) / 1024)
  }

  /** The leaves setXpathValues publishes for the given counters, in its order. */
  function Leaves(c: Counters): (out: seq<Entry>)
    ensures |out| == 12 + (if c.total != 0 then 1 else 0) + (if c.swapTotal != 0 then 1 else 0)
    ensures forall i :: 0 <= i < 12 ==> out[i] == Entry(LeafName(Order[i]), Published(c, Order[i]))
    ensures c.total != 0 ==> out[12] == Entry("usable-perc", Share(c.usable, c.total))
    ensures c.swapTotal != 0 ==> out[|out| - 1] == Entry("swap-free-perc", Share(c.swapFree, c.swapTotal))
  {
    seq(12, i requires 0 <= i < 12 => Entry(LeafName(Order[i]), Published(c, Order[i])))
    + (if c.total != 0 then [Entry("usable-perc", Share(c.usable, c.total))] else [])
    + (if c.swapTotal != 0 then [Entry("swap-free-perc", Share(c.swapFree, c.swapTotal))] else [])
  }

  /** Where a counter stands in the publishing order. */
  function Position(f: Field): (k: nat)
    ensures k < 12 && Order[k] == f
  {
    match f
    case Free => 0
    case SwapFree => 1
    case SwapTotal => 2
    case SwapUsed => 3
    case Total => 4
    case Usable => 5
    case UsedBuffers => 6
    case UsedCached => 7
    case UsedShared => 8
    case HugePagesTotal => 9
    case HugePagesFree => 10
    case HugePageSize => 11
  }

  /** No two counters share a leaf, and no counter uses a percentage leaf. */
  lemma LeafNamesDistinct()
    ensures forall i, j :: 0 <= i < j < 12 ==> LeafName(Order[i]) != LeafName(Order[j])
    ensures forall i :: 0 <= i < 12 ==> LeafName(Order[i]) != "usable-perc" && LeafName(Order[i]) != "swap-free-perc"
  {
  }

  /** What setXpathValues publishes: every leaf under the memory statistics path. */
  function SetXpathValues(c: Counters): seq<Entry> {
    Prefixed(MemoryPath, Leaves(c))
  }

  /** Memory usage as the monitor samples it: 100 minus the usable share. */
  function UsagePercent(c: Counters): (r: real)
    requires c.total != 0
    ensures c.usable <= c.total ==> 0.0 <= r <= 100.0
    ensures c.usable == 0 ==> r == 100.0
  {
    PercentBounds(c.usable, c.total);
    100.0 - (c.usable as real / c.total as real * 100.0)
  }

  class MemoryStats {
    var free: nat
    var swapFree: nat
    var swapTotal: nat
    var swapUsed: nat
    var total: nat
    var usable: nat
    var usedBuffers: nat
    var usedCached: nat
    var usedShared: nat
    var hugePagesTotal: nat
    var hugePagesFree: nat
    var hugePageSize: nat

    function Snapshot(): Counters
      reads this
    {
      Counters(free, swapFree, swapTotal, swapUsed, total, usable,
               usedBuffers, usedCached, usedShared,
               hugePagesTotal, hugePagesFree, hugePageSize)
    }

    ghost predicate Valid()
      reads this
    {
      Bounded(Snapshot())
    }

    /** Every counter starts at 0. */
    constructor ()
      ensures Valid() && Snapshot() == Zero
    {
      free, swapFree, swapTotal, swapUsed, total, usable := 0, 0, 0, 0, 0, 0;
      usedBuffers, usedCached, usedShared := 0, 0, 0;
      hugePagesTotal, hugePagesFree, hugePageSize := 0, 0, 0;
    }

    /** The assignMap lambda for field f. */
    method Assign(f: Field, v: nat)
      modifies this
      ensures Snapshot() == Set(old(Snapshot()), f, v)
    {
      match f
      case Free => free := v;
      case SwapFree => swapFree := v;
      case SwapTotal => swapTotal := v;
      case SwapUsed => swapUsed := v;
      case Total => total := v;
      case Usable => usable := v;
      case UsedBuffers => usedBuffers := v;
      case UsedCached => usedCached := v;
      case UsedShared => usedShared := v;
      case HugePagesTotal => hugePagesTotal := v;
      case HugePagesFree => hugePagesFree := v;
      case HugePageSize => hugePageSize := v;
    }

    /** readMemoryStats on a /proc/meminfo with the given text. */
    method ReadMemoryStats(text: string)
      requires Valid()
      modifies this
      ensures Valid()
      ensures Snapshot() == AfterRead(text, old(Snapshot()))
    {
      var file := Open(text);
      var more := true;
      while more
        invariant Valid()
        invariant more ==> ReadFrom(file, Snapshot()) == ReadFrom(Open(text), old(Snapshot()))
        invariant !more ==> Snapshot() == ReadFrom(Open(text), old(Snapshot()))
        decreases |file.rest|, more
      {
        var (afterToken, token) := ReadWord(file);
        if token.None? {
          more := false;
        } else {
          file := afterToken;
          if token.value in AssignMap {
            var (afterNumber, mem) := ReadU64(file);
            file := afterNumber;
            if file.ok {
              Assign(AssignMap[token.value], mem.value);
            }
          }
          file := IgnoreThrough(file, '\n');
        }
      }
      swapUsed := Sub64(swapTotal, swapFree);
    }

    /** getUsage: re-read the counters, then 100 minus the usable share.  The
        source divides by MemTotal unguarded. */
    method GetUsage(text: string) returns (usage: real)
      requires Valid()
      requires AfterRead(text, Snapshot()).total != 0
      modifies this
      ensures Valid()
      ensures Snapshot() == AfterRead(text, old(Snapshot()))
      ensures usage == UsagePercent(Snapshot())
    {
      ReadMemoryStats(text);
      usage := 100.0 - (usable as real / total as real * 100.0);
    }
  }

  // ---------------------------------------------------------------------
  // Properties of the reader.

  /** After a read, SwapUsed is SwapTotal - SwapFree in uint64_t arithmetic. */
  lemma SwapUsedAfterRead(text: string, c: Counters)
    requires Bounded(c)
    ensures var r := AfterRead(text, c);
      && (r.swapFree <= r.swapTotal ==> r.swapUsed == r.swapTotal - r.swapFree)
      && (r.swapTotal < r.swapFree ==> r.swapUsed == TWO_64 + r.swapTotal - r.swapFree)
  {
    var read := ReadFrom(Open(text), c);
    assert Get(read, SwapTotal) <= U64_MAX && Get(read, SwapFree) <= U64_MAX;
  }

  /** A /proc/meminfo line: a key, a number and what follows it on the line. */
  datatype Line = Line(key: string, value: nat, unit: string)

  predicate WellFormedLine(l: Line) {
    && IsWord(l.key)
    && l.value <= U64_MAX
    && '\n' !in l.unit
    && (l.unit == [] || !IsDigit(l.unit[0]))
  }

  function RenderLine(l: Line): string {
    l.key + " " + NatToString(l.value) + l.unit + "\n"
  }

  function Render(lines: seq<Line>): string {
    if lines == [] then "" else RenderLine(lines[0]) + Render(lines[1..])
  }

  /** The counters after applying the known lines in order. */
  function ApplyLines(lines: seq<Line>, c: Counters): Counters {
    if lines == [] then c
    else
      var l := lines[0];
      ApplyLines(lines[1..], if l.key in AssignMap then Set(c, AssignMap[l.key], l.value) else c)
  }

  lemma ReadFromUnfold(st: IStream, c: Counters)
    ensures ReadFrom(st, c) ==
      var (afterToken, token) := ReadWord(st);
      if token.None? then c
      else if token.value in AssignMap then
        var (afterNumber, mem) := ReadU64(afterToken);
        ReadFrom(IgnoreThrough(afterNumber, '\n'),
                 if afterNumber.ok then Set(c, AssignMap[token.value], mem.value) else c)
      else
        ReadFrom(IgnoreThrough(afterToken, '\n'), c)
  {
  }

  /** One well-formed line whose key assignMap knows sets exactly that counter. */
  lemma {:induction false} KnownLine(l: Line, r: string, c: Counters)
    requires WellFormedLine(l) && l.key in AssignMap
    ensures ReadFrom(Open(RenderLine(l) + r), c) == ReadFrom(Open(r), Set(c, AssignMap[l.key], l.value))
  {
    var d := NatToString(l.value);
    var afterLabel := " " + d + (l.unit + "\n" + r);
    var afterNumber := l.unit + "\n" + r;
    assert RenderLine(l) + r == l.key + afterLabel;
    ReadWordOf(l.key, afterLabel, true);
    assert afterNumber == [] || !IsDigit(afterNumber[0]);
    ReadU64AfterBlank(l.value, afterNumber);
    IgnoreLine(l.unit, r);
    ReadFromUnfold(Open(RenderLine(l) + r), c);
  }

  /** A well-formed line whose key assignMap does not know changes nothing. */
  lemma {:induction false} OtherLine(l: Line, r: string, c: Counters)
    requires WellFormedLine(l) && l.key !in AssignMap
    ensures ReadFrom(Open(RenderLine(l) + r), c) == ReadFrom(Open(r), c)
  {
    var afterKey := " " + NatToString(l.value) + l.unit;
    assert RenderLine(l) + r == l.key + (afterKey + "\n" + r);
    ReadWordOf(l.key, afterKey + "\n" + r, true);
    NoNewlineInNumber(l.value, l.unit);
    IgnoreLine(afterKey, r);
    ReadFromUnfold(Open(RenderLine(l) + r), c);
  }

  lemma NoNewlineInNumber(n: nat, unit: string)
    requires '\n' !in unit
    ensures '\n' !in " " + NatToString(n) + unit
  {
    var d := NatToString(n);
    assert forall i :: 0 <= i < |d| ==> IsDigit(d[i]);
  }

  /** A known key followed by something that is not a number fails the
      stream: that line and every later one leave the counters as they are. */
  lemma KnownLabelWithoutNumber(key: string, rest: string, c: Counters)
    requires IsWord(key) && key in AssignMap
    requires rest == [] || IsSpace(rest[0])
    requires NoNumberNext(rest)
    ensures ReadFrom(Open(key + rest), c) == c
  {
    ReadWordOf(key, rest, true);
    ReadFromUnfold(Open(key + rest), c);
    var (afterNumber, mem) := ReadU64(Open(rest));
    assert !afterNumber.ok;
    ReadFromUnfold(IgnoreThrough(afterNumber, '\n'), c);
  }

  /** On a file of well-formed lines, the reader applies the known lines in order. */
  lemma {:induction false} ReadLines(lines: seq<Line>, c: Counters)
    requires forall i :: 0 <= i < |lines| ==> WellFormedLine(lines[i])
    ensures ReadFrom(Open(Render(lines)), c) == ApplyLines(lines, c)
    decreases |lines|
  {
    if lines == [] {
      ReadFromUnfold(Open(""), c);
    } else {
      var l := lines[0];
      assert Render(lines) == RenderLine(l) + Render(lines[1..]);
      var c' := if l.key in AssignMap then Set(c, AssignMap[l.key], l.value) else c;
      if l.key in AssignMap {
        KnownLine(l, Render(lines[1..]), c);
      } else {
        OtherLine(l, Render(lines[1..]), c);
      }
      ReadLines(lines[1..], c');
    }
  }

  /** A counter no line is labelled for keeps its previous value. */
  lemma {:induction false} AbsentLabelKeepsValue(lines: seq<Line>, c: Counters, f: Field)
    requires forall i :: 0 <= i < |lines| ==> lines[i].key !in AssignMap || AssignMap[lines[i].key] != f
    ensures Get(ApplyLines(lines, c), f) == Get(c, f)
    decreases |lines|
  {
    if lines != [] {
      var l := lines[0];
      var c' := if l.key in AssignMap then Set(c, AssignMap[l.key], l.value) else c;
      AbsentLabelKeepsValue(lines[1..], c', f);
    }
  }

  /** A repeated key ends with the number of its last line. */
  lemma {:induction false} LastLabelWins(lines: seq<Line>, c: Counters, k: nat)
    requires k < |lines| && lines[k].key in AssignMap
    requires forall i :: k < i < |lines| ==>
      lines[i].key !in AssignMap || AssignMap[lines[i].key] != AssignMap[lines[k].key]
    ensures Get(ApplyLines(lines, c), AssignMap[lines[k].key]) == lines[k].value
    decreases k
  {
    var l := lines[0];
    var c' := if l.key in AssignMap then Set(c, AssignMap[l.key], l.value) else c;
    if k == 0 {
      AbsentLabelKeepsValue(lines[1..], c', AssignMap[l.key]);
    } else {
      LastLabelWins(lines[1..], c', k - 1);
    }
  }

  /** The size leaves carry the kB counters divided by 1024 (so in MB); the
      hugepage leaves carry their counters unscaled. */
  lemma PublishedCounters(c: Counters, f: Field)
    ensures Lookup(SetXpathValues(c), MemoryPath + LeafName(f))
      == Some(Count(if IsHugePageCounter(f) then Get(c, f) else Get(c, f) / 1024))
  {
    var k := Position(f);
    var out := Leaves(c);
    LeafNamesDistinct();
    assert forall i :: 0 <= i < k ==> out[i].path != out[k].path;
    LookupFirst(out, LeafName(f), k);
    LookupPrefixed(MemoryPath, out, LeafName(f));
  }

  /** usable-perc is published exactly when MemTotal is not 0, as the share
      of usable memory in it. */
  lemma PublishedUsablePerc(c: Counters)
    ensures Lookup(SetXpathValues(c), MemoryPath + "usable-perc")
      == if c.total != 0 then Some(Share(c.usable, c.total)) else None
  {
    var out := Leaves(c);
    var u := "usable-perc";
    LeafNamesDistinct();
    assert forall i :: 0 <= i < 12 ==> out[i].path != u;
    if c.total != 0 {
      LookupFirst(out, u, 12);
    } else {
      if c.swapTotal != 0 {
        assert out[12].path == "swap-free-perc";
      }
      LookupMissing(out, u);
    }
    LookupPrefixed(MemoryPath, out, u);
  }

  /** swap-free-perc is published exactly when SwapTotal is not 0, as the share
      of free swap in it. */
  lemma PublishedSwapFreePerc(c: Counters)
    ensures Lookup(SetXpathValues(c), MemoryPath + "swap-free-perc")
      == if c.swapTotal != 0 then Some(Share(c.swapFree, c.swapTotal)) else None
  {
    var out := Leaves(c);
    var s := "swap-free-perc";
    LeafNamesDistinct();
    assert forall i :: 0 <= i < 12 ==> out[i].path != s;
    if c.total != 0 {
      assert out[12].path == "usable-perc";
    }
    if c.swapTotal != 0 {
      LookupFirst(out, s, |out| - 1);
    } else {
      LookupMissing(out, s);
    }
    LookupPrefixed(MemoryPath, out, s);
  }

  /** The usage the monitor samples and the usable-perc leaf published from
      the same counters add up to 100. */
  lemma UsageComplementsUsablePerc(c: Counters)
    requires c.total != 0
    ensures var leaf := Lookup(SetXpathValues(c), MemoryPath + "usable-perc");
      && leaf.Some? && leaf.value.Share? && leaf.value.whole != 0
      && UsagePercent(c) + ShareValue(leaf.value) == 100.0
  {
    PublishedUsablePerc(c);
  }
}
