/** The filesystem table: the rows `df -T` and `df -i` print, paired line by
    line, with statvfs figures taking over where statvfs answers, emplaced
    into a map keyed by mount point, and the leaves each row publishes.

    The two df outputs are given as texts (None when the shell could not be
    started) and statvfs as a map from the mount points it answers for. */
module FilesystemStatistics {
  import opened Globals
  import opened Stream

  /** One row of the table (struct Filesystem); sizes are in blocks of
      `blocksize` KB, the percentages are long doubles in the source. */
  datatype Filesystem = Filesystem(
    name: string,
    mountPoint: string,
    fsType: string,
    totalBlocks: nat,
    usedBlocks: nat,
    availableBlocks: nat,
    blocksize: nat,
    inodeUsed: real,
    spaceUsed: real)

  /** A default-initialised Filesystem. */
  const Fresh := Filesystem("", "", "", 0, 0, 0, 1, 0.0, 0.0)

  /** The statvfs figures the reader uses. */
  datatype StatVfs = StatVfs(bsize: nat, blocks: nat, bfree: nat, files: nat, ffree: nat)

  /** The two temporary files the df commands write. */
  datatype DfOutput = DfOutput(blocks: string, inodes: string)

  /** `used * 100.0 / total`, and 0 when the total is 0. */
  function Percent(part: nat, whole: nat): (r: real)
    ensures whole == 0 ==> r == 0.0
    ensures whole != 0 ==> r * whole as real == part as real * 100.0
    ensures 0.0 <= r
    ensures part <= whole ==> r <= 100.0
  {
    if whole == 0 then 0.0
    else
      PercentBounds(part, whole);
      part as real * 100.0 / whole as real
  }

  function Or<T>(o: Option<T>, default: T): T {
    if o.Some? then o.value else default
  }

  // ---------------------------------------------------------------------
  // Filesystem::setXpathValues

  const FilesystemsPath := "/dt-metrics:system-metrics/filesystems/"

  /** The statistics container of one mount point. */
  function StatisticsPath(mountPoint: string): string {
    FilesystemsPath + "filesystem[mount-point='" + mountPoint + "']/statistics/"
  }

  const LeafNames: seq<string> :=
    ["name", "type", "total-blocks", "used-blocks", "avail-blocks", "blocksize", "space-used", "inode-used"]

  function LeafValues(fs: Filesystem): seq<Value> {
    [Text(fs.name), Text(fs.fsType), Count(fs.totalBlocks), Count(fs.usedBlocks),
     Count(fs.availableBlocks), Count(fs.blocksize), Amount(fs.spaceUsed), Amount(fs.inodeUsed)]
  }

  /** The eight leaves a row publishes, in the order it publishes them. */
  function SetXpathValues(fs: Filesystem): seq<Entry> {
    Prefixed(StatisticsPath(fs.mountPoint),
      seq(8, k requires 0 <= k < 8 => Entry(LeafNames[k], LeafValues(fs)[k])))
  }

  /** Each leaf is found under the row's own statistics path with the row's value. */
  lemma PublishedLeaf(fs: Filesystem, k: nat)
    requires k < 8
    ensures |SetXpathValues(fs)| == 8
    ensures Lookup(SetXpathValues(fs), StatisticsPath(fs.mountPoint) + LeafNames[k]) == Some(LeafValues(fs)[k])
  {
    var leaves := seq(8, k requires 0 <= k < 8 => Entry(LeafNames[k], LeafValues(fs)[k]));
    assert forall i :: 0 <= i < k ==> leaves[i].path != LeafNames[k];
    LookupFirst(leaves, LeafNames[k], k);
    LookupPrefixed(StatisticsPath(fs.mountPoint), leaves, LeafNames[k]);
  }

  /** Different mount points publish under different statistics paths. */
  lemma StatisticsPathInjective(a: string, b: string)
    ensures StatisticsPath(a) == StatisticsPath(b) <==> a == b
  {
    var p := FilesystemsPath + "filesystem[mount-point='";
    if StatisticsPath(a) == StatisticsPath(b) {
      assert |a| == |b|;
      assert a == StatisticsPath(a)[|p|..|p| + |a|];
      assert b == StatisticsPath(b)[|p|..|p| + |b|];
    }
  }

  // ---------------------------------------------------------------------
  // FilesystemStats::readFilesystemStats

  /** The two streams of the reading loop and the string `token`, which
      keeps its value from one pass to the next. */
  datatype Cursor = Cursor(file: IStream, inodes: IStream, token: string)

  function Size(c: Cursor): nat {
    |c.file.rest| + |c.inodes.rest|
  }

  /** Both files after their header line is ignored; `token` starts empty. */
  function Start(df: DfOutput): Cursor {
    Cursor(IgnoreThrough(Open(df.blocks), '\n'), IgnoreThrough(Open(df.inodes), '\n'), "")
  }

  /** The loop condition `file >> token || fileinodes >> inodesToken`: the
      cursor the body starts from, or None when both extractions fail.  The
      second is only tried when the first fails, and a failed extraction
      leaves `token` as it was. */
  function Condition(c: Cursor): (r: Option<Cursor>)
    ensures r.Some? ==> Size(r.value) < Size(c)
  {
    var (file, word) := ReadWord(c.file);
    if file.ok then Some(Cursor(file, c.inodes, word.value))
    else
      var (inodes, _) := ReadWord(c.inodes);
      if inodes.ok then Some(Cursor(file, inodes, c.token)) else None
  }

  /** What `file >> fs.type >> fs.totalBlocks >> fs.usedBlocks >>
      fs.availableBlocks >> token >> fs.mountPoint` stores, each None when
      its extraction left the target untouched. */
  datatype BlockFields = BlockFields(
    fsType: Option<string>, total: Option<nat>, used: Option<nat>,
    avail: Option<nat>, usePercent: Option<string>, mountPoint: Option<string>)

  function ReadBlockFields(st: IStream): (r: (IStream, BlockFields))
    ensures |r.0.rest| <= |st.rest|
  {
    var (s1, fsType) := ReadWord(st);
    var (s2, total) := ReadU64(s1);
    var (s3, used) := ReadU64(s2);
    var (s4, avail) := ReadU64(s3);
    var (s5, usePercent) := ReadWord(s4);
    var (s6, mountPoint) := ReadWord(s5);
    (s6, BlockFields(fsType, total, used, avail, usePercent, mountPoint))
  }

  /** What `fileinodes >> token >> inodesTotal >> inodesUsed` stores. */
  datatype InodeFields = InodeFields(name: Option<string>, total: Option<nat>, used: Option<nat>)

  function ReadInodeFields(st: IStream): (r: (IStream, InodeFields))
    ensures |r.0.rest| <= |st.rest|
  {
    var (s1, name) := ReadWord(st);
    var (s2, total) := ReadU64(s1);
    var (s3, used) := ReadU64(s2);
    (s3, InodeFields(name, total, used))
  }

  /** The row as df printed it: the fields read into a fresh Filesystem. */
  function Parsed(name: string, b: BlockFields): Filesystem {
    Fresh.(name := name, fsType := Or(b.fsType, Fresh.fsType), totalBlocks := Or(b.total, Fresh.totalBlocks),
      usedBlocks := Or(b.used, Fresh.usedBlocks), availableBlocks := Or(b.avail, Fresh.availableBlocks),
      mountPoint := Or(b.mountPoint, Fresh.mountPoint))
  }

  function StatvfsOf(statvfs: map<string, StatVfs>, mountPoint: string): Option<StatVfs> {
    if mountPoint in statvfs then Some(statvfs[mountPoint]) else None
  }

  /** The row once statvfs has had its say and both percentages are set. */
  function Measure(fs: Filesystem, inodesTotal: nat, inodesUsed: nat, vfs: Option<StatVfs>): Filesystem {
    match vfs
    case None =>
      fs.(inodeUsed := Percent(inodesUsed, inodesTotal), spaceUsed := Percent(fs.usedBlocks, fs.totalBlocks))
    case Some(v) =>
      var used := ToU64(v.blocks - v.bfree);
      fs.(blocksize := v.bsize / 1024, totalBlocks := v.blocks, availableBlocks := v.bfree, usedBlocks := used,
        inodeUsed := Percent(ToU64(v.files - v.ffree), v.files), spaceUsed := Percent(used, v.blocks))
  }

  /** One pass of the loop body, from the cursor the condition left: the row
      it emplaces and the cursor after both `ignore` calls. */
  function Pass(c: Cursor, statvfs: map<string, StatVfs>): (r: (Filesystem, Cursor))
    ensures Size(r.1) <= Size(c)
  {
    var (file, b) := ReadBlockFields(c.file);
    var (inodes, i) := ReadInodeFields(c.inodes);
    var fs := Parsed(c.token, b);
    var token := Or(i.name, Or(b.usePercent, c.token));
    (Measure(fs, Or(i.total, 0), Or(i.used, 0), StatvfsOf(statvfs, fs.mountPoint)),
     Cursor(IgnoreThrough(file, '\n'), IgnoreThrough(inodes, '\n'), token))
  }

  /** The rows the loop builds from a cursor on, in order. */
  function Rows(c: Cursor, statvfs: map<string, StatVfs>): seq<Filesystem>
    decreases Size(c)
  {
    match Condition(c)
    case None => []
    case Some(c1) =>
      var (fs, c2) := Pass(c1, statvfs);
      [fs] + Rows(c2, statvfs)
  }

  /** `fsMap.emplace(mountPoint, fs)`: an existing entry is left alone. */
  function Emplace(m: map<string, Filesystem>, fs: Filesystem): map<string, Filesystem> {
    if fs.mountPoint in m then m else m[fs.mountPoint := fs]
  }

  function EmplaceAll(m: map<string, Filesystem>, rows: seq<Filesystem>): map<string, Filesystem>
    decreases |rows|
  {
    if rows == [] then m else EmplaceAll(Emplace(m, rows[0]), rows[1..])
  }

  /** The table after readFilesystemStats; nothing happens when df could not be run. */
  function Read(m: map<string, Filesystem>, df: Option<DfOutput>, statvfs: map<string, StatVfs>): map<string, Filesystem> {
    if df.None? then m else EmplaceAll(m, Rows(Start(df.value), statvfs))
  }

  /** getUsage's lookup: the space use of a recorded mount point. */
  function Usage(m: map<string, Filesystem>, mountPoint: string): Option<real> {
    if mountPoint in m then Some(m[mountPoint].spaceUsed) else None
  }

  class FilesystemStats {
    var fsMap: map<string, Filesystem>

    constructor ()
      ensures fsMap == map[]
    {
      fsMap := map[];
    }

    method ReadFilesystemStats(df: Option<DfOutput>, statvfs: map<string, StatVfs>)
      modifies this
      ensures fsMap == Read(old(fsMap), df, statvfs)
    {
      if df.None? {
        return;
      }
      var c := Start(df.value);
      ghost var goal := Read(fsMap, df, statvfs);
      var more := true;
      while more
        invariant more ==> EmplaceAll(fsMap, Rows(c, statvfs)) == goal
        invariant !more ==> fsMap == goal
        decreases Size(c), more
      {
        var next := Condition(c);
        if next.None? {
          more := false;
        } else {
          var (fs, after) := Pass(next.value, statvfs);
          if fs.mountPoint !in fsMap {
            fsMap := fsMap[fs.mountPoint := fs];
          }
          c := after;
        }
      }
    }

    method GetUsage(mountPoint: string, df: Option<DfOutput>, statvfs: map<string, StatVfs>)
      returns (usage: Option<real>)
      modifies this
      ensures fsMap == Read(old(fsMap), df, statvfs)
      ensures usage == Usage(fsMap, mountPoint)
    {
      ReadFilesystemStats(df, statvfs);
      if mountPoint in fsMap {
        usage := Some(fsMap[mountPoint].spaceUsed);
      } else {
        usage := None;
      }
    }
  }

  // ---------------------------------------------------------------------
  // The map only grows, and an entry is never replaced.

  /** A recorded mount point keeps its entry through any later rows. */
  lemma {:induction false} EmplaceAllKeeps(m: map<string, Filesystem>, rows: seq<Filesystem>, k: string)
    requires k in m
    ensures k in EmplaceAll(m, rows) && EmplaceAll(m, rows)[k] == m[k]
    decreases |rows|
  {
    if rows != [] {
      EmplaceAllKeeps(Emplace(m, rows[0]), rows[1..], k);
    }
  }

  /** A new mount point gets the first row that names it. */
  lemma {:induction false} EmplaceAllFirst(m: map<string, Filesystem>, rows: seq<Filesystem>, k: string, i: nat)
    requires k !in m && i < |rows| && rows[i].mountPoint == k
    requires forall j :: 0 <= j < i ==> rows[j].mountPoint != k
    ensures k in EmplaceAll(m, rows) && EmplaceAll(m, rows)[k] == rows[i]
    decreases i
  {
    if i == 0 {
      EmplaceAllKeeps(Emplace(m, rows[0]), rows[1..], k);
    } else {
      assert rows[0].mountPoint != k;
      EmplaceAllFirst(Emplace(m, rows[0]), rows[1..], k, i - 1);
    }
  }

  /** A mount point that neither the map nor any row names stays absent. */
  lemma {:induction false} EmplaceAllAbsent(m: map<string, Filesystem>, rows: seq<Filesystem>, k: string)
    requires k !in m
    requires forall j :: 0 <= j < |rows| ==> rows[j].mountPoint != k
    ensures k !in EmplaceAll(m, rows)
    decreases |rows|
  {
    if rows != [] {
      assert rows[0].mountPoint != k;
      EmplaceAllAbsent(Emplace(m, rows[0]), rows[1..], k);
    }
  }

  /** getUsage answers None exactly for a mount point that was never
      recorded, and a recorded one keeps the space use it was first stored with. */
  lemma UsageAfterRead(m: map<string, Filesystem>, out: DfOutput, statvfs: map<string, StatVfs>,
      rows: seq<Filesystem>, mountPoint: string)
    requires rows == Rows(Start(out), statvfs)
    ensures mountPoint in m ==> Usage(Read(m, Some(out), statvfs), mountPoint) == Some(m[mountPoint].spaceUsed)
    ensures Usage(Read(m, Some(out), statvfs), mountPoint).None? <==>
      mountPoint !in m && forall j :: 0 <= j < |rows| ==> rows[j].mountPoint != mountPoint
  {
    UsageAfterRows(m, rows, mountPoint);
  }

  lemma UsageAfterRows(m: map<string, Filesystem>, rows: seq<Filesystem>, mountPoint: string)
    ensures mountPoint in m ==> Usage(EmplaceAll(m, rows), mountPoint) == Some(m[mountPoint].spaceUsed)
    ensures Usage(EmplaceAll(m, rows), mountPoint).None? <==>
      mountPoint !in m && forall j :: 0 <= j < |rows| ==> rows[j].mountPoint != mountPoint
  {
    if mountPoint in m {
      EmplaceAllKeeps(m, rows, mountPoint);
    } else if j :| 0 <= j < |rows| && rows[j].mountPoint == mountPoint {
      var i := FirstNaming(rows, mountPoint, j);
      EmplaceAllFirst(m, rows, mountPoint, i);
    } else {
      EmplaceAllAbsent(m, rows, mountPoint);
    }
  }

  /** The first row naming a mount point, given one that does. */
  ghost function FirstNaming(rows: seq<Filesystem>, k: string, j: nat): (i: nat)
    requires j < |rows| && rows[j].mountPoint == k
    ensures i <= j && rows[i].mountPoint == k
    ensures forall l :: 0 <= l < i ==> rows[l].mountPoint != k
  {
    if exists l :: 0 <= l < j && rows[l].mountPoint == k then
      var l :| 0 <= l < j && rows[l].mountPoint == k;
      FirstNaming(rows, k, l)
    else j
  }

  // ---------------------------------------------------------------------
  // What statvfs and the zero guards do to a row.

  /** Without statvfs the df figures stay, the block size keeps its default
      of 1 KB, and both percentages are guarded against a zero total. */
  lemma MeasureWithoutStatvfs(name: string, b: BlockFields, inodesTotal: nat, inodesUsed: nat)
    ensures var fs := Measure(Parsed(name, b), inodesTotal, inodesUsed, None);
      && fs.blocksize == 1
      && fs.totalBlocks == Or(b.total, 0) && fs.usedBlocks == Or(b.used, 0) && fs.availableBlocks == Or(b.avail, 0)
      && (fs.totalBlocks == 0 ==> fs.spaceUsed == 0.0)
      && (fs.totalBlocks != 0 ==> fs.spaceUsed * fs.totalBlocks as real == fs.usedBlocks as real * 100.0)
      && (inodesTotal == 0 ==> fs.inodeUsed == 0.0)
      && (inodesTotal != 0 ==> fs.inodeUsed * inodesTotal as real == inodesUsed as real * 100.0)
  {
  }

  /** With statvfs its figures replace df's: the block size in KB, used as
      total minus free in unsigned arithmetic; when free does not exceed the
      total, used and available add up to the total and the space use is a
      percentage between 0 and 100. */
  lemma MeasureWithStatvfs(fs: Filesystem, inodesTotal: nat, inodesUsed: nat, v: StatVfs)
    requires v.blocks < TWO_64 && v.bfree < TWO_64
    ensures var r := Measure(fs, inodesTotal, inodesUsed, Some(v));
      && r.name == fs.name && r.mountPoint == fs.mountPoint && r.fsType == fs.fsType
      && r.blocksize == v.bsize / 1024
      && r.totalBlocks == v.blocks && r.availableBlocks == v.bfree
      && r.usedBlocks == Sub64(v.blocks, v.bfree)
      && (v.bfree <= v.blocks ==> r.usedBlocks + r.availableBlocks == r.totalBlocks && 0.0 <= r.spaceUsed <= 100.0)
      && (v.files == 0 ==> r.inodeUsed == 0.0)
  {
  }

  // ---------------------------------------------------------------------
  // Reading df output of the usual shape.

  /** A data line of `df -T`: Filesystem, Type, 1K-blocks, Used, Available,
      Use%, Mounted on, and whatever else the line holds. */
  datatype DfLine = DfLine(name: string, fsType: string, total: nat, used: nat, avail: nat,
    usePercent: string, mountPoint: string, extra: string)

  /** A data line of `df -i`: Filesystem, Inodes, IUsed, and the rest of the line. */
  datatype InodeLine = InodeLine(name: string, total: nat, used: nat, extra: string)

  /** The rest of a line after its last field: empty or starting with a blank, no newline. */
  predicate LineRest(extra: string) {
    '\n' !in extra && (extra == [] || IsSpace(extra[0]))
  }

  predicate WellFormedDf(l: DfLine) {
    IsWord(l.name) && IsWord(l.fsType) && IsWord(l.usePercent) && IsWord(l.mountPoint)
    && l.total <= U64_MAX && l.used <= U64_MAX && l.avail <= U64_MAX && LineRest(l.extra)
  }

  predicate WellFormedInode(q: InodeLine) {
    IsWord(q.name) && q.total <= U64_MAX && q.used <= U64_MAX && LineRest(q.extra)
  }

  /** A `df -T` line after its first field, followed by the text r. */
  function DfFields(l: DfLine, r: string): string {
    " " + (l.fsType + (" " + (NatToString(l.total) + (" " + (NatToString(l.used) + (" " + (NatToString(l.avail)
      + (" " + (l.usePercent + (" " + (l.mountPoint + (l.extra + ("\n" + r)))))))))))))
  }

  function DfTable(ls: seq<DfLine>): string {
    if ls == [] then "" else ls[0].name + DfFields(ls[0], DfTable(ls[1..]))
  }

  /** A `df -i` line followed by the text r. */
  function InodeLineThen(q: InodeLine, r: string): string {
    q.name + (" " + (NatToString(q.total) + (" " + (NatToString(q.used) + (q.extra + ("\n" + r))))))
  }

  function InodeTable(qs: seq<InodeLine>): string {
    if qs == [] then "" else InodeLineThen(qs[0], InodeTable(qs[1..]))
  }

  /** The row a pair of lines makes. */
  function Row(l: DfLine, q: InodeLine, statvfs: map<string, StatVfs>): Filesystem {
    Measure(Fresh.(name := l.name, fsType := l.fsType, totalBlocks := l.total, usedBlocks := l.used,
        availableBlocks := l.avail, mountPoint := l.mountPoint),
      q.total, q.used, StatvfsOf(statvfs, l.mountPoint))
  }

  /** The rows of the line pairs, the i-th from the i-th line of each file. */
  function Paired(ls: seq<DfLine>, qs: seq<InodeLine>, statvfs: map<string, StatVfs>): (rows: seq<Filesystem>)
    requires |ls| == |qs|
    ensures |rows| == |ls|
    ensures forall i :: 0 <= i < |ls| ==> rows[i] == Row(ls[i], qs[i], statvfs)
  {
    if ls == [] then [] else [Row(ls[0], qs[0], statvfs)] + Paired(ls[1..], qs[1..], statvfs)
  }

  lemma ReadBlockFieldsOf(l: DfLine, r: string)
    requires WellFormedDf(l)
    ensures ReadBlockFields(Open(DfFields(l, r))) == (Open(l.extra + ("\n" + r)),
      BlockFields(Some(l.fsType), Some(l.total), Some(l.used), Some(l.avail), Some(l.usePercent), Some(l.mountPoint)))
  {
    var t6 := l.extra + ("\n" + r);
    var t5 := " " + (l.mountPoint + t6);
    var t4 := " " + (l.usePercent + t5);
    var t3 := " " + (NatToString(l.avail) + t4);
    var t2 := " " + (NatToString(l.used) + t3);
    var t1 := " " + (NatToString(l.total) + t2);
    assert t6[0] == if l.extra == [] then '\n' else l.extra[0];
    ReadWordAfterSpace(' ', l.fsType, t1);
    ReadU64AfterSpace(' ', l.total, t2);
    ReadU64AfterSpace(' ', l.used, t3);
    ReadU64AfterSpace(' ', l.avail, t4);
    ReadWordAfterSpace(' ', l.usePercent, t5);
    ReadWordAfterSpace(' ', l.mountPoint, t6);
  }

  lemma ReadInodeFieldsOf(q: InodeLine, r: string)
    requires WellFormedInode(q)
    ensures ReadInodeFields(Open(InodeLineThen(q, r))) == (Open(q.extra + ("\n" + r)), InodeFields(Some(q.name), Some(q.total), Some(q.used)))
  {
    var t3 := q.extra + ("\n" + r);
    var t2 := " " + (NatToString(q.used) + t3);
    var t1 := " " + (NatToString(q.total) + t2);
    assert t3[0] == if q.extra == [] then '\n' else q.extra[0];
    ReadWordOf(q.name, t1, true);
    ReadU64AfterSpace(' ', q.total, t2);
    ReadU64AfterSpace(' ', q.used, t3);
  }

  /** One pair of lines, read by the condition and one pass of the body,
      makes the row of that pair and moves both files to their next line. */
  lemma PassOfLines(ls: seq<DfLine>, qs: seq<InodeLine>, token: string, statvfs: map<string, StatVfs>)
    requires ls != [] && qs != [] && WellFormedDf(ls[0]) && WellFormedInode(qs[0])
    ensures Condition(Cursor(Open(DfTable(ls)), Open(InodeTable(qs)), token)).Some?
    ensures Pass(Condition(Cursor(Open(DfTable(ls)), Open(InodeTable(qs)), token)).value, statvfs)
      == (Row(ls[0], qs[0], statvfs), Cursor(Open(DfTable(ls[1..])), Open(InodeTable(qs[1..])), qs[0].name))
  {
    var l, q := ls[0], qs[0];
    var after := DfFields(l, DfTable(ls[1..]));
    ReadWordOf(l.name, after, true);
    assert Condition(Cursor(Open(DfTable(ls)), Open(InodeTable(qs)), token))
      == Some(Cursor(Open(after), Open(InodeTable(qs)), l.name));
    ReadBlockFieldsOf(l, DfTable(ls[1..]));
    ReadInodeFieldsOf(q, InodeTable(qs[1..]));
    IgnoreRest(l.extra, DfTable(ls[1..]));
    IgnoreRest(q.extra, InodeTable(qs[1..]));
  }

  /** The i-th data line of `df -T` is paired with the i-th data line of `df -i`. */
  lemma {:induction false} RowsOfTables(ls: seq<DfLine>, qs: seq<InodeLine>, token: string, statvfs: map<string, StatVfs>)
    requires |ls| == |qs|
    requires forall i :: 0 <= i < |ls| ==> WellFormedDf(ls[i]) && WellFormedInode(qs[i])
    ensures Rows(Cursor(Open(DfTable(ls)), Open(InodeTable(qs)), token), statvfs)
      == Paired(ls, qs, statvfs)
    decreases |ls|
  {
    if ls == [] {
      assert Condition(Cursor(Open(""), Open(""), token)) == None;
    } else {
      RowsOfLines(ls, qs, token, statvfs);
      RowsOfTables(ls[1..], qs[1..], qs[0].name, statvfs);
    }
  }

  lemma RowsOfLines(ls: seq<DfLine>, qs: seq<InodeLine>, token: string, statvfs: map<string, StatVfs>)
    requires ls != [] && qs != [] && WellFormedDf(ls[0]) && WellFormedInode(qs[0])
    ensures Rows(Cursor(Open(DfTable(ls)), Open(InodeTable(qs)), token), statvfs)
      == [Row(ls[0], qs[0], statvfs)] + Rows(Cursor(Open(DfTable(ls[1..])), Open(InodeTable(qs[1..])), qs[0].name), statvfs)
  {
    PassOfLines(ls, qs, token, statvfs);
    RowsUnfold(Cursor(Open(DfTable(ls)), Open(InodeTable(qs)), token), statvfs);
  }

  lemma RowsUnfold(c: Cursor, statvfs: map<string, StatVfs>)
    requires Condition(c).Some?
    ensures Rows(c, statvfs) == [Pass(Condition(c).value, statvfs).0] + Rows(Pass(Condition(c).value, statvfs).1, statvfs)
  {
  }

  /** With one header line in each file, readFilesystemStats emplaces the
      rows of the paired lines in order. */
  lemma ReadTables(m: map<string, Filesystem>, h1: string, ls: seq<DfLine>, h2: string, qs: seq<InodeLine>,
      statvfs: map<string, StatVfs>)
    requires '\n' !in h1 && '\n' !in h2 && |ls| == |qs|
    requires forall i :: 0 <= i < |ls| ==> WellFormedDf(ls[i]) && WellFormedInode(qs[i])
    ensures Read(m, Some(DfOutput(h1 + ("\n" + DfTable(ls)), h2 + ("\n" + InodeTable(qs)))), statvfs)
      == EmplaceAll(m, Paired(ls, qs, statvfs))
  {
    IgnoreRest(h1, DfTable(ls));
    IgnoreRest(h2, InodeTable(qs));
    RowsOfTables(ls, qs, "", statvfs);
  }
}
