/** The threshold configuration as populateConfigData sees it: the nodes of
    the configuration data tree in the order tree_for and tree_dfs visit
    them, and the two walks over them (memory and filesystems), each as a
    step function over the walk's local state. */
module MonitorConfig {
  import opened Globals

  /** A YANG decimal64: `units / 10^digits`. */
  datatype Dec64 = Dec64(units: int, digits: nat)

  /** The typed value of a leaf, as far as the walks read it. */
  datatype LeafValue = Decimal(d: Dec64) | Unsigned(n: nat) | Str

  /** A data node, classified by the nodetype of its schema node. */
  datatype Node =
    | ListNode(name: string)                                        // LYS_LIST
    | Leaf(name: string, isKey: bool, text: string, value: LeafValue) // LYS_LEAF; text is value_str()
    | OtherNode                                                     // any other nodetype

  function Pow10(n: nat): (r: nat)
    ensures r >= 1
  {
    if n == 0 then 1 else 10 * Pow10(n - 1)
  }

  /** `dec64().value / pow(10, dec64().digits)`, without the rounding of the double. */
  function DecimalOf(d: Dec64): real {
    d.units as real / Pow10(d.digits) as real
  }

  /** A threshold whose key leaf has been seen and which is not yet committed. */
  datatype Pending = Pending(name: string, value: real)

  /** `map[threshold->first] = threshold->second`. */
  function Commit(m: map<string, real>, t: Pending): map<string, real> {
    m[t.name := t.value]
  }

  predicate IsKeyLeaf(n: Node) {
    n.Leaf? && n.isKey
  }

  predicate IsPollLeaf(n: Node) {
    n.Leaf? && n.name == "poll-interval"
  }

  /** A poll-interval leaf holds a uint32. */
  predicate PollTyped(n: Node) {
    IsPollLeaf(n) ==> n.value.Unsigned? && n.value.n < TWO_32
  }

  /** No node of the run is a poll-interval leaf. */
  predicate NoPollLeaf(nodes: seq<Node>) {
    forall i :: 0 <= i < |nodes| ==> !IsPollLeaf(nodes[i])
  }

  // ---------------------------------------------------------------------
  // MemoryMonitoring::populateConfigData

  /** The walk's state: the pending threshold, the map being rebuilt and pollInterval. */
  datatype MemoryWalk = MemoryWalk(threshold: Option<Pending>, thresholds: map<string, real>, poll: nat)

  /** The leaves the memory walk reads with dec64(): non-key leaves named "value". */
  predicate IsMemoryValueLeaf(n: Node) {
    n.Leaf? && !n.isKey && n.name == "value"
  }

  predicate MemoryTyped(n: Node) {
    PollTyped(n) && (IsMemoryValueLeaf(n) ==> n.value.Decimal?)
  }

  /** A step is defined unless it writes through a null pending threshold. */
  predicate MemoryStepDefined(w: MemoryWalk, n: Node) {
    MemoryTyped(n) && (IsMemoryValueLeaf(n) ==> w.threshold.Some?)
  }

  function MemoryStep(w: MemoryWalk, n: Node): MemoryWalk
    requires MemoryStepDefined(w, n)
  {
    match n
    case ListNode(name) =>
      if name == "threshold" && w.threshold.Some? then w.(thresholds := Commit(w.thresholds, w.threshold.value)) else w
    case Leaf(name, isKey, text, value) =>
      var threshold :=
        if isKey then Some(Pending(text, 0.0))
        else if name == "value" then Some(w.threshold.value.(value := DecimalOf(value.d)))
        else w.threshold;
      MemoryWalk(threshold, w.thresholds, if name == "poll-interval" then value.n else w.poll)
    case OtherNode => w
  }

  predicate MemorySafe(w: MemoryWalk, nodes: seq<Node>)
    decreases |nodes|
  {
    nodes == [] || (MemoryStepDefined(w, nodes[0]) && MemorySafe(MemoryStep(w, nodes[0]), nodes[1..]))
  }

  function MemoryWalkFrom(w: MemoryWalk, nodes: seq<Node>): MemoryWalk
    requires MemorySafe(w, nodes)
    decreases |nodes|
  {
    if nodes == [] then w else MemoryWalkFrom(MemoryStep(w, nodes[0]), nodes[1..])
  }

  /** The commit after the walk: a pending threshold is stored. */
  function MemoryEnd(w: MemoryWalk): map<string, real> {
    if w.threshold.Some? then Commit(w.thresholds, w.threshold.value) else w.thresholds
  }

  /** What the source demands of the nodes: typed leaves, and no "value"
      leaf before the first key leaf (it would write through a null pointer). */
  predicate MemoryNodesValid(nodes: seq<Node>) {
    && (forall i :: 0 <= i < |nodes| ==> MemoryTyped(nodes[i]))
    && (forall i :: 0 <= i < |nodes| && IsMemoryValueLeaf(nodes[i]) ==> exists j :: 0 <= j < i && IsKeyLeaf(nodes[j]))
  }

  /** The walk starts with no threshold, an emptied map and the poll interval it had. */
  function MemoryStart(poll: nat): MemoryWalk {
    MemoryWalk(None, map[], poll)
  }

  /** The thresholds and poll interval after populateConfigData. */
  function MemoryConfig(nodes: seq<Node>, poll: nat): (r: (map<string, real>, nat))
    requires MemorySafe(MemoryStart(poll), nodes)
  {
    var w := MemoryWalkFrom(MemoryStart(poll), nodes);
    (MemoryEnd(w), w.poll)
  }

  /** Valid nodes never write through a null pending threshold. */
  lemma {:induction false} MemoryNodesSafe(w: MemoryWalk, nodes: seq<Node>)
    requires forall i :: 0 <= i < |nodes| ==> MemoryTyped(nodes[i])
    requires forall i :: 0 <= i < |nodes| && IsMemoryValueLeaf(nodes[i]) ==>
      w.threshold.Some? || exists j :: 0 <= j < i && IsKeyLeaf(nodes[j])
    ensures MemorySafe(w, nodes)
    decreases |nodes|
  {
    if nodes != [] {
      var w' := MemoryStep(w, nodes[0]);
      assert w'.threshold.Some? <== w.threshold.Some? || IsKeyLeaf(nodes[0]);
      forall i | 0 <= i < |nodes[1..]| && IsMemoryValueLeaf(nodes[1..][i])
        ensures w'.threshold.Some? || exists j :: 0 <= j < i && IsKeyLeaf(nodes[1..][j])
      {
        assert IsMemoryValueLeaf(nodes[i + 1]);
        if !w.threshold.Some? {
          var j :| 0 <= j < i + 1 && IsKeyLeaf(nodes[j]);
          if j > 0 {
            assert IsKeyLeaf(nodes[1..][j - 1]);
          }
        }
      }
      MemoryNodesSafe(w', nodes[1..]);
    }
  }

  /** The poll interval changes only at a poll-interval leaf. */
  lemma {:induction false} MemoryPollKept(w: MemoryWalk, nodes: seq<Node>)
    requires MemorySafe(w, nodes) && NoPollLeaf(nodes)
    ensures MemoryWalkFrom(w, nodes).poll == w.poll
    decreases |nodes|
  {
    if nodes != [] {
      assert !IsPollLeaf(nodes[0]);
      assert NoPollLeaf(nodes[1..]) by {
        forall i | 0 <= i < |nodes[1..]| ensures !IsPollLeaf(nodes[1..][i]) {
          assert nodes[1..][i] == nodes[i + 1];
        }
      }
      MemoryPollKept(MemoryStep(w, nodes[0]), nodes[1..]);
    }
  }

  /** After the walk the poll interval is that of the last poll-interval leaf. */
  lemma {:induction false} MemoryPollLast(w: MemoryWalk, nodes: seq<Node>, i: nat)
    requires MemorySafe(w, nodes)
    requires i < |nodes| && IsPollLeaf(nodes[i]) && nodes[i].value.Unsigned? && NoPollLeaf(nodes[i + 1..])
    ensures MemoryWalkFrom(w, nodes).poll == nodes[i].value.n
    decreases i
  {
    var w' := MemoryStep(w, nodes[0]);
    if i == 0 {
      assert nodes[1..] == nodes[i + 1..];
      MemoryPollKept(w', nodes[1..]);
    } else {
      assert nodes[1..][i - 1 + 1..] == nodes[i + 1..];
      MemoryPollLast(w', nodes[1..], i - 1);
    }
  }

  /** Every key the walk stores is the value of some key leaf of the walk:
      nothing survives from before the reload. */
  lemma {:induction false} MemoryKeysFromNodes(w: MemoryWalk, nodes: seq<Node>, k: string)
    requires MemorySafe(w, nodes)
    requires k in MemoryEnd(MemoryWalkFrom(w, nodes))
    ensures k in MemoryEnd(w) || exists i :: 0 <= i < |nodes| && IsKeyLeaf(nodes[i]) && nodes[i].text == k
    decreases |nodes|
  {
    if nodes != [] {
      var w' := MemoryStep(w, nodes[0]);
      MemoryKeysFromNodes(w', nodes[1..], k);
      if k in MemoryEnd(w') {
        if !IsKeyLeaf(nodes[0]) {
          assert MemoryEnd(w').Keys <= MemoryEnd(w).Keys;
        }
      } else {
        var i :| 0 <= i < |nodes[1..]| && IsKeyLeaf(nodes[1..][i]) && nodes[1..][i].text == k;
        assert nodes[i + 1] == nodes[1..][i];
      }
    }
  }

  /** The memory map populateConfigData builds holds only keys named in the nodes. */
  lemma MemoryReplaces(nodes: seq<Node>, poll: nat, k: string)
    requires MemorySafe(MemoryStart(poll), nodes)
    requires k in MemoryConfig(nodes, poll).0
    ensures exists i :: 0 <= i < |nodes| && IsKeyLeaf(nodes[i]) && nodes[i].text == k
  {
    MemoryKeysFromNodes(MemoryStart(poll), nodes, k);
  }

  /** The walk's poll interval: the last poll-interval leaf's, or the one before the walk. */
  lemma MemoryPoll(nodes: seq<Node>, poll: nat)
    requires MemorySafe(MemoryStart(poll), nodes)
    ensures NoPollLeaf(nodes) ==> MemoryConfig(nodes, poll).1 == poll
    ensures forall i :: 0 <= i < |nodes| && IsPollLeaf(nodes[i]) && nodes[i].value.Unsigned? && NoPollLeaf(nodes[i + 1..]) ==>
      MemoryConfig(nodes, poll).1 == nodes[i].value.n
  {
    if NoPollLeaf(nodes) {
      MemoryPollKept(MemoryStart(poll), nodes);
    }
    forall i | 0 <= i < |nodes| && IsPollLeaf(nodes[i]) && nodes[i].value.Unsigned? && NoPollLeaf(nodes[i + 1..])
      ensures MemoryConfig(nodes, poll).1 == nodes[i].value.n
    {
      MemoryPollLast(MemoryStart(poll), nodes, i);
    }
  }

  // ---------------------------------------------------------------------
  // The memory walk over configuration of the usual shape.

  /** One entry of a threshold list: its key and, when set, its value. */
  datatype ThresholdEntry = ThresholdEntry(name: string, value: Option<Dec64>)

  /** The value a committed entry carries: its own, or the 0 a fresh pending threshold starts with. */
  function EntryValue(e: ThresholdEntry): real {
    if e.value.Some? then DecimalOf(e.value.value) else 0.0
  }

  /** The nodes of one list entry in depth-first order: the list node, its key leaf, its value leaf. */
  function EntryNodes(e: ThresholdEntry): seq<Node> {
    [ListNode("threshold"), Leaf("name", true, e.name, Str)]
      + (if e.value.Some? then [Leaf("value", false, "", Decimal(e.value.value))] else [])
  }

  function EntriesNodes(es: seq<ThresholdEntry>): seq<Node> {
    if es == [] then [] else EntryNodes(es[0]) + EntriesNodes(es[1..])
  }

  function PollNodes(poll: Option<nat>): seq<Node> {
    if poll.Some? then [Leaf("poll-interval", false, "", Unsigned(poll.value))] else []
  }

  /** The memory configuration: the system-metrics and memory containers,
      an optional poll-interval leaf and the threshold list. */
  function MemoryNodes(poll: Option<nat>, es: seq<ThresholdEntry>): seq<Node> {
    [OtherNode, OtherNode] + PollNodes(poll) + EntriesNodes(es)
  }

  /** The entries stored one after the other into m. */
  function Store(m: map<string, real>, es: seq<ThresholdEntry>): map<string, real>
    decreases |es|
  {
    if es == [] then m else Store(m[es[0].name := EntryValue(es[0])], es[1..])
  }

  /** A name keeps the value of its last entry. */
  lemma {:induction false} StoreLast(m: map<string, real>, es: seq<ThresholdEntry>, k: string, i: nat)
    requires i < |es| && es[i].name == k
    requires forall j :: i < j < |es| ==> es[j].name != k
    ensures k in Store(m, es) && Store(m, es)[k] == EntryValue(es[i])
    decreases |es|
  {
    var m' := m[es[0].name := EntryValue(es[0])];
    if i == 0 {
      StoreAbsent(m', es[1..], k);
    } else {
      StoreLast(m', es[1..], k, i - 1);
    }
  }

  /** A name no entry has keeps what m holds for it. */
  lemma {:induction false} StoreAbsent(m: map<string, real>, es: seq<ThresholdEntry>, k: string)
    requires forall j :: 0 <= j < |es| ==> es[j].name != k
    ensures k in Store(m, es) <==> k in m
    ensures k in m ==> Store(m, es)[k] == m[k]
    decreases |es|
  {
    if es != [] {
      assert es[0].name != k;
      StoreAbsent(m[es[0].name := EntryValue(es[0])], es[1..], k);
    }
  }

  lemma {:induction false} MemoryWalkJoin(w: MemoryWalk, a: seq<Node>, b: seq<Node>)
    requires MemorySafe(w, a) && MemorySafe(MemoryWalkFrom(w, a), b)
    ensures MemorySafe(w, a + b) && MemoryWalkFrom(w, a + b) == MemoryWalkFrom(MemoryWalkFrom(w, a), b)
    decreases |a|
  {
    if a == [] {
      assert a + b == b;
    } else {
      assert (a + b)[0] == a[0] && (a + b)[1..] == a[1..] + b;
      MemoryWalkJoin(MemoryStep(w, a[0]), a[1..], b);
    }
  }

  lemma MemoryWalkCons(w: MemoryWalk, n: Node, rest: seq<Node>)
    requires MemoryStepDefined(w, n) && MemorySafe(MemoryStep(w, n), rest)
    ensures MemorySafe(w, [n] + rest) && MemoryWalkFrom(w, [n] + rest) == MemoryWalkFrom(MemoryStep(w, n), rest)
  {
    assert ([n] + rest)[0] == n && ([n] + rest)[1..] == rest;
  }

  /** One entry commits the threshold pending before it and leaves its own pending. */
  lemma MemoryWalkEntry(w: MemoryWalk, e: ThresholdEntry)
    ensures MemorySafe(w, EntryNodes(e))
    ensures MemoryWalkFrom(w, EntryNodes(e)) == MemoryWalk(Some(Pending(e.name, EntryValue(e))), MemoryEnd(w), w.poll)
  {
    var list, key := ListNode("threshold"), Leaf("name", true, e.name, Str);
    var tail: seq<Node> := if e.value.Some? then [Leaf("value", false, "", Decimal(e.value.value))] else [];
    var w1 := MemoryStep(w, list);
    var w2 := MemoryStep(w1, key);
    if e.value.Some? {
      MemoryWalkCons(w2, tail[0], []);
      assert [tail[0]] + [] == tail;
    }
    MemoryWalkCons(w1, key, tail);
    MemoryWalkCons(w, list, [key] + tail);
    assert EntryNodes(e) == [list] + ([key] + tail);
  }

  /** The entries leave the committed map equal to storing them all in order. */
  lemma {:induction false} MemoryWalkEntries(w: MemoryWalk, es: seq<ThresholdEntry>)
    ensures MemorySafe(w, EntriesNodes(es))
    ensures MemoryEnd(MemoryWalkFrom(w, EntriesNodes(es))) == Store(MemoryEnd(w), es)
    ensures MemoryWalkFrom(w, EntriesNodes(es)).poll == w.poll
    decreases |es|
  {
    if es != [] {
      MemoryWalkEntry(w, es[0]);
      var w1 := MemoryWalkFrom(w, EntryNodes(es[0]));
      MemoryWalkEntries(w1, es[1..]);
      MemoryWalkJoin(w, EntryNodes(es[0]), EntriesNodes(es[1..]));
    }
  }

  /** On configuration of the usual shape populateConfigData stores each
      threshold name with the value of its last entry (0 when the entry sets
      none), drops whatever the map held before, and takes the poll
      interval from the configuration or keeps the one it had. */
  lemma MemoryConfigOfEntries(poll: Option<nat>, es: seq<ThresholdEntry>, p: nat)
    requires poll.Some? ==> poll.value < TWO_32
    ensures MemorySafe(MemoryStart(p), MemoryNodes(poll, es))
    ensures MemoryConfig(MemoryNodes(poll, es), p) == (Store(map[], es), if poll.Some? then poll.value else p)
  {
    var head := [OtherNode, OtherNode] + PollNodes(poll);
    var w := MemoryStart(p);
    var w1 := MemoryWalk(None, map[], if poll.Some? then poll.value else p);
    assert MemorySafe(w, head) && MemoryWalkFrom(w, head) == w1 by {
      var polls := PollNodes(poll);
      if poll.Some? {
        MemoryWalkCons(w, polls[0], []);
        assert [polls[0]] + [] == polls;
      }
      MemoryWalkCons(w, OtherNode, polls);
      MemoryWalkCons(w, OtherNode, [OtherNode] + polls);
      assert head == [OtherNode] + ([OtherNode] + polls);
    }
    MemoryWalkEntries(w1, es);
    MemoryWalkJoin(w, head, EntriesNodes(es));
  }

  // ---------------------------------------------------------------------
  // FilesystemMonitoring::populateConfigData

  /** The poll interval and thresholds stored for one mount point. */
  datatype FsGroup = FsGroup(poll: nat, thresholds: map<string, real>)

  /** The walk's state: the locals thresholdMap, threshold, mountPoint and
      poll, and the table being rebuilt. */
  datatype FsWalk = FsWalk(thresholdMap: map<string, real>, threshold: Option<Pending>, mountPoint: string,
    poll: nat, table: map<string, FsGroup>)

  predicate IsMountPointKey(n: Node) {
    n.Leaf? && n.isKey && n.name == "mount-point"
  }

  /** The leaves the filesystem walk reads with dec64(): any leaf named
      "value", a key one included. */
  predicate IsFsValueLeaf(n: Node) {
    n.Leaf? && n.name == "value"
  }

  predicate FsStepDefined(w: FsWalk, n: Node) {
    PollTyped(n) && (IsFsValueLeaf(n) ==> n.value.Decimal? && w.threshold.Some?)
  }

  /** The thresholds collected for the current mount point, the pending one included. */
  function Collected(w: FsWalk): map<string, real> {
    if w.threshold.Some? then Commit(w.thresholdMap, w.threshold.value) else w.thresholdMap
  }

  /** The table once the current mount point is stored, if it collected any threshold. */
  function Flushed(w: FsWalk): map<string, FsGroup> {
    if Collected(w) != map[] then w.table[w.mountPoint := FsGroup(w.poll, Collected(w))] else w.table
  }

  function FsStep(w: FsWalk, n: Node): FsWalk
    requires FsStepDefined(w, n)
  {
    match n
    case ListNode(name) =>
      if name == "threshold" && w.threshold.Some? then w.(thresholdMap := Commit(w.thresholdMap, w.threshold.value)) else w
    case Leaf(name, isKey, text, value) =>
      var w1 :=
        if isKey && name == "mount-point" then FsWalk(map[], None, text, w.poll, Flushed(w))
        else if isKey && name == "name" then w.(threshold := Some(Pending(text, 0.0)))
        else if name == "value" then w.(threshold := Some(w.threshold.value.(value := DecimalOf(value.d))))
        else w;
      if name == "poll-interval" then w1.(poll := value.n) else w1
    case OtherNode => w
  }

  predicate FsSafe(w: FsWalk, nodes: seq<Node>)
    decreases |nodes|
  {
    nodes == [] || (FsStepDefined(w, nodes[0]) && FsSafe(FsStep(w, nodes[0]), nodes[1..]))
  }

  function FsWalkFrom(w: FsWalk, nodes: seq<Node>): FsWalk
    requires FsSafe(w, nodes)
    decreases |nodes|
  {
    if nodes == [] then w else FsWalkFrom(FsStep(w, nodes[0]), nodes[1..])
  }

  /** The commit after the walk: only when a threshold is pending. */
  function FsEnd(w: FsWalk): map<string, FsGroup> {
    if w.threshold.Some? then w.table[w.mountPoint := FsGroup(w.poll, Collected(w))] else w.table
  }

  /** The walk starts with everything empty, mount point "" and poll 0. */
  const FsStart := FsWalk(map[], None, "", 0, map[])

  /** The table after populateConfigData (it is cleared first). */
  function FsConfig(nodes: seq<Node>): map<string, FsGroup>
    requires FsSafe(FsStart, nodes)
  {
    FsEnd(FsWalkFrom(FsStart, nodes))
  }

  /** What the walk keeps true: nothing is collected without a pending
      threshold, and no mount point is stored with an empty threshold map. */
  predicate FsInvariant(w: FsWalk) {
    && (w.threshold.None? ==> w.thresholdMap == map[])
    && forall mp :: mp in w.table ==> w.table[mp].thresholds != map[]
  }

  lemma FsStepKeeps(w: FsWalk, n: Node)
    requires FsStepDefined(w, n) && FsInvariant(w)
    ensures FsInvariant(FsStep(w, n))
  {
  }

  lemma {:induction false} FsWalkKeeps(w: FsWalk, nodes: seq<Node>)
    requires FsSafe(w, nodes) && FsInvariant(w)
    ensures FsInvariant(FsWalkFrom(w, nodes))
    decreases |nodes|
  {
    if nodes != [] {
      FsStepKeeps(w, nodes[0]);
      FsWalkKeeps(FsStep(w, nodes[0]), nodes[1..]);
    }
  }

  /** Under the invariant the final commit stores exactly what a new mount
      point key would, and only non-empty groups. */
  lemma FsEndFlushed(w: FsWalk)
    requires FsInvariant(w)
    ensures FsEnd(w) == Flushed(w)
    ensures forall mp :: mp in FsEnd(w) ==> FsEnd(w)[mp].thresholds != map[]
  {
    if w.threshold.Some? {
      assert w.threshold.value.name in Collected(w);
    }
  }

  /** A mount point is stored only with at least one threshold. */
  lemma FsGroupsNonEmpty(nodes: seq<Node>, mp: string)
    requires FsSafe(FsStart, nodes) && mp in FsConfig(nodes)
    ensures FsConfig(nodes)[mp].thresholds != map[]
  {
    FsWalkKeeps(FsStart, nodes);
    FsEndFlushed(FsWalkFrom(FsStart, nodes));
  }

  /** The filesystem walk's poll interval changes only at a poll-interval
      leaf; in particular a new mount point does not reset it. */
  lemma {:induction false} FsPollKept(w: FsWalk, nodes: seq<Node>)
    requires FsSafe(w, nodes) && NoPollLeaf(nodes)
    ensures FsWalkFrom(w, nodes).poll == w.poll
    decreases |nodes|
  {
    if nodes != [] {
      assert !IsPollLeaf(nodes[0]);
      assert NoPollLeaf(nodes[1..]) by {
        forall i | 0 <= i < |nodes[1..]| ensures !IsPollLeaf(nodes[1..][i]) {
          assert nodes[1..][i] == nodes[i + 1];
        }
      }
      FsPollKept(FsStep(w, nodes[0]), nodes[1..]);
    }
  }

  /** The poll interval in force is that of the last poll-interval leaf, even
      one under an earlier mount point. */
  lemma {:induction false} FsPollLast(w: FsWalk, nodes: seq<Node>, i: nat)
    requires FsSafe(w, nodes)
    requires i < |nodes| && IsPollLeaf(nodes[i]) && nodes[i].value.Unsigned? && NoPollLeaf(nodes[i + 1..])
    ensures FsWalkFrom(w, nodes).poll == nodes[i].value.n
    decreases i
  {
    var w' := FsStep(w, nodes[0]);
    if i == 0 {
      assert nodes[1..] == nodes[i + 1..];
      FsPollKept(w', nodes[1..]);
    } else {
      assert nodes[1..][i - 1 + 1..] == nodes[i + 1..];
      FsPollLast(w', nodes[1..], i - 1);
    }
  }

  /** The mount points a walk state can still store: the table's and the current one. */
  function FsKeys(w: FsWalk): set<string> {
    w.table.Keys + {w.mountPoint}
  }

  lemma FsStepKeys(w: FsWalk, n: Node)
    requires FsStepDefined(w, n)
    ensures FsKeys(FsStep(w, n)) <= FsKeys(w) + (if IsMountPointKey(n) then {n.text} else {})
  {
  }

  /** Every mount point a walk stores was there before it or is named by a
      mount-point key leaf. */
  lemma {:induction false} FsWalkKeys(w: FsWalk, nodes: seq<Node>, mp: string)
    requires FsSafe(w, nodes)
    requires mp in FsKeys(FsWalkFrom(w, nodes))
    ensures mp in FsKeys(w) || exists i :: 0 <= i < |nodes| && IsMountPointKey(nodes[i]) && nodes[i].text == mp
    decreases |nodes|
  {
    if nodes != [] {
      FsStepKeys(w, nodes[0]);
      FsWalkKeys(FsStep(w, nodes[0]), nodes[1..], mp);
      if mp !in FsKeys(FsStep(w, nodes[0])) {
        var i :| 0 <= i < |nodes[1..]| && IsMountPointKey(nodes[1..][i]) && nodes[1..][i].text == mp;
        assert nodes[i + 1] == nodes[1..][i];
      }
    }
  }

  /** Every stored mount point is "" (thresholds before any mount-point key)
      or the value of a mount-point key leaf: nothing survives from before the reload. */
  lemma FsReplaces(nodes: seq<Node>, mp: string)
    requires FsSafe(FsStart, nodes) && mp in FsConfig(nodes)
    ensures mp == "" || exists i :: 0 <= i < |nodes| && IsMountPointKey(nodes[i]) && nodes[i].text == mp
  {
    FsWalkKeys(FsStart, nodes, mp);
  }

  // ---------------------------------------------------------------------
  // The filesystem walk over configuration of the usual shape.

  /** One entry of the filesystem list: its mount point, an optional poll
      interval and its threshold list. */
  datatype FsEntry = FsEntry(mountPoint: string, poll: Option<nat>, thresholds: seq<ThresholdEntry>)

  function GroupNodes(g: FsEntry): seq<Node> {
    [ListNode("filesystem"), Leaf("mount-point", true, g.mountPoint, Str)] + PollNodes(g.poll) + EntriesNodes(g.thresholds)
  }

  function GroupsNodes(gs: seq<FsEntry>): seq<Node> {
    if gs == [] then [] else GroupNodes(gs[0]) + GroupsNodes(gs[1..])
  }

  /** The filesystems configuration: the system-metrics and filesystems
      containers, then the filesystem list. */
  function FsNodes(gs: seq<FsEntry>): seq<Node> {
    [OtherNode, OtherNode] + GroupsNodes(gs)
  }

  /** The table the configuration describes: each mount point with at least
      one threshold is stored with its thresholds (a later entry of the same
      name winning) and the poll interval in force, which is its own or,
      when it sets none, the one before it. */
  function FsReference(table: map<string, FsGroup>, poll: nat, gs: seq<FsEntry>): map<string, FsGroup>
    decreases |gs|
  {
    if gs == [] then table
    else
      var g := gs[0];
      var p := if g.poll.Some? then g.poll.value else poll;
      FsReference(if g.thresholds != [] then table[g.mountPoint := FsGroup(p, Store(map[], g.thresholds))] else table,
        p, gs[1..])
  }

  lemma FsWalkCons(w: FsWalk, n: Node, rest: seq<Node>)
    requires FsStepDefined(w, n) && FsSafe(FsStep(w, n), rest)
    ensures FsSafe(w, [n] + rest) && FsWalkFrom(w, [n] + rest) == FsWalkFrom(FsStep(w, n), rest)
  {
    assert ([n] + rest)[0] == n && ([n] + rest)[1..] == rest;
  }

  lemma {:induction false} FsWalkJoin(w: FsWalk, a: seq<Node>, b: seq<Node>)
    requires FsSafe(w, a) && FsSafe(FsWalkFrom(w, a), b)
    ensures FsSafe(w, a + b) && FsWalkFrom(w, a + b) == FsWalkFrom(FsWalkFrom(w, a), b)
    decreases |a|
  {
    if a == [] {
      assert a + b == b;
    } else {
      assert (a + b)[0] == a[0] && (a + b)[1..] == a[1..] + b;
      FsWalkJoin(FsStep(w, a[0]), a[1..], b);
    }
  }

  /** One threshold entry inside a mount point: what was pending is committed
      to thresholdMap, and the entry is left pending. */
  lemma FsWalkEntry(w: FsWalk, e: ThresholdEntry)
    ensures FsSafe(w, EntryNodes(e))
    ensures FsWalkFrom(w, EntryNodes(e)) == w.(thresholdMap := Collected(w), threshold := Some(Pending(e.name, EntryValue(e))))
  {
    var list, key := ListNode("threshold"), Leaf("name", true, e.name, Str);
    var tail: seq<Node> := if e.value.Some? then [Leaf("value", false, "", Decimal(e.value.value))] else [];
    var w1 := FsStep(w, list);
    var w2 := FsStep(w1, key);
    if e.value.Some? {
      FsWalkCons(w2, tail[0], []);
      assert [tail[0]] + [] == tail;
    }
    FsWalkCons(w1, key, tail);
    FsWalkCons(w, list, [key] + tail);
    assert EntryNodes(e) == [list] + ([key] + tail);
  }

  lemma {:induction false} FsWalkEntries(w: FsWalk, es: seq<ThresholdEntry>)
    ensures FsSafe(w, EntriesNodes(es))
    ensures var w' := FsWalkFrom(w, EntriesNodes(es));
      && Collected(w') == Store(Collected(w), es)
      && w'.mountPoint == w.mountPoint && w'.poll == w.poll && w'.table == w.table
      && (es == [] ==> w' == w) && (es != [] ==> w'.threshold.Some?)
    decreases |es|
  {
    if es != [] {
      FsWalkEntry(w, es[0]);
      var w1 := FsWalkFrom(w, EntryNodes(es[0]));
      FsWalkEntries(w1, es[1..]);
      FsWalkJoin(w, EntryNodes(es[0]), EntriesNodes(es[1..]));
    }
  }

  lemma StoreEmpty(es: seq<ThresholdEntry>)
    ensures Store(map[], es) == map[] <==> es == []
  {
    if es != [] {
      StoreLast(map[], es, es[|es| - 1].name, |es| - 1);
    }
  }

  /** One mount point: the previous one is stored if it collected anything,
      then this one's poll interval and thresholds are collected. */
  lemma FsWalkGroup(w: FsWalk, g: FsEntry)
    requires FsInvariant(w)
    requires g.poll.Some? ==> g.poll.value < TWO_32
    ensures FsSafe(w, GroupNodes(g))
    ensures var w' := FsWalkFrom(w, GroupNodes(g));
      && FsInvariant(w')
      && w'.table == Flushed(w) && w'.mountPoint == g.mountPoint
      && w'.poll == (if g.poll.Some? then g.poll.value else w.poll)
      && Collected(w') == Store(map[], g.thresholds)
  {
    var head := [ListNode("filesystem"), Leaf("mount-point", true, g.mountPoint, Str)] + PollNodes(g.poll);
    var w2 := FsWalk(map[], None, g.mountPoint, if g.poll.Some? then g.poll.value else w.poll, Flushed(w));
    assert FsSafe(w, head) && FsWalkFrom(w, head) == w2 by {
      var polls := PollNodes(g.poll);
      var w1 := FsStep(w, ListNode("filesystem"));
      var w1' := FsStep(w1, Leaf("mount-point", true, g.mountPoint, Str));
      if g.poll.Some? {
        FsWalkCons(w1', polls[0], []);
        assert [polls[0]] + [] == polls;
      }
      FsWalkCons(w1, Leaf("mount-point", true, g.mountPoint, Str), polls);
      FsWalkCons(w, ListNode("filesystem"), [Leaf("mount-point", true, g.mountPoint, Str)] + polls);
      assert head == [ListNode("filesystem")] + ([Leaf("mount-point", true, g.mountPoint, Str)] + polls);
    }
    FsWalkKeeps(w, head);
    FsWalkEntries(w2, g.thresholds);
    FsWalkJoin(w, head, EntriesNodes(g.thresholds));
    FsWalkKeeps(w, GroupNodes(g));
  }

  lemma {:induction false} FsWalkGroups(w: FsWalk, gs: seq<FsEntry>)
    requires FsInvariant(w)
    requires forall i :: 0 <= i < |gs| ==> (gs[i].poll.Some? ==> gs[i].poll.value < TWO_32)
    ensures FsSafe(w, GroupsNodes(gs))
    ensures FsEnd(FsWalkFrom(w, GroupsNodes(gs))) == FsReference(Flushed(w), w.poll, gs)
    decreases |gs|
  {
    if gs == [] {
      FsEndFlushed(w);
    } else {
      var g := gs[0];
      FsWalkGroup(w, g);
      var w' := FsWalkFrom(w, GroupNodes(g));
      StoreEmpty(g.thresholds);
      FsWalkGroups(w', gs[1..]);
      FsWalkJoin(w, GroupNodes(g), GroupsNodes(gs[1..]));
    }
  }

  /** The two enclosing containers change nothing. */
  lemma FsWalkContainers(w: FsWalk, rest: seq<Node>)
    requires FsSafe(w, rest)
    ensures FsSafe(w, [OtherNode, OtherNode] + rest)
    ensures FsWalkFrom(w, [OtherNode, OtherNode] + rest) == FsWalkFrom(w, rest)
  {
    FsWalkCons(w, OtherNode, rest);
    FsWalkCons(w, OtherNode, [OtherNode] + rest);
    assert [OtherNode, OtherNode] + rest == [OtherNode] + ([OtherNode] + rest);
  }

  /** A walk that has collected nothing yet, FsStart among them. */
  predicate FsFresh(w: FsWalk) {
    w.thresholdMap == map[] && w.threshold.None? && w.poll == 0 && w.table == map[]
  }

  /** On configuration of the usual shape populateConfigData builds the
      reference table: from a fresh walk (FsConfig starts from FsStart) the
      filesystem walk is the reference fold. */
  lemma FsConfigOfEntries(w: FsWalk, gs: seq<FsEntry>)
    requires FsFresh(w)
    requires forall i :: 0 <= i < |gs| ==> (gs[i].poll.Some? ==> gs[i].poll.value < TWO_32)
    ensures FsSafe(w, FsNodes(gs))
    ensures FsEnd(FsWalkFrom(w, FsNodes(gs))) == FsReference(map[], 0, gs)
  {
    FsWalkGroups(w, gs);
    FsWalkContainers(w, GroupsNodes(gs));
  }
}
