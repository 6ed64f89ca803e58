/** The two usage monitors: each reloads its thresholds from the
    configuration nodes, keeps the handles of its polling threads, and runs a
    polling loop that logs one line per configured threshold on every poll. */
module ThresholdManager {
  import opened Globals
  import opened MonitorConfig

  // ---------------------------------------------------------------------
  // Thread handles

  /** A std::thread handle: the thread of execution it was started as, and
      whether it still owns that thread (joinable). */
  datatype Thread = Thread(id: nat, joinable: bool)

  /** A default-constructed std::thread: it owns no thread. */
  const Empty := Thread(0, false)

  /** join(): the handle gives up its thread. */
  function Join(t: Thread): (r: Thread)
    requires t.joinable
    ensures !r.joinable && r.id == t.id
  {
    t.(joinable := false)
  }

  // ---------------------------------------------------------------------
  // The polling loops as traces

  /** The outcome of one wait_for on the condition variable: it timed out
      (and then the usage sample the loop reads), or it was notified. */
  datatype Wait<T> = Timeout(sample: T) | Woken

  /** One "Trigger notification for" log line: a threshold name and the usage. */
  datatype LogLine = LogLine(threshold: string, usage: real)

  /** The lines of one poll: one per threshold, in map iteration order. */
  function Tick(order: seq<string>, usage: real): (r: seq<LogLine>)
    ensures |r| == |order|
    ensures forall j :: 0 <= j < |order| ==> r[j] == LogLine(order[j], usage)
  {
    if order == [] then [] else Tick(order[..|order| - 1], usage) + [LogLine(order[|order| - 1], usage)]
  }

  /** The memory loop's log: a poll for every timeout, until the first wake. */
  function MemoryLog(order: seq<string>, trace: seq<Wait<real>>): seq<LogLine>
    decreases |trace|
  {
    if trace == [] || trace[0].Woken? then [] else Tick(order, trace[0].sample) + MemoryLog(order, trace[1..])
  }

  /** The filesystem loop's log: as the memory loop's, but a missing usage
      sample ends the loop too. */
  function FsLog(order: seq<string>, trace: seq<Wait<Option<real>>>): seq<LogLine>
    decreases |trace|
  {
    if trace == [] || trace[0].Woken? || trace[0].sample.None? then []
    else Tick(order, trace[0].sample.value) + FsLog(order, trace[1..])
  }

  /** The number of polls the memory loop makes: its leading timeouts. */
  function MemoryPolls(trace: seq<Wait<real>>): (r: nat)
    ensures r <= |trace|
    decreases |trace|
  {
    if trace == [] || trace[0].Woken? then 0 else 1 + MemoryPolls(trace[1..])
  }

  /** The number of polls the filesystem loop makes. */
  function FsPolls(trace: seq<Wait<Option<real>>>): (r: nat)
    ensures r <= |trace|
    decreases |trace|
  {
    if trace == [] || trace[0].Woken? || trace[0].sample.None? then 0 else 1 + FsPolls(trace[1..])
  }

  /** `order` lists every key of the map exactly once: an iteration order. */
  predicate Enumerates<V>(order: seq<string>, m: map<string, V>) {
    && (forall k :: k in m ==> k in order)
    && (forall i :: 0 <= i < |order| ==> order[i] in m)
    && (forall i, j :: 0 <= i < j < |order| ==> order[i] != order[j])
  }

  /** Poll k of a log made of polls of |order| lines each holds line j at k * |order| + j. */
  lemma PollLine(order: seq<string>, usage: real, rest: seq<LogLine>, k: nat, j: nat)
    requires 0 < k && j < |order| && (k - 1) * |order| + j < |rest|
    ensures k * |order| + j < |Tick(order, usage) + rest|
    ensures (Tick(order, usage) + rest)[k * |order| + j] == rest[(k - 1) * |order| + j]
  {
    assert k * |order| == (k - 1) * |order| + |order|;
  }

  /** The memory loop logs |order| lines per poll. */
  lemma {:induction false} MemoryLogLength(order: seq<string>, trace: seq<Wait<real>>)
    ensures |MemoryLog(order, trace)| == MemoryPolls(trace) * |order|
    decreases |trace|
  {
    if trace != [] && trace[0].Timeout? {
      MemoryLogLength(order, trace[1..]);
      assert MemoryPolls(trace) * |order| == |order| + MemoryPolls(trace[1..]) * |order|;
    }
  }

  /** Line j of poll k of the memory loop names threshold j and carries the
      usage read at that poll: nothing is compared with the threshold value. */
  lemma {:induction false} MemoryLogLine(order: seq<string>, trace: seq<Wait<real>>, k: nat, j: nat)
    requires k < MemoryPolls(trace) && j < |order|
    ensures trace[k].Timeout? && k * |order| + j < |MemoryLog(order, trace)|
    ensures MemoryLog(order, trace)[k * |order| + j] == LogLine(order[j], trace[k].sample)
    decreases k
  {
    if k > 0 {
      MemoryLogLine(order, trace[1..], k - 1, j);
      assert trace[1..][k - 1] == trace[k];
      PollLine(order, trace[0].sample, MemoryLog(order, trace[1..]), k, j);
    }
  }

  /** The filesystem loop logs |order| lines per poll. */
  lemma {:induction false} FsLogLength(order: seq<string>, trace: seq<Wait<Option<real>>>)
    ensures |FsLog(order, trace)| == FsPolls(trace) * |order|
    decreases |trace|
  {
    if trace != [] && trace[0].Timeout? && trace[0].sample.Some? {
      FsLogLength(order, trace[1..]);
      assert FsPolls(trace) * |order| == |order| + FsPolls(trace[1..]) * |order|;
    }
  }

  /** Line j of poll k of the filesystem loop names threshold j and carries
      the usage sample of that poll, which was present. */
  lemma {:induction false} FsLogLine(order: seq<string>, trace: seq<Wait<Option<real>>>, k: nat, j: nat)
    requires k < FsPolls(trace) && j < |order|
    ensures trace[k].Timeout? && trace[k].sample.Some? && k * |order| + j < |FsLog(order, trace)|
    ensures FsLog(order, trace)[k * |order| + j] == LogLine(order[j], trace[k].sample.value)
    decreases k
  {
    if k > 0 {
      FsLogLine(order, trace[1..], k - 1, j);
      assert trace[1..][k - 1] == trace[k];
      PollLine(order, trace[0].sample.value, FsLog(order, trace[1..]), k, j);
    }
  }

  /** The memory loop ends at the first wake: nothing after it is logged. */
  lemma {:induction false} MemoryLogStops(order: seq<string>, trace: seq<Wait<real>>, k: nat)
    requires k < |trace| && trace[k].Woken?
    ensures MemoryLog(order, trace) == MemoryLog(order, trace[..k])
    decreases k
  {
    if k > 0 && trace[0].Timeout? {
      assert trace[1..][..k - 1] == trace[..k][1..];
      MemoryLogStops(order, trace[1..], k - 1);
    }
  }

  /** The filesystem loop ends at the first wake or missing sample. */
  lemma {:induction false} FsLogStops(order: seq<string>, trace: seq<Wait<Option<real>>>, k: nat)
    requires k < |trace| && (trace[k].Woken? || trace[k].sample.None?)
    ensures FsLog(order, trace) == FsLog(order, trace[..k])
    decreases k
  {
    if k > 0 && trace[0].Timeout? && trace[0].sample.Some? {
      assert trace[1..][..k - 1] == trace[..k][1..];
      FsLogStops(order, trace[1..], k - 1);
    }
  }

  // ---------------------------------------------------------------------
  // MemoryMonitoring

  class MemoryMonitoring {
    var thresholds: map<string, real>
    var pollInterval: nat
    var thread: Thread
    /** The number of threads started so far: a new thread gets this id. */
    var spawned: nat
    /** The ids of the threads joined so far. */
    ghost var joined: set<nat>

    /** The handle owns a thread that was started and is not yet joined. */
    ghost predicate Valid()
      reads this
    {
      && pollInterval < TWO_32
      && (thread.joinable ==> thread.id < spawned && thread.id !in joined)
      && (forall id :: id in joined ==> id < spawned)
    }

    /** pollInterval starts at 1, the map empty and no thread. */
    constructor()
      ensures Valid()
      ensures thresholds == map[] && pollInterval == 1 && thread == Empty && spawned == 0 && joined == {}
    {
      thresholds := map[];
      pollInterval := 1;
      thread := Empty;
      spawned := 0;
      joined := {};
    }

    /** The reload: the map is cleared and rebuilt by the walk, pollInterval
        changes only at a poll-interval leaf. */
    method PopulateConfigData(nodes: seq<Node>)
      requires Valid() && MemoryNodesValid(nodes)
      modifies this
      ensures Valid()
      ensures MemorySafe(MemoryStart(old(pollInterval)), nodes)
      ensures (thresholds, pollInterval) == MemoryConfig(nodes, old(pollInterval))
      ensures thread == old(thread) && spawned == old(spawned) && joined == old(joined)
    {
      MemoryNodesSafe(MemoryStart(pollInterval), nodes);
      ghost var start := MemoryStart(pollInterval);
      var threshold: Option<Pending> := None;
      thresholds := map[];
      var i := 0;
      while i < |nodes|
        invariant 0 <= i <= |nodes| && pollInterval < TWO_32
        invariant MemorySafe(MemoryWalk(threshold, thresholds, pollInterval), nodes[i..])
        invariant MemoryWalkFrom(MemoryWalk(threshold, thresholds, pollInterval), nodes[i..]) == MemoryWalkFrom(start, nodes)
        invariant thread == old(thread) && spawned == old(spawned) && joined == old(joined)
      {
        ghost var w := MemoryWalk(threshold, thresholds, pollInterval);
        var node := nodes[i];
        assert nodes[i..][0] == node && nodes[i..][1..] == nodes[i + 1..];
        match node {
          case ListNode(name) =>
            if name == "threshold" && threshold.Some? {
              thresholds := thresholds[threshold.value.name := threshold.value.value];
            }
          case Leaf(name, isKey, text, value) =>
            if isKey {
              threshold := Some(Pending(text, 0.0));
            } else if name == "value" {
              threshold := Some(threshold.value.(value := DecimalOf(value.d)));
            }
            if name == "poll-interval" {
              pollInterval := value.n;
            }
          case OtherNode =>
        }
        assert MemoryWalk(threshold, thresholds, pollInterval) == MemoryStep(w, node);
        i := i + 1;
      }
      if threshold.Some? {
        thresholds := thresholds[threshold.value.name := threshold.value.value];
      }
    }

    /** notifyAndJoin: the running thread, if any, is woken and joined. */
    method NotifyAndJoin()
      requires Valid()
      modifies this
      ensures Valid()
      ensures !thread.joinable && thread.id == old(thread.id)
      ensures joined == if old(thread.joinable) then old(joined) + {old(thread.id)} else old(joined)
      ensures thresholds == old(thresholds) && pollInterval == old(pollInterval) && spawned == old(spawned)
    {
      if thread.joinable {
        joined := joined + {thread.id};
        thread := Join(thread);
      }
    }

    /** startThread: a running thread is joined before the handle is replaced
        by a newly started one (replacing a joinable std::thread would
        terminate the program). */
    method StartThread()
      requires Valid()
      modifies this
      ensures Valid()
      ensures thread == Thread(old(spawned), true) && spawned == old(spawned) + 1
      ensures joined == if old(thread.joinable) then old(joined) + {old(thread.id)} else old(joined)
      ensures thresholds == old(thresholds) && pollInterval == old(pollInterval)
    {
      if thread.joinable {
        joined := joined + {thread.id};
        thread := Join(thread);
      }
      assert !thread.joinable;
      thread := Thread(spawned, true);
      spawned := spawned + 1;
    }

    /** runFunc: on every timeout one line per threshold, with the current
        usage; a notification ends the loop. `order` is the map's iteration
        order, `trace` the wait outcomes with the usage read after each. */
    method RunFunc(order: seq<string>, trace: seq<Wait<real>>) returns (log: seq<LogLine>)
      requires Enumerates(order, thresholds)
      ensures log == MemoryLog(order, trace)
      ensures forall l :: l in log ==> l.threshold in thresholds
    {
      log := [];
      var i := 0;
      while i < |trace| && trace[i].Timeout?
        invariant 0 <= i <= |trace|
        invariant log + MemoryLog(order, trace[i..]) == MemoryLog(order, trace)
        invariant forall l :: l in log ==> l.threshold in thresholds
      {
        var value := trace[i].sample;
        assert trace[i..][0] == trace[i] && trace[i..][1..] == trace[i + 1..];
        var lines := LogPoll(order, value);
        AppendAssoc(log, lines, MemoryLog(order, trace[i + 1..]));
        log := log + lines;
        i := i + 1;
      }
      if i < |trace| {
        assert trace[i..][0].Woken?;
      }
    }
  }

  /** The inner loop of both polling loops: one line per threshold. */
  method LogPoll(order: seq<string>, usage: real) returns (lines: seq<LogLine>)
    ensures lines == Tick(order, usage)
  {
    lines := [];
    var j := 0;
    while j < |order|
      invariant 0 <= j <= |order|
      invariant lines == Tick(order[..j], usage)
    {
      assert order[..j + 1][..j] == order[..j];
      lines := lines + [LogLine(order[j], usage)];
      j := j + 1;
    }
    assert order[..j] == order;
  }

  // ---------------------------------------------------------------------
  // FilesystemMonitoring

  /** A thread table whose handles were all started among the first
      `spawned` threads, no two sharing a thread, and whose joinable handles
      own threads not joined yet. */
  ghost predicate TableValid(t: map<string, Thread>, spawned: nat, joined: set<nat>) {
    && (forall n :: n in t ==> t[n].id < spawned)
    && (forall n, m :: n in t && m in t && n != m ==> t[n].id != t[m].id)
    && (forall n :: n in t && t[n].joinable ==> t[n].id !in joined)
    && (forall id :: id in joined ==> id < spawned)
  }

  /** Joining handles keeps the table valid. */
  lemma TableValidJoined(t: map<string, Thread>, t': map<string, Thread>, spawned: nat, joined: set<nat>, joined': set<nat>)
    requires TableValid(t, spawned, joined)
    requires t'.Keys == t.Keys && forall n :: n in t' ==> t'[n] == t[n].(joinable := false)
    requires forall id :: id in joined' ==> id < spawned
    ensures TableValid(t', spawned, joined')
  {
  }

  /** Joining one handle, and recording its thread as joined, keeps the table valid. */
  lemma TableValidJoinedOne(t: map<string, Thread>, name: string, spawned: nat, joined: set<nat>)
    requires TableValid(t, spawned, joined) && name in t
    ensures TableValid(t[name := t[name].(joinable := false)], spawned, if t[name].joinable then joined + {t[name].id} else joined)
  {
  }

  /** The table once every handle outside `todo` is joined. */
  function JoinedExcept(t: map<string, Thread>, todo: set<string>): map<string, Thread> {
    map n | n in t :: if n in todo then t[n] else t[n].(joinable := false)
  }

  /** The threads of the joinable handles outside `todo`. */
  ghost function LiveExcept(t: map<string, Thread>, todo: set<string>): set<nat> {
    set n | n in t && n !in todo && t[n].joinable :: t[n].id
  }

  /** Joining the handle of one more name. */
  lemma JoinStep(t: map<string, Thread>, todo: set<string>, name: string)
    requires name in todo && todo <= t.Keys
    ensures JoinedExcept(t, todo - {name}) == JoinedExcept(t, todo)[name := t[name].(joinable := false)]
    ensures LiveExcept(t, todo - {name}) == LiveExcept(t, todo) + (if t[name].joinable then {t[name].id} else {})
  {
    assert JoinedExcept(t, todo - {name}).Keys == JoinedExcept(t, todo)[name := t[name].(joinable := false)].Keys;
  }

  /** Storing a newly started thread, with the next id, under a name keeps the table valid. */
  lemma TableValidStarted(t: map<string, Thread>, name: string, spawned: nat, joined: set<nat>)
    requires TableValid(t, spawned, joined)
    ensures TableValid(t[name := Thread(spawned, true)], spawned + 1, joined)
  {
  }

  /** The state of startThreads over mount points K with the names in `todo`
      still to visit, from handles t0, spawn count s0 and joined threads j0:
      each visited name has a new joinable thread, the others keep their
      handles, and each visited name's old thread, if it was running, is joined. */
  ghost predicate StartState(t: map<string, Thread>, spawned: nat, joined: set<nat>, K: set<string>, todo: set<string>,
    t0: map<string, Thread>, s0: nat, j0: set<nat>)
  {
    && todo <= K
    && (forall n :: n in t <==> n in t0 || (n in K && n !in todo))
    && (forall n :: n in K && n !in todo ==> t[n].joinable && s0 <= t[n].id < spawned)
    && (forall n :: n in t0 && (n !in K || n in todo) ==> t[n] == t0[n])
    && (forall n :: n in K && n !in todo && n in t0 && t0[n].joinable ==> t0[n].id in joined)
    && j0 <= joined
    && spawned == s0 + |K - todo|
  }

  /** Before the loop nothing is visited. */
  lemma StartStateInit(t0: map<string, Thread>, s0: nat, j0: set<nat>, K: set<string>)
    ensures StartState(t0, s0, j0, K, K, t0, s0, j0)
  {
    assert K - K == {};
  }

  /** After the loop every configured name has a new thread. */
  lemma StartStateDone(t: map<string, Thread>, spawned: nat, joined: set<nat>, K: set<string>,
    t0: map<string, Thread>, s0: nat, j0: set<nat>)
    requires StartState(t, spawned, joined, K, {}, t0, s0, j0)
    ensures t.Keys == t0.Keys + K
    ensures forall n :: n in K ==> t[n].joinable && s0 <= t[n].id < spawned
    ensures forall n :: n in t0 && n !in K ==> t[n] == t0[n]
    ensures forall n :: n in K && n in t0 && t0[n].joinable ==> t0[n].id in joined
    ensures spawned == s0 + |K|
  {
    assert K - {} == K;
  }

  /** Visiting one more name keeps the startThreads state. */
  lemma StartStateStep(t: map<string, Thread>, spawned: nat, joined: set<nat>, K: set<string>, todo: set<string>,
    t0: map<string, Thread>, s0: nat, j0: set<nat>, name: string, joined': set<nat>)
    requires StartState(t, spawned, joined, K, todo, t0, s0, j0) && name in todo
    requires joined <= joined' && (name in t && t[name].joinable ==> t[name].id in joined')
    ensures StartState(t[name := Thread(spawned, true)], spawned + 1, joined', K, todo - {name}, t0, s0, j0)
  {
    VisitedOneMore(K, todo, name);
    StartStateHandles(t, spawned, joined, K, todo, t0, s0, j0, name, joined');
  }

  /** The handles after visiting one more name: the new thread for it, the
      others untouched. */
  lemma StartStateHandles(t: map<string, Thread>, spawned: nat, joined: set<nat>, K: set<string>, todo: set<string>,
    t0: map<string, Thread>, s0: nat, j0: set<nat>, name: string, joined': set<nat>)
    requires StartState(t, spawned, joined, K, todo, t0, s0, j0) && name in todo
    requires joined <= joined' && (name in t && t[name].joinable ==> t[name].id in joined')
    ensures var t' := t[name := Thread(spawned, true)];
      && (forall n :: n in K && n !in todo - {name} ==> t'[n].joinable && s0 <= t'[n].id < spawned + 1)
      && (forall n :: n in t0 && (n !in K || n in todo - {name}) ==> t'[n] == t0[n])
      && (forall n :: n in K && n !in todo - {name} && n in t0 && t0[n].joinable ==> t0[n].id in joined')
  {
  }

  /** Visiting one more name adds it to the visited ones. */
  lemma VisitedOneMore(K: set<string>, todo: set<string>, name: string)
    requires todo <= K && name in todo
    ensures K - (todo - {name}) == (K - todo) + {name}
    ensures |K - (todo - {name})| == |K - todo| + 1
  {
    assert K - (todo - {name}) == (K - todo) + {name};
  }

  class FilesystemMonitoring {
    var fsThresholds: map<string, FsGroup>
    var fsThreads: map<string, Thread>
    /** The number of threads started so far: a new thread gets this id. */
    var spawned: nat
    /** The ids of the threads joined so far. */
    ghost var joined: set<nat>

    /** Every handle was started here, no two handles share a thread, and a
        joinable handle's thread has not been joined. */
    ghost predicate Valid()
      reads this
    {
      TableValid(fsThreads, spawned, joined)
    }

    constructor()
      ensures Valid()
      ensures fsThresholds == map[] && fsThreads == map[] && spawned == 0 && joined == {}
    {
      fsThresholds := map[];
      fsThreads := map[];
      spawned := 0;
      joined := {};
    }

    /** The reload: the table is cleared and rebuilt by the filesystem walk. */
    method PopulateConfigData(nodes: seq<Node>)
      requires FsSafe(FsStart, nodes)
      modifies this
      ensures fsThresholds == FsConfig(nodes)
      ensures fsThreads == old(fsThreads) && spawned == old(spawned) && joined == old(joined)
    {
      var thresholdMap: map<string, real> := map[];
      var threshold: Option<Pending> := None;
      var mountPoint := "";
      var poll: nat := 0;
      fsThresholds := map[];
      var i := 0;
      while i < |nodes|
        invariant 0 <= i <= |nodes|
        invariant FsSafe(FsWalk(thresholdMap, threshold, mountPoint, poll, fsThresholds), nodes[i..])
        invariant FsWalkFrom(FsWalk(thresholdMap, threshold, mountPoint, poll, fsThresholds), nodes[i..])
          == FsWalkFrom(FsStart, nodes)
        invariant fsThreads == old(fsThreads) && spawned == old(spawned) && joined == old(joined)
      {
        ghost var w := FsWalk(thresholdMap, threshold, mountPoint, poll, fsThresholds);
        var node := nodes[i];
        assert nodes[i..][0] == node && nodes[i..][1..] == nodes[i + 1..];
        match node {
          case ListNode(name) =>
            if name == "threshold" && threshold.Some? {
              thresholdMap := thresholdMap[threshold.value.name := threshold.value.value];
            }
          case Leaf(name, isKey, text, value) =>
            if isKey && name == "mount-point" {
              if threshold.Some? {
                thresholdMap := thresholdMap[threshold.value.name := threshold.value.value];
              }
              if thresholdMap != map[] {
                fsThresholds := fsThresholds[mountPoint := FsGroup(poll, thresholdMap)];
              }
              thresholdMap := map[];
              mountPoint := text;
              threshold := None;
            } else if isKey && name == "name" {
              threshold := Some(Pending(text, 0.0));
            } else if name == "value" {
              threshold := Some(threshold.value.(value := DecimalOf(value.d)));
            }
            if name == "poll-interval" {
              poll := value.n;
            }
          case OtherNode =>
        }
        assert FsWalk(thresholdMap, threshold, mountPoint, poll, fsThresholds) == FsStep(w, node);
        i := i + 1;
      }
      if threshold.Some? {
        thresholdMap := thresholdMap[threshold.value.name := threshold.value.value];
        fsThresholds := fsThresholds[mountPoint := FsGroup(poll, thresholdMap)];
      }
    }

    /** One iteration of the join loop: a joinable handle is joined. */
    method JoinOne(name: string)
      requires name in fsThreads
      modifies this
      ensures fsThreads == old(fsThreads)[name := old(fsThreads)[name].(joinable := false)]
      ensures joined == if old(fsThreads)[name].joinable then old(joined) + {old(fsThreads)[name].id} else old(joined)
      ensures fsThresholds == old(fsThresholds) && spawned == old(spawned)
    {
      if fsThreads[name].joinable {
        joined := joined + {fsThreads[name].id};
        fsThreads := fsThreads[name := Join(fsThreads[name])];
      }
      assert fsThreads == old(fsThreads)[name := old(fsThreads)[name].(joinable := false)];
    }

    /** One iteration of the join loop: some name still to visit is joined. */
    method JoinNext(todo: set<string>, ghost t0: map<string, Thread>, ghost j0: set<nat>) returns (todo': set<string>)
      requires todo != {} && todo <= t0.Keys
      requires fsThreads == JoinedExcept(t0, todo) && joined == j0 + LiveExcept(t0, todo)
      modifies this
      ensures todo' <= t0.Keys && |todo'| < |todo|
      ensures fsThreads == JoinedExcept(t0, todo') && joined == j0 + LiveExcept(t0, todo')
      ensures fsThresholds == old(fsThresholds) && spawned == old(spawned)
    {
      var name :| name in todo;
      JoinStep(t0, todo, name);
      JoinOne(name);
      todo' := todo - {name};
    }

    /** The loop shared by notifyAndJoin and stopThreads: every joinable
        handle is joined; the table keeps its entries. */
    method JoinAll()
      requires Valid()
      modifies this
      ensures Valid()
      ensures fsThreads == JoinedExcept(old(fsThreads), {})
      ensures joined == old(joined) + LiveExcept(old(fsThreads), {})
      ensures fsThresholds == old(fsThresholds) && spawned == old(spawned)
    {
      var todo := fsThreads.Keys;
      assert fsThreads == JoinedExcept(fsThreads, todo);
      while todo != {}
        invariant todo <= old(fsThreads).Keys
        invariant fsThreads == JoinedExcept(old(fsThreads), todo)
        invariant joined == old(joined) + LiveExcept(old(fsThreads), todo)
        invariant fsThresholds == old(fsThresholds) && spawned == old(spawned)
        decreases |todo|
      {
        todo := JoinNext(todo, old(fsThreads), old(joined));
      }
      TableValidJoined(old(fsThreads), fsThreads, spawned, old(joined), joined);
    }

    /** notifyAndJoin: every thread is woken and joined; the handles stay. */
    method NotifyAndJoin()
      requires Valid()
      modifies this
      ensures Valid()
      ensures fsThreads.Keys == old(fsThreads).Keys
      ensures forall n :: n in fsThreads ==> !fsThreads[n].joinable && fsThreads[n].id == old(fsThreads)[n].id
      ensures forall n :: n in old(fsThreads) && old(fsThreads)[n].joinable ==> old(fsThreads)[n].id in joined
      ensures fsThresholds == old(fsThresholds) && spawned == old(spawned)
    {
      JoinAll();
    }

    /** stopThreads: every joinable handle is joined, then the table is
        emptied (destroying a joinable std::thread would terminate the program). */
    method StopThreads()
      requires Valid()
      modifies this
      ensures Valid()
      ensures fsThreads == map[]
      ensures forall n :: n in old(fsThreads) && old(fsThreads)[n].joinable ==> old(fsThreads)[n].id in joined
      ensures fsThresholds == old(fsThresholds) && spawned == old(spawned)
    {
      JoinAll();
      assert forall n :: n in fsThreads ==> !fsThreads[n].joinable;
      fsThreads := map[];
    }

    /** One iteration of startThreads: the mount point's old thread, if
        still joinable, is joined, then its handle is replaced by a new one. */
    method StartOne(name: string)
      requires Valid()
      modifies this
      ensures Valid()
      ensures fsThreads == old(fsThreads)[name := Thread(old(spawned), true)] && spawned == old(spawned) + 1
      ensures name in old(fsThreads) && old(fsThreads)[name].joinable ==> old(fsThreads)[name].id in joined
      ensures old(joined) <= joined
      ensures fsThresholds == old(fsThresholds)
    {
      if name in fsThreads && fsThreads[name].joinable {
        TableValidJoinedOne(fsThreads, name, spawned, joined);
        JoinOne(name);
      }
      // replacing a joinable std::thread would terminate the program
      assert !(name in fsThreads && fsThreads[name].joinable);
      TableValidStarted(fsThreads, name, spawned, joined);
      fsThreads := fsThreads[name := Thread(spawned, true)];
      spawned := spawned + 1;
    }

    /** startThreads: exactly one new thread per configured mount point, any
        old one joined first; handles of mount points no longer configured
        are kept as they are. */
    method StartThreads()
      requires Valid()
      modifies this
      ensures Valid()
      ensures fsThreads.Keys == old(fsThreads).Keys + fsThresholds.Keys
      ensures forall n :: n in fsThresholds ==> fsThreads[n].joinable && old(spawned) <= fsThreads[n].id < spawned
      ensures forall n :: n in old(fsThreads) && n !in fsThresholds ==> fsThreads[n] == old(fsThreads)[n]
      ensures forall n :: n in fsThresholds && n in old(fsThreads) && old(fsThreads)[n].joinable ==>
        old(fsThreads)[n].id in joined
      ensures spawned == old(spawned) + |fsThresholds|
      ensures fsThresholds == old(fsThresholds)
    {
      var todo := fsThresholds.Keys;
      StartStateInit(fsThreads, spawned, joined, todo);
      while todo != {}
        invariant Valid() && fsThresholds == old(fsThresholds)
        invariant StartState(fsThreads, spawned, joined, fsThresholds.Keys, todo, old(fsThreads), old(spawned), old(joined))
        decreases |todo|
      {
        var name :| name in todo;
        ghost var t, s, j := fsThreads, spawned, joined;
        StartOne(name);
        StartStateStep(t, s, j, fsThresholds.Keys, todo, old(fsThreads), old(spawned), old(joined), name, joined);
        todo := todo - {name};
      }
      StartStateDone(fsThreads, spawned, joined, fsThresholds.Keys, old(fsThreads), old(spawned), old(joined));
    }

    /** runFunc for one mount point: nothing when it is not configured;
        otherwise on every timeout one line per threshold of that mount
        point, until a notification or a missing usage sample. */
    method RunFunc(name: string, order: seq<string>, trace: seq<Wait<Option<real>>>) returns (log: seq<LogLine>)
      requires name in fsThresholds ==> Enumerates(order, fsThresholds[name].thresholds)
      ensures name !in fsThresholds ==> log == []
      ensures name in fsThresholds ==> log == FsLog(order, trace)
      ensures forall l :: l in log ==> name in fsThresholds && l.threshold in fsThresholds[name].thresholds
    {
      log := [];
      if name in fsThresholds {
        var thresholds := fsThresholds[name].thresholds;
        var i := 0;
        while i < |trace| && trace[i].Timeout?
          invariant 0 <= i <= |trace|
          invariant log + FsLog(order, trace[i..]) == FsLog(order, trace)
          invariant forall l :: l in log ==> l.threshold in thresholds
        {
          var usage := trace[i].sample;
          assert trace[i..][0] == trace[i] && trace[i..][1..] == trace[i + 1..];
          if usage.None? {
            break;
          }
          var lines := LogPoll(order, usage.value);
          AppendAssoc(log, lines, FsLog(order, trace[i + 1..]));
          log := log + lines;
          i := i + 1;
        }
        if i < |trace| {
          assert trace[i..][0] == trace[i];
        }
      }
    }
  }
}
