/** Signals of both routes, idle and orphan, over every sequence of cleanup ticks. */
module SignalProofs {
  import opened Common
  import opened Manifest
  import opened ProcessLifecycle
  import opened ProcessLifecycleProofs

  // ---- what each route signals ----

  /** The process that an idle shutdown of the server signals. */
  function IdleTarget(records: seq<Record>, s: ServerView): ProcessKey {
    var launch := LatestLaunch(records, s.serverId, s.roomId);
    if launch.Some? then KeyOf(launch.value) else ProcessKey(s.serverId, s.roomId, 0)
  }

  /** The processes that the idle route signals among the first `n` servers. */
  function IdleSignals(cfg: Config, t: Tick, records: seq<Record>, n: nat, seen: map<string, int>): seq<ProcessKey>
    requires n <= |t.servers|
  {
    if n == 0 then [] else
      var before, s := IdlePass(cfg, t, records, n - 1, seen).seen, t.servers[n - 1];
      IdleSignals(cfg, t, records, n - 1, seen)
      + if Judge(cfg, t, records, s, before) == ShutDown then [IdleTarget(records, s)] else []
  }

  /** The processes that a tick signals, the idle route first. */
  function SignalsAt(cfg: Config, c: Control, t: Tick): seq<ProcessKey> {
    IdleSignals(cfg, t, Snapshot(c, t), |t.servers|, c.emptySeen) + RunTick(cfg, c, t).signalled
  }

  /** Every process signalled in the first `n` ticks, in order. */
  function AllSignals(cfg: Config, log: seq<Record>, ticks: seq<Tick>, n: nat): seq<ProcessKey>
    requires n <= |ticks|
  {
    if n == 0 then [] else
      AllSignals(cfg, log, ticks, n - 1) + SignalsAt(cfg, Before(cfg, log, ticks, n - 1), ticks[n - 1])
  }

  predicate ShutsDown(cfg: Config, c: Control, t: Tick, s: ServerView) {
    Judge(cfg, t, Snapshot(c, t), s, c.emptySeen) == ShutDown
  }

  lemma {:induction false} IdleSignalsAre(
    cfg: Config, t: Tick, records: seq<Record>, n: nat, seen: map<string, int>, key: ProcessKey)
    requires ListedOnce(t) && n <= |t.servers|
    ensures key in IdleSignals(cfg, t, records, n, seen) <==>
              exists i: nat :: i < n && Judge(cfg, t, records, t.servers[i], seen) == ShutDown
                && IdleTarget(records, t.servers[i]) == key
  {
    hide Judge, IdleTarget, IdlePass;
    if n > 0 {
      IdleSignalsAre(cfg, t, records, n - 1, seen, key);
      ClockOfOthers(cfg, t, records, 0, n - 1, seen, t.servers[n - 1].serverId);
      NothingPassed(cfg, t, records, seen);
      SameVerdict(cfg, t, records, t.servers[n - 1], IdlePass(cfg, t, records, n - 1, seen).seen, seen);
    }
  }

  lemma NothingPassed(cfg: Config, t: Tick, records: seq<Record>, seen: map<string, int>)
    ensures IdlePass(cfg, t, records, 0, seen).seen == seen
  {
  }

  /** The target of a shutdown is a launched process of the server that runs and accepts the signal. */
  lemma ShutDownTarget(cfg: Config, t: Tick, records: seq<Record>, s: ServerView, seen: map<string, int>)
    requires Judge(cfg, t, records, s, seen) == ShutDown
    ensures var key := IdleTarget(records, s);
            && key.serverId == s.serverId && (s.roomId != "" ==> key.roomId == s.roomId)
            && LaunchedKey(records, key) && Alive(t.live, key.pid) && key.pid in t.signalOk
  {
    LatestLaunchIsLast(records, s.serverId, s.roomId);
  }

  // ---- what an idle shutdown leaves in the manifest ----

  /** The process that the manifest is told has been shut down: under the room that the server reports. */
  function LoggedKey(records: seq<Record>, s: ServerView): ProcessKey {
    ProcessKey(s.serverId, s.roomId, IdleTarget(records, s).pid)
  }

  /**
   An idle shutdown is logged under the key of the process it signals, except when the server reports no room and
   the launch names one.
   */
  lemma LoggedUnderTargetExactlyWhen(cfg: Config, t: Tick, records: seq<Record>, s: ServerView, seen: map<string, int>)
    requires Judge(cfg, t, records, s, seen) == ShutDown
    ensures var key := IdleTarget(records, s);
            LoggedKey(records, s) == key <==> !(s.roomId == "" && key.roomId != "")
  {
    ShutDownTarget(cfg, t, records, s, seen);
  }

  lemma {:induction false} ShutDownIsLogged(
    cfg: Config, t: Tick, records: seq<Record>, n: nat, seen: map<string, int>, i: nat)
    requires ListedOnce(t) && i < n <= |t.servers| && Judge(cfg, t, records, t.servers[i], seen) == ShutDown
    ensures LoggedKey(records, t.servers[i]) in TerminalKeys(IdlePass(cfg, t, records, n, seen).appended)
    ensures t.servers[i].serverId in IdlePass(cfg, t, records, n, seen).gone
  {
    hide Judge;
    var s, st := t.servers[n - 1], IdlePass(cfg, t, records, n - 1, seen);
    if i < n - 1 {
      ShutDownIsLogged(cfg, t, records, n - 1, seen, i);
      TerminalKeysOfPrefix(st.appended, IdlePass(cfg, t, records, n, seen).appended);
    } else {
      ClockOfOthers(cfg, t, records, 0, i, seen, s.serverId);
      NothingPassed(cfg, t, records, seen);
      SameVerdict(cfg, t, records, s, st.seen, seen);
      StepLogsShutDown(cfg, t, records, s, st);
    }
  }

  lemma StepLogsShutDown(cfg: Config, t: Tick, records: seq<Record>, s: ServerView, st: IdleState)
    requires Judge(cfg, t, records, s, st.seen) == ShutDown
    ensures var next := IdleStep(cfg, t, records, s, st);
            LoggedKey(records, s) in TerminalKeys(next.appended) && s.serverId in next.gone
  {
    var next := IdleStep(cfg, t, records, s, st);
    var sent := next.appended[|next.appended| - 1];
    assert sent == Record(IDLE_SHUTDOWN, s.serverId, s.roomId, IdleTarget(records, s).pid);
    assert sent in next.appended && Terminal(sent) && KeyOf(sent) == LoggedKey(records, s);
  }

  /** After the tick the manifest counts the logged process as finished. */
  lemma ShutDownEntersLog(cfg: Config, c: Control, t: Tick, i: nat)
    requires ListedOnce(t) && i < |t.servers| && ShutsDown(cfg, c, t, t.servers[i])
    ensures LoggedKey(Snapshot(c, t), t.servers[i]) in TerminalKeys(RunTick(cfg, c, t).next.log)
    ensures t.servers[i].serverId !in OrphanView(cfg, c, t).active
  {
    hide Judge, TerminalKeys;
    var records := Snapshot(c, t);
    ShutDownIsLogged(cfg, t, records, |t.servers|, c.emptySeen, i);
    TerminalKeysGrow(records, Idle(cfg, c, t).appended);
    TerminalKeysOfPrefix(records + Idle(cfg, c, t).appended, RunTick(cfg, c, t).next.log);
  }

  // ---- the second signal ----

  /**
   Exactly when the orphan route signals, in the same tick, the process that the idle route has just shut down: it
   is not logged as finished, and its orphan clock, left over from a time when the server was not registered, has
   run out. The orphan pass looks at the manifest as it was before the shutdown.
   */
  lemma SameTickSignalExactlyWhen(cfg: Config, c: Control, t: Tick, i: nat)
    requires cfg.graceMs > 0 && ListedOnce(t) && i < |t.servers| && ShutsDown(cfg, c, t, t.servers[i])
    ensures var key := IdleTarget(Snapshot(c, t), t.servers[i]);
            key in RunTick(cfg, c, t).signalled <==>
              && cfg.orphanEnabled && key !in TerminalKeys(Snapshot(c, t)) && ClockRunOut(cfg, c, t, key)
  {
    hide Judge, TerminalKeys, RunTick;
    var key := IdleTarget(Snapshot(c, t), t.servers[i]);
    ShutDownTarget(cfg, t, Snapshot(c, t), t.servers[i], c.emptySeen);
    ShutDownEntersLog(cfg, c, t, i);
    TickSignalsExactly(cfg, c, t, key);
    hide IdleTarget, LaunchedKey, Snapshot, Idle;
  }

  predicate ClockRunOut(cfg: Config, c: Control, t: Tick, key: ProcessKey) {
    key in c.orphanSeen && t.now - c.orphanSeen[key] >= cfg.graceMs
  }

  lemma {:induction false} TerminalForever(cfg: Config, log: seq<Record>, ticks: seq<Tick>, m: nat, n: nat)
    requires m <= n <= |ticks|
    ensures TerminalKeys(Before(cfg, log, ticks, m).log) <= TerminalKeys(Before(cfg, log, ticks, n).log)
    decreases n
  {
    hide RunTick, TerminalKeys;
    if m < n {
      TerminalForever(cfg, log, ticks, m, n - 1);
      TickKeepsTerminal(cfg, Before(cfg, log, ticks, n - 1), ticks[n - 1]);
    }
  }

  /**
   The orphan route signals a process on a later tick than the idle route only where the idle shutdown reported no
   room and the launch of the process names one.
   */
  lemma LaterOrphanSignalNeedsEmptyReport(
    cfg: Config, log: seq<Record>, ticks: seq<Tick>, m: nat, i: nat, n: nat)
    requires m < n < |ticks| && ListedOnce(ticks[m]) && i < |ticks[m].servers|
    requires ShutsDown(cfg, Before(cfg, log, ticks, m), ticks[m], ticks[m].servers[i])
    ensures var s := ticks[m].servers[i];
            var key := IdleTarget(RecordsAt(cfg, log, ticks, m), s);
            key in OutcomeAt(cfg, log, ticks, n).signalled ==> s.roomId == "" && key.roomId != ""
  {
    hide RunTick, Judge, TerminalKeys, IdleTarget, Snapshot;
    var c, t, s := Before(cfg, log, ticks, m), ticks[m], ticks[m].servers[i];
    var key := IdleTarget(Snapshot(c, t), s);
    ShutDownEntersLog(cfg, c, t, i);
    LoggedUnderTargetExactlyWhen(cfg, t, Snapshot(c, t), s, c.emptySeen);
    TerminalForever(cfg, log, ticks, m + 1, n);
    ProcessLifecycleProofs.TickSignals(cfg, Before(cfg, log, ticks, n), ticks[n]);
    assert Before(cfg, log, ticks, m + 1) == RunTick(cfg, c, t).next;
  }

  // ---- nobody is signalled twice ----

  /**
   Every idle shutdown of the tick reports the room of its launch, and its process is neither logged as finished
   nor has an orphan clock that has run out.
   */
  ghost predicate Clean(cfg: Config, c: Control, t: Tick) {
    forall s | s in t.servers && ShutsDown(cfg, c, t, s) ::
      var key := IdleTarget(Snapshot(c, t), s);
      && s.roomId == key.roomId
      && key !in TerminalKeys(Snapshot(c, t))
      && !(cfg.orphanEnabled && ClockRunOut(cfg, c, t, key))
  }

  lemma {:induction false} IdleSignalsDistinct(
    cfg: Config, t: Tick, records: seq<Record>, n: nat, seen: map<string, int>)
    requires ListedOnce(t) && n <= |t.servers|
    ensures NoDuplicates(IdleSignals(cfg, t, records, n, seen))
  {
    hide Judge, IdleTarget, IdlePass;
    if n > 0 {
      IdleSignalsDistinct(cfg, t, records, n - 1, seen);
      var front, s := IdleSignals(cfg, t, records, n - 1, seen), t.servers[n - 1];
      var before := IdlePass(cfg, t, records, n - 1, seen).seen;
      if Judge(cfg, t, records, s, before) == ShutDown {
        var key := IdleTarget(records, s);
        ShutDownTarget(cfg, t, records, s, before);
        IdleSignalsAre(cfg, t, records, n - 1, seen, key);
        if key in front {
          var i: nat :| i < n - 1 && Judge(cfg, t, records, t.servers[i], seen) == ShutDown
            && IdleTarget(records, t.servers[i]) == key;
          ShutDownTarget(cfg, t, records, t.servers[i], seen);
          assert false;
        }
        assert IdleSignals(cfg, t, records, n, seen) == front + [key];
      } else {
        assert IdleSignals(cfg, t, records, n, seen) == front;
      }
    }
  }

  /** A clean idle shutdown signals a process not yet finished, finishes it, and is the only signal to it. */
  lemma CleanShutDown(cfg: Config, c: Control, t: Tick, key: ProcessKey)
    requires cfg.graceMs > 0 && ListedOnce(t) && Clean(cfg, c, t)
    requires key in IdleSignals(cfg, t, Snapshot(c, t), |t.servers|, c.emptySeen)
    ensures key !in TerminalKeys(c.log) && key in TerminalKeys(RunTick(cfg, c, t).next.log)
    ensures key !in RunTick(cfg, c, t).signalled
  {
    hide RunTick, Judge, TerminalKeys, IdleTarget, Snapshot;
    IdleSignalsAre(cfg, t, Snapshot(c, t), |t.servers|, c.emptySeen, key);
    var i: nat :| i < |t.servers| && Judge(cfg, t, Snapshot(c, t), t.servers[i], c.emptySeen) == ShutDown
      && IdleTarget(Snapshot(c, t), t.servers[i]) == key;
    assert t.servers[i] in t.servers && ShutsDown(cfg, c, t, t.servers[i]);
    SnapshotKeepsTerminal(c, t, key);
    ShutDownTarget(cfg, t, Snapshot(c, t), t.servers[i], c.emptySeen);
    ShutDownEntersLog(cfg, c, t, i);
    SameTickSignalExactlyWhen(cfg, c, t, i);
  }

  lemma TickSignalsOnce(cfg: Config, c: Control, t: Tick)
    requires cfg.graceMs > 0 && ListedOnce(t) && Clean(cfg, c, t)
    ensures NoDuplicates(SignalsAt(cfg, c, t))
    ensures forall k | k in SignalsAt(cfg, c, t) ::
              k !in TerminalKeys(c.log) && k in TerminalKeys(RunTick(cfg, c, t).next.log)
  {
    hide RunTick, TerminalKeys, IdleSignals, Clean;
    var idle := IdleSignals(cfg, t, Snapshot(c, t), |t.servers|, c.emptySeen);
    var orphans := RunTick(cfg, c, t).signalled;
    IdleSignalsDistinct(cfg, t, Snapshot(c, t), |t.servers|, c.emptySeen);
    ProcessLifecycleProofs.TickSignals(cfg, c, t);
    forall k | k in idle
      ensures k !in TerminalKeys(c.log) && k in TerminalKeys(RunTick(cfg, c, t).next.log) && k !in orphans
    {
      CleanShutDown(cfg, c, t, k);
    }
    Disjoint(idle, orphans);
  }

  lemma Disjoint(a: seq<ProcessKey>, b: seq<ProcessKey>)
    requires NoDuplicates(a) && NoDuplicates(b) && forall k | k in a :: k !in b
    ensures NoDuplicates(a + b)
  {
    forall i, j | 0 <= i < j < |a + b| ensures (a + b)[i] != (a + b)[j] {
      if i < |a| <= j {
        assert (a + b)[i] in a && (a + b)[j] in b;
      }
    }
  }

  /**
   Where every idle shutdown is clean, no process is signalled twice over any run, by one route or by both.
   */
  lemma {:induction false} NobodyIsSignalledTwice(cfg: Config, log: seq<Record>, ticks: seq<Tick>, n: nat)
    requires cfg.graceMs > 0 && (forall t | t in ticks :: ListedOnce(t))
    requires n <= |ticks| && forall j: nat | j < n :: Clean(cfg, Before(cfg, log, ticks, j), ticks[j])
    ensures NoDuplicates(AllSignals(cfg, log, ticks, n))
    ensures forall k | k in AllSignals(cfg, log, ticks, n) :: k in TerminalKeys(Before(cfg, log, ticks, n).log)
  {
    hide RunTick, TerminalKeys, SignalsAt, Clean, ListedOnce;
    if n > 0 {
      NobodyIsSignalledTwice(cfg, log, ticks, n - 1);
      var c, t := Before(cfg, log, ticks, n - 1), ticks[n - 1];
      assert t in ticks && Clean(cfg, c, t);
      TickSignalsOnce(cfg, c, t);
      TickKeepsTerminal(cfg, c, t);
      JoinDistinct(AllSignals(cfg, log, ticks, n - 1), SignalsAt(cfg, c, t),
        TerminalKeys(c.log), TerminalKeys(Before(cfg, log, ticks, n).log));
    }
  }

  // ---- runs with a second signal ----

  function TheLaunch(): Record {
    Record(LAUNCHED, "s", "r", 7)
  }

  function TheProcess(): ProcessKey {
    ProcessKey("s", "r", 7)
  }

  /** A tick at which the server is registered as empty in the room, or not at all; process 7 runs throughout. */
  function TickAt(now: int, room: Option<string>): Tick {
    Tick(now, if room.Some? then [ServerView("s", room.value, 0)] else [], [], {7}, {}, {7}, {}, [])
  }

  /** A tick over a manifest with that one launch. */
  lemma OneLaunchTick(cfg: Config, c: Control, now: int, room: Option<string>)
    requires |c.log| > 0 && c.log[0] == TheLaunch() && forall r | r in c.log[1..] :: !Launched(r)
    requires room.Some? ==> room.value in {"", "r"}
    ensures var t := TickAt(now, room);
            var st := IdleState(c.emptySeen, [], {}, []);
            var idle := if room.Some? then IdleStep(cfg, t, c.log, t.servers[0], st) else st;
            var v := View(now, ServerIds(t.servers) - idle.gone, {7}, {7});
            var orphans := OrphanStep(cfg, v, TheLaunch(), OrphanState(c.orphanSeen, TerminalKeys(c.log), [], []));
            && LatestLaunch(c.log, "s", if room.Some? then room.value else "") == Some(TheLaunch())
            && RunTick(cfg, c, t) == Outcome(
                 Control(idle.seen, orphans.seen, c.log + idle.appended + orphans.appended),
                 idle.verdicts, orphans.signalled)
  {
    hide IdleStep, OrphanStep, TerminalKeys;
    var t := TickAt(now, room);
    assert Snapshot(c, t) == c.log;
    var st := IdleState(c.emptySeen, [], {}, []);
    assert IdlePass(cfg, t, c.log, 0, c.emptySeen) == st;
    var idle := Idle(cfg, c, t);
    assert ServerIds(t.servers) - idle.gone - {} == ServerIds(t.servers) - idle.gone;
    OnlyLaunchSeen(cfg, OrphanView(cfg, c, t), c.log, OrphanState(c.orphanSeen, TerminalKeys(c.log), [], []));
    OnlyLaunchFound(c.log, if room.Some? then room.value else "");
    var log := c.log + idle.appended;
    assert log + [] + Orphans(cfg, c, t).appended == log + Orphans(cfg, c, t).appended;
  }

  lemma {:induction false} OnlyLaunchSeen(cfg: Config, v: View, log: seq<Record>, st: OrphanState)
    requires |log| > 0 && log[0] == TheLaunch() && forall r | r in log[1..] :: !Launched(r)
    ensures OrphanPass(cfg, v, log, st) == OrphanStep(cfg, v, TheLaunch(), st)
    decreases |log|
  {
    var front, last := log[..|log| - 1], log[|log| - 1];
    if |log| > 1 {
      assert last == log[1..][|log| - 2] && front[1..] == log[1..][..|log| - 2];
      OnlyLaunchSeen(cfg, v, front, st);
    } else {
      assert front == [];
    }
  }

  lemma {:induction false} OnlyLaunchFound(log: seq<Record>, room: string)
    requires |log| > 0 && log[0] == TheLaunch() && (forall r | r in log[1..] :: !Launched(r)) && room in {"", "r"}
    ensures LatestLaunch(log, "s", room) == Some(TheLaunch())
  {
    if |log| > 1 {
      var front := log[..|log| - 1];
      assert log[|log| - 1] == log[1..][|log| - 2] && front[1..] == log[1..][..|log| - 2];
      OnlyLaunchFound(front, room);
    }
  }

  /** What such a tick signals. */
  lemma OneLaunchSignals(cfg: Config, c: Control, now: int, room: Option<string>)
    requires |c.log| > 0 && c.log[0] == TheLaunch() && forall r | r in c.log[1..] :: !Launched(r)
    requires room.Some? ==> room.value in {"", "r"}
    ensures var out := RunTick(cfg, c, TickAt(now, room));
            SignalsAt(cfg, c, TickAt(now, room))
            == (if room.Some? && out.verdicts == [ShutDown] then [TheProcess()] else []) + out.signalled
  {
    hide Judge, RunTick;
    var t := TickAt(now, room);
    assert Snapshot(c, t) == c.log;
    NothingPassed(cfg, t, c.log, c.emptySeen);
    if room.Some? {
      OnlyLaunchFound(c.log, room.value);
      TickVerdict(cfg, c, t, 0);
      assert IdleSignals(cfg, t, c.log, 0, c.emptySeen) == [];
    }
  }

  /** What an idle shutdown logs when the server reports the room. */
  function ShutDownRecords(room: string): seq<Record> {
    [Record("idle_shutdown_requested", "s", room, 7), Record(IDLE_SHUTDOWN, "s", room, 7)]
  }

  /** The manifest once an idle shutdown has been logged. */
  function LogAfter(room: string): seq<Record> {
    [TheLaunch()] + ShutDownRecords(room)
  }

  lemma FinishedKeys(room: string)
    ensures TerminalKeys([TheLaunch()]) == {} && TerminalKeys(LogAfter(room)) == {ProcessKey("s", room, 7)}
  {
    assert ShutDownRecords(room)[1] in ShutDownRecords(room) && Terminal(ShutDownRecords(room)[1]);
    assert TerminalKeys(ShutDownRecords(room)) == {ProcessKey("s", room, 7)};
    TerminalKeysGrow([TheLaunch()], ShutDownRecords(room));
  }

  lemma IdleStepStarts(cfg: Config, log: seq<Record>, now: int, room: string)
    requires cfg.idleEnabled && cfg.idleShutdownMs == 10 && LatestLaunch(log, "s", room) == Some(TheLaunch())
    ensures var t := TickAt(now, Some(room));
            && ServerIds(t.servers) == {"s"}
            && IdleStep(cfg, t, log, t.servers[0], IdleState(map[], [], {}, []))
               == IdleState(map["s" := now], [], {}, [Waiting])
  {
    hide LatestLaunch;
    assert TickAt(now, Some(room)).servers[0] in TickAt(now, Some(room)).servers;
  }

  lemma IdleStepShutsDown(cfg: Config, log: seq<Record>, start: int, now: int, room: string)
    requires cfg.idleEnabled && cfg.idleShutdownMs == 10 && now - start >= 10
    requires LatestLaunch(log, "s", room) == Some(TheLaunch())
    ensures var t := TickAt(now, Some(room));
            && ServerIds(t.servers) == {"s"}
            && IdleStep(cfg, t, log, t.servers[0], IdleState(map["s" := start], [], {}, []))
               == IdleState(map[], ShutDownRecords(room), {"s"}, [ShutDown])
  {
    hide LatestLaunch;
    assert TickAt(now, Some(room)).servers[0] in TickAt(now, Some(room)).servers;
    assert map["s" := start] - {"s"} == map[];
  }

  lemma OrphanStepRegistered(cfg: Config, now: int, terminal: set<ProcessKey>)
    ensures var st := OrphanState(map[], terminal, [], []);
            OrphanStep(cfg, View(now, {"s"}, {7}, {7}), TheLaunch(), st) == st
  {
    var none: map<ProcessKey, int> := map[];
    assert none - {TheProcess()} == none;
  }

  /** A state in which the server has been empty, and its process an orphan, since the given times. */
  function Since(empty: Option<int>, orphan: Option<int>, log: seq<Record>): Control {
    Control(if empty.Some? then map["s" := empty.value] else map[], OrphanClock(orphan), log)
  }

  function OrphanClock(since: Option<int>): map<ProcessKey, int> {
    if since.Some? then map[TheProcess() := since.value] else map[]
  }

  /** The registered server is found idle for the first time. */
  lemma ClockStarts(cfg: Config, log: seq<Record>, now: int, room: string)
    requires cfg.idleEnabled && cfg.idleShutdownMs == 10 && (room == "" || room == "r")
    requires log == [TheLaunch()] || log == LogAfter("r")
    ensures var c := Since(None, None, log);
            && RunTick(cfg, c, TickAt(now, Some(room))).next == Since(Some(now), None, log)
            && SignalsAt(cfg, c, TickAt(now, Some(room))) == []
  {
    hide RunTick, SignalsAt, TerminalKeys, LatestLaunch, IdleStep, OrphanStep;
    var c := Since(None, None, log);
    OneLaunchTick(cfg, c, now, Some(room));
    OneLaunchSignals(cfg, c, now, Some(room));
    IdleStepStarts(cfg, log, now, room);
    assert {"s"} - {} == {"s"};
    OrphanStepRegistered(cfg, now, TerminalKeys(log));
    assert log + [] + [] == log;
  }

  /** Nothing is registered while the empty-since clock of the server runs: the orphan clock starts. */
  lemma OrphanClockStarts(cfg: Config, start: int, now: int)
    requires cfg.orphanEnabled && cfg.graceMs == 5
    ensures var c := Since(Some(start), None, [TheLaunch()]);
            && RunTick(cfg, c, TickAt(now, None)).next == Since(Some(start), Some(now), [TheLaunch()])
            && SignalsAt(cfg, c, TickAt(now, None)) == []
  {
    var c := Since(Some(start), None, [TheLaunch()]);
    FinishedKeys("");
    OneLaunchTick(cfg, c, now, None);
    OneLaunchSignals(cfg, c, now, None);
    hide RunTick, SignalsAt, TerminalKeys;
  }

  /** An idle shutdown, with what the orphan route signals in the same tick. */
  lemma ShutDownTick(cfg: Config, log: seq<Record>, start: int, orphan: Option<int>, now: int, room: string)
    requires cfg.idleEnabled && cfg.idleShutdownMs == 10 && now - start >= 10 && (room == "" || room == "r")
    requires log == [TheLaunch()] || (log == LogAfter("r") && !cfg.orphanEnabled)
    requires cfg.graceMs == 5 && (orphan.Some? ==> now - orphan.value >= 5)
    ensures SignalsAt(cfg, Since(Some(start), orphan, log), TickAt(now, Some(room)))
            == (if cfg.orphanEnabled && orphan.Some? then [TheProcess(), TheProcess()] else [TheProcess()])
  {
    hide RunTick, SignalsAt, TerminalKeys, LatestLaunch, IdleStep;
    FinishedKeys(room);
    OneLaunchTick(cfg, Since(Some(start), orphan, log), now, Some(room));
    OneLaunchSignals(cfg, Since(Some(start), orphan, log), now, Some(room));
    IdleStepShutsDown(cfg, log, start, now, room);
    assert {"s"} - {"s"} == {};
    OrphanStepUnregistered(cfg, now, orphan, TerminalKeys(log));
    hide OrphanStep;
  }

  /** The state after an idle shutdown of the launched process. */
  lemma AfterShutDown(cfg: Config, start: int, now: int, room: string)
    requires cfg.idleEnabled && cfg.idleShutdownMs == 10 && now - start >= 10 && (room == "" || room == "r")
    requires cfg.graceMs == 5
    ensures RunTick(cfg, Since(Some(start), None, [TheLaunch()]), TickAt(now, Some(room))).next
            == Since(None, if cfg.orphanEnabled then Some(now) else None, LogAfter(room))
  {
    hide RunTick, TerminalKeys, LatestLaunch, IdleStep;
    var log := [TheLaunch()];
    FinishedKeys(room);
    OneLaunchTick(cfg, Since(Some(start), None, log), now, Some(room));
    IdleStepShutsDown(cfg, log, start, now, room);
    assert {"s"} - {"s"} == {};
    OrphanStepUnregistered(cfg, now, None, TerminalKeys(log));
    hide OrphanStep;
    assert log + ShutDownRecords(room) + [] == log + ShutDownRecords(room);
  }

  lemma OrphanStepUnregistered(cfg: Config, now: int, orphan: Option<int>, terminal: set<ProcessKey>)
    requires cfg.graceMs == 5 && (orphan.Some? ==> now - orphan.value >= 5)
    ensures var st := OrphanState(OrphanClock(orphan), terminal, [], []);
            var next := OrphanStep(cfg, View(now, {}, {7}, {7}), TheLaunch(), st);
            && next.signalled == (if TheProcess() !in terminal && cfg.orphanEnabled && orphan.Some?
                                  then [TheProcess()] else [])
            && (TheProcess() !in terminal && orphan.None? ==>
                  && next.appended == []
                  && next.seen == OrphanClock(if cfg.orphanEnabled then Some(now) else None))
  {
  }

  lemma TwoTicks(
    cfg: Config, log: seq<Record>, ticks: seq<Tick>, n: nat, t: Tick, u: Tick, a: Control, b: Control)
    requires n + 2 <= |ticks| && ticks[n] == t && ticks[n + 1] == u
    requires a == Before(cfg, log, ticks, n) && RunTick(cfg, a, t).next == b
    ensures Before(cfg, log, ticks, n + 2) == RunTick(cfg, b, u).next
    ensures AllSignals(cfg, log, ticks, n + 2)
            == AllSignals(cfg, log, ticks, n) + (SignalsAt(cfg, a, t) + SignalsAt(cfg, b, u))
  {
    hide SignalsAt, RunTick;
    assert Before(cfg, log, ticks, n + 1) == b;
    var before, first, second := AllSignals(cfg, log, ticks, n), SignalsAt(cfg, a, t), SignalsAt(cfg, b, u);
    assert (before + first) + second == before + (first + second);
  }

  /** Two ticks that find the registered server idle, the second late enough to shut it down. */
  lemma FoundIdleTwice(
    cfg: Config, first: seq<Record>, ticks: seq<Tick>, n: nat, log: seq<Record>, room: string, start: int, now: int)
    requires cfg.idleEnabled && cfg.idleShutdownMs == 10 && now - start >= 10 && (room == "" || room == "r")
    requires cfg.graceMs == 5 && (log == [TheLaunch()] || (log == LogAfter("r") && !cfg.orphanEnabled))
    requires n + 2 <= |ticks| && Before(cfg, first, ticks, n) == Since(None, None, log)
    requires ticks[n] == TickAt(start, Some(room)) && ticks[n + 1] == TickAt(now, Some(room))
    ensures AllSignals(cfg, first, ticks, n + 2) == AllSignals(cfg, first, ticks, n) + [TheProcess()]
    ensures log == [TheLaunch()] ==>
              Before(cfg, first, ticks, n + 2)
              == Since(None, if cfg.orphanEnabled then Some(now) else None, LogAfter(room))
  {
    hide *;
    ClockStarts(cfg, log, start, room);
    TwoTicks(cfg, first, ticks, n, ticks[n], ticks[n + 1], Since(None, None, log), Since(Some(start), None, log));
    ShutDownTick(cfg, log, start, None, now, room);
    if log == [TheLaunch()] {
      AfterShutDown(cfg, start, now, room);
    }
    assert [] + [TheProcess()] == [TheProcess()];
  }

  lemma ThirdTick(cfg: Config, log: seq<Record>, ticks: seq<Tick>, t: Tick, a: Control)
    requires |ticks| == 3 && ticks[2] == t && a == Before(cfg, log, ticks, 2)
    ensures AllSignals(cfg, log, ticks, 3) == AllSignals(cfg, log, ticks, 2) + SignalsAt(cfg, a, t)
  {
    hide SignalsAt, RunTick, Before;
  }

  /** Registered without a room, shut down as idle, then unregistered: the orphan route signals the process again. */
  lemma SignalledByBothRoutes()
    ensures var cfg, log := Config(true, 10, true, 5), [TheLaunch()];
            var ticks := [TickAt(100, Some("")), TickAt(110, Some("")), TickAt(115, None)];
            AllSignals(cfg, log, ticks, 3) == [TheProcess(), TheProcess()]
  {
    var cfg, log := Config(true, 10, true, 5), [TheLaunch()];
    var t, u, v := TickAt(100, Some("")), TickAt(110, Some("")), TickAt(115, None);
    var ticks := [t, u, v];
    assert Before(cfg, log, ticks, 0) == Since(None, None, log) && AllSignals(cfg, log, ticks, 0) == [];
    hide *;
    FoundIdleTwice(cfg, log, ticks, 0, log, "", 100, 110);
    OrphanIsDue(cfg, 110, 115);
    ThirdTick(cfg, log, ticks, v, Since(None, Some(110), LogAfter("")));
  }

  lemma OrphanIsDue(cfg: Config, start: int, now: int)
    requires cfg.orphanEnabled && cfg.graceMs == 5 && now - start >= 5
    ensures var c := Since(None, Some(start), LogAfter(""));
            SignalsAt(cfg, c, TickAt(now, None)) == [TheProcess()]
  {
    var c := Since(None, Some(start), LogAfter(""));
    FinishedKeys("");
    OneLaunchTick(cfg, c, now, None);
    OneLaunchSignals(cfg, c, now, None);
    hide RunTick, SignalsAt, TerminalKeys;
  }

  /** Unregistered for a while and registered again: both clocks have run out, and both routes signal in one tick. */
  lemma SignalledTwiceInOneTick()
    ensures var cfg, log := Config(true, 10, true, 5), [TheLaunch()];
            var ticks := [TickAt(100, Some("r")), TickAt(105, None), TickAt(112, Some("r"))];
            AllSignals(cfg, log, ticks, 3) == [TheProcess(), TheProcess()]
  {
    var cfg, log := Config(true, 10, true, 5), [TheLaunch()];
    var t, u, v := TickAt(100, Some("r")), TickAt(105, None), TickAt(112, Some("r"));
    var ticks := [t, u, v];
    assert Before(cfg, log, ticks, 0) == Since(None, None, log) && AllSignals(cfg, log, ticks, 0) == [];
    hide *;
    ClockStarts(cfg, log, 100, "r");
    OrphanClockStarts(cfg, 100, 105);
    TwoTicks(cfg, log, ticks, 0, t, u, Since(None, None, log), Since(Some(100), None, log));
    ShutDownTick(cfg, log, 100, Some(105), 112, "r");
    ThirdTick(cfg, log, ticks, v, Since(Some(100), Some(105), log));
  }

  /** Shut down as idle, still running, and registered again: the idle route does not ask whether it was finished. */
  lemma ShutDownTwice()
    ensures var cfg, log := Config(true, 10, false, 5), [TheLaunch()];
            var room := Some("r");
            var ticks := [TickAt(100, room), TickAt(110, room), TickAt(115, room), TickAt(125, room)];
            AllSignals(cfg, log, ticks, 4) == [TheProcess(), TheProcess()]
  {
    var cfg, log, room := Config(true, 10, false, 5), [TheLaunch()], Some("r");
    var ticks := [TickAt(100, room), TickAt(110, room), TickAt(115, room), TickAt(125, room)];
    assert Before(cfg, log, ticks, 0) == Since(None, None, log) && AllSignals(cfg, log, ticks, 0) == [];
    hide *;
    FoundIdleTwice(cfg, log, ticks, 0, log, "r", 100, 110);
    FoundIdleTwice(cfg, log, ticks, 2, LogAfter("r"), "r", 115, 125);
  }
}
