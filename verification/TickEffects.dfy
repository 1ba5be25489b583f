/** What one cleanup tick decides about each server and each process, and what it logs about them. */
module TickEffects {
  import opened Common
  import opened Manifest
  import opened ProcessLifecycle
  import opened ProcessLifecycleProofs

  // ---- registered servers ----

  /** The record launches the server, in the room that it reports if it reports one. */
  predicate Launches(r: Record, s: ServerView) {
    r.event == "launched" && r.serverId == s.serverId && (s.roomId == "" || r.roomId == s.roomId)
  }

  /** The last launch of the server has this pid. */
  ghost predicate LastLaunchedAs(records: seq<Record>, s: ServerView, pid: int) {
    exists i | 0 <= i < |records| ::
      Launches(records[i], s) && records[i].pid == pid && forall j | i < j < |records| :: !Launches(records[j], s)
  }

  lemma SameLaunch(records: seq<Record>, s: ServerView)
    ensures forall r :: Launches(r, s) <==> LaunchOf(r, s.serverId, s.roomId)
    ensures var found := LatestLaunch(records, s.serverId, s.roomId);
            && (found.None? <==> forall r | r in records :: !Launches(r, s))
            && (forall pid :: LastLaunchedAs(records, s, pid) <==> found.Some? && found.value.pid == pid)
  {
    LatestLaunchIsLast(records, s.serverId, s.roomId);
    var found := LatestLaunch(records, s.serverId, s.roomId);
    hide LatestLaunch;
    if found.Some? {
      var i :| 0 <= i < |records| && records[i] == found.value && LaunchOf(records[i], s.serverId, s.roomId)
        && forall j | i < j < |records| :: !LaunchOf(records[j], s.serverId, s.roomId);
      assert Launches(records[i], s);
      assert LastLaunchedAs(records, s, found.value.pid);
      forall pid | LastLaunchedAs(records, s, pid) ensures pid == found.value.pid {
        var k :| 0 <= k < |records| && Launches(records[k], s) && records[k].pid == pid
          && forall j | k < j < |records| :: !Launches(records[j], s);
        assert k < i || k == i || i < k;
      }
    }
  }

  /** Since when the clock says that the server is empty. */
  function EmptySince(c: Control, t: Tick, id: string): int {
    if id in c.emptySeen then c.emptySeen[id] else t.now
  }

  /** No verdict but this: what a tick says of a server whose last launch has the given pid. */
  lemma VerdictExactly(cfg: Config, c: Control, t: Tick, i: nat, pid: int)
    requires ListedOnce(t) && i < |t.servers|
    ensures |RunTick(cfg, c, t).verdicts| == |t.servers|
    ensures var s, v := t.servers[i], RunTick(cfg, c, t).verdicts[i];
            v == MissingManifest <==> forall r | r in Snapshot(c, t) :: !Launches(r, s)
    ensures var s, v := t.servers[i], RunTick(cfg, c, t).verdicts[i];
            var runs := pid > 0 && pid in t.live;
            var idle := runs && cfg.idleEnabled && s.serverId !in t.permanent && s.currentPlayers <= 0;
            var due := t.now - EmptySince(c, t, s.serverId) >= cfg.idleShutdownMs;
            LastLaunchedAs(Snapshot(c, t), s, pid) ==>
              && (v == ProcessDead <==> !runs)
              && (v == IdleDisabled <==> runs && !cfg.idleEnabled)
              && (v == PermanentSession <==> runs && cfg.idleEnabled && s.serverId in t.permanent)
              && (v == Occupied <==> runs && cfg.idleEnabled && s.serverId !in t.permanent && s.currentPlayers > 0)
              && (v == Waiting <==> idle && !due)
              && (v == SignalFailed <==> idle && due && pid !in t.signalOk)
              && (v == ShutDown <==> idle && due && pid in t.signalOk)
  {
    hide RunTick, LatestLaunch, LastLaunchedAs, Launches, Snapshot;
    TickVerdict(cfg, c, t, i);
    SameLaunch(Snapshot(c, t), t.servers[i]);
  }

  /** What a verdict leaves of the empty-since clock of its server, and of its place in the registry. */
  lemma VerdictMovesClock(cfg: Config, c: Control, t: Tick, i: nat)
    requires ListedOnce(t) && i < |t.servers|
    ensures |RunTick(cfg, c, t).verdicts| == |t.servers|
    ensures var id, v, next := t.servers[i].serverId, RunTick(cfg, c, t).verdicts[i], RunTick(cfg, c, t).next;
            && (v in {ProcessDead, PermanentSession, Occupied, ShutDown} ==> id !in next.emptySeen)
            && (v in {Waiting, SignalFailed} ==>
                  id in next.emptySeen && next.emptySeen[id] == EmptySince(c, t, id))
            && (v in {MissingManifest, IdleDisabled} ==> SameClock(next.emptySeen, c.emptySeen, id))
            && (id in OrphanView(cfg, c, t).active <==> v !in {ProcessDead, ShutDown} && id !in t.limitRemoved)
  {
    hide RunTick, Judge;
    TickVerdict(cfg, c, t, i);
    GoneExactly(cfg, c, t, i);
    assert t.servers[i] in t.servers;
    hide Idle;
  }

  lemma GoneExactly(cfg: Config, c: Control, t: Tick, i: nat)
    requires ListedOnce(t) && i < |t.servers|
    ensures |RunTick(cfg, c, t).verdicts| == |t.servers|
    ensures t.servers[i].serverId in Idle(cfg, c, t).gone
       <==> RunTick(cfg, c, t).verdicts[i] in {ProcessDead, ShutDown}
  {
    hide IdlePass;
    GoneInPass(cfg, t, Snapshot(c, t), |t.servers|, c.emptySeen, i);
  }

  lemma {:induction false} GoneInPass(
    cfg: Config, t: Tick, records: seq<Record>, n: nat, seen: map<string, int>, i: nat)
    requires ListedOnce(t) && i < |t.servers| && n <= |t.servers|
    ensures var st := IdlePass(cfg, t, records, n, seen);
            t.servers[i].serverId in st.gone <==> i < n && st.verdicts[i] in {ProcessDead, ShutDown}
  {
    hide Judge, SeenAfter;
    if n > 0 {
      GoneInPass(cfg, t, records, n - 1, seen, i);
      assert i < n - 1 || i == n - 1 || n - 1 < i;
    }
  }

  // ---- what the idle route logs ----

  /** The records about one server, in order. */
  function RecordsOf(log: seq<Record>, id: string): seq<Record> {
    if log == [] then [] else
      RecordsOf(log[..|log| - 1], id) + (if log[|log| - 1].serverId == id then [log[|log| - 1]] else [])
  }

  lemma {:induction false} RecordsOfJoined(a: seq<Record>, b: seq<Record>, id: string)
    ensures RecordsOf(a + b, id) == RecordsOf(a, id) + RecordsOf(b, id)
  {
    if b == [] {
      assert a + b == a;
    } else {
      var front := b[..|b| - 1];
      RecordsOfJoined(a, front, id);
      assert (a + b)[..|a + b| - 1] == a + front;
      assert RecordsOf(a, id) + RecordsOf(b, id) == RecordsOf(a, id) + RecordsOf(front, id)
        + (if b[|b| - 1].serverId == id then [b[|b| - 1]] else []);
    }
  }

  lemma {:induction false} RecordsInLog(log: seq<Record>, id: string)
    ensures forall r :: r in RecordsOf(log, id) <==> r in log && r.serverId == id
  {
    if log != [] {
      RecordsInLog(log[..|log| - 1], id);
      assert log == log[..|log| - 1] + [log[|log| - 1]];
    }
  }

  lemma StepRecords(cfg: Config, t: Tick, records: seq<Record>, s: ServerView, st: IdleState, id: string)
    ensures var v, launch := Judge(cfg, t, records, s, st.seen), LatestLaunch(records, s.serverId, s.roomId);
            RecordsOf(IdleStep(cfg, t, records, s, st).appended, id) == RecordsOf(st.appended, id)
              + (if s.serverId == id then IdleRecords(v, s, if launch.Some? then launch.value.pid else 0) else [])
  {
    hide Judge, LatestLaunch;
    var v, launch := Judge(cfg, t, records, s, st.seen), LatestLaunch(records, s.serverId, s.roomId);
    var logged := IdleRecords(v, s, if launch.Some? then launch.value.pid else 0);
    RecordsOfJoined(st.appended, logged, id);
    OneServer(logged, s.serverId, id);
  }

  lemma {:induction false} OneServer(log: seq<Record>, serverId: string, id: string)
    requires forall r | r in log :: r.serverId == serverId
    ensures RecordsOf(log, id) == if serverId == id then log else []
  {
    if log != [] {
      var front := log[..|log| - 1];
      assert log == front + [log[|log| - 1]];
      OneServer(front, serverId, id);
    }
  }

  lemma {:induction false} PassRecords(
    cfg: Config, t: Tick, records: seq<Record>, n: nat, seen: map<string, int>, i: nat)
    requires ListedOnce(t) && i < |t.servers| && n <= |t.servers|
    ensures var s, st := t.servers[i], IdlePass(cfg, t, records, n, seen);
            var launch := LatestLaunch(records, s.serverId, s.roomId);
            RecordsOf(st.appended, s.serverId) ==
              if i < n then IdleRecords(st.verdicts[i], s, if launch.Some? then launch.value.pid else 0) else []
  {
    hide Judge, LatestLaunch, IdleRecords;
    if n > 0 {
      PassRecords(cfg, t, records, n - 1, seen, i);
      StepRecords(cfg, t, records, t.servers[n - 1], IdlePass(cfg, t, records, n - 1, seen), t.servers[i].serverId);
      hide RecordsOf;
      assert i < n - 1 || i == n - 1 || n - 1 < i;
    }
  }

  /**
   What the idle route logs about a server whose last launch has the given pid: its cleanup when the process has
   died, the request and the signal when it is shut down, the request alone when the signal failed, else nothing.
   Everything it logs is in the manifest afterwards.
   */
  lemma VerdictIsLogged(cfg: Config, c: Control, t: Tick, i: nat, pid: int)
    requires ListedOnce(t) && i < |t.servers|
    ensures |RunTick(cfg, c, t).verdicts| == |t.servers|
    ensures var s, v, logged := t.servers[i], RunTick(cfg, c, t).verdicts[i], Idle(cfg, c, t).appended;
            var found := Record("process_not_alive_cleanup", s.serverId, s.roomId, pid);
            var requested := Record("idle_shutdown_requested", s.serverId, s.roomId, pid);
            var sent := Record("idle_shutdown_signal_sent", s.serverId, s.roomId, pid);
            && (v in {MissingManifest, IdleDisabled, PermanentSession, Occupied, Waiting} ==>
                  RecordsOf(logged, s.serverId) == [])
            && (LastLaunchedAs(Snapshot(c, t), s, pid) ==>
                  && (v == ProcessDead ==> RecordsOf(logged, s.serverId) == [found])
                  && (v == SignalFailed ==> RecordsOf(logged, s.serverId) == [requested])
                  && (v == ShutDown ==> RecordsOf(logged, s.serverId) == [requested, sent]))
    ensures forall r | r in Idle(cfg, c, t).appended :: r in RunTick(cfg, c, t).next.log
  {
    hide LastLaunchedAs, IdlePass, LatestLaunch, Orphans, RecordsOf, Snapshot;
    SameLaunch(Snapshot(c, t), t.servers[i]);
    PassRecords(cfg, t, Snapshot(c, t), |t.servers|, c.emptySeen, i);
  }

  /**
   A registered server is found dead if and only if the manifest holds a launch of it in the room it reports and the
   pid of the last one is not running; then its cleanup is logged, its clock deleted and its registration gone.
   */
  lemma DeadServerIsRemoved(cfg: Config, c: Control, t: Tick, i: nat)
    requires ListedOnce(t) && i < |t.servers|
    ensures |RunTick(cfg, c, t).verdicts| == |t.servers|
    ensures var s := t.servers[i];
            RunTick(cfg, c, t).verdicts[i] == ProcessDead <==>
              exists pid :: LastLaunchedAs(Snapshot(c, t), s, pid) && !(pid > 0 && pid in t.live)
    ensures var s, next := t.servers[i], RunTick(cfg, c, t).next;
            forall pid | LastLaunchedAs(Snapshot(c, t), s, pid) && !(pid > 0 && pid in t.live) ::
              && Record("process_not_alive_cleanup", s.serverId, s.roomId, pid) in next.log
              && s.serverId !in next.emptySeen && s.serverId !in OrphanView(cfg, c, t).active
  {
    hide RunTick, LastLaunchedAs, Idle, OrphanView, Snapshot, LatestLaunch;
    var s := t.servers[i];
    TickVerdict(cfg, c, t, i);
    SameLaunch(Snapshot(c, t), s);
    var launch := LatestLaunch(Snapshot(c, t), s.serverId, s.roomId);
    assert launch.Some? ==> LastLaunchedAs(Snapshot(c, t), s, launch.value.pid);
    VerdictMovesClock(cfg, c, t, i);
    forall pid | LastLaunchedAs(Snapshot(c, t), s, pid)
      ensures !(pid > 0 && pid in t.live) ==>
        Record("process_not_alive_cleanup", s.serverId, s.roomId, pid) in RunTick(cfg, c, t).next.log
    {
      VerdictExactly(cfg, c, t, i, pid);
      VerdictIsLogged(cfg, c, t, i, pid);
      RecordsInLog(Idle(cfg, c, t).appended, s.serverId);
    }
  }

  // ---- orphan processes ----

  /** The records about one process, in order. */
  function RecordsFor(log: seq<Record>, key: ProcessKey): seq<Record> {
    if log == [] then [] else
      RecordsFor(log[..|log| - 1], key) + (if KeyOf(log[|log| - 1]) == key then [log[|log| - 1]] else [])
  }

  lemma {:induction false} RecordsForJoined(a: seq<Record>, b: seq<Record>, key: ProcessKey)
    ensures RecordsFor(a + b, key) == RecordsFor(a, key) + RecordsFor(b, key)
  {
    if b == [] {
      assert a + b == a;
    } else {
      var front := b[..|b| - 1];
      RecordsForJoined(a, front, key);
      assert (a + b)[..|a + b| - 1] == a + front;
      assert RecordsFor(a, key) + RecordsFor(b, key) == RecordsFor(a, key) + RecordsFor(front, key)
        + (if KeyOf(b[|b| - 1]) == key then [b[|b| - 1]] else []);
    }
  }

  lemma {:induction false} OneProcess(log: seq<Record>, of: ProcessKey, key: ProcessKey)
    requires forall r | r in log :: KeyOf(r) == of
    ensures RecordsFor(log, key) == if of == key then log else []
  {
    if log != [] {
      var front := log[..|log| - 1];
      assert log == front + [log[|log| - 1]];
      OneProcess(front, of, key);
    }
  }

  /** How often the manifest launches the process. */
  function Launchings(records: seq<Record>, key: ProcessKey): nat {
    if records == [] then 0 else
      Launchings(records[..|records| - 1], key)
      + (if Launched(records[|records| - 1]) && KeyOf(records[|records| - 1]) == key then 1 else 0)
  }

  /** What the orphan route logs about a process. */
  function OrphanRecords(cfg: Config, v: View, records: seq<Record>, st: OrphanState, key: ProcessKey): seq<Record> {
    var requested := Record("orphan_shutdown_requested", key.serverId, key.roomId, key.pid);
    var sent := Record("orphan_shutdown_signal_sent", key.serverId, key.roomId, key.pid);
    if key in st.terminal || !LaunchedKey(records, key) || key.serverId in v.active then []
    else if !(key.pid > 0 && key.pid in v.live)
    then [Record("process_not_alive_cleanup", key.serverId, key.roomId, key.pid)]
    else if !cfg.orphanEnabled || v.now - FirstSeen(st.seen, key, v.now) < cfg.graceMs then []
    else if key.pid in v.signalOk then [requested, sent]
    else seq(Launchings(records, key), _ => requested)
  }

  lemma {:induction false} NoneLaunched(records: seq<Record>, key: ProcessKey)
    ensures LaunchedKey(records, key) <==> Launchings(records, key) > 0
  {
    if records != [] {
      NoneLaunched(records[..|records| - 1], key);
      assert records == records[..|records| - 1] + [records[|records| - 1]];
    }
  }

  /** What the step on one record logs about a process. */
  lemma OrphanStepRecords(cfg: Config, v: View, r: Record, st: OrphanState, key: ProcessKey)
    ensures var next := OrphanStep(cfg, v, r, st);
            && RecordsFor(next.appended, key) == RecordsFor(st.appended, key) + OrphanRecords(cfg, v, [r], st, key)
            && (!(Launched(r) && KeyOf(r) == key) ==> OrphanRecords(cfg, v, [r], st, key) == [])
  {
    var next := OrphanStep(cfg, v, r, st);
    StepAppends(cfg, v, r, st);
    var logged := next.appended[|st.appended|..];
    assert logged == OrphanRecords(cfg, v, [r], st, KeyOf(r));
    RecordsForJoined(st.appended, logged, key);
    LoggedKey(cfg, v, r, st);
    OneProcess(logged, KeyOf(r), key);
    OneLaunch(r, key);
    hide OrphanStep, RecordsFor;
  }

  lemma OneLaunch(r: Record, key: ProcessKey)
    ensures LaunchedKey([r], key) <==> Launched(r) && KeyOf(r) == key
    ensures Launchings([r], key) == if Launched(r) && KeyOf(r) == key then 1 else 0
  {
    assert [r][..0] == [];
    assert Launchings([], key) == 0;
    assert r in [r];
  }

  lemma StepAppends(cfg: Config, v: View, r: Record, st: OrphanState)
    ensures OrphanStep(cfg, v, r, st).appended == st.appended + OrphanRecords(cfg, v, [r], st, KeyOf(r))
  {
    OneLaunch(r, KeyOf(r));
    hide LaunchedKey, Launchings;
    var requested := Record("orphan_shutdown_requested", r.serverId, r.roomId, r.pid);
    assert seq(1, _ => requested) == [requested];
    assert st.appended + [] == st.appended;
  }

  lemma LoggedKey(cfg: Config, v: View, r: Record, st: OrphanState)
    ensures forall x | x in OrphanRecords(cfg, v, [r], st, KeyOf(r)) :: KeyOf(x) == KeyOf(r)
  {
  }

  lemma {:induction false} OrphanPassRecords(
    cfg: Config, v: View, records: seq<Record>, st: OrphanState, key: ProcessKey)
    ensures RecordsFor(OrphanPass(cfg, v, records, st).appended, key)
         == RecordsFor(st.appended, key) + OrphanRecords(cfg, v, records, st, key)
    decreases |records|
  {
    if records != [] {
      var init, last := records[..|records| - 1], records[|records| - 1];
      assert records == init + [last];
      var next := OrphanStep(cfg, v, last, st);
      OrphanPassRecords(cfg, v, init, next, key);
      OrphanStepRecords(cfg, v, last, st, key);
      OrphanRecordsJoin(cfg, v, init, last, st, key);
      hide OrphanRecords, OrphanStep, RecordsFor;
    } else {
      NoneLaunched(records, key);
      assert RecordsFor(st.appended, key) + [] == RecordsFor(st.appended, key);
    }
  }

  lemma OrphanRecordsJoin(cfg: Config, v: View, init: seq<Record>, last: Record, st: OrphanState, key: ProcessKey)
    ensures OrphanRecords(cfg, v, init + [last], st, key)
         == OrphanRecords(cfg, v, [last], st, key) + OrphanRecords(cfg, v, init, OrphanStep(cfg, v, last, st), key)
  {
    assert (init + [last])[..|init|] == init;
    OneLaunch(last, key);
    NoneLaunched(init, key);
    NoneLaunched(init + [last], key);
    assert Launchings(init + [last], key) == Launchings(init, key) + Launchings([last], key);
    hide LaunchedKey, Launchings;
    if !(Launched(last) && KeyOf(last) == key) {
      OtherKey(cfg, v, last, st, key);
    }
  }

  /** A record of another process leaves everything that concerns this one. */
  lemma OtherKey(cfg: Config, v: View, r: Record, st: OrphanState, key: ProcessKey)
    requires !(Launched(r) && KeyOf(r) == key)
    ensures var next := OrphanStep(cfg, v, r, st);
            && (key in next.terminal <==> key in st.terminal)
            && FirstSeen(next.seen, key, v.now) == FirstSeen(st.seen, key, v.now)
  {
  }

  /**
   What the orphan route logs about a process over one tick: nothing unless it was launched, is unregistered and not
   yet finished; its cleanup when it is not running; the request and the signal when its grace period is over, or, where
   the signal fails, one request for each of its launches.
   */
  lemma OrphanIsLogged(cfg: Config, c: Control, t: Tick, key: ProcessKey)
    ensures var records, logged := Snapshot(c, t), RecordsFor(Orphans(cfg, c, t).appended, key);
            var cleanup := Record("process_not_alive_cleanup", key.serverId, key.roomId, key.pid);
            var requested := Record("orphan_shutdown_requested", key.serverId, key.roomId, key.pid);
            var sent := Record("orphan_shutdown_signal_sent", key.serverId, key.roomId, key.pid);
            var orphaned := key !in TerminalKeys(records) && key.serverId !in OrphanView(cfg, c, t).active
              && (exists r :: r in records && r.event == "launched" && KeyOf(r) == key);
            var runs := key.pid > 0 && key.pid in t.live;
            var since := if key in c.orphanSeen then c.orphanSeen[key] else t.now;
            var due := cfg.orphanEnabled && t.now - since >= cfg.graceMs;
            && (!orphaned || (runs && !due) ==> logged == [])
            && (orphaned && !runs ==> logged == [cleanup])
            && (orphaned && runs && due && key.pid in t.signalOk ==> logged == [requested, sent])
            && (orphaned && runs && due && key.pid !in t.signalOk ==>
                  |logged| == Launchings(records, key) && forall r | r in logged :: r == requested)
    ensures forall r | r in Orphans(cfg, c, t).appended :: r in RunTick(cfg, c, t).next.log
  {
    var v, records := OrphanView(cfg, c, t), Snapshot(c, t);
    OrphanPassRecords(cfg, v, records, OrphanState(c.orphanSeen, TerminalKeys(records), [], []), key);
    hide OrphanPass, TerminalKeys, Idle, Launchings;
  }

  /** The servers that the orphan route takes for registered. */
  lemma RegisteredExactly(cfg: Config, c: Control, t: Tick, id: string)
    requires ListedOnce(t)
    ensures |RunTick(cfg, c, t).verdicts| == |t.servers|
    ensures id in OrphanView(cfg, c, t).active <==>
              exists i | 0 <= i < |t.servers| ::
                t.servers[i].serverId == id && RunTick(cfg, c, t).verdicts[i] !in {ProcessDead, ShutDown}
                && id !in t.limitRemoved
  {
    assert |RunTick(cfg, c, t).verdicts| == |t.servers|;
    hide RunTick, Idle;
    if i :| 0 <= i < |t.servers| && t.servers[i].serverId == id {
      GoneExactly(cfg, c, t, i);
      assert t.servers[i] in t.servers;
      ListedAs(t, i);
    }
  }
}
