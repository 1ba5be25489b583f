/**
 The cleanup tick of the control plane: it shuts down dedicated servers that stayed
 empty and processes that run without being registered, and logs both in the manifest.
 */
module ProcessLifecycle {
  import opened Common
  import opened Manifest

  datatype Config = Config(idleEnabled: bool, idleShutdownMs: int, orphanEnabled: bool, graceMs: int)

  datatype ServerView = ServerView(serverId: string, roomId: string, currentPlayers: int)

  /**
   What one tick meets: the time, the registered servers, the records others appended since
   the last tick, the running pids, the servers with a permanent open session, the pids that
   accept the signal, and what the resource-limit pass removes and logs in between.
   */
  datatype Tick = Tick(
    now: int, servers: seq<ServerView>, arrivals: seq<Record>, live: set<int>, permanent: set<string>,
    signalOk: set<int>, limitRemoved: set<string>, limitRecords: seq<Record>)

  // ---- idle servers ----

  datatype Verdict =
    | MissingManifest | ProcessDead | IdleDisabled | PermanentSession | Occupied
    | Waiting | SignalFailed | ShutDown

  function FirstSeen<K>(seen: map<K, int>, key: K, now: int): int {
    if key in seen then seen[key] else now
  }

  function Judge(cfg: Config, t: Tick, records: seq<Record>, server: ServerView, seen: map<string, int>): Verdict {
    match LatestLaunch(records, server.serverId, server.roomId)
    case None => MissingManifest
    case Some(launch) =>
      if !Alive(t.live, launch.pid) then ProcessDead
      else if !cfg.idleEnabled then IdleDisabled
      else if server.serverId in t.permanent then PermanentSession
      else if server.currentPlayers > 0 then Occupied
      else if t.now - FirstSeen(seen, server.serverId, t.now) < cfg.idleShutdownMs then Waiting
      else if launch.pid in t.signalOk then ShutDown
      else SignalFailed
  }

  function SeenAfter(v: Verdict, seen: map<string, int>, serverId: string, now: int): map<string, int> {
    match v
    case MissingManifest | IdleDisabled => seen
    case Waiting | SignalFailed => seen[serverId := FirstSeen(seen, serverId, now)]
    case _ => seen - {serverId}
  }

  function IdleRecords(v: Verdict, server: ServerView, pid: int): seq<Record> {
    match v
    case ProcessDead => [Record(NOT_ALIVE, server.serverId, server.roomId, pid)]
    case SignalFailed => [Record("idle_shutdown_requested", server.serverId, server.roomId, pid)]
    case ShutDown => [Record("idle_shutdown_requested", server.serverId, server.roomId, pid),
                      Record(IDLE_SHUTDOWN, server.serverId, server.roomId, pid)]
    case _ => []
  }

  /** The empty-since clock, what was logged, the servers taken out of the registry, the verdicts so far. */
  datatype IdleState = IdleState(seen: map<string, int>, appended: seq<Record>, gone: set<string>,
    verdicts: seq<Verdict>)

  function IdleStep(cfg: Config, t: Tick, records: seq<Record>, server: ServerView, st: IdleState): IdleState {
    var v := Judge(cfg, t, records, server, st.seen);
    var launch := LatestLaunch(records, server.serverId, server.roomId);
    IdleState(
      SeenAfter(v, st.seen, server.serverId, t.now),
      st.appended + IdleRecords(v, server, if launch.Some? then launch.value.pid else 0),
      st.gone + (if v == ProcessDead || v == ShutDown then {server.serverId} else {}),
      st.verdicts + [v])
  }

  /** The idle pass over the first `n` servers. */
  function IdlePass(cfg: Config, t: Tick, records: seq<Record>, n: nat, seen: map<string, int>): (st: IdleState)
    requires n <= |t.servers|
    ensures |st.verdicts| == n
  {
    if n == 0 then IdleState(seen, [], {}, [])
    else IdleStep(cfg, t, records, t.servers[n - 1], IdlePass(cfg, t, records, n - 1, seen))
  }

  // ---- orphan processes ----

  /** What the orphan pass looks at besides the records: the time, the registered servers, the pids. */
  datatype View = View(now: int, active: set<string>, live: set<int>, signalOk: set<int>)

  datatype OrphanState = OrphanState(
    seen: map<ProcessKey, int>, terminal: set<ProcessKey>, signalled: seq<ProcessKey>, appended: seq<Record>)

  function OrphanStep(cfg: Config, v: View, r: Record, st: OrphanState): OrphanState {
    var key := KeyOf(r);
    if !Launched(r) || key in st.terminal then st
    else if r.serverId in v.active then st.(seen := st.seen - {key})
    else if !Alive(v.live, r.pid) then
      OrphanState(st.seen - {key}, st.terminal + {key}, st.signalled,
        st.appended + [Record(NOT_ALIVE, r.serverId, r.roomId, r.pid)])
    else if !cfg.orphanEnabled then st
    else
      var first := FirstSeen(st.seen, key, v.now);
      if v.now - first < cfg.graceMs then st.(seen := st.seen[key := first])
      else if r.pid in v.signalOk then
        OrphanState(st.seen - {key}, st.terminal + {key}, st.signalled + [key],
          st.appended + [Record("orphan_shutdown_requested", r.serverId, r.roomId, r.pid),
                         Record(ORPHAN_SHUTDOWN, r.serverId, r.roomId, r.pid)])
      else
        st.(seen := st.seen[key := first],
            appended := st.appended + [Record("orphan_shutdown_requested", r.serverId, r.roomId, r.pid)])
  }

  /** The orphan pass over `records`, newest first. */
  function OrphanPass(cfg: Config, v: View, records: seq<Record>, st: OrphanState): OrphanState
    decreases |records|
  {
    if records == [] then st
    else OrphanPass(cfg, v, records[..|records| - 1], OrphanStep(cfg, v, records[|records| - 1], st))
  }

  // ---- the whole tick ----

  datatype Control = Control(emptySeen: map<string, int>, orphanSeen: map<ProcessKey, int>, log: seq<Record>)

  datatype Outcome = Outcome(next: Control, verdicts: seq<Verdict>, signalled: seq<ProcessKey>)

  function Snapshot(c: Control, t: Tick): seq<Record> {
    c.log + t.arrivals
  }

  function Idle(cfg: Config, c: Control, t: Tick): IdleState {
    IdlePass(cfg, t, Snapshot(c, t), |t.servers|, c.emptySeen)
  }

  function ServerIds(servers: seq<ServerView>): set<string> {
    set s | s in servers :: s.serverId
  }

  /** What the orphan pass sees: the servers removed earlier in the tick are no longer registered. */
  function OrphanView(cfg: Config, c: Control, t: Tick): View {
    View(t.now, ServerIds(t.servers) - Idle(cfg, c, t).gone - t.limitRemoved, t.live, t.signalOk)
  }

  function Orphans(cfg: Config, c: Control, t: Tick): OrphanState {
    OrphanPass(cfg, OrphanView(cfg, c, t), Snapshot(c, t),
      OrphanState(c.orphanSeen, TerminalKeys(Snapshot(c, t)), [], []))
  }

  function RunTick(cfg: Config, c: Control, t: Tick): Outcome {
    var idle, orphans := Idle(cfg, c, t), Orphans(cfg, c, t);
    Outcome(
      Control(idle.seen, orphans.seen, Snapshot(c, t) + idle.appended + t.limitRecords + orphans.appended),
      idle.verdicts,
      orphans.signalled)
  }

  class GameServerControl {
    const cfg: Config
    var emptyServerSeenAtByServerId: map<string, int>
    var orphanProcessSeenAtByProcessKey: map<ProcessKey, int>
    var log: seq<Record>

    ghost function State(): Control
      reads this
    {
      Control(emptyServerSeenAtByServerId, orphanProcessSeenAtByProcessKey, log)
    }

    constructor (cfg: Config, log: seq<Record>)
      ensures this.cfg == cfg && State() == Control(map[], map[], log)
    {
      this.cfg := cfg;
      emptyServerSeenAtByServerId := map[];
      orphanProcessSeenAtByProcessKey := map[];
      this.log := log;
    }

    method CleanupDedicatedServerProcesses(t: Tick) returns (verdicts: seq<Verdict>, signalled: seq<ProcessKey>)
      modifies this
      ensures Outcome(State(), verdicts, signalled) == RunTick(cfg, old(State()), t)
    {
      log := log + t.arrivals;
      var manifestRecords := log;
      var gone;
      verdicts, gone := CleanupIdleServers(t, manifestRecords);
      log := log + t.limitRecords;
      var active := ServerIds(t.servers) - gone - t.limitRemoved;
      signalled := CleanupOrphanProcessesFromManifest(View(t.now, active, t.live, t.signalOk), manifestRecords);
    }

    method CleanupIdleServers(t: Tick, manifestRecords: seq<Record>) returns (verdicts: seq<Verdict>, gone: set<string>)
      modifies this`emptyServerSeenAtByServerId, this`log
      ensures var st := IdlePass(cfg, t, manifestRecords, |t.servers|, old(emptyServerSeenAtByServerId));
              && emptyServerSeenAtByServerId == st.seen && log == old(log) + st.appended
              && verdicts == st.verdicts && gone == st.gone
    {
      hide Judge, SeenAfter, IdleRecords, LatestLaunch;
      verdicts, gone := [], {};
      ghost var appended := [];
      for i := 0 to |t.servers|
        invariant log == old(log) + appended
        invariant IdleState(emptyServerSeenAtByServerId, appended, gone, verdicts)
               == IdlePass(cfg, t, manifestRecords, i, old(emptyServerSeenAtByServerId))
      {
        var server := t.servers[i];
        ghost var before := log;
        var verdict := CleanupIdleServer(t, manifestRecords, server);
        verdicts := verdicts + [verdict];
        if verdict == ProcessDead || verdict == ShutDown {
          gone := gone + {server.serverId};
        }
        appended := appended + log[|before|..];
      }
    }

    /** One server of the idle pass. */
    method CleanupIdleServer(t: Tick, manifestRecords: seq<Record>, server: ServerView) returns (verdict: Verdict)
      modifies this`emptyServerSeenAtByServerId, this`log
      ensures verdict == Judge(cfg, t, manifestRecords, server, old(emptyServerSeenAtByServerId))
      ensures emptyServerSeenAtByServerId ==
        SeenAfter(verdict, old(emptyServerSeenAtByServerId), server.serverId, t.now)
      ensures var launch := LatestLaunch(manifestRecords, server.serverId, server.roomId);
              log == old(log) + IdleRecords(verdict, server, if launch.Some? then launch.value.pid else 0)
    {
      var launch := FindLatestLaunchRecord(manifestRecords, server.serverId, server.roomId);
      if launch.None? {
        return MissingManifest;
      }
      var pid := launch.value.pid;
      if !Alive(t.live, pid) {
        log := log + [Record(NOT_ALIVE, server.serverId, server.roomId, pid)];
        emptyServerSeenAtByServerId := emptyServerSeenAtByServerId - {server.serverId};
        return ProcessDead;
      }
      if !cfg.idleEnabled {
        return IdleDisabled;
      }
      if server.serverId in t.permanent {
        emptyServerSeenAtByServerId := emptyServerSeenAtByServerId - {server.serverId};
        return PermanentSession;
      }
      if server.currentPlayers > 0 {
        emptyServerSeenAtByServerId := emptyServerSeenAtByServerId - {server.serverId};
        return Occupied;
      }
      var before := emptyServerSeenAtByServerId;
      var firstEmptyAt := FirstSeen(before, server.serverId, t.now);
      emptyServerSeenAtByServerId := before[server.serverId := firstEmptyAt];
      if t.now - firstEmptyAt < cfg.idleShutdownMs {
        return Waiting;
      }
      log := log + [Record("idle_shutdown_requested", server.serverId, server.roomId, pid)];
      if pid !in t.signalOk {
        return SignalFailed;
      }
      log := log + [Record(IDLE_SHUTDOWN, server.serverId, server.roomId, pid)];
      emptyServerSeenAtByServerId := emptyServerSeenAtByServerId - {server.serverId};
      assert emptyServerSeenAtByServerId == before - {server.serverId};
      return ShutDown;
    }

    method CleanupOrphanProcessesFromManifest(
      v: View, manifestRecords: seq<Record>) returns (signalled: seq<ProcessKey>)
      modifies this`orphanProcessSeenAtByProcessKey, this`log
      ensures var st := OrphanPass(cfg, v, manifestRecords,
                OrphanState(old(orphanProcessSeenAtByProcessKey), TerminalKeys(manifestRecords), [], []));
              && orphanProcessSeenAtByProcessKey == st.seen && log == old(log) + st.appended
              && signalled == st.signalled
    {
      signalled := [];
      var terminalProcessKeys := BuildTerminalManifestProcessKeys(manifestRecords);
      ghost var appended := [];
      ghost var start := OrphanState(orphanProcessSeenAtByProcessKey, terminalProcessKeys, [], []);
      var index := |manifestRecords|;
      assert manifestRecords[..index] == manifestRecords;
      while index > 0
        invariant 0 <= index <= |manifestRecords|
        invariant log == old(log) + appended
        invariant OrphanPass(cfg, v, manifestRecords[..index],
                             OrphanState(orphanProcessSeenAtByProcessKey, terminalProcessKeys, signalled, appended))
               == OrphanPass(cfg, v, manifestRecords, start)
      {
        index := index - 1;
        var record := manifestRecords[index];
        assert manifestRecords[..index + 1][..index] == manifestRecords[..index];
        if !Launched(record) {
          continue;
        }
        var key := KeyOf(record);
        if key in terminalProcessKeys {
          continue;
        }
        if record.serverId in v.active {
          orphanProcessSeenAtByProcessKey := orphanProcessSeenAtByProcessKey - {key};
          continue;
        }
        if !Alive(v.live, record.pid) {
          log := log + [Record(NOT_ALIVE, record.serverId, record.roomId, record.pid)];
          appended := appended + [Record(NOT_ALIVE, record.serverId, record.roomId, record.pid)];
          terminalProcessKeys := terminalProcessKeys + {key};
          orphanProcessSeenAtByProcessKey := orphanProcessSeenAtByProcessKey - {key};
          continue;
        }
        if !cfg.orphanEnabled {
          continue;
        }
        var before := orphanProcessSeenAtByProcessKey;
        var firstSeenAt := FirstSeen(before, key, v.now);
        orphanProcessSeenAtByProcessKey := before[key := firstSeenAt];
        if v.now - firstSeenAt < cfg.graceMs {
          continue;
        }
        var requested := Record("orphan_shutdown_requested", record.serverId, record.roomId, record.pid);
        if record.pid in v.signalOk {
          var sent := Record(ORPHAN_SHUTDOWN, record.serverId, record.roomId, record.pid);
          log := log + [requested, sent];
          appended := appended + [requested, sent];
          signalled := signalled + [key];
          orphanProcessSeenAtByProcessKey := orphanProcessSeenAtByProcessKey - {key};
          assert orphanProcessSeenAtByProcessKey == before - {key};
          terminalProcessKeys := terminalProcessKeys + {key};
        } else {
          log := log + [requested];
          appended := appended + [requested];
        }
      }
    }
  }
}
