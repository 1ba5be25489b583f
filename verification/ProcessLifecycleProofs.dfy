/** What holds over every sequence of cleanup ticks. */
module ProcessLifecycleProofs {
  import opened Common
  import opened Manifest
  import opened ManifestProofs
  import opened ProcessLifecycle

  /** The control state before tick `n` of a run that starts with `log`. */
  function Before(cfg: Config, log: seq<Record>, ticks: seq<Tick>, n: nat): Control
    requires n <= |ticks|
  {
    if n == 0 then Control(map[], map[], log) else RunTick(cfg, Before(cfg, log, ticks, n - 1), ticks[n - 1]).next
  }

  function OutcomeAt(cfg: Config, log: seq<Record>, ticks: seq<Tick>, n: nat): Outcome
    requires n < |ticks|
  {
    RunTick(cfg, Before(cfg, log, ticks, n), ticks[n])
  }

  /** The manifest as tick `n` reads it. */
  function RecordsAt(cfg: Config, log: seq<Record>, ticks: seq<Tick>, n: nat): seq<Record>
    requires n < |ticks|
  {
    Snapshot(Before(cfg, log, ticks, n), ticks[n])
  }

  /** The registry lists every server once. */
  ghost predicate ListedOnce(t: Tick) {
    forall i, j | 0 <= i < j < |t.servers| :: t.servers[i].serverId != t.servers[j].serverId
  }

  // ---- idle shutdown ----

  /** The server has players or is kept open. */
  predicate InUse(t: Tick, s: ServerView) {
    s.serverId in t.permanent || s.currentPlayers > 0
  }

  /** The tick examined the server, having found its launch, and found its process dead or the server in use. */
  predicate Disturbed(t: Tick, records: seq<Record>, s: ServerView) {
    var launch := LatestLaunch(records, s.serverId, s.roomId);
    launch.Some? && (!Alive(t.live, launch.value.pid) || InUse(t, s))
  }

  /** Nothing that the tick examined disturbs the server: it was found idle, or was not examined at all. */
  ghost predicate Quiet(t: Tick, records: seq<Record>, serverId: string) {
    forall s | s in t.servers && s.serverId == serverId :: !Disturbed(t, records, s)
  }

  /** The tick listed the server, found its launch, its process alive and the server not in use. */
  ghost predicate FoundIdle(t: Tick, records: seq<Record>, serverId: string) {
    exists s :: s in t.servers && s.serverId == serverId
      && LatestLaunch(records, s.serverId, s.roomId).Some?
      && Alive(t.live, LatestLaunch(records, s.serverId, s.roomId).value.pid) && !InUse(t, s)
  }

  ghost predicate Examined(t: Tick, records: seq<Record>, serverId: string) {
    exists s :: s in t.servers && s.serverId == serverId && LatestLaunch(records, s.serverId, s.roomId).Some?
  }

  /** Since tick `m`, where its clock started, every tick that examined the server found it quiet. */
  ghost predicate QuietSince(
    cfg: Config, log: seq<Record>, ticks: seq<Tick>, m: nat, n: nat, serverId: string, since: int)
    requires m < n <= |ticks|
  {
    && ticks[m].now == since
    && Examined(ticks[m], RecordsAt(cfg, log, ticks, m), serverId)
    && forall j: nat | m <= j < n :: Quiet(ticks[j], RecordsAt(cfg, log, ticks, j), serverId)
  }

  /** Tick `n` shut the server down. */
  ghost predicate ShutAt(cfg: Config, log: seq<Record>, ticks: seq<Tick>, n: nat, serverId: string)
    requires n < |ticks|
  {
    ShutDownBy(cfg, Before(cfg, log, ticks, n), ticks[n], serverId)
  }

  ghost predicate ShutDownBy(cfg: Config, c: Control, t: Tick, serverId: string) {
    exists i: nat :: i < |t.servers| && t.servers[i].serverId == serverId && RunTick(cfg, c, t).verdicts[i] == ShutDown
  }

  ghost predicate SameClock(a: map<string, int>, b: map<string, int>, id: string) {
    (id in a <==> id in b) && (id in a ==> a[id] == b[id])
  }

  lemma StepClock(cfg: Config, t: Tick, records: seq<Record>, s: ServerView, st: IdleState, id: string)
    ensures var next := IdleStep(cfg, t, records, s, st).seen;
            if s.serverId != id then SameClock(next, st.seen, id)
            else cfg.idleEnabled && id in next ==>
              !Disturbed(t, records, s) && next[id] == FirstSeen(st.seen, id, t.now)
              && (id !in st.seen ==> LatestLaunch(records, id, s.roomId).Some?)
  {
  }

  /** Only the server itself moves its clock. */
  lemma {:induction false} ClockOfOthers(
    cfg: Config, t: Tick, records: seq<Record>, m: nat, n: nat, seen: map<string, int>, id: string)
    requires m <= n <= |t.servers| && forall i | m <= i < n :: t.servers[i].serverId != id
    ensures SameClock(IdlePass(cfg, t, records, n, seen).seen, IdlePass(cfg, t, records, m, seen).seen, id)
    decreases n
  {
    hide IdleStep;
    if m < n {
      ClockOfOthers(cfg, t, records, m, n - 1, seen, id);
      StepClock(cfg, t, records, t.servers[n - 1], IdlePass(cfg, t, records, n - 1, seen), id);
    }
  }

  lemma {:induction false} VerdictOfPass(
    cfg: Config, t: Tick, records: seq<Record>, n: nat, seen: map<string, int>, i: nat)
    requires i < n <= |t.servers|
    ensures IdlePass(cfg, t, records, n, seen).verdicts[i]
         == Judge(cfg, t, records, t.servers[i], IdlePass(cfg, t, records, i, seen).seen)
  {
    if i < n - 1 {
      VerdictOfPass(cfg, t, records, n - 1, seen, i);
    }
  }

  lemma PassVerdict(cfg: Config, t: Tick, records: seq<Record>, seen: map<string, int>, i: nat)
    requires ListedOnce(t) && i < |t.servers|
    ensures var id, v := t.servers[i].serverId, Judge(cfg, t, records, t.servers[i], seen);
            var end := IdlePass(cfg, t, records, |t.servers|, seen);
            end.verdicts[i] == v && SameClock(end.seen, SeenAfter(v, seen, id, t.now), id)
  {
    hide LatestLaunch, IdleRecords;
    var s, st := t.servers[i], IdlePass(cfg, t, records, i, seen);
    VerdictOfPass(cfg, t, records, |t.servers|, seen, i);
    ClockOfOthers(cfg, t, records, 0, i, seen, s.serverId);
    ClockOfOthers(cfg, t, records, i + 1, |t.servers|, seen, s.serverId);
    assert IdlePass(cfg, t, records, i + 1, seen).seen
        == SeenAfter(Judge(cfg, t, records, s, st.seen), st.seen, s.serverId, t.now);
    hide IdlePass, IdleStep;
    SameVerdict(cfg, t, records, s, st.seen, seen);
  }

  /** A verdict depends on no clock but that of the server. */
  lemma SameVerdict(cfg: Config, t: Tick, records: seq<Record>, s: ServerView, a: map<string, int>, b: map<string, int>)
    requires SameClock(a, b, s.serverId)
    ensures var v := Judge(cfg, t, records, s, a);
            && v == Judge(cfg, t, records, s, b)
            && SameClock(SeenAfter(v, a, s.serverId, t.now), SeenAfter(v, b, s.serverId, t.now), s.serverId)
  {
    hide LatestLaunch, Alive;
  }

  /** Only its own clock decides the verdict on a server, and only its own verdict moves the clock. */
  lemma TickVerdict(cfg: Config, c: Control, t: Tick, i: nat)
    requires ListedOnce(t) && i < |t.servers|
    ensures |RunTick(cfg, c, t).verdicts| == |t.servers|
    ensures var id, v := t.servers[i].serverId, Judge(cfg, t, Snapshot(c, t), t.servers[i], c.emptySeen);
            && RunTick(cfg, c, t).verdicts[i] == v
            && SameClock(RunTick(cfg, c, t).next.emptySeen, SeenAfter(v, c.emptySeen, id, t.now), id)
  {
    hide Judge, SeenAfter, IdlePass, Orphans, Snapshot;
    PassVerdict(cfg, t, Snapshot(c, t), c.emptySeen, i);
  }

  /** A tick that does not list the server leaves its clock alone. */
  lemma UnlistedKeepsClock(cfg: Config, c: Control, t: Tick, id: string)
    requires forall s | s in t.servers :: s.serverId != id
    ensures SameClock(RunTick(cfg, c, t).next.emptySeen, c.emptySeen, id)
  {
    ClockOfOthers(cfg, t, Snapshot(c, t), 0, |t.servers|, c.emptySeen, id);
  }

  /**
   The exact case in which a running clock survives a tick that lists its server with players or a permanent
   session: the manifest holds no launch of the server in the room it reports.
   */
  lemma ClockOutlivesUseExactlyWhen(cfg: Config, c: Control, t: Tick, i: nat)
    requires cfg.idleEnabled && ListedOnce(t) && i < |t.servers|
    requires t.servers[i].serverId in c.emptySeen && InUse(t, t.servers[i])
    ensures var s, next := t.servers[i], RunTick(cfg, c, t).next.emptySeen;
            && (s.serverId in next <==> LatestLaunch(Snapshot(c, t), s.serverId, s.roomId).None?)
            && (s.serverId in next ==> next[s.serverId] == c.emptySeen[s.serverId])
  {
    hide RunTick, LatestLaunch;
    TickVerdict(cfg, c, t, i);
  }

  lemma IdleClockTick(cfg: Config, c: Control, t: Tick, id: string)
    requires cfg.idleEnabled && ListedOnce(t) && id in RunTick(cfg, c, t).next.emptySeen
    ensures !ShutDownBy(cfg, c, t, id)
    ensures Quiet(t, Snapshot(c, t), id)
    ensures id !in c.emptySeen ==> Examined(t, Snapshot(c, t), id)
    ensures RunTick(cfg, c, t).next.emptySeen[id] == FirstSeen(c.emptySeen, id, t.now)
  {
    hide RunTick, LatestLaunch;
    if i: nat :| i < |t.servers| && t.servers[i].serverId == id {
      TickVerdict(cfg, c, t, i);
      ListedAs(t, i);
    } else {
      UnlistedKeepsClock(cfg, c, t, id);
    }
  }

  /** The one place where a server is listed. */
  lemma ListedAs(t: Tick, i: nat)
    requires ListedOnce(t) && i < |t.servers|
    ensures t.servers[i] in t.servers
    ensures forall s | s in t.servers && s.serverId == t.servers[i].serverId :: s == t.servers[i]
    ensures forall j: nat | j < |t.servers| && t.servers[j].serverId == t.servers[i].serverId :: j == i
  {
    forall s | s in t.servers && s.serverId == t.servers[i].serverId ensures s == t.servers[i] {
      OnlyServer(t, i, s);
    }
  }

  lemma OnlyServer(t: Tick, i: nat, s: ServerView)
    requires ListedOnce(t) && i < |t.servers| && s in t.servers && s.serverId == t.servers[i].serverId
    ensures s == t.servers[i]
  {
    var j :| 0 <= j < |t.servers| && t.servers[j] == s;
    assert j < i || j == i || i < j;
  }

  lemma {:induction false} IdleClockStarted(
    cfg: Config, log: seq<Record>, ticks: seq<Tick>, n: nat, id: string) returns (m: nat)
    requires cfg.idleEnabled && (forall t | t in ticks :: ListedOnce(t)) && n <= |ticks|
    requires id in Before(cfg, log, ticks, n).emptySeen
    ensures m < n && QuietSince(cfg, log, ticks, m, n, id, Before(cfg, log, ticks, n).emptySeen[id])
    ensures forall j: nat | m <= j < n :: !ShutAt(cfg, log, ticks, j, id)
  {
    hide RunTick, Quiet, Examined, ListedOnce, Snapshot, ShutDownBy;
    var c := Before(cfg, log, ticks, n - 1);
    assert ticks[n - 1] in ticks;
    IdleClockTick(cfg, c, ticks[n - 1], id);
    m := n - 1;
    if id in c.emptySeen {
      m := IdleClockStarted(cfg, log, ticks, n - 1, id);
    }
  }

  /**
   An idle shutdown needs a quiet period: there is a tick at least `idleShutdownMs` earlier such that, from it up
   to the shutdown, every tick that listed the server and found its launch found the process alive and the server
   not in use. Ticks that miss the server or its launch do not count: see `MissedLaunchLetsTheClockRun`.
   */
  lemma IdleShutdownNeedsQuietPeriod(cfg: Config, log: seq<Record>, ticks: seq<Tick>, n: nat, i: nat) returns (m: nat)
    requires cfg.idleShutdownMs > 0 && (forall t | t in ticks :: ListedOnce(t))
    requires n < |ticks| && i < |ticks[n].servers| && OutcomeAt(cfg, log, ticks, n).verdicts[i] == ShutDown
    ensures var id := ticks[n].servers[i].serverId;
            && m < n && ticks[n].now - ticks[m].now >= cfg.idleShutdownMs
            && QuietSince(cfg, log, ticks, m, n + 1, id, ticks[m].now)
            && Examined(ticks[n], RecordsAt(cfg, log, ticks, n), id)
            && forall j: nat | m <= j < n :: !ShutAt(cfg, log, ticks, j, id)
  {
    hide RunTick;
    var c, t, records := Before(cfg, log, ticks, n), ticks[n], RecordsAt(cfg, log, ticks, n);
    var id := t.servers[i].serverId;
    assert t in ticks && ListedOnce(t);
    ShutDownIsDue(cfg, c, t, i);
    m := IdleClockStarted(cfg, log, ticks, n, id);
    assert Quiet(ticks[n], records, id);
  }

  /** A shutdown verdict means the clock of the server ran out and this tick found it idle. */
  lemma ShutDownIsDue(cfg: Config, c: Control, t: Tick, i: nat)
    requires cfg.idleShutdownMs > 0 && ListedOnce(t) && i < |t.servers|
    ensures var id := t.servers[i].serverId;
            RunTick(cfg, c, t).verdicts[i] == ShutDown ==>
              && cfg.idleEnabled && id in c.emptySeen && t.now - c.emptySeen[id] >= cfg.idleShutdownMs
              && Quiet(t, Snapshot(c, t), id) && Examined(t, Snapshot(c, t), id)
  {
    hide RunTick, LatestLaunch;
    TickVerdict(cfg, c, t, i);
    ListedAs(t, i);
  }

  /** Where every tick of the quiet period examined the server, it was idle at every one of them. */
  lemma ExaminedThroughoutMeansIdleThroughout(cfg: Config, log: seq<Record>, ticks: seq<Tick>, n: nat, i: nat)
    returns (m: nat)
    requires cfg.idleShutdownMs > 0 && (forall t | t in ticks :: ListedOnce(t))
    requires n < |ticks| && i < |ticks[n].servers| && OutcomeAt(cfg, log, ticks, n).verdicts[i] == ShutDown
    ensures var id := ticks[n].servers[i].serverId;
            && m < n && ticks[n].now - ticks[m].now >= cfg.idleShutdownMs
            && ((forall j: nat | m <= j <= n :: Examined(ticks[j], RecordsAt(cfg, log, ticks, j), id)) ==>
                  forall j: nat | m <= j <= n :: FoundIdle(ticks[j], RecordsAt(cfg, log, ticks, j), id))
  {
    hide RunTick, Examined, Quiet, FoundIdle, RecordsAt;
    m := IdleShutdownNeedsQuietPeriod(cfg, log, ticks, n, i);
    var id := ticks[n].servers[i].serverId;
    forall j: nat | m <= j <= n && Examined(ticks[j], RecordsAt(cfg, log, ticks, j), id)
      ensures FoundIdle(ticks[j], RecordsAt(cfg, log, ticks, j), id)
    {
      ExaminedQuietIsIdle(ticks[j], RecordsAt(cfg, log, ticks, j), id);
    }
  }

  lemma ExaminedQuietIsIdle(t: Tick, records: seq<Record>, id: string)
    ensures Examined(t, records, id) && Quiet(t, records, id) ==> FoundIdle(t, records, id)
  {
    hide LatestLaunch;
    if Examined(t, records, id) && Quiet(t, records, id) {
      var s :| s in t.servers && s.serverId == id && LatestLaunch(records, s.serverId, s.roomId).Some?;
      assert !Disturbed(t, records, s);
    }
  }

  // ---- exactly when a server is shut down ----

  ghost predicate TimesOrdered(ticks: seq<Tick>) {
    forall i, j | 0 <= i < j < |ticks| :: ticks[i].now <= ticks[j].now
  }

  /** The tick finds the launch of the server, its process alive and open to the signal, the server not in use. */
  predicate Stoppable(t: Tick, records: seq<Record>, s: ServerView) {
    var launch := LatestLaunch(records, s.serverId, s.roomId);
    launch.Some? && Alive(t.live, launch.value.pid) && !InUse(t, s) && launch.value.pid in t.signalOk
  }

  /** From tick `m`, which found the server idle, up to tick `n` no tick found it otherwise or shut it down. */
  ghost predicate IdleSpan(cfg: Config, log: seq<Record>, ticks: seq<Tick>, m: nat, n: nat, id: string)
    requires m < n <= |ticks|
  {
    && Examined(ticks[m], RecordsAt(cfg, log, ticks, m), id)
    && forall j: nat | m <= j < n ::
         Quiet(ticks[j], RecordsAt(cfg, log, ticks, j), id) && !ShutAt(cfg, log, ticks, j, id)
  }

  /** A quiet tick that does not shut the server down keeps its clock, and starts it when it examines the server. */
  lemma QuietTickKeepsClock(cfg: Config, c: Control, t: Tick, id: string)
    requires cfg.idleEnabled && ListedOnce(t) && Quiet(t, Snapshot(c, t), id) && !ShutDownBy(cfg, c, t, id)
    ensures var next := RunTick(cfg, c, t).next.emptySeen;
            && (id in c.emptySeen || Examined(t, Snapshot(c, t), id) ==>
                  id in next && next[id] == FirstSeen(c.emptySeen, id, t.now))
  {
    hide RunTick, LatestLaunch;
    if i: nat :| i < |t.servers| && t.servers[i].serverId == id {
      TickVerdict(cfg, c, t, i);
      ListedAs(t, i);
    } else {
      UnlistedKeepsClock(cfg, c, t, id);
    }
  }

  lemma {:induction false} ClockRunsThroughSpan(
    cfg: Config, log: seq<Record>, ticks: seq<Tick>, m: nat, n: nat, id: string)
    requires cfg.idleEnabled && (forall t | t in ticks :: ListedOnce(t)) && TimesOrdered(ticks)
    requires m < n <= |ticks| && IdleSpan(cfg, log, ticks, m, n, id)
    ensures id in Before(cfg, log, ticks, n).emptySeen && Before(cfg, log, ticks, n).emptySeen[id] <= ticks[m].now
    decreases n
  {
    hide RunTick, Quiet, Examined, ListedOnce, Snapshot, ShutDownBy;
    var c := Before(cfg, log, ticks, n - 1);
    assert ticks[n - 1] in ticks;
    QuietTickKeepsClock(cfg, c, ticks[n - 1], id);
    if m < n - 1 {
      ClockRunsThroughSpan(cfg, log, ticks, m, n - 1, id);
    } else if id in c.emptySeen {
      var start := IdleClockStarted(cfg, log, ticks, m, id);
    }
  }

  /**
   Exactly when a tick shuts a server down: it can be stopped now, and there is an earlier tick, at least
   `idleShutdownMs` ago, that found it idle and since which no tick that examined it found it otherwise or shut
   it down.
   */
  lemma IdleShutdownExactlyWhen(cfg: Config, log: seq<Record>, ticks: seq<Tick>, n: nat, i: nat)
    requires cfg.idleShutdownMs > 0 && (forall t | t in ticks :: ListedOnce(t)) && TimesOrdered(ticks)
    requires n < |ticks| && i < |ticks[n].servers|
    ensures var s := ticks[n].servers[i];
            OutcomeAt(cfg, log, ticks, n).verdicts[i] == ShutDown <==>
              && cfg.idleEnabled && Stoppable(ticks[n], RecordsAt(cfg, log, ticks, n), s)
              && exists m: nat | m < n ::
                   ticks[n].now - ticks[m].now >= cfg.idleShutdownMs && IdleSpan(cfg, log, ticks, m, n, s.serverId)
  {
    hide RunTick, Quiet, Examined, LatestLaunch, ShutDownBy;
    var c, t, s := Before(cfg, log, ticks, n), ticks[n], ticks[n].servers[i];
    assert t in ticks;
    TickVerdict(cfg, c, t, i);
    if OutcomeAt(cfg, log, ticks, n).verdicts[i] == ShutDown {
      var m := IdleShutdownNeedsQuietPeriod(cfg, log, ticks, n, i);
      assert IdleSpan(cfg, log, ticks, m, n, s.serverId);
    }
    if cfg.idleEnabled && Stoppable(t, RecordsAt(cfg, log, ticks, n), s) {
      if m: nat :| m < n && t.now - ticks[m].now >= cfg.idleShutdownMs && IdleSpan(cfg, log, ticks, m, n, s.serverId) {
        ClockRunsThroughSpan(cfg, log, ticks, m, n, s.serverId);
      }
    }
  }

  // ---- a missed launch ----

  /** A server that is empty, then full in another room, then empty again: the middle tick misses its launch. */
  function RoomSwitch(): seq<Tick> {
    [Tick(100, [ServerView("s", "r", 0)], [], {7}, {}, {7}, {}, []),
     Tick(105, [ServerView("s", "other", 3)], [], {7}, {}, {7}, {}, []),
     Tick(110, [ServerView("s", "r", 0)], [], {7}, {}, {7}, {}, [])]
  }

  /** The law that every shutdown follows a period without players fails: this server had players five ms before. */
  lemma MissedLaunchLetsTheClockRun()
    ensures var cfg, log := Config(true, 10, false, 0), [Record(LAUNCHED, "s", "r", 7)];
            && OutcomeAt(cfg, log, RoomSwitch(), 2).verdicts == [ShutDown]
            && RoomSwitch()[1].servers[0].currentPlayers == 3
            && LatestLaunch(RecordsAt(cfg, log, RoomSwitch(), 1), "s", "other").None?
  {
    var cfg, log, ticks := Config(true, 10, false, 0), [Record(LAUNCHED, "s", "r", 7)], RoomSwitch();
    hide RunTick;
    assert Before(cfg, log, ticks, 0) == Control(map[], map[], log);
    OneServerTick(cfg, map[], ticks[0], "r");
    assert Before(cfg, log, ticks, 1) == Control(map["s" := 100], map[], log);
    OneServerTick(cfg, map["s" := 100], ticks[1], "other");
    assert Before(cfg, log, ticks, 2) == Control(map["s" := 100], map[], log);
    OneServerTick(cfg, map["s" := 100], ticks[2], "r");
  }

  /** A tick with one registered server and one launch in the manifest. */
  lemma OneServerTick(cfg: Config, seen: map<string, int>, t: Tick, roomId: string)
    requires !cfg.orphanEnabled && t.arrivals == [] && t.limitRecords == [] && t.limitRemoved == {}
    requires |t.servers| == 1 && t.servers[0].serverId == "s" && t.servers[0].roomId == roomId
    ensures var c := Control(seen, map[], [Record(LAUNCHED, "s", "r", 7)]);
            var v := Judge(cfg, t, c.log, t.servers[0], seen);
            && Snapshot(c, t) == c.log
            && LatestLaunch(c.log, "s", roomId) == (if roomId in {"", "r"} then Some(c.log[0]) else None)
            && RunTick(cfg, c, t).verdicts == [v]
            && (v == MissingManifest || v == Waiting ==>
                  RunTick(cfg, c, t).next == Control(SeenAfter(v, seen, "s", t.now), map[], c.log))
  {
    var launch := Record(LAUNCHED, "s", "r", 7);
    var c := Control(seen, map[], [launch]);
    assert Snapshot(c, t) == c.log && c.log[..0] == [];
    assert LatestLaunch([], "s", roomId) == None;
    assert t.servers[0] in t.servers;
    var st := IdlePass(cfg, t, c.log, 0, seen);
    assert Idle(cfg, c, t) == IdleStep(cfg, t, c.log, t.servers[0], st);
    assert TerminalKeys(c.log) == {};
    var v := Judge(cfg, t, c.log, t.servers[0], seen);
    if v == MissingManifest || v == Waiting {
      assert "s" in OrphanView(cfg, c, t).active;
      assert Orphans(cfg, c, t) == OrphanPass(cfg, OrphanView(cfg, c, t), [],
        OrphanStep(cfg, OrphanView(cfg, c, t), launch, OrphanState(map[], {}, [], [])));
    }
  }

  // ---- orphan shutdown ----

  predicate LaunchedKey(records: seq<Record>, key: ProcessKey) {
    exists r | r in records :: Launched(r) && KeyOf(r) == key
  }

  /** What the pass does to one key, given the state it starts from. */
  ghost predicate KeyHandled(
    cfg: Config, v: View, records: seq<Record>, st: OrphanState, end: OrphanState, key: ProcessKey) {
    var first := FirstSeen(st.seen, key, v.now);
    var clockKept := (key in end.seen <==> key in st.seen) && (key in st.seen ==> end.seen[key] == st.seen[key]);
    if key in st.terminal || !LaunchedKey(records, key) then
      clockKept && (key in end.terminal <==> key in st.terminal)
    else if key.serverId in v.active then
      key !in end.seen && key !in end.terminal
    else if !Alive(v.live, key.pid) then
      key !in end.seen && key in end.terminal
    else if !cfg.orphanEnabled then
      clockKept && key !in end.terminal
    else if v.now - first < cfg.graceMs || key.pid !in v.signalOk then
      key in end.seen && end.seen[key] == first && key !in end.terminal
    else
      key !in end.seen && key in end.terminal
  }

  lemma {:induction false} OrphanPassKey(cfg: Config, v: View, records: seq<Record>, st: OrphanState, key: ProcessKey)
    ensures KeyHandled(cfg, v, records, st, OrphanPass(cfg, v, records, st), key)
    decreases |records|
  {
    if records != [] {
      var init, last := records[..|records| - 1], records[|records| - 1];
      assert records == init + [last];
      var next := OrphanStep(cfg, v, last, st);
      OrphanPassKey(cfg, v, init, next, key);
      if Launched(last) && KeyOf(last) == key {
        assert LaunchedKey(records, key);
        assert KeyOf(last).serverId == last.serverId && KeyOf(last).pid == last.pid;
      } else {
        assert LaunchedKey(records, key) <==> LaunchedKey(init, key);
      }
    }
  }

  ghost predicate NoDuplicates(keys: seq<ProcessKey>) {
    forall i, j | 0 <= i < j < |keys| :: keys[i] != keys[j]
  }

  /** The condition under which the orphan pass may signal a process. */
  ghost predicate Due(cfg: Config, v: View, records: seq<Record>, st: OrphanState, key: ProcessKey) {
    && cfg.orphanEnabled && key !in st.terminal && LaunchedKey(records, key)
    && key.serverId !in v.active && Alive(v.live, key.pid)
    && v.now - FirstSeen(st.seen, key, v.now) >= cfg.graceMs && key.pid in v.signalOk
  }

  /** Signals only go to due processes, one each, and every terminal mark is logged. */
  lemma {:induction false} OrphanPassSignals(cfg: Config, v: View, records: seq<Record>, st: OrphanState)
    requires NoDuplicates(st.signalled) && forall k | k in st.signalled :: k in st.terminal
    ensures var end := OrphanPass(cfg, v, records, st);
            && NoDuplicates(end.signalled)
            && (forall k | k in end.signalled :: k in st.signalled || Due(cfg, v, records, st, k))
            && (forall k | k in end.signalled :: k in end.terminal)
            && (forall k | k in end.terminal && k !in st.terminal :: k in TerminalKeys(end.appended))
            && st.terminal <= end.terminal && st.appended <= end.appended
    decreases |records|
  {
    if records != [] {
      var init, last := records[..|records| - 1], records[|records| - 1];
      assert records == init + [last];
      var next := OrphanStep(cfg, v, last, st);
      StepLogsTerminal(cfg, v, last, st);
      OrphanPassSignals(cfg, v, init, next);
      var end := OrphanPass(cfg, v, init, next);
      TerminalKeysOfPrefix(next.appended, end.appended);
      forall k | k in end.signalled ensures k in st.signalled || Due(cfg, v, records, st, k) {
        if k !in next.signalled {
          OrphanPassKey(cfg, v, [last], st, k);
          assert OrphanPass(cfg, v, [last], st) == next by { assert [last][..0] == []; }
          assert LaunchedKey(records, k);
        }
      }
    }
  }

  lemma StepLogsTerminal(cfg: Config, v: View, r: Record, st: OrphanState)
    ensures var next := OrphanStep(cfg, v, r, st);
            forall k | k in next.terminal && k !in st.terminal :: k in TerminalKeys(next.appended)
  {
    var next := OrphanStep(cfg, v, r, st);
    if next.terminal != st.terminal {
      var logged := next.appended[|next.appended| - 1];
      assert logged in next.appended && Terminal(logged) && KeyOf(logged) == KeyOf(r);
    }
  }

  lemma TerminalKeysOfPrefix(log: seq<Record>, whole: seq<Record>)
    requires log <= whole
    ensures TerminalKeys(log) <= TerminalKeys(whole)
  {
    assert whole == log + whole[|log|..];
    TerminalKeysGrow(log, whole[|log|..]);
  }

  lemma TerminalKeysGrow(log: seq<Record>, more: seq<Record>)
    ensures TerminalKeys(log + more) == TerminalKeys(log) + TerminalKeys(more)
  {
  }

  /** The terminal keys of the log after a tick contain everything the orphan pass marked. */
  lemma TickTerminal(cfg: Config, c: Control, t: Tick)
    ensures TerminalKeys(Snapshot(c, t)) <= Orphans(cfg, c, t).terminal <= TerminalKeys(RunTick(cfg, c, t).next.log)
    ensures TerminalKeys(c.log) <= TerminalKeys(Snapshot(c, t))
  {
    var records := Snapshot(c, t);
    var start := OrphanState(c.orphanSeen, TerminalKeys(records), [], []);
    OrphanPassSignals(cfg, OrphanView(cfg, c, t), records, start);
    var idle, orphans := Idle(cfg, c, t), Orphans(cfg, c, t);
    TerminalKeysGrow(c.log, t.arrivals);
    TerminalKeysGrow(records, idle.appended);
    TerminalKeysGrow(records + idle.appended, t.limitRecords);
    TerminalKeysGrow(records + idle.appended + t.limitRecords, orphans.appended);
  }

  /** Each signal of a tick goes to a process not yet finished, and finishes it. */
  lemma TickSignals(cfg: Config, c: Control, t: Tick)
    ensures NoDuplicates(RunTick(cfg, c, t).signalled)
    ensures forall k | k in RunTick(cfg, c, t).signalled ::
              k !in TerminalKeys(c.log) && k in TerminalKeys(RunTick(cfg, c, t).next.log)
  {
    TickTerminal(cfg, c, t);
    OrphanPassSignals(cfg, OrphanView(cfg, c, t), Snapshot(c, t),
      OrphanState(c.orphanSeen, TerminalKeys(Snapshot(c, t)), [], []));
  }

  lemma TickKeepsTerminal(cfg: Config, c: Control, t: Tick)
    ensures TerminalKeys(c.log) <= TerminalKeys(RunTick(cfg, c, t).next.log)
  {
    TickTerminal(cfg, c, t);
  }

  /** Every process the orphan route signalled in the first `n` ticks, in order. */
  function SignalsUpTo(cfg: Config, log: seq<Record>, ticks: seq<Tick>, n: nat): seq<ProcessKey>
    requires n <= |ticks|
  {
    if n == 0 then [] else SignalsUpTo(cfg, log, ticks, n - 1) + OutcomeAt(cfg, log, ticks, n - 1).signalled
  }

  /** At most once: over any run no process is signalled twice by the orphan route. */
  lemma {:induction false} OrphanSignalsAtMostOnce(cfg: Config, log: seq<Record>, ticks: seq<Tick>, n: nat)
    requires n <= |ticks|
    ensures NoDuplicates(SignalsUpTo(cfg, log, ticks, n))
    ensures forall k | k in SignalsUpTo(cfg, log, ticks, n) :: k in TerminalKeys(Before(cfg, log, ticks, n).log)
  {
    hide RunTick;
    if n > 0 {
      OrphanSignalsAtMostOnce(cfg, log, ticks, n - 1);
      var c := Before(cfg, log, ticks, n - 1);
      TickSignals(cfg, c, ticks[n - 1]);
      TickKeepsTerminal(cfg, c, ticks[n - 1]);
      JoinDistinct(SignalsUpTo(cfg, log, ticks, n - 1), RunTick(cfg, c, ticks[n - 1]).signalled,
                   TerminalKeys(c.log), TerminalKeys(Before(cfg, log, ticks, n).log));
    }
  }

  lemma JoinDistinct(a: seq<ProcessKey>, b: seq<ProcessKey>, before: set<ProcessKey>, after: set<ProcessKey>)
    requires NoDuplicates(a) && NoDuplicates(b) && before <= after
    requires (forall k | k in a :: k in before) && (forall k | k in b :: k !in before && k in after)
    ensures NoDuplicates(a + b) && forall k | k in a + b :: k in after
  {
    forall i, j | 0 <= i < j < |a + b| ensures (a + b)[i] != (a + b)[j] {
      if i < |a| <= j {
        assert (a + b)[i] in a && (a + b)[j] in b;
      }
    }
  }

  /** Since tick `m` the process ran, unregistered, at every tick. */
  ghost predicate OrphanSince(
    cfg: Config, log: seq<Record>, ticks: seq<Tick>, m: nat, n: nat, key: ProcessKey, since: int)
    requires m < n <= |ticks|
  {
    && ticks[m].now == since
    && forall j: nat | m <= j < n ::
         Alive(ticks[j].live, key.pid) && key.serverId !in OrphanView(cfg, Before(cfg, log, ticks, j), ticks[j]).active
  }

  lemma LaunchedTick(cfg: Config, c: Control, t: Tick, key: ProcessKey)
    requires key in RunTick(cfg, c, t).next.orphanSeen && (key in c.orphanSeen ==> LaunchedKey(c.log, key))
    ensures LaunchedKey(RunTick(cfg, c, t).next.log, key)
  {
    OrphanPassKey(cfg, OrphanView(cfg, c, t), Snapshot(c, t),
      OrphanState(c.orphanSeen, TerminalKeys(Snapshot(c, t)), [], []), key);
    if key in c.orphanSeen {
      var r :| r in c.log && Launched(r) && KeyOf(r) == key;
      assert r in Snapshot(c, t);
    }
    var r :| r in Snapshot(c, t) && Launched(r) && KeyOf(r) == key;
    assert r in RunTick(cfg, c, t).next.log;
  }

  /** A process with a running clock was launched: launches stay in the append-only log. */
  lemma {:induction false} LaunchedForever(cfg: Config, log: seq<Record>, ticks: seq<Tick>, n: nat, key: ProcessKey)
    requires n <= |ticks| && key in Before(cfg, log, ticks, n).orphanSeen
    ensures LaunchedKey(Before(cfg, log, ticks, n).log, key)
  {
    hide RunTick, LaunchedKey;
    var c := Before(cfg, log, ticks, n - 1);
    if key in c.orphanSeen {
      LaunchedForever(cfg, log, ticks, n - 1, key);
    }
    LaunchedTick(cfg, c, ticks[n - 1], key);
  }

  lemma OrphanClockTick(cfg: Config, c: Control, t: Tick, key: ProcessKey)
    requires cfg.orphanEnabled && (key in c.orphanSeen ==> LaunchedKey(c.log, key))
    requires key in RunTick(cfg, c, t).next.orphanSeen && key !in TerminalKeys(RunTick(cfg, c, t).next.log)
    ensures key !in TerminalKeys(c.log)
    ensures Alive(t.live, key.pid) && key.serverId !in OrphanView(cfg, c, t).active
    ensures RunTick(cfg, c, t).next.orphanSeen[key] == FirstSeen(c.orphanSeen, key, t.now)
    ensures LaunchedKey(Snapshot(c, t), key)
  {
    TickTerminal(cfg, c, t);
    var records := Snapshot(c, t);
    OrphanPassKey(cfg, OrphanView(cfg, c, t), records, OrphanState(c.orphanSeen, TerminalKeys(records), [], []), key);
    if key in c.orphanSeen {
      var r :| r in c.log && Launched(r) && KeyOf(r) == key;
      assert r in records;
    }
  }

  lemma {:induction false} OrphanClockStarted(
    cfg: Config, log: seq<Record>, ticks: seq<Tick>, n: nat, key: ProcessKey) returns (m: nat)
    requires cfg.orphanEnabled && n <= |ticks|
    requires key in Before(cfg, log, ticks, n).orphanSeen && key !in TerminalKeys(Before(cfg, log, ticks, n).log)
    ensures m < n && OrphanSince(cfg, log, ticks, m, n, key, Before(cfg, log, ticks, n).orphanSeen[key])
    ensures LaunchedKey(RecordsAt(cfg, log, ticks, m), key)
  {
    hide RunTick, LaunchedKey, OrphanView, TerminalKeys, Alive, Snapshot;
    var c := Before(cfg, log, ticks, n - 1);
    if key in c.orphanSeen {
      LaunchedForever(cfg, log, ticks, n - 1, key);
    }
    OrphanClockTick(cfg, c, ticks[n - 1], key);
    m := n - 1;
    if key in c.orphanSeen {
      m := OrphanClockStarted(cfg, log, ticks, n - 1, key);
    }
  }

  /**
   An orphan signal needs a full grace period: there is a tick at least `graceMs` earlier such that
   at every tick from it up to the signal the process was alive and its server not registered.
   */
  lemma OrphanSignalNeedsGracePeriod(
    cfg: Config, log: seq<Record>, ticks: seq<Tick>, n: nat, key: ProcessKey) returns (m: nat)
    requires cfg.graceMs > 0 && n < |ticks| && key in OutcomeAt(cfg, log, ticks, n).signalled
    ensures m < n && ticks[n].now - ticks[m].now >= cfg.graceMs
    ensures OrphanSince(cfg, log, ticks, m, n + 1, key, ticks[m].now)
    ensures LaunchedKey(RecordsAt(cfg, log, ticks, m), key)
  {
    hide RunTick, OrphanView, TerminalKeys, Alive, Snapshot;
    SignalIsDue(cfg, Before(cfg, log, ticks, n), ticks[n], key);
    m := OrphanClockStarted(cfg, log, ticks, n, key);
  }

  lemma SignalIsDue(cfg: Config, c: Control, t: Tick, key: ProcessKey)
    requires cfg.graceMs > 0 && key in RunTick(cfg, c, t).signalled
    ensures cfg.orphanEnabled && key in c.orphanSeen && t.now - c.orphanSeen[key] >= cfg.graceMs
    ensures Alive(t.live, key.pid) && key.serverId !in OrphanView(cfg, c, t).active
    ensures key !in TerminalKeys(c.log)
  {
    TickTerminal(cfg, c, t);
    OrphanPassSignals(cfg, OrphanView(cfg, c, t), Snapshot(c, t),
      OrphanState(c.orphanSeen, TerminalKeys(Snapshot(c, t)), [], []));
  }

  // ---- exactly when an orphan is signalled ----

  lemma {:induction false} SignalsKept(cfg: Config, v: View, records: seq<Record>, st: OrphanState, key: ProcessKey)
    ensures key in st.signalled ==> key in OrphanPass(cfg, v, records, st).signalled
    decreases |records|
  {
    if records != [] {
      SignalsKept(cfg, v, records[..|records| - 1], OrphanStep(cfg, v, records[|records| - 1], st), key);
    }
  }

  lemma {:induction false} DueIsSignalled(cfg: Config, v: View, records: seq<Record>, st: OrphanState, key: ProcessKey)
    requires Due(cfg, v, records, st, key)
    ensures key in OrphanPass(cfg, v, records, st).signalled
    decreases |records|
  {
    var init, last := records[..|records| - 1], records[|records| - 1];
    assert records == init + [last];
    var next := OrphanStep(cfg, v, last, st);
    if Launched(last) && KeyOf(last) == key {
      assert key in next.signalled;
      SignalsKept(cfg, v, init, next, key);
    } else {
      DueIsSignalled(cfg, v, init, next, key);
    }
  }

  /** A tick signals exactly the processes that are due. */
  lemma TickSignalsExactly(cfg: Config, c: Control, t: Tick, key: ProcessKey)
    ensures key in RunTick(cfg, c, t).signalled <==>
              Due(cfg, OrphanView(cfg, c, t), Snapshot(c, t),
                OrphanState(c.orphanSeen, TerminalKeys(Snapshot(c, t)), [], []), key)
  {
    var v, records := OrphanView(cfg, c, t), Snapshot(c, t);
    var st := OrphanState(c.orphanSeen, TerminalKeys(records), [], []);
    OrphanPassSignals(cfg, v, records, st);
    hide OrphanPass, Due, OrphanView, TerminalKeys;
    if Due(cfg, v, records, st, key) {
      DueIsSignalled(cfg, v, records, st, key);
    }
  }

  /** From tick `m`, which read a launch of the process, up to tick `n` the process ran, unregistered, at every tick. */
  ghost predicate OrphanSpan(cfg: Config, log: seq<Record>, ticks: seq<Tick>, m: nat, n: nat, key: ProcessKey)
    requires m < n <= |ticks|
  {
    && LaunchedKey(RecordsAt(cfg, log, ticks, m), key)
    && OrphanSince(cfg, log, ticks, m, n, key, ticks[m].now)
  }

  /** The tick may signal the process now: launched, not finished, running, unregistered, open to the signal. */
  ghost predicate Signallable(cfg: Config, log: seq<Record>, ticks: seq<Tick>, n: nat, key: ProcessKey)
    requires n < |ticks|
  {
    var records := RecordsAt(cfg, log, ticks, n);
    && LaunchedKey(records, key) && key !in TerminalKeys(records)
    && Alive(ticks[n].live, key.pid) && key.pid in ticks[n].signalOk
    && key.serverId !in OrphanView(cfg, Before(cfg, log, ticks, n), ticks[n]).active
  }

  lemma TickKeepsLaunched(cfg: Config, c: Control, t: Tick, key: ProcessKey)
    ensures LaunchedKey(c.log, key) ==> LaunchedKey(Snapshot(c, t), key)
    ensures LaunchedKey(Snapshot(c, t), key) ==> LaunchedKey(RunTick(cfg, c, t).next.log, key)
  {
    if LaunchedKey(c.log, key) {
      var r :| r in c.log && Launched(r) && KeyOf(r) == key;
      assert r in Snapshot(c, t);
    }
    if LaunchedKey(Snapshot(c, t), key) {
      var r :| r in Snapshot(c, t) && Launched(r) && KeyOf(r) == key;
      assert r in RunTick(cfg, c, t).next.log;
    }
  }

  /** A tick that finds an unfinished orphan and does not finish it keeps its clock, or starts it. */
  lemma OrphanTickKeepsClock(cfg: Config, c: Control, t: Tick, key: ProcessKey)
    requires cfg.orphanEnabled && LaunchedKey(Snapshot(c, t), key)
    requires Alive(t.live, key.pid) && key.serverId !in OrphanView(cfg, c, t).active
    requires key !in TerminalKeys(RunTick(cfg, c, t).next.log)
    ensures var next := RunTick(cfg, c, t).next;
            key in next.orphanSeen && next.orphanSeen[key] == FirstSeen(c.orphanSeen, key, t.now)
    ensures LaunchedKey(RunTick(cfg, c, t).next.log, key) && key !in TerminalKeys(c.log)
  {
    var records := Snapshot(c, t);
    TickTerminal(cfg, c, t);
    TickKeepsLaunched(cfg, c, t, key);
    OrphanPassKey(cfg, OrphanView(cfg, c, t), records, OrphanState(c.orphanSeen, TerminalKeys(records), [], []), key);
  }

  lemma {:induction false} OrphanClockRuns(
    cfg: Config, log: seq<Record>, ticks: seq<Tick>, m: nat, n: nat, key: ProcessKey)
    requires cfg.orphanEnabled && TimesOrdered(ticks) && m < n <= |ticks|
    ensures var c := Before(cfg, log, ticks, n);
            OrphanSpan(cfg, log, ticks, m, n, key) && key !in TerminalKeys(c.log) ==>
              key in c.orphanSeen && c.orphanSeen[key] <= ticks[m].now && LaunchedKey(c.log, key)
    decreases n
  {
    hide RunTick, LaunchedKey, OrphanView, TerminalKeys, Alive, Snapshot;
    if OrphanSpan(cfg, log, ticks, m, n, key) && key !in TerminalKeys(Before(cfg, log, ticks, n).log) {
      var c := Before(cfg, log, ticks, n - 1);
      TickKeepsTerminal(cfg, c, ticks[n - 1]);
      TickKeepsLaunched(cfg, c, ticks[n - 1], key);
      if m < n - 1 {
        OrphanClockRuns(cfg, log, ticks, m, n - 1, key);
      }
      OrphanTickKeepsClock(cfg, c, ticks[n - 1], key);
      if m == n - 1 && key in c.orphanSeen {
        var start := OrphanClockStarted(cfg, log, ticks, m, key);
      }
    }
  }

  /**
   Exactly when the orphan route signals a process: it may be signalled now, and there is an earlier tick, at least
   `graceMs` ago, that read its launch and since which it ran, unregistered, at every tick.
   */
  lemma OrphanSignalExactlyWhen(cfg: Config, log: seq<Record>, ticks: seq<Tick>, n: nat, key: ProcessKey)
    requires cfg.graceMs > 0 && TimesOrdered(ticks) && n < |ticks|
    ensures key in OutcomeAt(cfg, log, ticks, n).signalled <==>
              && cfg.orphanEnabled && Signallable(cfg, log, ticks, n, key)
              && exists m: nat | m < n ::
                   ticks[n].now - ticks[m].now >= cfg.graceMs && OrphanSpan(cfg, log, ticks, m, n, key)
  {
    hide RunTick, LaunchedKey, TerminalKeys, Alive, Snapshot, Idle;
    var c, t := Before(cfg, log, ticks, n), ticks[n];
    TickSignalsExactly(cfg, c, t, key);
    if key in OutcomeAt(cfg, log, ticks, n).signalled {
      var m := OrphanSignalNeedsGracePeriod(cfg, log, ticks, n, key);
      assert OrphanSpan(cfg, log, ticks, m, n, key);
    }
    if cfg.orphanEnabled && Signallable(cfg, log, ticks, n, key) {
      if m: nat :| m < n && t.now - ticks[m].now >= cfg.graceMs && OrphanSpan(cfg, log, ticks, m, n, key) {
        SnapshotKeepsTerminal(c, t, key);
        OrphanClockRuns(cfg, log, ticks, m, n, key);
      }
    }
  }

  lemma SnapshotKeepsTerminal(c: Control, t: Tick, key: ProcessKey)
    ensures key in TerminalKeys(c.log) ==> key in TerminalKeys(Snapshot(c, t))
  {
    TerminalKeysGrow(c.log, t.arrivals);
  }

  // ---- ticks over a compacted manifest ----

  lemma {:induction false} LaunchAfter(log: seq<Record>, more: seq<Record>, serverId: string, roomId: string)
    ensures LatestLaunch(log + more, serverId, roomId) ==
            var later := LatestLaunch(more, serverId, roomId);
            if later.Some? then later else LatestLaunch(log, serverId, roomId)
  {
    if more == [] {
      assert log + more == log;
    } else {
      var front := more[..|more| - 1];
      assert (log + more)[..|log + more| - 1] == log + front;
      LaunchAfter(log, front, serverId, roomId);
    }
  }

  /**
   Later ticks read the compacted manifest and what was appended since. The idle pass judges a server as on the
   full manifest if the server was registered at the compaction or was launched since.
   */
  lemma {:induction false} IdlePassOnCompacted(
    cfg: Config, t: Tick, log: seq<Record>, more: seq<Record>, w: World, minRecords: nat, keepRecent: nat, n: nat,
    seen: map<string, int>)
    requires n <= |t.servers|
    requires forall s | s in t.servers :: s.serverId in w.active || LatestLaunch(more, s.serverId, s.roomId).Some?
    ensures var c := Compacted(log, w, minRecords, keepRecent);
            IdlePass(cfg, t, c + more, n, seen) == IdlePass(cfg, t, log + more, n, seen)
  {
    hide Compacted, LatestLaunch, IdleStep;
    if n > 0 {
      IdlePassOnCompacted(cfg, t, log, more, w, minRecords, keepRecent, n - 1, seen);
      var s, c := t.servers[n - 1], Compacted(log, w, minRecords, keepRecent);
      LaunchAfter(c, more, s.serverId, s.roomId);
      LaunchAfter(log, more, s.serverId, s.roomId);
      if s.serverId in w.active {
        CompactionKeepsLatestLaunch(log, w, minRecords, keepRecent, s.serverId, s.roomId);
      }
      StepNeedsOnlyLaunch(cfg, t, c + more, log + more, s, IdlePass(cfg, t, log + more, n - 1, seen));
    }
  }

  lemma StepNeedsOnlyLaunch(cfg: Config, t: Tick, a: seq<Record>, b: seq<Record>, s: ServerView, st: IdleState)
    requires LatestLaunch(a, s.serverId, s.roomId) == LatestLaunch(b, s.serverId, s.roomId)
    ensures IdleStep(cfg, t, a, s, st) == IdleStep(cfg, t, b, s, st)
  {
  }

  /** A key the orphan pass can act on: its process runs and its server is not registered. */
  predicate Orphan(v: View, key: ProcessKey) {
    Alive(v.live, key.pid) && key.serverId !in v.active
  }

  /** The two passes have signalled the same and agree on every orphan among `keys`. */
  ghost predicate SameOrphans(v: View, a: OrphanState, b: OrphanState, keys: set<ProcessKey>) {
    && a.signalled == b.signalled
    && forall k | k in keys && Orphan(v, k) ::
         && (k in a.terminal <==> k in b.terminal)
         && (k in a.seen <==> k in b.seen)
         && (k in a.seen ==> a.seen[k] == b.seen[k])
  }

  lemma {:induction false} OrphanPassOnSelected(
    cfg: Config, v: View, log: seq<Record>, keep: set<nat>, n: nat, a: OrphanState, b: OrphanState,
    keys: set<ProcessKey>)
    requires n <= |log| && SameOrphans(v, a, b, keys)
    requires forall i: nat | i < n && Launched(log[i]) && Orphan(v, KeyOf(log[i])) :: i in keep && KeyOf(log[i]) in keys
    ensures OrphanPass(cfg, v, Select(log, keep, n), a).signalled == OrphanPass(cfg, v, log[..n], b).signalled
    decreases n
  {
    if n > 0 {
      var r := log[n - 1];
      assert log[..n][..n - 1] == log[..n - 1];
      var a' := if n - 1 in keep then OrphanStep(cfg, v, r, a) else a;
      var b' := OrphanStep(cfg, v, r, b);
      if n - 1 in keep {
        assert Select(log, keep, n)[..|Select(log, keep, n)| - 1] == Select(log, keep, n - 1);
      } else {
        assert Select(log, keep, n) == Select(log, keep, n - 1);
      }
      SameOrphansStep(cfg, v, r, a, b, keys, n - 1 in keep);
      OrphanPassOnSelected(cfg, v, log, keep, n - 1, a', b', keys);
    }
  }

  lemma SameOrphansStep(
    cfg: Config, v: View, r: Record, a: OrphanState, b: OrphanState, keys: set<ProcessKey>, kept: bool)
    requires SameOrphans(v, a, b, keys)
    requires Launched(r) && Orphan(v, KeyOf(r)) ==> kept && KeyOf(r) in keys
    ensures SameOrphans(v, if kept then OrphanStep(cfg, v, r, a) else a, OrphanStep(cfg, v, r, b), keys)
  {
  }

  lemma {:induction false} OrphanPassInTwo(cfg: Config, v: View, log: seq<Record>, more: seq<Record>, st: OrphanState)
    ensures OrphanPass(cfg, v, log + more, st) == OrphanPass(cfg, v, log, OrphanPass(cfg, v, more, st))
    decreases |more|
  {
    hide OrphanStep;
    if more == [] {
      assert log + more == log;
    } else {
      var front, last := more[..|more| - 1], more[|more| - 1];
      assert (log + more)[..|log + more| - 1] == log + front;
      OrphanPassInTwo(cfg, v, log, front, OrphanStep(cfg, v, last, st));
    }
  }

  lemma {:induction false} SameOrphansPass(
    cfg: Config, v: View, more: seq<Record>, a: OrphanState, b: OrphanState, keys: set<ProcessKey>)
    requires SameOrphans(v, a, b, keys)
    requires forall r | r in more && Launched(r) && Orphan(v, KeyOf(r)) :: KeyOf(r) in keys
    ensures SameOrphans(v, OrphanPass(cfg, v, more, a), OrphanPass(cfg, v, more, b), keys)
    decreases |more|
  {
    hide SameOrphans, OrphanStep;
    if more != [] {
      var front, last := more[..|more| - 1], more[|more| - 1];
      SameOrphansStep(cfg, v, last, a, b, keys, true);
      SameOrphansPass(cfg, v, front, OrphanStep(cfg, v, last, a), OrphanStep(cfg, v, last, b), keys);
    }
  }

  /** What was launched before the compaction and is an orphan now was protected then. */
  ghost predicate ProtectedThen(v: View, log: seq<Record>, w: World) {
    forall r | r in log && Launched(r) && Orphan(v, KeyOf(r)) :: Protected(r, w)
  }

  /** A process launched since under the key of an older one: the older one was protected, or had not finished. */
  ghost predicate NewOrPending(v: View, log: seq<Record>, more: seq<Record>, w: World) {
    forall r | r in more && Launched(r) && Orphan(v, KeyOf(r)) ::
      KeyOf(r) in ProtectedKeys(log, w) || KeyOf(r) !in TerminalKeys(log)
  }

  /**
   On a later tick the orphan pass over the compacted manifest and what was appended since signals the same
   processes, in the same order, as over the full manifest, for the orphans that the compaction protected.
   */
  lemma OrphanSignalsOnCompacted(
    cfg: Config, v: View, log: seq<Record>, more: seq<Record>, w: World, minRecords: nat, keepRecent: nat,
    seen: map<ProcessKey, int>)
    requires ProtectedThen(v, log, w) && NewOrPending(v, log, more, w)
    ensures var c := Compacted(log, w, minRecords, keepRecent);
            OrphanPass(cfg, v, c + more, OrphanState(seen, TerminalKeys(c + more), [], [])).signalled ==
            OrphanPass(cfg, v, log + more, OrphanState(seen, TerminalKeys(log + more), [], [])).signalled
  {
    var c := Compacted(log, w, minRecords, keepRecent);
    if |log| >= minRecords {
      var keys := set k | k in LaunchedKeys(log + more) && Orphan(v, k);
      var a, b := OrphanState(seen, TerminalKeys(c + more), [], []),
        OrphanState(seen, TerminalKeys(log + more), [], []);
      forall k | k in keys ensures k in a.terminal <==> k in b.terminal {
        SameTerminal(v, log, more, w, minRecords, keepRecent, k);
      }
      forall r | r in log + more && Launched(r) && Orphan(v, KeyOf(r)) ensures KeyOf(r) in keys {
        assert KeyOf(r) in LaunchedKeys(log + more);
      }
      hide Compacted, Protected, LaunchedKeys, OrphanPass, KeepIndexes;
      SameOrphansPass(cfg, v, more, a, b, keys);
      forall i: nat | i < |log| && Launched(log[i]) && Orphan(v, KeyOf(log[i]))
        ensures i in KeepIndexes(log, w, keepRecent) && KeyOf(log[i]) in keys
      {
        assert log[i] in log + more && Protected(log[i], w);
        ProtectedIsKept(log, w, keepRecent, i);
      }
      OrphanPassInTwo(cfg, v, c, more, a);
      OrphanPassInTwo(cfg, v, log, more, b);
      OrphanPassOnSelected(cfg, v, log, KeepIndexes(log, w, keepRecent), |log|,
        OrphanPass(cfg, v, more, a), OrphanPass(cfg, v, more, b), keys);
      assert log[..|log|] == log;
      CompactedSelects(log, w, minRecords, keepRecent);
    }
  }

  ghost function LaunchedKeys(log: seq<Record>): set<ProcessKey> {
    set r | r in log && Launched(r) :: KeyOf(r)
  }

  lemma ProtectedIsKept(log: seq<Record>, w: World, keepRecent: nat, i: nat)
    requires i < |log| && Protected(log[i], w)
    ensures i in KeepIndexes(log, w, keepRecent)
  {
  }

  lemma CompactedSelects(log: seq<Record>, w: World, minRecords: nat, keepRecent: nat)
    requires |log| >= minRecords
    ensures Compacted(log, w, minRecords, keepRecent) == Select(log, KeepIndexes(log, w, keepRecent), |log|)
  {
  }

  lemma SameTerminal(
    v: View, log: seq<Record>, more: seq<Record>, w: World, minRecords: nat, keepRecent: nat, key: ProcessKey)
    requires ProtectedThen(v, log, w) && NewOrPending(v, log, more, w)
    requires key in LaunchedKeys(log + more) && Orphan(v, key)
    ensures key in TerminalKeys(Compacted(log, w, minRecords, keepRecent) + more) <==> key in TerminalKeys(log + more)
  {
    var c := Compacted(log, w, minRecords, keepRecent);
    TerminalKeysGrow(c, more);
    TerminalKeysGrow(log, more);
    var r :| r in log + more && Launched(r) && KeyOf(r) == key;
    if r in log {
      assert key in ProtectedKeys(log, w);
    }
    if key in ProtectedKeys(log, w) {
      CompactionKeepsTerminalKeys(log, w, minRecords, keepRecent, key);
    } else {
      assert r in more;
      CompactionFinishesNothing(log, w, minRecords, keepRecent);
    }
  }

  lemma CompactionFinishesNothing(log: seq<Record>, w: World, minRecords: nat, keepRecent: nat)
    ensures TerminalKeys(Compacted(log, w, minRecords, keepRecent)) <= TerminalKeys(log)
  {
    if |log| >= minRecords {
      SelectShape(log, KeepIndexes(log, w, keepRecent), |log|);
    }
  }
}
