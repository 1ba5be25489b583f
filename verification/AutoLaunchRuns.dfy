/** What holds over every interleaving of launch requests, process exits and settlements. */
module AutoLaunchRuns {
  import opened Common
  import opened JsMaps
  import RateLimiter
  import RateLimiterProofs
  import opened AutoLaunch

  datatype Event =
    | RequestEv(req: Request, registered: seq<string>, now: int)
    | ExitEv(id: nat)
    | SettleEv(id: nat)

  function Step(cfg: Config, st: State, e: Event): State
    requires RateLimiter.ValidSettings(cfg.rate)
  {
    match e
    case RequestEv(req, registered, now) => Requested(cfg, st, req, registered, now)
    case ExitEv(id) => Exited(st, id)
    case SettleEv(id) => Settled(st, id)
  }

  function After(cfg: Config, events: seq<Event>, n: nat): State
    requires RateLimiter.ValidSettings(cfg.rate) && n <= |events|
  {
    if n == 0 then Initial() else Step(cfg, After(cfg, events, n - 1), events[n - 1])
  }

  /** Event `i` started a launch. */
  predicate StartedAt(cfg: Config, events: seq<Event>, i: nat)
    requires RateLimiter.ValidSettings(cfg.rate) && i < |events|
  {
    events[i].RequestEv?
    && OutcomeOf(cfg, After(cfg, events, i), events[i].req, events[i].registered, events[i].now).Started?
  }

  /** Requests carry the clock, which starts after zero and never runs backwards. */
  ghost predicate Timed(events: seq<Event>) {
    && (forall i | 0 <= i < |events| && events[i].RequestEv? :: events[i].now > 0)
    && (forall i, j | 0 <= i < j < |events| && events[i].RequestEv? && events[j].RequestEv? ::
         events[i].now <= events[j].now)
  }

  // ---- single flight, bounded ----

  /** Pending rooms and unsettled launches are in one-to-one correspondence. */
  ghost predicate Good(st: State) {
    && (forall room | room in st.pending ::
         st.pending[room] in st.launches && st.launches[st.pending[room]].roomId == room)
    && (forall id | id in st.launches ::
         st.launches[id].roomId in st.pending && st.pending[st.launches[id].roomId] == id)
    && (forall id | id in st.launches :: id < st.nextId)
  }

  lemma StepGood(cfg: Config, st: State, e: Event)
    requires RateLimiter.ValidSettings(cfg.rate) && Good(st)
    ensures Good(Step(cfg, st, e))
  {
    hide SafetyObjection, RateAllows, BucketsAfter;
    match e
    case RequestEv(req, registered, now) =>
    case ExitEv(id) =>
    case SettleEv(id) =>
      if id in st.launches && !st.launches[id].running {
        var next := Settled(st, id);
        assert forall room | room in next.pending ::
          room in st.pending && next.pending[room] == st.pending[room] && st.pending[room] != id;
      }
  }

  lemma {:induction false} GoodAlways(cfg: Config, events: seq<Event>, n: nat)
    requires RateLimiter.ValidSettings(cfg.rate) && n <= |events|
    ensures Good(After(cfg, events, n))
  {
    hide Step, Good;
    if n == 0 {
      assert Good(Initial()) by { InitialGood(); }
    } else {
      GoodAlways(cfg, events, n - 1);
      StepGood(cfg, After(cfg, events, n - 1), events[n - 1]);
    }
  }

  lemma InitialGood()
    ensures Good(Initial())
  {
  }

  /** Single flight: no two launcher processes ever run for the same room. */
  lemma AtMostOneLaunchPerRoom(cfg: Config, events: seq<Event>, n: nat, a: nat, b: nat)
    requires RateLimiter.ValidSettings(cfg.rate) && n <= |events|
    requires var st := After(cfg, events, n);
             a in st.launches && b in st.launches && st.launches[a].roomId == st.launches[b].roomId
    ensures a == b
    ensures var st := After(cfg, events, n);
            st.launches[a].roomId in st.pending && st.pending[st.launches[a].roomId] == a
  {
    hide After;
    GoodAlways(cfg, events, n);
  }

  lemma PendingCount(st: State)
    requires Good(st)
    ensures |st.pending| == |st.launches|
  {
    assert |st.pending| == |st.pending.Keys| && |st.launches| == |st.launches.Keys|;
    CountRooms(st.launches, st.pending.Keys);
  }

  lemma {:induction false} CountRooms(launches: map<nat, Launch>, rooms: set<string>)
    requires forall id | id in launches :: launches[id].roomId in rooms
    requires forall a, b | a in launches && b in launches && launches[a].roomId == launches[b].roomId :: a == b
    requires forall room | room in rooms :: exists id :: id in launches && launches[id].roomId == room
    ensures |rooms| == |launches.Keys|
    decreases launches.Keys
  {
    if launches.Keys == {} {
      assert rooms == {};
    } else {
      var id :| id in launches.Keys;
      var rest := launches - {id};
      assert rest.Keys == launches.Keys - {id};
      forall room | room in rooms - {launches[id].roomId} ensures exists x :: x in rest && rest[x].roomId == room {
        var x :| x in launches && launches[x].roomId == room;
        assert x in rest && rest[x].roomId == room;
      }
      CountRooms(rest, rooms - {launches[id].roomId});
    }
  }

  /** The launches in flight never exceed the pending limit. */
  lemma {:induction false} InFlightIsBounded(cfg: Config, events: seq<Event>, n: nat)
    requires RateLimiter.ValidSettings(cfg.rate) && n <= |events| && cfg.maxPendingLaunches >= 0
    ensures |After(cfg, events, n).launches| == |After(cfg, events, n).pending| <= cfg.maxPendingLaunches
  {
    hide Step;
    GoodAlways(cfg, events, n);
    PendingCount(After(cfg, events, n));
    hide Good;
    if n > 0 {
      InFlightIsBounded(cfg, events, n - 1);
      PendingGrows(cfg, After(cfg, events, n - 1), events[n - 1]);
    }
  }

  lemma SizeWith(m: map<string, nat>, room: string, id: nat)
    ensures |m[room := id]| == |m| + (if room in m then 0 else 1)
  {
    assert m[room := id].Keys == m.Keys + {room} && |m[room := id]| == |m[room := id].Keys| && |m| == |m.Keys|;
  }

  lemma SizeWithout(m: map<string, nat>, room: string)
    ensures |m - {room}| == |m| - (if room in m then 1 else 0)
  {
    assert (m - {room}).Keys == m.Keys - {room} && |m - {room}| == |(m - {room}).Keys| && |m| == |m.Keys|;
  }

  lemma StartHasRoom(cfg: Config, st: State, req: Request, registered: seq<string>, now: int)
    requires RateLimiter.ValidSettings(cfg.rate) && OutcomeOf(cfg, st, req, registered, now).Started?
    ensures |st.pending| < cfg.maxPendingLaunches && |registered| + |st.pending| < cfg.maxActiveServers
    ensures req.roomId !in registered && req.roomId !in st.pending
  {
  }

  lemma PendingGrows(cfg: Config, st: State, e: Event)
    requires RateLimiter.ValidSettings(cfg.rate)
    ensures |Step(cfg, st, e).pending| <= Max(|st.pending|, cfg.maxPendingLaunches)
  {
    hide OutcomeOf, BucketsAfter;
    match e
    case RequestEv(req, registered, now) =>
      if OutcomeOf(cfg, st, req, registered, now).Started? {
        StartHasRoom(cfg, st, req, registered, now);
        SizeWith(st.pending, req.roomId, st.nextId);
      }
    case ExitEv(id) =>
    case SettleEv(id) => if id in st.launches { SizeWithout(st.pending, st.launches[id].roomId); }
  }

  // ---- the server limit ----

  /** The launcher together with the launched servers that are registered. */
  datatype Fleet = Fleet(st: State, up: set<nat>)

  /** Besides the launcher's own events, the server of a started launch registers, or leaves the registry. */
  datatype FleetEvent = Launching(e: Event) | Register(id: nat) | Unregister(id: nat)

  function FleetStep(cfg: Config, fleet: Fleet, e: FleetEvent): Fleet
    requires RateLimiter.ValidSettings(cfg.rate)
  {
    match e
    case Launching(event) => fleet.(st := Step(cfg, fleet.st, event))
    case Register(id) => if id < fleet.st.nextId then fleet.(up := fleet.up + {id}) else fleet
    case Unregister(id) => fleet.(up := fleet.up - {id})
  }

  function FleetAfter(cfg: Config, events: seq<FleetEvent>, n: nat): Fleet
    requires RateLimiter.ValidSettings(cfg.rate) && n <= |events|
  {
    if n == 0 then Fleet(Initial(), {}) else FleetStep(cfg, FleetAfter(cfg, events, n - 1), events[n - 1])
  }

  /** Servers come only from launches: every request sees as many registered servers as there are. */
  ghost predicate OnlyLaunched(cfg: Config, events: seq<FleetEvent>, n: nat)
    requires RateLimiter.ValidSettings(cfg.rate) && n <= |events|
  {
    forall i: nat | i < n && events[i].Launching? && events[i].e.RequestEv? ::
      |events[i].e.registered| == |FleetAfter(cfg, events, i).up|
  }

  /** The server registers only after its launch was settled. */
  predicate Late(fleet: Fleet, e: FleetEvent) {
    e.Register? && e.id < fleet.st.nextId && e.id !in fleet.st.launches && e.id !in fleet.up
  }

  function LateCount(cfg: Config, events: seq<FleetEvent>, n: nat): nat
    requires RateLimiter.ValidSettings(cfg.rate) && n <= |events|
  {
    if n == 0 then 0 else
      LateCount(cfg, events, n - 1) + if Late(FleetAfter(cfg, events, n - 1), events[n - 1]) then 1 else 0
  }

  /** The registered servers and the launches that are under way. */
  function Servers(fleet: Fleet): set<nat> {
    fleet.up + fleet.st.launches.Keys
  }

  lemma Added(ids: set<nat>, id: nat)
    ensures |ids + {id}| == |ids| + if id in ids then 0 else 1
  {
    if id in ids {
      assert ids + {id} == ids;
    }
  }

  lemma StartAddsOne(cfg: Config, fleet: Fleet, req: Request, registered: seq<string>, now: int)
    requires RateLimiter.ValidSettings(cfg.rate) && Good(fleet.st) && |registered| == |fleet.up|
    requires OutcomeOf(cfg, fleet.st, req, registered, now).Started?
    ensures |Servers(fleet.(st := Requested(cfg, fleet.st, req, registered, now)))| <= cfg.maxActiveServers
  {
    var st := fleet.st;
    hide OutcomeOf, SafetyObjection, RateAllows, BucketsAfter;
    StartHasRoom(cfg, st, req, registered, now);
    PendingCount(st);
    hide Good;
    var next := fleet.(st := Requested(cfg, st, req, registered, now));
    assert Servers(next) == Servers(fleet) + {st.nextId};
    Added(Servers(fleet), st.nextId);
    assert |fleet.up + st.launches.Keys| <= |fleet.up| + |st.launches.Keys|;
  }

  lemma NoStartNoLaunch(cfg: Config, st: State, e: Event)
    requires RateLimiter.ValidSettings(cfg.rate)
    requires e.RequestEv? ==> !OutcomeOf(cfg, st, e.req, e.registered, e.now).Started?
    ensures Step(cfg, st, e).launches.Keys <= st.launches.Keys
  {
    hide OutcomeOf, BucketsAfter;
  }

  lemma StepOfRequest(cfg: Config, st: State, e: Event)
    requires RateLimiter.ValidSettings(cfg.rate) && e.RequestEv?
    ensures Step(cfg, st, e) == Requested(cfg, st, e.req, e.registered, e.now)
  {
  }

  lemma LaunchingBound(cfg: Config, fleet: Fleet, e: Event)
    requires RateLimiter.ValidSettings(cfg.rate) && Good(fleet.st)
    requires e.RequestEv? ==> |e.registered| == |fleet.up|
    ensures |Servers(fleet.(st := Step(cfg, fleet.st, e)))| <= Max(cfg.maxActiveServers, |Servers(fleet)|)
  {
    hide OutcomeOf, Step, Good;
    if e.RequestEv? && OutcomeOf(cfg, fleet.st, e.req, e.registered, e.now).Started? {
      StartAddsOne(cfg, fleet, e.req, e.registered, e.now);
      StepOfRequest(cfg, fleet.st, e);
    } else {
      NoStartNoLaunch(cfg, fleet.st, e);
      SubsetSize(Servers(fleet.(st := Step(cfg, fleet.st, e))), Servers(fleet));
    }
  }

  lemma RegisterBound(fleet: Fleet, id: nat)
    requires id < fleet.st.nextId
    ensures |Servers(fleet.(up := fleet.up + {id}))|
         == |Servers(fleet)| + if Late(fleet, Register(id)) then 1 else 0
  {
    assert Servers(fleet.(up := fleet.up + {id})) == Servers(fleet) + {id};
    Added(Servers(fleet), id);
  }

  lemma UnregisterBound(fleet: Fleet, id: nat)
    ensures |Servers(fleet.(up := fleet.up - {id}))| <= |Servers(fleet)|
  {
    SubsetSize(Servers(fleet.(up := fleet.up - {id})), Servers(fleet));
  }

  lemma FleetStepBound(cfg: Config, fleet: Fleet, e: FleetEvent)
    requires RateLimiter.ValidSettings(cfg.rate) && Good(fleet.st)
    requires e.Launching? && e.e.RequestEv? ==> |e.e.registered| == |fleet.up|
    ensures |Servers(FleetStep(cfg, fleet, e))| <=
              Max(cfg.maxActiveServers, |Servers(fleet)| + if Late(fleet, e) then 1 else 0)
  {
    hide Step, Good, Servers, Late;
    match e
    case Launching(event) => LaunchingBound(cfg, fleet, event);
    case Register(id) => if id < fleet.st.nextId { RegisterBound(fleet, id); }
    case Unregister(id) => UnregisterBound(fleet, id);
  }

  lemma {:induction false} FleetGood(cfg: Config, events: seq<FleetEvent>, n: nat)
    requires RateLimiter.ValidSettings(cfg.rate) && n <= |events|
    ensures Good(FleetAfter(cfg, events, n).st)
  {
    hide Step, Good;
    if n == 0 {
      InitialGood();
    } else {
      FleetGood(cfg, events, n - 1);
      if events[n - 1].Launching? {
        StepGood(cfg, FleetAfter(cfg, events, n - 1).st, events[n - 1].e);
      }
    }
  }

  /**
   Where servers come only from launches, the registered servers and the launches under way together exceed the
   server limit by no more than the number of servers that registered after their launch was settled. When every
   server registers in time, the limit holds throughout.
   */
  lemma {:induction false} ServersStayWithinLimit(cfg: Config, events: seq<FleetEvent>, n: nat)
    requires RateLimiter.ValidSettings(cfg.rate) && cfg.maxActiveServers >= 0
    requires n <= |events| && OnlyLaunched(cfg, events, n)
    ensures |Servers(FleetAfter(cfg, events, n))| <= cfg.maxActiveServers + LateCount(cfg, events, n)
  {
    hide FleetStep, Late, Good, Servers;
    if n == 0 {
      NoServers(cfg, events);
    } else {
      ServersStayWithinLimit(cfg, events, n - 1);
      FleetGood(cfg, events, n - 1);
      FleetStepBound(cfg, FleetAfter(cfg, events, n - 1), events[n - 1]);
    }
  }

  /** The one event that breaks the limit: a late registration when as many servers as allowed are there. */
  lemma LimitBrokenExactlyWhen(cfg: Config, events: seq<FleetEvent>, n: nat)
    requires RateLimiter.ValidSettings(cfg.rate) && n < |events| && OnlyLaunched(cfg, events, n + 1)
    ensures var fleet, next := FleetAfter(cfg, events, n), FleetAfter(cfg, events, n + 1);
            |Servers(fleet)| <= cfg.maxActiveServers ==>
              (|Servers(next)| > cfg.maxActiveServers
               <==> Late(fleet, events[n]) && |Servers(fleet)| == cfg.maxActiveServers)
  {
    hide Step, Late, Good, Servers;
    var fleet, e := FleetAfter(cfg, events, n), events[n];
    FleetGood(cfg, events, n);
    FleetStepBound(cfg, fleet, e);
    if Late(fleet, e) {
      LateRegisters(cfg, fleet, e);
    }
  }

  lemma LateRegisters(cfg: Config, fleet: Fleet, e: FleetEvent)
    requires RateLimiter.ValidSettings(cfg.rate) && Late(fleet, e)
    ensures |Servers(FleetStep(cfg, fleet, e))| == |Servers(fleet)| + 1
  {
    hide Step, Servers;
    RegisterBound(fleet, e.id);
  }

  lemma NoServers(cfg: Config, events: seq<FleetEvent>)
    requires RateLimiter.ValidSettings(cfg.rate)
    ensures |Servers(FleetAfter(cfg, events, 0))| == 0
  {
  }

  /** A launcher that gives up waiting, and a server that registers after the next one was started. */
  function LateRun(): seq<FleetEvent> {
    [Launching(RequestEv(Request("a", "k"), [], 1)), Launching(ExitEv(0)), Launching(SettleEv(0)),
     Launching(RequestEv(Request("b", "k"), [], 2)), Register(0)]
  }

  function LateConfig(): Config {
    Config(1, 1, 0, false, RateLimiter.Settings(1000, 1, 100))
  }

  /** The fleet after the first `n` events of that run. */
  function LateFleet(n: nat): Fleet {
    match n
    case 0 => Fleet(Initial(), {})
    case 1 => Fleet(State(map["a" := 0], map["a" := 1], Empty(), map[0 := Launch("a", true)], 1), {})
    case 2 => Fleet(State(map["a" := 0], map["a" := 1], Empty(), map[0 := Launch("a", false)], 1), {})
    case 3 => Fleet(State(map[], map["a" := 1], Empty(), map[], 1), {})
    case 4 => Fleet(State(map["b" := 1], map["a" := 1, "b" := 2], Empty(), map[1 := Launch("b", true)], 2), {})
    case _ => Fleet(State(map["b" := 1], map["a" := 1, "b" := 2], Empty(), map[1 := Launch("b", true)], 2), {0})
  }

  lemma FirstStart()
    ensures Requested(LateConfig(), LateFleet(0).st, Request("a", "k"), [], 1) == LateFleet(1).st
  {
  }

  lemma SecondStart()
    ensures Requested(LateConfig(), LateFleet(3).st, Request("b", "k"), [], 2) == LateFleet(4).st
  {
  }

  lemma LateStep(n: nat)
    requires n < 5
    ensures FleetStep(LateConfig(), LateFleet(n), LateRun()[n]) == LateFleet(n + 1)
    ensures Late(LateFleet(n), LateRun()[n]) <==> n == 4
  {
    hide Requested;
    FirstStart();
    SecondStart();
    hide LateConfig;
    match n
    case 0 =>
    case 1 =>
    case 2 => assert map[0 := Launch("a", false)] - {0} == map[] && map["a" := 0] - {"a"} == map[];
    case 3 =>
    case 4 =>
  }

  lemma {:induction false} LateFleetIs(n: nat)
    requires n <= 5
    ensures FleetAfter(LateConfig(), LateRun(), n) == LateFleet(n)
    ensures LateCount(LateConfig(), LateRun(), n) == if n == 5 then 1 else 0
  {
    if n > 0 {
      LateFleetIs(n - 1);
      LateStep(n - 1);
      hide LateFleet, FleetStep, Late, LateRun, LateConfig;
    }
  }

  /** With a limit of one server, a late registration makes two. */
  lemma LateServerExceedsLimit()
    ensures LateConfig().maxActiveServers == 1 && OnlyLaunched(LateConfig(), LateRun(), 5)
    ensures LateCount(LateConfig(), LateRun(), 5) == 1 && Servers(FleetAfter(LateConfig(), LateRun(), 5)) == {0, 1}
  {
    hide FleetAfter, LateCount;
    LateFleetIs(0);
    LateFleetIs(3);
    LateFleetIs(5);
  }

  // ---- cooldown ----

  /** The last launch time of a room is not forgotten, and only grows. */
  lemma {:induction false} LastLaunchKept(cfg: Config, events: seq<Event>, i: nat, n: nat)
    requires RateLimiter.ValidSettings(cfg.rate) && Timed(events) && i < n <= |events| && StartedAt(cfg, events, i)
    ensures var st := After(cfg, events, n);
            events[i].req.roomId in st.lastLaunchAt && events[i].now <= st.lastLaunchAt[events[i].req.roomId]
    decreases n
  {
    hide SafetyObjection, RateAllows, BucketsAfter;
    if i + 1 < n {
      LastLaunchKept(cfg, events, i, n - 1);
    }
  }

  /** Two starts for one room are at least the cooldown apart. */
  lemma StartsAreACooldownApart(cfg: Config, events: seq<Event>, i: nat, j: nat)
    requires RateLimiter.ValidSettings(cfg.rate) && Timed(events) && i < j < |events|
    requires StartedAt(cfg, events, i) && StartedAt(cfg, events, j) && events[i].req.roomId == events[j].req.roomId
    ensures events[j].now - events[i].now >= cfg.roomCooldownMs
  {
    LastLaunchKept(cfg, events, i, j);
  }

  // ---- exactly when a launch starts ----

  /** The remembered launch time of a room is that of one of its starts. */
  lemma {:induction false} LastLaunchIsAStart(cfg: Config, events: seq<Event>, n: nat, room: string) returns (i: nat)
    requires RateLimiter.ValidSettings(cfg.rate) && n <= |events| && room in After(cfg, events, n).lastLaunchAt
    ensures i < n && StartedAt(cfg, events, i) && events[i].req.roomId == room
    ensures After(cfg, events, n).lastLaunchAt[room] == events[i].now
  {
    hide OutcomeOf, BucketsAfter;
    var st, e := After(cfg, events, n - 1), events[n - 1];
    if StartedAt(cfg, events, n - 1) && e.req.roomId == room {
      i := n - 1;
    } else {
      i := LastLaunchIsAStart(cfg, events, n - 1, room);
    }
  }

  /** An unsettled launch of the room. */
  ghost predicate UnderWay(st: State, room: string, id: nat) {
    id in st.launches && st.launches[id].roomId == room
  }

  /** Every earlier start of the room is at least the cooldown ago. */
  ghost predicate CooledDown(cfg: Config, events: seq<Event>, n: nat)
    requires RateLimiter.ValidSettings(cfg.rate) && n < |events| && events[n].RequestEv?
  {
    forall i: nat | i < n && StartedAt(cfg, events, i) && events[i].req.roomId == events[n].req.roomId ::
      events[n].now - events[i].now >= cfg.roomCooldownMs
  }

  lemma CooldownFollowsStarts(cfg: Config, events: seq<Event>, n: nat)
    requires RateLimiter.ValidSettings(cfg.rate) && Timed(events) && n < |events| && events[n].RequestEv?
    ensures var st, room := After(cfg, events, n), events[n].req.roomId;
            cfg.roomCooldownMs > 0 && room in st.lastLaunchAt && st.lastLaunchAt[room] > 0
            && events[n].now - st.lastLaunchAt[room] < cfg.roomCooldownMs
            <==> !CooledDown(cfg, events, n)
  {
    hide After, OutcomeOf;
    var st, room := After(cfg, events, n), events[n].req.roomId;
    if room in st.lastLaunchAt {
      var i := LastLaunchIsAStart(cfg, events, n, room);
    }
    forall i: nat | i < n && StartedAt(cfg, events, i) && events[i].req.roomId == room
      ensures room in st.lastLaunchAt && events[i].now <= st.lastLaunchAt[room]
    {
      LastLaunchKept(cfg, events, i, n);
    }
  }

  /** The limiter admits a request against the key; a nameless key counts as the global one. */
  predicate Admitted(cfg: Config, st: State, rateKey: string, now: int)
    requires RateLimiter.ValidSettings(cfg.rate)
  {
    RateLimiter.CheckAnswer(st.buckets, if rateKey == "" then "global" else rateKey, now, cfg.rate).success
  }

  /**
   What a request leads to, over any run: it joins the launch under way for its room when there is one; else it
   starts one if and only if no server of the room is registered, the servers and launches are below both limits,
   every earlier start of the room is the cooldown ago, and the rate limiter, if it is on, admits the request.
   */
  lemma StartsExactlyWhen(cfg: Config, events: seq<Event>, n: nat)
    requires RateLimiter.ValidSettings(cfg.rate) && Timed(events) && n < |events| && events[n].RequestEv?
    ensures var st, e := After(cfg, events, n), events[n];
            var outcome, under := OutcomeOf(cfg, st, e.req, e.registered, e.now), |st.launches|;
            && (forall id :: UnderWay(st, e.req.roomId, id) <==> outcome == Joined(id))
            && (outcome.Started? <==>
                 && (forall id :: !UnderWay(st, e.req.roomId, id)) && e.req.roomId !in e.registered
                 && |e.registered| + under < cfg.maxActiveServers && under < cfg.maxPendingLaunches
                 && CooledDown(cfg, events, n)
                 && (cfg.rateLimitEnabled ==> Admitted(cfg, st, e.req.rateKey, e.now)))
            && (outcome.Started? ==>
                 UnderWay(After(cfg, events, n + 1), e.req.roomId, outcome.id) && outcome.id !in st.launches)
  {
    hide RateLimiter.CheckAnswer, RateLimiter.Checked, CooledDown;
    GoodAlways(cfg, events, n);
    PendingCount(After(cfg, events, n));
    CooldownFollowsStarts(cfg, events, n);
    assert After(cfg, events, n + 1) == Step(cfg, After(cfg, events, n), events[n]);
    hide After, Timed;
  }

  // ---- the rate limit on starts ----

  /** The requests that reach the rate limiter, in order. */
  function LimiterTrace(cfg: Config, events: seq<Event>, n: nat): seq<RateLimiterProofs.Request>
    requires RateLimiter.ValidSettings(cfg.rate) && n <= |events|
  {
    if n == 0 then [] else
      var e := events[n - 1];
      LimiterTrace(cfg, events, n - 1)
      + (if e.RequestEv? && ReachesLimiter(cfg, After(cfg, events, n - 1), e.req, e.registered, e.now)
         then [RateLimiterProofs.Request(e.now, RateLimiter.CleanKey(e.req.rateKey))] else [])
  }

  /** The starts against a rate key at times in [lo, hi). */
  function Starts(cfg: Config, events: seq<Event>, n: nat, key: string, lo: int, hi: int): nat
    requires RateLimiter.ValidSettings(cfg.rate) && n <= |events|
  {
    if n == 0 then 0 else
      Starts(cfg, events, n - 1, key, lo, hi)
      + (if StartedAt(cfg, events, n - 1) && RateLimiter.CleanKey(events[n - 1].req.rateKey) == key
            && lo <= events[n - 1].now < hi
         then 1 else 0)
  }

  lemma {:induction false} StateSnoc(
    m: RateLimiter.Buckets, reqs: seq<RateLimiterProofs.Request>, r: RateLimiterProofs.Request,
    s: RateLimiter.Settings)
    requires RateLimiter.ValidSettings(s)
    ensures RateLimiterProofs.State(m, reqs + [r], s)
         == RateLimiter.Checked(RateLimiterProofs.State(m, reqs, s), r.key, r.now, s)
    ensures RateLimiterProofs.Answers(m, reqs + [r], s)
         == RateLimiterProofs.Answers(m, reqs, s)
           + [RateLimiter.CheckAnswer(RateLimiterProofs.State(m, reqs, s), r.key, r.now, s)]
    decreases |reqs|
  {
    hide RateLimiter.Checked, RateLimiter.CheckAnswer;
    if reqs == [] {
      assert reqs + [r] == [r];
    } else {
      var next := RateLimiter.Checked(m, reqs[0].key, reqs[0].now, s);
      assert (reqs + [r])[1..] == reqs[1..] + [r];
      StateSnoc(next, reqs[1..], r, s);
    }
  }

  lemma {:induction false} AdmissionsSnoc(
    reqs: seq<RateLimiterProofs.Request>, answers: seq<RateLimiter.Answer>, r: RateLimiterProofs.Request,
    a: RateLimiter.Answer,
    key: string, lo: int, hi: int)
    requires |reqs| == |answers|
    ensures RateLimiterProofs.Admissions(reqs + [r], answers + [a], key, lo, hi)
         == RateLimiterProofs.Admissions(reqs, answers, key, lo, hi)
           + (if r.key == key && lo <= r.now < hi && a.success then 1 else 0)
  {
    if reqs == [] {
      assert reqs + [r] == [r] && answers + [a] == [a];
    } else {
      assert (reqs + [r])[1..] == reqs[1..] + [r] && (answers + [a])[1..] == answers[1..] + [a];
      AdmissionsSnoc(reqs[1..], answers[1..], r, a, key, lo, hi);
    }
  }

  lemma AfterStep(cfg: Config, events: seq<Event>, n: nat)
    requires RateLimiter.ValidSettings(cfg.rate) && n < |events|
    ensures After(cfg, events, n + 1) == Step(cfg, After(cfg, events, n), events[n])
  {
  }

  /** What one event does to the buckets. */
  lemma StepBuckets(cfg: Config, st: State, e: Event)
    requires RateLimiter.ValidSettings(cfg.rate) && cfg.rateLimitEnabled
    ensures Step(cfg, st, e).buckets ==
      if e.RequestEv? && ReachesLimiter(cfg, st, e.req, e.registered, e.now)
      then RateLimiter.Checked(st.buckets, RateLimiter.CleanKey(e.req.rateKey), e.now, cfg.rate) else st.buckets
    ensures e.RequestEv? ==>
      (OutcomeOf(cfg, st, e.req, e.registered, e.now).Started? <==>
        ReachesLimiter(cfg, st, e.req, e.registered, e.now)
        && RateLimiter.CheckAnswer(st.buckets, RateLimiter.CleanKey(e.req.rateKey), e.now, cfg.rate).success)
  {
    hide RateLimiter.Checked, RateLimiter.CheckAnswer, SafetyObjection;
  }

  lemma {:induction false} BucketsFollowTrace(cfg: Config, events: seq<Event>, n: nat)
    requires RateLimiter.ValidSettings(cfg.rate) && cfg.rateLimitEnabled && n <= |events|
    ensures After(cfg, events, n).buckets == RateLimiterProofs.State(Empty(), LimiterTrace(cfg, events, n), cfg.rate)
  {
    hide RateLimiter.Checked, ReachesLimiter, After, Step, OutcomeOf, RateLimiter.CleanKey;
    if n == 0 {
      AfterNone(cfg, events);
    } else {
      BucketsFollowTrace(cfg, events, n - 1);
      var st, e, trace := After(cfg, events, n - 1), events[n - 1], LimiterTrace(cfg, events, n - 1);
      AfterStep(cfg, events, n - 1);
      StepBuckets(cfg, st, e);
      if e.RequestEv? && ReachesLimiter(cfg, st, e.req, e.registered, e.now) {
        StateSnoc(Empty(), trace, RateLimiterProofs.Request(e.now, RateLimiter.CleanKey(e.req.rateKey)), cfg.rate);
      } else {
        assert LimiterTrace(cfg, events, n) == trace;
      }
    }
  }

  /** One event adds to the trace what it adds to the starts. */
  lemma StartsStep(cfg: Config, events: seq<Event>, n: nat, key: string, lo: int, hi: int)
    requires RateLimiter.ValidSettings(cfg.rate) && cfg.rateLimitEnabled && n < |events|
    requires After(cfg, events, n).buckets == RateLimiterProofs.State(Empty(), LimiterTrace(cfg, events, n), cfg.rate)
    ensures Starts(cfg, events, n + 1, key, lo, hi) - Starts(cfg, events, n, key, lo, hi)
         == TraceAdmissions(cfg, events, n + 1, key, lo, hi) - TraceAdmissions(cfg, events, n, key, lo, hi)
  {
    hide RateLimiter.Checked, RateLimiter.CheckAnswer, ReachesLimiter, After, OutcomeOf, RateLimiter.CleanKey,
         RateLimiterProofs.Admissions, RateLimiterProofs.State, RateLimiterProofs.Answers;
    var st, e, trace := After(cfg, events, n), events[n], LimiterTrace(cfg, events, n);
    StepBuckets(cfg, st, e);
    if e.RequestEv? && ReachesLimiter(cfg, st, e.req, e.registered, e.now) {
      var r := RateLimiterProofs.Request(e.now, RateLimiter.CleanKey(e.req.rateKey));
      StateSnoc(Empty(), trace, r, cfg.rate);
      AdmissionsSnoc(trace, RateLimiterProofs.Answers(Empty(), trace, cfg.rate), r,
        RateLimiter.CheckAnswer(st.buckets, r.key, r.now, cfg.rate), key, lo, hi);
      assert LimiterTrace(cfg, events, n + 1) == trace + [r];
    } else {
      assert LimiterTrace(cfg, events, n + 1) == trace;
    }
  }

  /** The requests of the limiter trace that the limiter admits. */
  function TraceAdmissions(cfg: Config, events: seq<Event>, n: nat, key: string, lo: int, hi: int): nat
    requires RateLimiter.ValidSettings(cfg.rate) && n <= |events|
  {
    var trace := LimiterTrace(cfg, events, n);
    RateLimiterProofs.Admissions(trace, RateLimiterProofs.Answers(Empty(), trace, cfg.rate), key, lo, hi)
  }

  /** The starts are exactly the admissions of the limiter. */
  lemma {:induction false} StartsAreAdmissions(cfg: Config, events: seq<Event>, n: nat, key: string, lo: int, hi: int)
    requires RateLimiter.ValidSettings(cfg.rate) && cfg.rateLimitEnabled && n <= |events|
    ensures Starts(cfg, events, n, key, lo, hi) == TraceAdmissions(cfg, events, n, key, lo, hi)
  {
    hide TraceAdmissions, Starts, After, RateLimiterProofs.State, LimiterTrace;
    if n == 0 {
      NoneYet(cfg, events, key, lo, hi);
    } else {
      StartsAreAdmissions(cfg, events, n - 1, key, lo, hi);
      BucketsFollowTrace(cfg, events, n - 1);
      StartsStep(cfg, events, n - 1, key, lo, hi);
    }
  }

  lemma NoneYet(cfg: Config, events: seq<Event>, key: string, lo: int, hi: int)
    requires RateLimiter.ValidSettings(cfg.rate)
    ensures Starts(cfg, events, 0, key, lo, hi) == 0 == TraceAdmissions(cfg, events, 0, key, lo, hi)
  {
  }

  lemma AfterNone(cfg: Config, events: seq<Event>)
    requires RateLimiter.ValidSettings(cfg.rate)
    ensures After(cfg, events, 0) == Initial()
  {
  }

  lemma {:induction false} TraceTimed(cfg: Config, events: seq<Event>, n: nat)
    requires RateLimiter.ValidSettings(cfg.rate) && Timed(events) && n <= |events|
    ensures RateLimiterProofs.Timed(LimiterTrace(cfg, events, n))
    ensures forall r, j | r in LimiterTrace(cfg, events, n) && n <= j < |events| && events[j].RequestEv? ::
      r.now <= events[j].now
  {
    hide ReachesLimiter, Step;
    if n > 0 {
      TraceTimed(cfg, events, n - 1);
    }
  }

  /** In any k rate windows at most (k + 1) * maxHits launches start against one region and zone. */
  lemma StartsAreRateLimited(cfg: Config, events: seq<Event>, key: string, lo: int, k: nat)
    requires RateLimiter.ValidSettings(cfg.rate) && cfg.rateLimitEnabled && Timed(events)
    requires RateLimiterProofs.FewLive(map[], LimiterTrace(cfg, events, |events|), cfg.rate)
    ensures Starts(cfg, events, |events|, key, lo, lo + k * cfg.rate.windowMs) <= (k + 1) * cfg.rate.maxHits
  {
    hide RateLimiterProofs.FewLive, LimiterTrace, Starts, After;
    TraceTimed(cfg, events, |events|);
    StartsAreAdmissions(cfg, events, |events|, key, lo, lo + k * cfg.rate.windowMs);
    RateLimiterProofs.AdmissionBound(LimiterTrace(cfg, events, |events|), cfg.rate, key, lo, k);
  }
}
