/**
 The automatic launch of dedicated servers. A request either joins the launch already pending for
 its room, is denied by a safety check, or starts a launch. The launcher process exits in its own
 time; after that the pending entry of the room is settled.
 */
module AutoLaunch {
  import opened Common
  import opened JsMaps
  import RateLimiter

  datatype Config = Config(
    maxActiveServers: int, maxPendingLaunches: int, roomCooldownMs: int, rateLimitEnabled: bool,
    rate: RateLimiter.Settings)

  /** A launch that has not been settled; `running` until its launcher process exits. */
  datatype Launch = Launch(roomId: string, running: bool)

  datatype State = State(
    pending: map<string, nat>, lastLaunchAt: map<string, int>, buckets: RateLimiter.Buckets,
    launches: map<nat, Launch>, nextId: nat)

  /** A request for a room; `rateKey` names the region and zone it counts against. */
  datatype Request = Request(roomId: string, rateKey: string)

  datatype Outcome = Joined(id: nat) | Denied(reason: string) | Started(id: nat)

  function Initial(): State {
    State(map[], map[], Empty(), map[], 0)
  }

  /** The checks before the rate limiter, with the rooms of the registered servers. */
  function SafetyObjection(cfg: Config, st: State, req: Request, registered: seq<string>, now: int): Option<string> {
    var last := if req.roomId in st.lastLaunchAt then st.lastLaunchAt[req.roomId] else 0;
    if req.roomId in registered then Some("dedicated_room_server_already_registered")
    else if |registered| + |st.pending| >= cfg.maxActiveServers then Some("dedicated_auto_launch_capacity_reached")
    else if |st.pending| >= cfg.maxPendingLaunches then Some("dedicated_auto_launch_pending_limit_reached")
    else if cfg.roomCooldownMs > 0 && last > 0 && now - last < cfg.roomCooldownMs
      then Some("dedicated_auto_launch_room_cooldown")
    else None
  }

  /** The request gets as far as the rate limiter. */
  predicate ReachesLimiter(cfg: Config, st: State, req: Request, registered: seq<string>, now: int) {
    req.roomId !in st.pending && SafetyObjection(cfg, st, req, registered, now).None?
  }

  predicate RateAllows(cfg: Config, st: State, req: Request, now: int)
    requires RateLimiter.ValidSettings(cfg.rate)
  {
    !cfg.rateLimitEnabled
      || RateLimiter.CheckAnswer(st.buckets, RateLimiter.CleanKey(req.rateKey), now, cfg.rate).success
  }

  /** Everything that can stand against a launch, the rate limiter last. */
  function LaunchObjection(cfg: Config, st: State, req: Request, registered: seq<string>, now: int): Option<string>
    requires RateLimiter.ValidSettings(cfg.rate)
  {
    var objection := SafetyObjection(cfg, st, req, registered, now);
    if objection.Some? then objection
    else if !RateAllows(cfg, st, req, now) then Some("dedicated_auto_launch_rate_limited")
    else None
  }

  function OutcomeOf(cfg: Config, st: State, req: Request, registered: seq<string>, now: int): Outcome
    requires RateLimiter.ValidSettings(cfg.rate)
  {
    if req.roomId in st.pending then Joined(st.pending[req.roomId])
    else
      var objection := LaunchObjection(cfg, st, req, registered, now);
      if objection.Some? then Denied(objection.value) else Started(st.nextId)
  }

  /** The limiter counts a request that nothing else stands against. */
  function CountedBuckets(cfg: Config, st: State, req: Request, registered: seq<string>, now: int): RateLimiter.Buckets
    requires RateLimiter.ValidSettings(cfg.rate)
  {
    if cfg.rateLimitEnabled && SafetyObjection(cfg, st, req, registered, now).None?
    then RateLimiter.Checked(st.buckets, RateLimiter.CleanKey(req.rateKey), now, cfg.rate) else st.buckets
  }

  function BucketsAfter(cfg: Config, st: State, req: Request, registered: seq<string>, now: int): RateLimiter.Buckets
    requires RateLimiter.ValidSettings(cfg.rate)
  {
    if req.roomId in st.pending then st.buckets else CountedBuckets(cfg, st, req, registered, now)
  }

  function Requested(cfg: Config, st: State, req: Request, registered: seq<string>, now: int): State
    requires RateLimiter.ValidSettings(cfg.rate)
  {
    var counted := st.(buckets := BucketsAfter(cfg, st, req, registered, now));
    if !OutcomeOf(cfg, st, req, registered, now).Started? then counted else
      State(
        st.pending[req.roomId := st.nextId], st.lastLaunchAt[req.roomId := now], counted.buckets,
        st.launches[st.nextId := Launch(req.roomId, true)], st.nextId + 1)
  }

  function Exited(st: State, id: nat): State {
    if id in st.launches then st.(launches := st.launches[id := st.launches[id].(running := false)]) else st
  }

  /** Settling a launch whose process has exited deletes the pending entry of its room. */
  function Settled(st: State, id: nat): State {
    if id !in st.launches || st.launches[id].running then st else
      st.(pending := st.pending - {st.launches[id].roomId}, launches := st.launches - {id})
  }

  class AutoLauncher {
    const cfg: Config
    const limiter: RateLimiter.FixedWindowRateLimiter
    var pendingAutoLaunchesByRoomId: map<string, nat>
    var lastAutoLaunchAtByRoomId: map<string, int>
    var launches: map<nat, Launch>
    var nextId: nat

    ghost function Now(): State
      reads this, limiter
    {
      State(pendingAutoLaunchesByRoomId, lastAutoLaunchAtByRoomId, limiter.buckets, launches, nextId)
    }

    constructor (cfg: Config)
      ensures this.cfg == cfg && Now() == Initial() && fresh(limiter)
    {
      this.cfg := cfg;
      limiter := new RateLimiter.FixedWindowRateLimiter();
      pendingAutoLaunchesByRoomId, lastAutoLaunchAtByRoomId, launches, nextId := map[], map[], map[], 0;
    }

    method EnsureDedicatedServerForRoom(req: Request, registered: seq<string>, now: int) returns (outcome: Outcome)
      requires RateLimiter.ValidSettings(cfg.rate)
      modifies this, limiter
      ensures Now() == Requested(cfg, old(Now()), req, registered, now)
      ensures outcome == OutcomeOf(cfg, old(Now()), req, registered, now)
    {
      if req.roomId in pendingAutoLaunchesByRoomId {
        return Joined(pendingAutoLaunchesByRoomId[req.roomId]);
      }
      var objection := CheckSafetyBeforeLaunch(req, registered, now);
      if objection.Some? {
        return Denied(objection.value);
      }
      lastAutoLaunchAtByRoomId := lastAutoLaunchAtByRoomId[req.roomId := now];
      launches := launches[nextId := Launch(req.roomId, true)];
      pendingAutoLaunchesByRoomId := pendingAutoLaunchesByRoomId[req.roomId := nextId];
      outcome := Started(nextId);
      nextId := nextId + 1;
    }

    method CheckSafetyBeforeLaunch(req: Request, registered: seq<string>, now: int) returns (objection: Option<string>)
      requires RateLimiter.ValidSettings(cfg.rate)
      modifies limiter
      ensures objection == LaunchObjection(cfg, old(Now()), req, registered, now)
      ensures limiter.buckets == CountedBuckets(cfg, old(Now()), req, registered, now)
    {
      if req.roomId in registered {
        return Some("dedicated_room_server_already_registered");
      }
      if |registered| + |pendingAutoLaunchesByRoomId| >= cfg.maxActiveServers {
        return Some("dedicated_auto_launch_capacity_reached");
      }
      if |pendingAutoLaunchesByRoomId| >= cfg.maxPendingLaunches {
        return Some("dedicated_auto_launch_pending_limit_reached");
      }
      var lastLaunchAt := if req.roomId in lastAutoLaunchAtByRoomId then lastAutoLaunchAtByRoomId[req.roomId] else 0;
      if cfg.roomCooldownMs > 0 && lastLaunchAt > 0 && now - lastLaunchAt < cfg.roomCooldownMs {
        return Some("dedicated_auto_launch_room_cooldown");
      }
      objection := CheckAutoLaunchRateLimit(req, now);
    }

    method CheckAutoLaunchRateLimit(req: Request, now: int) returns (objection: Option<string>)
      requires RateLimiter.ValidSettings(cfg.rate)
      modifies limiter
      ensures objection == if RateAllows(cfg, old(Now()), req, now) then None
        else Some("dedicated_auto_launch_rate_limited")
      ensures limiter.buckets ==
        if cfg.rateLimitEnabled
          then RateLimiter.Checked(old(limiter.buckets), RateLimiter.CleanKey(req.rateKey), now, cfg.rate)
        else old(limiter.buckets)
    {
      if !cfg.rateLimitEnabled {
        return None;
      }
      hide RateLimiter.Checked, RateLimiter.CheckAnswer;
      var answer := limiter.Check(req.rateKey, now, Num(cfg.rate.windowMs), Num(cfg.rate.maxHits),
        Num(cfg.rate.maxBuckets));
      assert RateLimiter.Normalize(Num(cfg.rate.windowMs), Num(cfg.rate.maxHits), Num(cfg.rate.maxBuckets)) == cfg.rate;
      return if answer.success then None else Some("dedicated_auto_launch_rate_limited");
    }

    method Exit(id: nat)
      modifies this
      ensures Now() == Exited(old(Now()), id)
    {
      if id in launches {
        launches := launches[id := launches[id].(running := false)];
      }
    }

    method Settle(id: nat)
      modifies this
      ensures Now() == Settled(old(Now()), id)
    {
      if id in launches && !launches[id].running {
        pendingAutoLaunchesByRoomId := pendingAutoLaunchesByRoomId - {launches[id].roomId};
        launches := launches - {id};
      }
    }
  }
}
