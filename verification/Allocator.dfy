/** The choice of a dedicated server for a room: filter, score, take the best. */
module Allocator {
  import opened Common
  import opened ServerRecord
  import opened ServerRegistry

  datatype Health = Healthy | Warning | Failing

  datatype Weights = Weights(region: int, zone: int, capacity: int, health: int)

  /** The health store, when there is one, and the locale order of server ids. */
  datatype Env = Env(weights: Weights, health: Option<map<string, Health>>, idBefore: (string, string) -> bool)

  datatype Request = Request(
    roomId: string, preferredServerId: string, region: string, zone: string,
    minFreeSlots: int, roomMaxPlayers: int, requireHealthy: bool,
    allowStarting: bool, allowBusy: bool, allowWarm: bool, allowReserved: bool, allowClaimed: bool)

  datatype Allocation = Allocated(reason: string, server: Server, score: int) | NotAllocated(reason: string)

  // ---- slots ----

  function SlotsForRequest(s: Server, req: Request): int {
    var already := if req.roomId != "" && req.roomId in s.assignedRooms.vals
                   then ClampInteger(Num(s.assignedRooms.vals[req.roomId]), 0, 0, MAX_ROOM) else 0;
    Max(0, Max(0, s.availableReservedSlots) + already)
  }

  function RequiredSlots(req: Request): int {
    Max(ClampInteger(Num(req.minFreeSlots), 1, 1, MAX_ROOM),
      ClampInteger(Num(req.roomMaxPlayers), req.minFreeSlots, 1, MAX_ROOM))
  }

  function Waste(s: Server, req: Request): int {
    Max(0, SlotsForRequest(s, req) - RequiredSlots(req))
  }

  // ---- validation ----

  predicate AllowedStatus(status: Status, req: Request) {
    match status
    case Online => true
    case Busy => req.allowBusy
    case Starting => req.allowStarting
    case Warm => req.allowWarm
    case Reserved => req.allowReserved
    case Claimed => req.allowClaimed
    case _ => false
  }

  function ServerHealth(env: Env, serverId: string): Option<Health> {
    if env.health.None? || serverId == "" || serverId !in env.health.value then None
      else Some(env.health.value[serverId])
  }

  predicate HealthyEnough(env: Env, serverId: string) {
    env.health.None? || ServerHealth(env, serverId) in {Some(Healthy), Some(Warning)}
  }

  /** Why a server cannot take the request, if anything stands against it. */
  function Objection(env: Env, s: Server, req: Request): Option<string> {
    if !AllowedStatus(s.status, req) then Some("server_status_not_allowed")
    else if SlotsForRequest(s, req) < RequiredSlots(req) then Some("server_reserved_capacity_not_enough")
    else if req.roomId != "" && s.roomId != "" && s.roomId != req.roomId && (s.status.Reserved? || s.status.Claimed?)
    then Some("server_room_mismatch")
    else if req.region != "" && s.region != "" && s.region != req.region then Some("server_region_mismatch")
    else if req.zone != "" && s.zone != "" && s.zone != req.zone then Some("server_zone_mismatch")
    else if req.requireHealthy && !HealthyEnough(env, s.serverId) then Some("server_not_healthy")
    else None
  }

  predicate Validates(env: Env, s: Server, req: Request) {
    Objection(env, s, req).None?
  }

  function ValidServers(env: Env, list: seq<Server>, req: Request): (r: seq<Server>)
    ensures forall s | s in r :: s in list && Validates(env, s, req)
    ensures forall s | s in list && Validates(env, s, req) :: s in r
  {
    if list == [] then [] else
      assert list == list[..|list| - 1] + [list[|list| - 1]];
      ValidServers(env, list[..|list| - 1], req)
        + (if Validates(env, list[|list| - 1], req) then [list[|list| - 1]] else [])
  }

  function InRegion(list: seq<Server>, region: string): (r: seq<Server>)
    ensures forall s | s in r :: s in list && s.region == region
    ensures forall s | s in list && s.region == region :: s in r
  {
    if list == [] then [] else
      assert list == list[..|list| - 1] + [list[|list| - 1]];
      InRegion(list[..|list| - 1], region) + (if list[|list| - 1].region == region then [list[|list| - 1]] else [])
  }

  /** The valid servers; only those in the requested region when there are any. */
  function FindCandidates(env: Env, list: seq<Server>, req: Request): seq<Server> {
    var valid := ValidServers(env, list, req);
    var regional := InRegion(valid, req.region);
    if req.region != "" && regional != [] then regional else valid
  }

  // ---- score ----

  function RoundHalfUp(x: real): int {
    (x + 0.5).Floor
  }

  function FitRatio(waste: int, maxPlayers: int): real {
    if maxPlayers <= 0 then 0.0 else
      var part := waste as real / maxPlayers as real;
      1.0 - (if part < 1.0 then part else 1.0)
  }

  function FitScore(waste: int, maxPlayers: int, weight: int): int {
    RoundHalfUp(FitRatio(waste, maxPlayers) * weight as real)
  }

  function PlaceScore(env: Env, s: Server, req: Request): int {
    (if req.region != "" && s.region == req.region then env.weights.region else 0)
    + (if req.zone != "" && s.zone == req.zone then env.weights.zone else 0)
  }

  function HealthScore(env: Env, s: Server): int {
    match ServerHealth(env, s.serverId)
    case None => env.weights.health
    case Some(Healthy) => env.weights.health
    case Some(Warning) => RoundHalfUp(env.weights.health as real * 0.5)
    case Some(Failing) => 0
  }

  function Score(env: Env, s: Server, req: Request): int {
    PlaceScore(env, s, req)
    + FitScore(Waste(s, req), s.maxPlayers, env.weights.capacity)
    + HealthScore(env, s)
  }

  /** The sort order of candidates: score, then less waste, then more reserved, then the id. */
  predicate Better(env: Env, a: Server, b: Server, req: Request) {
    var sa, sb, wa, wb := Score(env, a, req), Score(env, b, req), Waste(a, req), Waste(b, req);
    if sa != sb then sa > sb
    else if wa != wb then wa < wb
    else if a.reservedPlayers != b.reservedPlayers then a.reservedPlayers > b.reservedPlayers
    else env.idBefore(a.serverId, b.serverId)
  }

  /** Inserts behind every server that is not worse, as a stable sort does. */
  function Insert(env: Env, sorted: seq<Server>, s: Server, req: Request): (r: seq<Server>)
    ensures |r| == |sorted| + 1
  {
    if sorted == [] then [s]
    else if Better(env, s, sorted[0], req) then [s] + sorted
    else [sorted[0]] + Insert(env, sorted[1..], s, req)
  }

  function SortCandidates(env: Env, list: seq<Server>, req: Request): (r: seq<Server>)
    ensures |r| == |list|
  {
    if list == [] then [] else Insert(env, SortCandidates(env, list[..|list| - 1], req), list[|list| - 1], req)
  }

  // ---- allocation ----

  predicate PreferredUsable(env: Env, reg: Registry, req: Request) {
    req.preferredServerId != "" && req.preferredServerId in reg.vals
      && Validates(env, reg.vals[req.preferredServerId], req)
  }

  function AllocateServer(env: Env, reg: Registry, req: Request): Allocation {
    if PreferredUsable(env, reg, req) then
      var s := reg.vals[req.preferredServerId];
      Allocated("preferred_server_allocated", s, Score(env, s, req))
    else
      var candidates := FindCandidates(env, ListServers(reg), req);
      if candidates == [] then NotAllocated("no_available_server") else
        var best := SortCandidates(env, candidates, req)[0];
        Allocated("server_allocated", best, Score(env, best, req))
  }
}
