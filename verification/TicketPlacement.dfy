/** Putting the room of a ticket request on a server: allocate, else claim a warm server, then reserve. */
module TicketPlacement {
  import opened Common
  import opened ServerRecord
  import opened ServerRegistry
  import opened ServerRegistryRuns
  import opened Allocator

  const MAX_ROOM_MAX_PLAYERS := 1024

  datatype TicketRequest = TicketRequest(
    userId: string, roomId: string, roomMaxPlayers: int, roomMaxPlayersProvided: bool,
    region: string, zone: string, preferredServerId: string, minFreeSlots: int)

  function ValidateTicketRequest(req: TicketRequest): Option<string> {
    if req.userId == "" then Some("user_id_required")
    else if req.roomId == "" then Some("room_id_required")
    else if !req.roomMaxPlayersProvided then Some("room_max_players_required")
    else if req.roomMaxPlayers < 1 then Some("room_max_players_invalid")
    else if req.roomMaxPlayers > MAX_ROOM_MAX_PLAYERS then Some("room_max_players_too_large")
    else None
  }

  function AllocationFor(req: TicketRequest): Request {
    Request(req.roomId, req.preferredServerId, req.region, req.zone, req.minFreeSlots, req.roomMaxPlayers,
      true, false, true, false, true, true)
  }

  function WarmAllocationFor(req: TicketRequest): Request {
    Request(req.roomId, "", req.region, req.zone, req.minFreeSlots, req.roomMaxPlayers,
      true, false, true, true, false, false)
  }

  function WarmClaimFor(req: TicketRequest, s: Server): ClaimRequest {
    ClaimRequest(req.roomId, Num(req.roomMaxPlayers),
      if req.region != "" then req.region else s.region, if req.zone != "" then req.zone else s.zone, s.serverId)
  }

  function AssignmentFor(req: TicketRequest, s: Server): AssignRequest {
    AssignRequest(s.serverId, req.roomId, Num(req.roomMaxPlayers))
  }

  datatype Placement = Rejected(reason: string) | NoServer | ReservationFailed(reason: string) | Placed(server: Server)

  /** Reserving the room on the chosen server. */
  function Reserve(reg: Registry, s: Server, req: TicketRequest, now: int): (Registry, Placement) {
    var reply := AssignReply(reg, AssignmentFor(req, s), now);
    (Assigned(reg, AssignmentFor(req, s), now),
     if reply.Success? then Placed(reply.server) else ReservationFailed(reply.reason))
  }

  function ClaimWarm(env: Env, reg: Registry, req: TicketRequest, now: int): (Registry, Placement) {
    var warm := AllocateServer(env, reg, WarmAllocationFor(req));
    if warm.NotAllocated? then (reg, NoServer) else
      var claim := WarmClaimFor(req, warm.server);
      var reply := ClaimReply(reg, claim, now);
      if reply.Failure? then (reg, NoServer) else Reserve(ClaimedFor(reg, claim, now), reply.server, req, now)
  }

  /** One turn of a ticket request; `NoServer` is where the automatic launch takes over. */
  function Place(env: Env, reg: Registry, req: TicketRequest, now: int): (Registry, Placement) {
    var objection := ValidateTicketRequest(req);
    if objection.Some? then (reg, Rejected(objection.value)) else
      var allocation := AllocateServer(env, reg, AllocationFor(req));
      if allocation.Allocated? then Reserve(reg, allocation.server, req, now) else ClaimWarm(env, reg, req, now)
  }

  /** The turn after an automatic launch: allocate once more, and reserve. */
  function PlaceAfterLaunch(env: Env, reg: Registry, req: TicketRequest, now: int): (Registry, Placement) {
    var allocation := AllocateServer(env, reg, AllocationFor(req));
    if allocation.Allocated? then Reserve(reg, allocation.server, req, now) else (reg, NoServer)
  }

  class ClientGameServerHandler {
    const env: Env
    const registry: GameServerRegistry

    constructor (env: Env, registry: GameServerRegistry)
      ensures this.env == env && this.registry == registry
    {
      this.env := env;
      this.registry := registry;
    }

    method RequestPlacement(req: TicketRequest, now: int) returns (placement: Placement)
      modifies registry
      ensures (registry.serversById, placement) == Place(env, old(registry.serversById), req, now)
    {
      hide AllocateServer, AssignReply, ClaimReply, Assigned, ClaimedFor;
      var objection := ValidateTicketRequest(req);
      if objection.Some? {
        return Rejected(objection.value);
      }
      var allocation := AllocateServer(env, registry.serversById, AllocationFor(req));
      var server: Server;
      if allocation.Allocated? {
        server := allocation.server;
      } else {
        var warm := AllocateServer(env, registry.serversById, WarmAllocationFor(req));
        if warm.NotAllocated? {
          return NoServer;
        }
        var claim := registry.ClaimWarmServerForRoom(WarmClaimFor(req, warm.server), now);
        if claim.Failure? {
          ClaimFailureKeeps(old(registry.serversById), WarmClaimFor(req, warm.server), now);
          return NoServer;
        }
        server := claim.server;
      }
      placement := ReserveRoomCapacity(server, req, now);
    }

    /** The second turn, for a validated request whose launch has succeeded. */
    method RetryPlacement(req: TicketRequest, now: int) returns (placement: Placement)
      requires ValidateTicketRequest(req).None?
      modifies registry
      ensures (registry.serversById, placement) == PlaceAfterLaunch(env, old(registry.serversById), req, now)
    {
      hide AllocateServer, AssignReply, Assigned;
      var allocation := AllocateServer(env, registry.serversById, AllocationFor(req));
      if allocation.NotAllocated? {
        return NoServer;
      }
      placement := ReserveRoomCapacity(allocation.server, req, now);
    }

    method ReserveRoomCapacity(server: Server, req: TicketRequest, now: int) returns (placement: Placement)
      modifies registry
      ensures (registry.serversById, placement) == Reserve(old(registry.serversById), server, req, now)
    {
      hide AssignReply, Assigned;
      var reply := registry.AssignRoomToServer(AssignmentFor(req, server), now);
      placement := if reply.Success? then Placed(reply.server) else ReservationFailed(reply.reason);
    }
  }

  lemma ClaimFailureKeeps(reg: Registry, claim: ClaimRequest, now: int)
    requires ClaimReply(reg, claim, now).Failure?
    ensures ClaimedFor(reg, claim, now) == reg
  {
  }

  // ---- an allocation is always honoured ----

  /** The chosen server is registered, free enough for the room, and under its own id. */
  lemma AllocatedServerFits(env: Env, reg: Registry, req: Request)
    requires Good(reg)
    ensures var a := AllocateServer(env, reg, req);
            a.Allocated? ==>
              && a.server.serverId in reg.vals && reg.vals[a.server.serverId] == a.server
              && Validates(env, a.server, req)
  {
    hide Validates, Score, Better;
    if AllocateServer(env, reg, req).Allocated? && !PreferredUsable(env, reg, req) {
      var list := ListServers(reg);
      var candidates := FindCandidates(env, list, req);
      SortedFromList(env, candidates, req);
      var s := SortCandidates(env, candidates, req)[0];
      var i :| 0 <= i < |list| && list[i] == s;
      assert reg.keys[i] in reg.vals;
    }
  }

  /** How many slots a ticket asks for. */
  function Asked(req: TicketRequest): int {
    Max(Max(1, Min(req.minFreeSlots, 1024)), Max(1, Min(req.roomMaxPlayers, 1024)))
  }

  /** A server that is healthy where health is kept, is in the asked place, and has the slots for the room. */
  predicate Fit(env: Env, s: Server, req: TicketRequest) {
    && (env.health.None?
        || (s.serverId in env.health.value && env.health.value[s.serverId] in {Healthy, Warning}))
    && (req.region != "" && s.region != "" ==> s.region == req.region)
    && (req.zone != "" && s.zone != "" ==> s.zone == req.zone)
    && s.availableReservedSlots
       + (if req.roomId != "" && req.roomId in s.assignedRooms.vals then s.assignedRooms.vals[req.roomId] else 0)
       >= Asked(req)
  }

  /** A running server that fits and is not held for another room. */
  predicate Suitable(env: Env, s: Server, req: TicketRequest) {
    && Fit(env, s, req) && s.status in {Online, Busy, Reserved, Claimed}
    && (req.roomId != "" && s.status in {Reserved, Claimed} && s.roomId != "" ==> s.roomId == req.roomId)
  }

  /** A running or warm server that fits. */
  predicate WarmSuitable(env: Env, s: Server, req: TicketRequest) {
    Fit(env, s, req) && s.status in {Online, Busy, Warm}
  }

  lemma SuitableExactly(env: Env, s: Server, req: TicketRequest)
    requires s.serverId != "" && s.availableReservedSlots >= 0 && RoomSizesOk(s.assignedRooms)
    ensures Validates(env, s, AllocationFor(req)) <==> Suitable(env, s, req)
    ensures Validates(env, s, WarmAllocationFor(req)) <==> WarmSuitable(env, s, req)
  {
    SlotsExactly(s, AllocationFor(req));
    SlotsExactly(s, WarmAllocationFor(req));
    hide SlotsForRequest, RequiredSlots;
  }

  lemma SlotsExactly(s: Server, req: Request)
    requires s.availableReservedSlots >= 0 && RoomSizesOk(s.assignedRooms)
    ensures SlotsForRequest(s, req) == s.availableReservedSlots
      + (if req.roomId != "" && req.roomId in s.assignedRooms.vals then s.assignedRooms.vals[req.roomId] else 0)
    ensures RequiredSlots(req)
         == Max(Max(1, Min(req.minFreeSlots, 1024)), Max(1, Min(req.roomMaxPlayers, 1024)))
  {
  }

  lemma RegisteredIsSound(reg: Registry, id: string)
    requires Good(reg) && id in reg.vals
    ensures var s := reg.vals[id];
            s.serverId == id && id != "" && s.availableReservedSlots >= 0 && RoomSizesOk(s.assignedRooms)
  {
  }

  lemma ValidIsAllocated(env: Env, reg: Registry, req: Request, id: string)
    requires Good(reg) && id in reg.vals && Validates(env, reg.vals[id], req)
    ensures AllocateServer(env, reg, req).Allocated?
  {
    hide Validates, Score, Better, SortCandidates;
    var i :| 0 <= i < |reg.keys| && reg.keys[i] == id;
    assert ListServers(reg)[i] == reg.vals[id];
    assert reg.vals[id] in ValidServers(env, ListServers(reg), req);
  }

  /**
   A ticket is allocated a server if and only if some registered server suits it, and the one allocated does; a
   preferred server that suits it is the one allocated.
   */
  lemma AllocatedServerIsSuitable(env: Env, reg: Registry, req: TicketRequest)
    requires Good(reg)
    ensures var a := AllocateServer(env, reg, AllocationFor(req));
            && (a.Allocated? <==> exists id :: id in reg.vals && Suitable(env, reg.vals[id], req))
            && (a.Allocated? ==>
                  && a.server.serverId in reg.vals && reg.vals[a.server.serverId] == a.server
                  && Suitable(env, a.server, req))
            && (req.preferredServerId in reg.vals && Suitable(env, reg.vals[req.preferredServerId], req) ==>
                  a.server.serverId == req.preferredServerId)
  {
    hide Validates, Suitable, WarmSuitable, FindCandidates, SortCandidates;
    AllocatedServerFits(env, reg, AllocationFor(req));
    forall id | id in reg.vals
      ensures Validates(env, reg.vals[id], AllocationFor(req)) <==> Suitable(env, reg.vals[id], req)
    {
      RegisteredIsSound(reg, id);
      SuitableExactly(env, reg.vals[id], req);
    }
    if id :| id in reg.vals && Suitable(env, reg.vals[id], req) {
      ValidIsAllocated(env, reg, AllocationFor(req), id);
    }
    if req.preferredServerId in reg.vals {
      RegisteredIsSound(reg, req.preferredServerId);
    }
    hide Good;
  }

  /** The same for the allocation that looks for a warm server. */
  lemma WarmServerIsSuitable(env: Env, reg: Registry, req: TicketRequest)
    requires Good(reg)
    ensures var a := AllocateServer(env, reg, WarmAllocationFor(req));
            && (a.Allocated? <==> exists id :: id in reg.vals && WarmSuitable(env, reg.vals[id], req))
            && (a.Allocated? ==>
                  && a.server.serverId in reg.vals && reg.vals[a.server.serverId] == a.server
                  && WarmSuitable(env, a.server, req))
  {
    hide Validates, Suitable, WarmSuitable, AllocateServer;
    AllocatedServerFits(env, reg, WarmAllocationFor(req));
    forall id | id in reg.vals
      ensures Validates(env, reg.vals[id], WarmAllocationFor(req)) <==> WarmSuitable(env, reg.vals[id], req)
    {
      RegisteredIsSound(reg, id);
      SuitableExactly(env, reg.vals[id], req);
    }
    if id :| id in reg.vals && WarmSuitable(env, reg.vals[id], req) {
      ValidIsAllocated(env, reg, WarmAllocationFor(req), id);
    }
    hide Good;
  }

  lemma {:induction false} SortedFromList(env: Env, list: seq<Server>, req: Request)
    requires list != []
    ensures SortCandidates(env, list, req)[0] in list
  {
    hide Better;
    if |list| > 1 {
      SortedFromList(env, list[..|list| - 1], req);
    }
  }

  lemma AssignmentSucceeds(reg: Registry, s: Server, req: TicketRequest, now: int)
    requires Good(reg) && ValidateTicketRequest(req).None?
    requires s.serverId in reg.vals && reg.vals[s.serverId] == s && s.serverId != ""
    requires req.roomMaxPlayers <= AvailableReservedSlotsForRoom(s, req.roomId)
    ensures var reply := AssignReply(reg, AssignmentFor(req, s), now);
            && reply.Success? && req.roomId in reply.server.assignedRooms.vals
            && reply.server.assignedRooms.vals[req.roomId] == req.roomMaxPlayers
            && OverCommitted(reply.server) <= OverCommitted(s)
  {
    hide Assign, RoomTotal, ClampRooms, OverCommitted;
    RecomputeDerives(s);
    SlotsNeedOnlyCapacity(Recompute(s), s, req.roomId);
    AssignStores(Recompute(s), req.roomId, req.roomMaxPlayers, now);
    AssignReplyCommits(reg, AssignmentFor(req, s), now);
  }

  lemma SlotsNeedOnlyCapacity(a: Server, b: Server, roomId: string)
    requires a.assignedRooms == b.assignedRooms && a.availableReservedSlots == b.availableReservedSlots
    ensures AvailableReservedSlotsForRoom(a, roomId) == AvailableReservedSlotsForRoom(b, roomId)
  {
  }

  lemma ValidServerHasRoom(env: Env, s: Server, req: Request, roomMaxPlayers: int)
    requires Validates(env, s, req) && req.roomMaxPlayers == roomMaxPlayers && 1 <= roomMaxPlayers <= MAX_ROOM
    requires s.availableReservedSlots >= 0
    ensures roomMaxPlayers <= AvailableReservedSlotsForRoom(s, req.roomId)
  {
  }

  lemma ClaimedServerHasRoom(reg: Registry, claim: ClaimRequest, roomMaxPlayers: int, now: int)
    requires Good(reg) && claim.roomMaxPlayers == Num(roomMaxPlayers) && 1 <= roomMaxPlayers <= MAX_ROOM
    ensures Good(ClaimedFor(reg, claim, now))
    ensures ClaimReply(reg, claim, now).Success? ==>
              var s := ClaimReply(reg, claim, now).server;
              && s.serverId in ClaimedFor(reg, claim, now).vals && ClaimedFor(reg, claim, now).vals[s.serverId] == s
              && roomMaxPlayers <= AvailableReservedSlotsForRoom(s, claim.roomId)
  {
    hide Claim, ListServers, RoomTotal, ClampRooms;
    ClaimedGood(reg, claim, now);
    if ClaimReply(reg, claim, now).Success? {
      PickedIsRegistered(reg, claim.region, claim.zone, claim.serverId);
      var picked := PickWarm(ListServers(reg), claim.region, claim.zone, claim.serverId).value;
      ClaimStores(picked, claim.roomId, roomMaxPlayers, now);
    }
  }

  /** What a placement found, if it found anything, is stored as asked and no more over-committed than before. */
  predicate Honoured(reg: Registry, next: Registry, req: TicketRequest, placement: Placement) {
    && !placement.ReservationFailed?
    && (placement.Placed? ==>
          var s := placement.server;
          && s.serverId in next.vals && next.vals[s.serverId] == s
          && req.roomId in s.assignedRooms.vals && s.assignedRooms.vals[req.roomId] == req.roomMaxPlayers
          && s.serverId in reg.vals && OverCommitted(s) <= OverCommitted(reg.vals[s.serverId]))
  }

  /**
   In every reachable registry state a ticket request is rejected, finds no server, or is placed, and a validated
   one that was waiting for a launch finds no server or is placed: the reservation after a successful allocation
   or warm claim never fails, it stores the requested size and leaves its server no more over-committed than the
   allocation found it.
   */
  lemma AllocationsAreHonoured(env: Env, ops: seq<Op>, d: Defaults, n: nat, req: TicketRequest, now: int)
    requires n <= |ops|
    ensures var (next, placement) := Place(env, After(ops, d, n), req, now);
            Honoured(After(ops, d, n), next, req, placement)
    ensures ValidateTicketRequest(req).None? ==>
              var (next, placement) := PlaceAfterLaunch(env, After(ops, d, n), req, now);
              Honoured(After(ops, d, n), next, req, placement)
  {
    hide After, Place, PlaceAfterLaunch, Good, Honoured;
    DerivedCapacityAlwaysHolds(ops, d, n);
    PlacementIsHonoured(env, After(ops, d, n), req, now);
    if ValidateTicketRequest(req).None? {
      RetryIsHonoured(env, After(ops, d, n), req, now);
    }
  }

  lemma PlacementIsHonoured(env: Env, reg: Registry, req: TicketRequest, now: int)
    requires Good(reg)
    ensures var (next, placement) := Place(env, reg, req, now); Honoured(reg, next, req, placement)
  {
    hide AllocateServer, ClaimReply, Validates, AvailableReservedSlotsForRoom, OverCommitted, AssignReply, GoodServer;
    if ValidateTicketRequest(req).None? {
      var allocation := AllocateServer(env, reg, AllocationFor(req));
      if allocation.Allocated? {
        RetryIsHonoured(env, reg, req, now);
      } else {
        var warm := AllocateServer(env, reg, WarmAllocationFor(req));
        if warm.Allocated? && ClaimReply(reg, WarmClaimFor(req, warm.server), now).Success? {
          var claim := WarmClaimFor(req, warm.server);
          ClaimedServerHasRoom(reg, claim, req.roomMaxPlayers, now);
          ClaimIsFit(reg, claim, now);
          ReservedAs(ClaimedFor(reg, claim, now), ClaimReply(reg, claim, now).server, req, now);
        }
      }
    }
  }

  lemma RetryIsHonoured(env: Env, reg: Registry, req: TicketRequest, now: int)
    requires Good(reg) && ValidateTicketRequest(req).None?
    ensures var (next, placement) := PlaceAfterLaunch(env, reg, req, now); Honoured(reg, next, req, placement)
  {
    hide AllocateServer, Validates, AvailableReservedSlotsForRoom, OverCommitted, AssignReply, GoodServer;
    var allocation := AllocateServer(env, reg, AllocationFor(req));
    if allocation.Allocated? {
      var s := allocation.server;
      AllocatedServerFits(env, reg, AllocationFor(req));
      FreeSlotsAreNat(reg, s.serverId);
      ValidServerHasRoom(env, s, AllocationFor(req), req.roomMaxPlayers);
      ReservedAs(reg, s, req, now);
    }
  }

  lemma FreeSlotsAreNat(reg: Registry, id: string)
    requires Good(reg) && id in reg.vals
    ensures reg.vals[id].availableReservedSlots >= 0
  {
  }

  lemma ClaimIsFit(reg: Registry, claim: ClaimRequest, now: int)
    requires Good(reg)
    ensures var reply := ClaimReply(reg, claim, now);
            reply.Success? ==>
              reply.server.serverId in reg.vals
                && OverCommitted(reply.server) <= OverCommitted(reg.vals[reply.server.serverId])
  {
    hide GoodServer;
    ClaimReplyCommits(reg, claim, now);
  }

  /** A reservation that fits succeeds and is stored. */
  lemma ReservedAs(reg: Registry, s: Server, req: TicketRequest, now: int)
    requires Good(reg) && ValidateTicketRequest(req).None?
    requires s.serverId in reg.vals && reg.vals[s.serverId] == s && s.serverId != ""
    requires req.roomMaxPlayers <= AvailableReservedSlotsForRoom(s, req.roomId)
    ensures var (next, placement) := Reserve(reg, s, req, now);
            && placement.Placed? && placement.server.serverId == s.serverId
            && s.serverId in next.vals && next.vals[s.serverId] == placement.server
            && req.roomId in placement.server.assignedRooms.vals
            && placement.server.assignedRooms.vals[req.roomId] == req.roomMaxPlayers
            && OverCommitted(placement.server) <= OverCommitted(s)
  {
    hide RoomTotal, OverCommitted, AvailableReservedSlotsForRoom;
    AssignmentSucceeds(reg, s, req, now);
  }

  // ---- where a ticket is placed ----

  /** The room is stored on the server with the size asked for, and every other record is as it was. */
  predicate PlacedOn(reg: Registry, next: Registry, req: TicketRequest, placement: Placement, id: string) {
    && placement.Placed? && placement.server.serverId == id
    && id in reg.vals && id in next.vals && next.vals[id] == placement.server
    && req.roomId in placement.server.assignedRooms.vals
    && placement.server.assignedRooms.vals[req.roomId] == req.roomMaxPlayers
    && next.keys == reg.keys && forall x | x in reg.vals && x != id :: x in next.vals && next.vals[x] == reg.vals[x]
  }

  /** The warm server can be claimed for the ticket: still empty, without rooms, in the place and large enough. */
  predicate Claimable(s: Server, req: TicketRequest) {
    && s.status == Warm && s.currentPlayers == 0 && s.roomId == "" && s.assignedRooms.keys == []
    && (req.region == "" || s.region == req.region) && (req.zone == "" || s.zone == req.zone)
    && req.roomMaxPlayers <= s.maxPlayers
  }

  /** A claim of one server by its id. */
  lemma ClaimOfOneExactly(reg: Registry, claim: ClaimRequest, now: int)
    requires Good(reg) && claim.serverId in reg.vals && claim.roomId != "" && claim.roomMaxPlayers.Num?
    ensures var s, reply := reg.vals[claim.serverId], ClaimReply(reg, claim, now);
            && (reply.Success? <==>
                  && s.status == Warm && s.currentPlayers == 0 && s.roomId == "" && s.assignedRooms.keys == []
                  && (claim.region == "" || s.region == claim.region) && (claim.zone == "" || s.zone == claim.zone)
                  && Max(1, Min(claim.roomMaxPlayers.n, 1024)) <= s.maxPlayers)
            && (reply.Success? ==> reply.server.serverId == claim.serverId)
            && ClaimedFor(reg, claim, now).keys == reg.keys
            && forall x | x in reg.vals && x != claim.serverId ::
                 x in ClaimedFor(reg, claim, now).vals && ClaimedFor(reg, claim, now).vals[x] == reg.vals[x]
  {
    hide Claim, ListServers, Good, PickWarm, ClaimReply, ClaimedFor;
    RegisteredIsSound(reg, claim.serverId);
    PickOfOne(reg, claim);
    ClaimReplyIs(reg, claim, now);
    ClaimFields(reg.vals[claim.serverId], claim.roomId, ClampInteger(claim.roomMaxPlayers, 0, 1, MAX_ROOM), now);
    ClaimKeepsOthers(reg, claim, now);
    hide RoomSizesOk;
  }

  lemma ClaimKeepsOthers(reg: Registry, claim: ClaimRequest, now: int)
    ensures var reply, next := ClaimReply(reg, claim, now), ClaimedFor(reg, claim, now);
            && (reply.Failure? || reply.server.serverId in reg.vals ==> next.keys == reg.keys)
            && forall x | x in reg.vals && !(reply.Success? && reply.server.serverId == x) ::
                 x in next.vals && next.vals[x] == reg.vals[x]
  {
    hide ClaimReply;
  }

  /** Looking for one warm server by its id finds it if it is free, and nothing else. */
  lemma PickOfOne(reg: Registry, claim: ClaimRequest)
    requires Good(reg) && claim.serverId in reg.vals && claim.serverId != ""
    ensures var s := reg.vals[claim.serverId];
            PickWarm(ListServers(reg), claim.region, claim.zone, claim.serverId)
            == if WarmAndFree(s, claim.region, claim.zone) then Some(s) else None
  {
    hide PickWarm, WarmAndFree;
    var list := ListServers(reg);
    var i :| 0 <= i < |reg.keys| && reg.keys[i] == claim.serverId;
    assert list[i] == reg.vals[claim.serverId] && list[i] in list;
    RegisteredIsSound(reg, claim.serverId);
    PickedIsRegistered(reg, claim.region, claim.zone, claim.serverId);
    hide Good;
  }

  lemma ReserveKeepsOthers(reg: Registry, s: Server, req: TicketRequest, now: int)
    requires s.serverId in reg.vals
    ensures var next := Reserve(reg, s, req, now).0;
            && next.keys == reg.keys
            && forall x | x in reg.vals && x != s.serverId :: x in next.vals && next.vals[x] == reg.vals[x]
  {
    hide AssignReply, Recompute;
  }

  lemma AllocatedIsPlaced(env: Env, reg: Registry, req: TicketRequest, now: int)
    requires Good(reg) && ValidateTicketRequest(req).None?
    ensures var a := AllocateServer(env, reg, AllocationFor(req));
            a.Allocated? ==>
              var (next, placement) := Reserve(reg, a.server, req, now);
              PlacedOn(reg, next, req, placement, a.server.serverId)
  {
    hide AllocateServer, Reserve, Validates, AvailableReservedSlotsForRoom, OverCommitted, GoodServer;
    var a := AllocateServer(env, reg, AllocationFor(req));
    if a.Allocated? {
      AllocatedServerFits(env, reg, AllocationFor(req));
      FreeSlotsAreNat(reg, a.server.serverId);
      ValidServerHasRoom(env, a.server, AllocationFor(req), req.roomMaxPlayers);
      ReservedAs(reg, a.server, req, now);
      ReserveKeepsOthers(reg, a.server, req, now);
    }
  }

  /** A ticket that no running server suits is placed on the warm server allocated, or nowhere. */
  lemma WarmIsPlaced(env: Env, reg: Registry, req: TicketRequest, now: int)
    requires Good(reg) && ValidateTicketRequest(req).None?
    ensures var warm := AllocateServer(env, reg, WarmAllocationFor(req));
            var (next, placement) := ClaimWarm(env, reg, req, now);
            if warm.Allocated? && Claimable(warm.server, req)
            then PlacedOn(reg, next, req, placement, warm.server.serverId)
            else placement == NoServer && next == reg
  {
    hide AllocateServer, Reserve, ClaimReply, ClaimedFor, OverCommitted, GoodServer, AvailableReservedSlotsForRoom;
    var warm := AllocateServer(env, reg, WarmAllocationFor(req));
    if warm.Allocated? {
      AllocatedServerFits(env, reg, WarmAllocationFor(req));
      var claim := WarmClaimFor(req, warm.server);
      ClaimOfOneExactly(reg, claim, now);
      ClaimedServerHasRoom(reg, claim, req.roomMaxPlayers, now);
      hide Validates, Good;
      if Claimable(warm.server, req) {
        var server := ClaimReply(reg, claim, now).server;
        ReservedAs(ClaimedFor(reg, claim, now), server, req, now);
        ReserveKeepsOthers(ClaimedFor(reg, claim, now), server, req, now);
      }
    }
  }

  /**
   Where a validated ticket is placed, in every reachable registry state: on the server allocated when some
   registered server suits it; else on the warm server allocated when there is one and it can be claimed; else
   nowhere, with the registry unchanged. After a launch it is placed on the server allocated, or nowhere.
   */
  lemma PlacedExactly(env: Env, ops: seq<Op>, d: Defaults, n: nat, req: TicketRequest, now: int)
    requires n <= |ops| && ValidateTicketRequest(req).None?
    ensures var reg := After(ops, d, n);
            var a := AllocateServer(env, reg, AllocationFor(req));
            var warm := AllocateServer(env, reg, WarmAllocationFor(req));
            var (next, placement) := Place(env, reg, req, now);
            var (later, retried) := PlaceAfterLaunch(env, reg, req, now);
            && (a.Allocated? <==> exists id :: id in reg.vals && Suitable(env, reg.vals[id], req))
            && (warm.Allocated? <==> exists id :: id in reg.vals && WarmSuitable(env, reg.vals[id], req))
            && (if a.Allocated? then PlacedOn(reg, next, req, placement, a.server.serverId)
                else if warm.Allocated? && Claimable(warm.server, req)
                then PlacedOn(reg, next, req, placement, warm.server.serverId)
                else placement == NoServer && next == reg)
            && (if a.Allocated? then PlacedOn(reg, later, req, retried, a.server.serverId)
                else retried == NoServer && later == reg)
  {
    hide After, Good, AllocateServer, Suitable, WarmSuitable, PlacedOn, Claimable, Reserve, ClaimWarm;
    DerivedCapacityAlwaysHolds(ops, d, n);
    var reg := After(ops, d, n);
    AllocatedServerIsSuitable(env, reg, req);
    WarmServerIsSuitable(env, reg, req);
    AllocatedIsPlaced(env, reg, req, now);
    WarmIsPlaced(env, reg, req, now);
  }

  /** A ticket request is rejected, and nothing touched, if and only if it lacks a user, a room or a usable size. */
  lemma RejectedExactly(env: Env, reg: Registry, req: TicketRequest, now: int)
    ensures var (next, placement) := Place(env, reg, req, now);
            && (placement.Rejected? <==>
                  req.userId == "" || req.roomId == "" || !req.roomMaxPlayersProvided
                  || req.roomMaxPlayers < 1 || req.roomMaxPlayers > 1024)
            && (placement.Rejected? ==> next == reg)
  {
    hide AllocateServer, AssignReply, ClaimReply, Assigned, ClaimedFor;
  }
}
