/** What each operation of the server registry does to the players, size, status, place and rooms of a server. */
module RegistryEffects {
  import opened Common
  import opened JsMaps
  import opened ServerRecord
  import opened ServerRegistry
  import opened ServerRegistryRuns

  function Clip(n: int, lo: int, hi: int): int {
    Max(lo, Min(n, hi))
  }

  /** The request to register is in order: an id, and a port and counts that are missing or in range. */
  predicate InOrder(req: RegisterRequest) {
    && req.serverId != ""
    && (req.port.Absent? || (req.port.Num? && 1 <= req.port.n <= 65535))
    && (req.maxPlayers.Absent? || (req.maxPlayers.Num? && req.maxPlayers.n >= 1))
    && (req.currentPlayers.Absent? || (req.currentPlayers.Num? && req.currentPlayers.n >= 0))
  }

  // ---- the record after an operation ----

  /** The operation is a claim that takes this server. */
  predicate Claims(op: Op, reg: Registry, id: string) {
    op.ClaimOp?
    && var reply := ClaimReply(reg, op.claim, op.now);
       reply.Success? && reply.server.serverId == id
  }

  /** The record of a registered server as the operation leaves it, when it stays registered. */
  function LeftRecord(op: Op, s: Server, d: Defaults, claimed: bool): Server {
    match op
    case RegisterOp(req, now) =>
      if req.serverId == s.serverId && InOrder(req) then
        var record := CreateGameServerRecord(req, d, now);
        Recompute(record.(assignedRooms := Merge(s.assignedRooms, record.assignedRooms)))
      else s
    case HeartbeatOp(id, h, now) => if id == s.serverId then WithHeartbeat(s, h, now) else s
    case StatusOp(id, status, now) => if id == s.serverId then ServerRegistry.WithStatus(s, status, now) else s
    case MarkOp(id, status, now) => if id == s.serverId then Marked(s, status, now) else s
    case CountOp(id, count, now) => if id == s.serverId then WithPlayerCount(s, count, now) else s
    case AssignOp(req, now) =>
      if req.serverId != s.serverId || req.roomId == "" then s
      else if Fits(s, req) then Assign(Recompute(s), req.roomId, ClampInteger(req.roomMaxPlayers, 0, 1, MAX_ROOM), now)
      else Recompute(s)
    case ClaimOp(req, now) =>
      if claimed then Claim(s, req.roomId, ClampInteger(req.roomMaxPlayers, 0, 1, MAX_ROOM), now) else s
    case CleanupOp(active, now) => CleanedServer(s, active, now)
    case StatsOp => Recompute(s)
    case _ => s
  }

  /** The assignment fits the server: its size, or none when that does not parse, is free or held by the room. */
  predicate Fits(s: Server, req: AssignRequest) {
    var held := if req.roomId in s.assignedRooms.vals then s.assignedRooms.vals[req.roomId] else 0;
    var size := if req.roomMaxPlayers.Num? then Clip(req.roomMaxPlayers.n, 1, 1024) else 0;
    size <= Max(0, s.maxPlayers - RoomTotal(s.assignedRooms)) + held
  }

  lemma FitsExactly(reg: Registry, req: AssignRequest, now: int)
    requires Good(reg)
    ensures AssignReply(reg, req, now).Success? <==>
              req.serverId in reg.vals && req.roomId != "" && Fits(reg.vals[req.serverId], req)
  {
    hide Assign, RoomTotal;
    if req.serverId in reg.vals {
      RecomputeDerives(reg.vals[req.serverId]);
      hide Recompute;
      if req.roomId in reg.vals[req.serverId].assignedRooms.vals {
        assert 1 <= reg.vals[req.serverId].assignedRooms.vals[req.roomId] <= MAX_ROOM;
      }
    }
  }

  /** What the operation leaves of the record is what the registry holds. */
  ghost predicate HoldsLeft(op: Op, reg: Registry, d: Defaults, id: string)
    requires id in reg.vals
  {
    var next := Apply(op, reg, d);
    && (id in next.vals <==> !(op.UnregisterOp? && op.serverId == id) && !op.ClearOp?)
    && (id in next.vals ==> next.vals[id] == LeftRecord(op, reg.vals[id], d, Claims(op, reg, id)))
  }

  lemma LeftInRegistry(op: Op, reg: Registry, d: Defaults, id: string)
    requires Good(reg) && id in reg.vals
    ensures HoldsLeft(op, reg, d, id)
  {
    hide HoldsLeft, Good;
    match op
    case RegisterOp(_, _) => LeftByRegistration(op, reg, d, id);
    case AssignOp(_, _) => LeftByAssignment(op, reg, d, id);
    case ClaimOp(_, _) => LeftByClaim(op, reg, d, id);
    case HeartbeatOp(_, _, _) => LeftByReport(op, reg, d, id);
    case StatusOp(_, _, _) => LeftByReport(op, reg, d, id);
    case MarkOp(_, _, _) => LeftByReport(op, reg, d, id);
    case CountOp(_, _, _) => LeftByReport(op, reg, d, id);
    case _ => LeftBySweep(op, reg, d, id);
  }

  lemma LeftByRegistration(op: Op, reg: Registry, d: Defaults, id: string)
    requires Good(reg) && id in reg.vals && op.RegisterOp?
    ensures HoldsLeft(op, reg, d, id)
  {
    GoodId(reg, id);
    hide Recompute, CreateGameServerRecord, RoomTotal, GoodServer, Merge, Good;
  }

  lemma LeftByReport(op: Op, reg: Registry, d: Defaults, id: string)
    requires Good(reg) && id in reg.vals && (op.HeartbeatOp? || op.StatusOp? || op.MarkOp? || op.CountOp?)
    ensures HoldsLeft(op, reg, d, id)
  {
    GoodId(reg, id);
    hide WithHeartbeat, ServerRegistry.WithStatus, WithPlayerCount, Marked, GoodServer, Good;
  }

  lemma LeftByAssignment(op: Op, reg: Registry, d: Defaults, id: string)
    requires Good(reg) && id in reg.vals && op.AssignOp?
    ensures HoldsLeft(op, reg, d, id)
  {
    GoodId(reg, id);
    FitsExactly(reg, op.assign, op.now);
    hide Recompute, Assign, RoomTotal, AvailableReservedSlotsForRoom, Fits, GoodServer, Good;
  }

  lemma LeftByClaim(op: Op, reg: Registry, d: Defaults, id: string)
    requires Good(reg) && id in reg.vals && op.ClaimOp?
    ensures HoldsLeft(op, reg, d, id)
  {
    ClaimKeepsId(reg, op.claim, op.now);
    hide Claim, ClaimReply, GoodServer, Good;
  }

  lemma LeftBySweep(op: Op, reg: Registry, d: Defaults, id: string)
    requires Good(reg) && id in reg.vals && (op.UnregisterOp? || op.CleanupOp? || op.StatsOp? || op.ClearOp?)
    ensures HoldsLeft(op, reg, d, id)
  {
    hide CleanedServer, Recompute, GoodServer, Good;
  }

  lemma GoodId(reg: Registry, id: string)
    requires Good(reg) && id in reg.vals
    ensures reg.vals[id].serverId == id && GoodServer(reg.vals[id], id) && id != ""
  {
  }

  lemma ClaimKeepsId(reg: Registry, req: ClaimRequest, now: int)
    requires Good(reg)
    ensures var reply := ClaimReply(reg, req, now);
            reply.Success? ==>
              && reply.server.serverId in reg.vals
              && reply.server == Claim(reg.vals[reply.server.serverId], req.roomId,
                                   ClampInteger(req.roomMaxPlayers, 0, 1, MAX_ROOM), now)
  {
    hide Claim, PickWarm, ListServers, ClaimReply, Good;
    PickedIsRegistered(reg, req.region, req.zone, req.serverId);
    ClaimReplyIs(reg, req, now);
    var found := PickWarm(ListServers(reg), req.region, req.zone, req.serverId);
    if found.Some? {
      ClaimFields(found.value, req.roomId, ClampInteger(req.roomMaxPlayers, 0, 1, MAX_ROOM), now);
    }
  }

  // ---- players, size and status ----

  /** The size a registration gives a server: as asked for, or else the default, within 1 and 1024. */
  function SizeGiven(req: RegisterRequest, d: Defaults): int {
    if req.maxPlayers.Num? then Min(req.maxPlayers.n, 1024) else Clip(d.maxPlayers, 1, 1024)
  }

  /** The size of the server after the operation; only its own registration and heartbeats set it. */
  function CapacityAfter(op: Op, s: Server, d: Defaults): int {
    match op
    case RegisterOp(req, _) =>
      if req.serverId == s.serverId && InOrder(req) then SizeGiven(req, d) else s.maxPlayers
    case HeartbeatOp(id, h, _) =>
      if id == s.serverId && h.maxPlayers.Some? then Clip(h.maxPlayers.value, 1, 1024) else s.maxPlayers
    case _ => s.maxPlayers
  }

  /** The players: a reported count is cut to the size known before, and never exceeds the size afterwards. */
  function PlayersAfter(op: Op, s: Server, d: Defaults): int {
    match op
    case RegisterOp(req, _) =>
      if req.serverId != s.serverId || !InOrder(req) then s.currentPlayers
      else if req.currentPlayers.Num? then Min(req.currentPlayers.n, CapacityAfter(op, s, d)) else 0
    case HeartbeatOp(id, h, _) =>
      if id != s.serverId then s.currentPlayers
      else Min(if h.currentPlayers.Some? then Clip(h.currentPlayers.value, 0, s.maxPlayers) else s.currentPlayers,
          CapacityAfter(op, s, d))
    case CountOp(id, count, _) =>
      if id == s.serverId && count.Num? then Clip(count.n, 0, s.maxPlayers) else s.currentPlayers
    case _ => s.currentPlayers
  }

  /** What a server that reports this status is listed as. */
  function Listed(asked: Status, players: int, capacity: int): Status {
    if asked in {Offline, Unhealthy, Draining, Reserved, Claimed} || (asked == Warm && players == 0) then asked
    else if asked == Full || players >= capacity then Full
    else if asked in {Starting, Busy} then asked
    else Online
  }

  function StatusAfter(op: Op, s: Server, d: Defaults, claimed: bool): Status {
    var players, capacity := PlayersAfter(op, s, d), CapacityAfter(op, s, d);
    match op
    case RegisterOp(req, _) =>
      if req.serverId == s.serverId && InOrder(req) then Listed(req.status, players, capacity) else s.status
    case HeartbeatOp(id, h, _) =>
      var asked := if h.status.Some? then h.status.value else s.status;
      if id != s.serverId then s.status
      else if s.status in {Reserved, Claimed} && asked == Warm && players == 0 && (h.roomId != "" || s.roomId != "")
      then s.status
      else Listed(asked, players, capacity)
    case StatusOp(id, status, _) => if id == s.serverId then Listed(status, players, capacity) else s.status
    case MarkOp(id, status, _) => if id == s.serverId then status else s.status
    case CountOp(id, _, _) => if id == s.serverId then Listed(s.status, players, capacity) else s.status
    case ClaimOp(_, _) => if claimed then Reserved else s.status
    case _ => s.status
  }

  /**
   The players, the size and the status of a registered server after any operation, and whether it is still
   registered.
   */
  lemma CountsChangeExactly(op: Op, reg: Registry, d: Defaults, id: string)
    requires Good(reg) && id in reg.vals
    ensures var s, next := reg.vals[id], Apply(op, reg, d);
            && (id in next.vals <==> !(op.UnregisterOp? && op.serverId == id) && !op.ClearOp?)
            && (id in next.vals ==>
                  && next.vals[id].maxPlayers == CapacityAfter(op, s, d)
                  && next.vals[id].currentPlayers == PlayersAfter(op, s, d)
                  && next.vals[id].status == StatusAfter(op, s, d, Claims(op, reg, id)))
  {
    hide Good, Apply, LeftRecord, Claims, GoodServer, StatusAfter, PlayersAfter, CapacityAfter;
    GoodId(reg, id);
    LeftInRegistry(op, reg, d, id);
    CountsOfRecord(op, reg.vals[id], d, Claims(op, reg, id));
  }

  /** The size, the players and the status of the record after the operation are as they should be. */
  predicate CountsRight(op: Op, s: Server, d: Defaults, claimed: bool) {
    var t := LeftRecord(op, s, d, claimed);
    && t.maxPlayers == CapacityAfter(op, s, d) && t.currentPlayers == PlayersAfter(op, s, d)
    && t.status == StatusAfter(op, s, d, claimed)
  }

  lemma CountsOfRecord(op: Op, s: Server, d: Defaults, claimed: bool)
    requires GoodServer(s, s.serverId)
    ensures CountsRight(op, s, d, claimed)
  {
    hide CountsRight, GoodServer;
    match op
    case HeartbeatOp(id, h, now) => HeartbeatCount(op, s, d, claimed);
    case RegisterOp(req, now) => RegistrationCount(op, s, d, claimed);
    case AssignOp(req, now) => ReservationCount(op, s, d, claimed);
    case ClaimOp(req, now) => ReservationCount(op, s, d, claimed);
    case _ => ReportCount(op, s, d, claimed);
  }

  lemma HeartbeatCount(op: Op, s: Server, d: Defaults, claimed: bool)
    requires GoodServer(s, s.serverId) && op.HeartbeatOp?
    ensures CountsRight(op, s, d, claimed)
  {
    if op.serverId == s.serverId { HeartbeatStatusIs(s, op.heartbeat, op.now, d); }
    hide WithHeartbeat, GoodServer, Listed;
  }

  lemma RegistrationCount(op: Op, s: Server, d: Defaults, claimed: bool)
    requires GoodServer(s, s.serverId) && op.RegisterOp?
    ensures CountsRight(op, s, d, claimed)
  {
    if op.register.serverId == s.serverId && InOrder(op.register) { RegistrationCounts(op.register, s, d, op.now); }
    hide CreateGameServerRecord, Recompute, GoodServer, Listed, InOrder;
  }

  lemma ReservationCount(op: Op, s: Server, d: Defaults, claimed: bool)
    requires op.AssignOp? || op.ClaimOp?
    ensures CountsRight(op, s, d, claimed)
  {
    hide Recompute, Assign, Claim, Fits;
    match op
    case AssignOp(req, now) => AssignmentCounts(req, s, now);
    case ClaimOp(req, now) => ClaimFields(s, req.roomId, ClampInteger(req.roomMaxPlayers, 0, 1, MAX_ROOM), now);
    case _ =>
  }

  lemma ReportCount(op: Op, s: Server, d: Defaults, claimed: bool)
    requires GoodServer(s, s.serverId)
    requires !op.HeartbeatOp? && !op.RegisterOp? && !op.AssignOp? && !op.ClaimOp?
    ensures CountsRight(op, s, d, claimed)
  {
    hide Recompute, RoomTotal, ClampRooms, KnownRooms, EmptyRooms, NormalizePrimaryRoomList;
    if op.StatsOp? { RecomputeKeeps(s); }
  }

  /** Deriving the capacity again touches the reservations alone. */
  lemma RecomputeKeeps(s: Server)
    ensures var r := Recompute(s);
            r == s.(assignedRooms := r.assignedRooms, reservedPlayers := r.reservedPlayers,
                    availableReservedSlots := r.availableReservedSlots)
  {
    hide RoomTotal, ClampRooms;
  }

  lemma RegistrationCounts(req: RegisterRequest, s: Server, d: Defaults, now: int)
    requires req.serverId == s.serverId && InOrder(req)
    ensures var op := RegisterOp(req, now);
            var t := LeftRecord(op, s, d, false);
            && t.maxPlayers == CapacityAfter(op, s, d) && t.currentPlayers == PlayersAfter(op, s, d)
            && t.status == StatusAfter(op, s, d, false)
  {
    CreatedFields(req, d, now);
    hide CreateGameServerRecord, Recompute, Listed, Merge;
    var record := CreateGameServerRecord(req, d, now);
    RecomputeKeeps(record.(assignedRooms := Merge(s.assignedRooms, record.assignedRooms)));
  }

  lemma AssignmentCounts(req: AssignRequest, s: Server, now: int)
    ensures var t := Assign(Recompute(s), req.roomId, ClampInteger(req.roomMaxPlayers, 0, 1, MAX_ROOM), now);
            && t.maxPlayers == s.maxPlayers && t.currentPlayers == s.currentPlayers && t.status == s.status
            && Recompute(s).maxPlayers == s.maxPlayers && Recompute(s).currentPlayers == s.currentPlayers
            && Recompute(s).status == s.status
  {
    hide RoomTotal, ClampRooms;
  }

  lemma HeartbeatStatusIs(s: Server, h: Heartbeat, now: int, d: Defaults)
    requires GoodServer(s, s.serverId)
    ensures var t, op := WithHeartbeat(s, h, now), HeartbeatOp(s.serverId, h, now);
            && t.maxPlayers == CapacityAfter(op, s, d) && t.currentPlayers == PlayersAfter(op, s, d)
            && t.status == StatusAfter(op, s, d, false)
  {
    var counted := HeartbeatCounts(ServerRegistry.Placed(s, h), h);
    var reported := counted.(status := HeartbeatStatus(counted, s.status, h), updatedAt := now);
    RecomputeKeeps(WithHeartbeatRooms(reported, h));
    hide Recompute, RoomTotal, NormalizePrimaryRoomList, NormalizeHeartbeatRoomList;
  }

  // ---- what the status says ----

  /**
   A warm server is empty, one listed as starting, online or busy has a free seat, and one whose seats are all
   taken is listed as full unless it is held, draining or out of service.
   */
  predicate StatusIsTrue(s: Server) {
    && s.status != Unknown
    && (s.status == Warm ==> s.currentPlayers == 0)
    && (s.status in {Starting, Online, Busy} ==> s.currentPlayers < s.maxPlayers)
  }

  lemma StatusStaysTrue(op: Op, s: Server, d: Defaults, claimed: bool)
    requires GoodServer(s, s.serverId) && StatusIsTrue(s) && (op.MarkOp? ==> op.status in {Offline, Unhealthy})
    ensures StatusIsTrue(LeftRecord(op, s, d, claimed))
  {
    hide RoomTotal, LeftRecord;
    CountsOfRecord(op, s, d, claimed);
  }

  lemma NewStatusIsTrue(op: Op, reg: Registry, d: Defaults, id: string)
    requires Good(reg) && id !in reg.vals && id in Apply(op, reg, d).vals
    ensures op.RegisterOp? && op.register.serverId == id && InOrder(op.register)
    ensures StatusIsTrue(Apply(op, reg, d).vals[id])
  {
    hide WithHeartbeat, ServerRegistry.WithStatus, WithPlayerCount, CleanedServer, Assign, Claim, RoomTotal,
      AvailableReservedSlotsForRoom, GoodServer, Merge, ClampRooms, NormalizeAssignedRooms;
    match op
    case ClaimOp(req, now) => ClaimKeepsId(reg, req, now);
    case UnregisterOp(x) => OnlyElements(reg.keys, reg.vals.Keys - {x});
    case _ =>
  }

  /** Over every run whose marks are for offline and unhealthy servers the status of each server is true of it. */
  lemma {:induction false} StatusIsAlwaysTrue(ops: seq<Op>, d: Defaults, n: nat, id: string)
    requires n <= |ops| && forall i | 0 <= i < n && ops[i].MarkOp? :: ops[i].status in {Offline, Unhealthy}
    ensures id in After(ops, d, n).vals ==> StatusIsTrue(After(ops, d, n).vals[id])
  {
    hide Apply, StatusIsTrue, Good, LeftRecord, Claims, GoodServer;
    if n > 0 && id in After(ops, d, n).vals {
      var reg := After(ops, d, n - 1);
      DerivedCapacityAlwaysHolds(ops, d, n - 1);
      if id in reg.vals {
        StatusIsAlwaysTrue(ops, d, n - 1, id);
        GoodId(reg, id);
        LeftInRegistry(ops[n - 1], reg, d, id);
        StatusStaysTrue(ops[n - 1], reg.vals[id], d, Claims(ops[n - 1], reg, id));
      } else {
        NewStatusIsTrue(ops[n - 1], reg, d, id);
      }
    }
  }

  // ---- reserved rooms ----

  /** The size that a registration brings for a room. */
  function Brought(req: RegisterRequest, d: Defaults, room: string): Option<int> {
    if room == "" then None
    else if room in req.assignedRooms.vals then
      var size := req.assignedRooms.vals[room];
      Some(if size.Num? then Clip(size.n, 1, 1024) else SizeGiven(req, d))
    else if room == req.roomId && req.roomMaxPlayers.Num? && req.roomMaxPlayers.n > 0
      && forall k | k in req.assignedRooms.vals :: k == ""
    then Some(Min(req.roomMaxPlayers.n, 1024))
    else None
  }

  function Held(s: Server, room: string): Option<int> {
    if room in s.assignedRooms.vals then Some(s.assignedRooms.vals[room]) else None
  }

  /** The size reserved for a room after an operation other than a cleanup. */
  function HeldAfter(op: Op, s: Server, d: Defaults, claimed: bool, room: string): Option<int> {
    match op
    case RegisterOp(req, _) =>
      if req.serverId == s.serverId && InOrder(req) && Brought(req, d, room).Some? then Brought(req, d, room)
      else Held(s, room)
    case AssignOp(req, _) =>
      if req.serverId == s.serverId && req.roomId == room && room != "" && Fits(s, req)
      then Some(if req.roomMaxPlayers.Num? then Clip(req.roomMaxPlayers.n, 1, 1024) else 1) else Held(s, room)
    case ClaimOp(req, _) =>
      if claimed && req.roomId == room
      then Some(if req.roomMaxPlayers.Num? then Clip(req.roomMaxPlayers.n, 1, 1024) else 1) else Held(s, room)
    case _ => Held(s, room)
  }

  lemma GivenRooms(rooms: JsMap<string, Raw>, fallback: int, room: string)
    ensures var given := NormalizeAssignedRooms(rooms, fallback);
            && (room in given.vals <==> room != "" && room in rooms.vals)
            && (room in given.vals ==>
                 given.vals[room] == if rooms.vals[room].Num? then Clip(rooms.vals[room].n, 1, 1024) else fallback)
            && (given.keys == [] <==> forall k | k in rooms.vals :: k == "")
  {
    var named := Delete(rooms, "");
    OnlyElements(rooms.keys, rooms.vals.Keys - {""});
    assert forall k :: k in named.vals <==> k in rooms.vals && k != "";
    if named.keys == [] {
      assert forall k | k in rooms.vals && k != "" :: k in named.keys;
    } else {
      assert named.keys[0] in named.vals;
    }
  }

  lemma CreatedRooms(req: RegisterRequest, d: Defaults, now: int, room: string)
    requires InOrder(req)
    ensures Held(CreateGameServerRecord(req, d, now), room) == Brought(req, d, room)
    ensures WellSized(CreateGameServerRecord(req, d, now))
  {
    CreatedWellSized(req, d, now);
    hide RoomTotal, ResolveServerStatus, NormalizeAssignedRooms, WellSized;
    GivenRooms(req.assignedRooms, CreateGameServerRecord(req, d, now).maxPlayers, room);
  }

  /**
   The reservations of a server change exactly so: a registration sets the rooms it brings, an assignment that fits and
   a claim set their room, and nothing else but a cleanup or the end of the registration touches any.
   */
  lemma RoomsChangeExactly(op: Op, reg: Registry, d: Defaults, id: string, room: string)
    requires Good(reg) && id in reg.vals
    ensures id in Apply(op, reg, d).vals && !op.CleanupOp? ==>
              Held(Apply(op, reg, d).vals[id], room) == HeldAfter(op, reg.vals[id], d, Claims(op, reg, id), room)
  {
    hide Good, Apply, LeftRecord, Claims, GoodServer, HeldAfter, Held;
    GoodId(reg, id);
    LeftInRegistry(op, reg, d, id);
    ClaimNamesRoom(op, reg, id);
    if !op.CleanupOp? {
      RoomsOfRecord(op, reg.vals[id], d, Claims(op, reg, id), room);
    }
  }

  lemma ClaimNamesRoom(op: Op, reg: Registry, id: string)
    ensures Claims(op, reg, id) ==> op.ClaimOp? && op.claim.roomId != ""
  {
    hide Claim, PickWarm;
  }

  lemma RoomsOfRecord(op: Op, s: Server, d: Defaults, claimed: bool, room: string)
    requires GoodServer(s, s.serverId) && !op.CleanupOp? && (claimed ==> op.ClaimOp? && op.claim.roomId != "")
    ensures Held(LeftRecord(op, s, d, claimed), room) == HeldAfter(op, s, d, claimed, room)
  {
    hide Held, HeldAfter, LeftRecord, GoodServer;
    match op
    case RegisterOp(_, _) => RoomsOfRegistration(op, s, d, claimed, room);
    case AssignOp(_, _) => RoomsOfAssignment(op, s, d, claimed, room);
    case ClaimOp(_, _) => RoomsOfClaim(op, s, d, claimed, room);
    case _ => RoomsOfReport(op, s, d, claimed, room);
  }

  lemma RoomsOfReport(op: Op, s: Server, d: Defaults, claimed: bool, room: string)
    requires GoodServer(s, s.serverId) && !op.CleanupOp? && !op.RegisterOp? && !op.AssignOp? && !op.ClaimOp?
    ensures Held(LeftRecord(op, s, d, claimed), room) == HeldAfter(op, s, d, claimed, room)
  {
    hide RoomTotal, Recompute, WithHeartbeat, ResolveServerStatus;
    match op
    case HeartbeatOp(_, h, now) => HeartbeatGood(s, h, now);
    case StatsOp => RecomputeDerives(s);
    case _ =>
  }

  lemma RoomsOfClaim(op: Op, s: Server, d: Defaults, claimed: bool, room: string)
    requires GoodServer(s, s.serverId) && op.ClaimOp? && (claimed ==> op.claim.roomId != "")
    ensures Held(LeftRecord(op, s, d, claimed), room) == HeldAfter(op, s, d, claimed, room)
  {
    hide RoomTotal, Claim;
    if claimed {
      ClaimStores(s, op.claim.roomId, ClampInteger(op.claim.roomMaxPlayers, 0, 1, MAX_ROOM), op.now);
    }
    hide GoodServer;
  }

  lemma RoomsOfAssignment(op: Op, s: Server, d: Defaults, claimed: bool, room: string)
    requires GoodServer(s, s.serverId) && op.AssignOp?
    ensures Held(LeftRecord(op, s, d, claimed), room) == HeldAfter(op, s, d, claimed, room)
  {
    hide RoomTotal, Recompute, Assign, Fits;
    RecomputeDerives(s);
    if op.assign.roomId != "" {
      AssignStores(Recompute(s), op.assign.roomId, ClampInteger(op.assign.roomMaxPlayers, 0, 1, MAX_ROOM), op.now);
    }
    hide GoodServer;
  }

  lemma RoomsOfRegistration(op: Op, s: Server, d: Defaults, claimed: bool, room: string)
    requires GoodServer(s, s.serverId) && op.RegisterOp?
    ensures Held(LeftRecord(op, s, d, claimed), room) == HeldAfter(op, s, d, claimed, room)
  {
    hide RoomTotal, Recompute, CreateGameServerRecord, Brought;
    if op.register.serverId == s.serverId && InOrder(op.register) {
      var record := CreateGameServerRecord(op.register, d, op.now);
      CreatedRooms(op.register, d, op.now, room);
      MergedWellSized(record, s.assignedRooms);
      RecomputeDerives(record.(assignedRooms := Merge(s.assignedRooms, record.assignedRooms)));
    }
    hide GoodServer, WellSized, InOrder;
  }

  // ---- registration ----

  function Named(asked: Option<string>, given: string): string {
    match asked
    case Some(text) => if text == "" then "default" else text
    case None => if given == "" then "default" else given
  }

  /**
   A registration succeeds exactly when it is in order. The record is new in everything but the reservations of an
   earlier registration of the server, which it keeps; no other server is touched.
   */
  lemma RegisteredExactly(reg: Registry, req: RegisterRequest, d: Defaults, now: int, room: string)
    requires Good(reg)
    ensures ValidRegisterRequest(req) <==> InOrder(req)
    ensures !InOrder(req) ==> Registered(reg, req, d, now) == reg
    ensures InOrder(req) ==>
              var next := Registered(reg, req, d, now);
              && next.vals.Keys == reg.vals.Keys + {req.serverId}
              && (forall x | x in reg.vals && x != req.serverId :: next.vals[x] == reg.vals[x])
              && var t := next.vals[req.serverId];
                 && t.serverId == req.serverId && t.roomId == req.roomId && t.updatedAt == now
                 && t.region == Named(req.region, d.region) && t.zone == Named(req.zone, d.zone)
                 && t.maxPlayers == SizeGiven(req, d)
                 && t.currentPlayers == (if req.currentPlayers.Num? then Min(req.currentPlayers.n, t.maxPlayers) else 0)
                 && t.status == Listed(req.status, t.currentPlayers, t.maxPlayers)
                 && t.rooms == None && t.metadataRooms == req.metadataRooms
                 && Held(t, room) == if Brought(req, d, room).Some? then Brought(req, d, room)
                    else if req.serverId in reg.vals then Held(reg.vals[req.serverId], room) else None
  {
    if InOrder(req) {
      hide CreateGameServerRecord, Recompute, Brought, RoomTotal, GoodServer, Listed, Named, Registered, Good, Put;
      CreatedFields(req, d, now);
      CreatedRooms(req, d, now, room);
      StoredRecord(reg, req, d, now, room);
    }
  }

  lemma StoredRecord(reg: Registry, req: RegisterRequest, d: Defaults, now: int, room: string)
    requires Good(reg) && InOrder(req)
    ensures var next, record := Registered(reg, req, d, now), CreateGameServerRecord(req, d, now);
            && next.vals.Keys == reg.vals.Keys + {req.serverId}
            && (forall x | x in reg.vals && x != req.serverId :: next.vals[x] == reg.vals[x])
            && var t := next.vals[req.serverId];
               && t == record.(assignedRooms := t.assignedRooms, reservedPlayers := t.reservedPlayers,
                               availableReservedSlots := t.availableReservedSlots)
               && Held(t, room) == if room in record.assignedRooms.vals then Held(record, room)
                  else if req.serverId in reg.vals then Held(reg.vals[req.serverId], room) else None
  {
    hide CreateGameServerRecord, RoomTotal, Recompute, GoodServer;
    var record := CreateGameServerRecord(req, d, now);
    CreatedWellSized(req, d, now);
    RecomputeDerives(record);
    if req.serverId in reg.vals {
      GoodWellSized(reg, req.serverId);
      MergedWellSized(record, reg.vals[req.serverId].assignedRooms);
      RecomputeDerives(record.(assignedRooms := Merge(reg.vals[req.serverId].assignedRooms, record.assignedRooms)));
    }
    hide WellSized, Good;
  }

  lemma CreatedFields(req: RegisterRequest, d: Defaults, now: int)
    requires InOrder(req)
    ensures var t := CreateGameServerRecord(req, d, now);
            && t.serverId == req.serverId && t.roomId == req.roomId && t.updatedAt == now
            && t.region == Named(req.region, d.region) && t.zone == Named(req.zone, d.zone)
            && t.maxPlayers == SizeGiven(req, d)
            && t.currentPlayers == (if req.currentPlayers.Num? then Min(req.currentPlayers.n, t.maxPlayers) else 0)
            && t.status == Listed(req.status, t.currentPlayers, t.maxPlayers)
            && t.rooms == None && t.metadataRooms == req.metadataRooms
  {
    hide RoomTotal, NormalizeAssignedRooms;
  }

  // ---- claims ----

  /** A warm server, empty and without rooms, in the place asked for, under the id asked for. */
  predicate Free(s: Server, req: ClaimRequest) {
    && s.status == Warm && s.currentPlayers == 0 && s.roomId == "" && s.assignedRooms.keys == []
    && (req.region == "" || s.region == req.region) && (req.zone == "" || s.zone == req.zone)
    && (req.serverId == "" || s.serverId == req.serverId)
  }

  /** The free server that has waited longest, the first in the registry when several have. */
  ghost predicate WaitsLongest(reg: Registry, req: ClaimRequest, id: string) {
    exists i :: WaitsAt(reg, req, i) && reg.keys[i] == id
  }

  ghost predicate WaitsAt(reg: Registry, req: ClaimRequest, i: int) {
    && 0 <= i < |reg.keys| && Free(reg.vals[reg.keys[i]], req)
    && forall j | 0 <= j < |reg.keys| && Free(reg.vals[reg.keys[j]], req) ::
         && reg.vals[reg.keys[i]].updatedAt <= reg.vals[reg.keys[j]].updatedAt
         && (j < i ==> reg.vals[reg.keys[i]].updatedAt < reg.vals[reg.keys[j]].updatedAt)
  }

  ghost predicate FirstFree(list: seq<Server>, req: ClaimRequest, i: int) {
    && 0 <= i < |list| && Free(list[i], req)
    && forall j | 0 <= j < |list| && Free(list[j], req) ::
         list[i].updatedAt <= list[j].updatedAt && (j < i ==> list[i].updatedAt < list[j].updatedAt)
  }

  lemma FirstFreeSnoc(list: seq<Server>, req: ClaimRequest, i: int)
    requires list != [] && FirstFree(list[..|list| - 1], req, i)
    ensures var last := list[|list| - 1];
            FirstFree(list, req, if Free(last, req) && last.updatedAt < list[i].updatedAt then |list| - 1 else i)
  {
    hide Free;
    var init := list[..|list| - 1];
    assert forall j | 0 <= j < |init| :: init[j] == list[j];
  }

  lemma {:induction false} PickIsFirst(list: seq<Server>, req: ClaimRequest)
    ensures var found := PickWarm(list, req.region, req.zone, req.serverId);
            if found.None? then forall s | s in list :: !Free(s, req)
            else exists i :: FirstFree(list, req, i) && list[i] == found.value
  {
    if list != [] {
      var init, last := list[..|list| - 1], list[|list| - 1];
      assert list == init + [last];
      PickIsFirst(init, req);
      FreeIsWarmAndFree(last, req);
      hide Free, WarmAndFree;
      var before := PickWarm(init, req.region, req.zone, req.serverId);
      if before.Some? {
        var i :| FirstFree(init, req, i) && init[i] == before.value;
        FirstFreeSnoc(list, req, i);
        hide FirstFree;
      } else if Free(last, req) {
        assert forall j | 0 <= j < |init| :: init[j] in init && list[j] == init[j];
        assert FirstFree(list, req, |list| - 1);
      }
    }
  }

  lemma FreeIsWarmAndFree(s: Server, req: ClaimRequest)
    ensures Free(s, req) <==>
              WarmAndFree(s, req.region, req.zone) && (req.serverId == "" || s.serverId == req.serverId)
  {
  }

  /**
   A claim succeeds if and only if it names a room and the free server that has waited longest is large enough for
   it, and takes that server; a larger free server that has not waited as long is not looked at.
   */
  lemma ClaimedExactly(reg: Registry, req: ClaimRequest, now: int)
    requires Good(reg)
    ensures var reply := ClaimReply(reg, req, now);
            var size := if req.roomMaxPlayers.Num? then Clip(req.roomMaxPlayers.n, 1, 1024) else 0;
            && (reply.Success? <==>
                 req.roomId != ""
                 && exists id :: id in reg.vals && WaitsLongest(reg, req, id) && size <= reg.vals[id].maxPlayers)
            && (reply.Success? ==>
                 && WaitsLongest(reg, req, reply.server.serverId) && reply.server.serverId in reg.vals
                 && reply.server.roomId == req.roomId && reply.server.updatedAt == now)
  {
    hide Claim, PickWarm, ListServers, WaitsLongest, Good, ClaimReply;
    PickedWaits(reg, req);
    ClaimReplyIs(reg, req, now);
    var found := PickWarm(ListServers(reg), req.region, req.zone, req.serverId);
    if found.Some? {
      GoodWellSized(reg, found.value.serverId);
      ClaimFields(found.value, req.roomId, ClampInteger(req.roomMaxPlayers, 0, 1, MAX_ROOM), now);
      assert WaitsLongest(reg, req, found.value.serverId);
    }
    hide WellSized, GoodServer;
  }

  lemma PickedWaits(reg: Registry, req: ClaimRequest)
    requires Good(reg)
    ensures var found := PickWarm(ListServers(reg), req.region, req.zone, req.serverId);
            && (found.None? ==> forall id :: !WaitsLongest(reg, req, id))
            && (found.Some? ==>
                 var id := found.value.serverId;
                 && id in reg.vals && reg.vals[id] == found.value
                 && forall x :: WaitsLongest(reg, req, x) <==> x == id)
  {
    hide PickWarm, Free;
    var list := ListServers(reg);
    PickIsFirst(list, req);
    var found := PickWarm(list, req.region, req.zone, req.serverId);
    if found.Some? {
      var i :| FirstFree(list, req, i) && list[i] == found.value;
      GoodId(reg, reg.keys[i]);
      SameOrder(reg, req, i);
      OneWaitsLongest(reg, req, i);
      hide WaitsLongest, WaitsAt, FirstFree;
    } else {
      assert forall i | 0 <= i < |reg.keys| :: list[i] in list && list[i] == reg.vals[reg.keys[i]];
    }
  }

  lemma GoodWellSized(reg: Registry, id: string)
    requires Good(reg) && id in reg.vals
    ensures WellSized(reg.vals[id])
  {
  }

  lemma SameOrder(reg: Registry, req: ClaimRequest, i: int)
    requires FirstFree(ListServers(reg), req, i)
    ensures WaitsAt(reg, req, i)
  {
    hide Free;
    var list := ListServers(reg);
    assert forall j | 0 <= j < |reg.keys| :: list[j] == reg.vals[reg.keys[j]];
  }

  lemma OneWaitsLongest(reg: Registry, req: ClaimRequest, i: int)
    requires WaitsAt(reg, req, i)
    ensures forall x :: WaitsLongest(reg, req, x) <==> x == reg.keys[i]
  {
    forall k | WaitsAt(reg, req, k) ensures k == i {
      hide Free;
      assert k < i || k == i || i < k;
    }
    hide WaitsAt;
  }

  /** Two free servers; the one that has waited longer is too small for the room, and the claim fails. */
  lemma LongestWaitingIsTooSmall(d: Defaults)
    ensures var small := RegisterRequest("a", "", None, None, Warm, Num(2), Absent, Empty(), Absent, None, Absent);
            var large := RegisterRequest("b", "", None, None, Warm, Num(9), Absent, Empty(), Absent, None, Absent);
            var reg := After([RegisterOp(small, 1), RegisterOp(large, 2)], d, 2);
            var claim := ClaimRequest("room", Num(5), "", "", "");
            && reg.keys == ["a", "b"] && Free(reg.vals["b"], claim) && reg.vals["b"].maxPlayers == 9
            && ClaimReply(reg, claim, 3) == Failure("room_capacity_exceeds_server_capacity")
  {
    TwoWarmServers(d);
    var small := RegisterRequest("a", "", None, None, Warm, Num(2), Absent, Empty(), Absent, None, Absent);
    var large := RegisterRequest("b", "", None, None, Warm, Num(9), Absent, Empty(), Absent, None, Absent);
    var reg := After([RegisterOp(small, 1), RegisterOp(large, 2)], d, 2);
    hide *;
    SmallAndFree(reg, "a", ClaimRequest("room", Num(5), "", "", ""));
    SmallAndFree(reg, "b", ClaimRequest("room", Num(5), "", "", ""));
    LongestIsTaken(reg, ClaimRequest("room", Num(5), "", "", ""), 3, "a", "b");
  }

  lemma SmallAndFree(reg: Registry, id: string, claim: ClaimRequest)
    requires id in reg.vals && claim.region == "" && claim.zone == "" && claim.serverId == ""
    requires var t := reg.vals[id];
             t.status == Warm && t.currentPlayers == 0 && t.roomId == "" && t.assignedRooms.keys == []
    ensures Free(reg.vals[id], claim)
  {
  }

  lemma LongestIsTaken(reg: Registry, claim: ClaimRequest, now: int, a: string, b: string)
    requires reg.keys == [a, b] && a in reg.vals && b in reg.vals
    requires Free(reg.vals[a], claim) && Free(reg.vals[b], claim)
    requires reg.vals[a].updatedAt < reg.vals[b].updatedAt && claim.roomId != "" && claim.roomMaxPlayers.Num?
    requires reg.vals[a].maxPlayers < claim.roomMaxPlayers.n <= 1024 && reg.vals[a].maxPlayers >= 1
    ensures ClaimReply(reg, claim, now) == Failure("room_capacity_exceeds_server_capacity")
  {
    hide PickWarm, Claim;
    PickOfTwo(ListServers(reg), claim);
    hide ListServers, Free;
  }

  lemma PickOfTwo(list: seq<Server>, claim: ClaimRequest)
    requires |list| == 2 && Free(list[0], claim) && Free(list[1], claim) && list[0].updatedAt < list[1].updatedAt
    ensures PickWarm(list, claim.region, claim.zone, claim.serverId) == Some(list[0])
  {
    hide PickWarm;
    var found := PickWarm(list, claim.region, claim.zone, claim.serverId);
    assert list[0] in list && list[1] in list;
  }

  lemma TwoWarmServers(d: Defaults)
    ensures var small := RegisterRequest("a", "", None, None, Warm, Num(2), Absent, Empty(), Absent, None, Absent);
            var large := RegisterRequest("b", "", None, None, Warm, Num(9), Absent, Empty(), Absent, None, Absent);
            var reg := After([RegisterOp(small, 1), RegisterOp(large, 2)], d, 2);
            && reg.keys == ["a", "b"] && reg.vals.Keys == {"a", "b"}
            && (forall x | x in reg.vals ::
                 var t := reg.vals[x];
                 && t.serverId == x && t.status == Warm && t.currentPlayers == 0 && t.roomId == ""
                 && t.assignedRooms.keys == [])
            && reg.vals["a"].maxPlayers == 2 && reg.vals["a"].updatedAt == 1
            && reg.vals["b"].maxPlayers == 9 && reg.vals["b"].updatedAt == 2
  {
    var small := RegisterRequest("a", "", None, None, Warm, Num(2), Absent, Empty(), Absent, None, Absent);
    var large := RegisterRequest("b", "", None, None, Warm, Num(9), Absent, Empty(), Absent, None, Absent);
    var ops := [RegisterOp(small, 1), RegisterOp(large, 2)];
    hide Registered;
    assert After(ops, d, 0) == Empty();
    WarmRegisters(Empty(), small, d, 1);
    assert After(ops, d, 1) == Registered(Empty(), small, d, 1);
    WarmRegisters(After(ops, d, 1), large, d, 2);
    assert After(ops, d, 2) == Registered(After(ops, d, 1), large, d, 2);
    hide After;
  }

  lemma WarmRegisters(reg: Registry, req: RegisterRequest, d: Defaults, now: int)
    requires req.serverId !in reg.vals && req.status == Warm && req.assignedRooms == Empty() && req.roomId == ""
    requires InOrder(req) && req.maxPlayers.Num? && req.maxPlayers.n <= 1024 && req.currentPlayers.Absent?
    ensures var next := Registered(reg, req, d, now);
            && next.keys == reg.keys + [req.serverId] && next.vals.Keys == reg.vals.Keys + {req.serverId}
            && (forall x | x in reg.vals :: next.vals[x] == reg.vals[x])
            && var t := next.vals[req.serverId];
               && t.serverId == req.serverId && t.status == Warm && t.currentPlayers == 0 && t.roomId == ""
               && t.assignedRooms.keys == [] && t.maxPlayers == req.maxPlayers.n && t.updatedAt == now
  {
    GivenRooms(req.assignedRooms, 0, "");
    assert Delete(req.assignedRooms, "") == Empty();
  }

  // ---- place ----

  /** The heartbeat's list of rooms loses those without an id and is taken room by room, the players within range. */
  lemma {:induction false} NamedRoomsOnly(a: seq<HeartbeatRoom>, b: seq<HeartbeatRoom>)
    ensures NormalizeHeartbeatRoomList(a + b) == NormalizeHeartbeatRoomList(a) + NormalizeHeartbeatRoomList(b)
  {
    if b == [] {
      assert a + b == a;
    } else {
      var init, last := b[..|b| - 1], b[|b| - 1];
      NamedRoomsOnly(a, init);
      assert (a + b)[..|a + b| - 1] == a + init && (a + b)[|a + b| - 1] == last;
      var tail := if last.roomId == "" then [] else
        [last.(currentPlayers := ClampInteger(Num(last.currentPlayers), 0, 0, 100000))];
      assert NormalizeHeartbeatRoomList(b) == NormalizeHeartbeatRoomList(init) + tail;
      assert NormalizeHeartbeatRoomList(a + b) == NormalizeHeartbeatRoomList(a + init) + tail;
    }
  }

  lemma NamedRoom(x: HeartbeatRoom)
    ensures NormalizeHeartbeatRoomList([]) == []
    ensures NormalizeHeartbeatRoomList([x])
         == if x.roomId == "" then [] else [HeartbeatRoom(x.roomId, Clip(x.currentPlayers, 0, 100000), x.isPrimary)]
  {
    assert [x][..0] == [];
  }

  /** Region, zone and time of the last change after an operation other than a cleanup. */
  predicate PlaceMoves(op: Op, s: Server, t: Server, d: Defaults, claimed: bool) {
    match op
    case RegisterOp(req, now) =>
      if req.serverId == s.serverId && InOrder(req)
      then t.region == Named(req.region, d.region) && t.zone == Named(req.zone, d.zone) && t.updatedAt == now
      else t == s
    case HeartbeatOp(id, h, now) =>
      if id == s.serverId
      then (&& t.region == (if h.region == "" then s.region else h.region)
            && t.zone == (if h.zone == "" then s.zone else h.zone) && t.updatedAt == now)
      else t == s
    case StatusOp(id, _, now) => t.region == s.region && t.zone == s.zone && (id == s.serverId ==> t.updatedAt == now)
    case MarkOp(id, _, now) => t.region == s.region && t.zone == s.zone && (id == s.serverId ==> t.updatedAt == now)
    case CountOp(id, _, now) => t.region == s.region && t.zone == s.zone && (id == s.serverId ==> t.updatedAt == now)
    case AssignOp(req, now) =>
      && t.region == s.region && t.zone == s.zone
      && t.updatedAt == if req.serverId == s.serverId && req.roomId != "" && Fits(s, req) then now else s.updatedAt
    case ClaimOp(_, now) =>
      t.region == s.region && t.zone == s.zone && t.updatedAt == if claimed then now else s.updatedAt
    case _ => t.region == s.region && t.zone == s.zone && t.updatedAt == s.updatedAt
  }

  /** The primary room of a heartbeat's list: see `ServerRecord.PrimaryRoomInOrder`. */
  function PrimaryOf(roomId: string, rooms: seq<HeartbeatRoom>): string {
    var named := NormalizeHeartbeatRoomList(rooms);
    if named == [] then roomId else SelectPrimary(roomId, named)
  }

  /** The room of the server, and the list of rooms of its last heartbeat. */
  predicate RoomMoves(op: Op, s: Server, t: Server, claimed: bool) {
    match op
    case RegisterOp(req, _) =>
      if req.serverId == s.serverId && InOrder(req)
      then t.roomId == req.roomId && t.rooms == None && t.metadataRooms == req.metadataRooms else t == s
    case HeartbeatOp(id, h, _) =>
      var named := if h.roomId == "" then s.roomId else h.roomId;
      if id != s.serverId then t == s
      else if h.rooms.None? then t.roomId == named && t.rooms == s.rooms && t.metadataRooms == s.metadataRooms
      else
        var rooms := NormalizeHeartbeatRoomList(h.rooms.value);
        && t.roomId == PrimaryOf(named, h.rooms.value) && t.rooms.Some? && t.metadataRooms == t.rooms
        && |t.rooms.value| == |rooms|
        && forall i | 0 <= i < |rooms| ::
             t.rooms.value[i] == rooms[i].(isPrimary := rooms[i].roomId == t.roomId)
    case AssignOp(req, _) =>
      && t.rooms == s.rooms && t.metadataRooms == s.metadataRooms
      && t.roomId == if req.serverId == s.serverId && s.roomId == "" && Fits(s, req) then req.roomId else s.roomId
    case ClaimOp(req, _) =>
      && t.rooms == s.rooms && t.metadataRooms == s.metadataRooms
      && t.roomId == if claimed then req.roomId else s.roomId
    case _ => t.roomId == s.roomId && t.rooms == s.rooms && t.metadataRooms == s.metadataRooms
  }

  /** Where a server is and what it lists, after any operation other than a cleanup. */
  lemma PlaceChangesExactly(op: Op, reg: Registry, d: Defaults, id: string)
    requires Good(reg) && id in reg.vals
    ensures id in Apply(op, reg, d).vals && !op.CleanupOp? ==>
              var s, t := reg.vals[id], Apply(op, reg, d).vals[id];
              && PlaceMoves(op, s, t, d, Claims(op, reg, id)) && RoomMoves(op, s, t, Claims(op, reg, id))
  {
    hide Good, Apply, LeftRecord, Claims, GoodServer, PlaceMoves, RoomMoves;
    GoodId(reg, id);
    LeftInRegistry(op, reg, d, id);
    if !op.CleanupOp? {
      PlaceOfRecord(op, reg.vals[id], d, Claims(op, reg, id));
      RoomOfRecord(op, reg.vals[id], d, Claims(op, reg, id));
    }
  }

  lemma PlaceOfRecord(op: Op, s: Server, d: Defaults, claimed: bool)
    requires GoodServer(s, s.serverId) && !op.CleanupOp?
    ensures PlaceMoves(op, s, LeftRecord(op, s, d, claimed), d, claimed)
  {
    hide RoomTotal, ClampRooms, Fits, NormalizePrimaryRoomList, NormalizeHeartbeatRoomList, Merge, Put,
      CreateGameServerRecord, ResolveServerStatus;
    match op
    case RegisterOp(req, now) => if InOrder(req) { CreatedFields(req, d, now); }
    case _ =>
  }

  lemma RoomOfRecord(op: Op, s: Server, d: Defaults, claimed: bool)
    requires GoodServer(s, s.serverId) && !op.CleanupOp?
    ensures RoomMoves(op, s, LeftRecord(op, s, d, claimed), claimed)
  {
    hide RoomTotal, ClampRooms, Fits, SelectPrimary, NormalizeHeartbeatRoomList, Merge, Put, CreateGameServerRecord,
      ResolveServerStatus;
    match op
    case RegisterOp(req, now) => if InOrder(req) { CreatedFields(req, d, now); }
    case HeartbeatOp(id, h, now) =>
      if h.rooms.Some? {
        var rooms := NormalizeHeartbeatRoomList(h.rooms.value);
        NormalizedTwice(h.rooms.value);
      }
    case _ =>
  }

  lemma {:induction false} NormalizedTwice(rooms: seq<HeartbeatRoom>)
    ensures NormalizeHeartbeatRoomList(NormalizeHeartbeatRoomList(rooms)) == NormalizeHeartbeatRoomList(rooms)
  {
    if rooms != [] {
      var init, last := rooms[..|rooms| - 1], rooms[|rooms| - 1];
      NormalizedTwice(init);
      NamedRoomsOnly(NormalizeHeartbeatRoomList(init), NormalizeHeartbeatRoomList([last]));
      NamedRoomsOnly(init, [last]);
      NamedRoom(last);
      NamedRoom(last.(currentPlayers := Clip(last.currentPlayers, 0, 100000)));
      assert init + [last] == rooms;
    }
  }

  // ---- statistics ----

  /** The totals add up over the servers, each counted once with its players, size, reserved players and free slots. */
  lemma {:induction false} TotalsAreSums(a: seq<string>, b: seq<string>, vals: map<string, Server>)
    requires forall k | k in a + b :: k in vals
    ensures TotalsOver([], vals) == Totals(0, 0, 0, 0, 0)
    ensures forall k | k in vals ::
              TotalsOver([k], vals) == Totals(1, vals[k].currentPlayers, vals[k].maxPlayers, vals[k].reservedPlayers,
                                         vals[k].availableReservedSlots)
    ensures var x, y, all := TotalsOver(a, vals), TotalsOver(b, vals), TotalsOver(a + b, vals);
            && all.servers == x.servers + y.servers && all.players == x.players + y.players
            && all.capacity == x.capacity + y.capacity && all.reservedPlayers == x.reservedPlayers + y.reservedPlayers
            && all.availableReservedSlots == x.availableReservedSlots + y.availableReservedSlots
  {
    assert forall k: string :: [k][..0] == [];
    if b == [] {
      assert a + b == a;
    } else {
      var init, last := b[..|b| - 1], b[|b| - 1];
      assert (a + b)[..|a + b| - 1] == a + init && (a + b)[|a + b| - 1] == last;
      TotalsAreSums(a, init, vals);
    }
  }
}
