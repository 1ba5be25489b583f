/** The in-memory registry of dedicated servers and the rooms reserved on them. */
module ServerRegistry {
  import opened Common
  import opened JsMaps
  import opened ServerRecord

  type Registry = JsMap<string, Server>

  datatype Defaults = Defaults(region: string, zone: string, maxPlayers: int)

  datatype RegisterRequest = RegisterRequest(
    serverId: string, roomId: string, region: Option<string>, zone: Option<string>, status: Status,
    maxPlayers: Raw, currentPlayers: Raw, assignedRooms: JsMap<string, Raw>, roomMaxPlayers: Raw,
    metadataRooms: Option<seq<HeartbeatRoom>>, port: Raw)

  datatype Heartbeat = Heartbeat(
    roomId: string, region: string, zone: string, currentPlayers: Option<int>, maxPlayers: Option<int>,
    status: Option<Status>, rooms: Option<seq<HeartbeatRoom>>)

  datatype ClaimRequest = ClaimRequest(roomId: string, roomMaxPlayers: Raw, region: string, zone: string,
    serverId: string)

  datatype AssignRequest = AssignRequest(serverId: string, roomId: string, roomMaxPlayers: Raw)

  datatype Reply = Success(server: Server) | Failure(reason: string)

  // ---- registration ----

  predicate ValidRegisterRequest(req: RegisterRequest) {
    && req.serverId != ""
    && (req.port.Absent? || (req.port.Num? && 1 <= req.port.n <= 65535))
    && (req.maxPlayers.Absent? || (req.maxPlayers.Num? && req.maxPlayers.n >= 1))
    && (req.currentPlayers.Absent? || (req.currentPlayers.Num? && req.currentPlayers.n >= 0))
  }

  function Cleaned(field: Option<string>, given: string): string {
    var text := if field.Some? then field.value else given;
    if text == "" then "default" else text
  }

  /** The rooms a request brings along; an entry without an id is skipped. */
  function NormalizeAssignedRooms(rooms: JsMap<string, Raw>, fallback: int): Rooms {
    var named := Delete(rooms, "");
    RawMap(named.keys, map k | k in named.vals :: ClampInteger(named.vals[k], fallback, 1, MAX_ROOM))
  }

  function CreateGameServerRecord(req: RegisterRequest, d: Defaults, now: int): Server {
    var asked := if req.maxPlayers.Absent? then Num(d.maxPlayers) else req.maxPlayers;
    var maxPlayers := ClampInteger(asked, DEFAULT_MAX_PLAYERS, 1, MAX_ROOM);
    var currentPlayers := ClampInteger(req.currentPlayers, 0, 0, maxPlayers);
    var given := NormalizeAssignedRooms(req.assignedRooms, maxPlayers);
    var rooms := if req.roomId != "" && req.roomMaxPlayers.Num? && req.roomMaxPlayers.n > 0 && given.keys == []
                 then Put(given, req.roomId, ClampInteger(req.roomMaxPlayers, maxPlayers, 1, MAX_ROOM)) else given;
    WithReserved(
      Server(req.serverId, req.roomId, Cleaned(req.region, d.region), Cleaned(req.zone, d.zone),
        ResolveServerStatus(req.status, currentPlayers, maxPlayers), maxPlayers, currentPlayers,
        rooms, 0, 0, now, None, req.metadataRooms),
      RoomTotal(rooms))
  }

  /** Registering again keeps the rooms reserved before. */
  function Registered(reg: Registry, req: RegisterRequest, d: Defaults, now: int): Registry {
    if !ValidRegisterRequest(req) then reg else
      var record := CreateGameServerRecord(req, d, now);
      var next := if req.serverId in reg.vals
                  then record.(assignedRooms := Merge(reg.vals[req.serverId].assignedRooms, record.assignedRooms))
                  else record;
      Put(reg, req.serverId, Recompute(next))
  }

  // ---- reports from the server ----

  function WithStatus(s: Server, status: Status, now: int): Server {
    s.(status := ResolveServerStatus(status, s.currentPlayers, s.maxPlayers), updatedAt := now)
  }

  /** The marks for offline and unhealthy set the status as it is. */
  function Marked(s: Server, status: Status, now: int): Server {
    s.(status := status, updatedAt := now)
  }

  function WithPlayerCount(s: Server, currentPlayers: Raw, now: int): Server {
    var n := ClampInteger(currentPlayers, s.currentPlayers, 0, s.maxPlayers);
    s.(currentPlayers := n, status := ResolveServerStatus(s.status, n, s.maxPlayers), updatedAt := now)
  }

  /** The counts after a heartbeat: a new player count is cut to the old capacity, then to the new one. */
  function HeartbeatCounts(s: Server, h: Heartbeat): Server {
    var counted := if h.currentPlayers.Some?
                   then s.(currentPlayers :=
                     ClampInteger(Num(h.currentPlayers.value), s.currentPlayers, 0, s.maxPlayers)) else s;
    if h.maxPlayers.None? then counted else
      var maxPlayers := ClampInteger(Num(h.maxPlayers.value), s.maxPlayers, 1, MAX_ROOM);
      counted.(maxPlayers := maxPlayers, currentPlayers := ClampInteger(Num(counted.currentPlayers), 0, 0, maxPlayers))
  }

  function Placed(s: Server, h: Heartbeat): Server {
    s.(roomId := if h.roomId != "" then h.roomId else s.roomId,
       region := if h.region != "" then h.region else s.region,
       zone := if h.zone != "" then h.zone else s.zone)
  }

  /** A reserved or claimed empty server that reports warm keeps its status. */
  function HeartbeatStatus(s: Server, previous: Status, h: Heartbeat): Status {
    var incoming := if h.status.Some? then h.status.value else previous;
    if (previous.Reserved? || previous.Claimed?) && s.roomId != "" && s.currentPlayers == 0 && incoming.Warm?
    then previous
    else ResolveServerStatus(incoming, s.currentPlayers, s.maxPlayers)
  }

  function WithHeartbeatRooms(s: Server, h: Heartbeat): Server {
    if h.rooms.None? then s else
      var p := NormalizePrimaryRoomList(s.roomId, NormalizeHeartbeatRoomList(h.rooms.value));
      s.(roomId := if p.primaryRoomId != "" then p.primaryRoomId else s.roomId,
         rooms := Some(p.rooms), metadataRooms := Some(p.rooms))
  }

  function WithHeartbeat(s: Server, h: Heartbeat, now: int): Server {
    var counted := HeartbeatCounts(Placed(s, h), h);
    var reported := counted.(status := HeartbeatStatus(counted, s.status, h), updatedAt := now);
    Recompute(WithHeartbeatRooms(reported, h))
  }

  // ---- warm servers ----

  predicate WarmAndFree(s: Server, region: string, zone: string) {
    && s.status.Warm? && s.currentPlayers == 0 && s.roomId == "" && s.assignedRooms.keys == []
    && (region != "" ==> s.region == region) && (zone != "" ==> s.zone == zone)
  }

  /** The records of the registry in its order. */
  function ListServers(reg: Registry): (list: seq<Server>)
    ensures |list| == |reg.keys|
    ensures forall i | 0 <= i < |list| :: list[i] == reg.vals[reg.keys[i]]
  {
    seq(|reg.keys|, i requires 0 <= i < |reg.keys| => reg.vals[reg.keys[i]])
  }

  /** The claimable server that has waited longest; the first listed when several have. */
  function PickWarm(list: seq<Server>, region: string, zone: string, serverId: string): (found: Option<Server>)
    ensures found.Some? ==>
      found.value in list && WarmAndFree(found.value, region, zone)
        && (serverId != "" ==> found.value.serverId == serverId)
    ensures found.Some? ==>
      forall s | s in list && WarmAndFree(s, region, zone) && (serverId != "" ==> s.serverId == serverId) ::
              found.value.updatedAt <= s.updatedAt
    ensures found.None? ==>
      forall s | s in list && WarmAndFree(s, region, zone) :: serverId != "" && s.serverId != serverId
  {
    if list == [] then None else
      var init, last := PickWarm(list[..|list| - 1], region, zone, serverId), list[|list| - 1];
      assert list == list[..|list| - 1] + [last];
      if WarmAndFree(last, region, zone) && (serverId == "" || last.serverId == serverId)
         && (init.None? || last.updatedAt < init.value.updatedAt)
      then Some(last) else init
  }

  function Claim(s: Server, roomId: string, roomMaxPlayers: int, now: int): Server {
    var size := ClampInteger(Num(roomMaxPlayers), s.maxPlayers, 1, MAX_ROOM);
    Recompute(s.(roomId := roomId, assignedRooms := Put(ClampRooms(s.assignedRooms, 1, MAX_ROOM), roomId, size),
                 status := Reserved, updatedAt := now))
  }

  function ClaimReply(reg: Registry, req: ClaimRequest, now: int): Reply {
    var size := ClampInteger(req.roomMaxPlayers, 0, 1, MAX_ROOM);
    var found := PickWarm(ListServers(reg), req.region, req.zone, req.serverId);
    if req.roomId == "" then Failure("room_id_required")
    else if found.None? then Failure("warm_server_not_available")
    else if size > found.value.maxPlayers then Failure("room_capacity_exceeds_server_capacity")
    else Success(Claim(found.value, req.roomId, size, now))
  }

  // ---- room reservations ----

  function Assign(s: Server, roomId: string, roomMaxPlayers: int, now: int): Server {
    var size := ClampInteger(Num(roomMaxPlayers), s.maxPlayers, 1, MAX_ROOM);
    Recompute(s.(assignedRooms := Put(s.assignedRooms, roomId, size),
                 roomId := if s.roomId == "" then roomId else s.roomId)).(updatedAt := now)
  }

  function AssignReply(reg: Registry, req: AssignRequest, now: int): Reply {
    var size := ClampInteger(req.roomMaxPlayers, 0, 1, MAX_ROOM);
    if req.serverId == "" then Failure("server_id_required")
    else if req.roomId == "" then Failure("room_id_required")
    else if req.serverId !in reg.vals then Failure("server_not_found")
    else
      var s := Recompute(reg.vals[req.serverId]);
      if size > AvailableReservedSlotsForRoom(s, req.roomId) then Failure("server_reserved_capacity_not_enough")
      else Success(Assign(s, req.roomId, size, now))
  }

  /** A failed assignment still recomputes the capacity of the server it looked at. */
  function Assigned(reg: Registry, req: AssignRequest, now: int): Registry {
    var reply := AssignReply(reg, req, now);
    if reply.Success? then Put(reg, req.serverId, reply.server)
    else if reply.reason == "server_reserved_capacity_not_enough" && req.serverId in reg.vals
    then Put(reg, req.serverId, Recompute(reg.vals[req.serverId]))
    else reg
  }

  function ClaimedFor(reg: Registry, req: ClaimRequest, now: int): Registry {
    var reply := ClaimReply(reg, req, now);
    if reply.Success? then Put(reg, reply.server.serverId, reply.server) else reg
  }

  // ---- cleanup of empty rooms ----

  function HeartbeatRoomsOf(s: Server): seq<HeartbeatRoom> {
    var listed := if s.rooms.Some? then s.rooms else s.metadataRooms;
    NormalizeHeartbeatRoomList(if listed.Some? then listed.value else [])
  }

  /** Listed rooms by id; a room listed twice counts as its last entry. */
  function ById(rooms: seq<HeartbeatRoom>): JsMap<string, HeartbeatRoom> {
    if rooms == [] then Empty() else
      Put(ById(rooms[..|rooms| - 1]), rooms[|rooms| - 1].roomId, rooms[|rooms| - 1])
  }

  /** Adds the reserved rooms that no heartbeat listed, without players. */
  function AddAssigned(
    known: JsMap<string, HeartbeatRoom>, keys: seq<string>, roomId: string): JsMap<string, HeartbeatRoom> {
    if keys == [] then known else
      var prev, k := AddAssigned(known, keys[..|keys| - 1], roomId), keys[|keys| - 1];
      if k in prev.vals then prev else Put(prev, k, HeartbeatRoom(k, 0, k == roomId))
  }

  function KnownRooms(s: Server): JsMap<string, HeartbeatRoom> {
    AddAssigned(ById(HeartbeatRoomsOf(s)), s.assignedRooms.keys, s.roomId)
  }

  function EmptyRooms(s: Server, active: set<string>): set<string> {
    set k | k in KnownRooms(s).vals && k !in active && KnownRooms(s).vals[k].currentPlayers <= 0
  }

  function RoomValues(rooms: JsMap<string, HeartbeatRoom>): seq<HeartbeatRoom> {
    seq(|rooms.keys|, i requires 0 <= i < |rooms.keys| => rooms.vals[rooms.keys[i]])
  }

  function WithoutRooms(s: Server, removed: set<string>, now: int): Server {
    var known := KnownRooms(s);
    var left := Restrict(s.assignedRooms, s.assignedRooms.vals.Keys - removed);
    var p := NormalizePrimaryRoomList(s.roomId, RoomValues(Restrict(known, known.vals.Keys - removed)));
    var derived := WithReserved(s.(assignedRooms := left), RoomTotal(ClampRooms(left, 0, s.maxPlayers)));
    derived.(roomId := p.primaryRoomId, rooms := Some(p.rooms), metadataRooms := Some(p.rooms), updatedAt := now)
  }

  function CleanedServer(s: Server, active: set<string>, now: int): Server {
    var removed := EmptyRooms(s, active);
    if removed == {} then s else WithoutRooms(s, removed, now)
  }

  function CleanedUp(reg: Registry, active: set<string>, now: int): Registry {
    RawMap(reg.keys, map k | k in reg.vals :: CleanedServer(reg.vals[k], active, now))
  }

  // ---- statistics ----

  datatype Totals = Totals(servers: nat, players: int, capacity: int, reservedPlayers: int, availableReservedSlots: int)

  /** The totals over the records of some servers. */
  function TotalsOver(keys: seq<string>, vals: map<string, Server>): Totals
    requires forall k | k in keys :: k in vals
  {
    if keys == [] then Totals(0, 0, 0, 0, 0) else
      var t, s := TotalsOver(keys[..|keys| - 1], vals), vals[keys[|keys| - 1]];
      Totals(t.servers + 1, t.players + s.currentPlayers, t.capacity + s.maxPlayers,
        t.reservedPlayers + s.reservedPlayers, t.availableReservedSlots + s.availableReservedSlots)
  }

  /** The registry with the capacity of every server derived again. */
  function Refreshed(reg: Registry): Registry {
    RawMap(reg.keys, map k | k in reg.vals :: Recompute(reg.vals[k]))
  }

  class GameServerRegistry {
    const defaults: Defaults
    var serversById: Registry

    constructor (defaults: Defaults)
      ensures this.defaults == defaults && serversById == Empty()
    {
      this.defaults := defaults;
      serversById := Empty();
    }

    method RegisterServer(req: RegisterRequest, now: int) returns (reply: Reply)
      modifies this
      ensures serversById == Registered(old(serversById), req, defaults, now)
      ensures reply.Success? <==> ValidRegisterRequest(req)
      ensures reply.Success? ==> reply.server == serversById.vals[req.serverId]
    {
      if req.serverId == "" {
        return Failure("serverId is required.");
      }
      if !req.port.Absent? && (!req.port.Num? || req.port.n < 1 || req.port.n > 65535) {
        return Failure("port must be between 1 and 65535.");
      }
      if !req.maxPlayers.Absent? && (!req.maxPlayers.Num? || req.maxPlayers.n < 1) {
        return Failure("maxPlayers must be at least 1.");
      }
      if !req.currentPlayers.Absent? && (!req.currentPlayers.Num? || req.currentPlayers.n < 0) {
        return Failure("currentPlayers must be zero or greater.");
      }
      var record := CreateGameServerRecord(req, defaults, now);
      if req.serverId in serversById.vals {
        var existing := serversById.vals[req.serverId];
        record := record.(assignedRooms := Merge(existing.assignedRooms, record.assignedRooms));
      }
      record := RecomputeServerReservedCapacity(record);
      serversById := Put(serversById, req.serverId, record);
      return Success(record);
    }

    method RecomputeServerReservedCapacity(record: Server) returns (r: Server)
      ensures r == Recompute(record)
    {
      r := record.(assignedRooms := ClampRooms(record.assignedRooms, 1, MAX_ROOM));
      var reserved := CalculateReservedPlayers(r.assignedRooms, MAX_ROOM);
      r := r.(reservedPlayers := reserved);
      r := r.(availableReservedSlots := Max(0, r.maxPlayers - r.reservedPlayers));
    }

    /** Adds up the room sizes, each clamped to `cap`. */
    method CalculateReservedPlayers(rooms: Rooms, cap: int) returns (total: int)
      ensures total == RoomTotal(ClampRooms(rooms, 0, cap))
    {
      ghost var clamped := ClampRooms(rooms, 0, cap);
      total := 0;
      for i := 0 to |rooms.keys|
        invariant total == SumOver(rooms.keys[..i], clamped.vals)
      {
        assert rooms.keys[..i + 1][..i] == rooms.keys[..i];
        total := total + ClampInteger(Num(rooms.vals[rooms.keys[i]]), 0, 0, cap);
      }
      assert rooms.keys[..|rooms.keys|] == rooms.keys;
    }

    method UnregisterServer(serverId: string) returns (removed: bool)
      modifies this
      ensures serversById == Delete(old(serversById), serverId)
      ensures removed <==> serverId in old(serversById).vals
    {
      removed := serverId in serversById.vals;
      serversById := Delete(serversById, serverId);
    }

    method UpdateServerStatus(serverId: string, status: Status, now: int) returns (found: bool)
      modifies this
      ensures found <==> serverId in old(serversById).vals
      ensures serversById == if found
        then Put(old(serversById), serverId, WithStatus(old(serversById).vals[serverId], status, now))
                             else old(serversById)
    {
      if serverId !in serversById.vals {
        return false;
      }
      var record := serversById.vals[serverId];
      record := record.(status := ResolveServerStatus(status, record.currentPlayers, record.maxPlayers));
      record := record.(updatedAt := now);
      serversById := Put(serversById, serverId, record);
      return true;
    }

    /** Marks a server offline or unhealthy without resolving the status. */
    method MarkServer(serverId: string, status: Status, now: int) returns (found: bool)
      requires status == Offline || status == Unhealthy
      modifies this
      ensures found <==> serverId in old(serversById).vals
      ensures serversById == if found
        then Put(old(serversById), serverId, Marked(old(serversById).vals[serverId], status, now))
                             else old(serversById)
    {
      if serverId !in serversById.vals {
        return false;
      }
      var record := serversById.vals[serverId];
      record := record.(status := status);
      record := record.(updatedAt := now);
      serversById := Put(serversById, serverId, record);
      return true;
    }

    method UpdatePlayerCount(serverId: string, currentPlayers: Raw, now: int) returns (found: bool)
      modifies this
      ensures found <==> serverId in old(serversById).vals
      ensures serversById == if found
        then Put(old(serversById), serverId, WithPlayerCount(old(serversById).vals[serverId], currentPlayers, now))
                             else old(serversById)
    {
      if serverId !in serversById.vals {
        return false;
      }
      var record := serversById.vals[serverId];
      record := record.(currentPlayers := ClampInteger(currentPlayers, record.currentPlayers, 0, record.maxPlayers));
      record := record.(status := ResolveServerStatus(record.status, record.currentPlayers, record.maxPlayers));
      record := record.(updatedAt := now);
      serversById := Put(serversById, serverId, record);
      return true;
    }

    method UpdateHeartbeat(serverId: string, h: Heartbeat, now: int) returns (found: bool)
      modifies this
      ensures found <==> serverId in old(serversById).vals
      ensures serversById == if found
        then Put(old(serversById), serverId, WithHeartbeat(old(serversById).vals[serverId], h, now))
                             else old(serversById)
    {
      if serverId !in serversById.vals {
        return false;
      }
      var record := ApplyHeartbeat(serversById.vals[serverId], h, now);
      serversById := Put(serversById, serverId, record);
      return true;
    }

    method ApplyHeartbeat(s: Server, h: Heartbeat, now: int) returns (record: Server)
      ensures record == WithHeartbeat(s, h, now)
    {
      hide Recompute, NormalizePrimaryRoomList, NormalizeHeartbeatRoomList, ResolveServerStatus, HeartbeatCounts,
        Placed;
      record := ApplyHeartbeatCounts(s, h);
      var incomingStatus := if h.status.Some? then h.status.value else s.status;
      var preserve := (s.status.Reserved? || s.status.Claimed?) && record.roomId != ""
                      && record.currentPlayers == 0 && incomingStatus.Warm?;
      if preserve {
        record := record.(status := s.status, updatedAt := now);
      } else {
        record := record.(status :=
          ResolveServerStatus(incomingStatus, record.currentPlayers, record.maxPlayers), updatedAt := now);
      }
      if h.rooms.Some? {
        var primary := NormalizePrimaryRoomList(record.roomId, NormalizeHeartbeatRoomList(h.rooms.value));
        if primary.primaryRoomId != "" {
          record := record.(roomId := primary.primaryRoomId);
        }
        record := record.(rooms := Some(primary.rooms), metadataRooms := Some(primary.rooms));
      }
      record := RecomputeServerReservedCapacity(record);
    }

    method ApplyHeartbeatCounts(s: Server, h: Heartbeat) returns (record: Server)
      ensures record == HeartbeatCounts(Placed(s, h), h)
    {
      record := s;
      if h.roomId != "" { record := record.(roomId := h.roomId); }
      if h.region != "" { record := record.(region := h.region); }
      if h.zone != "" { record := record.(zone := h.zone); }
      assert record == Placed(s, h);
      if h.currentPlayers.Some? {
        record := record.(currentPlayers :=
          ClampInteger(Num(h.currentPlayers.value), record.currentPlayers, 0, record.maxPlayers));
      }
      if h.maxPlayers.Some? {
        record := record.(maxPlayers := ClampInteger(Num(h.maxPlayers.value), record.maxPlayers, 1, MAX_ROOM));
        record := record.(currentPlayers := ClampInteger(Num(record.currentPlayers), 0, 0, record.maxPlayers));
      }
    }

    method ClaimWarmServerForRoom(req: ClaimRequest, now: int) returns (reply: Reply)
      modifies this
      ensures reply == ClaimReply(old(serversById), req, now)
      ensures serversById == ClaimedFor(old(serversById), req, now)
    {
      var roomMaxPlayers := ClampInteger(req.roomMaxPlayers, 0, 1, MAX_ROOM);
      if req.roomId == "" {
        return Failure("room_id_required");
      }
      var selected := PickWarm(ListServers(serversById), req.region, req.zone, req.serverId);
      if selected.None? {
        return Failure("warm_server_not_available");
      }
      var record := selected.value;
      if roomMaxPlayers > record.maxPlayers {
        return Failure("room_capacity_exceeds_server_capacity");
      }
      record := record.(roomId := req.roomId, assignedRooms := ClampRooms(record.assignedRooms, 1, MAX_ROOM));
      var size := ClampInteger(Num(roomMaxPlayers), record.maxPlayers, 1, MAX_ROOM);
      record := record.(assignedRooms := Put(record.assignedRooms, req.roomId, size));
      record := record.(status := Reserved, updatedAt := now);
      record := RecomputeServerReservedCapacity(record);
      serversById := Put(serversById, record.serverId, record);
      return Success(record);
    }

    method AssignRoomToServer(req: AssignRequest, now: int) returns (reply: Reply)
      modifies this
      ensures reply == AssignReply(old(serversById), req, now)
      ensures serversById == Assigned(old(serversById), req, now)
    {
      var roomMaxPlayers := ClampInteger(req.roomMaxPlayers, 0, 1, MAX_ROOM);
      if req.serverId == "" {
        return Failure("server_id_required");
      }
      if req.roomId == "" {
        return Failure("room_id_required");
      }
      if req.serverId !in serversById.vals {
        return Failure("server_not_found");
      }
      ghost var before := serversById;
      var record := RecomputeServerReservedCapacity(serversById.vals[req.serverId]);
      serversById := Put(serversById, req.serverId, record);
      if roomMaxPlayers > AvailableReservedSlotsForRoom(record, req.roomId) {
        return Failure("server_reserved_capacity_not_enough");
      }
      var size := ClampInteger(Num(roomMaxPlayers), record.maxPlayers, 1, MAX_ROOM);
      record := record.(assignedRooms := Put(record.assignedRooms, req.roomId, size));
      if record.roomId == "" {
        record := record.(roomId := req.roomId);
      }
      record := RecomputeServerReservedCapacity(record);
      record := record.(updatedAt := now);
      PutTwice(before, req.serverId, serversById.vals[req.serverId], record);
      serversById := Put(serversById, req.serverId, record);
      return Success(record);
    }

    method CleanupEmptyRoomReservations(active: set<string>, now: int)
      modifies this
      ensures serversById == CleanedUp(old(serversById), active, now)
    {
      hide CleanedServer, CleanedFirst, CleanedUp, Put;
      var before := serversById;
      CleanedNone(before, active, now);
      for i := 0 to |before.keys|
        invariant serversById == CleanedFirst(before, i, active, now)
      {
        CleanedStep(before, i, active, now);
        var record := CleanupServer(before.vals[before.keys[i]], active, now);
        serversById := Put(serversById, before.keys[i], record);
      }
      CleanedAll(before, active, now);
    }

    method CleanupServer(s: Server, active: set<string>, now: int) returns (r: Server)
      ensures r == CleanedServer(s, active, now)
    {
      hide KnownRooms, NormalizePrimaryRoomList, RoomTotal, ClampRooms, Restrict;
      var known := CollectKnownRooms(s);
      var left, removed := RemoveEmptyRooms(known, s.assignedRooms, active);
      assert removed == EmptyRooms(s, active);
      if removed == {} {
        return s;
      }
      var nextRooms := RoomValues(Restrict(known, known.vals.Keys - removed));
      var reserved := CalculateReservedPlayers(left, s.maxPlayers);
      var primary := NormalizePrimaryRoomList(s.roomId, nextRooms);
      r := s.(assignedRooms := left, reservedPlayers := reserved);
      r := r.(availableReservedSlots := Max(0, r.maxPlayers - reserved));
      r := r.(roomId := primary.primaryRoomId, rooms := Some(primary.rooms));
      r := r.(metadataRooms := Some(primary.rooms), updatedAt := now);
    }

    /** Deletes the reservations of the known rooms that are neither active nor occupied. */
    method RemoveEmptyRooms(known: JsMap<string, HeartbeatRoom>, rooms: Rooms, active: set<string>)
      returns (left: Rooms, removed: set<string>)
      ensures removed == EmptyAmong(known, |known.keys|, active)
      ensures left == Restrict(rooms, rooms.vals.Keys - removed)
    {
      left, removed := rooms, {};
      RestrictAll(rooms, rooms.vals.Keys - removed);
      for i := 0 to |known.keys|
        invariant removed == EmptyAmong(known, i, active)
        invariant left == Restrict(rooms, rooms.vals.Keys - removed)
      {
        var id := known.keys[i];
        EmptyAmongStep(known, i, active);
        if id in active || known.vals[id].currentPlayers > 0 {
          continue;
        }
        DeleteRestricted(rooms, rooms.vals.Keys - removed, id);
        assert rooms.vals.Keys - removed - {id} == rooms.vals.Keys - (removed + {id});
        if id in left.vals {
          left := Delete(left, id);
        } else {
          assert rooms.vals.Keys - removed == rooms.vals.Keys - (removed + {id});
        }
        removed := removed + {id};
      }
    }

    method CollectKnownRooms(s: Server) returns (known: JsMap<string, HeartbeatRoom>)
      ensures known == KnownRooms(s)
    {
      hide HeartbeatRoomsOf, Put;
      var listed := HeartbeatRoomsOf(s);
      known := Empty();
      for i := 0 to |listed|
        invariant known == ById(listed[..i])
      {
        assert listed[..i + 1][..i] == listed[..i];
        known := Put(known, listed[i].roomId, listed[i]);
      }
      assert listed[..|listed|] == listed;
      known := AddAssignedRooms(known, s.assignedRooms.keys, s.roomId);
    }

    method AddAssignedRooms(listed: JsMap<string, HeartbeatRoom>, keys: seq<string>, roomId: string)
      returns (known: JsMap<string, HeartbeatRoom>)
      ensures known == AddAssigned(listed, keys, roomId)
    {
      hide Put;
      known := listed;
      for i := 0 to |keys|
        invariant known == AddAssigned(listed, keys[..i], roomId)
      {
        assert keys[..i + 1][..i] == keys[..i];
        if keys[i] !in known.vals {
          known := Put(known, keys[i], HeartbeatRoom(keys[i], 0, keys[i] == roomId));
        }
      }
      assert keys[..|keys|] == keys;
    }

    /** The totals; reading them derives the capacity of every record again. */
    method GetStats() returns (totals: Totals)
      modifies this
      ensures serversById == Refreshed(old(serversById))
      ensures totals == TotalsOver(serversById.keys, serversById.vals)
    {
      hide Recompute, Put, RefreshedFirst;
      var before := serversById;
      ghost var after := Refreshed(before);
      totals := Totals(0, 0, 0, 0, 0);
      RefreshedNone(before);
      for i := 0 to |before.keys|
        invariant serversById == RefreshedFirst(before, i)
        invariant totals == TotalsOver(before.keys[..i], after.vals)
      {
        var key := before.keys[i];
        RefreshedStep(before, i);
        assert before.keys[..i + 1][..i] == before.keys[..i];
        var record := RecomputeServerReservedCapacity(before.vals[key]);
        serversById := Put(serversById, key, record);
        totals := Totals(
          totals.servers + 1, totals.players + record.currentPlayers, totals.capacity + record.maxPlayers,
          totals.reservedPlayers + record.reservedPlayers,
          totals.availableReservedSlots + record.availableReservedSlots);
      }
      RefreshedAll(before);
      assert before.keys[..|before.keys|] == before.keys;
    }

    method Clear() returns (count: nat)
      modifies this
      ensures serversById == Empty() && count == |old(serversById).keys|
    {
      count := |serversById.keys|;
      serversById := Empty();
    }
  }

  /** The registry when its first `i` servers have been cleaned. */
  function CleanedFirst(reg: Registry, i: nat, active: set<string>, now: int): Registry
    requires i <= |reg.keys|
  {
    RawMap(reg.keys, map k | k in reg.vals ::
      if k in reg.keys[..i] then CleanedServer(reg.vals[k], active, now) else reg.vals[k])
  }

  lemma CleanedNone(reg: Registry, active: set<string>, now: int)
    ensures CleanedFirst(reg, 0, active, now) == reg
  {
    hide CleanedServer;
  }

  lemma CleanedStep(reg: Registry, i: nat, active: set<string>, now: int)
    requires i < |reg.keys|
    ensures var key := reg.keys[i];
            CleanedFirst(reg, i + 1, active, now)
            == Put(CleanedFirst(reg, i, active, now), key, CleanedServer(reg.vals[key], active, now))
  {
    hide CleanedServer;
    assert reg.keys[..i + 1] == reg.keys[..i] + [reg.keys[i]];
  }

  lemma CleanedAll(reg: Registry, active: set<string>, now: int)
    ensures CleanedFirst(reg, |reg.keys|, active, now) == CleanedUp(reg, active, now)
  {
    hide CleanedServer;
    assert reg.keys[..|reg.keys|] == reg.keys;
  }

  /** The registry when the capacity of its first `i` servers has been derived again. */
  function RefreshedFirst(reg: Registry, i: nat): Registry
    requires i <= |reg.keys|
  {
    RawMap(reg.keys, map k | k in reg.vals :: if k in reg.keys[..i] then Recompute(reg.vals[k]) else reg.vals[k])
  }

  lemma RefreshedNone(reg: Registry)
    ensures RefreshedFirst(reg, 0) == reg
  {
    hide Recompute;
  }

  lemma RefreshedStep(reg: Registry, i: nat)
    requires i < |reg.keys|
    ensures var key := reg.keys[i];
            RefreshedFirst(reg, i + 1) == Put(RefreshedFirst(reg, i), key, Recompute(reg.vals[key]))
  {
    hide Recompute;
    assert reg.keys[..i + 1] == reg.keys[..i] + [reg.keys[i]];
  }

  lemma RefreshedAll(reg: Registry)
    ensures RefreshedFirst(reg, |reg.keys|) == Refreshed(reg)
  {
    hide Recompute;
    assert reg.keys[..|reg.keys|] == reg.keys;
  }

  /** The rooms to remove among the first `i` known ones. */
  function EmptyAmong(known: JsMap<string, HeartbeatRoom>, i: nat, active: set<string>): set<string>
    requires i <= |known.keys|
  {
    set k | k in known.keys[..i] && k !in active && known.vals[k].currentPlayers <= 0
  }

  lemma EmptyAmongStep(known: JsMap<string, HeartbeatRoom>, i: nat, active: set<string>)
    requires i < |known.keys|
    ensures var id := known.keys[i];
            EmptyAmong(known, i + 1, active)
              == EmptyAmong(known, i, active) + (if id in active || known.vals[id].currentPlayers > 0 then {} else {id})
  {
    assert known.keys[..i + 1] == known.keys[..i] + [known.keys[i]];
  }
}
