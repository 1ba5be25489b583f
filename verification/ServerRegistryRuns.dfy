/** What holds of the registry after every run of its operations. */
module ServerRegistryRuns {
  import opened Common
  import opened JsMaps
  import opened ServerRecord
  import opened ServerRegistry

  datatype Op =
    | RegisterOp(register: RegisterRequest, now: int)
    | HeartbeatOp(serverId: string, heartbeat: Heartbeat, now: int)
    | StatusOp(serverId: string, status: Status, now: int)
    | MarkOp(serverId: string, status: Status, now: int)
    | CountOp(serverId: string, count: Raw, now: int)
    | AssignOp(assign: AssignRequest, now: int)
    | ClaimOp(claim: ClaimRequest, now: int)
    | UnregisterOp(serverId: string)
    | CleanupOp(active: set<string>, now: int)
    | StatsOp
    | ClearOp

  /** The operations that may take a reservation away. */
  predicate Releasing(op: Op) {
    op.UnregisterOp? || op.CleanupOp? || op.ClearOp?
  }

  function Apply(op: Op, reg: Registry, d: Defaults): Registry {
    match op
    case RegisterOp(req, now) => Registered(reg, req, d, now)
    case HeartbeatOp(id, h, now) => if id in reg.vals then Put(reg, id, WithHeartbeat(reg.vals[id], h, now)) else reg
    case StatusOp(id, status, now) =>
      if id in reg.vals then Put(reg, id, WithStatus(reg.vals[id], status, now)) else reg
    case MarkOp(id, status, now) => if id in reg.vals then Put(reg, id, Marked(reg.vals[id], status, now)) else reg
    case CountOp(id, count, now) =>
      if id in reg.vals then Put(reg, id, WithPlayerCount(reg.vals[id], count, now)) else reg
    case AssignOp(req, now) => Assigned(reg, req, now)
    case ClaimOp(req, now) => ClaimedFor(reg, req, now)
    case UnregisterOp(id) => Delete(reg, id)
    case CleanupOp(active, now) => CleanedUp(reg, active, now)
    case StatsOp => Refreshed(reg)
    case ClearOp => Empty()
  }

  /** The registry after the first `n` operations. */
  function After(ops: seq<Op>, d: Defaults, n: nat): Registry
    requires n <= |ops|
  {
    if n == 0 then Empty() else Apply(ops[n - 1], After(ops, d, n - 1), d)
  }

  // ---- derived capacity ----

  ghost predicate WellSized(s: Server) {
    1 <= s.maxPlayers <= MAX_ROOM && 0 <= s.currentPlayers <= s.maxPlayers && RoomSizesOk(s.assignedRooms)
  }

  ghost predicate GoodServer(s: Server, id: string) {
    && s.serverId == id && WellSized(s)
    && s.availableReservedSlots == Max(0, s.maxPlayers - RoomTotal(s.assignedRooms))
  }

  ghost predicate Good(reg: Registry) {
    "" !in reg.vals && forall id | id in reg.vals :: GoodServer(reg.vals[id], id)
  }

  /** Recomputing a server derives its free slots from the plain room total and changes nothing else. */
  lemma RecomputeDerives(s: Server)
    requires WellSized(s)
    ensures Recompute(s) == WithReserved(s, RoomTotal(s.assignedRooms))
    ensures GoodServer(Recompute(s), s.serverId)
  {
    FreeSlotsAgree(s.assignedRooms, s.maxPlayers);
  }

  lemma CreatedWellSized(req: RegisterRequest, d: Defaults, now: int)
    ensures WellSized(CreateGameServerRecord(req, d, now))
    ensures CreateGameServerRecord(req, d, now).serverId == req.serverId
  {
    hide ResolveServerStatus, RoomTotal;
  }

  lemma MergedWellSized(record: Server, older: Rooms)
    requires WellSized(record) && RoomSizesOk(older)
    ensures WellSized(record.(assignedRooms := Merge(older, record.assignedRooms)))
  {
  }

  lemma RegisteredGood(reg: Registry, req: RegisterRequest, d: Defaults, now: int)
    requires Good(reg)
    ensures Good(Registered(reg, req, d, now))
  {
    hide CreateGameServerRecord, Recompute, RoomTotal, RoomSizesOk, Merge;
    if ValidRegisterRequest(req) {
      var record := CreateGameServerRecord(req, d, now);
      CreatedWellSized(req, d, now);
      RecomputeDerives(record);
      if req.serverId in reg.vals {
        MergedWellSized(record, reg.vals[req.serverId].assignedRooms);
        RecomputeDerives(record.(assignedRooms := Merge(reg.vals[req.serverId].assignedRooms, record.assignedRooms)));
      }
    }
  }

  lemma HeartbeatGood(s: Server, h: Heartbeat, now: int)
    requires WellSized(s)
    ensures GoodServer(WithHeartbeat(s, h, now), s.serverId)
    ensures WithHeartbeat(s, h, now).assignedRooms == s.assignedRooms
  {
    var counted := HeartbeatCounts(Placed(s, h), h);
    assert WellSized(counted) && counted.assignedRooms == s.assignedRooms;
    var reported := counted.(status := HeartbeatStatus(counted, s.status, h), updatedAt := now);
    RecomputeDerives(WithHeartbeatRooms(reported, h));
  }

  /** What a successful assignment stores. */
  lemma AssignStores(s: Server, roomId: string, size: int, now: int)
    requires WellSized(s) && roomId != ""
    ensures var r := Assign(s, roomId, size, now);
            && GoodServer(r, s.serverId) && r.maxPlayers == s.maxPlayers
            && r.assignedRooms == Put(s.assignedRooms, roomId, ClampInteger(Num(size), 0, 1, MAX_ROOM))
  {
    hide RoomTotal, Recompute, ClampRooms, WithReserved;
    var rooms := Put(s.assignedRooms, roomId, ClampInteger(Num(size), s.maxPlayers, 1, MAX_ROOM));
    PutSizesOk(s.assignedRooms, roomId, size, s.maxPlayers);
    var stored := s.(assignedRooms := rooms, roomId := if s.roomId == "" then roomId else s.roomId);
    hide RoomSizesOk, Put;
    ReservedIsGood(stored, now);
  }

  lemma PutSizesOk(rooms: Rooms, roomId: string, size: int, fallback: int)
    requires RoomSizesOk(rooms) && roomId != ""
    ensures RoomSizesOk(Put(rooms, roomId, ClampInteger(Num(size), fallback, 1, MAX_ROOM)))
  {
  }

  /** Deriving the capacity again leaves the rooms, the size, the place and the status. */
  lemma ReservedIsGood(stored: Server, now: int)
    requires WellSized(stored)
    ensures var r := Recompute(stored);
            && GoodServer(r, stored.serverId) && GoodServer(r.(updatedAt := now), stored.serverId)
            && r.assignedRooms == stored.assignedRooms && r.maxPlayers == stored.maxPlayers
            && r.roomId == stored.roomId && r.status == stored.status
  {
    hide RoomTotal, Recompute;
    RecomputeDerives(stored);
  }

  /** What a successful claim stores. */
  lemma ClaimStores(s: Server, roomId: string, size: int, now: int)
    requires WellSized(s) && roomId != ""
    ensures var r := Claim(s, roomId, size, now);
            && GoodServer(r, s.serverId) && r.maxPlayers == s.maxPlayers && r.roomId == roomId && r.status == Reserved
            && r.assignedRooms == Put(s.assignedRooms, roomId, ClampInteger(Num(size), 0, 1, MAX_ROOM))
  {
    hide RoomTotal, Recompute, ClampRooms, WithReserved;
    FreeSlotsAgree(s.assignedRooms, s.maxPlayers);
    var rooms := Put(s.assignedRooms, roomId, ClampInteger(Num(size), s.maxPlayers, 1, MAX_ROOM));
    PutSizesOk(s.assignedRooms, roomId, size, s.maxPlayers);
    hide RoomSizesOk, Put;
    ReservedIsGood(s.(roomId := roomId, assignedRooms := rooms, status := Reserved, updatedAt := now), now);
  }

  /** A claim that names a room takes the server it picks when that is large enough. */
  lemma ClaimReplyIs(reg: Registry, req: ClaimRequest, now: int)
    ensures var found := PickWarm(ListServers(reg), req.region, req.zone, req.serverId);
            var size := ClampInteger(req.roomMaxPlayers, 0, 1, MAX_ROOM);
            var reply := ClaimReply(reg, req, now);
            && (reply.Success? <==> req.roomId != "" && found.Some? && size <= found.value.maxPlayers)
            && (reply.Success? ==> reply.server == Claim(found.value, req.roomId, size, now))
  {
    hide PickWarm, ListServers, Claim;
  }

  /** The record that a claim takes, apart from its rooms. */
  lemma ClaimFields(s: Server, roomId: string, size: int, now: int)
    ensures var r := Claim(s, roomId, size, now);
            && r.serverId == s.serverId && r.roomId == roomId && r.status == Reserved && r.updatedAt == now
            && r.maxPlayers == s.maxPlayers && r.currentPlayers == s.currentPlayers
            && r.region == s.region && r.zone == s.zone && r.rooms == s.rooms && r.metadataRooms == s.metadataRooms
  {
    hide RoomTotal, ClampRooms;
  }

  /** The server a claim picks is registered under its own id. */
  lemma PickedIsRegistered(reg: Registry, region: string, zone: string, serverId: string)
    requires Good(reg)
    ensures var found := PickWarm(ListServers(reg), region, zone, serverId);
            found.Some? ==> found.value.serverId in reg.vals && reg.vals[found.value.serverId] == found.value
  {
    var list := ListServers(reg);
    var found := PickWarm(list, region, zone, serverId);
    if found.Some? {
      var i :| 0 <= i < |list| && list[i] == found.value;
      assert reg.keys[i] in reg.vals;
    }
  }

  lemma CleanedGood(s: Server, active: set<string>, now: int, id: string)
    requires GoodServer(s, id)
    ensures GoodServer(CleanedServer(s, active, now), id)
  {
    hide RoomTotal, ClampRooms, KnownRooms, NormalizePrimaryRoomList, EmptyRooms;
    var removed := EmptyRooms(s, active);
    var left := Restrict(s.assignedRooms, s.assignedRooms.vals.Keys - removed);
    FreeSlotsAgree(left, s.maxPlayers);
  }

  lemma CleanedUpGood(reg: Registry, active: set<string>, now: int)
    requires Good(reg)
    ensures Good(CleanedUp(reg, active, now))
  {
    hide CleanedServer, GoodServer;
    forall id | id in reg.vals ensures GoodServer(CleanedServer(reg.vals[id], active, now), id) {
      CleanedGood(reg.vals[id], active, now, id);
    }
  }

  /** Deriving again keeps every room and makes the reserved players the plain sum of the room sizes. */
  lemma RefreshedGood(reg: Registry)
    requires Good(reg)
    ensures Good(Refreshed(reg))
    ensures forall id | id in reg.vals ::
      Refreshed(reg).vals[id] == WithReserved(reg.vals[id], RoomTotal(reg.vals[id].assignedRooms))
  {
    hide Recompute, RoomTotal, WithReserved;
    forall id | id in reg.vals
      ensures GoodServer(Recompute(reg.vals[id]), id)
      ensures Recompute(reg.vals[id]) == WithReserved(reg.vals[id], RoomTotal(reg.vals[id].assignedRooms))
    {
      RecomputeDerives(reg.vals[id]);
    }
    hide GoodServer;
  }

  lemma AssignedGood(reg: Registry, req: AssignRequest, now: int)
    requires Good(reg)
    ensures Good(Assigned(reg, req, now))
  {
    hide Assign, RoomTotal, ClampRooms, AvailableReservedSlotsForRoom;
    if req.serverId in reg.vals {
      var s := reg.vals[req.serverId];
      RecomputeDerives(s);
      if req.roomId != "" {
        AssignStores(Recompute(s), req.roomId, ClampInteger(req.roomMaxPlayers, 0, 1, MAX_ROOM), now);
      }
    }
  }

  lemma ClaimedGood(reg: Registry, req: ClaimRequest, now: int)
    requires Good(reg)
    ensures Good(ClaimedFor(reg, req, now))
  {
    hide Claim, RoomTotal, ClampRooms, PickWarm, ListServers, ClaimReply;
    PickedIsRegistered(reg, req.region, req.zone, req.serverId);
    ClaimReplyIs(reg, req, now);
    if ClaimReply(reg, req, now).Success? {
      var found := PickWarm(ListServers(reg), req.region, req.zone, req.serverId);
      ClaimStores(found.value, req.roomId, ClampInteger(req.roomMaxPlayers, 0, 1, MAX_ROOM), now);
      hide WellSized;
    }
  }

  lemma ApplyGood(op: Op, reg: Registry, d: Defaults)
    requires Good(reg)
    ensures Good(Apply(op, reg, d))
  {
    hide Registered, WithHeartbeat, Assigned, ClaimedFor, CleanedUp, Refreshed, RoomTotal, ResolveServerStatus;
    match op
    case RegisterOp(req, now) => RegisteredGood(reg, req, d, now);
    case HeartbeatOp(id, h, now) => if id in reg.vals { HeartbeatGood(reg.vals[id], h, now); }
    case AssignOp(req, now) => AssignedGood(reg, req, now);
    case ClaimOp(req, now) => ClaimedGood(reg, req, now);
    case CleanupOp(active, now) => CleanedUpGood(reg, active, now);
    case StatsOp => RefreshedGood(reg);
    case _ =>
  }

  /**
   In every reachable state the free slots of every server are its capacity minus the sizes of
   its reserved rooms, and never negative; room sizes and player counts are in range.
   */
  lemma {:induction false} DerivedCapacityAlwaysHolds(ops: seq<Op>, d: Defaults, n: nat)
    requires n <= |ops|
    ensures Good(After(ops, d, n))
  {
    hide Apply, Good;
    if n == 0 {
      EmptyIsGood();
    } else {
      DerivedCapacityAlwaysHolds(ops, d, n - 1);
      ApplyGood(ops[n - 1], After(ops, d, n - 1), d);
    }
  }

  lemma EmptyIsGood()
    ensures Good(Empty())
  {
  }

  // ---- over-commitment ----

  function OverCommitted(s: Server): int {
    Max(0, RoomTotal(s.assignedRooms) - s.maxPlayers)
  }

  lemma AssignCommits(s: Server, roomId: string, size: int, now: int)
    requires GoodServer(s, s.serverId) && roomId != "" && 0 <= size <= MAX_ROOM
    requires size <= AvailableReservedSlotsForRoom(s, roomId)
    ensures OverCommitted(Assign(s, roomId, size, now)) > OverCommitted(s)
       <==> size == 0 && roomId !in s.assignedRooms.vals && s.availableReservedSlots == 0
  {
    hide Assign, RoomTotal, Put;
    AssignStores(s, roomId, size, now);
    RoomTotalPut(s.assignedRooms, roomId, ClampInteger(Num(size), 0, 1, MAX_ROOM));
    RoomWithinTotal(s.assignedRooms, roomId);
  }

  lemma RoomWithinTotal(rooms: Rooms, roomId: string)
    requires RoomSizesOk(rooms)
    ensures RoomTotal(rooms) >= 0
    ensures roomId in rooms.vals ==> 1 <= rooms.vals[roomId] <= Min(RoomTotal(rooms), MAX_ROOM)
  {
    SumBounds(rooms.keys, rooms.vals, roomId);
  }

  lemma ClaimCommits(s: Server, roomId: string, size: int, now: int)
    requires GoodServer(s, s.serverId) && roomId != "" && s.assignedRooms.keys == [] && 0 <= size <= s.maxPlayers
    ensures var r := Claim(s, roomId, size, now);
            OverCommitted(r) == 0 && r.assignedRooms.keys == [roomId] && r.status == Reserved
  {
    hide Claim;
    ClaimStores(s, roomId, size, now);
    RoomTotalPut(s.assignedRooms, roomId, ClampInteger(Num(size), 0, 1, MAX_ROOM));
  }

  /**
   The assignment makes the over-commitment of its server worse exactly when the size does not parse, the room
   is new to the server, and the server has no free slot.
   */
  predicate AssignmentCommits(reg: Registry, req: AssignRequest, reply: Reply) {
    && reply.Success? && req.serverId in reg.vals
    && var before := reg.vals[req.serverId];
       OverCommitted(reply.server) > OverCommitted(before) <==>
         (!req.roomMaxPlayers.Num? && req.roomId !in before.assignedRooms.vals && before.availableReservedSlots == 0)
  }

  lemma AssignReplyCommits(reg: Registry, req: AssignRequest, now: int)
    requires Good(reg)
    ensures AssignReply(reg, req, now).Success? ==> AssignmentCommits(reg, req, AssignReply(reg, req, now))
  {
    hide Assign, OverCommitted, RoomTotal, ClampRooms;
    if AssignReply(reg, req, now).Success? {
      var s := reg.vals[req.serverId];
      RecomputeDerives(s);
      AssignCommits(Recompute(s), req.roomId, ClampInteger(req.roomMaxPlayers, 0, 1, MAX_ROOM), now);
      SameRoomsSameCommitment(Recompute(s), s);
    }
  }

  lemma SameRoomsSameCommitment(a: Server, b: Server)
    requires a.assignedRooms == b.assignedRooms && a.maxPlayers == b.maxPlayers
    ensures OverCommitted(a) == OverCommitted(b)
  {
  }

  lemma ClaimReplyCommits(reg: Registry, req: ClaimRequest, now: int)
    requires Good(reg)
    ensures var reply := ClaimReply(reg, req, now);
            reply.Success? ==>
              && OverCommitted(reply.server) == 0 && reply.server.assignedRooms.keys == [req.roomId]
              && reply.server.status == Reserved && reply.server.serverId in reg.vals
  {
    hide Claim, OverCommitted, ListServers, RoomTotal;
    if ClaimReply(reg, req, now).Success? {
      PickedIsRegistered(reg, req.region, req.zone, req.serverId);
      var s := PickWarm(ListServers(reg), req.region, req.zone, req.serverId).value;
      var size := ClampInteger(req.roomMaxPlayers, 0, 1, MAX_ROOM);
      ClaimCommits(s, req.roomId, size, now);
      ClaimStores(s, req.roomId, size, now);
    }
  }

  /** In every reachable state a successful assignment worsens over-commitment in just that one case. */
  lemma AssignWorsensExactlyWhen(ops: seq<Op>, d: Defaults, n: nat, req: AssignRequest, now: int)
    requires n <= |ops|
    ensures var reg := After(ops, d, n);
            AssignReply(reg, req, now).Success? ==> AssignmentCommits(reg, req, AssignReply(reg, req, now))
  {
    hide After, AssignReply, AssignmentCommits, Good;
    DerivedCapacityAlwaysHolds(ops, d, n);
    AssignReplyCommits(After(ops, d, n), req, now);
  }

  /** One server, registered for one player with its one slot reserved. */
  function FullServer(): RegisterRequest {
    RegisterRequest("s", "a", None, None, Online, Num(1), Absent, Empty(), Num(1), None, Absent)
  }

  lemma OneRoomTotal(rooms: Rooms, roomId: string, size: int)
    requires rooms.keys == [roomId] && rooms.vals == map[roomId := size]
    ensures RoomTotal(rooms) == size
  {
    assert rooms.keys[..0] == [];
    assert SumOver([], rooms.vals) == 0;
    assert SumOver(rooms.keys, rooms.vals) == SumOver(rooms.keys[..0], rooms.vals) + rooms.vals[rooms.keys[0]];
  }

  lemma FullServerIsFull(d: Defaults, now: int)
    ensures var reg := After([RegisterOp(FullServer(), now)], d, 1);
            && "s" in reg.vals && reg.vals["s"].maxPlayers == 1
            && reg.vals["s"].assignedRooms.keys == ["a"] && reg.vals["s"].assignedRooms.vals == map["a" := 1]
  {
    hide RoomTotal;
    assert After([RegisterOp(FullServer(), now)], d, 1) == Registered(Empty(), FullServer(), d, now);
    CreatedWellSized(FullServer(), d, now);
    RecomputeDerives(CreateGameServerRecord(FullServer(), d, now));
    hide Recompute;
  }

  /** Registered for one player with that slot reserved, a server takes a second room whose size does not parse. */
  lemma UnparsableSizeOverCommits(d: Defaults, now: int)
    ensures var reg := After([RegisterOp(FullServer(), now)], d, 1);
            var reply := AssignReply(reg, AssignRequest("s", "b", NotANumber), now);
            && reply.Success? && "s" in reg.vals
            && OverCommitted(reg.vals["s"]) == 0 && OverCommitted(reply.server) > 0
  {
    hide After, AssignReply;
    FullServerIsFull(d, now);
    DerivedCapacityAlwaysHolds([RegisterOp(FullServer(), now)], d, 1);
    FullServerTakesAnother(After([RegisterOp(FullServer(), now)], d, 1), now);
  }

  lemma FullServerTakesAnother(reg: Registry, now: int)
    requires Good(reg) && "s" in reg.vals && reg.vals["s"].maxPlayers == 1
    requires reg.vals["s"].assignedRooms.keys == ["a"] && reg.vals["s"].assignedRooms.vals == map["a" := 1]
    ensures var reply := AssignReply(reg, AssignRequest("s", "b", NotANumber), now);
            && reply.Success? && OverCommitted(reg.vals["s"]) == 0 && OverCommitted(reply.server) > 0
  {
    hide RoomTotal, Assign, OverCommitted;
    var s := reg.vals["s"];
    OneRoomTotal(s.assignedRooms, "a", 1);
    RecomputeDerives(s);
    hide Recompute;
    assert OverCommitted(s) == 0 by { NotOverCommitted(s); }
    AssignReplyCommits(reg, AssignRequest("s", "b", NotANumber), now);
  }

  lemma NotOverCommitted(s: Server)
    requires RoomTotal(s.assignedRooms) <= s.maxPlayers
    ensures OverCommitted(s) == 0
  {
  }

  /** A claim never over-commits, whatever its size field holds. */
  lemma ClaimNeverOverCommits(ops: seq<Op>, d: Defaults, n: nat, req: ClaimRequest, now: int)
    requires n <= |ops|
    ensures var reply := ClaimReply(After(ops, d, n), req, now);
            reply.Success? ==>
              && OverCommitted(reply.server) == 0 && reply.server.assignedRooms.keys == [req.roomId]
              && reply.server.status == Reserved
  {
    hide After, ClaimReply, OverCommitted, Good;
    DerivedCapacityAlwaysHolds(ops, d, n);
    ClaimReplyCommits(After(ops, d, n), req, now);
  }

  predicate Reserving(op: Op) {
    (op.AssignOp? && op.assign.roomMaxPlayers.Num?) || (op.ClaimOp? && op.claim.roomMaxPlayers.Num?)
  }

  /** One reservation with a parsable size keeps every server registered and no worse committed. */
  lemma ReservationNeverWorsens(op: Op, reg: Registry, d: Defaults, id: string)
    requires Good(reg) && Reserving(op) && id in reg.vals
    ensures id in Apply(op, reg, d).vals
    ensures OverCommitted(Apply(op, reg, d).vals[id]) <= OverCommitted(reg.vals[id])
  {
    hide Good, OverCommitted, WellSized, Apply;
    if op.AssignOp? {
      AssignmentNeverWorsens(op, reg, d, id);
    } else {
      ClaimNeverWorsens(op, reg, d, id);
    }
  }

  lemma AssignmentNeverWorsens(op: Op, reg: Registry, d: Defaults, id: string)
    requires Good(reg) && op.AssignOp? && Reserving(op) && id in reg.vals
    ensures id in Apply(op, reg, d).vals
    ensures OverCommitted(Apply(op, reg, d).vals[id]) <= OverCommitted(reg.vals[id])
  {
    hide AssignReply, Recompute, RoomTotal;
    RecomputeDerives(reg.vals[id]);
    SameRoomsSameCommitment(Recompute(reg.vals[id]), reg.vals[id]);
    AssignReplyCommits(reg, op.assign, op.now);
    hide Good, OverCommitted, WellSized;
  }

  lemma ClaimNeverWorsens(op: Op, reg: Registry, d: Defaults, id: string)
    requires Good(reg) && op.ClaimOp? && Reserving(op) && id in reg.vals
    ensures id in Apply(op, reg, d).vals
    ensures OverCommitted(Apply(op, reg, d).vals[id]) <= OverCommitted(reg.vals[id])
  {
    hide ClaimReply, RoomTotal;
    ClaimReplyCommits(reg, op.claim, op.now);
    assert OverCommitted(reg.vals[id]) >= 0;
    hide Good, OverCommitted, WellSized;
  }

  /** Over any stretch of reservations with parsable sizes no server gets worse committed. */
  lemma {:induction false} ReservationsNeverWorsen(ops: seq<Op>, d: Defaults, m: nat, n: nat, id: string)
    requires m <= n <= |ops| && forall i | m <= i < n :: Reserving(ops[i])
    ensures id in After(ops, d, m).vals ==>
              && id in After(ops, d, n).vals
              && OverCommitted(After(ops, d, n).vals[id]) <= OverCommitted(After(ops, d, m).vals[id])
    decreases n
  {
    hide Apply, OverCommitted, Good, Reserving;
    if m < n && id in After(ops, d, m).vals {
      ReservationsNeverWorsen(ops, d, m, n - 1, id);
      DerivedCapacityAlwaysHolds(ops, d, n - 1);
      ReservationNeverWorsens(ops[n - 1], After(ops, d, n - 1), d, id);
    }
  }

  // ---- durable reservations, exclusive claims ----

  predicate Holds(reg: Registry, id: string, roomId: string) {
    id in reg.vals && roomId in reg.vals[id].assignedRooms.vals
  }

  lemma AssignedHolds(reg: Registry, req: AssignRequest, now: int, id: string, roomId: string)
    requires Holds(reg, id, roomId)
    ensures Holds(Assigned(reg, req, now), id, roomId)
  {
    hide AvailableReservedSlotsForRoom, ClampInteger, RoomTotal;
  }

  lemma RegisteredHolds(reg: Registry, req: RegisterRequest, d: Defaults, now: int, id: string, roomId: string)
    requires Holds(reg, id, roomId)
    ensures Holds(Registered(reg, req, d, now), id, roomId)
  {
    hide CreateGameServerRecord, ClampInteger, RoomTotal;
  }

  lemma ClaimedHolds(reg: Registry, req: ClaimRequest, now: int, id: string, roomId: string)
    requires Good(reg) && Holds(reg, id, roomId)
    ensures Holds(ClaimedFor(reg, req, now), id, roomId)
  {
    hide PickWarm, ListServers, ClampInteger, RoomTotal;
    PickedIsRegistered(reg, req.region, req.zone, req.serverId);
  }

  lemma HoldsOneStep(op: Op, reg: Registry, d: Defaults, id: string, roomId: string)
    requires Good(reg) && Holds(reg, id, roomId) && !Releasing(op)
    ensures Holds(Apply(op, reg, d), id, roomId)
  {
    hide WithHeartbeat, ResolveServerStatus, ClampInteger, Assigned, Registered, ClaimedFor, RoomTotal, Recompute;
    match op
    case RegisterOp(req, now) => RegisteredHolds(reg, req, d, now, id, roomId);
    case HeartbeatOp(x, h, now) => if x in reg.vals { HeartbeatGood(reg.vals[x], h, now); }
    case AssignOp(req, now) => AssignedHolds(reg, req, now, id, roomId);
    case ClaimOp(req, now) => ClaimedHolds(reg, req, now, id, roomId);
    case StatsOp => RefreshedGood(reg);
    case _ =>
  }

  /** A reserved room stays reserved on its server through every operation but the releasing ones. */
  lemma {:induction false} ReservationsAreDurable(ops: seq<Op>, d: Defaults, m: nat, n: nat, id: string, roomId: string)
    requires m <= n <= |ops| && forall i | m <= i < n :: !Releasing(ops[i])
    ensures Holds(After(ops, d, m), id, roomId) ==> Holds(After(ops, d, n), id, roomId)
    decreases n
  {
    hide Apply, Holds, Good, Releasing;
    if m < n && Holds(After(ops, d, m), id, roomId) {
      ReservationsAreDurable(ops, d, m, n - 1, id, roomId);
      DerivedCapacityAlwaysHolds(ops, d, n - 1);
      HoldsOneStep(ops[n - 1], After(ops, d, n - 1), d, id, roomId);
    }
  }

  /** Operation `i` of the run is a claim that won server `id`. */
  predicate Claims(ops: seq<Op>, d: Defaults, i: nat, id: string)
    requires i < |ops|
  {
    ops[i].ClaimOp? &&
      var reply := ClaimReply(After(ops, d, i), ops[i].claim, ops[i].now);
      reply.Success? && reply.server.serverId == id
  }

  lemma ClaimTakes(ops: seq<Op>, d: Defaults, i: nat, id: string) returns (roomId: string)
    requires i < |ops|
    ensures Claims(ops, d, i, id) ==>
              && id in After(ops, d, i).vals && After(ops, d, i).vals[id].assignedRooms.keys == []
              && Holds(After(ops, d, i + 1), id, roomId)
  {
    hide ClaimReply, After;
    roomId := "";
    if Claims(ops, d, i, id) {
      roomId := ops[i].claim.roomId;
      DerivedCapacityAlwaysHolds(ops, d, i);
      AfterStep(ops, d, i);
      ClaimTakesStep(After(ops, d, i), ops[i].claim, ops[i].now);
    }
  }

  lemma AfterStep(ops: seq<Op>, d: Defaults, i: nat)
    requires i < |ops|
    ensures After(ops, d, i + 1) == Apply(ops[i], After(ops, d, i), d)
  {
  }

  lemma ClaimTakesStep(reg: Registry, req: ClaimRequest, now: int)
    requires Good(reg)
    ensures ClaimReply(reg, req, now).Success? ==>
              var id := ClaimReply(reg, req, now).server.serverId;
              && id in reg.vals && reg.vals[id].assignedRooms.keys == []
              && Holds(ClaimedFor(reg, req, now), id, req.roomId)
  {
    hide Claim, ListServers;
    if ClaimReply(reg, req, now).Success? {
      PickedIsRegistered(reg, req.region, req.zone, req.serverId);
      var s := PickWarm(ListServers(reg), req.region, req.zone, req.serverId).value;
      ClaimStores(s, req.roomId, ClampInteger(req.roomMaxPlayers, 0, 1, MAX_ROOM), now);
    }
  }

  /** Between two claims of the same server there is a cleanup, an unregistration or a clear. */
  lemma ClaimsAreExclusive(ops: seq<Op>, d: Defaults, i: nat, j: nat, id: string)
    requires i < j < |ops|
    ensures Claims(ops, d, i, id) && Claims(ops, d, j, id) ==> exists k :: i < k < j && Releasing(ops[k])
  {
    hide Claims, After;
    var roomId := ClaimTakes(ops, d, i, id);
    var _ := ClaimTakes(ops, d, j, id);
    if Claims(ops, d, i, id) && Claims(ops, d, j, id) && forall k | i < k < j :: !Releasing(ops[k]) {
      ReservationsAreDurable(ops, d, i + 1, j, id, roomId);
      assert false;
    }
  }
}
