/** The registry of game sessions: one open session per room, players by user. */
module Sessions {
  import opened Common
  import opened JsMaps

  datatype Status = Creating | Active | Closing | Closed | Failed

  datatype Player = Player(userId: string, connectionId: string, playerId: string, isReady: bool, lastSeenAt: int)

  datatype Session = Session(
    sessionId: string, roomId: string, serverId: string, status: Status, maxPlayers: int,
    players: map<string, Player>, startedAt: Option<int>, closedAt: Option<int>, updatedAt: int,
    isPermanent: bool, autoCloseWhenEmpty: Option<bool>)

  datatype Registry = Registry(byId: JsMap<string, Session>, index: map<string, string>)

  /** A request to create a session; `sessionId` is the given id or the generated one. */
  datatype CreateRequest = CreateRequest(
    sessionId: string, roomId: string, serverId: string, status: Option<Status>, maxPlayers: Raw,
    startedAt: Option<int>, isPermanent: bool, autoCloseWhenEmpty: Option<bool>)

  datatype CreateReply = Opened(session: Session) | Thrown(error: string)

  datatype Reply = Reply(success: bool, reason: string)

  const DEFAULT_MAX_PLAYERS := 20

  predicate Open(s: Session) {
    s.status.Creating? || s.status.Active?
  }

  predicate Terminal(s: Session) {
    s.status.Closed? || s.status.Failed?
  }

  /** A session that stays open when its last player leaves. */
  predicate Permanent(s: Session) {
    s.isPermanent || s.autoCloseWhenEmpty == Some(false)
  }

  function Initial(): Registry {
    Registry(Empty(), map[])
  }

  // ---- creation ----

  function CreateError(r: Registry, req: CreateRequest): Option<string> {
    if req.roomId == "" then Some("roomId is required.")
    else if req.serverId == "" then Some("serverId is required.")
    else if !req.maxPlayers.Absent? && (!req.maxPlayers.Num? || req.maxPlayers.n < 1)
      then Some("maxPlayers must be at least 1.")
    else if req.roomId in r.index && r.index[req.roomId] in r.byId.vals && Open(r.byId.vals[r.index[req.roomId]])
    then Some("Active session already exists for this roomId.")
    else None
  }

  predicate ValidCreateRequest(req: CreateRequest) {
    && req.roomId != "" && req.serverId != ""
    && (req.maxPlayers.Absent? || (req.maxPlayers.Num? && req.maxPlayers.n >= 1))
  }

  function NewSession(req: CreateRequest, now: int): Session {
    Session(req.sessionId, req.roomId, req.serverId, if req.status.Some? then req.status.value else Creating,
      ClampInteger(req.maxPlayers, DEFAULT_MAX_PLAYERS, 1, 1024), map[], req.startedAt, None, now,
      req.isPermanent, req.autoCloseWhenEmpty)
  }

  function CreateReplyFor(r: Registry, req: CreateRequest, now: int): CreateReply {
    var error := CreateError(r, req);
    if error.Some? then Thrown(error.value) else Opened(NewSession(req, now))
  }

  function Created(r: Registry, req: CreateRequest, now: int): Registry {
    if CreateError(r, req).Some? then r else
      Registry(Put(r.byId, req.sessionId, NewSession(req, now)), r.index[req.roomId := req.sessionId])
  }

  function FindByRoom(r: Registry, roomId: string): Option<Session> {
    if roomId == "" || roomId !in r.index || r.index[roomId] == "" || r.index[roomId] !in r.byId.vals then None
    else Some(r.byId.vals[r.index[roomId]])
  }

  function GetOrCreateReply(r: Registry, req: CreateRequest, now: int): CreateReply {
    var existing := FindByRoom(r, req.roomId);
    if existing.Some? && Open(existing.value) then Opened(existing.value) else CreateReplyFor(r, req, now)
  }

  function GotOrCreated(r: Registry, req: CreateRequest, now: int): Registry {
    var existing := FindByRoom(r, req.roomId);
    if existing.Some? && Open(existing.value) then r else Created(r, req, now)
  }

  // ---- players ----

  function WithSession(r: Registry, id: string, s: Session): Registry {
    r.(byId := Put(r.byId, id, s))
  }

  function AddPlayerReply(r: Registry, id: string, p: Player): Reply {
    if id !in r.byId.vals then Reply(false, "session_not_found")
    else
      var s := r.byId.vals[id];
      if !Open(s) then Reply(false, "session_not_open")
      else if p.userId == "" then Reply(false, "user_id_required")
      else if |s.players| >= s.maxPlayers && p.userId !in s.players then Reply(false, "session_full")
      else Reply(true, "player_added")
  }

  function WithPlayer(s: Session, p: Player, now: int): Session {
    var joined := s.(players := s.players[p.userId := p], updatedAt := now);
    if joined.status.Creating?
    then joined.(status := Active, startedAt := if joined.startedAt.Some? then joined.startedAt else Some(now))
      else joined
  }

  function PlayerAdded(r: Registry, id: string, p: Player, now: int): Registry {
    if AddPlayerReply(r, id, p).success then WithSession(r, id, WithPlayer(r.byId.vals[id], p, now)) else r
  }

  /** The reported connection is an old one: the player has reconnected since. */
  predicate Replaced(s: Session, userId: string, connectionId: string)
    requires userId in s.players
  {
    connectionId != "" && s.players[userId].connectionId != "" && s.players[userId].connectionId != connectionId
  }

  function RemoveReply(s: Session, userId: string, connectionId: string): Reply {
    if userId == "" then Reply(false, "user_id_required")
    else if userId !in s.players then Reply(false, "player_not_found")
    else if Replaced(s, userId, connectionId) then Reply(true, "player_remove_ignored_connection_mismatch")
    else Reply(true, "player_removed")
  }

  function WithoutPlayer(s: Session, userId: string, connectionId: string, now: int): Session {
    if userId == "" then s
    else if userId !in s.players || Replaced(s, userId, connectionId) then s.(updatedAt := now)
    else s.(players := s.players - {userId}, updatedAt := now)
  }

  function PlayerRemoved(r: Registry, id: string, userId: string, connectionId: string, now: int): Registry {
    if id in r.byId.vals then WithSession(r, id, WithoutPlayer(r.byId.vals[id], userId, connectionId, now)) else r
  }

  function WithReady(s: Session, userId: string, isReady: bool, now: int): Session {
    if userId !in s.players then s else
      s.(players := s.players[userId := s.players[userId].(isReady := isReady, lastSeenAt := now)], updatedAt := now)
  }

  function PlayerReady(r: Registry, id: string, userId: string, isReady: bool, now: int): Registry {
    if id in r.byId.vals then WithSession(r, id, WithReady(r.byId.vals[id], userId, isReady, now)) else r
  }

  // ---- status ----

  /** Closing or failing a session. */
  function Ended(s: Session, status: Status, now: int): Session {
    s.(status := status, closedAt := Some(now), updatedAt := now)
  }

  function SessionEnded(r: Registry, id: string, status: Status, now: int): Registry {
    if id in r.byId.vals then WithSession(r, id, Ended(r.byId.vals[id], status, now)) else r
  }

  function WithStatus(s: Session, status: Status, now: int): Session {
    s.(status := status, updatedAt := now,
       startedAt := if status.Active? && s.startedAt.None? then Some(now) else s.startedAt,
       closedAt := if status.Closed? || status.Failed? then Some(now) else s.closedAt)
  }

  /** The unrestricted status update; a status that is no session status keeps the old one. */
  function StatusUpdated(r: Registry, id: string, status: Option<Status>, now: int): Registry {
    if id !in r.byId.vals then r else
      var s := r.byId.vals[id];
      WithSession(r, id, WithStatus(s, if status.Some? then status.value else s.status, now))
  }

  function SessionDeleted(r: Registry, id: string): Registry {
    if id == "" then r else
      Registry(Delete(r.byId, id),
        if id in r.byId.vals && r.byId.vals[id].roomId in r.index && r.index[r.byId.vals[id].roomId] == id
        then r.index - {r.byId.vals[id].roomId} else r.index)
  }

  // ---- sweeps over all sessions ----

  /** The open sessions an empty-server report is about. */
  predicate SyncMatches(s: Session, serverId: string, roomId: string) {
    (serverId != "" ==> s.serverId == serverId) && (roomId != "" ==> s.roomId == roomId) && Open(s)
  }

  function Emptied(s: Session, serverId: string, roomId: string, now: int): Session {
    if SyncMatches(s, serverId, roomId) && s.players != map[] then s.(players := map[], updatedAt := now) else s
  }

  function EmptySynced(r: Registry, serverId: string, roomId: string, now: int): Registry {
    if serverId == "" && roomId == "" then r else
      r.(byId := RawMap(r.byId.keys, map k | k in r.byId.vals :: Emptied(r.byId.vals[k], serverId, roomId, now)))
  }

  /** A closed session whose time to live is over. */
  predicate Expired(s: Session, now: int, ttlMs: int) {
    s.closedAt.Some? && s.closedAt.value != 0 && now - s.closedAt.value >= ttlMs
  }

  function ExpiredIds(r: Registry, now: int, ttlMs: int): set<string> {
    set id | id in r.byId.vals && Expired(r.byId.vals[id], now, ttlMs)
  }

  function ClosedCleanedUp(r: Registry, now: int, ttlMs: int): Registry {
    var gone := ExpiredIds(r, now, ttlMs);
    Registry(Restrict(r.byId, r.byId.vals.Keys - gone),
      map room | room in r.index && (r.index[room] !in gone || r.byId.vals[r.index[room]].roomId != room) ::
        r.index[room])
  }

  // ---- a player leaves a server ----

  datatype LeaveRequest = LeaveRequest(
    serverId: string, roomId: string, userId: string, connectionId: string, sessionId: string, reason: string,
    currentPlayers: Option<int>)

  predicate Matches(s: Session, req: LeaveRequest) {
    s.serverId == req.serverId && (req.roomId != "" ==> s.roomId == req.roomId)
  }

  /** A player of the session is the leaving user, under the reported connection if there is one. */
  predicate HasPlayer(s: Session, req: LeaveRequest) {
    exists u :: u in s.players
      && (s.players[u].userId == req.userId || s.players[u].playerId == req.userId)
      && (req.connectionId == "" || s.players[u].connectionId == "" || s.players[u].connectionId == req.connectionId)
  }

  function AfterRemoval(s: Session, req: LeaveRequest, now: int): Session {
    if HasPlayer(s, req) then WithoutPlayer(s, req.userId, req.connectionId, now) else s
  }

  predicate ClosesWhenEmpty(s: Session) {
    s.players == map[] && !Terminal(s) && !Permanent(s)
  }

  function AfterLeave(s: Session, req: LeaveRequest, now: int): Session {
    if !Matches(s, req) then s else
      var t := AfterRemoval(s, req, now);
      if ClosesWhenEmpty(t) then Ended(t, Closed, now) else t
  }

  predicate DuplicateGuard(req: LeaveRequest) {
    req.reason == "duplicate_user_replaced" && req.connectionId == ""
  }

  predicate LeaveAccepted(req: LeaveRequest) {
    req.serverId != "" && req.userId != "" && !DuplicateGuard(req)
  }

  function PlayerLeft(r: Registry, req: LeaveRequest, now: int): Registry {
    if !LeaveAccepted(req) then r else
      r.(byId := RawMap(r.byId.keys, map k | k in r.byId.vals :: AfterLeave(r.byId.vals[k], req, now)))
  }

  /** The players of the matching sessions that are not closed or failed, over the given ids. */
  function PlayersIn(ids: seq<string>, vals: map<string, Session>, req: LeaveRequest): nat
    requires forall id | id in ids :: id in vals
  {
    if ids == [] then 0 else
      var s := vals[ids[|ids| - 1]];
      PlayersIn(ids[..|ids| - 1], vals, req) + (if Matches(s, req) && !Terminal(s) then |s.players| else 0)
  }

  function ServerPlayers(r: Registry, req: LeaveRequest): nat {
    PlayersIn(r.byId.keys, r.byId.vals, req)
  }

  datatype LeaveReply = LeaveReply(success: bool, reason: string, serverCurrentPlayers: int)

  predicate LeaveFound(r: Registry, req: LeaveRequest) {
    exists id :: id in r.byId.vals && Matches(r.byId.vals[id], req) && HasPlayer(r.byId.vals[id], req)
      && req.userId in r.byId.vals[id].players
  }

  function LeaveReplyFor(r: Registry, req: LeaveRequest, now: int): LeaveReply {
    if req.serverId == "" then LeaveReply(false, "server_id_required", 0)
    else if req.userId == "" then LeaveReply(false, "user_id_required", 0)
    else if DuplicateGuard(req) then
      LeaveReply(true, "player_remove_ignored_duplicate_user_replaced_missing_connection_id",
        if req.currentPlayers.Some? then Max(req.currentPlayers.value, ServerPlayers(r, req))
          else ServerPlayers(r, req))
    else
      var total := ServerPlayers(PlayerLeft(r, req, now), req);
      if LeaveFound(r, req) then LeaveReply(true, "player_removed_from_server_sessions", total)
      else LeaveReply(false, "player_not_found_in_server_sessions", total)
  }

  // ---- statistics ----

  datatype RoomStats = RoomStats(sessions: nat, players: nat, capacity: int, creating: nat, active: nat)

  datatype Stats = Stats(totalPlayers: nat, totalCapacity: int, byRoom: map<string, RoomStats>)

  function RoomKey(s: Session): string {
    if s.roomId == "" then "unknown" else s.roomId
  }

  function CountRoom(stats: Stats, s: Session): Stats {
    if !Open(s) then stats else
      var before := if RoomKey(s) in stats.byRoom then stats.byRoom[RoomKey(s)] else RoomStats(0, 0, 0, 0, 0);
      Stats(stats.totalPlayers + |s.players|, stats.totalCapacity + s.maxPlayers,
        stats.byRoom[RoomKey(s) := RoomStats(
          before.sessions + 1, before.players + |s.players|, before.capacity + s.maxPlayers,
          before.creating + (if s.status.Creating? then 1 else 0),
          before.active + (if s.status.Active? then 1 else 0))])
  }

  function StatsOver(ids: seq<string>, vals: map<string, Session>): Stats
    requires forall id | id in ids :: id in vals
  {
    if ids == [] then Stats(0, 0, map[]) else CountRoom(StatsOver(ids[..|ids| - 1], vals), vals[ids[|ids| - 1]])
  }

  function StatsOf(r: Registry): Stats {
    StatsOver(r.byId.keys, r.byId.vals)
  }

  // ---- the object ----

  class GameSessionRegistry {
    var sessionsById: JsMap<string, Session>
    var sessionIdByRoomId: map<string, string>
    const closedSessionTtlMs: int

    ghost function State(): Registry
      reads this
    {
      Registry(sessionsById, sessionIdByRoomId)
    }

    constructor (closedSessionTtlSeconds: Raw)
      ensures State() == Initial()
      ensures closedSessionTtlMs == ClampInteger(closedSessionTtlSeconds, 300, 30, 86400) * 1000
    {
      sessionsById := Empty();
      sessionIdByRoomId := map[];
      closedSessionTtlMs := ClampInteger(closedSessionTtlSeconds, 300, 30, 86400) * 1000;
    }

    method CreateSession(req: CreateRequest, now: int) returns (reply: CreateReply)
      modifies this
      ensures State() == Created(old(State()), req, now) && reply == CreateReplyFor(old(State()), req, now)
    {
      if req.roomId == "" { return Thrown("roomId is required."); }
      if req.serverId == "" { return Thrown("serverId is required."); }
      if !req.maxPlayers.Absent? && (!req.maxPlayers.Num? || req.maxPlayers.n < 1) {
        return Thrown("maxPlayers must be at least 1.");
      }
      if req.roomId in sessionIdByRoomId {
        var existingId := sessionIdByRoomId[req.roomId];
        if existingId in sessionsById.vals && Open(sessionsById.vals[existingId]) {
          return Thrown("Active session already exists for this roomId.");
        }
      }
      var record := NewSession(req, now);
      sessionsById := Put(sessionsById, req.sessionId, record);
      sessionIdByRoomId := sessionIdByRoomId[req.roomId := req.sessionId];
      return Opened(record);
    }

    method GetOrCreateSession(req: CreateRequest, now: int) returns (reply: CreateReply)
      modifies this
      ensures State() == GotOrCreated(old(State()), req, now) && reply == GetOrCreateReply(old(State()), req, now)
    {
      var existing := FindByRoom(Registry(sessionsById, sessionIdByRoomId), req.roomId);
      if existing.Some? && Open(existing.value) {
        return Opened(existing.value);
      }
      reply := CreateSession(req, now);
    }

    method AddPlayer(id: string, p: Player, now: int) returns (reply: Reply)
      modifies this
      ensures State() == PlayerAdded(old(State()), id, p, now) && reply == AddPlayerReply(old(State()), id, p)
    {
      if id !in sessionsById.vals { return Reply(false, "session_not_found"); }
      var record := sessionsById.vals[id];
      if !Open(record) { return Reply(false, "session_not_open"); }
      if p.userId == "" { return Reply(false, "user_id_required"); }
      if |record.players| >= record.maxPlayers && p.userId !in record.players {
        return Reply(false, "session_full");
      }
      record := record.(players := record.players[p.userId := p]);
      record := record.(updatedAt := now);
      if record.status.Creating? {
        record := record.(status := Active);
        if record.startedAt.None? {
          record := record.(startedAt := Some(now));
        }
      }
      sessionsById := Put(sessionsById, id, record);
      return Reply(true, "player_added");
    }

    method RemovePlayer(id: string, userId: string, expectedConnectionId: string, now: int) returns (reply: Reply)
      modifies this`sessionsById
      ensures State() == PlayerRemoved(old(State()), id, userId, expectedConnectionId, now)
      ensures reply == if id in old(State()).byId.vals
        then RemoveReply(old(State()).byId.vals[id], userId, expectedConnectionId)
                       else Reply(false, "session_not_found")
    {
      if id !in sessionsById.vals { return Reply(false, "session_not_found"); }
      var record := sessionsById.vals[id];
      PutSame(sessionsById, id);
      if userId == "" { return Reply(false, "user_id_required"); }
      if userId !in record.players {
        sessionsById := Put(sessionsById, id, record.(updatedAt := now));
        return Reply(false, "player_not_found");
      }
      var existingConnectionId := record.players[userId].connectionId;
      if expectedConnectionId != "" && existingConnectionId != "" && existingConnectionId != expectedConnectionId {
        sessionsById := Put(sessionsById, id, record.(updatedAt := now));
        return Reply(true, "player_remove_ignored_connection_mismatch");
      }
      record := record.(players := record.players - {userId});
      record := record.(updatedAt := now);
      sessionsById := Put(sessionsById, id, record);
      return Reply(true, "player_removed");
    }

    method SetPlayerReady(id: string, userId: string, isReady: bool, now: int) returns (success: bool)
      modifies this
      ensures State() == PlayerReady(old(State()), id, userId, isReady, now)
      ensures success <==> id in old(State()).byId.vals && userId in old(State()).byId.vals[id].players
    {
      if id !in sessionsById.vals { return false; }
      PutSame(sessionsById, id);
      var record := sessionsById.vals[id];
      if userId !in record.players { return false; }
      var player := record.players[userId].(isReady := isReady, lastSeenAt := now);
      record := record.(players := record.players[userId := player], updatedAt := now);
      sessionsById := Put(sessionsById, id, record);
      return true;
    }

    /** Closes or fails a session. */
    method EndSession(id: string, status: Status, now: int) returns (found: bool)
      requires status == Closed || status == Failed
      modifies this`sessionsById
      ensures State() == SessionEnded(old(State()), id, status, now) && (found <==> id in old(State()).byId.vals)
    {
      if id !in sessionsById.vals { return false; }
      var record := sessionsById.vals[id];
      record := record.(status := status);
      record := record.(closedAt := Some(now));
      record := record.(updatedAt := now);
      sessionsById := Put(sessionsById, id, record);
      return true;
    }

    method UpdateSessionStatus(id: string, status: Option<Status>, now: int) returns (found: bool)
      modifies this
      ensures State() == StatusUpdated(old(State()), id, status, now) && (found <==> id in old(State()).byId.vals)
    {
      if id !in sessionsById.vals { return false; }
      var record := sessionsById.vals[id];
      var nextStatus := if status.Some? then status.value else record.status;
      record := record.(status := nextStatus, updatedAt := now);
      if nextStatus.Active? && record.startedAt.None? {
        record := record.(startedAt := Some(now));
      }
      if nextStatus.Closed? || nextStatus.Failed? {
        record := record.(closedAt := Some(now));
      }
      sessionsById := Put(sessionsById, id, record);
      return true;
    }

    method DeleteSession(id: string) returns (removed: bool)
      modifies this
      ensures State() == SessionDeleted(old(State()), id)
      ensures removed <==> id != "" && id in old(State()).byId.vals
    {
      if id == "" { return false; }
      removed := id in sessionsById.vals;
      if removed {
        var roomId := sessionsById.vals[id].roomId;
        if roomId in sessionIdByRoomId && sessionIdByRoomId[roomId] == id {
          sessionIdByRoomId := sessionIdByRoomId - {roomId};
        }
      }
      sessionsById := Delete(sessionsById, id);
    }

    method SyncEmptyServerSessions(serverId: string, roomId: string, now: int)
      modifies this
      ensures State() == EmptySynced(old(State()), serverId, roomId, now)
    {
      hide Emptied;
      if serverId == "" && roomId == "" { return; }
      var before := sessionsById;
      for i := 0 to |before.keys|
        invariant sessionIdByRoomId == old(sessionIdByRoomId)
        invariant sessionsById == EmptiedFirst(before, i, serverId, roomId, now)
      {
        var id := before.keys[i];
        EmptiedFirstStep(before, i, serverId, roomId, now);
        var record := sessionsById.vals[id];
        if SyncMatches(record, serverId, roomId) && |record.players| > 0 {
          record := record.(players := map[], updatedAt := now);
          sessionsById := Put(sessionsById, id, record);
        }
      }
      assert before.keys[..|before.keys|] == before.keys;
    }

    method CleanupClosedSessions(now: int) returns (removedCount: nat)
      modifies this
      ensures State() == ClosedCleanedUp(old(State()), now, closedSessionTtlMs)
      ensures removedCount == |ExpiredIds(old(State()), now, closedSessionTtlMs)|
    {
      hide Expired, IndexWithout, Restrict, ExpiredAmong, Delete;
      var before := sessionsById;
      ghost var index := sessionIdByRoomId;
      ghost var gone: set<string> := {};
      removedCount := 0;
      RestrictAll(before, before.vals.Keys - gone);
      IndexWithoutNone(index, before);
      ExpiredAmongNone(before, now, closedSessionTtlMs);
      for i := 0 to |before.keys|
        invariant gone == ExpiredAmong(before, i, now, closedSessionTtlMs) && gone <= before.vals.Keys
        invariant sessionsById == Restrict(before, before.vals.Keys - gone)
        invariant sessionIdByRoomId == IndexWithout(index, before, gone) && removedCount == |gone|
      {
        var id := before.keys[i];
        var record := before.vals[id];
        ExpiredAmongStep(before, i, now, closedSessionTtlMs);
        if Expired(record, now, closedSessionTtlMs) {
          DeleteRestricted(before, before.vals.Keys - gone, id);
          assert before.vals.Keys - gone - {id} == before.vals.Keys - (gone + {id});
          IndexWithoutStep(index, before, gone, id);
          sessionsById := Delete(sessionsById, id);
          if record.roomId in sessionIdByRoomId && sessionIdByRoomId[record.roomId] == id {
            sessionIdByRoomId := sessionIdByRoomId - {record.roomId};
          }
          gone := gone + {id};
          removedCount := removedCount + 1;
        }
      }
      ExpiredAmongAll(old(State()), now, closedSessionTtlMs);
    }

    method GetStats() returns (stats: Stats)
      ensures stats == StatsOf(State())
    {
      stats := Stats(0, 0, map[]);
      for i := 0 to |sessionsById.keys|
        invariant stats == StatsOver(sessionsById.keys[..i], sessionsById.vals)
      {
        assert sessionsById.keys[..i + 1][..i] == sessionsById.keys[..i];
        stats := CountSession(stats, sessionsById.vals[sessionsById.keys[i]]);
      }
      assert sessionsById.keys[..|sessionsById.keys|] == sessionsById.keys;
    }

    static method CountSession(stats: Stats, record: Session) returns (next: Stats)
      ensures next == CountRoom(stats, record)
    {
      if !Open(record) {
        return stats;
      }
      next := stats.(totalPlayers := stats.totalPlayers + |record.players|, totalCapacity :=
        stats.totalCapacity + record.maxPlayers);
      var room := if RoomKey(record) in stats.byRoom then stats.byRoom[RoomKey(record)] else RoomStats(0, 0, 0, 0, 0);
      room := room.(sessions := room.sessions + 1, players := room.players + |record.players|, capacity :=
        room.capacity + record.maxPlayers);
      if record.status.Creating? {
        room := room.(creating := room.creating + 1);
      } else {
        room := room.(active := room.active + 1);
      }
      next := next.(byRoom := next.byRoom[RoomKey(record) := room]);
    }

    method RemovePlayerFromServer(req: LeaveRequest, now: int) returns (reply: LeaveReply)
      modifies this
      ensures State() == PlayerLeft(old(State()), req, now)
      ensures reply == LeaveReplyFor(old(State()), req, now)
    {
      if req.serverId == "" { return LeaveReply(false, "server_id_required", 0); }
      if req.userId == "" { return LeaveReply(false, "user_id_required", 0); }
      if req.reason == "duplicate_user_replaced" && req.connectionId == "" {
        var count := CountServerPlayers(req);
        if req.currentPlayers.Some? && req.currentPlayers.value > count {
          count := req.currentPlayers.value;
        }
        return LeaveReply(true, "player_remove_ignored_duplicate_user_replaced_missing_connection_id", count);
      }
      var matching := ListMatching(req);
      var lastSuccess := RemoveFromSessions(matching, req, now);
      CloseEmptySessions(matching, req, now, old(sessionsById));
      assert State() == PlayerLeft(old(State()), req, now);
      var total := CountServerPlayers(req);
      if lastSuccess {
        return LeaveReply(true, "player_removed_from_server_sessions", total);
      }
      return LeaveReply(false, "player_not_found_in_server_sessions", total);
    }

    method ListMatching(req: LeaveRequest) returns (ids: seq<string>)
      ensures Distinct(ids)
      ensures forall id :: id in ids <==> id in sessionsById.vals && Matches(sessionsById.vals[id], req)
    {
      ids := [];
      for i := 0 to |sessionsById.keys|
        invariant Distinct(ids)
        invariant forall id :: id in ids <==> id in sessionsById.keys[..i] && Matches(sessionsById.vals[id], req)
      {
        if Matches(sessionsById.vals[sessionsById.keys[i]], req) {
          ids := ids + [sessionsById.keys[i]];
        }
      }
    }

    /** Removes the player from every matching session, the preferred session first. */
    method RemoveFromSessions(matching: seq<string>, req: LeaveRequest, now: int) returns (lastSuccess: bool)
      requires req.userId != "" && Distinct(matching)
      requires forall id :: id in matching <==> id in sessionsById.vals && Matches(sessionsById.vals[id], req)
      modifies this`sessionsById
      ensures sessionsById == RemovedFrom(old(sessionsById), Elements(matching), req, now)
      ensures lastSuccess <==> LeaveFound(old(State()), req)
    {
      hide HasPlayer, WithoutPlayer, RemovedFrom, RemoveReply, Matches;
      var before := sessionsById;
      var ordered := Only(matching, {req.sessionId}) + Only(matching, Elements(matching) - {req.sessionId});
      FrontFirst(matching, {req.sessionId});
      lastSuccess := false;
      RemovedFromNone(before, req, now);
      assert ordered[..0] == [] && Elements(ordered[..0]) == {};
      assert forall id :: id in ordered <==> id in Elements(ordered);
      assert forall id :: id in ordered <==> id in matching;
      for i := 0 to |ordered|
        invariant sessionsById == RemovedFrom(before, Elements(ordered[..i]), req, now)
        invariant forall id | id in ordered[..i] :: id in before.vals
        invariant lastSuccess <==> exists id :: id in ordered[..i] && RemovalFinds(before, id, req)
      {
        assert ordered[..i + 1] == ordered[..i] + [ordered[i]];
        var id := ordered[i];
        assert id in Elements(matching);
        RemovedFromStep(before, Elements(ordered[..i]), id, req, now);
        assert Elements(ordered[..i]) + {id} == Elements(ordered[..i + 1]);
        var session := sessionsById.vals[id];
        if HasPlayer(session, req) {
          var result := RemovePlayer(id, req.userId, req.connectionId, now);
          if result.success {
            lastSuccess := true;
          }
        }
      }
      assert ordered[..|ordered|] == ordered;
      LeaveFoundAmong(old(State()), ordered, req);
    }

    method CloseEmptySessions(matching: seq<string>, req: LeaveRequest, now: int, ghost start: JsMap<string, Session>)
      requires forall id :: id in matching <==> id in start.vals && Matches(start.vals[id], req)
      requires Distinct(matching) && sessionsById == RemovedFrom(start, Elements(matching), req, now)
      modifies this`sessionsById
      ensures sessionsById.keys == start.keys
      ensures sessionsById.vals == map k | k in start.vals :: AfterLeave(start.vals[k], req, now)
    {
      hide AfterRemoval, ClosesWhenEmpty, Ended, Matches;
      var before := sessionsById;
      assert ClosedIn(before, Elements([]), now) == before;
      for i := 0 to |matching|
        invariant sessionsById == ClosedIn(before, Elements(matching[..i]), now)
      {
        var id := matching[i];
        assert matching[..i + 1] == matching[..i] + [id];
        assert Elements(matching[..i + 1]) == Elements(matching[..i]) + {id};
        ClosedInStep(before, Elements(matching[..i]), id, now);
        if ClosesWhenEmpty(sessionsById.vals[id]) {
          var _ := EndSession(id, Closed, now);
        }
      }
      assert matching[..|matching|] == matching;
      ClosedAfterRemoval(start, matching, req, now);
    }

    method CountServerPlayers(req: LeaveRequest) returns (total: nat)
      ensures total == ServerPlayers(State(), req)
    {
      total := 0;
      for i := 0 to |sessionsById.keys|
        invariant total == PlayersIn(sessionsById.keys[..i], sessionsById.vals, req)
      {
        assert sessionsById.keys[..i + 1][..i] == sessionsById.keys[..i];
        var session := sessionsById.vals[sessionsById.keys[i]];
        if Matches(session, req) && !Terminal(session) && |session.players| > 0 {
          total := total + |session.players|;
        }
      }
      assert sessionsById.keys[..|sessionsById.keys|] == sessionsById.keys;
    }

    method Clear() returns (count: nat)
      modifies this
      ensures State() == Initial() && count == |old(State()).byId.keys|
    {
      count := |sessionsById.keys|;
      sessionsById := Empty();
      sessionIdByRoomId := map[];
    }
  }

  /** The sessions when the player has been removed from those in `done`. */
  function RemovedFrom(
    m: JsMap<string, Session>, done: set<string>, req: LeaveRequest, now: int): JsMap<string, Session> {
    RawMap(m.keys, map k | k in m.vals :: if k in done then AfterRemoval(m.vals[k], req, now) else m.vals[k])
  }

  /** The sessions when the empty-server report has reached the first `i`. */
  function EmptiedFirst(
    m: JsMap<string, Session>, i: nat, serverId: string, roomId: string, now: int): JsMap<string, Session>
    requires i <= |m.keys|
  {
    RawMap(m.keys, map k | k in m.vals :: if k in m.keys[..i] then Emptied(m.vals[k], serverId, roomId, now)
      else m.vals[k])
  }

  lemma EmptiedFirstStep(m: JsMap<string, Session>, i: nat, serverId: string, roomId: string, now: int)
    requires i < |m.keys|
    ensures var r, s := EmptiedFirst(m, i, serverId, roomId, now), m.vals[m.keys[i]];
            && r.vals[m.keys[i]] == s
            && EmptiedFirst(m, i + 1, serverId, roomId, now) ==
                 if SyncMatches(s, serverId, roomId) && |s.players| > 0
                 then Put(r, m.keys[i], s.(players := map[], updatedAt := now)) else r
  {
    hide SyncMatches;
    assert m.keys[..i + 1] == m.keys[..i] + [m.keys[i]];
    assert |m.vals[m.keys[i]].players| > 0 <==> m.vals[m.keys[i]].players != map[];
  }

  /** Removing the user from this session succeeds. */
  predicate RemovalFinds(m: JsMap<string, Session>, id: string, req: LeaveRequest)
    requires id in m.vals
  {
    HasPlayer(m.vals[id], req) && RemoveReply(m.vals[id], req.userId, req.connectionId).success
  }

  lemma RemovedFromNone(m: JsMap<string, Session>, req: LeaveRequest, now: int)
    ensures RemovedFrom(m, {}, req, now) == m
  {
  }

  lemma RemovedFromStep(m: JsMap<string, Session>, done: set<string>, id: string, req: LeaveRequest, now: int)
    requires id in m.vals && id !in done
    ensures var r := RemovedFrom(m, done, req, now);
            && id in r.vals && r.vals[id] == m.vals[id]
            && RemovedFrom(m, done + {id}, req, now) ==
                 if HasPlayer(m.vals[id], req)
                   then Put(r, id, WithoutPlayer(m.vals[id], req.userId, req.connectionId, now)) else r
  {
    hide HasPlayer, WithoutPlayer;
  }

  lemma LeaveFoundAmong(r: Registry, ids: seq<string>, req: LeaveRequest)
    requires req.userId != "" && forall id :: id in ids <==> id in r.byId.vals && Matches(r.byId.vals[id], req)
    ensures LeaveFound(r, req) <==> exists id :: id in ids && RemovalFinds(r.byId, id, req)
  {
  }

  function ClosedIfEmpty(s: Session, now: int): Session {
    if ClosesWhenEmpty(s) then Ended(s, Closed, now) else s
  }

  /** The sessions when those in `done` have been closed if empty. */
  function ClosedIn(m: JsMap<string, Session>, done: set<string>, now: int): JsMap<string, Session> {
    RawMap(m.keys, map k | k in m.vals :: if k in done then ClosedIfEmpty(m.vals[k], now) else m.vals[k])
  }

  lemma ClosedInStep(m: JsMap<string, Session>, done: set<string>, id: string, now: int)
    requires id in m.vals && id !in done
    ensures var r := ClosedIn(m, done, now);
            && r.vals[id] == m.vals[id]
            && ClosedIn(m, done + {id}, now) == if ClosesWhenEmpty(m.vals[id])
                 then Put(r, id, Ended(m.vals[id], Closed, now)) else r
  {
    hide ClosesWhenEmpty, Ended;
  }

  /** Removing the player and then closing what is empty is what a leave does to every session. */
  lemma ClosedAfterRemoval(m: JsMap<string, Session>, matching: seq<string>, req: LeaveRequest, now: int)
    requires forall id :: id in matching <==> id in m.vals && Matches(m.vals[id], req)
    ensures var r := ClosedIn(RemovedFrom(m, Elements(matching), req, now), Elements(matching), now);
            r.keys == m.keys && r.vals == map k | k in m.vals :: AfterLeave(m.vals[k], req, now)
  {
    hide AfterRemoval, ClosesWhenEmpty, Ended, Matches;
  }

  /** The room index without the entries of the sessions in `gone`. */
  function IndexWithout(
    index: map<string, string>, sessions: JsMap<string, Session>, gone: set<string>): map<string, string>
    requires gone <= sessions.vals.Keys
  {
    map room | room in index && (index[room] !in gone || sessions.vals[index[room]].roomId != room) :: index[room]
  }

  lemma IndexWithoutNone(index: map<string, string>, sessions: JsMap<string, Session>)
    ensures IndexWithout(index, sessions, {}) == index
  {
  }

  lemma IndexWithoutStep(index: map<string, string>, sessions: JsMap<string, Session>, gone: set<string>, id: string)
    requires gone <= sessions.vals.Keys && id in sessions.vals && id !in gone
    ensures var before, room := IndexWithout(index, sessions, gone), sessions.vals[id].roomId;
            IndexWithout(index, sessions, gone + {id}) == if room in before && before[room] == id then before - {room}
              else before
  {
  }

  /** The expired sessions among the first `i`. */
  function ExpiredAmong(sessions: JsMap<string, Session>, i: nat, now: int, ttlMs: int): set<string>
    requires i <= |sessions.keys|
  {
    set id | id in sessions.keys[..i] && Expired(sessions.vals[id], now, ttlMs)
  }

  lemma ExpiredAmongNone(sessions: JsMap<string, Session>, now: int, ttlMs: int)
    ensures ExpiredAmong(sessions, 0, now, ttlMs) == {}
  {
  }

  lemma ExpiredAmongStep(sessions: JsMap<string, Session>, i: nat, now: int, ttlMs: int)
    requires i < |sessions.keys|
    ensures var id := sessions.keys[i];
            && id !in ExpiredAmong(sessions, i, now, ttlMs)
                 && ExpiredAmong(sessions, i, now, ttlMs) <= sessions.vals.Keys
            && ExpiredAmong(sessions, i + 1, now, ttlMs)
                 == ExpiredAmong(sessions, i, now, ttlMs)
                   + (if Expired(sessions.vals[id], now, ttlMs) then {id} else {})
  {
    hide Expired;
    assert sessions.keys[..i + 1] == sessions.keys[..i] + [sessions.keys[i]];
  }

  lemma ExpiredAmongAll(r: Registry, now: int, ttlMs: int)
    ensures ExpiredAmong(r.byId, |r.byId.keys|, now, ttlMs) == ExpiredIds(r, now, ttlMs)
    ensures ClosedCleanedUp(r, now, ttlMs).index == IndexWithout(r.index, r.byId, ExpiredIds(r, now, ttlMs))
  {
    hide Expired;
    assert r.byId.keys[..|r.byId.keys|] == r.byId.keys;
  }
}
