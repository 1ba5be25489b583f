/** What heartbeats and departure reports of a dedicated server do to the sessions and to its player count. */
module DedicatedReports {
  import opened Common
  import opened JsMaps
  import ServerRecord
  import Servers = ServerRegistry
  import ServerRuns = ServerRegistryRuns
  import RegistryEffects
  import Sessions
  import SessionRuns

  datatype HeartbeatRequest = HeartbeatRequest(
    serverId: string, roomId: string, region: string, zone: string, status: Option<ServerRecord.Status>,
    currentPlayers: Raw, maxPlayers: Raw, rooms: seq<ServerRecord.HeartbeatRoom>)

  /** The handler fills in what the heartbeat leaves out; a missing capacity becomes 20. */
  function NormalizeHeartbeat(req: HeartbeatRequest): Servers.Heartbeat {
    Servers.Heartbeat(
      req.roomId, req.region, req.zone,
      Some(ClampInteger(req.currentPlayers, 0, 0, 100000)),
      Some(ClampInteger(req.maxPlayers, 20, 1, 100000)),
      Some(if req.status.Some? then req.status.value else ServerRecord.Online),
      Some(ServerRecord.NormalizeHeartbeatRoomList(req.rooms)))
  }

  predicate ReportsEmpty(req: HeartbeatRequest) {
    NormalizeHeartbeat(req).currentPlayers == Some(0)
  }

  /** The sessions after a heartbeat: one that reports no player empties the open sessions it is about. */
  function SessionsAfterHeartbeat(
    reg: Servers.Registry, r: Sessions.Registry, req: HeartbeatRequest, now: int): Sessions.Registry {
    if req.serverId in reg.vals && req.serverId != "" && ReportsEmpty(req)
    then Sessions.EmptySynced(r, req.serverId, req.roomId, now) else r
  }

  function ServersAfterHeartbeat(reg: Servers.Registry, req: HeartbeatRequest, now: int): Servers.Registry {
    if req.serverId in reg.vals && req.serverId != ""
    then Put(reg, req.serverId, Servers.WithHeartbeat(reg.vals[req.serverId], NormalizeHeartbeat(req), now)) else reg
  }

  // ---- a player has left ----

  /**
   No session of the server was found to hold the player, so the named session is tried by itself, whatever its
   server.
   */
  predicate FallsBack(r: Sessions.Registry, req: Sessions.LeaveRequest) {
    Sessions.LeaveAccepted(req) && !Sessions.LeaveFound(r, req) && req.sessionId != ""
  }

  function SessionsAfterReport(r: Sessions.Registry, req: Sessions.LeaveRequest, now: int): Sessions.Registry {
    var left := Sessions.PlayerLeft(r, req, now);
    if FallsBack(r, req) then Sessions.PlayerRemoved(left, req.sessionId, req.userId, req.connectionId, now) else left
  }

  /** The player count that a successful report gives the server. */
  function ReportedCount(r: Sessions.Registry, req: Sessions.LeaveRequest, now: int): Option<int> {
    if FallsBack(r, req) then
      var left := Sessions.PlayerLeft(r, req, now);
      if req.sessionId in left.byId.vals
        && Sessions.RemoveReply(left.byId.vals[req.sessionId], req.userId, req.connectionId).success
      then Some(|SessionsAfterReport(r, req, now).byId.vals[req.sessionId].players|) else None
    else
      var reply := Sessions.LeaveReplyFor(r, req, now);
      if reply.success then Some(reply.serverCurrentPlayers) else None
  }

  function ServersAfterReport(reg: Servers.Registry, serverId: string, count: Option<int>, now: int): Servers.Registry {
    if count.Some? && serverId in reg.vals
    then Put(reg, serverId, Servers.WithPlayerCount(reg.vals[serverId], Num(count.value), now)) else reg
  }

  class DedicatedServerHandler {
    const registry: Servers.GameServerRegistry
    const sessionRegistry: Sessions.GameSessionRegistry

    constructor (registry: Servers.GameServerRegistry, sessionRegistry: Sessions.GameSessionRegistry)
      ensures this.registry == registry && this.sessionRegistry == sessionRegistry
    {
      this.registry := registry;
      this.sessionRegistry := sessionRegistry;
    }

    method HeartbeatDedicatedServer(req: HeartbeatRequest, now: int) returns (recorded: bool)
      modifies registry, sessionRegistry
      ensures recorded <==> req.serverId != "" && req.serverId in old(registry.serversById).vals
      ensures registry.serversById == ServersAfterHeartbeat(old(registry.serversById), req, now)
      ensures sessionRegistry.State()
           == SessionsAfterHeartbeat(old(registry.serversById), old(sessionRegistry.State()), req, now)
    {
      var heartbeat := NormalizeHeartbeat(req);
      if req.serverId == "" || req.serverId !in registry.serversById.vals {
        return false;
      }
      recorded := registry.UpdateHeartbeat(req.serverId, heartbeat, now);
      if heartbeat.currentPlayers == Some(0) {
        sessionRegistry.SyncEmptyServerSessions(req.serverId, req.roomId, now);
      }
    }

    method ReportPlayerLeft(req: Sessions.LeaveRequest, now: int) returns (count: Option<int>)
      modifies registry, sessionRegistry
      ensures sessionRegistry.State() == SessionsAfterReport(old(sessionRegistry.State()), req, now)
      ensures count == ReportedCount(old(sessionRegistry.State()), req, now)
      ensures registry.serversById == ServersAfterReport(old(registry.serversById), req.serverId, count, now)
    {
      hide Sessions.AfterLeave, Sessions.LeaveFound, Sessions.WithoutPlayer, Sessions.ServerPlayers,
        Servers.WithPlayerCount;
      if req.serverId == "" || req.userId == "" {
        return None;
      }
      var left := sessionRegistry.RemovePlayerFromServer(req, now);
      count := if left.success then Some(left.serverCurrentPlayers) else None;
      if !left.success && req.sessionId != "" && !(req.reason == "duplicate_user_replaced" && req.connectionId == "") {
        var removed := sessionRegistry.RemovePlayer(req.sessionId, req.userId, req.connectionId, now);
        if removed.success {
          count := Some(|sessionRegistry.sessionsById.vals[req.sessionId].players|);
        }
      }
      if count.Some? {
        var _ := registry.UpdatePlayerCount(req.serverId, Num(count.value), now);
      }
    }
  }

  // ---- what the reports do to the server ----

  /**
   What a heartbeat through the handler makes of its server: the size it reports, or 20 when it reports none, and the
   players it reports, or none, cut to the size known before and to the new one; a server that reports no status is
   taken to report online. No other server changes.
   */
  lemma HeartbeatSetsServer(reg: Servers.Registry, req: HeartbeatRequest, now: int)
    requires ServerRuns.Good(reg) && req.serverId in reg.vals
    ensures var s, next := reg.vals[req.serverId], ServersAfterHeartbeat(reg, req, now);
            var size := if req.maxPlayers.Num? then Max(1, Min(req.maxPlayers.n, 1024)) else 20;
            var players := if req.currentPlayers.Num? then Max(0, Min(req.currentPlayers.n, s.maxPlayers)) else 0;
            var asked := if req.status.Some? then req.status.value else ServerRecord.Online;
            && next.vals.Keys == reg.vals.Keys
            && (forall x | x in reg.vals && x != req.serverId :: next.vals[x] == reg.vals[x])
            && var t := next.vals[req.serverId];
               && t.maxPlayers == size && t.currentPlayers == Min(players, size)
               && t.status == (if s.status in {ServerRecord.Reserved, ServerRecord.Claimed}
                                  && asked == ServerRecord.Warm && t.currentPlayers == 0
                                  && (req.roomId != "" || s.roomId != "")
                               then s.status else RegistryEffects.Listed(asked, t.currentPlayers, size))
  {
    hide Servers.WithHeartbeat, ServerRecord.NormalizeHeartbeatRoomList, ServerRuns.GoodServer,
      RegistryEffects.Listed;
    RegistryEffects.GoodId(reg, req.serverId);
    var op := ServerRuns.HeartbeatOp(req.serverId, NormalizeHeartbeat(req), now);
    RegistryEffects.CountsChangeExactly(op, reg, Servers.Defaults("", "", 0), req.serverId);
    hide ServerRuns.Good;
  }

  /** A count gives its server that many players, cut to its size, and the status to go with it. */
  lemma CountSetsServer(reg: Servers.Registry, serverId: string, count: Option<int>, now: int)
    requires ServerRuns.Good(reg)
    ensures var next := ServersAfterReport(reg, serverId, count, now);
            && (count.None? || serverId !in reg.vals ==> next == reg)
            && next.vals.Keys == reg.vals.Keys
            && (forall x | x in reg.vals && x != serverId :: next.vals[x] == reg.vals[x])
            && (count.Some? && serverId in reg.vals ==>
                 var s, t := reg.vals[serverId], next.vals[serverId];
                 && t.currentPlayers == Max(0, Min(count.value, s.maxPlayers)) && t.maxPlayers == s.maxPlayers
                 && t.status == RegistryEffects.Listed(s.status, t.currentPlayers, s.maxPlayers))
  {
    hide Servers.WithPlayerCount, ServerRuns.GoodServer, RegistryEffects.Listed;
    if count.Some? && serverId in reg.vals {
      RegistryEffects.GoodId(reg, serverId);
      var op := ServerRuns.CountOp(serverId, Num(count.value), now);
      RegistryEffects.CountsChangeExactly(op, reg, Servers.Defaults("", "", 0), serverId);
    }
    hide ServerRuns.Good;
  }

  // ---- what the reports do to each session ----

  /** A report keeps the session invariants. */
  lemma ReportGood(r: Sessions.Registry, req: Sessions.LeaveRequest, now: int)
    requires SessionRuns.Good(r)
    ensures SessionRuns.Good(SessionsAfterReport(r, req, now))
  {
    hide SessionRuns.Good, Sessions.PlayerLeft, Sessions.PlayerRemoved, FallsBack;
    SessionRuns.PlayerLeftGood(r, req, now);
    if FallsBack(r, req) {
      var left := Sessions.PlayerLeft(r, req, now);
      SessionRuns.OneSessionGood(SessionRuns.RemovePlayerOp(req.sessionId, req.userId, req.connectionId, now), left, 0);
    }
  }

  /**
   The late report of a replaced connection, which does not say which connection it means, leaves every session as
   it is; it only tells the server its number of players, or the number reported if that is larger. Without a
   server or a user a report does nothing at all. Every other report is accepted.
   */
  lemma StaleReportIsIgnored(r: Sessions.Registry, req: Sessions.LeaveRequest, now: int)
    ensures var named := req.serverId != "" && req.userId != "";
            var stale := req.reason == "duplicate_user_replaced" && req.connectionId == "";
            && (Sessions.LeaveAccepted(req) <==> named && !stale)
            && (!named || stale ==> SessionsAfterReport(r, req, now) == r)
            && (!named ==> ReportedCount(r, req, now) == None)
            && (named && stale ==>
                  ReportedCount(r, req, now) == Some(
                    if req.currentPlayers.Some? && req.currentPlayers.value > Sessions.ServerPlayers(r, req)
                    then req.currentPlayers.value else Sessions.ServerPlayers(r, req)))
  {
    SessionRuns.LeaveAcceptedExactly(r, req, now);
    hide Sessions.ServerPlayers, Sessions.LeaveFound;
  }

  lemma AfterReport(r: Sessions.Registry, req: Sessions.LeaveRequest, now: int, id: string)
    requires id in r.byId.vals && Sessions.LeaveAccepted(req)
    ensures id in SessionsAfterReport(r, req, now).byId.vals
    ensures var t := Sessions.AfterLeave(r.byId.vals[id], req, now);
            SessionsAfterReport(r, req, now).byId.vals[id] ==
              if FallsBack(r, req) && id == req.sessionId
                then Sessions.WithoutPlayer(t, req.userId, req.connectionId, now) else t
  {
    hide FallsBack, Sessions.AfterLeave, Sessions.WithoutPlayer;
  }

  /**
   Exactly when an accepted report takes its user out of a session: the session does not hold the user under
   another non-empty connection, and either it belongs to the reported server and room, or no session of
   these has the user and the report names this one. A report can thus free a seat on
   another server. The seats of other users never change.
   */
  lemma ReportRemovesExactly(r: Sessions.Registry, req: Sessions.LeaveRequest, now: int, id: string)
    requires SessionRuns.Good(r) && Sessions.LeaveAccepted(req) && id in r.byId.vals
    ensures id in SessionsAfterReport(r, req, now).byId.vals
    ensures var s, t := r.byId.vals[id], SessionsAfterReport(r, req, now).byId.vals[id];
            && (forall u | u != req.userId ::
                 (u in t.players <==> u in s.players) && (u in s.players ==> t.players[u] == s.players[u]))
            && (req.userId in s.players ==>
                  (req.userId !in t.players <==>
                    && !Sessions.Replaced(s, req.userId, req.connectionId)
                    && (Sessions.Matches(s, req) || (!Sessions.LeaveFound(r, req) && req.sessionId == id))))
  {
    var s, left := r.byId.vals[id], Sessions.AfterLeave(r.byId.vals[id], req, now);
    AfterReport(r, req, now, id);
    SessionRuns.LeaveSpecification(s, id, req, now);
    FoundWhenMatching(r, req, id);
    hide Sessions.Matches, Sessions.LeaveFound, Sessions.AfterLeave, SessionsAfterReport, SessionRuns.Good,
      Sessions.LeaveAccepted;
    if FallsBack(r, req) && id == req.sessionId {
      TakenOut(s, left, req, now);
    }
  }

  /**
   The player count that an accepted report gives its server: the players left in the sessions it is about when the
   user was found there; else, when the session it names holds the user, the players left in that one alone; else
   none is given.
   */
  lemma ReportedCountExactly(r: Sessions.Registry, req: Sessions.LeaveRequest, now: int)
    requires SessionRuns.Good(r) && Sessions.LeaveAccepted(req)
    ensures var next, id := SessionsAfterReport(r, req, now), req.sessionId;
            ReportedCount(r, req, now) ==
              if Sessions.LeaveFound(r, req) then Some(Sessions.ServerPlayers(next, req))
              else if id in r.byId.vals && req.userId in r.byId.vals[id].players && id in next.byId.vals
                then Some(|next.byId.vals[id].players|) else None
  {
    hide Sessions.ServerPlayers, Sessions.LeaveFound;
    assert "" !in r.byId.vals;
    if !Sessions.LeaveFound(r, req) && req.sessionId in r.byId.vals {
      StaysWhenNotFound(r, req, now, req.sessionId);
      AfterReport(r, req, now, req.sessionId);
    }
    hide SessionRuns.Good;
  }

  lemma StaysWhenNotFound(r: Sessions.Registry, req: Sessions.LeaveRequest, now: int, id: string)
    requires SessionRuns.Good(r) && Sessions.LeaveAccepted(req) && !Sessions.LeaveFound(r, req) && id in r.byId.vals
    ensures id in Sessions.PlayerLeft(r, req, now).byId.vals
    ensures req.userId in r.byId.vals[id].players
       <==> req.userId in Sessions.PlayerLeft(r, req, now).byId.vals[id].players
  {
    FoundWhenMatching(r, req, id);
    hide Sessions.LeaveFound;
    SessionRuns.LeaveSpecification(r.byId.vals[id], id, req, now);
    hide Sessions.AfterLeave;
  }

  /** Removing the user from what a leave has left of a session. */
  lemma TakenOut(s: Sessions.Session, left: Sessions.Session, req: Sessions.LeaveRequest, now: int)
    requires req.userId != "" && forall u | u in left.players :: u in s.players && left.players[u] == s.players[u]
    requires forall u | u != req.userId && u in s.players :: u in left.players
    ensures var t := Sessions.WithoutPlayer(left, req.userId, req.connectionId, now);
            && (forall u | u != req.userId ::
                 (u in t.players <==> u in s.players) && (u in s.players ==> t.players[u] == s.players[u]))
            && (req.userId in t.players <==>
                 req.userId in left.players && Sessions.Replaced(s, req.userId, req.connectionId))
  {
  }

  /** A report of server "a" takes the user out of the session of server "b" that it names. */
  lemma ReportReachesOtherServer(now: int)
    ensures var create := Sessions.CreateRequest("x", "room", "b", None, Absent, None, false, None);
            var player := Sessions.Player("u", "", "", true, now);
            var r := Sessions.PlayerAdded(Sessions.Created(Sessions.Initial(), create, now), "x", player, now);
            var report := Sessions.LeaveRequest("a", "", "u", "", "x", "", None);
            && "x" in r.byId.vals && "u" in r.byId.vals["x"].players
            && "x" in SessionsAfterReport(r, report, now).byId.vals
            && "u" !in SessionsAfterReport(r, report, now).byId.vals["x"].players
  {
  }

  lemma FoundWhenMatching(r: Sessions.Registry, req: Sessions.LeaveRequest, id: string)
    requires SessionRuns.Good(r) && id in r.byId.vals
    ensures var s := r.byId.vals[id];
            (Sessions.Matches(s, req) && req.userId in s.players && !Sessions.Replaced(s, req.userId, req.connectionId))
            ==> Sessions.LeaveFound(r, req)
  {
    var s := r.byId.vals[id];
    if req.userId in s.players {
      assert s.players[req.userId].userId == req.userId;
    }
  }

  /** A heartbeat of a registered server without players empties exactly its open sessions, and closes none. */
  lemma EmptyHeartbeatEmptiesExactly(
    reg: Servers.Registry, r: Sessions.Registry, req: HeartbeatRequest, now: int, id: string)
    requires req.serverId != "" && req.serverId in reg.vals && id in r.byId.vals
    ensures var s, next := r.byId.vals[id], SessionsAfterHeartbeat(reg, r, req, now);
            && next.byId.keys == r.byId.keys && next.index == r.index
            && next.byId.vals[id].status == s.status && next.byId.vals[id].closedAt == s.closedAt
            && next.byId.vals[id].players ==
                 if (!req.currentPlayers.Num? || req.currentPlayers.n <= 0) && Sessions.Open(s)
                    && s.serverId == req.serverId && (req.roomId == "" || s.roomId == req.roomId)
                 then map[] else s.players
  {
    hide ServerRecord.NormalizeHeartbeatRoomList, Sessions.Open;
  }
}
