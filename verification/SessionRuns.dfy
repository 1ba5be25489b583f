/** What holds of the session registry after every run of its operations. */
module SessionRuns {
  import opened Common
  import opened JsMaps
  import opened Sessions

  // ---- the invariant ----

  ghost predicate GoodSession(s: Session, id: string) {
    && s.sessionId == id && id != ""
    && s.roomId != ""
    && |s.players| <= s.maxPlayers
    && (forall u | u in s.players :: s.players[u].userId == u)
    && (Open(s) ==> s.closedAt.None?)
  }

  /** An open session is the indexed session of its room. */
  ghost predicate OpenIndexed(r: Registry) {
    forall id | id in r.byId.vals && Open(r.byId.vals[id]) ::
      r.byId.vals[id].roomId in r.index && r.index[r.byId.vals[id].roomId] == id
  }

  /** The index names existing sessions of the right room. */
  ghost predicate IndexSound(r: Registry) {
    forall room | room in r.index :: r.index[room] in r.byId.vals && r.byId.vals[r.index[room]].roomId == room
  }

  ghost predicate SessionsGood(r: Registry) {
    forall id | id in r.byId.vals :: GoodSession(r.byId.vals[id], id)
  }

  ghost predicate Good(r: Registry) {
    SessionsGood(r) && OpenIndexed(r) && IndexSound(r)
  }

  // ---- runs ----

  datatype Op =
    | CreateOp(create: CreateRequest, now: int)
    | GetOrCreateOp(create: CreateRequest, now: int)
    | AddPlayerOp(id: string, player: Player, now: int)
    | RemovePlayerOp(id: string, userId: string, connectionId: string, now: int)
    | ReadyOp(id: string, userId: string, isReady: bool, now: int)
    | CloseOp(id: string, now: int)
    | FailOp(id: string, now: int)
    | DeleteOp(id: string)
    | LeaveOp(leave: LeaveRequest, now: int)
    | SyncEmptyOp(serverId: string, roomId: string, now: int)
    | CleanupOp(now: int)
    | ClearOp

  function Apply(op: Op, r: Registry, ttlMs: int): Registry {
    match op
    case CreateOp(req, now) => Created(r, req, now)
    case GetOrCreateOp(req, now) => GotOrCreated(r, req, now)
    case AddPlayerOp(id, p, now) => PlayerAdded(r, id, p, now)
    case RemovePlayerOp(id, u, c, now) => PlayerRemoved(r, id, u, c, now)
    case ReadyOp(id, u, ready, now) => PlayerReady(r, id, u, ready, now)
    case CloseOp(id, now) => SessionEnded(r, id, Closed, now)
    case FailOp(id, now) => SessionEnded(r, id, Failed, now)
    case DeleteOp(id) => SessionDeleted(r, id)
    case LeaveOp(req, now) => PlayerLeft(r, req, now)
    case SyncEmptyOp(server, room, now) => EmptySynced(r, server, room, now)
    case CleanupOp(now) => ClosedCleanedUp(r, now, ttlMs)
    case ClearOp => Initial()
  }

  /** Created sessions get ids that are in use nowhere. */
  predicate FreshIds(op: Op, r: Registry) {
    op.CreateOp? || op.GetOrCreateOp? ==> op.create.sessionId != "" && op.create.sessionId !in r.byId.vals
  }

  function After(ops: seq<Op>, ttlMs: int, n: nat): Registry
    requires n <= |ops|
  {
    if n == 0 then Initial() else Apply(ops[n - 1], After(ops, ttlMs, n - 1), ttlMs)
  }

  ghost predicate AllFresh(ops: seq<Op>, ttlMs: int, n: nat)
    requires n <= |ops|
  {
    forall i: nat | i < n :: FreshIds(ops[i], After(ops, ttlMs, i))
  }

  // ---- preservation ----

  /** A session may change its players and close, but not move, reopen or overfill. */
  ghost predicate Evolves(s: Session, t: Session) {
    && t.sessionId == s.sessionId && t.roomId == s.roomId && t.serverId == s.serverId && t.maxPlayers == s.maxPlayers
    && (Open(t) ==> Open(s) && t.closedAt == s.closedAt)
  }

  lemma PutGood(r: Registry, id: string, t: Session)
    requires Good(r) && id in r.byId.vals && Evolves(r.byId.vals[id], t) && GoodSession(t, id)
    ensures Good(WithSession(r, id, t))
  {
  }

  lemma NoOpenSessionInRoom(r: Registry, req: CreateRequest)
    requires Good(r) && CreateError(r, req).None?
    ensures forall id | id in r.byId.vals && Open(r.byId.vals[id]) :: r.byId.vals[id].roomId != req.roomId
  {
  }

  lemma CreatedGood(r: Registry, req: CreateRequest, now: int)
    requires Good(r) && req.sessionId != "" && req.sessionId !in r.byId.vals
    ensures Good(Created(r, req, now))
  {
    if CreateError(r, req).None? {
      NoOpenSessionInRoom(r, req);
      NewSessionGood(req, now);
      AddedGood(r, req.sessionId, NewSession(req, now));
    }
  }

  lemma NewSessionGood(req: CreateRequest, now: int)
    requires req.sessionId != "" && req.roomId != ""
    ensures GoodSession(NewSession(req, now), req.sessionId) && NewSession(req, now).roomId == req.roomId
  {
  }

  /** A new session of a room without an open one takes over the index entry of the room. */
  lemma AddedGood(r: Registry, id: string, s: Session)
    requires Good(r) && id !in r.byId.vals && GoodSession(s, id)
    requires forall x | x in r.byId.vals && Open(r.byId.vals[x]) :: r.byId.vals[x].roomId != s.roomId
    ensures Good(Registry(Put(r.byId, id, s), r.index[s.roomId := id]))
  {
    hide GoodSession, Open;
    var next := Registry(Put(r.byId, id, s), r.index[s.roomId := id]);
    assert s.roomId == next.byId.vals[id].roomId;
    assert forall x | x in next.byId.vals && x != id :: x in r.byId.vals && next.byId.vals[x] == r.byId.vals[x];
  }

  lemma SmallerPlayers(players: map<string, Player>, u: string)
    ensures |players - {u}| <= |players|
  {
    assert (players - {u}).Keys == players.Keys - {u};
    assert |(players - {u}).Keys| <= |players.Keys| by {
      if u in players.Keys {
        assert players.Keys == (players.Keys - {u}) + {u};
      } else {
        assert players.Keys - {u} == players.Keys;
      }
    }
  }

  lemma WithoutPlayerGood(s: Session, id: string, userId: string, connectionId: string, now: int)
    requires GoodSession(s, id)
    ensures var t := WithoutPlayer(s, userId, connectionId, now); GoodSession(t, id) && Evolves(s, t)
  {
    SmallerPlayers(s.players, userId);
  }

  lemma LeaveGood(s: Session, id: string, req: LeaveRequest, now: int)
    requires GoodSession(s, id)
    ensures var t := AfterLeave(s, req, now); GoodSession(t, id) && Evolves(s, t)
  {
    hide HasPlayer, WithoutPlayer;
    WithoutPlayerGood(s, id, req.userId, req.connectionId, now);
  }

  lemma SameKeysGood(r: Registry, m: JsMap<string, Session>)
    requires Good(r) && m.keys == r.byId.keys
    requires forall id | id in r.byId.vals :: GoodSession(m.vals[id], id) && Evolves(r.byId.vals[id], m.vals[id])
    ensures Good(r.(byId := m))
  {
    assert forall id :: id in m.vals <==> id in r.byId.vals;
  }

  lemma WithPlayerGood(s: Session, id: string, p: Player, now: int)
    requires GoodSession(s, id) && Open(s) && (|s.players| < s.maxPlayers || p.userId in s.players)
    ensures var t := WithPlayer(s, p, now); GoodSession(t, id) && Evolves(s, t)
  {
    assert s.players[p.userId := p].Keys == s.players.Keys + {p.userId};
    if p.userId in s.players { assert s.players.Keys + {p.userId} == s.players.Keys; }
    assert |s.players[p.userId := p]| == |s.players[p.userId := p].Keys| && |s.players| == |s.players.Keys|;
  }

  lemma ReadyGood(s: Session, id: string, userId: string, isReady: bool, now: int)
    requires GoodSession(s, id)
    ensures var t := WithReady(s, userId, isReady, now); GoodSession(t, id) && Evolves(s, t)
  {
    if userId in s.players {
      var t := WithReady(s, userId, isReady, now);
      assert t.players.Keys == s.players.Keys;
      assert |t.players| == |t.players.Keys| && |s.players| == |s.players.Keys|;
    }
  }

  lemma PlayerLeftGood(r: Registry, req: LeaveRequest, now: int)
    requires Good(r)
    ensures Good(PlayerLeft(r, req, now))
  {
    hide AfterLeave, GoodSession, Evolves;
    if LeaveAccepted(req) {
      forall id | id in r.byId.vals
        ensures GoodSession(AfterLeave(r.byId.vals[id], req, now), id)
        ensures Evolves(r.byId.vals[id], AfterLeave(r.byId.vals[id], req, now))
      {
        LeaveGood(r.byId.vals[id], id, req, now);
      }
      SameKeysGood(r, PlayerLeft(r, req, now).byId);
    }
  }

  lemma EmptySyncedGood(r: Registry, serverId: string, roomId: string, now: int)
    requires Good(r)
    ensures Good(EmptySynced(r, serverId, roomId, now))
  {
    hide Emptied, GoodSession, Evolves;
    if serverId != "" || roomId != "" {
      forall id | id in r.byId.vals
        ensures GoodSession(Emptied(r.byId.vals[id], serverId, roomId, now), id)
        ensures Evolves(r.byId.vals[id], Emptied(r.byId.vals[id], serverId, roomId, now))
      {
        EmptiedGood(r.byId.vals[id], id, serverId, roomId, now);
      }
      SameKeysGood(r, EmptySynced(r, serverId, roomId, now).byId);
    }
  }

  lemma EmptiedGood(s: Session, id: string, serverId: string, roomId: string, now: int)
    requires GoodSession(s, id)
    ensures var t := Emptied(s, serverId, roomId, now); GoodSession(t, id) && Evolves(s, t)
  {
  }

  /** Taking sessions away, and from the index just their entries, keeps the invariant. */
  lemma ShrunkGood(r: Registry, next: Registry)
    requires Good(r)
    requires forall id | id in next.byId.vals :: id in r.byId.vals && next.byId.vals[id] == r.byId.vals[id]
    requires forall room | room in next.index ::
      room in r.index && next.index[room] == r.index[room] && r.index[room] in next.byId.vals
    requires forall room | room in r.index && r.index[room] in next.byId.vals :: room in next.index
    ensures Good(next)
  {
    hide GoodSession, Open;
  }

  /** The sweep only takes sessions that are not open, so the index keeps every open session. */
  lemma CleanupGood(r: Registry, now: int, ttlMs: int)
    requires Good(r)
    ensures Good(ClosedCleanedUp(r, now, ttlMs))
  {
    hide GoodSession, Open, Expired;
    ShrunkGood(r, ClosedCleanedUp(r, now, ttlMs));
  }

  lemma DeletedGood(r: Registry, id: string)
    requires Good(r)
    ensures Good(SessionDeleted(r, id))
  {
    hide GoodSession, Open;
    if id != "" {
      assert forall room | room in r.index && r.index[room] == id :: r.byId.vals[id].roomId == room;
      ShrunkGood(r, SessionDeleted(r, id));
    }
  }

  lemma ApplyGood(op: Op, r: Registry, ttlMs: int)
    requires Good(r) && FreshIds(op, r)
    ensures Good(Apply(op, r, ttlMs))
  {
    hide Created, PlayerLeft, EmptySynced, ClosedCleanedUp, SessionDeleted, Good, Evolves, GoodSession, WithPlayer,
      WithoutPlayer, WithReady;
    if op.AddPlayerOp? || op.RemovePlayerOp? || op.ReadyOp? || op.CloseOp? || op.FailOp? {
      OneSessionGood(op, r, ttlMs);
    } else {
      match op
      case CreateOp(req, now) => CreatedGood(r, req, now);
      case GetOrCreateOp(req, now) => CreatedGood(r, req, now);
      case LeaveOp(req, now) => PlayerLeftGood(r, req, now);
      case SyncEmptyOp(server, room, now) => EmptySyncedGood(r, server, room, now);
      case CleanupOp(now) => CleanupGood(r, now, ttlMs);
      case DeleteOp(id) => DeletedGood(r, id);
      case ClearOp => InitialGood();
      case _ =>
    }
  }

  lemma InitialGood()
    ensures Good(Initial())
  {
  }

  lemma OneSessionGood(op: Op, r: Registry, ttlMs: int)
    requires Good(r) && (op.AddPlayerOp? || op.RemovePlayerOp? || op.ReadyOp? || op.CloseOp? || op.FailOp?)
    ensures Good(Apply(op, r, ttlMs))
  {
    hide WithPlayer, WithoutPlayer, WithReady, OpenIndexed, IndexSound, WithSession;
    if op.id in r.byId.vals {
      var id, s := op.id, r.byId.vals[op.id];
      match op
      case AddPlayerOp(_, p, now) =>
        if AddPlayerReply(r, id, p).success {
          WithPlayerGood(s, id, p, now);
          PutGood(r, id, WithPlayer(s, p, now));
        }
      case RemovePlayerOp(_, u, c, now) =>
        WithoutPlayerGood(s, id, u, c, now);
        PutGood(r, id, WithoutPlayer(s, u, c, now));
      case ReadyOp(_, u, ready, now) =>
        ReadyGood(s, id, u, ready, now);
        PutGood(r, id, WithReady(s, u, ready, now));
      case CloseOp(_, now) => PutGood(r, id, Ended(s, Closed, now));
      case FailOp(_, now) => PutGood(r, id, Ended(s, Failed, now));
    }
  }

  /** Every run with fresh ids keeps the index, capacity and closing invariants. */
  lemma {:induction false} SessionInvariantAlwaysHolds(ops: seq<Op>, ttlMs: int, n: nat)
    requires n <= |ops| && AllFresh(ops, ttlMs, n)
    ensures Good(After(ops, ttlMs, n))
  {
    hide Apply, Good, FreshIds;
    if n == 0 {
      InitialGood();
    } else {
      SessionInvariantAlwaysHolds(ops, ttlMs, n - 1);
      ApplyGood(ops[n - 1], After(ops, ttlMs, n - 1), ttlMs);
    }
  }

  // ---- consequences ----

  /** Each room has at most one open session; it is the one found for the room, and no sweep takes it. */
  lemma OneOpenSessionPerRoom(ops: seq<Op>, ttlMs: int, n: nat, a: string, b: string, now: int)
    requires n <= |ops| && AllFresh(ops, ttlMs, n)
    ensures var r := After(ops, ttlMs, n);
            a in r.byId.vals && Open(r.byId.vals[a]) ==>
              var s := r.byId.vals[a];
              && FindByRoom(r, s.roomId) == Some(s)
              && (b in r.byId.vals && Open(r.byId.vals[b]) && r.byId.vals[b].roomId == s.roomId ==> a == b)
              && a in ClosedCleanedUp(r, now, ttlMs).byId.vals && ClosedCleanedUp(r, now, ttlMs).byId.vals[a] == s
              && |s.players| <= s.maxPlayers
  {
    hide After;
    SessionInvariantAlwaysHolds(ops, ttlMs, n);
  }

  /** A valid request for a session is never refused: it gets the open session of its room or a new one. */
  lemma GetOrCreateNeverThrows(ops: seq<Op>, ttlMs: int, n: nat, req: CreateRequest, now: int)
    requires n <= |ops| && AllFresh(ops, ttlMs, n) && ValidCreateRequest(req)
    requires req.sessionId != "" && req.sessionId !in After(ops, ttlMs, n).byId.vals
    ensures var r := After(ops, ttlMs, n);
            var reply, next := GetOrCreateReply(r, req, now), GotOrCreated(r, req, now);
            && reply.Opened? && reply.session.roomId == req.roomId
            && FindByRoom(next, req.roomId) == Some(reply.session)
            && (req.status.None? ==> Open(reply.session))
  {
    hide After;
    SessionInvariantAlwaysHolds(ops, ttlMs, n);
  }

  /**
   The unrestricted status update keeps the invariant exactly when it does not open a session, or the
   session it opens is the indexed one of its room and was never ended.
   */
  lemma StatusUpdateKeepsInvariantExactlyWhen(ops: seq<Op>, ttlMs: int, n: nat, id: string, status: Status, now: int)
    requires n <= |ops| && AllFresh(ops, ttlMs, n)
    ensures var r := After(ops, ttlMs, n);
            id in r.byId.vals ==>
              var s := r.byId.vals[id];
              (Good(StatusUpdated(r, id, Some(status), now)) <==>
                (status.Creating? || status.Active? ==>
                  s.closedAt.None? && s.roomId in r.index && r.index[s.roomId] == id))
  {
    hide After;
    SessionInvariantAlwaysHolds(ops, ttlMs, n);
    if id in After(ops, ttlMs, n).byId.vals {
      StatusUpdateExact(After(ops, ttlMs, n), id, status, now);
    }
  }

  /** A closed session that is set active again is open with a closing time. */
  lemma ReopenedSessionIsNotGood(now: int)
    ensures var req := CreateRequest("x", "room", "server", None, Absent, None, false, None);
            var ended := SessionEnded(Created(Initial(), req, now), "x", Closed, now);
            Good(ended) && !Good(StatusUpdated(ended, "x", Some(Active), now))
  {
    hide Good;
    var req := CreateRequest("x", "room", "server", None, Absent, None, false, None);
    InitialGood();
    CreatedGood(Initial(), req, now);
    var created := Created(Initial(), req, now);
    OneSessionGood(CloseOp("x", now), created, 0);
    var ended := SessionEnded(created, "x", Closed, now);
    assert "x" in ended.byId.vals && ended.byId.vals["x"].closedAt == Some(now);
    StatusUpdateExact(ended, "x", Active, now);
  }

  lemma StatusUpdateExact(r: Registry, id: string, status: Status, now: int)
    requires Good(r) && id in r.byId.vals
    ensures var s := r.byId.vals[id];
            Good(StatusUpdated(r, id, Some(status), now)) <==>
              (status.Creating? || status.Active? ==>
                s.closedAt.None? && s.roomId in r.index && r.index[s.roomId] == id)
  {
    var s := r.byId.vals[id];
    var t := WithStatus(s, status, now);
    assert Open(t) <==> status.Creating? || status.Active?;
    assert Open(t) ==> t.closedAt == s.closedAt;
    assert GoodSession(t, id) <==> (Open(t) ==> t.closedAt.None?);
    hide GoodSession, Open, WithStatus;
    ReplacedExact(r, id, t);
  }

  /** Replacing a session by one of the same room keeps the invariant exactly when it is good and indexed if open. */
  lemma ReplacedExact(r: Registry, id: string, t: Session)
    requires Good(r) && id in r.byId.vals && t.roomId == r.byId.vals[id].roomId
    ensures Good(WithSession(r, id, t)) <==>
              GoodSession(t, id) && (Open(t) ==> t.roomId in r.index && r.index[t.roomId] == id)
  {
    hide GoodSession, Open;
    var next := WithSession(r, id, t);
    assert next.byId.vals[id] == t && next.index == r.index;
    assert forall x | x in next.byId.vals && x != id :: x in r.byId.vals && next.byId.vals[x] == r.byId.vals[x];
  }

  // ---- the player-left specification ----

  /**
   What a leave does to each session: sessions of other servers or rooms are untouched; of a matching
   one, exactly this user's entry goes, and it stays exactly when a different non-empty connection
   holds it while one is reported; an empty non-permanent session ends closed or failed; a permanent
   one is never closed, and a session with players keeps its status.
   */
  lemma PlayerLeftSpecification(r: Registry, req: LeaveRequest, now: int, id: string)
    requires Good(r) && LeaveAccepted(req) && id in r.byId.vals
    ensures var s, t := r.byId.vals[id], PlayerLeft(r, req, now).byId.vals[id];
            && (!Matches(s, req) ==> t == s)
            && (forall u | u != req.userId :: u in t.players <==> u in s.players)
            && (forall u | u in t.players :: u in s.players && t.players[u] == s.players[u])
            && (Matches(s, req) && req.userId in s.players ==>
                  (req.userId in t.players <==>
                    req.connectionId != "" && s.players[req.userId].connectionId !in {"", req.connectionId}))
            && (Matches(s, req) && t.players == map[] && !Permanent(s) ==> Terminal(t))
            && (Permanent(s) || t.players != map[] ==> t.status == s.status && t.closedAt == s.closedAt)
            && t.sessionId == s.sessionId && t.roomId == s.roomId && t.serverId == s.serverId
                 && (Permanent(t) <==> Permanent(s))
    ensures PlayerLeft(r, req, now).index == r.index && PlayerLeft(r, req, now).byId.keys == r.byId.keys
  {
    hide AfterLeave, Matches, Replaced, Permanent, Terminal;
    LeaveSpecification(r.byId.vals[id], id, req, now);
  }

  lemma LeaveSpecification(s: Session, id: string, req: LeaveRequest, now: int)
    requires GoodSession(s, id) && LeaveAccepted(req)
    ensures var t := AfterLeave(s, req, now);
            && (!Matches(s, req) ==> t == s)
            && (forall u | u != req.userId :: u in t.players <==> u in s.players)
            && (forall u | u in t.players :: u in s.players && t.players[u] == s.players[u])
            && (Matches(s, req) && req.userId in s.players ==>
                  (req.userId in t.players <==>
                    req.connectionId != "" && s.players[req.userId].connectionId !in {"", req.connectionId}))
            && (Matches(s, req) && t.players == map[] && !Permanent(s) ==> Terminal(t))
            && (Permanent(s) || t.players != map[] ==> t.status == s.status && t.closedAt == s.closedAt)
            && t.sessionId == s.sessionId && t.roomId == s.roomId && t.serverId == s.serverId
                 && (Permanent(t) <==> Permanent(s))
  {
    if req.userId in s.players && !Replaced(s, req.userId, req.connectionId) {
      assert s.players[req.userId].userId == req.userId;
      assert HasPlayer(s, req);
    }
  }

  /**
   A report is accepted if and only if it names a server and a user and is not the late report of a replaced
   connection that does not say which connection it means. Such a late report changes nothing and succeeds; one
   without a server or a user changes nothing and fails.
   */
  lemma LeaveAcceptedExactly(r: Registry, req: LeaveRequest, now: int)
    ensures LeaveAccepted(req) <==>
              && req.serverId != "" && req.userId != ""
              && !(req.reason == "duplicate_user_replaced" && req.connectionId == "")
    ensures !LeaveAccepted(req) ==>
              && PlayerLeft(r, req, now) == r
              && (LeaveReplyFor(r, req, now).success <==> req.serverId != "" && req.userId != "")
  {
  }

  // ---- players are neither lost nor counted twice ----

  /** The session is counted for the report and holds its user, not under another connection. */
  predicate Loses(s: Session, req: LeaveRequest) {
    Matches(s, req) && !Terminal(s) && req.userId in s.players && !Replaced(s, req.userId, req.connectionId)
  }

  /** The counted sessions that the user leaves. */
  function Departures(r: Registry, req: LeaveRequest): set<string> {
    set id | id in r.byId.vals && Loses(r.byId.vals[id], req)
  }

  function Seats(s: Session, req: LeaveRequest): nat {
    if Matches(s, req) && !Terminal(s) then |s.players| else 0
  }

  lemma LeaveSeats(s: Session, id: string, req: LeaveRequest, now: int)
    requires GoodSession(s, id) && LeaveAccepted(req)
    ensures Seats(AfterLeave(s, req, now), req) == Seats(s, req) - if Loses(s, req) then 1 else 0
  {
    if Matches(s, req) && req.userId in s.players {
      if Replaced(s, req.userId, req.connectionId) {
        assert WithoutPlayer(s, req.userId, req.connectionId, now).players == s.players;
      } else {
        assert s.players[req.userId].userId == req.userId && HasPlayer(s, req);
        assert (s.players - {req.userId}).Keys == s.players.Keys - {req.userId};
        assert |s.players - {req.userId}| == |s.players.Keys| - 1;
      }
    }
  }

  lemma PlayersOfLast(ids: seq<string>, vals: map<string, Session>, req: LeaveRequest)
    requires ids != [] && forall id | id in ids :: id in vals
    ensures PlayersIn(ids, vals, req) == PlayersIn(ids[..|ids| - 1], vals, req) + Seats(vals[ids[|ids| - 1]], req)
  {
  }

  lemma {:induction false} SeatsAfterLeave(
    ids: seq<string>, before: map<string, Session>, after: map<string, Session>, req: LeaveRequest, now: int)
    requires Distinct(ids) && LeaveAccepted(req)
    requires forall id | id in ids :: id in before && GoodSession(before[id], id)
    requires forall id | id in ids :: id in after && after[id] == AfterLeave(before[id], req, now)
    ensures PlayersIn(ids, after, req) == PlayersIn(ids, before, req) - |set id | id in ids && Loses(before[id], req)|
  {
    hide AfterLeave, GoodSession, Loses;
    if ids == [] {
    } else {
      var init, last := ids[..|ids| - 1], ids[|ids| - 1];
      assert ids == init + [last];
      SeatsAfterLeave(init, before, after, req, now);
      LeaveSeats(before[last], last, req, now);
      var some := set id | id in init && Loses(before[id], req);
      var all := set id | id in ids && Loses(before[id], req);
      if Loses(before[last], req) {
        assert all == some + {last};
      } else {
        assert all == some;
      }
      PlayersOfLast(ids, before, req);
      PlayersOfLast(ids, after, req);
      hide PlayersIn, Seats;
    }
  }

  /**
   The reply to an accepted report counts the players that are left in the matching sessions that have not
   ended: the number before it, less one for each of these sessions that the user leaves.
   */
  lemma PlayerLeftReply(r: Registry, req: LeaveRequest, now: int)
    requires Good(r) && LeaveAccepted(req)
    ensures LeaveReplyFor(r, req, now).serverCurrentPlayers == ServerPlayers(r, req) - |Departures(r, req)|
    ensures Departures(r, req) != {} ==> LeaveReplyFor(r, req, now).success
  {
    hide AfterLeave, Loses, LeaveFound, Good, PlayersIn;
    GoodSessions(r);
    var next := PlayerLeft(r, req, now);
    SeatsAfterLeave(r.byId.keys, r.byId.vals, next.byId.vals, req, now);
    assert Departures(r, req) == set id | id in r.byId.keys && Loses(r.byId.vals[id], req);
    if id :| id in Departures(r, req) {
      LosingIsFound(r, req, id);
    }
  }

  lemma GoodSessions(r: Registry)
    requires Good(r)
    ensures forall id | id in r.byId.keys :: GoodSession(r.byId.vals[id], id)
  {
  }

  lemma LosingIsFound(r: Registry, req: LeaveRequest, id: string)
    requires Good(r) && id in r.byId.vals && Loses(r.byId.vals[id], req)
    ensures LeaveFound(r, req)
  {
    var s := r.byId.vals[id];
    assert s.players[req.userId].userId == req.userId && HasPlayer(s, req);
  }

  /** A second report of the same departure changes no player and no status. */
  lemma PlayerLeftTwice(r: Registry, req: LeaveRequest, now: int, later: int, id: string)
    requires Good(r) && LeaveAccepted(req) && id in r.byId.vals
    ensures var once := PlayerLeft(r, req, now);
            var twice := PlayerLeft(once, req, later);
            && twice.byId.vals[id].players == once.byId.vals[id].players
            && twice.byId.vals[id].status == once.byId.vals[id].status
            && twice.byId.vals[id].closedAt == once.byId.vals[id].closedAt
  {
    hide PlayerLeft;
    PlayerLeftGood(r, req, now);
    PlayerLeftSpecification(r, req, now, id);
    var once := PlayerLeft(r, req, now);
    PlayerLeftSpecification(once, req, later, id);
    LeaveAgain(once.byId.vals[id], id, req, later);
    assert PlayerLeft(once, req, later).byId.vals[id] == AfterLeave(once.byId.vals[id], req, later) by {
      LeftSession(once, req, later, id);
    }
  }

  lemma LeftSession(r: Registry, req: LeaveRequest, now: int, id: string)
    requires LeaveAccepted(req) && id in r.byId.vals
    ensures PlayerLeft(r, req, now).byId.vals[id] == AfterLeave(r.byId.vals[id], req, now)
  {
  }

  lemma LeaveAgain(s: Session, id: string, req: LeaveRequest, now: int)
    requires GoodSession(s, id) && req.userId != ""
    requires Matches(s, req) && req.userId in s.players ==> Replaced(s, req.userId, req.connectionId)
    requires Matches(s, req) && s.players == map[] && !Permanent(s) ==> Terminal(s)
    ensures var t := AfterLeave(s, req, now); t.players == s.players && t.status == s.status && t.closedAt == s.closedAt
  {
  }

  // ---- statistics ----

  /** The rooms with an open session. */
  ghost predicate RoomOpen(r: Registry, roomId: string) {
    exists id :: id in r.byId.vals && Open(r.byId.vals[id]) && r.byId.vals[id].roomId == roomId
  }

  ghost predicate RoomOpenAmong(ids: seq<string>, vals: map<string, Session>, roomId: string)
    requires forall id | id in ids :: id in vals
  {
    exists id :: id in ids && Open(vals[id]) && vals[id].roomId == roomId
  }

  lemma {:induction false} StatsRooms(ids: seq<string>, vals: map<string, Session>, roomId: string)
    requires (forall id | id in ids :: id in vals) && (forall id | id in ids :: vals[id].roomId != "")
    ensures var byRoom := StatsOver(ids, vals).byRoom;
            && (roomId in byRoom <==> RoomOpenAmong(ids, vals, roomId))
            && (roomId in byRoom ==>
                  (byRoom[roomId].sessions >= 1
                    && byRoom[roomId].creating + byRoom[roomId].active == byRoom[roomId].sessions))
  {
    if ids != [] {
      var init, last := ids[..|ids| - 1], ids[|ids| - 1];
      assert ids == init + [last];
      StatsRooms(init, vals, roomId);
    }
  }

  /** The status report lists exactly the rooms with an open session, each as creating or active. */
  lemma StatsListOpenRooms(r: Registry, roomId: string)
    requires Good(r)
    ensures var byRoom := StatsOf(r).byRoom;
            && (roomId in byRoom <==> RoomOpen(r, roomId))
            && (roomId in byRoom ==> byRoom[roomId].creating > 0 || byRoom[roomId].active > 0)
  {
    StatsRooms(r.byId.keys, r.byId.vals, roomId);
  }
}
