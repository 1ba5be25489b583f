/** What each operation does to the sessions, their seats, their status and the index by room. */
module SessionEffects {
  import opened Common
  import opened JsMaps
  import opened Sessions
  import opened SessionRuns

  // ---- seats ----

  predicate IsOpen(s: Session) {
    s.status == Creating || s.status == Active
  }

  /** The seat of the user is held by another connection than the reported one. */
  predicate HeldByOther(s: Session, u: string, connectionId: string) {
    u in s.players && connectionId != "" && s.players[u].connectionId != "" && s.players[u].connectionId != connectionId
  }

  /** The report is about the session: of its server, and of its room if it names one. */
  predicate About(s: Session, serverId: string, roomId: string) {
    (serverId == "" || s.serverId == serverId) && (roomId == "" || s.roomId == roomId)
  }

  predicate Accepted(req: LeaveRequest) {
    && req.serverId != "" && req.userId != ""
    && !(req.reason == "duplicate_user_replaced" && req.connectionId == "")
  }

  /** The operation takes the user out of the session. */
  predicate TakesOut(op: Op, s: Session, u: string) {
    match op
    case RemovePlayerOp(id, user, connectionId, _) =>
      s.sessionId == id && u == user && u != "" && !HeldByOther(s, u, connectionId)
    case LeaveOp(req, _) =>
      Accepted(req) && u == req.userId && About(s, req.serverId, req.roomId) && !HeldByOther(s, u, req.connectionId)
    case SyncEmptyOp(serverId, roomId, _) =>
      (serverId != "" || roomId != "") && About(s, serverId, roomId) && IsOpen(s)
    case _ => false
  }

  /** The operation gives the user a seat in the session. */
  predicate PutsIn(op: Op, s: Session, u: string) {
    op.AddPlayerOp? && s.sessionId == op.id && op.player.userId == u && u != "" && IsOpen(s)
    && (|s.players| < s.maxPlayers || u in s.players)
  }

  /** The operation removes the session: deleted, cleared away, or closed at least the time to live ago. */
  predicate Removes(op: Op, s: Session, ttlMs: int) {
    match op
    case DeleteOp(id) => s.sessionId == id
    case CleanupOp(now) => s.closedAt.Some? && s.closedAt.value != 0 && now - s.closedAt.value >= ttlMs
    case ClearOp => true
    case _ => false
  }

  /** The session as the operation leaves it, when it does not remove it. */
  function Left(op: Op, s: Session): Session {
    match op
    case AddPlayerOp(id, p, now) => if PutsIn(op, s, p.userId) then WithPlayer(s, p, now) else s
    case RemovePlayerOp(id, u, c, now) => if s.sessionId == id then WithoutPlayer(s, u, c, now) else s
    case ReadyOp(id, u, ready, now) => if s.sessionId == id then WithReady(s, u, ready, now) else s
    case CloseOp(id, now) => if s.sessionId == id then Ended(s, Closed, now) else s
    case FailOp(id, now) => if s.sessionId == id then Ended(s, Failed, now) else s
    case LeaveOp(req, now) => if Accepted(req) then AfterLeave(s, req, now) else s
    case SyncEmptyOp(serverId, roomId, now) =>
      if serverId != "" || roomId != "" then Emptied(s, serverId, roomId, now) else s
    case _ => s
  }

  /** What the operation leaves of the session is what the registry holds. */
  ghost predicate HoldsLeft(op: Op, r: Registry, ttlMs: int, id: string)
    requires id in r.byId.vals
  {
    var next := Apply(op, r, ttlMs);
    && (id in next.byId.vals <==> !Removes(op, r.byId.vals[id], ttlMs))
    && (id in next.byId.vals ==> next.byId.vals[id] == Left(op, r.byId.vals[id]))
  }

  lemma LeftInRegistry(op: Op, r: Registry, ttlMs: int, id: string)
    requires Good(r) && FreshIds(op, r) && id in r.byId.vals
    ensures HoldsLeft(op, r, ttlMs, id)
  {
    hide HoldsLeft, Good;
    SoundSession(r, id);
    match op
    case CreateOp(_, _) => LeftByCreation(op, r, ttlMs, id);
    case GetOrCreateOp(_, _) => LeftByCreation(op, r, ttlMs, id);
    case AddPlayerOp(_, _, _) => LeftByAddition(op, r, ttlMs, id);
    case RemovePlayerOp(_, _, _, _) => LeftByOne(op, r, ttlMs, id);
    case ReadyOp(_, _, _, _) => LeftByOne(op, r, ttlMs, id);
    case CloseOp(_, _) => LeftByOne(op, r, ttlMs, id);
    case FailOp(_, _) => LeftByOne(op, r, ttlMs, id);
    case _ => LeftBySweep(op, r, ttlMs, id);
  }

  lemma LeftByCreation(op: Op, r: Registry, ttlMs: int, id: string)
    requires FreshIds(op, r) && id in r.byId.vals && (op.CreateOp? || op.GetOrCreateOp?)
    ensures HoldsLeft(op, r, ttlMs, id)
  {
    hide NewSession, Open, CreateError;
  }

  lemma LeftByOne(op: Op, r: Registry, ttlMs: int, id: string)
    requires id in r.byId.vals && GoodSession(r.byId.vals[id], id)
    requires op.RemovePlayerOp? || op.ReadyOp? || op.CloseOp? || op.FailOp?
    ensures HoldsLeft(op, r, ttlMs, id)
  {
    hide WithoutPlayer, WithReady, Ended, TakesOut, PutsIn;
  }

  lemma LeftByAddition(op: Op, r: Registry, ttlMs: int, id: string)
    requires id in r.byId.vals && GoodSession(r.byId.vals[id], id) && op.AddPlayerOp?
    ensures HoldsLeft(op, r, ttlMs, id)
  {
    hide WithPlayer;
  }

  lemma LeftBySweep(op: Op, r: Registry, ttlMs: int, id: string)
    requires id in r.byId.vals && GoodSession(r.byId.vals[id], id)
    requires op.DeleteOp? || op.CleanupOp? || op.ClearOp? || op.LeaveOp? || op.SyncEmptyOp?
    ensures HoldsLeft(op, r, ttlMs, id)
  {
    hide AfterLeave, Emptied;
    if op.LeaveOp? { LeaveAcceptedExactly(r, op.leave, op.now); }
  }

  /** The seat of a player after an operation that neither gives nor takes it. */
  function SeatAfter(op: Op, s: Session, u: string): Player
    requires u in s.players
  {
    if op.ReadyOp? && s.sessionId == op.id && u == op.userId
    then s.players[u].(isReady := op.isReady, lastSeenAt := op.now) else s.players[u]
  }

  /**
   Seats change exactly so: a session stays unless it is removed, and a user has a seat in it afterwards if and only
   if the operation gave one, or the user had one and was not taken out.
   */
  lemma SeatsChangeExactly(op: Op, r: Registry, ttlMs: int, id: string, u: string)
    requires Good(r) && FreshIds(op, r) && id in r.byId.vals
    ensures var s, next := r.byId.vals[id], Apply(op, r, ttlMs);
            && (id in next.byId.vals <==> !Removes(op, s, ttlMs))
            && (id in next.byId.vals ==>
                  var t := next.byId.vals[id];
                  && (u in t.players <==> (u in s.players && !TakesOut(op, s, u)) || PutsIn(op, s, u))
                  && (PutsIn(op, s, u) ==> t.players[u] == op.player)
                  && (u in t.players && !PutsIn(op, s, u) ==> t.players[u] == SeatAfter(op, s, u)))
  {
    hide Good, Apply, Left, TakesOut, PutsIn, Removes;
    SoundSession(r, id);
    LeftInRegistry(op, r, ttlMs, id);
    LeftSeats(op, r.byId.vals[id], u);
  }

  lemma LeftSeats(op: Op, s: Session, u: string)
    requires GoodSession(s, s.sessionId)
    ensures var t := Left(op, s);
            && (u in t.players <==> (u in s.players && !TakesOut(op, s, u)) || PutsIn(op, s, u))
            && (PutsIn(op, s, u) ==> t.players[u] == op.player)
            && (u in t.players && !PutsIn(op, s, u) ==> t.players[u] == SeatAfter(op, s, u))
  {
    hide AfterLeave;
    match op
    case LeaveOp(req, now) => if Accepted(req) { LeaveSeatsExactly(s, req, now, u); }
    case _ =>
  }

  lemma SoundSession(r: Registry, id: string)
    requires Good(r) && id in r.byId.vals
    ensures GoodSession(r.byId.vals[id], id)
  {
  }

  lemma Restricted(m: JsMap<string, Session>, keep: set<string>)
    ensures forall k :: k in Restrict(m, keep).vals <==> k in m.vals && k in keep
    ensures forall k | k in Restrict(m, keep).vals :: Restrict(m, keep).vals[k] == m.vals[k]
  {
  }

  lemma LeaveSeatsExactly(s: Session, req: LeaveRequest, now: int, u: string)
    requires GoodSession(s, s.sessionId) && LeaveAccepted(req)
    ensures var t := AfterLeave(s, req, now);
            && (u in t.players <==>
                 u in s.players
                 && !(u == req.userId && About(s, req.serverId, req.roomId) && !HeldByOther(s, u, req.connectionId)))
            && (u in t.players ==> t.players[u] == s.players[u])
  {
    LeaveSpecification(s, s.sessionId, req, now);
    hide AfterLeave, GoodSession;
  }

  predicate Seated(r: Registry, id: string, u: string) {
    id in r.byId.vals && u in r.byId.vals[id].players
  }

  /** The operation gives the user a seat in the session. */
  predicate Grants(op: Op, r: Registry, id: string, u: string) {
    id in r.byId.vals && PutsIn(op, r.byId.vals[id], u)
  }

  /** The operation neither takes the user out of the session nor removes it. */
  predicate Untouched(op: Op, r: Registry, ttlMs: int, id: string, u: string) {
    id in r.byId.vals ==> !TakesOut(op, r.byId.vals[id], u) && !Removes(op, r.byId.vals[id], ttlMs)
  }

  lemma SeatComesFrom(op: Op, r: Registry, ttlMs: int, id: string, u: string)
    requires Good(r) && FreshIds(op, r)
    ensures Seated(Apply(op, r, ttlMs), id, u) ==>
              Grants(op, r, id, u) || (Seated(r, id, u) && Untouched(op, r, ttlMs, id, u))
  {
    hide Apply, TakesOut, PutsIn, Removes, FreshIds, Good;
    if Seated(Apply(op, r, ttlMs), id, u) {
      if id in r.byId.vals {
        SeatsChangeExactly(op, r, ttlMs, id, u);
      } else {
        NewSessionsAreEmpty(op, r, ttlMs, id);
      }
    }
  }

  /**
   Every seat goes back to the operation that gave it: since then the user was never taken out and the session
   never removed.
   */
  lemma {:induction false} SeatHasItsGrant(ops: seq<Op>, ttlMs: int, n: nat, id: string, u: string) returns (m: nat)
    requires n <= |ops| && AllFresh(ops, ttlMs, n)
    ensures Seated(After(ops, ttlMs, n), id, u) ==>
              && m < n && Grants(ops[m], After(ops, ttlMs, m), id, u)
              && forall k | m < k < n ::
                   Seated(After(ops, ttlMs, k), id, u) && Untouched(ops[k], After(ops, ttlMs, k), ttlMs, id, u)
  {
    hide Apply, Untouched, Grants, Seated, FreshIds, Good;
    m := 0;
    if n == 0 {
      NobodyAtFirst(id, u);
    } else {
      var r := After(ops, ttlMs, n - 1);
      assert FreshIds(ops[n - 1], r);
      SessionInvariantAlwaysHolds(ops, ttlMs, n - 1);
      SeatComesFrom(ops[n - 1], r, ttlMs, id, u);
      m := n - 1;
      if !Grants(ops[n - 1], r, id, u) {
        m := SeatHasItsGrant(ops, ttlMs, n - 1, id, u);
      }
    }
  }

  lemma NobodyAtFirst(id: string, u: string)
    ensures !Seated(Initial(), id, u)
  {
  }

  lemma SeatStays(op: Op, r: Registry, ttlMs: int, id: string, u: string)
    requires Good(r) && FreshIds(op, r) && Untouched(op, r, ttlMs, id, u)
    ensures Seated(r, id, u) ==> Seated(Apply(op, r, ttlMs), id, u)
  {
    hide Apply, TakesOut, PutsIn, Removes, FreshIds, Good;
    if id in r.byId.vals {
      SeatsChangeExactly(op, r, ttlMs, id, u);
    }
  }

  /** A user keeps a seat until an operation takes it or removes the session. */
  lemma {:induction false} SeatsStay(ops: seq<Op>, ttlMs: int, m: nat, n: nat, id: string, u: string)
    requires m <= n <= |ops| && AllFresh(ops, ttlMs, n)
    requires forall k | m <= k < n :: Untouched(ops[k], After(ops, ttlMs, k), ttlMs, id, u)
    ensures Seated(After(ops, ttlMs, m), id, u) ==> Seated(After(ops, ttlMs, n), id, u)
    decreases n
  {
    hide Apply, Untouched, Seated, FreshIds, Good;
    if m < n {
      SeatsStay(ops, ttlMs, m, n - 1, id, u);
      var r := After(ops, ttlMs, n - 1);
      assert FreshIds(ops[n - 1], r);
      SessionInvariantAlwaysHolds(ops, ttlMs, n - 1);
      assert After(ops, ttlMs, n) == Apply(ops[n - 1], r, ttlMs);
      hide After, AllFresh;
      SeatStays(ops[n - 1], r, ttlMs, id, u);
    }
  }

  // ---- status and times ----

  /** The report ends the session: the last seat is given up, and the session is neither permanent nor ended. */
  predicate EndsBy(s: Session, req: LeaveRequest) {
    && Accepted(req) && About(s, req.serverId, req.roomId)
    && (forall u | u in s.players :: u == req.userId && !HeldByOther(s, u, req.connectionId))
    && s.status != Closed && s.status != Failed && !s.isPermanent && s.autoCloseWhenEmpty != Some(false)
  }

  /** Whose a session is, for how many, and whether it is meant to stay. */
  predicate SameSession(s: Session, t: Session) {
    && t.sessionId == s.sessionId && t.roomId == s.roomId && t.serverId == s.serverId
    && t.maxPlayers == s.maxPlayers && t.isPermanent == s.isPermanent
    && t.autoCloseWhenEmpty == s.autoCloseWhenEmpty
  }

  /** The status, start and end of a session after an operation that does not remove it. */
  predicate StatusMoves(op: Op, s: Session, t: Session) {
    match op
    case CloseOp(id, now) =>
      t.startedAt == s.startedAt
        && (if s.sessionId == id then t.status == Closed && t.closedAt == Some(now)
            else t.status == s.status && t.closedAt == s.closedAt)
    case FailOp(id, now) =>
      t.startedAt == s.startedAt
        && (if s.sessionId == id then t.status == Failed && t.closedAt == Some(now)
            else t.status == s.status && t.closedAt == s.closedAt)
    case LeaveOp(req, now) =>
      t.startedAt == s.startedAt
        && (if EndsBy(s, req) then t.status == Closed && t.closedAt == Some(now)
            else t.status == s.status && t.closedAt == s.closedAt)
    case AddPlayerOp(_, p, now) =>
      t.closedAt == s.closedAt
        && (if PutsIn(op, s, p.userId) && s.status == Creating
            then t.status == Active && t.startedAt == Some(if s.startedAt.Some? then s.startedAt.value else now)
            else t.status == s.status && t.startedAt == s.startedAt)
    case _ => t.status == s.status && t.closedAt == s.closedAt && t.startedAt == s.startedAt
  }

  /**
   The status of a session changes exactly so: closing and failing end it, the first player makes it active, and a
   departure ends it when that leaves a session without players that is meant to close. Whose and how large a
   session is never changes, and every change is dated.
   */
  lemma StatusChangesExactly(op: Op, r: Registry, ttlMs: int, id: string)
    requires Good(r) && FreshIds(op, r) && id in r.byId.vals && id in Apply(op, r, ttlMs).byId.vals
    ensures var s, t := r.byId.vals[id], Apply(op, r, ttlMs).byId.vals[id];
            && StatusMoves(op, s, t) && SameSession(s, t)
            && (t == s || t.updatedAt == op.now)
  {
    hide Good, Apply, Left, StatusMoves, Removes;
    SoundSession(r, id);
    LeftInRegistry(op, r, ttlMs, id);
    LeftStatus(op, r.byId.vals[id]);
  }

  lemma LeftStatus(op: Op, s: Session)
    requires GoodSession(s, s.sessionId)
    ensures StatusMoves(op, s, Left(op, s)) && SameSession(s, Left(op, s))
    ensures Left(op, s) == s || Left(op, s).updatedAt == op.now
  {
    hide AfterLeave, EndsBy;
    match op
    case LeaveOp(req, now) => LeaveEndsExactly(s, req, now);
    case _ =>
  }

  lemma LeaveEndsExactly(s: Session, req: LeaveRequest, now: int)
    requires GoodSession(s, s.sessionId)
    ensures var t := if Accepted(req) then AfterLeave(s, req, now) else s;
            && t.startedAt == s.startedAt
            && (if EndsBy(s, req) then t.status == Closed && t.closedAt == Some(now)
                else t.status == s.status && t.closedAt == s.closedAt)
            && SameSession(s, t) && (t == s || t.updatedAt == now)
  {
    if req.userId in s.players && !HeldByOther(s, req.userId, req.connectionId) {
      assert s.players[req.userId].userId == req.userId;
      assert HasPlayer(s, req);
    }
    if Accepted(req) && Matches(s, req) {
      LeftEmptyExactly(s, req, now);
    }
  }

  lemma LeftEmptyExactly(s: Session, req: LeaveRequest, now: int)
    requires GoodSession(s, s.sessionId) && req.userId != ""
    ensures AfterRemoval(s, req, now).players == map[] <==>
              forall u | u in s.players :: u == req.userId && !HeldByOther(s, u, req.connectionId)
  {
    var t := AfterRemoval(s, req, now);
    if req.userId in s.players && !HeldByOther(s, req.userId, req.connectionId) {
      assert s.players[req.userId].userId == req.userId;
      assert HasPlayer(s, req);
    }
    if t.players == map[] {
      forall u | u in s.players ensures u == req.userId && !HeldByOther(s, u, req.connectionId) {
        assert u !in t.players;
      }
    } else {
      var u :| u in t.players;
      assert u in s.players;
    }
  }

  // ---- creation ----

  /** The players a session is made for: 20 unless asked for, and at most 1024. */
  function SizeAsked(req: CreateRequest): int {
    if req.maxPlayers.Num? then Min(req.maxPlayers.n, 1024) else 20
  }

  /** Some open session is in the room. */
  ghost predicate RoomTaken(r: Registry, roomId: string) {
    exists id :: id in r.byId.vals && r.byId.vals[id].roomId == roomId && IsOpen(r.byId.vals[id])
  }

  predicate NewlyMade(s: Session, req: CreateRequest, now: int) {
    && s.sessionId == req.sessionId && s.roomId == req.roomId && s.serverId == req.serverId
    && s.status == (match req.status case Some(status) => status case None => Creating)
    && s.maxPlayers == SizeAsked(req) && s.players == map[] && s.startedAt == req.startedAt && s.closedAt == None
    && s.isPermanent == req.isPermanent && s.autoCloseWhenEmpty == req.autoCloseWhenEmpty
  }

  /**
   A session is created if and only if the request names room and server, its size parses, and no session at all is
   open in the room; the session is as asked for, and the room is indexed under it. Otherwise nothing changes.
   */
  lemma CreatedExactly(r: Registry, req: CreateRequest, now: int)
    requires Good(r) && req.sessionId != "" && req.sessionId !in r.byId.vals
    ensures var reply, next := CreateReplyFor(r, req, now), Created(r, req, now);
            && (reply.Opened? <==> ValidCreateRequest(req) && !RoomTaken(r, req.roomId))
            && (reply.Opened? ==>
                  && NewlyMade(reply.session, req, now)
                  && next.byId.vals == r.byId.vals[req.sessionId := reply.session]
                  && next.index == r.index[req.roomId := req.sessionId])
            && (reply.Thrown? ==> next == r)
  {
    RoomTakenByIndex(r, req.roomId);
    hide Good, RoomTaken;
  }

  /** Some open session is in the room if and only if the one that the index names for the room is open. */
  lemma RoomTakenByIndex(r: Registry, roomId: string)
    requires Good(r)
    ensures RoomTaken(r, roomId) <==>
              roomId in r.index && r.index[roomId] in r.byId.vals && IsOpen(r.byId.vals[r.index[roomId]])
    ensures roomId in r.index ==>
              r.index[roomId] in r.byId.vals && r.index[roomId] != "" && r.byId.vals[r.index[roomId]].roomId == roomId
  {
    if id :| id in r.byId.vals && r.byId.vals[id].roomId == roomId && IsOpen(r.byId.vals[id]) {
      assert Open(r.byId.vals[id]);
    }
  }

  /**
   Asking for the session of a room gives the open session there when there is one, and changes nothing; else it
   creates one.
   */
  lemma GotOrCreatedExactly(r: Registry, req: CreateRequest, now: int)
    requires Good(r) && req.sessionId != "" && req.sessionId !in r.byId.vals
    ensures var reply, next := GetOrCreateReply(r, req, now), GotOrCreated(r, req, now);
            && (req.roomId != "" && RoomTaken(r, req.roomId) ==>
                  && next == r && reply.Opened? && reply.session in r.byId.vals.Values
                  && reply.session.roomId == req.roomId && IsOpen(reply.session))
            && (!(req.roomId != "" && RoomTaken(r, req.roomId)) ==>
                  reply == CreateReplyFor(r, req, now) && next == Created(r, req, now))
  {
    RoomTakenByIndex(r, req.roomId);
    hide Good, RoomTaken;
    if req.roomId != "" && RoomTaken(r, req.roomId) {
      assert r.byId.vals[r.index[req.roomId]] in r.byId.vals.Values;
    }
  }

  /** A session that was not there before was created, and no other operation brings one. */
  lemma OnlyCreationAdds(op: Op, r: Registry, ttlMs: int, id: string)
    requires Good(r) && FreshIds(op, r) && id !in r.byId.vals
    ensures var next := Apply(op, r, ttlMs);
            id in next.byId.vals <==>
              && (op.CreateOp? || op.GetOrCreateOp?) && id == op.create.sessionId
              && ValidCreateRequest(op.create) && !RoomTaken(r, op.create.roomId)
  {
    hide Put, Restrict, AfterLeave, Good, RoomTaken, Created, GotOrCreated;
    match op
    case CreateOp(req, now) => CreatedExactly(r, req, now);
    case GetOrCreateOp(req, now) =>
      CreatedExactly(r, req, now);
      GotOrCreatedExactly(r, req, now);
      NamelessRoom(r, req);
    case LeaveOp(req, now) =>
    case SyncEmptyOp(serverId, roomId, now) =>
    case AddPlayerOp(x, p, now) => AddsOnly(r, x, id);
    case RemovePlayerOp(x, user, c, now) => AddsOnly(r, x, id);
    case ReadyOp(x, user, ready, now) => AddsOnly(r, x, id);
    case CloseOp(x, now) => AddsOnly(r, x, id);
    case FailOp(x, now) => AddsOnly(r, x, id);
    case DeleteOp(x) => Restricted(r.byId, r.byId.vals.Keys - {x});
    case CleanupOp(now) => Restricted(r.byId, r.byId.vals.Keys - ExpiredIds(r, now, ttlMs));
    case ClearOp =>
  }

  lemma AddsOnly(r: Registry, x: string, id: string)
    ensures id != x ==> forall s: Session :: id in Put(r.byId, x, s).vals <==> id in r.byId.vals
  {
  }

  lemma NamelessRoom(r: Registry, req: CreateRequest)
    ensures req.roomId == "" ==> !ValidCreateRequest(req)
  {
  }

  lemma NewSessionsAreEmpty(op: Op, r: Registry, ttlMs: int, id: string)
    requires Good(r) && FreshIds(op, r) && id !in r.byId.vals && id in Apply(op, r, ttlMs).byId.vals
    ensures Apply(op, r, ttlMs).byId.vals[id].players == map[]
  {
    hide Put, Restrict, AfterLeave, Good, RoomTaken, Created, GotOrCreated;
    OnlyCreationAdds(op, r, ttlMs, id);
    match op
    case CreateOp(req, now) => CreatedExactly(r, req, now);
    case GetOrCreateOp(req, now) =>
      CreatedExactly(r, req, now);
      GotOrCreatedExactly(r, req, now);
  }

  // ---- replies, and the unrestricted status update ----

  /** When adding and removing a player succeed. */
  lemma RepliesExactly(r: Registry, id: string, p: Player, connectionId: string)
    ensures AddPlayerReply(r, id, p).success <==>
              && id in r.byId.vals && IsOpen(r.byId.vals[id]) && p.userId != ""
              && (|r.byId.vals[id].players| < r.byId.vals[id].maxPlayers || p.userId in r.byId.vals[id].players)
    ensures id in r.byId.vals ==>
              var s, reply := r.byId.vals[id], RemoveReply(r.byId.vals[id], p.userId, connectionId);
              && (reply.success <==> p.userId != "" && p.userId in s.players)
              && (reply.reason == "player_removed" <==>
                   p.userId != "" && p.userId in s.players && !HeldByOther(s, p.userId, connectionId))
  {
  }

  /**
   The unrestricted update sets any status, keeps a start that is set, starts what becomes active and dates what
   ends; it touches neither players nor other sessions.
   */
  lemma StatusUpdatedExactly(r: Registry, id: string, status: Option<Status>, now: int)
    ensures id !in r.byId.vals ==> StatusUpdated(r, id, status, now) == r
    ensures id in r.byId.vals ==>
              var s, next := r.byId.vals[id], StatusUpdated(r, id, status, now);
              var t := if id in next.byId.vals then next.byId.vals[id] else s;
              && next.byId.vals == r.byId.vals[id := t] && next.index == r.index && next.byId.keys == r.byId.keys
              && SameSession(s, t) && t.players == s.players && t.updatedAt == now
              && t.status == (match status case Some(given) => given case None => s.status)
              && t.startedAt == (if s.startedAt == None && t.status == Active then Some(now) else s.startedAt)
              && t.closedAt == (if t.status == Closed || t.status == Failed then Some(now) else s.closedAt)
  {
  }

  // ---- the index ----

  /**
   The index by room changes exactly so: creation points the room at the new session, and an entry goes with the
   session it names, when that is deleted, cleaned up or cleared away.
   */
  lemma IndexChangesExactly(op: Op, r: Registry, ttlMs: int, roomId: string)
    requires Good(r) && FreshIds(op, r)
    ensures var next := Apply(op, r, ttlMs);
            var made := (op.CreateOp? || op.GetOrCreateOp?) && op.create.roomId == roomId
              && ValidCreateRequest(op.create) && !RoomTaken(r, roomId);
            && (roomId in next.index <==>
                 made || (roomId in r.index && !Removes(op, r.byId.vals[r.index[roomId]], ttlMs)))
            && (roomId in next.index ==>
                 next.index[roomId] == if made then op.create.sessionId else r.index[roomId])
  {
    RoomTakenByIndex(r, roomId);
    hide Apply, RoomTaken, Good, Removes, FreshIds;
    if op.CreateOp? || op.GetOrCreateOp? {
      IndexAfterCreation(op, r, ttlMs);
      if roomId in r.index {
        assert !Removes(op, r.byId.vals[r.index[roomId]], ttlMs);
      }
    } else {
      IndexAfterOther(op, r, ttlMs, roomId);
    }
  }

  lemma IndexAfterOther(op: Op, r: Registry, ttlMs: int, roomId: string)
    requires Good(r) && !op.CreateOp? && !op.GetOrCreateOp?
    ensures roomId in r.index ==> r.index[roomId] in r.byId.vals
    ensures var next := Apply(op, r, ttlMs);
            && (roomId in next.index <==> roomId in r.index && !Removes(op, r.byId.vals[r.index[roomId]], ttlMs))
            && (roomId in next.index ==> next.index[roomId] == r.index[roomId])
  {
    RoomTakenByIndex(r, roomId);
    hide Good, RoomTaken, Removes, Apply;
    match op
    case DeleteOp(_) =>
      StoredUnderOwnIds(r);
      DeletedIndex(op, r, ttlMs, roomId);
    case CleanupOp(_) => CleanedIndex(op, r, ttlMs, roomId);
    case ClearOp => ClearedIndex(op, r, ttlMs);
    case _ => SameIndex(op, r, ttlMs);
  }

  lemma SameIndex(op: Op, r: Registry, ttlMs: int)
    requires !op.CreateOp? && !op.GetOrCreateOp? && !op.DeleteOp? && !op.CleanupOp? && !op.ClearOp?
    ensures Apply(op, r, ttlMs).index == r.index
    ensures forall s :: !Removes(op, s, ttlMs)
  {
    hide Put, AddPlayerReply, AfterLeave, Emptied, WithPlayer, WithoutPlayer, WithReady, Ended;
  }

  lemma ClearedIndex(op: Op, r: Registry, ttlMs: int)
    requires op.ClearOp?
    ensures Apply(op, r, ttlMs).index == map[] && forall s :: Removes(op, s, ttlMs)
  {
  }

  lemma CleanedIndex(op: Op, r: Registry, ttlMs: int, roomId: string)
    requires op.CleanupOp?
    requires roomId in r.index ==> r.index[roomId] in r.byId.vals && r.byId.vals[r.index[roomId]].roomId == roomId
    ensures var next := Apply(op, r, ttlMs);
            && (roomId in next.index <==> roomId in r.index && !Removes(op, r.byId.vals[r.index[roomId]], ttlMs))
            && (roomId in next.index ==> next.index[roomId] == r.index[roomId])
  {
    hide Restrict;
  }

  lemma DeletedIndex(op: Op, r: Registry, ttlMs: int, roomId: string)
    requires op.DeleteOp? && (forall id | id in r.byId.vals :: r.byId.vals[id].sessionId == id) && "" !in r.byId.vals
    requires roomId in r.index ==> r.index[roomId] in r.byId.vals && r.byId.vals[r.index[roomId]].roomId == roomId
    ensures var next := Apply(op, r, ttlMs);
            && (roomId in next.index <==> roomId in r.index && !Removes(op, r.byId.vals[r.index[roomId]], ttlMs))
            && (roomId in next.index ==> next.index[roomId] == r.index[roomId])
  {
    hide Restrict;
  }

  lemma IndexAfterCreation(op: Op, r: Registry, ttlMs: int)
    requires Good(r) && FreshIds(op, r) && (op.CreateOp? || op.GetOrCreateOp?)
    ensures var next, req := Apply(op, r, ttlMs), op.create;
            var made := ValidCreateRequest(req) && !RoomTaken(r, req.roomId);
            next.index == if made then r.index[req.roomId := req.sessionId] else r.index
    ensures forall s :: !Removes(op, s, ttlMs)
  {
    hide RoomTaken, Created, GotOrCreated, Good;
    CreatedExactly(r, op.create, op.now);
    GotOrCreatedExactly(r, op.create, op.now);
    NamelessRoom(r, op.create);
  }

  lemma StoredUnderOwnIds(r: Registry)
    requires Good(r)
    ensures "" !in r.byId.vals && forall id | id in r.byId.vals :: r.byId.vals[id].sessionId == id
  {
  }

  // ---- counting ----

  /** The user of an accepted report is found: a session it is about answers to the report. */
  ghost predicate FoundThere(r: Registry, req: LeaveRequest) {
    exists id :: id in r.byId.vals && Answers(r.byId.vals[id], req)
  }

  /**
   The session is of the reported server and room, has the user, and has the user or a player of that player id
   under the reported connection, if one is reported and one is known.
   */
  ghost predicate Answers(s: Session, req: LeaveRequest) {
    && s.serverId == req.serverId && (req.roomId == "" || s.roomId == req.roomId) && req.userId in s.players
    && exists u :: u in s.players && (u == req.userId || s.players[u].playerId == req.userId)
         && (req.connectionId == "" || s.players[u].connectionId in {"", req.connectionId})
  }

  lemma AnswersExactly(s: Session, req: LeaveRequest)
    requires GoodSession(s, s.sessionId)
    ensures Answers(s, req) <==> Matches(s, req) && HasPlayer(s, req) && req.userId in s.players
  {
    forall u | u in s.players ensures s.players[u].userId == u {
    }
    hide GoodSession;
  }

  /** When a report succeeds, and that one without a server or a user counts nobody. */
  lemma LeaveRepliesExactly(r: Registry, req: LeaveRequest, now: int)
    requires Good(r)
    ensures LeaveFound(r, req) <==> FoundThere(r, req)
    ensures Accepted(req) ==> (LeaveReplyFor(r, req, now).success <==> FoundThere(r, req))
    ensures req.serverId == "" || req.userId == "" ==>
              !LeaveReplyFor(r, req, now).success && LeaveReplyFor(r, req, now).serverCurrentPlayers == 0
  {
    forall id | id in r.byId.vals
      ensures Answers(r.byId.vals[id], req) <==> Matches(r.byId.vals[id], req) && HasPlayer(r.byId.vals[id], req)
                                                 && req.userId in r.byId.vals[id].players
    {
      SoundSession(r, id);
      AnswersExactly(r.byId.vals[id], req);
    }
    hide Answers, Matches, HasPlayer, Good, ServerPlayers, PlayerLeft;
  }

  /** The players a report counts add up over the sessions: those of its server and room that have not ended. */
  lemma {:induction false} CountedSessionBySession(
    a: seq<string>, b: seq<string>, vals: map<string, Session>, req: LeaveRequest)
    requires forall id | id in a + b :: id in vals
    ensures PlayersIn([], vals, req) == 0
    ensures PlayersIn(a + b, vals, req) == PlayersIn(a, vals, req) + PlayersIn(b, vals, req)
    ensures forall id | id in vals ::
              PlayersIn([id], vals, req) ==
                if About(vals[id], req.serverId, req.roomId) && vals[id].serverId == req.serverId
                   && vals[id].status !in {Closed, Failed} then |vals[id].players| else 0
  {
    assert forall id: string :: [id][..0] == [];
    if b == [] {
      assert a + b == a;
    } else {
      var init, last := b[..|b| - 1], b[|b| - 1];
      assert (a + b)[..|a + b| - 1] == a + init && (a + b)[|a + b| - 1] == last;
      CountedSessionBySession(a, init, vals, req);
    }
  }

  /** What the statistics say of a room. */
  function OfRoom(stats: Stats, room: string): RoomStats {
    if room in stats.byRoom then stats.byRoom[room] else RoomStats(0, 0, 0, 0, 0)
  }

  function Plus(a: RoomStats, b: RoomStats): RoomStats {
    RoomStats(a.sessions + b.sessions, a.players + b.players, a.capacity + b.capacity, a.creating + b.creating,
      a.active + b.active)
  }

  function OneRoom(s: Session): RoomStats {
    RoomStats(1, |s.players|, s.maxPlayers, if s.status == Creating then 1 else 0, if s.status == Active then 1 else 0)
  }

  lemma CountedOne(stats: Stats, s: Session, room: string)
    ensures var next := CountRoom(stats, s);
            && next.totalPlayers == stats.totalPlayers + (if IsOpen(s) then |s.players| else 0)
            && next.totalCapacity == stats.totalCapacity + (if IsOpen(s) then s.maxPlayers else 0)
            && OfRoom(next, room) ==
                 if IsOpen(s) && room == (if s.roomId == "" then "unknown" else s.roomId)
                 then Plus(OfRoom(stats, room), OneRoom(s)) else OfRoom(stats, room)
  {
  }

  /** The statistics add up over the sessions, in total and room by room. */
  lemma {:induction false} StatsAreSums(a: seq<string>, b: seq<string>, vals: map<string, Session>, room: string)
    requires forall id | id in a + b :: id in vals
    ensures var x, y, all := StatsOver(a, vals), StatsOver(b, vals), StatsOver(a + b, vals);
            && all.totalPlayers == x.totalPlayers + y.totalPlayers
            && all.totalCapacity == x.totalCapacity + y.totalCapacity
            && OfRoom(all, room) == Plus(OfRoom(x, room), OfRoom(y, room))
  {
    hide CountRoom, OfRoom, StatsOver;
    if b == [] {
      assert a + b == a;
      NothingCounted(vals, room);
    } else {
      var init, last := b[..|b| - 1], b[|b| - 1];
      assert a + b == (a + init) + [last] && b == init + [last];
      StatsAreSums(a, init, vals, room);
      OneMore(init, last, vals);
      OneMore(a + init, last, vals);
      CountedOne(StatsOver(init, vals), vals[last], room);
      CountedOne(StatsOver(a + init, vals), vals[last], room);
    }
  }

  lemma OneMore(ids: seq<string>, last: string, vals: map<string, Session>)
    requires last in vals && forall id | id in ids :: id in vals
    ensures StatsOver(ids + [last], vals) == CountRoom(StatsOver(ids, vals), vals[last])
  {
    assert (ids + [last])[..|ids|] == ids;
  }

  lemma NothingCounted(vals: map<string, Session>, room: string)
    ensures StatsOver([], vals) == Stats(0, 0, map[]) && OfRoom(StatsOver([], vals), room) == RoomStats(0, 0, 0, 0, 0)
  {
  }

  /** The statistics of one session. */
  lemma StatsOfOne(id: string, vals: map<string, Session>, room: string)
    requires id in vals
    ensures var s, stats := vals[id], StatsOver([id], vals);
            && stats.totalPlayers == (if IsOpen(s) then |s.players| else 0)
            && stats.totalCapacity == (if IsOpen(s) then s.maxPlayers else 0)
            && OfRoom(stats, room) ==
                 if IsOpen(s) && room == (if s.roomId == "" then "unknown" else s.roomId) then OneRoom(s)
                 else RoomStats(0, 0, 0, 0, 0)
  {
    assert [id][..0] == [];
    CountedOne(StatsOver([], vals), vals[id], room);
    NothingCounted(vals, room);
  }
}
