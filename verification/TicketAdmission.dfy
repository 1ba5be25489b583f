/** Joining a game with a ticket, and what holds over every interleaving of ticket and session operations. */
module TicketAdmission {
  import opened Common
  import opened Tickets
  import opened JsMaps
  import Servers = ServerRegistry
  import ServerRuns = ServerRegistryRuns
  import RegistryEffects
  import Sessions
  import SessionRuns

  // ---- the join request of a dedicated server ----

  /** A normalised join request; `freshSessionId` is the id a newly created session would get. */
  datatype JoinRequest = JoinRequest(
    serverId: string, roomId: string, userId: string, ticketId: string, signature: string,
    sessionId: string, connectionId: string, playerId: string, freshSessionId: string)

  datatype Desk = Desk(store: Store, sessions: Sessions.Registry)

  datatype JoinReply = Joined(ticket: Ticket, sessionId: string) | NotJoined(reason: string)

  predicate ValidJoinRequest(req: JoinRequest) {
    req.serverId != "" && req.userId != "" && req.roomId != "" && req.ticketId != "" && req.signature != ""
  }

  function TicketCheck(req: JoinRequest): VerifyRequest {
    VerifyRequest(req.ticketId, req.signature, req.userId, req.roomId, req.serverId)
  }

  function SessionRequest(req: JoinRequest): Sessions.CreateRequest {
    Sessions.CreateRequest(req.freshSessionId, req.roomId, req.serverId, None, Num(20), None, false, None)
  }

  /** The session of a verified ticket: by id, else by room, else a new one. */
  function ResolveSession(r: Sessions.Registry, req: JoinRequest, now: int): (Sessions.Registry, Sessions.CreateReply) {
    if req.sessionId != "" && req.sessionId in r.byId.vals then (r, Sessions.Opened(r.byId.vals[req.sessionId]))
    else if Sessions.FindByRoom(r, req.roomId).Some? then (r, Sessions.Opened(Sessions.FindByRoom(r, req.roomId).value))
    else (Sessions.GotOrCreated(r, SessionRequest(req), now), Sessions.GetOrCreateReply(r, SessionRequest(req), now))
  }

  function PlayerOf(req: JoinRequest, now: int): Sessions.Player {
    Sessions.Player(req.userId, req.connectionId, req.playerId, true, now)
  }

  /** The ticket is spent before the session is looked at, so a failed join still costs the ticket. */
  function Join(cfg: Config, desk: Desk, req: JoinRequest, now: int): (Desk, JoinReply) {
    if !ValidJoinRequest(req) then (desk, NotJoined("request_invalid")) else
      var (store, admission) := VerifiedAndConsumed(cfg, desk.store, TicketCheck(req), now);
      if admission.Failure? then (Desk(store, desk.sessions), NotJoined(admission.reason)) else
        var (sessions, found) := ResolveSession(desk.sessions, req, now);
        if found.Thrown? then (Desk(store, sessions), NotJoined(found.error)) else
          var id := found.session.sessionId;
          var added := Sessions.AddPlayerReply(sessions, id, PlayerOf(req, now));
          (Desk(store, Sessions.PlayerAdded(sessions, id, PlayerOf(req, now), now)),
           if added.success then Joined(admission.ticket, id) else NotJoined(added.reason))
  }

  /** A successful join gives the server the player count of the session joined. */
  function ServersAfterJoin(
    reg: Servers.Registry, serverId: string, sessions: Sessions.Registry, reply: JoinReply, now: int): Servers.Registry
  {
    if reply.Joined? && reply.sessionId in sessions.byId.vals && serverId in reg.vals then
      var players := |sessions.byId.vals[reply.sessionId].players|;
      Put(reg, serverId, Servers.WithPlayerCount(reg.vals[serverId], Num(players), now))
    else reg
  }

  class DedicatedServerHandler {
    const tickets: GameTicketService
    const sessions: Sessions.GameSessionRegistry
    const registry: Servers.GameServerRegistry

    constructor (
      tickets: GameTicketService, sessions: Sessions.GameSessionRegistry, registry: Servers.GameServerRegistry)
      ensures this.tickets == tickets && this.sessions == sessions && this.registry == registry
    {
      this.tickets := tickets;
      this.sessions := sessions;
      this.registry := registry;
    }

    method VerifyGameTicket(req: JoinRequest, now: int) returns (reply: JoinReply)
      modifies tickets, sessions, registry
      ensures (Desk(tickets.ticketsById, sessions.State()), reply)
           == Join(tickets.cfg, old(Desk(tickets.ticketsById, sessions.State())), req, now)
      ensures registry.serversById
           == ServersAfterJoin(old(registry.serversById), req.serverId, sessions.State(), reply, now)
    {
      hide VerifiedAndConsumed, Servers.WithPlayerCount;
      if !ValidJoinRequest(req) {
        return NotJoined("request_invalid");
      }
      var admission := tickets.VerifyAndConsumeTicket(TicketCheck(req), now);
      if admission.Failure? {
        return NotJoined(admission.reason);
      }
      var state := Sessions.Registry(sessions.sessionsById, sessions.sessionIdByRoomId);
      var found: Sessions.CreateReply;
      if req.sessionId != "" && req.sessionId in state.byId.vals {
        found := Sessions.Opened(state.byId.vals[req.sessionId]);
      } else if Sessions.FindByRoom(state, req.roomId).Some? {
        found := Sessions.Opened(Sessions.FindByRoom(state, req.roomId).value);
      } else {
        found := sessions.GetOrCreateSession(SessionRequest(req), now);
      }
      if found.Thrown? {
        return NotJoined(found.error);
      }
      var id := found.session.sessionId;
      var added := sessions.AddPlayer(id, PlayerOf(req, now), now);
      if !added.success {
        return NotJoined(added.reason);
      }
      var _ := registry.UpdatePlayerCount(req.serverId, Num(|sessions.sessionsById.vals[id].players|), now);
      return Joined(admission.ticket, id);
    }
  }

  // ---- runs ----

  datatype Event =
    | IssueEv(issue: IssueRequest, id: string, now: int)
    | JoinEv(join: JoinRequest, now: int)
    | ConsumeEv(id: string, now: int)
    | RevokeEv(id: string, now: int)
    | DeleteEv(id: string, now: int)
    | CleanupEv(now: int)
    | SessionEv(op: SessionRuns.Op, ttlMs: int, now: int)

  function Step(cfg: Config, desk: Desk, e: Event): Desk {
    match e
    case IssueEv(req, id, now) => desk.(store := Issued(cfg, desk.store, req, id, now).0)
    case JoinEv(req, now) => Join(cfg, desk, req, now).0
    case ConsumeEv(id, now) => desk.(store := Consumed(desk.store, id, now).0)
    case RevokeEv(id, now) => desk.(store := Revoked(desk.store, id, now))
    case DeleteEv(id, _) => desk.(store := Deleted(desk.store, id))
    case CleanupEv(now) => desk.(store := WithoutExpired(desk.store, now))
    case SessionEv(op, ttlMs, _) => desk.(sessions := SessionRuns.Apply(op, desk.sessions, ttlMs))
  }

  function After(cfg: Config, events: seq<Event>, n: nat): Desk
    requires n <= |events|
  {
    if n == 0 then Desk(map[], Sessions.Initial()) else Step(cfg, After(cfg, events, n - 1), events[n - 1])
  }

  predicate IssuedAt(cfg: Config, events: seq<Event>, i: nat)
    requires i < |events|
  {
    events[i].IssueEv? && Issued(cfg, After(cfg, events, i).store, events[i].issue, events[i].id,
      events[i].now).1.Success?
  }

  predicate JoinedAt(cfg: Config, events: seq<Event>, i: nat)
    requires i < |events|
  {
    events[i].JoinEv? && Join(cfg, After(cfg, events, i), events[i].join, events[i].now).1.Joined?
  }

  /** Time never runs backwards, and ticket ids are never issued twice. */
  ghost predicate Timed(events: seq<Event>) {
    forall i, j | 0 <= i < j < |events| :: events[i].now <= events[j].now
  }

  ghost predicate FreshIds(events: seq<Event>) {
    forall i, j | 0 <= i < j < |events| && events[i].IssueEv? && events[j].IssueEv? :: events[i].id != events[j].id
  }

  // ---- the reference: a ledger that never forgets a ticket ----

  datatype Entry = Entry(ticket: Ticket, consumed: bool, revoked: bool, deleted: bool)

  type Ledger = map<string, Entry>

  predicate LedgerUsable(ledger: Ledger, id: string, now: int) {
    id in ledger && !ledger[id].consumed && !ledger[id].revoked && !ledger[id].deleted
      && now < ledger[id].ticket.expiresAt
  }

  /** When the ledger admits a verification request. */
  predicate LedgerAdmits(cfg: Config, ledger: Ledger, req: VerifyRequest, now: int) {
    && LedgerUsable(ledger, req.ticketId, now)
    && SafeStringEquals(Signature(cfg, ledger[req.ticketId].ticket), ledger[req.ticketId].ticket.signature)
    && SafeStringEquals(ledger[req.ticketId].ticket.signature, req.signature)
    && FieldsMatch(ledger[req.ticketId].ticket, req)
  }

  function Spend(ledger: Ledger, id: string): Ledger
    requires id in ledger
  {
    ledger[id := ledger[id].(consumed := true)]
  }

  /** One event on the ledger; only whether the full store accepted a new ticket comes from the store. */
  function LedgerStep(cfg: Config, store: Store, ledger: Ledger, e: Event): Ledger {
    match e
    case IssueEv(req, id, now) =>
      var reply := Issued(cfg, store, req, id, now).1;
      if reply.Success? then ledger[id := Entry(reply.ticket, false, false, false)] else ledger
    case JoinEv(req, now) =>
      if ValidJoinRequest(req) && LedgerAdmits(cfg, ledger, TicketCheck(req), now) then Spend(ledger, req.ticketId)
        else ledger
    case ConsumeEv(id, now) => if LedgerUsable(ledger, id, now) then Spend(ledger, id) else ledger
    case RevokeEv(id, _) => if id in ledger then ledger[id := ledger[id].(revoked := true)] else ledger
    case DeleteEv(id, _) => if id in ledger then ledger[id := ledger[id].(deleted := true)] else ledger
    case _ => ledger
  }

  function LedgerAfter(cfg: Config, events: seq<Event>, n: nat): Ledger
    requires n <= |events|
  {
    if n == 0 then map[] else LedgerStep(cfg, After(cfg, events, n - 1).store, LedgerAfter(cfg, events, n - 1),
      events[n - 1])
  }

  predicate Recorded(t: Ticket, id: string, e: Entry) {
    && id != "" && t.ticketId == id && !e.deleted
    && t.(consumedAt := None, revokedAt := None) == e.ticket
    && (t.consumedAt.Some? <==> e.consumed) && (t.revokedAt.Some? <==> e.revoked)
  }

  /** From `now` on the store has lost nothing of the ledger but deleted and expired tickets. */
  ghost predicate Agree(store: Store, ledger: Ledger, now: int) {
    && (forall id | id in store :: id in ledger && Recorded(store[id], id, ledger[id]))
    && (forall id | id in ledger && id !in store :: ledger[id].deleted || ledger[id].ticket.expiresAt <= now)
  }

  lemma UsableAgrees(store: Store, ledger: Ledger, id: string, now: int)
    requires Agree(store, ledger, now)
    ensures LedgerUsable(ledger, id, now) <==> id != "" && id in store && Usable(store[id], now)
    ensures id in store ==> id in ledger && Recorded(store[id], id, ledger[id])
  {
  }

  lemma VerifyAgrees(cfg: Config, store: Store, ledger: Ledger, req: VerifyRequest, now: int)
    requires Agree(store, ledger, now)
    ensures Verified(cfg, store, req, now).Success? <==> LedgerAdmits(cfg, ledger, req, now)
    ensures VerifiedAndConsumed(cfg, store, req, now).1.Success? <==> LedgerAdmits(cfg, ledger, req, now)
    ensures LedgerAdmits(cfg, ledger, req, now) ==> Usable(store[req.ticketId], now)
  {
    UsableAgrees(store, ledger, req.ticketId, now);
    hide Agree;
  }

  lemma ConsumeAgrees(store: Store, ledger: Ledger, id: string, now: int)
    requires Agree(store, ledger, now)
    ensures Agree(Consumed(store, id, now).0, if LedgerUsable(ledger, id, now) then Spend(ledger, id) else ledger, now)
  {
  }

  lemma IssueAgrees(cfg: Config, store: Store, ledger: Ledger, req: IssueRequest, id: string, now: int)
    requires Agree(store, ledger, now) && id !in ledger
    ensures Agree(Issued(cfg, store, req, id, now).0, LedgerStep(cfg, store, ledger, IssueEv(req, id, now)), now)
  {
  }

  lemma LaterAgrees(store: Store, ledger: Ledger, now: int, later: int)
    requires Agree(store, ledger, now) && now <= later
    ensures Agree(store, ledger, later)
  {
  }

  /** The store of a join is that of consuming its ticket, when the ticket verifies. */
  lemma JoinStore(cfg: Config, desk: Desk, req: JoinRequest, now: int)
    ensures Join(cfg, desk, req, now).0.store ==
      if ValidJoinRequest(req) && Verified(cfg, desk.store, TicketCheck(req), now).Success?
      then Consumed(desk.store, req.ticketId, now).0 else desk.store
    ensures Join(cfg, desk, req, now).1.Joined? ==>
      ValidJoinRequest(req) && VerifiedAndConsumed(cfg, desk.store, TicketCheck(req), now).1.Success?
  {
    hide Consumed, Verified, ResolveSession;
  }

  lemma StepAgrees(cfg: Config, desk: Desk, ledger: Ledger, e: Event)
    requires Agree(desk.store, ledger, e.now) && (e.IssueEv? ==> e.id !in ledger)
    ensures Agree(Step(cfg, desk, e).store, LedgerStep(cfg, desk.store, ledger, e), e.now)
  {
    hide Agree, Issued, Verified, Consumed, Revoked, Deleted, WithoutExpired, LedgerUsable, LedgerAdmits, Join;
    match e
    case IssueEv(req, id, now) => IssueAgrees(cfg, desk.store, ledger, req, id, now);
    case JoinEv(req, now) =>
      JoinStore(cfg, desk, req, now);
      VerifyAgrees(cfg, desk.store, ledger, TicketCheck(req), now);
      ConsumeAgrees(desk.store, ledger, req.ticketId, now);
      AdmitsUsable(cfg, ledger, TicketCheck(req), now);
    case ConsumeEv(id, now) => ConsumeAgrees(desk.store, ledger, id, now);
    case RevokeEv(id, now) => RevokeAgrees(desk.store, ledger, id, now);
    case DeleteEv(id, now) => DeleteAgrees(desk.store, ledger, id, now);
    case CleanupEv(now) => CleanupAgrees(desk.store, ledger, now);
    case SessionEv(_, _, _) =>
  }

  lemma RevokeAgrees(store: Store, ledger: Ledger, id: string, now: int)
    requires Agree(store, ledger, now)
    ensures Agree(Revoked(store, id, now), if id in ledger then ledger[id := ledger[id].(revoked := true)]
      else ledger, now)
  {
  }

  lemma DeleteAgrees(store: Store, ledger: Ledger, id: string, now: int)
    requires Agree(store, ledger, now)
    ensures Agree(Deleted(store, id), if id in ledger then ledger[id := ledger[id].(deleted := true)] else ledger, now)
  {
  }

  lemma CleanupAgrees(store: Store, ledger: Ledger, now: int)
    requires Agree(store, ledger, now)
    ensures Agree(WithoutExpired(store, now), ledger, now)
  {
  }

  lemma AdmitsUsable(cfg: Config, ledger: Ledger, req: VerifyRequest, now: int)
    ensures LedgerAdmits(cfg, ledger, req, now) ==> LedgerUsable(ledger, req.ticketId, now)
  {
  }

  /** Every ledger entry goes back to a successful issue, and shows whether the ticket was revoked since. */
  lemma {:induction false} LedgerHistory(cfg: Config, events: seq<Event>, n: nat, id: string) returns (i: nat)
    requires n <= |events| && id in LedgerAfter(cfg, events, n)
    ensures i < n && IssuedAt(cfg, events, i) && events[i].id == id
    ensures Issued(cfg, After(cfg, events, i).store, events[i].issue, id, events[i].now).1 ==
      Success(LedgerAfter(cfg, events, n)[id].ticket)
    ensures !LedgerAfter(cfg, events, n)[id].revoked ==>
      forall k | i < k < n :: !(events[k].RevokeEv? && events[k].id == id)
  {
    hide Step, Issued, SafeStringEquals, FieldsMatch, Signature;
    var before, e := LedgerAfter(cfg, events, n - 1), events[n - 1];
    if e.IssueEv? && e.id == id && IssuedAt(cfg, events, n - 1) {
      i := n - 1;
    } else {
      assert id in before;
      i := LedgerHistory(cfg, events, n - 1, id);
    }
  }

  /** The store agrees with the ledger after every run. */
  lemma {:induction false} StoreFollowsLedger(cfg: Config, events: seq<Event>, n: nat, now: int)
    requires n <= |events| && Timed(events) && FreshIds(events) && (n > 0 ==> events[n - 1].now <= now)
    ensures Agree(After(cfg, events, n).store, LedgerAfter(cfg, events, n), now)
  {
    hide Step, LedgerStep, Agree;
    if n == 0 {
      assert Agree(map[], map[], now) by { EmptyAgrees(now); }
    } else {
      var e := events[n - 1];
      StoreFollowsLedger(cfg, events, n - 1, e.now);
      if e.IssueEv? && e.id in LedgerAfter(cfg, events, n - 1) {
        var i := LedgerHistory(cfg, events, n - 1, e.id);
        assert false;
      }
      StepAgrees(cfg, After(cfg, events, n - 1), LedgerAfter(cfg, events, n - 1), e);
      LaterAgrees(After(cfg, events, n).store, LedgerAfter(cfg, events, n), e.now, now);
    }
  }

  lemma EmptyAgrees(now: int)
    ensures Agree(map[], map[], now)
  {
  }

  // ---- main results ----

  /**
   After any interleaving a ticket verifies, and is consumed, exactly when the ledger admits it:
   issued, not consumed, revoked or deleted since, not yet expired, rightly signed and for this
   user, room and server. Forgetting expired tickets is invisible.
   */
  lemma AdmissionFollowsLedger(cfg: Config, events: seq<Event>, req: VerifyRequest, now: int)
    requires Timed(events) && FreshIds(events) && (events != [] ==> events[|events| - 1].now <= now)
    ensures var store, ledger := After(cfg, events, |events|).store, LedgerAfter(cfg, events, |events|);
            && (Verified(cfg, store, req, now).Success? <==> LedgerAdmits(cfg, ledger, req, now))
            && (VerifiedAndConsumed(cfg, store, req, now).1.Success? <==> LedgerAdmits(cfg, ledger, req, now))
  {
    hide Step, Verified, VerifiedAndConsumed, LedgerAdmits, Agree;
    StoreFollowsLedger(cfg, events, |events|, now);
    VerifyAgrees(cfg, After(cfg, events, |events|).store, LedgerAfter(cfg, events, |events|), req, now);
  }

  /**
   A successful join goes back to the issue of its ticket: for the same user, room and server, within the
   lifetime asked for and with no revocation in between.
   */
  lemma JoinHasItsIssue(cfg: Config, events: seq<Event>, j: nat) returns (i: nat)
    requires Timed(events) && FreshIds(events) && j < |events| && JoinedAt(cfg, events, j)
    ensures i < j && IssuedAt(cfg, events, i)
    ensures events[i].id == events[j].join.ticketId && events[i].issue.userId == events[j].join.userId
    ensures events[i].issue.roomId == events[j].join.roomId && events[i].issue.serverId == events[j].join.serverId
    ensures events[j].now - events[i].now < LifetimeMs(cfg, events[i].issue.ttlSeconds)
    ensures forall k | i < k < j :: !(events[k].RevokeEv? && events[k].id == events[i].id)
  {
    JoinIsAdmitted(cfg, events, j);
    hide Join, Verified, After, Issued;
    i := LedgerHistory(cfg, events, j, events[j].join.ticketId);
    IssuedTicketLives(cfg, After(cfg, events, i).store, events[i].issue, events[i].id, events[i].now);
  }

  lemma JoinIsAdmitted(cfg: Config, events: seq<Event>, j: nat)
    requires Timed(events) && FreshIds(events) && j < |events| && JoinedAt(cfg, events, j)
    ensures ValidJoinRequest(events[j].join)
    ensures LedgerAdmits(cfg, LedgerAfter(cfg, events, j), TicketCheck(events[j].join), events[j].now)
  {
    hide Join, Verified, VerifiedAndConsumed, LedgerAdmits, Agree, After;
    StoreFollowsLedger(cfg, events, j, events[j].now);
    JoinStore(cfg, After(cfg, events, j), events[j].join, events[j].now);
    VerifyAgrees(cfg, After(cfg, events, j).store, LedgerAfter(cfg, events, j), TicketCheck(events[j].join),
      events[j].now);
  }

  /**
   How long a ticket lives, in milliseconds: the seconds asked for, or else the configured ones, cut to between 5
   and 3600; the configured seconds as they are when what was asked for does not parse.
   */
  function LifetimeMs(cfg: Config, ttlSeconds: Raw): int {
    match ttlSeconds
    case Num(n) => 1000 * Max(5, Min(3600, n))
    case Absent => 1000 * Max(5, Min(3600, cfg.ttlSeconds))
    case NotANumber => 1000 * cfg.ttlSeconds
  }

  /** A ticket issued at `now` is stored, unused, for the user, room and server asked for, and lives that long. */
  lemma IssuedTicketLives(cfg: Config, store: Store, req: IssueRequest, id: string, now: int)
    ensures var (next, reply) := Issued(cfg, store, req, id, now);
            reply.Success? ==>
              && id in next && next[id] == reply.ticket
              && reply.ticket.ticketId == id && reply.ticket.userId == req.userId
              && reply.ticket.roomId == req.roomId && reply.ticket.serverId == req.serverId
              && reply.ticket.consumedAt == None && reply.ticket.revokedAt == None
              && reply.ticket.expiresAt == now + LifetimeMs(cfg, req.ttlSeconds)
              && reply.ticket.signature
                 == cfg.sign(id, req.userId, req.roomId, req.serverId, now + LifetimeMs(cfg, req.ttlSeconds))
  {
  }

  /**
   A ticket is issued if and only if the secret is configured, the request names user, room and server, the id is
   new, the ticket is signed and lives at all, and fewer than `maxTickets` unexpired tickets are stored.
   */
  lemma IssuedExactlyWhen(cfg: Config, store: Store, req: IssueRequest, id: string, now: int)
    ensures var unexpired := set k | k in store && now < store[k].expiresAt;
            Issued(cfg, store, req, id, now).1.Success? <==>
              && cfg.secretConfigured && req.userId != "" && req.roomId != "" && req.serverId != ""
              && id != "" && id !in store
              && cfg.sign(id, req.userId, req.roomId, req.serverId, now + LifetimeMs(cfg, req.ttlSeconds)) != ""
              && LifetimeMs(cfg, req.ttlSeconds) > 0 && |unexpired| < cfg.maxTickets
  {
    UnexpiredStay(store, now);
    hide WithoutExpired;
  }

  /**
   A ticket is saved if and only if it is complete, unexpired and new, and fewer than `maxTickets` unexpired ones are
   stored. It is stored as unused; the expired ones go, and every other ticket is as it was. What is not complete,
   unexpired and new leaves the store alone.
   */
  lemma SavedExactly(store: Store, t: Ticket, now: int, maxTickets: int)
    ensures var (next, reply) := Saved(store, t, now, maxTickets);
            var unexpired := set k | k in store && now < store[k].expiresAt;
            var savable := t.ticketId != "" && t.userId != "" && t.roomId != "" && t.serverId != ""
              && t.signature != "" && now < t.expiresAt && t.ticketId !in store;
            && (reply.Success? <==> savable && |unexpired| < maxTickets)
            && (reply.Success? ==> reply.ticket == t.(consumedAt := None, revokedAt := None))
            && next.Keys == (if !savable then store.Keys
                             else if reply.Success? then unexpired + {t.ticketId} else unexpired)
            && (forall k | k in next && k in store :: next[k] == store[k])
            && (reply.Success? ==> next[t.ticketId] == reply.ticket)
  {
    UnexpiredStay(store, now);
    hide WithoutExpired;
  }

  /** A sweep leaves the unexpired tickets, as they are. */
  lemma UnexpiredStay(store: Store, now: int)
    ensures var unexpired := set k | k in store && now < store[k].expiresAt;
            WithoutExpired(store, now).Keys == unexpired && |WithoutExpired(store, now)| == |unexpired|
    ensures forall k | k in WithoutExpired(store, now) :: WithoutExpired(store, now)[k] == store[k]
  {
    var unexpired := set k | k in store && now < store[k].expiresAt;
    assert WithoutExpired(store, now).Keys == unexpired;
    assert |WithoutExpired(store, now)| == |WithoutExpired(store, now).Keys|;
  }

  /**
   A ticket is consumed if and only if it is stored, not revoked, not consumed and unexpired; it is then marked with
   the time. An attempt on an unused but expired ticket deletes it, and any other attempt changes nothing.
   */
  lemma ConsumedExactly(store: Store, id: string, now: int)
    ensures var (next, reply) := Consumed(store, id, now);
            var unused := id != "" && id in store && store[id].revokedAt == None && store[id].consumedAt == None;
            && (reply.Success? <==> unused && now < store[id].expiresAt)
            && (reply.Success? ==>
                 reply.ticket == store[id].(consumedAt := Some(now)) && next == store[id := reply.ticket])
            && (reply.Failure? ==> next == if unused then store - {id} else store)
  {
  }

  /** Revoking marks the ticket with the time, whatever its state, and a ticket that is not stored changes nothing. */
  lemma RevokedExactly(store: Store, id: string, now: int)
    ensures var next := Revoked(store, id, now);
            && next.Keys == store.Keys
            && forall k | k in store ::
                 next[k] == if k == id && id != "" then store[k].(revokedAt := Some(now)) else store[k]
  {
  }

  /** A spent ticket stays spent. */
  lemma {:induction false} SpentForever(cfg: Config, events: seq<Event>, m: nat, n: nat, id: string)
    requires FreshIds(events) && m <= n <= |events|
    requires id in LedgerAfter(cfg, events, m) && LedgerAfter(cfg, events, m)[id].consumed
    ensures id in LedgerAfter(cfg, events, n) && LedgerAfter(cfg, events, n)[id].consumed
    decreases n
  {
    hide After, Issued, SafeStringEquals, FieldsMatch, Signature;
    if m < n {
      SpentForever(cfg, events, m, n - 1, id);
      var e := events[n - 1];
      if e.IssueEv? && e.id == id {
        var i := LedgerHistory(cfg, events, n - 1, id);
        assert false;
      }
    }
  }

  /** One admission per ticket: two successful joins never use the same ticket. */
  lemma OneJoinPerTicket(cfg: Config, events: seq<Event>, i: nat, j: nat)
    requires Timed(events) && FreshIds(events) && i < j < |events| && events[i].JoinEv? && events[j].JoinEv?
    ensures JoinedAt(cfg, events, i) && JoinedAt(cfg, events, j) ==> events[i].join.ticketId != events[j].join.ticketId
  {
    hide JoinedAt, LedgerAfter, LedgerAdmits, Timed, FreshIds;
    if JoinedAt(cfg, events, i) && JoinedAt(cfg, events, j) {
      JoinSpends(cfg, events, i);
      JoinNeedsUnspent(cfg, events, j);
      if events[i].join.ticketId == events[j].join.ticketId {
        SpentForever(cfg, events, i + 1, j, events[i].join.ticketId);
        assert false;
      }
    }
  }

  lemma JoinNeedsUnspent(cfg: Config, events: seq<Event>, j: nat)
    requires Timed(events) && FreshIds(events) && j < |events| && JoinedAt(cfg, events, j)
    ensures events[j].JoinEv? && events[j].join.ticketId in LedgerAfter(cfg, events, j)
    ensures !LedgerAfter(cfg, events, j)[events[j].join.ticketId].consumed
  {
    hide LedgerAfter, Timed, FreshIds, Join;
    JoinIsAdmitted(cfg, events, j);
  }

  lemma JoinSpends(cfg: Config, events: seq<Event>, i: nat)
    requires Timed(events) && FreshIds(events) && i < |events| && JoinedAt(cfg, events, i)
    ensures events[i].JoinEv? && events[i].join.ticketId in LedgerAfter(cfg, events, i + 1)
    ensures LedgerAfter(cfg, events, i + 1)[events[i].join.ticketId].consumed
  {
    hide After, Timed, FreshIds, Join;
    JoinIsAdmitted(cfg, events, i);
    AdmitsUsable(cfg, LedgerAfter(cfg, events, i), TicketCheck(events[i].join), events[i].now);
    hide LedgerAdmits;
    LedgerUnfolds(cfg, events, i);
  }

  lemma LedgerUnfolds(cfg: Config, events: seq<Event>, i: nat)
    requires i < |events|
    ensures LedgerAfter(cfg, events, i + 1) ==
      LedgerStep(cfg, After(cfg, events, i).store, LedgerAfter(cfg, events, i), events[i])
  {
  }

  lemma SmallerStore(a: Store, b: Store)
    requires a.Keys <= b.Keys
    ensures |a| <= |b|
  {
    assert |a| == |a.Keys| && |b| == |b.Keys|;
    SubsetSize(a.Keys, b.Keys);
  }

  lemma StepFits(cfg: Config, desk: Desk, e: Event)
    requires |desk.store| <= cfg.maxTickets
    ensures |Step(cfg, desk, e).store| <= cfg.maxTickets
  {
    match e
    case IssueEv(req, id, now) =>
      SmallerStore(WithoutExpired(desk.store, now), desk.store);
    case JoinEv(req, now) =>
      JoinStore(cfg, desk, req, now);
      ConsumedFits(desk.store, req.ticketId, now);
      hide Join, Consumed;
    case ConsumeEv(id, now) => ConsumedFits(desk.store, id, now);
    case RevokeEv(id, now) => SmallerStore(Revoked(desk.store, id, now), desk.store);
    case DeleteEv(id, _) => SmallerStore(Deleted(desk.store, id), desk.store);
    case CleanupEv(now) => SmallerStore(WithoutExpired(desk.store, now), desk.store);
    case SessionEv(_, _, _) =>
  }

  lemma ConsumedFits(store: Store, id: string, now: int)
    ensures |Consumed(store, id, now).0| <= |store|
  {
    SmallerStore(Consumed(store, id, now).0, store);
  }

  /** The store never holds more than `maxTickets` tickets. */
  lemma {:induction false} StoreIsBounded(cfg: Config, events: seq<Event>, n: nat)
    requires n <= |events| && cfg.maxTickets >= 0
    ensures |After(cfg, events, n).store| <= cfg.maxTickets
  {
    hide Step;
    if n > 0 {
      StoreIsBounded(cfg, events, n - 1);
      StepFits(cfg, After(cfg, events, n - 1), events[n - 1]);
    }
  }

  // ---- where a join seats its user ----

  /** The session that a join finds: the named one when it exists, else the one indexed for the room. */
  function FoundSession(r: Sessions.Registry, req: JoinRequest): Option<Sessions.Session> {
    if req.sessionId != "" && req.sessionId in r.byId.vals then Some(r.byId.vals[req.sessionId])
    else Sessions.FindByRoom(r, req.roomId)
  }

  /** The session found is of another room, or of another server. */
  predicate FoundElsewhere(r: Sessions.Registry, req: JoinRequest) {
    var found := FoundSession(r, req);
    found.Some? && (found.value.roomId != req.roomId || found.value.serverId != req.serverId)
  }

  predicate FreshSession(r: Sessions.Registry, req: JoinRequest) {
    req.freshSessionId != "" && req.freshSessionId !in r.byId.vals
  }

  lemma ResolvedSession(r: Sessions.Registry, req: JoinRequest, now: int)
    requires SessionRuns.Good(r) && FreshSession(r, req) && ValidJoinRequest(req)
    ensures var (next, found) := ResolveSession(r, req, now);
            && SessionRuns.Good(next) && found.Opened? && found.session.sessionId in next.byId.vals
            && next.byId.vals[found.session.sessionId] == found.session
            && (FoundElsewhere(r, req) <==>
                 found.session.roomId != req.roomId || found.session.serverId != req.serverId)
            && (found.session.roomId != req.roomId ==> req.sessionId in r.byId.vals)
  {
    SessionRuns.CreatedGood(r, SessionRequest(req), now);
    if FoundSession(r, req).Some? {
      FoundIsStored(r, req);
      hide SessionRuns.Good, Sessions.FindByRoom, Sessions.Created;
    } else {
      NewIsStored(r, req, now);
      hide SessionRuns.Good, Sessions.FindByRoom, Sessions.GetOrCreateReply, Sessions.GotOrCreated;
    }
  }

  lemma FoundIsStored(r: Sessions.Registry, req: JoinRequest)
    requires SessionRuns.Good(r) && FoundSession(r, req).Some?
    ensures var s := FoundSession(r, req).value;
            && s.sessionId in r.byId.vals && r.byId.vals[s.sessionId] == s
            && (s.roomId != req.roomId ==> req.sessionId in r.byId.vals)
  {
  }

  lemma NewIsStored(r: Sessions.Registry, req: JoinRequest, now: int)
    requires SessionRuns.Good(r) && FreshSession(r, req) && ValidJoinRequest(req) && FoundSession(r, req).None?
    ensures var next, reply :=
      Sessions.GotOrCreated(r, SessionRequest(req), now), Sessions.GetOrCreateReply(r, SessionRequest(req), now);
            && next == Sessions.Created(r, SessionRequest(req), now)
            && reply == Sessions.Opened(Sessions.NewSession(SessionRequest(req), now))
            && req.freshSessionId in next.byId.vals && next.byId.vals[req.freshSessionId] == reply.session
            && reply.session.sessionId == req.freshSessionId
            && reply.session.roomId == req.roomId && reply.session.serverId == req.serverId
  {
    assert "" !in r.byId.vals;
    hide SessionRuns.GoodSession;
  }

  /**
   A join seats its user in a session of the room and server of the ticket unless, and only unless, the session
   it finds, by the id in the request or else by the room, is of another room or server. The room is wrong only
   when the request names the session.
   */
  lemma JoinSeatsExactly(cfg: Config, desk: Desk, req: JoinRequest, now: int)
    requires SessionRuns.Good(desk.sessions) && FreshSession(desk.sessions, req)
    ensures var (next, reply) := Join(cfg, desk, req, now);
            reply.Joined? ==>
              && reply.sessionId in next.sessions.byId.vals
              && var s := next.sessions.byId.vals[reply.sessionId];
                 && req.userId in s.players
                 && s.players[req.userId] == Sessions.Player(req.userId, req.connectionId, req.playerId, true, now)
                 && (s.roomId == reply.ticket.roomId && s.serverId == reply.ticket.serverId
                     <==> !FoundElsewhere(desk.sessions, req))
                 && (s.roomId != reply.ticket.roomId ==> req.sessionId in desk.sessions.byId.vals)
  {
    hide ResolveSession, FoundElsewhere, SessionRuns.Good, VerifiedAndConsumed;
    if Join(cfg, desk, req, now).1.Joined? {
      AdmittedTicket(cfg, desk.store, TicketCheck(req), now);
      ResolvedSession(desk.sessions, req, now);
    }
  }

  /**
   Where a valid join with a verified ticket finds no session, it makes one in the room and on the server of the
   request, for 20 players and meant to close when empty, and its user is the one player; where it finds one, it
   makes none.
   */
  lemma JoinMakesSession(cfg: Config, desk: Desk, req: JoinRequest, now: int)
    requires SessionRuns.Good(desk.sessions) && FreshSession(desk.sessions, req)
    ensures var (next, reply) := Join(cfg, desk, req, now);
            && (reply.Joined? && FoundSession(desk.sessions, req).None? ==>
                 && reply.sessionId == req.freshSessionId && reply.sessionId in next.sessions.byId.vals
                 && var s := next.sessions.byId.vals[reply.sessionId];
                    && s.roomId == req.roomId && s.serverId == req.serverId && s.maxPlayers == 20
                    && s.status == Sessions.Active && s.startedAt == Some(now) && s.closedAt == None
                    && !s.isPermanent && s.autoCloseWhenEmpty == None && s.players.Keys == {req.userId})
            && (reply.Joined? && FoundSession(desk.sessions, req).Some? ==>
                 && reply.sessionId == FoundSession(desk.sessions, req).value.sessionId
                 && next.sessions.byId.keys == desk.sessions.byId.keys && next.sessions.index == desk.sessions.index)
  {
    hide SessionRuns.Good, VerifiedAndConsumed;
    if Join(cfg, desk, req, now).1.Joined? {
      ResolvedIs(desk.sessions, req, now);
      if FoundSession(desk.sessions, req).None? {
        NewIsStored(desk.sessions, req, now);
        hide Sessions.FindByRoom;
      } else {
        FoundIsStored(desk.sessions, req);
      }
    }
  }

  /** A successful join gives the server of the request the players of the session joined, cut to its size. */
  lemma JoinSetsCount(
    reg: Servers.Registry, serverId: string, sessions: Sessions.Registry, reply: JoinReply, now: int)
    requires ServerRuns.Good(reg)
    ensures var next := ServersAfterJoin(reg, serverId, sessions, reply, now);
            && (reply.NotJoined? || serverId !in reg.vals ==> next == reg)
            && next.vals.Keys == reg.vals.Keys
            && (forall x | x in reg.vals && x != serverId :: next.vals[x] == reg.vals[x])
            && (reply.Joined? && reply.sessionId in sessions.byId.vals && serverId in reg.vals ==>
                 var s, t := reg.vals[serverId], next.vals[serverId];
                 var players := |sessions.byId.vals[reply.sessionId].players|;
                 && t.currentPlayers == Min(players, s.maxPlayers) && t.maxPlayers == s.maxPlayers
                 && t.status == RegistryEffects.Listed(s.status, t.currentPlayers, s.maxPlayers))
  {
    hide Servers.WithPlayerCount, ServerRuns.GoodServer, RegistryEffects.Listed;
    if reply.Joined? && reply.sessionId in sessions.byId.vals && serverId in reg.vals {
      RegistryEffects.GoodId(reg, serverId);
      var op := ServerRuns.CountOp(serverId, Num(|sessions.byId.vals[reply.sessionId].players|), now);
      RegistryEffects.CountsChangeExactly(op, reg, Servers.Defaults("", "", 0), serverId);
      RegistryEffects.GoodWellSized(reg, serverId);
    }
    hide ServerRuns.Good;
  }

  /** The session found, if any, lets the user in: it is open, and has a free seat or the user's own. */
  predicate LetsIn(r: Sessions.Registry, req: JoinRequest) {
    var found := FoundSession(r, req);
    found.None? || (Sessions.Open(found.value)
                    && (|found.value.players| < found.value.maxPlayers || req.userId in found.value.players))
  }

  /**
   Exactly when a valid join is seated: its ticket verifies, and no session is found or the one that is lets the
   user in. The ticket is spent in either case.
   */
  lemma JoinedExactlyWhen(cfg: Config, desk: Desk, req: JoinRequest, now: int)
    requires SessionRuns.Good(desk.sessions) && FreshSession(desk.sessions, req) && ValidJoinRequest(req)
    ensures var (next, reply) := Join(cfg, desk, req, now);
            var verified := Verified(cfg, desk.store, TicketCheck(req), now).Success?;
            && (reply.Joined? <==> verified && LetsIn(desk.sessions, req))
            && (verified ==> req.ticketId in next.store && next.store[req.ticketId].consumedAt.Some?)
  {
    hide ResolveSession, SessionRuns.Good, Sessions.PlayerAdded, Sessions.FindByRoom, FoundSession;
    SeatOffered(desk.sessions, req, now);
    VerifiedIsConsumed(cfg, desk.store, TicketCheck(req), now);
    hide Verified, VerifiedAndConsumed, LetsIn, Sessions.AddPlayerReply;
  }

  lemma VerifiedIsConsumed(cfg: Config, store: Store, req: VerifyRequest, now: int)
    ensures var (next, reply) := VerifiedAndConsumed(cfg, store, req, now);
            && (reply.Success? <==> Verified(cfg, store, req, now).Success?)
            && (reply.Success? ==> req.ticketId in next && next[req.ticketId].consumedAt.Some?)
  {
  }

  /** What the session of a join answers to its user. */
  lemma SeatOffered(r: Sessions.Registry, req: JoinRequest, now: int)
    requires SessionRuns.Good(r) && FreshSession(r, req) && ValidJoinRequest(req)
    ensures var (next, found) := ResolveSession(r, req, now);
            && found.Opened?
            && (Sessions.AddPlayerReply(next, found.session.sessionId, PlayerOf(req, now)).success <==> LetsIn(r, req))
  {
    hide SessionRuns.Good, FoundSession, ResolveSession, Sessions.AddPlayerReply, Sessions.NewSession, FoundElsewhere;
    ResolvedSession(r, req, now);
    ResolvedIs(r, req, now);
    var (next, found) := ResolveSession(r, req, now);
    StoredOffer(next, found.session, PlayerOf(req, now));
    NewIsFree(req, now);
  }

  /** The session of a join is the one found, or else a new one. */
  lemma ResolvedIs(r: Sessions.Registry, req: JoinRequest, now: int)
    requires SessionRuns.Good(r) && FreshSession(r, req) && ValidJoinRequest(req)
    ensures var found := ResolveSession(r, req, now).1;
            found == Sessions.Opened(if FoundSession(r, req).Some? then FoundSession(r, req).value
                                     else Sessions.NewSession(SessionRequest(req), now))
  {
    if FoundSession(r, req).None? {
      NewIsStored(r, req, now);
      hide SessionRuns.Good, Sessions.GotOrCreated, Sessions.GetOrCreateReply, Sessions.NewSession;
    }
    hide SessionRuns.Good, Sessions.Created;
  }

  lemma StoredOffer(r: Sessions.Registry, s: Sessions.Session, player: Sessions.Player)
    ensures s.sessionId in r.byId.vals && r.byId.vals[s.sessionId] == s && player.userId != "" ==>
              (Sessions.AddPlayerReply(r, s.sessionId, player).success
              <==> Sessions.Open(s) && (|s.players| < s.maxPlayers || player.userId in s.players))
  {
  }

  lemma NewIsFree(req: JoinRequest, now: int)
    ensures var s := Sessions.NewSession(SessionRequest(req), now);
            Sessions.Open(s) && |s.players| < s.maxPlayers
  {
  }

  /** A session is created and a ticket issued for it; another user's departure closes the session; then the join. */
  function ClosedDoorRun(now: int): seq<Event> {
    [SessionEv(
       SessionRuns.CreateOp(Sessions.CreateRequest("x", "a", "s", None, Absent, None, false, None), now), 300000, now),
     IssueEv(IssueRequest("u", "a", "s", Absent), "k", now),
     SessionEv(SessionRuns.LeaveOp(Sessions.LeaveRequest("s", "", "v", "", "", "", None), now), 300000, now),
     JoinEv(JoinRequest("s", "a", "u", "k", "signed", "", "", "", "fresh"), now)]
  }

  /** An admitted ticket is spent without a seat: the session found for its room has been closed. */
  lemma SpentWithoutSeat(now: int)
    ensures var cfg, events := ConstantSigner(), ClosedDoorRun(now);
            && Join(cfg, After(cfg, events, 3), events[3].join, now).1 == NotJoined("session_not_open")
            && var store := After(cfg, events, 4).store; "k" in store && store["k"].consumedAt == Some(now)
  {
    var cfg, events := ConstantSigner(), ClosedDoorRun(now);
    var created := SessionRuns.Apply(events[0].op, Sessions.Initial(), 300000);
    var left := SessionRuns.Apply(events[2].op, created, 300000);
    TicketOfClosedDoor(now);
    EmptySessionCloses(now);
    var store := After(cfg, events, 2).store;
    assert After(cfg, events, 3) == Desk(store, left);
    assert After(cfg, events, 4) == Step(cfg, Desk(store, left), events[3]);
    ClosedDoor(store, left, now);
    hide SessionRuns.Apply, After, NewTicket, Join, Sessions.FindByRoom, Sessions.Initial;
  }

  lemma ClosedDoor(store: Store, r: Sessions.Registry, now: int)
    requires store.Keys == {"k"} && store["k"] == NewTicket(ConstantSigner(), ClosedDoorRun(now)[1].issue, "k", now)
    requires Sessions.FindByRoom(r, "a").Some?
    requires var id := Sessions.FindByRoom(r, "a").value.sessionId;
             id in r.byId.vals && r.byId.vals[id].status == Sessions.Closed
    ensures var (next, reply) := Join(ConstantSigner(), Desk(store, r), ClosedDoorRun(now)[3].join, now);
            reply == NotJoined("session_not_open") && "k" in next.store && next.store["k"].consumedAt == Some(now)
  {
    hide Sessions.FindByRoom;
  }

  lemma TicketOfClosedDoor(now: int)
    ensures var cfg, events := ConstantSigner(), ClosedDoorRun(now);
            var desk := After(cfg, events, 2);
            && desk.store.Keys == {"k"} && desk.store["k"] == NewTicket(cfg, events[1].issue, "k", now)
            && desk.sessions == SessionRuns.Apply(events[0].op, Sessions.Initial(), 300000)
  {
    var cfg, events := ConstantSigner(), ClosedDoorRun(now);
    var created := SessionRuns.Apply(events[0].op, Sessions.Initial(), 300000);
    hide SessionRuns.Apply;
    assert After(cfg, events, 1) == Desk(map[], created);
  }

  lemma EmptySessionCloses(now: int)
    ensures var events := ClosedDoorRun(now);
            var created := SessionRuns.Apply(events[0].op, Sessions.Initial(), 300000);
            var left := SessionRuns.Apply(events[2].op, created, 300000);
            Sessions.FindByRoom(left, "a").Some? && Sessions.FindByRoom(left, "a").value.status == Sessions.Closed
            && Sessions.FindByRoom(left, "a").value.sessionId == "x" && "x" in left.byId.vals
            && left.byId.vals["x"].status == Sessions.Closed
  {
    var events := ClosedDoorRun(now);
    var created := SessionRuns.Apply(events[0].op, Sessions.Initial(), 300000);
    var s := Sessions.NewSession(events[0].op.create, now);
    assert created.byId.vals == map["x" := s] && created.index == map["a" := "x"];
    assert Sessions.ClosesWhenEmpty(s) && !Sessions.HasPlayer(s, events[2].op.leave);
  }

  lemma AdmittedTicket(cfg: Config, store: Store, req: VerifyRequest, now: int)
    ensures var reply := VerifiedAndConsumed(cfg, store, req, now).1;
            reply.Success? ==> FieldsMatch(reply.ticket, req)
  {
  }

  /** The session of room "b" on server "t" is created, a ticket for room "a" on server "s" issued, and a join made. */
  function OtherRoomRun(now: int): seq<Event> {
    [SessionEv(SessionRuns.CreateOp(Sessions.CreateRequest("x", "b", "t", None, Absent, None, false, None), now),
      300000, now),
     IssueEv(IssueRequest("u", "a", "s", Absent), "k", now),
     JoinEv(JoinRequest("s", "a", "u", "k", "signed", "x", "", "", "fresh"), now)]
  }

  function ConstantSigner(): Config {
    Config(true, 60, 1, (id, user, room, server, expires) => "signed")
  }

  /** The ticket for room "a" of server "s" seats its user in the session of room "b" of server "t". */
  lemma JoinReachesOtherRoom(now: int)
    ensures var cfg, events := ConstantSigner(), OtherRoomRun(now);
            && JoinedAt(cfg, events, 2)
            && var sessions := After(cfg, events, 3).sessions;
               && "x" in sessions.byId.vals && "u" in sessions.byId.vals["x"].players
               && sessions.byId.vals["x"].roomId == "b" && sessions.byId.vals["x"].serverId == "t"
  {
    var cfg, events := ConstantSigner(), OtherRoomRun(now);
    var desk := After(cfg, events, 2);
    assert After(cfg, events, 1) == Desk(map[], SessionRuns.Apply(events[0].op, Sessions.Initial(), 300000));
    assert desk.sessions == After(cfg, events, 1).sessions;
    assert desk.store.Keys == {"k"} && desk.store["k"] == NewTicket(cfg, events[1].issue, "k", now);
    assert After(cfg, events, 3) == Step(cfg, desk, events[2]);
  }

  /** Joins keep the session invariants, so over every run with fresh session ids the seats are as said. */
  lemma {:induction false} SessionsAlwaysGood(cfg: Config, events: seq<Event>, n: nat)
    requires n <= |events| && forall i: nat | i < n :: FreshAt(cfg, events, i)
    ensures SessionRuns.Good(After(cfg, events, n).sessions)
  {
    hide Join, SessionRuns.Good, SessionRuns.Apply, SessionRuns.FreshIds;
    if n == 0 {
      SessionRuns.InitialGood();
    } else {
      SessionsAlwaysGood(cfg, events, n - 1);
      var desk, e := After(cfg, events, n - 1), events[n - 1];
      assert FreshAt(cfg, events, n - 1);
      match e
      case JoinEv(req, now) => JoinKeepsGood(cfg, desk, req, now);
      case SessionEv(op, ttlMs, _) => SessionRuns.ApplyGood(op, desk.sessions, ttlMs);
      case _ =>
    }
  }

  /** Sessions created by event `i` get ids that are in use nowhere. */
  ghost predicate FreshAt(cfg: Config, events: seq<Event>, i: nat)
    requires i < |events|
  {
    var sessions := After(cfg, events, i).sessions;
    match events[i]
    case JoinEv(req, _) => FreshSession(sessions, req)
    case SessionEv(op, _, _) => SessionRuns.FreshIds(op, sessions)
    case _ => true
  }

  lemma JoinKeepsGood(cfg: Config, desk: Desk, req: JoinRequest, now: int)
    requires SessionRuns.Good(desk.sessions) && FreshSession(desk.sessions, req)
    ensures SessionRuns.Good(Join(cfg, desk, req, now).0.sessions)
  {
    hide ResolveSession, FoundElsewhere, SessionRuns.Good, VerifiedAndConsumed, Sessions.PlayerAdded;
    if ValidJoinRequest(req) {
      ResolvedSession(desk.sessions, req, now);
      var (sessions, found) := ResolveSession(desk.sessions, req, now);
      SessionRuns.OneSessionGood(SessionRuns.AddPlayerOp(found.session.sessionId, PlayerOf(req, now), now), sessions,
        0);
    }
  }
}
