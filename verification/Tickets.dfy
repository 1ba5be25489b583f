/** Game tickets: the in-memory store and the service that issues, verifies and consumes them. */
module Tickets {
  import opened Common

  datatype Ticket = Ticket(
    ticketId: string, userId: string, roomId: string, serverId: string, signature: string, expiresAt: int,
    consumedAt: Option<int>, revokedAt: Option<int>)

  type Store = map<string, Ticket>

  /** The signature of a ticket under the service secret, as an arbitrary function of what is signed. */
  type Signer = (string, string, string, string, int) -> string

  datatype Config = Config(secretConfigured: bool, ttlSeconds: int, maxTickets: int, sign: Signer)

  datatype IssueRequest = IssueRequest(userId: string, roomId: string, serverId: string, ttlSeconds: Raw)

  /** A verification request; an empty user, room or server is not compared. */
  datatype VerifyRequest = VerifyRequest(ticketId: string, signature: string, userId: string, roomId: string,
    serverId: string)

  datatype Reply = Success(ticket: Ticket) | Failure(reason: string)

  predicate Expired(t: Ticket, now: int) {
    now >= t.expiresAt
  }

  predicate Usable(t: Ticket, now: int) {
    t.revokedAt.None? && t.consumedAt.None? && !Expired(t, now)
  }

  function Signature(cfg: Config, t: Ticket): string {
    cfg.sign(t.ticketId, t.userId, t.roomId, t.serverId, t.expiresAt)
  }

  /** The constant-time comparison refuses empty texts. */
  predicate SafeStringEquals(a: string, b: string) {
    a != "" && b != "" && a == b
  }

  // ---- the store ----

  function WithoutExpired(store: Store, now: int): Store {
    map id | id in store && !Expired(store[id], now) :: store[id]
  }

  predicate Savable(store: Store, t: Ticket, now: int) {
    && t.ticketId != "" && t.userId != "" && t.roomId != "" && t.serverId != "" && t.signature != ""
    && t.expiresAt > now && t.ticketId !in store
  }

  /** Saving sweeps the expired tickets first; a full store refuses. */
  function Saved(store: Store, t: Ticket, now: int, maxTickets: int): (Store, Reply) {
    if !Savable(store, t, now) then (store, Failure("ticket is not valid for save")) else
      var swept := WithoutExpired(store, now);
      if |swept| >= maxTickets then (swept, Failure("Max ticket capacity reached."))
      else (swept[t.ticketId := t.(consumedAt := None, revokedAt := None)],
        Success(t.(consumedAt := None, revokedAt := None)))
  }

  function Consumed(store: Store, id: string, now: int): (Store, Reply) {
    if id == "" then (store, Failure("ticket_id_required"))
    else if id !in store then (store, Failure("ticket_not_found"))
    else
      var t := store[id];
      if t.revokedAt.Some? then (store, Failure("ticket_revoked"))
      else if t.consumedAt.Some? then (store, Failure("ticket_already_consumed"))
      else if Expired(t, now) then (store - {id}, Failure("ticket_expired"))
      else (store[id := t.(consumedAt := Some(now))], Success(t.(consumedAt := Some(now))))
  }

  function Revoked(store: Store, id: string, now: int): Store {
    if id == "" || id !in store then store else store[id := store[id].(revokedAt := Some(now))]
  }

  function Deleted(store: Store, id: string): Store {
    if id == "" then store else store - {id}
  }

  // ---- the service ----

  function NewTicket(cfg: Config, req: IssueRequest, id: string, now: int): Ticket {
    var ttl := ClampInteger(if req.ttlSeconds.Absent? then Num(cfg.ttlSeconds)
      else req.ttlSeconds, cfg.ttlSeconds, 5, 3600);
    var t := Ticket(id, req.userId, req.roomId, req.serverId, "", now + ttl * 1000, None, None);
    t.(signature := Signature(cfg, t))
  }

  function Issued(cfg: Config, store: Store, req: IssueRequest, id: string, now: int): (Store, Reply) {
    if req.userId == "" || req.roomId == "" || req.serverId == "" || !cfg.secretConfigured
    then (store, Failure("issue request is not valid"))
    else Saved(store, NewTicket(cfg, req, id, now), now, cfg.maxTickets)
  }

  predicate FieldsMatch(t: Ticket, req: VerifyRequest) {
    && (req.userId != "" ==> t.userId == req.userId)
    && (req.roomId != "" ==> t.roomId == req.roomId)
    && (req.serverId != "" ==> t.serverId == req.serverId)
  }

  function Verified(cfg: Config, store: Store, req: VerifyRequest, now: int): Reply {
    if req.ticketId == "" then Failure("ticket_id_required")
    else if req.signature == "" then Failure("ticket_signature_required")
    else if req.ticketId !in store then Failure("ticket_not_found")
    else
      var t := store[req.ticketId];
      if !Usable(t, now) then Failure("ticket_not_valid")
      else if !SafeStringEquals(Signature(cfg, t), t.signature) then Failure("ticket_signature_invalid")
      else if !SafeStringEquals(t.signature, req.signature) then Failure("ticket_signature_mismatch")
      else if req.userId != "" && t.userId != req.userId then Failure("ticket_user_mismatch")
      else if req.roomId != "" && t.roomId != req.roomId then Failure("ticket_room_mismatch")
      else if req.serverId != "" && t.serverId != req.serverId then Failure("ticket_server_mismatch")
      else Success(t)
  }

  function VerifiedAndConsumed(cfg: Config, store: Store, req: VerifyRequest, now: int): (Store, Reply) {
    var v := Verified(cfg, store, req, now);
    if v.Failure? then (store, v) else Consumed(store, req.ticketId, now)
  }

  class GameTicketService {
    const cfg: Config
    var ticketsById: Store

    constructor (cfg: Config)
      ensures this.cfg == cfg && ticketsById == map[]
    {
      this.cfg := cfg;
      ticketsById := map[];
    }

    method IssueTicket(req: IssueRequest, id: string, now: int) returns (reply: Reply)
      modifies this
      ensures (ticketsById, reply) == Issued(cfg, old(ticketsById), req, id, now)
    {
      if req.userId == "" || req.roomId == "" || req.serverId == "" || !cfg.secretConfigured {
        return Failure("issue request is not valid");
      }
      reply := SaveTicket(NewTicket(cfg, req, id, now), now);
    }

    method SaveTicket(t: Ticket, now: int) returns (reply: Reply)
      modifies this
      ensures (ticketsById, reply) == Saved(old(ticketsById), t, now, cfg.maxTickets)
    {
      if !Savable(ticketsById, t, now) {
        return Failure("ticket is not valid for save");
      }
      var _ := CleanupExpiredTickets(now);
      if |ticketsById| >= cfg.maxTickets {
        return Failure("Max ticket capacity reached.");
      }
      var record := t.(consumedAt := None, revokedAt := None);
      ticketsById := ticketsById[record.ticketId := record];
      return Success(record);
    }

    method CleanupExpiredTickets(now: int) returns (removedCount: nat)
      modifies this
      ensures ticketsById == WithoutExpired(old(ticketsById), now)
      ensures removedCount == |old(ticketsById)| - |ticketsById|
    {
      var before := ticketsById;
      var rest := before.Keys;
      removedCount := 0;
      while rest != {}
        invariant rest <= before.Keys
        invariant ticketsById == map id | id in before && (id in rest || !Expired(before[id], now)) :: before[id]
        invariant removedCount == |before| - |ticketsById|
        decreases rest
      {
        var id :| id in rest;
        if Expired(before[id], now) {
          RemovedSize(ticketsById, id);
          ticketsById := ticketsById - {id};
          removedCount := removedCount + 1;
        }
        rest := rest - {id};
      }
    }

    method ConsumeTicket(id: string, now: int) returns (reply: Reply)
      modifies this
      ensures (ticketsById, reply) == Consumed(old(ticketsById), id, now)
    {
      if id == "" { return Failure("ticket_id_required"); }
      if id !in ticketsById { return Failure("ticket_not_found"); }
      var record := ticketsById[id];
      if record.revokedAt.Some? { return Failure("ticket_revoked"); }
      if record.consumedAt.Some? { return Failure("ticket_already_consumed"); }
      if Expired(record, now) {
        ticketsById := ticketsById - {id};
        return Failure("ticket_expired");
      }
      record := record.(consumedAt := Some(now));
      ticketsById := ticketsById[id := record];
      return Success(record);
    }

    method RevokeTicket(id: string, now: int) returns (revoked: bool)
      modifies this
      ensures ticketsById == Revoked(old(ticketsById), id, now)
      ensures revoked <==> id != "" && id in old(ticketsById)
    {
      if id == "" || id !in ticketsById {
        return false;
      }
      ticketsById := ticketsById[id := ticketsById[id].(revokedAt := Some(now))];
      return true;
    }

    method DeleteTicket(id: string) returns (removed: bool)
      modifies this
      ensures ticketsById == Deleted(old(ticketsById), id) && (removed <==> id != "" && id in old(ticketsById))
    {
      if id == "" {
        return false;
      }
      removed := id in ticketsById;
      ticketsById := ticketsById - {id};
    }

    method VerifyAndConsumeTicket(req: VerifyRequest, now: int) returns (reply: Reply)
      modifies this
      ensures (ticketsById, reply) == VerifiedAndConsumed(cfg, old(ticketsById), req, now)
    {
      reply := Verified(cfg, ticketsById, req, now);
      if reply.Success? {
        reply := ConsumeTicket(req.ticketId, now);
      }
    }
  }

  lemma RemovedSize(store: Store, id: string)
    requires id in store
    ensures |store - {id}| == |store| - 1
  {
    assert (store - {id}).Keys == store.Keys - {id};
    assert |store| == |store.Keys| && |store - {id}| == |(store - {id}).Keys|;
  }
}
