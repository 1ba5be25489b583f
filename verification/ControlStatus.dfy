/** A status call sweeps the reservations of empty rooms with what the session registry reports. */
module ControlStatus {
  import ServerRecord
  import Servers = ServerRegistry
  import ServerRuns = ServerRegistryRuns
  import RoomCleanup
  import Sessions
  import SessionRuns

  /** The rooms that the session statistics count as creating or active. */
  function ActiveRoomIds(stats: Sessions.Stats): set<string> {
    set room | room in stats.byRoom && (stats.byRoom[room].creating > 0 || stats.byRoom[room].active > 0)
  }

  /** The server records after a status call: swept, then derived again while the statistics are read. */
  function Swept(reg: Servers.Registry, sessions: Sessions.Registry, now: int): Servers.Registry {
    Servers.Refreshed(Servers.CleanedUp(reg, ActiveRoomIds(Sessions.StatsOf(sessions)), now))
  }

  class GameServerControl {
    const registry: Servers.GameServerRegistry
    const sessionRegistry: Sessions.GameSessionRegistry

    constructor (registry: Servers.GameServerRegistry, sessionRegistry: Sessions.GameSessionRegistry)
      ensures this.registry == registry && this.sessionRegistry == sessionRegistry
    {
      this.registry := registry;
      this.sessionRegistry := sessionRegistry;
    }

    method GetStatus(now: int) returns (stats: Sessions.Stats, totals: Servers.Totals)
      modifies registry
      ensures stats == Sessions.StatsOf(sessionRegistry.State())
      ensures registry.serversById == Swept(old(registry.serversById), sessionRegistry.State(), now)
      ensures totals == Servers.TotalsOver(registry.serversById.keys, registry.serversById.vals)
    {
      stats := sessionRegistry.GetStats();
      registry.CleanupEmptyRoomReservations(ActiveRoomIds(stats), now);
      totals := registry.GetStats();
    }
  }

  lemma ActiveRoomsAreOpen(sessions: Sessions.Registry, room: string)
    requires SessionRuns.Good(sessions)
    ensures room in ActiveRoomIds(Sessions.StatsOf(sessions)) <==> SessionRuns.RoomOpen(sessions, room)
  {
    SessionRuns.StatsListOpenRooms(sessions, room);
  }

  /** What a status call leaves of the reservation of a room on a server. */
  ghost predicate FreesExactly(
    reg: Servers.Registry, sessions: Sessions.Registry, next: Servers.Registry, id: string, room: string)
    requires id in reg.vals && id in next.vals
  {
    var before, after := reg.vals[id].assignedRooms.vals, next.vals[id].assignedRooms.vals;
    && (room in after <==>
          && room in before
          && (SessionRuns.RoomOpen(sessions, room)
              || RoomCleanup.ReportedPlayers(Servers.HeartbeatRoomsOf(reg.vals[id]), room) > 0))
    && (room in after ==> after[room] == before[room])
  }

  lemma SweepFreesExactly(reg: Servers.Registry, sessions: Sessions.Registry, now: int, id: string, room: string)
    requires ServerRuns.Good(reg) && SessionRuns.Good(sessions) && id in reg.vals
    ensures var next := Swept(reg, sessions, now);
            && next.keys == reg.keys && id in next.vals && FreesExactly(reg, sessions, next, id, room)
            && next.vals[id].reservedPlayers == ServerRecord.RoomTotal(next.vals[id].assignedRooms)
            && next.vals[id].maxPlayers == reg.vals[id].maxPlayers
  {
    hide Servers.CleanedServer, SessionRuns.RoomOpen, Sessions.StatsOf, ServerRecord.RoomTotal, ServerRuns.Good,
      SessionRuns.Good, ServerRecord.Recompute, ActiveRoomIds;
    var active := ActiveRoomIds(Sessions.StatsOf(sessions));
    var cleaned := Servers.CleanedUp(reg, active, now);
    ActiveRoomsAreOpen(sessions, room);
    ServerRuns.CleanedUpGood(reg, active, now);
    ServerRuns.RefreshedGood(cleaned);
    RoomSizesOfGood(reg, id);
    if room in reg.vals[id].assignedRooms.vals {
      RoomCleanup.CleanupKeepsExactly(reg.vals[id], active, now, room);
    }
    RoomCleanup.CleanupOnlyRemoves(reg.vals[id], active, now);
    assert cleaned.vals[id] == Servers.CleanedServer(reg.vals[id], active, now);
    hide Servers.Refreshed;
  }

  lemma RoomSizesOfGood(reg: Servers.Registry, id: string)
    requires ServerRuns.Good(reg) && id in reg.vals
    ensures ServerRecord.RoomSizesOk(reg.vals[id].assignedRooms)
  {
  }

  /**
   For every reachable registry and session state, a status call keeps a reserved room if and only if the room
   has an open session or its last heartbeat entry reports players; the sizes that stay are unchanged, nothing is
   added, no server is lost, and the reserved players of every server are the plain sum of its room sizes again.
   */
  lemma StatusFreesExactlyTheEmptyRooms(
    ops: seq<ServerRuns.Op>, d: Servers.Defaults, sessionOps: seq<SessionRuns.Op>, ttlMs: int, now: int, id: string,
    room: string)
    requires SessionRuns.AllFresh(sessionOps, ttlMs, |sessionOps|)
    ensures var reg := ServerRuns.After(ops, d, |ops|);
            var sessions := SessionRuns.After(sessionOps, ttlMs, |sessionOps|);
            var next := Swept(reg, sessions, now);
            && next.keys == reg.keys
            && (id in reg.vals ==>
                  && FreesExactly(reg, sessions, next, id, room)
                  && next.vals[id].reservedPlayers == ServerRecord.RoomTotal(next.vals[id].assignedRooms))
  {
    hide SessionRuns.After, ServerRuns.After, ServerRuns.Good, SessionRuns.Good, SessionRuns.AllFresh, FreesExactly;
    ServerRuns.DerivedCapacityAlwaysHolds(ops, d, |ops|);
    SessionRuns.SessionInvariantAlwaysHolds(sessionOps, ttlMs, |sessionOps|);
    var reg, sessions := ServerRuns.After(ops, d, |ops|), SessionRuns.After(sessionOps, ttlMs, |sessionOps|);
    if id in reg.vals {
      SweepFreesExactly(reg, sessions, now, id, room);
    }
  }
}
