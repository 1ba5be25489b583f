/**
 A registered game server: its status, its reserved rooms, the capacity fields derived
 from them, and the room list of its last heartbeat.
 */
module ServerRecord {
  import opened Common
  import opened JsMaps

  /** Registry statuses; `Unknown` is any other text a server may report. */
  datatype Status =
    | Starting | Online | Busy | Full | Draining | Offline | Unhealthy | Warm | Reserved | Claimed | Unknown

  datatype HeartbeatRoom = HeartbeatRoom(roomId: string, currentPlayers: int, isPrimary: bool)

  /** Reserved rooms with the player capacity reserved for each. */
  type Rooms = JsMap<string, int>

  datatype Server = Server(
    serverId: string, roomId: string, region: string, zone: string, status: Status,
    maxPlayers: int, currentPlayers: int,
    assignedRooms: Rooms, reservedPlayers: int, availableReservedSlots: int,
    updatedAt: int, rooms: Option<seq<HeartbeatRoom>>, metadataRooms: Option<seq<HeartbeatRoom>>)

  const MAX_ROOM := 1024
  const DEFAULT_MAX_PLAYERS := 20

  // ---- status ----

  function ResolveServerStatus(status: Status, currentPlayers: int, maxPlayers: int): Status {
    if status.Offline? || status.Unhealthy? || status.Draining? then status
    else if status.Warm? && currentPlayers == 0 then Warm
    else if status.Reserved? || status.Claimed? then status
    else if currentPlayers >= maxPlayers || status.Full? then Full
    else if status.Starting? || status.Busy? then status
    else Online
  }

  // ---- reserved capacity ----

  function SumOver(keys: seq<string>, vals: map<string, int>): int
    requires forall k | k in keys :: k in vals
  {
    if keys == [] then 0 else SumOver(keys[..|keys| - 1], vals) + vals[keys[|keys| - 1]]
  }

  /** The plain sum of the reserved room sizes. */
  function RoomTotal(rooms: Rooms): int {
    SumOver(rooms.keys, rooms.vals)
  }

  /** Room sizes clamped to [lo, cap] one by one. */
  function ClampRooms(rooms: Rooms, lo: int, cap: int): Rooms {
    RawMap(rooms.keys, map k | k in rooms.vals :: ClampInteger(Num(rooms.vals[k]), 0, lo, cap))
  }

  function WithReserved(s: Server, reserved: int): Server {
    s.(reservedPlayers := reserved, availableReservedSlots := Max(0, s.maxPlayers - reserved))
  }

  /** Renormalise the rooms and derive the capacity fields again. */
  function Recompute(s: Server): Server {
    var rooms := ClampRooms(s.assignedRooms, 1, MAX_ROOM);
    WithReserved(s.(assignedRooms := rooms), RoomTotal(ClampRooms(rooms, 0, MAX_ROOM)))
  }

  /** The slots a request for `roomId` may use: the free ones and those it already holds. */
  function AvailableReservedSlotsForRoom(s: Server, roomId: string): int {
    var already := if roomId != "" && roomId in s.assignedRooms.vals
                   then ClampInteger(Num(s.assignedRooms.vals[roomId]), 0, 0, MAX_ROOM) else 0;
    Max(0, s.availableReservedSlots + already)
  }

  // ---- heartbeat rooms ----

  function NormalizeHeartbeatRoomList(rooms: seq<HeartbeatRoom>): (r: seq<HeartbeatRoom>)
    ensures forall x | x in r :: x.roomId != "" && 0 <= x.currentPlayers <= 100000
  {
    if rooms == [] then [] else
      var init, last := NormalizeHeartbeatRoomList(rooms[..|rooms| - 1]), rooms[|rooms| - 1];
      if last.roomId == "" then init
      else init + [last.(currentPlayers := ClampInteger(Num(last.currentPlayers), 0, 0, 100000))]
  }

  function First(rooms: seq<HeartbeatRoom>, p: HeartbeatRoom -> bool): (found: Option<HeartbeatRoom>)
    ensures found.None? ==> forall r | r in rooms :: !p(r)
    ensures found.Some? ==> found.value in rooms && p(found.value)
  {
    if rooms == [] then None else if p(rooms[0]) then Some(rooms[0]) else First(rooms[1..], p)
  }

  predicate MarkedPrimary(r: HeartbeatRoom) {
    r.isPrimary
  }

  predicate HasPlayers(r: HeartbeatRoom) {
    r.currentPlayers > 0
  }

  /** The primary room: the current one, else one marked primary, else an active one, else the first. */
  function SelectPrimary(roomId: string, rooms: seq<HeartbeatRoom>): (id: string)
    requires rooms != []
    ensures exists r :: r in rooms && r.roomId == id
    ensures roomId != "" && (exists r :: r in rooms && r.roomId == roomId) ==> id == roomId
  {
    var current := First(rooms, (r: HeartbeatRoom) => roomId != "" && r.roomId == roomId);
    var marked := First(rooms, MarkedPrimary);
    var active := First(rooms, HasPlayers);
    if current.Some? then current.value.roomId
    else if marked.Some? then marked.value.roomId
    else if active.Some? then active.value.roomId
    else rooms[0].roomId
  }

  /** The id is that of the first room in the list with the property. */
  ghost predicate FirstIs(rooms: seq<HeartbeatRoom>, p: HeartbeatRoom -> bool, id: string) {
    exists i :: 0 <= i < |rooms| && p(rooms[i]) && rooms[i].roomId == id && forall j | 0 <= j < i :: !p(rooms[j])
  }

  lemma {:induction false} FirstIsFirst(rooms: seq<HeartbeatRoom>, p: HeartbeatRoom -> bool)
    ensures var found := First(rooms, p); found.Some? ==> FirstIs(rooms, p, found.value.roomId)
  {
    if rooms != [] {
      if p(rooms[0]) {
        assert FirstIs(rooms, p, rooms[0].roomId);
      } else {
        FirstIsFirst(rooms[1..], p);
        var rest := First(rooms[1..], p);
        if rest.Some? {
          var i :| 0 <= i < |rooms[1..]| && p(rooms[1..][i]) && rooms[1..][i].roomId == rest.value.roomId
            && forall j | 0 <= j < i :: !p(rooms[1..][j]);
          assert forall j | 0 < j < i + 1 :: rooms[j] == rooms[1..][j - 1];
          assert p(rooms[i + 1]);
        }
      }
    }
  }

  /**
   The primary room of a list: the current room when it is listed, else the first one marked primary, else the
   first one with players, else the first.
   */
  lemma PrimaryRoomInOrder(roomId: string, rooms: seq<HeartbeatRoom>)
    requires rooms != []
    ensures var id := SelectPrimary(roomId, rooms);
            if roomId != "" && exists r :: r in rooms && r.roomId == roomId then id == roomId
            else if exists r :: r in rooms && MarkedPrimary(r) then FirstIs(rooms, MarkedPrimary, id)
            else if exists r :: r in rooms && HasPlayers(r) then FirstIs(rooms, HasPlayers, id)
            else id == rooms[0].roomId
  {
    FirstIsFirst(rooms, MarkedPrimary);
    FirstIsFirst(rooms, HasPlayers);
    hide FirstIs;
  }

  function MarkPrimary(rooms: seq<HeartbeatRoom>, primary: string): (r: seq<HeartbeatRoom>)
    ensures |r| == |rooms|
    ensures forall i | 0 <= i < |rooms| :: r[i] == rooms[i].(isPrimary := rooms[i].roomId == primary)
  {
    seq(|rooms|, i requires 0 <= i < |rooms| => rooms[i].(isPrimary := rooms[i].roomId == primary))
  }

  datatype PrimaryRooms = PrimaryRooms(primaryRoomId: string, rooms: seq<HeartbeatRoom>)

  function NormalizePrimaryRoomList(roomId: string, rooms: seq<HeartbeatRoom>): PrimaryRooms {
    var normalized := NormalizeHeartbeatRoomList(rooms);
    if normalized == [] then PrimaryRooms(roomId, []) else
      var primary := SelectPrimary(roomId, normalized);
      PrimaryRooms(primary, MarkPrimary(normalized, primary))
  }

  // ---- facts about sums ----

  lemma {:induction false} SumPut(keys: seq<string>, vals: map<string, int>, k: string, v: int)
    requires Distinct(keys) && forall x | x in keys :: x in vals
    ensures SumOver(keys, vals[k := v]) == SumOver(keys, vals) + (if k in keys then v - vals[k] else 0)
  {
    if keys != [] {
      var init, last := keys[..|keys| - 1], keys[|keys| - 1];
      assert keys == init + [last];
      SumPut(init, vals, k, v);
    }
  }

  /** Reserving `v` for room `k` replaces what the room held before. */
  lemma RoomTotalPut(rooms: Rooms, k: string, v: int)
    ensures RoomTotal(Put(rooms, k, v)) == RoomTotal(rooms) + v - (if k in rooms.vals then rooms.vals[k] else 0)
  {
    SumPut(rooms.keys, rooms.vals, k, v);
    if k !in rooms.vals {
      assert (rooms.keys + [k])[..|rooms.keys|] == rooms.keys;
    }
  }

  lemma {:induction false} SumBounds(keys: seq<string>, vals: map<string, int>, k: string)
    requires forall x | x in keys :: x in vals && vals[x] >= 0
    ensures SumOver(keys, vals) >= 0 && (k in keys ==> vals[k] <= SumOver(keys, vals))
  {
    if keys != [] {
      var init, last := keys[..|keys| - 1], keys[|keys| - 1];
      assert keys == init + [last];
      SumBounds(init, vals, k);
    }
  }

  lemma {:induction false} SumClamp(keys: seq<string>, vals: map<string, int>, clamped: map<string, int>, cap: int)
    requires forall x | x in keys :: x in vals && x in clamped && clamped[x] == Min(vals[x], cap)
    requires forall x | x in keys :: vals[x] >= 0
    requires cap >= 0
    ensures if forall x | x in keys :: vals[x] <= cap
            then SumOver(keys, clamped) == SumOver(keys, vals)
            else SumOver(keys, clamped) >= cap && SumOver(keys, vals) >= cap
  {
    if keys != [] {
      var init, last := keys[..|keys| - 1], keys[|keys| - 1];
      assert keys == init + [last];
      SumClamp(init, vals, clamped, cap);
      SumBounds(init, vals, last);
      SumBounds(init, clamped, last);
    }
  }

  /** Rooms as the registry stores them. */
  ghost predicate RoomSizesOk(rooms: Rooms) {
    forall k | k in rooms.vals :: k != "" && 1 <= rooms.vals[k] <= MAX_ROOM
  }

  /**
   Clamping each room to the server before summing, as the cleanup does, and clamping only to
   1024, as every other path does, leave the same number of free slots.
   */
  lemma FreeSlotsAgree(rooms: Rooms, maxPlayers: int)
    requires RoomSizesOk(rooms) && maxPlayers >= 1
    ensures Max(0, maxPlayers - RoomTotal(ClampRooms(rooms, 0, maxPlayers))) == Max(0, maxPlayers - RoomTotal(rooms))
    ensures ClampRooms(rooms, 1, MAX_ROOM) == rooms && ClampRooms(rooms, 0, MAX_ROOM) == rooms
  {
    SumClamp(rooms.keys, rooms.vals, ClampRooms(rooms, 0, maxPlayers).vals, maxPlayers);
  }
}
