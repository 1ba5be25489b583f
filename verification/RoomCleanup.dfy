/** The cleanup of empty rooms frees exactly the right reservations. */
module RoomCleanup {
  import opened Common
  import opened JsMaps
  import opened ServerRecord
  import opened ServerRegistry

  /** The players the last heartbeat entry of a room reports; none when no entry names the room. */
  function ReportedPlayers(rooms: seq<HeartbeatRoom>, roomId: string): int {
    if rooms == [] then 0
    else if rooms[|rooms| - 1].roomId == roomId then rooms[|rooms| - 1].currentPlayers
    else ReportedPlayers(rooms[..|rooms| - 1], roomId)
  }

  ghost predicate KeyedById(m: JsMap<string, HeartbeatRoom>) {
    forall k | k in m.vals :: m.vals[k].roomId == k && k != "" && 0 <= m.vals[k].currentPlayers <= 100000
  }

  lemma {:induction false} ByIdReports(rooms: seq<HeartbeatRoom>, roomId: string)
    requires forall r | r in rooms :: r.roomId != "" && 0 <= r.currentPlayers <= 100000
    ensures KeyedById(ById(rooms))
    ensures if roomId in ById(rooms).vals then ById(rooms).vals[roomId].currentPlayers == ReportedPlayers(rooms, roomId)
            else ReportedPlayers(rooms, roomId) == 0
  {
    if rooms != [] {
      var init, last := rooms[..|rooms| - 1], rooms[|rooms| - 1];
      assert rooms == init + [last];
      ByIdReports(init, roomId);
    }
  }

  lemma {:induction false} AddAssignedAdds(known: JsMap<string, HeartbeatRoom>, keys: seq<string>, primary: string)
    requires KeyedById(known) && "" !in keys
    ensures var all := AddAssigned(known, keys, primary);
            && KeyedById(all)
            && (forall k | k in keys :: k in all.vals)
            && (forall k | k in known.vals :: k in all.vals && all.vals[k] == known.vals[k])
            && (forall k | k in all.vals && k !in known.vals :: k in keys && all.vals[k].currentPlayers == 0)
  {
    if keys != [] {
      var init, last := keys[..|keys| - 1], keys[|keys| - 1];
      assert keys == init + [last];
      AddAssignedAdds(known, init, primary);
    }
  }

  /** What the cleanup knows about the rooms of a server. */
  lemma KnownRoomsReport(s: Server, roomId: string)
    requires RoomSizesOk(s.assignedRooms)
    ensures KeyedById(KnownRooms(s))
    ensures forall k | k in s.assignedRooms.vals :: k in KnownRooms(s).vals
    ensures roomId in KnownRooms(s).vals ==>
      KnownRooms(s).vals[roomId].currentPlayers == ReportedPlayers(HeartbeatRoomsOf(s), roomId)
  {
    ByIdReports(HeartbeatRoomsOf(s), roomId);
    AddAssignedAdds(ById(HeartbeatRoomsOf(s)), s.assignedRooms.keys, s.roomId);
  }

  /** A reservation survives the cleanup exactly when its room is active or reports players. */
  lemma CleanupKeepsExactly(s: Server, active: set<string>, now: int, roomId: string)
    requires RoomSizesOk(s.assignedRooms) && roomId in s.assignedRooms.vals
    ensures roomId in CleanedServer(s, active, now).assignedRooms.vals
       <==> roomId in active || ReportedPlayers(HeartbeatRoomsOf(s), roomId) > 0
  {
    hide KnownRooms, HeartbeatRoomsOf, ReportedPlayers, NormalizePrimaryRoomList, RoomTotal;
    KnownRoomsReport(s, roomId);
    assert roomId in EmptyRooms(s, active) <==> roomId !in active && ReportedPlayers(HeartbeatRoomsOf(s), roomId) <= 0;
    if EmptyRooms(s, active) != {} {
      assert CleanedServer(s, active, now).assignedRooms
          == Restrict(s.assignedRooms, s.assignedRooms.vals.Keys - EmptyRooms(s, active));
    }
  }

  /** No reservation appears, and those that survive keep their size. */
  lemma CleanupOnlyRemoves(s: Server, active: set<string>, now: int)
    ensures var r := CleanedServer(s, active, now);
            && r.maxPlayers == s.maxPlayers && r.status == s.status && r.currentPlayers == s.currentPlayers
            && forall k | k in r.assignedRooms.vals ::
                 k in s.assignedRooms.vals && r.assignedRooms.vals[k] == s.assignedRooms.vals[k]
  {
    hide KnownRooms, NormalizePrimaryRoomList, RoomTotal;
  }

  lemma {:induction false} NormalizedAlready(rooms: seq<HeartbeatRoom>)
    requires forall r | r in rooms :: r.roomId != "" && 0 <= r.currentPlayers <= 100000
    ensures NormalizeHeartbeatRoomList(rooms) == rooms
  {
    if rooms != [] {
      var init, last := rooms[..|rooms| - 1], rooms[|rooms| - 1];
      assert rooms == init + [last];
      NormalizedAlready(init);
      assert last.(currentPlayers := last.currentPlayers) == last;
    }
  }

  /** Exactly one room of the list is primary: room `id`. */
  ghost predicate OnePrimary(rooms: seq<HeartbeatRoom>, id: string) {
    exists i :: 0 <= i < |rooms| && rooms[i].roomId == id
      && forall j | 0 <= j < |rooms| :: rooms[j].isPrimary <==> j == i
  }

  lemma MarkOne(rooms: seq<HeartbeatRoom>, ids: seq<string>, primary: string)
    requires |ids| == |rooms| && Distinct(ids) && primary in ids
    requires forall i | 0 <= i < |rooms| :: rooms[i].roomId == ids[i]
    ensures OnePrimary(MarkPrimary(rooms, primary), primary)
  {
    var marked := MarkPrimary(rooms, primary);
    var i :| 0 <= i < |ids| && ids[i] == primary;
    forall j | 0 <= j < |rooms| ensures marked[j].isPrimary <==> j == i {
      assert j < i || j == i || i < j;
    }
    assert marked[i].roomId == primary;
  }

  lemma PrimaryOfDistinct(roomId: string, known: JsMap<string, HeartbeatRoom>)
    requires KeyedById(known) && known.keys != []
    ensures var p := NormalizePrimaryRoomList(roomId, RoomValues(known));
            && |p.rooms| == |known.keys| && OnePrimary(p.rooms, p.primaryRoomId)
            && (forall i | 0 <= i < |p.rooms| :: p.rooms[i].roomId == known.keys[i])
            && (roomId in known.keys ==> p.primaryRoomId == roomId)
  {
    hide OnePrimary, SelectPrimary;
    var rooms := RoomValues(known);
    assert forall i | 0 <= i < |rooms| :: rooms[i] == known.vals[known.keys[i]] && rooms[i].roomId == known.keys[i];
    NormalizedAlready(rooms);
    PrimaryIsListed(roomId, rooms, known.keys);
    MarkOne(rooms, known.keys, SelectPrimary(roomId, rooms));
  }

  lemma PrimaryIsListed(roomId: string, rooms: seq<HeartbeatRoom>, ids: seq<string>)
    requires rooms != [] && |ids| == |rooms| && forall i | 0 <= i < |rooms| :: rooms[i].roomId == ids[i] && ids[i] != ""
    ensures SelectPrimary(roomId, rooms) in ids
    ensures roomId in ids ==> SelectPrimary(roomId, rooms) == roomId
  {
    var primary := SelectPrimary(roomId, rooms);
    hide SelectPrimary;
    var r :| r in rooms && r.roomId == primary;
    if roomId in ids {
      var k :| 0 <= k < |ids| && ids[k] == roomId;
      assert rooms[k] in rooms;
    }
  }

  /**
   A server that loses a room but still lists one ends with exactly one primary room, equal to its
   roomId, which stays what it was when that room is still listed; both room lists agree.
   */
  lemma CleanupElectsOnePrimary(s: Server, active: set<string>, now: int)
    requires RoomSizesOk(s.assignedRooms) && EmptyRooms(s, active) != {}
    ensures var r := CleanedServer(s, active, now);
            && r.rooms.Some? && r.metadataRooms == r.rooms
            && (r.rooms.value != [] ==> OnePrimary(r.rooms.value, r.roomId))
            && (forall k :: (exists x :: x in r.rooms.value && x.roomId == k) <==>
                 k in KnownRooms(s).vals && k !in EmptyRooms(s, active))
            && (s.roomId in KnownRooms(s).vals && s.roomId !in EmptyRooms(s, active) ==> r.roomId == s.roomId)
  {
    hide KnownRooms, RoomTotal, RoomValues, EmptyRooms, NormalizePrimaryRoomList;
    KnownRoomsReport(s, "");
    var known := KnownRooms(s);
    var kept := Restrict(known, known.vals.Keys - EmptyRooms(s, active));
    var p := NormalizePrimaryRoomList(s.roomId, RoomValues(kept));
    assert CleanedServer(s, active, now) == WithoutRooms(s, EmptyRooms(s, active), now);
    if kept.keys != [] {
      PrimaryOfDistinct(s.roomId, kept);
      hide OnePrimary;
      forall k | k in known.vals && k !in EmptyRooms(s, active) ensures exists x :: x in p.rooms && x.roomId == k {
        assert k in kept.vals && k in kept.keys;
        var i :| 0 <= i < |kept.keys| && kept.keys[i] == k;
        assert p.rooms[i] in p.rooms;
      }
      forall x | x in p.rooms ensures x.roomId in known.vals && x.roomId !in EmptyRooms(s, active) {
        var i :| 0 <= i < |p.rooms| && p.rooms[i] == x;
        assert kept.keys[i] in kept.vals;
      }
      assert s.roomId in kept.vals ==> s.roomId in kept.keys;
    } else {
      NoRoomsLeft(s.roomId, kept);
      assert forall k | k in known.vals && k !in EmptyRooms(s, active) :: k in kept.vals;
    }
  }

  lemma NoRoomsLeft(roomId: string, known: JsMap<string, HeartbeatRoom>)
    requires known.keys == []
    ensures NormalizePrimaryRoomList(roomId, RoomValues(known)) == PrimaryRooms(roomId, [])
  {
  }

  /** The rooms that a server lists: those of its last heartbeat, or else of its registration, each with its id. */
  lemma ListedRoomsExactly(s: Server)
    ensures HeartbeatRoomsOf(s) ==
              match s.rooms
              case Some(rooms) => NormalizeHeartbeatRoomList(rooms)
              case None => if s.metadataRooms.Some? then NormalizeHeartbeatRoomList(s.metadataRooms.value) else []
  {
  }

  /** The last entry of the room in a list, if there is one. */
  function LastEntry(rooms: seq<HeartbeatRoom>, roomId: string): Option<HeartbeatRoom> {
    if rooms == [] then None
    else if rooms[|rooms| - 1].roomId == roomId then Some(rooms[|rooms| - 1])
    else LastEntry(rooms[..|rooms| - 1], roomId)
  }

  lemma {:induction false} ByIdHasLast(rooms: seq<HeartbeatRoom>, roomId: string)
    ensures var entry := LastEntry(rooms, roomId);
            if roomId in ById(rooms).vals then entry == Some(ById(rooms).vals[roomId]) else entry.None?
  {
    if rooms != [] {
      ByIdHasLast(rooms[..|rooms| - 1], roomId);
    }
  }

  lemma {:induction false} AddedExactly(
    known: JsMap<string, HeartbeatRoom>, keys: seq<string>, primary: string, k: string)
    ensures var all := AddAssigned(known, keys, primary);
            && (k in all.vals <==> k in known.vals || k in keys)
            && (k in known.vals ==> all.vals[k] == known.vals[k])
            && (k in all.vals && k !in known.vals ==> all.vals[k] == HeartbeatRoom(k, 0, k == primary))
  {
    if keys != [] {
      var init, last := keys[..|keys| - 1], keys[|keys| - 1];
      assert keys == init + [last];
      AddedExactly(known, init, primary, k);
    }
  }

  /**
   What the cleanup knows of a room: its last entry in the list of the server, or, for a reserved room that is not
   listed, an empty room that is primary when it is the room of the server.
   */
  lemma KnownExactly(s: Server, k: string)
    ensures var entry, known := LastEntry(HeartbeatRoomsOf(s), k), KnownRooms(s);
            && (k in known.vals <==> entry.Some? || k in s.assignedRooms.vals)
            && (k in known.vals ==>
                 known.vals[k] == if entry.Some? then entry.value else HeartbeatRoom(k, 0, k == s.roomId))
  {
    hide HeartbeatRoomsOf;
    ByIdHasLast(HeartbeatRoomsOf(s), k);
    AddedExactly(ById(HeartbeatRoomsOf(s)), s.assignedRooms.keys, s.roomId, k);
  }

  /**
   A cleanup that finds no empty room leaves the record as it is. Else it dates the record, lists the rooms that
   stay, as they were known, and elects the primary one among them in the order of
   `ServerRecord.PrimaryRoomInOrder`.
   */
  lemma CleanupListsExactly(s: Server, active: set<string>, now: int)
    requires RoomSizesOk(s.assignedRooms)
    ensures var r, known := CleanedServer(s, active, now), KnownRooms(s);
            if forall k | k in known.vals :: k in active || known.vals[k].currentPlayers > 0 then r == s
            else
              && r.updatedAt == now && r.region == s.region && r.zone == s.zone && r.rooms.Some?
              && r.metadataRooms == r.rooms
              && var left := RoomValues(Restrict(known, known.vals.Keys - EmptyRooms(s, active)));
                 && |r.rooms.value| == |left|
                 && r.roomId == (if left == [] then s.roomId else SelectPrimary(s.roomId, left))
                 && forall i | 0 <= i < |left| ::
                      r.rooms.value[i] == left[i].(isPrimary := left[i].roomId == r.roomId)
  {
    hide KnownRooms, RoomTotal, SelectPrimary;
    KnownRoomsReport(s, "");
    var known := KnownRooms(s);
    var kept := Restrict(known, known.vals.Keys - EmptyRooms(s, active));
    var left := RoomValues(kept);
    forall x | x in left ensures x.roomId != "" && 0 <= x.currentPlayers <= 100000 {
      var i :| 0 <= i < |left| && left[i] == x;
      assert kept.keys[i] in kept.vals;
    }
    NormalizedAlready(left);
    NothingEmpty(s, active);
    hide EmptyRooms, NormalizeHeartbeatRoomList, RoomValues, Restrict;
  }

  lemma NothingEmpty(s: Server, active: set<string>)
    ensures var known := KnownRooms(s);
            EmptyRooms(s, active) == {} <==>
              forall k | k in known.vals :: k in active || known.vals[k].currentPlayers > 0
  {
    hide KnownRooms;
    var known := KnownRooms(s);
    if EmptyRooms(s, active) == {} {
      forall k | k in known.vals ensures k in active || known.vals[k].currentPlayers > 0 {
        assert k !in EmptyRooms(s, active);
      }
    }
  }
}
