/** Which connections are in which room, indexed both ways, with permanent system rooms. */
module RoomManager {
  import opened Common

  /** A connection with its own id and the authenticated user, if any. */
  datatype Connection = Connection(id: string, userId: string)

  type Members = map<string, Connection>

  /** Rooms with their members by connection id, the rooms of each connection, the permanent rooms. */
  datatype State = State(rooms: map<string, Members>, roomsOf: map<string, set<string>>, permanent: set<string>)

  function Initial(): State {
    State(map[], map[], {})
  }

  function Joined(st: State, room: string, conn: Connection): State {
    if room == "" || conn.id == "" then st else
      var members := if room in st.rooms then st.rooms[room] else map[];
      var known := if conn.id in st.roomsOf then st.roomsOf[conn.id] else {};
      State(st.rooms[room := members[conn.id := conn]], st.roomsOf[conn.id := known + {room}], st.permanent)
  }

  /** The rooms of each connection once those in `gone` have forgotten the room. */
  function Forgotten(roomsOf: map<string, set<string>>, room: string, gone: set<string>): map<string, set<string>> {
    map c | c in roomsOf && (c in gone ==> roomsOf[c] - {room} != {}) ::
      if c in gone then roomsOf[c] - {room} else roomsOf[c]
  }

  /** Takes the connections `gone` out of one room; the room goes too when that empties it and it is not permanent. */
  function Expelled(st: State, room: string, gone: set<string>): State {
    if room !in st.rooms then st else
      var left := st.rooms[room] - gone;
      State(
        if left == map[] && room !in st.permanent then st.rooms - {room} else st.rooms[room := left],
        Forgotten(st.roomsOf, room, gone),
        st.permanent)
  }

  function Left(st: State, room: string, id: string): State {
    if room == "" || id == "" then st else Expelled(st, room, {id})
  }

  function LeftAll(st: State, id: string): State {
    State(
      map room | room in st.rooms && (st.rooms[room] - {id} == map[] ==> room in st.permanent) :: st.rooms[room] - {id},
      st.roomsOf - {id},
      st.permanent)
  }

  function Permanent(st: State, room: string): State {
    if room == "" then st else
      State(if room in st.rooms then st.rooms else st.rooms[room := map[]], st.roomsOf, st.permanent + {room})
  }

  function Removed(st: State, room: string, force: bool): State {
    if room == "" || (room in st.permanent && !force) then st else
      State(
        st.rooms - {room},
        if room in st.rooms then Forgotten(st.roomsOf, room, st.rooms[room].Keys) else st.roomsOf,
        if force then st.permanent - {room} else st.permanent)
  }

  function ClosedIn(st: State, room: string, isOpen: Connection -> bool): set<string> {
    if room !in st.rooms then {} else set c | c in st.rooms[room] && !isOpen(st.rooms[room][c])
  }

  function UserConnections(st: State, room: string, userId: string, exceptId: string): set<string> {
    if room == "" || userId == "" || room !in st.rooms then {} else
      set c | c in st.rooms[room] && !Excepted(c, exceptId) && st.rooms[room][c].userId == userId
  }

  predicate Excepted(c: string, exceptId: string) {
    exceptId != "" && c == exceptId
  }

  function Reached(
    members: Members, exceptId: string, isOpen: Connection -> bool, sends: Connection -> bool): set<string> {
    set c | c in members && !Excepted(c, exceptId) && isOpen(members[c]) && sends(members[c])
  }

  function UserIds(members: Members): set<string> {
    set c | c in members && members[c].userId != "" :: members[c].userId
  }

  function Anonymous(members: Members): set<string> {
    set c | c in members && members[c].userId == ""
  }

  /** The members in the order in which the map lists them. */
  ghost predicate Enumerates(order: seq<string>, members: Members) {
    && (forall i, j | 0 <= i < j < |order| :: order[i] != order[j])
    && (forall c | c in order :: c in members)
    && (forall c | c in members :: c in order)
  }

  predicate Hit(members: Members, c: string, userId: string, exceptId: string, isOpen: Connection -> bool) {
    c in members && !Excepted(c, exceptId) && isOpen(members[c]) && members[c].userId == userId
  }

  /** The place of the first open connection of the user, or the number of members when there is none. */
  function FirstHit(
    members: Members, order: seq<string>, userId: string, exceptId: string, isOpen: Connection -> bool): (k: nat)
    ensures k <= |order|
  {
    if order == [] || Hit(members, order[0], userId, exceptId, isOpen) then 0
    else 1 + FirstHit(members, order[1..], userId, exceptId, isOpen)
  }

  function ClosedAmong(members: Members, ids: seq<string>, exceptId: string, isOpen: Connection -> bool): set<string> {
    set c | c in ids && c in members && !Excepted(c, exceptId) && !isOpen(members[c])
  }

  function ClosedExcept(members: Members, exceptId: string, isOpen: Connection -> bool): set<string> {
    set c | c in members && !Excepted(c, exceptId) && !isOpen(members[c])
  }

  function MembersOf(st: State, room: string): Members {
    if room in st.rooms then st.rooms[room] else map[]
  }

  // ---- the invariant ----

  predicate InRoom(st: State, room: string, c: string) {
    room in st.rooms && c in st.rooms[room]
  }

  predicate Knows(st: State, c: string, room: string) {
    c in st.roomsOf && room in st.roomsOf[c]
  }

  /** The two indexes are converse relations; only permanent rooms are empty and none of them is lost. */
  ghost predicate Good(st: State) {
    && (forall room, c :: InRoom(st, room, c) <==> Knows(st, c, room))
    && (forall c | c in st.roomsOf :: st.roomsOf[c] != {})
    && (forall room, c | InRoom(st, room, c) :: st.rooms[room][c].id == c && c != "")
    && (forall room | room in st.rooms :: room != "" && (st.rooms[room] == map[] ==> room in st.permanent))
    && st.permanent <= st.rooms.Keys
  }

  /** In a good state the index by connection is determined by the rooms. */
  lemma SameRoomsSameIndex(s: State, t: State)
    requires Good(s) && Good(t) && s.rooms == t.rooms
    ensures s.roomsOf == t.roomsOf
  {
    forall c, room ensures Knows(s, c, room) <==> Knows(t, c, room) {
      assert InRoom(s, room, c) <==> InRoom(t, room, c);
    }
    forall c ensures c in s.roomsOf <==> c in t.roomsOf {
      if c in s.roomsOf {
        var room :| room in s.roomsOf[c];
        assert Knows(t, c, room);
      }
      if c in t.roomsOf {
        var room :| room in t.roomsOf[c];
        assert Knows(s, c, room);
      }
    }
    forall c | c in s.roomsOf ensures s.roomsOf[c] == t.roomsOf[c] {
      assert forall room :: room in s.roomsOf[c] <==> Knows(s, c, room);
      assert forall room :: room in t.roomsOf[c] <==> Knows(t, c, room);
    }
  }

  /** Taking connections out of a room removes exactly those pairs, from both indexes. */
  lemma ExpelledPair(st: State, room: string, gone: set<string>, r: string, c: string)
    requires Good(st)
    ensures var next := Expelled(st, room, gone);
            && (InRoom(next, r, c) <==> InRoom(st, r, c) && !(r == room && c in gone))
            && (Knows(next, c, r) <==> Knows(st, c, r) && !(r == room && c in gone))
  {
    assert InRoom(st, r, c) <==> Knows(st, c, r);
    if room in st.rooms && r == room && InRoom(st, r, c) && c !in gone {
      assert c in st.rooms[room] - gone;
    }
  }

  lemma ExpelledGood(st: State, room: string, gone: set<string>)
    requires Good(st)
    ensures Good(Expelled(st, room, gone))
  {
    var next := Expelled(st, room, gone);
    if room in st.rooms {
      forall r, c
        ensures InRoom(next, r, c) <==> Knows(next, c, r)
        ensures InRoom(next, r, c) ==> next.rooms[r][c].id == c && c != ""
      {
        ExpelledPair(st, room, gone, r, c);
        assert InRoom(st, r, c) <==> Knows(st, c, r);
      }
      assert forall c | c in next.roomsOf :: c in st.roomsOf && next.roomsOf[c] != {};
      assert forall r | r in next.rooms :: r in st.rooms && (next.rooms[r] == map[] ==> r in next.permanent);
    }
  }

  lemma JoinedGood(st: State, room: string, conn: Connection)
    requires Good(st)
    ensures Good(Joined(st, room, conn))
  {
    if room != "" && conn.id != "" {
      var next := Joined(st, room, conn);
      forall r, c
        ensures InRoom(next, r, c) <==> Knows(next, c, r)
        ensures InRoom(next, r, c) ==> next.rooms[r][c].id == c && c != ""
      {
        assert InRoom(st, r, c) <==> Knows(st, c, r);
      }
      assert forall c | c in next.roomsOf :: c == conn.id || c in st.roomsOf;
      assert room in next.roomsOf[conn.id];
      assert conn.id in next.rooms[room];
      assert forall r | r in next.rooms :: r == room || r in st.rooms;
    }
  }

  lemma PermanentGood(st: State, room: string)
    requires Good(st)
    ensures Good(Permanent(st, room))
  {
    var next := Permanent(st, room);
    forall r, c
      ensures InRoom(next, r, c) <==> Knows(next, c, r)
      ensures InRoom(next, r, c) ==> next.rooms[r][c].id == c && c != ""
    {
      assert InRoom(st, r, c) <==> Knows(st, c, r);
    }
  }

  lemma LeftAllGood(st: State, id: string)
    requires Good(st)
    ensures Good(LeftAll(st, id))
  {
    var next := LeftAll(st, id);
    forall r, c
      ensures InRoom(next, r, c) <==> Knows(next, c, r)
      ensures InRoom(next, r, c) ==> next.rooms[r][c].id == c && c != ""
    {
      assert InRoom(st, r, c) <==> Knows(st, c, r);
      if InRoom(st, r, c) && c != id {
        assert c in st.rooms[r] - {id};
      }
    }
    forall r | r in st.permanent ensures r in next.rooms {
      assert r in st.rooms;
    }
  }

  lemma RemovedGood(st: State, room: string, force: bool)
    requires Good(st)
    ensures Good(Removed(st, room, force))
  {
    var next := Removed(st, room, force);
    forall r, c
      ensures InRoom(next, r, c) <==> Knows(next, c, r)
      ensures InRoom(next, r, c) ==> next.rooms[r][c].id == c && c != ""
    {
      assert InRoom(st, r, c) <==> Knows(st, c, r);
    }
    assert forall c | c in next.roomsOf :: c in st.roomsOf && next.roomsOf[c] != {};
  }

  /** Expelling in two steps is expelling at once. */
  lemma ExpelTwice(st: State, room: string, a: set<string>, b: set<string>)
    requires Good(st)
    ensures Expelled(Expelled(st, room, a), room, b) == Expelled(st, room, a + b)
  {
    ExpelledGood(st, room, a);
    ExpelledGood(Expelled(st, room, a), room, b);
    ExpelledGood(st, room, a + b);
    ExpelTwiceRooms(st, room, a, b);
    hide Expelled, Good;
    SameRoomsSameIndex(Expelled(Expelled(st, room, a), room, b), Expelled(st, room, a + b));
  }

  lemma ExpelTwiceRooms(st: State, room: string, a: set<string>, b: set<string>)
    ensures var twice := Expelled(Expelled(st, room, a), room, b);
            twice.rooms == Expelled(st, room, a + b).rooms && twice.permanent == Expelled(st, room, a + b).permanent
  {
    hide Forgotten;
    if room in st.rooms {
      var members := st.rooms[room];
      assert members - a - b == members - (a + b);
      if members - a == map[] {
        assert members - (a + b) == map[];
      }
    }
  }

  lemma ExpelNone(st: State, room: string)
    requires Good(st)
    ensures Expelled(st, room, {}) == st
  {
    if room in st.rooms {
      assert st.rooms[room] - {} == st.rooms[room];
      assert st.rooms[room := st.rooms[room]] == st.rooms;
      assert Forgotten(st.roomsOf, room, {}) == st.roomsOf;
    }
  }

  lemma MemberUntilExpelled(st: State, room: string, gone: set<string>, c: string)
    requires Good(st) && InRoom(st, room, c) && c !in gone
    ensures InRoom(Expelled(st, room, gone), room, c) && room != "" && c != "" && st.rooms[room][c].id == c
  {
    ExpelledPair(st, room, gone, room, c);
  }

  lemma MembersAfter(st: State, room: string, gone: set<string>)
    ensures MembersOf(Expelled(st, room, gone), room) == MembersOf(st, room) - gone
  {
  }

  // ---- the object ----

  class RoomManager {
    var rooms: map<string, Members>
    var roomsByConnectionId: map<string, set<string>>
    var permanentRoomDefinitions: set<string>

    ghost function Now(): State
      reads this
    {
      State(rooms, roomsByConnectionId, permanentRoomDefinitions)
    }

    constructor ()
      ensures Now() == Initial()
    {
      rooms, roomsByConnectionId, permanentRoomDefinitions := map[], map[], {};
    }

    method RegisterPermanentRoom(room: string) returns (registered: bool)
      modifies this
      ensures Now() == Permanent(old(Now()), room) && (registered <==> room != "")
    {
      if room == "" { return false; }
      if room !in rooms {
        rooms := rooms[room := map[]];
      }
      permanentRoomDefinitions := permanentRoomDefinitions + {room};
      return true;
    }

    method Join(room: string, conn: Connection) returns (joined: bool)
      modifies this
      ensures Now() == Joined(old(Now()), room, conn) && (joined <==> room != "" && conn.id != "")
    {
      if room == "" || conn.id == "" { return false; }
      if room !in rooms {
        rooms := rooms[room := map[]];
      }
      rooms := rooms[room := rooms[room][conn.id := conn]];
      if conn.id !in roomsByConnectionId {
        roomsByConnectionId := roomsByConnectionId[conn.id := {}];
      }
      roomsByConnectionId := roomsByConnectionId[conn.id := roomsByConnectionId[conn.id] + {room}];
      return true;
    }

    /** Takes one connection out of the index by connection, as both `Leave` and `RemoveRoom` do. */
    method Forget(room: string, id: string)
      modifies this`roomsByConnectionId
      ensures roomsByConnectionId == Forgotten(old(roomsByConnectionId), room, {id})
    {
      if id in roomsByConnectionId {
        roomsByConnectionId := roomsByConnectionId[id := roomsByConnectionId[id] - {room}];
        if roomsByConnectionId[id] == {} {
          roomsByConnectionId := roomsByConnectionId - {id};
        }
      }
    }

    method Leave(room: string, id: string) returns (removed: bool)
      modifies this
      ensures Now() == Left(old(Now()), room, id)
      ensures removed <==> room != "" && id != "" && InRoom(old(Now()), room, id)
    {
      hide Forgotten;
      if room == "" || id == "" || room !in rooms { return false; }
      removed := id in rooms[room];
      rooms := rooms[room := rooms[room] - {id}];
      if rooms[room] == map[] && room !in permanentRoomDefinitions {
        rooms := rooms - {room};
      }
      assert rooms == Left(old(Now()), room, id).rooms;
      Forget(room, id);
    }

    method LeaveAll(id: string) returns (removed: nat)
      requires Good(Now())
      modifies this
      ensures Now() == if id == "" then old(Now()) else LeftAll(old(Now()), id)
      ensures removed == if id in old(Now()).roomsOf then |old(Now()).roomsOf[id]| else 0
    {
      hide LeftAll, Left;
      ghost var before := Now();
      if id == "" {
        NamelessNowhere(before);
        return 0;
      }
      var todo := if id in roomsByConnectionId then roomsByConnectionId[id] else {};
      removed := 0;
      while todo != {}
        invariant Good(Now()) && permanentRoomDefinitions == before.permanent
        invariant todo == if id in roomsByConnectionId then roomsByConnectionId[id] else {}
        invariant removed + |todo| == if id in before.roomsOf then |before.roomsOf[id]| else 0
        invariant LeftAll(Now(), id) == LeftAll(before, id)
        decreases |todo|
      {
        var room :| room in todo;
        LeaveOneOfAll(Now(), room, id);
        var left := Leave(room, id);
        assert left;
        removed := removed + 1;
        todo := todo - {room};
      }
      NowhereLeft(Now(), id);
    }

    method RemoveRoom(room: string, force: bool) returns (removed: bool)
      requires Good(Now())
      modifies this
      ensures Now() == Removed(old(Now()), room, force)
      ensures removed <==> room != "" && (room in old(Now()).permanent ==> force) && room in old(Now()).rooms
    {
      hide Forgotten;
      ghost var before := Now();
      if room == "" || (room in permanentRoomDefinitions && !force) { return false; }
      if room in rooms {
        var members := rooms[room];
        var todo := members.Keys;
        assert members.Keys - todo == {};
        ForgetNone(before.roomsOf, room);
        while todo != {}
          invariant todo <= members.Keys
          invariant rooms == before.rooms && permanentRoomDefinitions == before.permanent
          invariant roomsByConnectionId == Forgotten(before.roomsOf, room, members.Keys - todo)
        {
          var c :| c in todo;
          ForgottenTwice(before.roomsOf, room, members.Keys - todo, c);
          assert members.Keys - (todo - {c}) == (members.Keys - todo) + {c};
          Forget(room, c);
          todo := todo - {c};
        }
        assert members.Keys - todo == members.Keys;
      }
      removed := room in rooms;
      rooms := rooms - {room};
      if force {
        removed := removed || room in permanentRoomDefinitions;
        permanentRoomDefinitions := permanentRoomDefinitions - {room};
      }
    }

    /**
     The open connections of a room; the closed ones are taken out on the way, so what is returned is what is left.
     */
    method GetRoomConnections(room: string, isOpen: Connection -> bool) returns (result: Members)
      requires Good(Now())
      modifies this
      ensures Now() == Expelled(old(Now()), room, ClosedIn(old(Now()), room, isOpen))
      ensures result == MembersOf(Now(), room)
      ensures forall c | c in result :: isOpen(result[c])
    {
      hide Expelled, Good;
      ghost var before := Now();
      ghost var closed := ClosedIn(before, room, isOpen);
      result := map[];
      ExpelNone(before, room);
      MembersAfter(before, room, closed);
      if room !in rooms { return; }
      var members := rooms[room];
      var todo := members.Keys;
      assert closed - todo == {};
      while todo != {}
        invariant todo <= members.Keys
        invariant Now() == Expelled(before, room, closed - todo)
        invariant result == members - closed - todo
      {
        var c :| c in todo;
        Passed(closed, todo, c);
        if isOpen(members[c]) {
          result := result[c := members[c]];
        } else {
          DropOne(before, room, closed - todo, c);
          var _ := Leave(room, members[c].id);
        }
        todo := todo - {c};
      }
      assert closed - todo == closed;
    }

    /** The users online in a room, each counted once, plus its anonymous connections; closed ones are taken out. */
    method GetRoomUserCount(room: string, isOpen: Connection -> bool) returns (count: nat)
      requires Good(Now())
      modifies this
      ensures Now() == Expelled(old(Now()), room, ClosedIn(old(Now()), room, isOpen))
      ensures count == |UserIds(MembersOf(Now(), room))| + |Anonymous(MembersOf(Now(), room))|
    {
      hide Expelled, Left, Good, ClosedIn, UserIds, Anonymous;
      ghost var before := Now();
      ghost var closed := ClosedIn(before, room, isOpen);
      ExpelNone(before, room);
      MembersAfter(before, room, closed);
      NobodyCounted(before, room, isOpen);
      if room !in rooms { return 0; }
      var members := rooms[room];
      var todo := members.Keys;
      var userIds: set<string> := {};
      var anonymousConnections := 0;
      while todo != {}
        invariant todo <= members.Keys
        invariant Now() == Expelled(before, room, closed - todo)
        invariant userIds == UserIds(members - (closed + todo))
        invariant anonymousConnections == |Anonymous(members - (closed + todo))|
      {
        var c :| c in todo;
        Passed(closed, todo, c);
        CountStep(before, room, isOpen, todo, c);
        if !isOpen(members[c]) {
          DropOne(before, room, closed - todo, c);
          var _ := Leave(room, members[c].id);
        } else if members[c].userId != "" {
          userIds := userIds + {members[c].userId};
        } else {
          anonymousConnections := anonymousConnections + 1;
        }
        todo := todo - {c};
      }
      assert closed - todo == closed && closed + todo == closed;
      return |userIds| + anonymousConnections;
    }

    /**
     Sends to the open members other than the excepted one, taking closed ones out; `sends` is the socket's answer.
     */
    method Broadcast(
      room: string, exceptId: string, isOpen: Connection -> bool, sends: Connection -> bool) returns (sent: nat)
      requires Good(Now())
      modifies this
      ensures Now() == Expelled(old(Now()), room, ClosedExcept(MembersOf(old(Now()), room), exceptId, isOpen))
      ensures sent == |Reached(MembersOf(old(Now()), room), exceptId, isOpen, sends)|
    {
      hide Expelled, Left, Good, Excepted, ClosedExcept, Reached;
      ghost var before := Now();
      sent := 0;
      ExpelNone(before, room);
      NobodyReached(exceptId, isOpen, sends);
      if room !in rooms { return; }
      var members := rooms[room];
      ghost var closed := ClosedExcept(members, exceptId, isOpen);
      ghost var reached := Reached(members, exceptId, isOpen, sends);
      var todo := members.Keys;
      OnlyMembersReached(members, exceptId, isOpen, sends);
      while todo != {}
        invariant todo <= members.Keys
        invariant Now() == Expelled(before, room, closed - todo) && sent == |reached - todo|
      {
        var c :| c in todo;
        ReachedStep(members, exceptId, isOpen, sends, todo, c);
        if !Excepted(c, exceptId) {
          if !isOpen(members[c]) {
            DropOne(before, room, closed - todo, c);
            var _ := Leave(room, members[c].id);
          } else if sends(members[c]) {
            sent := sent + 1;
          }
        }
        todo := todo - {c};
      }
      assert closed - todo == closed && reached - todo == reached;
    }

    /** Takes the other connections of a user out of a room. */
    method LeaveConnectionsByUser(room: string, userId: string, exceptId: string) returns (removed: nat)
      requires Good(Now())
      modifies this
      ensures var gone := UserConnections(old(Now()), room, userId, exceptId);
              Now() == Expelled(old(Now()), room, gone) && removed == |gone|
    {
      hide Expelled, Good, Excepted;
      ghost var before := Now();
      ghost var all := UserConnections(before, room, userId, exceptId);
      removed := 0;
      ExpelNone(before, room);
      if room == "" || userId == "" || room !in rooms { return; }
      var members := rooms[room];
      var todo := members.Keys;
      assert all - todo == {};
      while todo != {}
        invariant todo <= members.Keys
        invariant Now() == Expelled(before, room, all - todo) && removed == |all - todo|
      {
        var c :| c in todo;
        Passed(all, todo, c);
        if !Excepted(c, exceptId) && members[c].userId == userId {
          DropOne(before, room, all - todo, c);
          var left := Leave(room, members[c].id);
          if left {
            removed := removed + 1;
          }
        }
        todo := todo - {c};
      }
      assert all - todo == all;
    }

    /**
     Whether a user has an open connection in the room. The members are gone through in the order that the map
     keeps, up to the first such connection; the closed ones before it are taken out.
     */
    method HasUser(room: string, userId: string, exceptId: string, isOpen: Connection -> bool, order: seq<string>)
      returns (found: bool)
      requires Good(Now()) && Enumerates(order, MembersOf(Now(), room))
      modifies this
      ensures var members := MembersOf(old(Now()), room);
              var hit := FirstHit(members, order, userId, exceptId, isOpen);
              && found == (room != "" && userId != "" && hit < |order|)
              && Now() == if room == "" || userId == "" then old(Now())
                          else Expelled(old(Now()), room, ClosedAmong(members, order[..hit], exceptId, isOpen))
    {
      hide Expelled, Left, Good, Excepted, FirstHit;
      ghost var before := Now();
      ExpelNone(before, room);
      if room == "" || userId == "" { return false; }
      var members := if room in rooms then rooms[room] else map[];
      assert members == MembersOf(before, room);
      assert ClosedAmong(members, order[..0], exceptId, isOpen) == {};
      for i := 0 to |order|
        invariant Now() == Expelled(before, room, ClosedAmong(members, order[..i], exceptId, isOpen))
        invariant forall j | 0 <= j < i :: !Hit(members, order[j], userId, exceptId, isOpen)
      {
        var c := order[i];
        ClosedAmongStep(members, order, i, exceptId, isOpen);
        if Excepted(c, exceptId) {
          continue;
        }
        if !isOpen(members[c]) {
          DropOne(before, room, ClosedAmong(members, order[..i], exceptId, isOpen), c);
          var _ := Leave(room, members[c].id);
          continue;
        }
        if members[c].userId == userId {
          FirstHitIs(members, order, i, userId, exceptId, isOpen);
          return true;
        }
      }
      FirstHitIs(members, order, |order|, userId, exceptId, isOpen);
      return false;
    }

    method Clear()
      modifies this
      ensures Now() == Initial()
    {
      rooms, roomsByConnectionId, permanentRoomDefinitions := map[], map[], {};
    }
  }

  /** One more member leaves while the room is gone through. */
  lemma DropOne(st: State, room: string, gone: set<string>, c: string)
    requires Good(st) && room in st.rooms && c in st.rooms[room] && c !in gone
    ensures var now := Expelled(st, room, gone);
            && Left(now, room, st.rooms[room][c].id) == Expelled(st, room, gone + {c})
            && room != "" && st.rooms[room][c].id == c && c != "" && InRoom(now, room, c)
  {
    assert InRoom(st, room, c);
    MemberUntilExpelled(st, room, gone, c);
    hide Expelled, Good;
    ExpelTwice(st, room, gone, {c});
  }

  lemma ClosedAmongStep(members: Members, order: seq<string>, i: nat, exceptId: string, isOpen: Connection -> bool)
    requires Enumerates(order, members) && i < |order|
    ensures order[i] in members && order[i] !in ClosedAmong(members, order[..i], exceptId, isOpen)
    ensures ClosedAmong(members, order[..i + 1], exceptId, isOpen) ==
              if !Excepted(order[i], exceptId) && !isOpen(members[order[i]])
              then ClosedAmong(members, order[..i], exceptId, isOpen) + {order[i]}
              else ClosedAmong(members, order[..i], exceptId, isOpen)
  {
    assert order[..i + 1] == order[..i] + [order[i]];
    assert order[i] !in order[..i];
  }

  lemma {:induction false} FirstHitIs(
    members: Members, order: seq<string>, k: nat, userId: string, exceptId: string, isOpen: Connection -> bool)
    requires k <= |order| && (k < |order| ==> Hit(members, order[k], userId, exceptId, isOpen))
    requires forall j | 0 <= j < k :: !Hit(members, order[j], userId, exceptId, isOpen)
    ensures FirstHit(members, order, userId, exceptId, isOpen) == k
  {
    hide Hit;
    if k > 0 {
      FirstHitIs(members, order[1..], k - 1, userId, exceptId, isOpen);
    }
  }

  lemma NobodyCounted(st: State, room: string, isOpen: Connection -> bool)
    ensures UserIds(map[]) == {} && Anonymous(map[]) == {}
    ensures var members, closed := MembersOf(st, room), ClosedIn(st, room, isOpen);
            members - (closed + members.Keys) == map[] && closed - members.Keys == {}
  {
  }

  /** What going past one member adds to the two counts. */
  lemma CountStep(st: State, room: string, isOpen: Connection -> bool, todo: set<string>, c: string)
    requires InRoom(st, room, c) && c in todo
    ensures var members, closed := st.rooms[room], ClosedIn(st, room, isOpen);
            var seen, now := members - (closed + todo), members - (closed + (todo - {c}));
            && (c in closed <==> !isOpen(members[c]))
            && UserIds(now) ==
                 (if isOpen(members[c]) && members[c].userId != "" then UserIds(seen) + {members[c].userId}
                   else UserIds(seen))
            && |Anonymous(now)| ==
                 (if isOpen(members[c]) && members[c].userId == "" then |Anonymous(seen)| + 1 else |Anonymous(seen)|)
  {
    var members, closed := st.rooms[room], ClosedIn(st, room, isOpen);
    var seen, now := members - (closed + todo), members - (closed + (todo - {c}));
    if isOpen(members[c]) {
      assert now == seen[c := members[c]];
      hide UserIds, Anonymous, ClosedIn;
      UserSeen(seen, c, members[c]);
      AnonymousSeen(seen, c, members[c]);
    } else {
      assert now == seen;
    }
  }

  lemma UserSeen(seen: Members, c: string, conn: Connection)
    requires c !in seen
    ensures UserIds(seen[c := conn]) == if conn.userId != "" then UserIds(seen) + {conn.userId} else UserIds(seen)
  {
    var now := seen[c := conn];
    forall u | u in UserIds(seen) ensures u in UserIds(now) {
      var k :| k in seen && seen[k].userId == u;
      assert k in now && now[k].userId == u;
    }
    assert c in now && now[c].userId == conn.userId;
  }

  lemma AnonymousSeen(seen: Members, c: string, conn: Connection)
    requires c !in seen
    ensures |Anonymous(seen[c := conn])| == if conn.userId == "" then |Anonymous(seen)| + 1 else |Anonymous(seen)|
  {
    var now := seen[c := conn];
    if conn.userId == "" {
      assert Anonymous(now) == Anonymous(seen) + {c};
    } else {
      assert Anonymous(now) == Anonymous(seen);
    }
  }

  lemma NobodyReached(exceptId: string, isOpen: Connection -> bool, sends: Connection -> bool)
    ensures ClosedExcept(map[], exceptId, isOpen) == {} && Reached(map[], exceptId, isOpen, sends) == {}
  {
  }

  lemma OnlyMembersReached(members: Members, exceptId: string, isOpen: Connection -> bool, sends: Connection -> bool)
    ensures ClosedExcept(members, exceptId, isOpen) - members.Keys == {}
    ensures Reached(members, exceptId, isOpen, sends) - members.Keys == {}
  {
  }

  /** What the broadcast owes to one member, and what is then handled. */
  lemma ReachedStep(
    members: Members, exceptId: string, isOpen: Connection -> bool, sends: Connection -> bool, todo: set<string>,
    c: string)
    requires c in todo && c in members
    ensures var closed, reached := ClosedExcept(members, exceptId, isOpen), Reached(members, exceptId, isOpen, sends);
            && closed - (todo - {c}) ==
                 (if !Excepted(c, exceptId) && !isOpen(members[c]) then closed - todo + {c} else closed - todo)
            && |reached - (todo - {c})| ==
                 |reached - todo| + (if !Excepted(c, exceptId) && isOpen(members[c]) && sends(members[c]) then 1 else 0)
  {
    var closed, reached := ClosedExcept(members, exceptId, isOpen), Reached(members, exceptId, isOpen, sends);
    Passed(closed, todo, c);
    Passed(reached, todo, c);
  }

  lemma ForgetNone(roomsOf: map<string, set<string>>, room: string)
    ensures Forgotten(roomsOf, room, {}) == roomsOf
  {
  }

  lemma ForgottenTwice(roomsOf: map<string, set<string>>, room: string, gone: set<string>, c: string)
    requires c !in gone
    ensures Forgotten(Forgotten(roomsOf, room, gone), room, {c}) == Forgotten(roomsOf, room, gone + {c})
  {
  }

  lemma NamelessNowhere(st: State)
    requires Good(st)
    ensures "" !in st.roomsOf
  {
    forall c | c in st.roomsOf ensures c != "" {
      var room :| room in st.roomsOf[c];
      assert Knows(st, c, room);
      assert InRoom(st, room, c);
    }
  }

  lemma LeaveOneOfAll(st: State, room: string, id: string)
    requires Good(st) && id != "" && id in st.roomsOf && room in st.roomsOf[id]
    ensures var next := Left(st, room, id);
            && Good(next) && LeftAll(next, id) == LeftAll(st, id) && next.permanent == st.permanent
            && (if id in next.roomsOf then next.roomsOf[id] else {}) == st.roomsOf[id] - {room}
            && InRoom(st, room, id) && room != ""
  {
    assert Knows(st, id, room);
    assert InRoom(st, room, id);
    ExpelledGood(st, room, {id});
    KnownAfterLeaving(st, room, id);
    var next := Left(st, room, id);
    LeftAllGood(st, id);
    LeftAllGood(next, id);
    SameRoomsAfterAll(st, room, id);
    hide LeftAll, Expelled, Good;
    SameRoomsSameIndex(LeftAll(next, id), LeftAll(st, id));
  }

  lemma SameRoomsAfterAll(st: State, room: string, id: string)
    requires room in st.rooms && room != "" && id != ""
    ensures LeftAll(Left(st, room, id), id).rooms == LeftAll(st, id).rooms
  {
    hide Forgotten;
    assert st.rooms[room] - {id} - {id} == st.rooms[room] - {id};
  }

  lemma KnownAfterLeaving(st: State, room: string, id: string)
    requires room in st.rooms && room != "" && id != "" && id in st.roomsOf
    ensures var next := Left(st, room, id);
            (if id in next.roomsOf then next.roomsOf[id] else {}) == st.roomsOf[id] - {room}
              && next.permanent == st.permanent
  {
  }

  lemma NowhereLeft(st: State, id: string)
    requires Good(st) && id !in st.roomsOf
    ensures LeftAll(st, id) == st
  {
    forall room | room in st.rooms ensures st.rooms[room] - {id} == st.rooms[room] {
      assert !Knows(st, id, room);
      assert !InRoom(st, room, id);
    }
    assert st.roomsOf - {id} == st.roomsOf;
  }

  // ---- runs ----

  /** `PruneOp` stands for every method that takes some connections out of one room while going through it. */
  datatype Op =
    | JoinOp(room: string, conn: Connection)
    | LeaveOp(room: string, id: string)
    | LeaveAllOp(id: string)
    | PruneOp(room: string, gone: set<string>)
    | PermanentOp(room: string)
    | RemoveOp(room: string, force: bool)
    | ClearOp

  function Apply(op: Op, st: State): State {
    match op
    case JoinOp(room, conn) => Joined(st, room, conn)
    case LeaveOp(room, id) => Left(st, room, id)
    case LeaveAllOp(id) => LeftAll(st, id)
    case PruneOp(room, gone) => Expelled(st, room, gone)
    case PermanentOp(room) => Permanent(st, room)
    case RemoveOp(room, force) => Removed(st, room, force)
    case ClearOp => Initial()
  }

  function After(ops: seq<Op>, n: nat): State
    requires n <= |ops|
  {
    if n == 0 then Initial() else Apply(ops[n - 1], After(ops, n - 1))
  }

  lemma ApplyGood(op: Op, st: State)
    requires Good(st)
    ensures Good(Apply(op, st))
  {
    hide Joined, Expelled, LeftAll, Permanent, Removed, Good;
    match op
    case JoinOp(room, conn) => JoinedGood(st, room, conn);
    case LeaveOp(room, id) => ExpelledGood(st, room, {id});
    case LeaveAllOp(id) => LeftAllGood(st, id);
    case PruneOp(room, gone) => ExpelledGood(st, room, gone);
    case PermanentOp(room) => PermanentGood(st, room);
    case RemoveOp(room, force) => RemovedGood(st, room, force);
    case ClearOp => InitialGood();
  }

  lemma InitialGood()
    ensures Good(Initial())
  {
  }

  lemma {:induction false} AlwaysGood(ops: seq<Op>, n: nat)
    requires n <= |ops|
    ensures Good(After(ops, n))
  {
    if n == 0 {
      InitialGood();
    } else {
      hide Apply;
      AlwaysGood(ops, n - 1);
      ApplyGood(ops[n - 1], After(ops, n - 1));
    }
  }

  /**
   After every run the two indexes are converse, no room but a permanent one is empty, and no permanent one is lost.
   */
  lemma IndexesAlwaysAgree(ops: seq<Op>, n: nat)
    requires n <= |ops|
    ensures var st := After(ops, n);
            && (forall room, id :: InRoom(st, room, id) <==> Knows(st, id, room))
            && (forall room | room in st.rooms && st.rooms[room] == map[] :: room in st.permanent)
            && (forall id | id in st.roomsOf :: st.roomsOf[id] != {})
            && st.permanent <= st.rooms.Keys
  {
    hide After;
    AlwaysGood(ops, n);
  }

  /** A permanent room stays until it is removed by force or everything is cleared. */
  lemma {:induction false} PermanentRoomsStay(ops: seq<Op>, m: nat, n: nat, room: string)
    requires m <= n <= |ops| && room in After(ops, m).permanent
    requires forall i | m <= i < n :: !ops[i].ClearOp? && ops[i] != RemoveOp(room, true)
    ensures room in After(ops, n).permanent && room in After(ops, n).rooms
    decreases n
  {
    AlwaysGood(ops, n);
    if m < n {
      PermanentRoomsStay(ops, m, n - 1, room);
      hide Good, Forgotten;
    }
  }

  /** The operation puts the connection into the room. */
  predicate Enters(op: Op, room: string, id: string) {
    op.JoinOp? && room != "" && id != "" && op.room == room && op.conn.id == id
  }

  /** The operation takes the connection out of the room. */
  predicate TakesOut(op: Op, st: State, room: string, id: string) {
    match op
    case LeaveOp(r, c) => r == room && c == id
    case LeaveAllOp(c) => c == id
    case PruneOp(r, gone) => r == room && id in gone
    case RemoveOp(r, force) => r == room && (force || room !in st.permanent)
    case ClearOp => true
    case _ => false
  }

  /** Every operation changes just the memberships it is about, seen from the rooms and from the connections alike. */
  lemma MembershipChangesExactly(op: Op, st: State, room: string, id: string)
    requires Good(st)
    ensures InRoom(Apply(op, st), room, id) <==>
      (InRoom(st, room, id) && !TakesOut(op, st, room, id)) || Enters(op, room, id)
    ensures Knows(Apply(op, st), id, room) <==>
      (Knows(st, id, room) && !TakesOut(op, st, room, id)) || Enters(op, room, id)
  {
    ApplyGood(op, st);
    assert InRoom(st, room, id) ==> room != "" && id != "";
    hide Forgotten;
    match op
    case LeaveOp(r, c) => ExpelledPair(st, r, {c}, room, id);
    case PruneOp(r, gone) => ExpelledPair(st, r, gone, room, id);
    case LeaveAllOp(c) => LeftAllPair(st, c, room, id);
    case _ =>
  }

  lemma LeftAllPair(st: State, c: string, room: string, id: string)
    ensures InRoom(LeftAll(st, c), room, id) <==> InRoom(st, room, id) && id != c
  {
    if InRoom(st, room, id) && id != c {
      assert id in st.rooms[room] - {c};
    }
  }

  /** Whatever happens elsewhere, a connection stays in a room until an operation takes it out. */
  lemma {:induction false} MembersStay(ops: seq<Op>, m: nat, n: nat, room: string, id: string)
    requires m <= n <= |ops| && InRoom(After(ops, m), room, id)
    requires forall i | m <= i < n :: !TakesOut(ops[i], After(ops, i), room, id)
    ensures InRoom(After(ops, n), room, id)
    decreases n
  {
    hide Apply, InRoom, TakesOut;
    if m < n {
      MembersStay(ops, m, n - 1, room, id);
      AlwaysGood(ops, n - 1);
      MembershipChangesExactly(ops[n - 1], After(ops, n - 1), room, id);
    }
  }

  // ---- whom the methods pick ----

  /** The member with this id is in the room, and is not the one excepted. */
  predicate Other(st: State, room: string, c: string, exceptId: string) {
    room in st.rooms && c in st.rooms[room] && !(exceptId != "" && c == exceptId)
  }

  /** The members that a user's leave, a broadcast, a look-up and a count pick out of a room. */
  lemma PicksExactly(
    st: State, room: string, userId: string, exceptId: string, isOpen: Connection -> bool, sends: Connection -> bool,
    c: string)
    ensures c in MembersOf(st, room) <==> room in st.rooms && c in st.rooms[room]
    ensures c in MembersOf(st, room) ==> MembersOf(st, room)[c] == st.rooms[room][c]
    ensures c in UserConnections(st, room, userId, exceptId) <==>
              && room != "" && userId != "" && Other(st, room, c, exceptId) && st.rooms[room][c].userId == userId
    ensures c in Reached(MembersOf(st, room), exceptId, isOpen, sends) <==>
              Other(st, room, c, exceptId) && isOpen(st.rooms[room][c]) && sends(st.rooms[room][c])
    ensures c in ClosedExcept(MembersOf(st, room), exceptId, isOpen) <==>
              Other(st, room, c, exceptId) && !isOpen(st.rooms[room][c])
    ensures c in ClosedIn(st, room, isOpen) <==> Other(st, room, c, "") && !isOpen(st.rooms[room][c])
  {
  }

  /**
   The look-up of a user stops at the first open connection of the user, in the order of the map, that is not the
   one excepted, and meets every member when there is none; the closed ones before it are those that go.
   */
  lemma {:induction false} FirstHitExactly(
    st: State, room: string, order: seq<string>, userId: string, exceptId: string, isOpen: Connection -> bool)
    requires forall c | c in order :: c in MembersOf(st, room)
    ensures var hit := FirstHit(MembersOf(st, room), order, userId, exceptId, isOpen);
            && (forall i | 0 <= i < hit :: !Found(st, room, order[i], userId, exceptId, isOpen))
            && (hit < |order| ==> Found(st, room, order[hit], userId, exceptId, isOpen))
            && (forall c :: c in ClosedAmong(MembersOf(st, room), order[..hit], exceptId, isOpen) <==>
                 c in order[..hit] && Other(st, room, c, exceptId) && !isOpen(st.rooms[room][c]))
  {
    if order != [] && !Hit(MembersOf(st, room), order[0], userId, exceptId, isOpen) {
      FirstHitExactly(st, room, order[1..], userId, exceptId, isOpen);
      var hit := FirstHit(MembersOf(st, room), order, userId, exceptId, isOpen);
      forall i | 0 <= i < hit ensures !Found(st, room, order[i], userId, exceptId, isOpen) {
        assert i > 0 ==> order[i] == order[1..][i - 1];
      }
    }
  }

  predicate Found(
    st: State, room: string, c: string, userId: string, exceptId: string, isOpen: Connection -> bool) {
    Other(st, room, c, exceptId) && isOpen(st.rooms[room][c]) && st.rooms[room][c].userId == userId
  }
}
