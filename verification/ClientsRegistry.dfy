/** The live connections, found by connection id and by user. */
module ClientsRegistry {
  import opened Common

  /** A registered connection; `socket` identifies the connection object, whose openness is asked when needed. */
  datatype Record = Record(userId: string, socket: int, addedAt: int, lastSeenAt: int)

  type Records = map<string, Record>

  datatype State = State(byConnectionId: Records, byUserId: map<string, set<string>>)

  function Initial(): State {
    State(map[], map[])
  }

  // ---- the scan that the user index stands for ----

  function IdsOf(records: Records, userId: string): set<string> {
    set id | id in records && records[id].userId == userId
  }

  function Users(records: Records): set<string> {
    set id | id in records && records[id].userId != "" :: records[id].userId
  }

  /** The index by user, found by going through every record. */
  function UserIndex(records: Records): map<string, set<string>> {
    map userId | userId in Users(records) :: IdsOf(records, userId)
  }

  ghost predicate Good(st: State) {
    st.byUserId == UserIndex(st.byConnectionId)
  }

  lemma UserListed(records: Records, userId: string)
    ensures userId in Users(records) <==> userId != "" && IdsOf(records, userId) != {}
  {
    if userId != "" && IdsOf(records, userId) != {} {
      var id :| id in IdsOf(records, userId);
      assert records[id].userId == userId;
    }
    if userId in Users(records) {
      var id :| id in records && records[id].userId == userId;
      assert id in IdsOf(records, userId);
    }
  }

  // ---- how the methods change the two maps ----

  function Unlisted(byUserId: map<string, set<string>>, userId: string, id: string): map<string, set<string>> {
    if userId !in byUserId then byUserId
    else if byUserId[userId] - {id} == {} then byUserId - {userId}
    else byUserId[userId := byUserId[userId] - {id}]
  }

  function Listed(byUserId: map<string, set<string>>, userId: string, id: string): map<string, set<string>> {
    if userId == "" then byUserId
    else byUserId[userId := (if userId in byUserId then byUserId[userId] else {}) + {id}]
  }

  function AddedRecord(records: Records, id: string, userId: string, socket: int, now: int): Record {
    Record(userId, socket, if id in records then records[id].addedAt else now, now)
  }

  function Added(st: State, id: string, userId: string, socket: int, now: int): State {
    if id == "" then st else
      var previous := if id in st.byConnectionId then st.byConnectionId[id].userId else "";
      var kept := if previous != "" && previous != userId then Unlisted(st.byUserId, previous, id) else st.byUserId;
      State(st.byConnectionId[id := AddedRecord(st.byConnectionId, id, userId, socket, now)], Listed(kept, userId, id))
  }

  function Dropped(st: State, id: string): State {
    if id !in st.byConnectionId then st else
      State(st.byConnectionId - {id}, Unlisted(st.byUserId, st.byConnectionId[id].userId, id))
  }

  function Touched(st: State, id: string, now: int): State {
    if id !in st.byConnectionId then st else
      st.(byConnectionId := st.byConnectionId[id := st.byConnectionId[id].(lastSeenAt := now)])
  }

  /** The registry without some connections, its index found by a fresh scan. */
  function Without(st: State, gone: set<string>): State {
    State(st.byConnectionId - gone, UserIndex(st.byConnectionId - gone))
  }

  function ClosedOf(records: Records, isOpen: int -> bool): set<string> {
    set id | id in records && !isOpen(records[id].socket)
  }

  function Elements(ids: seq<string>): set<string> {
    set id | id in ids
  }

  /** The ids in the order in which the set lists them. */
  ghost predicate Enumerates(order: seq<string>, ids: set<string>) {
    (forall i, j | 0 <= i < j < |order| :: order[i] != order[j]) && Elements(order) == ids
  }

  /** The place of the first open connection, or the number of ids when there is none. */
  function FirstOpen(records: Records, order: seq<string>, isOpen: int -> bool): (k: nat)
    ensures k <= |order|
  {
    if order == [] || (order[0] in records && isOpen(records[order[0]].socket)) then 0
    else 1 + FirstOpen(records, order[1..], isOpen)
  }

  lemma {:induction false} FirstOpenIs(records: Records, order: seq<string>, k: nat, isOpen: int -> bool)
    requires k <= |order| && (forall id | id in order :: id in records)
    requires k < |order| ==> isOpen(records[order[k]].socket)
    requires forall j | 0 <= j < k :: !isOpen(records[order[j]].socket)
    ensures FirstOpen(records, order, isOpen) == k
  {
    if k > 0 {
      FirstOpenIs(records, order[1..], k - 1, isOpen);
    }
  }

  // ---- every change keeps the index equal to the scan ----

  lemma AddedGood(st: State, id: string, userId: string, socket: int, now: int)
    requires Good(st)
    ensures Good(Added(st, id, userId, socket, now))
  {
    if id != "" {
      var next := Added(st, id, userId, socket, now);
      forall u
        ensures u in next.byUserId <==> u in Users(next.byConnectionId)
        ensures u in next.byUserId ==> next.byUserId[u] == IdsOf(next.byConnectionId, u)
      {
        AddedListing(st, id, userId, socket, now, u);
        hide Added, IdsOf, Users;
        UserListed(next.byConnectionId, u);
      }
      hide Added, IdsOf, Users;
    }
  }

  /** What the index holds for one user: the ids of the user, as far as there are any. */
  predicate ListsExactly(byUserId: map<string, set<string>>, userId: string, ids: set<string>) {
    && (userId in byUserId <==> userId != "" && ids != {})
    && (userId in byUserId ==> byUserId[userId] == ids)
  }

  /** Adding a connection lists it under its new user, unlists it under the previous one, and leaves the others. */
  lemma AddedListing(st: State, id: string, userId: string, socket: int, now: int, u: string)
    requires Good(st) && id != ""
    ensures var next := Added(st, id, userId, socket, now);
            ListsExactly(next.byUserId, u, IdsOf(next.byConnectionId, u))
  {
    var records, record := st.byConnectionId, AddedRecord(st.byConnectionId, id, userId, socket, now);
    AddedIds(records, id, record, u);
    ListedIds(st, u);
    var previous := if id in records then records[id].userId else "";
    var kept := if previous != "" && previous != userId then Unlisted(st.byUserId, previous, id) else st.byUserId;
    var ids := IdsOf(records, u);
    assert id in ids <==> id in records && previous == u;
    hide IdsOf, Good;
    UnlistedExactly(st.byUserId, previous, id, u, ids);
    assert ListsExactly(kept, u, if u == userId then ids else ids - {id}) by {
      if u != userId && u != previous { assert ids - {id} == ids; }
    }
    ListedExactly(kept, userId, id, u, if u == userId then ids else ids - {id});
  }

  lemma UnlistedExactly(byUserId: map<string, set<string>>, userId: string, id: string, u: string, ids: set<string>)
    requires ListsExactly(byUserId, u, ids)
    ensures ListsExactly(Unlisted(byUserId, userId, id), u, if u == userId then ids - {id} else ids)
  {
  }

  lemma ListedExactly(byUserId: map<string, set<string>>, userId: string, id: string, u: string, ids: set<string>)
    requires ListsExactly(byUserId, u, ids)
    ensures ListsExactly(Listed(byUserId, userId, id), u, if u == userId then ids + {id} else ids)
  {
  }

  lemma AddedIds(records: Records, id: string, record: Record, userId: string)
    ensures IdsOf(records[id := record], userId) ==
            if record.userId == userId then IdsOf(records, userId) + {id} else IdsOf(records, userId) - {id}
  {
  }

  lemma DroppedIds(records: Records, gone: set<string>, userId: string)
    ensures IdsOf(records - gone, userId) == IdsOf(records, userId) - gone
  {
  }

  /** Dropping a connection from both maps is dropping its record and scanning again. */
  lemma DroppedIsWithout(st: State, id: string)
    requires Good(st)
    ensures Dropped(st, id) == Without(st, {id}) && Good(Without(st, {id}))
  {
    var next := Dropped(st, id);
    assert next.byConnectionId == st.byConnectionId - {id};
    forall u
      ensures u in next.byUserId <==> u in UserIndex(next.byConnectionId)
      ensures u in next.byUserId ==> next.byUserId[u] == IdsOf(next.byConnectionId, u)
    {
      DroppedIds(st.byConnectionId, {id}, u);
      UserListed(st.byConnectionId, u);
      UserListed(next.byConnectionId, u);
      if id in st.byConnectionId && u != st.byConnectionId[id].userId {
        assert IdsOf(st.byConnectionId, u) - {id} == IdsOf(st.byConnectionId, u);
      }
    }
  }

  lemma WithoutNone(st: State)
    requires Good(st)
    ensures Without(st, {}) == st
  {
    assert st.byConnectionId - {} == st.byConnectionId;
  }

  lemma DropOneMore(st: State, gone: set<string>, id: string)
    ensures Without(Without(st, gone), {id}) == Without(st, gone + {id}) && Good(Without(st, gone))
  {
    assert st.byConnectionId - gone - {id} == st.byConnectionId - (gone + {id});
  }

  lemma TouchedGood(st: State, id: string, now: int)
    requires Good(st)
    ensures Good(Touched(st, id, now))
  {
    if id in st.byConnectionId {
      var next := Touched(st, id, now);
      forall u
        ensures u in Users(st.byConnectionId) <==> u in Users(next.byConnectionId)
        ensures IdsOf(st.byConnectionId, u) == IdsOf(next.byConnectionId, u)
      {
        AddedIds(st.byConnectionId, id, next.byConnectionId[id], u);
        UserListed(st.byConnectionId, u);
        UserListed(next.byConnectionId, u);
      }
    }
  }

  /** The ids listed for a user are ids of records of that user. */
  lemma ListedIds(st: State, userId: string)
    requires Good(st)
    ensures userId in st.byUserId <==> userId != "" && IdsOf(st.byConnectionId, userId) != {}
    ensures userId in st.byUserId ==> st.byUserId[userId] == IdsOf(st.byConnectionId, userId)
    ensures userId in st.byUserId ==> st.byUserId[userId] <= st.byConnectionId.Keys
  {
    UserListed(st.byConnectionId, userId);
  }

  // ---- the object ----

  class ClientsRegistry {
    var byConnectionId: Records
    var byUserId: map<string, set<string>>

    ghost function Now(): State
      reads this
    {
      State(byConnectionId, byUserId)
    }

    constructor ()
      ensures Now() == Initial()
    {
      byConnectionId, byUserId := map[], map[];
    }

    method AddConnection(id: string, userId: string, socket: int, now: int) returns (record: Option<Record>)
      modifies this
      ensures Now() == Added(old(Now()), id, userId, socket, now)
      ensures record == if id == "" then None else Some(AddedRecord(old(byConnectionId), id, userId, socket, now))
    {
      hide Unlisted;
      if id == "" { return None; }
      var existing := if id in byConnectionId then Some(byConnectionId[id]) else None;
      var previousUserId := if existing.Some? then existing.value.userId else "";
      if previousUserId != "" && previousUserId != userId {
        Unlist(previousUserId, id);
      }
      var entry := if existing.Some? then existing.value else Record("", socket, now, now);
      entry := entry.(userId := userId, socket := socket, lastSeenAt := now);
      byConnectionId := byConnectionId[id := entry];
      if userId != "" {
        if userId !in byUserId {
          byUserId := byUserId[userId := {}];
        }
        byUserId := byUserId[userId := byUserId[userId] + {id}];
      }
      return Some(entry);
    }

    method RemoveConnectionById(id: string) returns (removed: bool)
      requires Good(Now())
      modifies this
      ensures Now() == Without(old(Now()), {id}) && Good(Now())
      ensures removed <==> id in old(byConnectionId)
    {
      hide Without, Good;
      DroppedIsWithout(Now(), id);
      NamelessUnlisted(Now());
      if id !in byConnectionId { return false; }
      var record := byConnectionId[id];
      byConnectionId := byConnectionId - {id};
      if record.userId != "" {
        Unlist(record.userId, id);
      }
      return true;
    }

    /** Takes a connection out of the list of a user, and the list with its last connection. */
    method Unlist(userId: string, id: string)
      modifies this`byUserId
      ensures byUserId == Unlisted(old(byUserId), userId, id)
    {
      if userId !in byUserId { return; }
      byUserId := byUserId[userId := byUserId[userId] - {id}];
      if byUserId[userId] == {} {
        byUserId := byUserId - {userId};
        assert byUserId == old(byUserId) - {userId};
      }
    }

    /** Removes every connection of a user. */
    method Remove(userId: string) returns (removed: bool)
      requires Good(Now())
      modifies this
      ensures Now() == Without(old(Now()), if userId == "" then {} else IdsOf(old(byConnectionId), userId))
      ensures removed <==> userId != "" && IdsOf(old(byConnectionId), userId) != {}
    {
      hide Without, Good, Dropped, IdsOf;
      ghost var before := Now();
      WithoutNone(before);
      ListedIds(before, userId);
      if userId !in byUserId { return false; }
      var ids := byUserId[userId];
      var todo := ids;
      assert ids - todo == {};
      while todo != {}
        invariant todo <= ids && Now() == Without(before, ids - todo)
      {
        var id :| id in todo;
        Passed(ids, todo, id);
        DropOneMore(before, ids - todo, id);
        var _ := RemoveConnectionById(id);
        todo := todo - {id};
      }
      assert ids - todo == ids;
      UserGone(before, userId);
      byUserId := byUserId - {userId};
      return true;
    }

    /**
     The first open connection of a user, in the order that the set of the user's ids keeps; the closed ones before
     it are removed.
     */
    method GetFirstConnectionByUserId(
      userId: string, isOpen: int -> bool, order: seq<string>) returns (socket: Option<int>)
      requires Good(Now()) && Enumerates(order, if userId in byUserId then byUserId[userId] else {})
      modifies this
      ensures var records := old(byConnectionId);
              var open := FirstOpen(records, order, isOpen);
              && (forall id | id in order :: id in records && records[id].userId == userId)
              && socket == (if open < |order| then Some(records[order[open]].socket) else None)
              && Now() == Without(old(Now()), Elements(order[..open]))
    {
      hide Without, Good, Dropped, FirstOpen;
      ghost var before := Now();
      WithoutNone(before);
      ListedIds(before, userId);
      assert Elements(order[..0]) == {};
      assert forall id :: id in order <==> id in Elements(order);
      assert forall id | id in order :: id in before.byConnectionId && before.byConnectionId[id].userId == userId;
      assert order != [] ==> order[0] in Elements(order);
      hide IdsOf;
      if userId !in byUserId {
        FirstOpenIs(byConnectionId, order, 0, isOpen);
        return None;
      }
      for i := 0 to |order|
        invariant Now() == Without(before, Elements(order[..i]))
        invariant forall j | 0 <= j < i :: !isOpen(before.byConnectionId[order[j]].socket)
      {
        var id := order[i];
        assert order[..i + 1] == order[..i] + [id] && id !in order[..i];
        assert Elements(order[..i + 1]) == Elements(order[..i]) + {id};
        RecordKept(before, Elements(order[..i]), id);
        if isOpen(byConnectionId[id].socket) {
          FirstOpenIs(before.byConnectionId, order, i, isOpen);
          assert byConnectionId[id] == before.byConnectionId[order[i]];
          return Some(byConnectionId[id].socket);
        }
        DropOneMore(before, Elements(order[..i]), id);
        var _ := RemoveConnectionById(id);
      }
      FirstOpenIs(before.byConnectionId, order, |order|, isOpen);
      return None;
    }

    /** All open connections of a user; the closed ones are removed, so what is returned is what stays listed. */
    method GetAll(userId: string, isOpen: int -> bool) returns (result: map<string, int>)
      requires Good(Now())
      modifies this
      ensures Now() == Without(old(Now()), OpenAndClosed(old(byConnectionId), userId, isOpen).1)
      ensures result.Keys == OpenAndClosed(old(byConnectionId), userId, isOpen).0
      ensures result.Keys == if userId in byUserId then byUserId[userId] else {}
      ensures forall id | id in result ::
        id in byConnectionId && result[id] == byConnectionId[id].socket && isOpen(result[id])
    {
      hide Without, Good, Dropped, OpenAndClosed, IdsOf;
      ghost var before := Now();
      ghost var live := OpenAndClosed(before.byConnectionId, userId, isOpen).0;
      ghost var closed := OpenAndClosed(before.byConnectionId, userId, isOpen).1;
      result := map[];
      WithoutNone(before);
      ListedIds(before, userId);
      ListedAfter(before, userId, isOpen);
      if userId !in byUserId { return; }
      var ids := byUserId[userId];
      var todo := ids;
      assert closed - todo == {} && live - todo == {};
      while todo != {}
        invariant todo <= ids && Now() == Without(before, closed - todo)
        invariant result.Keys == live - todo
        invariant forall id | id in result ::
          id in before.byConnectionId && result[id] == before.byConnectionId[id].socket
      {
        var id :| id in todo;
        OpenOrClosed(before.byConnectionId, userId, isOpen, id);
        RecordKept(before, closed - todo, id);
        Passed(closed, todo, id);
        Passed(live, todo, id);
        if isOpen(byConnectionId[id].socket) {
          result := result[id := byConnectionId[id].socket];
        } else {
          DropOneMore(before, closed - todo, id);
          var _ := RemoveConnectionById(id);
        }
        todo := todo - {id};
      }
      assert closed - todo == closed && live - todo == live;
      forall id | id in result
        ensures id in byConnectionId && result[id] == byConnectionId[id].socket && isOpen(result[id])
      {
        OpenOrClosed(before.byConnectionId, userId, isOpen, id);
        RecordKept(before, closed, id);
      }
    }

    method GetByConnectionId(id: string, isOpen: int -> bool) returns (socket: Option<int>)
      requires Good(Now())
      modifies this
      ensures var closed := id in ClosedOf(old(byConnectionId), isOpen);
              && Now() == (if closed then Without(old(Now()), {id}) else old(Now()))
              && socket == if id !in old(byConnectionId) || closed then None else Some(old(byConnectionId)[id].socket)
    {
      hide Without, Good, Dropped;
      if id !in byConnectionId { return None; }
      if isOpen(byConnectionId[id].socket) { return Some(byConnectionId[id].socket); }
      var _ := RemoveConnectionById(id);
      return None;
    }

    method TouchConnection(id: string, now: int) returns (touched: bool)
      modifies this
      ensures Now() == Touched(old(Now()), id, now) && (touched <==> id in old(byConnectionId))
    {
      if id !in byConnectionId { return false; }
      byConnectionId := byConnectionId[id := byConnectionId[id].(lastSeenAt := now)];
      return true;
    }

    /** Removes every closed connection and says how many there were. */
    method CleanupClosedConnections(isOpen: int -> bool) returns (removed: nat)
      requires Good(Now())
      modifies this
      ensures Now() == Without(old(Now()), ClosedOf(old(byConnectionId), isOpen))
      ensures removed == |ClosedOf(old(byConnectionId), isOpen)|
    {
      hide Without, Good, Dropped;
      ghost var before := Now();
      ghost var closed := ClosedOf(byConnectionId, isOpen);
      removed := 0;
      WithoutNone(before);
      var records := byConnectionId;
      var todo := records.Keys;
      assert closed - todo == {};
      while todo != {}
        invariant todo <= records.Keys && Now() == Without(before, closed - todo) && removed == |closed - todo|
      {
        var id :| id in todo;
        Passed(closed, todo, id);
        if !isOpen(records[id].socket) {
          RecordKept(before, closed - todo, id);
          DropOneMore(before, closed - todo, id);
          var dropped := RemoveConnectionById(id);
          if dropped {
            removed := removed + 1;
          }
        }
        todo := todo - {id};
      }
      assert closed - todo == closed;
    }

    method Clear()
      modifies this
      ensures Now() == Initial()
    {
      byConnectionId, byUserId := map[], map[];
    }
  }

  /** The open and the closed connections of a user. */
  function OpenAndClosed(records: Records, userId: string, isOpen: int -> bool): (set<string>, set<string>) {
    if userId == "" then ({}, {}) else
      (IdsOf(records, userId) - ClosedOf(records, isOpen), IdsOf(records, userId) * ClosedOf(records, isOpen))
  }

  lemma OpenOrClosed(records: Records, userId: string, isOpen: int -> bool, id: string)
    requires userId != "" && id in IdsOf(records, userId)
    ensures var both := OpenAndClosed(records, userId, isOpen);
            && id in records
            && (id in both.0 <==> isOpen(records[id].socket))
            && (id in both.1 <==> !isOpen(records[id].socket))
  {
  }

  lemma RecordKept(st: State, gone: set<string>, id: string)
    requires id in st.byConnectionId && id !in gone
    ensures var now := Without(st, gone).byConnectionId; id in now && now[id] == st.byConnectionId[id]
  {
  }

  /** No user without a name is ever listed. */
  lemma NamelessUnlisted(st: State)
    requires Good(st)
    ensures "" !in st.byUserId
  {
  }

  lemma UserGone(st: State, userId: string)
    ensures var now := Without(st, IdsOf(st.byConnectionId, userId));
            userId !in now.byUserId && now.byUserId - {userId} == now.byUserId
  {
    DroppedIds(st.byConnectionId, IdsOf(st.byConnectionId, userId), userId);
    UserListed(st.byConnectionId - IdsOf(st.byConnectionId, userId), userId);
  }

  lemma ListedAfter(st: State, userId: string, isOpen: int -> bool)
    ensures var both := OpenAndClosed(st.byConnectionId, userId, isOpen);
            var now := Without(st, both.1);
            && both.0 == (if userId in now.byUserId then now.byUserId[userId] else {})
            && (userId == "" || IdsOf(st.byConnectionId, userId) == {} ==> both == ({}, {}))
            && both.0 + both.1 <= IdsOf(st.byConnectionId, userId)
  {
    var both := OpenAndClosed(st.byConnectionId, userId, isOpen);
    DroppedIds(st.byConnectionId, both.1, userId);
    UserListed(st.byConnectionId - both.1, userId);
    if userId != "" {
      var ids := IdsOf(st.byConnectionId, userId);
      assert both.0 == ids - both.1;
      assert ids == {} ==> both.0 == {} && both.1 == {};
    }
  }

  // ---- runs ----

  /** `DropOp` stands for every method that removes some connections while going through a list. */
  datatype Op =
    | AddOp(id: string, userId: string, socket: int, now: int)
    | RemoveOp(id: string)
    | DropOp(gone: set<string>)
    | TouchOp(id: string, now: int)
    | ClearOp

  function Apply(op: Op, st: State): State {
    match op
    case AddOp(id, userId, socket, now) => Added(st, id, userId, socket, now)
    case RemoveOp(id) => Dropped(st, id)
    case DropOp(gone) => Without(st, gone)
    case TouchOp(id, now) => Touched(st, id, now)
    case ClearOp => Initial()
  }

  function After(ops: seq<Op>, n: nat): State
    requires n <= |ops|
  {
    if n == 0 then Initial() else Apply(ops[n - 1], After(ops, n - 1))
  }

  /** After every run the index by user is what a scan of all the records gives. */
  lemma {:induction false} UserIndexIsAlwaysAScan(ops: seq<Op>, n: nat)
    requires n <= |ops|
    ensures After(ops, n).byUserId == UserIndex(After(ops, n).byConnectionId)
  {
    if n > 0 {
      UserIndexIsAlwaysAScan(ops, n - 1);
      ApplyGood(ops[n - 1], After(ops, n - 1));
    }
  }

  lemma ApplyGood(op: Op, st: State)
    requires Good(st)
    ensures Good(Apply(op, st))
  {
    hide Added, Touched;
    match op
    case AddOp(id, userId, socket, now) => AddedGood(st, id, userId, socket, now);
    case RemoveOp(id) => DroppedIsWithout(st, id);
    case TouchOp(id, now) => TouchedGood(st, id, now);
    case _ =>
  }

  /** Every connection is listed under its last user and under nobody else. */
  lemma OneUserPerConnection(ops: seq<Op>, n: nat, id: string, userId: string)
    requires n <= |ops|
    ensures var st := After(ops, n);
            userId in st.byUserId && id in st.byUserId[userId]
            <==> id in st.byConnectionId && st.byConnectionId[id].userId == userId && userId != ""
  {
    UserIndexIsAlwaysAScan(ops, n);
    UserListed(After(ops, n).byConnectionId, userId);
  }

  /**
   The record of a connection after any operation: adding writes its user and socket and dates it, keeping the time
   it was first added; touching only dates it; a removed one has none; the others keep theirs.
   */
  lemma RecordChangesExactly(op: Op, st: State, id: string)
    ensures var before, after := st.byConnectionId, Apply(op, st).byConnectionId;
            match op
            case AddOp(x, userId, socket, now) =>
              if x == id && id != ""
              then (&& id in after && after[id].userId == userId && after[id].socket == socket
                    && after[id].lastSeenAt == now
                    && after[id].addedAt == (if id in before then before[id].addedAt else now))
              else SameRecord(before, after, id)
            case TouchOp(x, now) =>
              if x == id && id in before
              then id in after && after[id] == Record(before[id].userId, before[id].socket, before[id].addedAt, now)
              else SameRecord(before, after, id)
            case RemoveOp(x) => if x == id then id !in after else SameRecord(before, after, id)
            case DropOp(gone) => if id in gone then id !in after else SameRecord(before, after, id)
            case ClearOp => after == map[]
  {
    hide Unlisted, Listed, UserIndex;
  }

  predicate SameRecord(before: Records, after: Records, id: string) {
    (id in after <==> id in before) && (id in before ==> after[id] == before[id])
  }
}
