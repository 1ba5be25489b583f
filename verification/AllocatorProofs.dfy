/** The allocator takes the best valid server, whatever the order of the registry. */
module AllocatorProofs {
  import opened Common
  import opened JsMaps
  import opened ServerRecord
  import opened ServerRegistry
  import opened ServerRegistryRuns
  import opened Allocator

  /** The locale order puts no id before itself and is transitive; different ids may compare equal. */
  ghost predicate StrictOrder(before: (string, string) -> bool) {
    && (forall a :: !before(a, a))
    && (forall a, b, c :: before(a, b) && before(b, c) ==> before(a, c))
  }

  /** The locale order tells the ids of the registered servers apart. */
  ghost predicate Tells(before: (string, string) -> bool, reg: Registry) {
    forall a, b | a in reg.vals && b in reg.vals && a != b :: before(a, b) || before(b, a)
  }

  lemma BetterIsAnOrder(env: Env, a: Server, b: Server, c: Server, req: Request)
    requires StrictOrder(env.idBefore)
    ensures !Better(env, a, a, req)
    ensures Better(env, a, b, req) && Better(env, b, c, req) ==> Better(env, a, c, req)
    ensures env.idBefore(a.serverId, b.serverId) || env.idBefore(b.serverId, a.serverId) ==>
              Better(env, a, b, req) || Better(env, b, a, req)
  {
    hide Score, Waste;
  }

  /** Nothing in the list is better than the head of the sorted list. */
  lemma {:induction false} SortedHeadIsBest(env: Env, list: seq<Server>, req: Request)
    requires StrictOrder(env.idBefore) && list != []
    ensures var best := SortCandidates(env, list, req)[0];
            best in list && forall s | s in list :: !Better(env, s, best, req)
  {
    hide Better, StrictOrder;
    var init, last := list[..|list| - 1], list[|list| - 1];
    assert list == init + [last];
    BetterIsAnOrder(env, last, last, last, req);
    if init != [] {
      SortedHeadIsBest(env, init, req);
      var head := SortCandidates(env, init, req)[0];
      if Better(env, last, head, req) {
        forall s | s in init ensures !Better(env, s, last, req) {
          BetterIsAnOrder(env, s, last, head, req);
        }
      }
    }
  }

  // ---- which servers validate ----

  /** The status is allowed: online always, the others as the request says, and no other status at all. */
  predicate Welcome(status: Status, req: Request) {
    || status == Online
    || (status == Busy && req.allowBusy) || (status == Starting && req.allowStarting)
    || (status == Warm && req.allowWarm) || (status == Reserved && req.allowReserved)
    || (status == Claimed && req.allowClaimed)
  }

  /** The slots of the server that the request may use, and how many it asks for. */
  function Usable(s: Server, req: Request): int {
    Max(0, s.availableReservedSlots)
    + if req.roomId != "" && req.roomId in s.assignedRooms.vals
      then Max(0, Min(s.assignedRooms.vals[req.roomId], 1024)) else 0
  }

  function Needed(req: Request): int {
    Max(Max(1, Min(req.minFreeSlots, 1024)), Max(1, Min(req.roomMaxPlayers, 1024)))
  }

  /**
   A server validates if and only if its status is allowed, it has the slots, a held one is not held for another
   room, it is in the place, and it is healthy or warning where that is asked for and health is kept.
   */
  lemma ValidatesExactly(env: Env, s: Server, req: Request)
    ensures Validates(env, s, req) <==>
              && Welcome(s.status, req) && Usable(s, req) >= Needed(req)
              && (s.status in {Reserved, Claimed} && req.roomId != "" && s.roomId != "" ==> s.roomId == req.roomId)
              && (req.region != "" && s.region != "" ==> s.region == req.region)
              && (req.zone != "" && s.zone != "" ==> s.zone == req.zone)
              && (req.requireHealthy && env.health.Some? ==>
                   s.serverId != "" && s.serverId in env.health.value
                   && env.health.value[s.serverId] in {Healthy, Warning})
    ensures Waste(s, req) == Max(0, Usable(s, req) - Needed(req))
  {
  }

  /** What the place adds to the score: the weight of the region, and of the zone, where asked for and met. */
  lemma PlaceAddsExactly(env: Env, s: Server, req: Request)
    ensures var regional, zonal := req.region != "" && s.region == req.region, req.zone != "" && s.zone == req.zone;
            var rest := FitScore(Waste(s, req), s.maxPlayers, env.weights.capacity) + HealthScore(env, s);
            Score(env, s, req) - rest ==
              (if regional then env.weights.region else 0) + if zonal then env.weights.zone else 0
  {
    hide HealthScore, FitScore, Waste;
  }

  /** What health adds to the score: the whole weight, also where it is not known, half of it, or nothing. */
  lemma HealthAddsExactly(env: Env, s: Server, req: Request)
    ensures var weight := env.weights.health;
            var known := env.health.Some? && s.serverId != "" && s.serverId in env.health.value;
            var rest := PlaceScore(env, s, req) + FitScore(Waste(s, req), s.maxPlayers, env.weights.capacity);
            Score(env, s, req) - rest ==
              if !known || env.health.value[s.serverId] == Healthy then weight
              else if env.health.value[s.serverId] == Warning then (weight as real / 2.0 + 0.5).Floor
              else 0
  {
    hide PlaceScore, FitScore, Waste;
    assert env.weights.health as real * 0.5 == env.weights.health as real / 2.0;
  }

  /** A server in the running: registered, valid, and in the requested region if a valid one is. */
  ghost predicate InTheRunning(env: Env, reg: Registry, s: Server, req: Request) {
    && s in reg.vals.Values && Validates(env, s, req)
    && (req.region != "" && (exists x :: x in reg.vals.Values && Validates(env, x, req) && x.region == req.region)
        ==> s.region == req.region)
  }

  /** In the running, and no other server in the running is better. */
  ghost predicate Unbeaten(env: Env, reg: Registry, s: Server, req: Request) {
    InTheRunning(env, reg, s, req) && forall x | InTheRunning(env, reg, x, req) :: !Better(env, x, s, req)
  }

  lemma ListedServers(reg: Registry, s: Server)
    ensures s in ListServers(reg) <==> s in reg.vals.Values
  {
    var list := ListServers(reg);
    if s in list {
      var i :| 0 <= i < |list| && list[i] == s;
      assert reg.keys[i] in reg.vals;
    }
    if s in reg.vals.Values {
      var k :| k in reg.vals && reg.vals[k] == s;
      var i :| 0 <= i < |reg.keys| && reg.keys[i] == k;
      assert list[i] == s;
    }
  }

  lemma CandidatesAreInTheRunning(env: Env, reg: Registry, s: Server, req: Request)
    ensures s in FindCandidates(env, ListServers(reg), req) <==> InTheRunning(env, reg, s, req)
  {
    hide Validates, ListServers, ValidServers, InRegion;
    forall x ensures x in ListServers(reg) <==> x in reg.vals.Values {
      ListedServers(reg, x);
    }
    var valid := ValidServers(env, ListServers(reg), req);
    var regional := InRegion(valid, req.region);
    if regional != [] {
      assert regional[0] in valid && regional[0].region == req.region;
    }
  }

  /**
   With no usable preferred server, allocation fails exactly when no registered server validates; otherwise
   nothing in the running is better than its answer, which beats every other server in the running when the
   locale order tells the registered ids apart.
   */
  lemma AllocationIsBest(env: Env, reg: Registry, req: Request)
    requires StrictOrder(env.idBefore) && Good(reg) && !PreferredUsable(env, reg, req)
    ensures var a := AllocateServer(env, reg, req);
            && (a.NotAllocated? <==> forall s | s in reg.vals.Values :: !Validates(env, s, req))
            && (a.Allocated? ==> Unbeaten(env, reg, a.server, req))
            && (a.Allocated? && Tells(env.idBefore, reg) ==>
                  forall s | InTheRunning(env, reg, s, req) && s != a.server :: Better(env, a.server, s, req))
  {
    hide Better, StrictOrder, Validates, FindCandidates, Score, ListServers;
    var candidates := FindCandidates(env, ListServers(reg), req);
    forall s ensures s in candidates <==> InTheRunning(env, reg, s, req) {
      CandidatesAreInTheRunning(env, reg, s, req);
    }
    if candidates == [] {
      NoneRunning(env, reg, req);
    } else {
      SortedHeadIsBest(env, candidates, req);
      var best := SortCandidates(env, candidates, req)[0];
      forall s | InTheRunning(env, reg, s, req) && s != best && Tells(env.idBefore, reg)
        ensures Better(env, best, s, req)
      {
        DifferentIds(reg, best, s);
        BetterIsAnOrder(env, best, s, s, req);
      }
    }
  }

  lemma DifferentIds(reg: Registry, a: Server, b: Server)
    requires Good(reg) && a in reg.vals.Values && b in reg.vals.Values && a != b
    ensures a.serverId != b.serverId && a.serverId in reg.vals && b.serverId in reg.vals
  {
  }

  lemma NoneRunning(env: Env, reg: Registry, req: Request)
    requires forall s :: !InTheRunning(env, reg, s, req)
    ensures forall s | s in reg.vals.Values :: !Validates(env, s, req)
  {
    if s :| s in reg.vals.Values && Validates(env, s, req) {
      assert !InTheRunning(env, reg, s, req);
      var x :| x in reg.vals.Values && Validates(env, x, req) && x.region == req.region;
      assert InTheRunning(env, reg, x, req);
    }
  }

  /** Where the locale order tells the ids apart, the order of the registry never changes the answer. */
  lemma AllocationIgnoresOrder(env: Env, a: Registry, b: Registry, req: Request)
    requires StrictOrder(env.idBefore) && Good(a) && Tells(env.idBefore, a) && a.vals == b.vals
    ensures AllocateServer(env, a, req) == AllocateServer(env, b, req)
  {
    hide Better, StrictOrder, Validates, InTheRunning, Tells;
    if !PreferredUsable(env, a, req) {
      forall x, y | Unbeaten(env, a, x, req) && Unbeaten(env, a, y, req) ensures x == y {
        OneUnbeaten(env, a, x, y, req);
      }
      SameWhenOneUnbeaten(env, a, b, req);
    }
  }

  lemma OneUnbeaten(env: Env, reg: Registry, x: Server, y: Server, req: Request)
    requires StrictOrder(env.idBefore) && Good(reg) && Tells(env.idBefore, reg)
    requires Unbeaten(env, reg, x, req) && Unbeaten(env, reg, y, req)
    ensures x == y
  {
    hide Better, StrictOrder, Validates;
    if x != y {
      DifferentIds(reg, x, y);
      BetterIsAnOrder(env, x, y, x, req);
    }
  }

  lemma SameWhenOneUnbeaten(env: Env, a: Registry, b: Registry, req: Request)
    requires StrictOrder(env.idBefore) && Good(a) && a.vals == b.vals && !PreferredUsable(env, a, req)
    requires forall x, y | Unbeaten(env, a, x, req) && Unbeaten(env, a, y, req) :: x == y
    ensures AllocateServer(env, a, req) == AllocateServer(env, b, req)
  {
    hide Better, StrictOrder, Validates, Unbeaten, FindCandidates, SortCandidates, ListServers, Score;
    AllocationIsBest(env, a, req);
    AllocationIsBest(env, b, req);
    forall s ensures Unbeaten(env, a, s, req) <==> Unbeaten(env, b, s, req) {
      SameUnbeaten(env, a, b, s, req);
    }
  }

  lemma SameUnbeaten(env: Env, a: Registry, b: Registry, s: Server, req: Request)
    requires a.vals == b.vals
    ensures Unbeaten(env, a, s, req) <==> Unbeaten(env, b, s, req)
  {
    hide Better, Validates, InTheRunning;
    forall x ensures InTheRunning(env, a, x, req) <==> InTheRunning(env, b, x, req) {
      SameRunning(env, a, b, x, req);
    }
  }

  /**
   Exactly when the order of the registry does not matter: no two servers in the running are tied for best, in
   score, waste, reserved players and ids that compare equal.
   */
  lemma AllocationIgnoresOrderExactlyWhen(env: Env, reg: Registry, req: Request)
    requires StrictOrder(env.idBefore) && Good(reg) && !PreferredUsable(env, reg, req)
    ensures (forall other: Registry | other.vals == reg.vals ::
               AllocateServer(env, other, req) == AllocateServer(env, reg, req))
            <==> forall x, y | Unbeaten(env, reg, x, req) && Unbeaten(env, reg, y, req) :: x == y
  {
    hide Better, StrictOrder, Validates, InTheRunning, Unbeaten, AllocateServer, PreferredUsable;
    if forall x, y | Unbeaten(env, reg, x, req) && Unbeaten(env, reg, y, req) :: x == y {
      forall other: Registry | other.vals == reg.vals
        ensures AllocateServer(env, other, req) == AllocateServer(env, reg, req)
      {
        SameWhenOneUnbeaten(env, reg, other, req);
      }
    } else {
      var x, y :| Unbeaten(env, reg, x, req) && Unbeaten(env, reg, y, req) && x != y;
      ListedFirstWins(env, reg, x, req);
      ListedFirstWins(env, reg, y, req);
      assert AllocateServer(env, MovedFirst(reg, x.serverId), req) !=
        AllocateServer(env, MovedFirst(reg, y.serverId), req);
    }
  }

  /** The registry with one server moved to the front of its order. */
  function MovedFirst(reg: Registry, id: string): (r: Registry)
    ensures id in reg.vals ==> r.keys != [] && r.keys[0] == id
    ensures r.vals == reg.vals
  {
    if id !in reg.vals then reg else
      OnlyElements(reg.keys, reg.vals.Keys - {id});
      RawMap([id] + Only(reg.keys, reg.vals.Keys - {id}), reg.vals)
  }

  /** An unbeaten server that is listed first is chosen. */
  lemma ListedFirstWins(env: Env, reg: Registry, x: Server, req: Request)
    requires StrictOrder(env.idBefore) && Good(reg) && !PreferredUsable(env, reg, req) && Unbeaten(env, reg, x, req)
    ensures x.serverId in reg.vals
    ensures var a := AllocateServer(env, MovedFirst(reg, x.serverId), req); a.Allocated? && a.server == x
  {
    hide Better, StrictOrder, Validates, ListServers, ValidServers, InRegion;
    var id := x.serverId;
    DifferentIdsKey(reg, x);
    var moved := MovedFirst(reg, id);
    var list := ListServers(moved);
    assert list[0] == x;
    forall s ensures s in FindCandidates(env, list, req) <==> InTheRunning(env, reg, s, req) {
      CandidatesAreInTheRunning(env, moved, s, req);
      SameRunning(env, reg, moved, s, req);
    }
    ValidFirst(env, list, req);
    var valid := ValidServers(env, list, req);
    RegionFirst(valid, req.region);
    assert FindCandidates(env, list, req)[0] == x;
    FirstUnbeatenStaysFirst(env, FindCandidates(env, list, req), req);
  }

  lemma DifferentIdsKey(reg: Registry, x: Server)
    requires Good(reg) && x in reg.vals.Values
    ensures x.serverId in reg.vals && reg.vals[x.serverId] == x
  {
  }

  lemma {:induction false} ValidFirst(env: Env, list: seq<Server>, req: Request)
    requires list != [] && Validates(env, list[0], req)
    ensures ValidServers(env, list, req) != [] && ValidServers(env, list, req)[0] == list[0]
  {
    hide Validates;
    if |list| > 1 {
      ValidFirst(env, list[..|list| - 1], req);
    } else {
      assert ValidServers(env, list[..0], req) == [];
    }
  }

  lemma {:induction false} RegionFirst(list: seq<Server>, region: string)
    requires list != []
    ensures list[0].region == region ==> InRegion(list, region) != [] && InRegion(list, region)[0] == list[0]
  {
    if |list| > 1 {
      RegionFirst(list[..|list| - 1], region);
    } else {
      assert InRegion(list[..0], region) == [];
    }
  }

  lemma {:induction false} FirstUnbeatenStaysFirst(env: Env, list: seq<Server>, req: Request)
    requires list != [] && forall s | s in list :: !Better(env, s, list[0], req)
    ensures SortCandidates(env, list, req)[0] == list[0]
  {
    hide Better;
    if |list| > 1 {
      FirstUnbeatenStaysFirst(env, list[..|list| - 1], req);
    } else {
      assert SortCandidates(env, list[..0], req) == [];
    }
  }

  /** A server that registers with nothing but an id. */
  function Bare(id: string): RegisterRequest {
    RegisterRequest(id, "", None, None, Online, Absent, Absent, Empty(), Absent, None, Absent)
  }

  function Plain(): Defaults {
    Defaults("r", "z", 4)
  }

  /** The registry when `x` and then `y` have registered, at the same time. */
  function Pair(x: string, y: string): Registry {
    After([RegisterOp(Bare(x), 0), RegisterOp(Bare(y), 0)], Plain(), 2)
  }

  function TiedServer(id: string): Server {
    Server(id, "", "r", "z", Online, 4, 0, Empty(), 0, 4, 0, None, None)
  }

  /** No weights, no health store, and a locale in which all ids compare equal. */
  function TiedEnv(): Env {
    Env(Weights(0, 0, 0, 0), None, (a, b) => false)
  }

  function SmallRequest(): Request {
    Request("", "", "", "", 1, 1, false, false, false, false, false, false)
  }

  lemma TiedServerIsValid(id: string)
    ensures Validates(TiedEnv(), TiedServer(id), SmallRequest())
    ensures Score(TiedEnv(), TiedServer(id), SmallRequest()) == 0
    ensures Waste(TiedServer(id), SmallRequest()) == 3
  {
    assert FitRatio(3, 4) * 0.0 == 0.0;
  }

  lemma TiedServersAreEqual(x: string, y: string)
    ensures !Better(TiedEnv(), TiedServer(y), TiedServer(x), SmallRequest())
  {
    hide Score, Waste;
    TiedServerIsValid(x);
    TiedServerIsValid(y);
  }

  lemma BareRegisters(reg: Registry, id: string)
    requires id != "" && id !in reg.vals
    ensures Apply(RegisterOp(Bare(id), 0), reg, Plain()) == Put(reg, id, TiedServer(id))
  {
  }

  lemma PairListed(x: string, y: string)
    requires x != y && x != "" && y != ""
    ensures Pair(x, y) == Put(Put(Empty(), x, TiedServer(x)), y, TiedServer(y))
    ensures ListServers(Pair(x, y)) == [TiedServer(x), TiedServer(y)]
  {
    hide Apply;
    var ops := [RegisterOp(Bare(x), 0), RegisterOp(Bare(y), 0)];
    BareRegisters(Empty(), x);
    assert After(ops, Plain(), 1) == Apply(ops[0], After(ops, Plain(), 0), Plain());
    BareRegisters(After(ops, Plain(), 1), y);
  }

  /** Two servers alike but for ids that compare equal: the answer is the one that registered first. */
  lemma TiedServersFollowTheOrder(x: string, y: string)
    requires x != y && x != "" && y != ""
    ensures var env, req := TiedEnv(), SmallRequest();
            && StrictOrder(env.idBefore) && Pair(x, y).vals == Pair(y, x).vals
            && AllocateServer(env, Pair(x, y), req) == Allocated("server_allocated", TiedServer(x), 0)
            && AllocateServer(env, Pair(y, x), req) == Allocated("server_allocated", TiedServer(y), 0)
  {
    hide TiedServer, Pair, Validates, Better, Score, Waste, AllocateServer, ListServers;
    TiedServerIsValid(x);
    TiedServerIsValid(y);
    TiedServersAreEqual(x, y);
    TiedServersAreEqual(y, x);
    PairListed(x, y);
    PairListed(y, x);
    AllocatesFirst(TiedEnv(), Pair(x, y), TiedServer(x), TiedServer(y), SmallRequest());
    AllocatesFirst(TiedEnv(), Pair(y, x), TiedServer(y), TiedServer(x), SmallRequest());
  }

  lemma AllocatesFirst(env: Env, reg: Registry, x: Server, y: Server, req: Request)
    requires ListServers(reg) == [x, y] && req.preferredServerId == "" && req.region == ""
    requires Validates(env, x, req) && Validates(env, y, req) && !Better(env, y, x, req)
    ensures AllocateServer(env, reg, req) == Allocated("server_allocated", x, Score(env, x, req))
  {
    hide Validates, Better, Score;
    assert [x, y][..1] == [x] && [x][..0] == [];
    assert ValidServers(env, [], req) == [] && ValidServers(env, [x], req) == [x]
      && ValidServers(env, [x, y], req) == [x, y];
    assert SortCandidates(env, [], req) == [] && SortCandidates(env, [x], req) == [x];
  }

  lemma SameRunning(env: Env, a: Registry, b: Registry, s: Server, req: Request)
    requires a.vals == b.vals
    ensures InTheRunning(env, a, s, req) <==> InTheRunning(env, b, s, req)
  {
  }

  // ---- best fit ----

  lemma RoundMonotone(x: real, y: real)
    requires x <= y
    ensures RoundHalfUp(x) <= RoundHalfUp(y)
  {
  }

  /** Wasting less never scores less. */
  lemma FitMonotone(less: int, more: int, maxPlayers: int, weight: int)
    requires 0 <= less <= more && weight >= 0
    ensures FitScore(more, maxPlayers, weight) <= FitScore(less, maxPlayers, weight)
  {
    var a, b := FitRatio(more, maxPlayers), FitRatio(less, maxPlayers);
    if maxPlayers > 0 {
      DivideMonotone(less as real, more as real, maxPlayers as real);
    }
    TimesMonotone(a, b, weight as real);
    RoundMonotone(a * weight as real, b * weight as real);
  }

  lemma DivideMonotone(x: real, y: real, m: real)
    requires x <= y && m > 0.0
    ensures x / m <= y / m
  {
  }

  lemma TimesMonotone(a: real, b: real, w: real)
    requires a <= b && w >= 0.0
    ensures a * w <= b * w
  {
  }

  /**
   What the score rewards: being in the requested region or zone earns exactly its weight, wasting nothing earns
   the whole capacity weight and wasting the whole server none of it.
   */
  lemma ScoreRewards(env: Env, s: Server, req: Request)
    requires s.maxPlayers >= 1
    ensures req.region != "" && s.region != req.region ==>
              Score(env, s.(region := req.region), req) == Score(env, s, req) + env.weights.region
    ensures req.zone != "" && s.zone != req.zone ==>
              Score(env, s.(zone := req.zone), req) == Score(env, s, req) + env.weights.zone
    ensures Waste(s, req) == 0 ==>
              Score(env, s, req) == PlaceScore(env, s, req) + env.weights.capacity + HealthScore(env, s)
    ensures Waste(s, req) >= s.maxPlayers ==> Score(env, s, req) == PlaceScore(env, s, req) + HealthScore(env, s)
  {
    hide Waste;
    WasteIgnoresPlace(s, req);
    FitExtremes(Waste(s, req), s.maxPlayers, env.weights.capacity);
    hide FitScore;
  }

  /** No server scores below nothing or above all the weights together. */
  lemma ScoreWithinWeights(env: Env, s: Server, req: Request)
    requires s.maxPlayers >= 1
    requires env.weights.region >= 0 && env.weights.zone >= 0 && env.weights.capacity >= 0 && env.weights.health >= 0
    ensures var w := env.weights; 0 <= Score(env, s, req) <= w.region + w.zone + w.capacity + w.health
  {
    hide Waste;
    WasteIsNat(s, req);
    FitMonotone(0, Waste(s, req), s.maxPlayers, env.weights.capacity);
    FitMonotone(Waste(s, req), Max(Waste(s, req), s.maxPlayers), s.maxPlayers, env.weights.capacity);
    FitExtremes(0, s.maxPlayers, env.weights.capacity);
    FitExtremes(Max(Waste(s, req), s.maxPlayers), s.maxPlayers, env.weights.capacity);
    hide FitScore;
  }

  lemma WasteIgnoresPlace(s: Server, req: Request)
    ensures Waste(s.(region := req.region), req) == Waste(s, req) == Waste(s.(zone := req.zone), req)
    ensures Waste(s, req) >= 0
  {
  }

  lemma FitExtremes(waste: int, maxPlayers: int, weight: int)
    requires waste >= 0 && maxPlayers >= 1
    ensures waste == 0 ==> FitScore(waste, maxPlayers, weight) == weight
    ensures waste >= maxPlayers ==> FitScore(waste, maxPlayers, weight) == 0
  {
    if waste >= maxPlayers {
      DivideMonotone(maxPlayers as real, waste as real, maxPlayers as real);
      assert maxPlayers as real / maxPlayers as real == 1.0;
      assert FitRatio(waste, maxPlayers) == 0.0;
      assert 0.0 * weight as real == 0.0;
    }
    if waste == 0 {
      assert FitRatio(waste, maxPlayers) == 1.0;
      assert 1.0 * weight as real == weight as real;
    }
  }

  lemma LessWasteScoresNoLess(env: Env, a: Server, b: Server, req: Request)
    requires a.maxPlayers == b.maxPlayers && PlaceScore(env, a, req) == PlaceScore(env, b, req)
    requires HealthScore(env, a) == HealthScore(env, b) && env.weights.capacity >= 0
    requires Waste(a, req) <= Waste(b, req)
    ensures Score(env, a, req) >= Score(env, b, req)
  {
    hide PlaceScore, HealthScore, FitScore, Waste;
    WasteIsNat(a, req);
    FitMonotone(Waste(a, req), Waste(b, req), a.maxPlayers, env.weights.capacity);
  }

  lemma WasteIsNat(s: Server, req: Request)
    ensures Waste(s, req) >= 0
  {
  }

  /** Two servers that only the fit of the room can tell apart in the score. */
  predicate LikeServers(env: Env, a: Server, b: Server, req: Request) {
    a.maxPlayers == b.maxPlayers && PlaceScore(env, a, req) == PlaceScore(env, b, req)
      && HealthScore(env, a) == HealthScore(env, b)
  }

  /**
   Best fit: among the servers in the running that have the size, place score and health score of
   the chosen one, none would waste fewer slots.
   */
  lemma AllocationIsBestFit(env: Env, reg: Registry, req: Request, s: Server)
    requires StrictOrder(env.idBefore) && Good(reg) && !PreferredUsable(env, reg, req)
    requires env.weights.capacity >= 0
    ensures var a := AllocateServer(env, reg, req);
            a.Allocated? && InTheRunning(env, reg, s, req) && LikeServers(env, s, a.server, req) ==>
              Waste(a.server, req) <= Waste(s, req)
  {
    hide StrictOrder, AllocateServer, InTheRunning, Good;
    AllocationIsBest(env, reg, req);
    var a := AllocateServer(env, reg, req);
    if a.Allocated? && InTheRunning(env, reg, s, req) && LikeServers(env, s, a.server, req) {
      assert !Better(env, s, a.server, req);
      if Waste(s, req) < Waste(a.server, req) {
        LessWasteScoresNoLess(env, s, a.server, req);
        assert false;
      }
    }
  }
}
