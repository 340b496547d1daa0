/**
 The registry invariant — no user sits in two rooms — and its preservation
 by every operation, for any sequence of requests served one after another.
 */
module RegistryInvariant {
  import opened Outcomes
  import opened Rooms
  import opened Registry

  /** Every room is stored under its own id. */
  ghost predicate KeysMatchIds(reg: Registry) {
    forall k | k in reg :: reg[k].id == k
  }

  /** Every room has a non-empty owner, distinct from its second player. */
  ghost predicate SeatsDistinct(reg: Registry) {
    forall k | k in reg :: reg[k].owner != "" && reg[k].owner != reg[k].otherPlayer
  }

  /** No (non-empty) user id is seated in two different rooms. */
  ghost predicate OneRoomPerUser(reg: Registry) {
    forall k1, k2, u | k1 in reg && k2 in reg && u != "" ::
      UserInRoom(reg[k1], u) && UserInRoom(reg[k2], u) ==> k1 == k2
  }

  /** A room whose second seat is open has no game: a game id is only ever
      recorded by the join that fills the seat. */
  ghost predicate OpenRoomsHaveNoGame(reg: Registry) {
    forall k | k in reg :: !reg[k].IsFull() ==> reg[k].gameId == ""
  }

  ghost predicate Valid(reg: Registry) {
    KeysMatchIds(reg) && SeatsDistinct(reg) && OneRoomPerUser(reg) && OpenRoomsHaveNoGame(reg)
  }

  /** How a registry may change over time: rooms are never removed, a room's id
      and owner never change, and a full room keeps its second player and its
      game id for good. */
  ghost predicate Evolves(before: Registry, after: Registry) {
    && before.Keys <= after.Keys
    && forall k | k in before ::
         && after[k].id == before[k].id
         && after[k].owner == before[k].owner
         && (before[k].IsFull() ==>
               after[k].otherPlayer == before[k].otherPlayer && after[k].gameId == before[k].gameId)
  }

  lemma EmptyIsValid()
    ensures Valid(map[])
  {
  }

  lemma EvolvesTransitive(a: Registry, b: Registry, c: Registry)
    requires Evolves(a, b) && Evolves(b, c)
    ensures Evolves(a, c)
  {
  }

  /** Creating a room with a fresh id keeps the registry valid. */
  lemma CreateRoomPreservesValid(reg: Registry, userId: string, newId: string)
    requires Valid(reg)
    requires newId !in reg
    ensures Valid(CreateRoom(reg, userId, newId).registry)
    ensures Evolves(reg, CreateRoom(reg, userId, newId).registry)
  {
  }

  /** Joining a room keeps the registry valid, whatever the game service does. */
  lemma JoinRoomPreservesValid(reg: Registry, roomId: string, userId: string,
                               createGame: seq<string> -> Option<string>)
    requires Valid(reg)
    ensures Valid(JoinRoom(reg, roomId, userId, createGame).registry)
    ensures Evolves(reg, JoinRoom(reg, roomId, userId, createGame).registry)
  {
  }

  /** One request to the room manager, with its collaborators' answers. */
  datatype Request =
    | CreateRequest(userId: string, newId: string)
    | InfoRequest(roomId: string)
    | JoinRequest(roomId: string, userId: string, createGame: seq<string> -> Option<string>)

  /** The registry after serving `req`. */
  function Apply(reg: Registry, req: Request): Registry {
    match req
    case CreateRequest(u, id) => CreateRoom(reg, u, id).registry
    case InfoRequest(_) => reg
    case JoinRequest(r, u, g) => JoinRoom(reg, r, u, g).registry
  }

  /** The registry after serving `reqs` one after another. */
  function Run(reg: Registry, reqs: seq<Request>): Registry
    decreases |reqs|
  {
    if reqs == [] then reg else Run(Apply(reg, reqs[0]), reqs[1..])
  }

  /** Every id the generator hands out is not yet a room id. */
  ghost predicate FreshIds(reg: Registry, reqs: seq<Request>)
    decreases |reqs|
  {
    reqs != [] ==>
      (reqs[0].CreateRequest? ==> reqs[0].newId !in reg)
      && FreshIds(Apply(reg, reqs[0]), reqs[1..])
  }

  lemma ApplyPreservesValid(reg: Registry, req: Request)
    requires Valid(reg)
    requires req.CreateRequest? ==> req.newId !in reg
    ensures Valid(Apply(reg, req)) && Evolves(reg, Apply(reg, req))
  {
    match req
    case CreateRequest(u, id) => CreateRoomPreservesValid(reg, u, id);
    case InfoRequest(_) =>
    case JoinRequest(r, u, g) => JoinRoomPreservesValid(reg, r, u, g);
  }

  /** Served one at a time, with fresh generated ids, any sequence of requests
      keeps the registry valid and only lets it evolve. */
  lemma {:induction false} RunPreservesValid(reg: Registry, reqs: seq<Request>)
    requires Valid(reg)
    requires FreshIds(reg, reqs)
    ensures Valid(Run(reg, reqs))
    ensures Evolves(reg, Run(reg, reqs))
    decreases |reqs|
  {
    if reqs != [] {
      var next := Apply(reg, reqs[0]);
      ApplyPreservesValid(reg, reqs[0]);
      RunPreservesValid(next, reqs[1..]);
      EvolvesTransitive(reg, next, Run(next, reqs[1..]));
    }
  }

  /** From the empty registry the service starts with, no sequence of requests
      ever seats a user in two rooms. */
  lemma ReachableRegistriesAreValid(reqs: seq<Request>)
    requires FreshIds(map[], reqs)
    ensures Valid(Run(map[], reqs))
  {
    EmptyIsValid();
    RunPreservesValid(map[], reqs);
  }
}
