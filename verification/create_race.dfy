/**
 `CreateRoom` as the Go code runs it under concurrent requests: the
 "already in a room" check reads the registry before the lock is taken, and
 the new room is stored later, under the lock. Two steps instead of one, so
 other requests can be served in between.
 */
module CreateRace {
  import opened Outcomes
  import opened Rooms
  import opened Registry
  import opened RegistryInvariant

  /** The first step: validation and the membership check, outside the lock.
      It admits the call exactly when the atomic `CreateRoom` on the same
      registry would succeed, whatever id is generated. */
  function CreateCheck(reg: Registry, userId: string): (admitted: bool)
    ensures forall id :: admitted <==> CreateRoom(reg, userId, id).reply == Ok(CreateReply(Success, id))
  {
    userId != "" && !UserInAnyRoom(reg, userId)
  }

  /** The second step: storing the new room, under the lock, into whatever the
      registry has become by then. */
  function CreateCommit(reg: Registry, userId: string, newId: string): (reg': Registry)
    ensures reg'.Keys == reg.Keys + {newId}
    ensures reg'[newId] == NewRoom(newId, userId)
    ensures forall k | k in reg && k != newId :: reg'[k] == reg[k]
  {
    reg[newId := NewRoom(newId, userId)]
  }

  /** With nothing served in between, an admitted call ends exactly like the
      atomic `CreateRoom`; a refused one stores nothing, as `CreateRoom`'s
      error and `ALREADY_IN_ROOM` replies do. */
  lemma SplitCreateMatchesCreateRoom(reg: Registry, userId: string, newId: string)
    ensures CreateCheck(reg, userId) ==>
              CreateRoom(reg, userId, newId) == Transition(CreateCommit(reg, userId, newId), Ok(CreateReply(Success, newId)))
    ensures !CreateCheck(reg, userId) ==>
              && CreateRoom(reg, userId, newId).registry == reg
              && CreateRoom(reg, userId, newId).reply in {Err(MissingUserId), Ok(CreateReply(AlreadyInRoom, ""))}
  {
  }

  /** Two concurrent creates for one user both pass the check on the same
      registry, and both store a room: the user now owns two rooms. */
  lemma RacingCreatesDoubleBook(reg: Registry, userId: string, id1: string, id2: string)
    requires CreateCheck(reg, userId)
    requires id1 != id2
    ensures var reg2 := CreateCommit(CreateCommit(reg, userId, id1), userId, id2);
            && UserInRoom(reg2[id1], userId) && UserInRoom(reg2[id2], userId)
            && !OneRoomPerUser(reg2)
  {
    var reg2 := CreateCommit(CreateCommit(reg, userId, id1), userId, id2);
    assert UserInRoom(reg2[id1], userId) && UserInRoom(reg2[id2], userId) && id1 != id2;
  }

  /** A create whose check passes, then a join by the same user served before
      the create stores its room: the user ends up seated in two rooms. */
  lemma JoinDuringCreateDoubleBooks(reg: Registry, roomId: string, userId: string, newId: string,
                                    createGame: seq<string> -> Option<string>)
    requires CreateCheck(reg, userId)
    requires JoinRoom(reg, roomId, userId, createGame).reply.Ok?
    requires JoinRoom(reg, roomId, userId, createGame).reply.value.status == Success
    requires newId != roomId
    ensures var reg2 := CreateCommit(JoinRoom(reg, roomId, userId, createGame).registry, userId, newId);
            && UserInRoom(reg2[roomId], userId) && UserInRoom(reg2[newId], userId)
            && !OneRoomPerUser(reg2)
  {
    var reg2 := CreateCommit(JoinRoom(reg, roomId, userId, createGame).registry, userId, newId);
    assert UserInRoom(reg2[roomId], userId) && UserInRoom(reg2[newId], userId) && roomId != newId;
  }

  /** The double booking is reachable from the empty registry the service starts
      with, by two concurrent `CreateRoom("alice")` calls. */
  lemma RaceFromEmptyRegistry()
    ensures CreateCheck(map[], "alice")
    ensures !OneRoomPerUser(CreateCommit(CreateCommit(map[], "alice", "room-1"), "alice", "room-2"))
  {
    RacingCreatesDoubleBook(map[], "alice", "room-1", "room-2");
  }
}
