/**
 Properties that relate several calls of the room manager: what a client
 observes when it creates, inspects and joins rooms one call after another.
 */
module Scenarios {
  import opened Outcomes
  import opened Rooms
  import opened Registry
  import opened RegistryInvariant

  /** A room just created is visible to `RoomInfo` under the id it was given. */
  lemma CreateThenInfo(reg: Registry, userId: string, newId: string)
    requires CreateRoom(reg, userId, newId).reply == Ok(CreateReply(Success, newId))
    requires newId != ""
    ensures RoomInfo(CreateRoom(reg, userId, newId).registry, newId)
              == Ok(InfoReply(Success, Some(RoomView(newId))))
  {
  }

  /** A user who has created a room cannot create a second one; the second call
      returns no room id and changes nothing. */
  lemma CreateTwice(reg: Registry, userId: string, id1: string, id2: string)
    requires CreateRoom(reg, userId, id1).reply.Ok?
    ensures var reg1 := CreateRoom(reg, userId, id1).registry;
            CreateRoom(reg1, userId, id2) == Transition(reg1, Ok(CreateReply(AlreadyInRoom, "")))
  {
  }

  /** The owner of a room cannot join it: "already in a room" is reported even
      though the room itself would have a free seat. */
  lemma OwnerCannotJoinOwnRoom(reg: Registry, roomId: string,
                               createGame: seq<string> -> Option<string>)
    requires roomId in reg && roomId != "" && reg[roomId].owner != ""
    ensures var t := JoinRoom(reg, roomId, reg[roomId].owner, createGame);
            t == Transition(reg, Ok(JoinReply(AlreadyInRoom, "")))
  {
  }

  /** A user seated anywhere gets "already in a room" even when the target room
      is full: that check comes before the full-room check. */
  lemma AlreadyInRoomMasksRoomFull(reg: Registry, roomId: string, userId: string, elsewhere: string,
                                   createGame: seq<string> -> Option<string>)
    requires roomId != "" && userId != ""
    requires roomId in reg && reg[roomId].IsFull()
    requires elsewhere in reg && UserInRoom(reg[elsewhere], userId)
    ensures JoinRoom(reg, roomId, userId, createGame).reply == Ok(JoinReply(AlreadyInRoom, ""))
  {
  }

  /** A join that passes every check succeeds even when the game service fails:
      the reply is `SUCCESS` with no game id, the seat is kept, the room keeps
      no game id, and the next newcomer finds the room full. */
  lemma JoinWithoutGameStillFillsRoom(reg: Registry, roomId: string, userId: string, nextUser: string,
                                      next: seq<string> -> Option<string>)
    requires Valid(reg)
    requires roomId != "" && userId != "" && roomId in reg
    requires !reg[roomId].IsFull() && !UserInAnyRoom(reg, userId)
    requires nextUser != "" && !UserInAnyRoom(reg, nextUser) && nextUser != userId
    ensures JoinRoom(reg, roomId, userId, _ => None).reply == Ok(JoinReply(Success, ""))
    ensures var reg1 := JoinRoom(reg, roomId, userId, _ => None).registry;
            && reg1[roomId].otherPlayer == userId
            && reg1[roomId].gameId == ""
            && JoinRoom(reg1, roomId, nextUser, next) == Transition(reg1, Ok(JoinReply(RoomFull, "")))
  {
  }

  /** When the game service creates a game, its id is both stored on the room
      and returned to the joining user. */
  lemma JoinWithGameRecordsGameId(reg: Registry, roomId: string, userId: string,
                                  createGame: seq<string> -> Option<string>)
    requires JoinRoom(reg, roomId, userId, createGame).reply.Ok?
    requires JoinRoom(reg, roomId, userId, createGame).reply.value.status == Success
    requires createGame([reg[roomId].owner, userId]).Some?
    ensures var t := JoinRoom(reg, roomId, userId, createGame);
            var g := createGame([reg[roomId].owner, userId]).value;
            t.reply.value.gameId == g && t.registry[roomId].gameId == g
  {
  }

  /** Rooms are never removed and never renamed: a room `RoomInfo` can see stays
      visible, with the same id, after any later requests. This needs no
      freshness of generated ids, because a create that reuses the id stores a
      room carrying that same id. */
  lemma {:induction false} InfoSurvivesLaterRequests(reg: Registry, roomId: string, reqs: seq<Request>)
    requires RoomInfo(reg, roomId) == Ok(InfoReply(Success, Some(RoomView(roomId))))
    ensures RoomInfo(Run(reg, reqs), roomId) == Ok(InfoReply(Success, Some(RoomView(roomId))))
    decreases |reqs|
  {
    if reqs != [] {
      InfoSurvivesLaterRequests(Apply(reg, reqs[0]), roomId, reqs[1..]);
    }
  }
}
