/**
 The room manager: an in-memory map from room id to room and its three
 request/reply operations, each a pure transition from the registry before
 the call to the registry after it and the reply (or validation error).

 The two collaborators of the Go code are parameters: the id the UUID
 generator would produce (`newId`), and the game service, a function from the
 two player ids to a game id or a failure (`createGame`).
 */
module Registry {
  import opened Outcomes
  import opened Rooms

  /** All rooms, keyed by room id. */
  type Registry = map<string, Room>

  /** The reply status codes of the service. */
  datatype Status = Success | AlreadyInRoom | RoomNotFound | RoomFull

  /** The malformed-request errors, returned instead of a reply. */
  datatype RequestError = MissingUserId | MissingRoomId

  datatype CreateReply = CreateReply(status: Status, roomId: string)

  /** The public view of a room that `RoomInfo` hands out. */
  datatype RoomView = RoomView(id: string)

  datatype InfoReply = InfoReply(status: Status, room: Option<RoomView>)

  datatype JoinReply = JoinReply(status: Status, gameId: string)

  /** What an operation leaves behind: the registry after the call and the reply. */
  datatype Transition<R> = Transition(registry: Registry, reply: Result<R, RequestError>)

  /** A user "is in a room" when some room seats them as owner or second player. */
  predicate UserInAnyRoom(reg: Registry, userId: string) {
    exists k | k in reg :: UserInRoom(reg[k], userId)
  }

  /** The scan over every room that decides `UserInAnyRoom`, visiting the rooms
      in whatever order the map yields them. */
  method IsUserInAnyRoom(reg: Registry, userId: string) returns (found: bool)
    ensures found <==> UserInAnyRoom(reg, userId)
  {
    var unvisited := reg.Keys;
    while unvisited != {}
      invariant unvisited <= reg.Keys
      invariant forall k | k in reg.Keys - unvisited :: !UserInRoom(reg[k], userId)
      decreases unvisited
    {
      var k :| k in unvisited;
      if UserInRoom(reg[k], userId) {
        return true;
      }
      unvisited := unvisited - {k};
    }
    return false;
  }

  /** Creates a room owned by `userId` under the generated id `newId`. An
      existing entry under `newId` is overwritten, as the Go map store does. */
  function CreateRoom(reg: Registry, userId: string, newId: string): (t: Transition<CreateReply>)
    ensures userId == "" ==> t == Transition(reg, Err(MissingUserId))
    ensures userId != "" && UserInAnyRoom(reg, userId) ==>
              t == Transition(reg, Ok(CreateReply(AlreadyInRoom, "")))
    ensures userId != "" && !UserInAnyRoom(reg, userId) ==>
              && t.reply == Ok(CreateReply(Success, newId))
              && t.registry.Keys == reg.Keys + {newId}
              && t.registry[newId] == NewRoom(newId, userId)
              && (forall k | k in reg && k != newId :: t.registry[k] == reg[k])
    ensures newId !in reg && t.reply == Ok(CreateReply(Success, newId)) ==> |t.registry| == |reg| + 1
  {
    if userId == "" then
      Transition(reg, Err(MissingUserId))
    else if UserInAnyRoom(reg, userId) then
      Transition(reg, Ok(CreateReply(AlreadyInRoom, "")))
    else
      Transition(reg[newId := NewRoom(newId, userId)], Ok(CreateReply(Success, newId)))
  }

  /** Looks a room up; the registry is not an output, so it cannot change. */
  function RoomInfo(reg: Registry, roomId: string): (res: Result<InfoReply, RequestError>)
    ensures roomId == "" <==> res == Err(MissingRoomId)
    ensures res == Ok(InfoReply(RoomNotFound, None)) <==> roomId != "" && roomId !in reg
    ensures res.Ok? && res.value.status == Success <==> roomId != "" && roomId in reg
    ensures res.Ok? && res.value.status == Success ==> res.value.room == Some(RoomView(reg[roomId].id))
  {
    if roomId == "" then Err(MissingRoomId)
    else if roomId !in reg then Ok(InfoReply(RoomNotFound, None))
    else Ok(InfoReply(Success, Some(RoomView(reg[roomId].id))))
  }

  /** Checks that a join request names both a room and a user, the room first. */
  function ValidateJoinRequest(roomId: string, userId: string): (err: Option<RequestError>)
    ensures err.None? <==> roomId != "" && userId != ""
    ensures err == Some(MissingRoomId) <==> roomId == ""
    ensures err == Some(MissingUserId) <==> roomId != "" && userId == ""
  {
    if roomId == "" then Some(MissingRoomId)
    else if userId == "" then Some(MissingUserId)
    else None
  }

  /** The room after a successful join once the game service has answered:
      a game id is recorded only when a game was created. */
  function AttachGame(r: Room, game: Option<string>): (r': Room)
    ensures r'.id == r.id && r'.owner == r.owner && r'.otherPlayer == r.otherPlayer
    ensures r'.gameId == (if game.Some? then game.value else r.gameId)
  {
    match game
    case Some(g) => r.(gameId := g)
    case None => r
  }

  /** Seats `userId` in room `roomId`. Validation, the room lookup, the
      "already in a room" check and the full-room check run in that order, the
      first failure deciding the reply. A join that passes them all succeeds
      whatever the game service answers, and is never undone. */
  function JoinRoom(reg: Registry, roomId: string, userId: string,
                    createGame: seq<string> -> Option<string>): (t: Transition<JoinReply>)
    ensures ValidateJoinRequest(roomId, userId).Some? ==>
              t == Transition(reg, Err(ValidateJoinRequest(roomId, userId).value))
    ensures t.reply == Ok(JoinReply(RoomNotFound, "")) <==>
              roomId != "" && userId != "" && roomId !in reg
    ensures t.reply == Ok(JoinReply(AlreadyInRoom, "")) <==>
              roomId != "" && userId != "" && roomId in reg && UserInAnyRoom(reg, userId)
    ensures t.reply == Ok(JoinReply(RoomFull, "")) <==>
              roomId != "" && userId != "" && roomId in reg && !UserInAnyRoom(reg, userId)
              && reg[roomId].IsFull()
    ensures t.reply.Ok? && t.reply.value.status != Success ==> t.registry == reg
    ensures t.reply.Ok? && t.reply.value.status == Success <==>
              roomId != "" && userId != "" && roomId in reg && !UserInAnyRoom(reg, userId)
              && !reg[roomId].IsFull()
    ensures t.reply.Ok? && t.reply.value.status == Success ==>
              var game := createGame([reg[roomId].owner, userId]);
              && t.registry.Keys == reg.Keys
              && (forall k | k in reg && k != roomId :: t.registry[k] == reg[k])
              && t.registry[roomId] == reg[roomId].(otherPlayer := userId, gameId := game.ValueOr(reg[roomId].gameId))
              && t.reply.value.gameId == game.ValueOr("")
  {
    match ValidateJoinRequest(roomId, userId)
    case Some(err) => Transition(reg, Err(err))
    case None =>
      if roomId !in reg then
        Transition(reg, Ok(JoinReply(RoomNotFound, "")))
      else if UserInAnyRoom(reg, userId) then
        Transition(reg, Ok(JoinReply(AlreadyInRoom, "")))
      else
        match Join(reg[roomId], userId)
        case Err(ErrRoomFull) => Transition(reg, Ok(JoinReply(RoomFull, "")))
        case Ok(joined) =>
          var game := createGame([joined.owner, joined.otherPlayer]);
          Transition(reg[roomId := AttachGame(joined, game)],
                     Ok(JoinReply(Success, game.ValueOr(""))))
  }
}
