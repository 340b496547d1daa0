/**
 The room record of the tic-tac-toe room service and its one mutating
 operation, `join`, which fills the second seat.
 */
module Rooms {
  import opened Outcomes

  /** A room: its id, the user who created it, the user who joined it ("" while
      the seat is open) and the id of the game created for the pair ("" until
      one was created). */
  datatype Room = Room(id: string, owner: string, otherPlayer: string, gameId: string)
  {
    /** A room whose second seat is taken refuses every further join. */
    predicate IsFull() {
      otherPlayer != ""
    }
  }

  /** The only error `join` reports. */
  datatype JoinError = ErrRoomFull

  /** A freshly created room: owned by `userId`, second seat open, no game. */
  function NewRoom(id: string, userId: string): (r: Room)
    ensures r.id == id && r.owner == userId
    ensures !r.IsFull() && r.gameId == ""
  {
    Room(id, userId, "", "")
  }

  /** Whether `userId` sits in either seat of `r`. While the second seat is
      open, the owner is the only real user the room holds. */
  function UserInRoom(r: Room, userId: string): (seated: bool)
    // Definitional: the seats of a room as a set.
    ensures seated <==> userId in {r.owner, r.otherPlayer}
    ensures !r.IsFull() && userId != "" ==> (seated <==> userId == r.owner)
  {
    r.owner == userId || r.otherPlayer == userId
  }

  /** Takes the second seat for `userId`, or fails with `ErrRoomFull` when it is
      already taken; the id, the owner and the game id never change. */
  function Join(r: Room, userId: string): (res: Result<Room, JoinError>)
    ensures res.Err? <==> r.IsFull()
    ensures res.Ok? ==> res.value.otherPlayer == userId
    ensures res.Ok? ==> res.value.id == r.id && res.value.owner == r.owner && res.value.gameId == r.gameId
  {
    if r.otherPlayer != "" then Err(ErrRoomFull)
    else Ok(r.(otherPlayer := userId))
  }

  /** A seat, once filled by a non-empty user, is never handed out again:
      a second join of the same room fails whoever asks. */
  lemma JoinAtMostOnce(r: Room, first: string, second: string)
    requires first != ""
    requires Join(r, first).Ok?
    ensures Join(Join(r, first).value, second) == Err(ErrRoomFull)
  {
  }
}
