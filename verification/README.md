# Tic-tac-toe room registry, modelled in Dafny

This project models the room manager of the tic-tac-toe room service
(`gameroom/roommanager.go`). The room manager is an in-memory map from room id
to room. A room has an id, an owner, a second player and a game id. The
manager serves three requests:

- `CreateRoom` opens a room owned by the caller.
- `RoomInfo` looks a room up.
- `JoinRoom` fills a room's second seat and asks the game service for a game.

Every business outcome is a status code (`SUCCESS`, `ALREADY_IN_ROOM`,
`ROOM_NOT_FOUND`, `ROOM_FULL`). A request missing a required field is an error
instead of a reply.

`CreateRoom` and `JoinRoom` are pure functions from the registry before the
call to the registry after it plus the reply (`Registry.Transition`).
`RoomInfo` returns only the reply, since it never changes the registry. The two collaborators
are parameters:

- the UUID generator becomes the `newId` argument of `CreateRoom`;
- the gRPC game service becomes a function `createGame` from the two player
  ids to `Some(gameId)` or `None` (a failed call).

The central property is that no user id is seated in two rooms. It is proved
for every sequence of requests served one at a time (`RegistryInvariant`). The
Go code does not serve them one at a time, and `CreateRace` shows how its
unlocked check breaks the property (see "## Findings").

Files:

- `outcomes.dfy`: `Option` and `Result`.
- `rooms.dfy`: the room record, `join`, `userInRoom`.
- `registry.dfy`: the three operations, request validation, and the scan behind `isUserInAnyRoom`.
- `invariant.dfy`: the registry invariant and its preservation, per operation and over any request sequence.
- `scenarios.dfy`: properties that relate several calls.
- `create_race.dfy`: `CreateRoom` split into the two steps the Go code actually takes.

## Model

| member | source | states |
|---|---|---|
| `Rooms.NewRoom` | gameroom/roommanager.go:85-88 | A new room carries the generated id and the caller as owner; it is not full and has no game id. |
| `Rooms.Join` | gameroom/roommanager.go:37-43 | `join` fails with `ErrRoomFull` exactly when the second seat is taken. Otherwise the joining user takes the seat, and the id, owner and game id are unchanged. |
| `Rooms.JoinAtMostOnce` | gameroom/roommanager.go:37-43 | After one successful join by a non-empty user, every later join of that room fails with `ErrRoomFull`: a seat is handed out at most once. |
| `Rooms.UserInRoom` | gameroom/roommanager.go:183-185 | True exactly when the user is the room's owner or its second player, i.e. one of its two seats. While the second seat is open, the owner is the only non-empty user id the room holds. |
| `Registry.IsUserInAnyRoom` | gameroom/roommanager.go:174-185 | Scanning every room in map order returns true exactly when some room has the user as owner or second player. |
| `Registry.CreateRoom` | gameroom/roommanager.go:74-96 | An empty user id gives the missing-user-id error and no change. A user already seated anywhere gets `ALREADY_IN_ROOM` with an empty room id and no change. Otherwise the reply is `SUCCESS` with the generated id, and exactly that key is added, holding a fresh room owned by the user. All other entries are untouched, and the registry grows by one when the id is fresh. |
| `Registry.RoomInfo` | gameroom/roommanager.go:98-118 | An empty id gives the missing-room-id error. An unknown id gives `ROOM_NOT_FOUND` with no room. A stored id gives `SUCCESS` with a view whose id is the stored room's `ID`. The registry is not an output, so it cannot change. |
| `Registry.ValidateJoinRequest` | gameroom/roommanager.go:164-172 | A request is accepted exactly when both ids are non-empty. A missing room id is reported before a missing user id. |
| `Registry.AttachGame` | gameroom/roommanager.go:154-159 | A created game's id is recorded on the room. A failed call leaves the game id alone. Id and seats never change. |
| `Registry.JoinRoom` | gameroom/roommanager.go:120-162 | Each status holds exactly under its condition, with earlier checks masking later ones: validation, then `ROOM_NOT_FOUND`, then `ALREADY_IN_ROOM` (target room included, full or not), then `ROOM_FULL`. Every failure leaves the registry unchanged. `SUCCESS` changes only the target room: the second seat goes to the user, and the game id is set only if the game service, asked with [owner, user], created one. The reply carries that game id or "". |
| `RegistryInvariant.CreateRoomPreservesValid` | gameroom/roommanager.go:79-91 | With a fresh generated id, `CreateRoom` keeps four facts: keys equal room ids; owners are non-empty and differ from the second player; no user sits in two rooms; a room with an open seat has no game id. No room is removed or renamed, and full rooms keep their seat and game id. |
| `RegistryInvariant.JoinRoomPreservesValid` | gameroom/roommanager.go:129-161 | `JoinRoom` keeps the same invariant and the same evolution rule for any game-service answer. |
| `RegistryInvariant.RunPreservesValid` | gameroom/roommanager.go:74-162 | Any sequence of create, info and join requests, served one at a time with fresh generated ids, keeps the invariant. The final registry is an evolution of the first: rooms never disappear, and a filled seat never changes. |
| `RegistryInvariant.ReachableRegistriesAreValid` | gameroom/roommanager.go:65-72 | Starting from the empty registry `NewRoomManager` builds, no such sequence ever seats a user in two rooms. |
| `Scenarios.CreateThenInfo` | gameroom/roommanager.go:93-94 | A room id returned by a successful create is found by `RoomInfo`, which reports that same id. |
| `Scenarios.CreateTwice` | gameroom/roommanager.go:80-83 | Whatever the first create answered, a second create by the same user returns `ALREADY_IN_ROOM` with no room id and changes nothing. |
| `Scenarios.OwnerCannotJoinOwnRoom` | gameroom/roommanager.go:135-138 | A room's owner joining their own room gets `ALREADY_IN_ROOM`, and the registry is unchanged. |
| `Scenarios.AlreadyInRoomMasksRoomFull` | gameroom/roommanager.go:135-144 | A user seated anywhere who tries a full room gets `ALREADY_IN_ROOM`, not `ROOM_FULL`. |
| `Scenarios.JoinWithoutGameStillFillsRoom` | gameroom/roommanager.go:149-158 | In a valid registry, a join that passes every check (both ids given, room found and open, user in no room) succeeds with an empty game id in the reply when game creation fails. The seat is kept (no rollback), the room's game id is empty, and the next newcomer gets `ROOM_FULL`. |
| `Scenarios.JoinWithGameRecordsGameId` | gameroom/roommanager.go:156-158 | When game creation succeeds, its id is stored on the room and returned in the reply. |
| `Scenarios.InfoSurvivesLaterRequests` | gameroom/roommanager.go:107-116 | A room that `RoomInfo` finds stays findable under the same id after any later requests, fresh ids or not: a create that reuses the id stores a room with that same id. |
| `CreateRace.CreateCheck` | gameroom/roommanager.go:75-83 | The unlocked first step of `CreateRoom` admits the call exactly when the atomic `CreateRoom` on the same registry would reply `SUCCESS` with the generated id, whatever that id is. |
| `CreateRace.CreateCommit` | gameroom/roommanager.go:85-91 | The locked second step adds exactly the generated key, holding the new room, to whatever the registry is by then, and leaves the other entries alone. |
| `CreateRace.SplitCreateMatchesCreateRoom` | gameroom/roommanager.go:74-96 | With nothing served between the two steps, an admitted call ends exactly like the atomic `CreateRoom`: same registry, same `SUCCESS` reply. A refused call stores nothing, and the atomic `CreateRoom` then replies with the missing-user-id error or `ALREADY_IN_ROOM`. |
| `CreateRace.RacingCreatesDoubleBook` | gameroom/roommanager.go:80-91 | Two creates by one user that both pass the check before either stores its room leave the user owning two rooms. |
| `CreateRace.JoinDuringCreateDoubleBooks` | gameroom/roommanager.go:80-91 | If a create's check passes and a join by the same user completes before the create stores its room, the user ends up in two rooms. |
| `CreateRace.RaceFromEmptyRegistry` | gameroom/roommanager.go:80-91 | From the empty registry, two concurrent `CreateRoom("alice")` calls break the one-room-per-user invariant. |

## Findings

| source | as written | input that shows it | evidently intended | confidence | as-written member | corrected member |
|---|---|---|---|---|---|---|
| gameroom/roommanager.go:80-91 | `CreateRoom` calls `isUserInAnyRoom` at line 80, before it takes the lock at line 89, so the check and the store are two separate steps | two concurrent `CreateRoom("alice")` calls on an empty registry both pass the check, then both store a room: alice owns `room-1` and `room-2` | check and store under one lock hold, as `JoinRoom` does, so a user owns at most one room | not executed; the interleaving is allowed by the code as written | `CreateRace.RacingCreatesDoubleBook` | `Registry.CreateRoom` (atomic; proved by `RegistryInvariant.CreateRoomPreservesValid`) |

The scan at line 80 also reads the Go map without the lock while other
requests may be writing it. Go treats that as a data race, which this model
does not capture.

## Left out

- Locking and goroutine scheduling (`sync.Mutex`, gameroom/roommanager.go:58, 89-91, 104-105, 126-127): the registry model is sequential. The invariant is proved only for requests served one at a time. `CreateRace` models the two interleavings behind the finding (two racing creates, and a join between a create's check and its store), not a general scheduler.
- UUID generation (gameroom/roommanager.go:47-55): the generated id is the `newId` parameter. `CreateRoom` overwrites an existing key, as line 90 does. Freshness is a precondition of the invariant lemmas, standing in for UUID uniqueness. The race lemmas assume only that the generated ids differ (from each other, or from the room being joined).
- The nil game client: `NewRoomManager(nil)` at main.go:39 leaves the client nil, so the call at gameroom/roommanager.go:151 would panic on the first successful join. `createGame` is always a total function, so the model has no such panic.
- The gRPC `CreateGame` call, its `context`, and `glog` logging (gameroom/roommanager.go:151-155): the call is the `createGame` parameter, and a failure is `None`. The log line has no effect on state or reply, so it is not modelled.
- The `case err != nil` branch of `JoinRoom` (gameroom/roommanager.go:145-146): `join` returns no error other than `ErrRoomFull`, so the branch cannot be reached and the model has no counterpart.
- `RoomInfo` hands out only the room's id (gameroom/roommanager.go:114-116), not its seats or game id; the model's `RoomView` carries the id alone.
- Error message texts ("missing user id", "missing room id"): they are modelled as the constructors of `Registry.RequestError`.
- main.go: flag parsing, random seeding, the TCP listener and gRPC registration are process start-up, not registry logic.
- The protobuf request and reply types: they are replaced by the plain datatypes `CreateReply`, `InfoReply`, `JoinReply` and `Status`.
