# Room membership of the buzzer game server

This project models how a game room of the rtc-game-buzzer server admits
players. A `Game` keeps an ordered roster `players` and a `host`.
`Game.AddPlayer` has two possible outcomes:

- It rejects a player whose name is already on the roster with the error
  "name duplicate" and changes nothing.
- Otherwise it admits the player. It sets the player as host if the roster
  was empty, appends the player to the roster in every case, and starts the
  player's read and write pumps.

The model is in `room.dfy`, in the module `Room`, in two layers:

- A value-level specification. `Add` is one join. `JoinAll` is a sequence of
  joins. `WellFormed` is the invariant they keep: names are pairwise distinct,
  an empty room has no host, and otherwise the host is the first player on the
  roster.
- The class `Game`. It has the fields `host`, `players` and `locked`, and a
  ghost set `pumped` for the players whose pumps have been started.
  `Game.AddPlayer` scans the roster with a loop, as the source does, and
  updates the fields in place. Its contract proves that it performs exactly
  the step `Add` describes.

The model follows what the code does:

- `locked` is never read, so a locked room still admits players.
- A player's `isHost` flag is never set. The host is recorded only in the
  room's `host` field.
- The only error is the duplicate name. There is no "room locked" error.

The `Locked` field and the `IsHost` flag suggest an enforced lock and a
flagged host. The code implements neither, and this model follows the code.

## Model

| member | source | states |
|---|---|---|
| Room.Add | server/src/room/game.go:101-117 | A join fails exactly when some roster entry has the same name (exact string equality). A failure returns the "name duplicate" error and leaves host and roster unchanged. A success appends the player at the end and keeps every earlier entry in place. An empty room makes the joiner host; a non-empty room keeps its host. A well-formed room stays well formed. |
| Room.JoinAll | server/src/room/game.go:101-117 | Over a sequence of joins, each join yields one result. The old roster stays a prefix of the new one. The roster grows by exactly the number of successful joins. |
| Room.JoinAllKeepsWellFormed | server/src/room/game.go:102-111 | Any sequence of joins applied to a well-formed room keeps names pairwise distinct. It also keeps the host equal to the first roster entry, and no host in an empty room. |
| Room.FromEmptyWellFormed | server/src/room/game.go:102-111 | Starting from an empty room, after any sequence of joins the names on the roster are pairwise distinct. Whenever the roster is non-empty, the host is its first entry. |
| Room.DistinctJoinsAllSucceed | server/src/room/game.go:102-111 | Suppose the joiners' names are distinct from each other and from the roster. Then every join succeeds, and the roster becomes the old roster followed by the joiners in join order. |
| Room.DistinctJoinsFromEmpty | server/src/room/game.go:101-117 | From an empty room, joins under distinct names give a roster of exactly those players in join order, with the first joiner as host. |
| Room.RejoinRejected | server/src/room/game.go:102-106 | Once a player has tried to join, any player under the same name is rejected, whatever its `isHost` flag. The rejected attempt changes nothing, whether or not the first join succeeded. |
| Room.AliceBobScenario | server/src/room/game.go:101-117 | "Alice" joins, then "Bob" joins, then "Alice" tries again. The joins return nil, nil and "name duplicate". The roster ends as Alice then Bob, and Alice is host. Alice's own `isHost` flag stays false. |
| Room.Game.constructor | server/src/room/game.go:23-29 | The zero-value `Game` has no host, an empty roster, is not locked, has started no pumps, and is valid. |
| Room.Game.AddPlayer | server/src/room/game.go:101-117 | The method returns an error exactly when the name is already on the old roster. A rejection leaves `players`, `host` and the pumps unchanged. A success appends the player, sets `host` only if the roster was empty, and marks the player's pumps as started. `locked` is never changed. The new state and the result are exactly what `Add` gives for the old state. Validity is preserved. |

## Left out

- The read and write pumps (`readPump`, `writePump`, game.go:38-91) are left out. They are concurrent websocket I/O with deadlines, a ping ticker and channel selects. Starting them in `AddPlayer` (game.go:113-114) is modelled only as the ghost set `pumped`.
- The websocket connection and the outbound mailbox of a `Player`, and the room channels `msgChan` and `leaveChan` (game.go:27-28, 34-35), are left out. They are only used by the pumps.
- `WSMessage` (game.go:18-21) is left out. Only the pumps use it.
- `Start` and `Stop` (game.go:93-99) are left out because their bodies are empty.
- The timing and size constants (game.go:10-16) are left out. `MaxMessageSize`, `WriteWait`, `PongWait` and `PingPeriod` only configure the pumps' read limit, deadlines and ping interval. `ReadWait` (game.go:12) is used nowhere.
- Leaving a room and reassigning the host are left out, because this file has no code for them. The commented-out code at game.go:119-175 is not part of this model.
- Player identity: a Go `*Player` is a pointer, but no code in this file mutates a player. The model therefore treats a player as a value, and `host == Some(player)` is value equality rather than pointer identity.
- Nil players are left out, because a model `Player` is never nil. In Go, `AddPlayer(nil)` on a non-empty roster panics when it reads `player.Name` (game.go:103). On an empty roster it stores nil as `Host` and as a roster entry (game.go:109, 111). It then starts pumps that dereference `p.Conn` (game.go:44), and every later `AddPlayer` panics at `p.Name` (game.go:103).
- Renaming after admission is left out. `Name` is an exported field (game.go:33), so code outside this file could rename an admitted player. The `DistinctNames` invariant, and `Game.Valid` with it, holds only if no caller renames a player after admission.
- Concurrent calls to `AddPlayer` are left out. The source takes no lock, and the model treats each call as atomic.
