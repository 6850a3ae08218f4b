# Game-session coordinator

A Dafny model of the coordinator behind the multiplayer quiz game's API
(`game-api/controllers/gameController.js`). The coordinator keeps one Redis
hash per game, keyed by a six-character code. Each hash holds the ordered
list of players, the id of the active player and a status. The request
handlers create a game and let players join it. The socket handlers mark
players ready, start the game, pass the turn round-robin and answer who is
active. Each handler tells the room what changed.

Layout:

- `wrappers.dfy`: `Option` (JavaScript's `undefined`/`null`) and `Result`.
- `roster.dfy`: the `Player` record and the array helpers the handlers use.
  `findIndex`/`find` become `FindFirst`, `every` becomes `Every`. The module
  also holds the ready update, `MarkReady`.
- `turns.dfy`: turn rotation. `NextIndex` is `(currentIndex + 1) % players.length`.
  `NextActive` is the player chosen on `endTurn`. It also holds the lemmas
  about repeated turns.
- `gameid.dfy`: the 36-character alphabet, the `generateGameId` loop and the
  codes it can spell.
- `session.dfy`: the stored `Game` record and the events with their
  recipients. Each handler's effect on one record is a function. The class
  `GameStore` holds the store as a `map` field, with one method per handler.
  Every mutating method states the whole new map in terms of the old one,
  plus the list of emitted events. It also states that it keeps the store
  invariant `Valid()`: each roster is non-empty, its first entry alone is
  the host, the active id belongs to a player, and the status is `waiting`.

Modelling choices:

- The Redis client is replaced by the `games` map. The key `game:<code>` is
  represented by the code itself.
- A socket handler that reads a missing game sees no players and no active
  id. For `playerReady`, `startGame`, `endTurn` and the socket
  `getActivePlayer`, the result is the same whether the client returns an
  empty hash or nothing: either way nothing is written, and only
  `getActivePlayer` emits (a null answer). `Session.RosterOf` is that read: the
  stored roster parsed with an empty default (gameController.js lines 111,
  160 and 193), so a missing game gives the empty roster.
- Randomness is a parameter. `GenerateGameId` consumes draws in `[0, 36)`,
  the values of `Math.floor(Math.random() * 36)`. `CreateGame` takes the
  successive draws of its retry loop. Each new player's id (from `uuidv4`)
  is passed in.
- Events are returned as `Emission` values: `ToRoom(code, event)` for
  `io.to(gameId).emit`, `ToCaller(event)` for `socket.emit`. They appear in
  the order the handler sends them.
- Handlers run one after another. Interleavings are not modelled.

Behaviour of `gameController.js` that the model keeps as written:

- A player who joins is stored without any `isHost` property
  (`isHost == None`); only the creator's entry carries `isHost: true`.
- `playerReady` finds the first player with the given *name*.
- `allPlayersReady` is sent on every ready update after which everybody is
  ready, so a repeated "ready" sends it again.
- `activePlayerId` is the creator's id from creation on.
- `status` is written only at creation, always as `waiting`, and no handler
  changes it.
- Each roster update reads the hash, changes the roster in memory and
  writes it back, with no guard between the read and the write.

## Model

| member | source | states |
|---|---|---|
| GameId.GenerateGameId | game-api/controllers/gameController.js:5-12 | the loop builds a code of exactly `length` characters, each the alphabet character chosen by its draw, so it is a well-formed code |
| GameId.CodeOf | game-api/controllers/gameController.js:6-10 | the code spelled by a draw sequence has the draws' length and only characters of `A-Z0-9` |
| GameId.EveryCodeReachable | game-api/controllers/gameController.js:6-10 | every well-formed code is produced by some draws, so the generator can yield any code |
| Roster.FindFirst | game-api/controllers/gameController.js:112-114 | `findIndex`: -1 exactly when no element matches; otherwise the index of a matching element with no match before it |
| Roster.Every | game-api/controllers/gameController.js:170 | `every`: true exactly when every element satisfies the test (also on an empty roster) |
| Roster.IndexOfName | game-api/controllers/gameController.js:161 | `find` by name: negative exactly when no player has the name; otherwise the position of a player with that name and no such player before it |
| Roster.IndexOfOwnId | game-api/controllers/gameController.js:112-114 | with distinct ids, looking up a player's id finds that player's own position |
| Roster.MarkReady | game-api/controllers/gameController.js:161-164 | no change when no player has the name; otherwise only the first player with that name gets the new flag, and every other entry and field stays as it was |
| Roster.MarkReadyAllReady | game-api/controllers/gameController.js:163-171 | after an update, all are ready exactly when the new flag is true and every other player was already ready |
| Roster.MarkReadyIdempotent | game-api/controllers/gameController.js:161-164 | repeating the same ready update gives the same roster |
| Turns.NextIndex | game-api/controllers/gameController.js:117 | the next index is the successor of the current one, wrapping from the last index to 0; an absent player (-1) yields 0 |
| Turns.NextActive | game-api/controllers/gameController.js:111-118 | empty roster gives no player (the handler throws before writing); otherwise the player after the active one, the first after the last, and the first when the active id is absent |
| Turns.LastWrapsToFirst | game-api/controllers/gameController.js:117-118 | with distinct ids, the turn passes from the last player to the first |
| Turns.AfterTurnsAt | game-api/controllers/gameController.js:111-121 | from the player at index `i`, `k <= n` ends of turn make position `i + k` (wrapped at `n`) active |
| Turns.TurnCycle | game-api/controllers/gameController.js:111-121 | `n` ends of turn from a present player go to `n` different players, reach every player, and return to the start |
| Session.NewGame | game-api/controllers/gameController.js:23-30 | the created record has one player: the creator, not ready, host, active, with status `waiting`; it satisfies the store invariant |
| Session.Joined | game-api/controllers/gameController.js:64-69 | a join appends exactly one non-ready player without a host flag; earlier players, active id and status are unchanged, and the store invariant is kept |
| Session.Started | game-api/controllers/gameController.js:200-205 | starting makes the first player active whatever was active before, keeps roster and status, and keeps the invariant |
| Session.Rotated | game-api/controllers/gameController.js:117-121 | an end of turn writes the next player's id and nothing else, keeping the invariant |
| Session.MarkReadyKeepsShape | game-api/controllers/gameController.js:161-164 | a ready update keeps the store invariant of the record |
| Session.ReadyEvents | game-api/controllers/gameController.js:167-174 | `readyStatusUpdate` comes first; `allPlayersReady` follows exactly when every player is ready after the update |
| Session.AliceAndBob | game-api/controllers/gameController.js:19-134 | Alice creates and Bob joins; start makes Alice active, one end of turn gives Bob, the next gives Alice again |
| Session.GameStore.CreateGame | game-api/controllers/gameController.js:18-40 | the stored code is the first drawn code that was not a key, so no game is overwritten; the store gains exactly that record; the invariant is kept |
| Session.GameStore.JoinGame | game-api/controllers/gameController.js:57-80 | an unknown code answers not-found and changes and sends nothing; otherwise the player is appended, the caller gets its id and the room gets the new roster |
| Session.GameStore.GetActivePlayerId | game-api/controllers/gameController.js:95-98 | for a stored game, answers its active player id; reads only |
| Session.GameStore.JoinRoom | game-api/controllers/gameController.js:145-150 | for a stored game, the room receives its roster; reads only |
| Session.GameStore.PlayerReady | game-api/controllers/gameController.js:159-175 | an unknown name changes and sends nothing; otherwise only that game's roster is replaced by the marked roster and the ready events are sent |
| Session.GameStore.EndTurn | game-api/controllers/gameController.js:106-134 | an empty roster or missing game changes and sends nothing; otherwise only the active id changes, to the next player's, and the room hears `activePlayerChanged` for that player; on a store that keeps the invariant, every stored game has a turn to pass, so exactly one event is sent |
| Session.GameStore.StartGame | game-api/controllers/gameController.js:192-215 | an empty roster changes nothing; otherwise only the active id changes, to the first player's, and the room hears `startGame` and then `activePlayerChanged` for that player; on a store that keeps the invariant, both events are sent for every stored game |
| Session.GameStore.GetActivePlayer | game-api/controllers/gameController.js:224-243 | answers only the caller: null exactly when there is no game, no active id or no player with it; otherwise the name of the first player with the active id; on a store that keeps the invariant, a stored game with a non-empty active id always gets a name; reads only |

## Left out

- Session.GameStore.GetActivePlayerId: states nothing for a missing code. Whether the 404 branch fires depends on what the Redis client returns for a missing key, and that client is not part of this model.
- Session.GameStore.JoinRoom: states nothing for a missing code, for the same reason. Subscribing the socket to the room is transport and is not modelled.
- Session.GameStore.CreateGame: requires that some draw gives an unused code. When none does, the handler retries forever.
- Redis I/O (`exists`, `hGet`, `hGetAll`, `hSet`), its failures, and the 500 responses and logging: replaced by the in-memory map.
- JSON encoding of the roster: the roster is a sequence of records. `isReady` is taken to be a boolean, though the socket payload could carry any JSON value.
- Concurrency: the lost update between a handler's read and its write cannot be expressed, because handlers run one at a time.
- The `disconnect` handler: it does nothing.
- Player id uniqueness: the store does not enforce it, and `uuidv4` is not modelled. The rotation lemmas take distinct ids as a hypothesis.
- `game-api/models/quiz.js`: random selection of quiz questions from a database. It is not part of this model.
