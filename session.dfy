/**
 * The game-session coordinator: the request handlers (create, join, query
 * the active player) and the socket handlers (join a room, ready, end of
 * turn, start, query the active player) over a store that maps a game code
 * to its record. Each handler runs to completion before the next one starts.
 */
module Session {
  import opened Wrappers
  import opened Roster
  import opened Turns
  import GameId

  /** The only status the coordinator ever writes. */
  const Waiting: string := "waiting"

  /** The stored hash of one game: `players`, `activePlayerId` and `status`. */
  datatype Game = Game(players: seq<Player>, activePlayerId: string, status: string)

  /**
   * The events the coordinator sends out, with their payloads:
   * `currentPlayers`, `readyStatusUpdate`, `allPlayersReady`, `startGame`,
   * `activePlayerChanged` and `activePlayer`.
   */
  datatype Event =
    | CurrentPlayers(players: seq<Player>)
    | ReadyStatusUpdate(playerName: string, isReady: bool)
    | AllPlayersReady
    | GameStarted(activePlayerName: string)
    | ActivePlayerChanged(activePlayerId: string, activePlayerName: string)
    | ActivePlayer(answer: Option<string>)

  /** Where an event goes: every socket in the room named by the game code, or only the asking socket. */
  datatype Emission = ToRoom(room: string, event: Event) | ToCaller(event: Event)

  /** The join request's failure: the 404 "game not found" answer. */
  datatype JoinError = GameNotFound

  /** The roster a socket handler reads: a missing game has no players. */
  function RosterOf(games: map<string, Game>, code: string): seq<Player>
  {
    if code in games then games[code].players else []
  }

  /**
   * The shape every stored game keeps: a non-empty roster whose first entry
   * is the host and whose later entries carry no host flag, an active player
   * id that belongs to some player, and the status written at creation.
   */
  predicate WellFormed(g: Game)
  {
    && |g.players| > 0
    && IndexOfId(g.players, g.activePlayerId) >= 0
    && g.players[0].isHost == Some(true)
    && (forall j :: 1 <= j < |g.players| ==> g.players[j].isHost == None)
    && g.status == Waiting
  }

  /** The record `createGame` writes for its creator. */
  function NewGame(playerId: string, playerName: string): (g: Game)
    ensures WellFormed(g)
    ensures |g.players| == 1 && g.players[0].playerId == g.activePlayerId == playerId
    ensures g.players[0].playerName == playerName && !g.players[0].ready
  {
    Game([Player(playerId, playerName, false, Some(true))], playerId, Waiting)
  }

  /** The record after `joinGame` appends a player: nothing else changes. */
  function Joined(g: Game, playerId: string, playerName: string): (r: Game)
    ensures |r.players| == |g.players| + 1 && r.players[..|g.players|] == g.players
    ensures r.players[|g.players|] == Player(playerId, playerName, false, None)
    ensures r.activePlayerId == g.activePlayerId && r.status == g.status
    ensures WellFormed(g) ==> WellFormed(r)
  {
    var r := g.(players := g.players + [Player(playerId, playerName, false, None)]);
    assert WellFormed(g) ==> IndexOfId(r.players, r.activePlayerId) >= 0 by {
      if WellFormed(g) {
        var i := IndexOfId(g.players, g.activePlayerId);
        assert r.players[i] == g.players[i];
      }
    }
    r
  }

  /** A player of the roster is found by its own id, possibly at an earlier position with the same id. */
  lemma MemberIdFound(players: seq<Player>, j: nat)
    requires j < |players|
    ensures IndexOfId(players, players[j].playerId) >= 0
  {
    assert ((p: Player) => p.playerId == players[j].playerId)(players[j]);
  }

  /** The record after the active player id is overwritten with a roster member's id. */
  lemma ActivateKeepsShape(g: Game, j: nat)
    requires WellFormed(g) && j < |g.players|
    ensures WellFormed(g.(activePlayerId := g.players[j].playerId))
  {
    MemberIdFound(g.players, j);
  }

  /** The record after `startGame`: the first player is active, whatever was active before. */
  function Started(g: Game): (r: Game)
    requires |g.players| > 0
    ensures r.players == g.players && r.status == g.status
    ensures r.activePlayerId == g.players[0].playerId
    ensures WellFormed(g) ==> WellFormed(r)
  {
    assert WellFormed(g) ==> WellFormed(g.(activePlayerId := g.players[0].playerId)) by {
      if WellFormed(g) { ActivateKeepsShape(g, 0); }
    }
    g.(activePlayerId := g.players[0].playerId)
  }

  /** The record after `changeActivePlayer`: the turn passes to the next player. */
  function Rotated(g: Game): (r: Game)
    requires |g.players| > 0
    ensures r.players == g.players && r.status == g.status
    ensures r.activePlayerId == NextId(g.players, g.activePlayerId)
    ensures WellFormed(g) ==> WellFormed(r)
  {
    var j := NextIndex(IndexOfId(g.players, g.activePlayerId), |g.players|);
    assert WellFormed(g) ==> WellFormed(g.(activePlayerId := g.players[j].playerId)) by {
      if WellFormed(g) { ActivateKeepsShape(g, j); }
    }
    g.(activePlayerId := g.players[j].playerId)
  }

  /** The record after the ready update keeps its shape. */
  lemma MarkReadyKeepsShape(g: Game, name: string, isReady: bool)
    requires WellFormed(g) && MarkReady(g.players, name, isReady).Some?
    ensures WellFormed(g.(players := MarkReady(g.players, name, isReady).value))
  {
    var after := MarkReady(g.players, name, isReady).value;
    var i := IndexOfId(g.players, g.activePlayerId);
    assert after[i].playerId == g.players[i].playerId;
    MemberIdFound(after, i);
  }

  /** The events of a successful ready update. */
  function ReadyEvents(code: string, playerName: string, isReady: bool, after: seq<Player>): (out: seq<Emission>)
    ensures |out| >= 1 && out[0] == ToRoom(code, ReadyStatusUpdate(playerName, isReady))
    ensures ToRoom(code, AllPlayersReady) in out <==> AllReady(after)
    ensures |out| == if AllReady(after) then 2 else 1
  {
    [ToRoom(code, ReadyStatusUpdate(playerName, isReady))]
      + (if AllReady(after) then [ToRoom(code, AllPlayersReady)] else [])
  }

  class GameStore {
    /** The Redis hashes `game:<code>`, keyed by code. */
    var games: map<string, Game>

    /** Every stored game has the shape the handlers maintain. */
    ghost predicate Valid()
      reads this
    {
      forall code :: code in games ==> WellFormed(games[code])
    }

    constructor ()
      ensures games == map[] && Valid()
    {
      games := map[];
    }

    /**
     * `createGame`: draws codes until one is not a stored key, then stores a
     * one-player game for the creator. `draws` are the successive random
     * draws; some draw must give an unused code (the handler loops until then).
     */
    method CreateGame(playerName: string, playerId: string, draws: seq<seq<nat>>) returns (gameId: string)
      requires forall k :: 0 <= k < |draws| ==> |draws[k]| == GameId.DefaultLength && GameId.ValidDraws(draws[k])
      requires exists k :: 0 <= k < |draws| && GameId.CodeOf(draws[k]) !in games
      modifies this
      ensures gameId !in old(games) && GameId.IsGameCode(gameId, GameId.DefaultLength)
      ensures exists k ::
        && 0 <= k < |draws|
        && gameId == GameId.CodeOf(draws[k])
        && (forall j :: 0 <= j < k ==> GameId.CodeOf(draws[j]) in old(games))
      ensures games == old(games)[gameId := NewGame(playerId, playerName)]
      ensures old(Valid()) ==> Valid()
    {
      ghost var free :| 0 <= free < |draws| && GameId.CodeOf(draws[free]) !in games;
      var i := 0;
      gameId := GameId.GenerateGameId(GameId.DefaultLength, draws[i]);
      while gameId in games
        invariant games == old(games)
        invariant 0 <= i <= free
        invariant gameId == GameId.CodeOf(draws[i])
        invariant forall j :: 0 <= j < i ==> GameId.CodeOf(draws[j]) in games
        decreases free - i
      {
        i := i + 1;
        gameId := GameId.GenerateGameId(GameId.DefaultLength, draws[i]);
      }
      games := games[gameId := NewGame(playerId, playerName)];
    }

    /**
     * `joinGame`: a missing game is a 404 and nothing is written; otherwise
     * the new player is appended, the caller gets its id and the room gets
     * the new roster.
     */
    method JoinGame(code: string, playerName: string, playerId: string)
      returns (r: Result<string, JoinError>, out: seq<Emission>)
      modifies this
      ensures code !in old(games) ==> r == Err(GameNotFound) && games == old(games) && out == []
      ensures code in old(games) ==>
        && r == Ok(playerId)
        && games == old(games)[code := Joined(old(games)[code], playerId, playerName)]
        && out == [ToRoom(code, CurrentPlayers(games[code].players))]
      ensures old(Valid()) ==> Valid()
    {
      if code !in games {
        return Err(GameNotFound), [];
      }
      games := games[code := Joined(games[code], playerId, playerName)];
      r := Ok(playerId);
      out := [ToRoom(code, CurrentPlayers(games[code].players))];
    }

    /** The request `getActivePlayer`: the stored active player id. */
    method GetActivePlayerId(code: string) returns (r: Option<string>)
      ensures code in games ==> r == Some(games[code].activePlayerId)
    {
      r := if code in games then Some(games[code].activePlayerId) else None;
    }

    /** The socket event `joinRoom`: the room receives the stored roster. */
    method JoinRoom(code: string) returns (out: seq<Emission>)
      ensures code in games ==> out == [ToRoom(code, CurrentPlayers(games[code].players))]
    {
      out := [ToRoom(code, CurrentPlayers(RosterOf(games, code)))];
    }

    /**
     * The socket event `playerReady`: the first player with that name gets
     * the new ready flag, the room hears of it, and hears `allPlayersReady`
     * when everybody is now ready. An unknown name changes and sends nothing.
     */
    method PlayerReady(code: string, playerName: string, isReady: bool) returns (out: seq<Emission>)
      modifies this
      ensures MarkReady(RosterOf(old(games), code), playerName, isReady).None? ==>
        games == old(games) && out == []
      ensures MarkReady(RosterOf(old(games), code), playerName, isReady).Some? ==>
        var after := MarkReady(RosterOf(old(games), code), playerName, isReady).value;
        && code in old(games)
        && games == old(games)[code := old(games)[code].(players := after)]
        && out == ReadyEvents(code, playerName, isReady, after)
      ensures old(Valid()) ==> Valid()
    {
      var marked := MarkReady(RosterOf(games, code), playerName, isReady);
      if marked.None? {
        return [];
      }
      if Valid() {
        MarkReadyKeepsShape(games[code], playerName, isReady);
      }
      games := games[code := games[code].(players := marked.value)];
      out := ReadyEvents(code, playerName, isReady, marked.value);
    }

    /**
     * The socket event `endTurn` (`changeActivePlayer`): the player after the
     * active one, in join order and wrapping around, becomes active and the
     * room hears of it. An empty roster or a missing game changes and sends
     * nothing.
     */
    method EndTurn(code: string) returns (out: seq<Emission>)
      modifies this
      ensures |RosterOf(old(games), code)| == 0 ==> games == old(games) && out == []
      ensures |RosterOf(old(games), code)| > 0 ==>
        var p := NextActive(old(games)[code].players, old(games)[code].activePlayerId).value;
        && games == old(games)[code := Rotated(old(games)[code])]
        && out == [ToRoom(code, ActivePlayerChanged(p.playerId, p.playerName))]
      ensures old(Valid()) ==> Valid()
      ensures old(Valid()) && code in old(games) ==> |out| == 1
    {
      if |RosterOf(games, code)| == 0 {
        return [];
      }
      var g := games[code];
      var p := NextActive(g.players, g.activePlayerId).value;
      games := games[code := Rotated(g)];
      out := [ToRoom(code, ActivePlayerChanged(p.playerId, p.playerName))];
    }

    /**
     * The socket event `startGame`: the first player becomes active whatever
     * was active before; the room hears `startGame` and then
     * `activePlayerChanged` for that player. An empty roster changes and
     * sends nothing.
     */
    method StartGame(code: string) returns (out: seq<Emission>)
      modifies this
      ensures |RosterOf(old(games), code)| == 0 ==> games == old(games) && out == []
      ensures |RosterOf(old(games), code)| > 0 ==>
        var first := old(games)[code].players[0];
        && games == old(games)[code := Started(old(games)[code])]
        && out == [ToRoom(code, GameStarted(first.playerName)),
                   ToRoom(code, ActivePlayerChanged(first.playerId, first.playerName))]
      ensures old(Valid()) ==> Valid()
      ensures old(Valid()) && code in old(games) ==> |out| == 2
    {
      if |RosterOf(games, code)| == 0 {
        return [];
      }
      var g := games[code];
      var first := g.players[0];
      games := games[code := Started(g)];
      out := [ToRoom(code, GameStarted(first.playerName)),
              ToRoom(code, ActivePlayerChanged(first.playerId, first.playerName))];
    }

    /**
     * The socket event `getActivePlayer`: answers the asking socket with the
     * name of the player whose id is the active id, or null when there is no
     * game, no (or an empty) active id, or no player with that id.
     */
    method GetActivePlayer(code: string) returns (out: Emission)
      ensures out.ToCaller? && out.event.ActivePlayer?
      ensures out.event.answer.None? <==>
        code !in games || games[code].activePlayerId == "" ||
        forall j :: 0 <= j < |games[code].players| ==> games[code].players[j].playerId != games[code].activePlayerId
      ensures out.event.answer.Some? ==>
        exists j ::
          && 0 <= j < |games[code].players|
          && games[code].players[j].playerId == games[code].activePlayerId
          && games[code].players[j].playerName == out.event.answer.value
          && (forall m :: 0 <= m < j ==> games[code].players[m].playerId != games[code].activePlayerId)
      ensures Valid() && code in games && games[code].activePlayerId != "" ==> out.event.answer.Some?
    {
      if code !in games || games[code].activePlayerId == "" {
        return ToCaller(ActivePlayer(None));
      }
      var players := games[code].players;
      var i := IndexOfId(players, games[code].activePlayerId);
      if i < 0 {
        out := ToCaller(ActivePlayer(None));
      } else {
        out := ToCaller(ActivePlayer(Some(players[i].playerName)));
      }
    }
  }

  /**
   * Alice creates a game and Bob joins: the roster is Alice (the host) then
   * Bob. Starting makes Alice active; one end of turn passes to Bob, the
   * next one back to Alice.
   */
  lemma AliceAndBob()
    ensures var joined := Joined(NewGame("alice-id", "Alice"), "bob-id", "Bob");
      && joined.players == [Player("alice-id", "Alice", false, Some(true)), Player("bob-id", "Bob", false, None)]
      && Started(joined).activePlayerId == "alice-id"
      && Rotated(Started(joined)).activePlayerId == "bob-id"
      && Rotated(Rotated(Started(joined))).activePlayerId == "alice-id"
  {
    var joined := Joined(NewGame("alice-id", "Alice"), "bob-id", "Bob");
    assert DistinctIds(joined.players);
    NextAfter(joined.players, 0);
    NextAfter(joined.players, 1);
  }
}
