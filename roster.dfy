/**
 * The player roster of one game session and the array helpers the
 * controller applies to it (`findIndex`, `find`, `every`).
 */
module Roster {
  import opened Wrappers

  /**
   * One entry of the `players` list. `isHost` is `Some(true)` for the
   * creator and `None` for players that joined later: the join handler
   * pushes a record that has no `isHost` property at all.
   */
  datatype Player = Player(playerId: string, playerName: string, ready: bool, isHost: Option<bool>)

  /**
   * `Array.prototype.findIndex`: the index of the first element that
   * satisfies `matches`, or -1 when none does.
   */
  function FindFirst(s: seq<Player>, matches: Player -> bool): (r: int)
    ensures -1 <= r < |s|
    ensures r < 0 <==> forall j :: 0 <= j < |s| ==> !matches(s[j])
    ensures 0 <= r ==> matches(s[r]) && forall j :: 0 <= j < r ==> !matches(s[j])
  {
    FindFrom(s, matches, 0)
  }

  /** The scan behind `FindFirst`, from position `from` on. */
  function FindFrom(s: seq<Player>, matches: Player -> bool, from: nat): (r: int)
    requires from <= |s|
    ensures r == -1 || from <= r < |s|
    ensures r < 0 <==> forall j :: from <= j < |s| ==> !matches(s[j])
    ensures 0 <= r ==> matches(s[r]) && forall j :: from <= j < r ==> !matches(s[j])
    decreases |s| - from
  {
    if from == |s| then -1
    else if matches(s[from]) then from
    else FindFrom(s, matches, from + 1)
  }

  /** `Array.prototype.every`: true of the empty list. */
  function Every(s: seq<Player>, holds: Player -> bool): (b: bool)
    ensures b <==> forall j :: 0 <= j < |s| ==> holds(s[j])
  {
    if |s| == 0 then true else holds(s[0]) && Every(s[1..], holds)
  }

  /** `players.findIndex((p) => p.playerId === id)` */
  function IndexOfId(players: seq<Player>, id: string): int
  {
    FindFirst(players, (p: Player) => p.playerId == id)
  }

  /** `players.find((p) => p.playerName === name)`, as an index. */
  function IndexOfName(players: seq<Player>, name: string): (r: int)
    ensures r < 0 <==> forall j :: 0 <= j < |players| ==> players[j].playerName != name
    ensures r >= 0 ==>
      && r < |players| && players[r].playerName == name
      && forall m :: 0 <= m < r ==> players[m].playerName != name
  {
    FindFirst(players, (p: Player) => p.playerName == name)
  }

  /** `players.every((p) => p.ready)` */
  predicate AllReady(players: seq<Player>)
  {
    Every(players, (p: Player) => p.ready)
  }

  /** No two roster entries share a player id (ids come from uuidv4). */
  predicate DistinctIds(players: seq<Player>)
  {
    forall i, j :: 0 <= i < j < |players| ==> players[i].playerId != players[j].playerId
  }

  /** With distinct ids, looking a player's id up finds that very player. */
  lemma IndexOfOwnId(players: seq<Player>, i: int)
    requires DistinctIds(players) && 0 <= i < |players|
    ensures IndexOfId(players, players[i].playerId) == i
  {
    assert ((p: Player) => p.playerId == players[i].playerId)(players[i]);
  }

  /**
   * The roster after the ready handler: the first player called `name`
   * gets `ready := isReady`; None when nobody has that name (nothing is
   * written then).
   */
  function MarkReady(players: seq<Player>, name: string, isReady: bool): (r: Option<seq<Player>>)
    ensures r.None? <==> forall j :: 0 <= j < |players| ==> players[j].playerName != name
    ensures r.Some? ==>
      var i := IndexOfName(players, name);
      && |r.value| == |players|
      && 0 <= i && players[i].playerName == name
      && (forall j :: 0 <= j < i ==> players[j].playerName != name)
      && r.value[i] == players[i].(ready := isReady)
      && (forall j :: 0 <= j < |players| && j != i ==> r.value[j] == players[j])
  {
    var i := IndexOfName(players, name);
    if i < 0 then None
    else Some(players[i := players[i].(ready := isReady)])
  }

  /**
   * After a successful ready update, everybody is ready exactly when the
   * new value is `true` and every other player was already ready.
   */
  lemma MarkReadyAllReady(players: seq<Player>, name: string, isReady: bool)
    requires MarkReady(players, name, isReady).Some?
    ensures var i := IndexOfName(players, name);
      AllReady(MarkReady(players, name, isReady).value) <==>
        isReady && forall j :: 0 <= j < |players| && j != i ==> players[j].ready
  {
    var i := IndexOfName(players, name);
    var after := MarkReady(players, name, isReady).value;
    if AllReady(after) {
      assert after[i].ready;
      forall j | 0 <= j < |players| && j != i ensures players[j].ready {
        assert after[j] == players[j];
        assert after[j].ready;
      }
    }
  }

  /** Repeating the same ready update changes nothing more: the update is idempotent. */
  lemma MarkReadyIdempotent(players: seq<Player>, name: string, isReady: bool)
    requires MarkReady(players, name, isReady).Some?
    ensures MarkReady(MarkReady(players, name, isReady).value, name, isReady) == MarkReady(players, name, isReady)
  {
    var after := MarkReady(players, name, isReady).value;
    var i := IndexOfName(players, name);
    assert after[i].playerName == name;
    assert IndexOfName(after, name) == i by {
      forall j | 0 <= j < i ensures after[j].playerName != name {
        assert after[j] == players[j];
      }
    }
    assert after[i := after[i].(ready := isReady)] == after;
  }
}
