/**
 * Round-robin turn rotation: the next active player is the one after the
 * current active player in join order, wrapping from the last to the first.
 */
module Turns {
  import opened Wrappers
  import opened Roster

  /**
   * `(currentIndex + 1) % players.length`, where `currentIndex` is a
   * `findIndex` result (-1 when the active player is absent).
   */
  function NextIndex(current: int, n: nat): (r: nat)
    requires 0 < n && -1 <= current < n
    ensures r < n
    ensures current < n - 1 ==> r == current + 1
    ensures current == n - 1 ==> r == 0
  {
    (current + 1) % n
  }

  /**
   * The player who becomes active after `activeId` ends a turn; None for an
   * empty roster, where `players[NaN]` is undefined and the handler throws
   * before writing anything.
   */
  function NextActive(players: seq<Player>, activeId: string): (r: Option<Player>)
    ensures r.None? <==> |players| == 0
    ensures var i := IndexOfId(players, activeId);
      0 <= i < |players| - 1 ==> r == Some(players[i + 1])
    ensures var i := IndexOfId(players, activeId);
      |players| > 0 && i == |players| - 1 ==> r == Some(players[0])
    ensures |players| > 0 && IndexOfId(players, activeId) < 0 ==> r == Some(players[0])
  {
    if |players| == 0 then None
    else Some(players[NextIndex(IndexOfId(players, activeId), |players|)])
  }

  /** The active player id after one end-of-turn event on a non-empty roster. */
  function NextId(players: seq<Player>, activeId: string): string
    requires |players| > 0
  {
    NextActive(players, activeId).value.playerId
  }

  /** The active player id after `k` successive end-of-turn events. */
  function AfterTurns(players: seq<Player>, activeId: string, k: nat): string
    requires |players| > 0
    decreases k
  {
    if k == 0 then activeId else AfterTurns(players, NextId(players, activeId), k - 1)
  }

  /** With distinct ids, the last player hands the turn to the first. */
  lemma LastWrapsToFirst(players: seq<Player>)
    requires |players| > 0 && DistinctIds(players)
    ensures NextActive(players, players[|players| - 1].playerId) == Some(players[0])
  {
    IndexOfOwnId(players, |players| - 1);
  }

  /** With distinct ids, the turn passes from position `j` to position `NextIndex(j, n)`. */
  lemma NextAfter(players: seq<Player>, j: nat)
    requires DistinctIds(players) && j < |players|
    ensures NextId(players, players[j].playerId) == players[NextIndex(j, |players|)].playerId
  {
    IndexOfOwnId(players, j);
  }

  /** One turn from position `i` followed by `k - 1` more is `k` turns from `i`. */
  lemma AfterTurnsStep(players: seq<Player>, i: nat, k: nat)
    requires DistinctIds(players) && i < |players| && 0 < k
    ensures AfterTurns(players, players[i].playerId, k) ==
      AfterTurns(players, players[NextIndex(i, |players|)].playerId, k - 1)
  {
    NextAfter(players, i);
  }

  /** The roster position reached from `i` after `k <= n` turns, wrapping once at `n`. */
  function Wrapped(i: nat, k: nat, n: nat): nat
  {
    if i + k < n then i + k else i + k - n
  }

  /**
   * Starting from the player at index `i`, after `k <= n` turns the player
   * at position `i + k`, wrapped at `n`, is active.
   */
  lemma {:induction false} AfterTurnsAt(players: seq<Player>, i: nat, k: nat)
    requires DistinctIds(players) && i < |players| && k <= |players|
    ensures Wrapped(i, k, |players|) < |players|
    ensures AfterTurns(players, players[i].playerId, k) == players[Wrapped(i, k, |players|)].playerId
    decreases k
  {
    var n, start := |players|, players[i].playerId;
    if k > 0 {
      var next: nat, rest: nat := NextIndex(i, n), k - 1;
      var id, w := players[next].playerId, Wrapped(next, rest, n);
      assert w == Wrapped(i, k, n);
      AfterTurnsStep(players, i, k);
      assert AfterTurns(players, start, k) == AfterTurns(players, id, rest);
      AfterTurnsAt(players, next, rest);
      assert AfterTurns(players, id, rest) == players[w].playerId;
    }
  }

  /** Two different turn counts below `n` give the turn to different players. */
  lemma TurnsDiffer(players: seq<Player>, i: nat, k1: nat, k2: nat)
    requires DistinctIds(players) && i < |players| && k1 < k2 < |players|
    ensures AfterTurns(players, players[i].playerId, k1) != AfterTurns(players, players[i].playerId, k2)
  {
    AfterTurnsAt(players, i, k1);
    AfterTurnsAt(players, i, k2);
  }

  /** Every player `j` is reached within fewer than `n` turns. */
  lemma TurnReaches(players: seq<Player>, i: nat, j: nat) returns (k: nat)
    requires DistinctIds(players) && i < |players| && j < |players|
    ensures k < |players| && AfterTurns(players, players[i].playerId, k) == players[j].playerId
  {
    k := if i <= j then j - i else j + |players| - i;
    AfterTurnsAt(players, i, k);
  }

  /** The ids that hold the turn after 0, 1, ..., `m - 1` end-of-turn events. */
  function TurnOrder(players: seq<Player>, activeId: string, m: nat): (ids: seq<string>)
    requires |players| > 0
    ensures |ids| == m
  {
    seq(m, k requires 0 <= k < m => AfterTurns(players, activeId, k))
  }

  /**
   * From a present active player, the next `n` turns go to every player of
   * an `n`-player roster exactly once and then return to the start.
   */
  lemma TurnCycle(players: seq<Player>, i: nat)
    requires DistinctIds(players) && i < |players|
    ensures AfterTurns(players, players[i].playerId, |players|) == players[i].playerId
    ensures var order := TurnOrder(players, players[i].playerId, |players|);
      && (forall k1, k2 :: 0 <= k1 < k2 < |players| ==> order[k1] != order[k2])
      && (forall j :: 0 <= j < |players| ==> players[j].playerId in order)
  {
    var n, start := |players|, players[i].playerId;
    var order := TurnOrder(players, start, n);
    AfterTurnsAt(players, i, n);
    forall k1, k2 | 0 <= k1 < k2 < n
      ensures order[k1] != order[k2]
    {
      TurnsDiffer(players, i, k1, k2);
    }
    forall j | 0 <= j < n
      ensures players[j].playerId in order
    {
      var k := TurnReaches(players, i, j);
      assert order[k] == players[j].playerId;
    }
  }
}
