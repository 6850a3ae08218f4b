/**
 * Game codes: `length` characters drawn from a fixed 36-character alphabet
 * (upper-case letters, then digits). The random draws are a parameter:
 * each draw is the index `Math.floor(Math.random() * 36)`, so it lies in
 * `[0, 36)`.
 */
module GameId {

  const Alphabet: string := "ABCDEFGHIJKLMNOPQRSTUVWXYZ0123456789"

  /** The default code length of `generateGameId`. */
  const DefaultLength: nat := 6

  /** A sequence of random draws the generator can consume. */
  predicate ValidDraws(picks: seq<nat>)
  {
    forall j :: 0 <= j < |picks| ==> picks[j] < |Alphabet|
  }

  /** A well-formed game code of the given length. */
  predicate IsGameCode(code: string, length: nat)
  {
    |code| == length && forall j :: 0 <= j < |code| ==> code[j] in Alphabet
  }

  /** The code that a given sequence of draws spells. */
  function CodeOf(picks: seq<nat>): (code: string)
    requires ValidDraws(picks)
    ensures IsGameCode(code, |picks|)
    ensures forall j :: 0 <= j < |picks| ==> code[j] == Alphabet[picks[j]]
  {
    seq(|picks|, j requires 0 <= j < |picks| => Alphabet[picks[j]])
  }

  /** `generateGameId(length)`: appends one drawn character per iteration. */
  method GenerateGameId(length: nat, picks: seq<nat>) returns (result: string)
    requires |picks| == length && ValidDraws(picks)
    ensures IsGameCode(result, length)
    ensures result == CodeOf(picks)
  {
    result := "";
    var i := 0;
    while i < length
      invariant 0 <= i <= length
      invariant result == CodeOf(picks[..i])
    {
      result := result + [Alphabet[picks[i]]];
      i := i + 1;
    }
    assert picks[..length] == picks;
  }

  /** The position of a character in the alphabet. */
  ghost function AlphabetIndex(c: char): (i: nat)
    requires c in Alphabet
    ensures i < |Alphabet| && Alphabet[i] == c
  {
    var i :| 0 <= i < |Alphabet| && Alphabet[i] == c; i
  }

  /** Every well-formed code is spelled by some draws: the generator can produce any code. */
  lemma {:induction false} EveryCodeReachable(code: string)
    requires IsGameCode(code, |code|)
    ensures exists picks :: ValidDraws(picks) && |picks| == |code| && CodeOf(picks) == code
  {
    var picks := seq(|code|, j requires 0 <= j < |code| => AlphabetIndex(code[j]));
    assert ValidDraws(picks);
    assert CodeOf(picks) == code;
  }
}
