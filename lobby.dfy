/**
 * The lobby's `startGame`: the host starts a game of at least four players,
 * one alive player is drawn as the imposter and every player gets a word.
 */
module Lobby {
  import opened GameTypes
  import opened GameUtils

  /** The smallest party the lobby lets the host start with. */
  const MinPlayers := 4

  /** The guard of `startGame`. */
  predicate CanStartGame(currentPlayer: Player, players: seq<Player>) {
    currentPlayer.isHost && |players| >= MinPlayers
  }

  /** The ids of the alive players, the candidates for the imposter. */
  function AliveIds(players: seq<Player>): seq<string> {
    Ids(Filter(players, IsAlive))
  }

  /** The candidates are exactly the alive players' ids. */
  lemma AliveIdsMeaning(players: seq<Player>)
    ensures forall id :: id in AliveIds(players) <==> exists p :: p in players && p.isAlive && p.id == id
  {
    var alive := Filter(players, IsAlive);
    var r := Ids(alive);
    forall id | id in r
      ensures exists p :: p in players && p.isAlive && p.id == id
    {
      var i :| 0 <= i < |r| && r[i] == id;
      assert alive[i] in alive;
    }
    forall id | exists p :: p in players && p.isAlive && p.id == id
      ensures id in r
    {
      var p :| p in players && p.isAlive && p.id == id;
      assert p in alive;
      var i :| 0 <= i < |alive| && alive[i] == p;
      assert r[i] == id;
    }
  }

  /** `updatedPlayers` of `startGame`: the drawn player is the imposter with
      the imposter's word, every other player a civilian with the main word,
      and all votes are cleared; `imposter` is `None` when nobody was drawn. */
  function AssignWords(players: seq<Player>, imposter: Option<string>, pair: WordPair): (r: seq<Player>)
    ensures |r| == |players|
    ensures forall i :: 0 <= i < |r| ==>
      (r[i].isImposter <==> imposter == Some(players[i].id)) &&
      r[i].word == (if r[i].isImposter then pair.imposter else pair.main) &&
      !r[i].hasVoted &&
      r[i].(isImposter := players[i].isImposter, word := players[i].word, hasVoted := players[i].hasVoted) == players[i]
  {
    seq(|players|, i requires 0 <= i < |players| =>
      var chosen := imposter == Some(players[i].id);
      players[i].(isImposter := chosen, word := if chosen then pair.imposter else pair.main, hasVoted := false))
  }

  /** Naming the id of one player of a room with distinct ids makes exactly
      that player the imposter. */
  lemma AssignOneImposter(players: seq<Player>, i: nat, pair: WordPair)
    requires UniqueIds(players) && i < |players|
    ensures var r := AssignWords(players, Some(players[i].id), pair);
      r[i].isImposter && r[i].isAlive == players[i].isAlive && r[i].word == pair.imposter &&
      forall j :: 0 <= j < |r| && j != i ==> !r[j].isImposter && r[j].word == pair.main
  {
    var r := AssignWords(players, Some(players[i].id), pair);
    forall j | 0 <= j < |r| && j != i
      ensures !r[j].isImposter
    {
      assert players[j].id != players[i].id;
    }
  }

  /** Exactly one player is the imposter, alive and holding the imposter's
      word; everybody else holds the main word. */
  predicate OneAliveImposter(r: seq<Player>, pair: WordPair) {
    exists i :: 0 <= i < |r| && r[i].isImposter && r[i].isAlive && r[i].word == pair.imposter &&
      forall j :: 0 <= j < |r| && j != i ==> !r[j].isImposter && r[j].word == pair.main
  }

  /** With an alive player in the room, starting casts exactly one imposter,
      and that player is alive. */
  lemma StartCastsOneImposter(players: seq<Player>, pick: nat, pair: WordPair)
    requires UniqueIds(players)
    requires exists p :: p in players && p.isAlive
    requires ValidPick(|AliveIds(players)|, pick)
    ensures OneAliveImposter(AssignWords(players, SelectRandomImposter(AliveIds(players), pick), pair), pair)
  {
    var i := DrawnPlayer(players, pick);
    AssignOneImposter(players, i, pair);
  }

  /** The index of the alive player whom the random pick draws. */
  lemma DrawnPlayer(players: seq<Player>, pick: nat) returns (i: nat)
    requires exists p :: p in players && p.isAlive
    requires ValidPick(|AliveIds(players)|, pick)
    ensures i < |players| && players[i].isAlive
    ensures SelectRandomImposter(AliveIds(players), pick) == Some(players[i].id)
  {
    var alive := Filter(players, IsAlive);
    var p :| p in players && p.isAlive;
    assert p in alive;
    var q := alive[pick];
    assert q in alive;
    var k :| 0 <= k < |players| && players[k] == q;
    i := k;
  }

  /** With no alive player nobody is drawn and everybody gets the main word. */
  lemma NoAlivePlayerNoImposter(players: seq<Player>, pick: nat, pair: WordPair)
    requires forall p :: p in players ==> !p.isAlive
    requires ValidPick(|AliveIds(players)|, pick)
    ensures var r := AssignWords(players, SelectRandomImposter(AliveIds(players), pick), pair);
      forall i :: 0 <= i < |r| ==> !r[i].isImposter && r[i].word == pair.main
  {
    FilterCountZero(players, IsAlive);
    assert forall i :: 0 <= i < |players| ==> players[i] in players;
  }
}
