/**
 * The results screen: how a closed vote is resolved (`processResults`) and
 * its own `playAgain`, compared with the finished screen's.
 */
module Results {
  import opened GameTypes
  import opened GameLogic
  import opened Lobby
  import opened PlayerCard
  import opened GameBoard

  // ----- processResults -----

  /** Where a resolved vote leaves the room. `Unresolved` is the path on
      which `processElimination` throws: the error is logged and nothing is
      written. */
  datatype Resolution =
    | NextClueRound(players: seq<Player>, round: nat)
    | GameFinished(players: seq<Player>, winner: Option<Team>, reason: string)
    | Unresolved

  /** The branches of `processResults` after the tally: a tie starts the next
      round with nobody eliminated; otherwise the first leader is eliminated
      and the game either ends or goes on to the next round. */
  function ResolveRound(players: seq<Player>, currentRound: nat, isTie: bool, eliminatedId: string): Resolution {
    if isTie then
      var next := PrepareNextRound(players, currentRound);
      NextClueRound(next.updatedPlayers, next.newRound)
    else
      match ProcessElimination(players, eliminatedId)
      case Err(_) => Unresolved
      case Ok(elimination) =>
        if elimination.gameEnded then
          GameFinished(elimination.updatedPlayers, elimination.winner, elimination.reason)
        else
          var next := PrepareNextRound(elimination.updatedPlayers, currentRound);
          NextClueRound(next.updatedPlayers, next.newRound)
  }

  /** A new round comes exactly one round later, lets everybody give a clue
      and vote again and keeps every clue history; a tie eliminates nobody,
      any other outcome eliminates exactly the players with the leader's id;
      the vote fails to resolve exactly when nobody has that id. */
  lemma ResolveRoundMeaning(players: seq<Player>, currentRound: nat, isTie: bool, eliminatedId: string)
    ensures var r := ResolveRound(players, currentRound, isTie, eliminatedId);
      && (r.Unresolved? <==> !isTie && forall p :: p in players ==> p.id != eliminatedId)
      && (r.NextClueRound? ==> r.round == currentRound + 1 && |r.players| == |players|)
      && (r.NextClueRound? ==> forall i :: 0 <= i < |players| ==>
            !r.players[i].hasVoted && !r.players[i].hasGivenClue && r.players[i].clues == players[i].clues &&
            r.players[i].isImposter == players[i].isImposter && r.players[i].hasLeft == players[i].hasLeft)
      && (r.NextClueRound? && isTie ==> forall i :: 0 <= i < |players| ==> r.players[i].isAlive == players[i].isAlive)
      && (!r.Unresolved? && !isTie ==> forall i :: 0 <= i < |players| ==>
            r.players[i].isAlive == (players[i].isAlive && players[i].id != eliminatedId))
      && (r.GameFinished? ==> |r.players| == |players| && (r.winner.Some? ==> r.reason != ""))
  {
  }

  /** A finished game names a winner consistent with who is left: a civilian
      win leaves no alive imposter and an imposter win leaves one. */
  lemma ResolvedWinnerIsConsistent(players: seq<Player>, currentRound: nat, isTie: bool, eliminatedId: string)
    ensures var r := ResolveRound(players, currentRound, isTie, eliminatedId);
      && (r.GameFinished? && r.winner == Some(Civilians) ==> forall p :: p in r.players && p.isAlive ==> !p.isImposter)
      && (r.GameFinished? && r.winner == Some(Imposters) ==> exists p :: p in r.players && p.isAlive && p.isImposter)
      && (r.NextClueRound? && !isTie ==> |Filter(ProcessElimination(players, eliminatedId).value.updatedPlayers, IsAlive)| >= 2)
  {
    if !isTie && ProcessElimination(players, eliminatedId).Ok? {
      ProcessEliminationMeaning(players, eliminatedId);
    }
  }

  // ----- playAgain on the results screen -----

  /** `resetPlayers` of the results screen's `playAgain`. */
  function ResultsResetPlayers(players: seq<Player>): (r: seq<Player>)
    ensures |r| == |players|
  {
    seq(|players|, i requires 0 <= i < |players| =>
      players[i].(isAlive := true, hasVoted := false, word := "", isImposter := false))
  }

  /** The results screen's reset is the round reset of the game rules with
      every player revived. */
  lemma ResultsResetIsRevivedRoundReset(players: seq<Player>)
    ensures ResultsResetPlayers(players) ==
      seq(|players|, i requires 0 <= i < |players| => ResetGameForNewRound(players).players[i].(isAlive := true))
  {
  }

  /** The two play-again buttons agree exactly on rooms where nobody has a
      clue history, a clue flag or a departure. */
  lemma PlayAgainResetsAgree(players: seq<Player>)
    ensures ResultsResetPlayers(players) == FinishedResetPlayers(players) <==>
      forall i :: 0 <= i < |players| ==> players[i].clues == [] && !players[i].hasGivenClue && !players[i].hasLeft
  {
    if ResultsResetPlayers(players) == FinishedResetPlayers(players) {
      forall i | 0 <= i < |players|
        ensures players[i].clues == [] && !players[i].hasGivenClue && !players[i].hasLeft
      {
        assert ResultsResetPlayers(players)[i] == FinishedResetPlayers(players)[i];
      }
    }
  }

  /** The results screen's reset revives a player who had left but keeps
      them marked as left, so a lobby rendered from its output labels an
      alive player as gone; the finished screen's reset clears the mark. */
  lemma ResultsResetRevivesDeparted(players: seq<Player>, i: nat)
    requires i < |players| && players[i].hasLeft
    ensures ResultsResetPlayers(players)[i].isAlive && ResultsResetPlayers(players)[i].hasLeft
    ensures PlayerStatus(ResultsResetPlayers(players)[i], Waiting) == LeftGame
    ensures PlayerStatus(FinishedResetPlayers(players)[i], Waiting) == Ready
  {
  }

  /** The results screen's reset keeps a set clue flag, so in its output that
      player's own card offers no clue input in the clue phase; the finished
      screen's reset clears the flag and the same card offers one. */
  lemma ResultsResetKeepsClueFlag(players: seq<Player>, i: nat)
    requires i < |players| && players[i].hasGivenClue && !players[i].hasLeft
    ensures ResultsResetPlayers(players)[i].hasGivenClue
    ensures var p := ResultsResetPlayers(players)[i]; !CanGiveClue(p, p, Clue)
    ensures var p := FinishedResetPlayers(players)[i]; CanGiveClue(p, p, Clue)
  {
  }
}
