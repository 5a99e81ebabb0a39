/**
 * What a player card offers and shows: who may give a clue or vote, the
 * status label, the card's border, the clue list and the clue input.
 */
module PlayerCard {
  import opened GameTypes
  import opened JsText

  /** `canGiveClue`: only on one's own card, in the clue phase, while alive,
      present and without a clue this round. */
  predicate CanGiveClue(player: Player, currentPlayer: Player, gameState: GameState) {
    player.id == currentPlayer.id && gameState == Clue && player.isAlive && !player.hasLeft && !player.hasGivenClue
  }

  /** `canVote`: the vote button on somebody else's card. */
  predicate CanVote(player: Player, currentPlayer: Player, gameState: GameState, isVotingEnabled: bool)
    ensures CanVote(player, currentPlayer, gameState, isVotingEnabled) ==>
      && player.id != currentPlayer.id && player.isAlive && !player.hasLeft
      && gameState == Voting && isVotingEnabled && !currentPlayer.hasVoted
  {
    player.id != currentPlayer.id && player.isAlive && !player.hasLeft &&
    gameState == Voting && isVotingEnabled && !currentPlayer.hasVoted
  }

  /** The status labels of `getPlayerStatus`. */
  datatype Status = LeftGame | Eliminated | Voted | ClueGiven | Thinking | Ready

  /** `getPlayerStatus`: the first rule that applies wins. */
  function PlayerStatus(player: Player, gameState: GameState): Status {
    if player.hasLeft then LeftGame
    else if !player.isAlive then Eliminated
    else if gameState == Voting && player.hasVoted then Voted
    else if gameState == Clue && player.isAlive && |player.clues| > 0 then ClueGiven
    else if gameState == Clue && player.isAlive && |player.clues| == 0 then Thinking
    else Ready
  }

  /** The styles of `getCardBorderColor`. */
  datatype Border = LeftBorder | EliminatedBorder | OwnCardBorder | VotedBorder | SelectedBorder | PlainBorder

  /** `getCardBorderColor`: the first rule that applies wins. */
  function CardBorderColor(player: Player, currentPlayer: Player, gameState: GameState, selectedVote: string): Border {
    if player.hasLeft then LeftBorder
    else if !player.isAlive then EliminatedBorder
    else if player.id == currentPlayer.id then OwnCardBorder
    else if player.hasVoted && gameState == Voting then VotedBorder
    else if selectedVote == player.id then SelectedBorder
    else PlainBorder
  }

  /** What each label says about the player, and the status and the border
      agreeing on departed and eliminated players. */
  lemma StatusMeaning(player: Player, currentPlayer: Player, gameState: GameState, selectedVote: string)
    ensures var s := PlayerStatus(player, gameState);
      && (s == LeftGame <==> player.hasLeft)
      && (s == Eliminated <==> !player.hasLeft && !player.isAlive)
      && (s == Voted <==> !player.hasLeft && player.isAlive && gameState == Voting && player.hasVoted)
      && (s == ClueGiven <==> !player.hasLeft && player.isAlive && gameState == Clue && |player.clues| > 0)
      && (s == Thinking <==> !player.hasLeft && player.isAlive && gameState == Clue && player.clues == [])
      && (s == LeftGame <==> CardBorderColor(player, currentPlayer, gameState, selectedVote) == LeftBorder)
      && (s == Eliminated <==> CardBorderColor(player, currentPlayer, gameState, selectedVote) == EliminatedBorder)
  {
  }

  /** Which border each card gets: the first applicable rule of departed,
      eliminated, own card, voted during the vote, selected, plain. */
  lemma BorderMeaning(player: Player, currentPlayer: Player, gameState: GameState, selectedVote: string)
    ensures var b := CardBorderColor(player, currentPlayer, gameState, selectedVote);
      var present := !player.hasLeft && player.isAlive;
      && (b == LeftBorder <==> player.hasLeft)
      && (b == EliminatedBorder <==> !player.hasLeft && !player.isAlive)
      && (b == OwnCardBorder <==> present && player.id == currentPlayer.id)
      && (b == VotedBorder <==> present && player.id != currentPlayer.id && player.hasVoted && gameState == Voting)
      && (b == SelectedBorder <==> present && player.id != currentPlayer.id && !(player.hasVoted && gameState == Voting) && selectedVote == player.id)
      && (b == PlainBorder <==> present && player.id != currentPlayer.id && !(player.hasVoted && gameState == Voting) && selectedVote != player.id)
  {
  }

  /** A card that offers a vote is never the viewer's own and never shows a
      departed or eliminated player: its label is Voted or Ready and its
      border is neither the left, the eliminated nor the own-card one. */
  lemma VoteTargetIsInPlay(player: Player, currentPlayer: Player, gameState: GameState, isVotingEnabled: bool, selectedVote: string)
    requires CanVote(player, currentPlayer, gameState, isVotingEnabled)
    ensures PlayerStatus(player, gameState) in {Voted, Ready}
    ensures CardBorderColor(player, currentPlayer, gameState, selectedVote) !in {LeftBorder, EliminatedBorder, OwnCardBorder}
  {
  }

  /** Whoever may give a clue on their own card is labelled Thinking or Clue Given. */
  lemma ClueGiverIsInClueStatus(player: Player, gameState: GameState)
    requires CanGiveClue(player, player, gameState)
    ensures PlayerStatus(player, gameState) in {ClueGiven, Thinking}
  {
  }

  /** "Clue Given" counts every clue of the game, not this round's: a player
      still allowed to give this round's clue can already carry that label. */
  lemma ClueGivenLabelIgnoresRound()
    ensures exists p: Player :: CanGiveClue(p, p, Clue) && PlayerStatus(p, Clue) == ClueGiven
  {
    var p := Player("p", "Pat", false, true, false, "apple", false, ["red"], false, false);
    assert CanGiveClue(p, p, Clue) && PlayerStatus(p, Clue) == ClueGiven;
  }

  /** One line of the clue list. */
  datatype ClueRow = ClueRow(text: string, roundNumber: nat, isLatest: bool, isCurrent: bool)

  /** `[...clues].reverse().map(...)`: newest first; the clue at index `i` is
      labelled round `i + 1`; the last clue is the latest, and it is the
      current one when its round is the room's round. */
  function ClueRows(clues: seq<string>, currentRound: nat): (rows: seq<ClueRow>)
    ensures |rows| == |clues|
  {
    seq(|clues|, k requires 0 <= k < |clues| =>
      var originalIndex := |clues| - 1 - k;
      var isLatest := originalIndex == |clues| - 1;
      ClueRow(clues[originalIndex], originalIndex + 1, isLatest, isLatest && currentRound == originalIndex + 1))
  }

  /** The list shows every clue once, newest first, each labelled with its
      round; only the top line is the latest, and it is current exactly when
      every round so far has its clue. */
  lemma ClueRowsMeaning(clues: seq<string>, currentRound: nat)
    ensures var rows := ClueRows(clues, currentRound);
      && (forall k :: 0 <= k < |rows| ==> rows[k].text == clues[|clues| - 1 - k])
      && (forall k :: 0 <= k < |rows| ==> rows[k].roundNumber == |clues| - k)
      && (forall k :: 0 <= k < |rows| ==> (rows[k].isLatest <==> k == 0))
      && (forall k :: 0 <= k < |rows| ==> (rows[k].isCurrent <==> k == 0 && currentRound == |clues|))
  {
  }

  /** The texts of a list of rows, read from the bottom up. */
  function TextsBottomUp(rows: seq<ClueRow>): (texts: seq<string>)
    ensures |texts| == |rows|
    ensures forall k :: 0 <= k < |rows| ==> texts[k] == rows[|rows| - 1 - k].text
  {
    seq(|rows|, k requires 0 <= k < |rows| => rows[|rows| - 1 - k].text)
  }

  /** Reading the list from the bottom gives back the clues in the order they
      were given. */
  lemma ClueRowsReadBack(clues: seq<string>, currentRound: nat)
    ensures TextsBottomUp(ClueRows(clues, currentRound)) == clues
  {
    var back := TextsBottomUp(ClueRows(clues, currentRound));
    forall k | 0 <= k < |clues|
      ensures back[k] == clues[k]
    {
      ClueRowText(clues, currentRound, |clues| - 1 - k);
    }
  }

  lemma ClueRowText(clues: seq<string>, currentRound: nat, j: nat)
    requires j < |clues|
    ensures ClueRows(clues, currentRound)[j].text == clues[|clues| - 1 - j]
  {
  }

  /** The "Complete"/"Incomplete" tag, shown only once there is a clue. */
  function CompletenessLabel(clues: seq<string>, currentRound: nat): (r: Option<string>)
    ensures r.Some? <==> |clues| > 0
    ensures r == Some("Complete") <==> |clues| > 0 && |clues| == currentRound
  {
    if |clues| > 0 then Some(if |clues| == currentRound then "Complete" else "Incomplete") else None
  }

  /** The card's `handleAddClue`: the typed clue, trimmed, is forwarded unless
      it is blank or the player may not give a clue. */
  function SubmittedClue(newClue: string, canGiveClue: bool): (r: Option<string>)
    ensures r.Some? <==> canGiveClue && !IsBlank(newClue)
    ensures r.Some? ==> !IsBlank(r.value) && Trim(r.value) == r.value
  {
    TrimIdempotent(newClue);
    if IsBlank(newClue) || !canGiveClue then None else Some(Trim(newClue))
  }
}
