/**
 * The pure part of the game board's handlers: the player lists and
 * verdicts that `handleAddClue`, `startVotingPhase`, `resetWords`,
 * `quitGame`, `handleVote` and the finished screen's `playAgain` write to
 * the room. The room itself, and which fields each handler overwrites,
 * are in module RoomState.
 */
module GameBoard {
  import opened GameTypes
  import opened JsText
  import opened GameLogic
  import opened Lobby
  import opened PlayerCard
  import opened JoinRoomModal

  // ----- handleAddClue -----

  /** The guard of the board's `handleAddClue`. */
  predicate ClueAccepted(clue: string, gameState: GameState, currentPlayer: Player) {
    !IsBlank(clue) && gameState == Clue && !currentPlayer.hasGivenClue
  }

  /** `updatedPlayers` of `handleAddClue`: the clue is appended to the
      giver's history and the giver is marked as having given this round's clue. */
  function ClueAdded(players: seq<Player>, playerId: string, clue: string): (r: seq<Player>)
    ensures |r| == |players|
    ensures forall i :: 0 <= i < |players| && players[i].id != playerId ==> r[i] == players[i]
    ensures forall i :: 0 <= i < |players| && players[i].id == playerId ==>
      r[i].clues == players[i].clues + [clue] && r[i].hasGivenClue &&
      r[i].(clues := players[i].clues, hasGivenClue := players[i].hasGivenClue) == players[i]
  {
    seq(|players|, i requires 0 <= i < |players| =>
      if players[i].id == playerId then players[i].(clues := players[i].clues + [clue], hasGivenClue := true)
      else players[i])
  }

  /** A clue the card forwards passes the board's guard whenever the card
      offered the input. */
  lemma CardClueIsAccepted(me: Player, newClue: string)
    requires CanGiveClue(me, me, Clue)
    requires SubmittedClue(newClue, true).Some?
    ensures ClueAccepted(SubmittedClue(newClue, true).value, Clue, me)
  {
  }

  /** After giving a clue the giver's card no longer offers the input, the
      clue heads the giver's clue list, and the history is complete once it
      has one clue per round. */
  lemma ClueGivenOncePerRound(players: seq<Player>, i: nat, clue: string, currentRound: nat)
    requires i < |players|
    ensures var r := ClueAdded(players, players[i].id, clue);
      && !CanGiveClue(r[i], r[i], Clue)
      && ClueRows(r[i].clues, currentRound)[0].text == clue
      && ClueRows(r[i].clues, currentRound)[0].isLatest
      && (CompletenessLabel(r[i].clues, currentRound) == Some("Complete") <==> |players[i].clues| + 1 == currentRound)
  {
  }

  // ----- startVotingPhase -----

  /** `canStartVoting`: the host, or anybody once the first player marked as
      host has been eliminated. */
  predicate CanStartVoting(currentPlayer: Player, players: seq<Player>) {
    currentPlayer.isHost ||
    (var originalHost := Find(players, (p: Player) => p.isHost);
     originalHost.Some? && !originalHost.value.isAlive)
  }

  /** Who may open the vote, in terms of the players' positions. */
  lemma CanStartVotingMeaning(currentPlayer: Player, players: seq<Player>)
    ensures CanStartVoting(currentPlayer, players) <==>
      currentPlayer.isHost ||
      exists i :: 0 <= i < |players| && players[i].isHost && !players[i].isAlive && forall j :: 0 <= j < i ==> !players[j].isHost
  {
    var originalHost := Find(players, (p: Player) => p.isHost);
    if exists i :: 0 <= i < |players| && players[i].isHost && !players[i].isAlive && forall j :: 0 <= j < i ==> !players[j].isHost {
      var i :| 0 <= i < |players| && players[i].isHost && !players[i].isAlive && forall j :: 0 <= j < i ==> !players[j].isHost;
      assert players[i] in players;
      var k :| 0 <= k < |players| && players[k] == originalHost.value && players[k].isHost && forall j :: 0 <= j < k ==> !players[j].isHost;
      assert k == i;
    }
  }

  // ----- resetWords -----

  /** `updatedPlayers` of `resetWords`: words and roles are dealt as at the
      start of a game, and every clue history and departure is wiped. */
  function WordsReset(players: seq<Player>, imposter: Option<string>, pair: WordPair): (r: seq<Player>)
    ensures |r| == |players|
    ensures forall i :: 0 <= i < |players| ==>
      r[i] == AssignWords(players, imposter, pair)[i].(clues := [], hasGivenClue := false, hasLeft := false)
  {
    var dealt := AssignWords(players, imposter, pair);
    seq(|players|, i requires 0 <= i < |players| => dealt[i].(clues := [], hasGivenClue := false, hasLeft := false))
  }

  /** Resetting the words lets every alive player give a clue again, and turns
      a player who had left into an eliminated one: the departure flag is
      cleared but the player stays dead. */
  lemma WordsResetReopensClues(players: seq<Player>, imposter: Option<string>, pair: WordPair, i: nat)
    requires i < |players|
    ensures var r := WordsReset(players, imposter, pair);
      && (players[i].isAlive ==> CanGiveClue(r[i], r[i], Clue) && PlayerStatus(r[i], Clue) == Thinking)
      && (players[i].hasLeft && !players[i].isAlive ==> PlayerStatus(r[i], Clue) == Eliminated)
  {
  }

  // ----- handleVote -----

  /** `updatedPlayers` of `handleVote`: the voter is marked as having voted. */
  function VoteCast(players: seq<Player>, voterId: string): (r: seq<Player>)
    ensures |r| == |players|
    ensures forall i :: 0 <= i < |players| ==>
      r[i] == if players[i].id == voterId then players[i].(hasVoted := true) else players[i]
  {
    seq(|players|, i requires 0 <= i < |players| =>
      if players[i].id == voterId then players[i].(hasVoted := true) else players[i])
  }

  /** The test that closes the vote: as many ballots as alive players. */
  predicate VotingComplete(votes: map<string, string>, players: seq<Player>) {
    |votes.Keys| == |Filter(players, IsAlive)|
  }

  /** When only alive players vote, the vote closes exactly when every alive
      player has voted. */
  lemma VotingCompleteMeaning(votes: map<string, string>, players: seq<Player>)
    requires UniqueIds(players)
    requires votes.Keys <= IdSet(Filter(players, IsAlive))
    ensures VotingComplete(votes, players) <==> votes.Keys == IdSet(Filter(players, IsAlive))
  {
    var alive := Filter(players, IsAlive);
    FilterUniqueIds(players, IsAlive);
    IdSetSize(alive);
    if |votes.Keys| == |alive| {
      SubsetOfSameSize(votes.Keys, IdSet(alive));
    }
  }

  /** A subset as large as its superset is the whole superset. */
  lemma SubsetOfSameSize(a: set<string>, b: set<string>)
    requires a <= b && |a| == |b|
    ensures a == b
  {
    if a != b {
      var m :| m in b && m !in a;
      assert a <= b - {m};
      SubsetSize(a, b - {m});
    }
  }

  lemma {:induction false} SubsetSize(a: set<string>, b: set<string>)
    requires a <= b
    ensures |a| <= |b|
  {
    if a != {} {
      var x :| x in a;
      SubsetSize(a - {x}, b - {x});
    }
  }

  // ----- quitGame during a game -----

  /** The leaver is marked as left and no longer alive. */
  function MarkLeft(players: seq<Player>, leaverId: string): (r: seq<Player>)
    ensures |r| == |players|
    ensures forall i :: 0 <= i < |players| ==>
      r[i] == if players[i].id == leaverId then players[i].(hasLeft := true, isAlive := false) else players[i]
  {
    seq(|players|, i requires 0 <= i < |players| =>
      if players[i].id == leaverId then players[i].(hasLeft := true, isAlive := false) else players[i])
  }

  /** The host role moves to the first player who has not left, and to nobody
      else; with nobody left in the game nothing changes. */
  function HostTransferred(players: seq<Player>): (r: seq<Player>)
    ensures |r| == |players|
  {
    match Find(players, IsActive)
    case None => players
    case Some(active) => HostFlagsFor(players, active.id)
  }

  /** Every host flag set exactly for the given id. */
  function HostFlagsFor(players: seq<Player>, id: string): (r: seq<Player>)
    ensures |r| == |players|
    ensures forall i :: 0 <= i < |players| ==> r[i] == players[i].(isHost := players[i].id == id)
  {
    seq(|players|, i requires 0 <= i < |players| => players[i].(isHost := players[i].id == id))
  }

  /** The host transfer names exactly the first active player, changes
      nothing but the host flags, and leaves everything as it was when every
      player has left. */
  lemma HostTransferredMeaning(players: seq<Player>)
    requires UniqueIds(players)
    ensures var r := HostTransferred(players);
      && (forall i :: 0 <= i < |players| ==> r[i].(isHost := players[i].isHost) == players[i])
      && ((forall i :: 0 <= i < |players| ==> players[i].hasLeft) ==> r == players)
      && ((exists i :: 0 <= i < |players| && !players[i].hasLeft) ==>
            exists k :: 0 <= k < |players| && !players[k].hasLeft && (forall j :: 0 <= j < k ==> players[j].hasLeft) &&
              forall i :: 0 <= i < |players| ==> (HostTransferred(players)[i].isHost <==> i == k))
  {
    var found := Find(players, IsActive);
    if found.Some? {
      var k :| 0 <= k < |players| && players[k] == found.value && IsActive(players[k]) && forall j :: 0 <= j < k ==> !IsActive(players[j]);
      HostFlagsForOne(players, k);
      assert !players[k].hasLeft;
    } else {
      HostStaysWhenAllLeft(players);
    }
  }

  lemma HostStaysWhenAllLeft(players: seq<Player>)
    requires Find(players, IsActive).None?
    ensures forall i :: 0 <= i < |players| ==> players[i].hasLeft
  {
    forall i | 0 <= i < |players| ensures players[i].hasLeft {
      assert players[i] in players;
    }
  }

  /** With distinct ids, setting the host flags for one player's id makes
      exactly that player host. */
  lemma HostFlagsForOne(players: seq<Player>, k: nat)
    requires UniqueIds(players) && k < |players|
    ensures forall i :: 0 <= i < |players| ==> (HostFlagsFor(players, players[k].id)[i].isHost <==> i == k)
  {
    forall i | 0 <= i < |players| ensures HostFlagsFor(players, players[k].id)[i].isHost <==> i == k {
      if i != k {
        assert players[i].id != players[k].id;
      }
    }
  }

  /** `finalPlayers` of an in-game `quitGame`. */
  function QuitPlayers(players: seq<Player>, leaver: Player): (r: seq<Player>)
    ensures |r| == |players|
  {
    var updated := MarkLeft(players, leaver.id);
    if leaver.isHost then HostTransferred(updated) else updated
  }

  /** The leaver is out of the game; nobody else changes except, when the
      host leaves, the host flags. */
  lemma QuitPlayersMeaning(players: seq<Player>, leaver: Player)
    requires UniqueIds(players)
    ensures var r := QuitPlayers(players, leaver);
      && (forall i :: 0 <= i < |players| && players[i].id == leaver.id ==> r[i].hasLeft && !r[i].isAlive)
      && (forall i :: 0 <= i < |players| && players[i].id != leaver.id ==>
            r[i].(isHost := players[i].isHost) == players[i])
      && (!leaver.isHost ==> forall i :: 0 <= i < |players| ==> r[i].isHost == players[i].isHost)
  {
    var updated := MarkLeft(players, leaver.id);
    assert UniqueIds(updated) by {
      assert forall i :: 0 <= i < |players| ==> updated[i].id == players[i].id;
    }
    if leaver.isHost {
      HostTransferredMeaning(updated);
    }
  }

  /** What `quitGame` decides once the leaver is out. */
  datatype QuitOutcome = KeepPlaying | GameOver(winner: Option<Team>, reason: string)

  const AllLeftReason := "All players left the game."
  const QuitImpostersReason := "The imposter survived - imposters win!"
  const RemainingLeftReason := "All remaining players left the game."
  const QuitCiviliansReason := "All imposters eliminated - civilians win!"

  /** The end-of-game test of an in-game `quitGame`, in its order. */
  function QuitVerdict(finalPlayers: seq<Player>): QuitOutcome {
    var activePlayers := Filter(finalPlayers, IsActive);
    var aliveActivePlayers := Filter(activePlayers, IsAlive);
    if |activePlayers| == 0 then GameOver(None, AllLeftReason)
    else if |aliveActivePlayers| <= 2 then
      var aliveImposters := Filter(aliveActivePlayers, IsImposter);
      if |aliveImposters| > 0 then GameOver(Some(Imposters), QuitImpostersReason)
      else if |aliveActivePlayers| == 0 then GameOver(None, RemainingLeftReason)
      else GameOver(Some(Civilians), QuitCiviliansReason)
    else KeepPlaying
  }

  /** The four outcomes of the quit test in terms of the active players, the
      alive active players and the alive active imposters that remain. */
  lemma QuitVerdictOutcomes(finalPlayers: seq<Player>)
    ensures var v := QuitVerdict(finalPlayers);
      var active := |Filter(finalPlayers, IsActive)|;
      var alive := |Filter(Filter(finalPlayers, IsActive), IsAlive)|;
      var imposters := |Filter(Filter(Filter(finalPlayers, IsActive), IsAlive), IsImposter)|;
      && (v == KeepPlaying <==> alive > 2)
      && (v.GameOver? && v.winner == Some(Imposters) <==> alive <= 2 && imposters > 0)
      && (v.GameOver? && v.winner == Some(Civilians) <==> 0 < alive <= 2 && imposters == 0)
      && (v.GameOver? && v.winner.None? <==> alive == 0)
  {
    var active := Filter(finalPlayers, IsActive);
    var alive := Filter(active, IsAlive);
    var imposters := Filter(alive, IsImposter);
    assert |imposters| <= |alive| <= |active|;
  }

  /** With distinct ids, marking an active player as left leaves exactly one
      active player fewer. */
  lemma {:induction false} MarkLeftRemovesOneActive(players: seq<Player>, id: string)
    requires UniqueIds(players)
    requires exists i :: 0 <= i < |players| && players[i].id == id && !players[i].hasLeft
    ensures |Filter(MarkLeft(players, id), IsActive)| == |Filter(players, IsActive)| - 1
  {
    var rest := players[1..];
    assert UniqueIds(rest);
    assert MarkLeft(players, id) == [MarkLeft(players, id)[0]] + MarkLeft(rest, id);
    if players[0].id == id {
      forall i | 0 <= i < |rest| ensures rest[i].id != id {
        assert rest[i] == players[i + 1];
      }
      assert MarkLeft(rest, id) == rest;
    } else {
      var i :| 0 <= i < |players| && players[i].id == id && !players[i].hasLeft;
      assert rest[i - 1] == players[i];
      MarkLeftRemovesOneActive(rest, id);
    }
  }

  /** In a room where everybody is alive and present, quitting removes exactly
      the leaver from the players still in the game, all of whom are alive. */
  lemma QuitFromFullRoom(players: seq<Player>, leaver: Player)
    requires UniqueIds(players) && leaver in players && !leaver.isHost
    requires forall p :: p in players ==> p.isAlive && !p.hasLeft
    ensures var active := Filter(QuitPlayers(players, leaver), IsActive);
      && |active| == |players| - 1
      && Filter(active, IsAlive) == active
      && forall p :: p in active ==> p in players && p.id != leaver.id
  {
    var after := MarkLeft(players, leaver.id);
    assert QuitPlayers(players, leaver) == after;
    ActiveAfterQuitCount(players, leaver);
    ActiveAfterQuitMembers(players, leaver);
    FilterKeepsAll(Filter(after, IsActive), IsAlive);
  }

  lemma ActiveAfterQuitCount(players: seq<Player>, leaver: Player)
    requires UniqueIds(players) && leaver in players
    requires forall i :: 0 <= i < |players| ==> !players[i].hasLeft
    ensures |Filter(MarkLeft(players, leaver.id), IsActive)| == |players| - 1
  {
    FilterKeepsAll(players, IsActive);
    var k :| 0 <= k < |players| && players[k] == leaver;
    MarkLeftRemovesOneActive(players, leaver.id);
  }

  lemma ActiveAfterQuitMembers(players: seq<Player>, leaver: Player)
    requires forall p :: p in players ==> p.isAlive
    ensures forall i :: 0 <= i < |Filter(MarkLeft(players, leaver.id), IsActive)| ==>
      var p := Filter(MarkLeft(players, leaver.id), IsActive)[i];
      p in players && p.id != leaver.id && p.isAlive
  {
    var after := MarkLeft(players, leaver.id);
    var active := Filter(after, IsActive);
    forall i | 0 <= i < |active| ensures active[i] in players && active[i].id != leaver.id && active[i].isAlive {
      assert active[i] in active;
      var j :| 0 <= j < |after| && after[j] == active[i];
      assert players[j] in players;
    }
  }

  /** When the only imposter quits a full room of at least four, the game
      goes on without any imposter left alive, whereas voting the same
      imposter out would end it with a civilian win. */
  lemma QuittingImposterKeepsGameGoing(players: seq<Player>, leaver: Player)
    requires UniqueIds(players) && leaver in players && !leaver.isHost && leaver.isImposter
    requires forall p :: p in players ==> p.isAlive && !p.hasLeft
    requires forall p :: p in players && p.isImposter ==> p.id == leaver.id
    requires |players| >= 4
    ensures QuitVerdict(QuitPlayers(players, leaver)) == KeepPlaying
    ensures forall p :: p in QuitPlayers(players, leaver) && p.isAlive ==> !p.isImposter
    ensures ProcessElimination(players, leaver.id).Ok?
    ensures ProcessElimination(players, leaver.id).value.winner == Some(Civilians)
  {
    QuitFromFullRoom(players, leaver);
    var after := QuitPlayers(players, leaver);
    forall p | p in after && p.isAlive ensures !p.isImposter {
      var i :| 0 <= i < |after| && after[i] == p;
    }
    SoleImposterEliminated(players, leaver.id);
  }

  /** When a civilian quits a full room of three with no imposter left, the
      game ends with a civilian win, whereas voting the same civilian out lets
      the game go on. */
  lemma QuittingCivilianEndsGame(players: seq<Player>, leaver: Player)
    requires UniqueIds(players) && leaver in players && !leaver.isHost
    requires forall p :: p in players ==> p.isAlive && !p.hasLeft && !p.isImposter
    requires |players| == 3
    ensures QuitVerdict(QuitPlayers(players, leaver)) == GameOver(Some(Civilians), QuitCiviliansReason)
    ensures ProcessElimination(players, leaver.id).Ok?
    ensures !ProcessElimination(players, leaver.id).value.gameEnded
  {
    QuitFromFullRoom(players, leaver);
    var active := Filter(QuitPlayers(players, leaver), IsActive);
    forall i | 0 <= i < |active| ensures !active[i].isImposter {
      assert active[i] in active;
    }
    FilterCountZero(active, IsImposter);
    EliminatingCivilianContinues(players, leaver);
  }

  /** The voting half: with no imposter, voting one of three alive players
      out leaves two and the game goes on. */
  lemma EliminatingCivilianContinues(players: seq<Player>, leaver: Player)
    requires UniqueIds(players) && leaver in players
    requires forall p :: p in players ==> p.isAlive && !p.isImposter
    requires |players| == 3
    ensures ProcessElimination(players, leaver.id).Ok?
    ensures !ProcessElimination(players, leaver.id).value.gameEnded
  {
    var k :| 0 <= k < |players| && players[k] == leaver;
    EliminationMarks(players, leaver.id);
    var updated := MarkEliminated(players, leaver.id);
    FilterKeepsAll(players, IsAlive);
    EliminationRemovesOneAlive(players, leaver.id);
    CiviliansStayCivilians(players, leaver.id);
    VerdictOutcomes(FindById(players, leaver.id).value, updated);
  }

  /** Eliminating somebody from a room without imposters leaves none alive. */
  lemma CiviliansStayCivilians(players: seq<Player>, id: string)
    requires forall p :: p in players ==> !p.isImposter
    ensures |Filter(Filter(MarkEliminated(players, id), IsAlive), IsImposter)| == 0
  {
    var updated := MarkEliminated(players, id);
    var alive := Filter(updated, IsAlive);
    forall i | 0 <= i < |alive| ensures !alive[i].isImposter {
      assert alive[i] in alive;
      var j :| 0 <= j < |updated| && updated[j] == alive[i];
      assert players[j] in players;
    }
    FilterCountZero(alive, IsImposter);
  }

  // ----- quitGame before a game -----

  /** `finalPlayers` of `quitGame` in the lobby: the leaver is removed and,
      when the host leaves, the first remaining player becomes host. */
  function LobbyQuitPlayers(players: seq<Player>, leaver: Player): (r: seq<Player>)
    ensures |r| <= |players|
  {
    var remaining := Filter(players, (p: Player) => p.id != leaver.id);
    if leaver.isHost && |remaining| > 0 then remaining[0 := remaining[0].(isHost := true)] else remaining
  }

  /** The others stay in the lobby in their order, each unchanged, except
      that when the host leaves and someone remains the first of them becomes
      host; a non-host leaving changes nobody else. */
  lemma LobbyQuitPlayersMeaning(players: seq<Player>, leaver: Player)
    ensures var r := LobbyQuitPlayers(players, leaver);
      var others := Filter(players, (p: Player) => p.id != leaver.id);
      && |r| == |others|
      && (forall i :: 0 <= i < |r| ==>
            r[i] == if i == 0 && leaver.isHost then others[i].(isHost := true) else others[i])
      && (!leaver.isHost ==> r == others)
      && (forall q :: q in r ==> q.id != leaver.id)
      && (forall p :: p in players && p.id != leaver.id ==> p in r || p.(isHost := true) in r)
      && (forall q :: q in r ==> q in players || q.(isHost := false) in players)
      && (leaver.isHost && |r| > 0 ==> r[0].isHost)
  {
    var remaining := Filter(players, (p: Player) => p.id != leaver.id);
    var r := LobbyQuitPlayers(players, leaver);
    if leaver.isHost && |remaining| > 0 {
      forall p | p in players && p.id != leaver.id ensures p in r || p.(isHost := true) in r {
        var k :| 0 <= k < |remaining| && remaining[k] == p;
        if k == 0 {
          assert r[0] == p.(isHost := true);
        } else {
          assert r[k] == p;
        }
      }
      forall q | q in r ensures q.id != leaver.id && (q in players || q.(isHost := false) in players) {
        var k :| 0 <= k < |r| && r[k] == q;
        if k == 0 {
          assert remaining[0] in remaining;
          assert remaining[0] in players;
          if !remaining[0].isHost {
            assert q.(isHost := false) == remaining[0];
          } else {
            assert q == remaining[0];
          }
        } else {
          assert q == remaining[k] && remaining[k] in remaining;
        }
      }
    }
  }

  // ----- playAgain on the finished screen -----

  /** `resetPlayers` of the finished screen's `playAgain`. */
  function FinishedResetPlayers(players: seq<Player>): (r: seq<Player>)
    ensures |r| == |players|
  {
    seq(|players|, i requires 0 <= i < |players| =>
      players[i].(isAlive := true, hasVoted := false, word := "", isImposter := false,
                  clues := [], hasGivenClue := false, hasLeft := false))
  }

  /** Playing again from the finished screen puts every player back exactly
      as they joined the room, keeping only id, name and host flag. */
  lemma FinishedResetIsRejoin(players: seq<Player>)
    requires forall p :: p in players ==> Trim(p.name) == p.name
    ensures var r := FinishedResetPlayers(players);
      forall i :: 0 <= i < |players| ==> r[i] == NewPlayer(players[i].id, players[i].name).(isHost := players[i].isHost)
  {
    var r := FinishedResetPlayers(players);
    forall i | 0 <= i < |players|
      ensures r[i] == NewPlayer(players[i].id, players[i].name).(isHost := players[i].isHost)
    {
      assert players[i] in players;
    }
  }
}
