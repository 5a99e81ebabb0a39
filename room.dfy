/**
 * A room as the handlers see it: one object whose fields the handlers
 * overwrite, as every handler overwrites the fields of the stored room
 * document. Each method is one handler; its guard decides whether anything
 * is written, and its postcondition states every field afterwards.
 */
module RoomState {
  import opened GameTypes
  import opened JsText
  import opened GameLogic
  import opened GameUtils
  import opened Lobby
  import opened JoinRoomModal
  import opened GameBoard
  import opened Results

  /** Ids stay distinct, `Starting` is never entered, and a room in the
      lobby is at round 0 with no ballots and only alive players. */
  ghost predicate RoomInvariant(players: seq<Player>, gameState: GameState, currentRound: nat, votes: map<string, string>) {
    && UniqueIds(players)
    && gameState != Starting
    && (gameState == Waiting ==> currentRound == 0 && votes == map[] && forall p :: p in players ==> p.isAlive)
  }

  class Room {
    const id: string
    var hostId: string
    var players: seq<Player>
    var maxPlayers: int
    var gameState: GameState
    var currentRound: nat
    var votes: map<string, string>          // voter id to the id voted for
    var showImposterRole: bool
    var usedWordPairs: seq<string>          // categories dealt so far
    var winner: Option<Team>
    var gameEndReason: string

    /** The room invariant holds of the current fields. */
    ghost predicate Valid()
      reads this
    {
      RoomInvariant(players, gameState, currentRound, votes)
    }

    /** A room in the lobby whose only player is its creator. */
    constructor Create(code: string, host: Player, maxPlayers: int, showImposterRole: bool)
      requires host.isAlive
      ensures Valid()
      ensures id == code && hostId == host.id && this.maxPlayers == maxPlayers && this.showImposterRole == showImposterRole
      ensures players == [host]
      ensures gameState == Waiting && currentRound == 0 && votes == map[] && usedWordPairs == []
      ensures winner == None && gameEndReason == ""
    {
      id := code;
      hostId := host.id;
      players := [host];
      this.maxPlayers := maxPlayers;
      gameState := Waiting;
      currentRound := 0;
      votes := map[];
      this.showImposterRole := showImposterRole;
      usedWordPairs := [];
      winner := None;
      gameEndReason := "";
    }

    /** The lobby's `startGame`. */
    method StartGame(me: Player, pick: nat, pair: WordPair)
      requires Valid() && me in players
      requires ValidPick(|AliveIds(players)|, pick)
      modifies this
      ensures Valid()
      ensures CanStartGame(me, old(players)) ==>
        && players == AssignWords(old(players), SelectRandomImposter(AliveIds(old(players)), pick), pair)
        && gameState == Clue && currentRound == 1 && votes == map[]
        && usedWordPairs == old(usedWordPairs) + [pair.category]
      ensures !CanStartGame(me, old(players)) ==>
        players == old(players) && gameState == old(gameState) && currentRound == old(currentRound) &&
        votes == old(votes) && usedWordPairs == old(usedWordPairs)
      ensures hostId == old(hostId) && maxPlayers == old(maxPlayers) && showImposterRole == old(showImposterRole)
      ensures winner == old(winner) && gameEndReason == old(gameEndReason)
      ensures old(gameState) == Waiting && CanStartGame(me, old(players)) ==> OneAliveImposter(players, pair)
    {
      if !CanStartGame(me, players) {
        return;
      }
      var imposter := SelectRandomImposter(AliveIds(players), pick);
      var dealt := AssignWords(players, imposter, pair);
      if gameState == Waiting {
        assert players[0] in players;
        StartCastsOneImposter(players, pick, pair);
      }
      DealKeepsIdsUnique(players, imposter, pair);
      players := dealt;
      gameState := Clue;
      currentRound := 1;
      votes := map[];
      usedWordPairs := usedWordPairs + [pair.category];
    }

    /** The board's `handleAddClue`; `allGaveClues` stands for
        `checkAllPlayersGaveClues`, whose definition is not part of this
        model, and the delayed switch to voting is taken at once. */
    method AddClue(me: Player, clue: string, allGaveClues: seq<Player> -> bool)
      requires Valid() && me in players
      modifies this
      ensures Valid()
      ensures ClueAccepted(clue, old(gameState), me) ==>
        players == ClueAdded(old(players), me.id, clue) &&
        gameState == (if allGaveClues(players) then Voting else Clue)
      ensures !ClueAccepted(clue, old(gameState), me) ==> players == old(players) && gameState == old(gameState)
      ensures hostId == old(hostId) && maxPlayers == old(maxPlayers) && showImposterRole == old(showImposterRole)
      ensures currentRound == old(currentRound) && votes == old(votes) && usedWordPairs == old(usedWordPairs)
      ensures winner == old(winner) && gameEndReason == old(gameEndReason)
    {
      if !ClueAccepted(clue, gameState, me) {
        return;
      }
      var updated := ClueAdded(players, me.id, clue);
      SameIdsKeepUnique(players, updated);
      players := updated;
      if allGaveClues(updated) {
        gameState := Voting;
      }
    }

    /** The board's `startVotingPhase`. */
    method StartVotingPhase(me: Player)
      requires Valid() && me in players
      modifies this
      ensures Valid()
      ensures gameState == (if CanStartVoting(me, old(players)) && old(gameState) == Clue then Voting else old(gameState))
      ensures players == old(players) && hostId == old(hostId) && maxPlayers == old(maxPlayers)
      ensures showImposterRole == old(showImposterRole) && currentRound == old(currentRound) && votes == old(votes)
      ensures usedWordPairs == old(usedWordPairs) && winner == old(winner) && gameEndReason == old(gameEndReason)
    {
      if CanStartVoting(me, players) && gameState == Clue {
        gameState := Voting;
      }
    }

    /** The board's `resetWords`, with the confirmation answered yes. */
    method ResetWords(me: Player, pick: nat, pair: WordPair)
      requires Valid() && me in players
      requires ValidPick(|AliveIds(players)|, pick)
      modifies this
      ensures Valid()
      ensures me.isHost && old(gameState) == Clue ==>
        && players == WordsReset(old(players), SelectRandomImposter(AliveIds(old(players)), pick), pair)
        && usedWordPairs == old(usedWordPairs) + [pair.category]
        && votes == map[]
      ensures !(me.isHost && old(gameState) == Clue) ==>
        players == old(players) && usedWordPairs == old(usedWordPairs) && votes == old(votes)
      ensures gameState == old(gameState) && currentRound == old(currentRound)
      ensures hostId == old(hostId) && maxPlayers == old(maxPlayers) && showImposterRole == old(showImposterRole)
      ensures winner == old(winner) && gameEndReason == old(gameEndReason)
    {
      if !me.isHost || gameState != Clue {
        return;
      }
      var dealt := WordsReset(players, SelectRandomImposter(AliveIds(players), pick), pair);
      SameIdsKeepUnique(players, dealt);
      players := dealt;
      usedWordPairs := usedWordPairs + [pair.category];
      votes := map[];
    }

    /** The board's `quitGame`, with the confirmation answered yes: during a
        game the leaver is marked as left and the game may end; before it
        the leaver is removed. */
    method QuitGame(me: Player)
      requires Valid() && me in players
      modifies this
      ensures Valid()
      ensures old(gameState) !in {Waiting, Starting} ==>
        var finalPlayers := QuitPlayers(old(players), me);
        && players == finalPlayers
        && match QuitVerdict(finalPlayers)
           case KeepPlaying =>
             gameState == old(gameState) && winner == old(winner) && gameEndReason == old(gameEndReason)
           case GameOver(w, reason) =>
             gameState == Finished && winner == w && gameEndReason == reason
      ensures old(gameState) in {Waiting, Starting} ==>
        players == LobbyQuitPlayers(old(players), me) && gameState == old(gameState) &&
        winner == old(winner) && gameEndReason == old(gameEndReason)
      ensures hostId == old(hostId) && maxPlayers == old(maxPlayers) && showImposterRole == old(showImposterRole)
      ensures currentRound == old(currentRound) && votes == old(votes) && usedWordPairs == old(usedWordPairs)
    {
      if gameState != Waiting && gameState != Starting {
        var finalPlayers := QuitPlayers(players, me);
        QuitKeepsIds(players, me);
        SameIdsKeepUnique(players, finalPlayers);
        players := finalPlayers;
        match QuitVerdict(finalPlayers)
        case KeepPlaying =>
        case GameOver(w, reason) =>
          gameState := Finished;
          winner := w;
          gameEndReason := reason;
      } else {
        var remaining := LobbyQuitPlayers(players, me);
        LobbyQuitKeepsRoomValid(players, me);
        players := remaining;
      }
    }

    /** The board's `handleVote`: the ballot is recorded and the voter marked;
        the vote closes once there are as many ballots as players that were
        alive when it was cast. */
    method HandleVote(me: Player, votedPlayerId: string)
      requires Valid() && me in players
      modifies this
      ensures Valid()
      ensures old(gameState) == Voting && !me.hasVoted ==>
        && votes == old(votes)[me.id := votedPlayerId]
        && players == VoteCast(old(players), me.id)
        && gameState == (if VotingComplete(votes, old(players)) then Results else Voting)
      ensures !(old(gameState) == Voting && !me.hasVoted) ==>
        votes == old(votes) && players == old(players) && gameState == old(gameState)
      ensures hostId == old(hostId) && maxPlayers == old(maxPlayers) && showImposterRole == old(showImposterRole)
      ensures currentRound == old(currentRound) && usedWordPairs == old(usedWordPairs)
      ensures winner == old(winner) && gameEndReason == old(gameEndReason)
    {
      if gameState != Voting || me.hasVoted {
        return;
      }
      var alivePlayers := Filter(players, IsAlive);
      var updatedPlayers := VoteCast(players, me.id);
      SameIdsKeepUnique(players, updatedPlayers);
      votes := votes[me.id := votedPlayerId];
      players := updatedPlayers;
      if |votes.Keys| == |alivePlayers| {
        gameState := Results;
      }
    }

    /** The finished screen's `playAgain`, offered only once the game is over. */
    method PlayAgainFromFinished(me: Player)
      requires Valid() && me in players && gameState == Finished
      modifies this
      ensures Valid()
      ensures me.isHost ==>
        && players == FinishedResetPlayers(old(players))
        && gameState == Waiting && currentRound == 0 && votes == map[] && usedWordPairs == []
        && winner == None && gameEndReason == ""
      ensures !me.isHost ==>
        players == old(players) && gameState == old(gameState) && currentRound == old(currentRound) &&
        votes == old(votes) && usedWordPairs == old(usedWordPairs) && winner == old(winner) &&
        gameEndReason == old(gameEndReason)
      ensures hostId == old(hostId) && maxPlayers == old(maxPlayers) && showImposterRole == old(showImposterRole)
    {
      if !me.isHost {
        return;
      }
      var reset := FinishedResetPlayers(players);
      SameIdsKeepUnique(players, reset);
      players := reset;
      gameState := Waiting;
      currentRound := 0;
      votes := map[];
      usedWordPairs := [];
      winner := None;
      gameEndReason := "";
    }

    /** The results screen's `processResults`, run once the vote has closed;
        it returns where the vote left the room. With no ballot the tally
        names no leader, the elimination throws and nothing is written. */
    method ProcessResults() returns (res: Resolution)
      requires Valid() && gameState == Results
      modifies this
      ensures Valid()
      ensures old(votes) == map[] ==> res == Unresolved
      ensures old(votes) != map[] && (forall c :: !UniqueLeader(old(votes), c)) ==>
        res == ResolveRound(old(players), old(currentRound), true, "")
      ensures forall c :: UniqueLeader(old(votes), c) ==>
        res == ResolveRound(old(players), old(currentRound), false, c)
      ensures res.NextClueRound? ==>
        players == res.players && gameState == Clue && currentRound == res.round && votes == map[] &&
        winner == old(winner) && gameEndReason == old(gameEndReason)
      ensures res.GameFinished? ==>
        players == res.players && gameState == Finished && winner == res.winner && gameEndReason == res.reason &&
        currentRound == old(currentRound) && votes == old(votes)
      ensures res.Unresolved? ==>
        players == old(players) && gameState == old(gameState) && currentRound == old(currentRound) &&
        votes == old(votes) && winner == old(winner) && gameEndReason == old(gameEndReason)
      ensures hostId == old(hostId) && maxPlayers == old(maxPlayers) && showImposterRole == old(showImposterRole)
      ensures usedWordPairs == old(usedWordPairs)
    {
      if votes == map[] {
        return Unresolved;
      }
      var isTie, leader := Tally(votes);
      res := ResolveRound(players, currentRound, isTie, leader);
      forall c | UniqueLeader(votes, c) ensures res == ResolveRound(players, currentRound, false, c) {
        UniqueLeaderIsUnique(votes, c, leader);
      }
      ResolveRoundKeepsIds(players, currentRound, isTie, leader);
      Apply(res);
    }

    /** Writes a resolved vote to the room. */
    method Apply(res: Resolution)
      requires Valid() && gameState == Results
      requires res.NextClueRound? ==> SameIds(players, res.players)
      requires res.GameFinished? ==> SameIds(players, res.players)
      modifies this
      ensures Valid()
      ensures res.NextClueRound? ==>
        players == res.players && gameState == Clue && currentRound == res.round && votes == map[] &&
        winner == old(winner) && gameEndReason == old(gameEndReason)
      ensures res.GameFinished? ==>
        players == res.players && gameState == Finished && winner == res.winner && gameEndReason == res.reason &&
        currentRound == old(currentRound) && votes == old(votes)
      ensures res.Unresolved? ==>
        players == old(players) && gameState == old(gameState) && currentRound == old(currentRound) &&
        votes == old(votes) && winner == old(winner) && gameEndReason == old(gameEndReason)
      ensures hostId == old(hostId) && maxPlayers == old(maxPlayers) && showImposterRole == old(showImposterRole)
      ensures usedWordPairs == old(usedWordPairs)
    {
      match res
      case NextClueRound(next, round) =>
        SameIdsKeepUnique(players, next);
        players := next;
        gameState := Clue;
        currentRound := round;
        votes := map[];
      case GameFinished(final, w, reason) =>
        SameIdsKeepUnique(players, final);
        players := final;
        gameState := Finished;
        winner := w;
        gameEndReason := reason;
      case Unresolved =>
    }

    /** The checks of `handleJoinRoom` on the room found, and the append. */
    method Join(playerName: string, playerId: string) returns (outcome: JoinOutcome)
      requires Valid()
      requires forall p :: p in players ==> p.id != playerId
      modifies this
      ensures Valid()
      ensures match CheckJoin(old(gameState), old(players), old(maxPlayers), playerName)
        case Some(e) => outcome == Rejected(e) && players == old(players)
        case None => outcome == Joined(NewPlayer(playerId, playerName)) && players == old(players) + [outcome.player]
      ensures outcome.Joined? || unchanged(this)
      ensures hostId == old(hostId) && maxPlayers == old(maxPlayers) && gameState == old(gameState)
      ensures currentRound == old(currentRound) && votes == old(votes) && showImposterRole == old(showImposterRole)
      ensures usedWordPairs == old(usedWordPairs) && winner == old(winner) && gameEndReason == old(gameEndReason)
    {
      var check := CheckJoin(gameState, players, maxPlayers, playerName);
      if check.Some? {
        return Rejected(check.value);
      }
      var newPlayer := NewPlayer(playerId, playerName);
      AddPlayer(newPlayer);
      outcome := Joined(newPlayer);
    }

    /** Appends an alive player with a fresh id to a room in the lobby. */
    method AddPlayer(newPlayer: Player)
      requires Valid() && gameState == Waiting && newPlayer.isAlive
      requires forall p :: p in players ==> p.id != newPlayer.id
      modifies this
      ensures Valid()
      ensures players == old(players) + [newPlayer]
      ensures hostId == old(hostId) && maxPlayers == old(maxPlayers) && gameState == old(gameState)
      ensures currentRound == old(currentRound) && votes == old(votes) && showImposterRole == old(showImposterRole)
      ensures usedWordPairs == old(usedWordPairs) && winner == old(winner) && gameEndReason == old(gameEndReason)
    {
      JoinKeepsInvariant(players, gameState, currentRound, votes, newPlayer);
      players := players + [newPlayer];
    }

    /** The results screen's `playAgain`. */
    method PlayAgainFromResults(me: Player)
      requires Valid() && me in players && gameState == Results
      modifies this
      ensures Valid()
      ensures me.isHost ==>
        && players == ResultsResetPlayers(old(players))
        && gameState == Waiting && currentRound == 0 && votes == map[] && usedWordPairs == []
      ensures !me.isHost ==>
        players == old(players) && gameState == old(gameState) && currentRound == old(currentRound) &&
        votes == old(votes) && usedWordPairs == old(usedWordPairs)
      ensures hostId == old(hostId) && maxPlayers == old(maxPlayers) && showImposterRole == old(showImposterRole)
      ensures winner == old(winner) && gameEndReason == old(gameEndReason)
    {
      if !me.isHost {
        return;
      }
      var reset := ResultsResetPlayers(players);
      SameIdsKeepUnique(players, reset);
      players := reset;
      gameState := Waiting;
      currentRound := 0;
      votes := map[];
      usedWordPairs := [];
    }
  }

  /** The creation dialog's `handleCreateRoom`: nothing is created for a blank
      name; otherwise the room holds its creator alone, as host, under the
      generated code and id. */
  method CreateRoom(code: string, creatorId: string, playerName: string, maxPlayers: int, showImposterRole: bool)
    returns (room: Option<Room>)
    ensures room.None? <==> IsBlank(playerName)
    ensures room.Some? ==> fresh(room.value) && room.value.Valid()
    ensures room.Some? ==>
      var r := room.value;
      && r.id == code && r.hostId == creatorId && r.maxPlayers == maxPlayers && r.showImposterRole == showImposterRole
      && r.players == [NewPlayer(creatorId, playerName).(isHost := true)]
      && r.gameState == Waiting && r.currentRound == 0 && r.votes == map[] && r.usedWordPairs == []
  {
    if IsBlank(playerName) {
      return None;
    }
    var host := NewPlayer(creatorId, playerName).(isHost := true);
    var r := new Room.Create(code, host, maxPlayers, showImposterRole);
    room := Some(r);
  }

  /** `calculateVotingResults` reduced to what `processResults` reads: whether
      the vote is tied and, when it is not, its unique leader. */
  method Tally(votes: map<string, string>) returns (isTie: bool, leader: string)
    requires votes != map[]
    ensures isTie <==> forall c :: !UniqueLeader(votes, c)
    ensures !isTie ==> UniqueLeader(votes, leader)
  {
    var tally := CalculateVotingResults(votes);
    isTie := tally.isTie;
    leader := if tally.isTie then "" else tally.playersWithMaxVotes[0];
  }

  /** How a join attempt ends. */
  datatype JoinOutcome = Ignored | Rejected(error: JoinError) | Joined(player: Player)

  /** The join dialog's `handleJoinRoom` over the stored rooms, keyed by
      code; `playerId` is the freshly generated id. */
  method HandleJoinRoom(rooms: map<string, Room>, playerName: string, roomCode: string, playerId: string)
    returns (outcome: JoinOutcome)
    requires forall code :: code in rooms ==> rooms[code].Valid()
    requires forall code :: code in rooms ==> forall p :: p in rooms[code].players ==> p.id != playerId
    modifies rooms.Values
    ensures forall code :: code in rooms ==> rooms[code].Valid()
    ensures IsBlank(playerName) || IsBlank(roomCode) ==> outcome == Ignored
    ensures !IsBlank(playerName) && !IsBlank(roomCode) && ToUpper(roomCode) !in rooms ==> outcome == Rejected(RoomNotFound)
    ensures !IsBlank(playerName) && !IsBlank(roomCode) && ToUpper(roomCode) in rooms ==>
      var room := rooms[ToUpper(roomCode)];
      match CheckJoin(old(room.gameState), old(room.players), old(room.maxPlayers), playerName)
      case Some(e) => outcome == Rejected(e) && room.players == old(room.players)
      case None => outcome == Joined(NewPlayer(playerId, playerName)) && room.players == old(room.players) + [outcome.player]
    ensures forall r :: r in rooms.Values && !(outcome.Joined? && r == rooms[ToUpper(roomCode)]) ==> unchanged(r)
  {
    if IsBlank(playerName) || IsBlank(roomCode) {
      return Ignored;
    }
    var code := ToUpper(roomCode);
    if code !in rooms {
      return Rejected(RoomNotFound);
    }
    var room := rooms[code];
    outcome := room.Join(playerName, playerId);
  }

  // ----- what keeps the room invariant -----

  /** Dealing words and roles changes no player's id. */
  lemma DealKeepsIdsUnique(players: seq<Player>, imposter: Option<string>, pair: WordPair)
    requires UniqueIds(players)
    ensures UniqueIds(AssignWords(players, imposter, pair))
  {
    SameIdsKeepUnique(players, AssignWords(players, imposter, pair));
  }

  /** Quitting during a game changes no player's id. */
  lemma QuitKeepsIds(players: seq<Player>, leaver: Player)
    ensures SameIds(players, QuitPlayers(players, leaver))
  {
    var updated := MarkLeft(players, leaver.id);
    assert SameIds(players, updated);
    if leaver.isHost {
      assert SameIds(updated, HostTransferred(updated));
    }
  }

  /** Leaving the lobby keeps the ids distinct and everybody alive. */
  lemma LobbyQuitKeepsRoomValid(players: seq<Player>, leaver: Player)
    requires UniqueIds(players)
    ensures UniqueIds(LobbyQuitPlayers(players, leaver))
    ensures (forall p :: p in players ==> p.isAlive) ==> forall p :: p in LobbyQuitPlayers(players, leaver) ==> p.isAlive
  {
    var remaining := Filter(players, (p: Player) => p.id != leaver.id);
    FilterUniqueIds(players, (p: Player) => p.id != leaver.id);
    var r := LobbyQuitPlayers(players, leaver);
    assert SameIds(remaining, r);
    SameIdsKeepUnique(remaining, r);
    LobbyQuitPlayersMeaning(players, leaver);
  }

  /** Resolving a vote changes no player's id. */
  lemma ResolveRoundKeepsIds(players: seq<Player>, currentRound: nat, isTie: bool, eliminatedId: string)
    ensures match ResolveRound(players, currentRound, isTie, eliminatedId)
      case NextClueRound(next, _) => SameIds(players, next)
      case GameFinished(final, _, _) => SameIds(players, final)
      case Unresolved => true
  {
    ResolveRoundMeaning(players, currentRound, isTie, eliminatedId);
    if !isTie && ProcessElimination(players, eliminatedId).Ok? {
      var e := ProcessElimination(players, eliminatedId).value;
      assert SameIds(players, e.updatedPlayers);
    }
  }

  /** An alive player with a fresh id keeps the room invariant. */
  lemma JoinKeepsInvariant(players: seq<Player>, gameState: GameState, currentRound: nat, votes: map<string, string>, newPlayer: Player)
    requires RoomInvariant(players, gameState, currentRound, votes)
    requires forall p :: p in players ==> p.id != newPlayer.id
    requires newPlayer.isAlive
    ensures RoomInvariant(players + [newPlayer], gameState, currentRound, votes)
  {
    JoinKeepsIdsUnique(players, newPlayer);
  }

  /** A player with a fresh id keeps the ids distinct. */
  lemma JoinKeepsIdsUnique(players: seq<Player>, newPlayer: Player)
    requires UniqueIds(players)
    requires forall p :: p in players ==> p.id != newPlayer.id
    ensures UniqueIds(players + [newPlayer])
  {
    var joined := players + [newPlayer];
    forall i, j | 0 <= i < j < |joined| ensures joined[i].id != joined[j].id {
      if j == |players| {
        assert joined[i] in players;
      }
    }
  }
}
