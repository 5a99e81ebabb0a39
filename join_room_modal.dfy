/**
 * The join dialog's `handleJoinRoom`: the checks a room must pass before a
 * new player is appended to it, and the record that is appended.
 */
module JoinRoomModal {
  import opened GameTypes
  import opened JsText

  /** Why a join is refused, in the order the dialog checks. */
  datatype JoinError = RoomNotFound | AlreadyStarted | RoomFull | NameTaken

  /** The message the dialog shows for each refusal. */
  function ErrorMessage(e: JoinError): string {
    match e
    case RoomNotFound => "Room not found. Please check the room code."
    case AlreadyStarted => "Game has already started. Cannot join now."
    case RoomFull => "Room is full. Cannot join."
    case NameTaken => "Name is already taken. Please choose a different name."
  }

  /** `nameExists`: some player's name equals the trimmed name up to case. */
  predicate NameExists(players: seq<Player>, playerName: string) {
    exists p :: p in players && ToLower(p.name) == ToLower(Trim(playerName))
  }

  /** The checks on a room that was found: it must still be waiting, have a
      free seat and no player of the same name; the first failing check is
      reported. */
  function CheckJoin(gameState: GameState, players: seq<Player>, maxPlayers: int, playerName: string): (r: Option<JoinError>)
    ensures r.None? <==> gameState == Waiting && |players| < maxPlayers && !NameExists(players, playerName)
    ensures r == Some(AlreadyStarted) <==> gameState != Waiting
    ensures r == Some(RoomFull) <==> gameState == Waiting && |players| >= maxPlayers
    ensures r == Some(NameTaken) <==> gameState == Waiting && |players| < maxPlayers && NameExists(players, playerName)
    ensures r != Some(RoomNotFound)
  {
    if gameState != Waiting then Some(AlreadyStarted)
    else if |players| >= maxPlayers then Some(RoomFull)
    else if NameExists(players, playerName) then Some(NameTaken)
    else None
  }

  /** `newPlayer`: an alive, non-host civilian without a word, votes or clues,
      named by the trimmed name. */
  function NewPlayer(id: string, playerName: string): Player {
    Player(id, Trim(playerName), false, true, false, "", false, [], false, false)
  }

  /** A joined player starts with nothing to lose and a name without
      surrounding white space, which is not blank when the typed name was not. */
  lemma NewPlayerMeaning(id: string, playerName: string)
    ensures var r := NewPlayer(id, playerName);
      && r.id == id && Trim(r.name) == r.name && (!IsBlank(playerName) ==> !IsBlank(r.name))
      && r.isAlive && !r.isHost && !r.isImposter && !r.hasVoted && !r.hasGivenClue && !r.hasLeft
      && r.word == "" && r.clues == []
  {
    var name := Trim(playerName);
    assert NewPlayer(id, playerName).name == name;
    TrimIdempotent(playerName);
    assert Trim(name) == name;
  }

  /** No two players' names are equal up to case. */
  predicate NamesDistinct(players: seq<Player>) {
    forall i, j :: 0 <= i < j < |players| ==> ToLower(players[i].name) != ToLower(players[j].name)
  }

  /** An accepted join keeps the room within its capacity and the names
      distinct up to case. */
  lemma JoinKeepsRoomSound(gameState: GameState, players: seq<Player>, maxPlayers: int, id: string, playerName: string)
    requires NamesDistinct(players)
    requires CheckJoin(gameState, players, maxPlayers, playerName).None?
    ensures |players + [NewPlayer(id, playerName)]| <= maxPlayers
    ensures NamesDistinct(players + [NewPlayer(id, playerName)])
  {
    var joined := players + [NewPlayer(id, playerName)];
    forall i, j | 0 <= i < j < |joined|
      ensures ToLower(joined[i].name) != ToLower(joined[j].name)
    {
      if j == |players| {
        assert joined[i] in players;
      }
    }
  }
}
