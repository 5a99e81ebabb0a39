# BlackSheep game rules in Dafny

BlackSheep is a browser party game of "find the imposter". Players join a
room and receive secret words; exactly one of them, the imposter, gets a
different word. The players give one clue per round, then vote somebody
out, until either the imposter is eliminated or survives to the final two.
This project models the rules of that game and proves what they guarantee:

- the round resolver of `utils/gameLogic.ts`:
  - the vote tally with its maximum and tie detection;
  - the elimination with its three win conditions;
  - the preparation of the next round;
  - the reset to a new game;
- the room's state machine, as the React handlers write it to the stored room:
  - starting a game (`Lobby.tsx`);
  - joining a room (`JoinRoomModal.tsx`);
  - on the game board (`GameBoard.tsx`): giving a clue, opening the vote, resetting the words, casting a vote, quitting, and playing again from the finished screen;
  - resolving a closed vote and playing again from the results screen (`Results.tsx`);
- what a player card offers and shows (`PlayerCard.tsx`);
- the helpers of `utils/gameUtils.ts`: the imposter pick, the Fisher–Yates shuffle and the `m:ss` clock.

Modules follow the source files:

| module | file | source |
|---|---|---|
| `JsText` | js_text.dfy | the JavaScript `trim`, `toUpperCase` and `toLowerCase` the rules rely on |
| `GameTypes` | game_types.dfy | `types/game.ts`, plus the `filter`/`find` helpers over players |
| `GameLogic` | game_logic.dfy | `utils/gameLogic.ts` |
| `GameUtils` | game_utils.dfy | `utils/gameUtils.ts` |
| `PlayerCard` | player_card.dfy | `components/PlayerCard.tsx` |
| `Lobby` | lobby.dfy | `components/Lobby.tsx` |
| `JoinRoomModal` | join_room_modal.dfy | `components/JoinRoomModal.tsx` |
| `GameBoard` | game_board.dfy | the player lists and verdicts of `components/GameBoard.tsx` |
| `Results` | results.dfy | `components/Results.tsx` |
| `RoomState` | room.dfy | the stored room as a class whose methods are the handlers |

How the source is modelled:

- The stored room document becomes `class Room`.
- Each handler becomes a method. It writes the fields that the handler's `updateRoom` writes, and its postcondition states every field afterwards.
- `Room.Valid()` is the room invariant, and every handler preserves it:
  - player ids stay distinct;
  - the declared state `starting` is never entered;
  - a room in the lobby is at round 0, with no ballots and only alive players.
- `calculateVotingResults` fills its tally with a loop, and so is a method with loop invariants. It is proved against ghost specification functions:
  - `VotesFor`, the ballots that name a candidate;
  - `Sum` of the counts;
  - `UniqueLeader`, a candidate with strictly more ballots than anybody else.
- `shuffleArray` swaps in place inside a copied array. It is a method over an `array`, proved equal to the function `FisherYates`, which is proved to be a permutation of its input.
- Everything else is a function over players, with lemmas about it.

Choices the source leaves to the caller become parameters:

- the random index behind `selectRandomImposter`;
- the random partners drawn by `shuffleArray`;
- the word pair from `getUnusedWordPair`;
- the generated room code and player id.

Two places where the rules disagree with each other are stated and proved:

- **The winner rule.** The winner rule of `quitGame` differs from that of `processElimination`:
  - `GameBoard.QuittingImposterKeepsGameGoing`: when the only imposter quits a full room of four or more, the game goes on with no imposter alive. Voting the same player out ends it with a civilian win.
  - `GameBoard.QuittingCivilianEndsGame`: when a civilian quits a room of three with no imposter left, the game ends with a civilian win. Voting the same player out lets the game go on.
- **The two play-again resets.** They differ:
  - `Results.PlayAgainResetsAgree`: they agree exactly on rooms where nobody has a clue history, a clue flag or a departure.
  - `Results.ResultsResetRevivesDeparted`: the results screen's reset leaves a departed player alive but still marked as left.
  - `Results.ResultsResetKeepsClueFlag`: the results screen's reset keeps a set clue flag, so the reset player's own card offers no clue input; after the finished screen's reset it does.

The model follows the code where a plain reading of the game's intended design says otherwise:

- The vote closes when the number of ballots equals the number of players marked alive, whether or not they have left.
- `handleVote` itself does not check that the voter is alive. The board keeps such a player away from the ballot by showing them the spectator view, whose cards have voting disabled (`GameBoard.tsx` lines 389 and 482-488). `Room.HandleVote` models the handler only and accepts any player in the room.
- Resetting the words deals to every player, including eliminated ones. It also clears every departure flag, so a player who had left appears eliminated instead.
- After a quit, the winner is decided by the quit handler's own rule rather than by the elimination rule.
- The results screen's play-again revives everybody but keeps clue histories, clue flags and departure flags.
- A host transfer changes the players' `isHost` flags but never the room's `hostId`.

## Model

| member | source | states |
|---|---|---|
| JsText.TrimStart | Source/blacksheep/src/components/PlayerCard.tsx:36 | the result is a suffix of the input that starts with no white space, and everything dropped is white space |
| JsText.TrimEnd | Source/blacksheep/src/components/PlayerCard.tsx:36 | the result is a prefix of the input that ends with no white space, and everything dropped is white space |
| JsText.BlankIffAllSpace | Source/blacksheep/src/components/PlayerCard.tsx:36 | `!s.trim()` holds exactly when every character of `s` is ECMAScript white space |
| JsText.TrimShape | Source/blacksheep/src/components/PlayerCard.tsx:40 | the trimmed text is a contiguous piece of the input with no white space at either end |
| JsText.TrimIdempotent | Source/blacksheep/src/components/PlayerCard.tsx:40 | trimming a trimmed string changes nothing |
| JsText.ToUpper | Source/blacksheep/src/components/JoinRoomModal.tsx:28 | upper-cases each character in place, keeping the length |
| JsText.ToLower | Source/blacksheep/src/components/JoinRoomModal.tsx:47 | lower-cases each character in place, keeping the length |
| JsText.CaseMappingsAgree | Source/blacksheep/src/components/JoinRoomModal.tsx:46-48 | upper- and lower-casing are idempotent and each absorbs the other, so names and codes compare the same in either case |
| GameTypes.Filter | Source/blacksheep/src/utils/gameLogic.ts:44-45 | the filter keeps exactly the players that pass, and is no longer than its input |
| GameTypes.Find | Source/blacksheep/src/components/GameBoard.tsx:132 | `find` yields nothing exactly when no player passes, and otherwise the first player that passes |
| GameTypes.FindById | Source/blacksheep/src/utils/gameLogic.ts:32 | the lookup by id yields nothing exactly when no player has the id, and otherwise the first player with it |
| GameTypes.Ids | Source/blacksheep/src/components/Lobby.tsx:30 | the ids of the players, position by position |
| GameLogic.UniqueLeaderIsUnique | Source/blacksheep/src/utils/gameLogic.ts:14-16 | a vote has at most one candidate with strictly the most ballots |
| GameLogic.CountVotes | Source/blacksheep/src/utils/gameLogic.ts:7-10 | the tally has one count per voted-for id; each count is that id's number of ballots and at least 1; the counts add up to the number of ballots |
| GameLogic.MaxCount | Source/blacksheep/src/utils/gameLogic.ts:13 | the maximum is one of the counts and no count exceeds it |
| GameLogic.CandidatesWith | Source/blacksheep/src/utils/gameLogic.ts:14-16 | the candidates listed are exactly those whose count equals the maximum, each listed once |
| GameLogic.CalculateVotingResults | Source/blacksheep/src/utils/gameLogic.ts:3-24 | the tally as above; the maximum is none (-Infinity) exactly when there are no ballots; `playersWithMaxVotes` is exactly the ids at the maximum; `isTie` iff more than one; there is a unique leader iff the vote is neither tied nor empty, and then that leader is the only id listed |
| GameLogic.VerdictMeaning | Source/blacksheep/src/utils/gameLogic.ts:44-84 | a winner ends the game; a civilian win leaves no alive imposter; an imposter win leaves one; a game that goes on has at least two alive players |
| GameLogic.ProcessElimination | Source/blacksheep/src/utils/gameLogic.ts:32-42 | throws "Player to eliminate not found" exactly when no player has the id; otherwise exactly the players with that id lose `isAlive`, and order, length and every other field stay |
| GameLogic.ProcessEliminationMeaning | Source/blacksheep/src/utils/gameLogic.ts:48-84 | the same four guarantees as VerdictMeaning, for the result of an elimination |
| GameLogic.VerdictOutcomes | Source/blacksheep/src/utils/gameLogic.ts:48-84 | the civilian win, the imposter win, the draw and the continuation, each as an if-and-only-if over the eliminated player's role and the alive players and alive imposters left |
| GameLogic.EliminationRemovesOneAlive | Source/blacksheep/src/utils/gameLogic.ts:38-44 | with distinct ids, eliminating an alive player leaves exactly one alive player fewer |
| GameLogic.SoleImposterEliminated | Source/blacksheep/src/utils/gameLogic.ts:48-56 | eliminating the only imposter is a civilian win |
| GameLogic.EliminationRepeatable | Source/blacksheep/src/utils/gameLogic.ts:32-42 | eliminating the same id again cannot throw and changes no player |
| GameLogic.EliminationMarks | Source/blacksheep/src/utils/gameLogic.ts:32-48 | when the id is present the elimination succeeds, with the marked players and the verdict on them |
| GameLogic.MarkEliminatedTwice | Source/blacksheep/src/utils/gameLogic.ts:38-42 | marking the same id twice is marking it once |
| GameLogic.PrepareNextRound | Source/blacksheep/src/utils/gameLogic.ts:87-102 | the round goes up by one; every player's `hasVoted` and `hasGivenClue` are cleared and every other field, clues included, is kept |
| GameLogic.PrepareNextRoundSettles | Source/blacksheep/src/utils/gameLogic.ts:92-96 | preparing the prepared players again changes no player |
| GameLogic.ResetGameForNewRound | Source/blacksheep/src/utils/gameLogic.ts:104-119 | back to `waiting`, round 0 and no ballots; every player's vote, word and role are withdrawn and every other field is kept |
| GameUtils.SelectRandomImposter | Source/blacksheep/src/utils/gameUtils.ts:21-24 | nobody is picked exactly when the list is empty; otherwise the pick is a member of the list |
| GameUtils.EveryCandidateCanBePicked | Source/blacksheep/src/utils/gameUtils.ts:21-24 | every candidate is the pick for some random index |
| GameUtils.SwapIsPermutation | Source/blacksheep/src/utils/gameUtils.ts:16 | a swap keeps the multiset of elements |
| GameUtils.ShuffleFrom | Source/blacksheep/src/utils/gameUtils.ts:14-17 | the loop from an index down to 1 keeps the length |
| GameUtils.ShuffleFromIsPermutation | Source/blacksheep/src/utils/gameUtils.ts:14-17 | every run of the swap loop keeps the multiset of elements |
| GameUtils.FisherYatesIsPermutation | Source/blacksheep/src/utils/gameUtils.ts:12-19 | the shuffle keeps the length and the multiset of elements |
| GameUtils.ShuffleArray | Source/blacksheep/src/utils/gameUtils.ts:12-19 | the shuffled copy is the Fisher–Yates shuffle of the input under the drawn partners, hence a permutation of it; the input array is not modified |
| GameUtils.JsRemainder60 | Source/blacksheep/src/utils/gameUtils.ts:28 | JavaScript's `% 60`: in [0, 60) for non-negative seconds, in (-60, 0] for negative ones, and always congruent to the seconds |
| GameUtils.NatToString | Source/blacksheep/src/utils/gameUtils.ts:29 | `toString` of a natural number is a non-empty string of digits, of one digit exactly below 10 |
| GameUtils.ParseNatToString | Source/blacksheep/src/utils/gameUtils.ts:29 | reading the digits back gives the number |
| GameUtils.PaddedSeconds | Source/blacksheep/src/utils/gameUtils.ts:29 | a seconds value below 60, padded, is exactly two digits that read back as the value |
| GameUtils.ClockReadsBack | Source/blacksheep/src/utils/gameUtils.ts:27-29 | minutes, a colon and a padded seconds value below 60 read back as 60 times the minutes plus the seconds |
| GameUtils.FormatTimeRoundTrip | Source/blacksheep/src/utils/gameUtils.ts:26-30 | for non-negative seconds the clock is digits, a colon and exactly two digits below 60, and it reads back as the input (60·mins + secs = seconds) |
| PlayerCard.CanVote | Source/blacksheep/src/components/PlayerCard.tsx:32 | the vote button is never on one's own card, and needs a target who is alive and present, the voting state, voting enabled and a viewer who has not voted |
| PlayerCard.VoteTargetIsInPlay | Source/blacksheep/src/components/PlayerCard.tsx:32-65 | a card offering a vote is labelled Voted or Ready, never Left Game or Eliminated, and its border is not the left, eliminated or own-card border |
| PlayerCard.StatusMeaning | Source/blacksheep/src/components/PlayerCard.tsx:58-65 | each status label as an if-and-only-if over the player, in the order Left, Eliminated, Voted, Clue Given, Thinking; Left and Eliminated agree with the card border |
| PlayerCard.BorderMeaning | Source/blacksheep/src/components/PlayerCard.tsx:49-56 | each card border as an if-and-only-if, in the order left, eliminated, own card, voted during the vote, selected, plain |
| PlayerCard.ClueGiverIsInClueStatus | Source/blacksheep/src/components/PlayerCard.tsx:31-63 | whoever may give a clue on their own card is labelled Thinking or Clue Given |
| PlayerCard.ClueGivenLabelIgnoresRound | Source/blacksheep/src/components/PlayerCard.tsx:62 | "Clue Given" counts clues of earlier rounds, so a player who may still give this round's clue can carry it |
| PlayerCard.ClueRows | Source/blacksheep/src/components/PlayerCard.tsx:137-140 | one row per clue |
| PlayerCard.ClueRowsMeaning | Source/blacksheep/src/components/PlayerCard.tsx:137-156 | newest first; the clue at index i is labelled round i + 1; only the top row is the latest, and it is current exactly when the clue count equals the room's round |
| PlayerCard.ClueRowsReadBack | Source/blacksheep/src/components/PlayerCard.tsx:137-140 | read from the bottom up, the rows give back the clues in the order given |
| PlayerCard.CompletenessLabel | Source/blacksheep/src/components/PlayerCard.tsx:127-131 | a label is shown exactly when there is a clue, and it is "Complete" exactly when the clue count equals the room's round |
| PlayerCard.SubmittedClue | Source/blacksheep/src/components/PlayerCard.tsx:35-40 | a clue is forwarded exactly when the player may give one and it is not blank, and what is forwarded is trimmed and not blank |
| Lobby.AliveIdsMeaning | Source/blacksheep/src/components/Lobby.tsx:29-30 | the imposter candidates are exactly the ids of the alive players |
| Lobby.AssignWords | Source/blacksheep/src/components/Lobby.tsx:36-41 | a player is the imposter exactly when drawn; the imposter holds the imposter's word and everybody else the main word; nobody has voted; order and every other field are kept |
| Lobby.AssignOneImposter | Source/blacksheep/src/components/Lobby.tsx:36-39 | with distinct ids, drawing one player makes exactly that player the imposter |
| Lobby.StartCastsOneImposter | Source/blacksheep/src/components/Lobby.tsx:29-41 | with an alive player present, starting casts exactly one imposter, who is alive and holds the imposter's word, and gives everybody else the main word |
| Lobby.DrawnPlayer | Source/blacksheep/src/components/Lobby.tsx:29-30 | the random pick names an alive player of the room |
| Lobby.NoAlivePlayerNoImposter | Source/blacksheep/src/components/Lobby.tsx:29-41 | with nobody alive nobody is drawn and everybody gets the main word |
| JoinRoomModal.CheckJoin | Source/blacksheep/src/components/JoinRoomModal.tsx:35-53 | the join passes exactly when the room is waiting, has a free seat and no name equal up to case; otherwise the first failing check (started, full, name taken) is the error |
| JoinRoomModal.NewPlayerMeaning | Source/blacksheep/src/components/JoinRoomModal.tsx:56-67 | the new player is alive, not host, not imposter, without word, votes or clues, all flags false, named by the trimmed name, which is not blank |
| JoinRoomModal.JoinKeepsRoomSound | Source/blacksheep/src/components/JoinRoomModal.tsx:40-72 | an accepted join never exceeds capacity and keeps names distinct up to case |
| GameBoard.ClueAdded | Source/blacksheep/src/components/GameBoard.tsx:29-33 | only the giver changes: the clue is appended to their history and their clue flag is set |
| GameBoard.CardClueIsAccepted | Source/blacksheep/src/components/GameBoard.tsx:23 | a clue the card forwards always passes the board's guard |
| GameBoard.ClueGivenOncePerRound | Source/blacksheep/src/components/GameBoard.tsx:29-33 | after giving a clue the player's card no longer offers the input, the clue heads their clue list, and the history is complete exactly when it has one clue per round |
| GameBoard.CanStartVotingMeaning | Source/blacksheep/src/components/GameBoard.tsx:48-51 | the vote can be opened by the host, or by anybody once the first player flagged as host is no longer alive |
| GameBoard.WordsReset | Source/blacksheep/src/components/GameBoard.tsx:83-91 | the words and roles dealt as at the start of a game, with every clue history, clue flag and departure flag cleared |
| GameBoard.WordsResetReopensClues | Source/blacksheep/src/components/GameBoard.tsx:83-91 | after the reset every alive player may give a clue and is labelled Thinking; a player who had left is now labelled Eliminated |
| GameBoard.VoteCast | Source/blacksheep/src/components/GameBoard.tsx:224-228 | only the voter's `hasVoted` is set |
| GameBoard.VotingCompleteMeaning | Source/blacksheep/src/components/GameBoard.tsx:236-240 | when only alive players vote, the vote closes exactly when every alive player has voted |
| GameBoard.MarkLeft | Source/blacksheep/src/components/GameBoard.tsx:121-125 | only the leaver changes: marked as left and not alive |
| GameBoard.HostFlagsFor | Source/blacksheep/src/components/GameBoard.tsx:134-138 | every host flag is set exactly for the given id and nothing else changes |
| GameBoard.HostFlagsForOne | Source/blacksheep/src/components/GameBoard.tsx:134-138 | with distinct ids, exactly that player becomes host |
| GameBoard.HostTransferredMeaning | Source/blacksheep/src/components/GameBoard.tsx:128-140 | the host becomes exactly the first player who has not left; only host flags change; with everybody gone nothing changes |
| GameBoard.QuitPlayersMeaning | Source/blacksheep/src/components/GameBoard.tsx:121-140 | the leaver is left and not alive; nobody else changes beyond the host flags, which stay as they were unless the host left |
| GameBoard.QuitVerdictOutcomes | Source/blacksheep/src/components/GameBoard.tsx:143-182 | the game goes on iff more than two alive active players remain; otherwise imposters win iff one of them is an imposter, civilians win iff some remain and none is an imposter, and there is no winner iff none remain |
| GameBoard.MarkLeftRemovesOneActive | Source/blacksheep/src/components/GameBoard.tsx:121-125 | with distinct ids, marking an active player as left leaves one active player fewer |
| GameBoard.QuitFromFullRoom | Source/blacksheep/src/components/GameBoard.tsx:121-144 | in a room where everybody is alive and present, the active players after the quit are everybody but the leaver, all alive |
| GameBoard.QuittingImposterKeepsGameGoing | Source/blacksheep/src/components/GameBoard.tsx:154-170 | the only imposter quitting a room of four or more keeps the game going with no alive imposter, while eliminating that imposter is a civilian win |
| GameBoard.QuittingCivilianEndsGame | Source/blacksheep/src/components/GameBoard.tsx:154-170 | a civilian quitting a room of three with no imposter is a civilian win, while eliminating that civilian lets the game go on |
| GameBoard.EliminatingCivilianContinues | Source/blacksheep/src/utils/gameLogic.ts:58-84 | with no imposter, eliminating one of three alive players lets the game go on |
| GameBoard.CiviliansStayCivilians | Source/blacksheep/src/utils/gameLogic.ts:44-45 | an elimination in a room without imposters leaves no alive imposter |
| GameBoard.LobbyQuitPlayersMeaning | Source/blacksheep/src/components/GameBoard.tsx:185-195 | the result is, position by position, the others in their order, each unchanged except that when the host leaves the first of them becomes host; a non-host leaving changes nobody else |
| GameBoard.FinishedResetIsRejoin | Source/blacksheep/src/components/GameBoard.tsx:270-279 | every player is put back exactly as a newly joined player, keeping only id, name and host flag |
| Results.ResolveRoundMeaning | Source/blacksheep/src/components/Results.tsx:43-82 | the vote fails to resolve exactly when it is decisive and nobody has the leader's id; a new round is one later, reopens clues and votes and keeps clue histories, roles and departures; a tie eliminates nobody; a decisive vote eliminates exactly the leader; a finished game with a winner has a reason |
| Results.ResolvedWinnerIsConsistent | Source/blacksheep/src/components/Results.tsx:53-68 | a civilian win leaves no alive imposter, an imposter win leaves one, and a decisive vote that goes on leaves at least two alive |
| Results.ResultsResetIsRevivedRoundReset | Source/blacksheep/src/components/Results.tsx:102-108 | the results screen's reset is the rules' new-game reset with everybody revived |
| Results.PlayAgainResetsAgree | Source/blacksheep/src/components/Results.tsx:102-108 | the two play-again resets agree exactly on rooms with no clue history, clue flag or departure |
| Results.ResultsResetRevivesDeparted | Source/blacksheep/src/components/Results.tsx:102-108 | a departed player is revived but still labelled Left Game after the results screen's reset, and Ready after the finished screen's |
| Results.ResultsResetKeepsClueFlag | Source/blacksheep/src/components/Results.tsx:102-108 | the results screen's reset keeps a set clue flag, so that player's own card offers no clue input in the clue phase; after the finished screen's reset it does |
| RoomState.Room.Create | Source/blacksheep/src/components/CreateRoomModal.tsx:39-48 | a new room in the lobby at round 0, no ballots, no used categories, holding its creator alone |
| RoomState.CreateRoom | Source/blacksheep/src/components/CreateRoomModal.tsx:21-48 | nothing is created exactly for a blank name; otherwise the room holds the creator alone, as host, named by the trimmed name |
| RoomState.Room.StartGame | Source/blacksheep/src/components/Lobby.tsx:23-53 | no change unless the caller is host and there are at least four players; then the words are dealt, the room moves to `clue` at round 1 with no ballots, the category is appended, and from the lobby exactly one alive imposter is cast |
| RoomState.Room.AddClue | Source/blacksheep/src/components/GameBoard.tsx:22-40 | no change unless the clue is not blank, the room is in `clue` and the giver has no clue this round; then the clue is added and the vote opens when everybody has given one |
| RoomState.Room.StartVotingPhase | Source/blacksheep/src/components/GameBoard.tsx:47-57 | the room moves from `clue` to `voting` exactly when the caller may open the vote; nothing else changes |
| RoomState.Room.ResetWords | Source/blacksheep/src/components/GameBoard.tsx:65-100 | no change unless the host calls it during `clue`; then the words are re-dealt, clues and departures cleared, the category appended and the ballots emptied |
| RoomState.Room.QuitGame | Source/blacksheep/src/components/GameBoard.tsx:110-200 | during a game the leaver is marked as left, the host moves on, and the quit verdict decides whether the room finishes and with what winner and reason; in the lobby the leaver is removed |
| RoomState.Room.HandleVote | Source/blacksheep/src/components/GameBoard.tsx:216-240 | no change unless the room is voting and the voter has not voted; then exactly the voter's ballot is added, the voter marked, and the room moves to `results` once the ballots match the alive players |
| RoomState.Room.PlayAgainFromFinished | Source/blacksheep/src/components/GameBoard.tsx:263-289 | for the host only: every player reset as a new joiner, back to `waiting`, round 0, no ballots, no used categories, no winner and no reason |
| RoomState.Room.ProcessResults | Source/blacksheep/src/components/Results.tsx:34-89 | with no ballots nothing is written; a vote without a unique leader is a tie and starts the next round; otherwise the unique leader is eliminated and the room finishes or goes on |
| RoomState.Room.Apply | Source/blacksheep/src/components/Results.tsx:47-81 | a new round writes players, `clue`, the round and empty ballots; a finished game writes players, `finished`, winner and reason; an unresolved vote writes nothing |
| RoomState.Room.Join | Source/blacksheep/src/components/JoinRoomModal.tsx:35-72 | a failing check is reported and the room stays unchanged; otherwise exactly the new player is appended |
| RoomState.Room.AddPlayer | Source/blacksheep/src/components/JoinRoomModal.tsx:70-72 | the player is appended at the end and nothing else changes |
| RoomState.Room.PlayAgainFromResults | Source/blacksheep/src/components/Results.tsx:95-116 | for the host only: players revived with votes, words and roles withdrawn, back to `waiting`, round 0, no ballots, no used categories; winner and reason untouched |
| RoomState.Tally | Source/blacksheep/src/components/Results.tsx:37-56 | the vote is a tie exactly when no candidate has strictly the most ballots, and otherwise the leader read is that candidate |
| RoomState.HandleJoinRoom | Source/blacksheep/src/components/JoinRoomModal.tsx:21-72 | a blank name or code does nothing; the room is looked up by the upper-cased code and a missing room is "not found"; otherwise the room's checks decide; no other room changes |
| RoomState.DealKeepsIdsUnique | Source/blacksheep/src/components/Lobby.tsx:36-41 | dealing words keeps ids distinct |
| RoomState.QuitKeepsIds | Source/blacksheep/src/components/GameBoard.tsx:121-140 | quitting during a game changes no player's id or position |
| RoomState.LobbyQuitKeepsRoomValid | Source/blacksheep/src/components/GameBoard.tsx:185-195 | leaving the lobby keeps ids distinct and everybody alive |
| RoomState.ResolveRoundKeepsIds | Source/blacksheep/src/components/Results.tsx:43-81 | resolving a vote changes no player's id or position |
| RoomState.JoinKeepsInvariant | Source/blacksheep/src/components/JoinRoomModal.tsx:56-72 | appending an alive player with a fresh id keeps the room invariant |
| RoomState.JoinKeepsIdsUnique | Source/blacksheep/src/components/JoinRoomModal.tsx:70-72 | appending a player with a fresh id keeps ids distinct |

## Left out

- Firestore and the other I/O are not modelled: `updateRoom`, `getRoom`, `createRoom`, `resetRoomForNewGame` and the subscriptions. A write becomes an assignment to the room's fields. A failed write, which the source only logs, is not modelled: every write is taken to succeed.
- Each handler is modelled as one atomic step. `handleVote` writes twice, first the ballot and then the move to `results`, and these two writes are combined. Races between clients that read, modify and write the same room concurrently are not modelled.
- Timers are not modelled. The 1 s delay before voting opens, and the 3 s and 4 s pauses while results are shown, take effect at once.
- Dialogs are not modelled. Every `confirm` is answered yes; answering no changes nothing. `alert`, `localStorage`, navigation and all rendering are omitted. Of the card's rendering, only the values computed are kept: status, border, clue rows and the completeness label.
- AddClue: `addPlayerClue` and `checkAllPlayersGaveClues` are not part of this model. The clue write is the inline player update that the handler computes. Whether everybody has given a clue is a function parameter, and so is the card's `isVotingEnabled`.
- `resetPlayersForNewRound` is imported by the board but never called, so it is not modelled.
- StartGame, ResetWords: `getUnusedWordPair` is not part of this model. The word pair is a parameter, so the rule that categories do not repeat is not claimed.
- Random choices are parameters, not random numbers: `Math.random`, `generateRoomCode` and `generatePlayerId`. The id's freshness is a precondition of `Join`, `AddPlayer` and `HandleJoinRoom`.
- `clearChatMessages` and the chat are not modelled.
- The timestamps `createdAt` and `startedAt` are not modelled. This includes the removal of `startedAt` by `resetRoomForNewGame`.
- The room page's own automatic finish, at `app/room/[id]/page.tsx` lines 49-55, is not modelled. It is a context file's side effect, outside the handlers modelled here.
- The lobby's `leaveRoom` writes nothing, so it is not modelled.
- The results screen's display branch for a finished room, at `Results.tsx` lines 22-30, is not modelled: it only renders.
- ToUpper, ToLower: only the ASCII letters are case-mapped. The full Unicode case mappings of `toUpperCase`/`toLowerCase` are not modelled.
- Tally: it requires at least one ballot, because it reads the first leader. `ProcessResults` handles the empty vote before calling it, as the source's `processElimination(undefined)` throws there and nothing is written.
- FormatTimeRoundTrip: the round trip is stated for non-negative whole seconds. JavaScript's fractional numbers are not modelled. Negative inputs follow JavaScript's truncating `%` through JsRemainder60 but have no round trip.
- Player records: the creator's record from `CreateRoomModal.tsx` lacks `clues`, `hasGivenClue` and `hasLeft`. Every place that reads them treats the undefined values as `[]`, `false` and `false`, and the model stores those values.
- The clue input's 100-character limit is a widget attribute and is not modelled.
- JsText: JavaScript strings are UTF-16 code units, while a Dafny `char` is a Unicode scalar value. A character outside the Basic Multilingual Plane is two code units there and one character here, so string lengths and lone surrogates are not modelled.
- PlayAgainFromResults: taken in isolation. In the program the button shows only once an elimination has ended the game (`Results.tsx` lines 252-265), and the same client's pending write (`Results.tsx` lines 62-68) then marks the room finished and overwrites the players, so the next game starts from the finished screen's reset. The model, with timers taking effect at once, does not capture that ordering.
- HandleVote: the handler has no check that the voter is alive; the board's spectator view, which disables voting for such a player, is rendering and is not modelled.
