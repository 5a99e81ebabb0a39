/**
 * The round resolver: vote tallying, elimination with the win conditions,
 * next-round preparation and the reset to a new game.
 */
module GameLogic {
  import opened GameTypes

  /** What `calculateVotingResults` returns. */
  datatype VotingResults = VotingResults(
    voteCounts: map<string, nat>,      // candidate id -> number of ballots naming it
    maxVotes: Option<nat>,             // None: the maximum of no counts, -Infinity
    playersWithMaxVotes: seq<string>,
    isTie: bool)

  /** The voters whose ballot names `candidate`. */
  ghost function VotersFor(votes: map<string, string>, candidate: string): set<string> {
    set v | v in votes.Keys && votes[v] == candidate
  }

  /** The number of ballots naming `candidate`. */
  ghost function VotesFor(votes: map<string, string>, candidate: string): nat {
    |VotersFor(votes, candidate)|
  }

  /** `candidate` received strictly more ballots than anybody else. */
  ghost predicate UniqueLeader(votes: map<string, string>, candidate: string) {
    candidate in votes.Values &&
    forall other :: other in votes.Values && other != candidate ==> VotesFor(votes, other) < VotesFor(votes, candidate)
  }

  /** A vote has at most one unique leader. */
  lemma UniqueLeaderIsUnique(votes: map<string, string>, a: string, b: string)
    requires UniqueLeader(votes, a) && UniqueLeader(votes, b)
    ensures a == b
  {
  }

  /** The sum of the counts of a tally. */
  ghost function Sum(counts: map<string, nat>): nat
    decreases |counts|
  {
    if counts == map[] then 0
    else
      var k :| k in counts;
      assert |(counts - {k}).Keys| < |counts.Keys| by {
        assert (counts - {k}).Keys == counts.Keys - {k};
      }
      counts[k] + Sum(counts - {k})
  }

  /** `Sum` may be unfolded at any key, not only at the one its definition picks. */
  lemma {:induction false} SumRemove(counts: map<string, nat>, k: string)
    requires k in counts
    ensures Sum(counts) == counts[k] + Sum(counts - {k})
    decreases |counts|
  {
    var j :| j in counts && Sum(counts) == counts[j] + Sum(counts - {j});
    if j != k {
      assert (counts - {j}).Keys == counts.Keys - {j};
      assert (counts - {k}).Keys == counts.Keys - {k};
      SumRemove(counts - {j}, k);
      SumRemove(counts - {k}, j);
      assert counts - {j} - {k} == counts - {k} - {j};
    }
  }

  /** Setting one count changes the sum by the difference. */
  lemma SumPut(counts: map<string, nat>, k: string, x: nat)
    ensures Sum(counts[k := x]) + (if k in counts then counts[k] else 0) == Sum(counts) + x
  {
    var m := counts[k := x];
    SumRemove(m, k);
    assert m - {k} == counts - {k};
    if k in counts {
      SumRemove(counts, k);
    } else {
      assert counts - {k} == counts;
    }
  }

  /** The ballots cast by the voters in `done` that name `candidate`. */
  ghost function Tallied(votes: map<string, string>, done: set<string>, candidate: string): nat {
    |set v | v in done && v in votes && votes[v] == candidate|
  }

  /** Counting one more ballot adds one to its candidate and nothing to the others. */
  lemma TalliedStep(votes: map<string, string>, done: set<string>, v: string, candidate: string)
    requires v in votes && v !in done
    ensures Tallied(votes, done + {v}, candidate) == Tallied(votes, done, candidate) + (if votes[v] == candidate then 1 else 0)
  {
    var before := set u | u in done && u in votes && votes[u] == candidate;
    var after := set u | u in done + {v} && u in votes && votes[u] == candidate;
    if votes[v] == candidate {
      assert after == before + {v};
    } else {
      assert after == before;
    }
  }

  /** The tally after the ballots of the voters in `done` have been counted. */
  ghost predicate TallyOf(votes: map<string, string>, done: set<string>, counts: map<string, nat>) {
    && counts.Keys == (set v | v in done && v in votes :: votes[v])
    && (forall c :: c in counts ==> counts[c] == Tallied(votes, done, c))
    && Sum(counts) == |done|
  }

  /** Counting one more ballot keeps the tally right. */
  lemma TallyStep(votes: map<string, string>, done: set<string>, counts: map<string, nat>, v: string)
    requires v in votes && v !in done && TallyOf(votes, done, counts)
    ensures var c := votes[v];
      TallyOf(votes, done + {v}, counts[c := (if c in counts then counts[c] else 0) + 1])
  {
    var c := votes[v];
    var before := if c in counts then counts[c] else 0;
    var next := counts[c := before + 1];
    SumPut(counts, c, before + 1);
    assert |done + {v}| == |done| + 1;
    TallyStepCounts(votes, done, counts, v);
    TallyStepKeys(votes, done, counts, v);
  }

  lemma TallyStepCounts(votes: map<string, string>, done: set<string>, counts: map<string, nat>, v: string)
    requires v in votes && v !in done && counts.Keys == (set u | u in done && u in votes :: votes[u])
    requires forall c :: c in counts ==> counts[c] == Tallied(votes, done, c)
    ensures var c := votes[v];
      var next := counts[c := (if c in counts then counts[c] else 0) + 1];
      forall d :: d in next ==> next[d] == Tallied(votes, done + {v}, d)
  {
    var c := votes[v];
    var next := counts[c := (if c in counts then counts[c] else 0) + 1];
    forall d | d in next ensures next[d] == Tallied(votes, done + {v}, d) {
      TalliedStep(votes, done, v, d);
      if d == c && c !in counts {
        forall u | u in done && u in votes ensures votes[u] != c {
          assert votes[u] in counts.Keys;
        }
        assert (set u | u in done && u in votes && votes[u] == c) == {};
      }
    }
  }

  lemma TallyStepKeys(votes: map<string, string>, done: set<string>, counts: map<string, nat>, v: string)
    requires v in votes && counts.Keys == (set u | u in done && u in votes :: votes[u])
    ensures var c := votes[v];
      counts[c := (if c in counts then counts[c] else 0) + 1].Keys == (set u | u in done + {v} && u in votes :: votes[u])
  {
  }

  /** Once every ballot is counted, each candidate holds its number of ballots. */
  lemma TallyComplete(votes: map<string, string>, counts: map<string, nat>)
    requires TallyOf(votes, votes.Keys, counts)
    ensures counts.Keys == votes.Values
    ensures forall c :: c in counts ==> counts[c] == VotesFor(votes, c) >= 1
    ensures Sum(counts) == |votes|
  {
    assert counts.Keys == votes.Values by {
      forall c | c in votes.Values ensures c in counts.Keys {
        var v :| v in votes && votes[v] == c;
      }
    }
    forall c | c in counts ensures counts[c] == VotesFor(votes, c) >= 1 {
      assert (set v | v in votes.Keys && v in votes && votes[v] == c) == VotersFor(votes, c);
      var v :| v in votes.Keys && votes[v] == c;
      assert v in VotersFor(votes, c);
    }
  }

  /** The `forEach` loop of `calculateVotingResults`: one count per candidate. */
  method CountVotes(votes: map<string, string>) returns (counts: map<string, nat>)
    ensures counts.Keys == votes.Values
    ensures forall c :: c in counts ==> counts[c] == VotesFor(votes, c) >= 1
    ensures Sum(counts) == |votes|
  {
    counts := map[];
    ghost var done: set<string> := {};
    var pending := votes.Keys;
    while pending != {}
      invariant pending !! done && pending + done == votes.Keys
      invariant TallyOf(votes, done, counts)
      decreases |pending|
    {
      var v :| v in pending;
      var c := votes[v];
      var before := if c in counts then counts[c] else 0;
      TallyStep(votes, done, counts, v);
      counts := counts[c := before + 1];
      done := done + {v};
      pending := pending - {v};
    }
    TallyComplete(votes, counts);
  }

  /** `Math.max(...Object.values(counts))` over a non-empty tally of positive counts. */
  method MaxCount(counts: map<string, nat>) returns (max: nat, ghost arg: string)
    requires counts != map[]
    ensures arg in counts && counts[arg] == max
    ensures forall c :: c in counts ==> counts[c] <= max
  {
    // Math.max starts from -Infinity: the first count seen always becomes the maximum
    max, arg := 0, "";
    var rest := counts.Keys;
    while rest != {}
      invariant rest <= counts.Keys
      invariant forall c :: c in counts.Keys - rest ==> counts[c] <= max
      invariant rest != counts.Keys ==> arg in counts && counts[arg] == max
      decreases |rest|
    {
      var c :| c in rest;
      if rest == counts.Keys || counts[c] > max {
        max, arg := counts[c], c;
      }
      rest := rest - {c};
    }
  }

  /** `Object.keys(counts).filter(id => counts[id] === max)`. */
  method CandidatesWith(counts: map<string, nat>, max: nat) returns (ids: seq<string>)
    ensures forall c :: c in ids <==> c in counts && counts[c] == max
    ensures forall i, j :: 0 <= i < j < |ids| ==> ids[i] != ids[j]
  {
    ids := [];
    var rest := counts.Keys;
    while rest != {}
      invariant rest <= counts.Keys
      invariant forall c :: c in ids <==> c in counts.Keys - rest && counts[c] == max
      invariant forall i, j :: 0 <= i < j < |ids| ==> ids[i] != ids[j]
      decreases |rest|
    {
      var c :| c in rest;
      if counts[c] == max {
        ids := ids + [c];
      }
      rest := rest - {c};
    }
  }

  /** `calculateVotingResults`: the tally, its maximum, the candidates at the
      maximum and whether more than one of them shares it. Without ballots
      the maximum is -Infinity, nobody leads and there is no tie. */
  method CalculateVotingResults(votes: map<string, string>) returns (r: VotingResults)
    ensures r.voteCounts.Keys == votes.Values
    ensures forall c :: c in r.voteCounts ==> r.voteCounts[c] == VotesFor(votes, c) >= 1
    ensures Sum(r.voteCounts) == |votes|
    ensures r.maxVotes.None? <==> votes == map[]
    ensures r.maxVotes.Some? ==>
      r.maxVotes.value in r.voteCounts.Values && forall c :: c in r.voteCounts ==> r.voteCounts[c] <= r.maxVotes.value
    ensures forall c :: c in r.playersWithMaxVotes <==> c in r.voteCounts && r.maxVotes == Some(r.voteCounts[c])
    ensures forall i, j :: 0 <= i < j < |r.playersWithMaxVotes| ==> r.playersWithMaxVotes[i] != r.playersWithMaxVotes[j]
    ensures r.isTie <==> |r.playersWithMaxVotes| > 1
    ensures (exists c :: UniqueLeader(votes, c)) <==> !r.isTie && votes != map[]
    ensures !r.isTie && votes != map[] ==> |r.playersWithMaxVotes| == 1 && UniqueLeader(votes, r.playersWithMaxVotes[0])
  {
    if votes == map[] {
      assert votes.Values == {};
      return VotingResults(map[], None, [], false);
    }
    var k :| k in votes;
    assert votes[k] in votes.Values;
    var counts := CountVotes(votes);
    var maxVotes, arg := MaxCount(counts);
    var leaders := CandidatesWith(counts, maxVotes);
    r := VotingResults(counts, Some(maxVotes), leaders, |leaders| > 1);

    assert arg in leaders;
    if |leaders| > 1 {
      var a, b := leaders[0], leaders[1];
      forall c ensures !UniqueLeader(votes, c) {
        var rival := if c == a then b else a;
        assert rival in votes.Values && rival != c;
        if c in votes.Values {
          assert VotesFor(votes, rival) == maxVotes >= VotesFor(votes, c);
        }
      }
    } else {
      assert leaders == [arg];
      forall d | d in votes.Values && d != arg ensures VotesFor(votes, d) < VotesFor(votes, arg) {
        assert d !in leaders;
      }
      assert UniqueLeader(votes, arg);
    }
  }

  /** What `processElimination` returns. `winner` is `None` for `null`. */
  datatype Elimination = Elimination(
    updatedPlayers: seq<Player>,
    gameEnded: bool,
    winner: Option<Team>,
    reason: string)

  const NotFoundMessage := "Player to eliminate not found"
  const CiviliansWinReason := "All imposters have been eliminated!"
  const ImpostersWinReason := "The imposter survived to the final 2!"
  const DrawReason := "Not enough players remaining to continue."

  /** Every player with the given id is marked not alive. */
  function MarkEliminated(players: seq<Player>, id: string): seq<Player> {
    seq(|players|, i requires 0 <= i < |players| =>
      if players[i].id == id then players[i].(isAlive := false) else players[i])
  }

  /** The win conditions of `processElimination`, in their order. */
  function EliminationVerdict(eliminated: Player, updated: seq<Player>): Elimination {
    var alive := Filter(updated, IsAlive);
    var aliveImposters := Filter(alive, IsImposter);
    if eliminated.isImposter && |aliveImposters| == 0 then
      Elimination(updated, true, Some(Civilians), CiviliansWinReason)
    else if |alive| <= 2 && |aliveImposters| > 0 then
      Elimination(updated, true, Some(Imposters), ImpostersWinReason)
    else if |alive| < 2 then
      Elimination(updated, true, None, DrawReason)
    else
      Elimination(updated, false, None, "")
  }

  /** A civilian win leaves no alive imposter, an imposter win leaves one, and
      a game that goes on has at least two alive players. */
  lemma VerdictMeaning(eliminated: Player, updated: seq<Player>)
    ensures var e := EliminationVerdict(eliminated, updated);
      && (e.winner.Some? ==> e.gameEnded)
      && (e.winner == Some(Civilians) ==> forall p :: p in updated && p.isAlive ==> !p.isImposter)
      && (e.winner == Some(Imposters) ==> exists p :: p in updated && p.isAlive && p.isImposter)
      && (!e.gameEnded ==> |Filter(updated, IsAlive)| >= 2)
  {
    var e := EliminationVerdict(eliminated, updated);
    var alive := Filter(updated, IsAlive);
    var aliveImposters := Filter(alive, IsImposter);
    if e.winner == Some(Civilians) {
      forall p | p in updated && p.isAlive ensures !p.isImposter {
        assert p in alive;
      }
    } else if e.winner == Some(Imposters) {
      var q := aliveImposters[0];
      assert q in aliveImposters;
      assert q in alive && q in updated;
    }
  }

  /** `processElimination`: throws when nobody has the id; otherwise marks the
      player eliminated and evaluates the win conditions. */
  function ProcessElimination(players: seq<Player>, eliminatedId: string): (r: Result<Elimination>)
    ensures r.Err? <==> forall p :: p in players ==> p.id != eliminatedId
    ensures r.Err? ==> r.message == NotFoundMessage
    ensures r.Ok? ==> |r.value.updatedPlayers| == |players|
    ensures r.Ok? ==> forall i :: 0 <= i < |players| ==>
      r.value.updatedPlayers[i] == if players[i].id == eliminatedId then players[i].(isAlive := false) else players[i]
  {
    match FindById(players, eliminatedId)
    case None => Err(NotFoundMessage)
    case Some(eliminated) => Ok(EliminationVerdict(eliminated, MarkEliminated(players, eliminatedId)))
  }

  /** A winner ends the game; a civilian win leaves no alive imposter, an
      imposter win leaves one, and a game that goes on has at least two alive players. */
  lemma ProcessEliminationMeaning(players: seq<Player>, eliminatedId: string)
    requires ProcessElimination(players, eliminatedId).Ok?
    ensures var e := ProcessElimination(players, eliminatedId).value;
      && (e.winner.Some? ==> e.gameEnded)
      && (e.winner == Some(Civilians) ==> forall p :: p in e.updatedPlayers && p.isAlive ==> !p.isImposter)
      && (e.winner == Some(Imposters) ==> exists p :: p in e.updatedPlayers && p.isAlive && p.isImposter)
      && (!e.gameEnded ==> |Filter(e.updatedPlayers, IsAlive)| >= 2)
  {
    var eliminated := FindById(players, eliminatedId).value;
    VerdictMeaning(eliminated, MarkEliminated(players, eliminatedId));
  }

  /** The four outcomes of the win conditions, each in terms of the alive
      players and alive imposters that remain and of the eliminated player's role. */
  lemma VerdictOutcomes(eliminated: Player, updated: seq<Player>)
    ensures var e := EliminationVerdict(eliminated, updated);
      var alive := |Filter(updated, IsAlive)|;
      var imposters := |Filter(Filter(updated, IsAlive), IsImposter)|;
      && (e.winner == Some(Civilians) <==> eliminated.isImposter && imposters == 0)
      && (e.winner == Some(Imposters) <==> !(eliminated.isImposter && imposters == 0) && alive <= 2 && imposters > 0)
      && (e.gameEnded && e.winner.None? <==> !eliminated.isImposter && alive < 2 && imposters == 0)
      && (!e.gameEnded <==> (imposters > 0 && alive > 2) || (imposters == 0 && alive >= 2 && !eliminated.isImposter))
  {
    var alive := |Filter(updated, IsAlive)|;
    var imposters := |Filter(Filter(updated, IsAlive), IsImposter)|;
    assert imposters <= alive;
  }

  /** With unique ids, eliminating an alive player leaves exactly one alive player fewer. */
  lemma {:induction false} EliminationRemovesOneAlive(players: seq<Player>, id: string)
    requires UniqueIds(players)
    requires exists i :: 0 <= i < |players| && players[i].id == id && players[i].isAlive
    ensures |Filter(MarkEliminated(players, id), IsAlive)| == |Filter(players, IsAlive)| - 1
  {
    var rest := players[1..];
    assert UniqueIds(rest);
    assert MarkEliminated(players, id) == [MarkEliminated(players, id)[0]] + MarkEliminated(rest, id);
    if players[0].id == id {
      forall i | 0 <= i < |rest| ensures rest[i].id != id {
        assert rest[i] == players[i + 1];
      }
      assert MarkEliminated(rest, id) == rest;
    } else {
      var i :| 0 <= i < |players| && players[i].id == id && players[i].isAlive;
      assert rest[i - 1] == players[i];
      EliminationRemovesOneAlive(rest, id);
    }
  }

  /** When the eliminated player is the only imposter id in the room, the civilians win. */
  lemma {:induction false} SoleImposterEliminated(players: seq<Player>, id: string)
    requires UniqueIds(players)
    requires forall p :: p in players && p.isImposter ==> p.id == id
    requires exists p :: p in players && p.id == id && p.isImposter
    ensures ProcessElimination(players, id).Ok?
    ensures ProcessElimination(players, id).value.winner == Some(Civilians)
  {
    var updated := MarkEliminated(players, id);
    var alive := Filter(updated, IsAlive);
    var found := FindById(players, id).value;
    var p :| p in players && p.id == id && p.isImposter;
    var i :| 0 <= i < |players| && players[i] == found;
    var j :| 0 <= j < |players| && players[j] == p;
    assert i == j;
    forall q | q in alive ensures !q.isImposter {
      var i :| 0 <= i < |updated| && updated[i] == q;
    }
    assert |Filter(alive, IsImposter)| == 0 by {
      FilterCountZero(alive, IsImposter);
    }
  }

  /** Eliminating the same id again cannot fail and changes no player: the
      elimination is safe to repeat. */
  lemma EliminationRepeatable(players: seq<Player>, id: string)
    requires ProcessElimination(players, id).Ok?
    ensures var once := ProcessElimination(players, id).value.updatedPlayers;
      ProcessElimination(once, id).Ok? && ProcessElimination(once, id).value.updatedPlayers == once
  {
    var once := MarkEliminated(players, id);
    EliminationMarks(players, id);
    var i :| 0 <= i < |players| && players[i].id == id;
    assert once[i].id == id;
    EliminationMarks(once, id);
    MarkEliminatedTwice(players, id);
  }

  lemma EliminationMarks(players: seq<Player>, id: string)
    requires exists i :: 0 <= i < |players| && players[i].id == id
    ensures ProcessElimination(players, id).Ok?
    ensures ProcessElimination(players, id).value.updatedPlayers == MarkEliminated(players, id)
    ensures ProcessElimination(players, id).value
      == EliminationVerdict(FindById(players, id).value, MarkEliminated(players, id))
  {
    var i :| 0 <= i < |players| && players[i].id == id;
    assert players[i] in players;
  }

  lemma MarkEliminatedTwice(players: seq<Player>, id: string)
    ensures MarkEliminated(MarkEliminated(players, id), id) == MarkEliminated(players, id)
  {
  }

  /** What `prepareNextRound` returns. */
  datatype NextRound = NextRound(updatedPlayers: seq<Player>, newRound: nat)

  /** `prepareNextRound`: a new round in which everybody may give a clue and
      vote again; the clue history is kept. */
  function PrepareNextRound(players: seq<Player>, currentRound: nat): (r: NextRound)
    ensures r.newRound == currentRound + 1
    ensures |r.updatedPlayers| == |players|
    ensures forall i :: 0 <= i < |players| ==>
      var p := r.updatedPlayers[i];
      && !p.hasVoted && !p.hasGivenClue
      && p.(hasVoted := players[i].hasVoted, hasGivenClue := players[i].hasGivenClue) == players[i]
  {
    NextRound(
      seq(|players|, i requires 0 <= i < |players| => players[i].(hasVoted := false, hasGivenClue := false)),
      currentRound + 1)
  }

  /** Preparing the players twice gives the same players as preparing them once. */
  lemma PrepareNextRoundSettles(players: seq<Player>, round: nat)
    ensures var once := PrepareNextRound(players, round);
      PrepareNextRound(once.updatedPlayers, once.newRound).updatedPlayers == once.updatedPlayers
  {
  }

  /** What `resetGameForNewRound` returns: the room fields it overwrites. */
  datatype RoomReset = RoomReset(players: seq<Player>, gameState: GameState, currentRound: nat, votes: map<string, string>)

  /** `resetGameForNewRound`: back to the lobby with roles and words withdrawn. */
  function ResetGameForNewRound(players: seq<Player>): (r: RoomReset)
    ensures r.gameState == Waiting && r.currentRound == 0 && r.votes == map[]
    ensures |r.players| == |players|
    ensures forall i :: 0 <= i < |players| ==>
      var p := r.players[i];
      && !p.hasVoted && !p.isImposter && p.word == ""
      && p.(hasVoted := players[i].hasVoted, isImposter := players[i].isImposter, word := players[i].word) == players[i]
  {
    RoomReset(
      seq(|players|, i requires 0 <= i < |players| => players[i].(hasVoted := false, word := "", isImposter := false)),
      Waiting, 0, map[])
  }
}
