/**
 * The data model of the game: a player, a room's lifecycle state, the two
 * teams and a word pair, together with the array helpers the rules share
 * (`Array.prototype.filter` and `find` over the players of a room).
 */
module GameTypes {

  datatype Option<T> = None | Some(value: T)

  /** A computation that either yields a value or throws an `Error` with a message. */
  datatype Result<T> = Ok(value: T) | Err(message: string)

  /** One participant. A room creator's record lacks `clues`, `hasGivenClue`
      and `hasLeft`; those undefined values behave as `[]`, `false` and
      `false` everywhere they are read, which is how they are modelled. */
  datatype Player = Player(
    id: string,
    name: string,
    isHost: bool,
    isAlive: bool,
    isImposter: bool,
    word: string,
    hasVoted: bool,
    clues: seq<string>,     // one clue per round, oldest first
    hasGivenClue: bool,     // a clue was given in the current round
    hasLeft: bool)          // quit during a game; kept for its history

  /** The lifecycle of a room. `Starting` is declared but no operation enters it. */
  datatype GameState = Waiting | Starting | Clue | Voting | Results | Finished

  datatype Team = Imposters | Civilians

  /** The civilians' word, the imposter's word and the pair's category. */
  datatype WordPair = WordPair(main: string, imposter: string, category: string)

  predicate IsAlive(p: Player) { p.isAlive }
  predicate IsImposter(p: Player) { p.isImposter }
  predicate IsActive(p: Player) { !p.hasLeft }

  /** No two players share an id (ids are freshly generated uuids). */
  predicate UniqueIds(ps: seq<Player>) {
    forall i, j :: 0 <= i < j < |ps| ==> ps[i].id != ps[j].id
  }

  /** `ps.filter(keep)`: the players that satisfy `keep`, in their original order. */
  function Filter(ps: seq<Player>, keep: Player -> bool): (r: seq<Player>)
    ensures |r| <= |ps|
    ensures forall p :: p in r <==> p in ps && keep(p)
  {
    if ps == [] then []
    else (if keep(ps[0]) then [ps[0]] else []) + Filter(ps[1..], keep)
  }

  /** `ps.find(keep)`: the first player that satisfies `keep`. */
  function Find(ps: seq<Player>, keep: Player -> bool): (r: Option<Player>)
    ensures r.None? <==> forall p :: p in ps ==> !keep(p)
    ensures r.Some? ==> exists i :: 0 <= i < |ps| && ps[i] == r.value && keep(ps[i]) && forall j :: 0 <= j < i ==> !keep(ps[j])
  {
    if ps == [] then None
    else if keep(ps[0]) then Some(ps[0])
    else
      var r := Find(ps[1..], keep);
      if r.Some? then
        var i :| 0 <= i < |ps| - 1 && ps[1..][i] == r.value && keep(ps[1..][i]) && forall j :: 0 <= j < i ==> !keep(ps[1..][j]);
        assert ps[i + 1] == r.value && forall j :: 0 <= j < i + 1 ==> !keep(ps[j]);
        r
      else r
  }

  /** `ps.find(p => p.id === id)`: the first player with that id. */
  function FindById(ps: seq<Player>, id: string): (r: Option<Player>)
    ensures r.None? <==> forall p :: p in ps ==> p.id != id
    ensures r.Some? ==> r.value in ps && r.value.id == id
    ensures r.Some? ==> exists i :: 0 <= i < |ps| && ps[i] == r.value && forall j :: 0 <= j < i ==> ps[j].id != id
  {
    Find(ps, (p: Player) => p.id == id)
  }

  /** The ids of the players, in order (`ps.map(p => p.id)`). */
  function Ids(ps: seq<Player>): (r: seq<string>)
    ensures |r| == |ps| && forall i :: 0 <= i < |ps| ==> r[i] == ps[i].id
  {
    seq(|ps|, i requires 0 <= i < |ps| => ps[i].id)
  }

  /** The filter is empty exactly when no player satisfies `keep`. */
  lemma {:induction false} FilterCountZero(ps: seq<Player>, keep: Player -> bool)
    ensures |Filter(ps, keep)| == 0 <==> forall i :: 0 <= i < |ps| ==> !keep(ps[i])
  {
    if ps != [] {
      FilterCountZero(ps[1..], keep);
      assert forall i :: 1 <= i < |ps| ==> ps[i] == ps[1..][i - 1];
    }
  }

  /** Filtering distributes over concatenation. */
  lemma {:induction false} FilterAppend(xs: seq<Player>, ys: seq<Player>, keep: Player -> bool)
    ensures Filter(xs + ys, keep) == Filter(xs, keep) + Filter(ys, keep)
  {
    if xs == [] {
      assert xs + ys == ys;
    } else {
      var zs := xs + ys;
      assert zs[0] == xs[0] && zs[1..] == xs[1..] + ys;
      FilterAppend(xs[1..], ys, keep);
    }
  }

  /** Filtering keeps distinct ids distinct. */
  lemma {:induction false} FilterUniqueIds(ps: seq<Player>, keep: Player -> bool)
    requires UniqueIds(ps)
    ensures UniqueIds(Filter(ps, keep))
  {
    if ps != [] {
      var rest := ps[1..];
      FilterUniqueIds(rest, keep);
      var tail := Filter(rest, keep);
      forall p | p in tail ensures p.id != ps[0].id {
        var k :| 0 <= k < |rest| && rest[k] == p;
        assert ps[k + 1] == p;
      }
      var r := Filter(ps, keep);
      if keep(ps[0]) {
        forall i, j | 0 <= i < j < |r| ensures r[i].id != r[j].id {
          assert r[j] == tail[j - 1] && r[j] in tail;
          if i > 0 {
            assert r[i] == tail[i - 1];
          }
        }
      }
    }
  }

  /** The set of the players' ids. */
  function IdSet(ps: seq<Player>): (r: set<string>)
    ensures forall p :: p in ps ==> p.id in r
    ensures forall id :: id in r ==> exists i :: 0 <= i < |ps| && ps[i].id == id
  {
    if ps == [] then {} else {ps[0].id} + IdSet(ps[1..])
  }

  /** With distinct ids there are as many ids as players. */
  lemma {:induction false} IdSetSize(ps: seq<Player>)
    requires UniqueIds(ps)
    ensures |IdSet(ps)| == |ps|
  {
    if ps != [] {
      var rest := ps[1..];
      assert UniqueIds(rest) by {
        forall i, j | 0 <= i < j < |rest| ensures rest[i].id != rest[j].id {
          assert rest[i] == ps[i + 1] && rest[j] == ps[j + 1];
        }
      }
      IdSetSize(rest);
      forall id | id in IdSet(rest) ensures id != ps[0].id {
        var k :| 0 <= k < |rest| && rest[k].id == id;
        assert rest[k] == ps[k + 1];
      }
    }
  }

  /** A filter that every player passes keeps the whole list. */
  lemma {:induction false} FilterKeepsAll(ps: seq<Player>, keep: Player -> bool)
    requires forall i :: 0 <= i < |ps| ==> keep(ps[i])
    ensures Filter(ps, keep) == ps
  {
    if ps != [] {
      FilterKeepsAll(ps[1..], keep);
    }
  }

  /** Two player lists that hold the same ids at the same positions. */
  predicate SameIds(a: seq<Player>, b: seq<Player>) {
    |a| == |b| && forall i :: 0 <= i < |a| ==> a[i].id == b[i].id
  }

  /** Updating players in place keeps distinct ids distinct. */
  lemma SameIdsKeepUnique(a: seq<Player>, b: seq<Player>)
    requires UniqueIds(a) && SameIds(a, b)
    ensures UniqueIds(b)
  {
    forall i, j | 0 <= i < j < |b| ensures b[i].id != b[j].id {
      assert a[i].id != a[j].id;
    }
  }
}
