/**
 * Small helpers: picking the imposter, the Fisher–Yates shuffle and the
 * `m:ss` clock format. The random numbers are parameters.
 */
module GameUtils {
  import opened GameTypes

  /** `Math.floor(Math.random() * count)` lies in `[0, count)` whenever `count` is positive. */
  predicate ValidPick(count: nat, pick: nat) {
    count == 0 || pick < count
  }

  /** `selectRandomImposter`: the candidate at the random index; an empty
      list yields `undefined`, modelled as `None`. */
  function SelectRandomImposter(playerIds: seq<string>, pick: nat): (r: Option<string>)
    requires ValidPick(|playerIds|, pick)
    ensures r.None? <==> playerIds == []
    ensures r.Some? ==> r.value in playerIds
  {
    if playerIds == [] then None else Some(playerIds[pick])
  }

  /** Every candidate is chosen by some random index. */
  lemma EveryCandidateCanBePicked(playerIds: seq<string>, id: string)
    requires id in playerIds
    ensures exists pick :: ValidPick(|playerIds|, pick) && SelectRandomImposter(playerIds, pick) == Some(id)
  {
    var i :| 0 <= i < |playerIds| && playerIds[i] == id;
    assert SelectRandomImposter(playerIds, i) == Some(id);
  }

  // ----- shuffleArray -----

  /** `draws[i]` is `Math.floor(Math.random() * (i + 1))`, the partner drawn for index `i`. */
  predicate ValidDraws(n: nat, draws: seq<nat>) {
    |draws| == n && forall i :: 0 < i < n ==> draws[i] <= i
  }

  function Swap<T>(s: seq<T>, i: nat, j: nat): (r: seq<T>)
    requires i < |s| && j < |s|
    ensures |r| == |s|
  {
    s[i := s[j]][j := s[i]]
  }

  lemma SwapIsPermutation<T>(s: seq<T>, i: nat, j: nat)
    requires i < |s| && j < |s|
    ensures multiset(Swap(s, i, j)) == multiset(s)
  {
    var t := s[i := s[j]];
    assert multiset(t) == multiset(s) - multiset{s[i]} + multiset{s[j]};
    assert multiset(t[j := s[i]]) == multiset(t) - multiset{t[j]} + multiset{s[i]};
  }

  /** The loop from index `i` down to 1: swap `i` with its draw, then go on with `i - 1`. */
  function ShuffleFrom<T>(s: seq<T>, draws: seq<nat>, i: nat): (r: seq<T>)
    requires ValidDraws(|s|, draws) && i < |s|
    ensures |r| == |s|
    decreases i
  {
    if i == 0 then s else ShuffleFrom(Swap(s, i, draws[i]), draws, i - 1)
  }

  /** The whole shuffle as a function of the input and the draws. */
  function FisherYates<T>(s: seq<T>, draws: seq<nat>): (r: seq<T>)
    requires ValidDraws(|s|, draws)
  {
    if s == [] then [] else ShuffleFrom(s, draws, |s| - 1)
  }

  /** Every run of the loop keeps the same elements. */
  lemma {:induction false} ShuffleFromIsPermutation<T>(s: seq<T>, draws: seq<nat>, i: nat)
    requires ValidDraws(|s|, draws) && i < |s|
    ensures multiset(ShuffleFrom(s, draws, i)) == multiset(s)
    decreases i
  {
    if i > 0 {
      var t := Swap(s, i, draws[i]);
      ShuffleFromIsPermutation(t, draws, i - 1);
      SwapIsPermutation(s, i, draws[i]);
    }
  }

  /** The shuffle is a permutation of its input. */
  lemma FisherYatesIsPermutation<T>(s: seq<T>, draws: seq<nat>)
    requires ValidDraws(|s|, draws)
    ensures |FisherYates(s, draws)| == |s| && multiset(FisherYates(s, draws)) == multiset(s)
  {
    if s != [] {
      ShuffleFromIsPermutation(s, draws, |s| - 1);
    }
  }

  /** `shuffleArray`: swaps inside a copy, from the last index down to 1; the
      input array is not modified (no `modifies` clause). */
  method ShuffleArray<T>(input: array<T>, draws: seq<nat>) returns (shuffled: seq<T>)
    requires ValidDraws(input.Length, draws)
    ensures shuffled == FisherYates(input[..], draws)
    ensures |shuffled| == input.Length && multiset(shuffled) == multiset(input[..])
  {
    ghost var original := input[..];
    var n := input.Length;
    var copy := new T[n](k requires 0 <= k < n reads input => input[k]);   // [...array]
    assert copy[..] == original;
    if n > 0 {
      var i := n - 1;
      while i > 0
        invariant 0 <= i < n
        invariant ShuffleFrom(copy[..], draws, i) == FisherYates(original, draws)
      {
        var j := draws[i];
        ghost var before := copy[..];
        copy[i], copy[j] := copy[j], copy[i];
        assert copy[..] == Swap(before, i, j);
        i := i - 1;
      }
    }
    shuffled := copy[..];
    FisherYatesIsPermutation(original, draws);
  }

  // ----- formatTime -----

  /** `seconds % 60` in JavaScript: the division truncates toward zero, so
      the remainder has the sign of the dividend. */
  function JsRemainder60(seconds: int): (r: int)
    ensures seconds >= 0 ==> 0 <= r < 60
    ensures seconds < 0 ==> -60 < r <= 0
    ensures (seconds - r) % 60 == 0
  {
    if seconds >= 0 then seconds % 60 else -((-seconds) % 60)
  }

  function DigitChar(d: nat): char
    requires d < 10
  {
    ['0', '1', '2', '3', '4', '5', '6', '7', '8', '9'][d]
  }

  predicate IsDigit(c: char) {
    '0' <= c <= '9'
  }

  function DigitValue(c: char): nat
    requires IsDigit(c)
  {
    c as int - '0' as int
  }

  /** `n.toString()` for a non-negative integer. */
  function NatToString(n: nat): (r: string)
    ensures |r| >= 1 && forall i :: 0 <= i < |r| ==> IsDigit(r[i])
    ensures n < 10 <==> |r| == 1
  {
    if n < 10 then [DigitChar(n)] else NatToString(n / 10) + [DigitChar(n % 10)]
  }

  /** `i.toString()` for an integer. */
  function IntToString(i: int): string {
    if i < 0 then "-" + NatToString(-i) else NatToString(i)
  }

  /** `s.padStart(2, '0')`. */
  function PadStart2(s: string): string {
    if |s| < 2 then seq(2 - |s|, _ => '0') + s else s
  }

  /** `formatTime`: floor-divided minutes, JavaScript remainder seconds, padded to two places. */
  function FormatTime(seconds: int): string {
    var mins := seconds / 60;   // Math.floor(seconds / 60); Dafny's division by a positive number floors
    var secs := JsRemainder60(seconds);
    IntToString(mins) + ":" + PadStart2(IntToString(secs))
  }

  /** Reads a string of decimal digits. */
  function ParseNat(s: string): nat
    requires forall i :: 0 <= i < |s| ==> IsDigit(s[i])
  {
    if s == [] then 0 else ParseNat(s[..|s| - 1]) * 10 + DigitValue(s[|s| - 1])
  }

  lemma {:induction false} ParseNatToString(n: nat)
    ensures ParseNat(NatToString(n)) == n
  {
    var s := NatToString(n);
    if n >= 10 {
      ParseNatToString(n / 10);
      assert s[..|s| - 1] == NatToString(n / 10);
    }
  }

  /** Reads back an `m:ss` clock: the digits before the colon count minutes, the last two seconds. */
  function ClockSeconds(t: string): int
    requires |t| >= 4 && t[|t| - 3] == ':'
    requires forall i :: 0 <= i < |t| && i != |t| - 3 ==> IsDigit(t[i])
  {
    ParseNat(t[..|t| - 3]) * 60 + ParseNat(t[|t| - 2..])
  }

  /** A seconds field below 60 is two digits that read back as the number. */
  lemma PaddedSeconds(n: nat)
    requires n < 60
    ensures var ss := PadStart2(NatToString(n));
      && |ss| == 2 && IsDigit(ss[0]) && IsDigit(ss[1]) && ParseNat(ss) == n
  {
    var ss := PadStart2(NatToString(n));
    ParseNatToString(n);
    if n < 10 {
      assert ss == ['0', DigitChar(n)];
      assert ss[..1] == ['0'];
    } else {
      assert n / 10 < 10;
      assert ss == NatToString(n);
    }
  }

  /** Joining a digit string and a two-digit string with a colon. */
  lemma ColonJoin(m: string, ss: string)
    requires |m| >= 1 && |ss| == 2
    requires forall i :: 0 <= i < |m| ==> IsDigit(m[i])
    requires IsDigit(ss[0]) && IsDigit(ss[1])
    ensures var t := m + ":" + ss;
      && |t| >= 4 && t[|t| - 3] == ':'
      && (forall i :: 0 <= i < |t| && i != |t| - 3 ==> IsDigit(t[i]))
      && t[..|t| - 3] == m && t[|t| - 2..] == ss
  {
    var t := m + ":" + ss;
    assert t[..|t| - 3] == m;
    assert t[|t| - 2..] == ss;
    forall i | 0 <= i < |t| && i != |t| - 3
      ensures IsDigit(t[i])
    {
      if i < |m| { assert t[i] == m[i]; } else { assert t[i] == ss[i - |m| - 1]; }
    }
  }

  /** A clock built from minutes and a seconds field below 60 has the `m:ss`
      shape and reads back as the total number of seconds. */
  lemma ClockReadsBack(mins: nat, secs: nat)
    requires secs < 60
    ensures var t := NatToString(mins) + ":" + PadStart2(NatToString(secs));
      && |t| >= 4 && t[|t| - 3] == ':'
      && (forall i :: 0 <= i < |t| && i != |t| - 3 ==> IsDigit(t[i]))
      && ParseNat(t[|t| - 2..]) == secs
      && ClockSeconds(t) == mins * 60 + secs
  {
    var m := NatToString(mins);
    var ss := PadStart2(NatToString(secs));
    ParseNatToString(mins);
    PaddedSeconds(secs);
    ColonJoin(m, ss);
  }

  /** For a non-negative number of seconds the clock has the `m:ss` shape: a
      colon, then exactly two digits below 60, and it reads back as the input. */
  lemma FormatTimeRoundTrip(seconds: nat)
    ensures var t := FormatTime(seconds);
      && |t| >= 4 && t[|t| - 3] == ':'
      && (forall i :: 0 <= i < |t| && i != |t| - 3 ==> IsDigit(t[i]))
      && ParseNat(t[|t| - 2..]) < 60
      && ClockSeconds(t) == seconds
  {
    var mins, secs := seconds / 60, seconds % 60;
    assert FormatTime(seconds) == NatToString(mins) + ":" + PadStart2(NatToString(secs));
    ClockReadsBack(mins, secs);
  }
}
