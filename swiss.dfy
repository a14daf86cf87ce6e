/**
 * The Swiss pairing step of the tournament: the ranked standings are cut
 * into consecutive pairs, first with second, third with fourth, and so on.
 * Each pair is reported as (id1, name1, id2, name2).
 *
 * The standings themselves come from a database view that is not part of
 * this model; here they are a parameter.
 */
module Swiss {

  /** One row of the standings: (id, name, wins, matches). */
  datatype Standing = Standing(id: int, name: string, wins: int, matches: int)

  /** One pairing for the next round: (id1, name1, id2, name2). */
  datatype Pairing = Pairing(id1: int, name1: string, id2: int, name2: string)

  /** Every second element of `s`, starting at index `start` (`s[start::2]`). */
  function EveryOther<T>(s: seq<T>, start: nat): seq<T>
    decreases |s| - start
  {
    if start >= |s| then [] else [s[start]] + EveryOther(s, start + 2)
  }

  /** Pairs up the elements of `a` and `b` position by position and stops at
      the end of the shorter one, as the built-in `zip` does. */
  function Zip<A, B>(a: seq<A>, b: seq<B>): seq<(A, B)>
  {
    if a == [] || b == [] then [] else [(a[0], b[0])] + Zip(a[1..], b[1..])
  }

  /** The pairing built from two standings rows: the id and name of each,
      wins and matches dropped. */
  function PairUp(first: Standing, second: Standing): Pairing
  {
    Pairing(first.id, first.name, second.id, second.name)
  }

  /** Functional specification of the pairing step: the even-indexed rows
      zipped with the odd-indexed rows, each zipped pair turned into a
      Pairing. */
  function Pairings(standings: seq<Standing>): seq<Pairing>
  {
    var zipped := Zip(EveryOther(standings, 0), EveryOther(standings, 1));
    seq(|zipped|, k requires 0 <= k < |zipped| => PairUp(zipped[k].0, zipped[k].1))
  }

  /** The ids of the standings, in ranking order. */
  function Ids(standings: seq<Standing>): seq<int>
  {
    seq(|standings|, i requires 0 <= i < |standings| => standings[i].id)
  }

  /** The ids of the pairings, flattened: id1 and id2 of the first pair, then
      of the second, and so on. */
  function PairedIds(pairs: seq<Pairing>): seq<int>
  {
    if pairs == [] then [] else [pairs[0].id1, pairs[0].id2] + PairedIds(pairs[1..])
  }

  /** Whether the player with the given id plays in the pairing. */
  predicate InPair(p: Pairing, id: int)
  {
    p.id1 == id || p.id2 == id
  }

  /** Player ids are unique across the standings. */
  predicate DistinctIds(standings: seq<Standing>)
  {
    forall i, j :: 0 <= i < j < |standings| ==> standings[i].id != standings[j].id
  }

  /** The standings are ordered by wins, most wins first. */
  predicate RankedByWins(standings: seq<Standing>)
  {
    forall i, j :: 0 <= i < j < |standings| ==> standings[i].wins >= standings[j].wins
  }

  /** `s[start::2]` holds ceil((|s| - start) / 2) elements, the k-th of which
      is `s[start + 2 * k]`. */
  lemma {:induction false} EveryOtherAt<T>(s: seq<T>, start: nat)
    requires start <= |s|
    ensures |EveryOther(s, start)| == (|s| - start + 1) / 2
    ensures forall k :: 0 <= k < |EveryOther(s, start)| ==> EveryOther(s, start)[k] == s[start + 2 * k]
    decreases |s| - start
  {
    if start < |s| {
      if start + 2 <= |s| {
        EveryOtherAt(s, start + 2);
      } else {
        assert EveryOther(s, start + 2) == [];
      }
    }
  }

  /** `zip` stops at the shorter sequence and pairs elements of equal index. */
  lemma {:induction false} ZipAt<A, B>(a: seq<A>, b: seq<B>)
    ensures |Zip(a, b)| == if |a| <= |b| then |a| else |b|
    ensures forall k :: 0 <= k < |Zip(a, b)| ==> Zip(a, b)[k] == (a[k], b[k])
  {
    if a != [] && b != [] {
      ZipAt(a[1..], b[1..]);
    }
  }

  /** The pairing step yields |standings| / 2 pairs (integer division), and
      pair k is made of rows 2k and 2k+1: adjacent rows, the higher-ranked
      one first. */
  lemma PairingsShape(standings: seq<Standing>)
    ensures |Pairings(standings)| == |standings| / 2
    ensures forall k :: 0 <= k < |Pairings(standings)| ==>
              Pairings(standings)[k] == PairUp(standings[2 * k], standings[2 * k + 1])
  {
    EveryOtherAt(standings, 0);
    if |standings| == 0 {
      assert EveryOther(standings, 1) == [];
    } else {
      EveryOtherAt(standings, 1);
    }
    ZipAt(EveryOther(standings, 0), EveryOther(standings, 1));
  }

  /** Empty standings give no pairings. */
  lemma NoStandingsNoPairings(standings: seq<Standing>)
    ensures Pairings(standings) == [] <==> |standings| < 2
  {
    PairingsShape(standings);
  }

  /** Flattening the pairings yields exactly the ids of the rows that were
      paired, in ranking order; those are all rows but a trailing odd one. */
  lemma PairedIdsInRankingOrder(standings: seq<Standing>)
    ensures PairedIds(Pairings(standings)) == Ids(standings[..|standings| / 2 * 2])
  {
    var n := |standings| / 2;
    PairingsShape(standings);
    PairedIdsOfPrefix(standings, n);
    assert Pairings(standings)[..n] == Pairings(standings);
    assert 2 * n == n * 2;
  }

  /** Helper for PairedIdsInRankingOrder: the first n pairings flatten to
      the ids of the first 2n rows. */
  lemma {:induction false} PairedIdsOfPrefix(standings: seq<Standing>, n: nat)
    requires n <= |standings| / 2
    requires |Pairings(standings)| == |standings| / 2
    requires forall k :: 0 <= k < |Pairings(standings)| ==>
               Pairings(standings)[k] == PairUp(standings[2 * k], standings[2 * k + 1])
    ensures PairedIds(Pairings(standings)[..n]) == Ids(standings[..2 * n])
  {
    var pairs := Pairings(standings);
    if n > 0 {
      PairedIdsOfPrefix(standings, n - 1);
      PairedIdsAppend(pairs[..n - 1], pairs[n - 1]);
      assert pairs[..n] == pairs[..n - 1] + [pairs[n - 1]];
      assert Ids(standings[..2 * n]) == Ids(standings[..2 * (n - 1)]) + [standings[2 * n - 2].id, standings[2 * n - 1].id];
    } else {
      assert pairs[..0] == [];
    }
  }

  /** Flattening distributes over appending one pairing. */
  lemma {:induction false} PairedIdsAppend(pairs: seq<Pairing>, p: Pairing)
    ensures PairedIds(pairs + [p]) == PairedIds(pairs) + [p.id1, p.id2]
  {
    if pairs == [] {
      assert pairs + [p] == [p];
    } else {
      assert (pairs + [p])[1..] == pairs[1..] + [p];
      PairedIdsAppend(pairs[1..], p);
    }
  }

  /** With an even number of rows, the flattened pairings are the standings
      ids themselves, in order (so in particular a permutation of them):
      every row is used exactly once. */
  lemma EvenStandingsAllPaired(standings: seq<Standing>)
    requires |standings| % 2 == 0
    ensures PairedIds(Pairings(standings)) == Ids(standings)
  {
    PairedIdsInRankingOrder(standings);
    assert standings[..|standings| / 2 * 2] == standings;
  }

  /** With an odd number of rows, the flattened pairings are the ids of all
      rows but the last; the last row is silently dropped, and when ids are
      unique its player plays in no pair. */
  lemma OddStandingsDropLast(standings: seq<Standing>)
    requires |standings| % 2 == 1
    ensures PairedIds(Pairings(standings)) == Ids(standings[..|standings| - 1])
    ensures DistinctIds(standings) ==>
              forall k :: 0 <= k < |Pairings(standings)| ==> !InPair(Pairings(standings)[k], standings[|standings| - 1].id)
  {
    PairedIdsInRankingOrder(standings);
    PairingsShape(standings);
  }

  /** When player ids are unique, the player in row i plays in pair k exactly
      when k == i / 2. With an even number of rows every row therefore plays
      in exactly one pair; with an odd number the last row (i / 2 ==
      |standings| / 2) plays in none. */
  lemma PlayerPairedOnce(standings: seq<Standing>)
    requires DistinctIds(standings)
    ensures forall i, k :: 0 <= i < |standings| && 0 <= k < |Pairings(standings)| ==>
              (InPair(Pairings(standings)[k], standings[i].id) <==> k == i / 2)
  {
    PairingsShape(standings);
  }

  /** For standings ranked by wins, the two players of a pair have an equal or
      nearly-equal record: the first has at least as many wins as the second,
      and no other player's win count lies strictly between theirs. */
  lemma PairedPlayersAreNeighbours(standings: seq<Standing>)
    requires DistinctIds(standings)
    requires RankedByWins(standings)
    ensures forall k, a, b :: 0 <= k < |Pairings(standings)| && 0 <= a < |standings| && 0 <= b < |standings|
              && standings[a].id == Pairings(standings)[k].id1 && standings[b].id == Pairings(standings)[k].id2
              ==> standings[a].wins >= standings[b].wins
                  && forall i :: 0 <= i < |standings| && i != a && i != b ==>
                       !(standings[b].wins < standings[i].wins < standings[a].wins)
  {
    PairingsShape(standings);
  }

  /** Pairing follows the order of the standings: every player of an earlier
      pair has at least as many wins as every player of a later pair. */
  lemma EarlierPairsRankHigher(standings: seq<Standing>)
    requires DistinctIds(standings)
    requires RankedByWins(standings)
    ensures forall k, k', i, j :: 0 <= k < k' < |Pairings(standings)| && 0 <= i < |standings| && 0 <= j < |standings|
              && InPair(Pairings(standings)[k], standings[i].id) && InPair(Pairings(standings)[k'], standings[j].id)
              ==> standings[i].wins >= standings[j].wins
  {
    PlayerPairedOnce(standings);
  }

  /**
   * The pairing loop: walks the even-indexed and odd-indexed rows side by
   * side and appends one pairing per step, stopping when either runs out.
   */
  method SwissPairings(standings: seq<Standing>) returns (output: seq<Pairing>)
    ensures output == Pairings(standings)
    ensures |output| == |standings| / 2
    ensures forall k :: 0 <= k < |output| ==> output[k] == PairUp(standings[2 * k], standings[2 * k + 1])
  {
    var firsts := EveryOther(standings, 0);
    var seconds := EveryOther(standings, 1);
    ghost var zipped := Zip(firsts, seconds);
    ZipAt(firsts, seconds);
    output := [];
    var k := 0;
    while k < |firsts| && k < |seconds|
      invariant 0 <= k <= |zipped|
      invariant |output| == k
      invariant forall j :: 0 <= j < k ==> output[j] == PairUp(firsts[j], seconds[j])
    {
      output := output + [PairUp(firsts[k], seconds[k])];
      k := k + 1;
    }
    PairingsShape(standings);
  }
}
