/**
 * The tournament registry: a players table and a matches table that the
 * registration, reporting and deletion operations change. The relational
 * store is modelled as an in-memory object whose two tables are sequences of
 * rows; the serial id the store hands out is a counter.
 */
module Registry {

  /** A row of the players table. */
  datatype Player = Player(id: int, name: string)

  /** A row of the matches table: the two participants and the winner. */
  datatype Match = Match(p1: int, p2: int, winner: int)

  /** The two tables that can be emptied. */
  datatype Table = Players | Matches

  /** The winner of a recorded match is one of its two participants. */
  predicate WinnerIsParticipant(m: Match)
  {
    m.winner == m.p1 || m.winner == m.p2
  }

  /** The row that reporting a result inserts: the winner first, the loser
      second, and the winner again as winner. */
  function ResultRow(winner: int, loser: int): (m: Match)
    ensures WinnerIsParticipant(m)
    ensures m.p1 == winner && m.p2 == loser && m.winner == winner
  {
    Match(winner, loser, winner)
  }

  class Store {
    var players: seq<Player>
    var matches: seq<Match>
    /** The next id the store assigns to a registered player. */
    var nextId: int

    /** Player ids increase in registration order and stay below the next id
        to be assigned; every match names its winner among its participants. */
    ghost predicate Valid()
      reads this
    {
      && (forall i, j :: 0 <= i < j < |players| ==> players[i].id < players[j].id)
      && (forall i :: 0 <= i < |players| ==> players[i].id < nextId)
      && (forall i :: 0 <= i < |matches| ==> WinnerIsParticipant(matches[i]))
    }

    /** An empty store. */
    constructor ()
      ensures Valid()
      ensures players == [] && matches == []
    {
      players := [];
      matches := [];
      nextId := 1;
    }

    /** Empties one table and leaves the other as it was. */
    method Delete(table: Table)
      requires Valid()
      modifies this
      ensures Valid()
      ensures players == (if table == Players then [] else old(players))
      ensures matches == (if table == Matches then [] else old(matches))
      ensures nextId == old(nextId)
    {
      match table
      case Players => players := [];
      case Matches => matches := [];
    }

    /** Removes every match record. */
    method DeleteMatches()
      requires Valid()
      modifies this
      ensures Valid()
      ensures matches == [] && players == old(players) && nextId == old(nextId)
    {
      Delete(Matches);
    }

    /** Removes every player record. */
    method DeletePlayers()
      requires Valid()
      modifies this
      ensures Valid()
      ensures players == [] && matches == old(matches) && nextId == old(nextId)
    {
      Delete(Players);
    }

    /** The number of registered players. */
    method CountPlayers() returns (count: nat)
      ensures count == |players|
    {
      count := |players|;
    }

    /** Registers a player under a fresh id; names need not be unique. */
    method RegisterPlayer(name: string)
      requires Valid()
      modifies this
      ensures Valid()
      ensures players == old(players) + [Player(old(nextId), name)]
      ensures forall i :: 0 <= i < |old(players)| ==> players[i].id != old(nextId)
      ensures matches == old(matches) && nextId > old(nextId)
    {
      players := players + [Player(nextId, name)];
      nextId := nextId + 1;
    }

    /** Records one match: the winner as first participant and as winner, the
        loser as second participant. The players table is untouched, and no
        check is made that either id belongs to a registered player. */
    method ReportMatch(winner: int, loser: int)
      requires Valid()
      modifies this
      ensures Valid()
      ensures matches == old(matches) + [Match(winner, loser, winner)]
      ensures players == old(players) && nextId == old(nextId)
    {
      matches := matches + [ResultRow(winner, loser)];
    }
  }
}
