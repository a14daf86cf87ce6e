# Swiss-system tournament: pairing step and registry

This project models `tournament.py`, the core of a Swiss-system tournament
tracker, and proves properties of that model in Dafny.

- `swiss.dfy`, module `Swiss`: the pairing step `swissPairings`. It takes the
  standings, rows of `(id, name, wins, matches)` ranked by wins. It zips the
  even-indexed rows with the odd-indexed rows and emits one
  `(id1, name1, id2, name2)` tuple per zipped pair. `Pairings` is the
  functional specification. It is built the way the source builds it: the
  slices `s[0::2]` and `s[1::2]` (`EveryOther`), Python's `zip`, which stops at
  the shorter sequence (`Zip`), and the field selection (`PairUp`).
  `SwissPairings` is the append loop, proved equal to `Pairings`. The lemmas
  state what the doc-comment of `swissPairings` promises. There are
  n / 2 pairs for n rows. Pair k is rows 2k and 2k+1. Every row is used
  exactly once when the count is even. The last row is dropped when it is odd.
  The order of the standings is kept.
- `registry.dfy`, module `Registry`: the players and matches tables as a
  class `Store` with two sequence fields and an id counter. Its methods are
  `registerPlayer`, `reportMatch`, `deleteMatches`, `deletePlayers` (through
  the shared `delete`) and `countPlayers`. The invariant `Valid` says that
  every recorded match names its winner among its two participants. It also
  says that player ids are assigned in increasing order.

The standings are a parameter of the pairing step. They come from a database
view whose definition is not part of this model.

## Model

| member | source | states |
|---|---|---|
| `Swiss.SwissPairings` | tournament.py:113-134 | The append loop returns exactly the zip-of-slices specification `Pairings`: n / 2 pairs for n rows, pair k being `(id, name)` of row 2k followed by `(id, name)` of row 2k+1 |
| `Swiss.EveryOtherAt` | tournament.py:132 | The slice `s[start::2]` has `(n - start + 1) / 2` elements for n elements, the k-th being `s[start + 2k]` |
| `Swiss.ZipAt` | tournament.py:132 | `zip` yields as many pairs as the shorter input has elements, pair k holding the k-th element of each |
| `Swiss.PairingsShape` | tournament.py:129-133 | For n rows there are n / 2 pairings (integer division); pair k holds the id and name of row 2k then of row 2k+1, so paired players are adjacent and the higher-ranked comes first; wins and matches are not carried over |
| `Swiss.NoStandingsNoPairings` | tournament.py:129-134 | The pairings are empty exactly when there are fewer than two standings rows, in particular for empty standings |
| `Swiss.PairedIdsInRankingOrder` | tournament.py:129-133 | The ids of the pairings, flattened, are the ids of the first `2 * (n / 2)` of the n rows in ranking order |
| `Swiss.EvenStandingsAllPaired` | tournament.py:116-117 | With an even number of rows the flattened ids equal the standings ids, in the same order (so they are a permutation of them): every row is used exactly once |
| `Swiss.OddStandingsDropLast` | tournament.py:132 | With an odd number of rows the flattened ids are those of every row but the last; with unique ids the last player is in no pair |
| `Swiss.PlayerPairedOnce` | tournament.py:116-117 | With unique ids, the player of row i is in pair k if and only if k == i / 2 |
| `Swiss.PairedPlayersAreNeighbours` | tournament.py:117-119 | With unique ids and standings ranked by wins, the first player of a pair has at least as many wins as the second, and no other player's win count lies strictly between theirs |
| `Swiss.EarlierPairsRankHigher` | tournament.py:128-133 | With unique ids and standings ranked by wins, every player of an earlier pair has at least as many wins as every player of a later pair |
| `Registry.ResultRow` | tournament.py:106-107 | The match row inserted for a result has the winner as first participant, the loser as second and the winner as winner, so its winner is one of the two participants |
| `Registry.Store.Delete` | tournament.py:14-25 | Empties exactly the named table and leaves the other one and the id counter unchanged |
| `Registry.Store.DeleteMatches` | tournament.py:28-30 | The matches table becomes empty; the players table is unchanged |
| `Registry.Store.DeletePlayers` | tournament.py:33-35 | The players table becomes empty; the matches table is unchanged |
| `Registry.Store.CountPlayers` | tournament.py:38-48 | Returns the number of rows in the players table |
| `Registry.Store.RegisterPlayer` | tournament.py:51-68 | Appends one player with the given name under an id that no registered player has; the matches table is unchanged |
| `Registry.Store.ReportMatch` | tournament.py:95-110 | Appends exactly one match `(winner, loser, winner)` and keeps the invariant that every match's winner is one of its participants; the players table is unchanged |

## Left out

- Database plumbing (`connect`, cursors, `commit`, `close`, tournament.py:9-11 and the bodies of every function): I/O over a driver library that is not part of this model. Store failures are not modelled.
- `playerStandings` (tournament.py:71-92): it reads a `standings` view defined in a schema file that is not part of this model. Standings are therefore a parameter of the pairing step, and the ordering by wins is only a precondition (`RankedByWins`) of the two lemmas that speak about win records. It is never proved.
- `swissPairings` calls `playerStandings` itself (tournament.py:128). `SwissPairings` takes the rows as a parameter instead.
- Query text and parameter binding (tournament.py:19, 57, 65, 98): injection safety is a property of the database driver. It cannot be stated over this model.
- `Registry.Store.RegisterPlayer`: ids come from a counter, not from the database's serial column. The model does not claim to match that column's behaviour beyond giving each new player an id no registered player has.
- `Registry.Store.DeletePlayers`: empties the players table unconditionally. Whether the database refuses this while matches still refer to players depends on foreign keys in the schema, which is not part of this model.
- Byes and rematch avoidance: the source implements neither.
- Odd player counts: the doc-comment of `swissPairings` only promises anything for an even count (tournament.py:116). The code drops the last row, and the model follows the code (`Swiss.OddStandingsDropLast`).
