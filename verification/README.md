# Swiss-system tournament: a Dafny model of `tournament.py`

`tournament.py` keeps a Swiss-system tournament in a PostgreSQL database. The
database has two tables:

- `tournament (id, playername)` holds the registered players. `id` is a
  serial key.
- `matches (id, matches, wins)` holds, per player id, how many matches the
  player has played and won.

Besides `connect`, the module offers seven public functions:

- `deleteMatches`, `deletePlayers`
- `countPlayers`, `registerPlayer`
- `playerStandings`: the left join of the two tables, `ORDER BY wins`, each
  row as `(id, name, wins, matches)` with NULL counters read as zeros.
- `reportMatch`: SELECT the counter row of the winner and then of the loser;
  UPDATE it if there is one, INSERT a first row otherwise.
- `swissPairings`: the same ordered join, and one tuple per step of
  `range(0, n, 2)`.

The model is split into modules:

- **Tables** (`tables.dfy`): the two tables are sequences of rows in scan
  order. The SELECT, UPDATE and INSERT that `reportMatch` runs are functions
  on these sequences. The counters are also seen as a map from id to
  (matches, wins).
- **Query** (`query.dfy`): the left join, and the `ORDER BY wins` order.
  That order is ascending with NULLs last, and ties have no defined order. So
  an answer the database may give is specified by a predicate,
  `IsQueryResult`: a permutation of the join in such an order. An insertion
  sort shows that such an answer always exists.
- **Standings** (`standings.dfy`): the tuples `playerStandings` makes from
  the rows. It proves that they are one per player, with the stored counters
  or zeros, in the query's order.
- **Pairings** (`pairings.dfy`): two pair lists.
  - The list the loop builds as written: every tuple is rows 0 and 1.
  - The adjacent pairing that the function's doc-comment describes.
- **Scoring** (`scoring.dfy`): what one `reportMatch` does to the counters,
  as written and as intended, and both replayed over a log of outcomes.
- **Tournament** (`tournament.dfy`): class `Database`, whose fields are the
  two tables. It has one method per public function of `tournament.py`
  (`connect` has none).
  - `DeleteMatches`, `DeletePlayers`, `CountPlayers` and `RegisterPlayer`
    state their new tables or their result directly.
  - `PlayerStandings`, `ReportMatch` and `SwissPairings` are proved against
    the functions of the modules above.

Where the code and the docstrings disagree, the model follows the code:

- `playerStandings` says the first entry is the player in first place. The
  query sorts ascending, so the first entry has the fewest wins, and that is
  what is modelled.
- Equal-wins rows come in any order the database picks, not a stable order.
- `reportMatch` never increments a counter that already exists.
- `swissPairings` repeats rows 0 and 1, and raises on exactly one player.
  It does not reject an odd count.

The last two are under "## Findings".

## Model

| member | source | states |
|---|---|---|
| Tables.Select | FSND-Virtual-Machine/vagrant/tournament/tournament.py:122-125 | the SELECT by id returns exactly the rows of the table carrying that id: every such row, and no other |
| Tables.Update | FSND-Virtual-Machine/vagrant/tournament/tournament.py:128-130 | the UPDATE keeps the table's length and order, overwrites every row carrying the id with the given counters, and leaves every other row as it was |
| Tables.Insert | FSND-Virtual-Machine/vagrant/tournament/tournament.py:132-134 | the INSERT keeps every existing row in place and adds the new row after them |
| Tables.SelectSeesCounters | FSND-Virtual-Machine/vagrant/tournament/tournament.py:122-127 | `if info:` holds exactly when the id has counters, and `info[0]` holds that id's counters |
| Tables.SelectAtMostOne | FSND-Virtual-Machine/vagrant/tournament/tournament.py:122-125 | with at most one row per id, the SELECT returns at most one row |
| Tables.UpdateWithHeldValues | FSND-Virtual-Machine/vagrant/tournament/tournament.py:128-130 | an UPDATE that writes the values every matching row already holds leaves the table unchanged |
| Tables.RewriteIsNoOp | FSND-Virtual-Machine/vagrant/tournament/tournament.py:125-130 | with unique ids, the UPDATE of `info[0][0], info[0][1]` leaves the table exactly as it was |
| Tables.InsertNewId | FSND-Virtual-Machine/vagrant/tournament/tournament.py:132-134 | inserting a row for an id without counters adds that id's counters and changes no other |
| Tables.InsertKeepsUnique | FSND-Virtual-Machine/vagrant/tournament/tournament.py:132-134 | inserting only when the SELECT found nothing never gives an id a second row |
| Tables.UniquePlayerIdsCount | FSND-Virtual-Machine/vagrant/tournament/tournament.py:44-47 | with serial ids, COUNT(*) equals the number of distinct registered ids |
| Query.JoinOne | FSND-Virtual-Machine/vagrant/tournament/tournament.py:91-93 | the left join gives a player at least one row. Each row carries the player's id and name, and its counters are NULL exactly when the player has no counter row |
| Query.LeftJoin | FSND-Virtual-Machine/vagrant/tournament/tournament.py:91-93 | the join has at least as many rows as there are player rows, and every row comes from a registered player's id and name |
| Query.LeftJoinCoversPlayers | FSND-Virtual-Machine/vagrant/tournament/tournament.py:91-93 | every player row gets a row in the join: the first of its JoinOne rows, which carries its id and name |
| Query.InOrder | FSND-Virtual-Machine/vagrant/tournament/tournament.py:94 | `ORDER BY wins`, ascending with NULLs last: a row may precede another exactly when the other has NULL counters, or both have counters and the first has no more wins |
| Query.InOrderTotal | FSND-Virtual-Machine/vagrant/tournament/tournament.py:94 | any two rows can be ordered one way or the other |
| Query.QueryResultShape | FSND-Virtual-Machine/vagrant/tournament/tournament.py:91-94 | an answer the database may give (IsQueryResult: a permutation of the join in `ORDER BY wins` order) has as many rows as the join and holds exactly the join's rows |
| Query.JoinOneUnique | FSND-Virtual-Machine/vagrant/tournament/tournament.py:91-93 | with unique counter ids, a player has exactly one join row, with its counters or NULLs |
| Query.LeftJoinOneRowPerPlayer | FSND-Virtual-Machine/vagrant/tournament/tournament.py:91-93 | with unique counter ids, the left join is exactly one row per player row, in table order |
| Query.JoinOneRowsComeFromTables | FSND-Virtual-Machine/vagrant/tournament/tournament.py:91-93 | a player's join rows carry its id and name, and either a counter row with its id or NULLs when it has none |
| Query.LeftJoinRowsComeFromTables | FSND-Virtual-Machine/vagrant/tournament/tournament.py:91-93 | for any tables, every join row comes from a player row, its counters come from a row of `matches` or are NULL only for ids without one, and there are at least as many rows as players |
| Query.DuplicateCounterRowsDuplicatePlayer | FSND-Virtual-Machine/vagrant/tournament/tournament.py:91-93 | an example: one player with two counter rows for its id gets two join rows |
| Query.InsertByWins | FSND-Virtual-Machine/vagrant/tournament/tournament.py:94 | inserting a row into a list adds exactly that row |
| Query.InsertByWinsOrdered | FSND-Virtual-Machine/vagrant/tournament/tournament.py:94 | inserting a row into a list in `ORDER BY wins` order keeps it in that order |
| Query.SortByWins | FSND-Virtual-Machine/vagrant/tournament/tournament.py:91-94 | the result is a permutation of the input, ascending by wins with NULLs last |
| Query.QueryResultExists | FSND-Virtual-Machine/vagrant/tournament/tournament.py:91-94 | for every pair of tables, the query has an answer |
| Query.QueryResultIsJoined | FSND-Virtual-Machine/vagrant/tournament/tournament.py:91-98 | with unique counter ids, any answer to the query has one row per player, each from a player row with that player's stored counters or NULLs |
| Query.QueryResultDistinctIds | FSND-Virtual-Machine/vagrant/tournament/tournament.py:175-183 | with unique ids in both tables, no player id appears twice in an answer |
| Standings.StandingOf | FSND-Virtual-Machine/vagrant/tournament/tournament.py:101-104 | a row becomes a tuple with its id and name, and either its wins and matches or zeros when they are NULL |
| Standings.StandingsOf | FSND-Virtual-Machine/vagrant/tournament/tournament.py:97-104 | one tuple per fetched row, in the rows' order, with the tuple of row i at position i |
| Standings.StandingsOfPermutation | FSND-Virtual-Machine/vagrant/tournament/tournament.py:97-104 | converting row by row carries a reordering of the rows over to the tuples |
| Standings.StandingsAreExpected | FSND-Virtual-Machine/vagrant/tournament/tournament.py:74-104 | with at most one counter row per id, the tuples are a reordering of one tuple per registered player, holding the stored wins and matches, or zeros without a counter row |
| Standings.StandingsOrder | FSND-Virtual-Machine/vagrant/tournament/tournament.py:91-104 | with at most one counter row per id, players with a counter row come first, by non-decreasing wins, and every player without one comes after them |
| Pairings.AsWrittenPairs | FSND-Virtual-Machine/vagrant/tournament/tournament.py:184-185 | the loop yields (n + 1) / 2 tuples, and every one of them is the whole tuple (id, name, id, name) of rows 0 and 1 |
| Pairings.AdjacentPairsAt | FSND-Virtual-Machine/vagrant/tournament/tournament.py:158-161 | for an even count, the intended pairing has n/2 tuples, and tuple k pairs rows 2k and 2k+1, which are neighbours in the standings |
| Pairings.AdjacentPairsEachOnce | FSND-Virtual-Machine/vagrant/tournament/tournament.py:158-161 | with an even count and distinct ids, the intended pairing has every player exactly once and nobody else |
| Pairings.AsWrittenEachOnceOnlyUpToTwo | FSND-Virtual-Machine/vagrant/tournament/tournament.py:184-185 | with an even count and distinct ids, the list as written has every player exactly once if and only if there are at most two players |
| Pairings.AsWrittenSecondPairDiffers | FSND-Virtual-Machine/vagrant/tournament/tournament.py:184-185 | with an even count of at least four and distinct ids, the second tuple as written is rows 0 and 1 again, whereas the intended second tuple is rows 2 and 3; so the two lists differ |
| Pairings.AsWrittenIsAdjacentOnlyUpToTwo | FSND-Virtual-Machine/vagrant/tournament/tournament.py:184-185 | with an even count and distinct ids, the list as written equals the intended pairing if and only if there are at most two players |
| Scoring.AsWrittenReport | FSND-Virtual-Machine/vagrant/tournament/tournament.py:122-149 | one reportMatch adds the winner and the loser to the ids with counters. Existing counters keep their values, a new winner gets (1, 1) and a new loser (1, 0) |
| Scoring.WonAtMostPlayed | FSND-Virtual-Machine/vagrant/tournament/tournament.py:110-116 | over any log of outcomes, no player wins more matches than they play |
| Scoring.IntendedTallyCountsLog | FSND-Virtual-Machine/vagrant/tournament/tournament.py:110-149 | starting from empty tables and with read-add-write updates, an id has a row exactly when it played, and the row holds the matches it played and won over the whole log |
| Scoring.AsWrittenTallyStopsAtOne | FSND-Virtual-Machine/vagrant/tournament/tournament.py:122-149 | starting from empty tables, as written, an id has a row exactly when it played, but the row holds one match and at most one win however long the log |
| Scoring.RepeatedMatchIsNotCounted | FSND-Virtual-Machine/vagrant/tournament/tournament.py:127-134 | an example: on empty tables, `reportMatch(1, 2)` twice leaves player 1 at (1, 1) as written, against (2, 2) as intended |
| Tournament.PairingCoverage | FSND-Virtual-Machine/vagrant/tournament/tournament.py:175-185 | with unique ids and an even number of players, the list built from any answer to the query has every player exactly once only when there are at most two |
| Tournament.Database.DeleteMatches | FSND-Virtual-Machine/vagrant/tournament/tournament.py:15-23 | `matches` becomes empty, and the players stay |
| Tournament.Database.DeletePlayers | FSND-Virtual-Machine/vagrant/tournament/tournament.py:26-35 | `tournament` becomes empty, and the counter rows stay |
| Tournament.Database.CountPlayers | FSND-Virtual-Machine/vagrant/tournament/tournament.py:38-50 | the result is the number of player rows, which is also the number of registered ids |
| Tournament.Database.RegisterPlayer | FSND-Virtual-Machine/vagrant/tournament/tournament.py:53-71 | one row with a fresh id and the name is appended to `tournament`; `matches` is unchanged and ids stay unique |
| Tournament.Database.PlayerStandings | FSND-Virtual-Machine/vagrant/tournament/tournament.py:74-107 | the tuples are the fetched rows converted in order, with NULL counters as zeros. They are a reordering of one tuple per player holding its stored counters, and players with counters come first by non-decreasing wins |
| Tournament.Database.ReportMatch | FSND-Virtual-Machine/vagrant/tournament/tournament.py:110-152 | the players are unchanged. The ids with counters become the old ones plus winner and loser, and existing counters do not change. A new winner gets (1, 1) and a new loser (1, 0). Ids stay unique |
| Tournament.Database.UpdateOrInsert | FSND-Virtual-Machine/vagrant/tournament/tournament.py:120-134 | one SELECT-then-UPDATE-or-INSERT leaves existing counters as they were, and otherwise adds the first counters for the id |
| Tournament.Database.SwissPairings | FSND-Virtual-Machine/vagrant/tournament/tournament.py:155-188 | fails (IndexError) exactly when there is one row, and otherwise returns the list as written. With an even player count, that list has each player once if and only if there are at most two |

## Left out

- The connection, the cursor, `commit` and `close`, and psycopg2 are not modelled. Each function is one method on the object that holds both tables.
- `bleach.clean` and the `str(...)` conversions of names are not modelled. A name is stored and returned as given.
- The serial id that PostgreSQL assigns in `registerPlayer` is not generated. It is the parameter `id` of `RegisterPlayer`, which must not already belong to a player.
- The order the database picks among tied rows is not modelled. `PlayerStandings` and `SwissPairings` take the fetched rows as a parameter, constrained to be an answer the query allows.
- Concurrency, transactions and failed commits are not modelled.
- `tournament.sql` is not part of this model. The model assumes:
  - no foreign key from `matches.id` to `tournament.id`, so `deletePlayers` leaves counter rows behind;
  - non-NULL counter columns.
- Tournament.Database.SwissPairings: its query selects only `id` and `playername`. The method is given full join rows and reads only those two fields.
- Tournament.Database.ReportMatch: it says nothing about an id that has several counter rows, because every method keeps `Valid()`, which rules that out.

## Findings

| source | as written | input that shows it | evidently intended | confidence | as-written member | corrected member |
|---|---|---|---|---|---|---|
| FSND-Virtual-Machine/vagrant/tournament/tournament.py:128-130 | an existing counter row is overwritten with the values just read, so it never changes | `reportMatch(1, 2)` twice on empty tables leaves player 1 at matches 1, wins 1 | add one to both players' matches and to the winner's wins | not executed | Scoring.AsWrittenTallyStopsAtOne | Scoring.IntendedTallyCountsLog |
| FSND-Virtual-Machine/vagrant/tournament/tournament.py:185 | every tuple pairs rows 0 and 1, whatever the loop index | four players: the result is two copies of the pair of rows 0 and 1, and rows 2 and 3 are never paired | pair rows `i` and `i + 1` | not executed | Pairings.AsWrittenEachOnceOnlyUpToTwo | Pairings.AdjacentPairsEachOnce |

Both as-written behaviours are also shown on concrete inputs:

- `Scoring.RepeatedMatchIsNotCounted` for `reportMatch`.
- `Pairings.AsWrittenSecondPairDiffers` for `swissPairings`.

`Tournament.Database` models the code as written, so its `ReportMatch` and
`SwissPairings` reproduce both defects. The corrected definitions stand beside
them, with the intended properties proved about them:

- `Scoring.IntendedReport` and `Scoring.IntendedTally`
- `Pairings.AdjacentPairs`
