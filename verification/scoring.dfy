/**
 * What `reportMatch` does to the counters, seen as a map from player id to
 * (matches, wins): as written (an existing row is written back unchanged) and
 * as evidently intended (read, add one, write back). Replaying a log of match
 * outcomes through each shows the difference: the intended update keeps
 * every counter equal to a count over the log, the written one stops at the
 * first match.
 */
module Scoring {
  import opened Tables

  /** One call reportMatch(winner, loser). */
  datatype Outcome = Outcome(winner: int, loser: int)

  /**
   * One reportMatch AS WRITTEN: a player with a row keeps it as it was
   * (tournament.py:127-130, 142-145); a player without one gets (1, 1) as
   * winner or (1, 0) as loser (tournament.py:132-134, 147-149). The loser is
   * looked up after the winner's statement has run.
   */
  function AsWrittenReport(c: map<int, Counter>, winner: int, loser: int): (r: map<int, Counter>)
    ensures r.Keys == c.Keys + {winner, loser}
    ensures forall id :: id in c ==> r[id] == c[id]
    ensures winner !in c ==> r[winner] == Counter(1, 1)
    ensures loser !in c && loser != winner ==> r[loser] == Counter(1, 0)
  {
    var afterWinner := if winner in c then c else c[winner := Counter(1, 1)];
    if loser in afterWinner then afterWinner else afterWinner[loser := Counter(1, 0)]
  }

  /** One reportMatch AS INTENDED: both players' match counts and the winner's win count go up by one. */
  function IntendedReport(c: map<int, Counter>, winner: int, loser: int): map<int, Counter>
  {
    var afterWinner := c[winner := if winner in c then Counter(c[winner].matches + 1, c[winner].wins + 1)
                                   else Counter(1, 1)];
    afterWinner[loser := if loser in afterWinner then Counter(afterWinner[loser].matches + 1, afterWinner[loser].wins)
                         else Counter(1, 0)]
  }

  /** The counters after reporting `log` in order, from empty tables, as written. */
  function AsWrittenTally(log: seq<Outcome>): map<int, Counter>
  {
    if log == [] then map[]
    else AsWrittenReport(AsWrittenTally(log[..|log| - 1]), log[|log| - 1].winner, log[|log| - 1].loser)
  }

  /** The counters after reporting `log` in order, from empty tables, as intended. */
  function IntendedTally(log: seq<Outcome>): map<int, Counter>
  {
    if log == [] then map[]
    else IntendedReport(IntendedTally(log[..|log| - 1]), log[|log| - 1].winner, log[|log| - 1].loser)
  }

  /** How many outcomes of the log `id` took part in (twice for a self-match). */
  function Played(log: seq<Outcome>, id: int): nat
  {
    if log == [] then 0
    else Played(log[..|log| - 1], id)
         + (if log[|log| - 1].winner == id then 1 else 0) + (if log[|log| - 1].loser == id then 1 else 0)
  }

  /** How many outcomes of the log `id` won. */
  function Won(log: seq<Outcome>, id: int): nat
  {
    if log == [] then 0
    else Won(log[..|log| - 1], id) + (if log[|log| - 1].winner == id then 1 else 0)
  }

  /** Nobody wins more matches than they play. */
  lemma {:induction false} WonAtMostPlayed(log: seq<Outcome>, id: int)
    ensures Won(log, id) <= Played(log, id)
  {
    if log != [] {
      WonAtMostPlayed(log[..|log| - 1], id);
    }
  }

  /**
   * Read-modify-write with increments agrees with deriving the counters from
   * the whole log: an id has a row exactly when it played, and the row holds
   * the number of matches it played and won.
   */
  lemma {:induction false} IntendedTallyCountsLog(log: seq<Outcome>)
    ensures forall id :: id in IntendedTally(log) <==> Played(log, id) > 0
    ensures forall id :: id in IntendedTally(log) ==> IntendedTally(log)[id] == Counter(Played(log, id), Won(log, id))
  {
    if log != [] {
      var prev, last := log[..|log| - 1], log[|log| - 1];
      IntendedTallyCountsLog(prev);
      WonAtMostPlayed(prev, last.winner);
      WonAtMostPlayed(prev, last.loser);
      var before := IntendedTally(prev);
      var afterWinner := before[last.winner := if last.winner in before
                                                then Counter(before[last.winner].matches + 1, before[last.winner].wins + 1)
                                                else Counter(1, 1)];
      assert afterWinner[last.winner] == Counter(Played(prev, last.winner) + 1, Won(prev, last.winner) + 1);
      forall id | id in IntendedTally(log)
        ensures IntendedTally(log)[id] == Counter(Played(log, id), Won(log, id))
      {
        if id != last.winner && id != last.loser {
          assert IntendedTally(log)[id] == before[id];
        }
      }
    }
  }

  /**
   * As written, an id has a row exactly when it played, but the row never
   * counts more than one match and one win, however long the log.
   */
  lemma {:induction false} AsWrittenTallyStopsAtOne(log: seq<Outcome>)
    ensures forall id :: id in AsWrittenTally(log) <==> Played(log, id) > 0
    ensures forall id :: id in AsWrittenTally(log) ==>
              AsWrittenTally(log)[id].matches == 1 && 0 <= AsWrittenTally(log)[id].wins <= 1
  {
    if log != [] {
      AsWrittenTallyStopsAtOne(log[..|log| - 1]);
    }
  }

  /** Reporting the same match twice: as written player 1 shows one match and one win, not two of each. */
  lemma RepeatedMatchIsNotCounted()
    ensures AsWrittenTally([Outcome(1, 2), Outcome(1, 2)])[1] == Counter(1, 1)
    ensures IntendedTally([Outcome(1, 2), Outcome(1, 2)])[1] == Counter(2, 2)
  {
    var log := [Outcome(1, 2), Outcome(1, 2)];
    assert log[..1] == [Outcome(1, 2)];
    assert log[..1][..0] == [];
    AsWrittenTallyStopsAtOne(log);
    IntendedTallyCountsLog(log);
  }
}
