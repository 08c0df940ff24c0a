/**
 * The tournament database and the functions of tournament.py that read and
 * change it. Each call there opens a connection, runs its statements and
 * commits; here the two tables are fields of one object and each function is
 * a method on it.
 */
module Tournament {
  import opened Tables
  import opened Query
  import opened Standings
  import opened Pairings
  import Scoring

  /** The exception Python raises when `stats[1]` does not exist. */
  datatype Error = IndexError

  datatype Result<T> = Success(value: T) | Failure(error: Error)

  /**
   * With an even number of registered players, the list swissPairings builds
   * from any answer to its query has every player exactly once only when
   * there are at most two of them.
   */
  lemma PairingCoverage(stats: seq<JoinedRow>, ps: seq<PlayerRow>, ms: seq<MatchRow>)
    requires UniquePlayerIds(ps) && UniqueMatchIds(ms)
    requires IsQueryResult(stats, ps, ms)
    requires |ps| % 2 == 0
    ensures |stats| == |ps|
    ensures EachOnce(AsWrittenPairs(stats), stats) <==> |ps| <= 2
  {
    QueryResultIsJoined(stats, ps, ms);
    QueryResultDistinctIds(stats, ps, ms);
    AsWrittenEachOnceOnlyUpToTwo(stats);
  }

  class Database {
    /** Table `tournament`, in scan order. */
    var players: seq<PlayerRow>
    /** Table `matches`, in scan order. */
    var matches: seq<MatchRow>

    /** Player ids are a serial key, and the code never gives an id a second counter row. */
    predicate Valid()
      reads this
    {
      UniquePlayerIds(players) && UniqueMatchIds(matches)
    }

    /** The `matches` table as counters by player id. */
    function Counters(): map<int, Counter>
      reads this
    {
      CounterMap(matches)
    }

    /** A freshly created database: both tables empty. */
    constructor ()
      ensures Valid()
      ensures players == [] && matches == []
    {
      players := [];
      matches := [];
    }

    /** deleteMatches: `DELETE FROM matches`. */
    method DeleteMatches()
      requires Valid()
      modifies this
      ensures Valid()
      ensures matches == [] && players == old(players)
    {
      matches := [];
    }

    /** deletePlayers: `DELETE FROM tournament`; counter rows stay behind. */
    method DeletePlayers()
      requires Valid()
      modifies this
      ensures Valid()
      ensures players == [] && matches == old(matches)
    {
      players := [];
    }

    /** countPlayers: `SELECT COUNT(*) FROM tournament`, which is also the number of registered ids. */
    method CountPlayers() returns (count: nat)
      requires Valid()
      ensures count == |players|
      ensures count == |PlayerIds(players)|
    {
      count := |players|;
      UniquePlayerIdsCount(players);
    }

    /**
     * registerPlayer: one INSERT into `tournament`. The database picks the
     * serial id; here it is the parameter `id`, any id no player has.
     */
    method RegisterPlayer(name: string, id: int)
      requires Valid()
      requires id !in PlayerIds(players)
      modifies this
      ensures Valid()
      ensures players == old(players) + [PlayerRow(id, name)]
      ensures matches == old(matches)
    {
      forall i | 0 <= i < |players|
        ensures players[i].id != id
      {
        assert players[i] in players;
      }
      players := players + [PlayerRow(id, name)];
    }

    /**
     * playerStandings. `fetched` is what `c.fetchall()` returns for the
     * ordered left join: any answer the database may give. Each row becomes
     * a tuple, NULL counters becoming zeros, so the tuples are one per player
     * with the stored counters, players with a row first by ascending wins,
     * then the players without one.
     */
    method PlayerStandings(fetched: seq<JoinedRow>) returns (standings: seq<Standing>)
      requires Valid()
      requires IsQueryResult(fetched, players, matches)
      ensures standings == StandingsOf(fetched)
      ensures multiset(standings) == multiset(ExpectedStandings(players, matches))
      ensures forall i, j :: 0 <= i < j < |standings| && standings[j].id in Counters() ==>
                standings[i].id in Counters() && standings[i].wins <= standings[j].wins
    {
      standings := [];
      for k := 0 to |fetched|
        invariant standings == StandingsOf(fetched[..k])
      {
        var row := fetched[k];
        var standing;
        if row.counter.Some? {
          standing := Standing(row.id, row.name, row.counter.value.wins, row.counter.value.matches);
        } else {
          standing := Standing(row.id, row.name, 0, 0);
        }
        assert fetched[..k + 1] == fetched[..k] + [fetched[k]];
        StandingsOfConcat(fetched[..k], [fetched[k]]);
        assert StandingsOf([fetched[k]]) == [standing];
        standings := standings + [standing];
      }
      assert fetched[..|fetched|] == fetched;
      StandingsAreExpected(fetched, players, matches);
      StandingsOrder(fetched, players, matches);
    }

    /**
     * reportMatch: for the winner and then the loser, SELECT the counter row;
     * if there is one, UPDATE it with the values just read, else INSERT
     * (1, 1) for the winner or (1, 0) for the loser. So existing counters
     * never change, new ids get their first counters, nothing else changes,
     * and no id gets a second row.
     */
    method ReportMatch(winner: int, loser: int)
      requires Valid()
      modifies this
      ensures Valid()
      ensures players == old(players)
      ensures Counters().Keys == old(Counters()).Keys + {winner, loser}
      ensures forall id :: id in old(Counters()) ==> Counters()[id] == old(Counters())[id]
      ensures winner !in old(Counters()) ==> Counters()[winner] == Counter(1, 1)
      ensures loser !in old(Counters()) && loser != winner ==> Counters()[loser] == Counter(1, 0)
      ensures Counters() == Scoring.AsWrittenReport(old(Counters()), winner, loser)
    {
      UpdateOrInsert(winner, Counter(1, 1));
      UpdateOrInsert(loser, Counter(1, 0));
    }

    /**
     * The statements reportMatch runs for one player: SELECT its counter row;
     * if there is one, UPDATE it with the values just read, which leaves it
     * as it was; else INSERT a row holding `first`.
     */
    method UpdateOrInsert(id: int, first: Counter)
      requires Valid()
      modifies this
      ensures Valid()
      ensures players == old(players)
      ensures Counters() == if id in old(Counters()) then old(Counters()) else old(Counters())[id := first]
    {
      var info := Select(matches, id);
      SelectSeesCounters(matches, id);
      if info != [] {
        RewriteIsNoOp(matches, id);
        matches := Update(matches, id, Counter(info[0].matches, info[0].wins));
      } else {
        var row := MatchRow(id, first.matches, first.wins);
        InsertNewId(matches, row);
        InsertKeepsUnique(matches, row);
        matches := Insert(matches, row);
      }
    }

    /**
     * swissPairings. `stats` is what `c.fetchall()` returns for the ordered
     * left join (the source selects only id and name from it). Every step of
     * range(0, n, 2) appends rows 0 and 1; with one row, `stats[1]` raises.
     * With an even number of players, every player appears exactly once only
     * when there are at most two.
     */
    method SwissPairings(stats: seq<JoinedRow>) returns (r: Result<seq<Pairing>>)
      requires Valid()
      requires IsQueryResult(stats, players, matches)
      ensures r.Failure? <==> |stats| == 1
      ensures r.Success? ==> r.value == AsWrittenPairs(stats)
      ensures r.Success? && |players| % 2 == 0 ==> (EachOnce(r.value, stats) <==> |players| <= 2)
    {
      var pairings := [];
      var i := 0;
      while i < |stats|
        invariant 0 <= i <= |stats| + 1 && i % 2 == 0
        invariant i == 0 ==> pairings == []
        invariant i > 0 ==> |stats| >= 2 && pairings == seq(i / 2, _ => PairOf(stats[0], stats[1]))
      {
        if |stats| < 2 {
          return Failure(IndexError);
        }
        pairings := pairings + [Pairing(stats[0].id, stats[0].name, stats[1].id, stats[1].name)];
        i := i + 2;
      }
      r := Success(pairings);
      if |players| % 2 == 0 {
        PairingCoverage(stats, players, matches);
      }
    }
  }
}
