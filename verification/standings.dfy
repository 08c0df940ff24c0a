/**
 * The tuples `playerStandings` returns, (id, name, wins, matches), and the
 * conversion it applies to each query row: NULL counters become zeros.
 */
module Standings {
  import opened Tables
  import opened Query

  datatype Standing = Standing(id: int, name: string, wins: int, matches: int)

  /** The tuple one query row becomes: its counters, or (0, 0) where they are NULL. */
  function StandingOf(row: JoinedRow): (s: Standing)
    ensures s.id == row.id && s.name == row.name
    ensures row.counter.Some? ==> s.wins == row.counter.value.wins && s.matches == row.counter.value.matches
    ensures row.counter.None? ==> s.wins == 0 && s.matches == 0
  {
    match row.counter
    case Some(c) => Standing(row.id, row.name, c.wins, c.matches)
    case None => Standing(row.id, row.name, 0, 0)
  }

  /** The tuples of the rows, in the rows' order. */
  function StandingsOf(rows: seq<JoinedRow>): (r: seq<Standing>)
    ensures |r| == |rows|
    ensures forall i :: 0 <= i < |rows| ==> r[i] == StandingOf(rows[i])
  {
    if rows == [] then [] else [StandingOf(rows[0])] + StandingsOf(rows[1..])
  }

  /**
   * The standing each registered player is owed, in table order: the values of
   * the player's counter row, or zero wins and zero matches without one.
   */
  function ExpectedStandings(ps: seq<PlayerRow>, ms: seq<MatchRow>): seq<Standing>
  {
    var counters := CounterMap(ms);
    seq(|ps|, i requires 0 <= i < |ps| =>
      if ps[i].id in counters
      then Standing(ps[i].id, ps[i].name, counters[ps[i].id].wins, counters[ps[i].id].matches)
      else Standing(ps[i].id, ps[i].name, 0, 0))
  }

  lemma SplitAt<T>(t: seq<T>, k: int)
    requires 0 <= k < |t|
    ensures t == (t[..k] + [t[k]]) + t[k + 1..]
  {
  }

  /** Removing the element at position k removes one occurrence of it. */
  lemma RemoveAt<T>(t: seq<T>, k: int)
    requires 0 <= k < |t|
    ensures multiset(t[..k] + t[k + 1..]) == multiset(t) - multiset{t[k]}
  {
    assert t == t[..k] + [t[k]] + t[k + 1..];
  }

  /** Converting row by row commutes with concatenation. */
  lemma StandingsOfConcat(a: seq<JoinedRow>, b: seq<JoinedRow>)
    ensures StandingsOf(a + b) == StandingsOf(a) + StandingsOf(b)
  {
    forall i | |a| <= i < |a + b| ensures (a + b)[i] == b[i - |a|] { }
  }

  /** Removing the row at position k removes one occurrence of its tuple. */
  lemma StandingsOfRemoveAt(t: seq<JoinedRow>, k: int)
    requires 0 <= k < |t|
    ensures multiset(StandingsOf(t)) == multiset(StandingsOf(t[..k] + t[k + 1..])) + multiset{StandingOf(t[k])}
  {
    var a, b := t[..k], t[k + 1..];
    SplitAt(t, k);
    StandingsOfConcat(a + [t[k]], b);
    StandingsOfConcat(a, [t[k]]);
    StandingsOfConcat(a, b);
    var sa, sb, sk := StandingsOf(a), StandingsOf(b), StandingOf(t[k]);
    assert StandingsOf([t[k]]) == [sk];
    assert StandingsOf(t) == (sa + [sk]) + sb;
    assert multiset((sa + [sk]) + sb) == multiset(sa) + multiset{sk} + multiset(sb);
  }

  /** Two reorderings of each other, less a common first element, are still reorderings of each other. */
  lemma PermutationTail<T>(s: seq<T>, t: seq<T>, k: int)
    requires multiset(s) == multiset(t)
    requires s != [] && 0 <= k < |t| && t[k] == s[0]
    ensures multiset(s[1..]) == multiset(t[..k] + t[k + 1..])
  {
    assert s == [s[0]] + s[1..];
    assert multiset(s) == multiset{s[0]} + multiset(s[1..]);
    RemoveAt(t, k);
  }

  /** Converting row by row carries a reordering of the rows over to the tuples. */
  lemma {:induction false} StandingsOfPermutation(s: seq<JoinedRow>, t: seq<JoinedRow>)
    requires multiset(s) == multiset(t)
    ensures multiset(StandingsOf(s)) == multiset(StandingsOf(t))
    decreases |s|
  {
    if s == [] {
      assert |t| == |multiset(t)| == 0;
    } else {
      assert s[0] in multiset(t);
      var k :| 0 <= k < |t| && t[k] == s[0];
      PermutationTail(s, t, k);
      StandingsOfPermutation(s[1..], t[..k] + t[k + 1..]);
      StandingsOfRemoveAt(t, k);
    }
  }

  /**
   * For well-formed tables, the tuples made from any answer to the query are
   * a reordering of ExpectedStandings: exactly one tuple per registered
   * player, carrying the stored counters or zeros.
   */
  lemma StandingsAreExpected(rows: seq<JoinedRow>, ps: seq<PlayerRow>, ms: seq<MatchRow>)
    requires UniqueMatchIds(ms)
    requires IsQueryResult(rows, ps, ms)
    ensures multiset(StandingsOf(rows)) == multiset(ExpectedStandings(ps, ms))
  {
    QueryResultIsJoined(rows, ps, ms);
    StandingsOfPermutation(rows, Joined(ps, ms));
    assert StandingsOf(Joined(ps, ms)) == ExpectedStandings(ps, ms);
  }

  /**
   * For well-formed tables, the tuples made from any answer to the query list
   * first the players that have a counter row, by non-decreasing wins, and
   * then every player without one.
   */
  lemma StandingsOrder(rows: seq<JoinedRow>, ps: seq<PlayerRow>, ms: seq<MatchRow>)
    requires UniqueMatchIds(ms)
    requires IsQueryResult(rows, ps, ms)
    ensures forall i, j :: 0 <= i < j < |rows| && StandingsOf(rows)[j].id in CounterMap(ms) ==>
              StandingsOf(rows)[i].id in CounterMap(ms) && StandingsOf(rows)[i].wins <= StandingsOf(rows)[j].wins
  {
    QueryResultIsJoined(rows, ps, ms);
    forall i, j | 0 <= i < j < |rows| && StandingsOf(rows)[j].id in CounterMap(ms)
      ensures StandingsOf(rows)[i].id in CounterMap(ms) && StandingsOf(rows)[i].wins <= StandingsOf(rows)[j].wins
    {
      assert rows[i] in rows && rows[j] in rows;
      assert InOrder(rows[i], rows[j]);
    }
  }
}
