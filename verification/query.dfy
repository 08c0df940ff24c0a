/**
 * The query that `playerStandings` and `swissPairings` both send:
 *
 *   SELECT .. FROM tournament LEFT JOIN matches ON tournament.id = matches.id
 *   ORDER BY wins
 *
 * The join is a function of the two tables. The database returns its rows in
 * some order that meets ORDER BY; which of the equally ranked orders it picks
 * is not determined, so a result is specified by a predicate (IsQueryResult)
 * rather than computed.
 */
module Query {
  import opened Tables

  /** One row of the left join; `counter` is None where `wins` and `matches` are NULL. */
  datatype JoinedRow = JoinedRow(id: int, name: string, counter: Option<Counter>)

  /** The join rows of one player: one per counter row with its id, or one row of NULLs. */
  function JoinOne(p: PlayerRow, ms: seq<MatchRow>): (r: seq<JoinedRow>)
    ensures |r| >= 1
    ensures forall x :: x in r ==> x.id == p.id && x.name == p.name
    ensures forall x :: x in r ==> (x.counter.None? <==> Select(ms, p.id) == [])
  {
    var hits := Select(ms, p.id);
    if hits == [] then [JoinedRow(p.id, p.name, None)]
    else seq(|hits|, k requires 0 <= k < |hits| => JoinedRow(p.id, p.name, Some(CounterOf(hits[k]))))
  }

  /** `tournament LEFT JOIN matches ON tournament.id = matches.id`, before ordering. */
  function LeftJoin(ps: seq<PlayerRow>, ms: seq<MatchRow>): (r: seq<JoinedRow>)
    ensures |r| >= |ps|
    ensures forall x :: x in r ==> PlayerRow(x.id, x.name) in ps
  {
    if ps == [] then [] else JoinOne(ps[0], ms) + LeftJoin(ps[1..], ms)
  }

  /** One row per player, carrying that player's counters or NULLs. */
  function Joined(ps: seq<PlayerRow>, ms: seq<MatchRow>): seq<JoinedRow>
  {
    seq(|ps|, i requires 0 <= i < |ps| => JoinedRow(ps[i].id, ps[i].name, Lookup(ms, ps[i].id)))
  }

  /**
   * `ORDER BY wins` with no direction is ascending, and PostgreSQL sorts NULL
   * after every value in ascending order: `a` may come before `b`.
   */
  predicate InOrder(a: JoinedRow, b: JoinedRow)
    ensures InOrder(a, b) <==> b.counter.None? || (a.counter.Some? && a.counter.value.wins <= b.counter.value.wins)
  {
    match a.counter
    case None => b.counter.None?
    case Some(x) => b.counter.None? || x.wins <= b.counter.value.wins
  }

  /** Any two rows can be ordered one way or the other. */
  lemma InOrderTotal(a: JoinedRow, b: JoinedRow)
    ensures InOrder(a, b) || InOrder(b, a)
  {
  }

  predicate OrderedByWins(rows: seq<JoinedRow>)
  {
    forall i, j :: 0 <= i < j < |rows| ==> InOrder(rows[i], rows[j])
  }

  /** `rows` is an answer the database may give: the join's rows, in an order ORDER BY allows. */
  predicate IsQueryResult(rows: seq<JoinedRow>, ps: seq<PlayerRow>, ms: seq<MatchRow>)
  {
    multiset(rows) == multiset(LeftJoin(ps, ms)) && OrderedByWins(rows)
  }

  /** An answer has as many rows as the join, and the same rows. */
  lemma QueryResultShape(rows: seq<JoinedRow>, ps: seq<PlayerRow>, ms: seq<MatchRow>)
    requires IsQueryResult(rows, ps, ms)
    ensures |rows| == |LeftJoin(ps, ms)|
    ensures forall x :: x in rows <==> x in LeftJoin(ps, ms)
  {
    var join := LeftJoin(ps, ms);
    assert |rows| == |multiset(rows)| && |join| == |multiset(join)|;
    assert forall x :: (x in rows <==> x in multiset(rows)) && (x in join <==> x in multiset(join));
  }

  predicate DistinctIds(rows: seq<JoinedRow>)
  {
    forall i, j :: 0 <= i < j < |rows| ==> rows[i].id != rows[j].id
  }

  // ---------------------------------------------------------------------------
  // The join

  /** With at most one counter row per id, a player has exactly one join row. */
  lemma JoinOneUnique(p: PlayerRow, ms: seq<MatchRow>)
    requires UniqueMatchIds(ms)
    ensures JoinOne(p, ms) == [JoinedRow(p.id, p.name, Lookup(ms, p.id))]
  {
    SelectAtMostOne(ms, p.id);
    SelectSeesCounters(ms, p.id);
  }

  /**
   * With at most one counter row per id, the left join holds exactly one row
   * per player row, in table order, with that player's stored counters or NULLs.
   */
  lemma {:induction false} LeftJoinOneRowPerPlayer(ps: seq<PlayerRow>, ms: seq<MatchRow>)
    requires UniqueMatchIds(ms)
    ensures LeftJoin(ps, ms) == Joined(ps, ms)
  {
    if ps != [] {
      JoinOneUnique(ps[0], ms);
      LeftJoinOneRowPerPlayer(ps[1..], ms);
      JoinedCons(ps, ms);
    }
  }

  lemma JoinedCons(ps: seq<PlayerRow>, ms: seq<MatchRow>)
    requires ps != []
    ensures Joined(ps, ms) == [JoinedRow(ps[0].id, ps[0].name, Lookup(ms, ps[0].id))] + Joined(ps[1..], ms)
  {
    var rest := Joined(ps[1..], ms);
    forall i | 1 <= i < |ps| ensures Joined(ps, ms)[i] == rest[i - 1] {
      assert ps[1..][i - 1] == ps[i];
    }
  }

  /** The join rows of one player carry its id and name, and its counter rows or NULLs. */
  lemma JoinOneRowsComeFromTables(p: PlayerRow, ms: seq<MatchRow>)
    ensures forall r :: r in JoinOne(p, ms) ==> r.id == p.id && r.name == p.name
    ensures forall r :: r in JoinOne(p, ms) && r.counter.None? ==> p.id !in CounterMap(ms)
    ensures forall r :: r in JoinOne(p, ms) && r.counter.Some? ==>
              MatchRow(r.id, r.counter.value.matches, r.counter.value.wins) in ms
  {
    SelectSeesCounters(ms, p.id);
    var hits := Select(ms, p.id);
    if hits != [] {
      forall r | r in JoinOne(p, ms)
        ensures r.counter.Some? && MatchRow(r.id, r.counter.value.matches, r.counter.value.wins) in ms
      {
        var k :| 0 <= k < |hits| && JoinOne(p, ms)[k] == r;
        assert hits[k] in hits;
      }
    }
  }

  /**
   * Whatever the tables hold, every join row is built from a player row and
   * either a counter row with the same id or NULLs where that id has no
   * counter row: counter rows of unregistered ids never appear.
   */
  lemma {:induction false} LeftJoinRowsComeFromTables(ps: seq<PlayerRow>, ms: seq<MatchRow>)
    ensures forall r :: r in LeftJoin(ps, ms) ==> PlayerRow(r.id, r.name) in ps
    ensures forall r :: r in LeftJoin(ps, ms) && r.counter.None? ==> r.id !in CounterMap(ms)
    ensures forall r :: r in LeftJoin(ps, ms) && r.counter.Some? ==>
              MatchRow(r.id, r.counter.value.matches, r.counter.value.wins) in ms
    ensures |LeftJoin(ps, ms)| >= |ps|
  {
    if ps != [] {
      LeftJoinRowsComeFromTables(ps[1..], ms);
      JoinOneRowsComeFromTables(ps[0], ms);
      assert ps[0] in ps;
      assert forall p :: p in ps[1..] ==> p in ps;
      assert |JoinOne(ps[0], ms)| >= 1;
    }
  }

  /** Every player row contributes to the join, at least its first JoinOne row. */
  lemma {:induction false} LeftJoinCoversPlayers(ps: seq<PlayerRow>, ms: seq<MatchRow>)
    ensures forall p :: p in ps ==> JoinOne(p, ms)[0] in LeftJoin(ps, ms)
  {
    if ps != [] {
      LeftJoinCoversPlayers(ps[1..], ms);
      forall p | p in ps ensures JoinOne(p, ms)[0] in LeftJoin(ps, ms) {
        if p != ps[0] {
          assert p in ps[1..];
        }
      }
    }
  }

  /** Duplicate counter rows for one id give that player several join rows. */
  lemma DuplicateCounterRowsDuplicatePlayer()
    ensures |LeftJoin([PlayerRow(1, "A")], [MatchRow(1, 1, 1), MatchRow(1, 1, 0)])| == 2
  {
    var ms := [MatchRow(1, 1, 1), MatchRow(1, 1, 0)];
    assert Select(ms, 1) == [MatchRow(1, 1, 1)] + Select(ms[1..], 1);
    assert Select(ms[1..], 1) == [MatchRow(1, 1, 0)] + Select(ms[2..], 1);
  }

  // ---------------------------------------------------------------------------
  // The database can always answer: a sorted permutation of the join exists

  function InsertByWins(x: JoinedRow, rows: seq<JoinedRow>): (r: seq<JoinedRow>)
    ensures multiset(r) == multiset(rows) + multiset{x}
  {
    if rows == [] then [x]
    else if InOrder(x, rows[0]) then [x] + rows
    else
      assert rows == [rows[0]] + rows[1..];
      [rows[0]] + InsertByWins(x, rows[1..])
  }

  /** Rows that may precede the first row of an ordered list may precede all of it. */
  lemma BeforeOrdered(x: JoinedRow, rows: seq<JoinedRow>)
    requires OrderedByWins(rows) && rows != [] && InOrder(x, rows[0])
    ensures forall k :: 0 <= k < |rows| ==> InOrder(x, rows[k])
  {
    forall k | 0 < k < |rows| ensures InOrder(x, rows[k]) {
      assert InOrder(rows[0], rows[k]);
    }
  }

  lemma {:induction false} InsertByWinsOrdered(x: JoinedRow, rows: seq<JoinedRow>)
    requires OrderedByWins(rows)
    ensures OrderedByWins(InsertByWins(x, rows))
  {
    if rows != [] && !InOrder(x, rows[0]) {
      InOrderTotal(x, rows[0]);
      var tail := InsertByWins(x, rows[1..]);
      InsertByWinsOrdered(x, rows[1..]);
      forall k | 0 <= k < |tail| ensures InOrder(rows[0], tail[k]) {
        var y := tail[k];
        assert y in multiset(tail);
        if y != x {
          assert y in multiset(rows[1..]);
          var m :| 0 <= m < |rows[1..]| && rows[1..][m] == y;
          assert InOrder(rows[0], rows[m + 1]);
        }
      }
    } else if rows != [] {
      BeforeOrdered(x, rows);
    }
  }

  /** An insertion sort by `wins`, NULLs last: one of the orders the database may return. */
  function SortByWins(rows: seq<JoinedRow>): (r: seq<JoinedRow>)
    ensures OrderedByWins(r)
    ensures multiset(r) == multiset(rows)
  {
    if rows == [] then []
    else
      assert rows == [rows[0]] + rows[1..];
      InsertByWinsOrdered(rows[0], SortByWins(rows[1..]));
      InsertByWins(rows[0], SortByWins(rows[1..]))
  }

  /** For all tables there is an answer to the query. */
  lemma QueryResultExists(ps: seq<PlayerRow>, ms: seq<MatchRow>)
    ensures IsQueryResult(SortByWins(LeftJoin(ps, ms)), ps, ms)
  {
  }

  // ---------------------------------------------------------------------------
  // What a query result holds when the tables are well formed

  /**
   * With at most one counter row per id, a query result holds one row per
   * player row: a reordering of Joined, whose rows carry the stored counters.
   */
  lemma QueryResultIsJoined(rows: seq<JoinedRow>, ps: seq<PlayerRow>, ms: seq<MatchRow>)
    requires UniqueMatchIds(ms)
    requires IsQueryResult(rows, ps, ms)
    ensures multiset(rows) == multiset(Joined(ps, ms))
    ensures |rows| == |ps|
    ensures forall r :: r in rows ==> PlayerRow(r.id, r.name) in ps && r.counter == Lookup(ms, r.id)
  {
    LeftJoinOneRowPerPlayer(ps, ms);
    assert |rows| == |multiset(rows)| == |multiset(Joined(ps, ms))| == |ps|;
    forall r | r in rows
      ensures PlayerRow(r.id, r.name) in ps && r.counter == Lookup(ms, r.id)
    {
      assert r in multiset(Joined(ps, ms));
      var i :| 0 <= i < |ps| && Joined(ps, ms)[i] == r;
      assert ps[i] == PlayerRow(r.id, r.name);
    }
  }

  /** An element at two positions occurs at least twice. */
  lemma TwiceInSeq<T>(s: seq<T>, i: int, j: int)
    requires 0 <= i < j < |s| && s[i] == s[j]
    ensures multiset(s)[s[i]] >= 2
  {
    assert s == s[..j] + s[j..];
    assert s[..j][i] == s[i];
    assert s[j..][0] == s[i];
    assert multiset(s) == multiset(s[..j]) + multiset(s[j..]);
  }

  /** In a sequence without repeats every element occurs at most once. */
  lemma {:induction false} OnceInSeq<T>(s: seq<T>, x: T)
    requires forall i, j :: 0 <= i < j < |s| ==> s[i] != s[j]
    ensures multiset(s)[x] <= 1
  {
    if s != [] {
      OnceInSeq(s[1..], x);
      assert s == [s[0]] + s[1..];
      if s[0] == x {
        assert x !in s[1..] by {
          forall k | 0 <= k < |s[1..]| ensures s[1..][k] != x {
            assert s[k + 1] != s[0];
          }
        }
      }
    }
  }

  /** A reordering of a sequence without repeats has no repeats either. */
  lemma NoRepeatsPermutation<T>(s: seq<T>, t: seq<T>)
    requires multiset(s) == multiset(t)
    requires forall i, j :: 0 <= i < j < |t| ==> t[i] != t[j]
    ensures forall i, j :: 0 <= i < j < |s| ==> s[i] != s[j]
  {
    forall i, j | 0 <= i < j < |s| ensures s[i] != s[j] {
      if s[i] == s[j] {
        TwiceInSeq(s, i, j);
        OnceInSeq(t, s[i]);
        assert false;
      }
    }
  }

  /** With unique player ids, two player rows with the same id are the same row. */
  lemma PlayerRowById(ps: seq<PlayerRow>, a: PlayerRow, b: PlayerRow)
    requires UniquePlayerIds(ps) && a in ps && b in ps
    ensures a.id == b.id ==> a == b
  {
    var i :| 0 <= i < |ps| && ps[i] == a;
    var j :| 0 <= j < |ps| && ps[j] == b;
    assert i != j ==> ps[i].id != ps[j].id;
  }

  /** With unique ids in both tables, no player id occurs twice in a query result. */
  lemma QueryResultDistinctIds(rows: seq<JoinedRow>, ps: seq<PlayerRow>, ms: seq<MatchRow>)
    requires UniquePlayerIds(ps) && UniqueMatchIds(ms)
    requires IsQueryResult(rows, ps, ms)
    ensures DistinctIds(rows)
  {
    QueryResultIsJoined(rows, ps, ms);
    var joined := Joined(ps, ms);
    forall i, j | 0 <= i < j < |joined| ensures joined[i] != joined[j] {
      assert joined[i].id == ps[i].id && joined[j].id == ps[j].id;
    }
    NoRepeatsPermutation(rows, joined);
    forall i, j | 0 <= i < j < |rows|
      ensures rows[i].id != rows[j].id
    {
      assert rows[i] in rows && rows[j] in rows;
      PlayerRowById(ps, PlayerRow(rows[i].id, rows[i].name), PlayerRow(rows[j].id, rows[j].name));
    }
  }
}
