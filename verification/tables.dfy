/**
 * The two tables of the tournament database, as sequences of rows in table
 * order, and the three SQL statements that `reportMatch` runs against the
 * `matches` table (SELECT, UPDATE and INSERT by player id).
 */
module Tables {

  datatype Option<T> = None | Some(value: T)

  /** A row of table `tournament`: a registered player. */
  datatype PlayerRow = PlayerRow(id: int, name: string)

  /** A row of table `matches`: the counters kept for one player id. */
  datatype MatchRow = MatchRow(id: int, matches: int, wins: int)

  /** The (matches, wins) columns of a `matches` row. */
  datatype Counter = Counter(matches: int, wins: int)

  function CounterOf(row: MatchRow): Counter
  {
    Counter(row.matches, row.wins)
  }

  /** `tournament.id` is a serial key: no two player rows share an id. */
  predicate UniquePlayerIds(ps: seq<PlayerRow>)
  {
    forall i, j :: 0 <= i < j < |ps| ==> ps[i].id != ps[j].id
  }

  /** At most one `matches` row per player id. */
  predicate UniqueMatchIds(ms: seq<MatchRow>)
  {
    forall i, j :: 0 <= i < j < |ms| ==> ms[i].id != ms[j].id
  }

  function PlayerIds(ps: seq<PlayerRow>): set<int>
  {
    set p | p in ps :: p.id
  }

  function MatchIds(ms: seq<MatchRow>): set<int>
  {
    set row | row in ms :: row.id
  }

  /**
   * The counters by player id. Where an id has several rows, the first one in
   * table order is taken (the one `info[0]` would read).
   */
  function CounterMap(ms: seq<MatchRow>): (m: map<int, Counter>)
    ensures m.Keys == MatchIds(ms)
  {
    if ms == [] then map[]
    else
      assert MatchIds(ms) == {ms[0].id} + MatchIds(ms[1..]) by {
        assert ms == [ms[0]] + ms[1..];
      }
      CounterMap(ms[1..])[ms[0].id := CounterOf(ms[0])]
  }

  /** The counters of one id, or None (the NULLs of an outer join) when it has no row. */
  function Lookup(ms: seq<MatchRow>, id: int): Option<Counter>
  {
    var m := CounterMap(ms);
    if id in m then Some(m[id]) else None
  }

  /** `SELECT matches, wins FROM matches WHERE id = x`: the rows with that id, in table order. */
  function Select(ms: seq<MatchRow>, id: int): (r: seq<MatchRow>)
    ensures forall row :: row in r <==> row in ms && row.id == id
  {
    if ms == [] then []
    else (if ms[0].id == id then [ms[0]] else []) + Select(ms[1..], id)
  }

  /** `UPDATE matches SET matches = .., wins = .. WHERE id = x`: every row with that id is overwritten. */
  function Update(ms: seq<MatchRow>, id: int, c: Counter): (r: seq<MatchRow>)
    ensures |r| == |ms|
    ensures forall k :: 0 <= k < |ms| && ms[k].id == id ==> r[k] == MatchRow(id, c.matches, c.wins)
    ensures forall k :: 0 <= k < |ms| && ms[k].id != id ==> r[k] == ms[k]
  {
    if ms == [] then []
    else [if ms[0].id == id then MatchRow(id, c.matches, c.wins) else ms[0]] + Update(ms[1..], id, c)
  }

  /** `INSERT INTO matches (id, matches, wins) VALUES (..)`: the new row joins the table. */
  function Insert(ms: seq<MatchRow>, row: MatchRow): (r: seq<MatchRow>)
    ensures |r| == |ms| + 1 && r[..|ms|] == ms && r[|ms|] == row
  {
    ms + [row]
  }

  /** The SELECT finds a row exactly when the id has counters, and its first row holds them. */
  lemma {:induction false} SelectSeesCounters(ms: seq<MatchRow>, id: int)
    ensures Select(ms, id) == [] <==> id !in CounterMap(ms)
    ensures Select(ms, id) != [] ==> CounterOf(Select(ms, id)[0]) == CounterMap(ms)[id]
  {
    if ms != [] {
      SelectSeesCounters(ms[1..], id);
    }
  }

  /** With at most one row per id, the SELECT returns at most one row. */
  lemma {:induction false} SelectAtMostOne(ms: seq<MatchRow>, id: int)
    requires UniqueMatchIds(ms)
    ensures |Select(ms, id)| <= 1
  {
    if ms != [] {
      SelectAtMostOne(ms[1..], id);
      if ms[0].id == id {
        assert id !in MatchIds(ms[1..]) by {
          forall row | row in ms[1..] ensures row.id != id {
            var k :| 0 <= k < |ms[1..]| && ms[1..][k] == row;
            assert ms[k + 1] == row;
          }
        }
        SelectSeesCounters(ms[1..], id);
      }
    }
  }

  /** Overwriting the rows of an id with the values they already hold changes nothing. */
  lemma {:induction false} UpdateWithHeldValues(ms: seq<MatchRow>, id: int, c: Counter)
    requires forall row :: row in ms && row.id == id ==> CounterOf(row) == c
    ensures Update(ms, id, c) == ms
  {
    if ms != [] {
      UpdateWithHeldValues(ms[1..], id, c);
    }
  }

  /**
   * With at most one row per id, an UPDATE that writes back the values the
   * SELECT just read leaves the table exactly as it was.
   */
  lemma RewriteIsNoOp(ms: seq<MatchRow>, id: int)
    requires UniqueMatchIds(ms)
    requires Select(ms, id) != []
    ensures Update(ms, id, CounterOf(Select(ms, id)[0])) == ms
  {
    var first := Select(ms, id)[0];
    assert first in ms && first.id == id;
    forall row | row in ms && row.id == id
      ensures CounterOf(row) == CounterOf(first)
    {
      var i :| 0 <= i < |ms| && ms[i] == row;
      var j :| 0 <= j < |ms| && ms[j] == first;
      assert i == j;
    }
    UpdateWithHeldValues(ms, id, CounterOf(first));
  }

  /** Inserting a row for an id that has none adds exactly that id's counters. */
  lemma {:induction false} InsertNewId(ms: seq<MatchRow>, row: MatchRow)
    requires row.id !in CounterMap(ms)
    ensures CounterMap(Insert(ms, row)) == CounterMap(ms)[row.id := CounterOf(row)]
  {
    if ms != [] {
      var rest, first := ms[1..], ms[0];
      var whole := Insert(ms, row);
      assert whole[0] == first && whole[1..] == Insert(rest, row);
      var before := CounterMap(rest);
      assert CounterMap(ms) == before[first.id := CounterOf(first)];
      assert first.id != row.id && row.id !in before;
      InsertNewId(rest, row);
      MapUpdatesCommute(before, first.id, CounterOf(first), row.id, CounterOf(row));
    }
  }

  lemma MapUpdatesCommute(m: map<int, Counter>, a: int, x: Counter, b: int, y: Counter)
    requires a != b
    ensures m[a := x][b := y] == m[b := y][a := x]
  {
  }

  /** Inserting a row for an id that has none keeps ids unique. */
  lemma InsertKeepsUnique(ms: seq<MatchRow>, row: MatchRow)
    requires UniqueMatchIds(ms)
    requires row.id !in CounterMap(ms)
    ensures UniqueMatchIds(Insert(ms, row))
  {
    forall i | 0 <= i < |ms|
      ensures ms[i].id != row.id
    {
      assert ms[i] in ms;
    }
  }

  lemma PlayerIdsCons(ps: seq<PlayerRow>)
    requires ps != []
    ensures PlayerIds(ps) == {ps[0].id} + PlayerIds(ps[1..])
  {
    assert ps == [ps[0]] + ps[1..];
  }

  /** With unique ids, there are as many distinct player ids as player rows. */
  lemma {:induction false} UniquePlayerIdsCount(ps: seq<PlayerRow>)
    requires UniquePlayerIds(ps)
    ensures |PlayerIds(ps)| == |ps|
  {
    if ps != [] {
      var rest := ps[1..];
      assert UniquePlayerIds(rest) by {
        forall i, j | 0 <= i < j < |rest| ensures rest[i].id != rest[j].id {
          assert rest[i] == ps[i + 1] && rest[j] == ps[j + 1];
        }
      }
      UniquePlayerIdsCount(rest);
      PlayerIdsCons(ps);
      assert ps[0].id !in PlayerIds(rest) by {
        forall p | p in rest ensures p.id != ps[0].id {
          var k :| 0 <= k < |rest| && rest[k] == p;
          assert ps[k + 1] == p;
        }
      }
    }
  }
}
