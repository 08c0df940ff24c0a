/**
 * The pair lists of `swissPairings`: the one its loop builds as written, and
 * the adjacent pairing its doc-comment describes (tournament.py:158-161).
 */
module Pairings {
  import opened Query

  /** A tuple (id1, name1, id2, name2). */
  datatype Pairing = Pairing(id1: int, name1: string, id2: int, name2: string)

  function PairOf(a: JoinedRow, b: JoinedRow): Pairing
  {
    Pairing(a.id, a.name, b.id, b.name)
  }

  /**
   * The list the loop at tournament.py:184-185 builds, AS WRITTEN: one tuple
   * per step of range(0, n, 2), each made of rows 0 and 1 whatever the step.
   * (With exactly one row the source raises; see Tournament.Database.SwissPairings.)
   */
  function AsWrittenPairs(rows: seq<JoinedRow>): (r: seq<Pairing>)
    requires |rows| != 1
    ensures |r| == (|rows| + 1) / 2
    ensures forall k :: 0 <= k < |r| ==> r[k] == PairOf(rows[0], rows[1])
  {
    if rows == [] then [] else seq((|rows| + 1) / 2, _ => PairOf(rows[0], rows[1]))
  }

  /**
   * The INTENDED list: rows 2k and 2k + 1 for every k, so each player meets a
   * neighbour in the standings. Not what the source computes.
   */
  function AdjacentPairs(rows: seq<JoinedRow>): seq<Pairing>
    requires |rows| % 2 == 0
    decreases |rows|
  {
    if rows == [] then [] else [PairOf(rows[0], rows[1])] + AdjacentPairs(rows[2..])
  }

  /** How many of the slots id1, id2 of the list hold `id`. */
  function Occurrences(pairs: seq<Pairing>, id: int): nat
  {
    if pairs == [] then 0
    else (if pairs[0].id1 == id then 1 else 0) + (if pairs[0].id2 == id then 1 else 0)
         + Occurrences(pairs[1..], id)
  }

  function Ids(rows: seq<JoinedRow>): set<int>
  {
    set r | r in rows :: r.id
  }

  /** "Each player appears exactly once in the pairings", and nobody else appears. */
  predicate EachOnce(pairs: seq<Pairing>, rows: seq<JoinedRow>)
  {
    && (forall j :: 0 <= j < |rows| ==> Occurrences(pairs, rows[j].id) == 1)
    && (forall k :: 0 <= k < |pairs| ==> pairs[k].id1 in Ids(rows) && pairs[k].id2 in Ids(rows))
  }

  lemma {:induction false} OccurrencesAbsent(pairs: seq<Pairing>, id: int)
    requires forall k :: 0 <= k < |pairs| ==> pairs[k].id1 != id && pairs[k].id2 != id
    ensures Occurrences(pairs, id) == 0
  {
    if pairs != [] {
      OccurrencesAbsent(pairs[1..], id);
    }
  }

  lemma {:induction false} OccurrencesConcat(p: seq<Pairing>, q: seq<Pairing>, id: int)
    ensures Occurrences(p + q, id) == Occurrences(p, id) + Occurrences(q, id)
  {
    if p == [] {
      assert p + q == q;
    } else {
      assert (p + q)[1..] == p[1..] + q;
      OccurrencesConcat(p[1..], q, id);
    }
  }

  /** The intended list pairs row 2k with row 2k + 1: neighbours in the standings. */
  lemma {:induction false} AdjacentPairsAt(rows: seq<JoinedRow>, k: int)
    requires |rows| % 2 == 0
    requires 0 <= k < |rows| / 2
    ensures |AdjacentPairs(rows)| == |rows| / 2
    ensures AdjacentPairs(rows)[k] == PairOf(rows[2 * k], rows[2 * k + 1])
    decreases |rows|
  {
    if k == 0 {
      if |rows| > 2 {
        AdjacentPairsAt(rows[2..], 0);
      }
    } else {
      AdjacentPairsAt(rows[2..], k - 1);
    }
  }

  /** Dropping the first two rows keeps ids distinct, and no later row shares their ids. */
  lemma DistinctIdsDropTwo(rows: seq<JoinedRow>)
    requires |rows| >= 2 && DistinctIds(rows)
    ensures DistinctIds(rows[2..])
    ensures Ids(rows[2..]) <= Ids(rows)
    ensures rows[0].id !in Ids(rows[2..]) && rows[1].id !in Ids(rows[2..])
  {
    var rest := rows[2..];
    forall i, j | 0 <= i < j < |rest| ensures rest[i].id != rest[j].id {
      assert rest[i] == rows[i + 2] && rest[j] == rows[j + 2];
    }
    forall r | r in rest ensures r in rows && r.id != rows[0].id && r.id != rows[1].id {
      var i :| 0 <= i < |rest| && rest[i] == r;
      assert rows[i + 2] == r;
    }
  }

  /** With distinct ids and an even count, the intended list has every player exactly once. */
  lemma {:induction false} AdjacentPairsEachOnce(rows: seq<JoinedRow>)
    requires |rows| % 2 == 0
    requires DistinctIds(rows)
    ensures EachOnce(AdjacentPairs(rows), rows)
    decreases |rows|
  {
    if rows != [] {
      var rest := rows[2..];
      DistinctIdsDropTwo(rows);
      AdjacentPairsEachOnce(rest);
      var p := PairOf(rows[0], rows[1]);
      var tail := AdjacentPairs(rest);
      assert AdjacentPairs(rows) == [p] + tail;
      forall j | 0 <= j < |rows|
        ensures Occurrences(AdjacentPairs(rows), rows[j].id) == 1
      {
        var id := rows[j].id;
        OccurrencesConcat([p], tail, id);
        if j < 2 {
          OccurrencesAbsent(tail, id);
        } else {
          assert rest[j - 2] == rows[j];
        }
      }
      assert rows[0] in rows && rows[1] in rows;
    }
  }

  /**
   * As written, every player is paired exactly once only when there are at
   * most two players: from four on, row 2 is never paired.
   */
  lemma AsWrittenEachOnceOnlyUpToTwo(rows: seq<JoinedRow>)
    requires |rows| % 2 == 0
    requires DistinctIds(rows)
    ensures EachOnce(AsWrittenPairs(rows), rows) <==> |rows| <= 2
  {
    if |rows| == 2 {
      assert AsWrittenPairs(rows) == AdjacentPairs(rows);
      AdjacentPairsEachOnce(rows);
    } else if |rows| >= 4 {
      OccurrencesAbsent(AsWrittenPairs(rows), rows[2].id);
    }
  }

  /** From four players on, the second tuple as written repeats rows 0 and 1 instead of pairing rows 2 and 3. */
  lemma AsWrittenSecondPairDiffers(rows: seq<JoinedRow>)
    requires |rows| % 2 == 0 && |rows| >= 4
    requires DistinctIds(rows)
    ensures |AdjacentPairs(rows)| == |rows| / 2
    ensures AsWrittenPairs(rows)[1] == PairOf(rows[0], rows[1]) != AdjacentPairs(rows)[1]
    ensures AsWrittenPairs(rows) != AdjacentPairs(rows)
  {
    AdjacentPairsAt(rows, 0);
    AdjacentPairsAt(rows, 1);
    var asWritten := AsWrittenPairs(rows);
    assert asWritten[1] == PairOf(rows[0], rows[1]);
    assert rows[0].id != rows[2].id;
    assert asWritten[1] != AdjacentPairs(rows)[1];
  }

  /** The list as written equals the intended one exactly when there are at most two players. */
  lemma AsWrittenIsAdjacentOnlyUpToTwo(rows: seq<JoinedRow>)
    requires |rows| % 2 == 0
    requires DistinctIds(rows)
    ensures AsWrittenPairs(rows) == AdjacentPairs(rows) <==> |rows| <= 2
  {
    if |rows| >= 4 {
      AsWrittenSecondPairDiffers(rows);
    } else if |rows| == 2 {
      AdjacentPairsAt(rows, 0);
      assert AsWrittenPairs(rows) == [PairOf(rows[0], rows[1])];
    }
  }
}
