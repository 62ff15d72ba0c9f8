/** The least-recently-used policy the cache was meant to implement, beside
    the behaviour of the code as written (module CacheSet). The cache class
    keeps the code's behaviour; these definitions and lemmas state the
    intended one and show, on concrete sets, where the two part ways. */
module IntendedLru {
  import opened CacheSet

  /** The intended victim: the way with the largest counter, the lowest such
      way on a tie. */
  function Victim(row: Row): (way: nat)
    requires |row| > 0
    ensures way < |row|
    ensures forall j :: 0 <= j < |row| ==> row[j].lastUsed <= row[way].lastUsed
    ensures forall j :: 0 <= j < way ==> row[j].lastUsed < row[way].lastUsed
  {
    if |row| == 1 then 0
    else
      var front := row[..|row| - 1];
      var v := Victim(front);
      assert forall j :: 0 <= j < |row| - 1 ==> row[j] == front[j];
      if row[|row| - 1].lastUsed > row[v].lastUsed then |row| - 1 else v
  }

  /** The intended recency update: the accessed way goes to 0, every other
      way of the set ages by one. */
  function Touch(row: Row, way: nat): (r: Row)
    requires way < |row|
  {
    seq(|row|, j requires 0 <= j < |row| =>
      if j == way then row[j].(lastUsed := 0) else row[j].(lastUsed := row[j].lastUsed + 1))
  }

  /** The intended fill: install in the victim way, then touch it. */
  function Fill(row: Row, tag: int): (r: Row)
    requires |row| > 0
  {
    var v := Victim(row);
    Touch(row[v := row[v].(tag := tag)], v)
  }

  /** Touch makes the accessed way the most recent one and keeps the
      recency order of every other pair of ways. */
  lemma TouchIsLru(row: Row, way: nat)
    requires way < |row|
    requires forall j :: 0 <= j < |row| ==> row[j].lastUsed >= 0
    ensures |Touch(row, way)| == |row|
    ensures forall j :: 0 <= j < |row| ==> Touch(row, way)[j].tag == row[j].tag
    ensures forall j :: 0 <= j < |row| && j != way ==>
      Touch(row, way)[way].lastUsed < Touch(row, way)[j].lastUsed
    ensures forall i, j :: 0 <= i < |row| && 0 <= j < |row| && i != way && j != way ==>
      (Touch(row, way)[i].lastUsed < Touch(row, way)[j].lastUsed <==> row[i].lastUsed < row[j].lastUsed)
  {
  }

  /** Fill installs the tag in a way whose counter was the largest, makes
      it the most recent, and leaves every other way's tag in place. */
  lemma FillEvictsLeastRecent(row: Row, tag: int)
    requires |row| > 0
    requires forall j :: 0 <= j < |row| ==> row[j].lastUsed >= 0
    ensures var r := Fill(row, tag); var v := Victim(row);
      |r| == |row| && r[v].tag == tag && r[v].lastUsed == 0 &&
      (forall j :: 0 <= j < |row| ==> row[j].lastUsed <= row[v].lastUsed) &&
      (forall j :: 0 <= j < |row| && j != v ==> r[j].tag == row[j].tag && r[j].lastUsed > 0)
  {
    var v := Victim(row);
    TouchIsLru(row[v := row[v].(tag := tag)], v);
  }

  /** As written, touching way 0 of a fresh 2-way set leaves it with counter
      1 and way 1 unaged; the intended update gives 0 and 1. */
  lemma TouchDivergence(t: int)
    ensures TouchAsWritten([Entry(t, 0), COLD], 0) == [Entry(t, 1), COLD]
    ensures Touch([Entry(t, 0), COLD], 0) == [Entry(t, 0), Entry(0, 1)]
  {
    var r := Touch([Entry(t, 0), COLD], 0);
    assert r[0] == Entry(t, 0) && r[1] == Entry(0, 1);
  }

  /** The 3-way set with counters 2, 1, 0 is reachable as written: a fresh
      set, a fill of a non-zero tag t1 (recvResp), then a hit on the cold
      tag 0, found in way 1 (recvReq for an address of this set with tag 0). */
  lemma CountersTwoOneZeroReachable(t1: int)
    requires t1 != 0
    ensures var r1 := FillAsWritten(ColdRow(3), t1);
      r1 == [Entry(t1, 2), COLD, COLD] && FirstWay(r1, 0) == 1 &&
      TouchAsWritten(r1, FirstWay(r1, 0)) == [Entry(t1, 2), Entry(0, 1), Entry(0, 0)]
  {
    var r0 := ColdRow(3);
    assert r0 == [COLD, COLD, COLD];
    assert MaxLastUsed(r0) == 0 by {
      assert r0[..2] == [COLD, COLD];
      assert r0[..2][..1] == [COLD];
    }
    var r1 := FillAsWritten(r0, t1);
    assert r1 == [Entry(t1, 2), COLD, COLD];
    assert r1[1..] == [COLD, COLD];
  }

  /** As written, the victim of the reachable 3-way set above (with a, b, c
      standing for t1, 0, 0) is way 2, the way with
      the SMALLEST counter, because oldestWay returns the value 2 rather than
      the way holding it; the intended victim is way 0. */
  lemma VictimDivergence(a: int, b: int, c: int)
    ensures RecencyShape([Entry(a, 2), Entry(b, 1), Entry(c, 0)])
    ensures MaxLastUsed([Entry(a, 2), Entry(b, 1), Entry(c, 0)]) == 2
    ensures Victim([Entry(a, 2), Entry(b, 1), Entry(c, 0)]) == 0
  {
    var row := [Entry(a, 2), Entry(b, 1), Entry(c, 0)];
    assert row[..2] == [Entry(a, 2), Entry(b, 1)];
    assert row[..2][..1] == [Entry(a, 2)];
  }

  /** One set of two ways, tags t1 then t2 filled, then a miss on t3. As
      written the fill evicts t2, the line used last; the intended policy
      evicts t1. */
  lemma AsWrittenEvictsMostRecent(t1: int, t2: int, t3: int)
    ensures var r2 := FillAsWritten(FillAsWritten(ColdRow(2), t1), t2);
      r2 == [Entry(t1, 1), Entry(t2, 0)] &&
      FillAsWritten(r2, t3) == [Entry(t1, 1), Entry(t3, 0)]
  {
    var r0 := ColdRow(2);
    assert r0 == [COLD, COLD];
    assert MaxLastUsed(r0) == 0 by { assert r0[..1] == [COLD]; }
    var r1 := FillAsWritten(r0, t1);
    assert r1 == [Entry(t1, 1), COLD];
    assert MaxLastUsed(r1) == 1 by { assert r1[..1] == [Entry(t1, 1)]; }
    var r2 := FillAsWritten(r1, t2);
    assert r2 == [Entry(t1, 1), Entry(t2, 0)];
    assert MaxLastUsed(r2) == 1 by { assert r2[..1] == [Entry(t1, 1)]; }
  }

  /** The same sequence under the intended policy evicts t1. */
  lemma IntendedEvictsLeastRecent(t1: int, t2: int, t3: int)
    ensures var r2 := Fill(Fill(ColdRow(2), t1), t2);
      r2 == [Entry(t1, 1), Entry(t2, 0)] &&
      Fill(r2, t3) == [Entry(t3, 0), Entry(t2, 1)]
  {
    var r0 := ColdRow(2);
    assert r0 == [COLD, COLD];
    assert Victim(r0) == 0 by { assert r0[..1] == [COLD]; }
    var r1 := Fill(r0, t1);
    assert r1[0] == Entry(t1, 0) && r1[1] == Entry(0, 1);
    assert Victim(r1) == 1 by { assert r1[..1] == [Entry(t1, 0)]; }
    var r2 := Fill(r1, t2);
    assert r2[0] == Entry(t1, 1) && r2[1] == Entry(t2, 0);
    assert Victim(r2) == 0 by { assert r2[..1] == [Entry(t1, 1)]; }
    var r3 := Fill(r2, t3);
    assert r3[0] == Entry(t3, 0) && r3[1] == Entry(t2, 1);
  }
}
