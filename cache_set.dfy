/** One set of the cache, as the code of SimpleCache treats it: a row of
    `associativity` entries, scanned way by way. The functions here are the
    specifications of the class's scanning loops and of its two in-place
    updates, written exactly as the code behaves (see README, Findings). */
module CacheSet {

  /** One way: no valid bit, only a tag and a recency counter. */
  datatype Entry = Entry(tag: int, lastUsed: int)

  type Row = seq<Entry>

  /** A freshly allocated entry. */
  const COLD: Entry := Entry(0, 0)

  function ColdRow(ways: nat): (r: Row)
  {
    seq(ways, _ => COLD)
  }

  /** Some way of the set stores `tag` (what hasLine answers). */
  predicate Holds(row: Row, tag: int)
  {
    exists w :: 0 <= w < |row| && row[w].tag == tag
  }

  /** The way lineWay reports: the lowest way storing `tag`, or -1. */
  function FirstWay(row: Row, tag: int): (way: int)
    ensures -1 <= way < |row|
    ensures way >= 0 <==> Holds(row, tag)
    ensures way >= 0 ==> row[way].tag == tag && forall j :: 0 <= j < way ==> row[j].tag != tag
  {
    if |row| == 0 then -1
    else if row[0].tag == tag then 0
    else
      var rest := FirstWay(row[1..], tag);
      assert forall j :: 1 <= j < |row| ==> row[j] == row[1..][j - 1];
      if rest < 0 then -1 else rest + 1
  }

  /** What oldestWay returns: the largest recency counter of the set (a
      counter value, not the way that holds it). */
  function MaxLastUsed(row: Row): (m: int)
    requires |row| > 0
    ensures forall w :: 0 <= w < |row| ==> row[w].lastUsed <= m
    ensures exists w :: 0 <= w < |row| && row[w].lastUsed == m
  {
    if |row| == 1 then row[0].lastUsed
    else
      var front := row[..|row| - 1];
      var m := MaxLastUsed(front);
      assert forall w :: 0 <= w < |row| - 1 ==> row[w] == front[w];
      if row[|row| - 1].lastUsed > m then row[|row| - 1].lastUsed else m
  }

  /** The shape every recency counter keeps: the code only ever writes
      `|row| - 1 - w` into way w, and counters start at 0. */
  predicate RecencyShape(row: Row)
  {
    forall w :: 0 <= w < |row| ==> row[w].lastUsed == 0 || row[w].lastUsed == |row| - 1 - w
  }

  /** No two ways share a tag, except the 0 tag of entries never filled. */
  predicate UniqueTags(row: Row)
  {
    forall i, j :: 0 <= i < j < |row| && row[i].tag == row[j].tag ==> row[i].tag == 0
  }

  /** Under RecencyShape the value oldestWay returns is a valid way number, so
      the install `entries.at(index).at(way)` never throws. */
  lemma OldestInRange(row: Row)
    requires |row| > 0 && RecencyShape(row)
    ensures 0 <= MaxLastUsed(row) < |row|
  {
    var m := MaxLastUsed(row);
    var w :| 0 <= w < |row| && row[w].lastUsed == m;
  }

  /** The recency loop as written: every iteration writes way `way` (never
      way i), so only that counter changes and it ends at |row| - 1 - way. */
  function TouchAsWritten(row: Row, way: nat): (r: Row)
    requires way < |row|
  {
    row[way := row[way].(lastUsed := |row| - 1 - way)]
  }

  /** The fill as written: the tag goes into the way numbered by the largest
      counter value, then the recency loop runs on that way. */
  function FillAsWritten(row: Row, tag: int): (r: Row)
    requires |row| > 0 && RecencyShape(row)
    ensures |r| == |row| && Holds(r, tag) && RecencyShape(r)
    ensures forall w :: 0 <= w < |row| && w != MaxLastUsed(row) ==> r[w] == row[w]
    ensures UniqueTags(row) && !Holds(row, tag) ==> UniqueTags(r)
  {
    var v := MaxLastUsed(row);
    OldestInRange(row);
    var r := TouchAsWritten(row[v := row[v].(tag := tag)], v);
    assert r[v].tag == tag;
    r
  }

  /** Every counter written by TouchAsWritten keeps the shape. */
  lemma TouchKeepsShape(row: Row, way: nat)
    requires way < |row| && RecencyShape(row)
    ensures RecencyShape(TouchAsWritten(row, way))
    ensures forall w :: 0 <= w < |row| ==> TouchAsWritten(row, way)[w].tag == row[w].tag
  {
  }

  /** With unique tags, a hit on a non-zero tag is found in the one way that holds it. */
  lemma UniqueWay(row: Row, tag: int, w: nat)
    requires UniqueTags(row) && tag != 0 && w < |row| && row[w].tag == tag
    ensures FirstWay(row, tag) == w
  {
  }

  /** A never-filled set reports a hit for tag 0: there is no valid bit. */
  lemma ColdTagZeroHits(ways: nat)
    requires ways > 0
    ensures Holds(ColdRow(ways), 0) && FirstWay(ColdRow(ways), 0) == 0
  {
    assert ColdRow(ways)[0].tag == 0;
  }
}
