/**
 The rows the trends table is made of.

 A fetched observation is one calendar month together with one trend value
 per tracked query. Once a pull has stamped it, it becomes a row that also
 carries its `Pull Date`. Months are period ordinals (for instance
 `year * 12 + month - 1`), and the pull stamp is the number that the digits
 of the `%Y-%m-%d %H:%M:%S` text spell (see module PullStamp), so ordering
 stamps as numbers is ordering them as the spreadsheet's strings.
 */
module Rows {

  /** One period of the fetched series: the `Month` column and the query columns. */
  datatype Observation = Observation(month: int, values: seq<int>)

  /** A stored row: an observation plus the `Pull Date` of the fetch that produced it. */
  datatype Row = Row(month: int, values: seq<int>, pulled: nat)
  {
    /** The row without its pull stamp. */
    function Strip(): Observation {
      Observation(month, values)
    }
  }

  /** The months a table mentions. */
  function Months(s: seq<Row>): set<int> {
    set r | r in s :: r.month
  }

  /** The months a fetched batch mentions. */
  function BatchMonths(batch: seq<Observation>): set<int> {
    set o | o in batch :: o.month
  }

  /** Removes the pull stamps of a table. */
  function Unstamp(s: seq<Row>): (obs: seq<Observation>)
    ensures |obs| == |s|
    ensures forall i :: 0 <= i < |s| ==> obs[i] == s[i].Strip()
  {
    if |s| == 0 then [] else [s[0].Strip()] + Unstamp(s[1..])
  }

  /**
   Adds the one `Pull Date` of this run to every row of a fetched batch
   (pull.py:70 on the update path, pull.py:90 on the first run).
   */
  function StampBatch(batch: seq<Observation>, now: nat): (rows: seq<Row>)
    ensures |rows| == |batch|
    ensures forall r :: r in rows ==> r.pulled == now && r.Strip() in batch
    ensures Months(rows) == BatchMonths(batch)
  {
    if |batch| == 0 then []
    else
      var head := Row(batch[0].month, batch[0].values, now);
      var rest := StampBatch(batch[1..], now);
      assert forall o :: o in batch <==> o == batch[0] || o in batch[1..];
      assert BatchMonths(batch) == {head.month} + BatchMonths(batch[1..]);
      MonthsAppend([head], rest);
      [head] + rest
  }

  /** Stamping loses nothing: taking the stamps off again gives back the fetched batch, in order. */
  lemma {:induction false} UnstampStamp(batch: seq<Observation>, now: nat)
    ensures Unstamp(StampBatch(batch, now)) == batch
  {
    if |batch| > 0 {
      UnstampStamp(batch[1..], now);
      assert batch == [batch[0]] + batch[1..];
    }
  }

  /** The number of distinct months never exceeds the number of rows. */
  lemma {:induction false} MonthsAtMostRows(s: seq<Row>)
    ensures |Months(s)| <= |s|
  {
    if |s| > 0 {
      MonthsAtMostRows(s[1..]);
      assert Months(s) == {s[0].month} + Months(s[1..]) by {
        assert forall r :: r in s <==> r == s[0] || r in s[1..];
      }
    }
  }

  /** Months of a concatenation are the union of the months of the parts. */
  lemma MonthsAppend(a: seq<Row>, b: seq<Row>)
    ensures Months(a + b) == Months(a) + Months(b)
  {
    assert forall r :: r in a + b <==> r in a || r in b;
  }
}
