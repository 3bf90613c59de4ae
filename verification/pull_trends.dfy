/**
 One run of `pull_google_trends` from the fetch result on: reject an empty
 fetch, create the file from the stamped batch on the first run, otherwise
 merge the stamped batch into the saved table.

 The fetch, the spreadsheet reads and writes, and the clock are the run's
 parameters: `fetched` is what the trends service returned, `saved` is the
 table found in the spreadsheet (`None` when the file does not exist yet),
 and `now` is the clock reading of this run.
 */
module PullTrends {
  import opened Wrappers
  import opened Rows
  import opened Merger
  import PullStamp

  /** The fetched periods are in strictly increasing month order. */
  predicate BatchAscending(batch: seq<Observation>) {
    forall i, j :: 0 <= i < j < |batch| ==> batch[i].month < batch[j].month
  }

  /** The update path, pull.py:69-83: stamp the batch with this run's `Pull
      Date`, then merge it into the saved table keeping the latest pull of
      each month. */
  function Update(existing: seq<Row>, batch: seq<Observation>, now: nat): (m: Merged)
    ensures StrictlyAscending(m.rows)
    ensures Months(m.rows) == Months(existing) + BatchMonths(batch)
    ensures forall r :: r in m.rows ==> r in existing || (r.pulled == now && r.Strip() in batch)
    ensures forall r, x :: r in m.rows && x in existing && x.month == r.month ==> x.pulled <= r.pulled
    ensures forall r :: r in m.rows && r.month in BatchMonths(batch) ==> now <= r.pulled
    ensures m.duplicatesRemoved == |existing| + |batch| - |Months(existing) + BatchMonths(batch)| >= 0
  {
    var incoming := StampBatch(batch, now);
    UpdateFacts(existing, batch, now);
    Combine(existing, incoming)
  }

  /** What `Update` needs from the contract of `Combine`. */
  lemma UpdateFacts(existing: seq<Row>, batch: seq<Observation>, now: nat)
    ensures var incoming := StampBatch(batch, now);
      var out := Combine(existing, incoming).rows;
      && Months(existing + incoming) == Months(existing) + BatchMonths(batch)
      && |existing + incoming| == |existing| + |batch|
      && (forall r :: r in out ==> r in existing || (r.pulled == now && r.Strip() in batch))
      && (forall r, x :: r in out && x in existing && x.month == r.month ==> x.pulled <= r.pulled)
      && (forall r :: r in out && r.month in BatchMonths(batch) ==> now <= r.pulled)
  {
    var incoming := StampBatch(batch, now);
    var all := existing + incoming;
    var out := Combine(existing, incoming).rows;
    MonthsAppend(existing, incoming);
    forall r | r in out
      ensures r in existing || (r.pulled == now && r.Strip() in batch)
      ensures forall x :: x in all && x.month == r.month ==> x.pulled <= r.pulled
    {
      FreshestSpec(all, r.month);
    }
    forall r | r in out && r.month in BatchMonths(batch)
      ensures now <= r.pulled
    {
      assert r.month in Months(incoming);
      var y :| y in incoming && y.month == r.month;
      assert y in all;
    }
  }

  /** Merging the same batch with the same stamp again leaves the table as it is. */
  lemma UpdateIdempotent(existing: seq<Row>, batch: seq<Observation>, now: nat)
    ensures Update(Update(existing, batch, now).rows, batch, now).rows == Update(existing, batch, now).rows
  {
    CombineIdempotent(existing, StampBatch(batch, now));
  }

  /** When this run's stamp is later than every saved stamp and the batch
      repeats no month, each fetched period lands in the table exactly as
      fetched, stamped with this run: the latest pull wins. */
  lemma LatestPullWins(existing: seq<Row>, batch: seq<Observation>, now: nat)
    requires forall x :: x in existing ==> x.pulled < now
    requires forall i, j :: 0 <= i < j < |batch| ==> batch[i].month != batch[j].month
    ensures forall i :: 0 <= i < |batch| ==> Row(batch[i].month, batch[i].values, now) in Update(existing, batch, now).rows
  {
    var out := Update(existing, batch, now).rows;
    forall i | 0 <= i < |batch|
      ensures Row(batch[i].month, batch[i].values, now) in out
    {
      assert batch[i] in batch;
      assert batch[i].month in Months(out);
      var y :| y in out && y.month == batch[i].month;
      assert y.pulled == now && y.Strip() in batch;
      var k :| 0 <= k < |batch| && batch[k] == y.Strip();
      assert k == i;
    }
  }

  /** The merge reports removed duplicates (pull.py:82) exactly when some
      month occurs twice among the saved and the stamped rows. */
  lemma DuplicatesReportedIffRepeats(existing: seq<Row>, batch: seq<Observation>, now: nat)
    ensures Update(existing, batch, now).duplicatesRemoved > 0
        <==> !DistinctMonths(existing + StampBatch(batch, now))
  {
    var all := existing + StampBatch(batch, now);
    MonthsAppend(existing, StampBatch(batch, now));
    DistinctIffCountsAgree(all);
  }

  /** The worked example of an update: a month already saved is fetched
      again with a new value, together with the month after it; the later
      pull replaces the saved month and the new month is added after it. */
  lemma UpdateExample(jan: int, saved: int, refetched: int, following: int, earlier: nat, later: nat)
    requires earlier < later
    ensures Update([Row(jan, [saved], earlier)],
                   [Observation(jan, [refetched]), Observation(jan + 1, [following])], later).rows
         == [Row(jan, [refetched], later), Row(jan + 1, [following], later)]
  {
    var existing := [Row(jan, [saved], earlier)];
    var batch := [Observation(jan, [refetched]), Observation(jan + 1, [following])];
    ExampleFacts(existing, batch, later);
    AscendingPair(Update(existing, batch, later).rows, Row(jan, [refetched], later), Row(jan + 1, [following], later));
  }

  /** What the example needs from the contracts of `Update` and `LatestPullWins`. */
  lemma ExampleFacts(existing: seq<Row>, batch: seq<Observation>, later: nat)
    requires |existing| == 1 && |batch| == 2
    requires existing[0].pulled < later
    requires batch[0].month == existing[0].month && batch[1].month == batch[0].month + 1
    ensures Months(Update(existing, batch, later).rows) == {batch[0].month, batch[1].month}
    ensures Row(batch[0].month, batch[0].values, later) in Update(existing, batch, later).rows
    ensures Row(batch[1].month, batch[1].values, later) in Update(existing, batch, later).rows
  {
    LatestPullWins(existing, batch, later);
    PairMonths(existing, batch);
  }

  /** The months of the example's inputs. */
  lemma PairMonths(existing: seq<Row>, batch: seq<Observation>)
    requires |existing| == 1 && |batch| == 2
    ensures Months(existing) == {existing[0].month}
    ensures BatchMonths(batch) == {batch[0].month, batch[1].month}
  {
    assert batch[0] in batch && batch[1] in batch;
    assert existing[0] in existing;
  }

  /** A month-ascending table of two months holding a row of each is those two rows. */
  lemma AscendingPair(out: seq<Row>, first: Row, second: Row)
    requires StrictlyAscending(out)
    requires Months(out) == {first.month, second.month} && first.month < second.month
    requires first in out && second in out
    ensures out == [first, second]
  {
    DistinctMonthsCount(out);
    assert |out| == 2;
    OnlyRowOfMonth(out, first);
    OnlyRowOfMonth(out, second);
    assert out[0] in out && out[1] in out;
  }

  /** A saved row whose month the batch does not mention is kept as it is,
      provided the saved table repeats no month; a first-run table written in
      fetch order qualifies. */
  lemma UnfetchedMonthsKept(existing: seq<Row>, batch: seq<Observation>, now: nat, r: Row)
    requires DistinctMonths(existing)
    requires r in existing && r.month !in BatchMonths(batch)
    ensures r in Update(existing, batch, now).rows
  {
    UntouchedRowsSurvive(existing, StampBatch(batch, now), r);
  }

  /** The result of one run: whether it reported success, and the table in
      the spreadsheet afterwards (`None`: there is no file). */
  datatype RunResult = RunResult(success: bool, file: Option<seq<Row>>)

  /** `pull_google_trends` after the fetch (pull.py:41-91). */
  function Run(saved: Option<seq<Row>>, fetched: seq<Observation>, now: PullStamp.DateTime): (r: RunResult)
    requires PullStamp.Valid(now)
    ensures r.success <==> |fetched| > 0
    ensures !r.success ==> r.file == saved
    ensures r.success ==> r.file.Some?
    ensures r.success ==> forall x :: x in r.file.value ==> x in SavedRows(saved) || x.pulled == PullStamp.Key(now)
    ensures r.success && saved.None? ==> Unstamp(r.file.value) == fetched
    ensures r.success && saved.Some? ==> StrictlyAscending(r.file.value)
    ensures r.success ==> Months(r.file.value) == Months(SavedRows(saved)) + BatchMonths(fetched)
  {
    if |fetched| == 0 then
      RunResult(false, saved)
    else
      var stamp := PullStamp.Key(now);
      match saved
      case None =>
        UnstampStamp(fetched, stamp);
        RunResult(true, Some(StampBatch(fetched, stamp)))
      case Some(existing) =>
        RunResult(true, Some(Update(existing, fetched, stamp).rows))
  }

  /** The saved table, empty when there is no file. */
  function SavedRows(saved: Option<seq<Row>>): seq<Row> {
    match saved
    case None => []
    case Some(t) => t
  }

  /** On the first run the file holds the fetched batch; when the service
      returned its periods in order, that is already a well-formed dataset,
      and so is the file after every later run. */
  lemma RunKeepsDataset(saved: Option<seq<Row>>, fetched: seq<Observation>, now: PullStamp.DateTime)
    requires PullStamp.Valid(now)
    requires saved.None? ==> BatchAscending(fetched)
    requires |fetched| > 0
    ensures StrictlyAscending(Run(saved, fetched, now).file.value)
  {
  }
}
