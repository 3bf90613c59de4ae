/**
 The incremental merge of a fresh pull into the saved trends table.

 The source does it in three pandas steps over the concatenation of the
 saved table and the freshly stamped batch: sort by `Pull Date` descending,
 drop every row whose `Month` was already seen, sort by `Month` ascending.
 `Freshest` is the independent reference: for one month, the row with the
 latest stamp, the first one in concatenation order among equal stamps.
 The lemmas show the three steps keep exactly the freshest row per month.
 */
module Merger {
  import opened Wrappers
  import opened Rows

  /** Rows are ordered by pull stamp, latest first. */
  predicate NewestFirst(s: seq<Row>) {
    forall i, j :: 0 <= i < j < |s| ==> s[i].pulled >= s[j].pulled
  }

  /** No two rows share a month. */
  predicate DistinctMonths(s: seq<Row>) {
    forall i, j :: 0 <= i < j < |s| ==> s[i].month != s[j].month
  }

  /** Months strictly increase along the table: the shape of a saved dataset. */
  predicate StrictlyAscending(s: seq<Row>) {
    forall i, j :: 0 <= i < j < |s| ==> s[i].month < s[j].month
  }

  /** The candidate a single row offers for month `m`. */
  function Offer(r: Row, m: int): Option<Row> {
    if r.month == m then Some(r) else None
  }

  /** Of two candidates, the one pulled later; the first one on equal stamps. */
  function Pick(a: Option<Row>, b: Option<Row>): Option<Row> {
    match (a, b)
    case (None, _) => b
    case (_, None) => a
    case (Some(x), Some(y)) => if x.pulled >= y.pulled then a else b
  }

  /** The row the merge must keep for month `m`: the latest pull, first seen on a tie. */
  function Freshest(s: seq<Row>, m: int): Option<Row> {
    if |s| == 0 then None else Pick(Offer(s[0], m), Freshest(s[1..], m))
  }

  /** `b` is a row of `s` for month `m`, no row of that month is pulled
      later, and every row of that month pulled at the same time as `b` comes
      no earlier than `b`'s first occurrence. */
  predicate IsFreshest(s: seq<Row>, m: int, b: Row) {
    && b.month == m
    && b in s
    && (forall x :: x in s && x.month == m ==> x.pulled <= b.pulled)
    && (forall j :: 0 <= j < |s| && s[j].month == m && s[j].pulled == b.pulled ==> b in s[..j + 1])
  }

  /** `Freshest` finds a row exactly for the months present. */
  lemma {:induction false} FreshestPresent(s: seq<Row>, m: int)
    ensures Freshest(s, m).None? <==> m !in Months(s)
  {
    if |s| > 0 {
      FreshestPresent(s[1..], m);
      HeadTail(s);
    }
  }

  /** The row `Freshest` finds belongs to the table and to the month asked for. */
  lemma {:induction false} FreshestFound(s: seq<Row>, m: int)
    ensures Freshest(s, m).Some? ==> Freshest(s, m).value in s && Freshest(s, m).value.month == m
  {
    if |s| > 0 {
      FreshestFound(s[1..], m);
      HeadTail(s);
    }
  }

  /** No row of the month is pulled later than the one `Freshest` finds. */
  lemma {:induction false} FreshestLatest(s: seq<Row>, m: int, x: Row)
    requires x in s && x.month == m
    ensures Freshest(s, m).Some? && x.pulled <= Freshest(s, m).value.pulled
  {
    HeadTail(s);
    if x != s[0] {
      FreshestLatest(s[1..], m, x);
    }
  }

  /** A row of the month pulled as late as the one `Freshest` finds comes no
      earlier than that row's first occurrence. */
  lemma {:induction false} FreshestFirstSeen(s: seq<Row>, m: int, j: int)
    requires 0 <= j < |s| && s[j].month == m
    requires Freshest(s, m).Some? && s[j].pulled == Freshest(s, m).value.pulled
    ensures Freshest(s, m).value in s[..j + 1]
  {
    var b := Freshest(s, m).value;
    if b == s[0] {
      assert s[..j + 1][0] == s[0];
    } else {
      var tail := s[1..];
      assert Freshest(s, m) == Freshest(tail, m);
      assert j > 0;
      assert s[j] == tail[j - 1];
      FreshestFirstSeen(tail, m, j - 1);
      assert tail[..j] == s[1..j + 1];
    }
  }

  /** `Freshest` finds a row exactly for the months present, and the row it
      finds is the first of the latest-pulled rows of that month. */
  lemma {:induction false} FreshestSpec(s: seq<Row>, m: int)
    ensures Freshest(s, m).None? <==> m !in Months(s)
    ensures Freshest(s, m).Some? ==> IsFreshest(s, m, Freshest(s, m).value)
  {
    FreshestPresent(s, m);
    FreshestFound(s, m);
    forall x | x in s && x.month == m
      ensures Freshest(s, m).Some? && x.pulled <= Freshest(s, m).value.pulled
    {
      FreshestLatest(s, m, x);
    }
    if Freshest(s, m).Some? {
      forall j | 0 <= j < |s| && s[j].month == m && s[j].pulled == Freshest(s, m).value.pulled
        ensures Freshest(s, m).value in s[..j + 1]
      {
        FreshestFirstSeen(s, m, j);
      }
    }
  }

  /** Membership in a non-empty table splits into its head and its tail. */
  lemma HeadTail(s: seq<Row>)
    requires |s| > 0
    ensures forall x :: x in s <==> x == s[0] || x in s[1..]
    ensures Months(s) == {s[0].month} + Months(s[1..])
  {
    assert s == [s[0]] + s[1..];
    MonthsAppend([s[0]], s[1..]);
  }

  /** Tables with the same multiset of rows have the same rows, months and length. */
  lemma SameRows(a: seq<Row>, b: seq<Row>)
    requires multiset(a) == multiset(b)
    ensures forall r :: r in a <==> r in b
    ensures Months(a) == Months(b)
    ensures |a| == |b|
  {
    assert forall r :: r in a <==> r in multiset(a);
    assert forall r :: r in b <==> r in multiset(b);
    assert |multiset(a)| == |multiset(b)|;
  }

  /** Every row of a table holding one extra row `x` is `x` or a row of `t`. */
  lemma RowsOfInsert(x: Row, t: seq<Row>, r: seq<Row>)
    requires multiset(r) == multiset(t) + multiset{x}
    ensures forall j :: 0 <= j < |r| ==> r[j] == x || r[j] in t
  {
    forall j | 0 <= j < |r|
      ensures r[j] == x || r[j] in t
    {
      assert r[j] in multiset(r);
    }
  }

  /** Prepending a row pulled no earlier than the first keeps a table latest-first. */
  lemma NewestFirstCons(a: Row, t: seq<Row>)
    requires NewestFirst(t)
    requires |t| == 0 || t[0].pulled <= a.pulled
    ensures NewestFirst([a] + t)
  {
    forall i, j | 0 <= i < j < |[a] + t|
      ensures ([a] + t)[i].pulled >= ([a] + t)[j].pulled
    {
      if i > 0 {
        assert ([a] + t)[i] == t[i - 1];
      }
      assert ([a] + t)[j] == t[j - 1];
    }
  }

  /** A latest-first table starts with its latest row, and its tail is latest-first. */
  lemma NewestFirstSplit(s: seq<Row>)
    requires NewestFirst(s) && |s| > 0
    ensures NewestFirst(s[1..])
    ensures forall r :: r in s ==> r.pulled <= s[0].pulled
  {
    forall r | r in s
      ensures r.pulled <= s[0].pulled
    {
      var k :| 0 <= k < |s| && s[k] == r;
    }
  }

  /** Prepending a row of an earlier month than the first keeps a table month-ascending. */
  lemma AscendingCons(a: Row, t: seq<Row>)
    requires StrictlyAscending(t)
    requires |t| == 0 || a.month < t[0].month
    ensures StrictlyAscending([a] + t)
  {
    forall i, j | 0 <= i < j < |[a] + t|
      ensures ([a] + t)[i].month < ([a] + t)[j].month
    {
      if i > 0 {
        assert ([a] + t)[i] == t[i - 1];
      }
      assert ([a] + t)[j] == t[j - 1];
    }
  }

  /** Prepending a row of a month the table lacks keeps its months distinct. */
  lemma DistinctCons(a: Row, t: seq<Row>)
    requires DistinctMonths(t)
    requires a.month !in Months(t)
    ensures DistinctMonths([a] + t)
  {
    forall i, j | 0 <= i < j < |[a] + t|
      ensures ([a] + t)[i].month != ([a] + t)[j].month
    {
      if i > 0 {
        assert ([a] + t)[i] == t[i - 1];
      }
      assert ([a] + t)[j] == t[j - 1];
      assert t[j - 1] in t;
    }
  }

  /** The head of a table without repeated months is the only row of its month. */
  lemma DistinctSplit(s: seq<Row>)
    requires DistinctMonths(s) && |s| > 0
    ensures DistinctMonths(s[1..])
    ensures s[0].month !in Months(s[1..])
  {
    forall y | y in s[1..]
      ensures y.month != s[0].month
    {
      var k :| 0 <= k < |s[1..]| && s[1..][k] == y;
      assert s[k + 1] == y;
    }
  }

  /** Picking is associative: candidates can be combined in any grouping. */
  lemma PickAssociative(a: Option<Row>, b: Option<Row>, c: Option<Row>)
    ensures Pick(a, Pick(b, c)) == Pick(Pick(a, b), c)
  {
  }

  /** The freshest row of a concatenation is the pick of the parts' freshest rows. */
  lemma {:induction false} FreshestAppend(a: seq<Row>, b: seq<Row>, m: int)
    ensures Freshest(a + b, m) == Pick(Freshest(a, m), Freshest(b, m))
  {
    if |a| == 0 {
      assert a + b == b;
    } else {
      assert (a + b)[1..] == a[1..] + b;
      FreshestAppend(a[1..], b, m);
      PickAssociative(Offer(a[0], m), Freshest(a[1..], m), Freshest(b, m));
    }
  }

  /** When `r` is the only row of its month, it is the freshest one. */
  lemma FreshestOfOnly(s: seq<Row>, r: Row)
    requires r in s
    requires forall x :: x in s && x.month == r.month ==> x == r
    ensures Freshest(s, r.month) == Some(r)
  {
    FreshestSpec(s, r.month);
  }

  /** A stable sort latest-first: a row is placed before the first row pulled no later. */
  function InsertByPulled(x: Row, s: seq<Row>): (r: seq<Row>)
    ensures multiset(r) == multiset(s) + multiset{x}
    ensures NewestFirst(s) ==> NewestFirst(r)
  {
    if |s| == 0 || x.pulled >= s[0].pulled then
      if NewestFirst(s) then NewestFirstCons(x, s); [x] + s else [x] + s
    else
      var rest := InsertByPulled(x, s[1..]);
      assert s == [s[0]] + s[1..];
      if NewestFirst(s) then
        NewestFirstSplit(s);
        RowsOfInsert(x, s[1..], rest);
        assert rest[0] == x || rest[0] in s;
        NewestFirstCons(s[0], rest);
        [s[0]] + rest
      else
        [s[0]] + rest
  }

  /** `Pull Date` sort, descending (pull.py:77); equal stamps keep their concatenation order. */
  function SortByPulled(s: seq<Row>): (r: seq<Row>)
    ensures multiset(r) == multiset(s)
    ensures NewestFirst(r)
  {
    if |s| == 0 then []
    else
      assert s == [s[0]] + s[1..];
      InsertByPulled(s[0], SortByPulled(s[1..]))
  }

  /** The first row of month `m`: what `drop_duplicates(keep='first')` keeps. */
  function FirstWithMonth(s: seq<Row>, m: int): (r: Option<Row>)
    ensures r.None? <==> m !in Months(s)
    ensures r.Some? ==> r.value in s && r.value.month == m
    ensures r.Some? ==> exists i :: 0 <= i < |s| && s[i] == r.value && forall j :: 0 <= j < i ==> s[j].month != m
  {
    if |s| == 0 then None
    else
      assert forall x :: x in s <==> x == s[0] || x in s[1..];
      if s[0].month == m then Some(s[0]) else FirstWithMonth(s[1..], m)
  }

  /** Inserting into a latest-first table puts the new row first among its
      month exactly when no row of that month is pulled later. */
  lemma {:induction false} FirstAfterInsert(x: Row, s: seq<Row>, m: int)
    requires NewestFirst(s)
    ensures FirstWithMonth(InsertByPulled(x, s), m) == Pick(Offer(x, m), FirstWithMonth(s, m))
  {
    if |s| == 0 {
      assert [x][1..] == [];
    } else if x.pulled >= s[0].pulled {
      assert ([x] + s)[1..] == s;
      NewestFirstSplit(s);
    } else {
      var rest := InsertByPulled(x, s[1..]);
      assert ([s[0]] + rest)[1..] == rest;
      NewestFirstSplit(s);
      FirstAfterInsert(x, s[1..], m);
    }
  }

  /** After the latest-first sort, the first row of each month is the freshest row. */
  lemma {:induction false} SortedFirstIsFreshest(s: seq<Row>, m: int)
    ensures FirstWithMonth(SortByPulled(s), m) == Freshest(s, m)
  {
    if |s| > 0 {
      SortedFirstIsFreshest(s[1..], m);
      FirstAfterInsert(s[0], SortByPulled(s[1..]), m);
    }
  }

  /** `drop_duplicates(subset=['Month'], keep='first')` (pull.py:78), with
      `seen` the months already kept further up. */
  function KeepFirstPerMonth(s: seq<Row>, seen: set<int>): (r: seq<Row>)
    ensures DistinctMonths(r)
    ensures Months(r) == Months(s) - seen
    ensures forall x :: x in r ==> x.month !in seen && FirstWithMonth(s, x.month) == Some(x)
  {
    if |s| == 0 then []
    else
      HeadTail(s);
      if s[0].month in seen then
        KeepFirstPerMonth(s[1..], seen)
      else
        var rest := KeepFirstPerMonth(s[1..], seen + {s[0].month});
        DistinctCons(s[0], rest);
        HeadTail([s[0]] + rest);
        assert ([s[0]] + rest)[1..] == rest;
        [s[0]] + rest
  }

  /** Inserts a row of a new month into a month-ascending table. */
  function InsertByMonth(x: Row, s: seq<Row>): (r: seq<Row>)
    requires StrictlyAscending(s)
    requires x.month !in Months(s)
    ensures StrictlyAscending(r)
    ensures multiset(r) == multiset(s) + multiset{x}
  {
    if |s| == 0 || x.month < s[0].month then
      AscendingCons(x, s);
      [x] + s
    else
      HeadTail(s);
      var rest := InsertByMonth(x, s[1..]);
      InsertBehindHead(x, s, rest);
      [s[0]] + rest
  }

  /** The row of a later month goes behind the head of a month-ascending table. */
  lemma InsertBehindHead(x: Row, s: seq<Row>, rest: seq<Row>)
    requires StrictlyAscending(s) && |s| > 0
    requires x.month !in Months(s) && x.month >= s[0].month
    requires StrictlyAscending(rest)
    requires multiset(rest) == multiset(s[1..]) + multiset{x}
    ensures StrictlyAscending([s[0]] + rest)
    ensures multiset([s[0]] + rest) == multiset(s) + multiset{x}
  {
    AscendingSplit(s);
    HeadTail(s);
    assert s == [s[0]] + s[1..];
    RowsOfInsert(x, s[1..], rest);
    assert s[0].month < rest[0].month;
    AscendingCons(s[0], rest);
  }

  /** `Month` sort, ascending (pull.py:79); after the dedup no two rows tie. */
  function SortByMonth(s: seq<Row>): (r: seq<Row>)
    requires DistinctMonths(s)
    ensures StrictlyAscending(r)
    ensures multiset(r) == multiset(s)
  {
    if |s| == 0 then []
    else
      DistinctSplit(s);
      var sorted := SortByMonth(s[1..]);
      SameRows(sorted, s[1..]);
      assert s == [s[0]] + s[1..];
      InsertByMonth(s[0], sorted)
  }

  /** A table without repeated months has as many rows as months. */
  lemma {:induction false} DistinctMonthsCount(s: seq<Row>)
    requires DistinctMonths(s)
    ensures |Months(s)| == |s|
  {
    if |s| > 0 {
      DistinctSplit(s);
      DistinctMonthsCount(s[1..]);
      HeadTail(s);
    }
  }

  /** A month-ascending table starts with its earliest month, and its tail
      holds exactly the rows of later months. */
  lemma AscendingSplit(s: seq<Row>)
    requires StrictlyAscending(s) && |s| > 0
    ensures StrictlyAscending(s[1..])
    ensures forall r :: r in s ==> s[0].month <= r.month
    ensures forall r :: r in s[1..] <==> r in s && s[0].month < r.month
  {
    HeadTail(s);
    forall r | r in s[1..]
      ensures s[0].month < r.month
    {
      var k :| 0 <= k < |s[1..]| && s[1..][k] == r;
      assert s[k + 1] == r;
    }
  }

  /** A table has as many months as rows exactly when no month repeats. */
  lemma {:induction false} DistinctIffCountsAgree(s: seq<Row>)
    ensures DistinctMonths(s) <==> |Months(s)| == |s|
  {
    if |s| > 0 {
      var tail := s[1..];
      DistinctIffCountsAgree(tail);
      HeadTail(s);
      MonthsAtMostRows(tail);
      if DistinctMonths(s) {
        DistinctMonthsCount(s);
      }
      if |Months(s)| == |s| {
        assert s[0].month !in Months(tail);
        DistinctCons(s[0], tail);
        assert s == [s[0]] + tail;
      }
    }
  }

  /** Two tables with the same rows are equal when both are month-ascending. */
  lemma {:induction false} AscendingUnique(a: seq<Row>, b: seq<Row>)
    requires StrictlyAscending(a) && StrictlyAscending(b)
    requires forall r :: r in a <==> r in b
    ensures a == b
  {
    if |a| > 0 || |b| > 0 {
      var x := if |a| > 0 then a[0] else b[0];
      assert x in a && x in b;
      AscendingSplit(a);
      AscendingSplit(b);
      assert a[0] in b && b[0] in a;
      assert a[0].month == b[0].month;
      assert a[0] == b[0];
      AscendingUnique(a[1..], b[1..]);
      assert a == [a[0]] + a[1..];
      assert b == [b[0]] + b[1..];
    }
  }

  /** The merged table and the number of rows the dedup dropped. */
  datatype Merged = Merged(rows: seq<Row>, duplicatesRemoved: int)

  /** pull.py:73-81: concatenate, sort latest-first, keep the first row per
      month, sort by month, and count the dropped rows. */
  function Combine(existing: seq<Row>, incoming: seq<Row>): (m: Merged)
    ensures StrictlyAscending(m.rows)
    ensures Months(m.rows) == Months(existing + incoming)
    ensures forall r :: r in m.rows ==> Freshest(existing + incoming, r.month) == Some(r)
    ensures m.duplicatesRemoved == |existing + incoming| - |Months(existing + incoming)|
    ensures m.duplicatesRemoved >= 0
  {
    var combined := existing + incoming;
    var newestFirst := SortByPulled(combined);
    var deduped := KeepFirstPerMonth(newestFirst, {});
    var ordered := SortByMonth(deduped);
    CombineFacts(combined, newestFirst, deduped, ordered);
    Merged(ordered, |combined| - |ordered|)
  }

  /** The facts `Combine` needs about its three intermediate tables. */
  lemma CombineFacts(combined: seq<Row>, newestFirst: seq<Row>, deduped: seq<Row>, ordered: seq<Row>)
    requires newestFirst == SortByPulled(combined)
    requires deduped == KeepFirstPerMonth(newestFirst, {})
    requires ordered == SortByMonth(deduped)
    ensures Months(ordered) == Months(combined)
    ensures forall r :: r in ordered ==> Freshest(combined, r.month) == Some(r)
    ensures |ordered| == |Months(combined)| <= |combined|
  {
    SameRows(ordered, deduped);
    SameRows(newestFirst, combined);
    forall r | r in ordered
      ensures Freshest(combined, r.month) == Some(r)
    {
      SortedFirstIsFreshest(combined, r.month);
    }
    DistinctMonthsCount(deduped);
    MonthsAtMostRows(combined);
  }

  /** A row is kept exactly when its month occurs and it is that month's freshest row. */
  lemma CombineKeeps(existing: seq<Row>, incoming: seq<Row>, r: Row)
    ensures r in Combine(existing, incoming).rows
        <==> r.month in Months(existing + incoming) && Freshest(existing + incoming, r.month) == Some(r)
  {
    var out := Combine(existing, incoming).rows;
    if r.month in Months(existing + incoming) && Freshest(existing + incoming, r.month) == Some(r) {
      assert r.month in Months(out);
      var y :| y in out && y.month == r.month;
      assert Freshest(existing + incoming, y.month) == Some(y);
    }
  }

  /** In a table without repeated months a row is the only one of its month. */
  lemma OnlyRowOfMonth(s: seq<Row>, r: Row)
    requires DistinctMonths(s)
    requires r in s
    ensures forall x :: x in s && x.month == r.month ==> x == r
  {
    forall x | x in s && x.month == r.month
      ensures x == r
    {
      var i :| 0 <= i < |s| && s[i] == x;
      var j :| 0 <= j < |s| && s[j] == r;
      assert i == j;
    }
  }

  /** Merging the same incoming rows a second time changes nothing: the
      freshest row of every month is already in the first result. */
  lemma CombineIdempotent(existing: seq<Row>, incoming: seq<Row>)
    ensures Combine(Combine(existing, incoming).rows, incoming).rows == Combine(existing, incoming).rows
  {
    var once := Combine(existing, incoming).rows;
    var twice := Combine(once, incoming).rows;
    MonthsAppend(once, incoming);
    MonthsAppend(existing, incoming);
    assert Months(once + incoming) == Months(existing + incoming);
    forall m
      ensures Freshest(once + incoming, m) == Freshest(existing + incoming, m)
    {
      FreshestSpec(once + incoming, m);
      FreshestSpec(existing + incoming, m);
      if m in Months(existing + incoming) {
        var y :| y in once && y.month == m;
        OnlyRowOfMonth(once, y);
        FreshestOfOnly(once, y);
        FreshestAppend(once, incoming, m);
        FreshestAppend(existing, incoming, m);
      }
    }
    forall r
      ensures r in twice <==> r in once
    {
      CombineKeeps(existing, incoming, r);
      CombineKeeps(once, incoming, r);
    }
    AscendingUnique(twice, once);
  }

  /** Rows of a saved table without repeated months whose month the incoming
      rows do not mention survive unchanged. */
  lemma UntouchedRowsSurvive(existing: seq<Row>, incoming: seq<Row>, r: Row)
    requires DistinctMonths(existing)
    requires r in existing
    requires r.month !in Months(incoming)
    ensures r in Combine(existing, incoming).rows
  {
    FreshestSpec(incoming, r.month);
    OnlyRowOfMonth(existing, r);
    FreshestOfOnly(existing, r);
    FreshestAppend(existing, incoming, r.month);
    MonthsAppend(existing, incoming);
    CombineKeeps(existing, incoming, r);
  }
}
