/** Whole raw reads: pages joined by continuation points, with any page sizes.

  A visit is one request: the table as it stands when the request is served and the page size asked
  for.  `RunPages` follows the cursors until a page hands out none.
  */
module HistoryRuns {
  import opened Wrappers
  import opened KeyOrder
  import opened HistoryQuery
  import opened HistoryPages
  import opened HistoryPaging

  datatype Visit = Visit(table: Table, pageSize: nat)
  datatype Outcome = Outcome(values: seq<DataValue>, completed: bool)

  function RunPages(c: RawRead, resume: Option<Ticks>, visits: seq<Visit>): Outcome
    decreases |visits|
  {
    if visits == [] then Outcome([], false)
    else
      var served := Serve(visits[0].table, c, resume, visits[0].pageSize);
      if served.next.None? then Outcome(served.page, true)
      else
        var rest := RunPages(c, served.next, visits[1..]);
        Outcome(served.page + rest.values, rest.completed)
  }

  ghost predicate PositivePages(visits: seq<Visit>) {
    forall i | 0 <= i < |visits| :: visits[i].pageSize >= 1
  }

  /** Serving the rows owed: a continuation point is handed out exactly when some are left. */
  lemma ServeOwed(t: Table, c: RawRead, resume: Option<Ticks>, pageSize: nat)
    requires WellFormed(c) && Resumable(c, resume) && pageSize >= 1
    ensures
      var owed := Owed(t, c, resume);
      var Served(page, next) := Serve(t, c, resume, pageSize);
      && page == TakeUpTo(owed, pageSize)
      && (next.Some? <==> |owed| > pageSize)
      && (next.Some? ==> next.value == owed[pageSize - 1].source && Resumable(c, next)
                         && Owed(t, c, next) == owed[pageSize..])
  {
    hide Owed, PageValues, PageHasMore, DueKeys, Due, TimesOf, Positions, Times, StartBound, EndBound, Beyond, PushedValues, Dedup;
    PageServesDue(t, c, resume, pageSize);
    if |Owed(t, c, resume)| > pageSize {
      CursorIsResumable(t, c, resume, pageSize);
      RestIsOwed(t, c, resume, pageSize);
    }
  }

  function Capacity(visits: seq<Visit>): nat {
    if visits == [] then 0 else visits[0].pageSize + Capacity(visits[1..])
  }

  /** Over an unchanged table the pages are a prefix of the one unpaged read, cut where the page
    sizes add up to; the read is over exactly when they add up to all of it. */
  lemma {:induction false} PagesAddUp(c: RawRead, t: Table, resume: Option<Ticks>, visits: seq<Visit>)
    requires WellFormed(c) && Resumable(c, resume) && PositivePages(visits)
    requires forall i | 0 <= i < |visits| :: visits[i].table == t
    ensures RunPages(c, resume, visits).values == TakeUpTo(Owed(t, c, resume), Capacity(visits))
    ensures RunPages(c, resume, visits).completed <==> visits != [] && Capacity(visits) >= |Owed(t, c, resume)|
    decreases |visits|
  {
    hide Owed, Serve;
    if visits != [] {
      var owed, n := Owed(t, c, resume), visits[0].pageSize;
      ServeOwed(t, c, resume, n);
      var Served(page, next) := Serve(t, c, resume, n);
      if next.Some? {
        PagesAddUp(c, t, next, visits[1..]);
        if visits[1..] == [] {
          assert RunPages(c, next, visits[1..]).values == [];
        }
        assert owed == owed[..n] + owed[n..];
      }
    }
  }

  /** A completed paged read equals the single read with a page large enough for everything. */
  lemma PagedEqualsUnpaged(c: RawRead, t: Table, visits: seq<Visit>, unpaged: nat)
    requires WellFormed(c) && PositivePages(visits)
    requires forall i | 0 <= i < |visits| :: visits[i].table == t
    requires RunPages(c, None, visits).completed
    requires unpaged >= 1 && Serve(t, c, None, unpaged).next.None?
    ensures RunPages(c, None, visits).values == Serve(t, c, None, unpaged).page
  {
    hide Owed, Serve;
    PagesAddUp(c, t, None, visits);
    ServeOwed(t, c, None, unpaged);
  }

  /** What that single read is: strictly in reading order, one row for each timestamp in the
    interval and for the nearest row at or beyond either end. */
  lemma UnpagedReadMeaning(c: RawRead, t: Table, unpaged: nat)
    requires WellFormed(c) && unpaged >= 1 && Serve(t, c, None, unpaged).next.None?
    ensures
      var values := Serve(t, c, None, unpaged).page;
      && Increasing(KeysOf(c, values)) && AreRows(t, c.node, values)
      && forall x :: x in TimesOf(values) <==>
           x in Times(t, c.node)
           && (InInterval(c.chronological, c.start, c.end, x)
               || (c.bounds && NearestOutside(c, t, x)))
  {
    hide Serve, StartBound, EndBound, Owed, Select, Ordered;
    ServeOwed(t, c, None, unpaged);
    OwedKeys(t, c, None);
    var values := Serve(t, c, None, unpaged).page;
    assert TimesOf(values) == Due(t, c, None);
    forall x
      ensures x in Due(t, c, None) <==>
        x in Times(t, c.node) && (InInterval(c.chronological, c.start, c.end, x) || (c.bounds && NearestOutside(c, t, x)))
    {
      BoundsAreNearest(c, t, x);
    }
  }

  /** The row that bounds the read from before its start, or from after its end. */
  ghost predicate NearestOutside(c: RawRead, t: Table, x: Ticks) {
    IsNearestBefore(c, t, x) || IsNearestAfter(c, t, x)
  }

  ghost predicate IsNearestBefore(c: RawRead, t: Table, x: Ticks) {
    At(c, x) <= At(c, c.start) && forall y | y in Times(t, c.node) && At(c, y) <= At(c, c.start) :: At(c, y) <= At(c, x)
  }

  ghost predicate IsNearestAfter(c: RawRead, t: Table, x: Ticks) {
    At(c, c.end) <= At(c, x) && forall y | y in Times(t, c.node) && At(c, c.end) <= At(c, y) :: At(c, x) <= At(c, y)
  }

  lemma BoundsAreNearest(c: RawRead, t: Table, x: Ticks)
    ensures x in TimesOf(StartBound(t, c, None)) || x in TimesOf(EndBound(t, c, false))
      <==> c.bounds && x in Times(t, c.node) && NearestOutside(c, t, x)
  {
    hide FetchBounds, Times, NearestOutside;
    NearestBefore(c, t, x);
    NearestAfter(c, t, x);
    assert NearestOutside(c, t, x) <==> IsNearestBefore(c, t, x) || IsNearestAfter(c, t, x) by {
      NearestEither(c, t, x);
    }
  }

  lemma NearestEither(c: RawRead, t: Table, x: Ticks)
    ensures NearestOutside(c, t, x) <==> IsNearestBefore(c, t, x) || IsNearestAfter(c, t, x)
  {
  }

  lemma NearestBefore(c: RawRead, t: Table, x: Ticks)
    ensures FetchBounds(t, c.node, c.start, c.chronological).Some? && FetchBounds(t, c.node, c.start, c.chronological).value.source == x
      <==> x in Times(t, c.node) && IsNearestBefore(c, t, x)
  {
    hide FetchBounds;
    var row := FetchBounds(t, c.node, c.start, c.chronological);
    assert forall y :: AtOrBeyond(c.start, c.chronological, y) <==> At(c, y) <= At(c, c.start);
    assert row.Some? ==> row.value.source in Times(t, c.node);
  }

  lemma NearestAfter(c: RawRead, t: Table, x: Ticks)
    ensures FetchBounds(t, c.node, c.end, !c.chronological).Some? && FetchBounds(t, c.node, c.end, !c.chronological).value.source == x
      <==> x in Times(t, c.node) && IsNearestAfter(c, t, x)
  {
    hide FetchBounds;
    var row := FetchBounds(t, c.node, c.end, !c.chronological);
    assert forall y :: AtOrBeyond(c.end, !c.chronological, y) <==> At(c, c.end) <= At(c, y);
    assert row.Some? ==> row.value.source in Times(t, c.node);
  }

  // ---- A table that changes between pages --------------------------------------------------

  /** Timestamps only move forward, however the table is rewritten between requests. */
  lemma {:induction false} OnlyForward(c: RawRead, resume: Option<Ticks>, visits: seq<Visit>)
    requires WellFormed(c) && Resumable(c, resume) && PositivePages(visits)
    ensures Increasing(KeysOf(c, RunPages(c, resume, visits).values))
    ensures AllBeyond(c, resume, RunPages(c, resume, visits).values)
    decreases |visits|
  {
    hide Owed, Serve, Due, DueKeys, IntervalTimes, Times, Increasing, Positions, TimesOf, StartBound, Beyond;
    if visits != [] {
      var t, n := visits[0].table, visits[0].pageSize;
      ServeOwed(t, c, resume, n);
      PageInOrder(t, c, resume, n);
      var Served(page, next) := Serve(t, c, resume, n);
      if next.Some? {
        OnlyForward(c, next, visits[1..]);
        JoinIncreasing(c, page, RunPages(c, next, visits[1..]).values);
      }
    } else {
      EmptyIncreases(c);
    }
  }

  ghost predicate AllBeyond(c: RawRead, resume: Option<Ticks>, values: seq<DataValue>) {
    forall v | v in values :: resume.None? || At(c, resume.value) < At(c, v.source)
  }

  /** Every value returned is a row of a table the read visited. */
  lemma {:induction false} ValuesWereStored(c: RawRead, resume: Option<Ticks>, visits: seq<Visit>, v: DataValue)
    requires WellFormed(c) && Resumable(c, resume) && PositivePages(visits)
    requires v in RunPages(c, resume, visits).values
    ensures exists i :: 0 <= i < |visits| && IsRow(visits[i].table, c.node, v)
    decreases |visits|
  {
    hide Owed, Serve, Due, DueKeys, IntervalTimes, Times, Increasing, Positions, TimesOf, StartBound, Beyond;
    var t, n := visits[0].table, visits[0].pageSize;
    ServeOwed(t, c, resume, n);
    OwedKeys(t, c, resume);
    var Served(page, next) := Serve(t, c, resume, n);
    if v in page {
      assert v in Owed(t, c, resume) && IsRow(visits[0].table, c.node, v);
    } else {
      ValuesWereStored(c, next, visits[1..], v);
      var i :| 0 <= i < |visits[1..]| && IsRow(visits[1..][i].table, c.node, v);
      assert visits[1..][i] == visits[i + 1];
    }
  }

  /** A row of the interval that was there at every visit of a completed read is returned. */
  lemma {:induction false} SteadyIsReturned(c: RawRead, resume: Option<Ticks>, visits: seq<Visit>, x: Ticks)
    requires WellFormed(c) && Resumable(c, resume) && PositivePages(visits)
    requires RunPages(c, resume, visits).completed && Steady(c, resume, visits, x)
    ensures x in TimesOf(RunPages(c, resume, visits).values)
    decreases |visits|
  {
    hide Owed, Serve, Due, DueKeys, IntervalTimes, Times, Increasing, Positions, StartBound, Beyond, Steady;
    var t, n := visits[0].table, visits[0].pageSize;
    ServeOwed(t, c, resume, n);
    var Served(page, next) := Serve(t, c, resume, n);
    SteadyIsDue(c, resume, visits, x);
    if next.Some? && At(c, next.value) < At(c, x) {
      SteadyTail(c, resume, visits, next.value, x);
      SteadyIsReturned(c, next, visits[1..], x);
    } else {
      PageReaches(t, c, resume, n, x);
    }
  }

  /** Reading while the table changes: nothing is returned twice, nothing is made up, and what stays
    put for the whole of a completed read is returned, exactly once. */
  lemma InterleavedRun(c: RawRead, visits: seq<Visit>)
    requires WellFormed(c) && PositivePages(visits)
    ensures
      var run := RunPages(c, None, visits);
      && Increasing(KeysOf(c, run.values))
      && (forall v | v in run.values :: exists i :: 0 <= i < |visits| && IsRow(visits[i].table, c.node, v))
      && (run.completed ==> forall x | Steady(c, None, visits, x) ::
           exists i :: 0 <= i < |run.values| && run.values[i].source == x
                       && forall j | 0 <= j < |run.values| && run.values[j].source == x :: j == i)
  {
    hide RunPages, Steady, IsRow;
    var run := RunPages(c, None, visits);
    OnlyForward(c, None, visits);
    forall v | v in run.values
      ensures exists i :: 0 <= i < |visits| && IsRow(visits[i].table, c.node, v)
    {
      ValuesWereStored(c, None, visits, v);
    }
    forall x | run.completed && Steady(c, None, visits, x)
      ensures exists i :: 0 <= i < |run.values| && run.values[i].source == x
                          && forall j | 0 <= j < |run.values| && run.values[j].source == x :: j == i
    {
      SteadyIsReturned(c, None, visits, x);
      var v :| v in run.values && v.source == x;
      var i :| 0 <= i < |run.values| && run.values[i] == v;
      OnlyOnce(c, run.values, i);
    }
  }

  lemma OnlyOnce(c: RawRead, values: seq<DataValue>, i: nat)
    requires Increasing(KeysOf(c, values)) && i < |values|
    ensures forall j | 0 <= j < |values| && values[j].source == values[i].source :: j == i
  {
    var keys := KeysOf(c, values);
    forall j | 0 <= j < |values| && j != i
      ensures values[j].source != values[i].source
    {
      assert if i < j then Less(keys[i], keys[j]) else Less(keys[j], keys[i]);
    }
  }

  ghost predicate IsRow(t: Table, node: NodeId, v: DataValue) {
    RowId(node, v.source) in t && v == RowAt(t, node, v.source)
  }

  /** A row of the interval, still ahead of the cursor, that every visited table holds. */
  ghost predicate Steady(c: RawRead, resume: Option<Ticks>, visits: seq<Visit>, x: Ticks) {
    && InInterval(c.chronological, c.start, c.end, x)
    && (resume.None? || At(c, resume.value) < At(c, x))
    && forall i | 0 <= i < |visits| :: RowId(c.node, x) in visits[i].table
  }

  lemma SteadyIsDue(c: RawRead, resume: Option<Ticks>, visits: seq<Visit>, x: Ticks)
    requires visits != [] && Steady(c, resume, visits, x)
    ensures x in Due(visits[0].table, c, resume)
  {
    hide StartBound, EndBound;
    var t := visits[0].table;
    assert RowId(c.node, x) in t;
    RowsAreTimes(t);
    assert x in Times(t, c.node);
  }

  lemma SteadyTail(c: RawRead, resume: Option<Ticks>, visits: seq<Visit>, last: Ticks, x: Ticks)
    requires visits != [] && Steady(c, resume, visits, x) && At(c, last) < At(c, x)
    ensures Steady(c, Some(last), visits[1..], x)
  {
  }

  lemma PageInOrder(t: Table, c: RawRead, resume: Option<Ticks>, n: nat)
    requires WellFormed(c) && Resumable(c, resume) && n >= 1
    ensures
      var page := TakeUpTo(Owed(t, c, resume), n);
      && Increasing(KeysOf(c, page)) && AllBeyond(c, resume, page)
      && (|page| == n ==> forall v | v in page :: At(c, v.source) <= At(c, page[n - 1].source))
  {
    hide Owed, DueKeys, Ordered, Times, StartBound, EndBound, Due, TimesOf, Positions;
    var owed := Owed(t, c, resume);
    var page := TakeUpTo(owed, n);
    OwedKeys(t, c, resume);
    var keys := KeysOf(c, owed);
    assert KeysOf(c, page) == keys[..|page|];
    forall v | v in page
      ensures resume.None? || At(c, resume.value) < At(c, v.source)
      ensures |page| == n ==> At(c, v.source) <= At(c, page[n - 1].source)
    {
      assert v in owed;
      OwedLiesBeyond(t, c, resume, v);
      var i :| 0 <= i < |page| && page[i] == v;
      assert |page| == n && i < n - 1 ==> Less(keys[i], keys[n - 1]);
    }
  }

  lemma OwedLiesBeyond(t: Table, c: RawRead, resume: Option<Ticks>, v: DataValue)
    requires Resumable(c, resume) && v in Owed(t, c, resume)
    ensures resume.None? || At(c, resume.value) < At(c, v.source)
  {
    hide Owed, DueKeys, Ordered, Times, StartBound, EndBound;
    OwedKeys(t, c, resume);
    assert v.source in TimesOf(Owed(t, c, resume));
    BoundIsRow(t, c, resume);
    NoStartBoundOnResume(t, c, resume);
  }

  lemma PageReaches(t: Table, c: RawRead, resume: Option<Ticks>, n: nat, x: Ticks)
    requires WellFormed(c) && n >= 1 && x in Due(t, c, resume)
    requires |Owed(t, c, resume)| <= n || At(c, x) <= At(c, Owed(t, c, resume)[n - 1].source)
    ensures x in TimesOf(TakeUpTo(Owed(t, c, resume), n))
  {
    hide Owed, DueKeys, Ordered, Times, StartBound, EndBound, Due, Positions;
    var owed := Owed(t, c, resume);
    OwedKeys(t, c, resume);
    var keys := KeysOf(c, owed);
    assert x in TimesOf(owed);
    assert forall j | n - 1 < j < |owed| :: Less(keys[n - 1], keys[j]);
    var v :| v in owed && v.source == x;
    var i :| 0 <= i < |owed| && owed[i] == v;
    assert keys[i] == KeyOf(c, v);
    assert TakeUpTo(owed, n)[i] == v;
  }

  lemma JoinIncreasing(c: RawRead, first: seq<DataValue>, second: seq<DataValue>)
    requires Increasing(KeysOf(c, first)) && Increasing(KeysOf(c, second))
    requires forall v, w | v in first && w in second :: At(c, v.source) < At(c, w.source)
    ensures Increasing(KeysOf(c, first + second))
  {
    var keys, n := KeysOf(c, first + second), |first|;
    forall i, j | 0 <= i < j < |keys|
      ensures Less(keys[i], keys[j])
    {
      if j < n {
        assert Less(KeysOf(c, first)[i], KeysOf(c, first)[j]);
      } else if i >= n {
        assert Less(KeysOf(c, second)[i - n], KeysOf(c, second)[j - n]);
      } else {
        assert first[i] in first && second[j - n] in second;
      }
    }
  }
}
