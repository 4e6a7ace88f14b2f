/** The history backend: its tables, its continuation points, and the methods that change them.

  A page fetch and a write transaction are each one atomic step.  Continuation tokens stand for
  random UUIDs: a token once issued is never issued again.
  */
module HistoryBackend {
  import opened Wrappers
  import opened KeyOrder
  import opened HistoryQuery
  import opened HistoryPages
  import opened HistoryPaging
  import opened HistoryRuns
  import opened HistoryLedger
  import opened HistoryModified

  type Token = nat

  datatype ReadCursor = ReadCursor(
    node: NodeId, start: Ticks, end: Ticks, readModified: bool, chronological: bool, returnBounds: bool,
    lastSource: Ticks, lastModification: Ticks, lastRowid: int)

  datatype ModificationInfo = ModificationInfo(modified: Ticks, change: ChangeKind)

  datatype ReadResult = ReadResult(values: seq<DataValue>, infos: seq<ModificationInfo>, token: Option<Token>)

  datatype ReadError = BadContinuationPointInvalid

  /** A monotonic clock, in nanoseconds. */
  type Instant = int

  const CONTINUATION_POINT_MAX_AGE: int := 300_000_000_000

  datatype CachedContinuationPoint = CachedContinuationPoint(cursor: ReadCursor, createdAt: Instant)

  predicate Expired(cp: CachedContinuationPoint, now: Instant) {
    now - cp.createdAt >= CONTINUATION_POINT_MAX_AGE
  }

  /** The continuation points young enough at `now`. */
  function Pruned(points: map<Token, CachedContinuationPoint>, now: Instant): map<Token, CachedContinuationPoint> {
    map token | token in points && !Expired(points[token], now) :: points[token]
  }

  lemma PrunedTwice(points: map<Token, CachedContinuationPoint>, a: Instant, b: Instant)
    requires a <= b
    ensures Pruned(Pruned(points, a), b) == Pruned(points, b)
  {
  }

  /** When the call for a page starts, and when it stores its continuation point. */
  datatype PageTimes = PageTimes(start: Instant, done: Instant)

  ghost predicate Forward(clock: nat -> PageTimes) {
    forall i: nat :: clock(i).start <= clock(i).done <= clock(i + 1).start
  }

  /** The pause after page `i` outlives its continuation point: it lasts five minutes or more. */
  predicate TooLate(clock: nat -> PageTimes, i: nat) {
    clock(i + 1).start - clock(i).done >= 5 * 60 * 1_000_000_000
  }

  const READ_RAW_MODIFIED_UNBOUNDED_HARD_LIMIT: nat := 100_000

  function PageSize(numValuesPerNode: nat): (n: nat)
    ensures n >= 1
  {
    if numValuesPerNode == 0 then READ_RAW_MODIFIED_UNBOUNDED_HARD_LIMIT else numValuesPerNode
  }

  function RawOf(c: ReadCursor): RawRead {
    RawRead(c.node, c.start, c.end, c.chronological, c.returnBounds)
  }

  function LogReadOf(c: ReadCursor): LogRead {
    LogRead(c.node, c.start, c.end)
  }

  function FirstCursor(node: NodeId, start: Ticks, end: Ticks, readModified: bool, returnBounds: bool): ReadCursor {
    ReadCursor(node, start, end, readModified, start < end, returnBounds, start, 0, 0)
  }

  /** What every stored cursor satisfies: it can be resumed. */
  predicate CursorValid(c: ReadCursor) {
    WellFormed(RawOf(c)) && (!c.readModified ==> Resumable(RawOf(c), Some(c.lastSource)))
  }

  function ValueOf(r: LogRow): DataValue {
    DataValue(r.source, r.stored.server, r.stored.blob, r.stored.status)
  }

  function ValuesOf(rows: seq<LogRow>): seq<DataValue> {
    seq(|rows|, i requires 0 <= i < |rows| => ValueOf(rows[i]))
  }

  function InfosOf(rows: seq<LogRow>): seq<ModificationInfo> {
    seq(|rows|, i requires 0 <= i < |rows| => ModificationInfo(rows[i].modified, rows[i].change))
  }

  // ---- Stable sort by source timestamp -----------------------------------------------------

  function InsertByTime(sorted: seq<DataValue>, v: DataValue, ascending: bool): seq<DataValue> {
    if sorted == [] || Clock(ascending, sorted[|sorted| - 1].source) <= Clock(ascending, v.source) then sorted + [v]
    else InsertByTime(sorted[..|sorted| - 1], v, ascending) + [sorted[|sorted| - 1]]
  }

  function SortHistoricalValues(values: seq<DataValue>, ascending: bool): seq<DataValue> {
    if values == [] then []
    else InsertByTime(SortHistoricalValues(values[..|values| - 1], ascending), values[|values| - 1], ascending)
  }

  ghost predicate InTimeOrder(values: seq<DataValue>, ascending: bool) {
    forall i, j | 0 <= i < j < |values| :: Clock(ascending, values[i].source) <= Clock(ascending, values[j].source)
  }

  lemma {:induction false} InsertKeepsValues(sorted: seq<DataValue>, v: DataValue, ascending: bool)
    ensures multiset(InsertByTime(sorted, v, ascending)) == multiset(sorted) + multiset{v}
  {
    if sorted != [] {
      var n := |sorted| - 1;
      assert sorted == sorted[..n] + [sorted[n]];
      if Clock(ascending, sorted[n].source) > Clock(ascending, v.source) {
        InsertKeepsValues(sorted[..n], v, ascending);
      }
    }
  }

  lemma {:induction false} InsertKeepsOrder(sorted: seq<DataValue>, v: DataValue, ascending: bool)
    requires InTimeOrder(sorted, ascending)
    ensures InTimeOrder(InsertByTime(sorted, v, ascending), ascending)
    ensures forall w | w in InsertByTime(sorted, v, ascending) :: w == v || w in sorted
  {
    if sorted != [] && Clock(ascending, sorted[|sorted| - 1].source) > Clock(ascending, v.source) {
      var n := |sorted| - 1;
      InsertKeepsOrder(sorted[..n], v, ascending);
      var inserted := InsertByTime(sorted[..n], v, ascending);
      forall i | 0 <= i < |inserted|
        ensures Clock(ascending, inserted[i].source) <= Clock(ascending, sorted[n].source)
      {
        assert inserted[i] in inserted;
      }
    }
  }

  /** The sort orders by time and neither loses nor invents a value. */
  lemma {:induction false} SortMeaning(values: seq<DataValue>, ascending: bool)
    ensures InTimeOrder(SortHistoricalValues(values, ascending), ascending)
    ensures multiset(SortHistoricalValues(values, ascending)) == multiset(values)
  {
    hide InsertByTime, InTimeOrder;
    if values == [] {
      NothingToOrder(ascending);
    } else {
      var n := |values| - 1;
      SortMeaning(values[..n], ascending);
      InsertKeepsOrder(SortHistoricalValues(values[..n], ascending), values[n], ascending);
      InsertKeepsValues(SortHistoricalValues(values[..n], ascending), values[n], ascending);
      assert values == values[..n] + [values[n]];
    }
  }

  lemma NothingToOrder(ascending: bool)
    ensures InTimeOrder([], ascending)
  {
  }

  /** Values already in order come out as they went in. */
  lemma {:induction false} SortOfSorted(values: seq<DataValue>, ascending: bool)
    requires InTimeOrder(values, ascending)
    ensures SortHistoricalValues(values, ascending) == values
  {
    if values != [] {
      var n := |values| - 1;
      SortOfSorted(values[..n], ascending);
      assert n > 0 ==> values[..n][n - 1] == values[n - 1];
      assert values == values[..n] + [values[n]];
    }
  }

  lemma OwedInTimeOrder(t: Table, c: RawRead)
    ensures InTimeOrder(Owed(t, c, None), c.chronological)
  {
    hide Owed;
    OwedKeys(t, c, None);
    var owed := Owed(t, c, None);
    forall i, j | 0 <= i < j < |owed|
      ensures Clock(c.chronological, owed[i].source) <= Clock(c.chronological, owed[j].source)
    {
      assert Less(KeysOf(c, owed)[i], KeysOf(c, owed)[j]);
    }
  }

  // ---- Assembling one page -----------------------------------------------------------------

  method FetchRawModifiedValues(t: Table, c: RawRead, resume: Option<Ticks>, pageSize: nat)
    returns (values: seq<DataValue>, intervalHasMore: bool)
    ensures values == PushedValues(t, c, resume, pageSize)
    ensures intervalHasMore == (|Interval(t, c, resume, pageSize)| > pageSize)
  {
    hide FetchBounds, FetchInterval;
    values := [];
    if c.bounds && resume.None? {
      var bound := FetchBounds(t, c.node, c.start, c.chronological);
      if bound.Some? {
        values := values + [bound.value];
      }
    }
    assert values == StartBound(t, c, resume);
    var interval := FetchInterval(t, c.node, c.start, c.end, c.chronological, resume, pageSize + 1);
    intervalHasMore := |interval| > pageSize;
    values := values + interval;
    if c.bounds && !intervalHasMore {
      var bound := FetchBounds(t, c.node, c.end, !c.chronological);
      if bound.Some? {
        values := values + [bound.value];
      }
    }
    assert values == StartBound(t, c, resume) + interval + EndBound(t, c, intervalHasMore);
  }

  method DedupBySource(values: seq<DataValue>) returns (kept: seq<DataValue>)
    ensures kept == Dedup(values)
  {
    kept := [];
    var i := 0;
    while i < |values|
      invariant 0 <= i <= |values|
      invariant kept == Dedup(values[..i])
    {
      assert values[..i + 1][..i] == values[..i];
      if kept == [] || kept[|kept| - 1].source != values[i].source {
        kept := kept + [values[i]];
      }
      i := i + 1;
    }
    assert values[..i] == values;
  }

  method SortDedupAndTrimPage(values: seq<DataValue>, start: Ticks, end: Ticks, pageSize: nat)
    returns (page: seq<DataValue>, hasTrimmedValues: bool)
    ensures
      var kept := Dedup(SortHistoricalValues(values, start < end));
      page == TakeUpTo(kept, pageSize) && hasTrimmedValues == (|kept| > pageSize)
  {
    page := SortHistoricalValues(values, start < end);
    page := DedupBySource(page);
    hasTrimmedValues := |page| > pageSize;
    if hasTrimmedValues {
      page := page[..pageSize];
    }
  }

  method FetchRawModifiedPage(t: Table, c: RawRead, resume: Option<Ticks>, pageSize: nat)
    returns (page: seq<DataValue>, hasMore: bool)
    requires WellFormed(c) && Resumable(c, resume)
    ensures page == PageValues(t, c, resume, pageSize) && hasMore == PageHasMore(t, c, resume, pageSize)
    ensures page == TakeUpTo(Owed(t, c, resume), pageSize) && hasMore == (|Owed(t, c, resume)| > pageSize)
  {
    hide Owed, PushedValues, Dedup, Interval, SortHistoricalValues;
    var values, intervalHasMore := FetchRawModifiedValues(t, c, resume, pageSize);
    PageServesDue(t, c, resume, pageSize);
    assert InTimeOrder(values, c.chronological);
    SortOfSorted(values, c.chronological);
    var trimmed;
    page, trimmed := SortDedupAndTrimPage(values, c.start, c.end, pageSize);
    hasMore := intervalHasMore || trimmed;
  }

  // ---- The backend -------------------------------------------------------------------------

  class SqliteHistoryBackend {
    var db: Database
    var continuationPoints: map<Token, CachedContinuationPoint>
    var issued: Token

    ghost predicate Valid()
      reads this
    {
      && RowidsRise(db.log)
      && forall token | token in continuationPoints :: token < issued && CursorValid(continuationPoints[token].cursor)
    }

    constructor ()
      ensures Valid() && db == Database(map[], []) && continuationPoints == map[]
    {
      db, continuationPoints, issued := Database(map[], []), map[], 0;
    }

    method PruneContinuationPoints(now: Instant)
      requires Valid()
      modifies this`continuationPoints
      ensures Valid() && continuationPoints == Pruned(old(continuationPoints), now)
    {
      continuationPoints := map token | token in continuationPoints && !Expired(continuationPoints[token], now)
        :: continuationPoints[token];
    }

    method InsertContinuationPoint(cursor: ReadCursor, now: Instant) returns (token: Token)
      requires Valid() && CursorValid(cursor)
      modifies this
      ensures Valid() && db == old(db)
      ensures token !in old(continuationPoints) && token >= old(issued) && issued > old(issued)
      ensures continuationPoints == old(continuationPoints)[token := CachedContinuationPoint(cursor, now)]
    {
      token := issued;
      issued := issued + 1;
      continuationPoints := continuationPoints[token := CachedContinuationPoint(cursor, now)];
    }

    /** Read a page of raw or superseded rows, starting a read or resuming at a continuation point.
      Expired continuation points are dropped first.  A token is consumed by the call that presents it; an
      unknown one is refused. */
    method ReadRawModified(node: NodeId, start: Ticks, end: Ticks, numValuesPerNode: nat, returnBounds: bool,
                           isReadModified: bool, continuationPoint: Option<Token>, times: PageTimes)
      returns (result: Result<ReadResult, ReadError>)
      requires Valid()
      modifies this
      ensures Valid() && db == old(db) && issued >= old(issued)
      ensures result.Err? <==> continuationPoint.Some? && continuationPoint.value !in Pruned(old(continuationPoints), times.start)
      ensures result.Err? ==> continuationPoints == Pruned(old(continuationPoints), times.start)
      ensures continuationPoint.None? ==>
        var n := if numValuesPerNode == 0 then 100_000 else numValuesPerNode;
        && result.Ok?
        && result.value.values == if isReadModified then ValuesOf(ServeLog(db.log, LogRead(node, start, end), None, n).page)
             else Serve(db.current, RawRead(node, start, end, start < end, returnBounds), None, n).page
      ensures result.Ok? ==>
        var resumed, kept := continuationPoint.Some?, Pruned(old(continuationPoints), times.start);
        var cursor := if resumed then kept[continuationPoint.value].cursor
                      else FirstCursor(node, start, end, isReadModified, returnBounds);
        var left := if resumed then kept - {continuationPoint.value} else kept;
        var n := PageSize(numValuesPerNode);
        var ReadResult(values, infos, token) := result.value;
        && (token.None? ==> continuationPoints == left)
        && (token.Some? ==> token.value >= old(issued) && token.value !in old(continuationPoints))
        && (!cursor.readModified ==>
             var served := Serve(db.current, RawOf(cursor), if resumed then Some(cursor.lastSource) else None, n);
             && values == served.page && infos == []
             && (token.Some? <==> served.next.Some?)
             && (token.Some? ==> continuationPoints == left[token.value :=
                  CachedContinuationPoint(cursor.(lastSource := served.next.value), times.done)]))
        && (cursor.readModified ==>
             var served := ServeLog(db.log, LogReadOf(cursor),
                if resumed then Some(Key(cursor.lastSource, cursor.lastModification, cursor.lastRowid)) else None, n);
             && values == ValuesOf(served.page) && infos == InfosOf(served.page)
             && (token.Some? <==> served.next.Some?)
             && (token.Some? ==> continuationPoints == left[token.value := CachedContinuationPoint(
                  cursor.(lastSource := served.next.value.source, lastModification := served.next.value.modification,
                          lastRowid := served.next.value.rowid), times.done)]))
    {
      hide PageValues, PageHasMore, Owed, LogOwed, DueKeys, Due, Pruned;
      PruneContinuationPoints(times.start);
      var pageSize := PageSize(numValuesPerNode);
      var cursor, resumeAfter;
      if continuationPoint.Some? {
        if continuationPoint.value !in continuationPoints {
          return Err(BadContinuationPointInvalid);
        }
        cursor := continuationPoints[continuationPoint.value].cursor;
        continuationPoints := continuationPoints - {continuationPoint.value};
        resumeAfter := Some(cursor.lastSource);
      } else {
        cursor := FirstCursor(node, start, end, isReadModified, returnBounds);
        resumeAfter := None;
      }
      if cursor.readModified {
        var resume := if resumeAfter.Some? then Some(Key(resumeAfter.value, cursor.lastModification, cursor.lastRowid)) else None;
        var page, next := FetchModifiedPage(LogReadOf(cursor), resume, pageSize);
        if next.Some? {
          var key := next.value;
          var token := InsertContinuationPoint(
            cursor.(lastSource := key.source, lastModification := key.modification, lastRowid := key.rowid), times.done);
          result := Ok(ReadResult(ValuesOf(page), InfosOf(page), Some(token)));
        } else {
          result := Ok(ReadResult(ValuesOf(page), InfosOf(page), None));
        }
      } else {
        var page, hasMore := FetchRawModifiedPage(db.current, RawOf(cursor), resumeAfter, pageSize);
        if hasMore && page != [] {
          CursorIsResumable(db.current, RawOf(cursor), resumeAfter, pageSize);
          var token := InsertContinuationPoint(cursor.(lastSource := page[|page| - 1].source), times.done);
          result := Ok(ReadResult(page, [], Some(token)));
        } else {
          result := Ok(ReadResult(page, [], None));
        }
      }
    }

    method FetchModifiedPage(m: LogRead, resume: Option<Key>, pageSize: nat)
      returns (page: seq<LogRow>, next: Option<Key>)
      ensures LogServed(page, next) == ServeLog(db.log, m, resume, pageSize)
    {
      hide LogOwed;
      page := TakeUpTo(LogOwed(db.log, m, resume), pageSize + 1);
      var hasMore := |page| > pageSize;
      if hasMore {
        page := page[..pageSize];
      }
      next := if hasMore && page != [] then Some(LogKey(page[|page| - 1])) else None;
    }

    /** Collect all raw values of a range by following the backend's own continuation points, then
      put them in time order.  The loop ends.  It fails exactly when the pause after a page that left rows
      over outlives the continuation point; otherwise it has collected exactly the rows owed. */
    method CollectRawValues(node: NodeId, start: Ticks, end: Ticks, clock: nat -> PageTimes)
      returns (result: Result<seq<DataValue>, ReadError>, ghost pages: nat)
      requires Valid() && Forward(clock)
      modifies this
      ensures Valid() && db == old(db)
      ensures pages >= 1 && continuationPoints == Pruned(old(continuationPoints), clock(pages - 1).start)
      ensures
        var owed := Owed(db.current, RawRead(node, start, end, start < end, true), None);
        && (result.Err? <==> exists i: nat :: |owed| > (i + 1) * 100_000 && TooLate(clock, i))
        && (result.Ok? ==> result.value == SortHistoricalValues(owed, true) && (start < end ==> result.value == owed))
    {
      hide Owed, Serve, DueKeys, SortHistoricalValues, Pruned, TooLate, WaitingFor;
      ghost var c := RawRead(node, start, end, start < end, true);
      ghost var resume: Option<Ticks> := None;
      ghost var all := Owed(db.current, c, None);
      var rawValues: seq<DataValue> := [];
      var nextToken: Option<Token> := None;
      var more := true;
      var n := 0;
      while more
        invariant Valid() && db == old(db) && Resumable(c, resume) && issued >= old(issued)
        invariant more ==> rawValues + Owed(db.current, c, resume) == all && |rawValues| == n * 100_000
        invariant n > 0 && more ==> n * 100_000 < |all|
        invariant more ==> Awaits(FirstCursor(node, start, end, false, true), old(continuationPoints), nextToken, resume, clock, n)
        invariant !more ==> rawValues == all && n > 0 && |all| <= n * 100_000
        invariant !more ==> continuationPoints == Pruned(old(continuationPoints), clock(n - 1).start)
        invariant forall i: nat | i + 1 < n :: !TooLate(clock, i)
        decreases more, |Owed(db.current, c, resume)|
      {
        ServeOwed(db.current, c, resume, 100_000);
        var page := CollectPage(node, start, end, old(continuationPoints), nextToken, resume, clock, n);
        n := n + 1;
        if page.Err? {
          assert |all| > (n - 2 + 1) * 100_000 && TooLate(clock, n - 2);
          return Err(page.error), n;
        }
        rawValues := rawValues + page.value.values;
        nextToken := page.value.token;
        more := nextToken.Some?;
        resume := if more then Serve(db.current, c, resume, 100_000).next else None;
      }
      OwedInTimeOrder(db.current, c);
      if start < end {
        SortOfSorted(rawValues, true);
      }
      return Ok(SortHistoricalValues(rawValues, true)), n;
    }

    /** Before page `n`: nothing has happened yet, or the page before left its continuation point. */
    ghost predicate Awaits(first: ReadCursor, before: map<Token, CachedContinuationPoint>, token: Option<Token>,
                           resume: Option<Ticks>, clock: nat -> PageTimes, n: nat)
      reads this
    {
      if n == 0 then token.None? && resume.None? && continuationPoints == before
      else WaitingFor(before, continuationPoints, token, first, resume, clock(n - 1))
    }

    method CollectPage(node: NodeId, start: Ticks, end: Ticks, ghost before: map<Token, CachedContinuationPoint>,
                       token: Option<Token>, ghost resume: Option<Ticks>, clock: nat -> PageTimes, n: nat)
      returns (page: Result<ReadResult, ReadError>)
      requires Valid() && Forward(clock) && forall t | t in before :: t < issued
      requires Awaits(FirstCursor(node, start, end, false, true), before, token, resume, clock, n)
      modifies this
      ensures Valid() && db == old(db) && issued >= old(issued)
      ensures page.Err? <==> n > 0 && TooLate(clock, n - 1)
      ensures page.Err? || page.value.token.None? ==> continuationPoints == Pruned(before, clock(n).start)
      ensures page.Ok? ==>
        var served := Serve(db.current, RawRead(node, start, end, start < end, true), resume, 100_000);
        && page.value.values == served.page && (page.value.token.Some? <==> served.next.Some?)
        && (page.value.token.Some? ==>
              Awaits(FirstCursor(node, start, end, false, true), before, page.value.token, served.next, clock, n + 1))
    {
      hide Serve, Pruned, TooLate, ServeLog, WaitingFor;
      ghost var first := FirstCursor(node, start, end, false, true);
      if n > 0 {
        assert clock(n - 1).start <= clock(n - 1).done <= clock(n - 1 + 1).start;
        StillThere(before, continuationPoints, token, first, resume, clock, n - 1);
      }
      page := ReadRawModified(node, start, end, 100_000, true, false, token, clock(n));
      if page.Ok? && page.value.token.Some? {
        ghost var served := Serve(db.current, RawRead(node, start, end, start < end, true), resume, 100_000);
        NowWaiting(before, page.value.token.value, first, served.next.value, clock(n));
      }
    }

    /** One write transaction: the values are applied in turn, each against what the ones before it left. */
    method UpdateData(node: NodeId, action: Action, values: seq<NewValue>, clock: nat -> Now, now: Instant)
      returns (statuses: seq<Status>)
      requires Valid()
      modifies this`db, this`continuationPoints
      ensures Valid() && continuationPoints == Pruned(old(continuationPoints), now)
      ensures Batch(db, statuses) == ApplyAll(old(db), node, action, values, clock)
    {
      hide RowidsRise, CursorValid, ApplyOne, Pruned;
      PruneContinuationPoints(now);
      statuses := [];
      var i := 0;
      while i < |values|
        invariant 0 <= i <= |values|
        invariant continuationPoints == Pruned(old(continuationPoints), now)
        invariant Batch(db, statuses) == ApplyAll(old(db), node, action, values[..i], clock)
      {
        assert values[..i + 1][..i] == values[..i];
        var status := WriteRow(node, action, values[i], clock(i));
        statuses := statuses + [status];
        i := i + 1;
      }
      assert values[..i] == values;
      WritesExtendLog(old(db), node, action, values, clock);
    }

    method WriteRow(node: NodeId, action: Action, v: NewValue, now: Now) returns (status: Status)
      modifies this`db
      ensures Step(db, status) == ApplyOne(old(db), node, action, v, now)
    {
      var id, stored := RowIdOf(node, v, now), StoredOf(v, now);
      match action {
        case Insert =>
          if id in db.current {
            status := BadEntryExists;
          } else {
            db := db.(current := db.current[id := stored]);
            status := GoodEntryInserted;
          }
        case Replace =>
          if id in db.current {
            db := db.(log := Append(db.log, id, db.current[id], Replaced, now.logged));
            db := db.(current := db.current[id := stored]);
            status := GoodEntryReplaced;
          } else {
            status := BadNoEntryExists;
          }
        case Update =>
          if id in db.current {
            db := db.(log := Append(db.log, id, db.current[id], Updated, now.logged));
            db := db.(current := db.current[id := stored]);
            status := GoodEntryReplaced;
          } else {
            db := db.(current := db.current[id := stored]);
            status := GoodEntryInserted;
          }
        case Remove =>
          status := RemoveRow(id, now.logged);
      }
    }

    method RemoveRow(id: RowId, at: Ticks) returns (status: Status)
      modifies this`db
      ensures Step(db, status) == DeleteOne(old(db), id, at)
    {
      if id in db.current {
        db := db.(log := Append(db.log, id, db.current[id], Deleted, at));
        db := db.(current := db.current - {id});
        status := Good;
      } else {
        status := BadNoEntryExists;
      }
    }

    method DeleteAtTime(node: NodeId, reqTimes: seq<Ticks>, clock: nat -> Ticks, now: Instant)
      returns (statuses: seq<Status>)
      requires Valid()
      modifies this`db, this`continuationPoints
      ensures Valid() && continuationPoints == Pruned(old(continuationPoints), now)
      ensures Batch(db, statuses) == DeleteEach(old(db), node, reqTimes, clock)
    {
      hide RowidsRise, CursorValid, Pruned;
      PruneContinuationPoints(now);
      statuses := [];
      var i := 0;
      while i < |reqTimes|
        invariant 0 <= i <= |reqTimes|
        invariant continuationPoints == Pruned(old(continuationPoints), now)
        invariant Batch(db, statuses) == DeleteEach(old(db), node, reqTimes[..i], clock)
      {
        assert reqTimes[..i + 1][..i] == reqTimes[..i];
        var status := RemoveRow(RowId(node, reqTimes[i]), clock(i));
        statuses := statuses + [status];
        i := i + 1;
      }
      assert reqTimes[..i] == reqTimes;
      DeletesExtendLog(old(db), node, reqTimes, clock);
    }

    /** Delete [start, end): current rows are copied to the log row by row and then dropped together;
      log rows are dropped outright. */
    method DeleteRawModified(node: NodeId, isDeleteModified: bool, start: Ticks, end: Ticks, clock: nat -> Ticks,
                             now: Instant)
      returns (status: Status)
      requires Valid()
      modifies this`db, this`continuationPoints
      ensures Valid() && continuationPoints == Pruned(old(continuationPoints), now)
      ensures isDeleteModified ==> Step(db, status) == PurgeLog(old(db), node, start, end)
      ensures !isDeleteModified ==> Step(db, status) == DeleteRange(old(db), node, start, end, clock)
    {
      hide RangeRows, RowidsRise, CursorValid, Pruned;
      PruneContinuationPoints(now);
      var deletedCount := 0;
      if start >= end {
      } else if isDeleteModified {
        var kept := Without(db.log, node, start, end);
        WithoutKeepsOrder(db.log, node, start, end);
        WithoutIsShorter(db.log, node, start, end);
        deletedCount := |db.log| - |kept|;
        db := db.(log := kept);
      } else {
        var rows := RangeRows(db.current, node, start, end);
        var i := 0;
        while i < |rows|
          invariant 0 <= i <= |rows|
          invariant db.current == old(db.current) && continuationPoints == Pruned(old(continuationPoints), now)
          invariant db.log == LogDeletions(old(db.log), node, rows[..i], clock)
        {
          assert rows[..i + 1][..i] == rows[..i];
          var v := rows[i];
          db := db.(log := Append(db.log, RowId(node, v.source), Stored(v.server, v.blob, v.status), Deleted, clock(i)));
          i := i + 1;
        }
        assert rows[..i] == rows;
        DeletionsExtendLog(old(db.log), node, rows, clock);
        var doomed := RangeIds(db.current, node, start, end);
        deletedCount := |doomed|;
        db := db.(current := db.current - doomed);
      }
      status := if deletedCount > 0 then Good else BadNoData;
    }
  }

  /** Between two pages: the points there were, less those that expired, and the one to go on from. */
  ghost predicate WaitingFor(before: map<Token, CachedContinuationPoint>, now: map<Token, CachedContinuationPoint>,
                             token: Option<Token>, first: ReadCursor, resume: Option<Ticks>, times: PageTimes) {
    && token.Some? && resume.Some? && token.value !in before && token.value in now
    && now[token.value] == CachedContinuationPoint(first.(lastSource := resume.value), times.done)
    && now - {token.value} == Pruned(before, times.start)
  }

  lemma NowWaiting(before: map<Token, CachedContinuationPoint>, token: Token, first: ReadCursor, last: Ticks, times: PageTimes)
    requires token !in before
    ensures
      var cp := CachedContinuationPoint(first.(lastSource := last), times.done);
      WaitingFor(before, Pruned(before, times.start)[token := cp], Some(token), first, Some(last), times)
  {
    assert token !in Pruned(before, times.start);
  }

  /** What the next call finds: the point to go on from is gone exactly when the pause was too long. */
  lemma StillThere(before: map<Token, CachedContinuationPoint>, now: map<Token, CachedContinuationPoint>,
                   token: Option<Token>, first: ReadCursor, resume: Option<Ticks>, clock: nat -> PageTimes, i: nat)
    requires WaitingFor(before, now, token, first, resume, clock(i)) && clock(i).start <= clock(i + 1).start
    ensures
      var kept := Pruned(now, clock(i + 1).start);
      && token.Some? && resume.Some?
      && (token.value !in kept <==> TooLate(clock, i))
      && (token.value in kept ==> kept[token.value].cursor == first.(lastSource := resume.value))
      && kept - {token.value} == Pruned(before, clock(i + 1).start)
      && (token.value !in kept ==> kept == Pruned(before, clock(i + 1).start))
  {
    PrunedTwice(before, clock(i).start, clock(i + 1).start);
    assert Pruned(now, clock(i + 1).start) - {token.value} == Pruned(now - {token.value}, clock(i + 1).start);
  }

  lemma {:induction false} WithoutIsShorter(log: seq<LogRow>, node: NodeId, start: Ticks, end: Ticks)
    ensures |Without(log, node, start, end)| <= |log|
  {
    if log != [] {
      WithoutIsShorter(log[..|log| - 1], node, start, end);
    }
  }
}
