/** What writing does, told on the values of a batch, and how a reader finds it afterwards. */
module HistoryWrites {
  import opened Wrappers
  import opened KeyOrder
  import opened HistoryQuery
  import opened HistoryPages
  import opened HistoryPaging
  import opened HistoryRuns
  import opened HistoryLedger
  import opened HistoryModified
  import opened HistoryBackend

  // ---- The values of a batch -----------------------------------------------------------------

  /** A value is filed under its own time, or the time it was taken in. */
  function TimeOf(v: NewValue, now: Now): Ticks {
    match v.source
    case Some(time) => time
    case None => now.source
  }

  /** What is kept of a value: its own server time and status where it has them. */
  function Kept(v: NewValue, now: Now): Stored {
    Stored(match v.server case Some(time) => time case None => now.server, v.blob,
           match v.status case Some(code) => code case None => 0)
  }

  lemma KeysAgree(node: NodeId, v: NewValue, now: Now)
    ensures RowIdOf(node, v, now) == RowId(node, TimeOf(v, now)) && StoredOf(v, now) == Kept(v, now)
  {
  }

  /** The value was told it was stored, at this time. */
  ghost predicate StoredAt(values: seq<NewValue>, statuses: seq<Status>, clock: nat -> Now, i: nat, time: Ticks) {
    && i < |values| == |statuses| && TimeOf(values[i], clock(i)) == time
    && statuses[i] in {GoodEntryInserted, GoodEntryReplaced}
  }

  /** After inserts, replaces or updates the last value stored at a time is the one the table holds there,
    with its own timestamps and status. */
  lemma {:induction false} LastStoredIsHeld(db: Database, node: NodeId, action: Action, values: seq<NewValue>,
      clock: nat -> Now, i: nat, time: Ticks)
    requires !action.Remove?
    requires
      var statuses := ApplyAll(db, node, action, values, clock).statuses;
      StoredAt(values, statuses, clock, i, time) && forall j | i < j :: !StoredAt(values, statuses, clock, j, time)
    ensures
      var held := ApplyAll(db, node, action, values, clock).db.current;
      RowId(node, time) in held && held[RowId(node, time)] == Kept(values[i], clock(i))
  {
    hide ApplyOne, TimeOf, Kept;
    var n := |values| - 1;
    var before := ApplyAll(db, node, action, values[..n], clock);
    KeysAgree(node, values[n], clock(n));
    AcceptedIsStored(before.db, node, action, values[n], clock(n), RowId(node, time));
    var statuses := ApplyAll(db, node, action, values, clock).statuses;
    assert statuses[..n] == before.statuses;
    if i < n {
      assert !StoredAt(values, statuses, clock, n, time);
      forall j | i < j
        ensures !StoredAt(values[..n], before.statuses, clock, j, time)
      {
        assert !StoredAt(values, statuses, clock, j, time);
      }
      LastStoredIsHeld(db, node, action, values[..n], clock, i, time);
    }
  }

  ghost predicate NeverStored(values: seq<NewValue>, statuses: seq<Status>, clock: nat -> Now, time: Ticks) {
    forall i :: !StoredAt(values, statuses, clock, i, time)
  }

  lemma NeverBefore(values: seq<NewValue>, statuses: seq<Status>, clock: nat -> Now, time: Ticks)
    requires |values| == |statuses| > 0 && NeverStored(values, statuses, clock, time)
    ensures NeverStored(values[..|values| - 1], statuses[..|values| - 1], clock, time)
  {
    var n := |values| - 1;
    forall i
      ensures !StoredAt(values[..n], statuses[..n], clock, i, time)
    {
      assert !StoredAt(values, statuses, clock, i, time);
    }
  }

  /** What no value was stored at stays as it was. */
  lemma {:induction false} OthersAreKept(db: Database, node: NodeId, action: Action, values: seq<NewValue>,
      clock: nat -> Now, id: RowId)
    requires !action.Remove?
    requires id.node != node || NeverStored(values, ApplyAll(db, node, action, values, clock).statuses, clock, id.source)
    ensures
      var held := ApplyAll(db, node, action, values, clock).db.current;
      (id in held <==> id in db.current) && (id in held ==> held[id] == db.current[id])
  {
    hide ApplyOne, TimeOf, Kept;
    if values != [] {
      var n := |values| - 1;
      var before := ApplyAll(db, node, action, values[..n], clock);
      var statuses := ApplyAll(db, node, action, values, clock).statuses;
      assert statuses[..n] == before.statuses;
      KeysAgree(node, values[n], clock(n));
      AcceptedIsStored(before.db, node, action, values[n], clock(n), id);
      assert id.node != node || !StoredAt(values, statuses, clock, n, id.source);
      if id.node == node {
        NeverBefore(values, statuses, clock, id.source);
      }
      OthersAreKept(db, node, action, values[..n], clock, id);
    }
  }

  // ---- What the log tells ----------------------------------------------------------------------

  /** How many rows made way, going by the statuses. */
  function MadeWay(statuses: seq<Status>): nat {
    if statuses == [] then 0
    else MadeWay(statuses[..|statuses| - 1]) + if statuses[|statuses| - 1] in {GoodEntryReplaced, Good} then 1 else 0
  }

  function ChangeOf(action: Action): ChangeKind {
    match action
    case Remove => Deleted
    case Update => Updated
    case _ => Replaced
  }

  /** The log row about value `i` of a batch: what was there when its turn came. */
  ghost predicate TellsOf(r: LogRow, held: Table, node: NodeId, action: Action, v: NewValue, now: Now) {
    var id := RowId(node, TimeOf(v, now));
    && r.node == node && r.source == id.source && id in held && r.stored == held[id]
    && r.change == ChangeOf(action) && r.modified == now.logged
  }

  /** The log gains one row for each value before which something made way, in this order. */
  lemma {:induction false} LogGrowsByBatch(db: Database, node: NodeId, action: Action, values: seq<NewValue>, clock: nat -> Now)
    ensures
      var b := ApplyAll(db, node, action, values, clock);
      db.log <= b.db.log && |b.db.log| == |db.log| + MadeWay(b.statuses)
  {
    hide ApplyOne, TellsOf;
    if values != [] {
      var n := |values| - 1;
      var b, before := ApplyAll(db, node, action, values, clock), ApplyAll(db, node, action, values[..n], clock);
      LogGrowsByBatch(db, node, action, values[..n], clock);
      OneTells(before.db, node, action, values[n], clock(n));
      assert b.statuses[..n] == before.statuses;
    }
  }

  lemma {:induction false} LogIsKept(db: Database, node: NodeId, action: Action, values: seq<NewValue>,
      clock: nat -> Now, i: nat)
    requires i <= |values|
    ensures
      var b, before := ApplyAll(db, node, action, values, clock), ApplyAll(db, node, action, values[..i], clock);
      before.db.log <= b.db.log && before.statuses <= b.statuses
  {
    hide ApplyOne;
    if i < |values| {
      var n := |values| - 1;
      LogIsKept(db, node, action, values[..n], clock, i);
      OneTells(ApplyAll(db, node, action, values[..n], clock).db, node, action, values[n], clock(n));
      assert values[..n][..i] == values[..i];
    } else {
      assert values[..i] == values;
    }
  }

  lemma ApplyNext(db: Database, node: NodeId, action: Action, values: seq<NewValue>, clock: nat -> Now, i: nat)
    requires i < |values|
    ensures
      var before := ApplyAll(db, node, action, values[..i], clock);
      var step := ApplyOne(before.db, node, action, values[i], clock(i));
      ApplyAll(db, node, action, values[..i + 1], clock) == Batch(step.db, before.statuses + [step.status])
  {
    hide ApplyOne;
    assert values[..i + 1][..i] == values[..i];
  }

  /** That row is the one that was there when the value's turn came, with the kind and time of the change. */
  lemma LogTellsOfBatch(db: Database, node: NodeId, action: Action, values: seq<NewValue>, clock: nat -> Now, i: nat)
    requires i < |values| && ApplyAll(db, node, action, values, clock).statuses[i] in {GoodEntryReplaced, Good}
    ensures
      var b := ApplyAll(db, node, action, values, clock);
      var k, held := |db.log| + MadeWay(b.statuses[..i]), ApplyAll(db, node, action, values[..i], clock).db.current;
      k < |b.db.log| && TellsOf(b.db.log[k], held, node, action, values[i], clock(i))
  {
    hide ApplyAll, ApplyOne, TellsOf, MadeWay;
    var before := ApplyAll(db, node, action, values[..i], clock);
    ApplyNext(db, node, action, values, clock, i);
    LogIsKept(db, node, action, values, clock, i + 1);
    OneTells(before.db, node, action, values[i], clock(i));
    LogGrowsByBatch(db, node, action, values[..i], clock);
    assert ApplyAll(db, node, action, values, clock).statuses[..i] == before.statuses;
  }

  lemma OneTells(db: Database, node: NodeId, action: Action, v: NewValue, now: Now)
    ensures
      var step := ApplyOne(db, node, action, v, now);
      && db.log <= step.db.log
      && |step.db.log| == |db.log| + (if step.status in {GoodEntryReplaced, Good} then 1 else 0)
      && (step.status in {GoodEntryReplaced, Good} ==> TellsOf(step.db.log[|db.log|], db.current, node, action, v, now))
  {
    KeysAgree(node, v, now);
    hide TimeOf, RowIdOf, StoredOf;
  }

  // ---- Purging -----------------------------------------------------------------------------------

  /** Purging a range of the log: the rows outside it stay, in their order, and current rows are not
    touched; the status tells whether any were in it. */
  lemma PurgeMeaning(db: Database, node: NodeId, start: Ticks, end: Ticks)
    requires RowidsRise(db.log)
    ensures
      var step := PurgeLog(db, node, start, end);
      && step.db.current == db.current && RowidsRise(step.db.log)
      && (forall r :: r in step.db.log <==> r in db.log && !(r.node == node && start <= r.source < end))
      && (step.status == Good <==> exists r :: r in db.log && r.node == node && start <= r.source < end)
      && (step.status != Good ==> step == Step(db, BadNoData))
  {
    WithoutKeepsOrder(db.log, node, start, end);
    SomethingGone(db.log, node, start, end);
  }

  ghost predicate AnyInRange(log: seq<LogRow>, node: NodeId, start: Ticks, end: Ticks) {
    exists r :: r in log && r.node == node && start <= r.source < end
  }

  lemma AnyOfBoth(front: seq<LogRow>, last: LogRow, node: NodeId, start: Ticks, end: Ticks)
    ensures AnyInRange(front + [last], node, start, end)
       <==> AnyInRange(front, node, start, end) || (last.node == node && start <= last.source < end)
  {
    assert last in front + [last];
    if AnyInRange(front, node, start, end) {
      var r :| r in front && r.node == node && start <= r.source < end;
      assert r in front + [last];
    }
  }

  lemma {:induction false} SomethingGone(log: seq<LogRow>, node: NodeId, start: Ticks, end: Ticks)
    ensures |Without(log, node, start, end)| <= |log|
    ensures |Without(log, node, start, end)| < |log| <==> AnyInRange(log, node, start, end)
    ensures |Without(log, node, start, end)| == |log| ==> Without(log, node, start, end) == log
  {
    hide AnyInRange, Without;
    if log == [] {
      NoneInRange(node, start, end);
    } else {
      var n := |log| - 1;
      var front, last := log[..n], log[n];
      assert log == front + [last];
      SomethingGone(front, node, start, end);
      AnyOfBoth(front, last, node, start, end);
      WithoutLast(front, last, node, start, end);
    }
  }

  lemma NoneInRange(node: NodeId, start: Ticks, end: Ticks)
    ensures !AnyInRange([], node, start, end) && Without([], node, start, end) == []
  {
  }

  lemma WithoutLast(front: seq<LogRow>, last: LogRow, node: NodeId, start: Ticks, end: Ticks)
    ensures Without(front + [last], node, start, end)
      == if last.node == node && start <= last.source < end then Without(front, node, start, end)
         else Without(front, node, start, end) + [last]
  {
    assert (front + [last])[..|front|] == front;
  }

  // ---- Reading -----------------------------------------------------------------------------------

  /** A row of the table as a reader gets it. */
  ghost predicate ReadAs(t: Table, node: NodeId, v: DataValue) {
    RowId(node, v.source) in t && t[RowId(node, v.source)] == Stored(v.server, v.blob, v.status)
  }

  /** A complete read, on the table alone: times run from start to end; each value is the row of its
    time; and the times are those from start, included, to end, excluded, and with bounds the nearest
    at or beyond either. */
  lemma ReadMeaning(t: Table, node: NodeId, start: Ticks, end: Ticks, bounds: bool, unpaged: nat)
    requires unpaged >= 1 && Serve(t, RawRead(node, start, end, start < end, bounds), None, unpaged).next.None?
    ensures
      var values := Serve(t, RawRead(node, start, end, start < end, bounds), None, unpaged).page;
      && (forall i, j | 0 <= i < j < |values| ::
           if start < end then values[i].source < values[j].source else values[j].source < values[i].source)
      && (forall v | v in values :: ReadAs(t, node, v))
      && forall x :: (exists v :: v in values && v.source == x) <==>
           RowId(node, x) in t
           && ((if start < end then start <= x < end else end < x <= start)
               || (bounds && if start < end then Nearest(t, node, start, x, true) || Nearest(t, node, end, x, false)
                             else Nearest(t, node, start, x, false) || Nearest(t, node, end, x, true)))
  {
    hide Serve, Times, ReadAs, Nearest, NearestOutside;
    var c := RawRead(node, start, end, start < end, bounds);
    var values := Serve(t, c, None, unpaged).page;
    UnpagedReadMeaning(c, t, unpaged);
    RunsFromStartToEnd(c, values);
    RowsAreRead(t, node, values);
    forall x
      ensures (exists v :: v in values && v.source == x) <==> x in TimesOf(values)
      ensures x in Times(t, node) <==> RowId(node, x) in t
    {
      InTimesOf(values, x);
      TimesAreRows(t, node);
    }
    hide TimesOf;
    forall x
      ensures NearestOutside(c, t, x) <==>
        if start < end then Nearest(t, node, start, x, true) || Nearest(t, node, end, x, false)
        else Nearest(t, node, start, x, false) || Nearest(t, node, end, x, true)
    {
      NearestAgrees(c, t, x);
    }
  }

  lemma RunsFromStartToEnd(c: RawRead, values: seq<DataValue>)
    requires Increasing(KeysOf(c, values))
    ensures forall i, j | 0 <= i < j < |values| ::
      if c.chronological then values[i].source < values[j].source else values[j].source < values[i].source
  {
    forall i, j | 0 <= i < j < |values|
      ensures if c.chronological then values[i].source < values[j].source else values[j].source < values[i].source
    {
      assert Less(KeysOf(c, values)[i], KeysOf(c, values)[j]);
    }
  }

  lemma RowsAreRead(t: Table, node: NodeId, values: seq<DataValue>)
    requires AreRows(t, node, values)
    ensures forall v | v in values :: ReadAs(t, node, v)
  {
  }

  /** The row at `x` is the last at or before `time`, or the first at or after it. */
  ghost predicate Nearest(t: Table, node: NodeId, time: Ticks, x: Ticks, before: bool) {
    if before then x <= time && forall y | x < y <= time :: RowId(node, y) !in t
    else time <= x && forall y | time <= y < x :: RowId(node, y) !in t
  }

  lemma InTimesOf(values: seq<DataValue>, x: Ticks)
    ensures (exists v :: v in values && v.source == x) <==> x in TimesOf(values)
  {
  }

  lemma TimesAreRows(t: Table, node: NodeId)
    ensures forall x :: x in Times(t, node) <==> RowId(node, x) in t
  {
    RowsAreTimes(t);
  }

  lemma NearestAgrees(c: RawRead, t: Table, x: Ticks)
    ensures NearestOutside(c, t, x) <==>
      if c.chronological then Nearest(t, c.node, c.start, x, true) || Nearest(t, c.node, c.end, x, false)
      else Nearest(t, c.node, c.start, x, false) || Nearest(t, c.node, c.end, x, true)
  {
    TimesAreRows(t, c.node);
    hide Times;
  }

  /** A complete read of the log, on the log alone: exactly the rows of the range, by source time, then
    time of change, then row id. */
  lemma LogReadInOrder(m: LogRead, log: seq<LogRow>)
    requires RowidsRise(log)
    ensures
      var rows := LogOwed(log, m, None);
      && (forall r :: r in rows <==> r in log && r.node == m.node && m.start <= r.source < m.end)
      && forall i, j | 0 <= i < j < |rows| ::
           || rows[i].source < rows[j].source
           || (rows[i].source == rows[j].source
               && (rows[i].modified < rows[j].modified
                   || (rows[i].modified == rows[j].modified && rows[i].rowid < rows[j].rowid)))
  {
    LogReadMeaning(m, log);
    hide LogOwed;
    var rows := LogOwed(log, m, None);
    forall i, j | 0 <= i < j < |rows|
      ensures Less(LogKey(rows[i]), LogKey(rows[j]))
    {
      assert Less(LogKeys(rows)[i], LogKeys(rows)[j]);
    }
  }

  // ---- Writing, then reading -----------------------------------------------------------------------

  /** What was stored last at a time of the interval is read from it, as it was handed in. */
  lemma WrittenIsRead(db: Database, node: NodeId, action: Action, values: seq<NewValue>, clock: nat -> Now, i: nat,
      start: Ticks, end: Ticks, bounds: bool, unpaged: nat)
    requires !action.Remove? && i < |values|
    requires
      var b, time := ApplyAll(db, node, action, values, clock), TimeOf(values[i], clock(i));
      && StoredAt(values, b.statuses, clock, i, time) && (forall j | i < j :: !StoredAt(values, b.statuses, clock, j, time))
      && (if start < end then start <= time < end else end < time <= start)
      && unpaged >= 1 && Serve(b.db.current, RawRead(node, start, end, start < end, bounds), None, unpaged).next.None?
    ensures
      var t := ApplyAll(db, node, action, values, clock).db.current;
      var Stored(server, blob, status) := Kept(values[i], clock(i));
      DataValue(TimeOf(values[i], clock(i)), server, blob, status)
        in Serve(t, RawRead(node, start, end, start < end, bounds), None, unpaged).page
  {
    hide ApplyAll, Serve, Kept, TimeOf, StoredAt, Nearest;
    var time := TimeOf(values[i], clock(i));
    LastStoredIsHeld(db, node, action, values, clock, i, time);
    ReadMeaning(ApplyAll(db, node, action, values, clock).db.current, node, start, end, bounds, unpaged);
  }

  /** What made way for a value, or was deleted, is read from the log with the kind and time of change. */
  lemma SupersededIsRead(db: Database, node: NodeId, action: Action, values: seq<NewValue>, clock: nat -> Now, i: nat,
      start: Ticks, end: Ticks)
    requires RowidsRise(db.log) && i < |values|
    requires ApplyAll(db, node, action, values, clock).statuses[i] in {GoodEntryReplaced, Good}
    requires start <= TimeOf(values[i], clock(i)) < end
    ensures
      var held, id := ApplyAll(db, node, action, values[..i], clock).db.current, RowId(node, TimeOf(values[i], clock(i)));
      var rows := LogOwed(ApplyAll(db, node, action, values, clock).db.log, LogRead(node, start, end), None);
      && id in held
      && exists k: nat ::
           && k < |rows| && InfosOf(rows)[k] == ModificationInfo(clock(i).logged, ChangeOf(action))
           && ValuesOf(rows)[k] == DataValue(id.source, held[id].server, held[id].blob, held[id].status)
  {
    hide ApplyAll, LogOwed, RowidsRise, TimeOf, MadeWay;
    var b := ApplyAll(db, node, action, values, clock);
    WritesExtendLog(db, node, action, values, clock);
    LogTellsOfBatch(db, node, action, values, clock, i);
    var r := b.db.log[|db.log| + MadeWay(b.statuses[..i])];
    assert r in b.db.log;
    LogReadInOrder(LogRead(node, start, end), b.db.log);
    var rows := LogOwed(b.db.log, LogRead(node, start, end), None);
    var k :| 0 <= k < |rows| && rows[k] == r;
    assert ValuesOf(rows)[k] == ValueOf(r);
  }
}
