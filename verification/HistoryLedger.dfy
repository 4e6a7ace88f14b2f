/** The write side: a table of current rows and a log of the rows that writes supersede.

  Every write request is one transaction.  A clock reading is taken wherever the backend asks for
  the current time; the readings are inputs here.
  */
module HistoryLedger {
  import opened Wrappers
  import opened KeyOrder
  import opened HistoryQuery

  datatype ChangeKind = Replaced | Updated | Deleted

  datatype LogRow = LogRow(rowid: int, node: NodeId, source: Ticks, stored: Stored, change: ChangeKind, modified: Ticks)

  datatype Database = Database(current: Table, log: seq<LogRow>)

  datatype Action = Insert | Replace | Update | Remove

  datatype Status = GoodEntryInserted | GoodEntryReplaced | Good | BadEntryExists | BadNoEntryExists | BadNoData

  datatype NewValue = NewValue(source: Option<Ticks>, server: Option<Ticks>, status: Option<nat>, blob: Blob)

  /** The time as read for one value of a batch: in place of a missing timestamp, and for the log. */
  datatype Now = Now(source: Ticks, server: Ticks, logged: Ticks)

  function GetOr<T>(o: Option<T>, default: T): T {
    if o.Some? then o.value else default
  }

  function RowIdOf(node: NodeId, v: NewValue, now: Now): RowId {
    RowId(node, GetOr(v.source, now.source))
  }

  function StoredOf(v: NewValue, now: Now): Stored {
    Stored(GetOr(v.server, now.server), v.blob, GetOr(v.status, 0))
  }

  /** SQLite hands out one more than the largest row id, which is the last one appended. */
  function NextRowid(log: seq<LogRow>): int {
    if log == [] then 1 else log[|log| - 1].rowid + 1
  }

  function Append(log: seq<LogRow>, id: RowId, stored: Stored, change: ChangeKind, at: Ticks): seq<LogRow> {
    log + [LogRow(NextRowid(log), id.node, id.source, stored, change, at)]
  }

  /** Copy the current row into the log. */
  function Supersede(db: Database, id: RowId, change: ChangeKind, at: Ticks): Database
    requires id in db.current
  {
    db.(log := Append(db.log, id, db.current[id], change, at))
  }

  datatype Step = Step(db: Database, status: Status)

  function ApplyOne(db: Database, node: NodeId, action: Action, v: NewValue, now: Now): Step {
    var id, stored := RowIdOf(node, v, now), StoredOf(v, now);
    match action
    case Insert =>
      if id in db.current then Step(db, BadEntryExists)
      else Step(db.(current := db.current[id := stored]), GoodEntryInserted)
    case Replace =>
      if id in db.current then
        Step(Supersede(db, id, Replaced, now.logged).(current := db.current[id := stored]), GoodEntryReplaced)
      else Step(db, BadNoEntryExists)
    case Update =>
      if id in db.current then
        Step(Supersede(db, id, Updated, now.logged).(current := db.current[id := stored]), GoodEntryReplaced)
      else Step(db.(current := db.current[id := stored]), GoodEntryInserted)
    case Remove =>
      DeleteOne(db, id, now.logged)
  }

  function DeleteOne(db: Database, id: RowId, at: Ticks): Step {
    if id in db.current then Step(Supersede(db, id, Deleted, at).(current := db.current - {id}), Good)
    else Step(db, BadNoEntryExists)
  }

  datatype Batch = Batch(db: Database, statuses: seq<Status>)

  /** A batch is its values applied one after another, with one status each. */
  function ApplyAll(db: Database, node: NodeId, action: Action, values: seq<NewValue>, clock: nat -> Now): (b: Batch)
    ensures |b.statuses| == |values|
  {
    if values == [] then Batch(db, [])
    else
      var n := |values| - 1;
      var before := ApplyAll(db, node, action, values[..n], clock);
      var step := ApplyOne(before.db, node, action, values[n], clock(n));
      Batch(step.db, before.statuses + [step.status])
  }

  function DeleteEach(db: Database, node: NodeId, times: seq<Ticks>, clock: nat -> Ticks): (b: Batch)
    ensures |b.statuses| == |times|
  {
    if times == [] then Batch(db, [])
    else
      var n := |times| - 1;
      var before := DeleteEach(db, node, times[..n], clock);
      var step := DeleteOne(before.db, RowId(node, times[n]), clock(n));
      Batch(step.db, before.statuses + [step.status])
  }

  /** The rows of [start, end), in key order. */
  function RangeRows(t: Table, node: NodeId, start: Ticks, end: Ticks): seq<DataValue> {
    var times := RangeTimes(t, node, start, end);
    Select(t, node, true, times, |Positions(true, times)|)
  }

  function RangeTimes(t: Table, node: NodeId, start: Ticks, end: Ticks): set<Ticks> {
    set x | x in Times(t, node) && start <= x < end
  }

  function RangeIds(t: Table, node: NodeId, start: Ticks, end: Ticks): set<RowId> {
    set id | id in t && id.node == node && start <= id.source < end
  }

  function LogDeletions(log: seq<LogRow>, node: NodeId, rows: seq<DataValue>, clock: nat -> Ticks): seq<LogRow> {
    if rows == [] then log
    else
      var n := |rows| - 1;
      var v := rows[n];
      Append(LogDeletions(log, node, rows[..n], clock), RowId(node, v.source), Stored(v.server, v.blob, v.status), Deleted, clock(n))
  }

  function DeleteRange(db: Database, node: NodeId, start: Ticks, end: Ticks, clock: nat -> Ticks): Step {
    if start >= end then Step(db, BadNoData)
    else
      Step(Database(db.current - RangeIds(db.current, node, start, end),
                    LogDeletions(db.log, node, RangeRows(db.current, node, start, end), clock)),
           if RangeIds(db.current, node, start, end) != {} then Good else BadNoData)
  }

  predicate InLogRange(r: LogRow, node: NodeId, start: Ticks, end: Ticks) {
    r.node == node && start <= r.source < end
  }

  function Without(log: seq<LogRow>, node: NodeId, start: Ticks, end: Ticks): seq<LogRow> {
    if log == [] then []
    else
      var n := |log| - 1;
      Without(log[..n], node, start, end) + (if InLogRange(log[n], node, start, end) then [] else [log[n]])
  }

  function PurgeLog(db: Database, node: NodeId, start: Ticks, end: Ticks): Step {
    if start >= end then Step(db, BadNoData)
    else
      var kept := Without(db.log, node, start, end);
      Step(db.(log := kept), if |kept| < |db.log| then Good else BadNoData)
  }

  // ---- Requests and runs -------------------------------------------------------------------

  datatype Request =
    | WriteValues(node: NodeId, action: Action, values: seq<NewValue>, clock: nat -> Now)
    | DeleteAt(node: NodeId, times: seq<Ticks>, when: nat -> Ticks)
    | DeleteRaw(node: NodeId, start: Ticks, end: Ticks, when: nat -> Ticks)
    | DeleteModified(node: NodeId, start: Ticks, end: Ticks)

  function Execute(db: Database, r: Request): Batch {
    match r
    case WriteValues(node, action, values, clock) => ApplyAll(db, node, action, values, clock)
    case DeleteAt(node, times, when) => DeleteEach(db, node, times, when)
    case DeleteRaw(node, start, end, when) =>
      var step := DeleteRange(db, node, start, end, when);
      Batch(step.db, [step.status])
    case DeleteModified(node, start, end) =>
      var step := PurgeLog(db, node, start, end);
      Batch(step.db, [step.status])
  }

  function Run(db: Database, requests: seq<Request>): Database {
    if requests == [] then db
    else Execute(Run(db, requests[..|requests| - 1]), requests[|requests| - 1]).db
  }

  // ---- Conservation ------------------------------------------------------------------------

  datatype Held = Held(id: RowId, stored: Stored)

  ghost function HeldSet(t: Table): set<Held> {
    set id | id in t :: Held(id, t[id])
  }

  ghost function CurrentRows(t: Table): multiset<Held> {
    multiset(HeldSet(t))
  }

  ghost function LogRows(log: seq<LogRow>): multiset<Held> {
    if log == [] then multiset{}
    else
      var r := log[|log| - 1];
      LogRows(log[..|log| - 1]) + multiset{Held(RowId(r.node, r.source), r.stored)}
  }

  /** Every row the database still holds, current or superseded, counted. */
  ghost function Holdings(db: Database): multiset<Held> {
    CurrentRows(db.current) + LogRows(db.log)
  }

  /** The rows a batch of writes was told were stored. */
  ghost function Accepted(node: NodeId, values: seq<NewValue>, statuses: seq<Status>, clock: nat -> Now): multiset<Held>
    requires |values| == |statuses|
  {
    if values == [] then multiset{}
    else
      var n := |values| - 1;
      Accepted(node, values[..n], statuses[..n], clock)
      + (if statuses[n] in {GoodEntryInserted, GoodEntryReplaced}
         then multiset{Held(RowIdOf(node, values[n], clock(n)), StoredOf(values[n], clock(n)))} else multiset{})
  }

  ghost function AcceptedBy(db: Database, r: Request): multiset<Held> {
    match r
    case WriteValues(node, action, values, clock) =>
      Accepted(node, values, ApplyAll(db, node, action, values, clock).statuses, clock)
    case _ => multiset{}
  }

  /** The log rows an explicit delete of modified data throws away. */
  ghost function PurgedBy(db: Database, r: Request): multiset<Held> {
    match r
    case DeleteModified(node, start, end) =>
      if start >= end then multiset{} else LogRows(db.log) - LogRows(Without(db.log, node, start, end))
    case _ => multiset{}
  }

  ghost function AcceptedInRun(db: Database, requests: seq<Request>): multiset<Held> {
    if requests == [] then multiset{}
    else
      var front, last := requests[..|requests| - 1], requests[|requests| - 1];
      AcceptedInRun(db, front) + AcceptedBy(Run(db, front), last)
  }

  ghost function PurgedInRun(db: Database, requests: seq<Request>): multiset<Held> {
    if requests == [] then multiset{}
    else
      var front, last := requests[..|requests| - 1], requests[|requests| - 1];
      PurgedInRun(db, front) + PurgedBy(Run(db, front), last)
  }

  lemma DropRow(t: Table, id: RowId)
    requires id in t
    ensures CurrentRows(t - {id}) + multiset{Held(id, t[id])} == CurrentRows(t)
  {
    var rest := t - {id};
    forall h
      ensures h in HeldSet(t) <==> h in HeldSet(rest) + {Held(id, t[id])}
    {
      if h in HeldSet(t) && h.id != id {
        assert h.id in rest && h == Held(h.id, rest[h.id]);
      }
      if h in HeldSet(rest) {
        assert h.id in t;
      }
    }
    assert HeldSet(t) == HeldSet(rest) + {Held(id, t[id])};
    assert Held(id, t[id]) !in HeldSet(rest);
  }

  lemma StoreRow(t: Table, id: RowId, stored: Stored)
    ensures id !in t ==> CurrentRows(t[id := stored]) == CurrentRows(t) + multiset{Held(id, stored)}
    ensures id in t ==>
      CurrentRows(t[id := stored]) + multiset{Held(id, t[id])} == CurrentRows(t) + multiset{Held(id, stored)}
  {
    hide CurrentRows;
    DropRow(t[id := stored], id);
    assert t[id := stored] - {id} == t - {id};
    if id in t {
      DropRow(t, id);
    } else {
      assert t - {id} == t;
    }
  }

  lemma LogGains(log: seq<LogRow>, id: RowId, stored: Stored, change: ChangeKind, at: Ticks)
    ensures LogRows(Append(log, id, stored, change, at)) == LogRows(log) + multiset{Held(id, stored)}
  {
    var longer := Append(log, id, stored, change, at);
    assert longer[..|longer| - 1] == log;
  }

  /** Rows moved from one side to the other leave the total as it was. */
  lemma Balance<T>(a: multiset<T>, b: multiset<T>, c: multiset<T>, d: multiset<T>, e: multiset<T>)
    requires a + b == c + d
    ensures a + (e + b) == (c + e) + d
  {
    assert a + (e + b) == (a + b) + e;
    assert (c + e) + d == (c + d) + e;
  }

  lemma OneDeleteConserves(db: Database, id: RowId, at: Ticks)
    ensures Holdings(DeleteOne(db, id, at).db) == Holdings(db)
  {
    hide CurrentRows, LogRows;
    if id in db.current {
      LogGains(db.log, id, db.current[id], Deleted, at);
      DropRow(db.current, id);
      Balance(CurrentRows(db.current - {id}), multiset{Held(id, db.current[id])}, CurrentRows(db.current), multiset{}, LogRows(db.log));
    }
  }

  lemma OneWriteConserves(db: Database, node: NodeId, action: Action, v: NewValue, now: Now)
    ensures
      var step := ApplyOne(db, node, action, v, now);
      Holdings(step.db) == Holdings(db)
        + (if step.status in {GoodEntryInserted, GoodEntryReplaced}
           then multiset{Held(RowIdOf(node, v, now), StoredOf(v, now))} else multiset{})
  {
    hide CurrentRows, LogRows;
    var id, stored := RowIdOf(node, v, now), StoredOf(v, now);
    StoreRow(db.current, id, stored);
    OneDeleteConserves(db, id, now.logged);
    if id in db.current {
      LogGains(db.log, id, db.current[id], Replaced, now.logged);
      LogGains(db.log, id, db.current[id], Updated, now.logged);
      Balance(CurrentRows(db.current[id := stored]), multiset{Held(id, db.current[id])},
              CurrentRows(db.current), multiset{Held(id, stored)}, LogRows(db.log));
    } else {
      Balance(CurrentRows(db.current[id := stored]), multiset{}, CurrentRows(db.current), multiset{Held(id, stored)}, LogRows(db.log));
    }
  }

  lemma {:induction false} WritesConserve(db: Database, node: NodeId, action: Action, values: seq<NewValue>,
      clock: nat -> Now)
    ensures
      var b := ApplyAll(db, node, action, values, clock);
      Holdings(b.db) == Holdings(db) + Accepted(node, values, b.statuses, clock)
  {
    hide Holdings, ApplyOne;
    if values != [] {
      var n := |values| - 1;
      var before := ApplyAll(db, node, action, values[..n], clock);
      WritesConserve(db, node, action, values[..n], clock);
      OneWriteConserves(before.db, node, action, values[n], clock(n));
      assert ApplyAll(db, node, action, values, clock).statuses[..n] == before.statuses;
    }
  }

  lemma {:induction false} DeletesConserve(db: Database, node: NodeId, times: seq<Ticks>, clock: nat -> Ticks)
    ensures Holdings(DeleteEach(db, node, times, clock).db) == Holdings(db)
  {
    hide Holdings, DeleteOne;
    if times != [] {
      var n := |times| - 1;
      DeletesConserve(db, node, times[..n], clock);
      OneDeleteConserves(DeleteEach(db, node, times[..n], clock).db, RowId(node, times[n]), clock(n));
    }
  }

  // ---- Deleting a range moves its rows to the log ------------------------------------------

  ghost function HeldOf(node: NodeId, v: DataValue): Held {
    Held(RowId(node, v.source), Stored(v.server, v.blob, v.status))
  }

  ghost function HeldRows(node: NodeId, rows: seq<DataValue>): multiset<Held> {
    if rows == [] then multiset{}
    else HeldRows(node, rows[..|rows| - 1]) + multiset{HeldOf(node, rows[|rows| - 1])}
  }

  lemma {:induction false} LogDeletionsGains(log: seq<LogRow>, node: NodeId, rows: seq<DataValue>, clock: nat -> Ticks)
    ensures LogRows(LogDeletions(log, node, rows, clock)) == LogRows(log) + HeldRows(node, rows)
  {
    hide LogRows;
    if rows != [] {
      var n := |rows| - 1;
      var v := rows[n];
      LogDeletionsGains(log, node, rows[..n], clock);
      LogGains(LogDeletions(log, node, rows[..n], clock), RowId(node, v.source), Stored(v.server, v.blob, v.status), Deleted, clock(n));
    }
  }

  ghost predicate DistinctRows(t: Table, node: NodeId, rows: seq<DataValue>) {
    && (forall v | v in rows :: RowId(node, v.source) in t && v == RowAt(t, node, v.source))
    && (forall i, j | 0 <= i < j < |rows| :: rows[i].source != rows[j].source)
  }

  ghost function IdsOf(node: NodeId, rows: seq<DataValue>): set<RowId> {
    set v | v in rows :: RowId(node, v.source)
  }

  lemma {:induction false} DropRows(t: Table, node: NodeId, rows: seq<DataValue>)
    requires DistinctRows(t, node, rows)
    ensures CurrentRows(t - IdsOf(node, rows)) + HeldRows(node, rows) == CurrentRows(t)
  {
    hide CurrentRows;
    if rows == [] {
      assert t - IdsOf(node, rows) == t;
    } else {
      var n := |rows| - 1;
      var front, last := rows[..n], rows[n];
      DropRows(t, node, front);
      var id := RowId(node, last.source);
      assert last in rows && rows == front + [last];
      assert id !in IdsOf(node, front);
      assert IdsOf(node, rows) == IdsOf(node, front) + {id};
      DropRow(t - IdsOf(node, front), id);
      assert t - IdsOf(node, front) - {id} == t - IdsOf(node, rows);
    }
  }

  lemma RangeRowsAreDistinct(t: Table, node: NodeId, start: Ticks, end: Ticks)
    ensures DistinctRows(t, node, RangeRows(t, node, start, end))
  {
    hide Ordered, RangeTimes;
    var keys := RangeKeys(t, node, start, end);
    var rows := RangeRows(t, node, start, end);
    forall i, j | 0 <= i < j < |rows|
      ensures rows[i].source != rows[j].source
    {
      assert Less(keys[i], keys[j]);
    }
  }

  lemma RangeKeys(t: Table, node: NodeId, start: Ticks, end: Ticks) returns (keys: seq<Key>)
    ensures keys == Ordered(Positions(true, RangeTimes(t, node, start, end)))
    ensures forall k | k in keys :: k in Positions(true, Times(t, node))
    ensures RangeRows(t, node, start, end) == Rows(t, node, true, keys)
  {
    hide Ordered;
    PositionsOfSubset(true, RangeTimes(t, node, start, end), Times(t, node));
    keys := Ordered(Positions(true, RangeTimes(t, node, start, end)));
  }

  lemma RangeRowsCoverRange(t: Table, node: NodeId, start: Ticks, end: Ticks)
    ensures IdsOf(node, RangeRows(t, node, start, end)) == RangeIds(t, node, start, end)
  {
    hide Ordered, RangeRows;
    var times := RangeTimes(t, node, start, end);
    var keys := RangeKeys(t, node, start, end);
    var rows := RangeRows(t, node, start, end);
    forall id | id in RangeIds(t, node, start, end)
      ensures id in IdsOf(node, rows)
    {
      assert id.source in times;
      assert Position(true, id.source) in keys;
      var i :| 0 <= i < |keys| && keys[i] == Position(true, id.source);
      assert rows[i] in rows && rows[i].source == id.source;
    }
    forall v | v in rows
      ensures RowId(node, v.source) in RangeIds(t, node, start, end)
    {
      var i :| 0 <= i < |rows| && rows[i] == v;
      assert keys[i] in keys;
      var x := TimeAt(true, times, keys[i]);
    }
  }

  lemma RangeDeleteConserves(db: Database, node: NodeId, start: Ticks, end: Ticks, clock: nat -> Ticks)
    ensures Holdings(DeleteRange(db, node, start, end, clock).db) == Holdings(db)
  {
    hide CurrentRows, LogRows, RangeRows, RangeIds, IdsOf, HeldRows, DistinctRows;
    var rows := RangeRows(db.current, node, start, end);
    RangeRowsAreDistinct(db.current, node, start, end);
    RangeRowsCoverRange(db.current, node, start, end);
    DropRows(db.current, node, rows);
    LogDeletionsGains(db.log, node, rows, clock);
    Balance(CurrentRows(db.current - RangeIds(db.current, node, start, end)), HeldRows(node, rows), CurrentRows(db.current), multiset{}, LogRows(db.log));
  }

  lemma {:induction false} PurgeTakesAway(log: seq<LogRow>, node: NodeId, start: Ticks, end: Ticks)
    ensures LogRows(Without(log, node, start, end)) <= LogRows(log)
  {
    if log != [] {
      var n := |log| - 1;
      PurgeTakesAway(log[..n], node, start, end);
      var kept := Without(log[..n], node, start, end);
      assert (kept + [log[n]])[..|kept|] == kept;
      assert kept + [] == kept;
    }
  }

  lemma RequestConserves(db: Database, r: Request)
    ensures Holdings(Execute(db, r).db) + PurgedBy(db, r) == Holdings(db) + AcceptedBy(db, r)
  {
    hide CurrentRows, LogRows;
    match r
    case WriteValues(node, action, values, clock) => WritesConserve(db, node, action, values, clock);
    case DeleteAt(node, times, when) => DeletesConserve(db, node, times, when);
    case DeleteRaw(node, start, end, when) => RangeDeleteConserves(db, node, start, end, when);
    case DeleteModified(node, start, end) => PurgeTakesAway(db.log, node, start, end);
  }

  /** Over every run, nothing acknowledged is ever lost or counted twice: each row a client was told
    was inserted or replaced is either current, or in the log, or was purged from the log on request. */
  lemma {:induction false} RunConserves(db: Database, requests: seq<Request>)
    ensures Holdings(Run(db, requests)) + PurgedInRun(db, requests) == Holdings(db) + AcceptedInRun(db, requests)
  {
    hide Holdings, Execute, PurgedBy, AcceptedBy;
    if requests != [] {
      var front, last := requests[..|requests| - 1], requests[|requests| - 1];
      RunConserves(db, front);
      RequestConserves(Run(db, front), last);
      var h0, h1, h2 := Holdings(db), Holdings(Run(db, front)), Holdings(Run(db, requests));
      assert h2 + (PurgedInRun(db, front) + PurgedBy(Run(db, front), last))
          == (h2 + PurgedBy(Run(db, front), last)) + PurgedInRun(db, front);
      assert h1 + AcceptedBy(Run(db, front), last) + PurgedInRun(db, front)
          == (h1 + PurgedInRun(db, front)) + AcceptedBy(Run(db, front), last);
      assert h0 + AcceptedInRun(db, front) + AcceptedBy(Run(db, front), last)
          == h0 + (AcceptedInRun(db, front) + AcceptedBy(Run(db, front), last));
    }
  }

  // ---- The log only grows, and its row ids only rise ---------------------------------------

  ghost predicate RowidsRise(log: seq<LogRow>) {
    forall i, j | 0 <= i < j < |log| :: log[i].rowid < log[j].rowid
  }

  ghost predicate Extends(before: seq<LogRow>, after: seq<LogRow>) {
    before <= after && (RowidsRise(before) ==> RowidsRise(after))
  }

  lemma {:induction false} DeletionsExtendLog(log: seq<LogRow>, node: NodeId, rows: seq<DataValue>, clock: nat -> Ticks)
    ensures Extends(log, LogDeletions(log, node, rows, clock))
  {
    if rows != [] {
      DeletionsExtendLog(log, node, rows[..|rows| - 1], clock);
    }
  }

  lemma {:induction false} WritesExtendLog(db: Database, node: NodeId, action: Action, values: seq<NewValue>,
      clock: nat -> Now)
    ensures Extends(db.log, ApplyAll(db, node, action, values, clock).db.log)
  {
    if values != [] {
      WritesExtendLog(db, node, action, values[..|values| - 1], clock);
    }
  }

  lemma {:induction false} DeletesExtendLog(db: Database, node: NodeId, times: seq<Ticks>, clock: nat -> Ticks)
    ensures Extends(db.log, DeleteEach(db, node, times, clock).db.log)
  {
    if times != [] {
      DeletesExtendLog(db, node, times[..|times| - 1], clock);
    }
  }

  lemma {:induction false} WithoutKeepsOrder(log: seq<LogRow>, node: NodeId, start: Ticks, end: Ticks)
    requires RowidsRise(log)
    ensures RowidsRise(Without(log, node, start, end))
    ensures forall r :: r in Without(log, node, start, end) <==> r in log && !InLogRange(r, node, start, end)
  {
    if log != [] {
      var n := |log| - 1;
      var kept := Without(log[..n], node, start, end);
      WithoutKeepsOrder(log[..n], node, start, end);
      assert forall r :: r in log <==> r in log[..n] || r == log[n];
      forall r | r in kept
        ensures r.rowid < log[n].rowid
      {
        assert r in log[..n];
        var i :| 0 <= i < n && log[i] == r;
      }
    }
  }

  /** Only an explicit delete of modified data ever removes a log row, and then exactly the rows of
    its range; every other request leaves the old log as a prefix of the new one. */
  lemma LogOnlyGrows(db: Database, r: Request)
    requires RowidsRise(db.log)
    ensures RowidsRise(Execute(db, r).db.log)
    ensures !r.DeleteModified? ==> db.log <= Execute(db, r).db.log
    ensures r.DeleteModified? ==>
      forall x :: x in Execute(db, r).db.log <==> x in db.log && !(r.start < r.end && InLogRange(x, r.node, r.start, r.end))
  {
    hide RangeRows, RangeIds;
    match r
    case WriteValues(node, action, values, clock) => WritesExtendLog(db, node, action, values, clock);
    case DeleteAt(node, times, when) => DeletesExtendLog(db, node, times, when);
    case DeleteRaw(node, start, end, when) => DeletionsExtendLog(db.log, node, RangeRows(db.current, node, start, end), when);
    case DeleteModified(node, start, end) => WithoutKeepsOrder(db.log, node, start, end);
  }

  lemma {:induction false} RunKeepsRowids(db: Database, requests: seq<Request>)
    requires RowidsRise(db.log)
    ensures RowidsRise(Run(db, requests).log)
    ensures (forall i | 0 <= i < |requests| :: !requests[i].DeleteModified?) ==> db.log <= Run(db, requests).log
  {
    hide Execute;
    if requests != [] {
      var n := |requests| - 1;
      RunKeepsRowids(db, requests[..n]);
      LogOnlyGrows(Run(db, requests[..n]), requests[n]);
    }
  }

  // ---- What a batch leaves behind ----------------------------------------------------------

  /** The last value a batch was told it stored under a key. */
  ghost function LastAccepted(node: NodeId, values: seq<NewValue>, statuses: seq<Status>, clock: nat -> Now,
      id: RowId): Option<Stored>
    requires |values| == |statuses|
  {
    if values == [] then None
    else
      var n := |values| - 1;
      if statuses[n] in {GoodEntryInserted, GoodEntryReplaced} && RowIdOf(node, values[n], clock(n)) == id
      then Some(StoredOf(values[n], clock(n)))
      else LastAccepted(node, values[..n], statuses[..n], clock, id)
  }

  /** After inserts, replaces or updates every key holds the last value accepted for it, or what it
    held before; statuses and table agree, so no refused value is ever visible. */
  lemma {:induction false} LastAcceptedIsCurrent(db: Database, node: NodeId, action: Action, values: seq<NewValue>,
      clock: nat -> Now, id: RowId)
    requires !action.Remove?
    ensures
      var b := ApplyAll(db, node, action, values, clock);
      match LastAccepted(node, values, b.statuses, clock, id)
      case Some(stored) => id in b.db.current && b.db.current[id] == stored
      case None => (id in b.db.current <==> id in db.current) && (id in db.current ==> b.db.current[id] == db.current[id])
  {
    hide ApplyOne, StoredOf, RowIdOf;
    if values != [] {
      var n := |values| - 1;
      var before := ApplyAll(db, node, action, values[..n], clock);
      LastAcceptedIsCurrent(db, node, action, values[..n], clock, id);
      AcceptedIsStored(before.db, node, action, values[n], clock(n), id);
      assert ApplyAll(db, node, action, values, clock).statuses[..n] == before.statuses;
    }
  }

  lemma AcceptedIsStored(db: Database, node: NodeId, action: Action, v: NewValue, now: Now, id: RowId)
    requires !action.Remove?
    ensures
      var step := ApplyOne(db, node, action, v, now);
      if step.status in {GoodEntryInserted, GoodEntryReplaced} && RowIdOf(node, v, now) == id
      then id in step.db.current && step.db.current[id] == StoredOf(v, now)
      else (id in step.db.current <==> id in db.current) && (id in db.current ==> step.db.current[id] == db.current[id])
  {
    hide RowIdOf, StoredOf;
  }

  /** Each status says whether the key was occupied when its value's turn came. */
  lemma {:induction false} StatusTellsOccupancy(db: Database, node: NodeId, action: Action, values: seq<NewValue>,
      clock: nat -> Now, i: nat)
    requires i < |values|
    ensures
      var occupied := RowIdOf(node, values[i], clock(i)) in ApplyAll(db, node, action, values[..i], clock).db.current;
      ApplyAll(db, node, action, values, clock).statuses[i] ==
        match action
        case Insert => if occupied then BadEntryExists else GoodEntryInserted
        case Replace => if occupied then GoodEntryReplaced else BadNoEntryExists
        case Update => if occupied then GoodEntryReplaced else GoodEntryInserted
        case Remove => if occupied then Good else BadNoEntryExists
  {
    hide RowIdOf, StoredOf, Supersede;
    var n := |values| - 1;
    if i < n {
      StatusTellsOccupancy(db, node, action, values[..n], clock, i);
      assert values[..n][..i] == values[..i];
    }
  }
}
