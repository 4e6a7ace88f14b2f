/** What deleting does, told on the keys that are deleted: the rows leave the table, and each of them is
  found in the log once, as it was and marked as deleted.
  */
module HistoryDeletes {
  import opened Wrappers
  import opened KeyOrder
  import opened HistoryQuery
  import opened HistoryLedger

  /** Key `i` was held, is deleted here for the first time, and this is the log row about it. */
  ghost predicate DeletedAt(held: Table, ids: seq<RowId>, at: nat -> Ticks, r: LogRow, i: nat) {
    && i < |ids| && ids[i] in held && ids[i] !in ids[..i]
    && r.node == ids[i].node && r.source == ids[i].source && r.stored == held[ids[i]]
    && r.change == Deleted && r.modified == at(i)
  }

  predicate About(r: LogRow, id: RowId) {
    r.node == id.node && r.source == id.source
  }

  /** The log rows are about the held ones among the keys, each once. */
  ghost predicate Told(held: Table, ids: seq<RowId>, at: nat -> Ticks, added: seq<LogRow>) {
    && (forall r | r in added :: exists i: nat :: DeletedAt(held, ids, at, r, i))
    && (forall id | id in ids && id in held :: exists r :: r in added && About(r, id))
    && (forall k, l | 0 <= k < l < |added| :: added[k].node != added[l].node || added[k].source != added[l].source)
  }

  /** From `before` to `after` the keys left the table for the log, and nothing else changed. */
  ghost predicate Moved(before: Database, ids: seq<RowId>, at: nat -> Ticks, after: Database) {
    && after.current == (map id | id in before.current && id !in ids :: before.current[id])
    && before.log <= after.log && Told(before.current, ids, at, after.log[|before.log|..])
  }

  /** Keys deleted one after another. */
  function DeleteKeys(db: Database, ids: seq<RowId>, at: nat -> Ticks): Database {
    if ids == [] then db
    else
      var n := |ids| - 1;
      DeleteOne(DeleteKeys(db, ids[..n], at), ids[n], at(n)).db
  }

  lemma {:induction false} KeysAreMoved(db: Database, ids: seq<RowId>, at: nat -> Ticks)
    ensures Moved(db, ids, at, DeleteKeys(db, ids, at))
  {
    hide Moved, DeleteOne;
    if ids == [] {
      NothingMoved(db, at);
    } else {
      var n := |ids| - 1;
      KeysAreMoved(db, ids[..n], at);
      assert ids == ids[..n] + [ids[n]];
      OneMoreMoved(db, ids[..n], at, DeleteKeys(db, ids[..n], at), ids[n]);
    }
  }

  lemma NothingMoved(db: Database, at: nat -> Ticks)
    ensures Moved(db, [], at, db)
  {
    assert db.log[|db.log|..] == [];
  }

  lemma OneMoreMoved(db: Database, ids: seq<RowId>, at: nat -> Ticks, before: Database, id: RowId)
    requires Moved(db, ids, at, before)
    ensures Moved(db, ids + [id], at, DeleteOne(before, id, at(|ids|)).db)
  {
    hide Told;
    var added, after := before.log[|db.log|..], DeleteOne(before, id, at(|ids|)).db;
    OneMoreGone(db.current, ids, id);
    if id in before.current {
      var r := after.log[|before.log|];
      OneMoreRow(db.log, before.log, r);
      OneMoreTold(db.current, ids, at, added, id, r);
    } else {
      NoMoreTold(db.current, ids, at, added, id);
    }
  }

  lemma OneMoreGone(t: Table, ids: seq<RowId>, id: RowId)
    ensures (map x | x in t && x !in ids :: t[x]) - {id} == map x | x in t && x !in ids + [id] :: t[x]
    ensures id !in t || id in ids ==> (map x | x in t && x !in ids :: t[x]) == map x | x in t && x !in ids + [id] :: t[x]
  {
  }

  lemma OneMoreRow(start: seq<LogRow>, before: seq<LogRow>, r: LogRow)
    requires start <= before
    ensures start <= before + [r] && (before + [r])[|start|..] == before[|start|..] + [r]
  {
  }

  lemma NothingTold(held: Table, at: nat -> Ticks)
    ensures Told(held, [], at, [])
  {
  }

  lemma StillDeletedAt(held: Table, ids: seq<RowId>, at: nat -> Ticks, id: RowId)
    ensures forall r, i: nat | DeletedAt(held, ids, at, r, i) :: DeletedAt(held, ids + [id], at, r, i)
  {
    forall r, i: nat | DeletedAt(held, ids, at, r, i)
      ensures DeletedAt(held, ids + [id], at, r, i)
    {
      assert (ids + [id])[..i] == ids[..i];
    }
  }

  lemma OneMoreTold(held: Table, ids: seq<RowId>, at: nat -> Ticks, added: seq<LogRow>, id: RowId, r: LogRow)
    requires Told(held, ids, at, added) && id in held && id !in ids
    requires About(r, id) && r.stored == held[id] && r.change == Deleted && r.modified == at(|ids|)
    ensures Told(held, ids + [id], at, added + [r])
  {
    StillDeletedAt(held, ids, at, id);
    assert (ids + [id])[..|ids|] == ids;
    assert DeletedAt(held, ids + [id], at, r, |ids|);
    forall k | 0 <= k < |added|
      ensures added[k].node != r.node || added[k].source != r.source
    {
      assert added[k] in added;
      var i: nat :| DeletedAt(held, ids, at, added[k], i);
      assert ids[i] in ids;
      assert ids[i] != id;
    }
    forall x | x in ids + [id] && x in held
      ensures exists q :: q in added + [r] && About(q, x)
    {
      if x in ids {
        var q :| q in added && About(q, x);
        assert q in added + [r];
      } else {
        assert r in added + [r];
      }
    }
  }

  lemma NoMoreTold(held: Table, ids: seq<RowId>, at: nat -> Ticks, added: seq<LogRow>, id: RowId)
    requires Told(held, ids, at, added) && (id !in held || id in ids)
    ensures Told(held, ids + [id], at, added)
  {
    StillDeletedAt(held, ids, at, id);
  }

  // ---- Deleting at given times ---------------------------------------------------------------

  function KeysAt(node: NodeId, times: seq<Ticks>): (ids: seq<RowId>)
    ensures |ids| == |times| && forall i | 0 <= i < |times| :: ids[i] == RowId(node, times[i])
  {
    seq(|times|, i requires 0 <= i < |times| => RowId(node, times[i]))
  }

  lemma {:induction false} DeleteEachIsDeleteKeys(db: Database, node: NodeId, times: seq<Ticks>, clock: nat -> Ticks)
    ensures DeleteEach(db, node, times, clock).db == DeleteKeys(db, KeysAt(node, times), clock)
  {
    if times != [] {
      var n := |times| - 1;
      DeleteEachIsDeleteKeys(db, node, times[..n], clock);
      assert KeysAt(node, times)[..n] == KeysAt(node, times[..n]);
    }
  }

  /** Deleting at given times: the rows at these times leave the table, and no others.  The log gains
    exactly these rows, each once, with the time of the first deletion. */
  lemma DeleteAtTimesMeaning(db: Database, node: NodeId, times: seq<Ticks>, clock: nat -> Ticks)
    ensures
      var b := DeleteEach(db, node, times, clock);
      && b.db.current == (map id | id in db.current && !(id.node == node && id.source in times) :: db.current[id])
      && db.log <= b.db.log && Told(db.current, KeysAt(node, times), clock, b.db.log[|db.log|..])
  {
    hide Told, DeleteEach, DeleteKeys, KeysAt;
    DeleteEachIsDeleteKeys(db, node, times, clock);
    KeysAreMoved(db, KeysAt(node, times), clock);
    KeysAtMembers(node, times);
  }

  /** The status is Good exactly for the first mention of a time at which there was a row. */
  lemma {:induction false} DeleteAtTimesStatuses(db: Database, node: NodeId, times: seq<Ticks>, clock: nat -> Ticks)
    ensures forall i | 0 <= i < |times| ::
      DeleteEach(db, node, times, clock).statuses[i]
        == if RowId(node, times[i]) in db.current && times[i] !in times[..i] then Good else BadNoEntryExists
  {
    hide Told;
    if times != [] {
      var n := |times| - 1;
      DeleteAtTimesStatuses(db, node, times[..n], clock);
      DeleteAtTimesMeaning(db, node, times[..n], clock);
      var before := DeleteEach(db, node, times[..n], clock).db;
      OneDeleteStatus(before, RowId(node, times[n]), clock(n));
      hide DeleteOne;
      forall i | 0 <= i < n
        ensures times[..n][..i] == times[..i]
      {
      }
    }
  }

  lemma OneDeleteStatus(db: Database, id: RowId, at: Ticks)
    ensures DeleteOne(db, id, at).status == if id in db.current then Good else BadNoEntryExists
  {
  }

  lemma KeysAtMembers(node: NodeId, times: seq<Ticks>)
    ensures forall id :: id in KeysAt(node, times) <==> id.node == node && id.source in times
  {
    forall id: RowId | id.node == node && id.source in times
      ensures id in KeysAt(node, times)
    {
      var i :| 0 <= i < |times| && times[i] == id.source;
      assert KeysAt(node, times)[i] == id;
    }
  }

  // ---- Removing by values --------------------------------------------------------------------

  /** The keys a batch is about: each value's own time, or the time it was taken in. */
  function KeysOfBatch(node: NodeId, values: seq<NewValue>, clock: nat -> Now): (ids: seq<RowId>)
    ensures |ids| == |values|
  {
    seq(|values|, i requires 0 <= i < |values| =>
      RowId(node, match values[i].source case Some(time) => time case None => clock(i).source))
  }

  lemma {:induction false} RemoveIsDeleteKeys(db: Database, node: NodeId, values: seq<NewValue>, clock: nat -> Now)
    ensures ApplyAll(db, node, Remove, values, clock).db
         == DeleteKeys(db, KeysOfBatch(node, values, clock), (i: nat) => clock(i).logged)
  {
    if values != [] {
      var n := |values| - 1;
      RemoveIsDeleteKeys(db, node, values[..n], clock);
      assert KeysOfBatch(node, values, clock)[..n] == KeysOfBatch(node, values[..n], clock);
    }
  }

  /** A batch of removals: the rows at the times of its values leave the table for the log, and no others. */
  lemma RemoveBatchMeaning(db: Database, node: NodeId, values: seq<NewValue>, clock: nat -> Now)
    ensures Moved(db, KeysOfBatch(node, values, clock), (i: nat) => clock(i).logged, ApplyAll(db, node, Remove, values, clock).db)
  {
    hide Moved;
    RemoveIsDeleteKeys(db, node, values, clock);
    KeysAreMoved(db, KeysOfBatch(node, values, clock), (i: nat) => clock(i).logged);
  }

  // ---- Deleting a range ----------------------------------------------------------------------

  /** The times of a range at which there are rows, ascending. */
  ghost predicate AreRangeTimes(t: Table, node: NodeId, start: Ticks, end: Ticks, times: seq<Ticks>) {
    && (forall i, j | 0 <= i < j < |times| :: times[i] < times[j])
    && forall x :: x in times <==> RowId(node, x) in t && start <= x < end
  }

  function SourcesOf(rows: seq<DataValue>): (times: seq<Ticks>)
    ensures |times| == |rows| && forall i | 0 <= i < |rows| :: times[i] == rows[i].source
  {
    seq(|rows|, i requires 0 <= i < |rows| => rows[i].source)
  }

  lemma RangeTimesAreListed(t: Table, node: NodeId, start: Ticks, end: Ticks)
    ensures AreRangeTimes(t, node, start, end, SourcesOf(RangeRows(t, node, start, end)))
  {
    hide Ordered, RangeRows, RangeTimes;
    var rows := RangeRows(t, node, start, end);
    var keys := RangeKeys(t, node, start, end);
    RangeRowsCoverRange(t, node, start, end);
    forall i, j | 0 <= i < j < |rows|
      ensures rows[i].source < rows[j].source
    {
      assert Less(keys[i], keys[j]);
    }
    forall x
      ensures x in SourcesOf(rows) <==> RowId(node, x) in t && start <= x < end
    {
      InRangeIds(t, node, start, end, x);
      if RowId(node, x) in IdsOf(node, rows) {
        var v :| v in rows && RowId(node, v.source) == RowId(node, x);
        var i :| 0 <= i < |rows| && rows[i] == v;
        assert SourcesOf(rows)[i] == x;
      }
      if x in SourcesOf(rows) {
        var i :| 0 <= i < |rows| && SourcesOf(rows)[i] == x;
        assert rows[i] in rows && RowId(node, rows[i].source) in IdsOf(node, rows);
      }
    }
  }

  lemma RowsHaveIds(node: NodeId, rows: seq<DataValue>)
    ensures rows == [] <==> IdsOf(node, rows) == {}
  {
    if rows != [] {
      assert rows[0] in rows && RowId(node, rows[0].source) in IdsOf(node, rows);
    }
  }

  lemma InRangeIds(t: Table, node: NodeId, start: Ticks, end: Ticks, x: Ticks)
    ensures RowId(node, x) in RangeIds(t, node, start, end) <==> RowId(node, x) in t && start <= x < end
  {
  }

  lemma {:induction false} DeletionsAreTold(t: Table, log: seq<LogRow>, node: NodeId, rows: seq<DataValue>, clock: nat -> Ticks)
    requires DistinctRows(t, node, rows)
    ensures log <= LogDeletions(log, node, rows, clock)
    ensures Told(t, KeysAt(node, SourcesOf(rows)), clock, LogDeletions(log, node, rows, clock)[|log|..])
  {
    hide Told;
    if rows == [] {
      assert KeysAt(node, SourcesOf(rows)) == [] && log[|log|..] == [];
      NothingTold(t, clock);
    } else {
      var n := |rows| - 1;
      var front := rows[..n];
      assert DistinctRows(t, node, front);
      DeletionsAreTold(t, log, node, front, clock);
      var before, after := LogDeletions(log, node, front, clock), LogDeletions(log, node, rows, clock);
      var ids, id := KeysAt(node, SourcesOf(front)), RowId(node, rows[n].source);
      assert KeysAt(node, SourcesOf(rows)) == ids + [id];
      OneMoreRow(log, before, after[|before|]);
      assert rows[n] in rows;
      OneMoreTold(t, ids, clock, before[|log|..], id, after[|before|]);
    }
  }

  /** Deleting a range is deleting at the times of its rows in ascending order.  So the rows of the range
    leave the table for the log; the status tells whether there were any. */
  lemma DeleteRangeMeaning(db: Database, node: NodeId, start: Ticks, end: Ticks, clock: nat -> Ticks)
    ensures
      var step, times := DeleteRange(db, node, start, end, clock), SourcesOf(RangeRows(db.current, node, start, end));
      && AreRangeTimes(db.current, node, start, end, times)
      && (start >= end ==> step == Step(db, BadNoData))
      && (start < end ==> Moved(db, KeysAt(node, times), clock, step.db))
      && (step.status == Good <==> exists id :: id in db.current && id.node == node && start <= id.source < end)
      && (step.status != Good ==> step == Step(db, BadNoData))
  {
    hide RangeRows, Told, DistinctRows;
    var rows := RangeRows(db.current, node, start, end);
    var times := SourcesOf(rows);
    RangeTimesAreListed(db.current, node, start, end);
    RangeRowsAreDistinct(db.current, node, start, end);
    RangeRowsCoverRange(db.current, node, start, end);
    DeletionsAreTold(db.current, db.log, node, rows, clock);
    KeysAtMembers(node, times);
    var gone := RangeIds(db.current, node, start, end);
    forall id | id in db.current
      ensures id in gone <==> id in KeysAt(node, times)
    {
      assert id == RowId(id.node, id.source);
    }
    var step := DeleteRange(db, node, start, end, clock);
    if start < end {
      assert Moved(db, KeysAt(node, times), clock, step.db);
      if gone == {} {
        RowsHaveIds(node, rows);
        assert step.db.current == db.current;
      }
    }
  }
}
