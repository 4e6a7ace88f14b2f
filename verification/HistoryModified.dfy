/** Paging through the log of superseded rows.

  Log rows are ordered by source timestamp, then modification time, then row id.  Reads of the log
  never run backwards and take no bounds.
  */
module HistoryModified {
  import opened Wrappers
  import opened KeyOrder
  import opened HistoryQuery
  import opened HistoryLedger

  datatype LogRead = LogRead(node: NodeId, start: Ticks, end: Ticks)

  function LogKey(r: LogRow): Key {
    Key(r.source, r.modified, r.rowid)
  }

  function LogKeys(rows: seq<LogRow>): seq<Key> {
    seq(|rows|, i requires 0 <= i < |rows| => LogKey(rows[i]))
  }

  function InRange(log: seq<LogRow>, m: LogRead): set<Key> {
    set r | r in log && InLogRange(r, m.node, m.start, m.end) :: LogKey(r)
  }

  function RowWith(log: seq<LogRow>, m: LogRead, k: Key): (r: LogRow)
    requires k in InRange(log, m)
    ensures r in log && InLogRange(r, m.node, m.start, m.end) && LogKey(r) == k
  {
    var last := log[|log| - 1];
    if LogKey(last) == k && InLogRange(last, m.node, m.start, m.end) then last
    else
      assert log == log[..|log| - 1] + [last];
      RowWith(log[..|log| - 1], m, k)
  }

  function RowsWith(log: seq<LogRow>, m: LogRead, keys: seq<Key>): (rows: seq<LogRow>)
    requires forall k | k in keys :: k in InRange(log, m)
    ensures LogKeys(rows) == keys
  {
    seq(|keys|, i requires 0 <= i < |keys| => RowWith(log, m, keys[i]))
  }

  /** The rows of the range beyond the cursor, in order. */
  function LogOwed(log: seq<LogRow>, m: LogRead, resume: Option<Key>): (rows: seq<LogRow>)
    ensures |rows| == |After(InRange(log, m), resume)|
  {
    RowsWith(log, m, Ordered(After(InRange(log, m), resume)))
  }

  datatype LogServed = LogServed(page: seq<LogRow>, next: Option<Key>)

  /** One page: query one row too many, cut it off, and resume after the last row kept. */
  function ServeLog(log: seq<LogRow>, m: LogRead, resume: Option<Key>, pageSize: nat): LogServed {
    var rows := TakeUpTo(LogOwed(log, m, resume), pageSize + 1);
    var page := TakeUpTo(rows, pageSize);
    LogServed(page, if |rows| > pageSize && page != [] then Some(LogKey(page[|page| - 1])) else None)
  }

  datatype LogVisit = LogVisit(log: seq<LogRow>, pageSize: nat)
  datatype LogOutcome = LogOutcome(rows: seq<LogRow>, completed: bool)

  function RunLogPages(m: LogRead, resume: Option<Key>, visits: seq<LogVisit>): LogOutcome
    decreases |visits|
  {
    if visits == [] then LogOutcome([], false)
    else
      var served := ServeLog(visits[0].log, m, resume, visits[0].pageSize);
      if served.next.None? then LogOutcome(served.page, true)
      else
        var rest := RunLogPages(m, served.next, visits[1..]);
        LogOutcome(served.page + rest.rows, rest.completed)
  }

  ghost predicate PositiveLogPages(visits: seq<LogVisit>) {
    forall i | 0 <= i < |visits| :: visits[i].pageSize >= 1
  }

  function LogCapacity(visits: seq<LogVisit>): nat {
    if visits == [] then 0 else visits[0].pageSize + LogCapacity(visits[1..])
  }

  lemma ServeLogOwed(log: seq<LogRow>, m: LogRead, resume: Option<Key>, pageSize: nat)
    requires pageSize >= 1
    ensures
      var owed := LogOwed(log, m, resume);
      var LogServed(page, next) := ServeLog(log, m, resume, pageSize);
      && page == TakeUpTo(owed, pageSize)
      && (next.Some? <==> |owed| > pageSize)
      && (next.Some? ==> next.value == LogKey(owed[pageSize - 1]) && LogOwed(log, m, next) == owed[pageSize..])
  {
    hide LogOwed, After, InRange;
    if |LogOwed(log, m, resume)| > pageSize {
      RestOfLog(log, m, resume, pageSize);
    }
  }

  lemma RestOfLog(log: seq<LogRow>, m: LogRead, resume: Option<Key>, n: nat)
    requires 1 <= n < |LogOwed(log, m, resume)|
    ensures LogOwed(log, m, Some(LogKey(LogOwed(log, m, resume)[n - 1]))) == LogOwed(log, m, resume)[n..]
  {
    hide Ordered, InRange, After, RowsWith;
    var all := InRange(log, m);
    var keys := Ordered(After(all, resume));
    AfterIsSubset(all, resume);
    assert LogKeys(RowsWith(log, m, keys))[n - 1] == keys[n - 1];
    AfterAfter(all, resume, n);
    SameKeysSameRows(log, m, keys, n);
  }

  lemma AfterIsSubset(s: set<Key>, resume: Option<Key>)
    ensures After(s, resume) <= s
  {
  }

  lemma AfterAfter(s: set<Key>, resume: Option<Key>, n: nat)
    requires 1 <= n < |After(s, resume)|
    ensures Ordered(After(s, Some(Ordered(After(s, resume))[n - 1]))) == Ordered(After(s, resume))[n..]
  {
    hide Ordered;
    var due := After(s, resume);
    var last := Ordered(due)[n - 1];
    assert last in Ordered(due) && last in due;
    assert After(due, Some(last)) == After(s, Some(last));
    ResumeAfterPage(due, n);
  }

  lemma SameKeysSameRows(log: seq<LogRow>, m: LogRead, keys: seq<Key>, n: nat)
    requires forall k | k in keys :: k in InRange(log, m)
    requires n <= |keys|
    ensures (forall k | k in keys[n..] :: k in InRange(log, m)) && RowsWith(log, m, keys[n..]) == RowsWith(log, m, keys)[n..]
  {
    assert forall k | k in keys[n..] :: k in keys;
    assert forall i | n <= i < |keys| :: keys[n..][i - n] == keys[i];
  }

  lemma LogOwedFacts(log: seq<LogRow>, m: LogRead, resume: Option<Key>)
    ensures Increasing(LogKeys(LogOwed(log, m, resume)))
    ensures forall r | r in LogOwed(log, m, resume) :: r in log && (resume.None? || Less(resume.value, LogKey(r)))
    ensures forall k | k in InRange(log, m) && (resume.None? || Less(resume.value, k)) :: k in LogKeys(LogOwed(log, m, resume))
  {
    hide Ordered, InRange, Increasing;
    var owed := LogOwed(log, m, resume);
    var keys := Ordered(After(InRange(log, m), resume));
    assert LogKeys(owed) == keys;
    forall r | r in owed
      ensures r in log && (resume.None? || Less(resume.value, LogKey(r)))
    {
      var i :| 0 <= i < |owed| && owed[i] == r;
      assert keys[i] in keys && owed[i] == RowWith(log, m, keys[i]);
    }
  }

  /** Over an unchanged log, pages of any sizes join up to the rows of the range, in order. */
  lemma {:induction false} LogPagesAddUp(m: LogRead, log: seq<LogRow>, resume: Option<Key>, visits: seq<LogVisit>)
    requires PositiveLogPages(visits) && forall i | 0 <= i < |visits| :: visits[i].log == log
    ensures RunLogPages(m, resume, visits).rows == TakeUpTo(LogOwed(log, m, resume), LogCapacity(visits))
    ensures RunLogPages(m, resume, visits).completed <==> visits != [] && LogCapacity(visits) >= |LogOwed(log, m, resume)|
    decreases |visits|
  {
    hide LogOwed, ServeLog;
    if visits != [] {
      var owed, n := LogOwed(log, m, resume), visits[0].pageSize;
      ServeLogOwed(log, m, resume, n);
      var LogServed(page, next) := ServeLog(log, m, resume, n);
      if next.Some? {
        LogPagesAddUp(m, log, next, visits[1..]);
        if visits[1..] == [] {
          assert RunLogPages(m, next, visits[1..]).rows == [];
        }
        assert owed == owed[..n] + owed[n..];
      }
    }
  }

  /** With distinct row ids nothing hides behind an equal key: the rows owed at the start of a read
    are exactly the log rows of the range, each once. */
  lemma LogReadMeaning(m: LogRead, log: seq<LogRow>)
    requires RowidsRise(log)
    ensures Increasing(LogKeys(LogOwed(log, m, None)))
    ensures forall r :: r in LogOwed(log, m, None) <==> r in log && InLogRange(r, m.node, m.start, m.end)
  {
    hide Ordered, LogOwed, Increasing;
    var owed := LogOwed(log, m, None);
    LogOwedFacts(log, m, None);
    forall r
      ensures r in owed <==> r in log && InLogRange(r, m.node, m.start, m.end)
    {
      if r in log && InLogRange(r, m.node, m.start, m.end) {
        assert LogKey(r) in InRange(log, m);
        var i :| 0 <= i < |owed| && LogKeys(owed)[i] == LogKey(r);
        assert owed[i] in owed;
        RowidIdentifies(log, owed[i], r);
      }
      if r in owed {
        OwedInRange(log, m, r);
      }
    }
  }

  lemma OwedInRange(log: seq<LogRow>, m: LogRead, r: LogRow)
    requires r in LogOwed(log, m, None)
    ensures InLogRange(r, m.node, m.start, m.end)
  {
    hide Ordered, InRange;
    var keys := Ordered(After(InRange(log, m), None));
    var i :| 0 <= i < |keys| && LogOwed(log, m, None)[i] == r;
    assert keys[i] in keys && r == RowWith(log, m, keys[i]);
  }

  lemma RowidIdentifies(log: seq<LogRow>, r: LogRow, s: LogRow)
    requires RowidsRise(log) && r in log && s in log && r.rowid == s.rowid
    ensures r == s
  {
    var i :| 0 <= i < |log| && log[i] == r;
    var j :| 0 <= j < |log| && log[j] == s;
  }

  /** Reading while the log changes: keys only move forward, every row was stored in a log the read
    visited, and a row kept throughout a completed read is returned. */
  lemma {:induction false} LogInterleavedRun(m: LogRead, resume: Option<Key>, visits: seq<LogVisit>)
    requires PositiveLogPages(visits)
    ensures
      var run := RunLogPages(m, resume, visits);
      && Increasing(LogKeys(run.rows))
      && (forall r | r in run.rows :: resume.None? || Less(resume.value, LogKey(r)))
      && (forall r | r in run.rows :: exists i :: 0 <= i < |visits| && r in visits[i].log)
      && (run.completed ==> forall k | SteadyKey(m, resume, visits, k) :: k in LogKeys(run.rows))
    decreases |visits|
  {
    hide LogOwed, ServeLog, InRange, LogKeys, Increasing, SteadyKey;
    if visits == [] {
      NoRowsIncrease();
    } else {
      var log, n := visits[0].log, visits[0].pageSize;
      ServeLogOwed(log, m, resume, n);
      LogPageFacts(log, m, resume, n);
      var LogServed(page, next) := ServeLog(log, m, resume, n);
      if next.Some? {
        LogInterleavedRun(m, next, visits[1..]);
        var rest := RunLogPages(m, next, visits[1..]);
        JoinRows(page, rest.rows);
        forall r | r in rest.rows
          ensures exists i :: 0 <= i < |visits| && r in visits[i].log
          ensures resume.None? || Less(resume.value, LogKey(r))
        {
          var i :| 0 <= i < |visits[1..]| && r in visits[1..][i].log;
          assert visits[1..][i] == visits[i + 1];
        }
        forall k | rest.completed && SteadyKey(m, resume, visits, k)
          ensures k in LogKeys(page + rest.rows)
        {
          SteadyTail(m, resume, visits, next.value, k);
        }
      } else {
        forall k | SteadyKey(m, resume, visits, k)
          ensures k in LogKeys(page)
        {
          SteadyTail(m, resume, visits, k, k);
        }
      }
      assert forall r | r in page :: r in visits[0].log;
    }
  }

  ghost predicate SteadyKey(m: LogRead, resume: Option<Key>, visits: seq<LogVisit>, k: Key) {
    (resume.None? || Less(resume.value, k)) && forall i | 0 <= i < |visits| :: k in InRange(visits[i].log, m)
  }

  lemma SteadyTail(m: LogRead, resume: Option<Key>, visits: seq<LogVisit>, last: Key, k: Key)
    requires visits != [] && SteadyKey(m, resume, visits, k)
    ensures k in InRange(visits[0].log, m) && (resume.None? || Less(resume.value, k))
    ensures Less(last, k) ==> SteadyKey(m, Some(last), visits[1..], k)
  {
    hide InRange;
  }

  lemma NoRowsIncrease()
    ensures Increasing(LogKeys([]))
  {
  }

  lemma LogPageFacts(log: seq<LogRow>, m: LogRead, resume: Option<Key>, n: nat)
    requires n >= 1
    ensures
      var owed := LogOwed(log, m, resume);
      var page := TakeUpTo(owed, n);
      && Increasing(LogKeys(page))
      && (forall r | r in page :: r in log && (resume.None? || Less(resume.value, LogKey(r))))
      && (|owed| > n ==> page != [] && forall r | r in page :: r == owed[n - 1] || Less(LogKey(r), LogKey(owed[n - 1])))
      && (forall k | k in InRange(log, m) && (resume.None? || Less(resume.value, k)) && (|owed| <= n || !Less(LogKey(owed[n - 1]), k)) ::
           k in LogKeys(page))
  {
    hide LogOwed, InRange;
    var owed := LogOwed(log, m, resume);
    var page := TakeUpTo(owed, n);
    var keys := LogKeys(owed);
    LogOwedFacts(log, m, resume);
    assert LogKeys(page) == keys[..|page|];
    forall r | r in page
      ensures r in owed && (|owed| > n ==> r == owed[n - 1] || Less(LogKey(r), LogKey(owed[n - 1])))
    {
      var i :| 0 <= i < |page| && page[i] == r;
      assert owed[i] in owed;
      assert i < n - 1 && |owed| > n ==> Less(keys[i], keys[n - 1]);
    }
    forall k | k in InRange(log, m) && (resume.None? || Less(resume.value, k)) && (|owed| <= n || !Less(LogKey(owed[n - 1]), k))
      ensures k in LogKeys(page)
    {
      assert |owed| > n ==> forall i | n <= i < |keys| :: Less(keys[n - 1], keys[i]);
      var i :| 0 <= i < |keys| && keys[i] == k;
      assert LogKeys(page)[i] == k;
    }
  }

  lemma JoinRows(first: seq<LogRow>, second: seq<LogRow>)
    requires Increasing(LogKeys(first)) && Increasing(LogKeys(second))
    requires forall r, s | r in first && s in second :: Less(LogKey(r), LogKey(s))
    ensures Increasing(LogKeys(first + second))
    ensures forall k :: k in LogKeys(first + second) <==> k in LogKeys(first) || k in LogKeys(second)
  {
    var n := |first|;
    assert LogKeys(first + second) == LogKeys(first) + LogKeys(second);
    var keys := LogKeys(first + second);
    forall i, j | 0 <= i < j < |keys|
      ensures Less(keys[i], keys[j])
    {
      if j < n {
        assert Less(LogKeys(first)[i], LogKeys(first)[j]);
      } else if i >= n {
        assert Less(LogKeys(second)[i - n], LogKeys(second)[j - n]);
      } else {
        assert first[i] in first && second[j - n] in second;
      }
    }
  }
}
