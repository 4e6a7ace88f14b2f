/** A page serves what its reader is owed next, and its cursor leaves the rest. */
module HistoryPaging {
  import opened Wrappers
  import opened KeyOrder
  import opened HistoryQuery
  import opened HistoryPages

  // ---- The page the backend serves ---------------------------------------------------------

  lemma PageParts(t: Table, c: RawRead, resume: Option<Ticks>, pageSize: nat)
    requires WellFormed(c) && Resumable(c, resume)
    ensures
      var interval := Interval(t, c, resume, pageSize);
      Parts(c, StartBound(t, c, resume), interval, EndBound(t, c, |interval| > pageSize))
  {
    hide StartBound, Interval, Times, Positions, IntervalTimes, Ordered;
    var interval := Interval(t, c, resume, pageSize);
    var all := Ordered(Positions(c.chronological, Beyond(t, c, resume)));
    BoundIsRow(t, c, resume);
    IntervalKeys(t, c, resume, pageSize);
    assert Increasing(all);
    assert Increasing(KeysOf(c, interval));
    forall v | v in interval
      ensures At(c, c.start) <= At(c, v.source) < At(c, c.end)
    {
      IntervalSource(t, c, resume, pageSize, v);
    }
  }

  lemma IntervalSource(t: Table, c: RawRead, resume: Option<Ticks>, pageSize: nat, v: DataValue)
    requires v in Interval(t, c, resume, pageSize)
    ensures v.source in Beyond(t, c, resume) && At(c, c.start) <= At(c, v.source) < At(c, c.end)
  {
    hide Interval, Times, IntervalTimes, Ordered, Beyond;
    KeyAmong(c, Interval(t, c, resume, pageSize), v);
    IntervalKeys(t, c, resume, pageSize);
    var all := Ordered(Positions(c.chronological, Beyond(t, c, resume)));
    assert KeyOf(c, v) in TakeUpTo(all, pageSize + 1) && KeyOf(c, v) in all;
    var x :| x in Beyond(t, c, resume) && Position(c.chronological, x) == KeyOf(c, v);
    BeyondAreTimes(t, c, resume);
  }

  lemma PageCovers(t: Table, c: RawRead, resume: Option<Ticks>, pageSize: nat)
    requires WellFormed(c) && Resumable(c, resume)
    ensures
      var interval := Interval(t, c, resume, pageSize);
      Covers(c, DueKeys(t, c, resume), StartBound(t, c, resume), interval,
             EndBound(t, c, |interval| > pageSize), |interval| > pageSize)
  {
    hide StartBound, EndBound, Interval, Times, IntervalTimes, Ordered, Beyond, Positions, KeysOf;
    var before, interval := StartBound(t, c, resume), Interval(t, c, resume, pageSize);
    var overflow := |interval| > pageSize;
    var after := EndBound(t, c, overflow);
    OverflowSkipsEndBound(t, c, overflow);
    forall v | v in before + interval + after
      ensures KeyOf(c, v) in DueKeys(t, c, resume)
    {
      if v in interval { IntervalSource(t, c, resume, pageSize, v); }
      DueHasKey(t, c, resume, v.source);
    }
    forall k | k in DueKeys(t, c, resume) && k !in KeysOf(c, before + interval + after)
      ensures overflow && forall v | v in before + interval :: Less(KeyOf(c, v), k)
    {
      var x := TimeOfDueKey(t, c, resume, k);
      forall v | v in before + interval + after
        ensures KeyOf(c, v) != k && v.source != x
      {
        KeyAmong(c, before + interval + after, v);
      }
      UnpushedLiesBeyond(t, c, resume, pageSize, x);
    }
  }

  lemma OverflowSkipsEndBound(t: Table, c: RawRead, overflow: bool)
    ensures EndBound(t, c, overflow) == if overflow then [] else EndBound(t, c, false)
  {
  }

  lemma DueHasKey(t: Table, c: RawRead, resume: Option<Ticks>, x: Ticks)
    requires x in Due(t, c, resume)
    ensures Position(c.chronological, x) in DueKeys(t, c, resume)
  {
    hide Due;
  }

  lemma TimeOfDueKey(t: Table, c: RawRead, resume: Option<Ticks>, k: Key) returns (x: Ticks)
    requires k in DueKeys(t, c, resume)
    ensures x in Due(t, c, resume) && Position(c.chronological, x) == k
  {
    hide Due;
    x := TimeAt(c.chronological, Due(t, c, resume), k);
  }

  lemma UnpushedLiesBeyond(t: Table, c: RawRead, resume: Option<Ticks>, pageSize: nat, x: Ticks)
    requires WellFormed(c) && Resumable(c, resume) && x in Due(t, c, resume)
    requires
      var interval := Interval(t, c, resume, pageSize);
      forall v | v in StartBound(t, c, resume) + interval + EndBound(t, c, |interval| > pageSize) ::
        v.source != x && KeyOf(c, v) != Position(c.chronological, x)
    ensures |Interval(t, c, resume, pageSize)| > pageSize
    ensures forall v | v in StartBound(t, c, resume) + Interval(t, c, resume, pageSize) :: Less(KeyOf(c, v), Position(c.chronological, x))
  {
    hide StartBound, EndBound, Interval, Times, IntervalTimes, Ordered, Beyond, Positions, KeysOf, Increasing;
    var before, interval := StartBound(t, c, resume), Interval(t, c, resume, pageSize);
    var after := EndBound(t, c, |interval| > pageSize);
    OverflowSkipsEndBound(t, c, |interval| > pageSize);
    BoundIsRow(t, c, resume);
    BeyondAreTimes(t, c, resume);
    PageParts(t, c, resume, pageSize);
    if x in Beyond(t, c, resume) {
      IntervalLeftOver(t, c, resume, pageSize, x);
    } else {
      assert x !in TimesOf(before) && x !in TimesOf(after);
      assert At(c, c.end) <= At(c, x);
      assert interval[0] in interval;
    }
  }

  lemma IntervalLeftOver(t: Table, c: RawRead, resume: Option<Ticks>, pageSize: nat, x: Ticks)
    requires x in Beyond(t, c, resume)
    requires forall v | v in Interval(t, c, resume, pageSize) :: KeyOf(c, v) != Position(c.chronological, x)
    ensures |Interval(t, c, resume, pageSize)| > pageSize
    ensures forall v | v in Interval(t, c, resume, pageSize) :: Less(KeyOf(c, v), Position(c.chronological, x))
  {
    hide Interval, Times, IntervalTimes, Ordered, Beyond;
    var interval := Interval(t, c, resume, pageSize);
    var keys := KeysOf(c, interval);
    var all := Ordered(Positions(c.chronological, Beyond(t, c, resume)));
    IntervalKeys(t, c, resume, pageSize);
    var k := Position(c.chronological, x);
    assert k in all;
    var i :| 0 <= i < |all| && all[i] == k;
    assert forall m | 0 <= m < |interval| :: interval[m] in interval && keys[m] == KeyOf(c, interval[m]) != k;
    forall v | v in interval
      ensures Less(KeyOf(c, v), k)
    {
      var j :| 0 <= j < |interval| && interval[j] == v;
      assert keys[j] == all[j] && Less(all[j], all[i]);
    }
  }

  lemma RowsFromKeys(t: Table, c: RawRead, values: seq<DataValue>, keys: seq<Key>)
    requires AreRows(t, c.node, values)
    requires forall k | k in keys :: k in Positions(c.chronological, Times(t, c.node))
    requires |values| <= |keys| && KeysOf(c, values) == keys[..|values|]
    ensures values == Rows(t, c.node, c.chronological, keys)[..|values|]
  {
    var rows := Rows(t, c.node, c.chronological, keys);
    forall i | 0 <= i < |values|
      ensures values[i] == rows[i]
    {
      assert values[i] in values && KeysOf(c, values)[i] == keys[i];
    }
  }

  lemma KeysLength(c: RawRead, values: seq<DataValue>)
    ensures |KeysOf(c, values)| == |values|
  {
  }

  lemma DueKeysAreTimes(t: Table, c: RawRead, resume: Option<Ticks>)
    ensures forall k | k in Ordered(DueKeys(t, c, resume)) :: k in Positions(c.chronological, Times(t, c.node))
  {
    hide Times, Ordered, Due;
    PositionsOfSubset(c.chronological, Due(t, c, resume), Times(t, c.node));
  }

  lemma KeptAreRows(t: Table, c: RawRead, resume: Option<Ticks>, pageSize: nat)
    ensures AreRows(t, c.node, Dedup(PushedValues(t, c, resume, pageSize)))
  {
    hide StartBound, Interval, Times;
    BoundIsRow(t, c, resume);
    IntervalKeys(t, c, resume, pageSize);
  }

  /** A page is the next `pageSize` rows the reader is owed, and says truly whether any are left. */
  lemma PageServesDue(t: Table, c: RawRead, resume: Option<Ticks>, pageSize: nat)
    requires WellFormed(c) && Resumable(c, resume)
    ensures NonDecreasing(c, PushedValues(t, c, resume, pageSize))
    ensures PageValues(t, c, resume, pageSize) == TakeUpTo(Owed(t, c, resume), pageSize)
    ensures PageHasMore(t, c, resume, pageSize) <==> |Owed(t, c, resume)| > pageSize
  {
    hide StartBound, EndBound, Interval, Times, IntervalTimes, Ordered, Due, Dedup, Parts, Covers, NonDecreasing,
         AreRows, Increasing, KeysOf, DueKeys;
    var before, interval := StartBound(t, c, resume), Interval(t, c, resume, pageSize);
    var after := EndBound(t, c, |interval| > pageSize);
    var due := DueKeys(t, c, resume);
    var kept := Dedup(before + interval + after);
    PageParts(t, c, resume, pageSize);
    PartsInOrder(c, before, interval, after);
    PageCovers(t, c, resume, pageSize);
    AssembledIsPrefix(c, due, before, interval, after, |interval| > pageSize);
    KeptAreRows(t, c, resume, pageSize);
    KeysLength(c, kept);
    DueKeysAreTimes(t, c, resume);
    PositionsOfSubset(c.chronological, Due(t, c, resume), Times(t, c.node));
    RowsFromKeys(t, c, kept, Ordered(due));
  }

  // ---- Cursors -----------------------------------------------------------------------------

  /** A page and the cursor it hands out: `None` ends the read. */
  datatype Served = Served(page: seq<DataValue>, next: Option<Ticks>)

  function Serve(t: Table, c: RawRead, resume: Option<Ticks>, pageSize: nat): Served {
    var page := PageValues(t, c, resume, pageSize);
    Served(page, if PageHasMore(t, c, resume, pageSize) && page != [] then Some(page[|page| - 1].source) else None)
  }

  lemma OwedKeys(t: Table, c: RawRead, resume: Option<Ticks>)
    ensures KeysOf(c, Owed(t, c, resume)) == Ordered(DueKeys(t, c, resume))
    ensures Increasing(KeysOf(c, Owed(t, c, resume)))
    ensures TimesOf(Owed(t, c, resume)) == Due(t, c, resume)
    ensures AreRows(t, c.node, Owed(t, c, resume))
  {
    hide Times, IntervalTimes, Ordered, Due;
    var owed, due := Owed(t, c, resume), Due(t, c, resume);
    var keys := Ordered(DueKeys(t, c, resume));
    PositionsOfSubset(c.chronological, due, Times(t, c.node));
    assert KeysOf(c, owed) == keys;
    forall x
      ensures x in TimesOf(owed) <==> x in due
    {
      if x in due {
        assert Position(c.chronological, x) in DueKeys(t, c, resume) && Position(c.chronological, x) in keys;
        var v := ValueAmong(c, owed, Position(c.chronological, x));
        assert v.source == x;
      }
      if x in TimesOf(owed) {
        var v :| v in owed && v.source == x;
        KeyAmong(c, owed, v);
        var y :| y in due && Position(c.chronological, y) == KeyOf(c, v);
        assert y == x;
      }
    }
  }

  /** A cursor that is handed out rests before the end of the interval: only the end bound lies later. */
  lemma CursorIsResumable(t: Table, c: RawRead, resume: Option<Ticks>, pageSize: nat)
    requires WellFormed(c) && Resumable(c, resume)
    requires 1 <= pageSize < |Owed(t, c, resume)|
    ensures Resumable(c, Some(Owed(t, c, resume)[pageSize - 1].source))
  {
    hide StartBound, Times, IntervalTimes, Ordered, Beyond, Owed;
    var owed := Owed(t, c, resume);
    OwedKeys(t, c, resume);
    var last, next := owed[pageSize - 1], owed[pageSize];
    assert Less(KeysOf(c, owed)[pageSize - 1], KeysOf(c, owed)[pageSize]);
    assert last in owed && next in owed;
    assert last.source in Due(t, c, resume) && next.source in Due(t, c, resume);
    BoundIsRow(t, c, resume);
    BeyondAreTimes(t, c, resume);
    StartRowIsEndRow(t, c, resume);
  }

  /** When both times coincide, a start bound lying exactly on them is the end bound as well. */
  lemma StartRowIsEndRow(t: Table, c: RawRead, resume: Option<Ticks>)
    requires WellFormed(c)
    ensures forall x, y | x in TimesOf(StartBound(t, c, resume)) && At(c, x) >= At(c, c.end) && y in TimesOf(EndBound(t, c, false)) :: x == y
  {
    hide Select;
    forall x, y | x in TimesOf(StartBound(t, c, resume)) && At(c, x) >= At(c, c.end) && y in TimesOf(EndBound(t, c, false))
      ensures x == y
    {
      BoundIsRow(t, c, resume);
      assert x == c.end && x in Times(t, c.node);
      assert AtOrBeyond(c.end, !c.chronological, x);
    }
  }

  /** Resuming at the last row served leaves exactly the rows not yet served. */
  lemma RestIsOwed(t: Table, c: RawRead, resume: Option<Ticks>, pageSize: nat)
    requires WellFormed(c) && Resumable(c, resume)
    requires 1 <= pageSize < |Owed(t, c, resume)|
    ensures Owed(t, c, Some(Owed(t, c, resume)[pageSize - 1].source)) == Owed(t, c, resume)[pageSize..]
  {
    hide Times, IntervalTimes, Ordered, Due, Owed;
    var owed := Owed(t, c, resume);
    var last := owed[pageSize - 1];
    var rest := Owed(t, c, Some(last.source));
    OwedKeys(t, c, resume);
    OwedKeys(t, c, Some(last.source));
    assert KeysOf(c, owed)[pageSize - 1] == KeyOf(c, last);
    ResumeAfterPage(DueKeys(t, c, resume), pageSize);
    DueAfter(t, c, resume, pageSize);
    assert KeysOf(c, rest) == KeysOf(c, owed)[pageSize..];
    forall i | 0 <= i < |rest|
      ensures rest[i] == owed[pageSize + i]
    {
      assert KeysOf(c, rest)[i] == KeysOf(c, owed)[pageSize + i];
      assert rest[i] in rest && owed[pageSize + i] in owed;
    }
  }

  lemma DueAfter(t: Table, c: RawRead, resume: Option<Ticks>, pageSize: nat)
    requires WellFormed(c) && Resumable(c, resume)
    requires 1 <= pageSize < |Owed(t, c, resume)|
    ensures
      var last := Owed(t, c, resume)[pageSize - 1];
      DueKeys(t, c, Some(last.source)) == After(DueKeys(t, c, resume), Some(KeyOf(c, last)))
  {
    hide StartBound, EndBound, Times, IntervalTimes, Beyond, Due, Owed, TimesOf;
    var owed := Owed(t, c, resume);
    var last := owed[pageSize - 1];
    var later := Some(last.source);
    CursorIsResumable(t, c, resume, pageSize);
    ResumeNotBehind(t, c, resume, pageSize);
    forall x
      ensures x in Due(t, c, later) <==> x in Due(t, c, resume) && At(c, last.source) < At(c, x)
    {
      DueMembers(t, c, resume, last.source, x);
    }
    assert forall x | x in Due(t, c, later) :: Position(c.chronological, x) in DueKeys(t, c, resume);
    forall k | k in After(DueKeys(t, c, resume), Some(KeyOf(c, last)))
      ensures k in DueKeys(t, c, later)
    {
      var x :| x in Due(t, c, resume) && Position(c.chronological, x) == k;
      assert x in Due(t, c, later);
    }
  }

  /** Everything on a page lies beyond the cursor it resumed from and not before the start bound. */
  lemma ResumeNotBehind(t: Table, c: RawRead, resume: Option<Ticks>, pageSize: nat)
    requires WellFormed(c) && Resumable(c, resume)
    requires 1 <= pageSize <= |Owed(t, c, resume)|
    ensures
      var last := Owed(t, c, resume)[pageSize - 1].source;
      && (resume.Some? ==> At(c, resume.value) < At(c, last))
      && (forall x | x in TimesOf(StartBound(t, c, resume)) :: At(c, x) <= At(c, last))
  {
    hide StartBound, Times, Ordered, Owed, Dedup;
    var owed := Owed(t, c, resume);
    OwedKeys(t, c, resume);
    var last := owed[pageSize - 1];
    assert last in owed && last.source in Due(t, c, resume);
    BoundIsRow(t, c, resume);
    NoStartBoundOnResume(t, c, resume);
    BeyondAreTimes(t, c, resume);
    OneStartBound(t, c, resume);
  }

  lemma NoStartBoundOnResume(t: Table, c: RawRead, resume: Option<Ticks>)
    ensures resume.Some? ==> StartBound(t, c, resume) == []
  {
  }

  lemma OneStartBound(t: Table, c: RawRead, resume: Option<Ticks>)
    ensures forall x, y | x in TimesOf(StartBound(t, c, resume)) && y in TimesOf(StartBound(t, c, resume)) :: x == y
  {
    hide StartBound;
    BoundIsRow(t, c, resume);
  }

  lemma DueMembers(t: Table, c: RawRead, resume: Option<Ticks>, last: Ticks, x: Ticks)
    requires At(c, last) < At(c, c.end)
    requires resume.Some? ==> At(c, resume.value) < At(c, last)
    requires x in TimesOf(StartBound(t, c, resume)) ==> At(c, x) <= At(c, last)
    ensures x in Due(t, c, Some(last)) <==> x in Due(t, c, resume) && At(c, last) < At(c, x)
  {
    hide StartBound, EndBound, Times;
    NoStartBoundOnResume(t, c, Some(last));
    BoundIsRow(t, c, resume);
  }
}
