/** A page of a raw history read and what a reader is owed.

  `PageValues` is the page the backend assembles (start bound, interval, end bound, duplicates
  removed, cut to size).  `Due` is the set of timestamps a reader at a given cursor is still owed.
  */
module HistoryPages {
  import opened Wrappers
  import opened KeyOrder
  import opened HistoryQuery

  datatype RawRead = RawRead(node: NodeId, start: Ticks, end: Ticks, chronological: bool, bounds: bool)

  /** Every read the backend starts: the direction follows from the order of its two times. */
  predicate WellFormed(c: RawRead) {
    c.chronological == (c.start < c.end)
  }

  function At(c: RawRead, time: Ticks): int { Clock(c.chronological, time) }
  function KeyOf(c: RawRead, v: DataValue): Key { Position(c.chronological, v.source) }
  function KeysOf(c: RawRead, values: seq<DataValue>): seq<Key> {
    seq(|values|, i requires 0 <= i < |values| => KeyOf(c, values[i]))
  }

  function OptionToSeq<T>(o: Option<T>): seq<T> {
    if o.Some? then [o.value] else []
  }

  // ---- The page as it is assembled ---------------------------------------------------------

  function StartBound(t: Table, c: RawRead, resume: Option<Ticks>): seq<DataValue> {
    if c.bounds && resume.None? then OptionToSeq(FetchBounds(t, c.node, c.start, c.chronological)) else []
  }

  function Interval(t: Table, c: RawRead, resume: Option<Ticks>, pageSize: nat): seq<DataValue> {
    FetchInterval(t, c.node, c.start, c.end, c.chronological, resume, pageSize + 1)
  }

  function EndBound(t: Table, c: RawRead, intervalHasMore: bool): seq<DataValue> {
    if c.bounds && !intervalHasMore then OptionToSeq(FetchBounds(t, c.node, c.end, !c.chronological)) else []
  }

  function PushedValues(t: Table, c: RawRead, resume: Option<Ticks>, pageSize: nat): seq<DataValue> {
    var interval := Interval(t, c, resume, pageSize);
    StartBound(t, c, resume) + interval + EndBound(t, c, |interval| > pageSize)
  }

  /** `Vec::dedup_by` on source timestamps: a value equal in time to the last one kept is dropped. */
  function Dedup(values: seq<DataValue>): (kept: seq<DataValue>)
    ensures |kept| <= |values| && (values != [] ==> kept != [] && kept[|kept| - 1].source == values[|values| - 1].source)
    ensures forall v | v in kept :: v in values
  {
    if |values| <= 1 then values
    else
      var kept := Dedup(values[..|values| - 1]);
      if values[|values| - 1].source == kept[|kept| - 1].source then kept else kept + [values[|values| - 1]]
  }

  function PageValues(t: Table, c: RawRead, resume: Option<Ticks>, pageSize: nat): seq<DataValue> {
    TakeUpTo(Dedup(PushedValues(t, c, resume, pageSize)), pageSize)
  }

  predicate PageHasMore(t: Table, c: RawRead, resume: Option<Ticks>, pageSize: nat) {
    |Interval(t, c, resume, pageSize)| > pageSize || |Dedup(PushedValues(t, c, resume, pageSize))| > pageSize
  }

  // ---- What a reader is owed ---------------------------------------------------------------

  function Beyond(t: Table, c: RawRead, resume: Option<Ticks>): set<Ticks> {
    IntervalTimes(t, c.node, c.start, c.end, c.chronological, resume)
  }

  function TimesOf(values: seq<DataValue>): set<Ticks> {
    set v | v in values :: v.source
  }

  /** The interval beyond the cursor, the end bound, and the start bound of a read not yet begun. */
  function Due(t: Table, c: RawRead, resume: Option<Ticks>): (due: set<Ticks>)
    ensures due <= Times(t, c.node)
  {
    BoundIsRow(t, c, resume);
    TimesOf(StartBound(t, c, resume)) + Beyond(t, c, resume) + TimesOf(EndBound(t, c, false))
  }

  function DueKeys(t: Table, c: RawRead, resume: Option<Ticks>): set<Key> {
    Positions(c.chronological, Due(t, c, resume))
  }

  /** The rows a reader is owed, in reading order. */
  function Owed(t: Table, c: RawRead, resume: Option<Ticks>): seq<DataValue> {
    PositionsOfSubset(c.chronological, Due(t, c, resume), Times(t, c.node));
    Rows(t, c.node, c.chronological, Ordered(DueKeys(t, c, resume)))
  }

  /** Cursors only ever rest before the end of the interval. */
  predicate Resumable(c: RawRead, resume: Option<Ticks>) {
    resume.Some? ==> At(c, resume.value) < At(c, c.end)
  }

  // ---- Facts about the three parts of a page -----------------------------------------------

  ghost predicate AreRows(t: Table, node: NodeId, values: seq<DataValue>) {
    forall v | v in values :: RowId(node, v.source) in t && v == RowAt(t, node, v.source)
  }

  lemma BoundIsRow(t: Table, c: RawRead, resume: Option<Ticks>)
    ensures AreRows(t, c.node, StartBound(t, c, resume)) && AreRows(t, c.node, EndBound(t, c, false))
    ensures TimesOf(StartBound(t, c, resume)) + TimesOf(EndBound(t, c, false)) <= Times(t, c.node)
    ensures forall v | v in StartBound(t, c, resume) :: At(c, v.source) <= At(c, c.start)
    ensures forall v | v in EndBound(t, c, false) :: At(c, c.end) <= At(c, v.source)
    ensures |StartBound(t, c, resume)| <= 1 && |EndBound(t, c, false)| <= 1
  {
    hide Select, Times;
    assert forall v, node | RowId(node, v) in t :: v in Times(t, node) by {
      RowsAreTimes(t);
    }
  }

  lemma RowsAreTimes(t: Table)
    ensures forall v, node | RowId(node, v) in t :: v in Times(t, node)
  {
  }

  lemma IntervalKeys(t: Table, c: RawRead, resume: Option<Ticks>, pageSize: nat)
    ensures KeysOf(c, Interval(t, c, resume, pageSize))
         == TakeUpTo(Ordered(Positions(c.chronological, Beyond(t, c, resume))), pageSize + 1)
    ensures AreRows(t, c.node, Interval(t, c, resume, pageSize))
  {
    hide IntervalTimes, Ordered, Positions;
    var times := Beyond(t, c, resume);
    assert times <= Times(t, c.node) by { BeyondAreTimes(t, c, resume); }
    PositionsOfSubset(c.chronological, times, Times(t, c.node));
    var keys := TakeUpTo(Ordered(Positions(c.chronological, times)), pageSize + 1);
    assert Interval(t, c, resume, pageSize) == Rows(t, c.node, c.chronological, keys);
  }

  lemma BeyondAreTimes(t: Table, c: RawRead, resume: Option<Ticks>)
    ensures Beyond(t, c, resume) <= Times(t, c.node)
    ensures forall x | x in Beyond(t, c, resume) :: At(c, c.start) <= At(c, x) < At(c, c.end)
  {
  }

  // ---- One page, from its three parts ------------------------------------------------------

  ghost predicate NonDecreasing(c: RawRead, values: seq<DataValue>) {
    forall i, j | 0 <= i < j < |values| :: At(c, values[i].source) <= At(c, values[j].source)
  }

  lemma Extended(c: RawRead, values: seq<DataValue>, last: DataValue)
    ensures KeysOf(c, values + [last]) == KeysOf(c, values) + [KeyOf(c, last)]
    ensures Increasing(KeysOf(c, values)) && (values == [] || At(c, values[|values| - 1].source) < At(c, last.source))
      ==> Increasing(KeysOf(c, values + [last]))
  {
    var keys, n := KeysOf(c, values + [last]), |values|;
    assert keys == KeysOf(c, values) + [KeyOf(c, last)];
    if Increasing(KeysOf(c, values)) && (values == [] || At(c, values[n - 1].source) < At(c, last.source)) {
      forall i, j | 0 <= i < j < n + 1
        ensures Less(keys[i], keys[j])
      {
        if j == n {
          assert i == n - 1 || Less(KeysOf(c, values)[i], KeysOf(c, values)[n - 1]);
        } else {
          assert Less(KeysOf(c, values)[i], KeysOf(c, values)[j]);
        }
      }
    }
  }

  lemma {:induction false} DedupOfSorted(c: RawRead, values: seq<DataValue>)
    requires NonDecreasing(c, values)
    ensures Increasing(KeysOf(c, Dedup(values)))
    ensures forall v | v in values :: KeyOf(c, v) in KeysOf(c, Dedup(values))
  {
    hide Increasing;
    if |values| > 1 {
      var n := |values| - 1;
      var front, last := values[..n], values[n];
      DedupOfSorted(c, front);
      var kept := Dedup(front);
      assert kept[|kept| - 1].source == front[n - 1].source == values[n - 1].source;
      Extended(c, kept, last);
      if last.source == kept[|kept| - 1].source {
        KeyAmong(c, kept, kept[|kept| - 1]);
      }
      assert forall v | v in values :: v in front || v == last;
    } else if |values| == 1 {
      Extended(c, [], values[0]);
      assert [] + [values[0]] == values;
      assert Increasing(KeysOf(c, [])) by { EmptyIncreases(c); }
    } else {
      EmptyIncreases(c);
      assert values == [];
    }
  }

  lemma EmptyIncreases(c: RawRead)
    ensures Increasing(KeysOf(c, []))
  {
  }

  lemma KeyAmong(c: RawRead, values: seq<DataValue>, v: DataValue)
    requires v in values
    ensures KeyOf(c, v) in KeysOf(c, values)
  {
    var i :| 0 <= i < |values| && values[i] == v;
    assert KeysOf(c, values)[i] == KeyOf(c, v);
  }

  lemma ValueAmong(c: RawRead, values: seq<DataValue>, k: Key) returns (v: DataValue)
    requires k in KeysOf(c, values)
    ensures v in values && KeyOf(c, v) == k
  {
    var i :| 0 <= i < |values| && KeysOf(c, values)[i] == k;
    v := values[i];
  }

  /** The shape every page is pushed in: start bound, interval, end bound. */
  ghost predicate Parts(c: RawRead, before: seq<DataValue>, interval: seq<DataValue>, after: seq<DataValue>) {
    && |before| <= 1 && |after| <= 1
    && Increasing(KeysOf(c, interval))
    && (forall v | v in before :: At(c, v.source) <= At(c, c.start))
    && (forall v | v in interval :: At(c, c.start) <= At(c, v.source) < At(c, c.end))
    && (forall v | v in after :: At(c, c.end) <= At(c, v.source))
  }

  /** The values are pushed in reading order, so the sort that follows has nothing to do. */
  lemma PartsInOrder(c: RawRead, before: seq<DataValue>, interval: seq<DataValue>, after: seq<DataValue>)
    requires WellFormed(c) && Parts(c, before, interval, after)
    ensures NonDecreasing(c, before + interval + after)
  {
    var values := before + interval + after;
    forall i, j | 0 <= i < j < |values|
      ensures At(c, values[i].source) <= At(c, values[j].source)
    {
      var m, n := i - |before|, j - |before|;
      if 0 <= m && n < |interval| {
        assert Less(KeysOf(c, interval)[m], KeysOf(c, interval)[n]);
      }
      assert i < |before| ==> values[i] in before;
      assert 0 <= m < |interval| ==> values[i] == interval[m] && interval[m] in interval;
      assert 0 <= n < |interval| ==> values[j] == interval[n] && interval[n] in interval;
      assert n >= |interval| ==> values[j] in after;
    }
  }

  /** Nothing owed is missing but what an overflowing interval query leaves for later pages. */
  ghost predicate Covers(c: RawRead, due: set<Key>, before: seq<DataValue>, interval: seq<DataValue>,
                         after: seq<DataValue>, overflow: bool)
  {
    && (forall v | v in before + interval + after :: KeyOf(c, v) in due)
    && (overflow ==> after == [])
    && (forall k | k in due && k !in KeysOf(c, before + interval + after) ::
         overflow && forall v | v in before + interval :: Less(KeyOf(c, v), k))
  }

  lemma AssembledIsPrefix(c: RawRead, due: set<Key>, before: seq<DataValue>, interval: seq<DataValue>,
                          after: seq<DataValue>, overflow: bool)
    requires WellFormed(c) && Parts(c, before, interval, after) && Covers(c, due, before, interval, after, overflow)
    ensures
      var keys := KeysOf(c, Dedup(before + interval + after));
      && |interval| <= |keys| <= |due| && keys == Ordered(due)[..|keys|]
      && (!overflow ==> |keys| == |due|)
  {
    var values := before + interval + after;
    var kept := Dedup(values);
    var keys := KeysOf(c, kept);
    PartsInOrder(c, before, interval, after);
    DedupOfSorted(c, values);
    forall k | k in keys
      ensures k in due && k in KeysOf(c, values)
    {
      var v := ValueAmong(c, kept, k);
      KeyAmong(c, values, v);
    }
    forall k | k in KeysOf(c, values)
      ensures k in keys
    {
      var v := ValueAmong(c, values, k);
    }
    forall k, i | k in due && k !in keys && 0 <= i < |keys|
      ensures Less(keys[i], k)
    {
      var v := ValueAmong(c, kept, keys[i]);
    }
    PrefixOfOrdered(due, keys);
    if !overflow {
      OrderedIsUnique(due, keys);
    }
    forall i | 0 <= i < |interval|
      ensures KeysOf(c, interval)[i] in keys
    {
      assert interval[i] in values;
    }
    IncreasingFitsIn(KeysOf(c, interval), keys);
  }

  lemma IncreasingFitsIn(q: seq<Key>, r: seq<Key>)
    requires Increasing(q) && forall i | 0 <= i < |q| :: q[i] in r
    ensures |q| <= |r|
  {
    var s, u := set k | k in q, set k | k in r;
    OrderedIsUnique(s, q);
    SetOfSeq(r);
    assert u == s + (u - s);
  }

  lemma {:induction false} SetOfSeq(r: seq<Key>)
    ensures |set k | k in r| <= |r|
  {
    if r != [] {
      var front, last := r[..|r| - 1], r[|r| - 1];
      SetOfSeq(front);
      assert (set k | k in r) == (set k | k in front) + {last};
    }
  }
}
