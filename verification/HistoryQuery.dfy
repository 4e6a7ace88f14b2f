/** The history table and the two SELECT statements that raw reads rest on.

  The table is keyed by (node id, source timestamp), its primary key.  A SELECT is modelled by the
  rows its WHERE clause keeps, put in ORDER BY order and cut at LIMIT.  Times are whole 100 ns ticks.
  */
module HistoryQuery {
  import opened Wrappers
  import opened KeyOrder

  type NodeId = string
  type Ticks = int
  type Blob = seq<bv8>

  datatype RowId = RowId(node: NodeId, source: Ticks)
  datatype Stored = Stored(server: Ticks, blob: Blob, status: nat)
  datatype DataValue = DataValue(source: Ticks, server: Ticks, blob: Blob, status: nat)

  type Table = map<RowId, Stored>

  function Times(t: Table, node: NodeId): set<Ticks> {
    set id | id in t && id.node == node :: id.source
  }

  function RowAt(t: Table, node: NodeId, source: Ticks): DataValue
    requires RowId(node, source) in t
  {
    var s := t[RowId(node, source)];
    DataValue(source, s.server, s.blob, s.status)
  }

  /** A reading of time that runs in the direction of the read. */
  function Clock(chronological: bool, time: Ticks): int {
    if chronological then time else -time
  }

  function Position(chronological: bool, time: Ticks): Key {
    Key(Clock(chronological, time), 0, 0)
  }

  function Positions(chronological: bool, times: set<Ticks>): set<Key> {
    set time | time in times :: Position(chronological, time)
  }

  lemma TimesOfPositions(t: Table, node: NodeId, chronological: bool)
    ensures forall k | k in Positions(chronological, Times(t, node)) ::
      var time := Clock(chronological, k.source);
      RowId(node, time) in t && Position(chronological, time) == k
  {
    forall k | k in Positions(chronological, Times(t, node))
      ensures
        var time := Clock(chronological, k.source);
        RowId(node, time) in t && Position(chronological, time) == k
    {
      var x :| x in Times(t, node) && Position(chronological, x) == k;
      var id :| id in t && id.node == node && id.source == x;
      assert id == RowId(node, Clock(chronological, k.source));
    }
  }

  lemma PositionsOfSubset(chronological: bool, some: set<Ticks>, all: set<Ticks>)
    requires some <= all
    ensures Positions(chronological, some) <= Positions(chronological, all)
  {
  }

  /** The rows at the given positions, in the given order. */
  function Rows(t: Table, node: NodeId, chronological: bool, keys: seq<Key>): (rows: seq<DataValue>)
    requires forall k | k in keys :: k in Positions(chronological, Times(t, node))
    ensures |rows| == |keys|
    ensures forall i | 0 <= i < |keys| ::
      Position(chronological, rows[i].source) == keys[i] && RowId(node, rows[i].source) in t
      && rows[i] == RowAt(t, node, rows[i].source)
  {
    TimesOfPositions(t, node, chronological);
    seq(|keys|, i requires 0 <= i < |keys| => RowAt(t, node, Clock(chronological, keys[i].source)))
  }

  /** SELECT ... WHERE source_timestamp IN times ORDER BY source_timestamp ASC|DESC LIMIT limit */
  function Select(t: Table, node: NodeId, chronological: bool, times: set<Ticks>, limit: nat): (rows: seq<DataValue>)
    requires times <= Times(t, node)
    ensures |rows| == if |Positions(chronological, times)| < limit then |Positions(chronological, times)| else limit
  {
    PositionsOfSubset(chronological, times, Times(t, node));
    Rows(t, node, chronological, TakeUpTo(Ordered(Positions(chronological, times)), limit))
  }

  /** Nearest row at or before (`findPrev`) or at or after the given time. */
  function FetchBounds(t: Table, node: NodeId, time: Ticks, findPrev: bool): (row: Option<DataValue>)
    ensures row.None? <==> forall x | x in Times(t, node) :: !AtOrBeyond(time, findPrev, x)
    ensures row.Some? ==>
      && RowId(node, row.value.source) in t && row.value == RowAt(t, node, row.value.source)
      && AtOrBeyond(time, findPrev, row.value.source)
      && forall x | x in Times(t, node) && AtOrBeyond(time, findPrev, x) :: 
        Clock(!findPrev, row.value.source) <= Clock(!findPrev, x)
  {
    var matching := set x | x in Times(t, node) && AtOrBeyond(time, findPrev, x);
    var rows := Select(t, node, !findPrev, matching, 1);
    NearestIsFirst(t, node, !findPrev, matching);
    assert forall x | x in Times(t, node) && AtOrBeyond(time, findPrev, x) :: x in matching;
    if rows == [] then None else Some(rows[0])
  }

  predicate AtOrBeyond(time: Ticks, findPrev: bool, x: Ticks) {
    if findPrev then x <= time else x >= time
  }

  lemma TimeAt(chronological: bool, times: set<Ticks>, k: Key) returns (x: Ticks)
    requires k in Positions(chronological, times)
    ensures x in times && Position(chronological, x) == k
  {
    x :| x in times && Position(chronological, x) == k;
  }

  lemma NearestIsFirst(t: Table, node: NodeId, chronological: bool, times: set<Ticks>)
    requires times <= Times(t, node)
    ensures Select(t, node, chronological, times, 1) == [] <==> times == {}
    ensures times != {} ==>
      var first := Select(t, node, chronological, times, 1)[0].source;
      first in times && forall x | x in times :: Clock(chronological, first) <= Clock(chronological, x)
  {
    hide Ordered, Times;
    var s := Positions(chronological, times);
    var q := Ordered(s);
    PositionsOfSubset(chronological, times, Times(t, node));
    assert Select(t, node, chronological, times, 1) == Rows(t, node, chronological, TakeUpTo(q, 1));
    forall x | x in times
      ensures Position(chronological, x) in s && q[0].source <= Clock(chronological, x)
    {
      assert Position(chronological, x) in q;
      var i :| 0 <= i < |q| && q[i] == Position(chronological, x);
      assert i == 0 || Less(q[0], q[i]);
    }
    NonEmptyPositions(chronological, times);
    if q != [] {
      assert q[0] in q && q[0] in s;
      var y := TimeAt(chronological, times, q[0]);
    }
  }

  lemma NonEmptyPositions(chronological: bool, times: set<Ticks>)
    ensures times == {} <==> |Positions(chronological, times)| == 0
  {
    if forall x :: x !in times {
      assert times <= {};
      assert Positions(chronological, times) == {};
    } else {
      var x :| x in times;
      assert Position(chronological, x) in Positions(chronological, times);
    }
  }

  predicate InInterval(chronological: bool, start: Ticks, end: Ticks, x: Ticks) {
    Clock(chronological, start) <= Clock(chronological, x) < Clock(chronological, end)
  }

  function IntervalTimes(t: Table, node: NodeId, start: Ticks, end: Ticks, chronological: bool,
      resumeAfter: Option<Ticks>): set<Ticks> {
    set x | x in Times(t, node) && InInterval(chronological, start, end, x)
      && (resumeAfter.None? || Clock(chronological, resumeAfter.value) < Clock(chronological, x))
  }

  /** Rows of the half-open interval in reading order, resuming strictly after `resumeAfter`. */
  function FetchInterval(t: Table, node: NodeId, start: Ticks, end: Ticks, chronological: bool,
                         resumeAfter: Option<Ticks>, rowLimit: nat): seq<DataValue>
  {
    Select(t, node, chronological, IntervalTimes(t, node, start, end, chronological, resumeAfter), rowLimit)
  }
}
