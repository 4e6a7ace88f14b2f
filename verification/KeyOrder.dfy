/** Keyset positions and the sequences they order.

  Every paged read of the history store walks rows in the order of a position that no two rows
  share.  A raw read orders by source timestamp, forwards or backwards; a read of the modified log
  orders by source timestamp, then modification time, then row id.  One lexicographic position
  covers all three, a backward read counting time downwards.
  */
module KeyOrder {
  import opened TotalOrder
  import opened Wrappers

  datatype Key = Key(source: int, modification: int, rowid: int)

  predicate Less(a: Key, b: Key) {
    a.source < b.source
    || (a.source == b.source && a.modification < b.modification)
    || (a.source == b.source && a.modification == b.modification && a.rowid < b.rowid)
  }

  ghost predicate Increasing(q: seq<Key>) {
    forall i, j | 0 <= i < j < |q| :: Less(q[i], q[j])
  }

  ghost predicate IsLeast(s: set<Key>, k: Key) {
    k in s && forall x | x in s :: x == k || Less(k, x)
  }

  lemma LeastExists(s: set<Key>)
    requires s != {}
    ensures exists k :: IsLeast(s, k)
  {
    FirstExists(Less, s);
    var k :| IsFirst(Less, s, k);
    assert IsLeast(s, k);
  }

  /** The rows of a set in position order: what ORDER BY yields. */
  function Ordered(s: set<Key>): (q: seq<Key>)
    ensures Increasing(q) && |q| == |s|
    ensures forall k :: k in q <==> k in s
  {
    if s == {} then []
    else
      LeastExists(s);
      var k :| k in s && forall x | x in s :: x == k || Less(k, x);
      [k] + Ordered(s - {k})
  }

  lemma OrderedHead(s: set<Key>, k: Key)
    requires IsLeast(s, k)
    ensures Ordered(s)[0] == k && Ordered(s)[1..] == Ordered(s - {k})
  {
    var q := Ordered(s);
    assert k in q && q[0] in q;
    forall i | 0 < i < |q|
      ensures q[i] != k
    {
      assert Less(q[0], q[i]);
    }
  }

  /** `q` holds keys of `s` in order, and every other key of `s` lies beyond all of them. */
  ghost predicate LeadsInto(q: seq<Key>, s: set<Key>) {
    && Increasing(q)
    && (forall k | k in q :: k in s)
    && (forall k, i | k in s && k !in q && 0 <= i < |q| :: Less(q[i], k))
  }

  lemma TailLeadsInto(s: set<Key>, q: seq<Key>)
    requires q != [] && LeadsInto(q, s)
    ensures IsLeast(s, q[0]) && LeadsInto(q[1..], s - {q[0]})
  {
    forall k | k in s
      ensures k == q[0] || Less(q[0], k)
    {
      if k in q {
        var i :| 0 <= i < |q| && q[i] == k;
      }
    }
    assert q[0] in q;
    forall k | k in q[1..]
      ensures k in s - {q[0]}
    {
      var i :| 0 <= i < |q| - 1 && q[1..][i] == k;
      assert k == q[i + 1] && Less(q[0], q[i + 1]);
    }
  }

  /** An increasing sequence that leaves out only what lies beyond it is a prefix of the order. */
  lemma {:induction false} PrefixOfOrdered(s: set<Key>, q: seq<Key>)
    requires LeadsInto(q, s)
    ensures |q| <= |s| && q == Ordered(s)[..|q|]
    decreases |q|
  {
    hide LeadsInto, Increasing, IsLeast, Ordered;
    if q != [] {
      TailLeadsInto(s, q);
      PrefixOfOrdered(s - {q[0]}, q[1..]);
      OrderedHead(s, q[0]);
      assert q == [q[0]] + q[1..];
      var r := Ordered(s);
      assert r[..|q|] == [r[0]] + r[1..][..|q| - 1];
    }
  }

  /** Two increasing sequences of the same keys are equal. */
  lemma OrderedIsUnique(s: set<Key>, q: seq<Key>)
    requires Increasing(q)
    requires forall k :: k in q <==> k in s
    ensures q == Ordered(s)
  {
    hide Ordered;
    PrefixOfOrdered(s, q);
    var r := Ordered(s);
    if r != [] {
      var last := |r| - 1;
      assert r[last] in s;
      var i :| 0 <= i < |q| && q[i] == r[last];
      assert r[i] == q[i] && !Less(r[i], r[last]);
    }
  }

  // ---- Pages -------------------------------------------------------------------------------

  function TakeUpTo<T>(q: seq<T>, n: nat): seq<T> {
    if |q| <= n then q else q[..n]
  }

  /** The keys still due once a reader has been given everything up to its cursor. */
  function After(s: set<Key>, resume: Option<Key>): set<Key> {
    set k | k in s && (resume.None? || Less(resume.value, k))
  }

  /** Resuming after the last key of a full page leaves exactly the rest of the order. */
  lemma ResumeAfterPage(s: set<Key>, n: nat)
    requires 1 <= n < |s|
    ensures Ordered(After(s, Some(Ordered(s)[n - 1]))) == Ordered(s)[n..]
  {
    var q := Ordered(s);
    var rest := After(s, Some(q[n - 1]));
    assert forall i | 0 <= i < n - 1 :: Less(q[i], q[n - 1]);
    forall k
      ensures k in q[n..] <==> k in rest
    {
      if k in rest {
        var i :| 0 <= i < |q| && q[i] == k;
        assert q[n..][i - n] == k;
      }
    }
    OrderedIsUnique(rest, q[n..]);
  }
}
