/** Walking a hash set: its elements come once each, in an order the caller cannot choose. */
module HashSets {
  predicate Distinct<T(==)>(q: seq<T>) {
    forall i, j | 0 <= i < j < |q| :: q[i] != q[j]
  }

  predicate Enumerates<T(==)>(q: seq<T>, s: set<T>) {
    Distinct(q) && (forall x | x in s :: x in q) && (forall x | x in q :: x in s)
  }

  method Sequence<T(==)>(s: set<T>) returns (q: seq<T>)
    ensures Enumerates(q, s)
  {
    q := [];
    var todo := s;
    while todo != {}
      invariant todo <= s && Distinct(q)
      invariant (forall x | x in s :: x in q || x in todo) && (forall x | x in q :: x in s && x !in todo)
      decreases todo
    {
      var x :| x in todo;
      q := q + [x];
      todo := todo - {x};
    }
  }
}
