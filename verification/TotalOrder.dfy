/** Strict total orders and the smallest element of a set. */
module TotalOrder {
  ghost predicate StrictTotal<N(!new)>(less: (N, N) -> bool) {
    && (forall a :: !less(a, a))
    && (forall a, b, c :: less(a, b) && less(b, c) ==> less(a, c))
    && (forall a, b :: a == b || less(a, b) || less(b, a))
  }

  ghost predicate IsFirst<N>(less: (N, N) -> bool, s: set<N>, m: N) {
    m in s && forall x | x in s :: x == m || less(m, x)
  }

  lemma {:induction false} FirstExists<N(!new)>(less: (N, N) -> bool, s: set<N>)
    requires StrictTotal(less) && s != {}
    ensures exists m :: IsFirst(less, s, m)
  {
    var x :| x in s;
    if s == {x} {
      assert IsFirst(less, s, x);
    } else {
      FirstExists(less, s - {x});
      var k :| IsFirst(less, s - {x}, k);
      var m := if less(x, k) then x else k;
      assert forall y | y in s :: y == x || y in s - {x};
      assert IsFirst(less, s, m);
    }
  }

  /** `BTreeSet::pop_first` looks at this element. */
  function First<N(!new, ==)>(less: (N, N) -> bool, s: set<N>): (m: N)
    requires StrictTotal(less) && s != {}
    ensures IsFirst(less, s, m)
  {
    FirstExists(less, s);
    var m :| m in s && forall x | x in s :: x == m || less(m, x);
    m
  }
}
