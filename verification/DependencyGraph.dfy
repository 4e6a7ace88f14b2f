/** Dependency graphs, their topological orders and their cycles.

  Nodes are compared by a strict total order.  Among all topological orders one is least in the
  lexicographic sense: at every place it takes the smallest node whose dependencies have all gone
  before.  An order exists exactly when the graph has no cycle.
  */
module DependencyGraph {
  import opened HashSets
  import opened TotalOrder

  datatype Graph<N(==)> = Graph(nodes: set<N>, deps: map<N, set<N>>)

  ghost predicate Closed<N>(g: Graph<N>) {
    g.deps.Keys == g.nodes && forall n | n in g.nodes :: g.deps[n] <= g.nodes
  }

  function Elements<N>(order: seq<N>): set<N> {
    set n | n in order
  }

  /** The nodes whose turn may come next. */
  function Ready<N>(g: Graph<N>, done: set<N>): set<N>
    requires g.nodes <= g.deps.Keys
  {
    set n | n in g.nodes && n !in done && g.deps[n] <= done
  }

  function Dependents<N>(g: Graph<N>, n: N): set<N>
    requires g.nodes <= g.deps.Keys
  {
    set m | m in g.nodes && n in g.deps[m]
  }

  // ---- Orders ------------------------------------------------------------------------------

  /** Every dependency goes before what depends on it. */
  ghost predicate DependenciesFirst<N>(g: Graph<N>, order: seq<N>) {
    forall i | 0 <= i < |order| :: order[i] in g.deps && g.deps[order[i]] <= Elements(order[..i])
  }

  ghost predicate Topological<N>(g: Graph<N>, order: seq<N>) {
    Distinct(order) && Elements(order) == g.nodes && DependenciesFirst(g, order)
  }

  /** `o` is `p`, or smaller at the first place where they differ. */
  ghost predicate LexAtMost<N>(less: (N, N) -> bool, o: seq<N>, p: seq<N>) {
    o == p || exists k :: DiffersBelow(less, o, p, k)
  }

  ghost predicate DiffersBelow<N>(less: (N, N) -> bool, o: seq<N>, p: seq<N>, k: int) {
    0 <= k < |o| && k < |p| && o[..k] == p[..k] && less(o[k], p[k])
  }

  ghost predicate LeastTopological<N(!new)>(g: Graph<N>, less: (N, N) -> bool, order: seq<N>) {
    Topological(g, order) && forall p | Topological(g, p) :: LexAtMost(less, order, p)
  }

  /** The order takes the smallest ready node at every place. */
  ghost predicate Greedy<N>(g: Graph<N>, less: (N, N) -> bool, order: seq<N>)
    requires g.nodes <= g.deps.Keys
  {
    forall i | 0 <= i < |order| :: IsFirst(less, Ready(g, Elements(order[..i])), order[i])
  }

  lemma GreedyExtends<N>(g: Graph<N>, less: (N, N) -> bool, order: seq<N>, n: N)
    requires Closed(g) && Greedy(g, less, order) && IsFirst(less, Ready(g, Elements(order)), n)
    ensures Greedy(g, less, order + [n])
  {
    forall i | 0 <= i < |order| + 1
      ensures IsFirst(less, Ready(g, Elements((order + [n])[..i])), (order + [n])[i])
    {
      assert (order + [n])[..i] == order[..i];
      assert order[..|order|] == order;
    }
  }

  lemma GreedyFacts<N>(g: Graph<N>, less: (N, N) -> bool, order: seq<N>)
    requires Closed(g) && Greedy(g, less, order)
    ensures Distinct(order) && DependenciesFirst(g, order) && Elements(order) <= g.nodes
  {
    forall i, j | 0 <= i < j < |order|
      ensures order[i] != order[j]
    {
      assert order[i] in order[..j];
      assert IsFirst(less, Ready(g, Elements(order[..j])), order[j]);
    }
    forall i | 0 <= i < |order|
      ensures order[i] in g.nodes && g.deps[order[i]] <= Elements(order[..i])
    {
      assert IsFirst(less, Ready(g, Elements(order[..i])), order[i]);
    }
  }

  lemma {:induction false} DistinctSize<N>(order: seq<N>)
    requires Distinct(order)
    ensures |order| == |Elements(order)|
  {
    if order != [] {
      var n := |order| - 1;
      DistinctSize(order[..n]);
      assert Elements(order) == Elements(order[..n]) + {order[n]};
      assert order[n] !in order[..n];
    }
  }

  /** A greedy order of all nodes is below every other topological order. */
  lemma GreedyIsLeast<N(!new)>(g: Graph<N>, less: (N, N) -> bool, order: seq<N>)
    requires Closed(g) && Greedy(g, less, order) && Elements(order) == g.nodes
    ensures LeastTopological(g, less, order)
  {
    GreedyFacts(g, less, order);
    forall p | Topological(g, p)
      ensures LexAtMost(less, order, p)
    {
      DistinctSize(order);
      DistinctSize(p);
      GreedyBelow(g, less, order, p, 0);
    }
  }

  lemma {:induction false} GreedyBelow<N(!new)>(g: Graph<N>, less: (N, N) -> bool, order: seq<N>, p: seq<N>, k: nat)
    requires Closed(g) && Greedy(g, less, order) && Topological(g, p)
    requires |order| == |p| && k <= |p| && order[..k] == p[..k]
    ensures LexAtMost(less, order, p)
    decreases |p| - k
  {
    if k == |p| {
      assert order == order[..k] && p == p[..k];
    } else if order[k] == p[k] {
      assert order[..k + 1] == order[..k] + [order[k]] && p[..k + 1] == p[..k] + [p[k]];
      GreedyBelow(g, less, order, p, k + 1);
    } else {
      assert p[k] !in Elements(p[..k]) && p[k] in p;
      assert p[k] in Ready(g, Elements(order[..k]));
      assert IsFirst(less, Ready(g, Elements(order[..k])), order[k]);
      assert DiffersBelow(less, order, p, k);
    }
  }

  /** There is at most one least order, so whatever computes it, from whatever presentation of the
    graph, computes the same one. */
  lemma LeastIsUnique<N(!new)>(g: Graph<N>, less: (N, N) -> bool, o: seq<N>, p: seq<N>)
    requires StrictTotal(less) && LeastTopological(g, less, o) && LeastTopological(g, less, p)
    ensures o == p
  {
    if o != p {
      var k :| DiffersBelow(less, o, p, k);
      var l :| DiffersBelow(less, p, o, l);
      AgreesBefore(less, o, p, k);
      AgreesBefore(less, p, o, l);
    }
  }

  lemma AgreesBefore<N>(less: (N, N) -> bool, o: seq<N>, p: seq<N>, k: int)
    requires DiffersBelow(less, o, p, k)
    ensures forall i | 0 <= i < k :: o[i] == p[i]
  {
    assert forall i | 0 <= i < k :: o[..k][i] == o[i] && p[..k][i] == p[i];
  }

  // ---- Cycles ------------------------------------------------------------------------------

  /** A walk along dependencies, each node followed by one that depends on it. */
  ghost predicate Path<N>(g: Graph<N>, p: seq<N>) {
    && p != []
    && (forall i | 0 <= i < |p| :: p[i] in g.nodes && p[i] in g.deps)
    && (forall i | 0 <= i < |p| - 1 :: p[i] in g.deps[p[i + 1]])
  }

  ghost predicate Cycle<N>(g: Graph<N>, c: seq<N>) {
    Path(g, c) && |c| >= 2 && c[0] == c[|c| - 1]
  }

  ghost predicate Cyclic<N(!new)>(g: Graph<N>) {
    exists c :: Cycle(g, c)
  }

  ghost predicate Leads<N>(g: Graph<N>, c: seq<N>, p: seq<N>, n: N) {
    Cycle(g, c) && Path(g, p) && p[0] == c[0] && p[|p| - 1] == n
  }

  ghost predicate OnOrAfterCycle<N(!new)>(g: Graph<N>, n: N) {
    exists c, p :: Leads(g, c, p, n)
  }

  lemma CyclicHasMember<N(!new)>(g: Graph<N>)
    requires Cyclic(g)
    ensures exists n :: n in g.nodes && OnOrAfterCycle(g, n)
  {
    var c :| Cycle(g, c);
    assert Leads(g, c, [c[0]], c[0]);
    assert c[0] in g.nodes && OnOrAfterCycle(g, c[0]);
  }

  lemma {:induction false} WalkBack<N>(g: Graph<N>, done: set<N>, n: N, steps: nat) returns (p: seq<N>)
    requires Closed(g) && Ready(g, done) == {} && n in g.nodes - done
    ensures Path(g, p) && |p| == steps + 1 && p[|p| - 1] == n && Elements(p) <= g.nodes - done
  {
    if steps == 0 {
      p := [n];
    } else {
      assert n !in Ready(g, done);
      var m :| m in g.deps[n] && m !in done;
      var q := WalkBack(g, done, m, steps - 1);
      p := q + [n];
      assert Elements(p) == Elements(q) + {n};
    }
  }

  lemma {:induction false} Pigeonhole<N>(p: seq<N>, s: set<N>) returns (i: nat, j: nat)
    requires Elements(p) <= s && |p| > |s|
    ensures i < j < |p| && p[i] == p[j]
  {
    assert s == Elements(p) + (s - Elements(p));
    if Distinct(p) {
      DistinctSize(p);
      assert false;
    } else {
      i, j :| 0 <= i < j < |p| && p[i] == p[j];
    }
  }

  lemma SubPath<N>(g: Graph<N>, p: seq<N>, i: nat, j: nat)
    requires Path(g, p) && i < j <= |p|
    ensures Path(g, p[i..j])
  {
    forall k | 0 <= k < j - i - 1
      ensures p[i..j][k] in g.deps[p[i..j][k + 1]]
    {
      assert p[i + k] in g.deps[p[i + k + 1]];
    }
  }

  /** When no node is ready, every node left over is on a cycle or after one. */
  lemma StuckIsAfterCycle<N(!new)>(g: Graph<N>, done: set<N>, n: N)
    requires Closed(g) && Ready(g, done) == {} && n in g.nodes - done
    ensures OnOrAfterCycle(g, n)
  {
    var p := WalkBack(g, done, n, |g.nodes|);
    var i, j := Pigeonhole(p, g.nodes);
    SubPath(g, p, i, j + 1);
    SubPath(g, p, i, |p|);
    assert Leads(g, p[i..j + 1], p[i..], n) by {
      assert p[i..][0] == p[i] && p[i..j + 1][0] == p[i] && p[i..j + 1][j - i] == p[j];
    }
  }

  lemma {:induction false} PathRises<N>(g: Graph<N>, order: seq<N>, p: seq<N>, last: nat) returns (first: nat)
    requires DependenciesFirst(g, order) && Path(g, p)
    requires last < |order| && order[last] == p[|p| - 1]
    ensures first <= last && order[first] == p[0] && (|p| >= 2 ==> first < last)
  {
    if |p| == 1 {
      first := last;
    } else {
      var n := |p| - 2;
      assert p[n] in g.deps[p[n + 1]];
      assert p[n] in order[..last];
      var before: nat :| before < last && order[before] == p[n];
      SubPath(g, p, 0, n + 1);
      assert p[0..n + 1][n] == p[n];
      first := PathRises(g, order, p[0..n + 1], before);
    }
  }

  /** A node that was given a place is neither on a cycle nor after one. */
  lemma PlacedIsNotAfterCycle<N(!new)>(g: Graph<N>, order: seq<N>, n: N)
    requires DependenciesFirst(g, order) && Distinct(order) && n in order
    ensures !OnOrAfterCycle(g, n)
  {
    forall c, p
      ensures !Leads(g, c, p, n)
    {
      if Leads(g, c, p, n) {
        var last :| 0 <= last < |order| && order[last] == n;
        var start := PathRises(g, order, p, last);
        var again := PathRises(g, order, c, start);
        assert false;
      }
    }
  }

  /** Kahn's algorithm at its end: what it placed and what it could not place. */
  lemma FinishedMeaning<N(!new)>(g: Graph<N>, less: (N, N) -> bool, order: seq<N>)
    requires Closed(g) && KahnState(g, less, order, {})
    ensures forall n | n in g.nodes :: n in order <==> !OnOrAfterCycle(g, n)
    ensures |order| == |g.nodes| <==> !Cyclic(g)
    ensures |order| == |g.nodes| ==> LeastTopological(g, less, order)
  {
    hide OnOrAfterCycle, Cyclic, LeastTopological, Ready, Greedy;
    GreedyFacts(g, less, order);
    forall n | n in g.nodes
      ensures n in order <==> !OnOrAfterCycle(g, n)
    {
      if n in order {
        PlacedIsNotAfterCycle(g, order, n);
      } else {
        StuckIsAfterCycle(g, Elements(order), n);
      }
    }
    DistinctSize(order);
    assert g.nodes == Elements(order) + (g.nodes - Elements(order));
    if |order| == |g.nodes| {
      assert Elements(order) == g.nodes;
      GreedyIsLeast(g, less, order);
      if Cyclic(g) {
        CyclicHasMember(g);
      }
    } else {
      var n :| n in g.nodes - Elements(order);
      CycleBehind(g, n);
    }
  }

  /** Every node of the set depends on another of it, or on itself. */
  ghost predicate Feeds<N>(g: Graph<N>, s: set<N>) {
    forall n | n in s :: DependsOnSome(g, s, n)
  }

  ghost predicate DependsOnSome<N>(g: Graph<N>, s: set<N>, n: N) {
    n in g.deps && exists m :: m in g.deps[n] && m in s
  }

  /** The nodes on a cycle or after one are the largest set in which every node depends on one of the set. */
  lemma AfterCycleIsLargest<N(!new)>(g: Graph<N>, stuck: set<N>)
    requires Closed(g) && stuck == set n | n in g.nodes && OnOrAfterCycle(g, n)
    ensures Feeds(g, stuck) && (Cyclic(g) <==> stuck != {})
    ensures forall s | s <= g.nodes && Feeds(g, s) :: s <= stuck
  {
    hide Cyclic, OnOrAfterCycle, DependsOnSome;
    forall n | n in stuck
      ensures DependsOnSome(g, stuck, n)
    {
      StuckDependsOnStuck(g, stuck, n);
    }
    if Cyclic(g) {
      CyclicHasMember(g);
      var n :| n in g.nodes && OnOrAfterCycle(g, n);
      assert n in stuck;
    }
    if n :| n in stuck {
      CycleBehind(g, n);
    } else {
      assert stuck == {};
    }
    forall s | s <= g.nodes && Feeds(g, s)
      ensures s <= stuck
    {
      forall n | n in s
        ensures n in stuck
      {
        FedIsAfterCycle(g, s, n);
      }
    }
  }

  lemma StuckDependsOnStuck<N(!new)>(g: Graph<N>, stuck: set<N>, n: N)
    requires Closed(g) && n in stuck && stuck == set n | n in g.nodes && OnOrAfterCycle(g, n)
    ensures DependsOnSome(g, stuck, n)
  {
    hide OnOrAfterCycle;
    var m := StuckDependency(g, n);
  }

  lemma StuckDependency<N(!new)>(g: Graph<N>, n: N) returns (m: N)
    requires Closed(g) && OnOrAfterCycle(g, n)
    ensures n in g.nodes && m in g.deps[n] && m in g.nodes && OnOrAfterCycle(g, m)
  {
    var c, p :| Leads(g, c, p, n);
    if |p| == 1 {
      m := c[|c| - 2];
      SubPath(g, c, 0, |c| - 1);
      assert Leads(g, c, c[0..|c| - 1], m);
    } else {
      m := p[|p| - 2];
      SubPath(g, p, 0, |p| - 1);
      assert Leads(g, c, p[0..|p| - 1], m);
    }
  }

  lemma FedIsAfterCycle<N(!new)>(g: Graph<N>, s: set<N>, n: N)
    requires Closed(g) && s <= g.nodes && Feeds(g, s) && n in s
    ensures OnOrAfterCycle(g, n)
  {
    hide OnOrAfterCycle, Feeds, Ready;
    NoneOfFedIsReady(g, s);
    assert g.nodes - (g.nodes - s) == s;
    StuckIsAfterCycle(g, g.nodes - s, n);
  }

  lemma NoneOfFedIsReady<N>(g: Graph<N>, s: set<N>)
    requires Closed(g) && s <= g.nodes && Feeds(g, s)
    ensures Ready(g, g.nodes - s) == {}
  {
    hide DependsOnSome;
    forall x | x in s
      ensures x !in Ready(g, g.nodes - s)
    {
      assert DependsOnSome(g, s, x);
      NotReady(g, s, x);
    }
  }

  lemma NotReady<N>(g: Graph<N>, s: set<N>, n: N)
    requires Closed(g) && DependsOnSome(g, s, n)
    ensures n !in Ready(g, g.nodes - s)
  {
  }

  /** In a greedy order a node that could have come at place `i` and came later is not smaller. */
  lemma GreedyMeaning<N>(g: Graph<N>, less: (N, N) -> bool, order: seq<N>, i: nat, j: nat)
    requires Closed(g) && Greedy(g, less, order) && i < j < |order|
    requires forall k | i <= k < |order| :: order[k] !in g.deps[order[j]]
    ensures less(order[i], order[j])
  {
    GreedyFacts(g, less, order);
    forall d | d in g.deps[order[j]]
      ensures d in Elements(order[..i])
    {
      assert d in order[..j];
      var k :| 0 <= k < j && order[k] == d;
      assert order[..i][k] == d;
    }
    assert order[j] !in order[..i];
    assert order[j] in Ready(g, Elements(order[..i]));
    assert IsFirst(less, Ready(g, Elements(order[..i])), order[i]);
  }

  lemma CycleBehind<N(!new)>(g: Graph<N>, n: N)
    requires OnOrAfterCycle(g, n)
    ensures Cyclic(g)
  {
  }

  // ---- Counters ----------------------------------------------------------------------------

  /** How many dependencies of `n` are not among those done: what a node's counter stands for. */
  ghost function Waiting<N>(g: Graph<N>, done: set<N>, n: N): nat
    requires n in g.deps
  {
    |g.deps[n] - done|
  }

  /** One more node done takes one from the counter of each of its dependents, and from no other. */
  lemma WaitingStep<N>(g: Graph<N>, done: set<N>, n: N, m: N)
    requires Closed(g) && n !in done && m in g.nodes
    ensures Waiting(g, done + {n}, m) == Waiting(g, done, m) - (if m in Dependents(g, n) then 1 else 0)
    ensures m in Dependents(g, n) ==> Waiting(g, done, m) >= 1
  {
    if m in Dependents(g, n) {
      assert n in g.deps[m] - done;
      assert g.deps[m] - (done + {n}) == (g.deps[m] - done) - {n};
    } else {
      assert g.deps[m] - (done + {n}) == g.deps[m] - done;
    }
  }

  lemma ReadyIsNotWaiting<N>(g: Graph<N>, done: set<N>, n: N)
    requires Closed(g) && n in g.nodes
    ensures n in Ready(g, done) <==> n !in done && Waiting(g, done, n) == 0
    ensures done == {} || done == g.nodes ==> Waiting(g, done, n) == if done == {} then |g.deps[n]| else 0
  {
    EmptyDifference(g.deps[n], done);
    if done == {} {
      assert g.deps[n] - done == g.deps[n];
    }
  }

  /** The dependents for which `n` was the last dependency they waited for. */
  ghost function Freed<N>(g: Graph<N>, done: set<N>, n: N): set<N>
    requires g.nodes <= g.deps.Keys
  {
    set m | m in Dependents(g, n) && Waiting(g, done, m) == 1
  }

  /** The ready set after placing `n`: itself gone, and those dependents come in whose counters were one. */
  lemma ReadyAfter<N>(g: Graph<N>, order: seq<N>, n: N)
    requires Closed(g) && DependenciesFirst(g, order) && n in Ready(g, Elements(order))
    ensures
      var done := Elements(order);
      Ready(g, done + {n}) == (Ready(g, done) - {n}) + Freed(g, done, n)
  {
    hide Waiting;
    var done := Elements(order);
    forall m | m in g.nodes
      ensures m in Ready(g, done + {n}) <==> (m in Ready(g, done) && m != n) || (m in Dependents(g, n) && Waiting(g, done, m) == 1)
    {
      ReadyIsNotWaiting(g, done, m);
      ReadyIsNotWaiting(g, done + {n}, m);
      WaitingStep(g, done, n, m);
      if m in done {
        DoneIsClosed(g, order, m);
      }
    }
    assert Ready(g, done + {n}) == (Ready(g, done) - {n}) + Freed(g, done, n);
  }

  lemma DoneIsClosed<N>(g: Graph<N>, order: seq<N>, m: N)
    requires DependenciesFirst(g, order) && m in order
    ensures m in g.deps && g.deps[m] <= Elements(order)
  {
    var i :| 0 <= i < |order| && order[i] == m;
    assert Elements(order[..i]) <= Elements(order);
  }

  lemma EmptyDifference<N>(a: set<N>, b: set<N>)
    ensures a <= b <==> |a - b| == 0
  {
    if forall x | x in a :: x in b {
      assert a - b == {};
    } else {
      var x :| x in a && x !in b;
      assert x in a - b;
    }
  }

  /** The loop state of Kahn's algorithm: nodes placed so far, nodes ready, counters. */
  ghost predicate KahnState<N(!new)>(g: Graph<N>, less: (N, N) -> bool, order: seq<N>, queue: set<N>)
    requires g.nodes <= g.deps.Keys
  {
    Greedy(g, less, order) && queue == Ready(g, Elements(order))
  }

  lemma KahnStep<N(!new)>(g: Graph<N>, less: (N, N) -> bool, order: seq<N>, queue: set<N>, n: N)
    requires Closed(g) && KahnState(g, less, order, queue) && IsFirst(less, queue, n)
    ensures n in g.nodes && n !in order && Elements(order + [n]) == Elements(order) + {n}
    ensures KahnState(g, less, order + [n],
              (queue - {n}) + Freed(g, Elements(order), n))
    ensures g.nodes - Elements(order + [n]) < g.nodes - Elements(order)
  {
    hide Greedy, Waiting;
    GreedyFacts(g, less, order);
    GreedyExtends(g, less, order, n);
    ReadyAfter(g, order, n);
    assert Elements(order + [n]) == Elements(order) + {n};
    assert g.nodes - (Elements(order) + {n}) == g.nodes - Elements(order) - {n};
    assert n in g.nodes - Elements(order);
  }

  /** When the queue runs dry, the nodes with something left on their counters are those not placed. */
  lemma LeftOver<N(!new)>(g: Graph<N>, less: (N, N) -> bool, order: seq<N>)
    requires Closed(g) && KahnState(g, less, order, {})
    ensures forall n | n in g.nodes :: Waiting(g, Elements(order), n) > 0 <==> n !in order
  {
    hide Greedy;
    GreedyFacts(g, less, order);
    forall n | n in g.nodes
      ensures Waiting(g, Elements(order), n) > 0 <==> n !in order
    {
      ReadyIsNotWaiting(g, Elements(order), n);
      if n in order {
        DoneIsClosed(g, order, n);
        EmptyDifference(g.deps[n], Elements(order));
      }
    }
  }

  // ---- Counters as the loops keep them -------------------------------------------------------

  /** Every counter is the number of dependencies still to be placed. */
  ghost predicate Counted<N>(g: Graph<N>, done: set<N>, inDegree: map<N, nat>)
    requires Closed(g)
  {
    inDegree.Keys == g.nodes && forall n | n in g.nodes :: inDegree[n] == Waiting(g, done, n)
  }

  ghost predicate Decremented<N>(neighbors: set<N>, before: map<N, nat>, after: map<N, nat>) {
    after.Keys == before.Keys
    && forall m | m in before :: m in after && after[m] + (if m in neighbors then 1 else 0) == before[m]
  }

  ghost function Zeroed<N>(neighbors: set<N>, inDegree: map<N, nat>): set<N> {
    set m | m in neighbors && m in inDegree && inDegree[m] == 1
  }

  /** The counters of the dependents are positive before `n` is placed; those at one come free. */
  lemma BeforeRelease<N>(g: Graph<N>, done: set<N>, n: N, inDegree: map<N, nat>)
    requires Closed(g) && n !in done && Counted(g, done, inDegree)
    ensures Dependents(g, n) <= inDegree.Keys && forall m | m in Dependents(g, n) :: inDegree[m] >= 1
    ensures Zeroed(Dependents(g, n), inDegree) == Freed(g, done, n)
  {
    hide Waiting;
    forall m | m in Dependents(g, n)
      ensures m in inDegree && inDegree[m] >= 1
    {
      WaitingStep(g, done, n, m);
    }
  }

  lemma AfterRelease<N>(g: Graph<N>, done: set<N>, n: N, before: map<N, nat>, after: map<N, nat>)
    requires Closed(g) && n !in done && Counted(g, done, before) && Decremented(Dependents(g, n), before, after)
    ensures Counted(g, done + {n}, after)
  {
    hide Waiting, Dependents;
    forall m | m in g.nodes
      ensures after[m] == Waiting(g, done + {n}, m)
    {
      WaitingStep(g, done, n, m);
    }
  }

  function NothingPending<N>(inDegree: map<N, nat>): set<N> {
    set n | n in inDegree && inDegree[n] == 0
  }

  lemma QueueIsReady<N(!new)>(g: Graph<N>, less: (N, N) -> bool, counted: map<N, nat>)
    requires Closed(g) && Counted(g, {}, counted)
    ensures KahnState(g, less, [], NothingPending(counted))
    ensures Elements<N>([]) == {}
  {
    hide Waiting;
    assert Elements<N>([]) == {};
    forall n | n in g.nodes
      ensures n in NothingPending(counted) <==> n in Ready(g, {})
    {
      ReadyIsNotWaiting(g, {}, n);
    }
    assert NothingPending(counted) == Ready(g, Elements<N>([]));
  }
}
