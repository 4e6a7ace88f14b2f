/** Sorting code generation targets so that every target comes after the ones whose files it needs.

  Targets are identified by their place in the input: files may repeat, and a target never waits
  for itself.
  */
module TargetSorter {
  import opened Wrappers
  import opened DependencyGraph
  import opened HashSets
  import opened TotalOrder

  /** `payload` stands for everything about a target that sorting does not look at. */
  datatype Target =
    | Types(file: string, dependentNodesets: seq<string>, payload: string)
    | Nodes(file: string, types: seq<string>, payload: string)
    | Ids(outputFile: string, payload: string)
    | Events(file: string, dependentNodesets: seq<string>, payload: string)

  /** A place in the input. */
  datatype Place = Place(idx: nat)

  function TargetFile(t: Target): Option<string> {
    if t.Ids? then None else Some(t.file)
  }

  function DependencyFiles(t: Target): seq<string> {
    match t
    case Types(_, files, _) => files
    case Nodes(_, files, _) => files
    case Ids(_, _) => []
    case Events(_, files, _) => files
  }

  predicate PlaceLess(a: Place, b: Place) { a.idx < b.idx }

  lemma PlacesAreOrdered()
    ensures StrictTotal(PlaceLess)
  {
  }

  function Places(n: nat): (s: set<Place>)
    ensures forall p :: p in s <==> p.idx < n
  {
    set k | 0 <= k < n :: Place(k)
  }

  lemma {:induction false} PlacesSize(n: nat)
    ensures |Places(n)| == n
  {
    if n > 0 {
      PlacesSize(n - 1);
      assert Places(n) == Places(n - 1) + {Place(n - 1)};
    }
  }

  /** The other targets that produce one of the given files. */
  function ProvidersOf(targets: seq<Target>, p: Place, files: seq<string>): set<Place> {
    set q | q in Places(|targets|) && q != p && TargetFile(targets[q.idx]).Some? && TargetFile(targets[q.idx]).value in files
  }

  function Dependencies(targets: seq<Target>, p: Place): set<Place>
    requires p.idx < |targets|
  {
    ProvidersOf(targets, p, DependencyFiles(targets[p.idx]))
  }

  function TargetGraph(targets: seq<Target>): (g: Graph<Place>)
    ensures g.nodes == g.deps.Keys == Places(|targets|) && Closed(g)
    ensures forall p | p in g.nodes :: g.deps[p] == Dependencies(targets, p)
  {
    Graph(Places(|targets|), map p | p in Places(|targets|) :: Dependencies(targets, p))
  }

  function Arranged(targets: seq<Target>, order: seq<Place>): seq<Target>
    requires Elements(order) <= Places(|targets|)
  {
    if order == [] then []
    else
      assert order[|order| - 1] in Elements(order);
      assert Elements(order[..|order| - 1]) <= Elements(order);
      Arranged(targets, order[..|order| - 1]) + [targets[order[|order| - 1].idx]]
  }

  /** What sorting promises for every input: the least order by input position, or the exact set of
    places that are on a dependency cycle or after one. */
  ghost predicate Sorted(targets: seq<Target>, result: Result<seq<Target>, set<Place>>) {
    var g := TargetGraph(targets);
    match result
    case Ok(sorted) =>
      && !Cyclic(g) && multiset(sorted) == multiset(targets)
      && exists order :: IsArrangement(targets, order, sorted)
    case Err(remaining) => Cyclic(g) && remaining == set p | p in g.nodes && OnOrAfterCycle(g, p)
  }

  ghost predicate IsArrangement(targets: seq<Target>, order: seq<Place>, sorted: seq<Target>) {
    && LeastTopological(TargetGraph(targets), PlaceLess, order) && Greedy(TargetGraph(targets), PlaceLess, order)
    && sorted == Arranged(targets, order)
  }

  /** The result is a function of the input. */
  lemma ResultIsUnique(targets: seq<Target>, r: Result<seq<Target>, set<Place>>, s: Result<seq<Target>, set<Place>>)
    requires Sorted(targets, r) && Sorted(targets, s)
    ensures r == s
  {
    hide TargetGraph, Cyclic, OnOrAfterCycle, LeastTopological, Greedy, Arranged, StrictTotal;
    if r.Ok? && s.Ok? {
      var o :| IsArrangement(targets, o, r.value);
      var p :| IsArrangement(targets, p, s.value);
      PlacesAreOrdered();
      LeastIsUnique(TargetGraph(targets), PlaceLess, o, p);
    }
  }

  // ---- The promise, told on the targets ------------------------------------------------------

  ghost predicate Asks(t: Target, file: string) {
    || (t.Types? && file in t.dependentNodesets)
    || (t.Nodes? && file in t.types)
    || (t.Events? && file in t.dependentNodesets)
  }

  ghost predicate Makes(t: Target, file: string) {
    (t.Types? && t.file == file) || (t.Nodes? && t.file == file) || (t.Events? && t.file == file)
  }

  /** Target `i` asks for a file that another target `j` makes. */
  ghost predicate Needs(targets: seq<Target>, i: nat, j: nat)
    requires i < |targets| && j < |targets|
  {
    i != j && exists file :: Asks(targets[i], file) && Makes(targets[j], file)
  }

  lemma EdgesAreNeeds(targets: seq<Target>, p: Place, q: Place)
    requires p.idx < |targets|
    ensures q in TargetGraph(targets).deps[p] <==> q.idx < |targets| && Needs(targets, p.idx, q.idx)
  {
    hide Asks, Makes;
    assert q == Place(q.idx) && p == Place(p.idx);
    forall file
      ensures Asks(targets[p.idx], file) <==> file in DependencyFiles(targets[p.idx])
      ensures q.idx < |targets| ==> (Makes(targets[q.idx], file) <==> TargetFile(targets[q.idx]) == Some(file))
    {
      AsksAndMakes(targets[p.idx], file);
      if q.idx < |targets| {
        AsksAndMakes(targets[q.idx], file);
      }
    }
  }

  lemma AsksAndMakes(t: Target, file: string)
    ensures Asks(t, file) <==> file in DependencyFiles(t)
    ensures Makes(t, file) <==> TargetFile(t) == Some(file)
  {
  }

  /** Places taken in turn: each once, those it needs before it, and of two places the smaller first unless
    it needs something that has not had its turn. */
  ghost predicate InTurn(targets: seq<Target>, order: seq<Place>) {
    && Distinct(order) && (forall p :: p in order <==> p.idx < |targets|)
    && (forall i, j | 0 <= i < |order| && 0 <= j < |order| && Needs(targets, order[i].idx, order[j].idx) :: j < i)
    && forall i, j | 0 <= i < j < |order| && order[j].idx < order[i].idx :: NeedsSomeFrom(targets, order, j, i)
  }

  ghost predicate NeedsSomeFrom(targets: seq<Target>, order: seq<Place>, j: nat, i: nat)
    requires j < |order| && forall p :: p in order <==> p.idx < |targets|
  {
    exists k :: i <= k < |order| && Needs(targets, order[j].idx, order[k].idx)
  }

  /** When sorting succeeds, the result is the targets taken in turn. */
  lemma SortedTargetsMeaning(targets: seq<Target>, sorted: seq<Target>) returns (order: seq<Place>)
    requires Sorted(targets, Ok(sorted))
    ensures InTurn(targets, order) && |sorted| == |order|
    ensures forall i | 0 <= i < |order| :: sorted[i] == targets[order[i].idx]
  {
    hide TargetGraph, Cyclic, LeastTopological, Greedy, Arranged, PlaceLess, InTurn, Distinct;
    order :| IsArrangement(targets, order, sorted);
    var g := TargetGraph(targets);
    LeastCoversNodes(g, order);
    ArrangedAt(targets, order);
    GreedyIsInTurn(targets, order);
  }

  lemma LeastCoversNodes(g: Graph<Place>, order: seq<Place>)
    requires LeastTopological(g, PlaceLess, order)
    ensures Elements(order) == g.nodes
  {
  }

  lemma GreedyIsInTurn(targets: seq<Target>, order: seq<Place>)
    requires Greedy(TargetGraph(targets), PlaceLess, order) && Elements(order) == Places(|targets|)
    ensures InTurn(targets, order)
  {
    hide TargetGraph, Greedy, Needs;
    var g := TargetGraph(targets);
    GreedyFacts(g, PlaceLess, order);
    assert forall p :: p in order <==> p in Elements(order);
    assert forall i | 0 <= i < |order| :: order[i] in order;
    forall i, j | 0 <= i < |order| && 0 <= j < |order| && Needs(targets, order[i].idx, order[j].idx)
      ensures j < i
    {
      EdgesAreNeeds(targets, order[i], order[j]);
      assert order[j] in order[..i];
    }
    forall i, j | 0 <= i < j < |order| && order[j].idx < order[i].idx
      ensures NeedsSomeFrom(targets, order, j, i)
    {
      if !NeedsSomeFrom(targets, order, j, i) {
        forall k | i <= k < |order|
          ensures order[k] !in g.deps[order[j]]
        {
          EdgesAreNeeds(targets, order[j], order[k]);
        }
        GreedyMeaning(g, PlaceLess, order, i, j);
      }
    }
  }

  lemma {:induction false} ArrangedAt(targets: seq<Target>, order: seq<Place>)
    requires Elements(order) <= Places(|targets|)
    ensures |Arranged(targets, order)| == |order|
    ensures forall i | 0 <= i < |order| :: order[i].idx < |targets| && Arranged(targets, order)[i] == targets[order[i].idx]
  {
    if order != [] {
      var n := |order| - 1;
      assert order[n] in Elements(order);
      assert Elements(order[..n]) <= Elements(order);
      ArrangedAt(targets, order[..n]);
    }
  }

  /** Places of targets each of which needs one of these places. */
  ghost predicate NeedEachOther(targets: seq<Target>, places: set<Place>) {
    forall p | p in places :: p.idx < |targets| && NeedsOneOf(targets, p, places)
  }

  ghost predicate NeedsOneOf(targets: seq<Target>, p: Place, places: set<Place>)
    requires p.idx < |targets|
  {
    exists q :: q in places && q.idx < |targets| && Needs(targets, p.idx, q.idx)
  }

  /** Sorting fails exactly when some targets need each other round and round; what it reports is the
    largest set of places each of which needs one of the set. */
  lemma CircularTargetsMeaning(targets: seq<Target>, result: Result<seq<Target>, set<Place>>)
    requires Sorted(targets, result)
    ensures result.Ok? ==> forall places | NeedEachOther(targets, places) :: places == {}
    ensures result.Err? ==> result.error != {} && NeedEachOther(targets, result.error)
    ensures result.Err? ==> forall places | NeedEachOther(targets, places) :: places <= result.error
  {
    hide TargetGraph, PlaceLess, Cyclic, OnOrAfterCycle, IsArrangement, NeedEachOther, Feeds;
    var g := TargetGraph(targets);
    var stuck := set p | p in g.nodes && OnOrAfterCycle(g, p);
    AfterCycleIsLargest(g, stuck);
    FeedsMeaning(targets, stuck);
    forall places | NeedEachOther(targets, places)
      ensures places <= stuck
    {
      FeedsMeaning(targets, places);
    }
  }

  lemma FeedsMeaning(targets: seq<Target>, places: set<Place>)
    ensures NeedEachOther(targets, places) <==> places <= Places(|targets|) && Feeds(TargetGraph(targets), places)
  {
    hide TargetGraph, Needs, NeedsOneOf, DependsOnSome;
    var g := TargetGraph(targets);
    forall p: Place | p.idx < |targets|
      ensures NeedsOneOf(targets, p, places) <==> DependsOnSome(g, places, p)
    {
      NeedsOneMeaning(targets, p, places);
    }
  }

  lemma NeedsOneMeaning(targets: seq<Target>, p: Place, places: set<Place>)
    requires p.idx < |targets|
    ensures NeedsOneOf(targets, p, places) <==> DependsOnSome(TargetGraph(targets), places, p)
  {
    hide TargetGraph, Needs;
    assert p in TargetGraph(targets).nodes;
    forall q
      ensures q in TargetGraph(targets).deps[p] <==> q.idx < |targets| && Needs(targets, p.idx, q.idx)
    {
      EdgesAreNeeds(targets, p, q);
    }
  }

  // ---- Edges and counters ------------------------------------------------------------------

  ghost predicate FilesIndexed(targets: seq<Target>, byFile: map<string, seq<Place>>, n: nat)
    requires n <= |targets|
  {
    && (forall f, q | f in byFile && q in byFile[f] :: q.idx < n && TargetFile(targets[q.idx]) == Some(f))
    && (forall q: Place | q.idx < n && TargetFile(targets[q.idx]).Some? ::
         var f := TargetFile(targets[q.idx]).value; f in byFile && q in byFile[f])
  }

  method IndexFiles(targets: seq<Target>) returns (byFile: map<string, seq<Place>>)
    ensures FilesIndexed(targets, byFile, |targets|)
  {
    byFile := map[];
    var i := 0;
    while i < |targets|
      invariant 0 <= i <= |targets| && FilesIndexed(targets, byFile, i)
    {
      var file := TargetFile(targets[i]);
      if file.Some? {
        var known := if file.value in byFile then byFile[file.value] else [];
        byFile := byFile[file.value := known + [Place(i)]];
      }
      i := i + 1;
      assert forall q: Place | q.idx < i :: q.idx < i - 1 || q == Place(i - 1);
    }
  }

  /** `adj` is `adj0` with `p` added as a dependent of the targets in `linked`. */
  ghost predicate Linked(adj0: seq<set<Place>>, adj: seq<set<Place>>, p: Place, linked: set<Place>) {
    && |adj| == |adj0|
    && forall j | 0 <= j < |adj| :: adj[j] == adj0[j] + (if Place(j) in linked then {p} else {})
  }

  lemma LinkOne(adj0: seq<set<Place>>, adj: seq<set<Place>>, p: Place, linked: set<Place>, q: Place)
    requires Linked(adj0, adj, p, linked) && q.idx < |adj| && p !in adj0[q.idx]
    ensures p in adj[q.idx] <==> q in linked
    ensures Linked(adj0, adj[q.idx := adj[q.idx] + {p}], p, linked + {q})
  {
    assert Place(q.idx) == q;
  }

  function Others(sources: seq<Place>, p: Place): set<Place> {
    set q | q in sources && q != p
  }

  /** Link `p` to the targets providing one file; the counter goes up only when the edge is new. */
  method LinkFile(ghost adj0: seq<set<Place>>, soFar: seq<set<Place>>, p: Place, count0: nat, sources: seq<Place>,
      ghost linked0: set<Place>)
    returns (adj: seq<set<Place>>, count: nat)
    requires Linked(adj0, soFar, p, linked0) && NoneHolds(adj0, p)
    requires forall q | q in sources :: q.idx < |adj0|
    requires count0 == |linked0|
    ensures Linked(adj0, adj, p, linked0 + Others(sources, p)) && count == |linked0 + Others(sources, p)|
  {
    hide Linked, Others;
    adj, count := soFar, count0;
    ghost var linked := linked0;
    var k := 0;
    assert sources[..0] == [];
    OthersGain(linked0, [], p, p);
    LinkedLength(adj0, adj, p, linked);
    while k < |sources|
      invariant 0 <= k <= |sources| && Linked(adj0, adj, p, linked) && count == |linked| && |adj| == |adj0|
      invariant linked == linked0 + Others(sources[..k], p)
    {
      var q := sources[k];
      assert q in sources;
      assert sources[..k + 1] == sources[..k] + [q];
      LinkOne(adj0, adj, p, linked, q);
      OthersGain(linked0, sources[..k], p, q);
      if q != p && p !in adj[q.idx] {
        adj := adj[q.idx := adj[q.idx] + {p}];
        linked := linked + {q};
        count := count + 1;
      }
      k := k + 1;
    }
    assert sources[..k] == sources;
  }

  lemma LinkedLength(adj0: seq<set<Place>>, adj: seq<set<Place>>, p: Place, linked: set<Place>)
    requires Linked(adj0, adj, p, linked)
    ensures |adj| == |adj0|
  {
  }

  lemma OthersGain(linked0: set<Place>, sources: seq<Place>, p: Place, q: Place)
    ensures linked0 + Others([], p) == linked0
    ensures
      var linked := linked0 + Others(sources, p);
      linked0 + Others(sources + [q], p) == if q != p && q !in linked then linked + {q} else linked
  {
  }

  lemma MoreProviders(targets: seq<Target>, byFile: map<string, seq<Place>>, p: Place, files: seq<string>, file: string)
    requires FilesIndexed(targets, byFile, |targets|)
    ensures ProvidersOf(targets, p, files + [file])
         == ProvidersOf(targets, p, files) + (if file in byFile then Others(byFile[file], p) else {})
  {
  }

  lemma ProvidersOfNothing(targets: seq<Target>, p: Place, adj: seq<set<Place>>)
    ensures ProvidersOf(targets, p, []) == {} && Linked(adj, adj, p, {})
  {
  }

  ghost predicate NoneHolds(adj: seq<set<Place>>, p: Place) {
    forall j | 0 <= j < |adj| :: p !in adj[j]
  }

  method LinkTarget(targets: seq<Target>, byFile: map<string, seq<Place>>, adj0: seq<set<Place>>, p: Place)
    returns (adj: seq<set<Place>>, count: nat)
    requires FilesIndexed(targets, byFile, |targets|)
    requires p.idx < |targets| == |adj0| && NoneHolds(adj0, p)
    ensures Linked(adj0, adj, p, Dependencies(targets, p)) && count == |Dependencies(targets, p)|
  {
    hide Linked, ProvidersOf, DependencyFiles, Others;
    var files := DependencyFiles(targets[p.idx]);
    adj, count := adj0, 0;
    var k := 0;
    ProvidersOfNothing(targets, p, adj0);
    assert files[..0] == [];
    while k < |files|
      invariant 0 <= k <= |files| && Linked(adj0, adj, p, ProvidersOf(targets, p, files[..k]))
      invariant count == |ProvidersOf(targets, p, files[..k])|
    {
      assert files[..k + 1] == files[..k] + [files[k]];
      MoreProviders(targets, byFile, p, files[..k], files[k]);
      if files[k] in byFile {
        adj, count := LinkFile(adj0, adj, p, count, byFile[files[k]], ProvidersOf(targets, p, files[..k]));
      }
      k := k + 1;
    }
    assert files[..k] == files;
  }

  /** The edges into the first `n` targets, and no others. */
  ghost predicate AdjUpTo(targets: seq<Target>, adj: seq<set<Place>>, n: nat)
    requires n <= |targets|
  {
    && |adj| == |targets|
    && forall j, p | 0 <= j < |targets| :: p in adj[j] <==> p.idx < n && Place(j) in Dependencies(targets, p)
  }

  lemma AdjStep(targets: seq<Target>, adj0: seq<set<Place>>, adj: seq<set<Place>>, n: nat)
    requires n < |targets| && AdjUpTo(targets, adj0, n) && Linked(adj0, adj, Place(n), Dependencies(targets, Place(n)))
    ensures AdjUpTo(targets, adj, n + 1) && |adj| == |targets| && NoneHolds(adj, Place(n + 1))
  {
    hide Dependencies;
    forall j, p | 0 <= j < |targets|
      ensures p in adj[j] <==> p.idx < n + 1 && Place(j) in Dependencies(targets, p)
    {
      assert p.idx < n + 1 <==> p.idx < n || p == Place(n);
    }
  }

  lemma EdgesMeaning(targets: seq<Target>, adj: seq<set<Place>>)
    requires AdjUpTo(targets, adj, |targets|) && |adj| == |targets|
    ensures forall p | p in TargetGraph(targets).nodes :: adj[p.idx] == Dependents(TargetGraph(targets), p)
    ensures forall p | p in TargetGraph(targets).nodes :: Waiting(TargetGraph(targets), {}, p) == |Dependencies(targets, p)|
  {
    hide TargetGraph, Dependencies, AdjUpTo, Waiting, Dependents;
    forall p | p in TargetGraph(targets).nodes
      ensures adj[p.idx] == Dependents(TargetGraph(targets), p)
      ensures Waiting(TargetGraph(targets), {}, p) == |Dependencies(targets, p)|
    {
      EdgesAt(targets, adj, p);
      ReadyIsNotWaiting(TargetGraph(targets), {}, p);
    }
  }

  lemma EdgesAt(targets: seq<Target>, adj: seq<set<Place>>, p: Place)
    requires AdjUpTo(targets, adj, |targets|) && p.idx < |targets|
    ensures adj[p.idx] == Dependents(TargetGraph(targets), p)
  {
    hide TargetGraph, Dependencies;
    var g := TargetGraph(targets);
    assert Place(p.idx) == p;
    forall q
      ensures q in adj[p.idx] <==> q in Dependents(g, p)
    {
    }
  }

  ghost predicate FirstCounts(targets: seq<Target>, counts: seq<nat>, n: nat)
    requires n <= |targets| == |counts|
  {
    forall k | 0 <= k < n :: counts[k] == |Dependencies(targets, Place(k))|
  }

  lemma CountStep(targets: seq<Target>, counts: seq<nat>, n: nat, count: nat)
    requires n < |targets| == |counts| && FirstCounts(targets, counts, n) && count == |Dependencies(targets, Place(n))|
    ensures FirstCounts(targets, counts[n := count], n + 1)
  {
    hide Dependencies;
  }

  method BuildEdges(targets: seq<Target>) returns (adj: seq<set<Place>>, inDegree: array<nat>)
    ensures fresh(inDegree) && |adj| == inDegree.Length == |targets|
    ensures forall p | p in TargetGraph(targets).nodes :: adj[p.idx] == Dependents(TargetGraph(targets), p)
    ensures Counted(TargetGraph(targets), {}, ByPlace(inDegree[..]))
  {
    hide TargetGraph, Dependencies, Linked, FilesIndexed, AdjUpTo, FirstCounts, Counted, Waiting, Dependents, Closed, NoneHolds;
    var byFile := IndexFiles(targets);
    adj := seq(|targets|, i => {});
    inDegree := new nat[|targets|](i => 0);
    var i := 0;
    NoEdgesYet(targets, adj);
    assert FirstCounts(targets, inDegree[..], 0) by { NothingCounted(targets, inDegree[..]); }
    while i < |targets|
      invariant 0 <= i <= |targets| && AdjUpTo(targets, adj, i) && |adj| == |targets|
      invariant NoneHolds(adj, Place(i)) && FirstCounts(targets, inDegree[..], i)
    {
      label Counting:
      ghost var adj0 := adj;
      var count;
      adj, count := LinkTarget(targets, byFile, adj, Place(i));
      AdjStep(targets, adj0, adj, i);
      CountStep(targets, inDegree[..], i, count);
      inDegree[i] := count;
      assert inDegree[..] == old@Counting(inDegree[..])[i := count];
      i := i + 1;
    }
    EdgesMeaning(targets, adj);
    CountedFromStart(targets, inDegree[..]);
  }

  lemma NothingCounted(targets: seq<Target>, counts: seq<nat>)
    requires |targets| == |counts|
    ensures FirstCounts(targets, counts, 0)
  {
  }

  lemma NoEdgesYet(targets: seq<Target>, adj: seq<set<Place>>)
    requires |adj| == |targets| && forall j | 0 <= j < |adj| :: adj[j] == {}
    ensures AdjUpTo(targets, adj, 0) && NoneHolds(adj, Place(0))
  {
    hide Dependencies;
  }

  lemma CountedFromStart(targets: seq<Target>, inDegree: seq<nat>)
    requires |inDegree| == |targets| && FirstCounts(targets, inDegree, |targets|)
    requires forall p | p in TargetGraph(targets).nodes :: Waiting(TargetGraph(targets), {}, p) == |Dependencies(targets, p)|
    ensures Counted(TargetGraph(targets), {}, ByPlace(inDegree))
  {
    hide TargetGraph, Dependencies, Waiting;
    forall p | p in TargetGraph(targets).nodes
      ensures inDegree[p.idx] == Waiting(TargetGraph(targets), {}, p)
    {
      assert p == Place(p.idx);
    }
  }

  // ---- Kahn's loop -------------------------------------------------------------------------

  /** The counters of an array, by place. */
  function ByPlace(inDegree: seq<nat>): (counters: map<Place, nat>)
    ensures counters.Keys == Places(|inDegree|)
  {
    map p | p in Places(|inDegree|) :: inDegree[p.idx]
  }

  /** Take one from the counter of every neighbour, and queue those with nothing left to wait for.
    The counters are never at zero beforehand, so the saturating subtraction is a plain one. */
  method Release(neighbors: set<Place>, queue0: set<Place>, inDegree: array<nat>) returns (queue: set<Place>)
    requires forall p | p in neighbors :: p.idx < inDegree.Length && inDegree[p.idx] >= 1
    modifies inDegree
    ensures Decremented(neighbors, old(ByPlace(inDegree[..])), ByPlace(inDegree[..]))
    ensures queue == queue0 + Zeroed(neighbors, old(ByPlace(inDegree[..])))
  {
    queue := queue0;
    var todo := neighbors;
    while todo != {}
      invariant todo <= neighbors
      invariant forall i | 0 <= i < inDegree.Length ::
        inDegree[i] + (if Place(i) in neighbors && Place(i) !in todo then 1 else 0) == old(inDegree[i])
      invariant forall p :: p in queue <==> p in queue0 || (p in neighbors && p !in todo && old(inDegree[p.idx]) == 1)
      decreases todo
    {
      var neighbor :| neighbor in todo;
      var degree := inDegree[neighbor.idx];
      inDegree[neighbor.idx] := if degree == 0 then 0 else degree - 1;
      if inDegree[neighbor.idx] == 0 {
        queue := queue + {neighbor};
      }
      todo := todo - {neighbor};
    }
    assert queue == queue0 + Zeroed(neighbors, old(ByPlace(inDegree[..])));
  }

  method PlaceAll(ghost g: Graph<Place>, adj: seq<set<Place>>, inDegree: array<nat>)
    returns (orderedIndices: seq<Place>)
    requires Closed(g) && g.nodes <= g.deps.Keys && g.nodes == Places(|adj|)
    requires forall p | p in g.nodes :: adj[p.idx] == Dependents(g, p)
    requires Counted(g, {}, ByPlace(inDegree[..]))
    modifies inDegree
    ensures KahnState(g, PlaceLess, orderedIndices, {}) && Counted(g, Elements(orderedIndices), ByPlace(inDegree[..]))
  {
    hide PlaceLess, Waiting, Dependents, KahnState, StrictTotal, IsFirst, Counted, Elements, Decremented, Freed, Zeroed, Closed;
    PlacesAreOrdered();
    var queue := NothingPending(ByPlace(inDegree[..]));
    orderedIndices := [];
    QueueIsReady(g, PlaceLess, ByPlace(inDegree[..]));
    while queue != {}
      invariant KahnState(g, PlaceLess, orderedIndices, queue) && Counted(g, Elements(orderedIndices), ByPlace(inDegree[..]))
      decreases g.nodes - Elements(orderedIndices)
    {
      var p := First(PlaceLess, queue);
      KahnStep(g, PlaceLess, orderedIndices, queue, p);
      InElements(orderedIndices, p);
      BeforeRelease(g, Elements(orderedIndices), p, ByPlace(inDegree[..]));
      ghost var before := ByPlace(inDegree[..]);
      queue := queue - {p};
      assert forall q | q in adj[p.idx] :: q.idx < inDegree.Length && inDegree[q.idx] == before[q];
      queue := Release(adj[p.idx], queue, inDegree);
      AfterRelease(g, Elements(orderedIndices), p, before, ByPlace(inDegree[..]));
      orderedIndices := orderedIndices + [p];
    }
  }

  lemma InElements(order: seq<Place>, p: Place)
    ensures p in order <==> p in Elements(order)
  {
  }

  // ---- Putting the targets in order --------------------------------------------------------

  /** The targets not yet moved out of their slots. */
  ghost function Untaken(slots: seq<Option<Target>>): multiset<Target> {
    if slots == [] then multiset{}
    else
      var last := slots[|slots| - 1];
      Untaken(slots[..|slots| - 1]) + (if last.Some? then multiset{last.value} else multiset{})
  }

  lemma {:induction false} TakeSlot(slots: seq<Option<Target>>, i: nat)
    requires i < |slots| && slots[i].Some?
    ensures Untaken(slots) == Untaken(slots[i := None]) + multiset{slots[i].value}
  {
    var n := |slots| - 1;
    if i < n {
      TakeSlot(slots[..n], i);
      assert slots[i := None][..n] == slots[..n][i := None];
    } else {
      assert slots[i := None][..n] == slots[..n];
    }
  }

  lemma {:induction false} AllUntaken(targets: seq<Target>)
    ensures Untaken(seq(|targets|, i requires 0 <= i < |targets| => Some(targets[i]))) == multiset(targets)
  {
    var slots := seq(|targets|, i requires 0 <= i < |targets| => Some(targets[i]));
    if targets != [] {
      var n := |targets| - 1;
      AllUntaken(targets[..n]);
      assert slots[..n] == seq(n, i requires 0 <= i < n => Some(targets[..n][i]));
      assert targets == targets[..n] + [targets[n]];
    }
  }

  lemma {:induction false} NoneUntaken(slots: seq<Option<Target>>)
    requires forall i | 0 <= i < |slots| :: slots[i].None?
    ensures Untaken(slots) == multiset{}
  {
    if slots != [] {
      NoneUntaken(slots[..|slots| - 1]);
    }
  }

  lemma NothingArranged(targets: seq<Target>, order: seq<Place>)
    ensures order[..0] == [] && Elements(order[..0]) <= Places(|targets|) && Arranged(targets, order[..0]) == []
  {
  }

  lemma ArrangeNext(targets: seq<Target>, order: seq<Place>, k: nat)
    requires Distinct(order) && Elements(order) == Places(|targets|) && k < |order|
    requires Elements(order[..k]) <= Places(|targets|)
    ensures order[k].idx < |targets| && order[k] !in order[..k] && order[..k + 1] == order[..k] + [order[k]]
    ensures Elements(order[..k + 1]) <= Places(|targets|)
    ensures Arranged(targets, order[..k + 1]) == Arranged(targets, order[..k]) + [targets[order[k].idx]]
  {
    assert order[k] in Elements(order);
    assert order[..k + 1][..k] == order[..k];
  }

  method TakeInOrder(targets: seq<Target>, order: seq<Place>) returns (result: seq<Target>)
    requires Distinct(order) && Elements(order) == Places(|targets|)
    ensures multiset(result) == multiset(targets) && result == Arranged(targets, order)
  {
    hide Untaken, Arranged, Distinct;
    var slots := seq(|targets|, i requires 0 <= i < |targets| => Some(targets[i]));
    AllUntaken(targets);
    result := [];
    var k := 0;
    NothingArranged(targets, order);
    while k < |order|
      invariant 0 <= k <= |order| && |slots| == |targets|
      invariant Elements(order[..k]) <= Places(|targets|)
      invariant forall i | 0 <= i < |slots| :: slots[i] == if Place(i) in order[..k] then None else Some(targets[i])
      invariant result == Arranged(targets, order[..k])
      invariant multiset(result) + Untaken(slots) == multiset(targets)
    {
      var p := order[k];
      ArrangeNext(targets, order, k);
      assert Place(p.idx) == p;
      if slots[p.idx].Some? {
        TakeSlot(slots, p.idx);
        result := result + [slots[p.idx].value];
        slots := slots[p.idx := None];
      }
      k := k + 1;
    }
    assert order[..k] == order;
    forall i | 0 <= i < |slots|
      ensures slots[i].None?
    {
      assert Place(i) in Elements(order);
    }
    NoneUntaken(slots);
  }

  method SortTargetsTopologically(targets: seq<Target>) returns (result: Result<seq<Target>, set<Place>>)
    ensures Sorted(targets, result)
  {
    hide TargetGraph, PlaceLess, Waiting, KahnState, Cyclic, OnOrAfterCycle, LeastTopological, Greedy, Arranged, Closed, Distinct,
         Elements, StrictTotal, Dependencies, Dependents, Counted;
    ghost var g := TargetGraph(targets);
    var adj, inDegree := BuildEdges(targets);
    var orderedIndices := PlaceAll(g, adj, inDegree);
    FinishedMeaning(g, PlaceLess, orderedIndices);
    PlacesSize(|targets|);
    if |orderedIndices| != |targets| {
      var remaining := set p | p in Places(inDegree.Length) && inDegree[p.idx] > 0;
      StillWaiting(targets, orderedIndices, inDegree[..], remaining);
      return Err(remaining);
    }
    assert Topological(g, orderedIndices) && Greedy(g, PlaceLess, orderedIndices) by { LeastIsTopological(g, orderedIndices); }
    var sorted := TakeInOrder(targets, orderedIndices);
    assert IsArrangement(targets, orderedIndices, sorted);
    return Ok(sorted);
  }

  lemma StillWaiting(targets: seq<Target>, order: seq<Place>, inDegree: seq<nat>, remaining: set<Place>)
    requires Counted(TargetGraph(targets), Elements(order), ByPlace(inDegree))
    requires KahnState(TargetGraph(targets), PlaceLess, order, {}) && |inDegree| == |targets|
    requires remaining == set p | p in Places(|inDegree|) && inDegree[p.idx] > 0
    ensures remaining == set p | p in TargetGraph(targets).nodes && OnOrAfterCycle(TargetGraph(targets), p)
  {
    var g := TargetGraph(targets);
    hide TargetGraph, PlaceLess, Waiting, KahnState, Cyclic, OnOrAfterCycle, LeastTopological, Closed, Elements;
    FinishedMeaning(g, PlaceLess, order);
    LeftOver(g, PlaceLess, order);
    forall p
      ensures p in remaining <==> p in g.nodes && OnOrAfterCycle(g, p)
    {
      if p in g.nodes {
        assert inDegree[p.idx] == Waiting(g, Elements(order), p);
      }
    }
  }

  lemma LeastIsTopological(g: Graph<Place>, order: seq<Place>)
    requires LeastTopological(g, PlaceLess, order) && g.nodes <= g.deps.Keys && KahnState(g, PlaceLess, order, {})
    ensures Topological(g, order) && Greedy(g, PlaceLess, order)
  {
  }
}
