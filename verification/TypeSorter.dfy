/** Sorting the loaded types of a namespace so that every type comes after the local types it uses. */
module TypeSorter {
  import opened Wrappers
  import opened DependencyGraph
  import opened HashSets
  import opened TotalOrder

  datatype FieldType =
    | Abstract(typeName: string)
    | ExtensionObject
    | Normal(name: string, namespace: Option<string>)

  datatype StructureFieldType = Field(typ: FieldType) | Array(typ: FieldType)

  /** `payload` stands for everything about a type that sorting does not look at. */
  datatype LoadedType =
    | Struct(structName: string, baseType: Option<FieldType>, fields: seq<StructureFieldType>, payload: string)
    | Enum(enumName: string, payload: string)
  {
    function Name(): string {
      if Struct? then structName else enumName
    }
  }

  type TypeMap = map<string, LoadedType>

  datatype SortError = DuplicateType(name: string) | CircularTypes(remaining: set<string>)

  // ---- Names in code point order -----------------------------------------------------------

  predicate NameLess(a: string, b: string) {
    b != "" && (a == "" || a[0] < b[0] || (a[0] == b[0] && NameLess(a[1..], b[1..])))
  }

  lemma {:induction false} NameLessIrreflexive(a: string)
    ensures !NameLess(a, a)
  {
    if a != "" {
      NameLessIrreflexive(a[1..]);
    }
  }

  lemma {:induction false} NameLessTransitive(a: string, b: string, c: string)
    requires NameLess(a, b) && NameLess(b, c)
    ensures NameLess(a, c)
  {
    if a != "" && a[0] == b[0] == c[0] {
      NameLessTransitive(a[1..], b[1..], c[1..]);
    }
  }

  lemma {:induction false} NameLessConnected(a: string, b: string)
    ensures a == b || NameLess(a, b) || NameLess(b, a)
  {
    if a != "" && b != "" && a[0] == b[0] {
      NameLessConnected(a[1..], b[1..]);
      assert a == [a[0]] + a[1..] && b == [b[0]] + b[1..];
    }
  }

  /** Type names are strictly and totally ordered, as the sorted maps of the sorter need. */
  lemma NamesAreOrdered()
    ensures StrictTotal(NameLess)
  {
    forall a, b, c
      ensures !NameLess(a, a)
      ensures NameLess(a, b) && NameLess(b, c) ==> NameLess(a, c)
      ensures a == b || NameLess(a, b) || NameLess(b, a)
    {
      NameLessIrreflexive(a);
      if NameLess(a, b) && NameLess(b, c) {
        NameLessTransitive(a, b, c);
      }
      NameLessConnected(a, b);
    }
  }

  // ---- Dependencies ------------------------------------------------------------------------

  function LocalDependencyName(f: FieldType, targetNamespace: string): Option<string> {
    match f
    case Normal(name, Some(namespace)) => if namespace != targetNamespace then None else Some(name)
    case Normal(name, None) => Some(name)
    case _ => None
  }

  function LocalDependency(f: FieldType, targetNamespace: string, types: TypeMap): set<string> {
    var name := LocalDependencyName(f, targetNamespace);
    if name.Some? && name.value in types then {name.value} else {}
  }

  function TypeDependencies(item: LoadedType, targetNamespace: string, types: TypeMap): (deps: set<string>)
    ensures deps <= types.Keys
  {
    if item.Enum? then {}
    else
      (if item.baseType.Some? then LocalDependency(item.baseType.value, targetNamespace, types) else {})
      + set i, n | 0 <= i < |item.fields| && n in LocalDependency(item.fields[i].typ, targetNamespace, types) :: n
  }

  function TypeGraph(types: TypeMap, targetNamespace: string): (g: Graph<string>)
    ensures g.nodes == g.deps.Keys == types.Keys && Closed(g)
  {
    Graph(types.Keys, map name | name in types :: TypeDependencies(types[name], targetNamespace, types))
  }

  ghost predicate NamedByKey(types: TypeMap) {
    forall name | name in types :: types[name].Name() == name
  }

  predicate NameRepeats(types: seq<LoadedType>, i: nat)
    requires i < |types|
  {
    exists j :: 0 <= j < i && types[j].Name() == types[i].Name()
  }

  ghost predicate NamesDistinct(types: seq<LoadedType>) {
    forall i | 0 <= i < |types| :: !NameRepeats(types, i)
  }

  /** The types by name, when no name repeats. */
  function MapOf(types: seq<LoadedType>): TypeMap {
    if types == [] then map[]
    else MapOf(types[..|types| - 1])[types[|types| - 1].Name() := types[|types| - 1]]
  }

  lemma {:induction false} MapOfMeaning(types: seq<LoadedType>)
    ensures NamedByKey(MapOf(types))
    ensures forall name :: name in MapOf(types) <==> exists i :: 0 <= i < |types| && types[i].Name() == name
  {
    if types != [] {
      var n := |types| - 1;
      MapOfMeaning(types[..n]);
      forall name
        ensures name in MapOf(types) <==> exists i :: 0 <= i < |types| && types[i].Name() == name
      {
        if name in MapOf(types[..n]) {
          var i :| 0 <= i < n && types[..n][i].Name() == name;
          assert types[i].Name() == name;
        }
        if i :| 0 <= i < |types| && types[i].Name() == name {
          assert i < n ==> types[..n][i].Name() == name;
        }
      }
    }
  }

  /** What sorting promises for every input. */
  ghost predicate Sorted(types: seq<LoadedType>, targetNamespace: string, result: Result<seq<LoadedType>, SortError>) {
    var g := TypeGraph(MapOf(types), targetNamespace);
    match result
    case Err(DuplicateType(name)) => FirstRepeat(types, name)
    case Err(CircularTypes(remaining)) =>
      NamesDistinct(types) && Cyclic(g) && remaining == set n | n in g.nodes && OnOrAfterCycle(g, n)
    case Ok(sorted) =>
      NamesDistinct(types) && !Cyclic(g)
      && multiset(sorted) == multiset(types)
      && LeastTopological(g, NameLess, NamesOf(sorted)) && Greedy(g, NameLess, NamesOf(sorted))
  }

  // ---- The promise, told on the types ------------------------------------------------------

  /** A type a structure is made of: its base, or the type of a field or of an array's elements. */
  ghost predicate PartOf(user: LoadedType, f: FieldType) {
    user.Struct? && (user.baseType == Some(f) || Field(f) in user.fields || Array(f) in user.fields)
  }

  /** It is made of the type of that name in the target namespace, which may be left out. */
  ghost predicate Uses(user: LoadedType, name: string, targetNamespace: string) {
    exists f :: PartOf(user, f) && (f == Normal(name, None) || f == Normal(name, Some(targetNamespace)))
  }

  lemma UsesLocal(user: LoadedType, f: FieldType, name: string, targetNamespace: string, types: TypeMap)
    requires PartOf(user, f) && name in LocalDependency(f, targetNamespace, types)
    ensures Uses(user, name, targetNamespace) && name in types
  {
  }

  /** The graph has exactly these edges, between types that are there. */
  lemma EdgesAreUses(types: TypeMap, targetNamespace: string, m: string, n: string)
    requires m in types
    ensures n in TypeGraph(types, targetNamespace).deps[m] <==> n in types && Uses(types[m], n, targetNamespace)
  {
    hide LocalDependency, Uses;
    var user := types[m];
    if n in TypeGraph(types, targetNamespace).deps[m] {
      if user.baseType.Some? && n in LocalDependency(user.baseType.value, targetNamespace, types) {
        UsesLocal(user, user.baseType.value, n, targetNamespace, types);
      } else {
        var i :| 0 <= i < |user.fields| && n in LocalDependency(user.fields[i].typ, targetNamespace, types);
        assert user.fields[i] in user.fields;
        UsesLocal(user, user.fields[i].typ, n, targetNamespace, types);
      }
    }
    if n in types && Uses(user, n, targetNamespace) {
      UsedIsDependency(user, n, targetNamespace, types);
    }
  }

  lemma UsedIsDependency(user: LoadedType, name: string, targetNamespace: string, types: TypeMap)
    requires name in types && Uses(user, name, targetNamespace)
    ensures name in TypeDependencies(user, targetNamespace, types)
  {
    var f :| PartOf(user, f) && (f == Normal(name, None) || f == Normal(name, Some(targetNamespace)));
    assert name in LocalDependency(f, targetNamespace, types);
    if user.baseType != Some(f) {
      var i :| 0 <= i < |user.fields| && (user.fields[i] == Field(f) || user.fields[i] == Array(f));
      assert name in LocalDependency(user.fields[i].typ, targetNamespace, types);
    }
  }

  /** Names of types of which each uses one of these names. */
  ghost predicate UseEachOther(types: seq<LoadedType>, targetNamespace: string, names: set<string>) {
    forall n | n in names :: exists t, m :: t in types && t.Name() == n && m in names && Uses(t, m, targetNamespace)
  }

  /** When sorting succeeds, a type comes after every type it uses; and of two types the one with the
    smaller name comes first unless it uses something that is not placed yet. */
  lemma SortedTypesMeaning(types: seq<LoadedType>, targetNamespace: string, sorted: seq<LoadedType>, i: nat, j: nat)
    requires Sorted(types, targetNamespace, Ok(sorted)) && i < |sorted| && j < |sorted|
    ensures Uses(sorted[i], sorted[j].Name(), targetNamespace) ==> j < i
    ensures i < j && (forall k | i <= k < |sorted| :: !Uses(sorted[j], sorted[k].Name(), targetNamespace)) ==>
      NameLess(sorted[i].Name(), sorted[j].Name())
  {
    hide TypeGraph, NameLess, Cyclic, LeastTopological, Greedy, MapOf, Uses, NamesDistinct;
    var byName := MapOf(types);
    var g, names := TypeGraph(byName, targetNamespace), NamesOf(sorted);
    SortedLookup(types, targetNamespace, sorted);
    GreedyFacts(g, NameLess, names);
    EdgesAreUses(byName, targetNamespace, names[i], names[j]);
    if Uses(sorted[i], sorted[j].Name(), targetNamespace) {
      assert names[j] in names[..i];
      var k :| 0 <= k < i && names[k] == names[j];
    }
    if i < j && forall k | i <= k < |sorted| :: !Uses(sorted[j], sorted[k].Name(), targetNamespace) {
      forall k | i <= k < |names|
        ensures names[k] !in g.deps[names[j]]
      {
        EdgesAreUses(byName, targetNamespace, names[j], names[k]);
      }
      GreedyMeaning(g, NameLess, names, i, j);
    }
  }

  lemma SortedLookup(types: seq<LoadedType>, targetNamespace: string, sorted: seq<LoadedType>)
    requires Sorted(types, targetNamespace, Ok(sorted))
    ensures forall k | 0 <= k < |sorted| :: sorted[k].Name() in MapOf(types) && MapOf(types)[sorted[k].Name()] == sorted[k]
  {
    hide TypeGraph, Cyclic, LeastTopological, Greedy, MapOf, NamesDistinct;
    forall k | 0 <= k < |sorted|
      ensures sorted[k].Name() in MapOf(types) && MapOf(types)[sorted[k].Name()] == sorted[k]
    {
      assert sorted[k] in multiset(types);
      var i :| 0 <= i < |types| && types[i] == sorted[k];
      MapOfLookup(types, i);
    }
  }

  /** Without a repeated name, sorting fails exactly when some types use each other round and round; what
    it reports is the largest set of names of types of which each uses one of the set. */
  lemma CircularTypesMeaning(types: seq<LoadedType>, targetNamespace: string, result: Result<seq<LoadedType>, SortError>)
    requires NamesDistinct(types) && Sorted(types, targetNamespace, result)
    ensures result.Ok? ==> forall names | UseEachOther(types, targetNamespace, names) :: names == {}
    ensures result.Err? ==> result.error.CircularTypes? && result.error.remaining != {}
    ensures result.Err? ==> UseEachOther(types, targetNamespace, result.error.remaining)
    ensures result.Err? ==> forall names | UseEachOther(types, targetNamespace, names) :: names <= result.error.remaining
  {
    hide TypeGraph, NameLess, Cyclic, LeastTopological, Greedy, MapOf, OnOrAfterCycle, UseEachOther, NamesDistinct, NameRepeats;
    if result.Err? && result.error.DuplicateType? {
      RepeatIsNotDistinct(types, result.error.name);
    }
    var g := TypeGraph(MapOf(types), targetNamespace);
    var stuck := set n | n in g.nodes && OnOrAfterCycle(g, n);
    AfterCycleIsLargest(g, stuck);
    FeedsMeaning(types, targetNamespace, stuck);
    forall names | UseEachOther(types, targetNamespace, names)
      ensures names <= stuck
    {
      FeedsMeaning(types, targetNamespace, names);
    }
  }

  lemma RepeatIsNotDistinct(types: seq<LoadedType>, name: string)
    requires FirstRepeat(types, name)
    ensures !NamesDistinct(types)
  {
  }

  lemma FeedsMeaning(types: seq<LoadedType>, targetNamespace: string, names: set<string>)
    requires NamesDistinct(types)
    ensures
      var g := TypeGraph(MapOf(types), targetNamespace);
      UseEachOther(types, targetNamespace, names) <==> names <= g.nodes && Feeds(g, names)
  {
    hide TypeGraph, MapOf, Uses, NamesDistinct;
    var byName := MapOf(types);
    var g := TypeGraph(byName, targetNamespace);
    MapOfMeaning(types);
    forall t | t in types
      ensures t.Name() in byName && byName[t.Name()] == t
    {
      var i :| 0 <= i < |types| && types[i] == t;
      MapOfLookup(types, i);
    }
    forall n, m | n in byName
      ensures m in g.deps[n] <==> m in byName && Uses(byName[n], m, targetNamespace)
    {
      EdgesAreUses(byName, targetNamespace, n, m);
    }
    forall n | n in byName
      ensures byName[n] in types && byName[n].Name() == n
    {
      var i :| 0 <= i < |types| && types[i].Name() == n;
      assert types[i] in types;
    }
  }

  lemma SameStart(a: string, b: string, k: nat)
    requires 0 < k <= |a| && k <= |b| && a[..k] == b[..k]
    ensures a[0] == b[0]
  {
    assert a[..k][0] == a[0] && b[..k][0] == b[0];
  }

  /** Names are compared at the first place where they differ, a name before its continuations. */
  lemma {:induction false} NameLessMeaning(a: string, b: string)
    ensures NameLess(a, b) <==>
      exists k :: 0 <= k <= |a| && k < |b| && a[..k] == b[..k] && (k == |a| || a[k] < b[k])
    decreases |a|
  {
    if a != "" && b != "" && a[0] == b[0] {
      NameLessMeaning(a[1..], b[1..]);
      if NameLess(a, b) {
        var k :| 0 <= k <= |a[1..]| && k < |b[1..]| && a[1..][..k] == b[1..][..k] && (k == |a[1..]| || a[1..][k] < b[1..][k]);
        assert a[..k + 1] == [a[0]] + a[1..][..k] && b[..k + 1] == [b[0]] + b[1..][..k];
      }
      if k :| 0 <= k <= |a| && k < |b| && a[..k] == b[..k] && (k == |a| || a[k] < b[k]) {
        assert k > 0;
        assert a[1..][..k - 1] == a[..k][1..] && b[1..][..k - 1] == b[..k][1..];
      }
    } else {
      if NameLess(a, b) {
        assert a[..0] == b[..0];
      }
      if k :| 0 <= k <= |a| && k < |b| && a[..k] == b[..k] && (k == |a| || a[k] < b[k]) {
        if k > 0 {
          SameStart(a, b, k);
        }
      }
    }
  }

  /** The name of the first type whose name was seen before. */
  ghost predicate FirstRepeat(types: seq<LoadedType>, name: string) {
    exists i :: 0 <= i < |types| && NameRepeats(types, i) && types[i].Name() == name
                && forall j | 0 <= j < i :: !NameRepeats(types, j)
  }

  function NamesOf(types: seq<LoadedType>): seq<string> {
    seq(|types|, i requires 0 <= i < |types| => types[i].Name())
  }

  // ---- The sorter --------------------------------------------------------------------------

  ghost function ItemSet(types: TypeMap): set<LoadedType> {
    set name | name in types :: types[name]
  }

  ghost function Items(types: TypeMap): multiset<LoadedType> {
    multiset(ItemSet(types))
  }

  lemma ItemsByName(types: TypeMap)
    requires NamedByKey(types)
    ensures forall x :: x in ItemSet(types) <==> x.Name() in types && types[x.Name()] == x
  {
  }

  lemma ItemsGain(types: TypeMap, t: LoadedType)
    requires NamedByKey(types) && t.Name() !in types
    ensures Items(types[t.Name() := t]) == Items(types) + multiset{t}
    ensures NamedByKey(types[t.Name() := t])
  {
    var more := types[t.Name() := t];
    hide ItemSet;
    ItemsByName(types);
    ItemsByName(more);
    forall x
      ensures x in ItemSet(more) <==> x in ItemSet(types) || x == t
    {
    }
    assert ItemSet(more) == ItemSet(types) + {t};
  }

  lemma KnownMeansRepeats(types: seq<LoadedType>, i: nat)
    requires i < |types|
    ensures types[i].Name() in MapOf(types[..i]) <==> NameRepeats(types, i)
  {
    MapOfMeaning(types[..i]);
    if NameRepeats(types, i) {
      var j :| 0 <= j < i && types[j].Name() == types[i].Name();
      assert types[..i][j] == types[j];
    }
    if types[i].Name() in MapOf(types[..i]) {
      var j :| 0 <= j < |types[..i]| && types[..i][j].Name() == types[i].Name();
      assert types[j].Name() == types[i].Name();
    }
  }

  lemma MapOfExtends(types: seq<LoadedType>, t: LoadedType)
    ensures MapOf(types + [t]) == MapOf(types)[t.Name() := t]
  {
    assert (types + [t])[..|types|] == types;
  }

  method BuildTypeMap(types: seq<LoadedType>) returns (result: Result<TypeMap, SortError>)
    ensures result.Ok? ==> NamesDistinct(types) && result.value == MapOf(types) && Items(result.value) == multiset(types)
    ensures result.Err? ==> result.error.DuplicateType? && FirstRepeat(types, result.error.name)
  {
    hide Items, NameRepeats, MapOf, NamedByKey;
    var typeMap: TypeMap := map[];
    var i := 0;
    NoItems();
    assert types[..0] == [];
    while i < |types|
      invariant 0 <= i <= |types|
      invariant typeMap == MapOf(types[..i]) && Items(typeMap) == multiset(types[..i])
      invariant forall j | 0 <= j < i :: !NameRepeats(types, j)
    {
      assert types[..i + 1] == types[..i] + [types[i]];
      MapOfExtends(types[..i], types[i]);
      var name := types[i].Name();
      MapOfMeaning(types[..i]);
      KnownMeansRepeats(types, i);
      if name in typeMap {
        return Err(DuplicateType(name));
      }
      ItemsGain(typeMap, types[i]);
      typeMap := typeMap[name := types[i]];
      i := i + 1;
    }
    assert types[..i] == types;
    return Ok(typeMap);
  }

  lemma NoItems()
    ensures Items(map[]) == multiset{} && MapOf([]) == map[]
  {
    assert ItemSet(map[]) == {};
  }

  /** Those of the types seen so far that depend on `dep`. */
  ghost function UsersAmong(typeMap: TypeMap, targetNamespace: string, seen: set<string>, dep: string): set<string> {
    set m | m in seen && m in typeMap && dep in TypeDependencies(typeMap[m], targetNamespace, typeMap)
  }

  lemma UsersGain(typeMap: TypeMap, targetNamespace: string, seen: set<string>, name: string, dep: string)
    requires name in typeMap
    ensures UsersAmong(typeMap, targetNamespace, seen + {name}, dep)
         == UsersAmong(typeMap, targetNamespace, seen, dep)
            + (if dep in TypeDependencies(typeMap[name], targetNamespace, typeMap) then {name} else {})
  {
    hide TypeDependencies;
  }

  lemma UsersOfAll(typeMap: TypeMap, targetNamespace: string, dep: string)
    ensures UsersAmong(typeMap, targetNamespace, typeMap.Keys, dep) == Dependents(TypeGraph(typeMap, targetNamespace), dep)
    ensures UsersAmong(typeMap, targetNamespace, {}, dep) == {}
  {
    hide TypeDependencies;
  }

  function AddEdges(adj: map<string, set<string>>, deps: set<string>, name: string): (more: map<string, set<string>>)
    ensures more.Keys == adj.Keys
    ensures forall d | d in adj :: more[d] == adj[d] + (if d in deps then {name} else {})
  {
    map d | d in adj :: if d in deps then adj[d] + {name} else adj[d]
  }

  method BuildAdjacency(typeMap: TypeMap, targetNamespace: string) returns (adj: map<string, set<string>>)
    ensures adj.Keys == typeMap.Keys
    ensures forall d | d in adj :: adj[d] == Dependents(TypeGraph(typeMap, targetNamespace), d)
  {
    hide TypeDependencies, UsersAmong, Dependents, TypeGraph, AddEdges;
    adj := map name | name in typeMap :: {};
    var todo := typeMap.Keys;
    ghost var seen: set<string> := {};
    forall d
      ensures UsersAmong(typeMap, targetNamespace, {}, d) == {}
    {
      UsersOfAll(typeMap, targetNamespace, d);
    }
    while todo != {}
      invariant todo <= typeMap.Keys && seen == typeMap.Keys - todo && adj.Keys == typeMap.Keys
      invariant forall d | d in adj :: adj[d] == UsersAmong(typeMap, targetNamespace, seen, d)
      decreases todo
    {
      var name :| name in todo;
      var deps := TypeDependencies(typeMap[name], targetNamespace, typeMap);
      forall d
        ensures UsersAmong(typeMap, targetNamespace, seen + {name}, d)
             == UsersAmong(typeMap, targetNamespace, seen, d) + (if d in deps then {name} else {})
      {
        UsersGain(typeMap, targetNamespace, seen, name, d);
      }
      adj := AddEdges(adj, deps, name);
      todo, seen := todo - {name}, seen + {name};
    }
    assert seen == typeMap.Keys;
    AllUsers(typeMap, targetNamespace, adj);
  }

  lemma AllUsers(typeMap: TypeMap, targetNamespace: string, adj: map<string, set<string>>)
    requires forall d | d in adj :: adj[d] == UsersAmong(typeMap, targetNamespace, typeMap.Keys, d)
    ensures forall d | d in adj :: adj[d] == Dependents(TypeGraph(typeMap, targetNamespace), d)
  {
    hide TypeDependencies, UsersAmong, Dependents, TypeGraph;
    forall d | d in adj
      ensures adj[d] == Dependents(TypeGraph(typeMap, targetNamespace), d)
    {
      UsersOfAll(typeMap, targetNamespace, d);
    }
  }

  method CountDependencies(ghost g: Graph<string>, adj: map<string, set<string>>) returns (inDegree: map<string, nat>)
    requires Closed(g) && adj.Keys == g.nodes && forall d | d in adj :: adj[d] == Dependents(g, d)
    ensures Counted(g, {}, inDegree)
  {
    hide Waiting, Dependents;
    inDegree := map name | name in adj :: 0;
    var todo := adj.Keys;
    forall n | n in g.nodes
      ensures Waiting(g, todo, n) == 0
    {
      ReadyIsNotWaiting(g, todo, n);
    }
    while todo != {}
      invariant todo <= adj.Keys && inDegree.Keys == g.nodes
      invariant forall n | n in g.nodes :: inDegree[n] == Waiting(g, todo, n)
      decreases todo
    {
      var dep :| dep in todo;
      forall n | n in g.nodes
        ensures Waiting(g, todo - {dep}, n) == Waiting(g, todo, n) + (if n in adj[dep] then 1 else 0)
      {
        WaitingStep(g, todo - {dep}, dep, n);
        assert todo - {dep} + {dep} == todo;
      }
      assert adj[dep] <= inDegree.Keys by { DependentsAreNodes(g, dep); }
      inDegree := IncrementAll(adj[dep], inDegree);
      todo := todo - {dep};
    }
  }

  lemma DependentsAreNodes(g: Graph<string>, n: string)
    requires Closed(g)
    ensures Dependents(g, n) <= g.nodes
  {
  }

  method IncrementAll(targets: set<string>, inDegree0: map<string, nat>) returns (inDegree: map<string, nat>)
    requires targets <= inDegree0.Keys
    ensures inDegree.Keys == inDegree0.Keys
    ensures forall n | n in inDegree :: inDegree[n] == inDegree0[n] + (if n in targets then 1 else 0)
  {
    inDegree := inDegree0;
    var todo := targets;
    while todo != {}
      invariant todo <= targets && inDegree.Keys == inDegree0.Keys
      invariant forall n | n in inDegree :: inDegree[n] == inDegree0[n] + (if n in targets - todo then 1 else 0)
      decreases todo
    {
      var target :| target in todo;
      inDegree := inDegree[target := inDegree[target] + 1];
      todo := todo - {target};
    }
  }

  /** Take one from the counter of every neighbour, and queue those with nothing left to wait for.
    The counters are never at zero beforehand, so the saturating subtraction is a plain one. */
  method Release(neighbors: set<string>, queue0: set<string>, inDegree0: map<string, nat>)
    returns (queue: set<string>, inDegree: map<string, nat>)
    requires neighbors <= inDegree0.Keys && forall m | m in neighbors :: inDegree0[m] >= 1
    ensures Decremented(neighbors, inDegree0, inDegree)
    ensures queue == queue0 + Zeroed(neighbors, inDegree0)
  {
    queue, inDegree := queue0, inDegree0;
    var todo := neighbors;
    while todo != {}
      invariant todo <= neighbors && inDegree.Keys == inDegree0.Keys
      invariant forall m | m in inDegree :: inDegree[m] == inDegree0[m] - (if m in neighbors && m !in todo then 1 else 0)
      invariant forall m :: m in queue <==> m in queue0 || (m in neighbors && m !in todo && inDegree0[m] == 1)
      decreases todo
    {
      var neighbor :| neighbor in todo;
      var degree := inDegree[neighbor];
      degree := if degree == 0 then 0 else degree - 1;
      inDegree := inDegree[neighbor := degree];
      if degree == 0 {
        queue := queue + {neighbor};
      }
      todo := todo - {neighbor};
    }
    assert queue == queue0 + Zeroed(neighbors, inDegree0);
  }

  /** Kahn's loop. */
  method PlaceAll(ghost g: Graph<string>, adj: map<string, set<string>>, counted: map<string, nat>)
    returns (orderedNames: seq<string>, inDegree: map<string, nat>)
    requires Closed(g) && g.nodes <= g.deps.Keys && adj.Keys == g.nodes && forall d | d in adj :: adj[d] == Dependents(g, d)
    requires Counted(g, {}, counted)
    ensures KahnState(g, NameLess, orderedNames, {}) && Counted(g, Elements(orderedNames), inDegree)
  {
    hide NameLess, Waiting, Dependents, KahnState, StrictTotal, IsFirst, Counted, Elements, Decremented, Freed, Zeroed, Closed;
    NamesAreOrdered();
    inDegree := counted;
    var queue := NothingPending(inDegree);
    orderedNames := [];
    QueueIsReady(g, NameLess, inDegree);
    while queue != {}
      invariant KahnState(g, NameLess, orderedNames, queue) && Counted(g, Elements(orderedNames), inDegree)
      decreases g.nodes - Elements(orderedNames)
    {
      var name := First(NameLess, queue);
      KahnStep(g, NameLess, orderedNames, queue, name);
      NotPlacedYet(orderedNames, name);
      BeforeRelease(g, Elements(orderedNames), name, inDegree);
      ghost var before := inDegree;
      queue := queue - {name};
      queue, inDegree := Release(adj[name], queue, inDegree);
      AfterRelease(g, Elements(orderedNames), name, before, inDegree);
      orderedNames := orderedNames + [name];
    }
  }

  lemma NotPlacedYet(order: seq<string>, name: string)
    ensures name in order <==> name in Elements(order)
  {
  }

  method TakeInOrder(typeMap: TypeMap, orderedNames: seq<string>) returns (result: seq<LoadedType>)
    requires NamedByKey(typeMap) && Distinct(orderedNames) && Elements(orderedNames) == typeMap.Keys
    ensures NamesOf(result) == orderedNames && multiset(result) == Items(typeMap)
  {
    hide Items;
    var left := typeMap;
    result := [];
    var i := 0;
    assert orderedNames[0..] == orderedNames;
    while i < |orderedNames|
      invariant 0 <= i <= |orderedNames|
      invariant NamedByKey(left) && left.Keys == Elements(orderedNames[i..])
      invariant NamesOf(result) == orderedNames[..i] && multiset(result) + Items(left) == Items(typeMap)
    {
      var name := orderedNames[i];
      assert name in orderedNames[i..];
      var t := left[name];
      assert left == (left - {name})[name := t];
      ItemsGain(left - {name}, t);
      RestOfOrder(orderedNames, i);
      assert NamesOf(result + [t]) == NamesOf(result) + [name];
      left := left - {name};
      result := result + [t];
      i := i + 1;
    }
    assert left == map[];
    NoItems();
    assert orderedNames[..i] == orderedNames;
  }

  lemma RestOfOrder(order: seq<string>, i: nat)
    requires Distinct(order) && i < |order|
    ensures Elements(order[i + 1..]) == Elements(order[i..]) - {order[i]}
  {
    assert order[i..] == [order[i]] + order[i + 1..];
  }

  method SortTypesTopologically(types: seq<LoadedType>, targetNamespace: string)
    returns (result: Result<seq<LoadedType>, SortError>)
    ensures Sorted(types, targetNamespace, result)
  {
    hide TypeGraph, TypeDependencies, NameLess, Waiting, KahnState, Cyclic, OnOrAfterCycle, LeastTopological, Items, NameRepeats, Greedy,
         MapOf, NamedByKey, Closed, FirstRepeat, Distinct, Elements, StrictTotal, Counted;
    var built := BuildTypeMap(types);
    if built.Err? {
      return Err(built.error);
    }
    var typeMap := built.value;
    MapOfMeaning(types);
    ghost var g := TypeGraph(typeMap, targetNamespace);
    var adj := BuildAdjacency(typeMap, targetNamespace);
    var inDegree := CountDependencies(g, adj);
    var orderedNames;
    orderedNames, inDegree := PlaceAll(g, adj, inDegree);
    FinishedMeaning(g, NameLess, orderedNames);
    assert |typeMap| == |g.nodes|;
    if |orderedNames| != |typeMap| {
      var remaining := set n | n in inDegree && inDegree[n] > 0;
      StillWaiting(g, orderedNames, inDegree, remaining);
      return Err(CircularTypes(remaining));
    }
    assert Topological(g, orderedNames) && Greedy(g, NameLess, orderedNames) by { LeastIsTopological(g, orderedNames); }
    var sorted := TakeInOrder(typeMap, orderedNames);
    return Ok(sorted);
  }

  lemma StillWaiting(g: Graph<string>, order: seq<string>, inDegree: map<string, nat>, remaining: set<string>)
    requires Closed(g) && Counted(g, Elements(order), inDegree) && KahnState(g, NameLess, order, {})
    requires remaining == set n | n in inDegree && inDegree[n] > 0
    ensures remaining == set n | n in g.nodes && OnOrAfterCycle(g, n)
  {
    hide NameLess, Waiting, KahnState, Cyclic, OnOrAfterCycle, LeastTopological, Closed, Elements;
    FinishedMeaning(g, NameLess, order);
    LeftOver(g, NameLess, order);
  }

  lemma LeastIsTopological(g: Graph<string>, order: seq<string>)
    requires LeastTopological(g, NameLess, order) && g.nodes <= g.deps.Keys && KahnState(g, NameLess, order, {})
    ensures Topological(g, order) && Greedy(g, NameLess, order)
  {
  }

  // ---- Independence from the input order ---------------------------------------------------

  lemma {:induction false} MapOfLookup(types: seq<LoadedType>, i: nat)
    requires NamesDistinct(types) && i < |types|
    ensures types[i].Name() in MapOf(types) && MapOf(types)[types[i].Name()] == types[i]
  {
    var n := |types| - 1;
    if i < n {
      assert NamesDistinct(types[..n]) by {
        forall k | 0 <= k < n
          ensures !NameRepeats(types[..n], k)
        {
          assert !NameRepeats(types, k);
        }
      }
      MapOfLookup(types[..n], i);
      assert !NameRepeats(types, n);
    }
  }

  lemma SameTypesSameMap(a: seq<LoadedType>, b: seq<LoadedType>)
    requires NamesDistinct(a) && NamesDistinct(b) && multiset(a) == multiset(b)
    ensures MapOf(a) == MapOf(b)
  {
    MapOfMeaning(a);
    MapOfMeaning(b);
    forall name | name in MapOf(a)
      ensures name in MapOf(b) && MapOf(b)[name] == MapOf(a)[name]
    {
      SameLookup(a, b, name);
    }
    forall name | name in MapOf(b)
      ensures name in MapOf(a)
    {
      SameLookup(b, a, name);
    }
  }

  lemma SameLookup(a: seq<LoadedType>, b: seq<LoadedType>, name: string)
    requires NamesDistinct(a) && NamesDistinct(b) && multiset(a) == multiset(b) && name in MapOf(a)
    ensures name in MapOf(b) && MapOf(b)[name] == MapOf(a)[name]
  {
    MapOfMeaning(a);
    var i :| 0 <= i < |a| && a[i].Name() == name;
    MapOfLookup(a, i);
    assert a[i] in multiset(b);
    var j :| 0 <= j < |b| && b[j] == a[i];
    MapOfLookup(b, j);
  }

  /** Shuffling the input changes nothing: the same types sort to the same sequence, or fail on the
    same cycle. */
  lemma InputOrderDoesNotMatter(a: seq<LoadedType>, b: seq<LoadedType>, targetNamespace: string,
                                ra: Result<seq<LoadedType>, SortError>, rb: Result<seq<LoadedType>, SortError>)
    requires NamesDistinct(a) && NamesDistinct(b) && multiset(a) == multiset(b)
    requires Sorted(a, targetNamespace, ra) && Sorted(b, targetNamespace, rb)
    ensures ra == rb
  {
    hide TypeGraph, LeastTopological, Cyclic, OnOrAfterCycle, NameLess;
    SameTypesSameMap(a, b);
    if ra.Ok? && rb.Ok? {
      NamesAreOrdered();
      LeastIsUnique(TypeGraph(MapOf(a), targetNamespace), NameLess, NamesOf(ra.value), NamesOf(rb.value));
      SameNamesSameTypes(a, ra.value, rb.value);
    }
  }

  lemma SameNamesSameTypes(types: seq<LoadedType>, x: seq<LoadedType>, y: seq<LoadedType>)
    requires NamesDistinct(types)
    requires multiset(x) == multiset(y) == multiset(types) && NamesOf(x) == NamesOf(y)
    ensures x == y
  {
    assert |x| == |NamesOf(x)| == |y|;
    forall i | 0 <= i < |x|
      ensures x[i] == y[i]
    {
      assert NamesOf(x)[i] == NamesOf(y)[i];
      assert x[i] in multiset(x) && y[i] in multiset(y);
      assert x[i] in multiset(types) && y[i] in multiset(types);
      var j :| 0 <= j < |types| && types[j] == x[i];
      var k :| 0 <= k < |types| && types[k] == y[i];
      MapOfLookup(types, j);
      MapOfLookup(types, k);
    }
  }
}
