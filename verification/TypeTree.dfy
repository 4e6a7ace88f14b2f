/** The type tree: registered types, the supertype of each, and a memoised subtype test.

  `Tree` is the state of the tree as a value; the class below keeps it in its fields, together with
  the cache of answers, and its methods are specified by functions on `Tree`.
  */
module TypeTree {
  import opened HashSets
  import opened NodeIds
  import TP = TypeProperties

  datatype NodeClass = DataType | ObjectType | ReferenceType | VariableType | Other(code: nat)

  /** `up` is the supertype of a type, `down` the set of direct subtypes of a node. */
  datatype Tree = Tree(nodes: map<NodeId, NodeClass>, abstractTypes: set<NodeId>,
                       down: map<NodeId, set<NodeId>>, up: map<NodeId, NodeId>)

  predicate IsTypeClass(c: NodeClass) {
    !c.Other?
  }

  function Children(t: Tree, n: NodeId): set<NodeId> {
    if n in t.down then t.down[n] else {}
  }

  // ---- The operations ----------------------------------------------------------------------

  function WithType(t: Tree, id: NodeId, parent: NodeId, c: NodeClass, isAbstract: bool): Tree {
    Tree(t.nodes[id := c],
         if isAbstract then t.abstractTypes + {id} else t.abstractTypes - {id},
         t.down[parent := Children(t, parent) + {id}],
         t.up[id := parent])
  }

  function WithoutType(t: Tree, id: NodeId): Tree {
    if id !in t.nodes then t
    else
      var unlinked := if id in t.up && t.up[id] in t.down
                      then t.down[t.up[id] := t.down[t.up[id]] - {id}] else t.down;
      Tree(t.nodes - {id}, t.abstractTypes, unlinked, t.up - {id})
  }

  // ---- Consistency -------------------------------------------------------------------------

  /** The two indexes hold the same links. */
  ghost predicate Mirror(t: Tree) {
    forall a, b :: a in Children(t, b) <==> a in t.up && t.up[a] == b
  }

  /** A height that drops along every link to a supertype: the links cannot run in a circle. */
  ghost predicate Ranked(t: Tree, rank: map<NodeId, nat>) {
    forall a | a in t.up :: a in rank && t.up[a] in rank && rank[t.up[a]] < rank[a]
  }

  ghost predicate Acyclic(t: Tree) {
    exists rank :: Ranked(t, rank)
  }

  ghost predicate Consistent(t: Tree) {
    Mirror(t) && Acyclic(t) && forall a | a in t.up :: a in t.nodes
  }

  /** A chain of supertype links, from `x` up to `y`. */
  ghost predicate Chain(t: Tree, p: seq<NodeId>, x: NodeId, y: NodeId) {
    && p != [] && p[0] == x && p[|p| - 1] == y
    && forall i | 0 <= i < |p| - 1 :: p[i] in t.up && t.up[p[i]] == p[i + 1]
  }

  ghost predicate Below(t: Tree, x: NodeId, y: NodeId) {
    exists p :: Chain(t, p, x, y)
  }

  lemma BelowItself(t: Tree, x: NodeId)
    ensures Below(t, x, x)
  {
    assert Chain(t, [x], x, x);
  }

  /** A node lies below its supertype and whatever that lies below, and below nothing else but itself. */
  lemma BelowUnfolds(t: Tree, x: NodeId, y: NodeId)
    ensures Below(t, x, y) <==> x == y || (x in t.up && Below(t, t.up[x], y))
  {
    if x == y {
      BelowItself(t, x);
    }
    if x in t.up && Below(t, t.up[x], y) {
      var p :| Chain(t, p, t.up[x], y);
      assert Chain(t, [x] + p, x, y);
    }
    if Below(t, x, y) && x != y {
      var p :| Chain(t, p, x, y);
      assert t.up[p[0]] == p[1];
      assert Chain(t, p[1..], t.up[x], y);
    }
  }

  lemma {:induction false} BelowTransitive(t: Tree, x: NodeId, y: NodeId, z: NodeId)
    requires Below(t, x, y) && Below(t, y, z)
    ensures Below(t, x, z)
  {
    var p :| Chain(t, p, x, y);
    var q :| Chain(t, q, y, z);
    assert Chain(t, p + q[1..], x, z);
  }

  lemma {:induction false} RankDrops(t: Tree, rank: map<NodeId, nat>, x: NodeId, y: NodeId)
    requires Ranked(t, rank) && Below(t, x, y) && x != y
    ensures x in rank && y in rank && rank[y] < rank[x]
    decreases if x in rank then rank[x] else 0
  {
    BelowUnfolds(t, x, y);
    if t.up[x] != y {
      RankDrops(t, rank, t.up[x], y);
    }
  }

  /** Nothing but itself is both above and below a node. */
  lemma BelowAntisymmetric(t: Tree, x: NodeId, y: NodeId)
    requires Acyclic(t) && Below(t, x, y) && Below(t, y, x)
    ensures x == y
  {
    var rank :| Ranked(t, rank);
    if x != y {
      RankDrops(t, rank, x, y);
      RankDrops(t, rank, y, x);
    }
  }

  // ---- The empty tree and runs -------------------------------------------------------------

  function Roots(): map<NodeId, NodeClass> {
    map[NodeId(0, "58") := ObjectType, NodeId(0, "31") := ReferenceType,
        NodeId(0, "62") := VariableType, NodeId(0, "24") := DataType]
  }

  function NewTree(): Tree {
    Tree(Roots(), {}, map[], map[])
  }

  lemma NewTreeIsConsistent()
    ensures Consistent(NewTree())
  {
    assert Ranked(NewTree(), map[]);
  }

  /** What a caller must respect for the tree to stay one: an id that has a supertype is registered under
    that one again, and no id is put under a node that is itself or below it. */
  ghost predicate MayAdd(t: Tree, id: NodeId, parent: NodeId) {
    (id !in t.up || t.up[id] == parent) && !Below(t, parent, id)
  }

  lemma AddKeepsMirror(t: Tree, id: NodeId, parent: NodeId, c: NodeClass, isAbstract: bool)
    requires Mirror(t)
    ensures Mirror(WithType(t, id, parent, c, isAbstract)) <==> id !in t.up || t.up[id] == parent
  {
    var s := WithType(t, id, parent, c, isAbstract);
    if id in t.up && t.up[id] != parent {
      assert id in Children(t, t.up[id]);
      assert id in Children(s, t.up[id]) && s.up[id] == parent;
    } else {
      forall a, b
        ensures a in Children(s, b) <==> a in s.up && s.up[a] == b
      {
        assert a in Children(t, b) <==> a in t.up && t.up[a] == b;
      }
    }
  }

  /** Whatever supertype `id` had, the links do not run in a circle exactly when the new one is not below
    it.  In a circle of types, the walk to anything outside it would not end. */
  lemma AddKeepsAcyclic(t: Tree, id: NodeId, parent: NodeId, c: NodeClass, isAbstract: bool)
    requires Acyclic(t)
    ensures Acyclic(WithType(t, id, parent, c, isAbstract)) <==> !Below(t, parent, id)
  {
    var s := WithType(t, id, parent, c, isAbstract);
    var rank :| Ranked(t, rank);
    if Below(t, parent, id) {
      BelowSurvives(t, rank, id, parent, c, isAbstract, parent);
      NoRankOfCircle(s, id, parent);
    } else {
      LiftedIsRank(t, rank, id, parent, c, isAbstract);
    }
  }

  /** What lay below `id` still does: the way up to it does not use its own link. */
  lemma {:induction false} BelowSurvives(t: Tree, rank: map<NodeId, nat>, id: NodeId, parent: NodeId,
      c: NodeClass, isAbstract: bool, x: NodeId)
    requires Ranked(t, rank) && Below(t, x, id)
    ensures Below(WithType(t, id, parent, c, isAbstract), x, id)
    decreases if x in rank then rank[x] else 0
  {
    hide Below;
    var s := WithType(t, id, parent, c, isAbstract);
    BelowUnfolds(t, x, id);
    BelowUnfolds(s, x, id);
    if x != id {
      BelowSurvives(t, rank, id, parent, c, isAbstract, t.up[x]);
    }
  }

  lemma NoRankOfCircle(s: Tree, id: NodeId, parent: NodeId)
    requires id in s.up && s.up[id] == parent && Below(s, parent, id)
    ensures !Acyclic(s)
  {
    forall rank | Ranked(s, rank)
      ensures false
    {
      if parent != id {
        RankDrops(s, rank, parent, id);
      }
    }
  }

  lemma LiftedIsRank(t: Tree, rank: map<NodeId, nat>, id: NodeId, parent: NodeId, c: NodeClass, isAbstract: bool)
    requires Ranked(t, rank) && !Below(t, parent, id)
    ensures Ranked(WithType(t, id, parent, c, isAbstract), LiftedRank(t, rank, id, parent))
  {
    hide Below;
    var s, lifted := WithType(t, id, parent, c, isAbstract), LiftedRank(t, rank, id, parent);
    forall a | a in s.up
      ensures a in lifted && s.up[a] in lifted && lifted[s.up[a]] < lifted[a]
    {
      if a == id {
        BelowItself(t, id);
      } else {
        BelowUnfolds(t, a, id);
      }
    }
  }

  /** Adding keeps a consistent tree consistent exactly when `id` is new or comes under its present
    supertype again, and that supertype is not below it. */
  lemma AddKeepsConsistent(t: Tree, id: NodeId, parent: NodeId, c: NodeClass, isAbstract: bool)
    requires Consistent(t)
    ensures Consistent(WithType(t, id, parent, c, isAbstract)) <==> MayAdd(t, id, parent)
  {
    hide Mirror, Acyclic, Below;
    AddKeepsMirror(t, id, parent, c, isAbstract);
    AddKeepsAcyclic(t, id, parent, c, isAbstract);
  }

  /** Such an addition: a type registered under itself, from which the walk never gets anywhere else. */
  lemma CircleCanBeMade(x: NodeId)
    ensures
      var t := WithType(NewTree(), x, x, ObjectType, false);
      !Acyclic(t) && Typed(t, x) && t.up[x] == x
  {
    NewTreeIsConsistent();
    BelowItself(NewTree(), x);
    AddKeepsAcyclic(NewTree(), x, x, ObjectType, false);
  }

  /** The ranks with everything below `id` raised above `parent`. */
  ghost function LiftedRank(t: Tree, rank: map<NodeId, nat>, id: NodeId, parent: NodeId): map<NodeId, nat> {
    var base := if parent in rank then rank[parent] else 0;
    map a | a in rank.Keys + {id, parent} ::
      (if a in rank then rank[a] else 0) + (if Below(t, a, id) then base + 1 else 0)
  }

  lemma RemoveKeepsConsistent(t: Tree, id: NodeId)
    requires Consistent(t)
    ensures Consistent(WithoutType(t, id))
  {
    var s := WithoutType(t, id);
    var rank :| Ranked(t, rank);
    assert Ranked(s, rank);
    forall a, b
      ensures a in Children(s, b) <==> a in s.up && s.up[a] == b
    {
      assert a in Children(t, b) <==> a in t.up && t.up[a] == b;
    }
  }

  datatype Change = Add(id: NodeId, parent: NodeId, class_: NodeClass, isAbstract: bool) | Remove(id: NodeId)

  function Apply(t: Tree, c: Change): Tree {
    match c
    case Add(id, parent, class_, isAbstract) => WithType(t, id, parent, class_, isAbstract)
    case Remove(id) => WithoutType(t, id)
  }

  ghost predicate Respected(t: Tree, changes: seq<Change>)
    decreases |changes|
  {
    changes == [] || (
      (changes[0].Add? ==> MayAdd(t, changes[0].id, changes[0].parent))
      && Respected(Apply(t, changes[0]), changes[1..]))
  }

  function ApplyAll(t: Tree, changes: seq<Change>): Tree
    decreases |changes|
  {
    if changes == [] then t else ApplyAll(Apply(t, changes[0]), changes[1..])
  }

  /** The tree is consistent now and after every change to come. */
  ghost predicate StaysConsistent(t: Tree, changes: seq<Change>)
    decreases |changes|
  {
    Consistent(t) && (changes == [] || StaysConsistent(Apply(t, changes[0]), changes[1..]))
  }

  /** Over a run the two indexes keep mirroring each other and no circle forms exactly when every addition
    respects what `MayAdd` asks; removals never do harm. */
  lemma {:induction false} RunsKeepConsistent(t: Tree, changes: seq<Change>)
    requires Consistent(t)
    ensures StaysConsistent(t, changes) <==> Respected(t, changes)
    ensures Respected(t, changes) ==> Consistent(ApplyAll(t, changes))
    decreases |changes|
  {
    hide Consistent, MayAdd;
    if changes != [] {
      match changes[0] {
        case Add(id, parent, class_, isAbstract) => AddKeepsConsistent(t, id, parent, class_, isAbstract);
        case Remove(id) => RemoveKeepsConsistent(t, id);
      }
      if Consistent(Apply(t, changes[0])) {
        RunsKeepConsistent(Apply(t, changes[0]), changes[1..]);
      }
    }
  }

  /** What the tree knows about a node is what its last registration said; after a removal, nothing. */
  lemma {:induction false} LastRegistrationCounts(t: Tree, changes: seq<Change>, i: nat)
    requires i < |changes| && forall j | i < j < |changes| :: changes[j].id != changes[i].id
    ensures
      var u, id := ApplyAll(t, changes), changes[i].id;
      match changes[i]
      case Add(_, parent, class_, isAbstract) =>
        && id in u.nodes && u.nodes[id] == class_ && (id in u.abstractTypes <==> isAbstract)
        && id in u.up && u.up[id] == parent
      case Remove(_) => id !in u.nodes
    decreases |changes|
  {
    if i == 0 {
      OthersKeepNode(Apply(t, changes[0]), changes[1..], changes[0].id);
    } else {
      LastRegistrationCounts(Apply(t, changes[0]), changes[1..], i - 1);
    }
  }

  lemma {:induction false} OthersKeepNode(t: Tree, changes: seq<Change>, id: NodeId)
    requires forall j | 0 <= j < |changes| :: changes[j].id != id
    ensures
      var u := ApplyAll(t, changes);
      && (id in u.nodes <==> id in t.nodes) && (id in t.nodes ==> u.nodes[id] == t.nodes[id])
      && (id in u.abstractTypes <==> id in t.abstractTypes)
      && (id in u.up <==> id in t.up) && (id in t.up ==> u.up[id] == t.up[id])
    decreases |changes|
  {
    if changes != [] {
      OthersKeepNode(Apply(t, changes[0]), changes[1..], id);
    }
  }

  // ---- The subtype test --------------------------------------------------------------------

  /** `x` can be walked up to `y` through registered nodes of a type class. */
  ghost predicate Typed(t: Tree, x: NodeId) {
    x in t.nodes && IsTypeClass(t.nodes[x])
  }

  ghost predicate TypedChain(t: Tree, p: seq<NodeId>, x: NodeId, y: NodeId) {
    Chain(t, p, x, y) && forall i | 0 <= i < |p| - 1 :: Typed(t, p[i])
  }

  ghost predicate IsSubtype(t: Tree, x: NodeId, y: NodeId) {
    exists p :: TypedChain(t, p, x, y)
  }

  lemma SubtypeUnfolds(t: Tree, x: NodeId, y: NodeId)
    ensures IsSubtype(t, x, y) <==> x == y || (Typed(t, x) && x in t.up && IsSubtype(t, t.up[x], y))
  {
    if x == y {
      assert TypedChain(t, [x], x, y);
    }
    if Typed(t, x) && x in t.up && IsSubtype(t, t.up[x], y) {
      var p :| TypedChain(t, p, t.up[x], y);
      assert TypedChain(t, [x] + p, x, y);
    }
    if IsSubtype(t, x, y) && x != y {
      var p :| TypedChain(t, p, x, y);
      assert Typed(t, p[0]) && t.up[p[0]] == p[1];
      assert TypedChain(t, p[1..], t.up[x], y);
    }
  }

  /** A subtype answer is yes exactly when supertypes lead from one to the other through nodes registered as
    types of any of the four kinds. */
  lemma SubtypeMeaning(t: Tree, x: NodeId, y: NodeId)
    ensures IsSubtype(t, x, y) <==>
      exists p: seq<NodeId> :: p != [] && p[0] == x && p[|p| - 1] == y && forall i | 0 <= i < |p| - 1 ::
        && p[i] in t.nodes && t.nodes[p[i]] in {DataType, ObjectType, ReferenceType, VariableType}
        && p[i] in t.up && t.up[p[i]] == p[i + 1]
  {
    if IsSubtype(t, x, y) {
      var p :| TypedChain(t, p, x, y);
      assert forall i | 0 <= i < |p| - 1 :: Typed(t, p[i]);
    }
    if p: seq<NodeId> :| p != [] && p[0] == x && p[|p| - 1] == y && forall i | 0 <= i < |p| - 1 ::
        && p[i] in t.nodes && t.nodes[p[i]] in {DataType, ObjectType, ReferenceType, VariableType}
        && p[i] in t.up && t.up[p[i]] == p[i + 1] {
      assert TypedChain(t, p, x, y);
    }
  }

  lemma SubtypeIsBelow(t: Tree, x: NodeId, y: NodeId)
    requires IsSubtype(t, x, y)
    ensures Below(t, x, y)
  {
    var p :| TypedChain(t, p, x, y);
    assert Chain(t, p, x, y);
  }

  lemma SubtypeTransitive(t: Tree, x: NodeId, y: NodeId, z: NodeId)
    requires IsSubtype(t, x, y) && IsSubtype(t, y, z)
    ensures IsSubtype(t, x, z)
  {
    var p :| TypedChain(t, p, x, y);
    var q :| TypedChain(t, q, y, z);
    assert TypedChain(t, p + q[1..], x, z);
  }

  /** Two nodes above the same node lie one above the other. */
  lemma {:induction false} AboveIsLinear(t: Tree, rank: map<NodeId, nat>, x: NodeId, y: NodeId, z: NodeId)
    requires Ranked(t, rank) && Below(t, x, y) && Below(t, x, z)
    ensures Below(t, y, z) || Below(t, z, y)
    decreases if x in rank then rank[x] else 0
  {
    BelowUnfolds(t, x, y);
    BelowUnfolds(t, x, z);
    if x != y && x != z {
      AboveIsLinear(t, rank, t.up[x], y, z);
    }
  }

  /** Everything strictly below a node lies below exactly one of its direct subtypes. */
  lemma {:induction false} BelowThroughChild(t: Tree, rank: map<NodeId, nat>, x: NodeId, r: NodeId) returns (c: NodeId)
    requires Mirror(t) && Ranked(t, rank) && Below(t, x, r) && x != r
    ensures c in Children(t, r) && Below(t, x, c)
    decreases if x in rank then rank[x] else 0
  {
    BelowUnfolds(t, x, r);
    if t.up[x] == r {
      c := x;
      BelowItself(t, x);
    } else {
      c := BelowThroughChild(t, rank, t.up[x], r);
      BelowUnfolds(t, x, c);
    }
  }

  lemma ChildrenAreApart(t: Tree, rank: map<NodeId, nat>, r: NodeId, c: NodeId, d: NodeId, x: NodeId)
    requires Mirror(t) && Ranked(t, rank) && c in Children(t, r) && d in Children(t, r) && c != d
    ensures !(Below(t, x, c) && Below(t, x, d))
    ensures !Below(t, r, c)
  {
    BelowUnfolds(t, c, d);
    BelowUnfolds(t, d, c);
    NotBelowOwnChild(t, rank, r, c);
    NotBelowOwnChild(t, rank, r, d);
    if Below(t, x, c) && Below(t, x, d) {
      AboveIsLinear(t, rank, x, c, d);
    }
  }

  lemma NotBelowOwnChild(t: Tree, rank: map<NodeId, nat>, r: NodeId, c: NodeId)
    requires Mirror(t) && Ranked(t, rank) && c in Children(t, r)
    ensures !Below(t, r, c)
  {
    if Below(t, r, c) {
      assert t.up[c] == r;
      if r != c {
        RankDrops(t, rank, r, c);
      }
    }
  }

  /** The descendants of a root and its subtypes agree exactly when everything strictly below the root
    is of a type class; registering a node of another class under a type breaks the agreement. */
  lemma DescendantsAreSubtypes(t: Tree, root: NodeId)
    requires Consistent(t)
    ensures (forall x :: Below(t, x, root) <==> IsSubtype(t, x, root))
       <==> forall x | Below(t, x, root) && x != root :: Typed(t, x)
  {
    if forall x | Below(t, x, root) && x != root :: Typed(t, x) {
      forall x
        ensures Below(t, x, root) <==> IsSubtype(t, x, root)
      {
        if IsSubtype(t, x, root) {
          SubtypeIsBelow(t, x, root);
        }
        if Below(t, x, root) {
          var rank :| Ranked(t, rank);
          AllTypedMeansSubtype(t, rank, x, root);
        }
      }
    } else {
      var x :| Below(t, x, root) && x != root && !Typed(t, x);
      SubtypeUnfolds(t, x, root);
    }
  }

  lemma {:induction false} AllTypedMeansSubtype(t: Tree, rank: map<NodeId, nat>, x: NodeId, root: NodeId)
    requires Ranked(t, rank) && Below(t, x, root)
    requires forall z | Below(t, z, root) && z != root :: Typed(t, z)
    ensures IsSubtype(t, x, root)
    decreases if x in rank then rank[x] else 0
  {
    BelowUnfolds(t, x, root);
    SubtypeUnfolds(t, x, root);
    if x != root {
      AllTypedMeansSubtype(t, rank, t.up[x], root);
    }
  }

  /** Such a node: a variable registered under a type is listed below it, and is no subtype of it. */
  lemma UntypedDescendantExists()
    ensures
      var root, x := NodeId(0, "58"), NodeId(1, "x");
      var t := WithType(NewTree(), x, root, Other(2), false);
      Consistent(t) && Below(t, x, root) && !IsSubtype(t, x, root)
  {
    var root, x := NodeId(0, "58"), NodeId(1, "x");
    var t := WithType(NewTree(), x, root, Other(2), false);
    NewTreeIsConsistent();
    BelowUnfolds(NewTree(), root, x);
    AddKeepsConsistent(NewTree(), x, root, Other(2), false);
    BelowItself(t, root);
    BelowUnfolds(t, x, root);
    SubtypeUnfolds(t, x, root);
  }

  // ---- What a change does to the answers ---------------------------------------------------

  /** An answer reached by a walk that goes on beyond `id`. */
  ghost predicate Through(t: Tree, x: NodeId, id: NodeId, y: NodeId) {
    id != y && IsSubtype(t, x, id) && IsSubtype(t, id, y)
  }

  /** An answer that a walk reaches by the new link from `id` to `parent`. */
  ghost predicate Gained(t: Tree, x: NodeId, id: NodeId, parent: NodeId, c: NodeClass, y: NodeId) {
    IsSubtype(t, x, id) && IsTypeClass(c) && IsSubtype(t, parent, y)
  }

  /** Registering `id` under `parent`, whether or not it was registered before: the answers beyond `id` are
    lost, and those by the new link are gained. */
  lemma {:induction false} AddChangesAnswers(t: Tree, rank: map<NodeId, nat>, id: NodeId, parent: NodeId,
      c: NodeClass, isAbstract: bool, x: NodeId, y: NodeId)
    requires Acyclic(t) && !Below(t, parent, id) && Ranked(WithType(t, id, parent, c, isAbstract), rank)
    ensures IsSubtype(WithType(t, id, parent, c, isAbstract), x, y)
       <==> (IsSubtype(t, x, y) && !Through(t, x, id, y)) || Gained(t, x, id, parent, c, y)
    decreases if x in rank then rank[x] else 0
  {
    hide IsSubtype, Below, Acyclic;
    var s := WithType(t, id, parent, c, isAbstract);
    SubtypeUnfolds(s, x, y);
    SubtypeUnfolds(t, x, y);
    SubtypeUnfolds(t, x, id);
    if x == y {
      if IsSubtype(t, x, id) && IsSubtype(t, id, y) {
        SubtypeIsBelow(t, x, id);
        SubtypeIsBelow(t, id, y);
        BelowAntisymmetric(t, x, id);
      }
    } else if x in s.up {
      AddChangesAnswers(t, rank, id, parent, c, isAbstract, s.up[x], y);
      if x == id && IsSubtype(t, parent, id) {
        SubtypeIsBelow(t, parent, id);
      }
    }
  }

  /** After removing `id` an answer turns to no when the walk passed through `id`, and stays otherwise. */
  lemma {:induction false} RemoveChangesAnswers(t: Tree, rank: map<NodeId, nat>, id: NodeId, x: NodeId, y: NodeId)
    requires Consistent(t) && Ranked(t, rank)
    ensures IsSubtype(WithoutType(t, id), x, y)
       <==> IsSubtype(t, x, y) && !Through(t, x, id, y)
    decreases if x in rank then rank[x] else 0
  {
    hide IsSubtype, Mirror, Acyclic, Below;
    var s := WithoutType(t, id);
    SubtypeUnfolds(s, x, y);
    SubtypeUnfolds(t, x, y);
    SubtypeUnfolds(t, x, id);
    SubtypeUnfolds(t, id, y);
    if x == y {
      if id != y && IsSubtype(t, x, id) && IsSubtype(t, id, y) {
        SubtypeIsBelow(t, x, id);
        SubtypeIsBelow(t, id, y);
        BelowAntisymmetric(t, x, id);
      }
    } else if x in t.up {
      RemoveChangesAnswers(t, rank, id, t.up[x], y);
    }
  }

  // ---- The cache of answers ----------------------------------------------------------------

  datatype Query = Query(child: NodeId, ancestor: NodeId)

  /** Every remembered answer is the one the walk would give. */
  ghost predicate CacheAgrees(t: Tree, cache: map<Query, bool>) {
    forall q | q in cache :: cache[q] <==> IsSubtype(t, q.child, q.ancestor)
  }

  /** Registering a type does not clear the cache.  It goes on answering correctly exactly when it holds
    no `no` that the new link turns to yes, and no `yes` from beyond `id` that the new link does not
    reach. */
  lemma CacheAfterAdd(t: Tree, cache: map<Query, bool>, id: NodeId, parent: NodeId, c: NodeClass, isAbstract: bool)
    requires Acyclic(t) && !Below(t, parent, id) && CacheAgrees(t, cache)
    ensures CacheAgrees(WithType(t, id, parent, c, isAbstract), cache)
       <==> forall q | q in cache ::
              if cache[q] then Through(t, q.child, id, q.ancestor) ==> Gained(t, q.child, id, parent, c, q.ancestor)
              else !Gained(t, q.child, id, parent, c, q.ancestor)
  {
    hide IsSubtype, Below, Through, Gained;
    var s := WithType(t, id, parent, c, isAbstract);
    AddKeepsAcyclic(t, id, parent, c, isAbstract);
    var rank :| Ranked(s, rank);
    forall q | q in cache
      ensures IsSubtype(s, q.child, q.ancestor) == cache[q] <==>
        if cache[q] then Through(t, q.child, id, q.ancestor) ==> Gained(t, q.child, id, parent, c, q.ancestor)
        else !Gained(t, q.child, id, parent, c, q.ancestor)
    {
      AddChangesAnswers(t, rank, id, parent, c, isAbstract, q.child, q.ancestor);
    }
  }

  /** For a new id nothing lies beyond it yet: what goes stale is exactly a `no` from at or below `id` to
    at or above `parent`. */
  lemma NothingBeyondNewType(t: Tree, x: NodeId, id: NodeId, y: NodeId)
    requires id !in t.up
    ensures !Through(t, x, id, y)
  {
    SubtypeUnfolds(t, id, y);
  }

  /** Removing a type does not clear the cache either.  It goes on answering correctly exactly when no
    remembered yes was reached through `id`. */
  lemma CacheAfterRemove(t: Tree, cache: map<Query, bool>, id: NodeId)
    requires Consistent(t) && CacheAgrees(t, cache)
    ensures CacheAgrees(WithoutType(t, id), cache)
       <==> forall q | q in cache :: !Through(t, q.child, id, q.ancestor)
  {
    hide IsSubtype, Below;
    var rank :| Ranked(t, rank);
    forall q | q in cache
      ensures IsSubtype(WithoutType(t, id), q.child, q.ancestor) == cache[q]
         <==> !Through(t, q.child, id, q.ancestor)
    {
      RemoveChangesAnswers(t, rank, id, q.child, q.ancestor);
      if IsSubtype(t, q.child, id) && IsSubtype(t, id, q.ancestor) {
        SubtypeTransitive(t, q.child, id, q.ancestor);
      }
    }
  }

  /** A wrong answer is a few calls away: ask, register, and ask again. */
  lemma StaleAnswerExists()
    ensures
      var root, x := NodeId(0, "58"), NodeId(1, "x");
      var cache := map[Query(x, root) := false];
      && MayAdd(NewTree(), x, root) && CacheAgrees(NewTree(), cache)
      && !CacheAgrees(WithType(NewTree(), x, root, ObjectType, false), cache)
  {
    var root, x := NodeId(0, "58"), NodeId(1, "x");
    var t := NewTree();
    NewTreeIsConsistent();
    BelowUnfolds(t, root, x);
    SubtypeUnfolds(t, x, root);
    SubtypeUnfolds(t, x, x);
    SubtypeUnfolds(t, root, root);
    var cache := map[Query(x, root) := false];
    assert Query(x, root) in cache;
    CacheAfterAdd(t, cache, x, root, ObjectType, false);
  }

  /** A query, the removal of its type and the same query again do as well. */
  lemma StaleAfterRemoval()
    ensures
      var root, x := NodeId(0, "58"), NodeId(1, "x");
      var t, cache := WithType(NewTree(), x, root, ObjectType, false), map[Query(x, root) := true];
      Consistent(t) && CacheAgrees(t, cache) && !CacheAgrees(WithoutType(t, x), cache)
  {
    var root, x := NodeId(0, "58"), NodeId(1, "x");
    var t := WithType(NewTree(), x, root, ObjectType, false);
    NewTreeIsConsistent();
    BelowUnfolds(NewTree(), root, x);
    AddKeepsConsistent(NewTree(), x, root, ObjectType, false);
    SubtypeUnfolds(t, x, root);
    SubtypeUnfolds(t, root, root);
    SubtypeUnfolds(WithoutType(t, x), x, root);
    assert Query(x, root) in map[Query(x, root) := true];
  }

  /** What a query answers, given what is remembered. */
  ghost function Answer(t: Tree, cache: map<Query, bool>, q: Query): bool {
    if q in cache then cache[q] else IsSubtype(t, q.child, q.ancestor)
  }

  /** A query, and what the cache dropped just before it. */
  datatype Ask = Ask(query: Query, evicted: set<Query>)

  ghost function CacheAfter(t: Tree, cache: map<Query, bool>, asks: seq<Ask>): map<Query, bool>
    decreases |asks|
  {
    if asks == [] then cache
    else
      var a, earlier := asks[|asks| - 1], CacheAfter(t, cache, asks[..|asks| - 1]);
      (earlier - a.evicted)[a.query := Answer(t, earlier - a.evicted, a.query)]
  }

  ghost predicate NeverEvicted(q: Query, asks: seq<Ask>) {
    forall a | a in asks :: q !in a.evicted
  }

  /** With no change in between, whatever is asked and evicted, a query answers what the walk says,
    unless an answer from before the first of these queries is still remembered. */
  lemma {:induction false} AnswersSinceChange(t: Tree, cache: map<Query, bool>, asks: seq<Ask>, q: Query)
    ensures Answer(t, CacheAfter(t, cache, asks), q)
      == if q in cache && NeverEvicted(q, asks) then cache[q] else IsSubtype(t, q.child, q.ancestor)
    ensures q in cache && NeverEvicted(q, asks) ==> q in CacheAfter(t, cache, asks)
    decreases |asks|
  {
    hide IsSubtype;
    if asks != [] {
      var n := |asks| - 1;
      assert asks == asks[..n] + [asks[n]];
      AnswersSinceChange(t, cache, asks[..n], q);
    }
  }

  // ---- The search for descendants ----------------------------------------------------------

  /** The state of the search: what has been listed, what is still on the stack, and that no
    descendant is reachable from both, or from the stack twice. */
  ghost predicate SearchState(t: Tree, root: NodeId, listed: seq<NodeId>, stack: seq<NodeId>) {
    && Distinct(listed)
    && (forall x :: Below(t, x, root) <==> x in listed || BelowSome(t, x, stack))
    && (forall x | x in listed :: !BelowSome(t, x, stack))
    && Apart(t, stack)
  }

  ghost predicate BelowSome(t: Tree, x: NodeId, stack: seq<NodeId>) {
    exists i :: 0 <= i < |stack| && Below(t, x, stack[i])
  }

  lemma SearchStart(t: Tree, root: NodeId)
    ensures SearchState(t, root, [], [root])
  {
    hide Below;
    forall x
      ensures Below(t, x, root) <==> BelowSome(t, x, [root])
    {
      if Below(t, x, root) {
        assert Below(t, x, [root][0]);
      }
    }
  }

  lemma BelowEither(t: Tree, x: NodeId, first: seq<NodeId>, second: seq<NodeId>)
    ensures BelowSome(t, x, first + second) <==> BelowSome(t, x, first) || BelowSome(t, x, second)
  {
    hide Below;
    if i :| 0 <= i < |first| && Below(t, x, first[i]) {
      assert (first + second)[i] == first[i];
    }
    if i :| 0 <= i < |second| && Below(t, x, second[i]) {
      assert (first + second)[|first| + i] == second[i];
    }
  }

  lemma BelowOne(t: Tree, x: NodeId, r: NodeId)
    ensures BelowSome(t, x, [r]) <==> Below(t, x, r)
  {
    hide Below;
    if Below(t, x, r) {
      assert Below(t, x, [r][0]);
    }
  }

  lemma BelowRootOrChild(t: Tree, rank: map<NodeId, nat>, x: NodeId, r: NodeId, children: seq<NodeId>)
    requires Mirror(t) && Ranked(t, rank) && Enumerates(children, Children(t, r))
    ensures Below(t, x, r) <==> x == r || BelowSome(t, x, children)
    ensures !BelowSome(t, r, children)
  {
    hide Below;
    if x == r {
      BelowItself(t, x);
    } else if Below(t, x, r) {
      var c := BelowThroughChild(t, rank, x, r);
      assert c in children;
    }
    if i :| 0 <= i < |children| && Below(t, x, children[i]) {
      assert children[i] in children && t.up[children[i]] == r;
      BelowItself(t, r);
      BelowUnfolds(t, children[i], r);
      BelowTransitive(t, x, children[i], r);
    }
    forall i | 0 <= i < |children|
      ensures !Below(t, r, children[i])
    {
      assert children[i] in children;
      NotBelowOwnChild(t, rank, r, children[i]);
    }
  }

  /** No node lies below two entries of the stack. */
  ghost predicate Apart(t: Tree, stack: seq<NodeId>) {
    forall i, j, x | 0 <= i < j < |stack| :: !(Below(t, x, stack[i]) && Below(t, x, stack[j]))
  }

  lemma ApartStep(t: Tree, rank: map<NodeId, nat>, stack: seq<NodeId>, r: NodeId, children: seq<NodeId>)
    requires Mirror(t) && Ranked(t, rank) && Enumerates(children, Children(t, r)) && Apart(t, stack + [r])
    ensures Apart(t, stack + children)
    ensures !BelowSome(t, r, stack)
  {
    hide Below, Mirror, Ranked;
    var before, after, n := stack + [r], stack + children, |stack|;
    forall i, j, x | 0 <= i < j < |after|
      ensures !(Below(t, x, after[i]) && Below(t, x, after[j]))
    {
      if j < n {
        assert before[i] == after[i] && before[j] == after[j];
      } else if i >= n {
        assert children[i - n] in children && children[j - n] in children;
        ChildrenAreApart(t, rank, r, children[i - n], children[j - n], x);
      } else {
        assert before[i] == stack[i] && before[n] == r;
        if Below(t, x, children[j - n]) {
          BelowRootOrChild(t, rank, x, r, children);
          assert BelowSome(t, x, children);
        }
      }
    }
    BelowItself(t, r);
    forall i | 0 <= i < n
      ensures !Below(t, r, stack[i])
    {
      assert before[i] == stack[i] && before[n] == r;
    }
  }

  /** Listing the top of the stack and stacking its direct subtypes, in any order, keeps the state. */
  lemma SearchStep(t: Tree, root: NodeId, listed: seq<NodeId>, stack: seq<NodeId>, r: NodeId, children: seq<NodeId>)
    requires Consistent(t) && SearchState(t, root, listed, stack + [r]) && Enumerates(children, Children(t, r))
    ensures SearchState(t, root, listed + [r], stack + children)
    ensures r !in listed && Below(t, r, root)
  {
    var rank :| Ranked(t, rank);
    hide Below, BelowSome, Mirror, Ranked, Apart, Enumerates, Acyclic;
    forall x
      ensures BelowSome(t, x, stack + [r]) <==> BelowSome(t, x, stack) || x == r || BelowSome(t, x, children)
      ensures BelowSome(t, x, stack + children) <==> BelowSome(t, x, stack) || BelowSome(t, x, children)
    {
      BelowEither(t, x, stack, [r]);
      BelowOne(t, x, r);
      BelowRootOrChild(t, rank, x, r, children);
      BelowEither(t, x, stack, children);
    }
    ApartStep(t, rank, stack, r, children);
    BelowRootOrChild(t, rank, r, r, children);
    assert r !in listed;
  }

  lemma BelowIsKnown(t: Tree, x: NodeId, root: NodeId)
    requires Below(t, x, root)
    ensures x in t.up.Keys + {root}
  {
    BelowUnfolds(t, x, root);
  }

  // ---- The tree as an object ---------------------------------------------------------------

  class DefaultTypeTree {
    var nodes: map<NodeId, NodeClass>
    var abstractTypes: set<NodeId>
    var subtypesBySource: map<NodeId, set<NodeId>>
    var subtypesByTarget: map<NodeId, NodeId>
    var typeProperties: map<NodeId, map<TP.Path, TP.Property>>
    var propertyToType: map<NodeId, TP.Site>
    var subtypeCache: map<Query, bool>

    ghost function View(): Tree
      reads this
    {
      Tree(nodes, abstractTypes, subtypesBySource, subtypesByTarget)
    }

    ghost function Props(): TP.Properties
      reads this
    {
      TP.Properties(typeProperties, propertyToType)
    }

    constructor ()
      ensures View() == NewTree() && Consistent(View()) && CacheAgrees(View(), subtypeCache)
      ensures Props() == TP.Properties(map[], map[]) && TP.Inverse(Props())
    {
      nodes, abstractTypes, subtypesBySource, subtypesByTarget, subtypeCache := Roots(), {}, map[], map[], map[];
      typeProperties, propertyToType := map[], map[];
      new;
      NewTreeIsConsistent();
    }

    method AddTypeNode(id: NodeId, parent: NodeId, nodeClass: NodeClass, isAbstract: bool)
      modifies this`nodes, this`abstractTypes, this`subtypesBySource, this`subtypesByTarget
      ensures View() == WithType(old(View()), id, parent, nodeClass, isAbstract)
      ensures old(Consistent(View())) ==> (Consistent(View()) <==> old(MayAdd(View(), id, parent)))
    {
      hide Consistent, MayAdd;
      ghost var before := View();
      nodes := nodes[id := nodeClass];
      if isAbstract {
        abstractTypes := abstractTypes + {id};
      } else {
        abstractTypes := abstractTypes - {id};
      }
      var siblings := if parent in subtypesBySource then subtypesBySource[parent] else {};
      subtypesBySource := subtypesBySource[parent := siblings + {id}];
      subtypesByTarget := subtypesByTarget[id := parent];
      if Consistent(before) {
        AddKeepsConsistent(before, id, parent, nodeClass, isAbstract);
      }
    }

    method AddTypeProperty(prop: TP.Property, typ: NodeId, path: TP.Path)
      modifies this`typeProperties, this`propertyToType
      ensures Props() == TP.WithProperty(old(Props()), prop, typ, path)
    {
      var props := if typ in typeProperties then typeProperties[typ] else map[];
      typeProperties := typeProperties[typ := props[path := prop]];
      propertyToType := propertyToType[prop.id := TP.Site(typ, path)];
    }

    /** Remove a type with its properties, or else a property. */
    method Remove(id: NodeId) returns (removed: bool)
      modifies this`nodes, this`subtypesBySource, this`subtypesByTarget, this`typeProperties, this`propertyToType
      ensures removed == (id in old(nodes) || id in old(propertyToType))
      ensures View() == WithoutType(old(View()), id)
      ensures Props() == if id in old(nodes) then TP.WithoutOwner(old(Props()), id) else TP.WithoutProperty(old(Props()), id)
      ensures old(Consistent(View())) ==> Consistent(View())
      ensures old(TP.Inverse(Props())) ==> TP.Inverse(Props())
    {
      hide Consistent, TP.Inverse, TP.WithoutOwner;
      ghost var before, props0 := View(), Props();
      if Consistent(before) {
        RemoveKeepsConsistent(before, id);
      }
      if TP.Inverse(props0) {
        TP.RemoveKeepsInverse(props0, id);
      }
      if id in nodes {
        nodes := nodes - {id};
        RemoveTypeProperties(id);
        if id in subtypesByTarget {
          var parent := subtypesByTarget[id];
          subtypesByTarget := subtypesByTarget - {id};
          if parent in subtypesBySource {
            subtypesBySource := subtypesBySource[parent := subtypesBySource[parent] - {id}];
          }
        } else {
          assert subtypesByTarget - {id} == subtypesByTarget;
        }
        return true;
      }
      if id in propertyToType {
        var site := propertyToType[id];
        propertyToType := propertyToType - {id};
        if site.owner in typeProperties {
          typeProperties := typeProperties[site.owner := typeProperties[site.owner] - {site.path}];
        }
        return true;
      }
      removed := false;
    }

    method RemoveTypeProperties(typ: NodeId)
      modifies this`typeProperties, this`propertyToType
      ensures Props() == TP.WithoutOwner(old(Props()), typ)
    {
      ghost var before := propertyToType;
      var props := if typ in typeProperties then typeProperties[typ] else map[];
      typeProperties := typeProperties - {typ};
      var todo := props.Keys;
      while todo != {}
        invariant todo <= props.Keys && typeProperties == old(typeProperties) - {typ}
        invariant propertyToType == before - set path | path in props.Keys - todo :: props[path].id
        decreases todo
      {
        var path :| path in todo;
        propertyToType := propertyToType - {props[path].id};
        todo := todo - {path};
      }
      assert TP.Listed(props) == set path | path in props.Keys - todo :: props[path].id;
    }

    /** Answer from the cache when the answer is still there; otherwise walk up and remember.  `evicted`
      is whatever the cache has dropped since the last call. */
    method IsSubtypeOf(child: NodeId, ancestor: NodeId, evicted: set<Query>) returns (result: bool)
      requires Acyclic(View())
      modifies this`subtypeCache
      ensures
        var q := Query(child, ancestor);
        var kept := old(subtypeCache) - evicted;
        && result == Answer(View(), kept, q)
        && subtypeCache == kept[q := result]
      ensures CacheAgrees(View(), old(subtypeCache)) ==>
        result == IsSubtype(View(), child, ancestor) && CacheAgrees(View(), subtypeCache)
    {
      hide IsSubtype, Below, Mirror;
      var key := Query(child, ancestor);
      subtypeCache := subtypeCache - evicted;
      ghost var kept := subtypeCache;
      if key in subtypeCache {
        assert subtypeCache == subtypeCache[key := subtypeCache[key]];
        return subtypeCache[key];
      }
      ghost var t := View();
      ghost var rank :| Ranked(t, rank);
      var node := child;
      result := false;
      while true
        invariant subtypeCache == kept && IsSubtype(t, child, ancestor) == IsSubtype(t, node, ancestor)
        decreases if node in rank then rank[node] else 0
      {
        SubtypeUnfolds(t, node, ancestor);
        if node == ancestor {
          result := true;
          break;
        }
        if node !in nodes || !IsTypeClass(nodes[node]) || node !in subtypesByTarget {
          break;
        }
        node := subtypesByTarget[node];
      }
      subtypeCache := subtypeCache[key := result];
    }

    /** Every descendant of the root, and the root itself, exactly once. */
    method GetAllChildren(root: NodeId) returns (res: seq<NodeId>)
      requires Consistent(View())
      ensures Distinct(res) && forall x :: x in res <==> Below(View(), x, root)
    {
      hide Below, Consistent, BelowSome, SearchState, Enumerates;
      ghost var t := View();
      res := [];
      var roots := [root];
      SearchStart(t, root);
      ghost var unseen := t.up.Keys + {root};
      forall x | Below(t, x, root)
        ensures x in unseen
      {
        BelowIsKnown(t, x, root);
      }
      while roots != []
        invariant SearchState(t, root, res, roots)
        invariant forall x | Below(t, x, root) && x !in res :: x in unseen
        decreases unseen
      {
        var last := |roots| - 1;
        var r, rest := roots[last], roots[..last];
        assert roots == rest + [r];
        var children := Sequence(if r in subtypesBySource then subtypesBySource[r] else {});
        SearchStep(t, root, res, rest, r, children);
        unseen := unseen - {r};
        res, roots := res + [r], rest + children;
      }
      SearchEnd(t, root, res);
    }
  }

  lemma SearchEnd(t: Tree, root: NodeId, listed: seq<NodeId>)
    requires SearchState(t, root, listed, [])
    ensures Distinct(listed) && forall x :: x in listed <==> Below(t, x, root)
  {
    hide Below;
  }
}
