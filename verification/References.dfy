/** The reference index: every link between two nodes is stored twice, once under its source and once
  under its target, so that links can be found from either end.

  The meaning of the index is one set of links; every operation is specified by what it does to it.
  */
module References {
  import opened HashSets
  import opened NodeIds
  import opened Wrappers

  /** As stored: in the index by source, `other` is the target; in the one by target, the source. */
  datatype Reference = Reference(kind: NodeId, other: NodeId)

  datatype Link = Link(source: NodeId, kind: NodeId, target: NodeId)

  type Index = map<NodeId, set<Reference>>

  function Held(index: Index, n: NodeId): set<Reference> {
    if n in index then index[n] else {}
  }

  /** Both indexes hold exactly the links of `links`. */
  ghost predicate Represents(bySource: Index, byTarget: Index, links: set<Link>) {
    && (forall s, k, t :: Reference(k, t) in Held(bySource, s) <==> Link(s, k, t) in links)
    && (forall s, k, t :: Reference(k, s) in Held(byTarget, t) <==> Link(s, k, t) in links)
  }

  predicate Touches(l: Link, n: NodeId) {
    l.source == n || l.target == n
  }

  function WithoutNode(links: set<Link>, n: NodeId): set<Link> {
    set l | l in links && !Touches(l, n)
  }

  // ---- The index ---------------------------------------------------------------------------

  datatype Direction = Forward | Inverse

  class References {
    var bySource: Index
    var byTarget: Index

    /** The links held by the index by source; `Valid` says that the other index holds the same. */
    ghost function Links(): set<Link>
      reads this
    {
      set s, r | s in bySource && r in bySource[s] :: Link(s, r.kind, r.other)
    }

    ghost predicate Valid()
      reads this
    {
      Represents(bySource, byTarget, Links())
    }

    constructor ()
      ensures Valid() && Links() == {} && bySource == byTarget == map[]
    {
      bySource, byTarget := map[], map[];
    }

    /** The original refuses a link from a node to itself by panicking. */
    method InsertReference(source: NodeId, target: NodeId, kind: NodeId)
      requires Valid() && source != target
      modifies this
      ensures Valid() && Links() == old(Links()) + {Link(source, kind, target)}
      ensures bySource.Keys == old(bySource.Keys) + {source} && byTarget.Keys == old(byTarget.Keys) + {target}
    {
      hide Represents;
      ghost var s0, t0, links := bySource, byTarget, Links();
      var forward := if source in bySource then bySource[source] else {};
      var r := Reference(kind, target);
      bySource := bySource[source := forward + {r}];
      if r in forward {
        InsertedTwice(s0, t0, links, Link(source, kind, target), bySource);
        assert byTarget.Keys == t0.Keys + {target};
        Agreed(links + {Link(source, kind, target)});
        return;
      }
      var inverse := if target in byTarget then byTarget[target] else {};
      byTarget := byTarget[target := inverse + {Reference(kind, source)}];
      InsertedOnce(s0, t0, links, Link(source, kind, target), bySource, byTarget);
      Agreed(links + {Link(source, kind, target)});
    }

    ghost method Agreed(links: set<Link>)
      requires Represents(bySource, byTarget, links)
      ensures Valid() && Links() == links
    {
      LinksOf(bySource, byTarget, links);
    }

    method ImportReference(source: NodeId, target: NodeId, kind: NodeId, isForward: bool)
      requires Valid() && source != target
      modifies this
      ensures Valid()
      ensures Links() == old(Links()) + {if isForward then Link(source, kind, target) else Link(target, kind, source)}
      ensures bySource.Keys == old(bySource.Keys) + {if isForward then source else target}
      ensures byTarget.Keys == old(byTarget.Keys) + {if isForward then target else source}
    {
      var from, to := source, target;
      if !isForward {
        from, to := to, from;
      }
      InsertReference(from, to, kind);
    }

    method DeleteReference(source: NodeId, target: NodeId, kind: NodeId) returns (found: bool)
      requires Valid()
      modifies this
      ensures Valid() && Links() == old(Links()) - {Link(source, kind, target)}
      ensures found == (Link(source, kind, target) in old(Links()))
      ensures bySource.Keys == old(bySource.Keys) && byTarget.Keys == old(byTarget.Keys)
    {
      ghost var links := Links() - {Link(source, kind, target)};
      found := false;
      if source in bySource {
        found := Reference(kind, target) in bySource[source];
        bySource := bySource[source := bySource[source] - {Reference(kind, target)}];
      }
      if target in byTarget {
        found := found || Reference(kind, source) in byTarget[target];
        byTarget := byTarget[target := byTarget[target] - {Reference(kind, source)}];
      }
      Agreed(links);
    }

    /** With both ends deleted exactly the links touching the node disappear.  With only its own
      entries deleted the two indexes lose just those. */
    method DeleteNodeReferences(n: NodeId, deleteTargetReferences: bool) returns (found: bool)
      requires Valid()
      modifies this
      ensures found == (n in old(bySource) || n in old(byTarget))
      ensures deleteTargetReferences ==> Valid() && Links() == WithoutNode(old(Links()), n)
      ensures bySource.Keys == old(bySource.Keys) - {n} && byTarget.Keys == old(byTarget.Keys) - {n}
      ensures !deleteTargetReferences ==> bySource == old(bySource) - {n} && byTarget == old(byTarget) - {n}
    {
      ghost var s0, t0, links := bySource, byTarget, Links();
      var source := if n in bySource then bySource[n] else {};
      found := n in bySource;
      bySource := bySource - {n};
      if deleteTargetReferences {
        byTarget := Unlinked(byTarget, source, n);
      }
      var target := if n in byTarget then byTarget[n] else {};
      found := found || n in byTarget;
      byTarget := byTarget - {n};
      if deleteTargetReferences {
        bySource := Unlinked(bySource, target, n);
        NodeDeleted(s0, t0, links, n, source, target, bySource, byTarget);
        Agreed(WithoutNode(links, n));
      }
    }

    method HasReference(source: NodeId, target: NodeId, kind: NodeId) returns (found: bool)
      requires Valid()
      ensures found == (Link(source, kind, target) in Links())
    {
      found := source in bySource && Reference(kind, target) in bySource[source];
    }

    method FindReferences(n: NodeId, direction: BrowseDirection, filter: Option<Filter>,
        isSubtype: (NodeId, NodeId) -> bool)
      returns (it: ReferenceIterator)
      requires Valid()
      ensures fresh(it) && it.filter == filter && it.isSubtype == isSubtype
      ensures Enumerates(it.Remaining(), LinksAt(Links(), n, direction))
    {
      it := new ReferenceIterator(bySource, byTarget, n, direction, filter, isSubtype);
      RemainingMeaning(bySource, byTarget, Links(), n, direction, it.iterS, it.iterT);
    }
  }

  /** `Represents` determines the set of links. */
  lemma LinksOf(bySource: Index, byTarget: Index, links: set<Link>)
    requires Represents(bySource, byTarget, links)
    ensures (set s, r | s in bySource && r in bySource[s] :: Link(s, r.kind, r.other)) == links
  {
    var held := set s, r | s in bySource && r in bySource[s] :: Link(s, r.kind, r.other);
    forall l
      ensures l in held <==> l in links
    {
      assert Reference(l.kind, l.target) in Held(bySource, l.source) <==> Link(l.source, l.kind, l.target) in links;
      if l in held {
        var s, r :| s in bySource && r in bySource[s] && l == Link(s, r.kind, r.other);
        assert r == Reference(l.kind, l.target);
      }
      if l in links {
        assert l.source in bySource && Reference(l.kind, l.target) in bySource[l.source];
      }
    }
  }

  ghost predicate Puts(before: Index, after: Index, n: NodeId, r: Reference) {
    after == before[n := Held(before, n) + {r}]
  }

  lemma InsertedTwice(s0: Index, t0: Index, links: set<Link>, l: Link, s1: Index)
    requires Represents(s0, t0, links) && Puts(s0, s1, l.source, Reference(l.kind, l.target))
    requires Reference(l.kind, l.target) in Held(s0, l.source)
    ensures Represents(s1, t0, links + {l}) && l.target in t0
  {
    assert l in links;
    assert links + {l} == links;
    assert s1[l.source] == Held(s0, l.source);
  }

  lemma InsertedOnce(s0: Index, t0: Index, links: set<Link>, l: Link, s1: Index, t1: Index)
    requires Represents(s0, t0, links)
    requires Puts(s0, s1, l.source, Reference(l.kind, l.target)) && Puts(t0, t1, l.target, Reference(l.kind, l.source))
    ensures Represents(s1, t1, links + {l})
  {
    forall s, k, t
      ensures Reference(k, t) in Held(s1, s) <==> Link(s, k, t) in links + {l}
      ensures Reference(k, s) in Held(t1, t) <==> Link(s, k, t) in links + {l}
    {
      assert Reference(k, t) in Held(s0, s) <==> Link(s, k, t) in links;
      assert Reference(k, s) in Held(t0, t) <==> Link(s, k, t) in links;
    }
  }

  /** The entries of `index` without the mirror images, at `n`, of the references in `refs`. */
  ghost predicate Unlinks(before: Index, after: Index, refs: set<Reference>, n: NodeId) {
    && after.Keys == before.Keys
    && forall m, r | m in before ::
         r in after[m] <==> r in before[m] && !(r.other == n && Reference(r.kind, m) in refs)
  }

  method Unlinked(index: Index, refs: set<Reference>, n: NodeId) returns (result: Index)
    ensures Unlinks(index, result, refs, n)
  {
    result := index;
    var todo := refs;
    while todo != {}
      invariant todo <= refs && Unlinks(index, result, refs - todo, n)
      decreases todo
    {
      var r :| r in todo;
      if r.other in result {
        result := result[r.other := result[r.other] - {Reference(r.kind, n)}];
      }
      todo := todo - {r};
    }
    assert refs - todo == refs;
  }

  lemma NodeDeleted(s0: Index, t0: Index, links: set<Link>, n: NodeId, source: set<Reference>, target: set<Reference>,
                    s1: Index, t1: Index)
    requires Represents(s0, t0, links) && source == Held(s0, n)
    requires exists t :: Unlinks(t0, t, source, n) && t1 == t - {n} && target == Held(t, n)
    requires Unlinks(s0 - {n}, s1, target, n)
    ensures Represents(s1, t1, WithoutNode(links, n))
  {
    var kept := WithoutNode(links, n);
    forall s, k, t
      ensures Reference(k, t) in Held(s1, s) <==> Link(s, k, t) in kept
      ensures Reference(k, s) in Held(t1, t) <==> Link(s, k, t) in kept
    {
      assert Reference(k, t) in Held(s0, s) <==> Link(s, k, t) in links;
      assert Reference(k, s) in Held(t0, t) <==> Link(s, k, t) in links;
    }
  }

  // ---- What the operations mean together -----------------------------------------------------

  datatype Op =
    | Insert(source: NodeId, target: NodeId, kind: NodeId)
    | Import(source: NodeId, target: NodeId, kind: NodeId, isForward: bool)
    | Delete(source: NodeId, target: NodeId, kind: NodeId)
    | DeleteNode(node: NodeId)

  function Effect(links: set<Link>, op: Op): set<Link> {
    match op
    case Insert(source, target, kind) => links + {Link(source, kind, target)}
    case Import(source, target, kind, isForward) =>
      links + {if isForward then Link(source, kind, target) else Link(target, kind, source)}
    case Delete(source, target, kind) => links - {Link(source, kind, target)}
    case DeleteNode(n) => WithoutNode(links, n)
  }

  function Effects(links: set<Link>, ops: seq<Op>): set<Link>
    decreases |ops|
  {
    if ops == [] then links else Effect(Effects(links, ops[..|ops| - 1]), ops[|ops| - 1])
  }

  /** The nodes with an entry, be it an empty one: only deleting the node drops its entries. */
  function Entries(ops: seq<Op>): set<NodeId>
    decreases |ops|
  {
    if ops == [] then {}
    else
      var before := Entries(ops[..|ops| - 1]);
      match ops[|ops| - 1]
      case Insert(source, target, _) => before + {source, target}
      case Import(source, target, _, _) => before + {source, target}
      case Delete(_, _, _) => before
      case DeleteNode(n) => before - {n}
  }

  predicate NoSelfReference(op: Op) {
    (op.Insert? || op.Import?) ==> op.source != op.target
  }

  /** Over every run the two indexes represent one set of links, and it is the one the operations
    describe; so the shortcut taken for a link already present loses nothing. */
  method Run(ops: seq<Op>) returns (index: References)
    requires forall op | op in ops :: NoSelfReference(op)
    ensures fresh(index) && index.Valid() && index.Links() == Effects({}, ops)
    ensures index.bySource.Keys + index.byTarget.Keys == Entries(ops)
  {
    hide Represents;
    index := new References();
    for i := 0 to |ops|
      invariant fresh(index) && index.Valid() && index.Links() == Effects({}, ops[..i])
      invariant index.bySource.Keys + index.byTarget.Keys == Entries(ops[..i])
    {
      assert ops[..i + 1][..i] == ops[..i] && ops[i] in ops;
      match ops[i] {
        case Insert(source, target, kind) => index.InsertReference(source, target, kind);
        case Import(source, target, kind, isForward) => index.ImportReference(source, target, kind, isForward);
        case Delete(source, target, kind) => var _ := index.DeleteReference(source, target, kind);
        case DeleteNode(n) => var _ := index.DeleteNodeReferences(n, true);
      }
    }
    assert ops[..|ops|] == ops;
  }

  /** The link an operation puts in, and whether it takes one out. */
  predicate PutsIn(op: Op, l: Link) {
    match op
    case Insert(source, target, kind) => l == Link(source, kind, target)
    case Import(source, target, kind, isForward) =>
      l == if isForward then Link(source, kind, target) else Link(target, kind, source)
    case _ => false
  }

  predicate TakesOut(op: Op, l: Link) {
    match op
    case Delete(source, target, kind) => l == Link(source, kind, target)
    case DeleteNode(n) => l.source == n || l.target == n
    case _ => false
  }

  /** Operation `i` put the link in, and none after it took it out. */
  ghost predicate PutAt(ops: seq<Op>, l: Link, i: nat) {
    i < |ops| && PutsIn(ops[i], l) && forall j | i < j < |ops| :: !TakesOut(ops[j], l)
  }

  lemma PutBefore(ops: seq<Op>, l: Link, i: nat)
    requires ops != []
    ensures
      var n := |ops| - 1;
      PutAt(ops, l, i) <==> if i == n then PutsIn(ops[n], l) else PutAt(ops[..n], l, i) && !TakesOut(ops[n], l)
  {
    hide PutsIn, TakesOut;
  }

  lemma EffectOn(links: set<Link>, op: Op, l: Link)
    ensures l in Effect(links, op) <==> PutsIn(op, l) || (l in links && !TakesOut(op, l))
  {
  }

  /** A link is there exactly when the last operation about it put it in. */
  lemma {:induction false} LastWordDecides(ops: seq<Op>, l: Link)
    ensures l in Effects({}, ops) <==> exists i: nat :: PutAt(ops, l, i)
    decreases |ops|
  {
    if ops != [] {
      var n := |ops| - 1;
      LastWordDecides(ops[..n], l);
      EffectOn(Effects({}, ops[..n]), ops[n], l);
      hide PutsIn, TakesOut, PutAt, Effect;
      forall i: nat
        ensures PutAt(ops, l, i) <==> if i == n then PutsIn(ops[n], l) else PutAt(ops[..n], l, i) && !TakesOut(ops[n], l)
      {
        PutBefore(ops, l, i);
      }
      NotPutLater(ops[..n], l, n);
      assert PutAt(ops, l, n) <==> PutsIn(ops[n], l);
      if i: nat :| PutAt(ops[..n], l, i) {
        NotPutLater(ops[..n], l, i);
        assert !TakesOut(ops[n], l) ==> i != n && PutAt(ops, l, i);
      }
    }
  }

  lemma NotPutLater(ops: seq<Op>, l: Link, i: nat)
    ensures PutAt(ops, l, i) ==> i < |ops|
  {
  }

  /** Deleting only a node's own entries leaves the two indexes in agreement exactly when it had no
    links at all. */
  lemma HalfDeletionAgreesIffUnlinked(bySource: Index, byTarget: Index, links: set<Link>, n: NodeId)
    requires Represents(bySource, byTarget, links) && forall l | l in links :: l.source != l.target
    ensures (exists left :: Represents(bySource - {n}, byTarget - {n}, left)) <==> forall l | l in links :: !Touches(l, n)
  {
    if forall l | l in links :: !Touches(l, n) {
      forall s, k, t
        ensures Reference(k, t) in Held(bySource - {n}, s) <==> Link(s, k, t) in links
        ensures Reference(k, s) in Held(byTarget - {n}, t) <==> Link(s, k, t) in links
      {
        assert Reference(k, t) in Held(bySource, s) <==> Link(s, k, t) in links;
        assert Reference(k, s) in Held(byTarget, t) <==> Link(s, k, t) in links;
      }
      assert Represents(bySource - {n}, byTarget - {n}, links);
    }
    if left :| Represents(bySource - {n}, byTarget - {n}, left) {
      forall l | l in links
        ensures !Touches(l, n)
      {
        assert Reference(l.kind, l.target) in Held(bySource, l.source) && Reference(l.kind, l.source) in Held(byTarget, l.target);
        assert Reference(l.kind, l.target) in Held(bySource - {n}, l.source)
          <==> Reference(l.kind, l.source) in Held(byTarget - {n}, l.target) by {
          assert Link(l.source, l.kind, l.target) in left <==> Reference(l.kind, l.target) in Held(bySource - {n}, l.source);
        }
      }
    }
  }

  /** What the deletion of a node reports is not whether it had links, as documented, but whether it
    has an entry; the two differ exactly when all its entries are empty. */
  lemma ReportedIsNotFound(bySource: Index, byTarget: Index, links: set<Link>, n: NodeId)
    requires Represents(bySource, byTarget, links)
    ensures (n in bySource || n in byTarget) == (exists l | l in links :: Touches(l, n))
       <==> !((n in bySource || n in byTarget) && Held(bySource, n) == {} && Held(byTarget, n) == {})
  {
    forall l | l in links && Touches(l, n)
      ensures l.source == n ==> Held(bySource, n) != {}
      ensures l.target == n ==> Held(byTarget, n) != {}
    {
      assert Reference(l.kind, l.target) in Held(bySource, l.source) && Reference(l.kind, l.source) in Held(byTarget, l.target);
    }
    if Held(bySource, n) != {} {
      var r :| r in Held(bySource, n);
      assert Link(n, r.kind, r.other) in links <==> Reference(r.kind, r.other) in Held(bySource, n);
      assert Touches(Link(n, r.kind, r.other), n);
    }
    if Held(byTarget, n) != {} {
      var r :| r in Held(byTarget, n);
      assert Link(r.other, r.kind, n) in links <==> Reference(r.kind, r.other) in Held(byTarget, n);
      assert Touches(Link(r.other, r.kind, n), n);
    }
  }

  predicate Mentions(op: Op, n: NodeId) {
    (op.Insert? || op.Import?) && (op.source == n || op.target == n)
  }

  /** A node has an entry exactly when a link to or from it was put in since it was last deleted. */
  lemma {:induction false} EntriesMeaning(ops: seq<Op>, n: NodeId)
    ensures n in Entries(ops) <==>
      exists i :: 0 <= i < |ops| && Mentions(ops[i], n) && forall j | i < j < |ops| :: ops[j] != DeleteNode(n)
    decreases |ops|
  {
    if ops != [] {
      var last := |ops| - 1;
      var before := ops[..last];
      EntriesMeaning(before, n);
      if n in Entries(before) && ops[last] != DeleteNode(n) {
        var i :| 0 <= i < last && Mentions(before[i], n) && forall j | i < j < last :: before[j] != DeleteNode(n);
        assert Mentions(ops[i], n) && forall j | i < j < |ops| :: ops[j] != DeleteNode(n);
      }
      if i :| 0 <= i < last && Mentions(ops[i], n) && forall j | i < j < |ops| :: ops[j] != DeleteNode(n) {
        assert Mentions(before[i], n) && forall j | i < j < last :: before[j] != DeleteNode(n);
      }
    }
  }

  /** What deleting a node reports after any run: not whether links were found, but whether any had been
    put in since the node was last deleted. */
  method DeleteAfterRun(ops: seq<Op>, n: NodeId) returns (reported: bool, index: References)
    requires forall op | op in ops :: NoSelfReference(op)
    ensures reported <==>
      exists i :: 0 <= i < |ops| && Mentions(ops[i], n) && forall j | i < j < |ops| :: ops[j] != DeleteNode(n)
    ensures index.Valid() && index.Links() == Effects({}, ops + [DeleteNode(n)])
  {
    hide Represents;
    index := Run(ops);
    reported := index.DeleteNodeReferences(n, true);
    EntriesMeaning(ops, n);
    assert (ops + [DeleteNode(n)])[..|ops|] == ops;
  }

  /** So with one link put in and taken out again a node has none, and deleting it reports some. */
  lemma ReportsWithoutLinks(a: NodeId, b: NodeId, kind: NodeId)
    ensures
      var ops := [Insert(a, b, kind), Delete(a, b, kind)];
      a in Entries(ops) && Effects({}, ops) == {}
  {
    var ops := [Insert(a, b, kind), Delete(a, b, kind)];
    assert ops[..1] == [Insert(a, b, kind)] && ops[..1][..0] == [];
    assert Effects({}, ops[..1]) == {Link(a, kind, b)} && Entries(ops[..1]) == {a, b};
  }

  // ---- Finding references --------------------------------------------------------------------

  datatype BrowseDirection = BrowseForward | BrowseInverse | BrowseBoth

  datatype Filter = Filter(kind: NodeId, includeSubtypes: bool)

  datatype Found = Found(kind: NodeId, other: NodeId, direction: Direction)

  predicate LooksForward(d: BrowseDirection) {
    !d.BrowseInverse?
  }

  predicate LooksInverse(d: BrowseDirection) {
    !d.BrowseForward?
  }

  /** The links of a node as seen from it, in the directions asked for. */
  ghost function LinksAt(links: set<Link>, n: NodeId, d: BrowseDirection): set<Found> {
    (set l | l in links && l.source == n && LooksForward(d) :: Found(l.kind, l.target, Forward))
    + (set l | l in links && l.target == n && LooksInverse(d) :: Found(l.kind, l.source, Inverse))
  }

  predicate Passes(f: Found, filter: Option<Filter>, isSubtype: (NodeId, NodeId) -> bool) {
    filter.Some? ==>
      if filter.value.includeSubtypes then isSubtype(f.kind, filter.value.kind) else f.kind == filter.value.kind
  }

  function Passing(q: seq<Found>, filter: Option<Filter>, isSubtype: (NodeId, NodeId) -> bool): seq<Found>
    decreases |q|
  {
    if q == [] then []
    else (if Passes(q[0], filter, isSubtype) then [q[0]] else []) + Passing(q[1..], filter, isSubtype)
  }

  function Tagged(q: seq<Reference>, d: Direction): seq<Found> {
    seq(|q|, i requires 0 <= i < |q| => Found(q[i].kind, q[i].other, d))
  }

  function Ahead(iterS: Option<seq<Reference>>, iterT: Option<seq<Reference>>): seq<Found> {
    (if iterS.Some? then Tagged(iterS.value, Forward) else [])
    + (if iterT.Some? then Tagged(iterT.value, Inverse) else [])
  }

  lemma AheadAdvances(q: seq<Reference>, iterT: Option<seq<Reference>>)
    ensures Ahead(Some([]), iterT) == Ahead(None, iterT)
    ensures Ahead(None, Some([])) == Ahead(None, None) == []
    ensures q != [] ==> Ahead(Some(q), iterT) == [Found(q[0].kind, q[0].other, Forward)] + Ahead(Some(q[1..]), iterT)
    ensures q != [] ==> Ahead(None, Some(q)) == [Found(q[0].kind, q[0].other, Inverse)] + Ahead(None, Some(q[1..]))
  {
    if q != [] {
      assert forall d :: Tagged(q, d) == [Found(q[0].kind, q[0].other, d)] + Tagged(q[1..], d);
    }
  }

  class ReferenceIterator {
    const filter: Option<Filter>
    const isSubtype: (NodeId, NodeId) -> bool
    var iterS: Option<seq<Reference>>
    var iterT: Option<seq<Reference>>

    ghost function Remaining(): seq<Found>
      reads this
    {
      Ahead(iterS, iterT)
    }

    constructor (bySource: Index, byTarget: Index, n: NodeId, d: BrowseDirection, filter: Option<Filter>,
                 isSubtype: (NodeId, NodeId) -> bool)
      ensures this.filter == filter && this.isSubtype == isSubtype
      ensures iterS.Some? == (LooksForward(d) && n in bySource) && iterT.Some? == (LooksInverse(d) && n in byTarget)
      ensures iterS.Some? ==> Enumerates(iterS.value, bySource[n])
      ensures iterT.Some? ==> Enumerates(iterT.value, byTarget[n])
    {
      this.filter, this.isSubtype := filter, isSubtype;
      iterS, iterT := None, None;
      new;
      if LooksForward(d) && n in bySource {
        var q := Sequence(bySource[n]);
        iterS := Some(q);
      }
      if LooksInverse(d) && n in byTarget {
        var q := Sequence(byTarget[n]);
        iterT := Some(q);
      }
    }

    method NextInner() returns (r: Option<Found>)
      modifies this
      ensures r == if old(Remaining()) == [] then None else Some(old(Remaining())[0])
      ensures Remaining() == if old(Remaining()) == [] then [] else old(Remaining())[1..]
    {
      hide Ahead;
      AheadAdvances(if iterS.Some? then iterS.value else [], iterT);
      if iterS.Some? {
        if iterS.value != [] {
          var f := iterS.value[0];
          iterS := Some(iterS.value[1..]);
          return Some(Found(f.kind, f.other, Forward));
        }
        iterS := None;
      }
      AheadAdvances(if iterT.Some? then iterT.value else [], None);
      if iterT.Some? {
        if iterT.value != [] {
          var f := iterT.value[0];
          iterT := Some(iterT.value[1..]);
          return Some(Found(f.kind, f.other, Inverse));
        }
        iterT := None;
      }
      r := None;
    }

    method Next() returns (r: Option<Found>)
      modifies this
      ensures var due := Passing(old(Remaining()), filter, isSubtype);
        && r == (if due == [] then None else Some(due[0]))
        && Passing(Remaining(), filter, isSubtype) == (if due == [] then [] else due[1..])
      ensures r.Some? ==> |Remaining()| < |old(Remaining())|
    {
      hide Ahead, Passes;
      while true
        invariant Passing(Remaining(), filter, isSubtype) == Passing(old(Remaining()), filter, isSubtype)
        invariant |Remaining()| <= |old(Remaining())|
        decreases |Remaining()|
      {
        r := NextInner();
        if r.None? || Passes(r.value, filter, isSubtype) {
          return;
        }
      }
    }

    /** The bounds the iterator announces: it counts what is left before filtering. */
    method SizeHint() returns (lower: nat, upper: Option<nat>)
      ensures lower == |Remaining()|
      ensures upper == if iterS.Some? then Some(|Remaining()|) else None
    {
      lower, upper := 0, None;
      if iterS.Some? {
        lower, upper := |iterS.value|, Some(|iterS.value|);
      }
      if iterT.Some? {
        lower := lower + |iterT.value|;
        upper := if upper.Some? then Some(upper.value + |iterT.value|) else None;
      }
    }

    /** Running the iterator to its end. */
    method Collect() returns (q: seq<Found>)
      modifies this
      ensures q == Passing(old(Remaining()), filter, isSubtype)
    {
      hide Ahead, Passing, Passes;
      q := [];
      while true
        invariant q + Passing(Remaining(), filter, isSubtype) == Passing(old(Remaining()), filter, isSubtype)
        decreases |Remaining()|
      {
        var r := Next();
        if r.None? {
          return;
        }
        q := q + [r.value];
      }
    }
  }

  lemma RemainingMeaning(bySource: Index, byTarget: Index, links: set<Link>, n: NodeId, d: BrowseDirection,
                         iterS: Option<seq<Reference>>, iterT: Option<seq<Reference>>)
    requires Represents(bySource, byTarget, links)
    requires iterS.Some? == (LooksForward(d) && n in bySource) && iterT.Some? == (LooksInverse(d) && n in byTarget)
    requires iterS.Some? ==> Enumerates(iterS.value, bySource[n])
    requires iterT.Some? ==> Enumerates(iterT.value, byTarget[n])
    ensures Enumerates(Ahead(iterS, iterT), LinksAt(links, n, d))
  {
    hide Tagged;
    var s := if iterS.Some? then iterS.value else [];
    var t := if iterT.Some? then iterT.value else [];
    TaggedMeaning(s, Forward, if iterS.Some? then bySource[n] else {});
    TaggedMeaning(t, Inverse, if iterT.Some? then byTarget[n] else {});
    NothingTagged();
    var a, b := Tagged(s, Forward), Tagged(t, Inverse);
    assert Ahead(iterS, iterT) == a + b;
    assert Distinct(a + b) by {
      forall i, j | 0 <= i < |a| && 0 <= j < |b|
        ensures a[i] != b[j]
      {
        assert a[i] in a && b[j] in b;
      }
    }
    forall f
      ensures f in LinksAt(links, n, d) <==> f in Tagged(s, Forward) + Tagged(t, Inverse)
    {
      assert Reference(f.kind, f.other) in Held(bySource, n) <==> Link(n, f.kind, f.other) in links;
      assert Reference(f.kind, f.other) in Held(byTarget, n) <==> Link(f.other, f.kind, n) in links;
    }
  }

  lemma TaggedMeaning(q: seq<Reference>, d: Direction, s: set<Reference>)
    requires Enumerates(q, s)
    ensures Distinct(Tagged(q, d))
    ensures forall f :: f in Tagged(q, d) <==> f.direction == d && Reference(f.kind, f.other) in s
  {
    forall f: Found | f.direction == d && Reference(f.kind, f.other) in s
      ensures f in Tagged(q, d)
    {
      var i :| 0 <= i < |q| && q[i] == Reference(f.kind, f.other);
      assert Tagged(q, d)[i] == f;
    }
  }

  lemma NothingTagged()
    ensures forall d :: Tagged([], d) == []
  {
  }

  lemma {:induction false} PassingMeaning(q: seq<Found>, filter: Option<Filter>,
      isSubtype: (NodeId, NodeId) -> bool, f: Found)
    ensures f in Passing(q, filter, isSubtype) <==> f in q && Passes(f, filter, isSubtype)
    decreases |q|
  {
    if q != [] {
      PassingMeaning(q[1..], filter, isSubtype, f);
    }
  }

  lemma PassesMeaning(f: Found, filter: Option<Filter>, isSubtype: (NodeId, NodeId) -> bool)
    ensures Passes(f, filter, isSubtype) <==>
      match filter
      case None => true
      case Some(Filter(kind, includeSubtypes)) => if includeSubtypes then isSubtype(f.kind, kind) else f.kind == kind
  {
  }

  lemma {:induction false} PassingIsDistinct(q: seq<Found>, filter: Option<Filter>, isSubtype: (NodeId, NodeId) -> bool)
    requires Distinct(q)
    ensures Distinct(Passing(q, filter, isSubtype))
    decreases |q|
  {
    if q != [] {
      PassingIsDistinct(q[1..], filter, isSubtype);
      PassingMeaning(q[1..], filter, isSubtype, q[0]);
    }
  }

  /** What the iterator yields: the node's links in the directions asked for that pass the filter, each
    exactly once. */
  method BrowseAll(index: References, n: NodeId, d: BrowseDirection, filter: Option<Filter>,
                   isSubtype: (NodeId, NodeId) -> bool) returns (q: seq<Found>)
    requires index.Valid()
    ensures Distinct(q)
    ensures forall f :: f in q <==>
      && (if f.direction == Forward then Link(n, f.kind, f.other) in index.Links() && d != BrowseInverse
          else Link(f.other, f.kind, n) in index.Links() && d != BrowseForward)
      && match filter
         case None => true
         case Some(Filter(kind, includeSubtypes)) => if includeSubtypes then isSubtype(f.kind, kind) else f.kind == kind
  {
    hide Passes, Ahead, Represents;
    var it := index.FindReferences(n, d, filter, isSubtype);
    ghost var all, links := it.Remaining(), index.Links();
    q := it.Collect();
    PassingIsDistinct(all, filter, isSubtype);
    forall f
      ensures f in q <==> f in LinksAt(links, n, d) && Passes(f, filter, isSubtype)
      ensures Passes(f, filter, isSubtype) <==>
        match filter
        case None => true
        case Some(Filter(kind, includeSubtypes)) => if includeSubtypes then isSubtype(f.kind, kind) else f.kind == kind
    {
      PassingMeaning(all, filter, isSubtype, f);
      PassesMeaning(f, filter, isSubtype);
    }
  }

  /** The announced lower bound is a bound exactly when the filter drops nothing that is left; the
    iterator contract promises it always. */
  lemma {:induction false} HintHoldsIffNothingIsDropped(q: seq<Found>, filter: Option<Filter>,
      isSubtype: (NodeId, NodeId) -> bool)
    ensures |q| <= |Passing(q, filter, isSubtype)| <==> forall f | f in q :: Passes(f, filter, isSubtype)
    ensures |Passing(q, filter, isSubtype)| <= |q|
    decreases |q|
  {
    if q != [] {
      HintHoldsIffNothingIsDropped(q[1..], filter, isSubtype);
      assert q == [q[0]] + q[1..];
    }
  }

  /** The size hint against what the iterator then yields: its lower bound holds exactly when the filter
    drops nothing that is left; its upper bound, when there is one, always. */
  method HintAgainstYield(it: ReferenceIterator) returns (lower: nat, upper: Option<nat>, yielded: seq<Found>)
    modifies it
    ensures lower == |old(it.Remaining())| && yielded == Passing(old(it.Remaining()), it.filter, it.isSubtype)
    ensures lower <= |yielded| <==> forall f | f in old(it.Remaining()) :: Passes(f, it.filter, it.isSubtype)
    ensures upper.Some? ==> |yielded| <= upper.value
  {
    ghost var left := it.Remaining();
    lower, upper := it.SizeHint();
    yielded := it.Collect();
    HintHoldsIffNothingIsDropped(left, it.filter, it.isSubtype);
  }

  /** Such a filter: with one reference of another type left, the bound is one and nothing is yielded. */
  lemma HintCanPromiseTooMuch(f: Found, kind: NodeId, isSubtype: (NodeId, NodeId) -> bool)
    requires f.kind != kind
    ensures |[f]| == 1 > |Passing([f], Some(Filter(kind, false)), isSubtype)|
  {
    assert [f][1..] == [];
  }
}
