/** The properties of types: found by type and browse path, and back from the property's node. */
module TypeProperties {
  import opened NodeIds

  type Path = seq<string>

  datatype Property = Property(id: NodeId, code: nat)

  /** Where a property hangs: its type and the path from it. */
  datatype Site = Site(owner: NodeId, path: Path)

  datatype Properties = Properties(byType: map<NodeId, map<Path, Property>>, byId: map<NodeId, Site>)

  function PathsOf(p: Properties, owner: NodeId): map<Path, Property> {
    if owner in p.byType then p.byType[owner] else map[]
  }

  function WithProperty(p: Properties, prop: Property, owner: NodeId, path: Path): Properties {
    Properties(p.byType[owner := PathsOf(p, owner)[path := prop]], p.byId[prop.id := Site(owner, path)])
  }

  /** The type's properties go with it. */
  function WithoutOwner(p: Properties, owner: NodeId): Properties {
    Properties(p.byType - {owner}, p.byId - Listed(PathsOf(p, owner)))
  }

  function Listed(paths: map<Path, Property>): set<NodeId> {
    set path | path in paths :: paths[path].id
  }

  function WithoutProperty(p: Properties, id: NodeId): Properties {
    if id !in p.byId then p
    else
      var site := p.byId[id];
      Properties(if site.owner in p.byType then p.byType[site.owner := p.byType[site.owner] - {site.path}] else p.byType,
                 p.byId - {id})
  }

  predicate At(p: Properties, id: NodeId, site: Site) {
    site.path in PathsOf(p, site.owner) && PathsOf(p, site.owner)[site.path].id == id
  }

  /** The two tables say the same. */
  ghost predicate Inverse(p: Properties) {
    forall id, site :: At(p, id, site) <==> id in p.byId && p.byId[id] == site
  }

  /** Registering a property keeps the tables in agreement exactly when its node does not serve another
    site and its site does not hold another node. */
  lemma AddKeepsInverse(p: Properties, prop: Property, owner: NodeId, path: Path)
    requires Inverse(p)
    ensures
      var site := Site(owner, path);
      Inverse(WithProperty(p, prop, owner, path)) <==>
        && (prop.id in p.byId ==> p.byId[prop.id] == site)
        && (path in PathsOf(p, owner) ==> PathsOf(p, owner)[path].id == prop.id)
  {
    var q, site := WithProperty(p, prop, owner, path), Site(owner, path);
    forall id, other
      ensures At(q, id, other) <==> if other == site then id == prop.id else At(p, id, other)
    {
    }
    if prop.id in p.byId && p.byId[prop.id] != site {
      var was := p.byId[prop.id];
      assert At(p, prop.id, was);
      assert At(q, prop.id, was);
    } else if path in PathsOf(p, owner) && PathsOf(p, owner)[path].id != prop.id {
      var id := PathsOf(p, owner)[path].id;
      assert At(p, id, site);
      assert id in q.byId && q.byId[id] == site && !At(q, id, site);
    } else {
      forall id, other
        ensures At(q, id, other) <==> id in q.byId && q.byId[id] == other
      {
        assert At(p, id, other) <==> id in p.byId && p.byId[id] == other;
        assert At(p, prop.id, other) <==> prop.id in p.byId && p.byId[prop.id] == other;
        assert At(p, id, site) <==> id in p.byId && p.byId[id] == site;
      }
    }
  }

  /** Such a registration: two properties of one name, of which the first keeps pointing to a site that
    holds the second. */
  lemma SiteCanBeTakenOver(a: NodeId, b: NodeId, owner: NodeId, path: Path, code: nat)
    requires a != b
    ensures
      var p := WithProperty(Properties(map[], map[]), Property(a, code), owner, path);
      Inverse(p) && !Inverse(WithProperty(p, Property(b, code), owner, path))
  {
    var p0 := Properties(map[], map[]);
    assert Inverse(p0);
    AddKeepsInverse(p0, Property(a, code), owner, path);
    AddKeepsInverse(WithProperty(p0, Property(a, code), owner, path), Property(b, code), owner, path);
  }

  /** Removing a type or a property keeps them in agreement. */
  lemma RemoveKeepsInverse(p: Properties, id: NodeId)
    requires Inverse(p)
    ensures Inverse(WithoutOwner(p, id)) && Inverse(WithoutProperty(p, id))
  {
    OwnerGone(p, id);
    PropertyGone(p, id);
  }

  lemma OwnerGone(p: Properties, owner: NodeId)
    requires Inverse(p)
    ensures Inverse(WithoutOwner(p, owner))
  {
    var q := WithoutOwner(p, owner);
    forall id, site
      ensures At(q, id, site) <==> id in q.byId && q.byId[id] == site
    {
      assert At(p, id, site) <==> id in p.byId && p.byId[id] == site;
      if id in Listed(PathsOf(p, owner)) {
        var path :| path in PathsOf(p, owner) && PathsOf(p, owner)[path].id == id;
        assert At(p, id, Site(owner, path));
      }
      if At(p, id, site) && site.owner == owner {
        assert id in Listed(PathsOf(p, owner));
      }
    }
  }

  lemma PropertyGone(p: Properties, gone: NodeId)
    requires Inverse(p)
    ensures Inverse(WithoutProperty(p, gone))
  {
    var q := WithoutProperty(p, gone);
    if gone in p.byId {
      assert At(p, gone, p.byId[gone]);
      forall id, site
        ensures At(q, id, site) <==> id in q.byId && q.byId[id] == site
      {
        assert At(p, id, site) <==> id in p.byId && p.byId[id] == site;
      }
    }
  }
}
