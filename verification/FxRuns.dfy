/** What holds over every run of EstablishConnections and CloseConnections. */
module FxRuns {
  import opened FxCommands
  import opened KeyedList
  import opened NodeIds
  import opened Wrappers

  // ---- What each command may change --------------------------------------------------------------

  lemma PerformIsFramed(env: Environment, b: Bundle, s: State, r: Results, command: Command)
    ensures Framed(command, s, Perform(env, b, s, r, command).state)
  {
    hide Framed, Each, Created, Configured, AllData, PutAll, Put, IndexOf, FirstFailing, GroupStatuses, LockProblem, WithLocks, AllGroups, SetOf;
    FramedItself(command, s);
    match command {
      case VerifyAsset =>
        if env.verifier.Some? {
          AssetsAreFramed(env.verifier.value);
          EachIsFramed(command, AssetStep(env.verifier.value), s, r, b.assets);
        }
      case VerifyFunctionalEntity =>
        EntitiesAreFramed(env);
        if env.verifier.Some? {
          EachIsFramed(command, EntityStep(env.verifier.value), s, r, b.configs);
        } else {
          EachIsFramed(command, UnsupportedStep(), s, r, b.configs);
        }
      case CreateConnectionEndpoint =>
        EndpointStepsAreFramed();
        EachIsFramed(command, CreateStep(), s, r, b.configs);
      case EstablishControl =>
        EstablishIsFramed(s, r, b.configs);
      case SetConfigurationData =>
        EndpointStepsAreFramed();
        EachIsFramed(command, ConfigureStep(), s, r, b.configs);
      case ReassignControl =>
        ReassignIsFramed(env);
        EachIsFramed(command, ReassignStep(env), s, r, b.configs);
      case ReserveCommunicationIds =>
        CommunicationIsFramed(env);
        EachIsFramed(command, ReserveStep(env), s, r, b.reserves);
      case SetCommunicationConfiguration =>
        CommunicationIsFramed(env);
        EachIsFramed(command, CommunicateStep(), s, r, b.comms);
      case EnableCommunication =>
        EndpointStepsAreFramed();
        EnableAllIsFramed(s);
        EachIsFramed(command, EnableStep(), s, r, b.configs);
    }
  }

  lemma FramedItself(command: Command, s: State)
    ensures Framed(command, s, s)
  {
  }

  lemma AssetsAreFramed(v: Verifier)
    ensures forall t, q, i :: Framed(VerifyAsset, t, AssetStep(v)(t, q, i).state)
  {
  }

  lemma EntitiesAreFramed(env: Environment)
    ensures env.verifier.Some? ==> forall t, q, i :: Framed(VerifyFunctionalEntity, t, EntityStep(env.verifier.value)(t, q, i).state)
    ensures forall t, q, i :: Framed(VerifyFunctionalEntity, t, UnsupportedStep()(t, q, i).state)
  {
  }

  lemma EndpointStepsAreFramed()
    ensures forall t, q, i :: Framed(CreateConnectionEndpoint, t, CreateStep()(t, q, i).state)
    ensures forall t, q, i :: Framed(SetConfigurationData, t, ConfigureStep()(t, q, i).state)
    ensures forall t, q, i :: Framed(EnableCommunication, t, EnableStep()(t, q, i).state)
  {
    hide Created, Configured, Put, IndexOf;
  }

  lemma EnableAllIsFramed(s: State)
    ensures Framed(EnableCommunication, s, s.(endpoints := AllEnabled(s.endpoints)))
  {
  }

  lemma EstablishIsFramed(s: State, r: Results, configs: seq<EndpointConfig>)
    ensures Framed(EstablishControl, s, Establish(s, r, configs).state)
  {
    hide Establish;
    EstablishIsAllOrNothing(s, r, configs);
  }

  lemma ReassignIsFramed(env: Environment)
    ensures forall t, q, i :: Framed(ReassignControl, t, ReassignStep(env)(t, q, i).state)
  {
    hide WithLocks, FirstFailing, GroupStatuses;
  }

  lemma CommunicationIsFramed(env: Environment)
    ensures forall t, q, i :: Framed(ReserveCommunicationIds, t, ReserveStep(env)(t, q, i).state)
    ensures forall t, q, i :: Framed(SetCommunicationConfiguration, t, CommunicateStep()(t, q, i).state)
  {
    hide PutAll;
  }

  // ---- Locks over a whole bundle -------------------------------------------------------------------

  /** A bundle that does not reassign control leaves the locks as they were, or it took for the caller
    exactly the groups of its endpoints, none of which was held by another client. */
  lemma {:induction false} BundleLocks(env: Environment, b: Bundle, s: State, r: Results, commands: seq<Command>)
    requires ReassignControl !in commands
    ensures
      var t := Each(PerformStep(env, b), s, r, commands).state;
      && t.context == s.context
      && (t.locks == s.locks
          || (EstablishControl in commands
              && (forall g | g in AllGroups(b.configs) :: !Blocked(s.locks, s.context, g))
              && t.locks == WithLocks(s.locks, AllGroups(b.configs), s.context)))
    decreases |commands|
  {
    hide Perform, AllGroups, WithLocks, Blocked;
    if commands != [] {
      var n := |commands| - 1;
      BundleLocks(env, b, s, r, commands[..n]);
      var e := Each(PerformStep(env, b), s, r, commands[..n]);
      PerformIsFramed(env, b, e.state, e.results, commands[n]);
      if commands[n].EstablishControl? {
        EstablishTwice(env, b, s, e.state, e.results);
      }
    }
  }

  lemma EstablishTwice(env: Environment, b: Bundle, s: State, t: State, r: Results)
    requires t.context == s.context
    requires t.locks == s.locks
      || ((forall g | g in AllGroups(b.configs) :: !Blocked(s.locks, s.context, g)) && t.locks == WithLocks(s.locks, AllGroups(b.configs), s.context))
    ensures
      var u := Perform(env, b, t, r, EstablishControl).state;
      || u.locks == t.locks
      || ((forall g | g in AllGroups(b.configs) :: !Blocked(s.locks, s.context, g)) && u.locks == WithLocks(s.locks, AllGroups(b.configs), s.context))
  {
    hide AllGroups, Each;
    var groups := AllGroups(b.configs);
    EstablishIsAllOrNothing(t, r, b.configs);
    WithLocksMeaning(s.locks, groups, s.context);
    WithLocksMeaning(t.locks, groups, t.context);
    assert WithLocks(WithLocks(s.locks, groups, s.context), groups, s.context) == WithLocks(s.locks, groups, s.context);
  }

  /** So a dispatched bundle without reassignment takes all its groups or none, whichever command fails. */
  lemma DispatchTakesAllOrNone(env: Environment, b: Bundle, s: State)
    requires ReassignControl !in b.mask
    ensures
      var locks := Dispatch(env, b, s).state.locks;
      locks == s.locks || locks == WithLocks(s.locks, AllGroups(b.configs), s.context)
    ensures (EstablishControl !in b.mask || exists g :: g in AllGroups(b.configs) && Blocked(s.locks, s.context, g))
      ==> Dispatch(env, b, s).state.locks == s.locks
  {
    hide Perform, AllGroups, WithLocks, Blocked, Each;
    RequestedMeaning(COMMANDS, b.mask, ReassignControl);
    RequestedMeaning(COMMANDS, b.mask, EstablishControl);
    BundleLocks(env, b, s, NO_RESULTS, Requested(COMMANDS, b.mask));
  }

  lemma {:induction false} RequestedMeaning(commands: seq<Command>, mask: set<Command>, c: Command)
    ensures c in Requested(commands, mask) <==> c in commands && c in mask
    decreases |commands|
  {
    if commands != [] {
      var n := |commands| - 1;
      RequestedMeaning(commands[..n], mask, c);
      assert commands == commands[..n] + [commands[n]];
    }
  }

  // ---- Keys stay distinct ----------------------------------------------------------------------------

  predicate WellKept(e: Endpoint) {
    DistinctKeys(e.data) && e.connectionIds == []
  }

  /** Endpoint ids, connection ids and the configuration keys of each endpoint are pairwise distinct, and
    no endpoint has been given a connection. */
  ghost predicate Inv(s: State) {
    && DistinctKeys(s.connections) && DistinctKeys(s.endpoints)
    && forall k | k in s.endpoints :: WellKept(k.value)
  }

  lemma {:induction false} EachKeepsInv<T>(step: (State, Results, T) -> Effect, s: State, r: Results, items: seq<T>)
    requires Inv(s) && forall t, q, i | Inv(t) :: Inv(step(t, q, i).state)
    ensures Inv(Each(step, s, r, items).state)
    decreases |items|
  {
    hide Inv;
    if items != [] {
      EachKeepsInv(step, s, r, items[..|items| - 1]);
    }
  }

  lemma PutKeepsEndpoints(endpoints: seq<Keyed<NodeId, Endpoint>>, id: NodeId, e: Endpoint)
    requires DistinctKeys(endpoints) && (forall k | k in endpoints :: WellKept(k.value)) && WellKept(e)
    ensures DistinctKeys(Put(endpoints, id, e)) && forall k | k in Put(endpoints, id, e) :: WellKept(k.value)
  {
    hide WellKept;
    PutKeepsDistinct(endpoints, id, e);
  }

  lemma MergedIsWellKept(e: Endpoint, c: EndpointConfig)
    requires WellKept(e)
    ensures WellKept(Configured(e, c))
  {
    PutAllIsMapUpdate(e.data, if c.data.Some? then c.data.value else []);
  }

  lemma CreateKeepsInv(s: State, r: Results, c: EndpointConfig)
    requires Inv(s)
    ensures Inv(CreateStep()(s, r, c).state)
  {
    var i := IndexOf(s.endpoints, c.id);
    if i < |s.endpoints| {
      assert s.endpoints[i] in s.endpoints;
    }
    PutKeepsEndpoints(s.endpoints, c.id, if i < |s.endpoints| then s.endpoints[i].value.(config := c) else Endpoint(c, [], false, []));
  }

  lemma ConfigureKeepsInv(s: State, r: Results, c: EndpointConfig)
    requires Inv(s)
    ensures Inv(ConfigureStep()(s, r, c).state)
  {
    hide Configured, WellKept, DistinctKeys, Put;
    var i := IndexOf(s.endpoints, c.id);
    if i < |s.endpoints| {
      assert s.endpoints[i] in s.endpoints;
      MergedIsWellKept(s.endpoints[i].value, c);
      PutKeepsEndpoints(s.endpoints, c.id, Configured(s.endpoints[i].value, c));
    }
  }

  lemma EnableKeepsInv(s: State, r: Results, c: EndpointConfig)
    requires Inv(s)
    ensures Inv(EnableStep()(s, r, c).state)
  {
    hide DistinctKeys, Put;
    var i := IndexOf(s.endpoints, c.id);
    if i < |s.endpoints| {
      assert s.endpoints[i] in s.endpoints;
      PutKeepsEndpoints(s.endpoints, c.id, s.endpoints[i].value.(enabled := true));
    }
  }

  lemma EnableAllKeepsInv(s: State)
    requires Inv(s)
    ensures Inv(s.(endpoints := AllEnabled(s.endpoints)))
  {
    var all := AllEnabled(s.endpoints);
    forall k | k in all
      ensures WellKept(k.value)
    {
      var i :| 0 <= i < |all| && all[i] == k;
      assert s.endpoints[i] in s.endpoints;
    }
  }

  lemma CommunicateKeepsInv(s: State, r: Results, c: CommConfig)
    requires Inv(s)
    ensures Inv(CommunicateStep()(s, r, c).state)
  {
    if c.connections.Some? {
      PutAllIsMapUpdate(if c.requireCompleteUpdate then [] else s.connections, c.connections.value);
    }
  }

  lemma PerformKeepsInv(env: Environment, b: Bundle, s: State, r: Results, command: Command)
    requires Inv(s)
    ensures Inv(Perform(env, b, s, r, command).state)
  {
    PerformIsFramed(env, b, s, r, command);
    hide Perform, Each;
    match command {
      case CreateConnectionEndpoint =>
        CreateRunKeepsInv(env, b, s, r);
      case SetConfigurationData =>
        ConfigureRunKeepsInv(env, b, s, r);
      case EnableCommunication =>
        EnableRunKeepsInv(env, b, s, r);
      case SetCommunicationConfiguration =>
        CommunicateRunKeepsInv(env, b, s, r);
      case _ =>
    }
  }

  lemma CreateRunKeepsInv(env: Environment, b: Bundle, s: State, r: Results)
    requires Inv(s)
    ensures Inv(Perform(env, b, s, r, CreateConnectionEndpoint).state)
  {
    hide Inv, CreateStep;
    forall t, q, i | Inv(t)
      ensures Inv(CreateStep()(t, q, i).state)
    {
      CreateKeepsInv(t, q, i);
    }
    EachKeepsInv(CreateStep(), s, r, b.configs);
  }

  lemma ConfigureRunKeepsInv(env: Environment, b: Bundle, s: State, r: Results)
    requires Inv(s)
    ensures Inv(Perform(env, b, s, r, SetConfigurationData).state)
  {
    hide Inv, ConfigureStep;
    forall t, q, i | Inv(t)
      ensures Inv(ConfigureStep()(t, q, i).state)
    {
      ConfigureKeepsInv(t, q, i);
    }
    EachKeepsInv(ConfigureStep(), s, r, b.configs);
  }

  lemma EnableRunKeepsInv(env: Environment, b: Bundle, s: State, r: Results)
    requires Inv(s)
    ensures Inv(Perform(env, b, s, r, EnableCommunication).state)
  {
    hide Inv, EnableStep, AllEnabled;
    EnableAllKeepsInv(s);
    forall t, q, i | Inv(t)
      ensures Inv(EnableStep()(t, q, i).state)
    {
      EnableKeepsInv(t, q, i);
    }
    EachKeepsInv(EnableStep(), s, r, b.configs);
  }

  lemma CommunicateRunKeepsInv(env: Environment, b: Bundle, s: State, r: Results)
    requires Inv(s)
    ensures Inv(Perform(env, b, s, r, SetCommunicationConfiguration).state)
  {
    hide Inv, CommunicateStep;
    forall t, q, i | Inv(t)
      ensures Inv(CommunicateStep()(t, q, i).state)
    {
      CommunicateKeepsInv(t, q, i);
    }
    EachKeepsInv(CommunicateStep(), s, r, b.comms);
  }

  lemma {:induction false} CommandsKeepInv(env: Environment, b: Bundle, s: State, r: Results, commands: seq<Command>)
    requires Inv(s)
    ensures Inv(Each(PerformStep(env, b), s, r, commands).state)
    decreases |commands|
  {
    hide Inv, Perform;
    if commands != [] {
      var n := |commands| - 1;
      CommandsKeepInv(env, b, s, r, commands[..n]);
      var e := Each(PerformStep(env, b), s, r, commands[..n]);
      PerformKeepsInv(env, b, e.state, e.results, commands[n]);
    }
  }

  // ---- Closing ---------------------------------------------------------------------------------------

  lemma {:induction false} NothingIsUnlisted(connections: seq<Keyed<string, string>>)
    ensures Unlisted(connections, []) == connections
    decreases |connections|
  {
    if connections != [] {
      NothingIsUnlisted(connections[..|connections| - 1]);
    }
  }

  /** Closing succeeds exactly for an endpoint there is.  It removes that one or disables it, as asked,
    and touches no other; connections stay, since no endpoint has ever been given one. */
  lemma CloseMeaning(s: State, id: NodeId, remove: bool)
    requires Inv(s)
    ensures
      var t, status := Close(s, id, remove).0, Close(s, id, remove).1;
      && Inv(t) && t == s.(endpoints := t.endpoints)
      && (status.Good? <==> id in AsMap(s.endpoints)) && (!status.Good? ==> status == BadNotFound && t == s)
      && (status.Good? && !remove ==> AsMap(t.endpoints) == AsMap(s.endpoints)[id := AsMap(s.endpoints)[id].(enabled := false)])
      && (status.Good? && remove ==> AsMap(t.endpoints) == AsMap(s.endpoints) - {id})
  {
    var i := IndexOf(s.endpoints, id);
    AsMapMeaning(s.endpoints, id);
    if i < |s.endpoints| {
      assert s.endpoints[i] in s.endpoints;
      NothingIsUnlisted(s.connections);
      if remove {
        RemovalMeaning(s.endpoints, i);
      } else {
        PutKeepsEndpoints(s.endpoints, id, s.endpoints[i].value.(enabled := false));
        PutUpdatesMap(s.endpoints, id, s.endpoints[i].value.(enabled := false));
      }
    }
  }

  lemma RemovalMeaning(list: seq<Keyed<NodeId, Endpoint>>, i: nat)
    requires DistinctKeys(list) && i < |list|
    ensures DistinctKeys(WithoutIndex(list, i)) && (forall k | k in WithoutIndex(list, i) :: k in list)
    ensures AsMap(WithoutIndex(list, i)) == AsMap(list) - {list[i].key}
  {
    RemovalKeepsDistinct(list, i);
    var a, b := AsMap(WithoutIndex(list, i)), AsMap(list) - {list[i].key};
    hide AsMap, DistinctKeys, WithoutIndex;
    forall x | x in a.Keys + b.Keys
      ensures x in a && x in b && a[x] == b[x]
    {
      MapAfterRemoval(list, i, x);
    }
    assert a.Keys == b.Keys;
  }

  lemma RemovalKeepsDistinct(list: seq<Keyed<NodeId, Endpoint>>, i: nat)
    requires DistinctKeys(list) && i < |list|
    ensures DistinctKeys(WithoutIndex(list, i)) && (forall k | k in WithoutIndex(list, i) :: k in list)
  {
  }

  lemma MapAfterRemoval(list: seq<Keyed<NodeId, Endpoint>>, i: nat, x: NodeId)
    requires DistinctKeys(list) && i < |list|
    ensures
      var a, b := AsMap(WithoutIndex(list, i)), AsMap(list) - {list[i].key};
      (x in a <==> x in b) && (x in a ==> a[x] == b[x])
  {
    RemovalKeepsDistinct(list, i);
    IndexAfterRemoval(list, i, x);
    hide AsMap, IndexOf, DistinctKeys;
    AsMapMeaning(list, x);
    AsMapMeaning(WithoutIndex(list, i), x);
  }

  /** Where a key is found once the entry at `i` is gone. */
  lemma IndexAfterRemoval(list: seq<Keyed<NodeId, Endpoint>>, i: nat, x: NodeId)
    requires DistinctKeys(list) && i < |list|
    ensures
      var j, after := IndexOf(list, x), WithoutIndex(list, i);
      && (j == i <==> x == list[i].key)
      && IndexOf(after, x) == (if j < i then j else if j == i then |after| else j - 1)
      && forall m | 0 <= m < |after| :: after[m] == if m < i then list[m] else list[m + 1]
  {
    var j, after := IndexOf(list, x), WithoutIndex(list, i);
    EntriesAfterRemoval(list, i);
    OnlyAt(list, x);
    hide IndexOf, WithoutIndex, DistinctKeys;
    FirstIsIndex(after, x, if j < i then j else if j == i then |after| else j - 1);
  }

  lemma EntriesAfterRemoval(list: seq<Keyed<NodeId, Endpoint>>, i: nat)
    requires i < |list|
    ensures
      var after := WithoutIndex(list, i);
      |after| == |list| - 1 && forall m | 0 <= m < |after| :: after[m] == if m < i then list[m] else list[m + 1]
  {
  }

  lemma OnlyAt(list: seq<Keyed<NodeId, Endpoint>>, x: NodeId)
    requires DistinctKeys(list)
    ensures forall m | 0 <= m < |list| :: list[m].key == x <==> m == IndexOf(list, x)
  {
  }

  datatype Op = EstablishConnections(bundle: Bundle) | CloseConnections(ids: seq<NodeId>, remove: bool) | SetLockContext(context: string)

  function CloseAll(s: State, ids: seq<NodeId>, remove: bool): State
    decreases |ids|
  {
    if ids == [] then s else Close(CloseAll(s, ids[..|ids| - 1], remove), ids[|ids| - 1], remove).0
  }

  function Apply(env: Environment, s: State, op: Op): State {
    match op
    case EstablishConnections(b) => Dispatch(env, b, s).state
    case CloseConnections(ids, remove) => CloseAll(s, ids, remove)
    case SetLockContext(context) => s.(context := context)
  }

  function Run(env: Environment, s: State, ops: seq<Op>): State
    decreases |ops|
  {
    if ops == [] then s else Apply(env, Run(env, s, ops[..|ops| - 1]), ops[|ops| - 1])
  }

  const EMPTY := State([], map[], "", [], [])

  lemma {:induction false} CloseAllKeepsInv(s: State, ids: seq<NodeId>, remove: bool)
    requires Inv(s)
    ensures Inv(CloseAll(s, ids, remove)) && CloseAll(s, ids, remove).connections == s.connections
    ensures CloseAll(s, ids, remove).locks == s.locks
    decreases |ids|
  {
    hide Inv, Close;
    if ids != [] {
      var n := |ids| - 1;
      CloseAllKeepsInv(s, ids[..n], remove);
      CloseMeaning(CloseAll(s, ids[..n], remove), ids[n], remove);
    }
  }

  /** From the empty state on, whatever is established and closed, all these keys stay distinct. */
  lemma {:induction false} RunsKeepKeysDistinct(env: Environment, ops: seq<Op>)
    ensures Inv(Run(env, EMPTY, ops))
    decreases |ops|
  {
    hide Inv, Each, CloseAll;
    if ops == [] {
      EmptyIsKept();
    } else {
      var n := |ops| - 1;
      var s := Run(env, EMPTY, ops[..n]);
      RunsKeepKeysDistinct(env, ops[..n]);
      match ops[n] {
        case EstablishConnections(b) => CommandsKeepInv(env, b, s, NO_RESULTS, Requested(COMMANDS, b.mask));
        case CloseConnections(ids, remove) => CloseAllKeepsInv(s, ids, remove);
        case SetLockContext(context) => ContextIsFree(s, context);
      }
    }
  }

  lemma EmptyIsKept()
    ensures Inv(EMPTY)
  {
  }

  lemma ContextIsFree(s: State, context: string)
    requires Inv(s)
    ensures Inv(s.(context := context))
  {
  }

  /** In every state that can be reached, closing endpoints, even to remove them, leaves all connections:
    the list of connections of an endpoint is never filled. */
  lemma ConnectionsOutliveEndpoints(env: Environment, ops: seq<Op>, ids: seq<NodeId>, remove: bool)
    ensures
      var s := Run(env, EMPTY, ops);
      CloseAll(s, ids, remove).connections == s.connections
  {
    hide Inv, Run, CloseAll;
    RunsKeepKeysDistinct(env, ops);
    CloseAllKeepsInv(Run(env, EMPTY, ops), ids, remove);
  }

  // ---- What single steps do to the tables --------------------------------------------------------------

  /** Applying a communication configuration updates the table of connections, or replaces it. */
  lemma CommunicateMeaning(s: State, r: Results, c: CommConfig)
    requires Inv(s)
    ensures
      var e := CommunicateStep()(s, r, c);
      && (e.error.None? <==> c.connections.Some? && c.connections.value != [])
      && (e.error.Some? ==> e.state == s)
      && (e.error.None? ==>
            AsMap(e.state.connections)
            == (if c.requireCompleteUpdate then map[] else AsMap(s.connections)) + AsMap(c.connections.value))
  {
    if c.connections.Some? {
      PutAllIsMapUpdate(if c.requireCompleteUpdate then [] else s.connections, c.connections.value);
    }
  }

  /** Setting configuration data updates the table of the one endpoint concerned, last write winning. */
  lemma ConfigureMeaning(s: State, r: Results, c: EndpointConfig)
    requires Inv(s)
    ensures
      var e := ConfigureStep()(s, r, c);
      var before, after := AsMap(s.endpoints), AsMap(e.state.endpoints);
      && (e.error.None? <==> c.id in before) && (e.error.Some? ==> e.state == s)
      && (e.error.None? ==>
            && c.id in after && after == before[c.id := after[c.id]]
            && after[c.id] == before[c.id].(data := after[c.id].data)
            && AsMap(after[c.id].data) == AsMap(before[c.id].data) + AsMap(if c.data.Some? then c.data.value else []))
  {
    var i := IndexOf(s.endpoints, c.id);
    AsMapMeaning(s.endpoints, c.id);
    if i < |s.endpoints| {
      var e := s.endpoints[i].value;
      assert s.endpoints[i] in s.endpoints;
      hide Put, PutAll, DistinctKeys, AsMap;
      PutUpdatesMap(s.endpoints, c.id, Configured(e, c));
      PutAllIsMapUpdate(e.data, if c.data.Some? then c.data.value else []) by {
        assert WellKept(e);
      }
    }
  }

  /** Creating an endpoint adds it empty and disabled, or changes the configuration of the one there is. */
  lemma CreateMeaning(s: State, r: Results, c: EndpointConfig)
    requires Inv(s)
    ensures
      var e := CreateStep()(s, r, c);
      var before, after := AsMap(s.endpoints), AsMap(e.state.endpoints);
      && (e.error.None? <==> c.complete) && (e.error.Some? ==> e.state == s)
      && (e.error.None? ==>
            after == before[c.id := if c.id in before then before[c.id].(config := c) else Endpoint(c, [], false, [])])
  {
    var i := IndexOf(s.endpoints, c.id);
    AsMapMeaning(s.endpoints, c.id);
    hide Put, AsMap;
    PutUpdatesMap(s.endpoints, c.id, if i < |s.endpoints| then s.endpoints[i].value.(config := c) else Endpoint(c, [], false, []));
  }

  predicate Listed(configs: seq<EndpointConfig>, id: NodeId) {
    exists c :: c in configs && c.id == id
  }

  function Reports(configs: seq<EndpointConfig>): seq<EndpointResult>
    decreases |configs|
  {
    if configs == [] then [] else Reports(configs[..|configs| - 1]) + [ResultFor(configs[|configs| - 1].id)]
  }

  lemma {:induction false} EnableEachMeaning(s: State, r: Results, configs: seq<EndpointConfig>)
    requires Inv(s)
    ensures
      var e := Each(EnableStep(), s, r, configs);
      var before, after := AsMap(s.endpoints), AsMap(e.state.endpoints);
      && Inv(e.state) && e.error.None? && e.state == s.(endpoints := e.state.endpoints)
      && e.results == r.(endpoints := r.endpoints + Reports(configs))
      && after.Keys == before.Keys
      && forall id | id in before ::
           after[id] == if Listed(configs, id) then before[id].(enabled := true) else before[id]
    decreases |configs|
  {
    hide Inv, AsMap, EnableStep, Listed;
    if configs == [] {
      assert r.endpoints + [] == r.endpoints;
      forall id
        ensures !Listed([], id)
      {
        NoneListed(id);
      }
    } else {
      var n := |configs| - 1;
      var e := Each(EnableStep(), s, r, configs[..n]);
      EnableEachMeaning(s, r, configs[..n]);
      EnableOneMeaning(e.state, e.results, configs[n]);
      forall id
        ensures Listed(configs, id) <==> Listed(configs[..n], id) || configs[n].id == id
      {
        ListedMore(configs, id);
      }
      assert r.endpoints + Reports(configs[..n]) + [ResultFor(configs[n].id)] == r.endpoints + Reports(configs);
    }
  }

  lemma NoneListed(id: NodeId)
    ensures !Listed([], id)
  {
  }

  lemma ListedMore(configs: seq<EndpointConfig>, id: NodeId)
    requires configs != []
    ensures Listed(configs, id) <==> Listed(configs[..|configs| - 1], id) || configs[|configs| - 1].id == id
  {
    var n := |configs| - 1;
    assert configs == configs[..n] + [configs[n]];
  }

  lemma EnableOneMeaning(s: State, r: Results, c: EndpointConfig)
    requires Inv(s)
    ensures
      var e := EnableStep()(s, r, c);
      var before, after := AsMap(s.endpoints), AsMap(e.state.endpoints);
      && Inv(e.state) && e.error.None? && e.state == s.(endpoints := e.state.endpoints)
      && e.results == AddEndpointResult(r, ResultFor(c.id))
      && after.Keys == before.Keys
      && forall id | id in before :: after[id] == if id == c.id then before[id].(enabled := true) else before[id]
  {
    EnableKeepsInv(s, r, c);
    var i := IndexOf(s.endpoints, c.id);
    AsMapMeaning(s.endpoints, c.id);
    hide Put, AsMap, DistinctKeys, IndexOf;
    if i < |s.endpoints| {
      PutUpdatesMap(s.endpoints, c.id, s.endpoints[i].value.(enabled := true));
    }
  }

  lemma {:induction false} AllEnabledMeaning(endpoints: seq<Keyed<NodeId, Endpoint>>, id: NodeId)
    ensures id in AsMap(AllEnabled(endpoints)) <==> id in AsMap(endpoints)
    ensures id in AsMap(endpoints) ==> AsMap(AllEnabled(endpoints))[id] == AsMap(endpoints)[id].(enabled := true)
    decreases |endpoints|
  {
    if endpoints != [] {
      var n := |endpoints| - 1;
      AllEnabledMeaning(endpoints[..n], id);
      assert AllEnabled(endpoints)[..n] == AllEnabled(endpoints[..n]);
    }
  }

  /** Enabling never fails.  It enables exactly the endpoints listed that there are, or all of them when
    the list is empty, and reports Good for every id listed, whether or not it names an endpoint. */
  lemma EnableMeaning(s: State, r: Results, configs: seq<EndpointConfig>)
    requires Inv(s)
    ensures
      var e := Enable(s, r, configs);
      var before, after := AsMap(s.endpoints), AsMap(e.state.endpoints);
      && e.error.None? && e.state == s.(endpoints := e.state.endpoints)
      && e.results == r.(endpoints := r.endpoints + if configs == [] then [ResultFor(NULL_ID)] else Reports(configs))
      && after.Keys == before.Keys
      && forall id | id in before ::
           after[id] == if configs == [] || Listed(configs, id) then before[id].(enabled := true) else before[id]
  {
    hide AsMap, Each, Inv, AllEnabled, Listed;
    EnableEachMeaning(s, r, configs);
    var a, b := AsMap(AllEnabled(s.endpoints)), AsMap(s.endpoints);
    forall id
      ensures (id in a <==> id in b) && (id in b ==> a[id] == b[id].(enabled := true))
    {
      AllEnabledMeaning(s.endpoints, id);
    }
  }

  /** The report does not tell: an id that names no endpoint is reported like one that was enabled. */
  lemma EnablingNothingIsReportedGood(s: State, r: Results, c: EndpointConfig)
    requires Inv(s) && c.id !in AsMap(s.endpoints)
    ensures Enable(s, r, [c]) == Effect(s, AddEndpointResult(r, ResultFor(c.id)), None)
    ensures ResultFor(c.id).endpoint == Good
  {
    AsMapMeaning(s.endpoints, c.id);
    OnlyStep(EnableStep(), s, r, c);
  }

  // ---- What verification demands -------------------------------------------------------------------------

  predicate HoldsAll(locks: map<NodeId, string>, owner: string, groups: seq<NodeId>) {
    forall g | g in groups :: g in locks && locks[g] == owner
  }

  lemma {:induction false} LockProblemMeaning(locks: map<NodeId, string>, owner: string, groups: seq<NodeId>)
    ensures LockProblem(locks, owner, groups).None? <==> HoldsAll(locks, owner, groups)
    decreases |groups|
  {
    if groups != [] {
      LockProblemMeaning(locks, owner, groups[1..]);
      assert groups == [groups[0]] + groups[1..];
    }
  }

  predicate Verified(v: Verifier, s: State, c: EndpointConfig) {
    c.expectsVerification ==> HoldsAll(s.locks, s.context, GroupsOf(c)) && !IsBad(v.entity(c))
  }

  lemma {:induction false} EntitiesVerified(v: Verifier, s: State, r: Results, configs: seq<EndpointConfig>)
    ensures Each(EntityStep(v), s, r, configs).state == s
    ensures Each(EntityStep(v), s, r, configs).error.None? <==> forall c | c in configs :: Verified(v, s, c)
    decreases |configs|
  {
    hide Verified, EntityStep;
    if configs != [] {
      var n := |configs| - 1;
      var e := Each(EntityStep(v), s, r, configs[..n]);
      EntitiesVerified(v, s, r, configs[..n]);
      EntityVerified(v, s, e.results, configs[n]);
      assert configs == configs[..n] + [configs[n]];
    }
  }

  lemma EntityVerified(v: Verifier, s: State, r: Results, c: EndpointConfig)
    ensures EntityStep(v)(s, r, c).state == s
    ensures EntityStep(v)(s, r, c).error.None? <==> Verified(v, s, c)
  {
    hide HoldsAll, LockProblem;
    LockProblemMeaning(s.locks, s.context, GroupsOf(c));
  }

  /** Verifying entities succeeds exactly when there is a verifier, the caller already holds every control
    group of the entities to be verified, and the verifier finds none of them bad. */
  lemma VerificationMeaning(env: Environment, s: State, r: Results, configs: seq<EndpointConfig>)
    ensures VerifyEntities(env, s, r, configs).error.None?
       <==> env.verifier.Some? && forall c | c in configs :: Verified(env.verifier.value, s, c)
  {
    hide Verified;
    if env.verifier.Some? {
      EntitiesVerified(env.verifier.value, s, r, configs);
    }
  }

  /** Verification runs before control is established.  So a bundle that asks for both, for an entity whose
    control groups the caller does not hold yet, takes no lock. */
  lemma VerificationNeedsEarlierLocks(env: Environment, b: Bundle, s: State, c: EndpointConfig)
    requires VerifyFunctionalEntity in b.mask && c in b.configs && c.expectsVerification
    requires !HoldsAll(s.locks, s.context, GroupsOf(c))
    ensures Dispatch(env, b, s).error.Some? && Dispatch(env, b, s).state.locks == s.locks
  {
    var requested := Requested(COMMANDS, b.mask);
    var step := PerformStep(env, b);
    var first := if VerifyAsset in b.mask then [VerifyAsset, VerifyFunctionalEntity] else [VerifyFunctionalEntity];
    FirstRequested(b.mask);
    hide Requested, Each, Perform, HoldsAll;
    FailsAtVerification(env, b, s, c, first);
    StopsEarly(step, s, NO_RESULTS, requested, |first|);
  }

  lemma FirstRequested(mask: set<Command>)
    requires VerifyFunctionalEntity in mask
    ensures
      var first := if VerifyAsset in mask then [VerifyAsset, VerifyFunctionalEntity] else [VerifyFunctionalEntity];
      first <= Requested(COMMANDS, mask)
  {
    var one, two := [VerifyAsset], [VerifyAsset, VerifyFunctionalEntity];
    assert COMMANDS[..2] == two && two[..1] == one && one[..0] == [];
    assert Requested(one, mask) == if VerifyAsset in mask then one else [];
    assert Requested(two, mask) == Requested(one, mask) + [VerifyFunctionalEntity];
    RequestedGrows(COMMANDS, mask, 2);
  }

  lemma {:induction false} RequestedGrows(commands: seq<Command>, mask: set<Command>, n: nat)
    requires n <= |commands|
    ensures Requested(commands[..n], mask) <= Requested(commands, mask)
    decreases |commands|
  {
    if n < |commands| {
      var last := |commands| - 1;
      RequestedGrows(commands[..last], mask, n);
      assert commands[..last][..n] == commands[..n];
    } else {
      assert commands[..n] == commands;
    }
  }

  lemma FailsAtVerification(env: Environment, b: Bundle, s: State, c: EndpointConfig, first: seq<Command>)
    requires c in b.configs && c.expectsVerification && !HoldsAll(s.locks, s.context, GroupsOf(c))
    requires first == [VerifyFunctionalEntity] || first == [VerifyAsset, VerifyFunctionalEntity]
    ensures Each(PerformStep(env, b), s, NO_RESULTS, first).error.Some?
    ensures Each(PerformStep(env, b), s, NO_RESULTS, first).state.locks == s.locks
  {
    var n := |first| - 1;
    var step := PerformStep(env, b);
    var e := Each(step, s, NO_RESULTS, first[..n]);
    hide Perform, HoldsAll;
    if n == 1 {
      assert first[..1] == [VerifyAsset];
      OnlyStep(step, s, NO_RESULTS, VerifyAsset);
      PerformIsFramed(env, b, s, NO_RESULTS, VerifyAsset);
    }
    PerformIsFramed(env, b, e.state, e.results, VerifyFunctionalEntity);
    EntityFails(env, b, e.state, e.results, c);
  }

  lemma EntityFails(env: Environment, b: Bundle, s: State, r: Results, c: EndpointConfig)
    requires c in b.configs && c.expectsVerification && !HoldsAll(s.locks, s.context, GroupsOf(c))
    ensures Perform(env, b, s, r, VerifyFunctionalEntity).error.Some?
  {
    hide HoldsAll, VerifyEntities;
    VerificationMeaning(env, s, r, b.configs);
    assert env.verifier.Some? ==> !Verified(env.verifier.value, s, c);
  }
}
