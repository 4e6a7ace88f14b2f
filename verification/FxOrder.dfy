/** What follows from the order of the nine commands: what a command finds, what a failing one keeps from
  taking effect, and what two commands together achieve.
  */
module FxOrder {
  import opened FxCommands
  import opened FxRuns
  import opened KeyedList
  import opened NodeIds
  import opened Wrappers

  // ---- A command and those before it -----------------------------------------------------------

  /** What the commands requested before the one at `k` come to. */
  function Until(env: Environment, b: Bundle, s: State, k: nat): Effect
    requires k <= |COMMANDS|
  {
    Each(PerformStep(env, b), s, NO_RESULTS, Requested(COMMANDS[..k], b.mask))
  }

  lemma RequestedNext(mask: set<Command>, k: nat)
    requires k < |COMMANDS|
    ensures Requested(COMMANDS[..k + 1], mask) == Requested(COMMANDS[..k], mask) + if COMMANDS[k] in mask then [COMMANDS[k]] else []
  {
    assert COMMANDS[..k + 1][..k] == COMMANDS[..k];
  }

  lemma UntilNext(env: Environment, b: Bundle, s: State, k: nat)
    requires k < |COMMANDS|
    ensures
      var e := Until(env, b, s, k);
      Until(env, b, s, k + 1) ==
        if e.error.Some? || COMMANDS[k] !in b.mask then e else Perform(env, b, e.state, e.results, COMMANDS[k])
  {
    hide Requested, Perform;
    RequestedNext(b.mask, k);
    var before := Requested(COMMANDS[..k], b.mask);
    if COMMANDS[k] in b.mask {
      assert (before + [COMMANDS[k]])[..|before|] == before;
    } else {
      assert before + [] == before;
    }
  }

  lemma UntilAll(env: Environment, b: Bundle, s: State)
    ensures Until(env, b, s, |COMMANDS|) == Dispatch(env, b, s)
  {
    assert COMMANDS[..|COMMANDS|] == COMMANDS;
  }

  /** A bundle that has failed stays where it was. */
  lemma {:induction false} FailedStays(env: Environment, b: Bundle, s: State, k: nat)
    requires k <= |COMMANDS| && Until(env, b, s, k).error.Some?
    ensures Dispatch(env, b, s) == Until(env, b, s, k)
    decreases |COMMANDS| - k
  {
    hide Until, Perform;
    if k < |COMMANDS| {
      UntilNext(env, b, s, k);
      FailedStays(env, b, s, k + 1);
    } else {
      UntilAll(env, b, s);
    }
  }

  /** Each part of the state is as before unless one of the commands changes it. */
  predicate Untouched(done: seq<Command>, s: State, t: State) {
    && t.context == s.context
    && (EstablishControl !in done && ReassignControl !in done ==> t.locks == s.locks)
    && (CreateConnectionEndpoint !in done && SetConfigurationData !in done && EnableCommunication !in done ==> t.endpoints == s.endpoints)
    && (SetCommunicationConfiguration !in done ==> t.connections == s.connections)
    && (ReserveCommunicationIds !in done ==> t.reservations == s.reservations)
  }

  lemma UntouchedNext(done: seq<Command>, c: Command, s: State, t: State, u: State)
    requires Untouched(done, s, t) && (Framed(c, t, u) || u == t)
    ensures Untouched(done + [c], s, u)
  {
  }

  lemma UntouchedAtFirst(s: State)
    ensures Untouched([], s, s)
  {
  }

  lemma {:induction false} PartsUntouched(env: Environment, b: Bundle, s: State, k: nat)
    requires k <= |COMMANDS|
    ensures Untouched(COMMANDS[..k], s, Until(env, b, s, k).state)
  {
    hide Until, Perform, Untouched, Framed;
    if k == 0 {
      UntilNone(env, b, s);
      UntouchedAtFirst(s);
    } else {
      var e := Until(env, b, s, k - 1);
      PartsUntouched(env, b, s, k - 1);
      UntilNext(env, b, s, k - 1);
      assert COMMANDS[..k] == COMMANDS[..k - 1] + [COMMANDS[k - 1]];
      PerformIsFramed(env, b, e.state, e.results, COMMANDS[k - 1]);
      UntouchedNext(COMMANDS[..k - 1], COMMANDS[k - 1], s, e.state, Until(env, b, s, k).state);
    }
  }

  lemma UntilNone(env: Environment, b: Bundle, s: State)
    ensures Until(env, b, s, 0) == Effect(s, NO_RESULTS, None)
  {
  }

  // ---- What a failing command keeps from taking effect -------------------------------------------

  predicate Bad(status: Status) {
    status != Good && status != Uncertain
  }

  /** The asset turned out bad, or is not what was expected. */
  predicate Aborts(v: Verifier, q: AssetRequest) {
    Bad(v.asset(q).status) || (q.expectMatch && !v.asset(q).matched)
  }

  function AssetResults(v: Verifier, requests: seq<AssetRequest>): seq<AssetResult> {
    seq(|requests|, i requires 0 <= i < |requests| => v.asset(requests[i]))
  }

  /** Assets are verified up to the first that aborts, if any. */
  lemma {:induction false} AssetsMeaning(v: Verifier, s: State, r: Results, requests: seq<AssetRequest>) returns (i: nat)
    ensures
      var e := Each(AssetStep(v), s, r, requests);
      && e.state == s
      && (e.error.None? <==> forall q | q in requests :: !Aborts(v, q))
      && (e.error.Some? ==> FirstAborting(v, requests, i) && e.error == Some(AbortedWith(v, requests[i])))
      && e.results == r.(assets := r.assets + AssetResults(v, if e.error.Some? then requests[..i + 1] else requests))
    decreases |requests|
  {
    hide Aborts, FirstAborting, AssetResults;
    i := 0;
    if requests == [] {
      NoAssets(v, r.assets);
    } else {
      var n := |requests| - 1;
      var front, last := requests[..n], requests[n];
      i := AssetsMeaning(v, s, r, front);
      assert requests == front + [last];
      MoreAssets(v, requests, r.assets);
      AbortStatusMeaning(v, last);
      if Each(AssetStep(v), s, r, front).error.Some? {
        AbortingEarlier(v, requests, i);
      } else {
        i := n;
        assert requests[..n + 1] == requests;
        if Aborts(v, last) {
          AbortingLast(v, requests);
        }
      }
    }
  }

  function AbortedWith(v: Verifier, q: AssetRequest): Status {
    if Bad(v.asset(q).status) then v.asset(q).status else Uncertain
  }

  lemma AbortStatusMeaning(v: Verifier, q: AssetRequest)
    ensures AbortStatus(q, v.asset(q)) == if Aborts(v, q) then Some(AbortedWith(v, q)) else None
  {
  }

  lemma NoAssets(v: Verifier, before: seq<AssetResult>)
    ensures before + AssetResults(v, []) == before
  {
  }

  lemma MoreAssets(v: Verifier, requests: seq<AssetRequest>, before: seq<AssetResult>)
    requires requests != []
    ensures
      var n := |requests| - 1;
      before + AssetResults(v, requests) == before + AssetResults(v, requests[..n]) + [v.asset(requests[n])]
  {
    var n := |requests| - 1;
    assert AssetResults(v, requests) == AssetResults(v, requests[..n]) + [v.asset(requests[n])];
  }

  lemma AbortingEarlier(v: Verifier, requests: seq<AssetRequest>, i: nat)
    requires requests != [] && FirstAborting(v, requests[..|requests| - 1], i)
    ensures FirstAborting(v, requests, i) && i + 1 < |requests| && requests[..|requests| - 1][i] == requests[i]
    ensures requests[..|requests| - 1][..i + 1] == requests[..i + 1]
  {
    hide Aborts;
    var front := requests[..|requests| - 1];
    forall j: nat | j < i
      ensures !Aborts(v, requests[j])
    {
      assert front[j] == requests[j];
    }
  }

  lemma AbortingLast(v: Verifier, requests: seq<AssetRequest>)
    requires requests != []
    requires Aborts(v, requests[|requests| - 1]) && forall q | q in requests[..|requests| - 1] :: !Aborts(v, q)
    ensures FirstAborting(v, requests, |requests| - 1)
  {
    hide Aborts;
    var front := requests[..|requests| - 1];
    forall j: nat | j < |front|
      ensures !Aborts(v, requests[j])
    {
      assert front[j] in front;
    }
  }

  ghost predicate FirstAborting(v: Verifier, requests: seq<AssetRequest>, i: nat) {
    i < |requests| && Aborts(v, requests[i]) && forall j: nat | j < i :: !Aborts(v, requests[j])
  }

  /** Assets are verified before all else.  Without a verifier, or when one aborts, nothing else happens: the
    results end with the asset that aborted. */
  lemma AssetsComeFirst(env: Environment, b: Bundle, s: State)
    requires VerifyAsset in b.mask
    ensures env.verifier.None? ==>
      Dispatch(env, b, s) == Effect(s, NO_RESULTS.(assets := seq(|b.assets|, _ => AssetResult(BadNotSupported, false))), Some(BadNotSupported))
    ensures env.verifier.Some? && (exists q :: q in b.assets && Aborts(env.verifier.value, q)) ==>
      var v := env.verifier.value;
      exists i: nat :: FirstAborting(v, b.assets, i)
        && Dispatch(env, b, s) == Effect(s, NO_RESULTS.(assets := AssetResults(v, b.assets[..i + 1])), Some(AbortedWith(v, b.assets[i])))
  {
    hide Until, Dispatch, Each, FirstAborting, Aborts, AbortedWith, AssetResults;
    UntilNone(env, b, s);
    UntilNext(env, b, s, 0);
    assert NO_RESULTS.assets == [];
    if env.verifier.Some? {
      var v := env.verifier.value;
      var i := AssetsMeaning(v, s, NO_RESULTS, b.assets);
      assert forall rs: seq<AssetResult> :: [] + rs == rs;
      if exists q :: q in b.assets && Aborts(v, q) {
        FailedStays(env, b, s, 1);
      }
    } else {
      assert [] + seq(|b.assets|, _ => AssetResult(BadNotSupported, false)) == seq(|b.assets|, _ => AssetResult(BadNotSupported, false));
      FailedStays(env, b, s, 1);
    }
  }

  /** When the entities cannot be verified, nothing changes at all. */
  lemma VerificationComesBeforeChanges(env: Environment, b: Bundle, s: State)
    requires VerifyFunctionalEntity in b.mask
    requires env.verifier.None? || exists c :: c in b.configs && !Verified(env.verifier.value, s, c)
    ensures Dispatch(env, b, s).error.Some? && Dispatch(env, b, s).state == s
  {
    hide Until, Dispatch, Verified, Perform;
    PartsUntouched(env, b, s, 1);
    PartsUntouched(env, b, s, 2);
    UntilNext(env, b, s, 1);
    var e := Until(env, b, s, 1);
    VerifyPerformed(env, b, e.state, e.results);
    FailedStays(env, b, s, 2);
  }

  lemma VerifyPerformed(env: Environment, b: Bundle, s: State, r: Results)
    ensures Perform(env, b, s, r, VerifyFunctionalEntity).error.None?
       <==> env.verifier.Some? && forall c | c in b.configs :: Verified(env.verifier.value, s, c)
  {
    hide Verified, VerifyEntities;
    VerificationMeaning(env, s, r, b.configs);
  }

  /** The tables and switches of the endpoints there were are as before; any others are new and empty. */
  ghost predicate OnlyNewEndpoints(before: map<NodeId, Endpoint>, after: map<NodeId, Endpoint>) {
    forall id | id in after ::
      if id in before then after[id].data == before[id].data && after[id].enabled == before[id].enabled
      else after[id].data == [] && !after[id].enabled
  }

  /** No endpoint is enabled that was not. */
  ghost predicate NoneEnabled(before: map<NodeId, Endpoint>, after: map<NodeId, Endpoint>) {
    forall id | id in after :: after[id].enabled == (id in before && before[id].enabled)
  }

  lemma {:induction false} CreateEachMeaning(s: State, r: Results, configs: seq<EndpointConfig>)
    requires Inv(s)
    ensures
      var e := Each(CreateStep(), s, r, configs);
      && Inv(e.state) && (e.error.None? <==> forall c | c in configs :: c.complete)
      && OnlyNewEndpoints(AsMap(s.endpoints), AsMap(e.state.endpoints))
      && (e.error.None? ==>
            var before, after := AsMap(s.endpoints), AsMap(e.state.endpoints);
            && (forall id :: id in after <==> id in before || Listed(configs, id))
            && forall id | id in after && !Listed(configs, id) :: after[id] == before[id])
    decreases |configs|
  {
    hide Inv, AsMap, CreateStep, Listed;
    if configs == [] {
      forall id
        ensures !Listed([], id)
      {
        NoneListed(id);
      }
    } else {
      var n := |configs| - 1;
      var e := Each(CreateStep(), s, r, configs[..n]);
      CreateEachMeaning(s, r, configs[..n]);
      CreateMeaning(e.state, e.results, configs[n]);
      CreateKeepsInv(e.state, e.results, configs[n]);
      assert configs == configs[..n] + [configs[n]];
      forall id
        ensures Listed(configs, id) <==> Listed(configs[..n], id) || configs[n].id == id
      {
        ListedMore(configs, id);
      }
    }
  }

  /** Endpoints are created before control is established and anything is configured.  When one cannot be,
    no lock, connection or reservation changes, no data is set and nothing is enabled. */
  lemma CreationComesBefore(env: Environment, b: Bundle, s: State)
    requires Inv(s) && CreateConnectionEndpoint in b.mask && exists c :: c in b.configs && !c.complete
    ensures
      var e := Dispatch(env, b, s);
      && e.error.Some? && e.state == s.(endpoints := e.state.endpoints)
      && OnlyNewEndpoints(AsMap(s.endpoints), AsMap(e.state.endpoints))
  {
    hide Until, Dispatch, Perform, Inv, OnlyNewEndpoints, AsMap;
    EndpointsUntilControl(env, b, s);
    PartsUntouched(env, b, s, 3);
    FailedStays(env, b, s, 3);
  }

  /** What the first three commands leave. */
  lemma EndpointsUntilControl(env: Environment, b: Bundle, s: State)
    requires Inv(s)
    ensures
      var e := Until(env, b, s, 3);
      && Inv(e.state) && OnlyNewEndpoints(AsMap(s.endpoints), AsMap(e.state.endpoints))
      && (CreateConnectionEndpoint in b.mask && (exists c :: c in b.configs && !c.complete) ==> e.error.Some?)
  {
    hide Until, Inv, AsMap;
    PartsUntouched(env, b, s, 2);
    UntilNext(env, b, s, 2);
    var e := Until(env, b, s, 2);
    SameInv(s, e.state);
    CreateEachMeaning(e.state, e.results, b.configs);
  }

  lemma SameInv(s: State, t: State)
    requires Inv(s) && t.endpoints == s.endpoints && t.connections == s.connections
    ensures Inv(t)
  {
  }

  /** Control is established before anything is configured.  When a group is held by another client, no
    lock, connection or reservation changes, no data is set and nothing is enabled. */
  lemma ControlComesBefore(env: Environment, b: Bundle, s: State)
    requires Inv(s) && EstablishControl in b.mask
    requires exists g :: g in AllGroups(b.configs) && g in s.locks && s.locks[g] != s.context
    ensures
      var e := Dispatch(env, b, s);
      && e.error.Some? && e.state == s.(endpoints := e.state.endpoints)
      && OnlyNewEndpoints(AsMap(s.endpoints), AsMap(e.state.endpoints))
  {
    hide Until, Dispatch, Inv, OnlyNewEndpoints, AsMap, Establish, AllGroups;
    EndpointsUntilControl(env, b, s);
    PartsUntouched(env, b, s, 3);
    UntilNext(env, b, s, 3);
    var e := Until(env, b, s, 3);
    EstablishIsAllOrNothing(e.state, e.results, b.configs);
    FailedStays(env, b, s, 4);
  }

  /** The data the configurations carry for an endpoint, in order. */
  function DataFor(configs: seq<EndpointConfig>, id: NodeId): seq<Keyed<NodeId, string>>
    decreases |configs|
  {
    if configs == [] then []
    else
      var n := |configs| - 1;
      DataFor(configs[..n], id)
      + if configs[n].id == id && configs[n].data.Some? then configs[n].data.value else []
  }

  /** The tables of the endpoints are those before, updated by the data in order; all else about them stays. */
  ghost predicate DataSet(before: map<NodeId, Endpoint>, configs: seq<EndpointConfig>, after: map<NodeId, Endpoint>) {
    && after.Keys == before.Keys
    && forall id | id in before ::
         && after[id] == before[id].(data := after[id].data)
         && AsMap(after[id].data) == AsMap(before[id].data) + AsMap(DataFor(configs, id))
  }

  lemma {:induction false} ConfigureEachMeaning(s: State, r: Results, configs: seq<EndpointConfig>)
    requires Inv(s)
    ensures
      var e := Each(ConfigureStep(), s, r, configs);
      var before, after := AsMap(s.endpoints), AsMap(e.state.endpoints);
      && Inv(e.state) && e.state == s.(endpoints := e.state.endpoints) && after.Keys == before.Keys && NoneEnabled(before, after)
      && (e.error.None? <==> forall c | c in configs :: c.id in before)
      && (e.error.None? ==> DataSet(before, configs, after))
    decreases |configs|
  {
    hide Inv, ConfigureStep, AsMap, DataFor, DataSet, DataSetBy, NoneEnabled;
    if configs == [] {
      NothingSet(AsMap(s.endpoints));
      NothingEnabledYet(AsMap(s.endpoints));
    } else {
      var n := |configs| - 1;
      var e := Each(ConfigureStep(), s, r, configs[..n]);
      ConfigureEachMeaning(s, r, configs[..n]);
      ConfigureOne(e.state, e.results, configs[n]);
      assert configs == configs[..n] + [configs[n]];
      var before, middle, after := AsMap(s.endpoints), AsMap(e.state.endpoints), AsMap(ConfigureStep()(e.state, e.results, configs[n]).state.endpoints);
      if e.error.None? {
        EnabledTwice(before, middle, after);
        if configs[n].id in before {
          DataSetMore(before, configs, middle, after);
        }
      }
    }
  }

  lemma EnabledTwice(before: map<NodeId, Endpoint>, middle: map<NodeId, Endpoint>, after: map<NodeId, Endpoint>)
    requires NoneEnabled(before, middle) && NoneEnabled(middle, after) && before.Keys == middle.Keys == after.Keys
    ensures NoneEnabled(before, after)
  {
  }

  ghost predicate DataSetBy(before: map<NodeId, Endpoint>, c: EndpointConfig, after: map<NodeId, Endpoint>) {
    && after.Keys == before.Keys
    && forall id | id in before ::
         && after[id] == before[id].(data := after[id].data)
         && AsMap(after[id].data) == AsMap(before[id].data) + AsMap(DataOf(c, id))
  }

  lemma DataSetMore(before: map<NodeId, Endpoint>, configs: seq<EndpointConfig>, middle: map<NodeId, Endpoint>,
      after: map<NodeId, Endpoint>)
    requires configs != [] && DataSet(before, configs[..|configs| - 1], middle) && DataSetBy(middle, configs[|configs| - 1], after)
    ensures DataSet(before, configs, after)
  {
    hide AsMap, DataFor, DataOf;
    forall id | id in before
      ensures AsMap(after[id].data) == AsMap(before[id].data) + AsMap(DataFor(configs, id))
    {
      MoreData(configs, id);
      Associates(AsMap(before[id].data), AsMap(DataFor(configs[..|configs| - 1], id)), AsMap(DataOf(configs[|configs| - 1], id)));
    }
  }

  lemma Associates(a: map<NodeId, string>, b: map<NodeId, string>, c: map<NodeId, string>)
    ensures (a + b) + c == a + (b + c)
  {
  }

  function DataOf(c: EndpointConfig, id: NodeId): seq<Keyed<NodeId, string>> {
    if c.id == id && c.data.Some? then c.data.value else []
  }

  lemma NothingSet(endpoints: map<NodeId, Endpoint>)
    ensures DataSet(endpoints, [], endpoints)
  {
    assert forall id :: AsMap(DataFor([], id)) == map[];
    hide AsMap;
  }

  lemma MoreData(configs: seq<EndpointConfig>, id: NodeId)
    requires configs != []
    ensures
      var n := |configs| - 1;
      AsMap(DataFor(configs, id)) == AsMap(DataFor(configs[..n], id)) + AsMap(DataOf(configs[n], id))
  {
    hide AsMap;
    AsMapOfBoth(DataFor(configs[..|configs| - 1], id), DataOf(configs[|configs| - 1], id));
  }

  lemma ConfigureOne(s: State, r: Results, c: EndpointConfig)
    requires Inv(s)
    ensures
      var e := ConfigureStep()(s, r, c);
      var before, after := AsMap(s.endpoints), AsMap(e.state.endpoints);
      && Inv(e.state) && e.state == s.(endpoints := e.state.endpoints) && after.Keys == before.Keys
      && (e.error.None? <==> c.id in before) && (e.error.Some? ==> after == before)
      && (e.error.None? ==> DataSetBy(before, c, after)) && NoneEnabled(before, after)
  {
    hide Inv, AsMap, ConfigureStep;
    ConfigureMeaning(s, r, c);
    ConfigureKeepsInv(s, r, c);
    ConfigureTouches(s, r, c);
    EmptyTable();
    NothingEnabledYet(AsMap(s.endpoints));
    forall m: map<NodeId, string>
      ensures m + map[] == m
    {
      NothingMore(m);
    }
  }

  lemma ConfigureTouches(s: State, r: Results, c: EndpointConfig)
    ensures var t := ConfigureStep()(s, r, c).state; t == s.(endpoints := t.endpoints)
  {
    hide Put, IndexOf, Configured, AllData;
  }

  lemma NothingMore(m: map<NodeId, string>)
    ensures m + map[] == m
  {
  }

  /** Data is set before control is reassigned and communication set up.  When an endpoint is not there,
    no group is handed over, no connection or reservation changes and nothing is enabled. */
  lemma ConfigurationComesBefore(env: Environment, b: Bundle, s: State)
    requires Inv(s) && SetConfigurationData in b.mask && CreateConnectionEndpoint !in b.mask
    requires exists c :: c in b.configs && c.id !in AsMap(s.endpoints)
    ensures
      var e := Dispatch(env, b, s);
      && e.error.Some? && e.state == s.(endpoints := e.state.endpoints, locks := e.state.locks)
      && (EstablishControl !in b.mask ==> e.state.locks == s.locks)
      && (e.state.locks == s.locks || e.state.locks == WithLocks(s.locks, AllGroups(b.configs), s.context))
      && NoneEnabled(AsMap(s.endpoints), AsMap(e.state.endpoints))
  {
    hide Until, Dispatch, Inv, AsMap, NoneEnabled, Establish, AllGroups, WithLocks;
    LocksUntilConfiguration(env, b, s);
    PartsUntouched(env, b, s, 2);
    PartsUntouched(env, b, s, 5);
    UntilNext(env, b, s, 2);
    UntilNext(env, b, s, 3);
    UntilNext(env, b, s, 4);
    var c, d, e := Until(env, b, s, 2), Until(env, b, s, 3), Until(env, b, s, 4);
    EstablishIsAllOrNothing(d.state, d.results, b.configs);
    SameInv(s, e.state);
    ConfigureEachMeaning(e.state, e.results, b.configs);
    NothingEnabledYet(AsMap(s.endpoints));
    FailedStays(env, b, s, 5);
  }

  lemma NothingEnabledYet(endpoints: map<NodeId, Endpoint>)
    ensures NoneEnabled(endpoints, endpoints)
  {
  }

  /** Up to setting data, locks are those before, or the caller has taken them all. */
  lemma LocksUntilConfiguration(env: Environment, b: Bundle, s: State)
    ensures
      var locks := Until(env, b, s, 4).state.locks;
      && Until(env, b, s, 5).state.locks == locks
      && (EstablishControl !in b.mask ==> locks == s.locks)
      && (locks == s.locks || locks == WithLocks(s.locks, AllGroups(b.configs), s.context))
  {
    hide Until, Establish, AllGroups;
    PartsUntouched(env, b, s, 3);
    UntilNext(env, b, s, 3);
    UntilNext(env, b, s, 4);
    var d, e := Until(env, b, s, 3), Until(env, b, s, 4);
    ClaimsMeaning(s.locks, s.context, d.state, d.results, b.configs);
    EstablishLocks(d.state, d.results, b.configs);
    PerformIsFramed(env, b, e.state, e.results, SetConfigurationData);
  }

  lemma EstablishLocks(s: State, r: Results, configs: seq<EndpointConfig>)
    ensures
      var locks := Establish(s, r, configs).state.locks;
      locks == s.locks || locks == WithLocks(s.locks, AllGroups(configs), s.context)
  {
    ClaimsMeaning(s.locks, s.context, s, r, configs);
  }

  /** Control is reassigned before communication is set up.  When nobody holds a group, no connection or
    reservation changes and nothing is enabled. */
  lemma ReassignmentComesBefore(env: Environment, b: Bundle, s: State)
    requires Inv(s) && ReassignControl in b.mask && EstablishControl !in b.mask
    requires exists g :: g in AllGroups(b.configs) && g !in s.locks
    ensures
      var e := Dispatch(env, b, s);
      && e.error.Some? && e.state == s.(endpoints := e.state.endpoints, locks := e.state.locks)
      && NoneEnabled(AsMap(s.endpoints), AsMap(e.state.endpoints))
  {
    hide Until, Dispatch, Inv, AsMap, NoneEnabled, Establish, AllGroups, WithLocks;
    LocksUntilConfiguration(env, b, s);
    SwitchesUntilCommunication(env, b, s);
    PartsUntouched(env, b, s, 6);
    UntilNext(env, b, s, 5);
    var e := Until(env, b, s, 5);
    ReassignMeaning(env, e.state, e.results, b.configs);
    FailedStays(env, b, s, 6);
  }

  lemma NewAreNotEnabled(before: map<NodeId, Endpoint>, middle: map<NodeId, Endpoint>, after: map<NodeId, Endpoint>)
    requires OnlyNewEndpoints(before, middle) && NoneEnabled(middle, after) && after.Keys == middle.Keys
    ensures NoneEnabled(before, after)
  {
  }

  /** Up to enabling, nothing is enabled. */
  lemma SwitchesUntilCommunication(env: Environment, b: Bundle, s: State)
    requires Inv(s)
    ensures forall k: nat | 5 <= k <= 8 :: NoneEnabled(AsMap(s.endpoints), AsMap(Until(env, b, s, k).state.endpoints))
  {
    hide Until, Inv, AsMap, NoneEnabled, OnlyNewEndpoints, Perform;
    EndpointsUntilControl(env, b, s);
    EndpointsStay(env, b, s, 3);
    SameButEndpoints(env, b, s, 3);
    UntilNext(env, b, s, 4);
    var d, e := Until(env, b, s, 3), Until(env, b, s, 4);
    EndpointsStay(env, b, s, 5);
    EndpointsStay(env, b, s, 6);
    EndpointsStay(env, b, s, 7);
    ConfigurePerformed(env, b, e.state, e.results);
    NothingEnabledYet(AsMap(d.state.endpoints));
    NewAreNotEnabled(AsMap(s.endpoints), AsMap(d.state.endpoints), AsMap(Until(env, b, s, 5).state.endpoints));
    assert forall k: nat | 5 <= k <= 8 :: Until(env, b, s, k).state.endpoints == Until(env, b, s, 5).state.endpoints;
  }

  lemma SameButEndpoints(env: Environment, b: Bundle, s: State, k: nat)
    requires k < |COMMANDS| && k == 3 && Inv(Until(env, b, s, k).state)
    ensures Inv(Until(env, b, s, k + 1).state)
  {
    hide Until, Perform, Inv;
    var e := Until(env, b, s, k);
    UntilNext(env, b, s, k);
    PerformKeepsInv(env, b, e.state, e.results, COMMANDS[k]);
  }

  lemma EndpointsStay(env: Environment, b: Bundle, s: State, k: nat)
    requires k < |COMMANDS| && COMMANDS[k] !in {CreateConnectionEndpoint, SetConfigurationData, EnableCommunication}
    ensures Until(env, b, s, k + 1).state.endpoints == Until(env, b, s, k).state.endpoints
  {
    hide Until, Perform;
    var e := Until(env, b, s, k);
    UntilNext(env, b, s, k);
    PerformIsFramed(env, b, e.state, e.results, COMMANDS[k]);
  }

  lemma ConfigurePerformed(env: Environment, b: Bundle, s: State, r: Results)
    requires Inv(s)
    ensures
      var t := Perform(env, b, s, r, SetConfigurationData).state;
      NoneEnabled(AsMap(s.endpoints), AsMap(t.endpoints)) && AsMap(t.endpoints).Keys == AsMap(s.endpoints).Keys
  {
    hide Inv, AsMap, NoneEnabled, Each;
    ConfigureEachMeaning(s, r, b.configs);
  }

  /** Communication is set up before endpoints are enabled.  When a configuration is refused, nothing is
    enabled. */
  lemma CommunicationComesBefore(env: Environment, b: Bundle, s: State)
    requires Inv(s) && SetCommunicationConfiguration in b.mask
    requires exists c :: c in b.comms && (c.connections == None || c.connections == Some([]))
    ensures Dispatch(env, b, s).error.Some?
    ensures NoneEnabled(AsMap(s.endpoints), AsMap(Dispatch(env, b, s).state.endpoints))
  {
    hide Until, Dispatch, Inv, AsMap, NoneEnabled;
    SwitchesUntilCommunication(env, b, s);
    UntilNext(env, b, s, 7);
    var e := Until(env, b, s, 7);
    CommunicateEachMeaning(e.state, e.results, b.comms);
    FailedStays(env, b, s, 8);
  }

  lemma {:induction false} CommunicateEachMeaning(s: State, r: Results, comms: seq<CommConfig>)
    ensures Each(CommunicateStep(), s, r, comms).error.None?
       <==> forall c | c in comms :: c.connections != None && c.connections != Some([])
    decreases |comms|
  {
    hide PutAll;
    if comms != [] {
      var n := |comms| - 1;
      CommunicateEachMeaning(s, r, comms[..n]);
      assert comms == comms[..n] + [comms[n]];
    }
  }

  // ---- What reserving finds ----------------------------------------------------------------------

  /** Reserving is served by the connections and reservations there were before the bundle, whatever it
    does to the connections.  When a request is not granted in full, the connections stay and nothing is
    enabled. */
  lemma ReservingSeesOldConnections(env: Environment, b: Bundle, s: State)
    requires Inv(s)
    ensures
      var e := Dispatch(env, b, s);
      var n := |e.results.reserves|;
      && n <= |b.reserves| && e.state.reservations == s.reservations + b.reserves[..n]
      && (forall i: nat | i < n :: ServedBy(env, s.connections, s.reservations + b.reserves[..i], b.reserves[i], e.results.reserves[i]))
      && ((exists i: nat :: i < n && e.results.reserves[i].status != Good) ==>
            e.error.Some? && e.state.connections == s.connections
            && NoneEnabled(AsMap(s.endpoints), AsMap(e.state.endpoints)))
  {
    hide Until, Dispatch, Inv, AsMap, NoneEnabled, ServedBy, Perform;
    ReservesUntil(env, b, s, 6);
    PartsUntouched(env, b, s, 6);
    PartsUntouched(env, b, s, 7);
    UntilNext(env, b, s, 6);
    UntilNext(env, b, s, 7);
    UntilNext(env, b, s, 8);
    var e, f, g := Until(env, b, s, 6), Until(env, b, s, 7), Until(env, b, s, 8);
    ReservePerformed(env, b, e.state, e.results);
    OthersDoNotReserve(env, b, f.state, f.results, SetCommunicationConfiguration);
    OthersDoNotReserve(env, b, g.state, g.results, EnableCommunication);
    PerformIsFramed(env, b, f.state, f.results, SetCommunicationConfiguration);
    PerformIsFramed(env, b, g.state, g.results, EnableCommunication);
    UntilAll(env, b, s);
    SwitchesUntilCommunication(env, b, s);
    assert s.reservations + b.reserves[..0] == s.reservations;
    if f.error.Some? {
      FailedStays(env, b, s, 7);
    }
  }

  /** The ids come from the allocator; the status tells whether they are as many as were asked for. */
  predicate ServedBy(env: Environment, connections: seq<Keyed<string, string>>, earlier: seq<ReserveRequest>,
      q: ReserveRequest, result: ReserveResult) {
    && (result.writerGroups, result.writers) == env.reserve(connections, earlier, q)
    && result.status == if |result.writerGroups| == q.writerGroups && |result.writers| == q.writers then Good else BadResourceUnavailable
  }

  lemma {:induction false} ReserveEachMeaning(env: Environment, s: State, r: Results, requests: seq<ReserveRequest>)
    requires r.reserves == []
    ensures
      var e := Each(ReserveStep(env), s, r, requests);
      var n := |e.results.reserves|;
      && n <= |requests| && e.state == s.(reservations := s.reservations + requests[..n])
      && (forall i: nat | i < n :: ServedBy(env, s.connections, s.reservations + requests[..i], requests[i], e.results.reserves[i]))
      && (e.error.None? ==> n == |requests|)
      && (e.error.None? <==> forall i: nat | i < n :: e.results.reserves[i].status == Good)
    decreases |requests|
  {
    hide ServedBy, ReserveStep;
    if requests == [] {
      assert s.reservations + [] == s.reservations;
    } else {
      var m := |requests| - 1;
      var e := Each(ReserveStep(env), s, r, requests[..m]);
      ReserveEachMeaning(env, s, r, requests[..m]);
      forall i: nat | i <= m
        ensures requests[..m][..i] == requests[..i]
      {
      }
      if e.error.None? {
        OneReserved(env, e.state, e.results, requests[m]);
        assert s.reservations + requests[..m] + [requests[m]] == s.reservations + requests[..m + 1];
      }
    }
  }

  lemma OneReserved(env: Environment, s: State, r: Results, q: ReserveRequest)
    ensures
      var e := ReserveStep(env)(s, r, q);
      && e.state == s.(reservations := s.reservations + [q])
      && |e.results.reserves| == |r.reserves| + 1 && e.results.reserves[..|r.reserves|] == r.reserves
      && ServedBy(env, s.connections, s.reservations, q, e.results.reserves[|r.reserves|])
      && (e.error.None? <==> e.results.reserves[|r.reserves|].status == Good)
  {
  }

  lemma ReservePerformed(env: Environment, b: Bundle, s: State, r: Results)
    requires r.reserves == []
    ensures
      var e := Perform(env, b, s, r, ReserveCommunicationIds);
      var n := |e.results.reserves|;
      && n <= |b.reserves| && e.state == s.(reservations := s.reservations + b.reserves[..n])
      && (forall i: nat | i < n :: ServedBy(env, s.connections, s.reservations + b.reserves[..i], b.reserves[i], e.results.reserves[i]))
      && (e.error.None? <==> forall i: nat | i < n :: e.results.reserves[i].status == Good)
  {
    hide ServedBy, Each;
    ReserveEachMeaning(env, s, r, b.reserves);
  }

  lemma {:induction false} EachKeepsReserves<T>(step: (State, Results, T) -> Effect, s: State, r: Results, items: seq<T>)
    requires forall t, q, i :: SameReserves(q, step(t, q, i).results)
    ensures Each(step, s, r, items).results.reserves == r.reserves
    decreases |items|
  {
    if items != [] {
      EachKeepsReserves(step, s, r, items[..|items| - 1]);
    }
  }

  predicate SameReserves(q: Results, r: Results) {
    r.reserves == q.reserves
  }

  lemma CreatingDoesNotReserve(t: State, q: Results, c: EndpointConfig)
    ensures SameReserves(q, CreateStep()(t, q, c).results)
  {
    if c.complete {
      assert CreateStep()(t, q, c).results == AddEndpointResult(q, ResultFor(c.id));
    } else {
      assert CreateStep()(t, q, c).results == AddEndpointResult(q, ResultFor(c.id).(endpoint := BadInvalidArgument));
    }
  }

  lemma ConfiguringDoesNotReserve(t: State, q: Results, c: EndpointConfig)
    ensures SameReserves(q, ConfigureStep()(t, q, c).results)
  {
    var status := if IndexOf(t.endpoints, c.id) == |t.endpoints| then BadNotFound else Good;
    assert ConfigureStep()(t, q, c).results == AddEndpointResult(q, ResultFor(c.id).(configuration := AllData(c, status)));
  }

  lemma ReassigningDoesNotReserve(env: Environment, t: State, q: Results, c: EndpointConfig)
    ensures SameReserves(q, ReassignStep(env)(t, q, c).results)
  {
  }

  lemma VerifyingDoesNotReserve(v: Verifier, t: State, q: Results, c: EndpointConfig)
    ensures SameReserves(q, EntityStep(v)(t, q, c).results)
  {
    if c.expectsVerification {
      var problem := LockProblem(t.locks, t.context, GroupsOf(c));
      var status := if problem.Some? then problem.value else v.entity(c);
      assert EntityStep(v)(t, q, c).results == AddEndpointResult(q, ResultFor(c.id).(entity := status));
    }
  }

  lemma StepsDoNotReserve(env: Environment, locks: map<NodeId, string>, owner: string)
    ensures forall t, q, i :: SameReserves(q, CreateStep()(t, q, i).results)
    ensures forall t, q, i :: SameReserves(q, ConfigureStep()(t, q, i).results)
    ensures forall t, q, i :: SameReserves(q, EnableStep()(t, q, i).results)
    ensures forall t, q, i :: SameReserves(q, UnsupportedStep()(t, q, i).results)
    ensures forall t, q, i :: SameReserves(q, CommunicateStep()(t, q, i).results)
    ensures forall t, q, i :: SameReserves(q, ClaimStep(locks, owner)(t, q, i).results)
    ensures forall t, q, i :: SameReserves(q, ReassignStep(env)(t, q, i).results)
    ensures env.verifier.Some? ==> forall t, q, i :: SameReserves(q, AssetStep(env.verifier.value)(t, q, i).results)
    ensures env.verifier.Some? ==> forall t, q, i :: SameReserves(q, EntityStep(env.verifier.value)(t, q, i).results)
  {
    hide CreateStep, ConfigureStep, ReassignStep, EntityStep, PutAll, Put, IndexOf, FirstFailing, GroupStatuses, AbortStatus;
    forall t, q, i
      ensures SameReserves(q, CreateStep()(t, q, i).results) && SameReserves(q, ConfigureStep()(t, q, i).results)
      ensures SameReserves(q, ReassignStep(env)(t, q, i).results)
      ensures env.verifier.Some? ==> SameReserves(q, EntityStep(env.verifier.value)(t, q, i).results)
    {
      CreatingDoesNotReserve(t, q, i);
      ConfiguringDoesNotReserve(t, q, i);
      ReassigningDoesNotReserve(env, t, q, i);
      if env.verifier.Some? {
        VerifyingDoesNotReserve(env.verifier.value, t, q, i);
      }
    }
  }

  lemma OthersDoNotReserve(env: Environment, b: Bundle, s: State, r: Results, command: Command)
    requires command != ReserveCommunicationIds
    ensures Perform(env, b, s, r, command).results.reserves == r.reserves
  {
    StepsDoNotReserve(env, s.locks, s.context);
    hide Each, CreateStep, ConfigureStep, EnableStep, UnsupportedStep, CommunicateStep, ClaimStep, ReassignStep, AssetStep, EntityStep,
         WithLocks, AllGroups;
    match command {
      case VerifyAsset =>
        if env.verifier.Some? {
          EachKeepsReserves(AssetStep(env.verifier.value), s, r, b.assets);
        }
      case VerifyFunctionalEntity =>
        EachKeepsReserves(UnsupportedStep(), s, r, b.configs);
        if env.verifier.Some? {
          EachKeepsReserves(EntityStep(env.verifier.value), s, r, b.configs);
        }
      case CreateConnectionEndpoint => EachKeepsReserves(CreateStep(), s, r, b.configs);
      case EstablishControl => EachKeepsReserves(ClaimStep(s.locks, s.context), s, r, b.configs);
      case SetConfigurationData => EachKeepsReserves(ConfigureStep(), s, r, b.configs);
      case ReassignControl => EachKeepsReserves(ReassignStep(env), s, r, b.configs);
      case SetCommunicationConfiguration => EachKeepsReserves(CommunicateStep(), s, r, b.comms);
      case EnableCommunication => EachKeepsReserves(EnableStep(), s, r, b.configs);
    }
  }

  lemma {:induction false} ReservesUntil(env: Environment, b: Bundle, s: State, k: nat)
    requires k <= 6
    ensures Until(env, b, s, k).results.reserves == []
  {
    hide Until, Perform;
    if k == 0 {
      UntilNone(env, b, s);
    } else {
      var e := Until(env, b, s, k - 1);
      ReservesUntil(env, b, s, k - 1);
      UntilNext(env, b, s, k - 1);
      OthersDoNotReserve(env, b, e.state, e.results, COMMANDS[k - 1]);
    }
  }

  // ---- Two commands together -----------------------------------------------------------------------

  lemma OnlyThese(env: Environment, b: Bundle, s: State, j: nat, k: nat)
    requires j < k < |COMMANDS| && b.mask == {COMMANDS[j], COMMANDS[k]}
    ensures
      var e := Perform(env, b, s, NO_RESULTS, COMMANDS[j]);
      Dispatch(env, b, s) == if e.error.Some? then e else Perform(env, b, e.state, e.results, COMMANDS[k])
  {
    OthersNotRequested(b.mask, j, k);
    hide Until, Perform, Dispatch;
    UntilNone(env, b, s);
    SkipTo(env, b, s, 0, j);
    UntilNext(env, b, s, j);
    SkipTo(env, b, s, j + 1, k);
    UntilNext(env, b, s, k);
    SkipTo(env, b, s, k + 1, |COMMANDS|);
    UntilAll(env, b, s);
  }

  lemma OthersNotRequested(mask: set<Command>, j: nat, k: nat)
    requires j < |COMMANDS| && k < |COMMANDS| && mask == {COMMANDS[j], COMMANDS[k]}
    ensures forall m: nat | m < |COMMANDS| :: COMMANDS[m] in mask <==> m == j || m == k
  {
  }

  /** Commands that are not requested make no difference. */
  lemma {:induction false} SkipTo(env: Environment, b: Bundle, s: State, i: nat, j: nat)
    requires i <= j <= |COMMANDS| && forall m: nat | i <= m < j :: COMMANDS[m] !in b.mask
    ensures Until(env, b, s, j) == Until(env, b, s, i)
    decreases j
  {
    hide Until, Perform;
    if i < j {
      SkipTo(env, b, s, i, j - 1);
      UntilNext(env, b, s, j - 1);
    }
  }

  /** Creating and configuring endpoints in one bundle works: new endpoints are there when their data comes. */
  lemma CreateThenConfigure(env: Environment, b: Bundle, s: State)
    requires Inv(s) && b.mask == {CreateConnectionEndpoint, SetConfigurationData} && forall c | c in b.configs :: c.complete
    ensures
      var e := Dispatch(env, b, s);
      var before, after := AsMap(s.endpoints), AsMap(e.state.endpoints);
      && e.error.None? && e.state == s.(endpoints := e.state.endpoints)
      && (forall id :: id in after <==> id in before || Listed(b.configs, id))
      && forall id | id in after ::
           && AsMap(after[id].data) == (if id in before then AsMap(before[id].data) else map[]) + AsMap(DataFor(b.configs, id))
           && after[id].enabled == (id in before && before[id].enabled)
  {
    hide Dispatch, Inv, AsMap, Listed, Each, DataFor;
    OnlyThese(env, b, s, 2, 4);
    var d := Each(CreateStep(), s, NO_RESULTS, b.configs);
    CreateEachMeaning(s, NO_RESULTS, b.configs);
    PerformIsFramed(env, b, s, NO_RESULTS, CreateConnectionEndpoint);
    ConfigureEachMeaning(d.state, d.results, b.configs);
    forall c | c in b.configs
      ensures Listed(b.configs, c.id)
    {
      ItselfListed(b.configs, c);
    }
    EmptyTable();
  }

  lemma ItselfListed(configs: seq<EndpointConfig>, c: EndpointConfig)
    requires c in configs
    ensures Listed(configs, c.id)
  {
  }

  lemma EmptyTable()
    ensures AsMap<NodeId, string>([]) == map[]
  {
  }

  /** Establishing and reassigning control in one bundle works: what the caller has just taken is handed on
    to the last endpoint that lists it. */
  lemma EstablishThenReassign(env: Environment, b: Bundle, s: State)
    requires b.mask == {EstablishControl, ReassignControl}
    requires forall g | g in AllGroups(b.configs) :: g !in s.locks || s.locks[g] == s.context
    ensures
      var e := Dispatch(env, b, s);
      && e.error.None? && e.state == s.(locks := e.state.locks)
      && e.state.locks.Keys == s.locks.Keys + AllGroups(b.configs)
      && (forall g | g in s.locks && g !in AllGroups(b.configs) :: e.state.locks[g] == s.locks[g])
      && forall i: nat, g | LastLister(b.configs, i, g) :: g in e.state.locks && e.state.locks[g] == env.render(b.configs[i].id)
  {
    hide Dispatch, AllGroups, Each, Establish, LastLister;
    OnlyThese(env, b, s, 3, 5);
    EstablishIsAllOrNothing(s, NO_RESULTS, b.configs);
    var d := Establish(s, NO_RESULTS, b.configs);
    AllReassigned(env, d.state, d.results, b.configs);
  }

  lemma AllReassigned(env: Environment, s: State, r: Results, configs: seq<EndpointConfig>)
    requires AllGroups(configs) <= s.locks.Keys
    ensures
      var e := Each(ReassignStep(env), s, r, configs);
      && e.error.None? && e.state == s.(locks := e.state.locks) && e.state.locks.Keys == s.locks.Keys
      && (forall g | g in s.locks && g !in AllGroups(configs) :: e.state.locks[g] == s.locks[g])
      && forall i: nat, g | LastLister(configs, i, g) :: g in e.state.locks && e.state.locks[g] == env.render(configs[i].id)
  {
    ReassignMeaning(env, s, r, configs);
    ReassignWrites(env, s, r, configs);
    HandedAreListed(env, s.locks, configs);
    hide AllGroups, Each, Handed, FirstFailing;
    var e := Each(ReassignStep(env), s, r, configs);
    forall i: nat, g | LastLister(configs, i, g)
      ensures g in e.state.locks && e.state.locks[g] == env.render(configs[i].id)
    {
      LastEndpointHolds(env, s, r, configs, i, g);
    }
  }

  /** Endpoint `i` lists the group, and none after it does. */
  ghost predicate LastLister(configs: seq<EndpointConfig>, i: nat, g: NodeId) {
    i < |configs| && g in GroupsOf(configs[i]) && forall j: nat | i < j < |configs| :: g !in GroupsOf(configs[j])
  }

  lemma HandedAreListed(env: Environment, locks: map<NodeId, string>, configs: seq<EndpointConfig>)
    ensures Handed(env, locks, configs).Keys <= AllGroups(configs)
  {
    hide AsMap, AllGroups;
    var offers := Offers(env, configs);
    var k := FirstFailing(Keys(offers), NotHeld(locks));
    OffersAreListed(env, configs);
    forall g | g in AsMap(offers[..k])
      ensures g in AllGroups(configs)
    {
      KeysOfMap(offers[..k], g);
      var o :| o in offers[..k] && o.key == g;
      assert o in offers;
    }
  }

  lemma {:induction false} KeysOfMap(list: seq<Keyed<NodeId, string>>, k: NodeId)
    requires k in AsMap(list)
    ensures exists o :: o in list && o.key == k
    decreases |list|
  {
    var n := |list| - 1;
    if list[n].key == k {
      assert list[n] in list;
    } else {
      KeysOfMap(list[..n], k);
    }
  }

  lemma {:induction false} OffersAreListed(env: Environment, configs: seq<EndpointConfig>)
    ensures forall o | o in Offers(env, configs) :: o.key in AllGroups(configs)
    decreases |configs|
  {
    hide AllGroups;
    if configs != [] {
      var n := |configs| - 1;
      OffersAreListed(env, configs[..n]);
      GroupsOfLast(configs);
      var here := OffersOf(GroupsOf(configs[n]), env.render(configs[n].id));
      forall o | o in here
        ensures o.key in SetOf(GroupsOf(configs[n]))
      {
        var i :| 0 <= i < |here| && here[i] == o;
        assert Keys(here)[i] == o.key;
      }
    }
  }

  /** Data set in a bundle stays set when a reassignment after it fails. */
  lemma ConfigureThenFailReassigning(env: Environment, b: Bundle, s: State)
    requires Inv(s) && b.mask == {SetConfigurationData, ReassignControl}
    requires forall c | c in b.configs :: c.id in AsMap(s.endpoints)
    requires exists g :: g in AllGroups(b.configs) && g !in s.locks
    ensures
      var e := Dispatch(env, b, s);
      && e.error == Some(BadRequiresLock)
      && DataSet(AsMap(s.endpoints), b.configs, AsMap(e.state.endpoints))
  {
    hide Dispatch, Inv, AsMap, AllGroups, Each, DataSet;
    OnlyThese(env, b, s, 4, 5);
    var d := Each(ConfigureStep(), s, NO_RESULTS, b.configs);
    ConfigureEachMeaning(s, NO_RESULTS, b.configs);
    ReassignMeaning(env, d.state, d.results, b.configs);
  }

  // ---- What the statuses tell ----------------------------------------------------------------------

  /** Establishing control for one endpoint: Good up to the first group another client holds, which is
    reported locked; nothing is done about those after it. */
  lemma ClaimStatuses(locks: map<NodeId, string>, owner: string, s: State, r: Results, c: EndpointConfig, i: nat)
    requires c.controlGroups.Some? && i < |c.controlGroups.value|
    ensures
      var groups, e := c.controlGroups.value, ClaimStep(locks, owner)(s, r, c);
      var blocked := set g | g in locks && locks[g] != owner;
      && |e.results.endpoints| == |r.endpoints| + 1 && e.results.endpoints[|r.endpoints|].id == c.id
      && var statuses := e.results.endpoints[|r.endpoints|].establish;
      && statuses.Some? && |statuses.value| == |groups|
      && statuses.value[i] ==
           if forall j: nat | j <= i :: groups[j] !in blocked then Good
           else if forall j: nat | j < i :: groups[j] !in blocked then BadLocked else BadNothingToDo
  {
    var groups := c.controlGroups.value;
    var k := FirstFailing(groups, BlockedBy(locks, owner));
    assert forall j: nat | j < k :: !Blocked(locks, owner, groups[j]);
  }

  /** Reassigning the groups of one endpoint: Good up to the first that nobody holds. */
  lemma HandOverStatuses(env: Environment, s: State, r: Results, c: EndpointConfig, i: nat)
    requires c.controlGroups.Some? && i < |c.controlGroups.value|
    ensures
      var groups, e := c.controlGroups.value, ReassignStep(env)(s, r, c);
      && |e.results.endpoints| == |r.endpoints| + 1 && e.results.endpoints[|r.endpoints|].id == c.id
      && var statuses := e.results.endpoints[|r.endpoints|].reassign;
      && statuses.Some? && |statuses.value| == |groups|
      && statuses.value[i] ==
           if forall j: nat | j <= i :: groups[j] in s.locks then Good
           else if forall j: nat | j < i :: groups[j] in s.locks then BadRequiresLock else BadNothingToDo
  {
    var groups := c.controlGroups.value;
    var k := FirstFailing(groups, NotHeld(s.locks));
    assert forall j: nat | j < k :: groups[j] in s.locks;
  }

  /** Verifying one entity: the first group that is not the caller's is reported, as locked when another
    holds it and as not locked when nobody does; with all groups held the verifier's word is. */
  lemma EntityStatus(v: Verifier, s: State, r: Results, c: EndpointConfig)
    requires c.expectsVerification
    ensures
      var groups, e := GroupsOf(c), EntityStep(v)(s, r, c);
      && |e.results.endpoints| == |r.endpoints| + 1 && e.results.endpoints[|r.endpoints|].id == c.id
      && var status := e.results.endpoints[|r.endpoints|].entity;
      && (HoldsAll(s.locks, s.context, groups) ==> status == v.entity(c))
      && forall i: nat | i < |groups| && HoldsAll(s.locks, s.context, groups[..i]) ::
           if groups[i] !in s.locks then status == BadRequiresLock
           else s.locks[groups[i]] != s.context ==> status == BadLocked
  {
    LockProblemMeaning(s.locks, s.context, GroupsOf(c));
    forall i: nat | i < |GroupsOf(c)| && HoldsAll(s.locks, s.context, GroupsOf(c)[..i])
      ensures LockProblem(s.locks, s.context, GroupsOf(c)) == LockProblem(s.locks, s.context, GroupsOf(c)[i..])
    {
      ProblemLater(s.locks, s.context, GroupsOf(c), i);
    }
  }

  function NotSupported(configs: seq<EndpointConfig>): seq<EndpointResult>
    decreases |configs|
  {
    if configs == [] then []
    else
      var n := |configs| - 1;
      NotSupported(configs[..n])
      + if configs[n].expectsVerification then [EndpointResult(configs[n].id, BadNotSupported, Good, None, None, None)] else []
  }

  /** Without a verifier each entity to be verified is reported as not supported, and no others. */
  lemma {:induction false} UnsupportedReports(s: State, r: Results, configs: seq<EndpointConfig>)
    ensures Each(UnsupportedStep(), s, r, configs) == Effect(s, r.(endpoints := r.endpoints + NotSupported(configs)), None)
    decreases |configs|
  {
    hide UnsupportedStep;
    if configs == [] {
      assert r.endpoints + [] == r.endpoints;
    } else {
      var n := |configs| - 1;
      UnsupportedReports(s, r, configs[..n]);
      OneUnsupported(s, r.(endpoints := r.endpoints + NotSupported(configs[..n])), configs[n]);
    }
  }

  lemma OneUnsupported(s: State, r: Results, c: EndpointConfig)
    ensures UnsupportedStep()(s, r, c) == Effect(s, r.(endpoints := r.endpoints
      + if c.expectsVerification then [EndpointResult(c.id, BadNotSupported, Good, None, None, None)] else []), None)
  {
    if c.expectsVerification {
      assert UnsupportedStep()(s, r, c).results == AddEndpointResult(r, ResultFor(c.id).(entity := BadNotSupported));
    } else {
      assert r.endpoints + [] == r.endpoints;
    }
  }

  /** Creating: the status tells whether the definition is complete. */
  lemma CreationStatus(s: State, r: Results, c: EndpointConfig)
    ensures CreateStep()(s, r, c).results == r.(endpoints := r.endpoints
      + [EndpointResult(c.id, Good, if c.complete then Good else BadInvalidArgument, None, None, None)])
  {
    var status := if c.complete then Good else BadInvalidArgument;
    assert CreateStep()(s, r, c).results == AddEndpointResult(r, ResultFor(c.id).(endpoint := status));
  }

  /** Configuring: each datum's status tells whether the endpoint is there. */
  lemma ConfigurationStatuses(s: State, r: Results, c: EndpointConfig, k: nat)
    requires c.data.Some? && k < |c.data.value|
    ensures
      var e := ConfigureStep()(s, r, c).results;
      && |e.endpoints| == |r.endpoints| + 1 && e.endpoints[|r.endpoints|].id == c.id
      && var statuses := e.endpoints[|r.endpoints|].configuration;
      && statuses.Some? && |statuses.value| == |c.data.value|
      && statuses.value[k] == if exists x :: x in s.endpoints && x.key == c.id then Good else BadNotFound
  {
    var i := IndexOf(s.endpoints, c.id);
    var status := if i == |s.endpoints| then BadNotFound else Good;
    assert ConfigureStep()(s, r, c).results == AddEndpointResult(r, ResultFor(c.id).(configuration := AllData(c, status)));
    if i < |s.endpoints| {
      assert s.endpoints[i] in s.endpoints;
    }
  }

  /** Communication: the status tells whether there is anything to set up. */
  lemma CommunicationStatus(s: State, r: Results, c: CommConfig)
    ensures CommunicateStep()(s, r, c).results == r.(communication := r.communication
      + [if c.connections == None || c.connections == Some([]) then BadInvalidArgument else Good])
  {
    hide PutAll;
  }

  lemma {:induction false} ProblemLater(locks: map<NodeId, string>, owner: string, groups: seq<NodeId>, i: nat)
    requires i <= |groups| && HoldsAll(locks, owner, groups[..i])
    ensures LockProblem(locks, owner, groups) == LockProblem(locks, owner, groups[i..])
    decreases |groups|
  {
    if i > 0 {
      assert groups[0] == groups[..i][0] && groups[0] in groups[..i];
      assert groups[1..][..i - 1] == groups[..i][1..];
      ProblemLater(locks, owner, groups[1..], i - 1);
      assert groups[1..][i - 1..] == groups[i..];
    }
  }
}
