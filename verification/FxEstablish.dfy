/** The FX connection state as an object: its fields are updated in place, command by command. */
module FxEstablish {
  import opened FxCommands
  import opened KeyedList
  import opened NodeIds
  import opened Wrappers
  import FxRuns

  class FxConnectionState {
    const env: Environment
    var connections: seq<Keyed<string, string>>
    var controlLocks: map<NodeId, string>
    var lockContext: string
    var reservations: seq<ReserveRequest>
    var endpoints: seq<Keyed<NodeId, Endpoint>>

    ghost function View(): State
      reads this
    {
      State(connections, controlLocks, lockContext, reservations, endpoints)
    }

    constructor (env: Environment)
      ensures this.env == env && View() == State([], map[], "", [], [])
    {
      this.env := env;
      connections, controlLocks, lockContext, reservations, endpoints := [], map[], "", [], [];
    }

    method SetLockContext(context: string)
      modifies this`lockContext
      ensures View() == old(View()).(context := context)
    {
      lockContext := context;
    }

    method VerifyAssets(requests: seq<AssetRequest>, r0: Results) returns (r: Results, error: Option<Status>)
      ensures Effect(View(), r, error) == FxCommands.VerifyAssets(env, View(), r0, requests)
    {
      if env.verifier.None? {
        return r0.(assets := r0.assets + seq(|requests|, _ => AssetResult(BadNotSupported, false))), Some(BadNotSupported);
      }
      var v := env.verifier.value;
      ghost var step := AssetStep(v);
      r, error := r0, None;
      for i := 0 to |requests|
        invariant error.None? && Each(step, View(), r0, requests[..i]) == Effect(View(), r, None)
      {
        ghost var here := Effect(View(), r, None);
        var result := v.asset(requests[i]);
        r := r.(assets := r.assets + [result]);
        error := AbortStatus(requests[i], result);
        OneMore(step, View(), r0, requests, i, here, Effect(View(), r, error));
        if error.Some? {
          return;
        }
      }
      assert requests[..|requests|] == requests;
    }

    method VerifyRequiredLocks(groups: seq<NodeId>) returns (problem: Option<Status>)
      ensures problem == LockProblem(controlLocks, lockContext, groups)
    {
      for i := 0 to |groups|
        invariant LockProblem(controlLocks, lockContext, groups) == LockProblem(controlLocks, lockContext, groups[i..])
      {
        if groups[i] !in controlLocks {
          return Some(BadRequiresLock);
        }
        if controlLocks[groups[i]] != lockContext {
          return Some(BadLocked);
        }
      }
      problem := None;
    }

    method VerifyFunctionalEntities(configs: seq<EndpointConfig>, r0: Results)
      returns (r: Results, error: Option<Status>)
      ensures Effect(View(), r, error) == VerifyEntities(env, View(), r0, configs)
    {
      hide LockProblem;
      r, error := r0, None;
      if env.verifier.None? {
        ghost var skip := UnsupportedStep();
        for i := 0 to |configs|
          invariant Each(skip, View(), r0, configs[..i]) == Effect(View(), r, None)
        {
          ghost var here := Effect(View(), r, None);
          if configs[i].expectsVerification {
            r := AddEndpointResult(r, ResultFor(configs[i].id).(entity := BadNotSupported));
          }
          OneMore(skip, View(), r0, configs, i, here, Effect(View(), r, None));
        }
        assert configs[..|configs|] == configs;
        return r, Some(BadNotSupported);
      }
      var v := env.verifier.value;
      ghost var step := EntityStep(v);
      for i := 0 to |configs|
        invariant error.None? && Each(step, View(), r0, configs[..i]) == Effect(View(), r, None)
      {
        ghost var here := Effect(View(), r, None);
        var c := configs[i];
        if c.expectsVerification {
          var problem := VerifyRequiredLocks(GroupsOf(c));
          var status := if problem.Some? then problem.value else v.entity(c);
          r := AddEndpointResult(r, ResultFor(c.id).(entity := status));
          if problem.Some? || IsBad(status) {
            error := Some(status);
          }
        }
        OneMore(step, View(), r0, configs, i, here, Effect(View(), r, error));
        if error.Some? {
          return;
        }
      }
      assert configs[..|configs|] == configs;
    }

    method CreateConnectionEndpoints(configs: seq<EndpointConfig>, r0: Results)
      returns (r: Results, error: Option<Status>)
      modifies this`endpoints
      ensures Effect(View(), r, error) == Each(CreateStep(), old(View()), r0, configs)
    {
      ghost var s0, step := View(), CreateStep();
      r, error := r0, None;
      for n := 0 to |configs|
        invariant error.None? && Each(step, s0, r0, configs[..n]) == Effect(View(), r, None)
      {
        ghost var here := Effect(View(), r, None);
        var c := configs[n];
        if !c.complete {
          r := AddEndpointResult(r, ResultFor(c.id).(endpoint := BadInvalidArgument));
          error := Some(BadInvalidArgument);
        } else {
          var i := Position(endpoints, c.id);
          if i < |endpoints| {
            endpoints := endpoints[i := Keyed(c.id, endpoints[i].value.(config := c))];
          } else {
            endpoints := endpoints + [Keyed(c.id, Endpoint(c, [], false, []))];
          }
          r := AddEndpointResult(r, ResultFor(c.id));
        }
        OneMore(step, s0, r0, configs, n, here, Effect(View(), r, error));
        if error.Some? {
          return;
        }
      }
      assert configs[..|configs|] == configs;
    }

    /** Take a control group for the lock context, unless somebody else holds it. */
    method AcquireControlGroup(g: NodeId, owner: string) returns (status: Status, acquired: bool)
      modifies this`controlLocks
      ensures status == (if Blocked(old(controlLocks), owner, g) then BadLocked else Good)
      ensures acquired == (g !in old(controlLocks))
      ensures controlLocks == if Blocked(old(controlLocks), owner, g) then old(controlLocks) else old(controlLocks)[g := owner]
    {
      if g in controlLocks && controlLocks[g] != owner {
        return BadLocked, false;
      }
      acquired := g !in controlLocks;
      controlLocks := controlLocks[g := owner];
      status := Good;
    }

    method ReleaseAcquired(groups: seq<NodeId>, owner: string)
      modifies this`controlLocks
      ensures controlLocks == old(controlLocks) - HeldAmong(old(controlLocks), groups, owner)
    {
      ghost var before := controlLocks;
      for i := 0 to |groups|
        invariant controlLocks == before - HeldAmong(before, groups[..i], owner)
      {
        if groups[i] in controlLocks && controlLocks[groups[i]] == owner {
          controlLocks := controlLocks - {groups[i]};
        }
        assert groups[..i + 1] == groups[..i] + [groups[i]];
      }
      assert groups[..|groups|] == groups;
    }

    /** The groups of one endpoint, taken one by one up to the first that is blocked. */
    method ClaimGroups(groups: seq<NodeId>, owner: string, acquired0: seq<NodeId>,
        ghost locks0: map<NodeId, string>, ghost claimed: set<NodeId>)
      returns (statuses: seq<Status>, acquired: seq<NodeId>, error: Option<Status>)
      requires Claimed(locks0, controlLocks, claimed, owner, acquired0)
      modifies this`controlLocks
      ensures
        var fails := BlockedBy(locks0, owner);
        var k := FirstFailing(groups, fails);
        && statuses == GroupStatuses(groups, fails, BadLocked)
        && error == (if k < |groups| then Some(BadLocked) else None)
        && Claimed(locks0, controlLocks, claimed + SetOf(groups[..k]), owner, acquired)
    {
      hide GroupStatuses, FirstFailing, Claimed;
      statuses, acquired, error := [], acquired0, None;
      assert SetOf(groups[..0]) == {} && claimed + {} == claimed;
      for i := 0 to |groups|
        invariant error.None? && Claimed(locks0, controlLocks, claimed + SetOf(groups[..i]), owner, acquired)
        invariant forall j | 0 <= j < i :: !Blocked(locks0, owner, groups[j])
        invariant statuses == seq(i, _ => Good)
      {
        ClaimStepKeeps(locks0, controlLocks, claimed + SetOf(groups[..i]), owner, acquired, groups[i]);
        var status, took := AcquireControlGroup(groups[i], owner);
        statuses := statuses + [status];
        if took {
          acquired := acquired + [groups[i]];
        }
        if IsBad(status) {
          statuses := statuses + seq(|groups| - i - 1, _ => BadNothingToDo);
          StatusesAtFailure(groups, BlockedBy(locks0, owner), BadLocked, i, statuses);
          error := Some(status);
          return;
        }
        assert SetOf(groups[..i + 1]) == SetOf(groups[..i]) + {groups[i]};
        assert claimed + SetOf(groups[..i + 1]) == claimed + SetOf(groups[..i]) + {groups[i]};
      }
      StatusesAllGood(groups, BlockedBy(locks0, owner), BadLocked, statuses);
    }

    method EstablishControl(configs: seq<EndpointConfig>, r0: Results) returns (r: Results, error: Option<Status>)
      modifies this`controlLocks
      ensures Effect(View(), r, error) == Establish(old(View()), r0, configs)
    {
      hide Each, GroupStatuses, FirstFailing, Claimed, AllGroups, SetOf;
      ghost var s0, locks0 := View(), controlLocks;
      var owner := lockContext;
      ghost var step := ClaimStep(locks0, owner);
      var acquired: seq<NodeId> := [];
      r, error := r0, None;
      NoneYet(step, s0, r0, configs);
      NothingClaimed(locks0, owner, configs);
      for n := 0 to |configs|
        invariant error.None? && Each(step, s0, r0, configs[..n]) == Effect(s0, r, None)
        invariant View() == s0.(locks := controlLocks)
        invariant Claimed(locks0, controlLocks, AllGroups(configs[..n]), owner, acquired)
      {
        ghost var here := Effect(s0, r, None);
        var c := configs[n];
        var groups := GroupsOf(c);
        MoreGroups(configs, n);
        if groups == [] {
          OneMore(step, s0, r0, configs, n, here, here);
          NoGroups(AllGroups(configs[..n]));
          continue;
        }
        ghost var claimed := AllGroups(configs[..n]);
        var statuses;
        statuses, acquired, error := ClaimGroups(groups, owner, acquired, locks0, claimed);
        r := AddEndpointResult(r, ResultFor(c.id).(establish := Some(statuses)));
        OneMore(step, s0, r0, configs, n, here, Effect(s0, r, error));
        ghost var k := FirstFailing(groups, BlockedBy(locks0, owner));
        if error.Some? {
          ReleasedIsUnchanged(locks0, controlLocks, claimed + SetOf(groups[..k]), owner, acquired);
          ReleaseAcquired(acquired, owner);
          return;
        }
        assert groups[..k] == groups;
      }
      assert configs[..|configs|] == configs;
      ClaimedLocks(locks0, controlLocks, AllGroups(configs), owner, acquired);
    }

    method SetConfigurationData(configs: seq<EndpointConfig>, r0: Results) returns (r: Results, error: Option<Status>)
      modifies this`endpoints
      ensures Effect(View(), r, error) == Each(ConfigureStep(), old(View()), r0, configs)
    {
      hide PutAll, Each;
      ghost var s0, step := View(), ConfigureStep();
      r, error := r0, None;
      NoneYet(step, s0, r0, configs);
      for n := 0 to |configs|
        invariant error.None? && Each(step, s0, r0, configs[..n]) == Effect(View(), r, None)
      {
        ghost var here := Effect(View(), r, None);
        var c := configs[n];
        var i := Position(endpoints, c.id);
        if i == |endpoints| {
          r := AddEndpointResult(r, ResultFor(c.id).(configuration := AllData(c, BadNotFound)));
          error := Some(BadNotFound);
        } else {
          var merged := Merge(endpoints[i].value.data, if c.data.Some? then c.data.value else []);
          assert endpoints[i].value.(data := merged) == Configured(endpoints[i].value, c);
          endpoints := endpoints[i := Keyed(c.id, endpoints[i].value.(data := merged))];
          assert endpoints == Put(here.state.endpoints, c.id, Configured(here.state.endpoints[i].value, c));
          r := AddEndpointResult(r, ResultFor(c.id).(configuration := AllData(c, Good)));
        }
        OneMore(step, s0, r0, configs, n, here, Effect(View(), r, error));
        if error.Some? {
          return;
        }
      }
      assert configs[..|configs|] == configs;
    }

    method ReassignControlGroup(g: NodeId, owner: string) returns (status: Status)
      modifies this`controlLocks
      ensures status == (if g in old(controlLocks) then Good else BadRequiresLock)
      ensures controlLocks == if g in old(controlLocks) then old(controlLocks)[g := owner] else old(controlLocks)
    {
      if g in controlLocks {
        controlLocks := controlLocks[g := owner];
        status := Good;
      } else {
        status := BadRequiresLock;
      }
    }

    /** The groups of one endpoint, handed over one by one up to the first that nobody holds. */
    method HandOver(groups: seq<NodeId>, owner: string) returns (statuses: seq<Status>, error: Option<Status>)
      modifies this`controlLocks
      ensures
        var fails := NotHeld(old(controlLocks));
        var k := FirstFailing(groups, fails);
        && statuses == GroupStatuses(groups, fails, BadRequiresLock)
        && error == (if k < |groups| then Some(BadRequiresLock) else None)
        && controlLocks == WithLocks(old(controlLocks), SetOf(groups[..k]), owner)
    {
      hide GroupStatuses, FirstFailing, WithLocks;
      ghost var locks0 := controlLocks;
      statuses, error := [], None;
      NothingAdded(locks0, owner, groups);
      for i := 0 to |groups|
        invariant error.None? && controlLocks == WithLocks(locks0, SetOf(groups[..i]), owner)
        invariant forall j | 0 <= j < i :: groups[j] in locks0
        invariant statuses == seq(i, _ => Good)
      {
        OneMoreLock(locks0, owner, groups, i);
        var status := ReassignControlGroup(groups[i], owner);
        statuses := statuses + [status];
        if IsBad(status) {
          statuses := statuses + seq(|groups| - i - 1, _ => BadNothingToDo);
          StatusesAtFailure(groups, NotHeld(locks0), BadRequiresLock, i, statuses);
          error := Some(status);
          return;
        }
      }
      StatusesAllGood(groups, NotHeld(locks0), BadRequiresLock, statuses);
    }

    method ReassignControl(configs: seq<EndpointConfig>, r0: Results) returns (r: Results, error: Option<Status>)
      modifies this`controlLocks
      ensures Effect(View(), r, error) == Each(ReassignStep(env), old(View()), r0, configs)
    {
      hide Each, GroupStatuses, FirstFailing, WithLocks, SetOf;
      ghost var s0, step := View(), ReassignStep(env);
      r, error := r0, None;
      NoneYet(step, s0, r0, configs);
      for n := 0 to |configs|
        invariant error.None? && Each(step, s0, r0, configs[..n]) == Effect(View(), r, None)
      {
        ghost var here := Effect(View(), r, None);
        var c := configs[n];
        var groups := GroupsOf(c);
        if groups != [] {
          var statuses;
          statuses, error := HandOver(groups, env.render(c.id));
          r := AddEndpointResult(r, ResultFor(c.id).(reassign := Some(statuses)));
        }
        OneMore(step, s0, r0, configs, n, here, Effect(View(), r, error));
        if error.Some? {
          return;
        }
      }
      assert configs[..|configs|] == configs;
    }

    method ReserveCommunicationIds(requests: seq<ReserveRequest>, r0: Results)
      returns (r: Results, error: Option<Status>)
      modifies this`reservations
      ensures Effect(View(), r, error) == Each(ReserveStep(env), old(View()), r0, requests)
    {
      ghost var s0, step := View(), ReserveStep(env);
      r, error := r0, None;
      for n := 0 to |requests|
        invariant error.None? && Each(step, s0, r0, requests[..n]) == Effect(View(), r, None)
      {
        ghost var here := Effect(View(), r, None);
        var q := requests[n];
        var ids := env.reserve(connections, reservations, q);
        reservations := reservations + [q];
        var status := if |ids.0| == q.writerGroups && |ids.1| == q.writers then Good else BadResourceUnavailable;
        r := r.(reserves := r.reserves + [ReserveResult(status, ids.0, ids.1)]);
        if !status.Good? {
          error := Some(status);
        }
        OneMore(step, s0, r0, requests, n, here, Effect(View(), r, error));
        if error.Some? {
          return;
        }
      }
      assert requests[..|requests|] == requests;
    }

    method SetCommunicationConfiguration(configs: seq<CommConfig>, r0: Results)
      returns (r: Results, error: Option<Status>)
      modifies this`connections
      ensures Effect(View(), r, error) == Each(CommunicateStep(), old(View()), r0, configs)
    {
      hide PutAll, Each;
      ghost var s0, step := View(), CommunicateStep();
      r, error := r0, None;
      NoneYet(step, s0, r0, configs);
      for n := 0 to |configs|
        invariant error.None? && Each(step, s0, r0, configs[..n]) == Effect(View(), r, None)
      {
        ghost var here := Effect(View(), r, None);
        var c := configs[n];
        if c.connections.None? || c.connections.value == [] {
          r := r.(communication := r.communication + [BadInvalidArgument]);
          error := Some(BadInvalidArgument);
        } else {
          if c.requireCompleteUpdate {
            connections := [];
          }
          connections := Merge(connections, c.connections.value);
          r := r.(communication := r.communication + [Good]);
        }
        OneMore(step, s0, r0, configs, n, here, Effect(View(), r, error));
        if error.Some? {
          return;
        }
      }
      assert configs[..|configs|] == configs;
    }

    method EnableCommunication(configs: seq<EndpointConfig>, r0: Results) returns (r: Results, error: Option<Status>)
      modifies this`endpoints
      ensures Effect(View(), r, error) == Enable(old(View()), r0, configs)
    {
      hide Each;
      ghost var s0, step := View(), EnableStep();
      r, error := r0, None;
      if configs == [] {
        var all: seq<Keyed<NodeId, Endpoint>> := [];
        for i := 0 to |endpoints|
          invariant all == AllEnabled(endpoints[..i])
        {
          all := all + [endpoints[i].(value := endpoints[i].value.(enabled := true))];
          assert endpoints[..i + 1] == endpoints[..i] + [endpoints[i]];
        }
        assert endpoints[..|endpoints|] == endpoints;
        endpoints := all;
        return AddEndpointResult(r0, ResultFor(NULL_ID)), None;
      }
      NoneYet(step, s0, r0, configs);
      for n := 0 to |configs|
        invariant Each(step, s0, r0, configs[..n]) == Effect(View(), r, None)
      {
        ghost var here := Effect(View(), r, None);
        var c := configs[n];
        var i := Position(endpoints, c.id);
        if i < |endpoints| {
          endpoints := endpoints[i := Keyed(c.id, endpoints[i].value.(enabled := true))];
        }
        r := AddEndpointResult(r, ResultFor(c.id));
        OneMore(step, s0, r0, configs, n, here, Effect(View(), r, None));
      }
      assert configs[..|configs|] == configs;
    }

    /** The nine commands in the order of the specification, up to the first that fails. */
    method ProcessEstablishConnections(b: Bundle) returns (r: Results)
      modifies this
      ensures
        var e := Dispatch(env, b, old(View()));
        View() == e.state && r == e.results
    {
      hide Each, Perform, Requested;
      ghost var s0, step := View(), PerformStep(env, b);
      ghost var requested := Requested(COMMANDS, b.mask);
      r := NO_RESULTS;
      var error: Option<Status> := None;
      NothingRequested(b.mask);
      NoneYet(step, s0, NO_RESULTS, Requested(COMMANDS[..0], b.mask));
      for i := 0 to |COMMANDS|
        invariant Each(step, s0, NO_RESULTS, Requested(COMMANDS[..i], b.mask)) == Effect(View(), r, error)
      {
        NextRequested(COMMANDS, b.mask, i);
        var command := COMMANDS[i];
        ghost var before := Requested(COMMANDS[..i], b.mask);
        if error.Some? || command !in b.mask {
          assert before + [] == before;
          if command in b.mask {
            assert (before + [command])[..|before|] == before;
            StopsEarly(step, s0, NO_RESULTS, before + [command], |before|);
          }
          continue;
        }
        ghost var here := Effect(View(), r, None);
        r, error := PerformCommand(b, command, r);
        assert (before + [command])[..|before|] == before && (before + [command])[..|before| + 1] == before + [command];
        OneMore(step, s0, NO_RESULTS, before + [command], |before|, here, Effect(View(), r, error));
      }
      assert COMMANDS[..|COMMANDS|] == COMMANDS;
    }

    method PerformCommand(b: Bundle, command: Command, r0: Results) returns (r: Results, error: Option<Status>)
      modifies this
      ensures Effect(View(), r, error) == Perform(env, b, old(View()), r0, command)
    {
      hide Each, Establish, Enable, FxCommands.VerifyAssets, VerifyEntities;
      match command {
        case VerifyAsset => r, error := VerifyAssets(b.assets, r0);
        case VerifyFunctionalEntity => r, error := VerifyFunctionalEntities(b.configs, r0);
        case CreateConnectionEndpoint => r, error := CreateConnectionEndpoints(b.configs, r0);
        case EstablishControl => r, error := EstablishControl(b.configs, r0);
        case SetConfigurationData => r, error := SetConfigurationData(b.configs, r0);
        case ReassignControl => r, error := ReassignControl(b.configs, r0);
        case ReserveCommunicationIds => r, error := ReserveCommunicationIds(b.reserves, r0);
        case SetCommunicationConfiguration => r, error := SetCommunicationConfiguration(b.comms, r0);
        case EnableCommunication => r, error := EnableCommunication(b.configs, r0);
      }
    }

    method CloseConnectionEndpoint(id: NodeId, remove: bool) returns (status: Status)
      modifies this`endpoints, this`connections
      ensures (View(), status) == Close(old(View()), id, remove)
    {
      var i := Position(endpoints, id);
      if i == |endpoints| {
        return BadNotFound;
      }
      if remove {
        var ids := endpoints[i].value.connectionIds;
        endpoints := endpoints[..i] + endpoints[i + 1..];
        var kept: seq<Keyed<string, string>> := [];
        for n := 0 to |connections|
          invariant kept == Unlisted(connections[..n], ids)
        {
          assert connections[..n + 1][..n] == connections[..n];
          if connections[n].key !in ids {
            kept := kept + [connections[n]];
          }
        }
        assert connections[..|connections|] == connections;
        connections := kept;
      } else {
        endpoints := endpoints[i := Keyed(id, endpoints[i].value.(enabled := false))];
      }
      status := Good;
    }

    method ProcessCloseConnections(ids: seq<NodeId>, remove: bool) returns (statuses: seq<Status>)
      modifies this`endpoints, this`connections
      ensures View() == FxRuns.CloseAll(old(View()), ids, remove) && |statuses| == |ids|
      ensures forall i | 0 <= i < |ids| :: statuses[i] == Close(FxRuns.CloseAll(old(View()), ids[..i], remove), ids[i], remove).1
    {
      hide Close;
      statuses := [];
      for n := 0 to |ids|
        invariant View() == FxRuns.CloseAll(old(View()), ids[..n], remove) && |statuses| == n
        invariant forall i | 0 <= i < n :: statuses[i] == Close(FxRuns.CloseAll(old(View()), ids[..i], remove), ids[i], remove).1
      {
        assert ids[..n + 1][..n] == ids[..n];
        var status := CloseConnectionEndpoint(ids[n], remove);
        statuses := statuses + [status];
      }
      assert ids[..|ids|] == ids;
    }
  }

  // ---- Lemmas for the loops --------------------------------------------------------------------------

  lemma NoneYet<T>(step: (State, Results, T) -> Effect, s: State, r: Results, items: seq<T>)
    ensures Each(step, s, r, items[..0]) == Effect(s, r, None)
  {
  }

  lemma NothingRequested(mask: set<Command>)
    ensures Requested(COMMANDS[..0], mask) == [] && Requested([], mask)[..0] == []
  {
  }

  lemma NextRequested(commands: seq<Command>, mask: set<Command>, i: nat)
    requires i < |commands|
    ensures Requested(commands[..i + 1], mask) == Requested(commands[..i], mask) + if commands[i] in mask then [commands[i]] else []
  {
    assert commands[..i + 1][..i] == commands[..i];
  }

  function HeldAmong(locks: map<NodeId, string>, groups: seq<NodeId>, owner: string): set<NodeId> {
    set g | g in groups && g in locks && locks[g] == owner
  }

  /** The locks part of the way through: what was claimed is held by the owner, the rest is as it was,
    and `acquired` lists what was taken from nobody. */
  ghost predicate Claimed(before: map<NodeId, string>, now: map<NodeId, string>, claimed: set<NodeId>,
      owner: string, acquired: seq<NodeId>) {
    && now == WithLocks(before, claimed, owner)
    && (forall g | g in claimed :: !Blocked(before, owner, g))
    && forall g :: g in acquired <==> g in claimed && g !in before
  }

  lemma AddLock(locks: map<NodeId, string>, groups: set<NodeId>, owner: string, g: NodeId)
    ensures WithLocks(locks, groups, owner)[g := owner] == WithLocks(locks, groups + {g}, owner)
  {
    WithLocksMeaning(locks, groups, owner);
    WithLocksMeaning(locks, groups + {g}, owner);
    var a, b := WithLocks(locks, groups, owner)[g := owner], WithLocks(locks, groups + {g}, owner);
    hide WithLocks;
    assert a.Keys == b.Keys;
  }

  lemma ClaimStepKeeps(before: map<NodeId, string>, now: map<NodeId, string>, claimed: set<NodeId>, owner: string,
      acquired: seq<NodeId>, g: NodeId)
    requires Claimed(before, now, claimed, owner, acquired)
    ensures Blocked(now, owner, g) <==> Blocked(before, owner, g)
    ensures !Blocked(before, owner, g) ==>
      Claimed(before, now[g := owner], claimed + {g}, owner, if g in now then acquired else acquired + [g])
  {
    hide WithLocks;
    WithLocksMeaning(before, claimed, owner);
    AddLock(before, claimed, owner, g);
  }

  /** Releasing what was acquired restores the locks there were. */
  lemma ReleasedIsUnchanged(before: map<NodeId, string>, now: map<NodeId, string>, claimed: set<NodeId>,
      owner: string, acquired: seq<NodeId>)
    requires Claimed(before, now, claimed, owner, acquired)
    ensures now - HeldAmong(now, acquired, owner) == before
  {
    WithLocksMeaning(before, claimed, owner);
    var after := now - HeldAmong(now, acquired, owner);
    assert after.Keys == before.Keys;
    assert forall g | g in before :: after[g] == before[g];
  }

  lemma ClaimedLocks(before: map<NodeId, string>, now: map<NodeId, string>, claimed: set<NodeId>, owner: string,
      acquired: seq<NodeId>)
    requires Claimed(before, now, claimed, owner, acquired)
    ensures now == WithLocks(before, claimed, owner)
  {
  }

  lemma NothingClaimed(locks: map<NodeId, string>, owner: string, configs: seq<EndpointConfig>)
    ensures Claimed(locks, locks, AllGroups(configs[..0]), owner, [])
  {
    assert AllGroups(configs[..0]) == {};
    assert WithLocks(locks, {}, owner) == locks;
  }

  lemma NoGroups(claimed: set<NodeId>)
    ensures claimed + SetOf([]) == claimed
  {
  }

  lemma NothingAdded(locks: map<NodeId, string>, owner: string, groups: seq<NodeId>)
    ensures WithLocks(locks, SetOf(groups[..0]), owner) == locks
  {
    assert SetOf(groups[..0]) == {};
  }

  lemma OneMoreLock(locks: map<NodeId, string>, owner: string, groups: seq<NodeId>, i: nat)
    requires i < |groups| && forall j | 0 <= j < i :: groups[j] in locks
    ensures
      var now := WithLocks(locks, SetOf(groups[..i]), owner);
      (groups[i] in now <==> groups[i] in locks) && now[groups[i] := owner] == WithLocks(locks, SetOf(groups[..i + 1]), owner)
  {
    hide WithLocks;
    WithLocksMeaning(locks, SetOf(groups[..i]), owner);
    AddLock(locks, SetOf(groups[..i]), owner, groups[i]);
    assert SetOf(groups[..i + 1]) == SetOf(groups[..i]) + {groups[i]};
  }

  lemma MoreGroups(configs: seq<EndpointConfig>, n: nat)
    requires n < |configs|
    ensures AllGroups(configs[..n + 1]) == AllGroups(configs[..n]) + SetOf(GroupsOf(configs[n]))
  {
    GroupsOfLast(configs[..n + 1]);
    assert configs[..n + 1][..n] == configs[..n];
  }

  lemma StatusesAtFailure(groups: seq<NodeId>, fails: NodeId -> bool, bad: Status, i: nat, statuses: seq<Status>)
    requires i < |groups| && (forall j | 0 <= j < i :: !fails(groups[j])) && fails(groups[i])
    requires statuses == seq(i, _ => Good) + [bad] + seq(|groups| - i - 1, _ => BadNothingToDo)
    ensures FirstFailing(groups, fails) == i && GroupStatuses(groups, fails, bad) == statuses
  {
    FirstIsFirst(groups, fails, i);
  }

  lemma StatusesAllGood(groups: seq<NodeId>, fails: NodeId -> bool, bad: Status, statuses: seq<Status>)
    requires (forall j | 0 <= j < |groups| :: !fails(groups[j])) && statuses == seq(|groups|, _ => Good)
    ensures FirstFailing(groups, fails) == |groups| && GroupStatuses(groups, fails, bad) == statuses
  {
    FirstIsFirst(groups, fails, |groups|);
  }
}
