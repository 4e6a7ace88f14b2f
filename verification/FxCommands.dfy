/** The nine commands of EstablishConnections and the closing of endpoints, as functions on the state.

  The address-space verifier and the allocator of communication ids are parameters.  Connections appear
  already converted, as settings under a connection id.
  */
module FxCommands {
  import opened KeyedList
  import opened NodeIds
  import opened Wrappers

  datatype Status =
    | Good | Uncertain | BadNotSupported | BadLocked | BadRequiresLock | BadNothingToDo | BadNotFound
    | BadInvalidArgument | BadResourceUnavailable | OtherBad(code: nat)

  predicate IsBad(s: Status) {
    !s.Good? && !s.Uncertain?
  }

  /** `id` is the node of the connection endpoint, `complete` says that the definition names one. */
  datatype EndpointConfig = EndpointConfig(id: NodeId, complete: bool, controlGroups: Option<seq<NodeId>>,
                                           data: Option<seq<Keyed<NodeId, string>>>, expectsVerification: bool)

  datatype Endpoint = Endpoint(config: EndpointConfig, data: seq<Keyed<NodeId, string>>, enabled: bool,
                               connectionIds: seq<string>)

  datatype AssetRequest = AssetRequest(asset: string, expectMatch: bool)
  datatype AssetResult = AssetResult(status: Status, matched: bool)
  datatype ReserveRequest = ReserveRequest(writerGroups: nat, writers: nat)
  datatype ReserveResult = ReserveResult(status: Status, writerGroups: seq<nat>, writers: seq<nat>)
  datatype CommConfig = CommConfig(connections: Option<seq<Keyed<string, string>>>, requireCompleteUpdate: bool)

  datatype EndpointResult = EndpointResult(id: NodeId, entity: Status, endpoint: Status, establish: Option<seq<Status>>,
                                           configuration: Option<seq<Status>>, reassign: Option<seq<Status>>)

  datatype Results = Results(assets: seq<AssetResult>, endpoints: seq<EndpointResult>, reserves: seq<ReserveResult>,
                             communication: seq<Status>)

  const NO_RESULTS := Results([], [], [], [])

  datatype Verifier = Verifier(asset: AssetRequest -> AssetResult, entity: EndpointConfig -> Status)

  /** What the allocator hands out depends on the connections and on the requests it has seen. */
  datatype Environment = Environment(
    verifier: Option<Verifier>,
    reserve: (seq<Keyed<string, string>>, seq<ReserveRequest>, ReserveRequest) -> (seq<nat>, seq<nat>),
    render: NodeId -> string)

  datatype State = State(connections: seq<Keyed<string, string>>, locks: map<NodeId, string>, context: string,
                         reservations: seq<ReserveRequest>, endpoints: seq<Keyed<NodeId, Endpoint>>)

  datatype Bundle = Bundle(mask: set<Command>, assets: seq<AssetRequest>, configs: seq<EndpointConfig>,
                           reserves: seq<ReserveRequest>, comms: seq<CommConfig>)

  datatype Command =
    | VerifyAsset | VerifyFunctionalEntity | CreateConnectionEndpoint | EstablishControl | SetConfigurationData
    | ReassignControl | ReserveCommunicationIds | SetCommunicationConfiguration | EnableCommunication

  const COMMANDS: seq<Command> :=
    [VerifyAsset, VerifyFunctionalEntity, CreateConnectionEndpoint, EstablishControl, SetConfigurationData,
     ReassignControl, ReserveCommunicationIds, SetCommunicationConfiguration, EnableCommunication]

  datatype Effect = Effect(state: State, results: Results, error: Option<Status>)

  // ---- Loops that stop at the first error ------------------------------------------------------

  function Each<T>(step: (State, Results, T) -> Effect, s: State, r: Results, items: seq<T>): Effect
    decreases |items|
  {
    if items == [] then Effect(s, r, None)
    else
      var e := Each(step, s, r, items[..|items| - 1]);
      if e.error.Some? then e else step(e.state, e.results, items[|items| - 1])
  }

  lemma {:induction false} StopsEarly<T>(step: (State, Results, T) -> Effect, s: State, r: Results, items: seq<T>,
      i: nat)
    requires i <= |items| && Each(step, s, r, items[..i]).error.Some?
    ensures Each(step, s, r, items) == Each(step, s, r, items[..i])
    decreases |items|
  {
    if i < |items| {
      var n := |items| - 1;
      assert items[..n][..i] == items[..i];
      StopsEarly(step, s, r, items[..n], i);
    } else {
      assert items[..i] == items;
    }
  }

  /** One more item of a loop that has gone well so far. */
  lemma OneMore<T>(step: (State, Results, T) -> Effect, s: State, r: Results, items: seq<T>, i: nat, here: Effect,
      next: Effect)
    requires i < |items| && Each(step, s, r, items[..i]) == here && here.error.None?
    requires next == step(here.state, here.results, items[i])
    ensures Each(step, s, r, items[..i + 1]) == next
    ensures next.error.Some? ==> Each(step, s, r, items) == next
  {
    assert items[..i + 1][..i] == items[..i];
    if next.error.Some? {
      StopsEarly(step, s, r, items, i + 1);
    }
  }

  /** The same items with nothing stopping at errors. */
  function EachAlways<T>(step: (State, Results, T) -> Effect, s: State, r: Results, items: seq<T>): Effect
    decreases |items|
  {
    if items == [] then Effect(s, r, None)
    else
      var e := EachAlways(step, s, r, items[..|items| - 1]);
      step(e.state, e.results, items[|items| - 1])
  }

  /** Exactly a prefix takes effect: up to the first item that fails, or all of them. */
  lemma {:induction false} PrefixTakesEffect<T>(step: (State, Results, T) -> Effect, s: State, r: Results,
      items: seq<T>) returns (k: nat)
    ensures k <= |items| && Each(step, s, r, items) == EachAlways(step, s, r, items[..k])
    ensures forall i: nat | i < k :: EachAlways(step, s, r, items[..i]).error.None?
    ensures k < |items| ==> EachAlways(step, s, r, items[..k]).error.Some?
    decreases |items|
  {
    if items == [] {
      k := 0;
    } else {
      var n := |items| - 1;
      k := PrefixTakesEffect(step, s, r, items[..n]);
      forall i: nat | i <= n
        ensures items[..n][..i] == items[..i]
      {
      }
      if Each(step, s, r, items[..n]).error.None? {
        assert k == n;
        k := n + 1;
        assert items[..k] == items;
      }
    }
  }

  // ---- Endpoint results ------------------------------------------------------------------------

  function ResultFor(id: NodeId): EndpointResult {
    EndpointResult(id, Good, Good, None, None, None)
  }

  function AddEndpointResult(r: Results, e: EndpointResult): Results {
    r.(endpoints := r.endpoints + [e])
  }

  // ---- Verification ----------------------------------------------------------------------------

  function AbortStatus(request: AssetRequest, result: AssetResult): Option<Status> {
    if IsBad(result.status) then Some(result.status)
    else if request.expectMatch && !result.matched then Some(Uncertain)
    else None
  }

  function AssetStep(v: Verifier): (State, Results, AssetRequest) -> Effect {
    (s: State, r: Results, q: AssetRequest) =>
      Effect(s, r.(assets := r.assets + [v.asset(q)]), AbortStatus(q, v.asset(q)))
  }

  function VerifyAssets(env: Environment, s: State, r: Results, requests: seq<AssetRequest>): Effect {
    match env.verifier
    case None =>
      Effect(s, r.(assets := r.assets + seq(|requests|, _ => AssetResult(BadNotSupported, false))), Some(BadNotSupported))
    case Some(v) => Each(AssetStep(v), s, r, requests)
  }

  function GroupsOf(c: EndpointConfig): seq<NodeId> {
    if c.controlGroups.Some? then c.controlGroups.value else []
  }

  /** What stands in the way of an operation that needs its control groups locked by the caller. */
  function LockProblem(locks: map<NodeId, string>, owner: string, groups: seq<NodeId>): Option<Status>
    decreases |groups|
  {
    if groups == [] then None
    else if groups[0] !in locks then Some(BadRequiresLock)
    else if locks[groups[0]] != owner then Some(BadLocked)
    else LockProblem(locks, owner, groups[1..])
  }

  function EntityStep(v: Verifier): (State, Results, EndpointConfig) -> Effect {
    (s: State, r: Results, c: EndpointConfig) =>
      if !c.expectsVerification then Effect(s, r, None)
      else
        var problem := LockProblem(s.locks, s.context, GroupsOf(c));
        var status := if problem.Some? then problem.value else v.entity(c);
        Effect(s, AddEndpointResult(r, ResultFor(c.id).(entity := status)),
               if problem.Some? || IsBad(status) then Some(status) else None)
  }

  function UnsupportedStep(): (State, Results, EndpointConfig) -> Effect {
    (s: State, r: Results, c: EndpointConfig) =>
      if c.expectsVerification then Effect(s, AddEndpointResult(r, ResultFor(c.id).(entity := BadNotSupported)), None)
      else Effect(s, r, None)
  }

  function VerifyEntities(env: Environment, s: State, r: Results, configs: seq<EndpointConfig>): Effect {
    match env.verifier
    case None => Each(UnsupportedStep(), s, r, configs).(error := Some(BadNotSupported))
    case Some(v) => Each(EntityStep(v), s, r, configs)
  }

  // ---- Endpoints -------------------------------------------------------------------------------

  /** An endpoint that exists keeps all but its configuration; a new one starts out empty. */
  function Created(endpoints: seq<Keyed<NodeId, Endpoint>>, c: EndpointConfig): seq<Keyed<NodeId, Endpoint>> {
    var i := IndexOf(endpoints, c.id);
    Put(endpoints, c.id,
        if i < |endpoints| then endpoints[i].value.(config := c) else Endpoint(c, [], false, []))
  }

  function CreateStep(): (State, Results, EndpointConfig) -> Effect {
    (s: State, r: Results, c: EndpointConfig) =>
      if !c.complete then
        Effect(s, AddEndpointResult(r, ResultFor(c.id).(endpoint := BadInvalidArgument)), Some(BadInvalidArgument))
      else Effect(s.(endpoints := Created(s.endpoints, c)), AddEndpointResult(r, ResultFor(c.id)), None)
  }

  function AllData(c: EndpointConfig, status: Status): Option<seq<Status>> {
    if c.data.Some? then Some(seq(|c.data.value|, _ => status)) else None
  }

  function ConfigureStep(): (State, Results, EndpointConfig) -> Effect {
    (s: State, r: Results, c: EndpointConfig) =>
      var i := IndexOf(s.endpoints, c.id);
      if i == |s.endpoints| then
        Effect(s, AddEndpointResult(r, ResultFor(c.id).(configuration := AllData(c, BadNotFound))), Some(BadNotFound))
      else
        Effect(s.(endpoints := Put(s.endpoints, c.id, Configured(s.endpoints[i].value, c))),
               AddEndpointResult(r, ResultFor(c.id).(configuration := AllData(c, Good))), None)
  }

  function Configured(e: Endpoint, c: EndpointConfig): Endpoint {
    e.(data := PutAll(e.data, if c.data.Some? then c.data.value else []))
  }

  const NULL_ID := NodeId(0, "0")

  function EnableStep(): (State, Results, EndpointConfig) -> Effect {
    (s: State, r: Results, c: EndpointConfig) =>
      var i := IndexOf(s.endpoints, c.id);
      Effect(if i == |s.endpoints| then s else s.(endpoints := Put(s.endpoints, c.id, s.endpoints[i].value.(enabled := true))),
             AddEndpointResult(r, ResultFor(c.id)), None)
  }

  function AllEnabled(endpoints: seq<Keyed<NodeId, Endpoint>>): seq<Keyed<NodeId, Endpoint>> {
    seq(|endpoints|, i requires 0 <= i < |endpoints| => endpoints[i].(value := endpoints[i].value.(enabled := true)))
  }

  function Enable(s: State, r: Results, configs: seq<EndpointConfig>): Effect {
    if configs == [] then
      Effect(s.(endpoints := AllEnabled(s.endpoints)), AddEndpointResult(r, ResultFor(NULL_ID)), None)
    else Each(EnableStep(), s, r, configs)
  }

  // ---- Control -----------------------------------------------------------------------------------

  function FirstFailing(groups: seq<NodeId>, fails: NodeId -> bool): (k: nat)
    ensures k <= |groups| && (k < |groups| ==> fails(groups[k]))
    ensures forall i | 0 <= i < k :: !fails(groups[i])
    decreases |groups|
  {
    if groups == [] then 0 else if fails(groups[0]) then 0 else 1 + FirstFailing(groups[1..], fails)
  }

  /** Good up to the first group that fails; nothing is done for those after it. */
  function GroupStatuses(groups: seq<NodeId>, fails: NodeId -> bool, bad: Status): seq<Status> {
    var k := FirstFailing(groups, fails);
    seq(|groups|, i => if i < k then Good else if i == k then bad else BadNothingToDo)
  }

  /** Held by somebody other than `owner`. */
  predicate Blocked(locks: map<NodeId, string>, owner: string, g: NodeId) {
    g in locks && locks[g] != owner
  }

  function BlockedBy(locks: map<NodeId, string>, owner: string): NodeId -> bool {
    (g: NodeId) => Blocked(locks, owner, g)
  }

  function NotHeld(locks: map<NodeId, string>): NodeId -> bool {
    (g: NodeId) => g !in locks
  }

  function ClaimStep(locks: map<NodeId, string>, owner: string): (State, Results, EndpointConfig) -> Effect {
    (s: State, r: Results, c: EndpointConfig) =>
      var groups := GroupsOf(c);
      if groups == [] then Effect(s, r, None)
      else
        var fails := BlockedBy(locks, owner);
        Effect(s, AddEndpointResult(r, ResultFor(c.id).(establish := Some(GroupStatuses(groups, fails, BadLocked)))),
               if FirstFailing(groups, fails) < |groups| then Some(BadLocked) else None)
  }

  function AllGroups(configs: seq<EndpointConfig>): set<NodeId> {
    set c, g | c in configs && g in GroupsOf(c) :: g
  }

  function SetOf(groups: seq<NodeId>): set<NodeId> {
    set g | g in groups
  }

  function WithLocks(locks: map<NodeId, string>, groups: set<NodeId>, owner: string): map<NodeId, string> {
    locks + Owned(groups, owner)
  }

  function Owned(groups: set<NodeId>, owner: string): map<NodeId, string> {
    map g | g in groups :: owner
  }

  /** All the groups or none: what is blocked is settled by the locks there were at the start. */
  function Establish(s: State, r: Results, configs: seq<EndpointConfig>): Effect {
    var e := Each(ClaimStep(s.locks, s.context), s, r, configs);
    if e.error.Some? then e else e.(state := s.(locks := WithLocks(s.locks, AllGroups(configs), s.context)))
  }

  /** The groups of one endpoint, handed to it one by one up to the first that nobody holds. */
  function ReassignStep(env: Environment): (State, Results, EndpointConfig) -> Effect {
    (s: State, r: Results, c: EndpointConfig) =>
      var groups := GroupsOf(c);
      if groups == [] then Effect(s, r, None)
      else
        var fails := NotHeld(s.locks);
        var k := FirstFailing(groups, fails);
        Effect(s.(locks := WithLocks(s.locks, SetOf(groups[..k]), env.render(c.id))),
               AddEndpointResult(r, ResultFor(c.id).(reassign := Some(GroupStatuses(groups, fails, BadRequiresLock)))),
               if k < |groups| then Some(BadRequiresLock) else None)
  }

  // ---- Communication -----------------------------------------------------------------------------

  function ReserveStep(env: Environment): (State, Results, ReserveRequest) -> Effect {
    (s: State, r: Results, q: ReserveRequest) =>
      var ids := env.reserve(s.connections, s.reservations, q);
      var status := if |ids.0| == q.writerGroups && |ids.1| == q.writers then Good else BadResourceUnavailable;
      Effect(s.(reservations := s.reservations + [q]), r.(reserves := r.reserves + [ReserveResult(status, ids.0, ids.1)]),
             if status.Good? then None else Some(status))
  }

  function CommunicateStep(): (State, Results, CommConfig) -> Effect {
    (s: State, r: Results, c: CommConfig) =>
      if c.connections.None? || c.connections.value == [] then
        Effect(s, r.(communication := r.communication + [BadInvalidArgument]), Some(BadInvalidArgument))
      else
        Effect(s.(connections := PutAll(if c.requireCompleteUpdate then [] else s.connections, c.connections.value)),
               r.(communication := r.communication + [Good]), None)
  }

  // ---- Dispatch ----------------------------------------------------------------------------------

  function Perform(env: Environment, b: Bundle, s: State, r: Results, command: Command): Effect {
    match command
    case VerifyAsset => VerifyAssets(env, s, r, b.assets)
    case VerifyFunctionalEntity => VerifyEntities(env, s, r, b.configs)
    case CreateConnectionEndpoint => Each(CreateStep(), s, r, b.configs)
    case EstablishControl => Establish(s, r, b.configs)
    case SetConfigurationData => Each(ConfigureStep(), s, r, b.configs)
    case ReassignControl => Each(ReassignStep(env), s, r, b.configs)
    case ReserveCommunicationIds => Each(ReserveStep(env), s, r, b.reserves)
    case SetCommunicationConfiguration => Each(CommunicateStep(), s, r, b.comms)
    case EnableCommunication => Enable(s, r, b.configs)
  }

  function PerformStep(env: Environment, b: Bundle): (State, Results, Command) -> Effect {
    (s: State, r: Results, c: Command) => Perform(env, b, s, r, c)
  }

  /** The requested commands, in the order of the specification. */
  function Requested(commands: seq<Command>, mask: set<Command>): seq<Command>
    decreases |commands|
  {
    if commands == [] then []
    else
      var n := |commands| - 1;
      Requested(commands[..n], mask) + if commands[n] in mask then [commands[n]] else []
  }

  function Dispatch(env: Environment, b: Bundle, s: State): Effect {
    Each(PerformStep(env, b), s, NO_RESULTS, Requested(COMMANDS, b.mask))
  }

  // ---- Closing -----------------------------------------------------------------------------------

  function WithoutIndex<T>(list: seq<T>, i: nat): seq<T>
    requires i < |list|
  {
    list[..i] + list[i + 1..]
  }

  function Unlisted(connections: seq<Keyed<string, string>>, ids: seq<string>): seq<Keyed<string, string>>
    decreases |connections|
  {
    if connections == [] then []
    else
      var n := |connections| - 1;
      Unlisted(connections[..n], ids) + if connections[n].key in ids then [] else [connections[n]]
  }

  function Close(s: State, id: NodeId, remove: bool): (State, Status) {
    var i := IndexOf(s.endpoints, id);
    if i == |s.endpoints| then (s, BadNotFound)
    else if remove then
      (s.(endpoints := WithoutIndex(s.endpoints, i), connections := Unlisted(s.connections, s.endpoints[i].value.connectionIds)), Good)
    else (s.(endpoints := Put(s.endpoints, id, s.endpoints[i].value.(enabled := false))), Good)
  }

  // ---- Control, all or nothing -------------------------------------------------------------------

  lemma {:induction false} ClaimsMeaning(locks: map<NodeId, string>, owner: string, s: State, r: Results,
      configs: seq<EndpointConfig>)
    ensures
      var e := Each(ClaimStep(locks, owner), s, r, configs);
      && e.state == s && (e.error.Some? ==> e.error == Some(BadLocked))
      && (e.error.None? <==> forall g | g in AllGroups(configs) :: !Blocked(locks, owner, g))
    decreases |configs|
  {
    if configs != [] {
      var n := |configs| - 1;
      ClaimsMeaning(locks, owner, s, r, configs[..n]);
      var groups := GroupsOf(configs[n]);
      GroupsOfLast(configs);
      var k := FirstFailing(groups, BlockedBy(locks, owner));
      assert k == |groups| ==> forall g | g in groups :: !Blocked(locks, owner, g);
      assert k < |groups| ==> groups[k] in groups;
    }
  }

  lemma GroupsOfLast(configs: seq<EndpointConfig>)
    requires configs != []
    ensures AllGroups(configs) == AllGroups(configs[..|configs| - 1]) + SetOf(GroupsOf(configs[|configs| - 1]))
  {
    var n := |configs| - 1;
    assert configs == configs[..n] + [configs[n]];
  }

  /** Control is established exactly when no group asked for is held by another client.  Then all of
    them, and no others, come to be held by the caller; otherwise no lock has changed. */
  lemma EstablishIsAllOrNothing(s: State, r: Results, configs: seq<EndpointConfig>)
    ensures
      var e := Establish(s, r, configs);
      && (e.error.None? <==> forall g | g in AllGroups(configs) :: !Blocked(s.locks, s.context, g))
      && (e.error.Some? ==> e.state == s)
      && (e.error.None? ==>
            && e.state == s.(locks := e.state.locks)
            && e.state.locks.Keys == s.locks.Keys + AllGroups(configs)
            && forall g | g in e.state.locks :: e.state.locks[g] == if g in AllGroups(configs) then s.context else s.locks[g])
  {
    ClaimsMeaning(s.locks, s.context, s, r, configs);
  }

  /** No lock another client held is ever taken away by establishing control. */
  lemma OthersKeepTheirLocks(s: State, r: Results, configs: seq<EndpointConfig>, g: NodeId)
    requires Blocked(s.locks, s.context, g)
    ensures g in Establish(s, r, configs).state.locks && Establish(s, r, configs).state.locks[g] == s.locks[g]
  {
    hide Establish, Each;
    EstablishIsAllOrNothing(s, r, configs);
  }

  /** Reassigning succeeds exactly when every group is held by somebody; it never adds or drops a lock. */
  lemma {:induction false} ReassignMeaning(env: Environment, s: State, r: Results, configs: seq<EndpointConfig>)
    ensures
      var e := Each(ReassignStep(env), s, r, configs);
      && e.state.locks.Keys == s.locks.Keys && e.state == s.(locks := e.state.locks)
      && (e.error.Some? ==> e.error == Some(BadRequiresLock))
      && (e.error.None? <==> AllGroups(configs) <= s.locks.Keys)
    decreases |configs|
  {
    if configs != [] {
      var n := |configs| - 1;
      ReassignMeaning(env, s, r, configs[..n]);
      GroupsOfLast(configs);
      var e := Each(ReassignStep(env), s, r, configs[..n]);
      if e.error.None? {
        HandedOver(env, e.state, e.results, configs[n]);
      }
    }
  }

  lemma HandedOver(env: Environment, s: State, r: Results, c: EndpointConfig)
    ensures
      var e := ReassignStep(env)(s, r, c);
      && e.state.locks.Keys == s.locks.Keys && e.state == s.(locks := e.state.locks)
      && (e.error.Some? ==> e.error == Some(BadRequiresLock))
      && (e.error.None? <==> SetOf(GroupsOf(c)) <= s.locks.Keys)
      && (e.error.None? ==> forall g | g in s.locks :: e.state.locks[g] == if g in GroupsOf(c) then env.render(c.id) else s.locks[g])
  {
    var groups := GroupsOf(c);
    var k := FirstFailing(groups, NotHeld(s.locks));
    assert groups[..|groups|] == groups;
    assert k < |groups| ==> groups[k] in groups;
    forall g | g in groups[..k]
      ensures g in s.locks
    {
      var i :| 0 <= i < k && groups[i] == g;
    }
    WithLocksMeaning(s.locks, SetOf(groups[..k]), env.render(c.id));
    assert s.locks.Keys + SetOf(groups[..k]) == s.locks.Keys;
  }

  lemma WithLocksMeaning(locks: map<NodeId, string>, groups: set<NodeId>, owner: string)
    ensures WithLocks(locks, groups, owner).Keys == locks.Keys + groups
    ensures forall g | g in locks.Keys + groups ::
      WithLocks(locks, groups, owner)[g] == if g in groups then owner else locks[g]
  {
  }

  /** After a successful reassignment the last endpoint to list a group holds it. */
  lemma {:induction false} LastEndpointHolds(env: Environment, s: State, r: Results, configs: seq<EndpointConfig>,
      i: nat, g: NodeId)
    requires Each(ReassignStep(env), s, r, configs).error.None?
    requires i < |configs| && g in GroupsOf(configs[i]) && forall j | i < j < |configs| :: g !in GroupsOf(configs[j])
    ensures
      var locks := Each(ReassignStep(env), s, r, configs).state.locks;
      g in locks && locks[g] == env.render(configs[i].id)
    decreases |configs|
  {
    hide ReassignStep;
    var n := |configs| - 1;
    var e := Each(ReassignStep(env), s, r, configs[..n]);
    ReassignMeaning(env, s, r, configs[..n]);
    ReassignMeaning(env, s, r, configs);
    HandedOver(env, e.state, e.results, configs[n]);
    assert configs[i] in configs;
    assert g in AllGroups(configs);
    if i < n {
      LastEndpointHolds(env, s, r, configs[..n], i, g);
    }
  }

  lemma FirstIsFirst(groups: seq<NodeId>, fails: NodeId -> bool, i: nat)
    requires i <= |groups| && (forall j | 0 <= j < i :: !fails(groups[j])) && (i < |groups| ==> fails(groups[i]))
    ensures FirstFailing(groups, fails) == i
  {
  }

  // ---- Reassigning, group by group ---------------------------------------------------------------

  /** Who is to get which group, in the order in which groups are handed over. */
  function Offers(env: Environment, configs: seq<EndpointConfig>): seq<Keyed<NodeId, string>>
    decreases |configs|
  {
    if configs == [] then []
    else
      var n := |configs| - 1;
      Offers(env, configs[..n]) + OffersOf(GroupsOf(configs[n]), env.render(configs[n].id))
  }

  function OffersOf(groups: seq<NodeId>, owner: string): (r: seq<Keyed<NodeId, string>>)
    ensures |r| == |groups| && Keys(r) == groups
  {
    seq(|groups|, i requires 0 <= i < |groups| => Keyed(groups[i], owner))
  }

  /** The owners that reassigning writes: those offered before the first group that nobody holds, the last
    one for each group. */
  function Handed(env: Environment, locks: map<NodeId, string>, configs: seq<EndpointConfig>): map<NodeId, string> {
    var offers := Offers(env, configs);
    AsMap(offers[..FirstFailing(Keys(offers), NotHeld(locks))])
  }

  lemma {:induction false} OffersOfAsMap(groups: seq<NodeId>, owner: string)
    ensures AsMap(OffersOf(groups, owner)) == Owned(SetOf(groups), owner)
    decreases |groups|
  {
    if groups != [] {
      var n := |groups| - 1;
      OffersOfAsMap(groups[..n], owner);
      assert OffersOf(groups, owner)[..n] == OffersOf(groups[..n], owner);
      assert groups == groups[..n] + [groups[n]];
      assert SetOf(groups) == SetOf(groups[..n]) + {groups[n]};
    }
  }

  lemma FirstFailingOfBoth(a: seq<NodeId>, b: seq<NodeId>, fails: NodeId -> bool)
    ensures FirstFailing(a + b, fails)
      == if FirstFailing(a, fails) < |a| then FirstFailing(a, fails) else |a| + FirstFailing(b, fails)
  {
    hide FirstFailing;
    var i, j := FirstFailing(a, fails), FirstFailing(b, fails);
    FirstIsFirst(a + b, fails, if i < |a| then i else |a| + j);
  }

  lemma KeysOfBoth(a: seq<Keyed<NodeId, string>>, b: seq<Keyed<NodeId, string>>)
    ensures Keys(a + b) == Keys(a) + Keys(b)
  {
  }

  /** Locks with the same keys let the same groups pass. */
  lemma SameKeysSameFirst(groups: seq<NodeId>, locks: map<NodeId, string>, after: map<NodeId, string>)
    requires locks.Keys == after.Keys
    ensures FirstFailing(groups, NotHeld(locks)) == FirstFailing(groups, NotHeld(after))
  {
    FirstIsFirst(groups, NotHeld(locks), FirstFailing(groups, NotHeld(after)));
  }

  /** One endpoint more: nothing after a failure, otherwise its groups up to the first that nobody holds. */
  lemma HandedMore(env: Environment, locks: map<NodeId, string>, configs: seq<EndpointConfig>)
    requires configs != []
    ensures
      var n := |configs| - 1;
      var groups, before := GroupsOf(configs[n]), Offers(env, configs[..n]);
      var k := FirstFailing(groups, NotHeld(locks));
      Handed(env, locks, configs) ==
        if FirstFailing(Keys(before), NotHeld(locks)) < |before| then Handed(env, locks, configs[..n])
        else Handed(env, locks, configs[..n]) + Owned(SetOf(groups[..k]), env.render(configs[n].id))
  {
    hide FirstFailing, AsMap, SetOf, Owned;
    var n := |configs| - 1;
    var groups, owner, before := GroupsOf(configs[n]), env.render(configs[n].id), Offers(env, configs[..n]);
    var here := OffersOf(groups, owner);
    var i, k := FirstFailing(Keys(before), NotHeld(locks)), FirstFailing(groups, NotHeld(locks));
    KeysOfBoth(before, here);
    FirstFailingOfBoth(Keys(before), groups, NotHeld(locks));
    if i < |before| {
      assert (before + here)[..i] == before[..i];
    } else {
      assert (before + here)[..i + k] == before + here[..k] && before[..i] == before;
      assert here[..k] == OffersOf(groups[..k], owner);
      AsMapOfBoth(before, here[..k]);
      OffersOfAsMap(groups[..k], owner);
    }
  }

  /** Reassigning writes exactly the owners handed out, whether or not it comes to a group nobody holds;
    it fails exactly when it does. */
  lemma {:induction false} ReassignWrites(env: Environment, s: State, r: Results, configs: seq<EndpointConfig>)
    ensures
      var e, offers := Each(ReassignStep(env), s, r, configs), Offers(env, configs);
      && e.state.locks == s.locks + Handed(env, s.locks, configs)
      && (e.error.None? <==> FirstFailing(Keys(offers), NotHeld(s.locks)) == |offers|)
    decreases |configs|
  {
    hide FirstFailing, Handed, ReassignStep, SetOf, Keys;
    if configs == [] {
      NothingHanded(env, s.locks);
    } else {
      var n := |configs| - 1;
      var e, before := Each(ReassignStep(env), s, r, configs[..n]), Offers(env, configs[..n]);
      var groups, owner := GroupsOf(configs[n]), env.render(configs[n].id);
      var k := FirstFailing(groups, NotHeld(s.locks));
      ReassignWrites(env, s, r, configs[..n]);
      HandedMore(env, s.locks, configs);
      KeysOfBoth(before, OffersOf(groups, owner));
      FirstFailingOfBoth(Keys(before), groups, NotHeld(s.locks));
      ReassignMeaning(env, s, r, configs[..n]);
      StepWrites(env, e.state, e.results, configs[n]);
      SameKeysSameFirst(groups, s.locks, e.state.locks);
      MergeAssociates(s.locks, Handed(env, s.locks, configs[..n]), Owned(SetOf(groups[..k]), owner));
    }
  }

  lemma StepWrites(env: Environment, s: State, r: Results, c: EndpointConfig)
    ensures
      var e, groups := ReassignStep(env)(s, r, c), GroupsOf(c);
      var k := FirstFailing(groups, NotHeld(s.locks));
      && e.state.locks == WithLocks(s.locks, SetOf(groups[..k]), env.render(c.id))
      && (e.error.None? <==> k == |groups|)
  {
    hide GroupStatuses;
    assert SetOf([]) == {};
    assert Owned({}, env.render(c.id)) == map[];
  }

  lemma MergeAssociates(a: map<NodeId, string>, b: map<NodeId, string>, c: map<NodeId, string>)
    ensures (a + b) + c == a + (b + c)
  {
  }

  lemma NothingHanded(env: Environment, locks: map<NodeId, string>)
    ensures Handed(env, locks, []) == map[] && FirstFailing(Keys(Offers(env, [])), NotHeld(locks)) == |Offers(env, [])|
  {
  }

  /** What a reassignment leaves behind: the locks are as they were exactly when every group handed over
    was handed to the one who held it.  That goes for a failed reassignment too, which is not undone. */
  lemma ReassignLeavesLocksIff(env: Environment, s: State, r: Results, configs: seq<EndpointConfig>)
    ensures
      var e, handed := Each(ReassignStep(env), s, r, configs), Handed(env, s.locks, configs);
      && handed.Keys <= s.locks.Keys
      && (e.state.locks == s.locks <==> forall g | g in handed :: handed[g] == s.locks[g])
  {
    hide Each, Handed;
    var handed := Handed(env, s.locks, configs);
    ReassignWrites(env, s, r, configs);
    ReassignMeaning(env, s, r, configs);
    assert (s.locks + handed).Keys == s.locks.Keys + handed.Keys;
    if s.locks + handed == s.locks {
      assert forall g | g in handed :: (s.locks + handed)[g] == handed[g];
    }
  }

  /** Such an input: a held group followed by one that nobody holds changes hands, although
    reassigning fails. */
  lemma FailedReassignmentStays(env: Environment, held: NodeId, free: NodeId, id: NodeId)
    requires held != free && env.render(id) != "client"
    ensures
      var s := State([], map[held := "client"], "client", [], []);
      var c := EndpointConfig(id, true, Some([held, free]), None, false);
      var e := Each(ReassignStep(env), s, NO_RESULTS, [c]);
      e.error == Some(BadRequiresLock) && e.state.locks == map[held := env.render(id)] && e.state.locks != s.locks
  {
    var locks: map<NodeId, string> := map[held := "client"];
    var s := State([], locks, "client", [], []);
    var c := EndpointConfig(id, true, Some([held, free]), None, false);
    hide Each, ReassignStep;
    OneOffer(env, c);
    FirstIsFirst([held, free], NotHeld(locks), 1);
    hide FirstFailing;
    ReassignWrites(env, s, NO_RESULTS, [c]);
    ReassignMeaning(env, s, NO_RESULTS, [c]);
    var offers := OffersOf([held, free], env.render(id));
    assert offers[..1] == OffersOf([held], env.render(id));
    OffersOfAsMap([held], env.render(id));
    assert SetOf([held]) == {held};
    assert Handed(env, locks, [c]) == map[held := env.render(id)];
    assert locks[held] != env.render(id);
  }

  lemma OneOffer(env: Environment, c: EndpointConfig)
    ensures Offers(env, [c]) == OffersOf(GroupsOf(c), env.render(c.id))
  {
    assert [c][..0] == [];
    assert Offers(env, []) == [];
  }

  lemma OnlyStep<T>(step: (State, Results, T) -> Effect, s: State, r: Results, item: T)
    ensures Each(step, s, r, [item]) == step(s, r, item)
  {
    assert [item][..0] == [];
  }

  // ---- What each command may change --------------------------------------------------------------

  /** Locks change hands only in the two control commands, endpoints and connections only in theirs. */
  predicate Framed(command: Command, s: State, t: State) {
    && t.context == s.context
    && (!command.EstablishControl? && !command.ReassignControl? ==> t.locks == s.locks)
    && (!command.CreateConnectionEndpoint? && !command.SetConfigurationData? && !command.EnableCommunication? ==> t.endpoints == s.endpoints)
    && (!command.SetCommunicationConfiguration? ==> t.connections == s.connections)
    && (!command.ReserveCommunicationIds? ==> t.reservations == s.reservations)
  }

  lemma {:induction false} EachIsFramed<T>(command: Command, step: (State, Results, T) -> Effect, s: State,
      r: Results, items: seq<T>)
    requires forall t, q, i :: Framed(command, t, step(t, q, i).state)
    ensures Framed(command, s, Each(step, s, r, items).state)
    decreases |items|
  {
    if items != [] {
      EachIsFramed(command, step, s, r, items[..|items| - 1]);
      var e := Each(step, s, r, items[..|items| - 1]);
      assert Framed(command, e.state, step(e.state, e.results, items[|items| - 1]).state);
    }
  }
}
