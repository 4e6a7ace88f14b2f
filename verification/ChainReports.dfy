/** What validation reports: the findings of an accepted certificate, counted, and the status of one that is
  refused.
  */
module ChainReports {
  import opened Certificates
  import opened ChainBuilder
  import opened ChainMeaning
  import opened ChainStages
  import opened ChainSoundness
  import opened ChainSuppression
  import opened Wrappers

  // ---- Counting findings ---------------------------------------------------------------------

  /** How often a list of events holds a finding. */
  function Tally(events: seq<Event>, f: Finding): nat {
    multiset(events)[Soft(f)]
  }

  lemma TallyOfBoth(a: seq<Event>, b: seq<Event>, f: Finding)
    ensures Tally(a + b, f) == Tally(a, f) + Tally(b, f)
  {
  }

  lemma TallyOfOne(e: Event, f: Finding)
    ensures Tally([e], f) == (if e == Soft(f) then 1 else 0) && Tally([], f) == 0
  {
  }

  lemma {:induction false} FindingsAreTallied(events: seq<Event>, f: Finding)
    requires NoneIsHard(events)
    ensures multiset(Findings(events))[f] == Tally(events, f)
    decreases |events|
  {
    hide Tally;
    if events == [] {
      TallyOfOne(Soft(f), f);
    } else {
      assert events[0] in events && events == [events[0]] + events[1..];
      FindingsAreTallied(events[1..], f);
      TallyOfBoth([events[0]], events[1..], f);
      TallyOfOne(events[0], f);
      assert multiset([events[0].finding] + Findings(events[1..])) == multiset{events[0].finding} + multiset(Findings(events[1..]));
    }
  }

  /** A stage that holds the finding, once, at the entries of a set. */
  lemma {:induction false} TallyUpTo(stage: nat -> seq<Event>, n: nat, f: Finding, at: set<nat>)
    requires forall i | i in at :: i < n
    requires forall i: nat | i < n :: Tally(stage(i), f) == if i in at then 1 else 0
    ensures Tally(UpTo(stage, n), f) == |at|
  {
    hide Tally;
    if n == 0 {
      assert at == {};
      TallyOfOne(Soft(f), f);
    } else {
      TallyUpTo(stage, n - 1, f, at - {n - 1});
      TallyOfBoth(UpTo(stage, n - 1), stage(n - 1), f);
      assert n - 1 in at ==> at == (at - {n - 1}) + {n - 1};
      assert n - 1 !in at ==> at - {n - 1} == at;
    }
  }

  // ---- The entries each finding is about -------------------------------------------------------

  const POLICY := Finding(SecurityPolicyStep, BadCertificatePolicyCheckFailed)
  const LEAF_TIME := Finding(ValidityStep, BadCertificateTimeInvalid)
  const ISSUER_TIME := Finding(ValidityStep, BadCertificateIssuerTimeInvalid)
  const LEAF_USE := Finding(CertificateUsageStep, BadCertificateUseNotAllowed)
  const ISSUER_USE := Finding(CertificateUsageStep, BadCertificateIssuerUseNotAllowed)
  const LEAF_UNKNOWN := Finding(FindRevocationListStep, BadCertificateRevocationUnknown)
  const ISSUER_UNKNOWN := Finding(FindRevocationListStep, BadCertificateIssuerRevocationUnknown)

  ghost function WeakAt(inp: Inputs, chain: seq<Certificate>): set<nat> {
    set i: nat | i < |chain| && Weak(inp.policy, chain[i])
  }

  ghost function OutsideAt(inp: Inputs, chain: seq<Certificate>): set<nat> {
    set i: nat | i < |chain| && !WithinDates(chain[i], inp.now)
  }

  ghost function NoCaAt(chain: seq<Certificate>): set<nat> {
    set i: nat | 0 < i < |chain| && !Ca(chain[i])
  }

  ghost function DeepAt(chain: seq<Certificate>): set<nat> {
    set i: nat | 0 < i < |chain| && TooDeep(chain, i)
  }

  ghost function NoSignerAt(chain: seq<Certificate>): set<nat> {
    set i: nat | 0 < i < |chain| && !MayCertify(chain[i])
  }

  /** Certificates on which the word is signed with an algorithm that is not allowed. */
  ghost predicate WeakWord(inp: Inputs, cert: Certificate, issuer: Certificate) {
    exists revoked, algorithm :: Word(inp, cert, issuer, revoked, algorithm) && !Allowed(inp.policy, algorithm)
  }

  ghost predicate WeakWordFor(inp: Inputs, chain: seq<Certificate>, i: nat) {
    i + 1 < |chain| && WeakWord(inp, chain[i], chain[i + 1])
  }

  ghost function WeakWordAt(inp: Inputs, chain: seq<Certificate>): set<nat> {
    set i: nat | i < |chain| && WeakWordFor(inp, chain, i)
  }

  ghost predicate NoWordFor(inp: Inputs, chain: seq<Certificate>, i: nat) {
    i + 1 < |chain| && NoWord(inp, chain[i], chain[i + 1])
  }

  ghost function UnknownAt(inp: Inputs, chain: seq<Certificate>): set<nat> {
    set i: nat | i < |chain| && NoWordFor(inp, chain, i)
  }

  function One(b: bool): nat {
    if b then 1 else 0
  }

  /** How often each finding is made about a chain. */
  ghost function Expected(inp: Inputs, mode: RevocationMode, chain: seq<Certificate>, f: Finding): nat
    requires chain != []
  {
    if f == POLICY then
      |WeakAt(inp, chain)| + One(ShortKey(inp.policy, chain[0])) + (if mode == Disabled then 0 else |WeakWordAt(inp, chain)|)
    else if f == LEAF_TIME then One(!WithinDates(chain[0], inp.now))
    else if f == ISSUER_TIME then |OutsideAt(inp, chain) - {0}|
    else if f == LEAF_USE then One(!MaySign(chain[0])) + One(!MayServe(chain[0], inp.purpose))
    else if f == ISSUER_USE then |NoCaAt(chain)| + |DeepAt(chain)| + |NoSignerAt(chain)|
    else if f == LEAF_UNKNOWN then One(mode == Required && 0 in UnknownAt(inp, chain))
    else if f == ISSUER_UNKNOWN then if mode == Required then |UnknownAt(inp, chain) - {0}| else 0
    else 0
  }

  lemma SignatureTally(inp: Inputs, chain: seq<Certificate>, f: Finding)
    ensures Tally(UpTo(SignatureStage(inp, chain), |chain|), f) == 0
  {
    var stage := SignatureStage(inp, chain);
    forall i: nat | i < |chain|
      ensures Tally(stage(i), f) == 0
    {
      TallyOfOne(Hard(BadCertificateInvalid), f);
    }
    TallyUpTo(stage, |chain|, f, {});
  }

  lemma PolicyTally(inp: Inputs, chain: seq<Certificate>, f: Finding)
    requires chain != []
    ensures Tally(PolicyEvents(inp, chain), f)
      == if f == POLICY then |WeakAt(inp, chain)| + One(ShortKey(inp.policy, chain[0])) else 0
  {
    hide Tally, UpTo;
    TallyOfOne(POLICY_FAILED, f);
    FieldsMeaning(inp, chain[0]);
    var stage := AlgorithmStage(inp, chain);
    forall i: nat | i < |chain|
      ensures Tally(stage(i), f) == if f == POLICY && i in WeakAt(inp, chain) then 1 else 0
    {
      FieldsMeaning(inp, chain[i]);
    }
    TallyUpTo(stage, |chain|, f, if f == POLICY then WeakAt(inp, chain) else {});
    TallyOfBoth(UpTo(stage, |chain|), LastPolicyEvents(inp, chain), f);
    if inp.policy.NoPolicy? {
      assert WeakAt(inp, chain) == {};
    }
  }

  lemma TrustTally(inp: Inputs, chain: seq<Certificate>, f: Finding)
    ensures Tally(TrustEvents(inp, chain), f) == 0
  {
    TallyOfOne(Hard(BadCertificateUntrusted), f);
  }

  lemma ValidityTally(inp: Inputs, chain: seq<Certificate>, f: Finding)
    requires chain != []
    ensures Tally(UpTo(ValidityStage(inp, chain), |chain|), f)
      == if f == LEAF_TIME then One(!WithinDates(chain[0], inp.now))
         else if f == ISSUER_TIME then |OutsideAt(inp, chain) - {0}| else 0
  {
    hide Tally, UpTo, WithinDates, ValidAt;
    var stage, outside := ValidityStage(inp, chain), OutsideAt(inp, chain);
    var at := if f == LEAF_TIME then outside * {0} else if f == ISSUER_TIME then outside - {0} else {};
    forall i: nat | i < |chain|
      ensures Tally(stage(i), f) == if i in at then 1 else 0
    {
      FieldsMeaning(inp, chain[i]);
      TallyOfOne(Soft(LEAF_TIME), f);
      TallyOfOne(Soft(ISSUER_TIME), f);
    }
    TallyUpTo(stage, |chain|, f, at);
    assert outside * {0} == if !WithinDates(chain[0], inp.now) then {0} else {};
  }

  lemma UsageFailedTally(failed: bool, status: Status, f: Finding)
    ensures Tally(UsageFailed(failed, status), f) == One(failed && f == Finding(CertificateUsageStep, status))
  {
    TallyOfOne(Soft(Finding(CertificateUsageStep, status)), f);
  }

  lemma LeafTally(inp: Inputs, c: Certificate, f: Finding)
    ensures Tally(LeafUsageEvents(inp, c), f)
      == if f == LEAF_USE then One(!MaySign(c)) + One(!MayServe(c, inp.purpose)) else 0
  {
    hide Tally, UsageFailed, MaySign, MayServe, KeyUsageAllows, PurposeAllowed;
    FieldsMeaning(inp, c);
    var a, b := UsageFailed(!KeyUsageAllows(c, DigitalSignature), BadCertificateUseNotAllowed),
                UsageFailed(!PurposeAllowed(c, inp.purpose), BadCertificateUseNotAllowed);
    TallyOfBoth(a, b, f);
    UsageFailedTally(!KeyUsageAllows(c, DigitalSignature), BadCertificateUseNotAllowed, f);
    UsageFailedTally(!PurposeAllowed(c, inp.purpose), BadCertificateUseNotAllowed, f);
  }

  lemma IssuerTally(inp: Inputs, chain: seq<Certificate>, i: nat, f: Finding)
    requires 0 < i < |chain|
    ensures Tally(IssuerUsageEvents(chain, i), f)
      == if f == ISSUER_USE then One(!Ca(chain[i])) + One(TooDeep(chain, i)) + One(!MayCertify(chain[i])) else 0
  {
    hide Tally, UsageFailed, MayCertify, KeyUsageAllows, PathLengthMet, TooDeep, Ca, IsCa;
    FieldsMeaning(inp, chain[i]);
    DepthMeaning(chain, i);
    var status := BadCertificateIssuerUseNotAllowed;
    var a, b, c := UsageFailed(!IsCa(chain[i]), status), UsageFailed(!PathLengthMet(chain, i), status),
                   UsageFailed(!KeyUsageAllows(chain[i], KeyCertSign), status);
    TallyOfBoth(a, b + c, f);
    TallyOfBoth(b, c, f);
    UsageFailedTally(!IsCa(chain[i]), status, f);
    UsageFailedTally(!PathLengthMet(chain, i), status, f);
    UsageFailedTally(!KeyUsageAllows(chain[i], KeyCertSign), status, f);
  }

  /** A stage that holds the finding once at its later entries for each of three sets they are in. */
  lemma {:induction false} TallyThrice(stage: nat -> seq<Event>, n: nat, f: Finding, first: nat, a: set<nat>, b: set<nat>, c: set<nat>)
    requires n > 0 && Between(a, n) && Between(b, n) && Between(c, n)
    requires Tally(stage(0), f) == first
    requires forall i: nat | 0 < i < n :: Tally(stage(i), f) == One(i in a) + One(i in b) + One(i in c)
    ensures Tally(UpTo(stage, n), f) == first + |a| + |b| + |c|
  {
    hide Tally, One, Between;
    var m := n - 1;
    TallyOfBoth(UpTo(stage, m), stage(m), f);
    if m == 0 {
      NoneBetween(a);
      NoneBetween(b);
      NoneBetween(c);
      assert UpTo(stage, 0) == [];
      TallyOfOne(Soft(f), f);
    } else {
      var a0 := Drop(a, m);
      var b0 := Drop(b, m);
      var c0 := Drop(c, m);
      TallyThrice(stage, m, f, first, a0, b0, c0);
    }
  }

  ghost predicate Between(s: set<nat>, n: nat) {
    forall i | i in s :: 0 < i < n
  }

  lemma NoneBetween(s: set<nat>)
    requires Between(s, 1)
    ensures s == {}
  {
  }

  lemma Drop(s: set<nat>, m: nat) returns (rest: set<nat>)
    requires Between(s, m + 1)
    ensures Between(rest, m) && |s| == |rest| + One(m in s)
    ensures forall i: nat | i < m :: i in rest <==> i in s
  {
    rest := s - {m};
    assert m in s ==> s == rest + {m};
    assert m !in s ==> rest == s;
  }

  lemma UsageTally(inp: Inputs, chain: seq<Certificate>, f: Finding)
    requires chain != []
    ensures Tally(UpTo(UsageStage(inp, chain), |chain|), f)
      == if f == LEAF_USE then One(!MaySign(chain[0])) + One(!MayServe(chain[0], inp.purpose))
         else if f == ISSUER_USE then |NoCaAt(chain)| + |DeepAt(chain)| + |NoSignerAt(chain)| else 0
  {
    hide Tally, UpTo, LeafUsageEvents, IssuerUsageEvents, MaySign, MayServe, Ca, TooDeep, MayCertify;
    var stage := UsageStage(inp, chain);
    LeafTally(inp, chain[0], f);
    var a, b, c := if f == ISSUER_USE then NoCaAt(chain) else {}, if f == ISSUER_USE then DeepAt(chain) else {},
                   if f == ISSUER_USE then NoSignerAt(chain) else {};
    forall i: nat | 0 < i < |chain|
      ensures Tally(stage(i), f) == One(i in a) + One(i in b) + One(i in c)
    {
      IssuerTally(inp, chain, i, f);
    }
    TallyThrice(stage, |chain|, f, if f == LEAF_USE then One(!MaySign(chain[0])) + One(!MayServe(chain[0], inp.purpose)) else 0, a, b, c);
  }

  lemma DataTally(policy: Policy, algorithm: Algorithm, revoked: bool, i: nat, f: Finding)
    ensures Tally(DataAlgorithmEvents(policy, algorithm) + RevokedEvents(revoked, i), f)
      == One(f == POLICY && !Allowed(policy, algorithm))
  {
    TallyOfBoth(DataAlgorithmEvents(policy, algorithm), RevokedEvents(revoked, i), f);
    TallyOfOne(POLICY_FAILED, f);
    TallyOfOne(Hard(RevokedStatus(i)), f);
  }

  /** There is one word on a certificate at most. */
  lemma OneWord(inp: Inputs, cert: Certificate, issuer: Certificate)
    ensures forall r, a, s, b | Word(inp, cert, issuer, r, a) && Word(inp, cert, issuer, s, b) :: r == s && a == b
  {
    hide Usable, Tells, ListFits;
    OcspMeaning(inp, cert, issuer);
    ListMeaning(inp, issuer);
    hide OcspAnswer, ValidCrl, SaysRevoked;
    forall j: nat, m: nat, k: nat, n: nat | OcspSays(inp, cert, issuer, j, m) && OcspSays(inp, cert, issuer, k, n)
      ensures j == k && m == n
    {
    }
    forall j: nat, k: nat | ListCounts(inp, issuer, j) && ListCounts(inp, issuer, k)
      ensures j == k
    {
    }
  }

  lemma PairTally(inp: Inputs, mode: RevocationMode, cert: Certificate, issuer: Certificate, i: nat, f: Finding)
    ensures Tally(PairEvents(inp, mode, cert, issuer, i), f)
      == if f == POLICY then One(WeakWord(inp, cert, issuer))
         else if f == (if i == 0 then LEAF_UNKNOWN else ISSUER_UNKNOWN) then One(mode != Lenient && NoWord(inp, cert, issuer))
         else 0
  {
    hide Tally, Word, PairEvents, NoWord, DataAlgorithmEvents, RevokedEvents;
    WordMeaning(inp, mode, cert, issuer, i);
    OneWord(inp, cert, issuer);
    if NoWord(inp, cert, issuer) {
      TallyOfOne(Soft(Finding(FindRevocationListStep, UnknownStatus(i))), f);
    } else {
      var revoked, algorithm :| Word(inp, cert, issuer, revoked, algorithm);
      DataTally(inp.policy, algorithm, revoked, i, f);
    }
  }

  lemma RevocationTally(inp: Inputs, mode: RevocationMode, chain: seq<Certificate>, f: Finding)
    requires chain != []
    ensures Tally(RevocationEvents(inp, mode, chain), f)
      == if mode == Disabled then 0
         else if f == POLICY then |WeakWordAt(inp, chain)|
         else if f == LEAF_UNKNOWN then One(mode == Required && 0 in UnknownAt(inp, chain))
         else if f == ISSUER_UNKNOWN && mode == Required then |UnknownAt(inp, chain) - {0}|
         else 0
  {
    hide Tally, UpTo, PairEvents, WeakWord, NoWord;
    TallyOfOne(Soft(f), f);
    if mode != Disabled {
      var stage, unknown := RevocationStage(inp, mode, chain), UnknownAt(inp, chain);
      var at := if f == POLICY then WeakWordAt(inp, chain)
                else if mode == Lenient then {}
                else if f == LEAF_UNKNOWN then unknown * {0}
                else if f == ISSUER_UNKNOWN then unknown - {0} else {};
      forall i: nat | i < |chain|
        ensures Tally(stage(i), f) == if i in at then 1 else 0
      {
        if i + 1 < |chain| {
          PairTally(inp, mode, chain[i], chain[i + 1], i, f);
        }
      }
      TallyUpTo(stage, |chain|, f, at);
      assert unknown * {0} == if 0 in unknown then {0} else {};
    }
  }

  lemma ChainTally(inp: Inputs, mode: RevocationMode, chain: seq<Certificate>, f: Finding)
    requires chain != []
    ensures Tally(ChainEvents(inp, mode, chain), f) == Expected(inp, mode, chain, f)
  {
    hide Tally, UpTo, PolicyEvents, TrustEvents, RevocationEvents, WeakAt, OutsideAt, NoCaAt, DeepAt, NoSignerAt, WeakWordAt,
         UnknownAt, WithinDates, MaySign, MayServe, ShortKey;
    var n, last := |chain|, RevocationEvents(inp, mode, chain);
    var usage := UpTo(UsageStage(inp, chain), n) + last;
    var validity := UpTo(ValidityStage(inp, chain), n) + usage;
    var trust := TrustEvents(inp, chain) + validity;
    TallyOfBoth(UpTo(SignatureStage(inp, chain), n), PolicyEvents(inp, chain) + trust, f);
    TallyOfBoth(PolicyEvents(inp, chain), trust, f);
    TallyOfBoth(TrustEvents(inp, chain), validity, f);
    TallyOfBoth(UpTo(ValidityStage(inp, chain), n), usage, f);
    TallyOfBoth(UpTo(UsageStage(inp, chain), n), last, f);
    SignatureTally(inp, chain, f);
    PolicyTally(inp, chain, f);
    TrustTally(inp, chain, f);
    ValidityTally(inp, chain, f);
    UsageTally(inp, chain, f);
    RevocationTally(inp, mode, chain, f);
  }

  /** The findings of an accepted certificate, whatever is suppressed: each is made exactly as often as
    there is cause for it in the chain, and no others are made. */
  lemma FindingsMeaning(inp: Inputs, opt: Options, cert: Certificate, chain: seq<Certificate>)
    requires opt.validateChain && Validate(inp, opt, cert).Ok? && WellBuilt(inp, cert, chain)
    ensures forall f :: multiset(Validate(inp, opt, cert).value)[f] == Expected(inp, opt.mode, chain, f)
  {
    hide ChainEvents, IsChain, Expected, Tally;
    ChainsAreWellBuilt(inp, cert, chain);
    ChainIsUnique(inp, cert, chain, ChainOf(inp, cert).value);
    InterpretMeaning(Events(inp, opt.mode, cert), opt.suppressed);
    forall f
      ensures multiset(Validate(inp, opt, cert).value)[f] == Expected(inp, opt.mode, chain, f)
    {
      FindingsAreTallied(ChainEvents(inp, opt.mode, chain), f);
      ChainTally(inp, opt.mode, chain, f);
    }
  }

  // ---- The status of a refusal -----------------------------------------------------------------

  ghost predicate FirstOutside(inp: Inputs, chain: seq<Certificate>, i: nat) {
    i < |chain| && !WithinDates(chain[i], inp.now) && forall j: nat | j < i :: WithinDates(chain[j], inp.now)
  }

  ghost predicate Misused(inp: Inputs, chain: seq<Certificate>, i: nat)
    requires i < |chain|
  {
    if i == 0 then !MaySign(chain[0]) || !MayServe(chain[0], inp.purpose)
    else !Ca(chain[i]) || TooDeep(chain, i) || !MayCertify(chain[i])
  }

  ghost predicate FirstMisused(inp: Inputs, chain: seq<Certificate>, i: nat) {
    i < |chain| && Misused(inp, chain, i) && forall j: nat | j < i :: !Misused(inp, chain, j)
  }

  /** Going by the word on a certificate, validation ends here with this status. */
  ghost predicate EndsWith(inp: Inputs, opt: Options, chain: seq<Certificate>, i: nat, status: Status)
    requires i + 1 < |chain|
  {
    var cert, issuer := chain[i], chain[i + 1];
    || (WeakWord(inp, cert, issuer) && SecurityPolicyStep !in opt.suppressed && status == BadCertificatePolicyCheckFailed)
    || ((WeakWord(inp, cert, issuer) ==> SecurityPolicyStep in opt.suppressed)
        && (exists algorithm :: Word(inp, cert, issuer, true, algorithm))
        && status == if i == 0 then BadCertificateRevoked else BadCertificateIssuerRevoked)
    || (NoWord(inp, cert, issuer) && opt.mode == Required && FindRevocationListStep !in opt.suppressed
        && status == if i == 0 then BadCertificateRevocationUnknown else BadCertificateIssuerRevocationUnknown)
  }

  ghost predicate GoesOn(inp: Inputs, opt: Options, chain: seq<Certificate>, i: nat) {
    i + 1 < |chain| ==> forall status :: !EndsWith(inp, opt, chain, i, status)
  }

  ghost predicate EndsFirstAt(inp: Inputs, opt: Options, chain: seq<Certificate>, i: nat, status: Status) {
    i + 1 < |chain| && EndsWith(inp, opt, chain, i, status) && forall j: nat | j < i :: GoesOn(inp, opt, chain, j)
  }

  /** The first thing out of order decides the status: signatures, policy, trust, dates, use, revocation,
    each along the chain. */
  ghost predicate FailsAs(inp: Inputs, opt: Options, chain: seq<Certificate>, status: Status)
    requires chain != []
  {
    var s := opt.suppressed;
    if !AllSigned(inp, chain) then status == BadCertificateInvalid
    else if SecurityPolicyStep !in s && (ShortKey(inp.policy, chain[0]) || exists c :: c in chain && Weak(inp.policy, c)) then
      status == BadCertificatePolicyCheckFailed
    else if !SharesTrusted(inp, chain) then status == BadCertificateUntrusted
    else if ValidityStep !in s && exists c :: c in chain && !WithinDates(c, inp.now) then
      exists i :: FirstOutside(inp, chain, i) && status == if i == 0 then BadCertificateTimeInvalid else BadCertificateIssuerTimeInvalid
    else if CertificateUsageStep !in s && exists i: nat :: i < |chain| && Misused(inp, chain, i) then
      exists i :: FirstMisused(inp, chain, i) && status == if i == 0 then BadCertificateUseNotAllowed else BadCertificateIssuerUseNotAllowed
    else opt.mode != Disabled && exists i :: EndsFirstAt(inp, opt, chain, i, status)
  }

  /** The first entry of a stage that stops the run decides; before it nothing does. */
  lemma {:induction false} StopUpTo(stage: nat -> seq<Event>, n: nat, s: set<Step>) returns (k: nat)
    ensures k <= n && forall i: nat | i < k :: FirstStop(stage(i), s).None?
    ensures k == n ==> FirstStop(UpTo(stage, n), s).None?
    ensures k < n ==> FirstStop(stage(k), s).Some? && FirstStop(UpTo(stage, n), s) == FirstStop(stage(k), s)
  {
    hide FirstStop;
    if n == 0 {
      k := 0;
      NothingStops(s);
    } else {
      k := StopUpTo(stage, n - 1, s);
      StopOfParts(UpTo(stage, n - 1), stage(n - 1), s);
      if k == n - 1 && FirstStop(stage(n - 1), s).None? {
        k := n;
      }
    }
  }

  lemma NothingStops(s: set<Step>)
    ensures FirstStop([], s).None?
  {
  }

  lemma OneStops(e: Event, s: set<Step>)
    ensures FirstStop([e], s)
      == if e.Hard? then Some(e.status) else if e.finding.step in s then None else Some(e.finding.status)
  {
    assert [e][1..] == [];
  }

  lemma SignatureStop(inp: Inputs, chain: seq<Certificate>, s: set<Step>)
    ensures FirstStop(UpTo(SignatureStage(inp, chain), |chain|), s)
      == if AllSigned(inp, chain) then None else Some(BadCertificateInvalid)
  {
    hide FirstStop, UpTo, LinkHolds, AllSigned;
    var stage := SignatureStage(inp, chain);
    SignedMeaning(inp, chain);
    OneStops(Hard(BadCertificateInvalid), s);
    NothingStops(s);
    var k := StopUpTo(stage, |chain|, s);
    if k < |chain| {
      assert stage(k) == LinkEvents(inp, chain, k);
      assert !LinkHolds(inp.crypto, chain, k);
    } else {
      forall i: nat | i < |chain|
        ensures LinkHolds(inp.crypto, chain, i)
      {
        assert FirstStop(stage(i), s).None? && stage(i) == LinkEvents(inp, chain, i);
      }
    }
  }

  lemma PolicyStop(inp: Inputs, chain: seq<Certificate>, s: set<Step>)
    requires chain != []
    ensures FirstStop(PolicyEvents(inp, chain), s)
      == if SecurityPolicyStep !in s && (ShortKey(inp.policy, chain[0]) || exists c :: c in chain && Weak(inp.policy, c))
         then Some(BadCertificatePolicyCheckFailed) else None
  {
    hide FirstStop, UpTo, AlgorithmMeets, KeyLengthMeets;
    var stage := AlgorithmStage(inp, chain);
    OneStops(POLICY_FAILED, s);
    NothingStops(s);
    FieldsMeaning(inp, chain[0]);
    if inp.policy.Policy? {
      hide Weak, ShortKey;
      StopOfParts(UpTo(stage, |chain|), LastPolicyEvents(inp, chain), s);
      var k := StopUpTo(stage, |chain|, s);
      if k < |chain| {
        FieldsMeaning(inp, chain[k]);
        assert stage(k) == AlgorithmEvents(inp, chain, k);
        assert chain[k] in chain && Weak(inp.policy, chain[k]);
      } else if SecurityPolicyStep !in s {
        forall c | c in chain
          ensures !Weak(inp.policy, c)
        {
          var i :| 0 <= i < |chain| && chain[i] == c;
          FieldsMeaning(inp, c);
          assert FirstStop(stage(i), s).None? && stage(i) == AlgorithmEvents(inp, chain, i);
        }
      }
    }
  }

  lemma TrustStop(inp: Inputs, chain: seq<Certificate>, s: set<Step>)
    ensures FirstStop(TrustEvents(inp, chain), s) == if SharesTrusted(inp, chain) then None else Some(BadCertificateUntrusted)
  {
    hide FirstStop;
    TrustMeaning(inp, chain);
    OneStops(Hard(BadCertificateUntrusted), s);
    NothingStops(s);
  }

  lemma ValidityStop(inp: Inputs, chain: seq<Certificate>, s: set<Step>)
    ensures
      var stop := FirstStop(UpTo(ValidityStage(inp, chain), |chain|), s);
      if ValidityStep !in s && exists c :: c in chain && !WithinDates(c, inp.now)
      then exists i :: FirstOutside(inp, chain, i)
                       && stop == Some(if i == 0 then BadCertificateTimeInvalid else BadCertificateIssuerTimeInvalid)
      else stop.None?
  {
    hide FirstStop, UpTo, ValidAt, WithinDates;
    var stage := ValidityStage(inp, chain);
    forall i: nat | i < |chain|
      ensures FirstStop(stage(i), s) == if WithinDates(chain[i], inp.now) || ValidityStep in s then None
        else Some(if i == 0 then BadCertificateTimeInvalid else BadCertificateIssuerTimeInvalid)
    {
      FieldsMeaning(inp, chain[i]);
      NothingStops(s);
      OneStops(Soft(LEAF_TIME), s);
      OneStops(Soft(ISSUER_TIME), s);
    }
    var k := StopUpTo(stage, |chain|, s);
    if k < |chain| {
      forall j: nat | j < k
        ensures WithinDates(chain[j], inp.now)
      {
        assert FirstStop(stage(j), s).None?;
      }
      assert chain[k] in chain && FirstOutside(inp, chain, k);
    } else if ValidityStep !in s {
      forall c | c in chain
        ensures WithinDates(c, inp.now)
      {
        var i :| 0 <= i < |chain| && chain[i] == c;
        assert FirstStop(stage(i), s).None?;
      }
    }
  }

  lemma FailedStop(failed: bool, status: Status, s: set<Step>)
    ensures FirstStop(UsageFailed(failed, status), s) == if failed && CertificateUsageStep !in s then Some(status) else None
  {
    OneStops(Soft(Finding(CertificateUsageStep, status)), s);
    NothingStops(s);
  }

  lemma EntryStop(inp: Inputs, chain: seq<Certificate>, i: nat, s: set<Step>)
    requires i < |chain|
    ensures FirstStop(UsageEvents(inp, chain, i), s) == if CertificateUsageStep in s || !Misused(inp, chain, i) then None
      else Some(if i == 0 then BadCertificateUseNotAllowed else BadCertificateIssuerUseNotAllowed)
  {
    hide FirstStop, UsageFailed, MaySign, MayServe, KeyUsageAllows, PurposeAllowed, MayCertify, PathLengthMet, TooDeep, Ca, IsCa;
    FieldsMeaning(inp, chain[i]);
    DepthMeaning(chain, i);
    if i == 0 {
      var a, b := !KeyUsageAllows(chain[0], DigitalSignature), !PurposeAllowed(chain[0], inp.purpose);
      var status := BadCertificateUseNotAllowed;
      StopOfParts(UsageFailed(a, status), UsageFailed(b, status), s);
      FailedStop(a, status, s);
      FailedStop(b, status, s);
    } else {
      var a, b, c := !IsCa(chain[i]), !PathLengthMet(chain, i), !KeyUsageAllows(chain[i], KeyCertSign);
      var status := BadCertificateIssuerUseNotAllowed;
      StopOfParts(UsageFailed(a, status), UsageFailed(b, status) + UsageFailed(c, status), s);
      StopOfParts(UsageFailed(b, status), UsageFailed(c, status), s);
      FailedStop(a, status, s);
      FailedStop(b, status, s);
      FailedStop(c, status, s);
    }
  }

  lemma UsageStop(inp: Inputs, chain: seq<Certificate>, s: set<Step>)
    ensures
      var stop := FirstStop(UpTo(UsageStage(inp, chain), |chain|), s);
      if CertificateUsageStep !in s && exists i: nat :: i < |chain| && Misused(inp, chain, i)
      then exists i :: FirstMisused(inp, chain, i)
                       && stop == Some(if i == 0 then BadCertificateUseNotAllowed else BadCertificateIssuerUseNotAllowed)
      else stop.None?
  {
    hide FirstStop, UpTo, UsageEvents, Misused;
    var stage := UsageStage(inp, chain);
    forall i: nat | i < |chain|
      ensures FirstStop(stage(i), s) == if CertificateUsageStep in s || !Misused(inp, chain, i) then None
        else Some(if i == 0 then BadCertificateUseNotAllowed else BadCertificateIssuerUseNotAllowed)
    {
      EntryStop(inp, chain, i, s);
    }
    var k := StopUpTo(stage, |chain|, s);
    if k < |chain| {
      forall j: nat | j < k
        ensures !Misused(inp, chain, j)
      {
        assert FirstStop(stage(j), s).None?;
      }
      assert FirstMisused(inp, chain, k);
    } else if CertificateUsageStep !in s {
      forall i: nat | i < |chain|
        ensures !Misused(inp, chain, i)
      {
        assert FirstStop(stage(i), s).None?;
      }
    }
  }

  lemma DataStop(policy: Policy, algorithm: Algorithm, revoked: bool, i: nat, s: set<Step>)
    ensures FirstStop(DataAlgorithmEvents(policy, algorithm) + RevokedEvents(revoked, i), s)
      == if !Allowed(policy, algorithm) && SecurityPolicyStep !in s then Some(BadCertificatePolicyCheckFailed)
         else if revoked then Some(if i == 0 then BadCertificateRevoked else BadCertificateIssuerRevoked) else None
  {
    hide FirstStop;
    StopOfParts(DataAlgorithmEvents(policy, algorithm), RevokedEvents(revoked, i), s);
    OneStops(POLICY_FAILED, s);
    OneStops(Hard(RevokedStatus(i)), s);
    NothingStops(s);
  }

  lemma PairStop(inp: Inputs, opt: Options, chain: seq<Certificate>, i: nat)
    requires i + 1 < |chain| && opt.mode != Disabled
    ensures
      var stop := FirstStop(PairEvents(inp, opt.mode, chain[i], chain[i + 1], i), opt.suppressed);
      forall status :: EndsWith(inp, opt, chain, i, status) <==> stop == Some(status)
  {
    hide FirstStop, Word, PairEvents, NoWord, DataAlgorithmEvents, RevokedEvents, Allowed;
    var cert, issuer := chain[i], chain[i + 1];
    WordMeaning(inp, opt.mode, cert, issuer, i);
    OneWord(inp, cert, issuer);
    if NoWord(inp, cert, issuer) {
      NothingStops(opt.suppressed);
      OneStops(Soft(Finding(FindRevocationListStep, UnknownStatus(i))), opt.suppressed);
    } else {
      var revoked, algorithm :| Word(inp, cert, issuer, revoked, algorithm);
      DataStop(inp.policy, algorithm, revoked, i, opt.suppressed);
    }
  }

  lemma RevocationStop(inp: Inputs, opt: Options, chain: seq<Certificate>, status: Status)
    ensures FirstStop(RevocationEvents(inp, opt.mode, chain), opt.suppressed) == Some(status)
       <==> opt.mode != Disabled && exists i :: EndsFirstAt(inp, opt, chain, i, status)
  {
    hide FirstStop, UpTo, PairEvents, EndsWith;
    NothingStops(opt.suppressed);
    if opt.mode != Disabled {
      var stage := RevocationStage(inp, opt.mode, chain);
      forall i: nat | i < |chain|
        ensures GoesOn(inp, opt, chain, i) <==> FirstStop(stage(i), opt.suppressed).None?
        ensures i + 1 < |chain| ==>
          forall st :: EndsWith(inp, opt, chain, i, st) <==> FirstStop(stage(i), opt.suppressed) == Some(st)
      {
        EntryGoesOn(inp, opt, chain, i);
      }
      var k := StopUpTo(stage, |chain|, opt.suppressed);
      hide GoesOn;
      assert forall j: nat | j < k :: stage(j) == stage(j) && GoesOn(inp, opt, chain, j);
      if k < |chain| {
        assert k + 1 < |chain| && !GoesOn(inp, opt, chain, k);
        EndsAt(inp, opt, chain, k, FirstStop(stage(k), opt.suppressed).value);
      }
      if i: nat :| EndsFirstAt(inp, opt, chain, i, status) {
        assert FirstStop(stage(i), opt.suppressed) == Some(status);
        assert forall j: nat | j < i :: GoesOn(inp, opt, chain, j);
      }
    }
  }

  lemma EndsAt(inp: Inputs, opt: Options, chain: seq<Certificate>, k: nat, status: Status)
    requires k + 1 < |chain| && EndsWith(inp, opt, chain, k, status) && forall j: nat | j < k :: GoesOn(inp, opt, chain, j)
    ensures EndsFirstAt(inp, opt, chain, k, status)
  {
  }

  lemma EntryGoesOn(inp: Inputs, opt: Options, chain: seq<Certificate>, i: nat)
    requires i < |chain| && opt.mode != Disabled
    ensures
      var stop := FirstStop(RevocationStage(inp, opt.mode, chain)(i), opt.suppressed);
      && (GoesOn(inp, opt, chain, i) <==> stop.None?)
      && (i + 1 < |chain| ==> forall status :: EndsWith(inp, opt, chain, i, status) <==> stop == Some(status))
  {
    hide FirstStop, PairEvents, EndsWith;
    NothingStops(opt.suppressed);
    if i + 1 < |chain| {
      PairStop(inp, opt, chain, i);
    }
  }

  lemma ChainStop(inp: Inputs, opt: Options, chain: seq<Certificate>, status: Status)
    requires chain != []
    ensures FirstStop(ChainEvents(inp, opt.mode, chain), opt.suppressed) == Some(status) <==> FailsAs(inp, opt, chain, status)
  {
    hide FirstStop, UpTo, PolicyEvents, TrustEvents, RevocationEvents, AllSigned, SharesTrusted, ShortKey, Weak, WithinDates,
         Misused, EndsFirstAt, FirstOutside, FirstMisused;
    var s := opt.suppressed;
    var n, last := |chain|, RevocationEvents(inp, opt.mode, chain);
    var usage := UpTo(UsageStage(inp, chain), n) + last;
    var validity := UpTo(ValidityStage(inp, chain), n) + usage;
    var trust := TrustEvents(inp, chain) + validity;
    StopOfParts(UpTo(SignatureStage(inp, chain), n), PolicyEvents(inp, chain) + trust, s);
    StopOfParts(PolicyEvents(inp, chain), trust, s);
    StopOfParts(TrustEvents(inp, chain), validity, s);
    StopOfParts(UpTo(ValidityStage(inp, chain), n), usage, s);
    StopOfParts(UpTo(UsageStage(inp, chain), n), last, s);
    SignatureStop(inp, chain, s);
    PolicyStop(inp, chain, s);
    TrustStop(inp, chain, s);
    ValidityStop(inp, chain, s);
    UsageStop(inp, chain, s);
    RevocationStop(inp, opt, chain, status);
    OneFirst(inp, chain);
  }

  lemma OneFirst(inp: Inputs, chain: seq<Certificate>)
    ensures forall i, j | FirstOutside(inp, chain, i) && FirstOutside(inp, chain, j) :: i == j
    ensures forall i, j | FirstMisused(inp, chain, i) && FirstMisused(inp, chain, j) :: i == j
  {
    hide WithinDates, Misused;
  }

  /** The status of a refusal, whatever is suppressed; validation that is switched off refuses nothing.  Without a well-built chain it is that the chain is
    incomplete, and otherwise it is decided by the first thing out of order. */
  lemma RefusalMeaning(inp: Inputs, opt: Options, cert: Certificate, status: Status)
    ensures !opt.validateChain ==> Validate(inp, opt, cert) == Ok([])
    ensures opt.validateChain && (forall chain :: !WellBuilt(inp, cert, chain)) ==>
      Validate(inp, opt, cert) == Err(BadCertificateChainIncomplete)
    ensures forall chain | opt.validateChain && WellBuilt(inp, cert, chain) ::
      Validate(inp, opt, cert) == Err(status) <==> FailsAs(inp, opt, chain, status)
  {
    hide ChainEvents, WellBuilt, IsChain, FailsAs, FirstStop;
    var events := Events(inp, opt.mode, cert);
    InterpretMeaning(events, opt.suppressed);
    OneStops(Hard(BadCertificateChainIncomplete), opt.suppressed);
    forall chain
      ensures IsChain(inp, cert, chain) <==> WellBuilt(inp, cert, chain)
      ensures IsChain(inp, cert, chain) ==> chain != [] && ChainOf(inp, cert) == Some(chain)
      ensures IsChain(inp, cert, chain) ==>
        (FirstStop(ChainEvents(inp, opt.mode, chain), opt.suppressed) == Some(status) <==> FailsAs(inp, opt, chain, status))
    {
      ChainsAreWellBuilt(inp, cert, chain);
      if IsChain(inp, cert, chain) {
        HasFirst(inp, cert, chain);
        ChainIsUnique(inp, cert, chain, ChainOf(inp, cert).value);
        ChainStop(inp, opt, chain, status);
      }
    }
  }
}
