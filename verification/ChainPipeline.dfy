/** The methods that run the validation stages, each proved to yield the interpretation of its events. */
module ChainPipeline {
  import opened Certificates
  import opened ChainBuilder
  import opened ChainSoundness
  import opened ChainStages
  import opened Wrappers

  /** One more entry of a stage that has gone well so far. */
  lemma StageStep(before: seq<Finding>, f: nat -> seq<Event>, i: nat, n: nat, s: set<Step>, findings: seq<Finding>,
      r: Outcome)
    requires i < n && Interpret(before, UpTo(f, i), s) == Ok(findings) && r == Interpret(findings, f(i), s)
    ensures Interpret(before, UpTo(f, i + 1), s) == r
    ensures r.Err? ==> Interpret(before, UpTo(f, n), s) == r
  {
    InterpretAppend(before, UpTo(f, i), f(i), s);
    if r.Err? {
      FailedEarly(before, f, i + 1, n, s);
    }
  }

  lemma StageStart(before: seq<Finding>, f: nat -> seq<Event>, s: set<Step>)
    ensures Interpret(before, UpTo(f, 0), s) == Ok(before)
  {
  }

  /** A failure of a suppressible step: noted, or returned. */
  method Handle(step: Step, status: Status, suppressed: set<Step>, findings: seq<Finding>) returns (r: Outcome)
    ensures r == Interpret(findings, [Soft(Finding(step, status))], suppressed)
  {
    if step in suppressed {
      r := Ok(findings + [Finding(step, status)]);
    } else {
      r := Err(status);
    }
  }

  /** This stage never consults the suppressed steps: its outcome is the same for every `s`. */
  method VerifyChainSignatures(inp: Inputs, chain: seq<Certificate>, ghost s: set<Step>) returns (r: Outcome)
    ensures r == Interpret([], UpTo(SignatureStage(inp, chain), |chain|), s)
    ensures r.Ok? ==> r.value == []
  {
    hide UpTo, Interpret, SignedBy;
    ghost var f := SignatureStage(inp, chain);
    StageStart([], f, s);
    for i := 0 to |chain|
      invariant Interpret([], UpTo(f, i), s) == Ok([])
    {
      var child := chain[i];
      r := Ok([]);
      if i + 1 < |chain| || SelfSigned(child) {
        var issuer := if i + 1 < |chain| then chain[i + 1] else child;
        if !SignedBy(inp.crypto, child, issuer) {
          r := Err(BadCertificateInvalid);
        }
      }
      InterpretShort([], s);
      assert f(i) == LinkEvents(inp, chain, i);
      StageStep([], f, i, |chain|, s, [], r);
      if r.Err? {
        return;
      }
    }
    r := Ok([]);
  }

  lemma InterpretShort(findings: seq<Finding>, s: set<Step>)
    ensures Interpret(findings, [], s) == Ok(findings)
    ensures forall status :: Interpret(findings, [Hard(status)], s) == Err(status)
  {
  }

  method ValidateSecurityPolicy(inp: Inputs, chain: seq<Certificate>, s: set<Step>) returns (r: Outcome)
    ensures r == Interpret([], PolicyEvents(inp, chain), s)
  {
    if inp.policy.NoPolicy? {
      return Ok([]);
    }
    hide UpTo, Interpret, AlgorithmMeets, KeyLengthMeets;
    ghost var f := AlgorithmStage(inp, chain);
    ghost var last := LastPolicyEvents(inp, chain);
    var findings: seq<Finding> := [];
    StageStart([], f, s);
    InterpretAppend([], UpTo(f, |chain|), last, s);
    for i := 0 to |chain|
      invariant Interpret([], UpTo(f, i), s) == Ok(findings)
    {
      r := Ok(findings);
      if !AlgorithmMeets(inp.policy, chain[i]) {
        r := Handle(SecurityPolicyStep, BadCertificatePolicyCheckFailed, s, findings);
      }
      InterpretShort(findings, s);
      assert f(i) == AlgorithmEvents(inp, chain, i);
      StageStep([], f, i, |chain|, s, findings, r);
      if r.Err? {
        return;
      }
      findings := r.value;
    }
    InterpretShort(findings, s);
    if chain == [] {
      return Err(BadCertificateChainIncomplete);
    }
    if KeyLengthMeets(inp.policy, chain[0]) {
      return Ok(findings);
    }
    r := Handle(SecurityPolicyStep, BadCertificatePolicyCheckFailed, s, findings);
  }

  method FindTrusted(chain: seq<Certificate>, trusted: seq<Certificate>) returns (r: Option<bool>)
    ensures r == ContainsTrusted(chain, trusted)
  {
    for i := 0 to |chain|
      invariant ContainsTrusted(chain, trusted) == ContainsTrusted(chain[i..], trusted)
    {
      if chain[i].der.None? {
        return None;
      }
      r := FindDer(chain[i].der.value, trusted);
      if r.None? || r.value {
        return;
      }
    }
    r := Some(false);
  }

  /** The findings of this stage alone, collected apart from the others. */
  method ValidateValidity(inp: Inputs, chain: seq<Certificate>, s: set<Step>) returns (r: Outcome)
    ensures r == Interpret([], UpTo(ValidityStage(inp, chain), |chain|), s)
  {
    hide UpTo, Interpret, ValidAt;
    ghost var f := ValidityStage(inp, chain);
    var findings: seq<Finding> := [];
    StageStart([], f, s);
    for i := 0 to |chain|
      invariant Interpret([], UpTo(f, i), s) == Ok(findings)
    {
      r := Ok(findings);
      if !ValidAt(chain[i], inp.now) {
        var status := if i == 0 then BadCertificateTimeInvalid else BadCertificateIssuerTimeInvalid;
        r := Handle(ValidityStep, status, s, findings);
      }
      InterpretShort(findings, s);
      assert f(i) == ValidityEvents(inp, chain, i);
      StageStep([], f, i, |chain|, s, findings, r);
      if r.Err? {
        return;
      }
      findings := r.value;
    }
    r := Ok(findings);
  }

  method CheckUsage(failed: bool, status: Status, s: set<Step>, findings: seq<Finding>) returns (r: Outcome)
    ensures r == Interpret(findings, UsageFailed(failed, status), s)
  {
    r := Ok(findings);
    if failed {
      r := Handle(CertificateUsageStep, status, s, findings);
    }
  }

  method ValidateLeafUsage(inp: Inputs, cert: Certificate, s: set<Step>, findings: seq<Finding>) returns (r: Outcome)
    ensures r == Interpret(findings, LeafUsageEvents(inp, cert), s)
  {
    hide UsageFailed;
    var status := BadCertificateUseNotAllowed;
    InterpretAppend(findings, UsageFailed(!KeyUsageAllows(cert, DigitalSignature), status),
                    UsageFailed(!PurposeAllowed(cert, inp.purpose), status), s);
    r := CheckUsage(!KeyUsageAllows(cert, DigitalSignature), status, s, findings);
    if r.Ok? {
      r := CheckUsage(!PurposeAllowed(cert, inp.purpose), status, s, r.value);
    }
  }

  method ValidateIssuerUsage(chain: seq<Certificate>, i: nat, s: set<Step>, findings: seq<Finding>) returns (r: Outcome)
    requires i < |chain|
    ensures r == Interpret(findings, IssuerUsageEvents(chain, i), s)
  {
    hide UsageFailed;
    var status := BadCertificateIssuerUseNotAllowed;
    ghost var first, second, third := UsageFailed(!IsCa(chain[i]), status), UsageFailed(!PathLengthMet(chain, i), status),
                                      UsageFailed(!KeyUsageAllows(chain[i], KeyCertSign), status);
    InterpretAppend(findings, first, second + third, s);
    r := CheckUsage(!IsCa(chain[i]), status, s, findings);
    if r.Err? {
      return;
    }
    InterpretAppend(r.value, second, third, s);
    r := CheckUsage(!PathLengthMet(chain, i), status, s, r.value);
    if r.Ok? {
      r := CheckUsage(!KeyUsageAllows(chain[i], KeyCertSign), status, s, r.value);
    }
  }

  method ValidateUsage(inp: Inputs, chain: seq<Certificate>, s: set<Step>, before: seq<Finding>) returns (r: Outcome)
    ensures r == Interpret(before, UpTo(UsageStage(inp, chain), |chain|), s)
  {
    hide LeafUsageEvents, IssuerUsageEvents, UpTo, Interpret;
    ghost var f := UsageStage(inp, chain);
    var findings := before;
    StageStart(before, f, s);
    for i := 0 to |chain|
      invariant Interpret(before, UpTo(f, i), s) == Ok(findings)
    {
      if i == 0 {
        r := ValidateLeafUsage(inp, chain[0], s, findings);
      } else {
        r := ValidateIssuerUsage(chain, i, s, findings);
      }
      assert f(i) == UsageEvents(inp, chain, i);
      StageStep(before, f, i, |chain|, s, findings, r);
      if r.Err? {
        return;
      }
      findings := r.value;
    }
    r := Ok(findings);
  }

  method OcspVerdict(responses: seq<SingleResponse>, serial: Bytes, now: int) returns (r: Option<Verdict>)
    ensures r == VerdictFor(responses, serial, now)
  {
    for i := 0 to |responses|
      invariant VerdictFor(responses, serial, now) == VerdictFor(responses[i..], serial, now)
    {
      var single := responses[i];
      if single.serial != serial || !Fresh(single, now) {
        continue;
      }
      match single.status {
        case StatusRevoked => return Some(Revoked);
        case StatusGood => return Some(Good);
        case StatusUnknown =>
      }
    }
    r := None;
  }

  method DataAlgorithm(policy: Policy, algorithm: Algorithm, s: set<Step>, findings: seq<Finding>) returns (r: Outcome)
    ensures r == Interpret(findings, DataAlgorithmEvents(policy, algorithm), s)
  {
    if policy.NoPolicy? || algorithm in policy.allowed {
      return Ok(findings);
    }
    r := Handle(SecurityPolicyStep, BadCertificatePolicyCheckFailed, s, findings);
  }

  /** The first response that answers, with what noting its algorithm did to the findings. */
  method OcspStatus(inp: Inputs, cert: Certificate, issuer: Certificate, s: set<Step>, findings: seq<Finding>)
    returns (verdict: Option<Verdict>, r: Outcome)
    ensures
      match OcspAnswer(inp, cert, issuer)
      case None => verdict == None && r == Ok(findings)
      case Some(a) =>
        && a.Basic? && verdict == VerdictFor(a.responses, cert.serial, inp.now)
        && r == Interpret(findings, DataAlgorithmEvents(inp.policy, a.algorithm), s)
  {
    if issuer.publicKey.None? {
      return None, Ok(findings);
    }
    hide VerdictFor, DataSigned, DataAlgorithmEvents;
    var key := issuer.publicKey.value;
    for i := 0 to |inp.ocsp|
      invariant FirstAnswer(inp, inp.ocsp, key, cert.serial) == FirstAnswer(inp, inp.ocsp[i..], key, cert.serial)
    {
      var response := inp.ocsp[i];
      if response.Unusable? {
        continue;
      }
      verdict := OcspVerdict(response.responses, cert.serial, inp.now);
      if verdict.None? || !DataSigned(inp.crypto, key, response.tbs, response.signature, response.algorithm) {
        continue;
      }
      r := DataAlgorithm(inp.policy, response.algorithm, s, findings);
      return;
    }
    return None, Ok(findings);
  }

  method FindValidCrl(inp: Inputs, issuer: Certificate, s: set<Step>, findings: seq<Finding>)
    returns (crl: Option<Crl>, r: Outcome)
    ensures crl == ValidCrl(inp, issuer)
    ensures r == if crl.None? then Ok(findings)
                 else Interpret(findings, DataAlgorithmEvents(inp.policy, crl.value.algorithm), s)
  {
    if issuer.publicKey.None? {
      return None, Ok(findings);
    }
    hide DataAlgorithmEvents, CrlApplies;
    var key := issuer.publicKey.value;
    for i := 0 to |inp.crls|
      invariant FirstCrl(inp, inp.crls, issuer, key) == FirstCrl(inp, inp.crls[i..], issuer, key)
    {
      if CrlApplies(inp, inp.crls[i], issuer, key) {
        r := DataAlgorithm(inp.policy, inp.crls[i].algorithm, s, findings);
        return Some(inp.crls[i]), r;
      }
    }
    return None, Ok(findings);
  }

  method ValidatePair(inp: Inputs, mode: RevocationMode, cert: Certificate, issuer: Certificate, i: nat,
      s: set<Step>, findings: seq<Finding>)
    returns (r: Outcome)
    requires !mode.Disabled?
    ensures r == Interpret(findings, PairEvents(inp, mode, cert, issuer, i), s)
  {
    hide OcspAnswer, ValidCrl, Lists, DataAlgorithmEvents;
    var verdict;
    verdict, r := OcspStatus(inp, cert, issuer, s, findings);
    ghost var answer := OcspAnswer(inp, cert, issuer);
    if answer.Some? {
      InterpretAppend(findings, DataAlgorithmEvents(inp.policy, answer.value.algorithm),
                      RevokedEvents(SaysRevoked(inp, answer.value, cert.serial), i), s);
    }
    if r.Err? {
      return;
    }
    if verdict.Some? {
      return if verdict.value.Revoked? then Err(RevokedStatus(i)) else r;
    }
    var crl;
    crl, r := FindValidCrl(inp, issuer, s, findings);
    if crl.None? {
      if mode.Required? {
        r := Handle(FindRevocationListStep, UnknownStatus(i), s, findings);
      }
      return;
    }
    InterpretAppend(findings, DataAlgorithmEvents(inp.policy, crl.value.algorithm), RevokedEvents(Lists(crl.value, cert.serial), i), s);
    if r.Ok? && Lists(crl.value, cert.serial) {
      r := Err(RevokedStatus(i));
    }
  }

  lemma IssuedAt(inp: Inputs, mode: RevocationMode, chain: seq<Certificate>, i: nat)
    requires i < |chain|
    ensures RevocationStage(inp, mode, chain)(i)
      == if i + 1 < |chain| then PairEvents(inp, mode, chain[i], chain[i + 1], i) else []
  {
    hide PairEvents;
  }

  method ValidateRevocation(inp: Inputs, mode: RevocationMode, chain: seq<Certificate>, s: set<Step>,
      before: seq<Finding>)
    returns (r: Outcome)
    requires chain != []
    ensures r == Interpret(before, RevocationEvents(inp, mode, chain), s)
  {
    if mode.Disabled? {
      InterpretShort(before, s);
      return Ok(before);
    }
    hide PairEvents, UpTo, IssuedEvents, Interpret, RevocationStage;
    ghost var f := RevocationStage(inp, mode, chain);
    assert RevocationEvents(inp, mode, chain) == UpTo(f, |chain|);
    hide RevocationEvents, OcspAnswer, ValidCrl, Cleared;
    var findings := before;
    StageStart(before, f, s);
    for i := 0 to |chain| - 1
      invariant Interpret(before, UpTo(f, i), s) == Ok(findings)
    {
      r := ValidatePair(inp, mode, chain[i], chain[i + 1], i, s, findings);
      IssuedAt(inp, mode, chain, i);
      StageStep(before, f, i, |chain|, s, findings, r);
      if r.Err? {
        return;
      }
      findings := r.value;
    }
    r := Ok(findings);
    InterpretShort(findings, s);
    IssuedAt(inp, mode, chain, |chain| - 1);
    StageStep(before, f, |chain| - 1, |chain|, s, findings, r);
  }

  method ValidateCertificateChain(cert: Certificate, inp: Inputs, opt: Options) returns (r: Outcome)
    ensures r == Validate(inp, opt, cert)
  {
    if !opt.validateChain {
      return Ok([]);
    }
    hide IsChain, PolicyEvents, TrustEvents, RevocationEvents, UpTo;
    var s := opt.suppressed;
    var built := BuildChain(inp, cert);
    if built.Err? {
      assert ChainOf(inp, cert).None?;
      return Err(built.error);
    }
    var chain := built.value;
    ghost var n := |chain|;
    ChainIsUnique(inp, cert, chain, ChainOf(inp, cert).value);
    HasFirst(inp, cert, chain);
    ghost var last := RevocationEvents(inp, opt.mode, chain);
    ghost var usage := UpTo(UsageStage(inp, chain), n) + last;
    ghost var validity := UpTo(ValidityStage(inp, chain), n) + usage;
    ghost var trust := TrustEvents(inp, chain) + validity;
    InterpretAppend([], UpTo(SignatureStage(inp, chain), n), PolicyEvents(inp, chain) + trust, s);
    r := VerifyChainSignatures(inp, chain, s);
    if r.Err? {
      return;
    }
    InterpretAppend([], PolicyEvents(inp, chain), trust, s);
    r := ValidateSecurityPolicy(inp, chain, s);
    if r.Err? {
      return;
    }
    var findings := r.value;
    InterpretAppend(findings, TrustEvents(inp, chain), validity, s);
    var trusted := FindTrusted(chain, inp.trusted);
    InterpretTrust(inp, chain, findings, s);
    if trusted.None? || !trusted.value {
      return Err(BadCertificateUntrusted);
    }
    InterpretAppend(findings, UpTo(ValidityStage(inp, chain), n), usage, s);
    InterpretFrom(findings, UpTo(ValidityStage(inp, chain), n), s);
    r := ValidateValidity(inp, chain, s);
    if r.Err? {
      return;
    }
    findings := findings + r.value;
    InterpretAppend(findings, UpTo(UsageStage(inp, chain), n), last, s);
    r := ValidateUsage(inp, chain, s, findings);
    if r.Err? {
      return;
    }
    r := ValidateRevocation(inp, opt.mode, chain, s, r.value);
  }

  lemma InterpretTrust(inp: Inputs, chain: seq<Certificate>, findings: seq<Finding>, s: set<Step>)
    ensures Interpret(findings, TrustEvents(inp, chain), s)
      == if Trusted(inp, chain) then Ok(findings) else Err(BadCertificateUntrusted)
  {
  }
}
