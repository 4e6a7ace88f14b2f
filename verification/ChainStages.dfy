/** The certificate validation pipeline (section 6.1.3 of OPC 10000-4): what each stage reports about a
  chain, and what it takes for it to report nothing.

  What a stage reports is a list of events that does not depend on which steps are suppressed; the
  outcome of validation is the interpretation of that list.
  */
module ChainStages {
  import opened Certificates
  import opened ChainBuilder
  import opened Wrappers

  // ---- Signatures ----------------------------------------------------------------------------

  predicate SignedBy(crypto: Crypto, child: Certificate, issuer: Certificate) {
    && issuer.publicKey.Some? && child.tbs.Some? && child.signature.Some?
    && Verifies(crypto, issuer.publicKey.value, child.tbs.value, child.signature.value.value, child.signature.value.algorithm)
  }

  /** The last certificate answers for itself when it is self-signed, and to nobody otherwise. */
  predicate LinkHolds(crypto: Crypto, chain: seq<Certificate>, i: nat)
    requires i < |chain|
  {
    if i + 1 < |chain| then SignedBy(crypto, chain[i], chain[i + 1])
    else SelfSigned(chain[i]) ==> SignedBy(crypto, chain[i], chain[i])
  }

  function SignatureStage(inp: Inputs, chain: seq<Certificate>): nat -> seq<Event> {
    (i: nat) => LinkEvents(inp, chain, i)
  }

  function LinkEvents(inp: Inputs, chain: seq<Certificate>, i: nat): seq<Event> {
    if i < |chain| && !LinkHolds(inp.crypto, chain, i) then [Hard(BadCertificateInvalid)] else []
  }

  // ---- Security policy -----------------------------------------------------------------------

  const POLICY_FAILED := Soft(Finding(SecurityPolicyStep, BadCertificatePolicyCheckFailed))

  predicate AlgorithmMeets(policy: Policy, c: Certificate) {
    policy.Policy? ==> c.signature.Some? && c.signature.value.algorithm in policy.allowed
  }

  predicate KeyLengthMeets(policy: Policy, c: Certificate) {
    policy.Policy? ==> c.keyLength.Some? && policy.keyLengthAllowed(c.keyLength.value)
  }

  function AlgorithmStage(inp: Inputs, chain: seq<Certificate>): nat -> seq<Event> {
    (i: nat) => AlgorithmEvents(inp, chain, i)
  }

  function AlgorithmEvents(inp: Inputs, chain: seq<Certificate>, i: nat): seq<Event> {
    if i < |chain| && !AlgorithmMeets(inp.policy, chain[i]) then [POLICY_FAILED] else []
  }

  function PolicyEvents(inp: Inputs, chain: seq<Certificate>): seq<Event> {
    if inp.policy.NoPolicy? then []
    else UpTo(AlgorithmStage(inp, chain), |chain|) + LastPolicyEvents(inp, chain)
  }

  function LastPolicyEvents(inp: Inputs, chain: seq<Certificate>): seq<Event> {
    if chain == [] then [Hard(BadCertificateChainIncomplete)]
    else if KeyLengthMeets(inp.policy, chain[0]) then [] else [POLICY_FAILED]
  }

  /** Revocation data must be signed with an allowed algorithm too. */
  function DataAlgorithmEvents(policy: Policy, algorithm: Algorithm): seq<Event> {
    if policy.NoPolicy? || algorithm in policy.allowed then [] else [POLICY_FAILED]
  }

  // ---- Trust ---------------------------------------------------------------------------------

  function ContainsTrusted(chain: seq<Certificate>, trusted: seq<Certificate>): Option<bool>
    decreases |chain|
  {
    if chain == [] then Some(false)
    else if chain[0].der.None? then None
    else
      var here := DerInList(chain[0].der.value, trusted);
      if here == Some(false) then ContainsTrusted(chain[1..], trusted) else here
  }

  function TrustEvents(inp: Inputs, chain: seq<Certificate>): seq<Event> {
    if ContainsTrusted(chain, inp.trusted) == Some(true) then [] else [Hard(BadCertificateUntrusted)]
  }

  // ---- Validity and usage --------------------------------------------------------------------

  predicate ValidAt(c: Certificate, now: int) {
    c.notBefore.Some? && c.notAfter.Some? && c.notBefore.value <= now <= c.notAfter.value
  }

  function ValidityStage(inp: Inputs, chain: seq<Certificate>): nat -> seq<Event> {
    (i: nat) => ValidityEvents(inp, chain, i)
  }

  function ValidityEvents(inp: Inputs, chain: seq<Certificate>, i: nat): seq<Event> {
    if i < |chain| && !ValidAt(chain[i], inp.now)
    then [Soft(Finding(ValidityStep, if i == 0 then BadCertificateTimeInvalid else BadCertificateIssuerTimeInvalid))]
    else []
  }

  function UsageFailed(failed: bool, status: Status): seq<Event> {
    if failed then [Soft(Finding(CertificateUsageStep, status))] else []
  }

  predicate KeyUsageAllows(c: Certificate, u: Usage) {
    c.keyUsage.Some? ==> u in c.keyUsage.value
  }

  predicate PurposeAllowed(c: Certificate, p: Purpose) {
    c.extendedKeyUsage.Some? && c.extendedKeyUsage.value != [] ==>
      || (if p.ServerApplication? then ServerAuth else ClientAuth) in c.extendedKeyUsage.value
      || AnyExtendedUsage in c.extendedKeyUsage.value
  }

  /** The CAs between the leaf and the certificate at `i`, both excluded. */
  function SubordinateCas(chain: seq<Certificate>, i: nat): nat
    requires i <= |chain|
  {
    if i <= 1 then 0 else SubordinateCas(chain, i - 1) + if IsCa(chain[i - 1]) then 1 else 0
  }

  predicate PathLengthMet(chain: seq<Certificate>, i: nat)
    requires i < |chain|
  {
    var b := chain[i].basicConstraints;
    b.Some? && b.value.pathLen.Some? ==> SubordinateCas(chain, i) <= b.value.pathLen.value
  }

  function LeafUsageEvents(inp: Inputs, c: Certificate): seq<Event> {
    UsageFailed(!KeyUsageAllows(c, DigitalSignature), BadCertificateUseNotAllowed)
    + UsageFailed(!PurposeAllowed(c, inp.purpose), BadCertificateUseNotAllowed)
  }

  function IssuerUsageEvents(chain: seq<Certificate>, i: nat): seq<Event>
    requires i < |chain|
  {
    UsageFailed(!IsCa(chain[i]), BadCertificateIssuerUseNotAllowed)
    + (UsageFailed(!PathLengthMet(chain, i), BadCertificateIssuerUseNotAllowed)
       + UsageFailed(!KeyUsageAllows(chain[i], KeyCertSign), BadCertificateIssuerUseNotAllowed))
  }

  function UsageStage(inp: Inputs, chain: seq<Certificate>): nat -> seq<Event> {
    (i: nat) => UsageEvents(inp, chain, i)
  }

  function UsageEvents(inp: Inputs, chain: seq<Certificate>, i: nat): seq<Event> {
    if i >= |chain| then [] else if i == 0 then LeafUsageEvents(inp, chain[0]) else IssuerUsageEvents(chain, i)
  }

  // ---- Revocation ----------------------------------------------------------------------------

  datatype Verdict = Good | Revoked

  predicate Fresh(r: SingleResponse, now: int) {
    r.thisUpdate <= now && (r.nextUpdate.Some? ==> now <= r.nextUpdate.value)
  }

  /** An answer of status unknown, an outdated one or one about another certificate is passed over. */
  predicate Decides(r: SingleResponse, serial: Bytes, now: int) {
    r.serial == serial && Fresh(r, now) && !r.status.StatusUnknown?
  }

  function VerdictFor(responses: seq<SingleResponse>, serial: Bytes, now: int): Option<Verdict>
    decreases |responses|
  {
    if responses == [] then None
    else if Decides(responses[0], serial, now) then Some(if responses[0].status.StatusRevoked? then Revoked else Good)
    else VerdictFor(responses[1..], serial, now)
  }

  predicate DataSigned(crypto: Crypto, key: PublicKey, tbs: Option<Bytes>, signature: Option<Bytes>,
      algorithm: Algorithm) {
    tbs.Some? && signature.Some? && Verifies(crypto, key, tbs.value, signature.value, algorithm)
  }

  predicate Answers(inp: Inputs, r: OcspResponse, key: PublicKey, serial: Bytes) {
    r.Basic? && VerdictFor(r.responses, serial, inp.now).Some? && DataSigned(inp.crypto, key, r.tbs, r.signature, r.algorithm)
  }

  function FirstAnswer(inp: Inputs, responses: seq<OcspResponse>, key: PublicKey, serial: Bytes): Option<OcspResponse>
    decreases |responses|
  {
    if responses == [] then None
    else if Answers(inp, responses[0], key, serial) then Some(responses[0])
    else FirstAnswer(inp, responses[1..], key, serial)
  }

  function OcspAnswer(inp: Inputs, cert: Certificate, issuer: Certificate): (r: Option<OcspResponse>)
    ensures r.Some? ==> issuer.publicKey.Some? && Answers(inp, r.value, issuer.publicKey.value, cert.serial)
  {
    if issuer.publicKey.None? then None
    else
      FirstAnswerMeaning(inp, inp.ocsp, issuer.publicKey.value, cert.serial);
      FirstAnswer(inp, inp.ocsp, issuer.publicKey.value, cert.serial)
  }

  lemma {:induction false} FirstAnswerMeaning(inp: Inputs, responses: seq<OcspResponse>, key: PublicKey, serial: Bytes)
    ensures
      match FirstAnswer(inp, responses, key, serial)
      case None => forall r | r in responses :: !Answers(inp, r, key, serial)
      case Some(r) => r in responses && Answers(inp, r, key, serial)
    decreases |responses|
  {
    if responses != [] {
      FirstAnswerMeaning(inp, responses[1..], key, serial);
    }
  }

  predicate CrlApplies(inp: Inputs, crl: Crl, issuer: Certificate, key: PublicKey) {
    && inp.crypto.render(crl.issuer) == inp.crypto.render(issuer.subject)
    && (crl.nextUpdate.Some? ==> inp.now <= crl.nextUpdate.value)
    && DataSigned(inp.crypto, key, crl.tbs, crl.signature, crl.algorithm)
  }

  function FirstCrl(inp: Inputs, crls: seq<Crl>, issuer: Certificate, key: PublicKey): Option<Crl>
    decreases |crls|
  {
    if crls == [] then None
    else if CrlApplies(inp, crls[0], issuer, key) then Some(crls[0])
    else FirstCrl(inp, crls[1..], issuer, key)
  }

  lemma {:induction false} FirstCrlMeaning(inp: Inputs, crls: seq<Crl>, issuer: Certificate, key: PublicKey)
    ensures
      match FirstCrl(inp, crls, issuer, key)
      case None => forall c | c in crls :: !CrlApplies(inp, c, issuer, key)
      case Some(c) => c in crls && CrlApplies(inp, c, issuer, key)
    decreases |crls|
  {
    if crls != [] {
      FirstCrlMeaning(inp, crls[1..], issuer, key);
    }
  }

  function ValidCrl(inp: Inputs, issuer: Certificate): Option<Crl> {
    if issuer.publicKey.None? then None else FirstCrl(inp, inp.crls, issuer, issuer.publicKey.value)
  }

  predicate Lists(crl: Crl, serial: Bytes) {
    crl.revoked.Some? && serial in crl.revoked.value
  }

  function RevokedStatus(i: nat): Status {
    if i == 0 then BadCertificateRevoked else BadCertificateIssuerRevoked
  }

  function UnknownStatus(i: nat): Status {
    if i == 0 then BadCertificateRevocationUnknown else BadCertificateIssuerRevocationUnknown
  }

  function RevokedEvents(revoked: bool, i: nat): seq<Event> {
    if revoked then [Hard(RevokedStatus(i))] else []
  }

  function UnknownEvents(mode: RevocationMode, i: nat): seq<Event> {
    if mode.Lenient? then [] else [Soft(Finding(FindRevocationListStep, UnknownStatus(i)))]
  }

  predicate SaysRevoked(inp: Inputs, r: OcspResponse, serial: Bytes) {
    r.Basic? && VerdictFor(r.responses, serial, inp.now) == Some(Revoked)
  }

  function PairEvents(inp: Inputs, mode: RevocationMode, cert: Certificate, issuer: Certificate, i: nat): seq<Event> {
    var answer := OcspAnswer(inp, cert, issuer);
    if answer.Some? then
      DataAlgorithmEvents(inp.policy, answer.value.algorithm) + RevokedEvents(SaysRevoked(inp, answer.value, cert.serial), i)
    else
      var crl := ValidCrl(inp, issuer);
      if crl.None? then UnknownEvents(mode, i)
      else DataAlgorithmEvents(inp.policy, crl.value.algorithm) + RevokedEvents(Lists(crl.value, cert.serial), i)
  }

  function RevocationStage(inp: Inputs, mode: RevocationMode, chain: seq<Certificate>): nat -> seq<Event> {
    (i: nat) => IssuedEvents(inp, mode, chain, i)
  }

  function IssuedEvents(inp: Inputs, mode: RevocationMode, chain: seq<Certificate>, i: nat): seq<Event> {
    if i + 1 < |chain| then PairEvents(inp, mode, chain[i], chain[i + 1], i) else []
  }

  function RevocationEvents(inp: Inputs, mode: RevocationMode, chain: seq<Certificate>): seq<Event> {
    if mode.Disabled? then [] else UpTo(RevocationStage(inp, mode, chain), |chain|)
  }

  // ---- The pipeline --------------------------------------------------------------------------

  function ChainEvents(inp: Inputs, mode: RevocationMode, chain: seq<Certificate>): seq<Event> {
    UpTo(SignatureStage(inp, chain), |chain|)
    + (PolicyEvents(inp, chain)
       + (TrustEvents(inp, chain)
          + (UpTo(ValidityStage(inp, chain), |chain|)
             + (UpTo(UsageStage(inp, chain), |chain|)
                + RevocationEvents(inp, mode, chain)))))
  }

  ghost function Events(inp: Inputs, mode: RevocationMode, cert: Certificate): seq<Event> {
    match ChainOf(inp, cert)
    case None => [Hard(BadCertificateChainIncomplete)]
    case Some(chain) => ChainEvents(inp, mode, chain)
  }

  /** What validation answers. */
  ghost function Validate(inp: Inputs, opt: Options, cert: Certificate): Outcome {
    if !opt.validateChain then Ok([]) else Interpret([], Events(inp, opt.mode, cert), opt.suppressed)
  }

  // ---- What the stages accept ----------------------------------------------------------------

  ghost predicate Signed(inp: Inputs, chain: seq<Certificate>) {
    forall i: nat | i < |chain| :: LinkHolds(inp.crypto, chain, i)
  }

  ghost predicate PolicyMet(inp: Inputs, chain: seq<Certificate>) {
    && (forall c | c in chain :: AlgorithmMeets(inp.policy, c))
    && (chain != [] ==> KeyLengthMeets(inp.policy, chain[0]))
  }

  predicate Trusted(inp: Inputs, chain: seq<Certificate>) {
    ContainsTrusted(chain, inp.trusted) == Some(true)
  }

  ghost predicate AllValid(inp: Inputs, chain: seq<Certificate>) {
    forall c | c in chain :: ValidAt(c, inp.now)
  }

  predicate IssuerMay(chain: seq<Certificate>, i: nat)
    requires i < |chain|
  {
    IsCa(chain[i]) && PathLengthMet(chain, i) && KeyUsageAllows(chain[i], KeyCertSign)
  }

  ghost predicate UsageAllowed(inp: Inputs, chain: seq<Certificate>) {
    && (chain != [] ==> KeyUsageAllows(chain[0], DigitalSignature) && PurposeAllowed(chain[0], inp.purpose))
    && forall i: nat | 0 < i < |chain| :: IssuerMay(chain, i)
  }

  /** A verdict on `cert` that says it is not revoked, signed by its issuer with an allowed algorithm. */
  predicate Cleared(inp: Inputs, cert: Certificate, issuer: Certificate) {
    var answer, crl := OcspAnswer(inp, cert, issuer), ValidCrl(inp, issuer);
    if answer.Some? then
      !SaysRevoked(inp, answer.value, cert.serial) && DataAlgorithmEvents(inp.policy, answer.value.algorithm) == []
    else crl.Some? && !Lists(crl.value, cert.serial) && DataAlgorithmEvents(inp.policy, crl.value.algorithm) == []
  }

  predicate NothingKnown(inp: Inputs, cert: Certificate, issuer: Certificate) {
    OcspAnswer(inp, cert, issuer).None? && ValidCrl(inp, issuer).None?
  }

  ghost predicate RevocationClear(inp: Inputs, mode: RevocationMode, chain: seq<Certificate>) {
    mode.Disabled? || forall i: nat | i + 1 < |chain| ::
      Cleared(inp, chain[i], chain[i + 1]) || (mode.Lenient? && NothingKnown(inp, chain[i], chain[i + 1]))
  }

  ghost predicate Sound(inp: Inputs, mode: RevocationMode, chain: seq<Certificate>) {
    && Signed(inp, chain) && PolicyMet(inp, chain) && Trusted(inp, chain) && AllValid(inp, chain)
    && UsageAllowed(inp, chain) && RevocationClear(inp, mode, chain)
  }
}
