/** What the certificate pipeline sees: certificates, revocation data and the caller's options.

  Cryptography is a parameter: `Crypto` says which signatures verify and how names are rendered.  A
  field that the original reads through a fallible accessor is an `Option`.
  */
module Certificates {
  import opened Wrappers

  type Bytes = seq<bv8>

  /** A distinguished name, structurally. */
  type Name = seq<string>

  datatype Algorithm = RsaSha256 | RsaPss | RsaSha1 | EcdsaSha256 | EcdsaSha384 | OtherAlgorithm(oid: string)

  datatype PublicKey = RsaKey(modulus: Bytes) | EcKey(point: Bytes)

  datatype Signature = Signature(algorithm: Algorithm, value: Bytes)

  datatype Usage = DigitalSignature | KeyCertSign | OtherUsage(bit: nat)

  datatype ExtendedUsage = ServerAuth | ClientAuth | AnyExtendedUsage | OtherExtendedUsage(oid: string)

  datatype BasicConstraints = BasicConstraints(ca: bool, pathLen: Option<nat>)

  datatype Certificate = Certificate(
    der: Option<Bytes>,
    subject: Name,
    issuer: Name,
    authorityKey: Option<Bytes>,
    subjectKey: Option<Bytes>,
    publicKey: Option<PublicKey>,
    keyLength: Option<nat>,
    tbs: Option<Bytes>,
    signature: Option<Signature>,
    notBefore: Option<int>,
    notAfter: Option<int>,
    keyUsage: Option<set<Usage>>,
    extendedKeyUsage: Option<seq<ExtendedUsage>>,
    basicConstraints: Option<BasicConstraints>,
    serial: Bytes)

  datatype Crl = Crl(issuer: Name, nextUpdate: Option<int>, tbs: Option<Bytes>, signature: Option<Bytes>,
                     algorithm: Algorithm, revoked: Option<seq<Bytes>>)

  datatype CertStatus = StatusGood | StatusRevoked | StatusUnknown

  datatype SingleResponse = SingleResponse(serial: Bytes, thisUpdate: int, nextUpdate: Option<int>, status: CertStatus)

  /** `Unusable` is a response that does not decode, is not successful or is not of the basic kind. */
  datatype OcspResponse =
    | Unusable
    | Basic(tbs: Option<Bytes>, signature: Option<Bytes>, algorithm: Algorithm, responses: seq<SingleResponse>)

  datatype Purpose = ServerApplication | ClientApplication

  datatype Policy = NoPolicy | Policy(allowed: set<Algorithm>, keyLengthAllowed: nat -> bool)

  datatype Crypto = Crypto(verify: (Algorithm, PublicKey, Bytes, Bytes) -> bool, render: Name -> string)

  datatype Inputs = Inputs(trusted: seq<Certificate>, issuers: seq<Certificate>, crls: seq<Crl>,
                           ocsp: seq<OcspResponse>, policy: Policy, purpose: Purpose, now: int, crypto: Crypto)

  datatype RevocationMode = Disabled | Lenient | Required

  datatype Step = SecurityPolicyStep | ValidityStep | HostNameStep | CertificateUsageStep | FindRevocationListStep

  datatype Options = Options(validateChain: bool, mode: RevocationMode, suppressed: set<Step>)

  datatype Status =
    | BadCertificateChainIncomplete
    | BadCertificateInvalid
    | BadCertificatePolicyCheckFailed
    | BadCertificateUntrusted
    | BadCertificateTimeInvalid
    | BadCertificateIssuerTimeInvalid
    | BadCertificateUseNotAllowed
    | BadCertificateIssuerUseNotAllowed
    | BadCertificateRevoked
    | BadCertificateIssuerRevoked
    | BadCertificateRevocationUnknown
    | BadCertificateIssuerRevocationUnknown

  predicate SelfSigned(c: Certificate) {
    c.issuer == c.subject
  }

  predicate IsCa(c: Certificate) {
    c.basicConstraints.Some? && c.basicConstraints.value.ca
  }

  /** An ECDSA signature needs an EC key; an algorithm outside the list verifies nothing. */
  predicate Verifies(crypto: Crypto, key: PublicKey, tbs: Bytes, signature: Bytes, algorithm: Algorithm) {
    match algorithm
    case OtherAlgorithm(_) => false
    case EcdsaSha256 => key.EcKey? && crypto.verify(algorithm, key, tbs, signature)
    case EcdsaSha384 => key.EcKey? && crypto.verify(algorithm, key, tbs, signature)
    case _ => crypto.verify(algorithm, key, tbs, signature)
  }

  // ---- Findings ----------------------------------------------------------------------------

  datatype Finding = Finding(step: Step, status: Status)

  /** What a stage has to say: a failure an administrator may suppress, or one nobody may. */
  datatype Event = Soft(finding: Finding) | Hard(status: Status)

  type Outcome = Result<seq<Finding>, Status>

  /** The outcome of a run that meets these events in turn, with `suppressed` failing soft. */
  function Interpret(before: seq<Finding>, events: seq<Event>, suppressed: set<Step>): Outcome
    decreases |events|
  {
    if events == [] then Ok(before)
    else match events[0]
      case Hard(status) => Err(status)
      case Soft(f) => if f.step in suppressed then Interpret(before + [f], events[1..], suppressed) else Err(f.status)
  }

  function AndThen(r: Outcome, events: seq<Event>, suppressed: set<Step>): Outcome {
    if r.Err? then r else Interpret(r.value, events, suppressed)
  }

  lemma {:induction false} InterpretAppend(before: seq<Finding>, a: seq<Event>, b: seq<Event>, suppressed: set<Step>)
    ensures Interpret(before, a + b, suppressed) == AndThen(Interpret(before, a, suppressed), b, suppressed)
    decreases |a|
  {
    if a == [] {
      assert a + b == b;
    } else {
      assert (a + b)[1..] == a[1..] + b && (a + b)[0] == a[0];
      if a[0].Soft? && a[0].finding.step in suppressed {
        InterpretAppend(before + [a[0].finding], a[1..], b, suppressed);
      }
    }
  }

  lemma {:induction false} InterpretFrom(before: seq<Finding>, events: seq<Event>, suppressed: set<Step>)
    ensures Interpret(before, events, suppressed)
      == match Interpret([], events, suppressed) case Ok(f) => Ok(before + f) case Err(s) => Err(s)
    decreases |events|
  {
    if events != [] && events[0].Soft? && events[0].finding.step in suppressed {
      var f := [events[0].finding];
      InterpretFrom(before + f, events[1..], suppressed);
      InterpretFrom([] + f, events[1..], suppressed);
      assert forall g :: before + f + g == before + (f + g);
      assert [] + f == f;
    } else if events == [] {
      assert before + [] == before;
    }
  }

  /** The events of a stage that looks at the chain entry by entry. */
  function UpTo(f: nat -> seq<Event>, n: nat): seq<Event> {
    if n == 0 then [] else UpTo(f, n - 1) + f(n - 1)
  }

  /** Once a stage has failed, the entries it did not look at make no difference. */
  lemma {:induction false} FailedEarly(before: seq<Finding>, f: nat -> seq<Event>, i: nat, n: nat,
      suppressed: set<Step>)
    requires i <= n && Interpret(before, UpTo(f, i), suppressed).Err?
    ensures Interpret(before, UpTo(f, n), suppressed) == Interpret(before, UpTo(f, i), suppressed)
    decreases n
  {
    if i < n {
      FailedEarly(before, f, i, n - 1, suppressed);
      InterpretAppend(before, UpTo(f, n - 1), f(n - 1), suppressed);
    }
  }

  lemma {:induction false} UpToEmpty(f: nat -> seq<Event>, n: nat)
    ensures UpTo(f, n) == [] <==> forall i: nat | i < n :: f(i) == []
  {
    if n > 0 {
      UpToEmpty(f, n - 1);
    }
  }

  // ---- Suppression -------------------------------------------------------------------------

  function Findings(events: seq<Event>): seq<Finding>
    decreases |events|
  {
    if events == [] || events[0].Hard? then [] else [events[0].finding] + Findings(events[1..])
  }

  predicate NoneIsHard(events: seq<Event>) {
    forall e | e in events :: e.Soft?
  }

  lemma OneHard(status: Status)
    ensures !NoneIsHard([Hard(status)])
  {
    assert Hard(status) in [Hard(status)];
  }

  lemma NoneIsHardParts(a: seq<Event>, b: seq<Event>)
    ensures NoneIsHard(a + b) <==> NoneIsHard(a) && NoneIsHard(b)
  {
    assert (forall e | e in a :: e in a + b) && (forall e | e in b :: e in a + b);
  }

  lemma {:induction false} NoneIsHardUpTo(f: nat -> seq<Event>, n: nat)
    ensures NoneIsHard(UpTo(f, n)) <==> forall i: nat | i < n :: NoneIsHard(f(i))
  {
    hide NoneIsHard;
    if n == 0 {
      assert NoneIsHard([]) by { EmptyIsSoft(); }
    } else {
      NoneIsHardUpTo(f, n - 1);
      NoneIsHardParts(UpTo(f, n - 1), f(n - 1));
    }
  }

  lemma EmptyIsSoft()
    ensures NoneIsHard([])
  {
  }

  /** The first event that stops a run: a hard one, or a finding of a step that is not suppressed. */
  function FirstStop(events: seq<Event>, suppressed: set<Step>): Option<Status>
    decreases |events|
  {
    if events == [] then None
    else match events[0]
      case Hard(status) => Some(status)
      case Soft(f) => if f.step in suppressed then FirstStop(events[1..], suppressed) else Some(f.status)
  }

  /** The outcome is an error with the first stopping event, or success with all the findings. */
  lemma {:induction false} InterpretMeaning(events: seq<Event>, suppressed: set<Step>)
    ensures Interpret([], events, suppressed)
      == match FirstStop(events, suppressed) case Some(s) => Err(s) case None => Ok(Findings(events))
    ensures FirstStop(events, suppressed).None? <==>
      NoneIsHard(events) && forall f | f in Findings(events) :: f.step in suppressed
    decreases |events|
  {
    if events != [] {
      InterpretMeaning(events[1..], suppressed);
      assert events == [events[0]] + events[1..];
      if events[0].Soft? && events[0].finding.step in suppressed {
        InterpretFrom([events[0].finding], events[1..], suppressed);
        assert [] + [events[0].finding] == [events[0].finding];
      }
    }
  }

  /** The first finding whose step is not suppressed. */
  function FirstUnsuppressed(findings: seq<Finding>, suppressed: set<Step>): Option<Status>
    decreases |findings|
  {
    if findings == [] then None
    else if findings[0].step in suppressed then FirstUnsuppressed(findings[1..], suppressed)
    else Some(findings[0].status)
  }

  /** A run that succeeds with some steps suppressed tells what every other choice of steps would do. */
  lemma {:induction false} SuppressionPredicts(events: seq<Event>, s: set<Step>, t: set<Step>)
    requires Interpret([], events, t).Ok?
    ensures Interpret([], events, s)
      == var found := Interpret([], events, t).value;
         match FirstUnsuppressed(found, s) case Some(status) => Err(status) case None => Ok(found)
    decreases |events|
  {
    InterpretMeaning(events, s);
    InterpretMeaning(events, t);
    if events != [] {
      assert events == [events[0]] + events[1..];
      InterpretMeaning(events[1..], s);
      InterpretMeaning(events[1..], t);
      SuppressionPredicts(events[1..], s, t);
    }
  }
}
