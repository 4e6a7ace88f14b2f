/** What an accepted certificate has behind it. */
module ChainSoundness {
  import opened Certificates
  import opened ChainBuilder
  import opened ChainStages
  import opened Wrappers

  /** The pipeline has nothing to report about a chain exactly when it is sound. */
  lemma SilentIffSound(inp: Inputs, mode: RevocationMode, chain: seq<Certificate>)
    requires chain != []
    ensures ChainEvents(inp, mode, chain) == [] <==> Sound(inp, mode, chain)
  {
    hide Signed, PolicyMet, AllValid, UsageAllowed, RevocationClear, Trusted, PolicyEvents, RevocationEvents, UpTo;
    SignaturesSilent(inp, chain);
    PolicySilent(inp, chain);
    ValiditySilent(inp, chain);
    UsageSilent(inp, chain);
    RevocationSilent(inp, mode, chain);
    assert TrustEvents(inp, chain) == [] <==> Trusted(inp, chain) by {
      TrustSilent(inp, chain);
    }
  }

  lemma SignaturesSilent(inp: Inputs, chain: seq<Certificate>)
    ensures UpTo(SignatureStage(inp, chain), |chain|) == [] <==> Signed(inp, chain)
  {
    hide LinkHolds;
    var f := SignatureStage(inp, chain);
    UpToEmpty(f, |chain|);
    if Signed(inp, chain) {
      assert forall i: nat | i < |chain| :: LinkHolds(inp.crypto, chain, i);
    } else {
      var i: nat :| i < |chain| && !LinkHolds(inp.crypto, chain, i);
      assert f(i) != [];
    }
  }

  lemma PolicySilent(inp: Inputs, chain: seq<Certificate>)
    requires chain != []
    ensures PolicyEvents(inp, chain) == [] <==> PolicyMet(inp, chain)
  {
    var f := AlgorithmStage(inp, chain);
    UpToEmpty(f, |chain|);
    if c :| c in chain && !AlgorithmMeets(inp.policy, c) {
      var i :| 0 <= i < |chain| && chain[i] == c;
      assert f(i) != [];
    }
  }

  lemma TrustSilent(inp: Inputs, chain: seq<Certificate>)
    ensures TrustEvents(inp, chain) == [] <==> Trusted(inp, chain)
  {
  }

  lemma ValiditySilent(inp: Inputs, chain: seq<Certificate>)
    ensures UpTo(ValidityStage(inp, chain), |chain|) == [] <==> AllValid(inp, chain)
  {
    var f := ValidityStage(inp, chain);
    UpToEmpty(f, |chain|);
    if c :| c in chain && !ValidAt(c, inp.now) {
      var i :| 0 <= i < |chain| && chain[i] == c;
      assert f(i) != [];
    }
  }

  lemma UsageSilent(inp: Inputs, chain: seq<Certificate>)
    requires chain != []
    ensures UpTo(UsageStage(inp, chain), |chain|) == [] <==> UsageAllowed(inp, chain)
  {
    hide UsageEvents, IssuerMay, KeyUsageAllows, PurposeAllowed;
    var f := UsageStage(inp, chain);
    UpToEmpty(f, |chain|);
    LeafUsageSilent(inp, chain);
    assert f(0) == UsageEvents(inp, chain, 0);
    forall i: nat | 0 < i < |chain|
      ensures f(i) == [] <==> IssuerMay(chain, i)
    {
      IssuerUsageSilent(inp, chain, i);
    }
  }

  lemma LeafUsageSilent(inp: Inputs, chain: seq<Certificate>)
    requires chain != []
    ensures UsageEvents(inp, chain, 0) == []
       <==> KeyUsageAllows(chain[0], DigitalSignature) && PurposeAllowed(chain[0], inp.purpose)
  {
    hide KeyUsageAllows, PurposeAllowed;
  }

  lemma IssuerUsageSilent(inp: Inputs, chain: seq<Certificate>, i: nat)
    requires 0 < i < |chain|
    ensures UsageEvents(inp, chain, i) == [] <==> IssuerMay(chain, i)
  {
    hide KeyUsageAllows, PathLengthMet, IsCa;
  }

  lemma RevocationSilent(inp: Inputs, mode: RevocationMode, chain: seq<Certificate>)
    ensures RevocationEvents(inp, mode, chain) == [] <==> RevocationClear(inp, mode, chain)
  {
    hide PairEvents, Cleared, NothingKnown, UpTo;
    if !mode.Disabled? {
      var f := RevocationStage(inp, mode, chain);
      UpToEmpty(f, |chain|);
      forall i: nat | i + 1 < |chain|
        ensures f(i) == [] <==>
          Cleared(inp, chain[i], chain[i + 1]) || (mode.Lenient? && NothingKnown(inp, chain[i], chain[i + 1]))
      {
        PairSilent(inp, mode, chain[i], chain[i + 1], i);
      }
    }
  }

  lemma PairSilent(inp: Inputs, mode: RevocationMode, cert: Certificate, issuer: Certificate, i: nat)
    requires !mode.Disabled?
    ensures PairEvents(inp, mode, cert, issuer, i) == []
       <==> Cleared(inp, cert, issuer) || (mode.Lenient? && NothingKnown(inp, cert, issuer))
  {
    hide OcspAnswer, ValidCrl, Lists, SaysRevoked;
  }

  // ---- What the parts of soundness mean --------------------------------------------------------

  /** A trusted chain shares a certificate, byte for byte, with the trust list. */
  lemma {:induction false} TrustedMeaning(chain: seq<Certificate>, trusted: seq<Certificate>)
    returns (c: Certificate, t: Certificate)
    requires ContainsTrusted(chain, trusted) == Some(true)
    ensures c in chain && t in trusted && c.der.Some? && c.der == t.der
    decreases |chain|
  {
    FoundMeansOccurs(chain[0].der.value, trusted);
    if DerInList(chain[0].der.value, trusted) == Some(true) {
      var i: nat :| OccursAt(chain[0].der.value, trusted, i);
      c, t := chain[0], trusted[i];
    } else {
      c, t := TrustedMeaning(chain[1..], trusted);
    }
  }

  /** In a chain whose issuers are all CAs, a path length constraint bounds the number of issuers
    between the leaf and the certificate that carries it. */
  lemma PathLengthBoundsDepth(inp: Inputs, chain: seq<Certificate>, i: nat)
    requires UsageAllowed(inp, chain) && 0 < i < |chain|
    ensures chain[i].basicConstraints.Some? && chain[i].basicConstraints.value.ca
    ensures chain[i].basicConstraints.value.pathLen.Some? ==> i - 1 <= chain[i].basicConstraints.value.pathLen.value
  {
    assert IssuerMay(chain, i);
    SubordinateCasOfCas(chain, i);
  }

  lemma {:induction false} SubordinateCasOfCas(chain: seq<Certificate>, i: nat)
    requires 0 < i <= |chain| && forall j: nat | 0 < j < i :: IssuerMay(chain, j)
    ensures SubordinateCas(chain, i) == i - 1
  {
    if i > 1 {
      SubordinateCasOfCas(chain, i - 1);
      assert IssuerMay(chain, i - 1);
    }
  }

  /** A cleared certificate has a response or a list behind it that the issuer signed and that is
    current: the response answers good for its serial, the list does not hold it. */
  lemma ClearedMeaning(inp: Inputs, cert: Certificate, issuer: Certificate)
    requires Cleared(inp, cert, issuer)
    ensures issuer.publicKey.Some?
    ensures
      var key := issuer.publicKey.value;
      || (exists r :: r in inp.ocsp && GoodAnswer(inp, r, key, cert.serial))
      || (exists c :: c in inp.crls && CrlApplies(inp, c, issuer, key) && !Lists(c, cert.serial))
  {
    var key := issuer.publicKey.value;
    FirstAnswerMeaning(inp, inp.ocsp, key, cert.serial);
    FirstCrlMeaning(inp, inp.crls, issuer, key);
    var answer := OcspAnswer(inp, cert, issuer);
    if answer.Some? {
      VerdictMeaning(answer.value.responses, cert.serial, inp.now);
      assert GoodAnswer(inp, answer.value, key, cert.serial);
    }
  }

  ghost predicate GoodAnswer(inp: Inputs, r: OcspResponse, key: PublicKey, serial: Bytes) {
    && r.Basic? && DataSigned(inp.crypto, key, r.tbs, r.signature, r.algorithm)
    && exists single :: single in r.responses && Decides(single, serial, inp.now) && single.status.StatusGood?
  }

  lemma {:induction false} VerdictMeaning(responses: seq<SingleResponse>, serial: Bytes, now: int)
    ensures
      match VerdictFor(responses, serial, now)
      case None => forall r | r in responses :: !Decides(r, serial, now)
      case Some(v) => exists r :: r in responses && Decides(r, serial, now) && r.status.StatusRevoked? == v.Revoked?
    decreases |responses|
  {
    if responses != [] {
      VerdictMeaning(responses[1..], serial, now);
      if !Decides(responses[0], serial, now) {
        match VerdictFor(responses[1..], serial, now) {
          case None =>
          case Some(v) =>
            var r :| r in responses[1..] && Decides(r, serial, now) && r.status.StatusRevoked? == v.Revoked?;
            assert r in responses;
        }
      }
    }
  }

  // ---- Main results --------------------------------------------------------------------------

  /** With every step enforced a certificate is accepted exactly when it has a chain that is sound. */
  lemma AcceptedIffSound(inp: Inputs, opt: Options, cert: Certificate)
    requires opt.validateChain && opt.suppressed == {}
    ensures Validate(inp, opt, cert).Ok? <==> exists chain :: IsChain(inp, cert, chain) && Sound(inp, opt.mode, chain)
    ensures Validate(inp, opt, cert).Ok? ==> Validate(inp, opt, cert).value == []
  {
    hide Sound, ChainEvents, IsChain;
    var events := Events(inp, opt.mode, cert);
    NothingSuppressed(events);
    match ChainOf(inp, cert) {
      case None =>
      case Some(chain) =>
        HasFirst(inp, cert, chain);
        SilentIffSound(inp, opt.mode, chain);
        if other :| IsChain(inp, cert, other) && Sound(inp, opt.mode, other) {
          ChainIsUnique(inp, cert, chain, other);
        }
    }
  }

  lemma HasFirst(inp: Inputs, cert: Certificate, chain: seq<Certificate>)
    requires IsChain(inp, cert, chain)
    ensures chain != [] && chain[0] == cert
  {
  }

  lemma NothingSuppressed(events: seq<Event>)
    ensures Interpret([], events, {}) == Ok([]) <==> events == []
    ensures Interpret([], events, {}).Ok? ==> events == []
  {
  }

  /** Whatever is suppressed, an accepted certificate has a chain that is signed link by link and
    contains a trusted certificate, and nothing in it is known to be revoked unless revocation is off. */
  lemma AcceptedHasTrustedChain(inp: Inputs, opt: Options, cert: Certificate) returns (chain: seq<Certificate>)
    requires opt.validateChain && Validate(inp, opt, cert).Ok?
    ensures IsChain(inp, cert, chain) && Signed(inp, chain) && Trusted(inp, chain)
    ensures !opt.mode.Disabled? ==> forall i: nat | i + 1 < |chain| :: !KnownRevoked(inp, chain[i], chain[i + 1])
  {
    hide IsChain, ChainEvents, Signed, Trusted, KnownRevoked;
    OneHard(BadCertificateChainIncomplete);
    InterpretMeaning(Events(inp, opt.mode, cert), opt.suppressed);
    match ChainOf(inp, cert) {
      case None =>
      case Some(c) =>
        chain := c;
        SoftChain(inp, opt.mode, chain);
    }
  }

  predicate KnownRevoked(inp: Inputs, cert: Certificate, issuer: Certificate) {
    var answer, crl := OcspAnswer(inp, cert, issuer), ValidCrl(inp, issuer);
    if answer.Some? then SaysRevoked(inp, answer.value, cert.serial)
    else crl.Some? && Lists(crl.value, cert.serial)
  }

  lemma SoftChain(inp: Inputs, mode: RevocationMode, chain: seq<Certificate>)
    requires NoneIsHard(ChainEvents(inp, mode, chain))
    ensures Signed(inp, chain) && Trusted(inp, chain)
    ensures !mode.Disabled? ==> forall i: nat | i + 1 < |chain| :: !KnownRevoked(inp, chain[i], chain[i + 1])
  {
    hide LinkHolds, UpTo, PolicyEvents, KnownRevoked, PairEvents, TrustEvents, Trusted, NoneIsHard;
    SoftParts(inp, mode, chain);
    var f, g := SignatureStage(inp, chain), RevocationStage(inp, mode, chain);
    OneHard(BadCertificateInvalid);
    NoneIsHardUpTo(f, |chain|);
    NoneIsHardUpTo(g, |chain|);
    forall i: nat | i < |chain|
      ensures LinkHolds(inp.crypto, chain, i)
    {
      assert NoneIsHard(f(i));
    }
    SoftTrust(inp, chain);
    if !mode.Disabled? {
      forall i: nat | i + 1 < |chain|
        ensures !KnownRevoked(inp, chain[i], chain[i + 1])
      {
        assert NoneIsHard(g(i));
        SoftPair(inp, mode, chain[i], chain[i + 1], i);
      }
    }
  }

  lemma SoftParts(inp: Inputs, mode: RevocationMode, chain: seq<Certificate>)
    requires NoneIsHard(ChainEvents(inp, mode, chain))
    ensures NoneIsHard(UpTo(SignatureStage(inp, chain), |chain|)) && NoneIsHard(TrustEvents(inp, chain))
    ensures NoneIsHard(RevocationEvents(inp, mode, chain))
  {
    hide UpTo, PolicyEvents, TrustEvents, NoneIsHard, RevocationEvents;
    var n := |chain|;
    var last := RevocationEvents(inp, mode, chain);
    var usage := UpTo(UsageStage(inp, chain), n) + last;
    var validity := UpTo(ValidityStage(inp, chain), n) + usage;
    var trust := TrustEvents(inp, chain) + validity;
    NoneIsHardParts(UpTo(SignatureStage(inp, chain), n), PolicyEvents(inp, chain) + trust);
    NoneIsHardParts(PolicyEvents(inp, chain), trust);
    NoneIsHardParts(TrustEvents(inp, chain), validity);
    NoneIsHardParts(UpTo(ValidityStage(inp, chain), n), usage);
    NoneIsHardParts(UpTo(UsageStage(inp, chain), n), last);
  }

  lemma SoftTrust(inp: Inputs, chain: seq<Certificate>)
    requires NoneIsHard(TrustEvents(inp, chain))
    ensures Trusted(inp, chain)
  {
    OneHard(BadCertificateUntrusted);
  }

  lemma SoftPair(inp: Inputs, mode: RevocationMode, cert: Certificate, issuer: Certificate, i: nat)
    requires NoneIsHard(PairEvents(inp, mode, cert, issuer, i))
    ensures !KnownRevoked(inp, cert, issuer)
  {
    hide OcspAnswer, ValidCrl, Lists, SaysRevoked, NoneIsHard;
    OneHard(RevokedStatus(i));
    var answer, crl := OcspAnswer(inp, cert, issuer), ValidCrl(inp, issuer);
    if answer.Some? {
      NoneIsHardParts(DataAlgorithmEvents(inp.policy, answer.value.algorithm), RevokedEvents(SaysRevoked(inp, answer.value, cert.serial), i));
    } else if crl.Some? {
      NoneIsHardParts(DataAlgorithmEvents(inp.policy, crl.value.algorithm), RevokedEvents(Lists(crl.value, cert.serial), i));
    }
  }
}
