/** What an accepted certificate has to show, told on the fields of the certificates, responses and lists
  alone: how its chain is built, and what has to be in order about it.
  */
module ChainMeaning {
  import opened Certificates
  import opened ChainBuilder
  import opened ChainStages
  import opened ChainSoundness
  import opened Wrappers

  // ---- How a chain is built --------------------------------------------------------------------

  /** The candidate bears the name of the issuer, as rendered, and its key identifier where both are given. */
  predicate Issues(crypto: Crypto, candidate: Certificate, current: Certificate) {
    && crypto.render(candidate.subject) == crypto.render(current.issuer)
    && (current.authorityKey.None? || candidate.subjectKey.None? || current.authorityKey.value == candidate.subjectKey.value)
  }

  ghost predicate FirstIssuer(crypto: Crypto, list: seq<Certificate>, current: Certificate, k: nat) {
    k < |list| && Issues(crypto, list[k], current) && forall j: nat | j < k :: !Issues(crypto, list[j], current)
  }

  /** The first of the certificates offered that could have issued it, or else of the trusted ones. */
  ghost predicate ComesNext(inp: Inputs, current: Certificate, next: Certificate) {
    || (exists k: nat :: FirstIssuer(inp.crypto, inp.issuers, current, k) && next == inp.issuers[k])
    || ((forall c | c in inp.issuers :: !Issues(inp.crypto, c, current))
        && exists k: nat :: FirstIssuer(inp.crypto, inp.trusted, current, k) && next == inp.trusted[k])
  }

  /** The chain starts at the certificate and goes from issuer to issuer up to the first that is
    self-signed or trusted.  It is no longer than ten and holds nothing twice; trusted certificates
    that cannot be encoded break it off. */
  ghost predicate WellBuilt(inp: Inputs, cert: Certificate, chain: seq<Certificate>) {
    && 0 < |chain| <= 10 && chain[0] == cert
    && (forall c | c in chain :: c.der.Some?)
    && (forall i, j | 0 <= i < j < |chain| :: chain[i].der != chain[j].der)
    && (forall i: nat | i + 1 < |chain| :: ComesNext(inp, chain[i], chain[i + 1]))
    && (forall i: nat | i + 1 < |chain| ::
          chain[i].issuer != chain[i].subject && forall t | t in inp.trusted :: t.der.Some? && t.der != chain[i].der)
    && var last := chain[|chain| - 1];
       last.issuer == last.subject || exists k :: OccursAt(last.der.value, inp.trusted, k)
  }

  lemma {:induction false} FirstIssuerIsFound(crypto: Crypto, list: seq<Certificate>, current: Certificate)
    ensures FindIssuerIn(crypto, current, list).None? <==> forall c | c in list :: !Issues(crypto, c, current)
    ensures forall k: nat | FirstIssuer(crypto, list, current, k) :: FindIssuerIn(crypto, current, list) == Some(list[k])
    ensures FindIssuerIn(crypto, current, list).Some? ==> exists k: nat :: FirstIssuer(crypto, list, current, k)
    decreases |list|
  {
    if list != [] {
      FirstIssuerIsFound(crypto, list[1..], current);
      if Issues(crypto, list[0], current) {
        assert FirstIssuer(crypto, list, current, 0);
      } else {
        forall k: nat
          ensures FirstIssuer(crypto, list, current, k) <==> k > 0 && FirstIssuer(crypto, list[1..], current, k - 1)
        {
          FirstIssuerLater(crypto, list, current, k);
        }
        if FindIssuerIn(crypto, current, list).Some? {
          var k: nat :| FirstIssuer(crypto, list[1..], current, k);
          assert FirstIssuer(crypto, list, current, k + 1);
        }
      }
    }
  }

  lemma FirstIssuerLater(crypto: Crypto, list: seq<Certificate>, current: Certificate, k: nat)
    requires list != [] && !Issues(crypto, list[0], current)
    ensures FirstIssuer(crypto, list, current, k) <==> k > 0 && FirstIssuer(crypto, list[1..], current, k - 1)
  {
    hide Issues;
    if k > 0 && FirstIssuer(crypto, list[1..], current, k - 1) {
      forall j: nat | j < k
        ensures !Issues(crypto, list[j], current)
      {
        if j > 0 {
          assert !Issues(crypto, list[1..][j - 1], current);
        }
      }
    }
    if k > 0 && FirstIssuer(crypto, list, current, k) {
      forall j: nat | j < k - 1
        ensures !Issues(crypto, list[1..][j], current)
      {
        assert !Issues(crypto, list[j + 1], current);
      }
    }
  }

  lemma NextIsFound(inp: Inputs, current: Certificate, next: Certificate)
    ensures ComesNext(inp, current, next) <==> FindIssuer(inp, current) == Some(next)
  {
    hide Issues, FirstIssuer, FindIssuerIn;
    FirstIssuerIsFound(inp.crypto, inp.issuers, current);
    FirstIssuerIsFound(inp.crypto, inp.trusted, current);
    IssuerIsAmong(inp.crypto, inp.issuers, current);
  }

  lemma IssuerIsAmong(crypto: Crypto, list: seq<Certificate>, current: Certificate)
    ensures forall k: nat | FirstIssuer(crypto, list, current, k) :: k < |list| && list[k] in list && Issues(crypto, list[k], current)
  {
  }

  lemma {:induction false} NotListed(der: Bytes, list: seq<Certificate>)
    ensures DerInList(der, list) == Some(false) <==> forall t | t in list :: t.der.Some? && t.der != Some(der)
    decreases |list|
  {
    if list != [] {
      NotListed(der, list[1..]);
    }
  }

  lemma AnchorMeaning(inp: Inputs, c: Certificate)
    requires c.der.Some?
    ensures Anchors(inp, c) == Some(true) <==> c.issuer == c.subject || exists k :: OccursAt(c.der.value, inp.trusted, k)
    ensures Anchors(inp, c) == Some(false) <==>
      c.issuer != c.subject && forall t | t in inp.trusted :: t.der.Some? && t.der != c.der
  {
    hide OccursAt;
    FoundMeansOccurs(c.der.value, inp.trusted);
    NotListed(c.der.value, inp.trusted);
  }

  /** The chains that are built are exactly these. */
  lemma ChainsAreWellBuilt(inp: Inputs, cert: Certificate, chain: seq<Certificate>)
    ensures IsChain(inp, cert, chain) <==> WellBuilt(inp, cert, chain)
  {
    hide ComesNext, Anchors, FindIssuer, OccursAt;
    if 0 < |chain| && forall c | c in chain :: c.der.Some? {
      forall i: nat | i + 1 < |chain|
        ensures ComesNext(inp, chain[i], chain[i + 1]) <==> FindIssuer(inp, chain[i]) == Some(chain[i + 1])
        ensures Anchors(inp, chain[i]) == Some(false) <==>
          chain[i].issuer != chain[i].subject && forall t | t in inp.trusted :: t.der.Some? && t.der != chain[i].der
      {
        NextIsFound(inp, chain[i], chain[i + 1]);
        AnchorMeaning(inp, chain[i]);
      }
      AnchorMeaning(inp, chain[|chain| - 1]);
    }
  }

  // ---- Signatures, policy, trust, dates and use --------------------------------------------------

  /** The key verifies the signature with an algorithm that is known, an EC key where that asks for one. */
  predicate SignatureHolds(crypto: Crypto, key: Option<PublicKey>, tbs: Option<Bytes>, signature: Option<Bytes>,
      algorithm: Algorithm) {
    && key.Some? && tbs.Some? && signature.Some? && crypto.verify(algorithm, key.value, tbs.value, signature.value)
    && !algorithm.OtherAlgorithm? && (algorithm in {EcdsaSha256, EcdsaSha384} ==> key.value.EcKey?)
  }

  predicate Certifies(crypto: Crypto, issuer: Certificate, child: Certificate) {
    child.signature.Some? && SignatureHolds(crypto, issuer.publicKey, child.tbs, Some(child.signature.value.value), child.signature.value.algorithm)
  }

  ghost predicate AllSigned(inp: Inputs, chain: seq<Certificate>) {
    && (forall i: nat | i + 1 < |chain| :: Certifies(inp.crypto, chain[i + 1], chain[i]))
    && (chain != [] ==>
          var last := chain[|chain| - 1]; last.issuer == last.subject ==> Certifies(inp.crypto, last, last))
  }

  /** Under no policy everything is allowed. */
  predicate Allowed(policy: Policy, algorithm: Algorithm) {
    policy.Policy? ==> algorithm in policy.allowed
  }

  predicate Weak(policy: Policy, c: Certificate) {
    policy.Policy? && !(c.signature.Some? && c.signature.value.algorithm in policy.allowed)
  }

  predicate ShortKey(policy: Policy, c: Certificate) {
    policy.Policy? && !(c.keyLength.Some? && policy.keyLengthAllowed(c.keyLength.value))
  }

  /** A certificate of the chain is on the trust list, byte for byte, with nothing unreadable on the way to
    it. */
  ghost predicate SharesTrusted(inp: Inputs, chain: seq<Certificate>) {
    exists i: nat, k: nat :: SharedAt(inp, chain, i, k)
  }

  ghost predicate SharedAt(inp: Inputs, chain: seq<Certificate>, i: nat, k: nat) {
    && i < |chain| && (forall j: nat | j <= i :: chain[j].der.Some?)
    && OccursAt(chain[i].der.value, inp.trusted, k)
    && (i > 0 ==> forall t | t in inp.trusted :: t.der.Some?)
  }

  predicate WithinDates(c: Certificate, now: int) {
    c.notBefore.Some? && c.notAfter.Some? && c.notBefore.value <= now && now <= c.notAfter.value
  }

  predicate MaySign(c: Certificate) {
    c.keyUsage.None? || DigitalSignature in c.keyUsage.value
  }

  predicate MayServe(c: Certificate, purpose: Purpose) {
    c.extendedKeyUsage.None? || c.extendedKeyUsage.value == [] || AnyExtendedUsage in c.extendedKeyUsage.value
    || match purpose
       case ServerApplication => ServerAuth in c.extendedKeyUsage.value
       case ClientApplication => ClientAuth in c.extendedKeyUsage.value
  }

  predicate Ca(c: Certificate) {
    c.basicConstraints.Some? && c.basicConstraints.value.ca
  }

  predicate MayCertify(c: Certificate) {
    c.keyUsage.None? || KeyCertSign in c.keyUsage.value
  }

  /** The CAs strictly between the leaf and the certificate at `i`. */
  ghost function CasBelow(chain: seq<Certificate>, i: nat): set<nat>
    requires i <= |chain|
  {
    set j: nat | 0 < j < i && Ca(chain[j])
  }

  ghost predicate TooDeep(chain: seq<Certificate>, i: nat)
    requires i < |chain|
  {
    var b := chain[i].basicConstraints;
    b.Some? && b.value.pathLen.Some? && |CasBelow(chain, i)| > b.value.pathLen.value
  }

  // ---- Revocation ----------------------------------------------------------------------------------

  /** A current answer for the serial number, good or revoked. */
  predicate Tells(r: SingleResponse, serial: Bytes, now: int) {
    && r.serial == serial && r.thisUpdate <= now && (r.nextUpdate.None? || now <= r.nextUpdate.value)
    && (r.status == StatusGood || r.status == StatusRevoked)
  }

  ghost predicate TellsFirst(r: OcspResponse, serial: Bytes, now: int, m: nat) {
    && r.Basic? && m < |r.responses| && Tells(r.responses[m], serial, now)
    && forall j: nat | j < m :: !Tells(r.responses[j], serial, now)
  }

  ghost predicate Usable(inp: Inputs, r: OcspResponse, issuer: Certificate, serial: Bytes) {
    && (exists m: nat :: TellsFirst(r, serial, inp.now, m))
    && SignatureHolds(inp.crypto, issuer.publicKey, r.tbs, r.signature, r.algorithm)
  }

  /** The first usable response is `k`, and its first answer `m`. */
  ghost predicate OcspSays(inp: Inputs, cert: Certificate, issuer: Certificate, k: nat, m: nat) {
    && k < |inp.ocsp| && Usable(inp, inp.ocsp[k], issuer, cert.serial)
    && TellsFirst(inp.ocsp[k], cert.serial, inp.now, m)
    && forall j: nat | j < k :: !Usable(inp, inp.ocsp[j], issuer, cert.serial)
  }

  /** A current list of the issuer, signed by it. */
  predicate ListFits(inp: Inputs, crl: Crl, issuer: Certificate) {
    && inp.crypto.render(crl.issuer) == inp.crypto.render(issuer.subject)
    && (crl.nextUpdate.None? || inp.now <= crl.nextUpdate.value)
    && SignatureHolds(inp.crypto, issuer.publicKey, crl.tbs, crl.signature, crl.algorithm)
  }

  ghost predicate ListCounts(inp: Inputs, issuer: Certificate, k: nat) {
    k < |inp.crls| && ListFits(inp, inp.crls[k], issuer) && forall j: nat | j < k :: !ListFits(inp, inp.crls[j], issuer)
  }

  ghost predicate NoResponse(inp: Inputs, cert: Certificate, issuer: Certificate) {
    forall k, m :: !OcspSays(inp, cert, issuer, k, m)
  }

  ghost predicate NoList(inp: Inputs, issuer: Certificate) {
    forall k :: !ListCounts(inp, issuer, k)
  }

  /** The word on a certificate: that it is revoked or not, and the algorithm that signed it. */
  ghost predicate Word(inp: Inputs, cert: Certificate, issuer: Certificate, revoked: bool, algorithm: Algorithm) {
    || (exists k: nat, m: nat :: OcspSays(inp, cert, issuer, k, m)
                       && revoked == (inp.ocsp[k].responses[m].status == StatusRevoked) && algorithm == inp.ocsp[k].algorithm)
    || (NoResponse(inp, cert, issuer)
        && exists k: nat :: ListCounts(inp, issuer, k) && algorithm == inp.crls[k].algorithm
                       && revoked == (inp.crls[k].revoked.Some? && cert.serial in inp.crls[k].revoked.value))
  }

  /** With no word there is no usable response and no list that fits. */
  ghost predicate NoWord(inp: Inputs, cert: Certificate, issuer: Certificate) {
    NoResponse(inp, cert, issuer) && NoList(inp, issuer)
  }

  lemma SignaturesAgree(crypto: Crypto, key: PublicKey, tbs: Option<Bytes>, signature: Option<Bytes>, algorithm: Algorithm)
    ensures DataSigned(crypto, key, tbs, signature, algorithm) <==> SignatureHolds(crypto, Some(key), tbs, signature, algorithm)
  {
  }

  lemma DecidingTells(r: SingleResponse, serial: Bytes, now: int)
    ensures Decides(r, serial, now) <==> Tells(r, serial, now)
  {
  }

  lemma {:induction false} FirstVerdict(r: OcspResponse, serial: Bytes, now: int, from: nat) returns (m: nat)
    requires r.Basic? && from <= |r.responses| && forall j: nat | j < from :: !Tells(r.responses[j], serial, now)
    ensures
      match VerdictFor(r.responses[from..], serial, now)
      case None => forall j: nat | j < |r.responses| :: !Tells(r.responses[j], serial, now)
      case Some(v) => TellsFirst(r, serial, now, m) && (v.Revoked? <==> r.responses[m].status == StatusRevoked)
    decreases |r.responses| - from
  {
    hide Decides, Tells;
    m := from;
    if from < |r.responses| {
      DecidingTells(r.responses[from], serial, now);
      assert r.responses[from..][0] == r.responses[from] && r.responses[from..][1..] == r.responses[from + 1..];
      if !Tells(r.responses[from], serial, now) {
        m := FirstVerdict(r, serial, now, from + 1);
      } else {
        StatusTold(r.responses[from], serial, now);
      }
    }
  }

  lemma StatusTold(r: SingleResponse, serial: Bytes, now: int)
    ensures Tells(r, serial, now) ==> (r.status.StatusRevoked? <==> r.status == StatusRevoked)
  {
  }

  /** A response answers exactly when it is usable, and says what its first answer says. */
  lemma AnswersMeaning(inp: Inputs, r: OcspResponse, issuer: Certificate, serial: Bytes)
    requires issuer.publicKey.Some?
    ensures Answers(inp, r, issuer.publicKey.value, serial) <==> Usable(inp, r, issuer, serial)
    ensures forall m: nat | TellsFirst(r, serial, inp.now, m) ::
      SaysRevoked(inp, r, serial) <==> r.responses[m].status == StatusRevoked
  {
    hide Tells, SignatureHolds, DataSigned;
    if r.Basic? {
      SignaturesAgree(inp.crypto, issuer.publicKey.value, r.tbs, r.signature, r.algorithm);
      assert r.responses[0..] == r.responses;
      var first := FirstVerdict(r, serial, inp.now, 0);
      forall m: nat | TellsFirst(r, serial, inp.now, m)
        ensures VerdictFor(r.responses, serial, inp.now).Some? && m == first
      {
      }
    }
  }

  lemma {:induction false} AnswerIsFirst(inp: Inputs, cert: Certificate, issuer: Certificate, from: nat) returns (k: nat)
    requires issuer.publicKey.Some? && from <= |inp.ocsp|
    requires forall j: nat | j < from :: !Usable(inp, inp.ocsp[j], issuer, cert.serial)
    ensures
      match FirstAnswer(inp, inp.ocsp[from..], issuer.publicKey.value, cert.serial)
      case None => forall j: nat | j < |inp.ocsp| :: !Usable(inp, inp.ocsp[j], issuer, cert.serial)
      case Some(r) =>
        && k < |inp.ocsp| && r == inp.ocsp[k] && Usable(inp, r, issuer, cert.serial)
        && forall j: nat | j < k :: !Usable(inp, inp.ocsp[j], issuer, cert.serial)
    decreases |inp.ocsp| - from
  {
    hide Answers, Usable;
    k := from;
    if from < |inp.ocsp| {
      AnswersMeaning(inp, inp.ocsp[from], issuer, cert.serial);
      assert inp.ocsp[from..][0] == inp.ocsp[from] && inp.ocsp[from..][1..] == inp.ocsp[from + 1..];
      if !Usable(inp, inp.ocsp[from], issuer, cert.serial) {
        k := AnswerIsFirst(inp, cert, issuer, from + 1);
      }
    }
  }

  /** The answer that counts is the one of the first usable response. */
  lemma OcspMeaning(inp: Inputs, cert: Certificate, issuer: Certificate)
    ensures OcspAnswer(inp, cert, issuer).None? <==> NoResponse(inp, cert, issuer)
    ensures forall k: nat, m: nat | OcspSays(inp, cert, issuer, k, m) ::
      && OcspAnswer(inp, cert, issuer) == Some(inp.ocsp[k])
      && (SaysRevoked(inp, inp.ocsp[k], cert.serial) <==> inp.ocsp[k].responses[m].status == StatusRevoked)
  {
    hide Tells, FirstAnswer, SaysRevoked;
    if issuer.publicKey.Some? {
      assert inp.ocsp[0..] == inp.ocsp;
      var first := AnswerIsFirst(inp, cert, issuer, 0);
      forall k: nat, m: nat | OcspSays(inp, cert, issuer, k, m)
        ensures k == first && FirstAnswer(inp, inp.ocsp, issuer.publicKey.value, cert.serial) == Some(inp.ocsp[k])
        ensures SaysRevoked(inp, inp.ocsp[k], cert.serial) <==> inp.ocsp[k].responses[m].status == StatusRevoked
      {
        AnswersMeaning(inp, inp.ocsp[k], issuer, cert.serial);
      }
      if OcspAnswer(inp, cert, issuer).Some? {
        var m: nat :| TellsFirst(inp.ocsp[first], cert.serial, inp.now, m);
        assert OcspSays(inp, cert, issuer, first, m);
      }
    }
  }

  lemma {:induction false} ListIsFirst(inp: Inputs, issuer: Certificate, from: nat) returns (k: nat)
    requires issuer.publicKey.Some? && from <= |inp.crls|
    requires forall j: nat | j < from :: !ListFits(inp, inp.crls[j], issuer)
    ensures
      match FirstCrl(inp, inp.crls[from..], issuer, issuer.publicKey.value)
      case None => forall j: nat | j < |inp.crls| :: !ListFits(inp, inp.crls[j], issuer)
      case Some(crl) => ListCounts(inp, issuer, k) && crl == inp.crls[k]
    decreases |inp.crls| - from
  {
    hide SignatureHolds, DataSigned;
    k := from;
    if from < |inp.crls| {
      var crl := inp.crls[from];
      SignaturesAgree(inp.crypto, issuer.publicKey.value, crl.tbs, crl.signature, crl.algorithm);
      assert inp.crls[from..][0] == crl && inp.crls[from..][1..] == inp.crls[from + 1..];
      if !ListFits(inp, crl, issuer) {
        k := ListIsFirst(inp, issuer, from + 1);
      }
    }
  }

  lemma ListMeaning(inp: Inputs, issuer: Certificate)
    ensures ValidCrl(inp, issuer).None? <==> NoList(inp, issuer)
    ensures forall k: nat | ListCounts(inp, issuer, k) :: ValidCrl(inp, issuer) == Some(inp.crls[k])
  {
    hide FirstCrl;
    if issuer.publicKey.Some? {
      assert inp.crls[0..] == inp.crls;
      var first := ListIsFirst(inp, issuer, 0);
      hide ListFits;
      forall k: nat | ListCounts(inp, issuer, k)
        ensures k == first && FirstCrl(inp, inp.crls, issuer, issuer.publicKey.value) == Some(inp.crls[k])
      {
      }
    }
  }

  lemma AllowedMeaning(policy: Policy, algorithm: Algorithm)
    ensures DataAlgorithmEvents(policy, algorithm) == [] <==> Allowed(policy, algorithm)
  {
  }

  lemma ListedMeaning(crl: Crl, serial: Bytes)
    ensures Lists(crl, serial) <==> crl.revoked.Some? && serial in crl.revoked.value
  {
  }

  /** What is reported about a certificate: its algorithm and its revocation, going by the word on it. */
  lemma WordMeaning(inp: Inputs, mode: RevocationMode, cert: Certificate, issuer: Certificate, i: nat)
    ensures NoWord(inp, cert, issuer) || exists revoked, algorithm :: Word(inp, cert, issuer, revoked, algorithm)
    ensures NoWord(inp, cert, issuer) ==> PairEvents(inp, mode, cert, issuer, i) == UnknownEvents(mode, i)
    ensures forall revoked, algorithm | Word(inp, cert, issuer, revoked, algorithm) ::
      && !NoWord(inp, cert, issuer)
      && PairEvents(inp, mode, cert, issuer, i) == DataAlgorithmEvents(inp.policy, algorithm) + RevokedEvents(revoked, i)
  {
    hide OcspSays, ListCounts, OcspAnswer, ValidCrl, SaysRevoked, Lists, DataAlgorithmEvents, RevokedEvents, UnknownEvents;
    OcspMeaning(inp, cert, issuer);
    ListMeaning(inp, issuer);
    forall k: nat | ListCounts(inp, issuer, k)
      ensures k < |inp.crls| && Lists(inp.crls[k], cert.serial) == (inp.crls[k].revoked.Some? && cert.serial in inp.crls[k].revoked.value)
    {
      InList(inp, issuer, k);
      ListedMeaning(inp.crls[k], cert.serial);
    }
    forall k: nat, m: nat | OcspSays(inp, cert, issuer, k, m)
      ensures k < |inp.ocsp| && inp.ocsp[k].Basic? && m < |inp.ocsp[k].responses|
    {
      InResponses(inp, cert, issuer, k, m);
    }
    if !NoResponse(inp, cert, issuer) {
      var k: nat, m: nat :| OcspSays(inp, cert, issuer, k, m);
      assert Word(inp, cert, issuer, inp.ocsp[k].responses[m].status == StatusRevoked, inp.ocsp[k].algorithm);
    } else if !NoList(inp, issuer) {
      var k: nat :| ListCounts(inp, issuer, k);
      assert Word(inp, cert, issuer, inp.crls[k].revoked.Some? && cert.serial in inp.crls[k].revoked.value, inp.crls[k].algorithm);
    }
  }

  lemma InList(inp: Inputs, issuer: Certificate, k: nat)
    requires ListCounts(inp, issuer, k)
    ensures k < |inp.crls|
  {
  }

  lemma InResponses(inp: Inputs, cert: Certificate, issuer: Certificate, k: nat, m: nat)
    requires OcspSays(inp, cert, issuer, k, m)
    ensures k < |inp.ocsp| && inp.ocsp[k].Basic? && m < |inp.ocsp[k].responses|
  {
  }

  // ---- Soundness -----------------------------------------------------------------------------------

  /** Not revoked, as far as the mode asks: good word, or with lenient checking none at all. */
  ghost predicate InTheClear(inp: Inputs, mode: RevocationMode, cert: Certificate, issuer: Certificate) {
    || (exists algorithm :: Word(inp, cert, issuer, false, algorithm) && Allowed(inp.policy, algorithm))
    || (mode == Lenient && NoWord(inp, cert, issuer))
  }

  /** Everything about a chain is in order. */
  ghost predicate InOrder(inp: Inputs, mode: RevocationMode, chain: seq<Certificate>) {
    && AllSigned(inp, chain)
    && (forall c | c in chain :: !Weak(inp.policy, c))
    && (chain != [] ==> !ShortKey(inp.policy, chain[0]) && MaySign(chain[0]) && MayServe(chain[0], inp.purpose))
    && SharesTrusted(inp, chain)
    && (forall c | c in chain :: WithinDates(c, inp.now))
    && (forall i: nat | 0 < i < |chain| :: Ca(chain[i]) && MayCertify(chain[i])
          && (chain[i].basicConstraints.value.pathLen.Some? ==> i - 1 <= chain[i].basicConstraints.value.pathLen.value))
    && (mode != Disabled ==> forall i: nat | i + 1 < |chain| :: InTheClear(inp, mode, chain[i], chain[i + 1]))
  }

  lemma SignedMeaning(inp: Inputs, chain: seq<Certificate>)
    ensures Signed(inp, chain) <==> AllSigned(inp, chain)
    ensures forall i: nat | i + 1 < |chain| :: LinkHolds(inp.crypto, chain, i) <==> Certifies(inp.crypto, chain[i + 1], chain[i])
  {
    forall c, issuer
      ensures SignedBy(inp.crypto, c, issuer) <==> Certifies(inp.crypto, issuer, c)
    {
      CertifiesMeaning(inp.crypto, c, issuer);
    }
    hide SignedBy, Certifies;
    if AllSigned(inp, chain) {
      forall i: nat | i < |chain|
        ensures LinkHolds(inp.crypto, chain, i)
      {
        assert i + 1 < |chain| ==> Certifies(inp.crypto, chain[i + 1], chain[i]);
      }
    }
    if Signed(inp, chain) {
      forall i: nat | i + 1 < |chain|
        ensures Certifies(inp.crypto, chain[i + 1], chain[i])
      {
        assert LinkHolds(inp.crypto, chain, i);
      }
      assert chain != [] ==> LinkHolds(inp.crypto, chain, |chain| - 1);
    }
  }

  lemma CertifiesMeaning(crypto: Crypto, child: Certificate, issuer: Certificate)
    ensures SignedBy(crypto, child, issuer) <==> Certifies(crypto, issuer, child)
  {
  }

  lemma FieldsMeaning(inp: Inputs, c: Certificate)
    ensures AlgorithmMeets(inp.policy, c) <==> !Weak(inp.policy, c)
    ensures KeyLengthMeets(inp.policy, c) <==> !ShortKey(inp.policy, c)
    ensures ValidAt(c, inp.now) <==> WithinDates(c, inp.now)
    ensures KeyUsageAllows(c, DigitalSignature) <==> MaySign(c)
    ensures PurposeAllowed(c, inp.purpose) <==> MayServe(c, inp.purpose)
    ensures IsCa(c) <==> Ca(c)
    ensures KeyUsageAllows(c, KeyCertSign) <==> MayCertify(c)
  {
  }

  lemma {:induction false} SubordinatesAreCounted(chain: seq<Certificate>, i: nat)
    requires i <= |chain|
    ensures SubordinateCas(chain, i) == |CasBelow(chain, i)|
  {
    if i <= 1 {
      assert CasBelow(chain, i) == {};
    } else {
      SubordinatesAreCounted(chain, i - 1);
      assert CasBelow(chain, i) == CasBelow(chain, i - 1) + if Ca(chain[i - 1]) then {i - 1} else {};
    }
  }

  lemma DepthMeaning(chain: seq<Certificate>, i: nat)
    requires i < |chain|
    ensures PathLengthMet(chain, i) <==> !TooDeep(chain, i)
    ensures 0 < i && (forall j: nat | 0 < j < i :: Ca(chain[j])) ==> |CasBelow(chain, i)| == i - 1
  {
    hide CasBelow;
    SubordinatesAreCounted(chain, i);
    if 0 < i && forall j: nat | 0 < j < i :: Ca(chain[j]) {
      AllBelowCount(chain, i);
    }
  }

  lemma {:induction false} AllBelowCount(chain: seq<Certificate>, i: nat)
    requires 0 < i <= |chain| && forall j: nat | 0 < j < i :: Ca(chain[j])
    ensures SubordinateCas(chain, i) == i - 1
  {
    if i > 1 {
      AllBelowCount(chain, i - 1);
    }
  }

  lemma {:induction false} TrustMeaning(inp: Inputs, chain: seq<Certificate>)
    ensures Trusted(inp, chain) <==> SharesTrusted(inp, chain)
  {
    TrustFrom(inp, chain, 0);
    assert chain[0..] == chain;
  }

  lemma {:induction false} TrustFrom(inp: Inputs, chain: seq<Certificate>, from: nat)
    requires from <= |chain| && forall j: nat | j < from :: chain[j].der.Some? && DerInList(chain[j].der.value, inp.trusted) == Some(false)
    ensures ContainsTrusted(chain[from..], inp.trusted) == Some(true) <==> SharesTrusted(inp, chain)
    decreases |chain| - from
  {
    hide OccursAt;
    if from < |chain| && chain[from].der.Some? {
      assert chain[from..][0] == chain[from] && chain[from..][1..] == chain[from + 1..];
      var der := chain[from].der.value;
      FoundMeansOccurs(der, inp.trusted);
      NotListed(der, inp.trusted);
      match DerInList(der, inp.trusted) {
        case Some(true) =>
          var k: nat :| OccursAt(der, inp.trusted, k);
          SharedHere(inp, chain, from, k);
        case Some(false) =>
          TrustFrom(inp, chain, from + 1);
        case None =>
          NotSharedBefore(inp, chain, from);
      }
    } else {
      NotSharedBefore(inp, chain, from);
    }
  }

  lemma SharedHere(inp: Inputs, chain: seq<Certificate>, i: nat, k: nat)
    requires i < |chain| && (forall j: nat | j < i :: chain[j].der.Some? && DerInList(chain[j].der.value, inp.trusted) == Some(false))
    requires chain[i].der.Some? && OccursAt(chain[i].der.value, inp.trusted, k)
    ensures SharesTrusted(inp, chain)
  {
    if i > 0 {
      NotListed(chain[0].der.value, inp.trusted);
    }
    assert SharedAt(inp, chain, i, k);
  }

  /** Nothing is shared up to here, and from here the search does not go on. */
  lemma NotSharedBefore(inp: Inputs, chain: seq<Certificate>, from: nat)
    requires from <= |chain| && forall j: nat | j < from :: chain[j].der.Some? && DerInList(chain[j].der.value, inp.trusted) == Some(false)
    requires from < |chain| && chain[from].der.Some? ==> DerInList(chain[from].der.value, inp.trusted).None?
    ensures !SharesTrusted(inp, chain)
  {
    hide OccursAt;
    forall i: nat, k: nat
      ensures !SharedAt(inp, chain, i, k)
    {
      if SharedAt(inp, chain, i, k) {
        FoundMeansOccurs(chain[i].der.value, inp.trusted);
        NotListed(chain[i].der.value, inp.trusted);
        if i > from {
          ReadableIsKnown(chain[from].der.value, inp.trusted);
        }
      }
    }
  }

  lemma {:induction false} ReadableIsKnown(der: Bytes, list: seq<Certificate>)
    requires forall t | t in list :: t.der.Some?
    ensures DerInList(der, list).Some?
    decreases |list|
  {
    if list != [] {
      ReadableIsKnown(der, list[1..]);
    }
  }

  lemma ClearMeaning(inp: Inputs, mode: RevocationMode, cert: Certificate, issuer: Certificate)
    requires mode != Disabled
    ensures InTheClear(inp, mode, cert, issuer) <==> PairEvents(inp, mode, cert, issuer, 0) == []
  {
    hide Word, NoWord, PairEvents, DataAlgorithmEvents;
    WordMeaning(inp, mode, cert, issuer, 0);
    forall algorithm
      ensures DataAlgorithmEvents(inp.policy, algorithm) == [] <==> Allowed(inp.policy, algorithm)
    {
      AllowedMeaning(inp.policy, algorithm);
    }
  }

  lemma UsageMeaning(inp: Inputs, chain: seq<Certificate>)
    requires chain != []
    ensures UsageAllowed(inp, chain) <==>
      && MaySign(chain[0]) && MayServe(chain[0], inp.purpose)
      && forall i: nat | 0 < i < |chain| :: Ca(chain[i]) && MayCertify(chain[i])
           && (chain[i].basicConstraints.value.pathLen.Some? ==> i - 1 <= chain[i].basicConstraints.value.pathLen.value)
  {
    hide KeyUsageAllows, PurposeAllowed, PathLengthMet, MaySign, MayServe, MayCertify;
    FieldsMeaning(inp, chain[0]);
    forall i: nat | 0 < i < |chain|
      ensures IssuerMay(chain, i) <==> Ca(chain[i]) && MayCertify(chain[i]) && !TooDeep(chain, i)
      ensures (forall j: nat | 0 < j < i :: Ca(chain[j])) ==> |CasBelow(chain, i)| == i - 1
    {
      FieldsMeaning(inp, chain[i]);
      DepthMeaning(chain, i);
    }
    hide IssuerMay, CasBelow;
    if UsageAllowed(inp, chain) {
      forall i: nat | 0 < i < |chain|
        ensures Ca(chain[i]) && MayCertify(chain[i]) && !TooDeep(chain, i)
      {
        assert IssuerMay(chain, i);
      }
    }
  }

  lemma PolicyMeaning(inp: Inputs, chain: seq<Certificate>)
    requires chain != []
    ensures PolicyMet(inp, chain) <==> (forall c | c in chain :: !Weak(inp.policy, c)) && !ShortKey(inp.policy, chain[0])
    ensures AllValid(inp, chain) <==> forall c | c in chain :: WithinDates(c, inp.now)
  {
    hide AlgorithmMeets, KeyLengthMeets, ValidAt, WithinDates, Weak, ShortKey;
    FieldsMeaning(inp, chain[0]);
    forall c
      ensures AlgorithmMeets(inp.policy, c) <==> !Weak(inp.policy, c)
      ensures ValidAt(c, inp.now) <==> WithinDates(c, inp.now)
    {
      FieldsMeaning(inp, c);
    }
  }

  lemma RevocationMeaning(inp: Inputs, mode: RevocationMode, chain: seq<Certificate>)
    requires mode != Disabled
    ensures RevocationClear(inp, mode, chain) <==> forall i: nat | i + 1 < |chain| :: InTheClear(inp, mode, chain[i], chain[i + 1])
  {
    hide Cleared, NothingKnown, InTheClear, PairEvents;
    forall i: nat | i + 1 < |chain|
      ensures InTheClear(inp, mode, chain[i], chain[i + 1]) <==>
        Cleared(inp, chain[i], chain[i + 1]) || (mode.Lenient? && NothingKnown(inp, chain[i], chain[i + 1]))
    {
      PairSilent(inp, mode, chain[i], chain[i + 1], 0);
      ClearMeaning(inp, mode, chain[i], chain[i + 1]);
    }
  }

  /** A chain is sound exactly when everything about it is in order. */
  lemma SoundMeaning(inp: Inputs, mode: RevocationMode, chain: seq<Certificate>)
    requires chain != []
    ensures Sound(inp, mode, chain) <==> InOrder(inp, mode, chain)
  {
    hide Signed, AllSigned, PolicyMet, Weak, ShortKey, Trusted, SharesTrusted, AllValid, WithinDates, UsageAllowed, MaySign,
         MayServe, MayCertify, InTheClear;
    SignedMeaning(inp, chain);
    PolicyMeaning(inp, chain);
    TrustMeaning(inp, chain);
    UsageMeaning(inp, chain);
    if mode != Disabled {
      RevocationMeaning(inp, mode, chain);
    } else {
      assert RevocationClear(inp, mode, chain);
    }
  }

  /** With nothing suppressed, a certificate is accepted exactly when it has a well-built chain about which
    everything is in order. */
  lemma AcceptedIffInOrder(inp: Inputs, opt: Options, cert: Certificate)
    requires opt.validateChain && opt.suppressed == {}
    ensures Validate(inp, opt, cert).Ok? <==> exists chain :: WellBuilt(inp, cert, chain) && InOrder(inp, opt.mode, chain)
  {
    hide Sound, InOrder, WellBuilt, IsChain, Validate;
    AcceptedIffSound(inp, opt, cert);
    forall chain
      ensures IsChain(inp, cert, chain) <==> WellBuilt(inp, cert, chain)
      ensures IsChain(inp, cert, chain) ==> (Sound(inp, opt.mode, chain) <==> InOrder(inp, opt.mode, chain))
    {
      ChainsAreWellBuilt(inp, cert, chain);
      if IsChain(inp, cert, chain) {
        HasFirst(inp, cert, chain);
        SoundMeaning(inp, opt.mode, chain);
      }
    }
  }
}
