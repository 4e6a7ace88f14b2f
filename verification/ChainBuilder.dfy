/** Building a certificate chain: from the leaf to the first certificate that anchors it. */
module ChainBuilder {
  import opened Certificates
  import opened Wrappers

  const MAX_CHAIN_LENGTH := 10

  // ---- Looking certificates up ---------------------------------------------------------------

  /** Whether a DER occurs in a list; `None` when an unreadable entry comes first. */
  function DerInList(der: Bytes, list: seq<Certificate>): Option<bool>
    decreases |list|
  {
    if list == [] then Some(false)
    else if list[0].der.None? then None
    else if list[0].der.value == der then Some(true)
    else DerInList(der, list[1..])
  }

  /** It occurs at `i`, and everything before that is readable. */
  ghost predicate OccursAt(der: Bytes, list: seq<Certificate>, i: nat) {
    i < |list| && list[i].der == Some(der) && forall j | 0 <= j < i :: list[j].der.Some?
  }

  lemma {:induction false} FoundMeansOccurs(der: Bytes, list: seq<Certificate>)
    ensures DerInList(der, list) == Some(true) <==> exists i :: OccursAt(der, list, i)
    decreases |list|
  {
    if list != [] {
      FoundMeansOccurs(der, list[1..]);
      forall i: nat
        ensures OccursAt(der, list, i) <==>
          if i == 0 then list[0].der == Some(der) else list[0].der.Some? && OccursAt(der, list[1..], i - 1)
      {
        OccursLater(der, list, i);
      }
      assert OccursAt(der, list, 0) <==> list[0].der == Some(der);
      if i: nat :| OccursAt(der, list[1..], i) {
        assert list[0].der.Some? ==> OccursAt(der, list, i + 1);
      }
    }
  }

  lemma OccursLater(der: Bytes, list: seq<Certificate>, i: nat)
    requires list != []
    ensures OccursAt(der, list, i) <==>
      if i == 0 then list[0].der == Some(der) else list[0].der.Some? && OccursAt(der, list[1..], i - 1)
  {
    if i > 0 && list[0].der.Some? && OccursAt(der, list[1..], i - 1) {
      forall j | 0 <= j < i
        ensures list[j].der.Some?
      {
        if j > 0 {
          assert list[1..][j - 1].der.Some?;
        }
      }
    }
    if i > 0 && OccursAt(der, list, i) {
      assert list[0].der.Some?;
    }
  }

  method FindDer(der: Bytes, list: seq<Certificate>) returns (r: Option<bool>)
    ensures r == DerInList(der, list)
  {
    for i := 0 to |list|
      invariant DerInList(der, list) == DerInList(der, list[i..])
    {
      if list[i].der.None? {
        return None;
      }
      if list[i].der.value == der {
        return Some(true);
      }
    }
    r := Some(false);
  }

  /** Names must agree as rendered, and key identifiers when both sides carry one. */
  predicate MatchesIssuer(crypto: Crypto, current: Certificate, candidate: Certificate) {
    && crypto.render(candidate.subject) == crypto.render(current.issuer)
    && (current.authorityKey.Some? && candidate.subjectKey.Some? ==> current.authorityKey == candidate.subjectKey)
  }

  function FindIssuerIn(crypto: Crypto, current: Certificate, candidates: seq<Certificate>): Option<Certificate>
    decreases |candidates|
  {
    if candidates == [] then None
    else if MatchesIssuer(crypto, current, candidates[0]) then Some(candidates[0])
    else FindIssuerIn(crypto, current, candidates[1..])
  }

  lemma {:induction false} FindIssuerInMeaning(crypto: Crypto, current: Certificate, candidates: seq<Certificate>)
    ensures
      match FindIssuerIn(crypto, current, candidates)
      case None => forall c | c in candidates :: !MatchesIssuer(crypto, current, c)
      case Some(c) => c in candidates && MatchesIssuer(crypto, current, c)
    decreases |candidates|
  {
    if candidates != [] {
      FindIssuerInMeaning(crypto, current, candidates[1..]);
    }
  }

  /** Certificates offered for chain building are preferred to trusted ones. */
  function FindIssuer(inp: Inputs, current: Certificate): Option<Certificate> {
    var found := FindIssuerIn(inp.crypto, current, inp.issuers);
    if found.Some? then found else FindIssuerIn(inp.crypto, current, inp.trusted)
  }

  // ---- The chain -----------------------------------------------------------------------------

  /** Whether a certificate ends the chain; `None` when the trust list cannot be read. */
  function Anchors(inp: Inputs, c: Certificate): Option<bool>
    requires c.der.Some?
  {
    if SelfSigned(c) then Some(true) else DerInList(c.der.value, inp.trusted)
  }

  ghost predicate DistinctDers(chain: seq<Certificate>) {
    && (forall c | c in chain :: c.der.Some?)
    && forall i, j | 0 <= i < j < |chain| :: chain[i].der != chain[j].der
  }

  ghost predicate Linked(inp: Inputs, chain: seq<Certificate>) {
    forall i | 0 <= i < |chain| - 1 :: FindIssuer(inp, chain[i]) == Some(chain[i + 1])
  }

  /** The chain of a certificate: each entry is followed by the issuer found for it, up to the first
    entry that anchors, all of them distinct and at most ten. */
  ghost predicate IsChain(inp: Inputs, cert: Certificate, chain: seq<Certificate>) {
    && 0 < |chain| <= MAX_CHAIN_LENGTH && chain[0] == cert
    && DistinctDers(chain) && Linked(inp, chain)
    && (forall i | 0 <= i < |chain| - 1 :: Anchors(inp, chain[i]) == Some(false))
    && Anchors(inp, chain[|chain| - 1]) == Some(true)
  }

  /** What the loop has collected: any chain of the certificate continues it with `current`. */
  ghost predicate Leads(inp: Inputs, cert: Certificate, chain: seq<Certificate>, current: Certificate) {
    forall full | IsChain(inp, cert, full) ::
      |chain| < |full| && full[..|chain|] == chain && full[|chain|] == current
  }

  ghost predicate Collected(inp: Inputs, cert: Certificate, chain: seq<Certificate>, current: Certificate) {
    && |chain| <= MAX_CHAIN_LENGTH && (chain + [current])[0] == cert
    && DistinctDers(chain) && Linked(inp, chain + [current])
    && forall i | 0 <= i < |chain| :: Anchors(inp, chain[i]) == Some(false)
  }

  lemma CollectedStart(inp: Inputs, cert: Certificate)
    ensures Collected(inp, cert, [], cert) && Leads(inp, cert, [], cert)
  {
    hide Linked, Anchors;
    assert Linked(inp, [] + [cert]) by {
      LinkedOne(inp, cert);
      assert [] + [cert] == [cert];
    }
  }

  lemma LinkedOne(inp: Inputs, cert: Certificate)
    ensures Linked(inp, [cert])
  {
  }

  /** What any chain that continues this way says about the certificate it goes through. */
  lemma OnTheWay(inp: Inputs, cert: Certificate, chain: seq<Certificate>, current: Certificate, full: seq<Certificate>)
    requires Leads(inp, cert, chain, current) && IsChain(inp, cert, full)
    ensures |chain| < |full| <= MAX_CHAIN_LENGTH && current == full[|chain|] && current.der.Some?
    ensures forall c | c in chain :: c.der != current.der
    ensures Anchors(inp, current) == Some(|chain| == |full| - 1)
    ensures |chain| < |full| - 1 ==> FindIssuer(inp, current) == Some(full[|chain| + 1])
  {
    hide Anchors, FindIssuer;
    assert full[|chain|] in full;
    forall c | c in chain
      ensures c.der != current.der
    {
      var i :| 0 <= i < |chain| && chain[i] == c;
      assert full[i] == full[..|chain|][i];
    }
  }

  lemma CollectedStep(inp: Inputs, cert: Certificate, chain: seq<Certificate>, current: Certificate)
    requires Collected(inp, cert, chain, current) && Leads(inp, cert, chain, current)
    requires |chain| < MAX_CHAIN_LENGTH && current.der.Some? && forall c | c in chain :: c.der != current.der
    requires Anchors(inp, current) == Some(false) && FindIssuer(inp, current).Some?
    ensures
      var next := FindIssuer(inp, current).value;
      Collected(inp, cert, chain + [current], next) && Leads(inp, cert, chain + [current], next)
  {
    hide Anchors, FindIssuer;
    var n, more, next := |chain|, chain + [current], FindIssuer(inp, current).value;
    forall i | 0 <= i < |more + [next]| - 1
      ensures FindIssuer(inp, (more + [next])[i]) == Some((more + [next])[i + 1])
    {
      if i < n {
        assert (more + [next])[i + 1] == more[i + 1];
        assert FindIssuer(inp, more[i]) == Some(more[i + 1]);
      }
    }
    forall full | IsChain(inp, cert, full)
      ensures |more| < |full| && full[..|more|] == more && full[|more|] == next
    {
      OnTheWay(inp, cert, chain, current, full);
      assert full[..n + 1] == full[..n] + [full[n]];
    }
  }

  /** A certificate has at most one chain. */
  lemma {:induction false} ChainIsUnique(inp: Inputs, cert: Certificate, a: seq<Certificate>, b: seq<Certificate>)
    requires IsChain(inp, cert, a) && IsChain(inp, cert, b)
    ensures a == b
  {
    hide FindIssuer, DistinctDers, Linked, Anchors;
    var n := if |a| <= |b| then |a| - 1 else |b| - 1;
    ChainsAgree(inp, cert, a, b, n);
    assert a[..n + 1][n] == b[..n + 1][n];
  }

  lemma {:induction false} ChainsAgree(inp: Inputs, cert: Certificate, a: seq<Certificate>, b: seq<Certificate>, n: nat)
    requires IsChain(inp, cert, a) && IsChain(inp, cert, b) && n < |a| && n < |b|
    ensures a[..n + 1] == b[..n + 1]
    decreases n
  {
    hide Anchors, FindIssuer, DistinctDers;
    if n > 0 {
      ChainsAgree(inp, cert, a, b, n - 1);
      assert a[n - 1] == a[..n][n - 1] == b[..n][n - 1] == b[n - 1];
      assert FindIssuer(inp, a[n - 1]) == Some(a[n]) && FindIssuer(inp, b[n - 1]) == Some(b[n]);
      assert a[..n + 1] == a[..n] + [a[n]] && b[..n + 1] == b[..n] + [b[n]];
    }
  }

  /** The chain of a certificate, if it has one. */
  ghost function ChainOf(inp: Inputs, cert: Certificate): (r: Option<seq<Certificate>>)
    ensures r.Some? ==> IsChain(inp, cert, r.value)
    ensures r.None? ==> forall chain :: !IsChain(inp, cert, chain)
  {
    if exists chain :: IsChain(inp, cert, chain) then
      var chain :| IsChain(inp, cert, chain);
      Some(chain)
    else None
  }

  /** Every issuer in a chain is named by the certificate before it, agrees with its key identifier and
    comes from one of the two lists. */
  lemma ChainIsNamed(inp: Inputs, cert: Certificate, chain: seq<Certificate>, i: nat)
    requires IsChain(inp, cert, chain) && i < |chain| - 1
    ensures MatchesIssuer(inp.crypto, chain[i], chain[i + 1])
    ensures chain[i + 1] in inp.issuers || chain[i + 1] in inp.trusted
  {
    hide Anchors, DistinctDers;
    assert FindIssuer(inp, chain[i]) == Some(chain[i + 1]);
    FindIssuerInMeaning(inp.crypto, chain[i], inp.issuers);
    FindIssuerInMeaning(inp.crypto, chain[i], inp.trusted);
  }

  method IsAnchor(inp: Inputs, c: Certificate) returns (r: Option<bool>)
    requires c.der.Some?
    ensures r == Anchors(inp, c)
  {
    if SelfSigned(c) {
      return Some(true);
    }
    r := FindDer(c.der.value, inp.trusted);
  }

  method BuildChain(inp: Inputs, cert: Certificate) returns (r: Result<seq<Certificate>, Status>)
    ensures
      match r
      case Ok(chain) => IsChain(inp, cert, chain)
      case Err(s) => s == BadCertificateChainIncomplete && forall chain :: !IsChain(inp, cert, chain)
  {
    hide Linked, Leads, Anchors, FindIssuer;
    var chain, seenDer, current := [], {}, cert;
    CollectedStart(inp, cert);
    while true
      invariant Collected(inp, cert, chain, current) && Leads(inp, cert, chain, current)
      invariant forall d :: d in seenDer <==> exists c :: c in chain && c.der == Some(d)
      decreases MAX_CHAIN_LENGTH - |chain|
    {
      if |chain| >= MAX_CHAIN_LENGTH || current.der.None? || current.der.value in seenDer {
        forall full | IsChain(inp, cert, full)
          ensures false
        {
          OnTheWay(inp, cert, chain, current, full);
        }
        return Err(BadCertificateChainIncomplete);
      }
      ghost var earlier := chain;
      seenDer := seenDer + {current.der.value};
      chain := chain + [current];
      var anchored := IsAnchor(inp, current);
      if anchored.Some? && anchored.value {
        return Ok(chain);
      }
      var issuer := FindIssuer(inp, current);
      if anchored.None? || issuer.None? {
        forall full | IsChain(inp, cert, full)
          ensures false
        {
          OnTheWay(inp, cert, earlier, current, full);
        }
        return Err(BadCertificateChainIncomplete);
      }
      CollectedStep(inp, cert, earlier, current);
      current := issuer.value;
    }
  }
}
