/** What suppressing steps and relaxing revocation checking can change. */
module ChainSuppression {
  import opened Certificates
  import opened ChainBuilder
  import opened ChainStages
  import opened Wrappers

  /** Suppression is faithful: a validation that succeeds with some steps suppressed, and what it found,
    tells the outcome for every other choice of suppressed steps. */
  lemma SuppressionIsFaithful(inp: Inputs, cert: Certificate, mode: RevocationMode, s: set<Step>, t: set<Step>)
    requires Validate(inp, Options(true, mode, t), cert).Ok?
    ensures Validate(inp, Options(true, mode, s), cert)
      == var found := Validate(inp, Options(true, mode, t), cert).value;
         match FirstUnsuppressed(found, s) case Some(status) => Err(status) case None => Ok(found)
  {
    hide Events;
    SuppressionPredicts(Events(inp, mode, cert), s, t);
  }

  /** A failure that is critical stays one, whatever is suppressed: validation fails for every choice
    exactly when it fails with everything suppressed. */
  lemma CriticalFailuresStay(inp: Inputs, cert: Certificate, mode: RevocationMode, all: set<Step>)
    requires forall step: Step :: step in all
    ensures Validate(inp, Options(true, mode, all), cert).Err?
       <==> forall s :: Validate(inp, Options(true, mode, s), cert).Err?
  {
    hide Events;
    forall s | Validate(inp, Options(true, mode, s), cert).Ok?
      ensures Validate(inp, Options(true, mode, all), cert).Ok?
    {
      SuppressionPredicts(Events(inp, mode, cert), all, s);
      NoneOutside(Validate(inp, Options(true, mode, s), cert).value, all);
    }
  }

  lemma {:induction false} NoneOutside(found: seq<Finding>, all: set<Step>)
    requires forall step: Step :: step in all
    ensures FirstUnsuppressed(found, all).None?
    decreases |found|
  {
    if found != [] {
      NoneOutside(found[1..], all);
    }
  }

  // ---- Revocation modes ------------------------------------------------------------------------

  function WithoutUnknown(events: seq<Event>): seq<Event>
    decreases |events|
  {
    if events == [] then [] else UnlessUnknown(events[0]) + WithoutUnknown(events[1..])
  }

  function UnlessUnknown(e: Event): seq<Event> {
    if e.Soft? && e.finding.step.FindRevocationListStep? then [] else [e]
  }

  lemma {:induction false} WithoutUnknownAppend(a: seq<Event>, b: seq<Event>)
    ensures WithoutUnknown(a + b) == WithoutUnknown(a) + WithoutUnknown(b)
    decreases |a|
  {
    if a == [] {
      assert a + b == b;
    } else {
      assert (a + b)[1..] == a[1..] + b && (a + b)[0] == a[0];
      WithoutUnknownAppend(a[1..], b);
      assert WithoutUnknown(a + b) == UnlessUnknown(a[0]) + WithoutUnknown(a[1..] + b);
    }
  }

  lemma {:induction false} WithoutUnknownUpTo(f: nat -> seq<Event>, g: nat -> seq<Event>, n: nat)
    requires forall i: nat | i < n :: g(i) == WithoutUnknown(f(i))
    ensures UpTo(g, n) == WithoutUnknown(UpTo(f, n))
  {
    if n > 0 {
      WithoutUnknownUpTo(f, g, n - 1);
      WithoutUnknownAppend(UpTo(f, n - 1), f(n - 1));
    }
  }

  /** Lenient checking reports what required checking does, less the missing revocation lists. */
  lemma LenientReportsLess(inp: Inputs, chain: seq<Certificate>)
    ensures RevocationEvents(inp, Lenient, chain) == WithoutUnknown(RevocationEvents(inp, Required, chain))
  {
    hide PairEvents;
    var f, g := RevocationStage(inp, Required, chain), RevocationStage(inp, Lenient, chain);
    forall i: nat | i < |chain|
      ensures g(i) == WithoutUnknown(f(i))
    {
      if i + 1 < |chain| {
        PairReportsLess(inp, chain[i], chain[i + 1], i);
      }
    }
    WithoutUnknownUpTo(f, g, |chain|);
  }

  lemma PairReportsLess(inp: Inputs, cert: Certificate, issuer: Certificate, i: nat)
    ensures PairEvents(inp, Lenient, cert, issuer, i) == WithoutUnknown(PairEvents(inp, Required, cert, issuer, i))
  {
    hide OcspAnswer, ValidCrl, Lists, SaysRevoked;
    var answer, crl := OcspAnswer(inp, cert, issuer), ValidCrl(inp, issuer);
    if answer.Some? {
      KnownStays(inp.policy, answer.value.algorithm, SaysRevoked(inp, answer.value, cert.serial), i);
    } else if crl.Some? {
      KnownStays(inp.policy, crl.value.algorithm, Lists(crl.value, cert.serial), i);
    }
  }

  lemma KnownStays(policy: Policy, algorithm: Algorithm, revoked: bool, i: nat)
    ensures
      var events := DataAlgorithmEvents(policy, algorithm) + RevokedEvents(revoked, i);
      WithoutUnknown(events) == events
  {
    WithoutUnknownAppend(DataAlgorithmEvents(policy, algorithm), RevokedEvents(revoked, i));
  }

  lemma {:induction false} FewerEventsPass(events: seq<Event>, suppressed: set<Step>)
    requires FirstStop(events, suppressed).None?
    ensures FirstStop(WithoutUnknown(events), suppressed).None?
    decreases |events|
  {
    if events != [] {
      FewerEventsPass(events[1..], suppressed);
      StopOfParts([events[0]], WithoutUnknown(events[1..]), suppressed);
      assert [] + WithoutUnknown(events[1..]) == WithoutUnknown(events[1..]);
    }
  }

  lemma {:induction false} StopOfParts(a: seq<Event>, b: seq<Event>, suppressed: set<Step>)
    ensures FirstStop(a + b, suppressed) ==
      if FirstStop(a, suppressed).Some? then FirstStop(a, suppressed) else FirstStop(b, suppressed)
    decreases |a|
  {
    if a == [] {
      assert a + b == b;
    } else {
      assert (a + b)[1..] == a[1..] + b;
      StopOfParts(a[1..], b, suppressed);
    }
  }

  /** The part of the report that does not concern revocation. */
  function BeforeRevocation(inp: Inputs, chain: seq<Certificate>): seq<Event> {
    UpTo(SignatureStage(inp, chain), |chain|)
    + (PolicyEvents(inp, chain)
       + (TrustEvents(inp, chain)
          + (UpTo(ValidityStage(inp, chain), |chain|) + UpTo(UsageStage(inp, chain), |chain|))))
  }

  lemma RevocationComesLast(inp: Inputs, mode: RevocationMode, chain: seq<Certificate>)
    ensures ChainEvents(inp, mode, chain) == BeforeRevocation(inp, chain) + RevocationEvents(inp, mode, chain)
  {
    hide UpTo, PolicyEvents, TrustEvents, RevocationEvents;
  }

  /** What required checking accepts, lenient checking accepts; what that accepts is accepted with
    revocation checking off.  The same steps are suppressed throughout. */
  lemma ModesAreOrdered(inp: Inputs, cert: Certificate, s: set<Step>)
    ensures Validate(inp, Options(true, Required, s), cert).Ok? ==> Validate(inp, Options(true, Lenient, s), cert).Ok?
    ensures Validate(inp, Options(true, Lenient, s), cert).Ok? ==> Validate(inp, Options(true, Disabled, s), cert).Ok?
  {
    hide ChainEvents, BeforeRevocation, IsChain;
    InterpretMeaning(Events(inp, Required, cert), s);
    InterpretMeaning(Events(inp, Lenient, cert), s);
    InterpretMeaning(Events(inp, Disabled, cert), s);
    match ChainOf(inp, cert) {
      case None =>
      case Some(chain) => ModesOfChain(inp, chain, s);
    }
  }

  lemma ModesOfChain(inp: Inputs, chain: seq<Certificate>, s: set<Step>)
    ensures FirstStop(ChainEvents(inp, Required, chain), s).None? ==> FirstStop(ChainEvents(inp, Lenient, chain), s).None?
    ensures FirstStop(ChainEvents(inp, Lenient, chain), s).None? ==> FirstStop(ChainEvents(inp, Disabled, chain), s).None?
  {
    hide ChainEvents, BeforeRevocation, UpTo;
    var first := BeforeRevocation(inp, chain);
    RevocationComesLast(inp, Required, chain);
    RevocationComesLast(inp, Lenient, chain);
    RevocationComesLast(inp, Disabled, chain);
    StopOfParts(first, RevocationEvents(inp, Required, chain), s);
    StopOfParts(first, RevocationEvents(inp, Lenient, chain), s);
    StopOfParts(first, RevocationEvents(inp, Disabled, chain), s);
    LenientReportsLess(inp, chain);
    if FirstStop(RevocationEvents(inp, Required, chain), s).None? {
      FewerEventsPass(RevocationEvents(inp, Required, chain), s);
    }
  }
}
