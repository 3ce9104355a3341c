/** A client credential: its scoped counters, the presentations it emits over
    any run, and its canonical encoding. */
module Credentials {
  import opened Bits
  import opened Nibbles
  import opened Constraints
  import opened Messages
  import opened Circuits
  import opened Framing
  import opened Wire
  import opened Counters
  import opened Protocol

  const MAX_PRESENTATION_CONTEXTS: nat := 4096

  datatype CredentialState = CredentialState(
    issuerContext: Digest, credentialContext: Digest, signature: seq<bv4>,
    secret: Digest, hidingNonce: Digest, salt: Digest, nextNonces: CounterMap)

  function NextNonce(m: CounterMap, context: Digest): (n: U32) {
    if context in m then m[context] else 0
  }

  // ----- Presenting

  function ScopeFor(c: CredentialState, context: Digest): (scope: Digest) {
    PresentationScope(c.issuerContext, c.credentialContext, context)
  }

  /** The tag of one nonce in one bucket. */
  function TagAt(c: CredentialState, context: Digest, nonce: U32): (tag: Digest) {
    DeriveTag(c.secret, ScopeFor(c, context), nonce)
  }

  function SecretsOf(c: CredentialState, nonce: U32): (r: Secrets) {
    Secrets(c.signature, c.secret, c.hidingNonce, c.salt, nonce)
  }

  function ProvePresentation<F, P>(ps: ProofSystem<F, P>, pk: PublicKey<F>, ch: Challenge, tag: Digest, s: Secrets,
                                   coins: nat): (r: Option<P>)
  {
    if !pk.suite.Fits() then None
    else
      var circuit := CircuitOf(pk, ch, tag);
      ps.prove(StatementOf(pk, ch, tag), PresentationCompiled(pk, ch, tag), PresentationWitness(pk.suite, circuit, s),
               coins)
  }

  function PresentResult<F, P>(c: CredentialState, ps: ProofSystem<F, P>, pk: PublicKey<F>, ch: Challenge,
                               coins: nat): (r: Outcome<Presentation<P>>)
  {
    var nonce := NextNonce(c.nextNonces, ch.presentationContext);
    if c.issuerContext != pk.context then Err(Error.WrongIssuer)
    else if c.credentialContext != ch.credentialContext then Err(WrongCredentialContext)
    else if ch.limit == 0 then Err(InvalidPresentationLimit)
    else if ch.presentationContext !in c.nextNonces && |c.nextNonces| >= MAX_PRESENTATION_CONTEXTS
      then Err(TooManyPresentationContexts)
    else if nonce >= ch.limit then Err(RateLimitReached)
    else
      var tag := TagAt(c, ch.presentationContext, nonce);
      match ProvePresentation(ps, pk, ch, tag, SecretsOf(c, nonce), coins)
      case None => Err(InvalidProof)
      case Some(proof) => Ok(Presentation(tag, proof))
  }

  /** The credential after the call: only a success moves a counter. */
  function PresentState<F, P>(c: CredentialState, ps: ProofSystem<F, P>, pk: PublicKey<F>, ch: Challenge,
                              coins: nat): (after: CredentialState)
  {
    match PresentResult(c, ps, pk, ch, coins)
    case Err(_) => c
    case Ok(_) =>
      var context := ch.presentationContext;
      c.(nextNonces := c.nextNonces[context := NextNonce(c.nextNonces, context) + 1])
  }

  class Credential {
    const issuerContext: Digest
    const credentialContext: Digest
    const signature: seq<bv4>
    const secret: Digest
    const hidingNonce: Digest
    const salt: Digest
    var nextNonces: CounterMap

    constructor (c: CredentialState)
      ensures State() == c
    {
      issuerContext := c.issuerContext;
      credentialContext := c.credentialContext;
      signature := c.signature;
      secret := c.secret;
      hidingNonce := c.hidingNonce;
      salt := c.salt;
      nextNonces := c.nextNonces;
    }

    function State(): (c: CredentialState)
      reads this
    {
      CredentialState(issuerContext, credentialContext, signature, secret, hidingNonce, salt, nextNonces)
    }

    method Present<F, P>(ps: ProofSystem<F, P>, pk: PublicKey<F>, ch: Challenge, coins: nat)
      returns (r: Outcome<Presentation<P>>)
      modifies this
      ensures r == PresentResult(old(State()), ps, pk, ch, coins)
      ensures State() == PresentState(old(State()), ps, pk, ch, coins)
    {
      hide PresentationAssertions, PresentationWitness, StatementOf, DeriveTag;
      if issuerContext != pk.context {
        return Err(Error.WrongIssuer);
      }
      if credentialContext != ch.credentialContext {
        return Err(WrongCredentialContext);
      }
      if ch.limit == 0 {
        return Err(InvalidPresentationLimit);
      }
      var contextKey := ch.presentationContext;
      var isNewContext := contextKey !in nextNonces;
      if isNewContext && |nextNonces| >= MAX_PRESENTATION_CONTEXTS {
        return Err(TooManyPresentationContexts);
      }
      var nonce: U32 := if contextKey in nextNonces then nextNonces[contextKey] else 0;
      if nonce >= ch.limit {
        return Err(RateLimitReached);
      }
      var scope := PresentationScope(issuerContext, credentialContext, ch.presentationContext);
      var tag := DeriveTag(secret, scope, nonce);
      var secrets := Secrets(signature, secret, hidingNonce, salt, nonce);
      var proof := ProvePresentation(ps, pk, ch, tag, secrets, coins);
      if proof.None? {
        return Err(InvalidProof);
      }
      nextNonces := nextNonces[contextKey := nonce + 1];
      r := Ok(Presentation(tag, proof.value));
    }

    /** `Credential::to_bytes`. */
    method ToBytes(suite: Suite) returns (bytes: seq<bv8>)
      ensures bytes == EncodeCredential(suite, State())
    {
      hide EncodeCounters, Pack, LeBytes, HeaderBytes;
      var output := new ByteBuffer();
      output.Header(WIRE_CREDENTIAL, suite.wireId);
      output.Extend(issuerContext);
      output.Extend(credentialContext);
      var packedSignature := PackNibbles(signature);
      output.Extend(packedSignature);
      output.Extend(secret);
      output.Extend(hidingNonce);
      output.Extend(salt);
      output.Extend(LeBytes(CountField(nextNonces), 4));
      AppendCounters(output, nextNonces);
      bytes := output.bytes;
      assert [] + HeaderBytes(WIRE_CREDENTIAL, suite.wireId) == HeaderBytes(WIRE_CREDENTIAL, suite.wireId);
    }
  }

  // ----- Runs of calls

  datatype Call<!F> = Call(pk: PublicKey<F>, challenge: Challenge, coins: nat)

  /** The credential after a sequence of calls, failing ones included. */
  function RunState<F, P>(c: CredentialState, ps: ProofSystem<F, P>, calls: seq<Call<F>>): (after: CredentialState)
    decreases |calls|
  {
    if calls == [] then c
    else
      var last := calls[|calls| - 1];
      PresentState(RunState(c, ps, calls[..|calls| - 1]), ps, last.pk, last.challenge, last.coins)
  }

  function ResultAt<F, P>(c: CredentialState, ps: ProofSystem<F, P>, calls: seq<Call<F>>,
                          i: nat): (r: Outcome<Presentation<P>>)
    requires i < |calls|
  {
    PresentResult(RunState(c, ps, calls[..i]), ps, calls[i].pk, calls[i].challenge, calls[i].coins)
  }

  /** The tags a run emits in one bucket, in order. */
  function EmittedTags<F, P>(c: CredentialState, ps: ProofSystem<F, P>, calls: seq<Call<F>>,
                             context: Digest): (tags: seq<Digest>)
    decreases |calls|
  {
    if calls == [] then []
    else
      var n := |calls| - 1;
      var before := EmittedTags(c, ps, calls[..n], context);
      match PresentResult(RunState(c, ps, calls[..n]), ps, calls[n].pk, calls[n].challenge, calls[n].coins)
      case Ok(p) => if calls[n].challenge.presentationContext == context then before + [p.tag] else before
      case Err(_) => before
  }

  /** The tags of `count` consecutive nonces. */
  function TagRange(c: CredentialState, context: Digest, first: nat, count: nat): (tags: seq<Digest>)
    requires first + count <= 0xffff_ffff
    ensures |tags| == count
    decreases count
  {
    if count == 0 then [] else TagRange(c, context, first, count - 1) + [TagAt(c, context, first + count - 1)]
  }

  ghost predicate SameIdentity(a: CredentialState, b: CredentialState) {
    a.(nextNonces := map[]) == b.(nextNonces := map[])
  }

  /** Some call of the run in this bucket allowed at least `n` uses. */
  ghost predicate SomeLimitReaches<F>(calls: seq<Call<F>>, context: Digest, n: nat) {
    exists i :: 0 <= i < |calls| && calls[i].challenge.presentationContext == context && calls[i].challenge.limit >= n
  }

  ghost predicate WithinState(m: CounterMap) {
    |m| <= MAX_PRESENTATION_CONTEXTS && Nonzero(m)
  }

  /** One call: a failure changes nothing; a success emits the tag of the
      current nonce, which is below the limit, and moves that counter by one. */
  lemma PresentEffect<F, P>(c: CredentialState, ps: ProofSystem<F, P>, pk: PublicKey<F>, ch: Challenge, coins: nat)
    requires WithinState(c.nextNonces)
    ensures var after := PresentState(c, ps, pk, ch, coins);
            var r := PresentResult(c, ps, pk, ch, coins);
            var nonce := NextNonce(c.nextNonces, ch.presentationContext);
            && SameIdentity(after, c) && WithinState(after.nextNonces)
            && (r.Err? ==> after == c)
            && (r.Ok? ==>
                && nonce < ch.limit && r.value.tag == TagAt(c, ch.presentationContext, nonce)
                && NextNonce(after.nextNonces, ch.presentationContext) == nonce + 1)
            && (forall x: Digest :: x != ch.presentationContext ==>
                 NextNonce(after.nextNonces, x) == NextNonce(c.nextNonces, x))
  {
    hide TagAt, ProvePresentation;
  }

  /** Over every run from any stored state: a bucket's counter moves once per
      emitted tag, the tags are those of the consecutive nonces, and the state
      bound is kept. */
  lemma {:induction false} RunInvariant<F, P>(c: CredentialState, ps: ProofSystem<F, P>, calls: seq<Call<F>>,
                                              context: Digest)
    requires WithinState(c.nextNonces)
    ensures var end := RunState(c, ps, calls);
            var start := NextNonce(c.nextNonces, context);
            var tags := EmittedTags(c, ps, calls, context);
            && SameIdentity(end, c) && WithinState(end.nextNonces)
            && NextNonce(end.nextNonces, context) == start + |tags|
            && tags == TagRange(c, context, start, |tags|)
    decreases |calls|
  {
    hide TagAt, PresentState, PresentResult, WithinState;
    if calls == [] {
    } else {
      var n := |calls| - 1;
      var prefix, last := calls[..n], calls[n];
      RunInvariant(c, ps, prefix, context);
      var before := RunState(c, ps, prefix);
      PresentEffect(before, ps, last.pk, last.challenge, last.coins);
      TagDependsOnIdentity(before, c, context, NextNonce(before.nextNonces, context));
    }
  }

  /** A counter never exceeds a limit under which its bucket was really used. */
  lemma {:induction false} CounterWithinLimit<F, P>(c: CredentialState, ps: ProofSystem<F, P>, calls: seq<Call<F>>,
                                                    context: Digest)
    requires WithinState(c.nextNonces) && EmittedTags(c, ps, calls, context) != []
    ensures SomeLimitReaches(calls, context, NextNonce(RunState(c, ps, calls).nextNonces, context))
    decreases |calls|
  {
    hide TagAt, PresentState, PresentResult, WithinState, NextNonce;
    var n := |calls| - 1;
    var prefix, last := calls[..n], calls[n];
    var before := RunState(c, ps, prefix);
    RunInvariant(c, ps, prefix, context);
    PresentEffect(before, ps, last.pk, last.challenge, last.coins);
    if PresentResult(before, ps, last.pk, last.challenge, last.coins).Ok?
      && last.challenge.presentationContext == context {
      assert calls[n].challenge.limit >= NextNonce(before.nextNonces, context) + 1;
    } else {
      CounterWithinLimit(c, ps, prefix, context);
      var reached := NextNonce(before.nextNonces, context);
      var i :| 0 <= i < |prefix| && prefix[i].challenge.presentationContext == context
        && prefix[i].challenge.limit >= reached;
      assert calls[i] == prefix[i];
    }
  }

  lemma TagDependsOnIdentity(a: CredentialState, b: CredentialState, context: Digest, nonce: U32)
    requires SameIdentity(a, b)
    ensures TagAt(a, context, nonce) == TagAt(b, context, nonce)
  {
    assert a.secret == b.(nextNonces := map[]).secret;
    assert a.issuerContext == b.(nextNonces := map[]).issuerContext;
    assert a.credentialContext == b.(nextNonces := map[]).credentialContext;
  }

  /** From a fresh credential a counter counts the successes, and the emitted
      tags are exactly those of nonces 0, 1, ..., in order. */
  lemma FreshRun<F, P>(c: CredentialState, ps: ProofSystem<F, P>, calls: seq<Call<F>>, context: Digest)
    requires c.nextNonces == map[]
    ensures var tags := EmittedTags(c, ps, calls, context);
            && NextNonce(RunState(c, ps, calls).nextNonces, context) == |tags|
            && tags == TagRange(c, context, 0, |tags|)
  {
    RunInvariant(c, ps, calls, context);
  }

  function Successes<F, P>(c: CredentialState, ps: ProofSystem<F, P>, calls: seq<Call<F>>, context: Digest): (n: nat) {
    |EmittedTags(c, ps, calls, context)|
  }

  ghost predicate OneBucket<F>(c: CredentialState, calls: seq<Call<F>>, context: Digest, limit: U32) {
    forall i :: 0 <= i < |calls| ==>
      && calls[i].pk.context == c.issuerContext
      && calls[i].challenge.credentialContext == c.credentialContext
      && calls[i].challenge.presentationContext == context
      && calls[i].challenge.limit == limit
  }

  ghost predicate ProverNeverFails<F, P>(c: CredentialState, ps: ProofSystem<F, P>, calls: seq<Call<F>>) {
    forall i :: 0 <= i < |calls| ==> ResultAt(c, ps, calls, i) != Err(InvalidProof)
  }

  function Min(a: int, b: int): (n: int) {
    if a <= b then a else b
  }

  /** One bucket yields exactly its remaining allowance: from counter j under
      limit L, min(calls, L - j) presentations, no more and no fewer. */
  lemma {:induction false} AllowanceExact<F, P>(c: CredentialState, ps: ProofSystem<F, P>, calls: seq<Call<F>>,
                                                context: Digest, limit: U32)
    requires OneBucket(c, calls, context, limit) && limit != 0 && ProverNeverFails(c, ps, calls)
    requires WithinState(c.nextNonces)
    requires context in c.nextNonces || |c.nextNonces| < MAX_PRESENTATION_CONTEXTS
    requires NextNonce(c.nextNonces, context) <= limit
    ensures Successes(c, ps, calls, context) == Min(|calls|, limit - NextNonce(c.nextNonces, context))
    ensures var end := RunState(c, ps, calls).nextNonces; context in end || |end| < MAX_PRESENTATION_CONTEXTS
    decreases |calls|
  {
    hide TagAt, ProvePresentation;
    if calls == [] {
    } else {
      var n := |calls| - 1;
      var prefix := calls[..n];
      forall i | 0 <= i < n
        ensures ResultAt(c, ps, prefix, i) == ResultAt(c, ps, calls, i)
      {
        assert prefix[..i] == calls[..i];
      }
      AllowanceExact(c, ps, prefix, context, limit);
      RunInvariant(c, ps, prefix, context);
      assert ResultAt(c, ps, calls, n) != Err(InvalidProof);
    }
  }

  /** Raising a limit extends the bucket: after the first limit is exhausted, the
      higher one admits exactly the difference, on the nonces that follow. */
  lemma RaisingLimit<F, P>(c: CredentialState, ps: ProofSystem<F, P>, calls: seq<Call<F>>, context: Digest, first: U32,
                           second: U32)
    requires NextNonce(c.nextNonces, context) == first && 0 < first <= second
    requires OneBucket(c, calls, context, second) && ProverNeverFails(c, ps, calls)
    requires WithinState(c.nextNonces)
    requires |calls| >= second - first
    ensures EmittedTags(c, ps, calls, context) == TagRange(c, context, first, second - first)
  {
    AllowanceExact(c, ps, calls, context, second);
    RunInvariant(c, ps, calls, context);
  }

  // ----- Presenting with an authentic credential

  /** `verify_credential`: the MAYO relation under this key. */
  predicate Authentic<F>(pk: PublicKey<F>, c: CredentialState) {
    && c.issuerContext == pk.context
    && |c.signature| == pk.suite.kn
    && pk.system.eval(c.signature) == SignedCredentialTarget(pk.suite.m,
         CredentialTarget(pk.suite.m, CredentialScope(c.issuerContext, c.credentialContext), c.secret, c.hidingNonce),
           c.salt)
  }

  /** The honest witness satisfies the circuit exactly for a signed credential
      and a nonce below the limit. */
  lemma WitnessSatisfies<F(!new)>(c: CredentialState, pk: PublicKey<F>, ch: Challenge, nonce: U32)
    requires pk.suite.Fits() && Lawful(pk.system)
    requires c.issuerContext == pk.context && c.credentialContext == ch.credentialContext
    ensures var tag := TagAt(c, ch.presentationContext, nonce);
            Satisfied(pk.system, PresentationCompiled(pk, ch, tag),
              PresentationWitness(pk.suite, CircuitOf(pk, ch, tag), SecretsOf(c, nonce)))
            <==> Authentic(pk, c) && nonce < ch.limit
  {
    hide AllHold, PresentationAssertions, PresentationWitness, SignedCredentialTarget, CredentialTarget, DeriveTag,
      CredentialScope, PresentationScope, Lawful;
    if |c.signature| == pk.suite.kn {
      PresentationComplete(pk.system, pk.suite, CircuitOf(pk, ch, TagAt(c, ch.presentationContext, nonce)),
        SecretsOf(c, nonce));
    }
  }

  /** `present` makes no native check of the signature, and needs none: it
      succeeds exactly for an authentic credential of this key, under its own
      credential context, with room for the bucket and allowance left. */
  lemma PresentSucceedsExactly<F(!new), P(!new)>(c: CredentialState, ps: ProofSystem<F, P>, pk: PublicKey<F>,
                                                 ch: Challenge, coins: nat)
    requires pk.suite.Fits() && Lawful(pk.system) && Complete(ps, pk.system) && Willing(ps, pk.system)
    ensures PresentResult(c, ps, pk, ch, coins).Ok?
       <==> && Authentic(pk, c) && c.credentialContext == ch.credentialContext
            && (ch.presentationContext in c.nextNonces || |c.nextNonces| < MAX_PRESENTATION_CONTEXTS)
            && NextNonce(c.nextNonces, ch.presentationContext) < ch.limit
  {
    hide Satisfied, PresentationCompiled, PresentationWitness, TagAt, StatementOf, CircuitOf, Lawful,
      SignedCredentialTarget, CredentialTarget, ProvePresentation, Complete, Willing;
    var nonce := NextNonce(c.nextNonces, ch.presentationContext);
    if c.issuerContext == pk.context && c.credentialContext == ch.credentialContext {
      WitnessSatisfies(c, pk, ch, nonce);
      var tag := TagAt(c, ch.presentationContext, nonce);
      ProvedExactly(ps, pk, ch, tag, SecretsOf(c, nonce), coins);
    }
  }

  lemma ProvedExactly<F(!new), P(!new)>(ps: ProofSystem<F, P>, pk: PublicKey<F>, ch: Challenge, tag: Digest, s: Secrets,
                                        coins: nat)
    requires pk.suite.Fits() && Complete(ps, pk.system) && Willing(ps, pk.system)
    ensures ProvePresentation(ps, pk, ch, tag, s, coins).Some?
       <==> Satisfied(pk.system, PresentationCompiled(pk, ch, tag),
         PresentationWitness(pk.suite, CircuitOf(pk, ch, tag), s))
  {
    hide Satisfied, PresentationCompiled, PresentationWitness, StatementOf, CircuitOf;
  }

  ghost predicate UnderKey<F>(pk: PublicKey<F>, calls: seq<Call<F>>) {
    forall i :: 0 <= i < |calls| ==> calls[i].pk == pk
  }

  lemma AuthenticDependsOnIdentity<F>(pk: PublicKey<F>, a: CredentialState, b: CredentialState)
    requires SameIdentity(a, b) && Authentic(pk, b)
    ensures Authentic(pk, a)
  {
    hide SignedCredentialTarget, CredentialTarget;
    assert a == b.(nextNonces := map[]).(nextNonces := a.nextNonces);
  }

  /** The prover never fails on an authentic credential, whatever was called before. */
  lemma AuthenticNeverFails<F(!new), P(!new)>(c: CredentialState, ps: ProofSystem<F, P>, pk: PublicKey<F>,
                                              calls: seq<Call<F>>)
    requires pk.suite.Fits() && Lawful(pk.system) && Complete(ps, pk.system) && Willing(ps, pk.system)
    requires Authentic(pk, c) && WithinState(c.nextNonces) && UnderKey(pk, calls)
    ensures ProverNeverFails(c, ps, calls)
  {
    hide Authentic, Lawful, Complete, Willing, TagAt, ProvePresentation, RunState;
    forall i | 0 <= i < |calls|
      ensures ResultAt(c, ps, calls, i) != Err(InvalidProof)
    {
      var before := RunState(c, ps, calls[..i]);
      RunInvariant(c, ps, calls[..i], calls[i].challenge.presentationContext);
      AuthenticDependsOnIdentity(pk, before, c);
      PresentSucceedsExactly(before, ps, pk, calls[i].challenge, calls[i].coins);
    }
  }

  lemma SignatureLength<F>(pk: PublicKey<F>, c: CredentialState)
    requires Authentic(pk, c)
    ensures |c.signature| == pk.suite.kn
  {
    hide SignedCredentialTarget, CredentialTarget;
  }

  /** The advertised allowance: n calls on a fresh authentic credential under
      limit L emit exactly the tags of the first min(n, L) nonces. */
  lemma FreshAllowance<F(!new), P(!new)>(c: CredentialState, ps: ProofSystem<F, P>, pk: PublicKey<F>,
                                         calls: seq<Call<F>>,
                                         context: Digest, limit: U32)
    requires pk.suite.Fits() && Lawful(pk.system) && Complete(ps, pk.system) && Willing(ps, pk.system)
    requires Authentic(pk, c) && c.nextNonces == map[] && UnderKey(pk, calls)
    requires OneBucket(c, calls, context, limit) && limit != 0
    ensures EmittedTags(c, ps, calls, context) == TagRange(c, context, 0, Min(|calls|, limit))
  {
    hide Authentic, Lawful, Complete, Willing, TagAt, ProverNeverFails, EmittedTags, TagRange, RunState;
    AuthenticNeverFails(c, ps, pk, calls);
    AllowanceExact(c, ps, calls, context, limit);
    FreshRun(c, ps, calls, context);
  }

  /** Which error a refused call gives. Five are decided by public data and the
      counters, in this order, whatever the backend does. */
  lemma PublicRefusal<F, P>(c: CredentialState, ps: ProofSystem<F, P>, pk: PublicKey<F>, ch: Challenge, coins: nat)
    ensures var r := PresentResult(c, ps, pk, ch, coins);
            var issuer, context := c.issuerContext == pk.context, c.credentialContext == ch.credentialContext;
            var room := ch.presentationContext in c.nextNonces || |c.nextNonces| < 4096;
            var nonce := NextNonce(c.nextNonces, ch.presentationContext);
            && (r == Err(Error.WrongIssuer) <==> !issuer)
            && (r == Err(WrongCredentialContext) <==> issuer && !context)
            && (r == Err(InvalidPresentationLimit) <==> issuer && context && ch.limit == 0)
            && (r == Err(TooManyPresentationContexts) <==> issuer && context && ch.limit != 0 && !room)
            && (r == Err(RateLimitReached) <==> issuer && context && ch.limit != 0 && room && nonce >= ch.limit)
            && (issuer && context && room && nonce < ch.limit ==> r.Ok? || r == Err(InvalidProof))
  {
    hide ProvePresentation, TagAt, NextNonce;
  }

  /** The sixth, a proof error, is left for a credential that is not authentic. */
  lemma ProofRefusal<F(!new), P(!new)>(c: CredentialState, ps: ProofSystem<F, P>, pk: PublicKey<F>, ch: Challenge,
                                       coins: nat)
    requires pk.suite.Fits() && Lawful(pk.system) && Complete(ps, pk.system) && Willing(ps, pk.system)
    ensures PresentResult(c, ps, pk, ch, coins) == Err(InvalidProof)
       <==> && c.issuerContext == pk.context && c.credentialContext == ch.credentialContext
            && (ch.presentationContext in c.nextNonces || |c.nextNonces| < 4096)
            && NextNonce(c.nextNonces, ch.presentationContext) < ch.limit && !Authentic(pk, c)
  {
    PublicRefusal(c, ps, pk, ch, coins);
    PresentSucceedsExactly(c, ps, pk, ch, coins);
    hide PresentResult, Authentic, Lawful, Complete, Willing;
  }

  /** Exhaustion is reported exactly when it happens: on a fresh authentic
      credential the call after n others answers that the rate limit is reached
      if n is at least the limit, and succeeds otherwise. */
  lemma RateLimitExactly<F(!new), P(!new)>(c: CredentialState, ps: ProofSystem<F, P>, pk: PublicKey<F>,
                                           calls: seq<Call<F>>, context: Digest, limit: U32, n: nat)
    requires pk.suite.Fits() && Lawful(pk.system) && Complete(ps, pk.system) && Willing(ps, pk.system)
    requires Authentic(pk, c) && c.nextNonces == map[] && UnderKey(pk, calls)
    requires OneBucket(c, calls, context, limit) && limit != 0 && n < |calls|
    ensures if n < limit then ResultAt(c, ps, calls, n).Ok? else ResultAt(c, ps, calls, n) == Err(RateLimitReached)
  {
    hide Authentic, Lawful, Complete, Willing, TagAt, ProverNeverFails, EmittedTags, TagRange, RunState, PresentResult;
    var before := RunState(c, ps, calls[..n]);
    AuthenticNeverFails(c, ps, pk, calls[..n]);
    AllowanceExact(c, ps, calls[..n], context, limit);
    FreshRun(c, ps, calls[..n], context);
    RunInvariant(c, ps, calls[..n], context);
    AuthenticDependsOnIdentity(pk, before, c);
    assert before.credentialContext == c.credentialContext && before.issuerContext == c.issuerContext by {
      IdentityContexts(before, c);
    }
    PublicRefusal(before, ps, pk, calls[n].challenge, calls[n].coins);
    PresentSucceedsExactly(before, ps, pk, calls[n].challenge, calls[n].coins);
  }

  lemma IdentityContexts(a: CredentialState, b: CredentialState)
    requires SameIdentity(a, b)
    ensures a.credentialContext == b.credentialContext && a.issuerContext == b.issuerContext
  {
    assert a.credentialContext == b.(nextNonces := map[]).credentialContext;
    assert a.issuerContext == b.(nextNonces := map[]).issuerContext;
  }

  /** Two nonces of one credential share a tag only by a hash collision. */
  lemma NonceTagsSeparate(c: CredentialState, context: Digest, i: U32, j: U32)
    requires i != j && TagAt(c, context, i) == TagAt(c, context, j)
    ensures Collision(TagMessage(c.secret, ScopeFor(c, context), i), TagMessage(c.secret, ScopeFor(c, context), j))
  {
    hide DeriveTag, ScopeFor;
    TagsSeparate(c.secret, ScopeFor(c, context), i, c.secret, ScopeFor(c, context), j);
  }

  /** A presentation is good for the request it was made for and no other: what
      `present` proves under one challenge verifies under no other challenge,
      another binding included, for no other tag, and under no other issuer. */
  lemma PresentedForOneRequest<F(!new), P(!new)>(c: CredentialState, ps: ProofSystem<F, P>, pk: PublicKey<F>,
                                                 ch: Challenge, coins: nat, pk': PublicKey<F>, ch': Challenge,
                                                 tag': Digest)
    requires Complete(ps, pk.system) && BindsStatements(ps) && Sized(pk.suite.name) && Sized(pk'.suite.name)
    requires PresentResult(c, ps, pk, ch, coins).Ok?
    requires VerifyProofOnly(ps, pk', ch', Presentation(tag', PresentResult(c, ps, pk, ch, coins).value.proof)).Ok?
    ensures ch' == ch && tag' == PresentResult(c, ps, pk, ch, coins).value.tag && pk'.context == pk.context
  {
    hide Complete, BindsStatements, VerifyProofOnly, PresentResult;
    var p := PresentResult(c, ps, pk, ch, coins).value;
    PresentedIsAccepted(c, ps, pk, ch, coins);
    assert p == Presentation(p.tag, p.proof);
    BoundToRequest(ps, pk, ch, p.tag, pk', ch', tag', p.proof);
  }

  // ----- Rollback

  /** A successful call of a lawful prover carries a proof the verifier accepts. */
  lemma PresentedIsAccepted<F(!new), P(!new)>(c: CredentialState, ps: ProofSystem<F, P>, pk: PublicKey<F>,
                                              ch: Challenge, coins: nat)
    requires Complete(ps, pk.system) && PresentResult(c, ps, pk, ch, coins).Ok?
    ensures var p := PresentResult(c, ps, pk, ch, coins).value;
            VerifyProofOnly(ps, pk, ch, p) == Ok(Verified(ScopeFor(c, ch.presentationContext), p.tag))
  {
    hide PresentationAssertions, PresentationWitness, StatementOf, TagAt, AllHold, PresentationScope, CredentialScope;
  }

  /** The stored pair of one nonce in one bucket. */
  function PairAt(c: CredentialState, context: Digest, nonce: U32): (pair: (Digest, Digest)) {
    (ScopeFor(c, context), TagAt(c, context, nonce))
  }

  lemma PairDependsOnIdentity(a: CredentialState, b: CredentialState, context: Digest, nonce: U32)
    requires SameIdentity(a, b)
    ensures PairAt(a, context, nonce) == PairAt(b, context, nonce)
  {
    TagDependsOnIdentity(a, b, context, nonce);
    assert a.issuerContext == b.(nextNonces := map[]).issuerContext;
    assert a.credentialContext == b.(nextNonces := map[]).credentialContext;
  }

  /** The store after a verifier has checked, in order, what a run emits. */
  function Served<F, P>(c: CredentialState, ps: ProofSystem<F, P>, calls: seq<Call<F>>, store: Store): (after: Store)
    decreases |calls|
  {
    if calls == [] then store
    else
      var n := |calls| - 1;
      var before := Served(c, ps, calls[..n], store);
      match ResultAt(c, ps, calls, n)
      case Err(_) => before
      case Ok(p) => VerifyStore(ps, calls[n].pk, before, Works, calls[n].challenge, p)
  }

  /** How many of them it accepts. */
  function AcceptedCount<F, P>(c: CredentialState, ps: ProofSystem<F, P>, calls: seq<Call<F>>,
                               store: Store): (count: nat)
    decreases |calls|
  {
    if calls == [] then 0
    else
      var n := |calls| - 1;
      var before := Served(c, ps, calls[..n], store);
      var result := ResultAt(c, ps, calls, n);
      var accepts := result.Ok? && VerifyResult(ps, calls[n].pk, before, Works, calls[n].challenge, result.value).Ok?;
      AcceptedCount(c, ps, calls[..n], store) + if accepts then 1 else 0
  }

  ghost predicate CompleteForKeys<F(!new), P(!new)>(ps: ProofSystem<F, P>, calls: seq<Call<F>>) {
    forall i :: 0 <= i < |calls| ==> Complete(ps, calls[i].pk.system)
  }

  /** A pair of a nonce that lies between two counter maps. */
  ghost predicate InSpan(c: CredentialState, end: CounterMap, pair: (Digest, Digest)) {
    exists context: Digest, nonce: U32 ::
      NextNonce(c.nextNonces, context) <= nonce < NextNonce(end, context) && pair == PairAt(c, context, nonce)
  }

  /** The pair of the nonce that call i uses. */
  function UsedPair<F, P>(c: CredentialState, ps: ProofSystem<F, P>, calls: seq<Call<F>>,
                          i: nat): (pair: (Digest, Digest))
    requires i < |calls|
  {
    var context := calls[i].challenge.presentationContext;
    PairAt(c, context, NextNonce(RunState(c, ps, calls[..i]).nextNonces, context))
  }

  /** One verified presentation: exactly the pair of its nonce is added, and it
      is accepted exactly when that pair is new. */
  lemma ServedOne<F(!new), P(!new)>(c: CredentialState, ps: ProofSystem<F, P>, calls: seq<Call<F>>, i: nat,
                                    store: Store)
    requires WithinState(c.nextNonces) && i < |calls| && ResultAt(c, ps, calls, i).Ok?
        && Complete(ps, calls[i].pk.system)
    ensures var p := ResultAt(c, ps, calls, i).value;
            var pair := UsedPair(c, ps, calls, i);
            && VerifyStore(ps, calls[i].pk, store, Works, calls[i].challenge, p) == store + {pair}
            && VerifyResult(ps, calls[i].pk, store, Works, calls[i].challenge, p)
               == if pair in store then Err(TagAlreadyUsed) else Ok(Verified(pair.0, pair.1))
  {
    hide TagAt, ProvePresentation, RunState, VerifyProofOnly, PresentationScope;
    var before := RunState(c, ps, calls[..i]);
    var context := calls[i].challenge.presentationContext;
    RunInvariant(c, ps, calls[..i], context);
    PairDependsOnIdentity(before, c, context, NextNonce(before.nextNonces, context));
    PresentedIsAccepted(before, ps, calls[i].pk, calls[i].challenge, calls[i].coins);
  }

  /** One more nonce in one bucket is one more pair. */
  lemma SpanGrows(c: CredentialState, before: CounterMap, after: CounterMap, context: Digest, pair: (Digest, Digest))
    requires NextNonce(c.nextNonces, context) <= NextNonce(before, context) < 0xffff_ffff
    requires NextNonce(after, context) == NextNonce(before, context) + 1
    requires forall x: Digest :: x != context ==> NextNonce(after, x) == NextNonce(before, x)
    ensures InSpan(c, after, pair)
        <==> InSpan(c, before, pair) || pair == PairAt(c, context, NextNonce(before, context))
  {
    hide NextNonce, PairAt;
    if InSpan(c, after, pair) {
      var x: Digest, nonce: U32 :| NextNonce(c.nextNonces, x) <= nonce < NextNonce(after, x)
        && pair == PairAt(c, x, nonce);
      if x != context || nonce < NextNonce(before, context) {
        assert NextNonce(c.nextNonces, x) <= nonce < NextNonce(before, x);
      }
    }
    if InSpan(c, before, pair) {
      var x: Digest, nonce: U32 :| NextNonce(c.nextNonces, x) <= nonce < NextNonce(before, x)
        && pair == PairAt(c, x, nonce);
      assert NextNonce(c.nextNonces, x) <= nonce < NextNonce(after, x);
    }
    assert NextNonce(before, context) < NextNonce(after, context);
  }

  lemma ServedLast<F(!new), P(!new)>(c: CredentialState, ps: ProofSystem<F, P>, calls: seq<Call<F>>, store: Store)
    requires WithinState(c.nextNonces) && calls != [] && CompleteForKeys(ps, calls)
    ensures var n := |calls| - 1;
            var before, pair := Served(c, ps, calls[..n], store), UsedPair(c, ps, calls, n);
            if ResultAt(c, ps, calls, n).Ok? then
              && Served(c, ps, calls, store) == before + {pair}
              && AcceptedCount(c, ps, calls, store)
                   == AcceptedCount(c, ps, calls[..n], store) + if pair in before then 0 else 1
            else
              && Served(c, ps, calls, store) == before
              && AcceptedCount(c, ps, calls, store) == AcceptedCount(c, ps, calls[..n], store)
  {
    hide Complete, ResultAt, RunState, VerifyResult, VerifyStore, NextNonce, PairAt, WithinState;
    var n := |calls| - 1;
    if ResultAt(c, ps, calls, n).Ok? {
      ServedOne(c, ps, calls, n, Served(c, ps, calls[..n], store));
    }
  }

  lemma SpanLast<F, P>(c: CredentialState, ps: ProofSystem<F, P>, calls: seq<Call<F>>, pair: (Digest, Digest))
    requires WithinState(c.nextNonces) && calls != []
    ensures var n := |calls| - 1;
            InSpan(c, RunState(c, ps, calls).nextNonces, pair)
            <==> InSpan(c, RunState(c, ps, calls[..n]).nextNonces, pair)
                 || (ResultAt(c, ps, calls, n).Ok? && pair == UsedPair(c, ps, calls, n))
  {
    hide PresentResult, PresentState, NextNonce, PairAt, InSpan, WithinState;
    var n := |calls| - 1;
    var before, context := RunState(c, ps, calls[..n]), calls[n].challenge.presentationContext;
    RunInvariant(c, ps, calls[..n], context);
    PresentEffect(before, ps, calls[n].pk, calls[n].challenge, calls[n].coins);
    if ResultAt(c, ps, calls, n).Ok? {
      SpanGrows(c, before.nextNonces, RunState(c, ps, calls).nextNonces, context, pair);
    }
  }

  /** What a verifier holds after a whole run, in all buckets: exactly what it
      held before and the pairs of the nonces the run used. */
  lemma {:induction false} ServedExactly<F(!new), P(!new)>(c: CredentialState, ps: ProofSystem<F, P>,
                                                           calls: seq<Call<F>>, store: Store,
                                                           pair: (Digest, Digest))
    requires WithinState(c.nextNonces) && CompleteForKeys(ps, calls)
    ensures pair in Served(c, ps, calls, store) <==> pair in store || InSpan(c, RunState(c, ps, calls).nextNonces, pair)
    decreases |calls|
  {
    hide Complete, ResultAt, UsedPair, InSpan, WithinState, AcceptedCount;
    if calls == [] {
      NothingInSpan(c, pair);
    } else {
      ServedExactly(c, ps, calls[..|calls| - 1], store, pair);
      ServedLast(c, ps, calls, store);
      SpanLast(c, ps, calls, pair);
    }
  }

  /** A verifier accepts as many presentations of a run as its store gains pairs. */
  lemma {:induction false} AcceptedIsGain<F(!new), P(!new)>(c: CredentialState, ps: ProofSystem<F, P>,
                                                            calls: seq<Call<F>>, store: Store)
    requires WithinState(c.nextNonces) && CompleteForKeys(ps, calls)
    ensures |Served(c, ps, calls, store)| == |store| + AcceptedCount(c, ps, calls, store)
    decreases |calls|
  {
    hide Complete, ResultAt, UsedPair, WithinState, VerifyStore, VerifyResult, RunState;
    if calls == [] {
    } else {
      hide Served, AcceptedCount;
      var n := |calls| - 1;
      AcceptedIsGain(c, ps, calls[..n], store);
      ServedLast(c, ps, calls, store);
      OneMore(Served(c, ps, calls[..n], store), UsedPair(c, ps, calls, n));
    }
  }

  lemma OneMore(store: Store, pair: (Digest, Digest))
    ensures |store + {pair}| == |store| + if pair in store then 0 else 1
  {
    if pair in store {
      assert store + {pair} == store;
    }
  }

  lemma NothingInSpan(c: CredentialState, pair: (Digest, Digest))
    ensures !InSpan(c, c.nextNonces, pair)
  {
    hide PairAt;
  }

  ghost predicate NoFurther(end: CounterMap, reached: CounterMap) {
    forall context: Digest :: NextNonce(end, context) <= NextNonce(reached, context)
  }

  lemma {:induction false} CountersGrow<F, P>(c: CredentialState, ps: ProofSystem<F, P>, calls: seq<Call<F>>, i: nat,
                                              context: Digest)
    requires WithinState(c.nextNonces) && i <= |calls|
    ensures NextNonce(RunState(c, ps, calls[..i]).nextNonces, context)
         <= NextNonce(RunState(c, ps, calls).nextNonces, context)
    decreases |calls| - i
  {
    hide PresentResult, PresentState, NextNonce, WithinState;
    if i == |calls| {
      assert calls[..i] == calls;
    } else {
      RunInvariant(c, ps, calls[..i], context);
      assert calls[..i + 1][..i] == calls[..i];
      PresentEffect(RunState(c, ps, calls[..i]), ps, calls[i].pk, calls[i].challenge, calls[i].coins);
      CountersGrow(c, ps, calls, i + 1, context);
    }
  }

  /** Rollback adds no capacity. A client restarts from the snapshot after its
      first k calls and makes any calls, in any buckets, that take no counter
      past what it had reached. Each presentation is refused as a duplicate, and
      the store and the number of accepted presentations stay as they were. */
  lemma RollbackAddsNothing<F(!new), P(!new)>(c: CredentialState, ps: ProofSystem<F, P>, calls: seq<Call<F>>, k: nat,
                                              again: seq<Call<F>>, store: Store)
    requires WithinState(c.nextNonces) && k <= |calls| && CompleteForKeys(ps, calls) && CompleteForKeys(ps, again)
    requires NoFurther(RunState(RunState(c, ps, calls[..k]), ps, again).nextNonces, RunState(c, ps, calls).nextNonces)
    ensures var snapshot, full := RunState(c, ps, calls[..k]), Served(c, ps, calls, store);
            && Served(snapshot, ps, again, full) == full
            && AcceptedCount(snapshot, ps, again, full) == 0
            && (forall i :: 0 <= i < |again| && ResultAt(snapshot, ps, again, i).Ok? ==>
                  VerifyResult(ps, again[i].pk, full, Works, again[i].challenge, ResultAt(snapshot, ps, again, i).value)
                  == Err(TagAlreadyUsed))
  {
    hide Complete, PresentResult, PresentState, VerifyResult, VerifyStore, NextNonce, PairAt, Served, AcceptedCount;
    var snapshot, full := RunState(c, ps, calls[..k]), Served(c, ps, calls, store);
    var end := RunState(snapshot, ps, again).nextNonces;
    RunInvariant(c, ps, calls[..k], seq(32, i => 0));
    AcceptedIsGain(snapshot, ps, again, full);
    forall pair
      ensures pair in Served(snapshot, ps, again, full) <==> pair in full || InSpan(snapshot, end, pair)
    {
      ServedExactly(snapshot, ps, again, full, pair);
    }
    forall pair | InSpan(snapshot, end, pair)
      ensures pair in full
    {
      ServedExactly(c, ps, calls, store, pair);
      var x: Digest, nonce: U32 :| NextNonce(snapshot.nextNonces, x) <= nonce < NextNonce(end, x)
        && pair == PairAt(snapshot, x, nonce);
      SpanReached(c, ps, calls, k, x, nonce);
    }
    assert Served(snapshot, ps, again, full) == full;
    forall i | 0 <= i < |again| && ResultAt(snapshot, ps, again, i).Ok?
      ensures VerifyResult(ps, again[i].pk, full, Works, again[i].challenge, ResultAt(snapshot, ps, again, i).value)
           == Err(TagAlreadyUsed)
    {
      ServedOne(snapshot, ps, again, i, full);
      UsedInSpan(snapshot, ps, again, i);
    }
  }

  /** A nonce between a snapshot and the end of the run it was taken from is a
      nonce of that run. */
  lemma SpanReached<F, P>(c: CredentialState, ps: ProofSystem<F, P>, calls: seq<Call<F>>, k: nat, context: Digest,
                          nonce: U32)
    requires WithinState(c.nextNonces) && k <= |calls|
    requires NextNonce(RunState(c, ps, calls[..k]).nextNonces, context) <= nonce
    requires nonce < NextNonce(RunState(c, ps, calls).nextNonces, context)
    ensures InSpan(c, RunState(c, ps, calls).nextNonces, PairAt(RunState(c, ps, calls[..k]), context, nonce))
  {
    hide PresentResult, PresentState, NextNonce, PairAt, WithinState;
    RunInvariant(c, ps, calls[..k], context);
    PairDependsOnIdentity(RunState(c, ps, calls[..k]), c, context, nonce);
    assert NextNonce(c.nextNonces, context) <= nonce;
  }

  lemma UsedInSpan<F, P>(c: CredentialState, ps: ProofSystem<F, P>, calls: seq<Call<F>>, i: nat)
    requires WithinState(c.nextNonces) && i < |calls| && ResultAt(c, ps, calls, i).Ok?
    ensures InSpan(c, RunState(c, ps, calls).nextNonces, UsedPair(c, ps, calls, i))
  {
    hide PresentResult, PresentState, NextNonce, PairAt, WithinState, RunState;
    var context := calls[i].challenge.presentationContext;
    RunInvariant(c, ps, calls[..i], context);
    UsedOnce(c, ps, calls, i);
    CountersGrow(c, ps, calls, i + 1, context);
    var nonce := NextNonce(RunState(c, ps, calls[..i]).nextNonces, context);
    assert NextNonce(c.nextNonces, context) <= nonce < NextNonce(RunState(c, ps, calls).nextNonces, context);
  }

  lemma UsedOnce<F, P>(c: CredentialState, ps: ProofSystem<F, P>, calls: seq<Call<F>>, i: nat)
    requires WithinState(c.nextNonces) && i < |calls| && ResultAt(c, ps, calls, i).Ok?
    ensures var context := calls[i].challenge.presentationContext;
            NextNonce(RunState(c, ps, calls[..i + 1]).nextNonces, context)
            == NextNonce(RunState(c, ps, calls[..i]).nextNonces, context) + 1
  {
    hide PresentResult, PresentState, NextNonce, PairAt, WithinState;
    RunInvariant(c, ps, calls[..i], calls[i].challenge.presentationContext);
    assert calls[..i + 1][..i] == calls[..i];
    PresentEffect(RunState(c, ps, calls[..i]), ps, calls[i].pk, calls[i].challenge, calls[i].coins);
  }

  // ----- Canonical encoding

  const WIRE_CREDENTIAL: bv8 := 6

  function CountField(m: CounterMap): (n: U32) {
    if |m| < 0x1_0000_0000 then |m| else 0xffff_ffff
  }

  ghost function EncodeCredential(suite: Suite, c: CredentialState): (bytes: seq<bv8>) {
    HeaderBytes(WIRE_CREDENTIAL, suite.wireId) + c.issuerContext + c.credentialContext + Pack(c.signature)
      + c.secret + c.hidingNonce + c.salt + LeBytes(CountField(c.nextNonces), 4) + EncodeCounters(c.nextNonces)
  }

  function ParseCredential(suite: Suite, bytes: seq<bv8>): (r: Wire.Result<CredentialState>) {
    var rest :- ParseHeader(bytes, WIRE_CREDENTIAL, suite.wireId);
    var (issuer, rest) :- ParseDigest(rest);
    var (context, rest) :- ParseDigest(rest);
    var (signature, rest) :- ParseNibbles(rest, suite.kn);
    var (secret, rest) :- ParseDigest(rest);
    var (nonce, rest) :- ParseDigest(rest);
    var (salt, rest) :- ParseDigest(rest);
    var (count, rest) :- ParseU32(rest);
    if count > MAX_PRESENTATION_CONTEXTS then Failure(InvalidEncoding)
    else
      var (counters, rest) :- ParseRecords(rest, count, Start, map[]);
      if rest != [] then Failure(InvalidEncoding)
      else Success(CredentialState(issuer, context, signature, secret, nonce, salt, counters))
  }

  function DecodeCredential<F>(pk: PublicKey<F>, bytes: seq<bv8>): (r: Wire.Result<CredentialState>) {
    var c :- ParseCredential(pk.suite, bytes);
    if c.issuerContext != pk.context then Failure(WireError.WrongIssuer)
    else if !Authentic(pk, c) then Failure(InvalidCredential)
    else Success(c)
  }

  /** `Credential::from_bytes`. */
  method FromBytes<F>(pk: PublicKey<F>, bytes: seq<bv8>) returns (r: Wire.Result<CredentialState>)
    ensures r == DecodeCredential(pk, bytes)
  {
    hide Authentic, ParseRecords, ParseNibbles, ParseU32, ParseDigest, ParseHeader;
    var decoder :- NewDecoder(bytes, WIRE_CREDENTIAL, pk.suite.wireId);
    var issuerContext :- decoder.TakeDigest();
    var credentialContext :- decoder.TakeDigest();
    var signature :- decoder.TakeNibbles(pk.suite.kn);
    var secret :- decoder.TakeDigest();
    var hidingNonce :- decoder.TakeDigest();
    var salt :- decoder.TakeDigest();
    var contextCount :- decoder.TakeU32();
    if contextCount > MAX_PRESENTATION_CONTEXTS {
      return Failure(InvalidEncoding);
    }
    var nextNonces :- TakeCounters(decoder, contextCount);
    var _ :- decoder.Finish();
    if issuerContext != pk.context {
      return Failure(WireError.WrongIssuer);
    }
    var credential := CredentialState(issuerContext, credentialContext, signature, secret, hidingNonce, salt,
      nextNonces);
    if !Authentic(pk, credential) {
      return Failure(InvalidCredential);
    }
    r := Success(credential);
  }

  /** The credentials that have a canonical encoding under a key. */
  ghost predicate WellFormed<F>(pk: PublicKey<F>, c: CredentialState) {
    Authentic(pk, c) && WithinState(c.nextNonces)
  }

  function EncodedLength(suite: Suite, c: CredentialState): (n: nat) {
    173 + (|c.signature| + 1) / 2 + 36 * |c.nextNonces|
  }

  lemma EncodeCredentialLength(suite: Suite, c: CredentialState)
    ensures |EncodeCredential(suite, c)| == EncodedLength(suite, c)
  {
    hide EncodeRecords, LeBytes, Pack, HeaderBytes;
    EncodeRecordsLength(SortedKeys(c.nextNonces.Keys), c.nextNonces);
  }

  /** The encoding without its envelope, grouped the way it is parsed. */
  ghost function CredentialBody(c: CredentialState): (bytes: seq<bv8>) {
    c.issuerContext + (c.credentialContext + (Pack(c.signature) + (c.secret + (c.hidingNonce + (c.salt
      + (LeBytes(CountField(c.nextNonces), 4) + EncodeCounters(c.nextNonces)))))))
  }

  lemma EncodeCredentialBody(suite: Suite, c: CredentialState)
    ensures EncodeCredential(suite, c) == HeaderBytes(WIRE_CREDENTIAL, suite.wireId) + CredentialBody(c)
  {
    hide EncodeCounters, LeBytes, Pack, HeaderBytes, CountField;
  }

  /** A field appended to a prefix of a string, seen from the whole string. */
  lemma FieldOfPrefix(bytes: seq<bv8>, prefix: seq<bv8>, field: seq<bv8>)
    requires |prefix + field| <= |bytes| && bytes[..|prefix + field|] == prefix + field
    ensures bytes[..|prefix|] == prefix && bytes[|prefix|..|prefix| + |field|] == field
  {
    assert bytes[..|prefix|] == bytes[..|prefix + field|][..|prefix|];
    assert bytes[|prefix|..|prefix| + |field|] == bytes[..|prefix + field|][|prefix|..];
  }

  /** Where each field of the encoding stands. */
  lemma CredentialLayout(suite: Suite, c: CredentialState)
    ensures var bytes, p := EncodeCredential(suite, c), (|c.signature| + 1) / 2;
            && |bytes| == EncodedLength(suite, c)
            && bytes[..9] == HeaderBytes(6, suite.wireId)
            && bytes[9..41] == c.issuerContext && bytes[41..73] == c.credentialContext
            && bytes[73..73 + p] == Pack(c.signature)
            && bytes[73 + p..105 + p] == c.secret && bytes[105 + p..137 + p] == c.hidingNonce
            && bytes[137 + p..169 + p] == c.salt
            && bytes[169 + p..173 + p] == LeBytes(CountField(c.nextNonces), 4)
            && bytes[173 + p..] == EncodeCounters(c.nextNonces)
  {
    EncodeCredentialLength(suite, c);
    hide EncodeCounters, LeBytes, Pack, HeaderBytes;
    var e0 := HeaderBytes(WIRE_CREDENTIAL, suite.wireId);
    var e1 := e0 + c.issuerContext;
    var e2 := e1 + c.credentialContext;
    var e3 := e2 + Pack(c.signature);
    var e4 := e3 + c.secret;
    var e5 := e4 + c.hidingNonce;
    var e6 := e5 + c.salt;
    var e7 := e6 + LeBytes(CountField(c.nextNonces), 4);
    var bytes := e7 + EncodeCounters(c.nextNonces);
    assert EncodeCredential(suite, c) == bytes;
    assert bytes[..|bytes|] == bytes;
    hide EncodeCredential;
    FieldOfPrefix(bytes, e7, EncodeCounters(c.nextNonces));
    FieldOfPrefix(bytes, e6, LeBytes(CountField(c.nextNonces), 4));
    FieldOfPrefix(bytes, e5, c.salt);
    FieldOfPrefix(bytes, e4, c.hidingNonce);
    FieldOfPrefix(bytes, e3, c.secret);
    FieldOfPrefix(bytes, e2, Pack(c.signature));
    FieldOfPrefix(bytes, e1, c.credentialContext);
    FieldOfPrefix(bytes, e0, c.issuerContext);
  }

  /** The parser on any encoding, read back field by field. */
  lemma ParseCredentialFormat(suite: Suite, c: CredentialState)
    requires |c.signature| == suite.kn && EncodedLength(suite, c) <= MAX_WIRE_BYTES
    ensures ParseCredential(suite, EncodeCredential(suite, c))
         == if WithinState(c.nextNonces) then Success(c) else Failure(InvalidEncoding)
  {
    EncodeCredentialLength(suite, c);
    EncodeCredentialBody(suite, c);
    hide EncodeCounters, LeBytes, Pack, HeaderBytes, ParseRecords, ParseNibbles, ParseU32, ParseDigest,
      EncodeCredential;
    var m := c.nextNonces;
    var r7 := EncodeCounters(m);
    var r6 := LeBytes(CountField(m), 4) + r7;
    var r5 := c.salt + r6;
    var r4 := c.hidingNonce + r5;
    var r3 := c.secret + r4;
    var r2 := Pack(c.signature) + r3;
    var r1 := c.credentialContext + r2;
    ParseHeaderFormat(WIRE_CREDENTIAL, suite.wireId, CredentialBody(c));
    hide ParseHeader;
    ParseDigestFormat(c.issuerContext, r1);
    ParseDigestFormat(c.credentialContext, r2);
    ParseNibblesFormat(c.signature, r3);
    ParseDigestFormat(c.secret, r4);
    ParseDigestFormat(c.hidingNonce, r5);
    ParseDigestFormat(c.salt, r6);
    ParseU32Format(CountField(m), r7);
    assert r7 + [] == r7;
    if Nonzero(m) {
      CountersRoundTrip(m, []);
    } else {
      ZeroCounterRejected(m, []);
    }
  }

  /** What the decoder answers to any encoding under any key of the suite: the
      credential itself exactly when it is well formed, and otherwise the error
      that tells why not. An oversized counter map is rejected, not truncated. */
  lemma CredentialRoundTrip<F>(pk: PublicKey<F>, c: CredentialState)
    requires |c.signature| == pk.suite.kn
    ensures DecodeCredential(pk, EncodeCredential(pk.suite, c))
         == if EncodedLength(pk.suite, c) > 33_554_432 then Failure(TooLarge)
            else if |c.nextNonces| > 4096 || !Nonzero(c.nextNonces) then Failure(InvalidEncoding)
            else if c.issuerContext != pk.context then Failure(WireError.WrongIssuer)
            else if !Authentic(pk, c) then Failure(InvalidCredential)
            else Success(c)
  {
    hide EncodeCredential, Authentic;
    if EncodedLength(pk.suite, c) <= MAX_WIRE_BYTES {
      hide ParseCredential;
      ParseCredentialFormat(pk.suite, c);
    } else {
      EncodeCredentialLength(pk.suite, c);
      hide ParseDigest, ParseNibbles, ParseU32, ParseRecords;
    }
  }

  /** Every accepted byte string is the encoding of the credential it decodes
      to, and that credential is authentic and within the state bounds. */
  lemma CredentialCanonical<F>(pk: PublicKey<F>, bytes: seq<bv8>)
    requires DecodeCredential(pk, bytes).Success?
    ensures var c := DecodeCredential(pk, bytes).value;
            WellFormed(pk, c) && EncodeCredential(pk.suite, c) == bytes
  {
    hide EncodeCounters, LeBytes, Pack, HeaderBytes, ParseRecords, ParseNibbles, ParseU32, SignedCredentialTarget,
      EncodeCredential, ParseHeader;
    var c := DecodeCredential(pk, bytes).value;
    FormatParseHeader(bytes, WIRE_CREDENTIAL, pk.suite.wireId);
    var body := ParseHeader(bytes, WIRE_CREDENTIAL, pk.suite.wireId).value;
    var r1 := ParseDigest(body).value.1;
    var r2 := ParseDigest(r1).value.1;
    FormatParseNibbles(r2, pk.suite.kn);
    var r3 := ParseNibbles(r2, pk.suite.kn).value.1;
    var r4 := ParseDigest(r3).value.1;
    var r5 := ParseDigest(r4).value.1;
    var r6 := ParseDigest(r5).value.1;
    FormatParseDigest(body);
    FormatParseDigest(r1);
    FormatParseDigest(r3);
    FormatParseDigest(r4);
    FormatParseDigest(r5);
    FormatParseU32(r6);
    var (count, r7) := ParseU32(r6).value;
    CountersCanonical(r7, count);
    hide ParseDigest;
    assert r7 == EncodeCounters(c.nextNonces) + [];
    assert r7 == EncodeCounters(c.nextNonces);
    EncodeCredentialBody(pk.suite, c);
    assert body == CredentialBody(c);
  }
}
