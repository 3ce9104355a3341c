/** The public key, the proof backend as an interface with stated laws, and the
    decisions that presentation and verification make. */
module Protocol {
  import opened Constraints
  import opened Messages
  import opened Circuits
  import opened Framing

  datatype Error =
    | InvalidRequest | InvalidProof | InvalidSignature | SigningFailed | InvalidPresentationLimit
    | RateLimitReached | WrongCredentialContext | WrongIssuer | TagAlreadyUsed | StorageFailure
    | TooManyPresentationContexts

  datatype Outcome<+T> = Ok(value: T) | Err(error: Error)

  /** The derived protocol context of an issuer and its public MAYO map. */
  datatype PublicKey<!F> = PublicKey(suite: Suite, context: Digest, system: System<F>)

  /** The proof backend. `coins` stands for the prover's randomness. */
  datatype ProofSystem<!F, !P> = ProofSystem(
    prove: (seq<bv8>, Compiled<F>, seq<bool>, nat) -> Option<P>,
    verify: (seq<bv8>, Compiled<F>, P) -> bool)

  /** The extractor of the knowledge argument: a proof to a witness. */
  type Extractor<!F, !P> = (seq<bv8>, Compiled<F>, P) -> seq<bool>

  /** Completeness: the prover refuses unsatisfied witnesses, and the verifier
      accepts what the prover outputs for the same statement and circuit. */
  ghost predicate Complete<F(!new), P(!new)>(ps: ProofSystem<F, P>, sys: System<F>) {
    forall statement: seq<bv8>, circuit: Compiled<F>, wit: seq<bool>, coins: nat ::
      ps.prove(statement, circuit, wit, coins).Some? ==>
        && Satisfied(sys, circuit, wit)
        && ps.verify(statement, circuit, ps.prove(statement, circuit, wit, coins).value)
  }

  /** The prover never fails on a satisfying witness. */
  ghost predicate Willing<F(!new), P(!new)>(ps: ProofSystem<F, P>, sys: System<F>) {
    forall statement: seq<bv8>, circuit: Compiled<F>, wit: seq<bool>, coins: nat ::
      Satisfied(sys, circuit, wit) ==> ps.prove(statement, circuit, wit, coins).Some?
  }

  /** Knowledge soundness: every accepted proof yields a satisfying witness. */
  ghost predicate Sound<F(!new), P(!new)>(ps: ProofSystem<F, P>, sys: System<F>, extract: Extractor<F, P>) {
    forall statement: seq<bv8>, circuit: Compiled<F>, proof: P ::
      ps.verify(statement, circuit, proof) ==> Satisfied(sys, circuit, extract(statement, circuit, proof))
  }

  /** Statement binding: one proof is accepted for at most one statement. */
  ghost predicate BindsStatements<F(!new), P(!new)>(ps: ProofSystem<F, P>) {
    forall st: seq<bv8>, st': seq<bv8>, circuit: Compiled<F>, circuit': Compiled<F>, proof: P ::
      ps.verify(st, circuit, proof) && ps.verify(st', circuit', proof) ==> st == st'
  }

  /** A backend whose proofs are the statement and the witness themselves. */
  type Transparent = (seq<bv8>, seq<bool>)

  ghost function TransparentBackend<F(!new)>(sys: System<F>): (ps: ProofSystem<F, Transparent>) {
    ProofSystem(
      (st: seq<bv8>, circuit: Compiled<F>, wit: seq<bool>, coins: nat) =>
        if Satisfied(sys, circuit, wit) then Some((st, wit)) else None,
      (st: seq<bv8>, circuit: Compiled<F>, proof: Transparent) => proof.0 == st && Satisfied(sys, circuit, proof.1))
  }

  function ReadWitness<F>(): (extract: Extractor<F, Transparent>) {
    (st: seq<bv8>, circuit: Compiled<F>, proof: Transparent) => proof.1
  }

  /** All laws hold together of that backend, for every system. */
  lemma TransparentIsLawful<F(!new)>(sys: System<F>)
    ensures var ps := TransparentBackend(sys);
            Complete(ps, sys) && Willing(ps, sys) && Sound(ps, sys, ReadWitness()) && BindsStatements(ps)
  {
    hide Satisfied;
  }

  datatype Presentation<+P> = Presentation(tag: Digest, proof: P)

  /** The scope and tag that identify an accepted presentation in the store. */
  datatype Verified = Verified(scope: Digest, tag: Digest)

  function ScopeOf<F>(pk: PublicKey<F>, ch: Challenge): (digest: Digest) {
    PresentationScope(pk.context, ch.credentialContext, ch.presentationContext)
  }

  function CircuitOf<F>(pk: PublicKey<F>, ch: Challenge, tag: Digest): (r: PresentationCircuit) {
    PresentationCircuit(CredentialScope(pk.context, ch.credentialContext), ScopeOf(pk, ch), ch.limit, tag)
  }

  function StatementOf<F>(pk: PublicKey<F>, ch: Challenge, tag: Digest): (bytes: seq<bv8>) {
    PresentationStatement(pk.suite.name, pk.context, ch, tag)
  }

  function PresentationCompiled<F>(pk: PublicKey<F>, ch: Challenge, tag: Digest): (circuit: Compiled<F>)
    requires pk.suite.Fits()
  {
    CompiledPresentation(pk.system, pk.suite, CircuitOf(pk, ch, tag))
  }

  /** The backend builds the circuit first, so bad parameters are a proof error. */
  predicate Accepts<F, P>(ps: ProofSystem<F, P>, pk: PublicKey<F>, ch: Challenge, p: Presentation<P>) {
    && ch.limit != 0
    && pk.suite.Fits()
    && ps.verify(StatementOf(pk, ch, p.tag), PresentationCompiled(pk, ch, p.tag), p.proof)
  }

  /** `verify_proof_only`. */
  function VerifyProofOnly<F, P>(ps: ProofSystem<F, P>, pk: PublicKey<F>, ch: Challenge,
                                 p: Presentation<P>): (r: Outcome<Verified>)
  {
    if ch.limit == 0 then Err(InvalidPresentationLimit)
    else if !Accepts(ps, pk, ch, p) then Err(InvalidProof)
    else Ok(Verified(ScopeOf(pk, ch), p.tag))
  }

  // ----- What acceptance means

  /** Acceptance is knowledge: the extractor finds a satisfying witness of the
      very circuit that was checked, so secrets in the native relation. */
  lemma AcceptedIsKnown<F(!new), P(!new)>(ps: ProofSystem<F, P>, pk: PublicKey<F>, extract: Extractor<F, P>,
                                          ch: Challenge, p: Presentation<P>)
    requires Lawful(pk.system) && Sound(ps, pk.system, extract) && VerifyProofOnly(ps, pk, ch, p).Ok?
    ensures ch.limit != 0 && pk.suite.Fits()
    ensures var wit := extract(StatementOf(pk, ch, p.tag), PresentationCompiled(pk, ch, p.tag), p.proof);
            && Satisfied(pk.system, PresentationCompiled(pk, ch, p.tag), wit)
            && Relation(pk.system, pk.suite, CircuitOf(pk, ch, p.tag), DecodeSecrets(pk.suite, wit))
  {
    hide AllHold, PresentationAssertions, PresentationWitness, DecodeSecrets, Relation, StatementOf, CircuitOf, Lawful;
    var wit := extract(StatementOf(pk, ch, p.tag), PresentationCompiled(pk, ch, p.tag), p.proof);
    assert Satisfied(pk.system, PresentationCompiled(pk, ch, p.tag), wit);
    PresentationCircuitExact(pk.system, pk.suite, CircuitOf(pk, ch, p.tag), wit);
  }

  /** Secrets behind a tag: a signed opening and a nonce below the limit. */
  ghost predicate Presentable<F>(pk: PublicKey<F>, ch: Challenge, tag: Digest) {
    exists s: Secrets :: |s.signature| == pk.suite.kn && Relation(pk.system, pk.suite, CircuitOf(pk, ch, tag), s)
  }

  ghost predicate Acceptable<F, P(!new)>(ps: ProofSystem<F, P>, pk: PublicKey<F>, ch: Challenge, tag: Digest) {
    exists proof: P :: VerifyProofOnly(ps, pk, ch, Presentation(tag, proof)).Ok?
  }

  /** A tag has an acceptable proof exactly when there are secrets behind it. */
  lemma AcceptableExactly<F(!new), P(!new)>(ps: ProofSystem<F, P>, pk: PublicKey<F>, extract: Extractor<F, P>,
                                            ch: Challenge, tag: Digest)
    requires pk.suite.Fits() && Lawful(pk.system)
    requires Complete(ps, pk.system) && Willing(ps, pk.system) && Sound(ps, pk.system, extract)
    ensures Acceptable(ps, pk, ch, tag) <==> Presentable(pk, ch, tag)
  {
    hide AllHold, PresentationAssertions, PresentationWitness, DecodeSecrets, StatementOf, CircuitOf, Lawful,
      SignedCredentialTarget, CredentialHash, DeriveTag, Sound, Complete, Willing, VerifyProofOnly, Relation;
    if Acceptable(ps, pk, ch, tag) {
      var proof: P :| VerifyProofOnly(ps, pk, ch, Presentation(tag, proof)).Ok?;
      AcceptedIsKnown(ps, pk, extract, ch, Presentation(tag, proof));
    }
    if Presentable(pk, ch, tag) {
      var s: Secrets :| |s.signature| == pk.suite.kn && Relation(pk.system, pk.suite, CircuitOf(pk, ch, tag), s);
      var proof := ProofOf(ps, pk, ch, tag, s);
    }
  }

  /** Secrets in the relation can be proved, and the proof is accepted. */
  lemma ProofOf<F(!new), P(!new)>(ps: ProofSystem<F, P>, pk: PublicKey<F>, ch: Challenge, tag: Digest, s: Secrets)
    returns (proof: P)
    requires pk.suite.Fits() && Lawful(pk.system) && Complete(ps, pk.system) && Willing(ps, pk.system)
    requires |s.signature| == pk.suite.kn && Relation(pk.system, pk.suite, CircuitOf(pk, ch, tag), s)
    ensures VerifyProofOnly(ps, pk, ch, Presentation(tag, proof)).Ok?
  {
    assert ch.limit != 0;
    hide AllHold, PresentationAssertions, PresentationWitness, StatementOf, CircuitOf, Lawful, Relation;
    PresentationComplete(pk.system, pk.suite, CircuitOf(pk, ch, tag), s);
    var wit := PresentationWitness(pk.suite, CircuitOf(pk, ch, tag), s);
    assert Satisfied(pk.system, PresentationCompiled(pk, ch, tag), wit);
    proof := ps.prove(StatementOf(pk, ch, tag), PresentationCompiled(pk, ch, tag), wit, 0).value;
  }

  /** A presentation is never refused silently: a zero limit and nothing else is
      reported as such, and every other refusal is a proof error. */
  lemma RefusalReason<F, P>(ps: ProofSystem<F, P>, pk: PublicKey<F>, ch: Challenge, p: Presentation<P>)
    ensures VerifyProofOnly(ps, pk, ch, p) == Err(InvalidPresentationLimit) <==> ch.limit == 0
    ensures VerifyProofOnly(ps, pk, ch, p).Err? && ch.limit != 0 ==>
        VerifyProofOnly(ps, pk, ch, p).error == InvalidProof
    ensures VerifyProofOnly(ps, pk, ch, p).Ok? ==>
              VerifyProofOnly(ps, pk, ch, p).value == Verified(ScopeOf(pk, ch), p.tag)
  {
    hide Accepts, ScopeOf;
  }

  /** The statement determines the suite, the issuer, the whole challenge, its
      binding included, and the tag. */
  lemma StatementOfInjective<F>(pk: PublicKey<F>, ch: Challenge, tag: Digest, pk': PublicKey<F>, ch': Challenge,
                                tag': Digest)
    requires Sized(pk.suite.name) && Sized(pk'.suite.name)
    requires StatementOf(pk, ch, tag) == StatementOf(pk', ch', tag')
    ensures pk.suite.name == pk'.suite.name && pk.context == pk'.context && ch == ch' && tag == tag'
  {
    hide PresentationStatement;
    PresentationStatementInjective(pk.suite.name, pk.context, ch, tag, pk'.suite.name, pk'.context, ch', tag');
  }

  /** One proof is accepted for one request only: same issuer, same challenge
      (hence the same binding), same tag. */
  lemma BoundToRequest<F(!new), P(!new)>(ps: ProofSystem<F, P>, pk: PublicKey<F>, ch: Challenge, tag: Digest,
                                         pk': PublicKey<F>, ch': Challenge, tag': Digest, proof: P)
    requires BindsStatements(ps) && Sized(pk.suite.name) && Sized(pk'.suite.name)
    requires VerifyProofOnly(ps, pk, ch, Presentation(tag, proof)).Ok?
    requires VerifyProofOnly(ps, pk', ch', Presentation(tag', proof)).Ok?
    ensures pk.context == pk'.context && ch == ch' && tag == tag'
  {
    hide StatementOf, PresentationCompiled;
    assert StatementOf(pk, ch, tag) == StatementOf(pk', ch', tag');
    StatementOfInjective(pk, ch, tag, pk', ch', tag');
  }

  // ----- The tag store and the verifier

  type Store = set<(Digest, Digest)>

  /** What the storage below a tag store does during one insertion: it works, or
      it reports an error, after the pair became durable or before. */
  datatype Storage = Works | Fails(durable: bool)

  /** A tag store: the contract of the trait, errors included. With working
      storage it is the in-memory reference store. */
  class TagStore {
    var tags: Store

    constructor ()
      ensures tags == {}
    {
      tags := {};
    }

    /** True exactly for the caller that inserted the pair; an error tells the
        caller nothing, and never removes or adds another pair. */
    method InsertIfAbsent(scope: Digest, tag: Digest, storage: Storage) returns (inserted: Outcome<bool>)
      modifies this
      ensures storage.Works? ==> inserted == Ok((scope, tag) !in old(tags)) && tags == old(tags) + {(scope, tag)}
      ensures storage.Fails? ==> inserted == Err(StorageFailure)
      ensures storage.Fails? ==> tags == if storage.durable then old(tags) + {(scope, tag)} else old(tags)
    {
      if storage == Fails(false) {
        return Err(StorageFailure);
      }
      var absent := (scope, tag) !in tags;
      tags := tags + {(scope, tag)};
      inserted := if storage.Works? then Ok(absent) else Err(StorageFailure);
    }
  }

  function VerifyResult<F, P>(ps: ProofSystem<F, P>, pk: PublicKey<F>, store: Store, storage: Storage,
                              ch: Challenge, p: Presentation<P>): (r: Outcome<Verified>)
  {
    match VerifyProofOnly(ps, pk, ch, p)
    case Err(e) => Err(e)
    case Ok(v) =>
      if storage.Fails? then Err(StorageFailure)
      else if (v.scope, v.tag) in store then Err(TagAlreadyUsed)
      else Ok(v)
  }

  function VerifyStore<F, P>(ps: ProofSystem<F, P>, pk: PublicKey<F>, store: Store, storage: Storage,
                             ch: Challenge, p: Presentation<P>): (after: Store)
  {
    match VerifyProofOnly(ps, pk, ch, p)
    case Err(_) => store
    case Ok(v) => if storage == Fails(false) then store else store + {(v.scope, v.tag)}
  }

  class Verifier<!F, !P> {
    const pk: PublicKey<F>
    const store: TagStore

    constructor (pk: PublicKey<F>)
      ensures this.pk == pk && fresh(store) && store.tags == {}
    {
      this.pk := pk;
      this.store := new TagStore();
    }

    /** `Verifier::verify`: every acceptance is one new pair in the store. */
    method Verify(ps: ProofSystem<F, P>, ch: Challenge, p: Presentation<P>, storage: Storage)
      returns (r: Outcome<Verified>)
      modifies store
      ensures r == VerifyResult(ps, pk, old(store.tags), storage, ch, p)
      ensures store.tags == VerifyStore(ps, pk, old(store.tags), storage, ch, p)
      ensures r.Ok? ==> storage.Works? && r.value == Verified(ScopeOf(pk, ch), p.tag)
      ensures r.Ok? ==> (ScopeOf(pk, ch), p.tag) !in old(store.tags) && (ScopeOf(pk, ch), p.tag) in store.tags
      ensures r.Ok? ==> |store.tags| == |old(store.tags)| + 1
      ensures r.Err? && r.error != StorageFailure ==> store.tags == old(store.tags)
    {
      hide Accepts, ScopeOf;
      var verified := VerifyProofOnly(ps, pk, ch, p);
      if verified.Err? {
        return verified;
      }
      var inserted := store.InsertIfAbsent(verified.value.scope, verified.value.tag, storage);
      if inserted.Err? {
        return Err(inserted.error);
      }
      if !inserted.value {
        assert store.tags == old(store.tags);
        return Err(TagAlreadyUsed);
      }
      r := verified;
    }
  }
}
