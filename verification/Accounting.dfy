/** Scoped accounting over every run: issuers, clients, verifier replicas and one
    atomic tag store as a step machine, and the bound on accepted presentations. */
module Accounting {
  import opened Constraints
  import opened Messages
  import opened Circuits
  import opened Framing
  import opened Protocol
  import opened Issuance

  /** One deployment: a key, its proof backend, the issuer's sampler, and the
      extractor that the knowledge argument provides. */
  datatype World<!F, !P> = World(pk: PublicKey<F>, ps: ProofSystem<F, P>, sample: Sampler,
                                 extract: Extractor<F, P>)

  /** A request the issuer answered under a credential context. */
  datatype Issued<+P> = Issued(credentialContext: Digest, request: IssueRequest<P>)

  /** A presentation submitted under a challenge. Anybody may submit anything:
      rolled-back clients, copies and adversaries need no steps of their own. */
  datatype Entry<+P> = Entry(challenge: Challenge, presentation: Presentation<P>)

  datatype State<+P> = State(issued: seq<Issued<P>>, pending: map<nat, Entry<P>>, store: Store, accepted: seq<Entry<P>>)

  /** The steps. A verifier call is two of them, a proof step and an insert step,
      so calls of different replicas interleave freely on the shared store. */
  datatype Event<+P> =
    | Sign(credentialContext: Digest, request: IssueRequest<P>, salt: Digest, coins: nat)
    | Check(call: nat, entry: Entry<P>)
    | Insert(call: nat)
    | FailInsert(call: nat, durable: bool)

  function InitialState<P>(): (after: State<P>) {
    State([], map[], {}, [])
  }

  function Key<F, P>(w: World<F, P>, e: Entry<P>): (key: (Digest, Digest)) {
    (ScopeOf(w.pk, e.challenge), e.presentation.tag)
  }

  /** One step. An insertion that reports an error accepts nothing, whether or
      not the pair became durable. */
  function Step<F, P>(w: World<F, P>, s: State<P>, event: Event<P>): (after: State<P>)
    requires w.pk.suite.Fits()
  {
    match event
    case Sign(cc, request, salt, coins) =>
      if Issue(w.ps, w.pk, w.sample, cc, request, salt, coins).Ok?
        then s.(issued := s.issued + [Issued(cc, request)]) else s
    case Check(call, e) =>
      if call !in s.pending && VerifyProofOnly(w.ps, w.pk, e.challenge, e.presentation).Ok?
        then s.(pending := s.pending[call := e]) else s
    case Insert(call) =>
      if call !in s.pending then s
      else
        var e := s.pending[call];
        var done := s.(pending := s.pending - {call});
        if Key(w, e) in s.store then done
        else done.(store := s.store + {Key(w, e)}, accepted := s.accepted + [e])
    case FailInsert(call, durable) =>
      if call !in s.pending then s
      else
        var done := s.(pending := s.pending - {call});
        if durable then done.(store := s.store + {Key(w, s.pending[call])}) else done
  }

  function Run<F, P>(w: World<F, P>, events: seq<Event<P>>): (after: State<P>)
    requires w.pk.suite.Fits()
    decreases |events|
  {
    if events == [] then InitialState()
    else Step(w, Run(w, events[..|events| - 1]), events[|events| - 1])
  }

  /** The insert step of a call, as the storage behaves. */
  function StoreStep<P>(call: nat, storage: Storage): (event: Event<P>) {
    match storage
    case Works => Insert(call)
    case Fails(durable) => FailInsert(call, durable)
  }

  /** A verifier call that is not interrupted is its two steps in a row. */
  lemma VerifyIsCheckThenInsert<F, P>(w: World<F, P>, s: State<P>, call: nat, e: Entry<P>, storage: Storage)
    requires w.pk.suite.Fits() && call !in s.pending
    ensures var after := Step(w, Step(w, s, Check(call, e)), StoreStep(call, storage));
            var accepts := VerifyResult(w.ps, w.pk, s.store, storage, e.challenge, e.presentation).Ok?;
            && after.store == VerifyStore(w.ps, w.pk, s.store, storage, e.challenge, e.presentation)
            && after.accepted == s.accepted + (if accepts then [e] else [])
            && after.pending == s.pending && after.issued == s.issued
  {
    hide Accepts, ScopeOf;
    if VerifyProofOnly(w.ps, w.pk, e.challenge, e.presentation).Ok? {
      assert s.pending[call := e] - {call} == s.pending;
    }
  }

  // ----- What every run keeps

  ghost predicate Checked<F, P>(w: World<F, P>, e: Entry<P>) {
    Accepts(w.ps, w.pk, e.challenge, e.presentation)
  }

  /** The issuer really returned a response to this request. */
  ghost predicate Signed<F, P>(w: World<F, P>, r: Issued<P>)
    requires w.pk.suite.Fits()
  {
    exists salt: Digest, coins: nat :: Issue(w.ps, w.pk, w.sample, r.credentialContext, r.request, salt, coins).Ok?
  }

  ghost predicate Invariant<F, P>(w: World<F, P>, s: State<P>)
    requires w.pk.suite.Fits()
  {
    && (forall call :: call in s.pending ==> Checked(w, s.pending[call]))
    && (forall i :: 0 <= i < |s.accepted| ==> Checked(w, s.accepted[i]) && Key(w, s.accepted[i]) in s.store)
    && (forall i, j :: 0 <= i < j < |s.accepted| ==> Key(w, s.accepted[i]) != Key(w, s.accepted[j]))
    && (forall i :: 0 <= i < |s.issued| ==> Signed(w, s.issued[i]))
  }

  lemma StepKeepsInvariant<F, P>(w: World<F, P>, s: State<P>, event: Event<P>)
    requires w.pk.suite.Fits() && Invariant(w, s)
    ensures Invariant(w, Step(w, s, event))
    ensures s.store <= Step(w, s, event).store
    ensures s.accepted <= Step(w, s, event).accepted
  {
    hide Accepts, Issue, ScopeOf;
    if event.Sign? && Issue(w.ps, w.pk, w.sample, event.credentialContext, event.request, event.salt, event.coins).Ok? {
      assert Signed(w, Issued(event.credentialContext, event.request));
    }
  }

  /** Accepted presentations were all proved, and no two share a stored tag. */
  lemma {:induction false} RunKeepsInvariant<F, P>(w: World<F, P>, events: seq<Event<P>>)
    requires w.pk.suite.Fits()
    ensures Invariant(w, Run(w, events))
    decreases |events|
  {
    hide Invariant, Step;
    if events == [] {
      InitialInvariant(w);
    } else {
      var n := |events| - 1;
      RunKeepsInvariant(w, events[..n]);
      StepKeepsInvariant(w, Run(w, events[..n]), events[n]);
    }
  }

  lemma InitialInvariant<F, P>(w: World<F, P>)
    requires w.pk.suite.Fits()
    ensures Invariant(w, InitialState<P>())
  {
  }

  // ----- Extraction, authentication and binding

  /** A credential lineage: an opening of a commitment under a credential scope. */
  datatype Lineage = Lineage(scope: Digest, secret: Digest, hidingNonce: Digest)

  function LineageHash(suite: Suite, l: Lineage): (values: seq<bv4>) {
    CredentialTarget(suite.m, l.scope, l.secret, l.hidingNonce)
  }

  function IssueExtract<F, P>(w: World<F, P>, r: Issued<P>): (bits: seq<bool>)
    requires w.pk.suite.Fits() && |r.request.commitment| == w.pk.suite.m
  {
    w.extract(IssueStatementOf(w.pk, r.credentialContext, r.request.commitment),
              IssueCompiled(w.pk, r.credentialContext, r.request.commitment), r.request.proof)
  }

  function PresentationExtract<F, P>(w: World<F, P>, e: Entry<P>): (bits: seq<bool>)
    requires w.pk.suite.Fits()
  {
    w.extract(StatementOf(w.pk, e.challenge, e.presentation.tag),
              PresentationCompiled(w.pk, e.challenge, e.presentation.tag), e.presentation.proof)
  }

  /** The extractor returns a satisfying witness for this issuance proof. */
  ghost predicate IssueExtracted<F, P>(w: World<F, P>, r: Issued<P>)
    requires w.pk.suite.Fits()
  {
    && |r.request.commitment| == w.pk.suite.m
    && Satisfied(w.pk.system, IssueCompiled(w.pk, r.credentialContext, r.request.commitment), IssueExtract(w, r))
  }

  /** The extractor returns a satisfying witness for this presentation proof. */
  ghost predicate Extracted<F, P>(w: World<F, P>, e: Entry<P>)
    requires w.pk.suite.Fits()
  {
    Satisfied(w.pk.system, PresentationCompiled(w.pk, e.challenge, e.presentation.tag), PresentationExtract(w, e))
  }

  ghost function IssuedLineage<F, P>(w: World<F, P>, r: Issued<P>): (l: Lineage)
    requires w.pk.suite.Fits() && IssueExtracted(w, r)
  {
    Lineage(CredentialScope(w.pk.context, r.credentialContext), IssueSecret(IssueExtract(w, r)),
      IssueHidingNonce(IssueExtract(w, r)))
  }

  ghost function SecretsIn<F, P>(w: World<F, P>, e: Entry<P>): (r: Secrets)
    requires w.pk.suite.Fits() && Extracted(w, e)
  {
    DecodeSecrets(w.pk.suite, PresentationExtract(w, e))
  }

  ghost function PresentedLineage<F, P>(w: World<F, P>, e: Entry<P>): (l: Lineage)
    requires w.pk.suite.Fits() && Extracted(w, e)
  {
    Lineage(CredentialScope(w.pk.context, e.challenge.credentialContext), SecretsIn(w, e).secret,
      SecretsIn(w, e).hidingNonce)
  }

  ghost function PresentedCommitment<F, P>(w: World<F, P>, e: Entry<P>): (values: seq<bv4>)
    requires w.pk.suite.Fits() && Extracted(w, e)
  {
    LineageHash(w.pk.suite, PresentedLineage(w, e))
  }

  /** The extracted authenticator inverts the salted target of its commitment. */
  ghost predicate CarriesAuthenticator<F, P>(w: World<F, P>, e: Entry<P>)
    requires w.pk.suite.Fits() && Extracted(w, e)
  {
    w.pk.system.eval(SecretsIn(w, e).signature)
      == SignedCredentialTarget(w.pk.suite.m, PresentedCommitment(w, e), SecretsIn(w, e).salt)
  }

  /** Extraction succeeds for every answered request and accepted presentation. */
  ghost predicate ExtractionHolds<F, P>(w: World<F, P>, s: State<P>)
    requires w.pk.suite.Fits()
  {
    && (forall i :: 0 <= i < |s.issued| ==> IssueExtracted(w, s.issued[i]))
    && (forall i :: 0 <= i < |s.accepted| ==> Extracted(w, s.accepted[i]))
  }

  /** With a sound backend extraction succeeds on every run: the issuer signs and
      the verifiers accept nothing but what was proved. */
  lemma RunExtracts<F(!new), P(!new)>(w: World<F, P>, events: seq<Event<P>>)
    requires w.pk.suite.Fits() && Lawful(w.pk.system) && Sound(w.ps, w.pk.system, w.extract)
    ensures ExtractionHolds(w, Run(w, events))
  {
    hide Run, Key, Issue, VerifyProofOnly, Sound, Satisfied, IssueCompiled, PresentationCompiled, Lawful, Relation;
    var s := Run(w, events);
    RunKeepsInvariant(w, events);
    LawfulHasField(w.pk.system);
    forall i | 0 <= i < |s.issued|
      ensures IssueExtracted(w, s.issued[i])
    {
      var r := s.issued[i];
      assert Signed(w, r);
      var salt: Digest, coins: nat :| Issue(w.ps, w.pk, w.sample, r.credentialContext, r.request, salt, coins).Ok?;
      SignedIsOpened(w.ps, w.pk, w.extract, w.sample, r.credentialContext, r.request, salt, coins);
    }
    forall i | 0 <= i < |s.accepted|
      ensures Extracted(w, s.accepted[i])
    {
      CheckedVerifies(w, s.accepted[i]);
      AcceptedIsKnown(w.ps, w.pk, w.extract, s.accepted[i].challenge, s.accepted[i].presentation);
    }
  }

  lemma CheckedVerifies<F, P>(w: World<F, P>, e: Entry<P>)
    requires Checked(w, e)
    ensures VerifyProofOnly(w.ps, w.pk, e.challenge, e.presentation).Ok?
  {
  }

  ghost predicate Answered<P>(s: State<P>, commitment: seq<bv4>) {
    exists j :: 0 <= j < |s.issued| && s.issued[j].request.commitment == commitment
  }

  /** No extracted authenticator is for a commitment that was never answered. */
  ghost predicate AuthenticationHolds<F, P>(w: World<F, P>, s: State<P>)
    requires w.pk.suite.Fits() && ExtractionHolds(w, s)
  {
    forall i :: 0 <= i < |s.accepted| && CarriesAuthenticator(w, s.accepted[i]) ==>
      Answered(s, PresentedCommitment(w, s.accepted[i]))
  }

  ghost predicate SameOpening(suite: Suite, a: Lineage, b: Lineage) {
    LineageHash(suite, a) == LineageHash(suite, b) ==> a == b
  }

  /** No two distinct relevant openings share a credential hash. */
  ghost predicate BindingHolds<F, P>(w: World<F, P>, s: State<P>)
    requires w.pk.suite.Fits() && ExtractionHolds(w, s)
  {
    forall i, j :: 0 <= i < |s.accepted| && 0 <= j < |s.issued| ==>
      SameOpening(w.pk.suite, PresentedLineage(w, s.accepted[i]), IssuedLineage(w, s.issued[j]))
  }

  /** The issued lineages: repeated answers to one opening count once. */
  ghost function Lineages<F, P>(w: World<F, P>, s: State<P>): (lineages: set<Lineage>)
    requires w.pk.suite.Fits() && ExtractionHolds(w, s)
  {
    set i | 0 <= i < |s.issued| :: IssuedLineage(w, s.issued[i])
  }

  /** The hypotheses of the accounting theorem on a run. */
  ghost predicate Hypotheses<F, P>(w: World<F, P>, s: State<P>)
    requires w.pk.suite.Fits()
  {
    ExtractionHolds(w, s) && AuthenticationHolds(w, s) && BindingHolds(w, s)
  }

  /** By the issuance circuit, an answered commitment is the hash of its lineage. */
  lemma IssuedIsOpened<F(!new), P>(w: World<F, P>, r: Issued<P>)
    requires w.pk.suite.Fits() && LawfulField(w.pk.system.field) && IssueExtracted(w, r)
    ensures r.request.commitment == LineageHash(w.pk.suite, IssuedLineage(w, r))
  {
    hide AllHold, IssueAssertions, IssueWitness, CredentialTarget, IssueSecret, IssueHidingNonce;
    IssueCircuitExact(w.pk.system, w.pk.suite, IssueCircuitOf(w.pk, r.credentialContext, r.request.commitment),
      IssueExtract(w, r));
  }

  /** By the presentation circuit, an accepted presentation has a signed opening,
      its tag is the tag of its nonce, and the nonce is below its limit. */
  lemma AcceptedIsRelated<F(!new), P>(w: World<F, P>, e: Entry<P>)
    requires w.pk.suite.Fits() && Lawful(w.pk.system) && Extracted(w, e)
    ensures CarriesAuthenticator(w, e)
    ensures e.presentation.tag
        == DeriveTag(PresentedLineage(w, e).secret, ScopeOf(w.pk, e.challenge), SecretsIn(w, e).nonce)
    ensures SecretsIn(w, e).nonce < e.challenge.limit
  {
    hide AllHold, PresentationAssertions, PresentationWitness, DecodeSecrets, SignedCredentialTarget, CredentialTarget,
      DeriveTag, Lawful;
    PresentationCircuitExact(w.pk.system, w.pk.suite, CircuitOf(w.pk, e.challenge, e.presentation.tag),
      PresentationExtract(w, e));
  }

  /** Every accepted presentation belongs to an issued lineage. */
  lemma AcceptedIsIssued<F(!new), P>(w: World<F, P>, s: State<P>, i: nat)
    requires w.pk.suite.Fits() && Lawful(w.pk.system) && Hypotheses(w, s) && i < |s.accepted|
    ensures Extracted(w, s.accepted[i])
    ensures PresentedLineage(w, s.accepted[i]) in Lineages(w, s)
  {
    hide LineageHash, PresentedLineage, IssuedLineage, IssueExtracted, Extracted, Lawful, CarriesAuthenticator;
    var e := s.accepted[i];
    AcceptedIsRelated(w, e);
    assert Answered(s, PresentedCommitment(w, e));
    var j :| 0 <= j < |s.issued| && s.issued[j].request.commitment == PresentedCommitment(w, e);
    LawfulHasField(w.pk.system);
    IssuedIsOpened(w, s.issued[j]);
    assert SameOpening(w.pk.suite, PresentedLineage(w, e), IssuedLineage(w, s.issued[j]));
  }

  lemma LawfulHasField<F(!new)>(sys: System<F>)
    requires Lawful(sys)
    ensures LawfulField(sys.field)
  {
  }

  // ----- Counting

  type Slots = map<nat, (Lineage, nat)>

  function NoncesOf(f: Slots, l: Lineage): (nonces: map<nat, nat>)
    ensures forall i :: i in nonces ==> i in f && f[i] == (l, nonces[i])
  {
    map i | i in f && f[i].0 == l :: f[i].1
  }

  function Without(f: Slots, l: Lineage): (others: Slots)
    ensures forall i :: i in others ==> i in f && others[i] == f[i] && f[i].0 != l
    ensures |f| <= |NoncesOf(f, l)| + |others|
  {
    var others := map i | i in f && f[i].0 != l :: f[i];
    assert f.Keys == NoncesOf(f, l).Keys + others.Keys;
    assert |f.Keys| <= |NoncesOf(f, l).Keys| + |others.Keys| by { UnionSize(f.Keys, NoncesOf(f, l).Keys, others.Keys); }
    others
  }

  lemma UnionSize(all: set<nat>, a: set<nat>, b: set<nat>)
    requires all == a + b
    ensures |all| <= |a| + |b|
  {
    assert all == a + (b - a) && b == (b - a) + (a * b);
  }

  /** q lineages with `bound` nonces each. */
  function Capacity(q: nat, bound: nat): (n: nat) {
    q * bound
  }

  lemma OneMoreLineage(all: nat, mine: nat, others: nat, rest: nat, bound: nat)
    requires all <= mine + others && mine <= bound && others <= Capacity(rest, bound)
    ensures all <= Capacity(rest + 1, bound)
  {
  }

  /** An injection into lineages times nonces below a bound. */
  lemma {:induction false} Pigeonhole(f: Slots, lineages: set<Lineage>, bound: nat)
    requires forall i :: i in f ==> f[i].0 in lineages && f[i].1 < bound
    requires forall i, j :: i in f && j in f && f[i] == f[j] ==> i == j
    ensures |f| <= Capacity(|lineages|, bound)
    decreases |lineages|
  {
    hide NoncesOf, Without, Capacity;
    if lineages == {} {
      assert f.Keys == {};
      assert |f| == 0;
    } else {
      var l :| l in lineages;
      var rest := lineages - {l};
      assert |lineages| == |rest| + 1;
      Below(NoncesOf(f, l), bound);
      Pigeonhole(Without(f, l), rest, bound);
      OneMoreLineage(|f|, |NoncesOf(f, l)|, |Without(f, l)|, |rest|, bound);
    }
  }

  /** An injection into the numbers below a bound. */
  lemma {:induction false} Below(f: map<nat, nat>, bound: nat)
    requires forall i :: i in f ==> f[i] < bound
    requires forall i, j :: i in f && j in f && f[i] == f[j] ==> i == j
    ensures |f| <= bound
    decreases bound
  {
    if bound == 0 {
      assert f.Keys == {};
    } else if top :| top in f && f[top] == bound - 1 {
      var rest := map i | i in f && i != top :: f[i];
      Below(rest, bound - 1);
      assert f.Keys == rest.Keys + {top};
    } else {
      Below(f, bound - 1);
    }
  }

  /** The accepted presentations of one bucket under one credential scope. */
  ghost function AcceptedIn<F, P>(w: World<F, P>, s: State<P>, credential: Digest, scope: Digest): (indices: set<nat>) {
    set i | 0 <= i < |s.accepted|
      && CredentialScope(w.pk.context, s.accepted[i].challenge.credentialContext) == credential
      && ScopeOf(w.pk, s.accepted[i].challenge) == scope
  }

  ghost function AcceptedInScope<F, P>(w: World<F, P>, s: State<P>, scope: Digest): (indices: set<nat>) {
    set i | 0 <= i < |s.accepted| && ScopeOf(w.pk, s.accepted[i].challenge) == scope
  }

  ghost function LineagesUnder<F, P>(w: World<F, P>, s: State<P>, credential: Digest): (lineages: set<Lineage>)
    requires w.pk.suite.Fits() && ExtractionHolds(w, s)
  {
    set l | l in Lineages(w, s) && l.scope == credential
  }

  ghost function Slot<F, P>(w: World<F, P>, e: Entry<P>): (slot: (Lineage, nat))
    requires w.pk.suite.Fits() && Extracted(w, e)
  {
    (PresentedLineage(w, e), SecretsIn(w, e).nonce)
  }

  /** Presentations with one slot in one bucket carry one tag, hence one key. No
      property of the tag function is used. */
  lemma SameSlotSameKey<F(!new), P>(w: World<F, P>, a: Entry<P>, b: Entry<P>)
    requires w.pk.suite.Fits() && Lawful(w.pk.system) && Extracted(w, a) && Extracted(w, b)
    requires ScopeOf(w.pk, a.challenge) == ScopeOf(w.pk, b.challenge) && Slot(w, a) == Slot(w, b)
    ensures Key(w, a) == Key(w, b)
  {
    hide SecretsIn, PresentedLineage, Extracted, Lawful, DeriveTag, CarriesAuthenticator, ScopeOf;
    AcceptedIsRelated(w, a);
    AcceptedIsRelated(w, b);
  }

  lemma SlotBelowLimit<F(!new), P>(w: World<F, P>, e: Entry<P>)
    requires w.pk.suite.Fits() && Lawful(w.pk.system) && Extracted(w, e)
    ensures Slot(w, e).0 == PresentedLineage(w, e) && Slot(w, e).1 < e.challenge.limit
  {
    hide SecretsIn, PresentedLineage, Extracted, Lawful, DeriveTag, CarriesAuthenticator, ScopeOf;
    AcceptedIsRelated(w, e);
  }

  ghost predicate InBucket<F, P>(w: World<F, P>, s: State<P>, chosen: set<nat>, scope: Digest, limit: nat) {
    forall i :: i in chosen ==>
      i < |s.accepted| && ScopeOf(w.pk, s.accepted[i].challenge) == scope && s.accepted[i].challenge.limit <= limit
  }

  /** The bound for any set of accepted presentations in one bucket whose
      lineages lie in a given set. */
  lemma BucketBound<F(!new), P>(w: World<F, P>, s: State<P>, chosen: set<nat>, lineages: set<Lineage>, scope: Digest,
                                limit: nat)
    requires w.pk.suite.Fits() && Lawful(w.pk.system) && Invariant(w, s) && ExtractionHolds(w, s)
    requires InBucket(w, s, chosen, scope, limit)
    requires forall i :: i in chosen ==> PresentedLineage(w, s.accepted[i]) in lineages
    ensures |chosen| <= |lineages| * limit
  {
    hide PresentedLineage, Slot, Key, Extracted, IssueExtracted, Lawful, Accepts, AcceptsRequest, ScopeOf;
    var f: map<nat, (Lineage, nat)> := map i | i in chosen :: Slot(w, s.accepted[i]);
    forall i | i in f
      ensures f[i].0 in lineages && f[i].1 < limit
    {
      SlotBelowLimit(w, s.accepted[i]);
    }
    forall i, j | i in f && j in f && f[i] == f[j]
      ensures i == j
    {
      if i != j {
        SameSlotSameKey(w, s.accepted[i], s.accepted[j]);
      }
    }
    assert f.Keys == chosen;
    Pigeonhole(f, lineages, limit);
  }

  /** Scoped accounting. Over every run, with extraction, authentication and
      binding, one bucket accepts at most q * limit presentations under one
      credential scope, where q counts the lineages issued under that scope and
      limit is the largest limit accepted there. */
  lemma ScopedAccounting<F(!new), P>(w: World<F, P>, events: seq<Event<P>>, credential: Digest, scope: Digest,
                                     limit: nat)
    requires w.pk.suite.Fits() && Lawful(w.pk.system) && Hypotheses(w, Run(w, events))
    requires var s := Run(w, events);
             forall i :: i in AcceptedIn(w, s, credential, scope) ==> s.accepted[i].challenge.limit <= limit
    ensures var s := Run(w, events);
            |AcceptedIn(w, s, credential, scope)| <= |LineagesUnder(w, s, credential)| * limit
  {
    hide Run, Invariant, ExtractionHolds, AuthenticationHolds, BindingHolds, Lineages, Lawful, Extracted, SecretsIn,
      ScopeOf, CredentialScope;
    var s := Run(w, events);
    RunKeepsInvariant(w, events);
    var chosen := AcceptedIn(w, s, credential, scope);
    forall i | i in chosen
      ensures Extracted(w, s.accepted[i]) && PresentedLineage(w, s.accepted[i]) in LineagesUnder(w, s, credential)
    {
      AcceptedIsIssued(w, s, i);
    }
    BucketBound(w, s, chosen, LineagesUnder(w, s, credential), scope, limit);
  }

  /** Scoped accounting with a sound backend: what is left to assume about a run
      is authentication and binding. */
  lemma SoundAccounting<F(!new), P(!new)>(w: World<F, P>, events: seq<Event<P>>, credential: Digest, scope: Digest,
                                          limit: nat)
    requires w.pk.suite.Fits() && Lawful(w.pk.system) && Sound(w.ps, w.pk.system, w.extract)
    requires var s := Run(w, events);
             ExtractionHolds(w, s) ==> AuthenticationHolds(w, s) && BindingHolds(w, s)
    requires var s := Run(w, events);
             forall i :: i in AcceptedIn(w, s, credential, scope) ==> s.accepted[i].challenge.limit <= limit
    ensures var s := Run(w, events);
            ExtractionHolds(w, s) && |AcceptedIn(w, s, credential, scope)| <= |LineagesUnder(w, s, credential)| * limit
  {
    hide Run, ExtractionHolds, AuthenticationHolds, BindingHolds, Lawful, Sound, AcceptedIn, LineagesUnder;
    RunExtracts(w, events);
    ScopedAccounting(w, events, credential, scope, limit);
  }

  /** Binding fails only by an explicit collision of the commitment hash. */
  lemma BindingOrCollision(suite: Suite, a: Lineage, b: Lineage)
    ensures SameOpening(suite, a, b)
         || NibbleCollision(CredentialMessage(a.scope, a.secret, a.hidingNonce),
                            CredentialMessage(b.scope, b.secret, b.hidingNonce), suite.m)
  {
    hide CredentialTarget, CredentialMessage, NibbleCollision;
    TargetsSeparate(suite.m, a.scope, a.secret, a.hidingNonce, b.scope, b.secret, b.hidingNonce,
      [], a.secret, [], a.secret);
  }

  /** The same bound for a whole bucket and all issued lineages, without any
      assumption that distinct policies have distinct scopes. */
  lemma ScopedAccountingTotal<F(!new), P>(w: World<F, P>, events: seq<Event<P>>, scope: Digest, limit: nat)
    requires w.pk.suite.Fits() && Lawful(w.pk.system) && Hypotheses(w, Run(w, events))
    requires var s := Run(w, events);
             forall i :: i in AcceptedInScope(w, s, scope) ==> s.accepted[i].challenge.limit <= limit
    ensures var s := Run(w, events);
            |AcceptedInScope(w, s, scope)| <= |Lineages(w, s)| * limit && |Lineages(w, s)| <= |s.issued|
  {
    hide Run, Invariant, ExtractionHolds, AuthenticationHolds, BindingHolds, Lineages, Lawful, Extracted, SecretsIn,
      ScopeOf, PresentedLineage;
    var s := Run(w, events);
    RunKeepsInvariant(w, events);
    var chosen := AcceptedInScope(w, s, scope);
    forall i | i in chosen
      ensures Extracted(w, s.accepted[i]) && PresentedLineage(w, s.accepted[i]) in Lineages(w, s)
    {
      AcceptedIsIssued(w, s, i);
    }
    BucketBound(w, s, chosen, Lineages(w, s), scope, limit);
    LineageCount(w, s);
  }

  lemma LineageCount<F, P>(w: World<F, P>, s: State<P>)
    requires w.pk.suite.Fits() && ExtractionHolds(w, s)
    ensures |Lineages(w, s)| <= |s.issued|
  {
    hide IssuedLineage, IssueExtracted, Extracted;
    var ls: seq<Lineage> := seq(|s.issued|, i requires 0 <= i < |s.issued| => IssuedLineage(w, s.issued[i]));
    var elements := set i | 0 <= i < |ls| :: ls[i];
    forall l
      ensures l in Lineages(w, s) <==> l in elements
    {
      if l in Lineages(w, s) {
        var i :| 0 <= i < |s.issued| && IssuedLineage(w, s.issued[i]) == l;
        assert ls[i] == l;
      }
      if l in elements {
        var i :| 0 <= i < |ls| && ls[i] == l;
        assert IssuedLineage(w, s.issued[i]) == l;
      }
    }
    assert Lineages(w, s) == elements;
    ElementCount(ls);
  }

  lemma {:induction false} ElementCount(ls: seq<Lineage>)
    ensures |set i | 0 <= i < |ls| :: ls[i]| <= |ls|
  {
    var all := set i | 0 <= i < |ls| :: ls[i];
    if ls == [] {
      assert all == {};
    } else {
      var n := |ls| - 1;
      ElementCount(ls[..n]);
      var before := set i | 0 <= i < |ls[..n]| :: ls[..n][i];
      forall l
        ensures l in all <==> l in before + {ls[n]}
      {
        if l in before {
          var i :| 0 <= i < n && ls[..n][i] == l;
          assert ls[i] == l;
        }
      }
      assert all == before + {ls[n]};
    }
  }
}
