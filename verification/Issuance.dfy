/** Blind issuance end to end: request, response, crash recovery of the pending
    state, and the credentials that finishing can produce. */
module Issuance {
  import opened Bits
  import opened Nibbles
  import opened Constraints
  import opened Messages
  import opened Circuits
  import opened Framing
  import opened Wire
  import opened Counters
  import opened Protocol
  import opened Credentials

  datatype PendingIssue = PendingIssue(
    issuerContext: Digest, credentialContext: Digest, secret: Digest, hidingNonce: Digest, commitment: seq<bv4>)

  datatype IssueRequest<+P> = IssueRequest(commitment: seq<bv4>, proof: P)

  datatype IssueResponse = IssueResponse(signature: seq<bv4>, salt: Digest)

  /** The issuer's trapdoor sampler: a target and randomness to a preimage. */
  type Sampler = (seq<bv4>, nat) -> Option<seq<bv4>>

  ghost predicate SamplesPreimages<F>(sample: Sampler, pk: PublicKey<F>) {
    forall target: seq<bv4>, coins: nat ::
      sample(target, coins).Some? ==>
        |sample(target, coins).value| == pk.suite.kn && pk.system.eval(sample(target, coins).value) == target
  }

  function Commitment<F>(pk: PublicKey<F>, credentialContext: Digest, secret: Digest,
                         hidingNonce: Digest): (commitment: seq<bv4>)
  {
    CredentialTarget(pk.suite.m, CredentialScope(pk.context, credentialContext), secret, hidingNonce)
  }

  function IssueCircuitOf<F>(pk: PublicKey<F>, credentialContext: Digest, commitment: seq<bv4>): (r: IssueCircuit) {
    IssueCircuit(CredentialScope(pk.context, credentialContext), commitment)
  }

  function IssueStatementOf<F>(pk: PublicKey<F>, credentialContext: Digest, commitment: seq<bv4>): (bytes: seq<bv8>) {
    IssueStatement(pk.suite.name, pk.context, credentialContext, commitment)
  }

  function IssueCompiled<F>(pk: PublicKey<F>, credentialContext: Digest, commitment: seq<bv4>): (circuit: Compiled<F>)
    requires 4 * |commitment| <= 1600
  {
    CompiledIssue(pk.system.field, IssueCircuitOf(pk, credentialContext, commitment))
  }

  /** `prepare_issue`, with the client's two random values as parameters. */
  function PrepareIssue<F, P>(ps: ProofSystem<F, P>, pk: PublicKey<F>, credentialContext: Digest,
                              secret: Digest, hidingNonce: Digest,
                              coins: nat): (r: Outcome<(PendingIssue, IssueRequest<P>)>)
    requires pk.suite.Fits()
  {
    var commitment := Commitment(pk, credentialContext, secret, hidingNonce);
    var circuit := IssueCircuitOf(pk, credentialContext, commitment);
    match ps.prove(IssueStatementOf(pk, credentialContext, commitment),
      IssueCompiled(pk, credentialContext, commitment),
                   IssueWitness(circuit, secret, hidingNonce), coins)
    case None => Err(InvalidProof)
    case Some(proof) =>
      Ok((PendingIssue(pk.context, credentialContext, secret, hidingNonce, commitment),
        IssueRequest(commitment, proof)))
  }

  /** The check an issuer makes before it signs. */
  predicate AcceptsRequest<F, P>(ps: ProofSystem<F, P>, pk: PublicKey<F>, credentialContext: Digest,
                                 request: IssueRequest<P>)
    requires pk.suite.Fits()
  {
    && |request.commitment| == pk.suite.m
    && ps.verify(IssueStatementOf(pk, credentialContext, request.commitment),
                 IssueCompiled(pk, credentialContext, request.commitment), request.proof)
  }

  /** `Issuer::issue`, with the fresh salt and the sampler's coins as parameters. */
  function Issue<F, P>(ps: ProofSystem<F, P>, pk: PublicKey<F>, sample: Sampler, credentialContext: Digest,
                       request: IssueRequest<P>, salt: Digest, coins: nat): (r: Outcome<IssueResponse>)
    requires pk.suite.Fits()
  {
    if |request.commitment| != pk.suite.m then Err(InvalidRequest)
    else if !AcceptsRequest(ps, pk, credentialContext, request) then Err(InvalidProof)
    else
      match sample(SignedCredentialTarget(pk.suite.m, request.commitment, salt), coins)
      case None => Err(SigningFailed)
      case Some(signature) => Ok(IssueResponse(signature, salt))
  }

  /** `PendingIssue::finish`. */
  function Finish<F, P>(pending: PendingIssue, pk: PublicKey<F>, request: IssueRequest<P>,
                        response: IssueResponse): (r: Outcome<CredentialState>)
  {
    if pending.issuerContext != pk.context then Err(Error.WrongIssuer)
    else if request.commitment != pending.commitment then Err(InvalidRequest)
    else if |response.signature| != pk.suite.kn then Err(InvalidSignature)
    else if pk.system.eval(response.signature) != SignedCredentialTarget(pk.suite.m, pending.commitment, response.salt)
      then Err(InvalidSignature)
    else Ok(CredentialState(pending.issuerContext, pending.credentialContext, response.signature,
                            pending.secret, pending.hidingNonce, response.salt, map[]))
  }

  /** What every pending state satisfies: its commitment is the hash of its secrets. */
  predicate Consistent<F>(pk: PublicKey<F>, pending: PendingIssue) {
    && pending.issuerContext == pk.context
    && pending.commitment == Commitment(pk, pending.credentialContext, pending.secret, pending.hidingNonce)
  }

  // ----- Crash recovery

  const WIRE_PENDING_ISSUE: bv8 := 5

  function EncodePending(suite: Suite, p: PendingIssue): (bytes: seq<bv8>) {
    HeaderBytes(WIRE_PENDING_ISSUE, suite.wireId) + p.issuerContext + p.credentialContext + p.secret + p.hidingNonce
  }

  function DecodePending<F>(pk: PublicKey<F>, bytes: seq<bv8>): (r: Wire.Result<PendingIssue>) {
    var rest :- ParseHeader(bytes, WIRE_PENDING_ISSUE, pk.suite.wireId);
    var (issuer, rest) :- ParseDigest(rest);
    var (context, rest) :- ParseDigest(rest);
    var (secret, rest) :- ParseDigest(rest);
    var (nonce, rest) :- ParseDigest(rest);
    if rest != [] then Failure(InvalidEncoding)
    else if issuer != pk.context then Failure(WireError.WrongIssuer)
    else Success(PendingIssue(issuer, context, secret, nonce, Commitment(pk, context, secret, nonce)))
  }

  method PendingToBytes(suite: Suite, p: PendingIssue) returns (bytes: seq<bv8>)
    ensures bytes == EncodePending(suite, p)
  {
    hide HeaderBytes;
    var output := new ByteBuffer();
    output.Header(WIRE_PENDING_ISSUE, suite.wireId);
    output.Extend(p.issuerContext);
    output.Extend(p.credentialContext);
    output.Extend(p.secret);
    output.Extend(p.hidingNonce);
    bytes := output.bytes;
    assert [] + HeaderBytes(WIRE_PENDING_ISSUE, suite.wireId) == HeaderBytes(WIRE_PENDING_ISSUE, suite.wireId);
  }

  method PendingFromBytes<F>(pk: PublicKey<F>, bytes: seq<bv8>) returns (r: Wire.Result<PendingIssue>)
    ensures r == DecodePending(pk, bytes)
  {
    hide ParseHeader, ParseDigest, CredentialTarget;
    var decoder :- NewDecoder(bytes, WIRE_PENDING_ISSUE, pk.suite.wireId);
    var issuerContext :- decoder.TakeDigest();
    var credentialContext :- decoder.TakeDigest();
    var secret :- decoder.TakeDigest();
    var hidingNonce :- decoder.TakeDigest();
    var _ :- decoder.Finish();
    if issuerContext != pk.context {
      return Failure(WireError.WrongIssuer);
    }
    var scope := CredentialScope(issuerContext, credentialContext);
    var commitment := CredentialTarget(pk.suite.m, scope, secret, hidingNonce);
    r := Success(PendingIssue(issuerContext, credentialContext, secret, hidingNonce, commitment));
  }

  /** Where each field of the two encodings stands. */
  lemma IssuanceLayouts(suite: Suite, p: PendingIssue, response: IssueResponse)
    ensures var bytes := EncodePending(suite, p);
            && |bytes| == 137 && bytes[..9] == HeaderBytes(5, suite.wireId)
            && bytes[9..41] == p.issuerContext && bytes[41..73] == p.credentialContext
            && bytes[73..105] == p.secret && bytes[105..] == p.hidingNonce
    ensures var bytes, n := EncodeResponse(suite, response), 9 + (|response.signature| + 1) / 2;
            && |bytes| == n + 32 && bytes[..9] == HeaderBytes(4, suite.wireId)
            && bytes[9..n] == Pack(response.signature) && bytes[n..] == response.salt
  {
    hide HeaderBytes, Pack;
  }

  /** Stored pending state comes back with its commitment, which is not stored,
      recomputed from its secrets; another issuer's state is refused. */
  lemma PendingRoundTrip<F>(pk: PublicKey<F>, p: PendingIssue)
    ensures DecodePending(pk, EncodePending(pk.suite, p))
         == if p.issuerContext != pk.context then Failure(WireError.WrongIssuer)
            else Success(p.(commitment := Commitment(pk, p.credentialContext, p.secret, p.hidingNonce)))
    ensures Consistent(pk, p) ==> DecodePending(pk, EncodePending(pk.suite, p)) == Success(p)
  {
    hide HeaderBytes, CredentialTarget, ParseDigest;
    var r3 := p.secret + p.hidingNonce;
    var r2 := p.credentialContext + r3;
    var r1 := p.issuerContext + r2;
    assert EncodePending(pk.suite, p) == HeaderBytes(WIRE_PENDING_ISSUE, pk.suite.wireId) + r1;
    ParseHeaderFormat(WIRE_PENDING_ISSUE, pk.suite.wireId, r1);
    hide ParseHeader;
    ParseDigestFormat(p.issuerContext, r2);
    ParseDigestFormat(p.credentialContext, r3);
    ParseDigestFormat(p.secret, p.hidingNonce);
    ParseDigestFormat(p.hidingNonce, []);
    assert p.hidingNonce + [] == p.hidingNonce;
  }

  lemma PendingCanonical<F>(pk: PublicKey<F>, bytes: seq<bv8>)
    requires DecodePending(pk, bytes).Success?
    ensures var p := DecodePending(pk, bytes).value;
            Consistent(pk, p) && EncodePending(pk.suite, p) == bytes
  {
    hide HeaderBytes, CredentialTarget, ParseHeader;
    FormatParseHeader(bytes, WIRE_PENDING_ISSUE, pk.suite.wireId);
    var body := ParseHeader(bytes, WIRE_PENDING_ISSUE, pk.suite.wireId).value;
    var r1 := ParseDigest(body).value.1;
    var r2 := ParseDigest(r1).value.1;
    var r3 := ParseDigest(r2).value.1;
    FormatParseDigest(body);
    FormatParseDigest(r1);
    FormatParseDigest(r2);
    FormatParseDigest(r3);
    hide ParseDigest;
    var p := DecodePending(pk, bytes).value;
    assert body == p.issuerContext + (p.credentialContext + (p.secret + p.hidingNonce));
  }

  /** Finishing gives the same result with or without a crash in between. */
  lemma CrashInvariant<F, P>(pk: PublicKey<F>, p: PendingIssue, request: IssueRequest<P>, response: IssueResponse)
    requires Consistent(pk, p)
    ensures DecodePending(pk, EncodePending(pk.suite, p)).Success?
    ensures Finish(DecodePending(pk, EncodePending(pk.suite, p)).value, pk, request, response)
        == Finish(p, pk, request, response)
  {
    hide EncodePending, DecodePending, Consistent;
    PendingRoundTrip(pk, p);
  }

  // ----- The issuance response on the wire

  const WIRE_ISSUE_RESPONSE: bv8 := 4

  function EncodeResponse(suite: Suite, response: IssueResponse): (bytes: seq<bv8>) {
    HeaderBytes(WIRE_ISSUE_RESPONSE, suite.wireId) + Pack(response.signature) + response.salt
  }

  function DecodeResponse(suite: Suite, bytes: seq<bv8>): (r: Wire.Result<IssueResponse>) {
    var rest :- ParseHeader(bytes, WIRE_ISSUE_RESPONSE, suite.wireId);
    var (signature, rest) :- ParseNibbles(rest, suite.kn);
    var (salt, rest) :- ParseDigest(rest);
    if rest != [] then Failure(InvalidEncoding) else Success(IssueResponse(signature, salt))
  }

  method ResponseToBytes(suite: Suite, response: IssueResponse) returns (bytes: seq<bv8>)
    ensures bytes == EncodeResponse(suite, response)
  {
    hide HeaderBytes, Pack;
    var output := new ByteBuffer();
    output.Header(WIRE_ISSUE_RESPONSE, suite.wireId);
    var packedSignature := PackNibbles(response.signature);
    output.Extend(packedSignature);
    output.Extend(response.salt);
    bytes := output.bytes;
    assert [] + HeaderBytes(WIRE_ISSUE_RESPONSE, suite.wireId) == HeaderBytes(WIRE_ISSUE_RESPONSE, suite.wireId);
  }

  method ResponseFromBytes(suite: Suite, bytes: seq<bv8>) returns (r: Wire.Result<IssueResponse>)
    ensures r == DecodeResponse(suite, bytes)
  {
    hide ParseHeader, ParseNibbles, ParseDigest;
    var decoder :- NewDecoder(bytes, WIRE_ISSUE_RESPONSE, suite.wireId);
    var signature :- decoder.TakeNibbles(suite.kn);
    var salt :- decoder.TakeDigest();
    var _ :- decoder.Finish();
    r := Success(IssueResponse(signature, salt));
  }

  /** A response with a signature of the suite's length decodes to itself, unless
      its encoding exceeds the artifact bound. */
  lemma ResponseRoundTrip(suite: Suite, response: IssueResponse)
    requires |response.signature| == suite.kn
    ensures DecodeResponse(suite, EncodeResponse(suite, response))
         == if 41 + (suite.kn + 1) / 2 <= MAX_WIRE_BYTES then Success(response) else Failure(TooLarge)
  {
    var body := Pack(response.signature) + response.salt;
    assert EncodeResponse(suite, response) == HeaderBytes(WIRE_ISSUE_RESPONSE, suite.wireId) + body;
    hide Pack, ParseNibbles, ParseDigest;
    if 41 + (suite.kn + 1) / 2 <= MAX_WIRE_BYTES {
      ParseHeaderFormat(WIRE_ISSUE_RESPONSE, suite.wireId, body);
      ParseNibblesFormat(response.signature, response.salt);
      ParseDigestFormat(response.salt, []);
      assert response.salt + [] == response.salt;
    }
  }

  /** Every accepted response encoding is the encoding of its result. */
  lemma ResponseCanonical(suite: Suite, bytes: seq<bv8>)
    requires DecodeResponse(suite, bytes).Success?
    ensures EncodeResponse(suite, DecodeResponse(suite, bytes).value) == bytes
    ensures |DecodeResponse(suite, bytes).value.signature| == suite.kn
  {
    hide HeaderBytes, Pack, ParseHeader, ParseNibbles;
    FormatParseHeader(bytes, WIRE_ISSUE_RESPONSE, suite.wireId);
    var body := ParseHeader(bytes, WIRE_ISSUE_RESPONSE, suite.wireId).value;
    FormatParseNibbles(body, suite.kn);
    var rest := ParseNibbles(body, suite.kn).value.1;
    FormatParseDigest(rest);
    var salt := ParseDigest(rest).value.0;
    assert rest == salt;
  }

  // ----- The whole flow

  /** Finishing succeeds exactly for a response to the client's own request, to
      its own issuer, that carries a preimage of the salted target; otherwise the
      error tells which of the three fails first. */
  lemma FinishExactly<F, P>(pk: PublicKey<F>, p: PendingIssue, request: IssueRequest<P>, response: IssueResponse)
    ensures var r := Finish(p, pk, request, response);
            var issuer, own := p.issuerContext == pk.context, request.commitment == p.commitment;
            var signed := |response.signature| == pk.suite.kn
              && pk.system.eval(response.signature) == SignedCredentialTarget(pk.suite.m, p.commitment, response.salt);
            && (r.Ok? <==> issuer && own && signed)
            && (r == Err(Error.WrongIssuer) <==> !issuer)
            && (r == Err(InvalidRequest) <==> issuer && !own)
            && (r == Err(InvalidSignature) <==> issuer && own && !signed)
  {
    hide SignedCredentialTarget;
  }

  /** A finished credential is authentic, has no counters, and carries what the
      client sampled and what the issuer returned. */
  lemma FinishIsAuthentic<F, P>(pk: PublicKey<F>, p: PendingIssue, request: IssueRequest<P>, response: IssueResponse)
    requires Consistent(pk, p) && Finish(p, pk, request, response).Ok?
    ensures var c := Finish(p, pk, request, response).value;
            && WellFormed(pk, c) && c.nextNonces == map[]
            && c.secret == p.secret && c.hidingNonce == p.hidingNonce && c.credentialContext == p.credentialContext
            && c.signature == response.signature && c.salt == response.salt
  {
    hide SignedCredentialTarget, CredentialTarget;
  }

  // ----- What the issuer signs

  /** The issuer signs no commitment that nobody can open: the extractor finds a
      satisfying witness of the very circuit it checked, and its secrets open
      the commitment under the scope of the request. */
  lemma SignedIsOpened<F(!new), P(!new)>(ps: ProofSystem<F, P>, pk: PublicKey<F>, extract: Extractor<F, P>,
                                         sample: Sampler, credentialContext: Digest, request: IssueRequest<P>,
                                         salt: Digest, coins: nat)
    requires pk.suite.Fits() && LawfulField(pk.system.field) && Sound(ps, pk.system, extract)
    requires Issue(ps, pk, sample, credentialContext, request, salt, coins).Ok?
    ensures |request.commitment| == pk.suite.m
    ensures var circuit := IssueCompiled(pk, credentialContext, request.commitment);
            var wit := extract(IssueStatementOf(pk, credentialContext, request.commitment), circuit, request.proof);
            && Satisfied(pk.system, circuit, wit)
            && request.commitment == Commitment(pk, credentialContext, IssueSecret(wit), IssueHidingNonce(wit))
  {
    hide AllHold, IssueAssertions, IssueWitness, CredentialTarget, IssueSecret, IssueHidingNonce, IssueStatementOf,
      SignedCredentialTarget, LawfulField;
    var circuit := IssueCompiled(pk, credentialContext, request.commitment);
    var wit := extract(IssueStatementOf(pk, credentialContext, request.commitment), circuit, request.proof);
    assert Satisfied(pk.system, circuit, wit);
    IssueCircuitExact(pk.system, pk.suite, IssueCircuitOf(pk, credentialContext, request.commitment), wit);
  }

  ghost predicate Openable<F>(pk: PublicKey<F>, credentialContext: Digest, commitment: seq<bv4>) {
    exists secret: Digest, hidingNonce: Digest :: commitment == Commitment(pk, credentialContext, secret, hidingNonce)
  }

  ghost predicate Requestable<F, P(!new)>(ps: ProofSystem<F, P>, pk: PublicKey<F>, credentialContext: Digest,
                                          commitment: seq<bv4>)
    requires pk.suite.Fits()
  {
    exists proof: P :: AcceptsRequest(ps, pk, credentialContext, IssueRequest(commitment, proof))
  }

  /** A commitment has an acceptable request exactly when it has an opening under
      that credential context. */
  lemma RequestableExactly<F(!new), P(!new)>(ps: ProofSystem<F, P>, pk: PublicKey<F>, extract: Extractor<F, P>,
                                             credentialContext: Digest, commitment: seq<bv4>)
    requires pk.suite.Fits() && LawfulField(pk.system.field)
    requires Complete(ps, pk.system) && Willing(ps, pk.system) && Sound(ps, pk.system, extract)
    ensures Requestable(ps, pk, credentialContext, commitment) <==> Openable(pk, credentialContext, commitment)
  {
    hide Satisfied, IssueCompiled, IssueStatementOf, LawfulField, Complete, Willing, Sound, CredentialTarget;
    if Requestable(ps, pk, credentialContext, commitment) {
      var proof: P :| AcceptsRequest(ps, pk, credentialContext, IssueRequest(commitment, proof));
      var sample: Sampler := (target: seq<bv4>, coins: nat) => Some([]);
      hide AcceptsRequest;
      SignedIsOpened(ps, pk, extract, sample, credentialContext, IssueRequest(commitment, proof), seq(32, i => 0), 0);
    }
    if Openable(pk, credentialContext, commitment) {
      var secret: Digest, hidingNonce: Digest :|
        commitment == Commitment(pk, credentialContext, secret, hidingNonce);
      PrepareSucceeds(ps, pk, credentialContext, secret, hidingNonce, 0);
      PreparedIsAccepted(ps, pk, credentialContext, secret, hidingNonce, 0);
      var request := PrepareIssue(ps, pk, credentialContext, secret, hidingNonce, 0).value.1;
      assert request == IssueRequest(commitment, request.proof);
    }
  }

  lemma PreparedIsAccepted<F(!new), P(!new)>(ps: ProofSystem<F, P>, pk: PublicKey<F>, credentialContext: Digest,
                                             secret: Digest, hidingNonce: Digest, coins: nat)
    requires pk.suite.Fits() && Complete(ps, pk.system)
    requires PrepareIssue(ps, pk, credentialContext, secret, hidingNonce, coins).Ok?
    ensures var request := PrepareIssue(ps, pk, credentialContext, secret, hidingNonce, coins).value.1;
            && request.commitment == Commitment(pk, credentialContext, secret, hidingNonce)
            && AcceptsRequest(ps, pk, credentialContext, request)
  {
    hide Satisfied, IssueWitness, IssueCompiled, IssueStatementOf, CredentialTarget;
  }

  /** Which error the issuer gives: a malformed commitment, then a proof that is
      not accepted, then a sampler without a preimage. */
  lemma IssueRefusal<F, P>(ps: ProofSystem<F, P>, pk: PublicKey<F>, sample: Sampler, credentialContext: Digest,
                           request: IssueRequest<P>, salt: Digest, coins: nat)
    requires pk.suite.Fits()
    ensures var r := Issue(ps, pk, sample, credentialContext, request, salt, coins);
            var accepted := AcceptsRequest(ps, pk, credentialContext, request);
            var target := SignedCredentialTarget(pk.suite.m, request.commitment, salt);
            && (r == Err(InvalidRequest) <==> |request.commitment| != pk.suite.m)
            && (r == Err(InvalidProof) <==> |request.commitment| == pk.suite.m && !accepted)
            && (r == Err(SigningFailed) <==> accepted && sample(target, coins).None?)
            && (r.Ok? <==> accepted && sample(target, coins).Some?)
            && (r.Ok? ==> r.value.salt == salt && r.value.signature == sample(target, coins).value)
  {
    hide SignedCredentialTarget, IssueStatementOf, IssueCompiled;
  }

  // ----- A request is bound to its statement

  lemma IssueStatementOfInjective<F>(pk: PublicKey<F>, cc: Digest, c: seq<bv4>,
                                     pk': PublicKey<F>, cc': Digest, c': seq<bv4>)
    requires Sized(pk.suite.name) && Sized(pk'.suite.name)
    requires IssueStatementOf(pk, cc, c) == IssueStatementOf(pk', cc', c')
    ensures pk.suite.name == pk'.suite.name && pk.context == pk'.context && cc == cc' && c == c'
  {
    hide IssueStatement;
    IssueStatementInjective(pk.suite.name, pk.context, cc, c, pk'.suite.name, pk'.context, cc', c');
  }

  /** One proof serves one commitment under one credential context of one
      issuer, and never serves as a presentation. */
  lemma RequestBound<F(!new), P(!new)>(ps: ProofSystem<F, P>, pk: PublicKey<F>, cc: Digest, request: IssueRequest<P>,
                                       pk': PublicKey<F>, cc': Digest, commitment: seq<bv4>, ch: Challenge, tag: Digest)
    requires pk.suite.Fits() && pk'.suite.Fits() && BindsStatements(ps)
    requires Sized(pk.suite.name) && Sized(pk'.suite.name)
    requires AcceptsRequest(ps, pk, cc, request)
    ensures AcceptsRequest(ps, pk', cc', IssueRequest(commitment, request.proof)) ==>
              pk'.context == pk.context && cc' == cc && commitment == request.commitment
    ensures VerifyProofOnly(ps, pk', ch, Presentation(tag, request.proof)).Err?
  {
    hide IssueStatement, PresentationStatement, IssueCompiled, PresentationCompiled;
    if AcceptsRequest(ps, pk', cc', IssueRequest(commitment, request.proof)) {
      assert IssueStatementOf(pk, cc, request.commitment) == IssueStatementOf(pk', cc', commitment);
      IssueStatementOfInjective(pk, cc, request.commitment, pk', cc', commitment);
    }
    StatementsDisjoint(pk.suite.name, pk.context, cc, request.commitment, pk'.suite.name, pk'.context, ch, tag);
    assert StatementOf(pk', ch, tag) != IssueStatementOf(pk, cc, request.commitment);
  }

  // ----- Honest issuance

  /** An honest client can always prove its request, whatever it sampled. */
  lemma PrepareSucceeds<F(!new), P(!new)>(ps: ProofSystem<F, P>, pk: PublicKey<F>, credentialContext: Digest,
                                          secret: Digest, hidingNonce: Digest, coins: nat)
    requires pk.suite.Fits() && LawfulField(pk.system.field) && Willing(ps, pk.system)
    ensures PrepareIssue(ps, pk, credentialContext, secret, hidingNonce, coins).Ok?
    ensures Consistent(pk, PrepareIssue(ps, pk, credentialContext, secret, hidingNonce, coins).value.0)
  {
    hide CredentialTarget, IssueAssertions, IssueWitness, IssueStatement, AllHold, CredentialScope, LawfulField;
    var commitment := Commitment(pk, credentialContext, secret, hidingNonce);
    IssueComplete(pk.system, pk.suite, IssueCircuitOf(pk, credentialContext, commitment), secret, hidingNonce);
  }

  /** Honest issuance succeeds: an issuer never refuses the proof of an honest
      request, and whatever it signs finishes to an authentic credential. */
  lemma HonestIssuance<F(!new), P(!new)>(ps: ProofSystem<F, P>, pk: PublicKey<F>, sample: Sampler,
                                         credentialContext: Digest, secret: Digest, hidingNonce: Digest,
                                         coins: nat, salt: Digest, signerCoins: nat)
    requires pk.suite.Fits() && Complete(ps, pk.system) && SamplesPreimages(sample, pk)
    requires PrepareIssue(ps, pk, credentialContext, secret, hidingNonce, coins).Ok?
    ensures var (pending, request) := PrepareIssue(ps, pk, credentialContext, secret, hidingNonce, coins).value;
            var response := Issue(ps, pk, sample, credentialContext, request, salt, signerCoins);
            && Consistent(pk, pending)
            && (response.Err? ==> response.error == SigningFailed)
            && (response.Ok? ==>
                && Finish(pending, pk, request, response.value).Ok?
                && WellFormed(pk, Finish(pending, pk, request, response.value).value))
  {
    hide SignedCredentialTarget, CredentialTarget, IssueAssertions, IssueWitness, IssueStatement, AllHold,
      CredentialScope, WellFormed;
    var (pending, request) := PrepareIssue(ps, pk, credentialContext, secret, hidingNonce, coins).value;
    var response := Issue(ps, pk, sample, credentialContext, request, salt, signerCoins);
    if response.Ok? {
      FinishExactly(pk, pending, request, response.value);
      FinishIsAuthentic(pk, pending, request, response.value);
    }
  }

  /** Different answers to one request stay one lineage: the credentials they
      complete derive the same tag in every bucket for every nonce. */
  lemma OneLineage<F, P>(pk: PublicKey<F>, p: PendingIssue, request: IssueRequest<P>, first: IssueResponse,
                         second: IssueResponse, context: Digest, nonce: U32)
    requires Finish(p, pk, request, first).Ok? && Finish(p, pk, request, second).Ok?
    ensures TagAt(Finish(p, pk, request, first).value, context, nonce)
        == TagAt(Finish(p, pk, request, second).value, context, nonce)
  {
    hide SignedCredentialTarget, DeriveTag;
  }

  /** Every credential reachable by finishing and any run of presentations has a
      canonical encoding that restores it. */
  lemma ReachableRoundTrip<F, P>(ps: ProofSystem<F, P>, pk: PublicKey<F>, p: PendingIssue, request: IssueRequest<P>,
                                 response: IssueResponse, calls: seq<Call<F>>)
    requires Consistent(pk, p) && Finish(p, pk, request, response).Ok? && pk.suite.Supported()
    ensures var c := RunState(Finish(p, pk, request, response).value, ps, calls);
            WellFormed(pk, c) && DecodeCredential(pk, EncodeCredential(pk.suite, c)) == Success(c)
  {
    hide SignedCredentialTarget, CredentialTarget, TagAt, EncodeCredential, DecodeCredential, Consistent, Finish,
      RunState, EmittedTags, TagRange;
    FinishIsAuthentic(pk, p, request, response);
    var start := Finish(p, pk, request, response).value;
    var c := RunState(start, ps, calls);
    RunInvariant(start, ps, calls, p.credentialContext);
    AuthenticDependsOnIdentity(pk, c, start);
    SignatureLength(pk, c);
    CredentialRoundTrip(pk, c);
  }
}
