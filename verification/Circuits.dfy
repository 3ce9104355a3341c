/** The issuance and presentation circuits: their compilers, their witness
    generators, and the theorem that the compiled assertions hold exactly on
    generated witnesses of the native relations. */
module Circuits {
  import opened Bits
  import opened Fips202
  import opened Keccak
  import opened Constraints
  import opened ShakeCircuit
  import opened RangeCircuit
  import opened Messages
  import opened KeccakCircuit

  /** A MAYO parameter set: its name and wire identifier, M and KN. */
  datatype Suite = Suite(name: seq<bv8>, wireId: bv8, m: nat, kn: nat) {
    /** The wrapped credential hash fits one rate block. */
    predicate Fits() {
      18 + (m + 1) / 2 + 32 < RATE_BYTES
    }

    /** The two sets the protocol is sealed to, MAYO1 and MAYO2. */
    predicate Supported() {
      (m == 78 && kn == 860) || (m == 64 && kn == 324)
    }
  }

  datatype BuildResult = Built | InvalidParameters

  // ----- Shared: one hashed message

  function MessageCheckpoints(message: seq<bv8>): (bits: seq<bool>)
    requires |message| < RATE_BYTES
    ensures |bits| == CHECKPOINT_BITS
  {
    Checkpoints(InitialBits(BytesBits(message)), GROUPS)
  }

  function MessageAssertions<F>(f: Field<F>, message: seq<Wire<F>>, cursor: nat): (assertions: seq<Assertion<F>>)
    requires |message| % 8 == 0 && |message| < RATE
  {
    ShakeAssertions(f, InitialWires(f, message), cursor, GROUPS)
  }

  /** The gadget on wires that spell a byte message: its assertions hold exactly
      on the native checkpoints, and then its output is the native state. */
  lemma MessageGadget<F(!new)>(sys: System<F>, wires: seq<Wire<F>>, message: seq<bv8>, cursor: nat, wit: seq<bool>)
    requires LawfulField(sys.field) && |message| < RATE_BYTES
    requires AreBitWires(sys.field, wires) && WireBits(sys.field, wires, wit) == BytesBits(message)
    requires cursor + CHECKPOINT_BITS <= |wit|
    ensures |wires| % 8 == 0 && |wires| < RATE
    ensures AllHold(sys, MessageAssertions(sys.field, wires, cursor), wit)
       <==> wit[cursor..cursor + CHECKPOINT_BITS] == MessageCheckpoints(message)
    ensures AreBitWires(sys.field, ShakeOutput<F>(cursor))
    ensures wit[cursor..cursor + CHECKPOINT_BITS] == MessageCheckpoints(message)
       ==> WireBits(sys.field, ShakeOutput(cursor), wit) == KeccakF(InitialBits(BytesBits(message)))
  {
    hide ShakeAssertions, InitialWires, InitialBits, BytesBits, WireBits, AllHold, KeccakF, Checkpoints;
    var f := sys.field;
    assert |wires| == 8 * |message|;
    var s := InitialBits(BytesBits(message));
    InitialWiresBits(f, wires, wit);
    ShakeHolds(sys, InitialWires(f, wires), cursor, GROUPS, wit);
    if wit[cursor..cursor + CHECKPOINT_BITS] == MessageCheckpoints(message) {
      ShakeOutputBits(f, s, cursor, wit);
    }
  }

  lemma SliceBits<F>(f: Field<F>, ws: seq<Wire<F>>, n: nat, wit: seq<bool>)
    requires AreBitWires(f, ws) && n <= |ws|
    ensures AreBitWires(f, ws[..n]) && WireBits(f, ws[..n], wit) == WireBits(f, ws, wit)[..n]
  {
  }

  // ----- Issuance

  datatype IssueCircuit = IssueCircuit(credentialScope: Digest, target: seq<bv4>)

  const ISSUE_INPUTS: nat := 512 + CHECKPOINT_BITS

  function IssueWitness(c: IssueCircuit, secret: Digest, hidingNonce: Digest): (wit: seq<bool>)
    ensures |wit| == ISSUE_INPUTS
  {
    BytesBits(secret) + BytesBits(hidingNonce)
      + MessageCheckpoints(CredentialMessage(c.credentialScope, secret, hidingNonce))
  }

  method GenerateIssueWitness(c: IssueCircuit, secret: Digest, hidingNonce: Digest) returns (wit: seq<bool>)
    ensures wit == IssueWitness(c, secret, hidingNonce)
  {
    hide BytesBits, CredentialMessage, Checkpoints, InitialBits;
    var buffer := new WitnessBuffer();
    buffer.AppendBytesBits(secret);
    buffer.AppendBytesBits(hidingNonce);
    buffer.AppendKeccakCheckpoints(CredentialMessage(c.credentialScope, secret, hidingNonce));
    wit := buffer.bits;
  }

  function IssueMessageWires<F>(f: Field<F>, c: IssueCircuit): (ws: seq<Wire<F>>)
    ensures |ws| == 944
  {
    CredentialWires(f, c.credentialScope, Inputs(0, 256), Inputs(256, 256))
  }

  function IssueAssertions<F>(f: Field<F>, c: IssueCircuit): (assertions: seq<Assertion<F>>)
    requires 4 * |c.target| <= 1600
  {
    MessageAssertions(f, IssueMessageWires(f, c), 512)
      + OutputAssertions(ShakeOutput(512), ConstantWires(f, NibblesBits(c.target)))
  }

  method BuildIssue<F>(backend: Backend<F>, suite: Suite, c: IssueCircuit) returns (result: BuildResult)
    requires backend.inputs == 0 && backend.assertions == [] && suite.Fits()
    modifies backend
    ensures result.InvalidParameters? <==> |c.target| != suite.m
    ensures result.Built? ==> backend.inputs == ISSUE_INPUTS && backend.assertions == IssueAssertions(backend.field, c)
    ensures result.InvalidParameters? ==> backend.inputs == 0 && backend.assertions == []
  {
    hide ShakeAssertions, OutputAssertions, InitialWires, CredentialWires;
    if |c.target| != suite.m {
      return InvalidParameters;
    }
    var secret := AllocBits(backend, 32 * 8);
    var hidingNonce := AllocBits(backend, 32 * 8);
    assert IssueMessageWires(backend.field, c)
      == CredentialWires(backend.field, c.credentialScope, secret, hidingNonce);
    var message := CredentialWires(backend.field, c.credentialScope, secret, hidingNonce);
    var target := ConstantWires(backend.field, NibblesBits(c.target));
    ShakeAssertOutput(backend, message, target);
    assert backend.assertions
      == [] + MessageAssertions(backend.field, message, 512) + OutputAssertions(ShakeOutput(512), target);
    result := Built;
  }

  /** The whole result of the builder. */
  function CompiledIssue<F>(f: Field<F>, c: IssueCircuit): (circuit: Compiled<F>)
    requires 4 * |c.target| <= 1600
  {
    Compiled(ISSUE_INPUTS, IssueAssertions(f, c))
  }

  function IssueSecret(wit: seq<bool>): (digest: Digest)
    requires |wit| == ISSUE_INPUTS
  {
    BitsBytes(wit[..256])
  }

  function IssueHidingNonce(wit: seq<bool>): (digest: Digest)
    requires |wit| == ISSUE_INPUTS
  {
    BitsBytes(wit[256..512])
  }

  /** A witness satisfies the issuance circuit exactly when it is the generated
      witness of an opening of the target. */
  lemma IssueCircuitExact<F(!new)>(sys: System<F>, suite: Suite, c: IssueCircuit, wit: seq<bool>)
    requires LawfulField(sys.field) && suite.Fits() && |c.target| == suite.m && |wit| == ISSUE_INPUTS
    ensures AllHold(sys, IssueAssertions(sys.field, c), wit)
       <==> wit == IssueWitness(c, IssueSecret(wit), IssueHidingNonce(wit))
            && c.target == CredentialTarget(suite.m, c.credentialScope, IssueSecret(wit), IssueHidingNonce(wit))
  {
    hide BytesBits, NibblesBits, WireBits, AllHold, MessageAssertions, OutputAssertions, ConstantWires, KeccakF,
      InitialBits, CredentialWires, MessageCheckpoints, CredentialMessage, Shake256, BitsBytes, Inputs, ShakeOutput,
      HashNibbles;
    var f := sys.field;
    var k, rho := IssueSecret(wit), IssueHidingNonce(wit);
    var secret, nonce := Inputs<F>(0, 256), Inputs<F>(256, 256);
    InputsBits(f, 0, 256, wit);
    InputsBits(f, 256, 256, wit);
    BytesBitsInverse(wit[..256]);
    BytesBitsInverse(wit[256..512]);
    assert wit[0..256] == wit[..256] && wit[256..256 + 256] == wit[256..512];
    var message := CredentialMessage(c.credentialScope, k, rho);
    CredentialWiresBits(f, c.credentialScope, secret, nonce, k, rho, wit);
    MessageGadget(sys, IssueMessageWires(f, c), message, 512, wit);
    var expected := ConstantWires(f, NibblesBits(c.target));
    ConstantWiresBits(f, NibblesBits(c.target), wit);
    OutputsHold(sys, ShakeOutput(512), expected, wit);
    AllHoldConcat(sys, MessageAssertions(f, IssueMessageWires(f, c), 512), OutputAssertions(ShakeOutput(512), expected),
      wit);
    HashNibblesBits(message, suite.m);
    if c.target != CredentialTarget(suite.m, c.credentialScope, k, rho) {
      if NibblesBits(c.target) == NibblesBits(HashNibbles(message, suite.m)) {
        NibblesBitsInjective(c.target, HashNibbles(message, suite.m));
      }
    }
    assert wit == wit[..256] + wit[256..512] + wit[512..];
    assert wit[512..512 + 9600] == wit[512..];
    ConcatEqual(wit[..256] + wit[256..512], wit[512..], BytesBits(k) + BytesBits(rho), MessageCheckpoints(message));
  }

  /** Every generated witness decodes to the secrets it was generated from. */
  lemma IssueWitnessDecodes(c: IssueCircuit, secret: Digest, hidingNonce: Digest)
    ensures IssueSecret(IssueWitness(c, secret, hidingNonce)) == secret
    ensures IssueHidingNonce(IssueWitness(c, secret, hidingNonce)) == hidingNonce
  {
    hide BytesBits, BitsBytes, MessageCheckpoints, CredentialMessage;
    var wit := IssueWitness(c, secret, hidingNonce);
    assert wit[..256] == BytesBits(secret) && wit[256..512] == BytesBits(hidingNonce);
    BitsBytesInverse(secret);
    BitsBytesInverse(hidingNonce);
  }

  /** The prover's witness for an opening satisfies the circuit exactly when the
      target is the credential hash of that opening. */
  lemma IssueComplete<F(!new)>(sys: System<F>, suite: Suite, c: IssueCircuit, secret: Digest, hidingNonce: Digest)
    requires LawfulField(sys.field) && suite.Fits() && |c.target| == suite.m
    ensures AllHold(sys, IssueAssertions(sys.field, c), IssueWitness(c, secret, hidingNonce))
       <==> c.target == CredentialTarget(suite.m, c.credentialScope, secret, hidingNonce)
  {
    hide AllHold, IssueAssertions, IssueWitness, IssueSecret, IssueHidingNonce, CredentialTarget;
    IssueWitnessDecodes(c, secret, hidingNonce);
    IssueCircuitExact(sys, suite, c, IssueWitness(c, secret, hidingNonce));
  }

  // ----- Presentation

  datatype PresentationCircuit = PresentationCircuit(
    credentialScope: Digest, presentationScope: Digest, limit: U32, tag: Digest)

  datatype Secrets = Secrets(signature: seq<bv4>, secret: Digest, hidingNonce: Digest, salt: Digest, nonce: U32)

  function CredentialHash(suite: Suite, c: PresentationCircuit, s: Secrets): (commitment: seq<bv4>)
    ensures |commitment| == suite.m
  {
    CredentialTarget(suite.m, c.credentialScope, s.secret, s.hidingNonce)
  }

  /** The native relation of a presentation. */
  predicate Relation<F>(sys: System<F>, suite: Suite, c: PresentationCircuit, s: Secrets) {
    && sys.eval(s.signature) == SignedCredentialTarget(suite.m, CredentialHash(suite, c, s), s.salt)
    && c.tag == DeriveTag(s.secret, c.presentationScope, s.nonce)
    && s.nonce < c.limit
  }

  function CredentialMessageOf(c: PresentationCircuit, s: Secrets): (m: seq<bv8>)
    ensures |m| < RATE_BYTES
  {
    CredentialMessage(c.credentialScope, s.secret, s.hidingNonce)
  }

  function SignedMessageOf(suite: Suite, c: PresentationCircuit, s: Secrets): (m: seq<bv8>)
    requires suite.Fits()
    ensures |m| < RATE_BYTES
  {
    SignedCredentialMessage(CredentialHash(suite, c, s), s.salt)
  }

  function TagMessageOf(c: PresentationCircuit, s: Secrets): (m: seq<bv8>)
    ensures |m| < RATE_BYTES
  {
    TagMessage(s.secret, c.presentationScope, s.nonce)
  }

  /** The secrets, as the circuit allocates them, and the comparison carries. */
  function WitnessPrefix(c: PresentationCircuit, s: Secrets): (wit: seq<bool>)
    ensures |wit| == 4 * |s.signature| + 832
  {
    NibblesBits(s.signature) + BytesBits(s.secret) + BytesBits(s.hidingNonce) + BytesBits(s.salt)
      + NatBits(s.nonce, 32) + Carries32(s.nonce, c.limit)
  }

  function PresentationWitness(suite: Suite, c: PresentationCircuit, s: Secrets): (wit: seq<bool>)
    requires suite.Fits()
    ensures |wit| == 4 * |s.signature| + 832 + 3 * CHECKPOINT_BITS
  {
    WitnessPrefix(c, s) + MessageCheckpoints(CredentialMessageOf(c, s))
      + MessageCheckpoints(SignedMessageOf(suite, c, s)) + MessageCheckpoints(TagMessageOf(c, s))
  }

  method GeneratePresentationWitness(suite: Suite, c: PresentationCircuit, s: Secrets) returns (wit: seq<bool>)
    requires suite.Fits()
    ensures wit == PresentationWitness(suite, c, s)
  {
    hide BytesBits, NibblesBits, NatBits, Carries32, CredentialMessage, SignedCredentialMessage, TagMessage,
      Checkpoints, InitialBits, CredentialTarget;
    var buffer := new WitnessBuffer();
    buffer.AppendGf16Bits(s.signature);
    buffer.AppendBytesBits(s.secret);
    buffer.AppendBytesBits(s.hidingNonce);
    buffer.AppendBytesBits(s.salt);
    buffer.AppendU32Bits(s.nonce);
    AppendLessThanCarries(buffer, s.nonce, c.limit);
    var commitment := CredentialTarget(suite.m, c.credentialScope, s.secret, s.hidingNonce);
    buffer.AppendKeccakCheckpoints(CredentialMessage(c.credentialScope, s.secret, s.hidingNonce));
    buffer.AppendKeccakCheckpoints(SignedCredentialMessage(commitment, s.salt));
    buffer.AppendKeccakCheckpoints(TagMessage(s.secret, c.presentationScope, s.nonce));
    wit := buffer.bits;
  }

  // Allocation order: signature, secret, hiding nonce, salt, nonce, carries,
  // then the checkpoints of the three hashes.

  function PresentationInputs(suite: Suite): (n: nat) {
    4 * suite.kn + 832 + 3 * CHECKPOINT_BITS
  }

  function HashBase(suite: Suite): (n: nat) {
    4 * suite.kn + 832
  }

  function SecretWires<F>(suite: Suite): (ws: seq<Wire<F>>)
    ensures |ws| == 256
  {
    Inputs(4 * suite.kn, 256)
  }

  function HidingNonceWires<F>(suite: Suite): (ws: seq<Wire<F>>)
    ensures |ws| == 256
  {
    Inputs(4 * suite.kn + 256, 256)
  }

  function SaltWires<F>(suite: Suite): (ws: seq<Wire<F>>)
    ensures |ws| == 256
  {
    Inputs(4 * suite.kn + 512, 256)
  }

  function NonceWires<F>(suite: Suite): (ws: seq<Wire<F>>)
    ensures |ws| == 32
  {
    Inputs(4 * suite.kn + 768, 32)
  }

  function CarryWires<F>(suite: Suite): (ws: seq<Wire<F>>)
    ensures |ws| == 32
  {
    Inputs(4 * suite.kn + 800, 32)
  }

  function CredentialMessageWires<F>(f: Field<F>, suite: Suite, c: PresentationCircuit): (ws: seq<Wire<F>>)
    ensures |ws| == 944
  {
    CredentialWires(f, c.credentialScope, SecretWires(suite), HidingNonceWires(suite))
  }

  function CommitmentWires<F>(f: Field<F>, suite: Suite): (ws: seq<Wire<F>>)
    requires suite.Fits()
    ensures |ws| == 4 * suite.m
  {
    ShakeOutput(HashBase(suite))[..4 * suite.m]
  }

  function SignedMessageWires<F>(f: Field<F>, suite: Suite): (ws: seq<Wire<F>>)
    requires suite.Fits()
    ensures |ws| % 8 == 0 && |ws| < RATE
  {
    SignedCredentialWires(f, CommitmentWires(f, suite), SaltWires(suite))
  }

  function SignedTargetWires<F>(f: Field<F>, suite: Suite): (ws: seq<Wire<F>>)
    requires suite.Fits()
    ensures |ws| == 4 * suite.m
  {
    ShakeOutput(HashBase(suite) + CHECKPOINT_BITS)[..4 * suite.m]
  }

  function TagMessageWires<F>(f: Field<F>, suite: Suite, c: PresentationCircuit): (ws: seq<Wire<F>>)
    ensures |ws| == 664
  {
    TagWires(f, SecretWires(suite), c.presentationScope, NonceWires(suite))
  }

  function RangePart<F>(f: Field<F>, suite: Suite, c: PresentationCircuit): (assertions: seq<Assertion<F>>) {
    LessThanAssertions(f, NonceWires(suite), CarryWires(suite), NatBits(c.limit, 32))
  }

  function MayoPart<F>(sys: System<F>, suite: Suite): (assertions: seq<Assertion<F>>)
    requires suite.Fits()
  {
    [QuadForms(LiftNibbles(sys, Inputs(0, 4 * suite.kn)), LiftNibbles(sys, SignedTargetWires(sys.field, suite)))]
  }

  function TagPart<F>(f: Field<F>, suite: Suite, c: PresentationCircuit): (assertions: seq<Assertion<F>>) {
    MessageAssertions(f, TagMessageWires(f, suite, c), HashBase(suite) + 2 * CHECKPOINT_BITS)
      + OutputAssertions(ShakeOutput(HashBase(suite) + 2 * CHECKPOINT_BITS), ConstantWires(f, BytesBits(c.tag)))
  }

  function PresentationAssertions<F>(sys: System<F>, suite: Suite,
                                     c: PresentationCircuit): (assertions: seq<Assertion<F>>)
    requires suite.Fits()
  {
    RangePart(sys.field, suite, c)
      + MessageAssertions(sys.field, CredentialMessageWires(sys.field, suite, c), HashBase(suite))
      + MessageAssertions(sys.field, SignedMessageWires(sys.field, suite), HashBase(suite) + CHECKPOINT_BITS)
      + MayoPart(sys, suite)
      + TagPart(sys.field, suite, c)
  }

  /** The whole result of the builder. */
  function CompiledPresentation<F>(sys: System<F>, suite: Suite, c: PresentationCircuit): (circuit: Compiled<F>)
    requires suite.Fits()
  {
    Compiled(PresentationInputs(suite), PresentationAssertions(sys, suite, c))
  }

  method BuildPresentation<F>(backend: Backend<F>, sys: System<F>, suite: Suite, c: PresentationCircuit)
    returns (result: BuildResult)
    requires backend.field == sys.field && backend.inputs == 0 && backend.assertions == []
    modifies backend
    ensures result.InvalidParameters? <==> c.limit == 0 || !suite.Fits()
    ensures result.Built? ==>
      backend.inputs == PresentationInputs(suite) && backend.assertions == PresentationAssertions(sys, suite, c)
    ensures result.InvalidParameters? ==> backend.inputs == 0 && backend.assertions == []
  {
    hide ShakeAssertions, OutputAssertions, InitialWires, CredentialWires, SignedCredentialWires, TagWires,
      LessThanAssertions, LiftNibbles, NatBits, BytesBits, ConstantWires;
    if c.limit == 0 || |SignedCredentialDomain()| + (suite.m + 1) / 2 + 32 >= RATE_BYTES {
      return InvalidParameters;
    }
    var f := sys.field;
    var base := HashBase(suite);
    var signatureBits := AllocBits(backend, 4 * suite.kn);
    var signature := BuildLiftNibbles(sys, signatureBits);
    var secret := AllocBits(backend, 32 * 8);
    var hidingNonce := AllocBits(backend, 32 * 8);
    var salt := AllocBits(backend, 32 * 8);
    var nonce := AllocBits(backend, 32);
    var carries := AllocBits(backend, 32);
    AssertU32LessThan(backend, nonce, carries, c.limit);
    ghost var done := RangePart(f, suite, c);
    assert backend.assertions == done;

    var credentialMessage := CredentialWires(f, c.credentialScope, secret, hidingNonce);
    assert credentialMessage == CredentialMessageWires(f, suite, c);
    var credentialState := ShakeDegree16(backend, credentialMessage);
    done := done + MessageAssertions(f, credentialMessage, base);
    assert backend.assertions == done;
    var commitmentBits := credentialState[..4 * suite.m];

    var signedMessage := BuildSignedCredentialWires(f, commitmentBits, salt);
    assert signedMessage == SignedMessageWires(f, suite);
    var signedState := ShakeDegree16(backend, signedMessage);
    done := done + MessageAssertions(f, signedMessage, base + CHECKPOINT_BITS);
    assert backend.assertions == done;
    var signedTarget := BuildLiftNibbles(sys, signedState[..4 * suite.m]);
    backend.AssertQuadFormSystem(signature, signedTarget);
    done := done + MayoPart(sys, suite);
    assert backend.assertions == done;

    var tagMessage := TagWires(f, secret, c.presentationScope, nonce);
    assert tagMessage == TagMessageWires(f, suite, c);
    var expectedTag := ConstantWires(f, BytesBits(c.tag));
    ShakeAssertOutput(backend, tagMessage, expectedTag);
    ghost var cursor := base + 2 * CHECKPOINT_BITS;
    assert backend.assertions
        == done + MessageAssertions(f, tagMessage, cursor) + OutputAssertions(ShakeOutput(cursor), expectedTag);
    assert done + MessageAssertions(f, tagMessage, cursor) + OutputAssertions(ShakeOutput(cursor), expectedTag)
        == done + (MessageAssertions(f, tagMessage, cursor) + OutputAssertions(ShakeOutput(cursor), expectedTag));
    result := Built;
  }

  // ----- What each part of the presentation constraints says

  function DecodeSecrets(suite: Suite, wit: seq<bool>): (s: Secrets)
    requires |wit| == PresentationInputs(suite)
    ensures |s.signature| == suite.kn
  {
    var a := 4 * suite.kn;
    Secrets(BitsNibbles(wit[..a]), BitsBytes(wit[a..a + 256]), BitsBytes(wit[a + 256..a + 512]),
            BitsBytes(wit[a + 512..a + 768]), NonceOfBits(wit[a + 768..a + 800]))
  }

  function NonceOfBits(bits: seq<bool>): (n: U32)
    requires |bits| == 32
  {
    assert NatOfBits(bits) < 0x1_0000_0000 by { Pow2Of32(); }
    NatOfBits(bits)
  }

  /** The wires of the allocated secrets carry the bits of the decoded ones. */
  lemma SecretBits<F>(f: Field<F>, suite: Suite, wit: seq<bool>)
    requires |wit| == PresentationInputs(suite)
    ensures var s := DecodeSecrets(suite, wit);
            var a := 4 * suite.kn;
            && wit[..a] == NibblesBits(s.signature) && wit[a..a + 256] == BytesBits(s.secret)
            && wit[a + 256..a + 512] == BytesBits(s.hidingNonce) && wit[a + 512..a + 768] == BytesBits(s.salt)
            && wit[a + 768..a + 800] == NatBits(s.nonce, 32)
            && AreBitWires(f, Inputs<F>(0, a)) && WireBits(f, Inputs(0, a), wit) == NibblesBits(s.signature)
            && AreBitWires(f, SecretWires<F>(suite)) && WireBits(f, SecretWires(suite), wit) == BytesBits(s.secret)
            && AreBitWires(f, HidingNonceWires<F>(suite))
            && WireBits(f, HidingNonceWires(suite), wit) == BytesBits(s.hidingNonce)
            && AreBitWires(f, SaltWires<F>(suite)) && WireBits(f, SaltWires(suite), wit) == BytesBits(s.salt)
            && AreBitWires(f, NonceWires<F>(suite)) && WireBits(f, NonceWires(suite), wit) == NatBits(s.nonce, 32)
            && AreBitWires(f, CarryWires<F>(suite)) && WireBits(f, CarryWires(suite), wit) == wit[a + 800..a + 832]
  {
    hide BytesBits, NibblesBits, NatBits, BitsBytes, BitsNibbles, NatOfBits, WireBits, Inputs, AreBitWires;
    var a := 4 * suite.kn;
    NibblesBitsInverse(wit[..a]);
    BytesBitsInverse(wit[a..a + 256]);
    BytesBitsInverse(wit[a + 256..a + 512]);
    BytesBitsInverse(wit[a + 512..a + 768]);
    NatBitsOfNat(wit[a + 768..a + 800]);
    InputsBits(f, 0, a, wit);
    InputsBits(f, a, 256, wit);
    InputsBits(f, a + 256, 256, wit);
    InputsBits(f, a + 512, 256, wit);
    InputsBits(f, a + 768, 32, wit);
    InputsBits(f, a + 800, 32, wit);
    assert wit[0..0 + a] == wit[..a];
  }

  lemma RangePartHolds<F(!new)>(sys: System<F>, suite: Suite, c: PresentationCircuit, wit: seq<bool>)
    requires LawfulField(sys.field) && |wit| == PresentationInputs(suite)
    ensures var s := DecodeSecrets(suite, wit);
            AllHold(sys, RangePart(sys.field, suite, c), wit)
            <==> wit[4 * suite.kn + 800..4 * suite.kn + 832] == Carries32(s.nonce, c.limit) && s.nonce < c.limit
  {
    Pow2Of32();
    hide LessThanAssertions, NatBits, NatOfBits, Pow2, WireBits, AllHold, DecodeSecrets, Carries;
    SecretBits(sys.field, suite, wit);
    LessThanHolds(sys, NonceWires(suite), CarryWires(suite), NatBits(c.limit, 32), wit);
    NatOfNatBits(c.limit, 32);
    NatOfNatBits(DecodeSecrets(suite, wit).nonce, 32);
  }

  function HashSlice(suite: Suite, wit: seq<bool>, index: nat): (bits: seq<bool>)
    requires |wit| == PresentationInputs(suite) && index < 3
    ensures |bits| == CHECKPOINT_BITS
  {
    wit[HashBase(suite) + index * CHECKPOINT_BITS..HashBase(suite) + (index + 1) * CHECKPOINT_BITS]
  }

  lemma CredentialPartHolds<F(!new)>(sys: System<F>, suite: Suite, c: PresentationCircuit, wit: seq<bool>)
    requires LawfulField(sys.field) && suite.Fits() && |wit| == PresentationInputs(suite)
    ensures var s := DecodeSecrets(suite, wit);
            var native := HashSlice(suite, wit, 0) == MessageCheckpoints(CredentialMessageOf(c, s));
            && (AllHold(sys, MessageAssertions(sys.field, CredentialMessageWires(sys.field, suite, c), HashBase(suite)),
                 wit)
                <==> native)
            && AreBitWires(sys.field, CommitmentWires(sys.field, suite))
            && (native ==>
                  WireBits(sys.field, CommitmentWires(sys.field, suite), wit)
                  == NibblesBits(CredentialHash(suite, c, s)))
  {
    hide MessageAssertions, MessageCheckpoints, WireBits, AllHold, DecodeSecrets, CredentialWires, CredentialMessage,
      KeccakF, InitialBits, BytesBits, NibblesBits, HashNibbles, ShakeOutput, SecretWires, HidingNonceWires;
    var f := sys.field;
    var s := DecodeSecrets(suite, wit);
    var base := HashBase(suite);
    SecretBits(f, suite, wit);
    CredentialWiresBits(f, c.credentialScope, SecretWires(suite), HidingNonceWires(suite), s.secret, s.hidingNonce,
      wit);
    MessageGadget(sys, CredentialMessageWires(f, suite, c), CredentialMessageOf(c, s), base, wit);
    SliceBits(f, ShakeOutput(base), 4 * suite.m, wit);
    HashNibblesBits(CredentialMessageOf(c, s), suite.m);
  }

  lemma SignedPartHolds<F(!new)>(sys: System<F>, suite: Suite, c: PresentationCircuit, wit: seq<bool>)
    requires LawfulField(sys.field) && suite.Fits() && |wit| == PresentationInputs(suite)
    requires HashSlice(suite, wit, 0) == MessageCheckpoints(CredentialMessageOf(c, DecodeSecrets(suite, wit)))
    ensures var s := DecodeSecrets(suite, wit);
            var native := HashSlice(suite, wit, 1) == MessageCheckpoints(SignedMessageOf(suite, c, s));
            && (AllHold(sys,
                 MessageAssertions(sys.field, SignedMessageWires(sys.field, suite), HashBase(suite) + CHECKPOINT_BITS),
                 wit)
                <==> native)
            && AreBitWires(sys.field, SignedTargetWires(sys.field, suite))
            && (native ==>
                WireBits(sys.field, SignedTargetWires(sys.field, suite), wit)
                == NibblesBits(SignedCredentialTarget(suite.m, CredentialHash(suite, c, s), s.salt)))
  {
    hide MessageAssertions, MessageCheckpoints, WireBits, AllHold, DecodeSecrets, SignedCredentialWires,
      SignedCredentialMessage, CredentialHash, CommitmentWires, KeccakF, InitialBits, BytesBits, NibblesBits,
      HashNibbles, ShakeOutput, SaltWires;
    var f := sys.field;
    var s := DecodeSecrets(suite, wit);
    var cursor := HashBase(suite) + CHECKPOINT_BITS;
    CredentialPartHolds(sys, suite, c, wit);
    SecretBits(f, suite, wit);
    SignedCredentialWiresBits(f, CommitmentWires(f, suite), SaltWires(suite), CredentialHash(suite, c, s), s.salt, wit);
    MessageGadget(sys, SignedMessageWires(f, suite), SignedMessageOf(suite, c, s), cursor, wit);
    SliceBits(f, ShakeOutput(cursor), 4 * suite.m, wit);
    HashNibblesBits(SignedMessageOf(suite, c, s), suite.m);
  }

  lemma MayoPartHolds<F(!new)>(sys: System<F>, suite: Suite, target: seq<bv4>, wit: seq<bool>)
    requires Lawful(sys) && suite.Fits() && |wit| == PresentationInputs(suite)
    requires AreBitWires(sys.field, SignedTargetWires(sys.field, suite))
    requires WireBits(sys.field, SignedTargetWires(sys.field, suite), wit) == NibblesBits(target)
    ensures AllHold(sys, MayoPart(sys, suite), wit) <==> sys.eval(DecodeSecrets(suite, wit).signature) == target
  {
    hide WireBits, DecodeSecrets, LiftNibbles, NibblesBits, BitsNibbles, SignedTargetWires, Inputs, Holds, Lawful;
    var f := sys.field;
    var s := DecodeSecrets(suite, wit);
    SecretBits(f, suite, wit);
    QuadFormsHold(sys, Inputs(0, 4 * suite.kn), SignedTargetWires(sys.field, suite), wit);
    BitsNibblesInverse(s.signature);
    BitsNibblesInverse(target);
    assert AllHold(sys, MayoPart(sys, suite), wit) <==> Holds(sys, MayoPart(sys, suite)[0], wit);
  }

  lemma TagPartHolds<F(!new)>(sys: System<F>, suite: Suite, c: PresentationCircuit, wit: seq<bool>)
    requires LawfulField(sys.field) && |wit| == PresentationInputs(suite)
    ensures var s := DecodeSecrets(suite, wit);
            AllHold(sys, TagPart(sys.field, suite, c), wit)
            <==> HashSlice(suite, wit, 2) == MessageCheckpoints(TagMessageOf(c, s))
                 && c.tag == DeriveTag(s.secret, c.presentationScope, s.nonce)
  {
    hide MessageAssertions, MessageCheckpoints, OutputAssertions, ConstantWires, WireBits, AllHold, DecodeSecrets,
      TagWires, TagMessage, KeccakF, InitialBits, BytesBits, DeriveTag, ShakeOutput, SecretWires, NonceWires, NatBits;
    var f := sys.field;
    var s := DecodeSecrets(suite, wit);
    var cursor := HashBase(suite) + 2 * CHECKPOINT_BITS;
    var expected := ConstantWires(f, BytesBits(c.tag));
    SecretBits(f, suite, wit);
    TagWiresBits(f, SecretWires(suite), c.presentationScope, NonceWires(suite), s.secret, s.nonce, wit);
    MessageGadget(sys, TagMessageWires(f, suite, c), TagMessageOf(c, s), cursor, wit);
    ConstantWiresBits(f, BytesBits(c.tag), wit);
    OutputsHold(sys, ShakeOutput(cursor), expected, wit);
    AllHoldConcat(sys, MessageAssertions(f, TagMessageWires(f, suite, c), cursor),
      OutputAssertions(ShakeOutput(cursor), expected), wit);
    DeriveTagBits(s.secret, c.presentationScope, s.nonce);
    var tag := DeriveTag(s.secret, c.presentationScope, s.nonce);
    if BytesBits(c.tag) == BytesBits(tag) {
      BytesBitsInjective(c.tag, tag);
    }
  }

  /** A witness is the generated one exactly when its carries and the three
      groups of checkpoints are. */
  lemma WitnessSegments(suite: Suite, c: PresentationCircuit, wit: seq<bool>)
    requires suite.Fits() && |wit| == PresentationInputs(suite)
    ensures var s := DecodeSecrets(suite, wit);
            wit == PresentationWitness(suite, c, s)
            <==> wit[4 * suite.kn + 800..4 * suite.kn + 832] == Carries32(s.nonce, c.limit)
                 && HashSlice(suite, wit, 0) == MessageCheckpoints(CredentialMessageOf(c, s))
                 && HashSlice(suite, wit, 1) == MessageCheckpoints(SignedMessageOf(suite, c, s))
                 && HashSlice(suite, wit, 2) == MessageCheckpoints(TagMessageOf(c, s))
  {
    hide DecodeSecrets, MessageCheckpoints, CredentialMessageOf, SignedMessageOf, TagMessageOf, Carries32,
      BytesBits, NibblesBits, NatBits;
    var s := DecodeSecrets(suite, wit);
    var a := 4 * suite.kn;
    var carries, h0, h1, h2 := wit[a + 800..a + 832], HashSlice(suite, wit, 0), HashSlice(suite, wit, 1),
      HashSlice(suite, wit, 2);
    var fixed := NibblesBits(s.signature) + BytesBits(s.secret) + BytesBits(s.hidingNonce) + BytesBits(s.salt)
      + NatBits(s.nonce, 32);
    SecretBits(Field(false, true, (x, y) => x, (x, y) => x), suite, wit);
    assert fixed == wit[..a + 800];
    assert wit == fixed + carries + h0 + h1 + h2;
    var k, c0, c1, c2 := Carries32(s.nonce, c.limit), MessageCheckpoints(CredentialMessageOf(c, s)),
      MessageCheckpoints(SignedMessageOf(suite, c, s)), MessageCheckpoints(TagMessageOf(c, s));
    ConcatEqual(fixed, carries, fixed, k);
    ConcatEqual(fixed + carries, h0, fixed + k, c0);
    ConcatEqual(fixed + carries + h0, h1, fixed + k + c0, c1);
    ConcatEqual(fixed + carries + h0 + h1, h2, fixed + k + c0 + c1, c2);
  }

  lemma PresentationParts<F>(sys: System<F>, suite: Suite, c: PresentationCircuit, wit: seq<bool>)
    requires suite.Fits()
    ensures AllHold(sys, PresentationAssertions(sys, suite, c), wit)
       <==> AllHold(sys, RangePart(sys.field, suite, c), wit)
            && AllHold(sys, MessageAssertions(sys.field, CredentialMessageWires(sys.field, suite, c), HashBase(suite)),
                 wit)
            && AllHold(sys, MessageAssertions(sys.field, SignedMessageWires(sys.field, suite),
                                            HashBase(suite) + CHECKPOINT_BITS), wit)
            && AllHold(sys, MayoPart(sys, suite), wit)
            && AllHold(sys, TagPart(sys.field, suite, c), wit)
  {
    hide AllHold, RangePart, MessageAssertions, MayoPart, TagPart, SignedMessageWires;
    var r := RangePart(sys.field, suite, c);
    var m1 := MessageAssertions(sys.field, CredentialMessageWires(sys.field, suite, c), HashBase(suite));
    var m2 := MessageAssertions(sys.field, SignedMessageWires(sys.field, suite), HashBase(suite) + CHECKPOINT_BITS);
    AllHoldConcat(sys, r, m1, wit);
    AllHoldConcat(sys, r + m1, m2, wit);
    AllHoldConcat(sys, r + m1 + m2, MayoPart(sys, suite), wit);
    AllHoldConcat(sys, r + m1 + m2 + MayoPart(sys, suite), TagPart(sys.field, suite, c), wit);
  }

  /** Soundness and completeness: a bit string satisfies the compiled
      presentation circuit exactly when it is the generated witness of secrets
      that satisfy the native relation. */
  lemma PresentationCircuitExact<F(!new)>(sys: System<F>, suite: Suite, c: PresentationCircuit, wit: seq<bool>)
    requires Lawful(sys) && suite.Fits() && |wit| == PresentationInputs(suite)
    ensures AllHold(sys, PresentationAssertions(sys, suite, c), wit)
       <==> wit == PresentationWitness(suite, c, DecodeSecrets(suite, wit))
            && Relation(sys, suite, c, DecodeSecrets(suite, wit))
  {
    PresentationParts(sys, suite, c, wit);
    WitnessSegments(suite, c, wit);
    RangePartHolds(sys, suite, c, wit);
    CredentialPartHolds(sys, suite, c, wit);
    TagPartHolds(sys, suite, c, wit);
    hide AllHold, RangePart, MessageAssertions, MayoPart, TagPart, SignedMessageWires, PresentationAssertions,
      PresentationWitness, MessageCheckpoints, DecodeSecrets, HashSlice, DeriveTag, SignedCredentialTarget,
      CredentialHash, Carries32, SignedTargetWires, CredentialMessageOf, SignedMessageOf, TagMessageOf,
      CredentialMessageWires, CommitmentWires;
    var s := DecodeSecrets(suite, wit);
    if HashSlice(suite, wit, 0) == MessageCheckpoints(CredentialMessageOf(c, s)) {
      SignedPartHolds(sys, suite, c, wit);
      if HashSlice(suite, wit, 1) == MessageCheckpoints(SignedMessageOf(suite, c, s)) {
        MayoPartHolds(sys, suite, SignedCredentialTarget(suite.m, CredentialHash(suite, c, s), s.salt), wit);
      }
    }
  }

  /** Decoding undoes generation, so the prover's secrets are recovered. */
  lemma PresentationWitnessDecodes(suite: Suite, c: PresentationCircuit, s: Secrets)
    requires suite.Fits() && |s.signature| == suite.kn
    ensures DecodeSecrets(suite, PresentationWitness(suite, c, s)) == s
  {
    hide MessageCheckpoints, CredentialMessageOf, SignedMessageOf, TagMessageOf, Carries32, BytesBits, NibblesBits,
      NatBits, BitsBytes, BitsNibbles, NatOfBits;
    var wit := PresentationWitness(suite, c, s);
    var a := 4 * suite.kn;
    assert wit[..a] == NibblesBits(s.signature);
    assert wit[a..a + 256] == BytesBits(s.secret);
    assert wit[a + 256..a + 512] == BytesBits(s.hidingNonce);
    assert wit[a + 512..a + 768] == BytesBits(s.salt);
    assert wit[a + 768..a + 800] == NatBits(s.nonce, 32);
    BitsNibblesInverse(s.signature);
    BitsBytesInverse(s.secret);
    BitsBytesInverse(s.hidingNonce);
    BitsBytesInverse(s.salt);
    Pow2Of32();
    hide Pow2;
    NatOfNatBits(s.nonce, 32);
  }

  /** The prover's witness for secrets satisfies the circuit exactly when the
      secrets satisfy the relation. */
  lemma PresentationComplete<F(!new)>(sys: System<F>, suite: Suite, c: PresentationCircuit, s: Secrets)
    requires Lawful(sys) && suite.Fits() && |s.signature| == suite.kn
    ensures AllHold(sys, PresentationAssertions(sys, suite, c), PresentationWitness(suite, c, s))
        <==> Relation(sys, suite, c, s)
  {
    hide AllHold, PresentationAssertions, PresentationWitness, Relation, DecodeSecrets;
    PresentationWitnessDecodes(suite, c, s);
    PresentationCircuitExact(sys, suite, c, PresentationWitness(suite, c, s));
  }

  // ----- Degrees

  lemma MessageAssertionsDegree<F>(f: Field<F>, message: seq<Wire<F>>, cursor: nat)
    requires |message| % 8 == 0 && |message| < RATE && WiresLinear(message)
    ensures AllDegreesAtMost(MessageAssertions(f, message, cursor), 16)
  {
    hide InitialWires, ShakeAssertions, AllDegreesAtMost;
    InitialWiresLinear(f, message);
    ShakeDegree(f, InitialWires(f, message), cursor, GROUPS);
  }

  lemma DegreesConcat<F>(a: seq<Assertion<F>>, b: seq<Assertion<F>>)
    requires AllDegreesAtMost(a, 16) && AllDegreesAtMost(b, 16)
    ensures AllDegreesAtMost(a + b, 16)
  {
  }

  lemma LessThanDegree16<F>(f: Field<F>, value: seq<Wire<F>>, carries: seq<Wire<F>>, limit: seq<bool>)
    requires |value| == |carries| == |limit| > 0 && WiresLinear(value) && WiresLinear(carries)
    ensures AllDegreesAtMost(LessThanAssertions(f, value, carries, limit), 16)
  {
    hide LessThanAssertions;
    LessThanDegree(f, value, carries, limit);
    var a := LessThanAssertions(f, value, carries, limit);
    forall i | 0 <= i < |a|
      ensures DegreeAtMost(a[i], 16)
    {
      assert DegreeAtMost(a[i], 2);
    }
  }

  lemma OutputDegree<F>(actual: seq<Wire<F>>, expected: seq<Wire<F>>)
    requires |expected| <= |actual| && WiresLinear(actual) && WiresLinear(expected)
    ensures AllDegreesAtMost(OutputAssertions(actual, expected), 16)
  {
    forall k | 0 <= k < |expected|
      ensures WireDegree(Sum(actual[k], expected[k])) <= 16
    {
    }
  }

  lemma TagPartDegree<F>(f: Field<F>, suite: Suite, c: PresentationCircuit)
    ensures AllDegreesAtMost(TagPart(f, suite, c), 16)
  {
    hide MessageAssertions, OutputAssertions, AllDegreesAtMost, BytesBits;
    var cursor := HashBase(suite) + 2 * CHECKPOINT_BITS;
    MessageAssertionsDegree(f, TagMessageWires(f, suite, c), cursor);
    OutputDegree(ShakeOutput(cursor), ConstantWires(f, BytesBits(c.tag)));
    DegreesConcat(MessageAssertions(f, TagMessageWires(f, suite, c), cursor),
                  OutputAssertions(ShakeOutput(cursor), ConstantWires(f, BytesBits(c.tag))));
  }

  lemma MayoPartDegree<F>(sys: System<F>, suite: Suite)
    requires suite.Fits()
    ensures AllDegreesAtMost(MayoPart(sys, suite), 16)
  {
    hide LiftNibbles;
    LiftNibblesLinear(sys, Inputs(0, 4 * suite.kn));
    LiftNibblesLinear(sys, SignedTargetWires(sys.field, suite));
  }

  /** Every assertion of the presentation circuit has degree at most 16. */
  lemma PresentationDegree<F>(sys: System<F>, suite: Suite, c: PresentationCircuit)
    requires suite.Fits()
    ensures AllDegreesAtMost(PresentationAssertions(sys, suite, c), 16)
  {
    hide MessageAssertions, LessThanAssertions, MayoPart, TagPart, AllDegreesAtMost, BytesBits, NatBits;
    var f := sys.field;
    var base := HashBase(suite);
    var r := RangePart(f, suite, c);
    var m1 := MessageAssertions(f, CredentialMessageWires(f, suite, c), base);
    var m2 := MessageAssertions(f, SignedMessageWires(f, suite), base + CHECKPOINT_BITS);
    LessThanDegree16(f, NonceWires(suite), CarryWires(suite), NatBits(c.limit, 32));
    MessageAssertionsDegree(f, CredentialMessageWires(f, suite, c), base);
    MessageAssertionsDegree(f, SignedMessageWires(f, suite), base + CHECKPOINT_BITS);
    MayoPartDegree(sys, suite);
    TagPartDegree(f, suite, c);
    DegreesConcat(r, m1);
    DegreesConcat(r + m1, m2);
    DegreesConcat(r + m1 + m2, MayoPart(sys, suite));
    DegreesConcat(r + m1 + m2 + MayoPart(sys, suite), TagPart(f, suite, c));
  }

  /** So does every assertion of the issuance circuit. */
  lemma IssueDegree<F>(f: Field<F>, c: IssueCircuit)
    requires 4 * |c.target| <= 1600
    ensures AllDegreesAtMost(IssueAssertions(f, c), 16)
  {
    hide MessageAssertions, OutputAssertions, AllDegreesAtMost, BytesBits, NibblesBits;
    MessageAssertionsDegree(f, IssueMessageWires(f, c), 512);
    OutputDegree(ShakeOutput(512), ConstantWires(f, NibblesBits(c.target)));
    DegreesConcat(MessageAssertions(f, IssueMessageWires(f, c), 512),
                  OutputAssertions(ShakeOutput(512), ConstantWires(f, NibblesBits(c.target))));
  }
}
