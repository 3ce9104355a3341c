/** The three hashed messages of the protocol, as bytes and as wires. */
module Messages {
  import opened Bits
  import opened Nibbles
  import opened Fips202
  import opened Keccak
  import opened Constraints

  type Digest = d: seq<bv8> | |d| == 32 witness seq(32, i => 0)

  function Ascii(s: string): (bytes: seq<bv8>)
    requires forall i :: 0 <= i < |s| ==> s[i] as int < 128
    ensures |bytes| == |s|
  {
    seq(|s|, i requires 0 <= i < |s| => CharByte(s[i]))
  }

  function CharByte(c: char): (r: bv8)
    requires c as int < 128
  {
    c as int as bv8
  }

  /** The letters that tell the protocol's hash domains apart. */
  lemma DomainLetterBytes()
    ensures CharByte('b') == 98 && CharByte('c') == 99 && CharByte('i') == 105
    ensures CharByte('p') == 112 && CharByte('s') == 115 && CharByte('t') == 116
  {
  }

  function CredentialDomain(): (d: seq<bv8>)
    ensures |d| == 22
  {
    Ascii("VOLE-ARC/credential/v1")
  }

  function SignedCredentialDomain(): (d: seq<bv8>)
    ensures |d| == 18
  {
    Ascii("VOLE-ARC/signed/v1")
  }

  function TagDomain(): (d: seq<bv8>)
    ensures |d| == 15
  {
    Ascii("VOLE-ARC/tag/v1")
  }

  // ----- Byte-level messages and the values hashed from them

  function CredentialMessage(scope: Digest, secret: Digest, hidingNonce: Digest): (m: seq<bv8>)
    ensures |m| == 118
  {
    CredentialDomain() + scope + secret + hidingNonce
  }

  function SignedCredentialMessage(commitment: seq<bv4>, salt: Digest): (m: seq<bv8>)
    ensures |m| == 50 + (|commitment| + 1) / 2
  {
    SignedCredentialDomain() + Pack(commitment) + salt
  }

  function TagMessage(secret: Digest, scope: Digest, nonce: U32): (m: seq<bv8>)
    ensures |m| == 83
  {
    TagDomain() + secret + scope + LeBytes(nonce, 4)
  }

  /** The first m nibbles of SHAKE256. */
  function HashNibbles(message: seq<bv8>, m: nat): (values: seq<bv4>)
    ensures |values| == m
  {
    Unpack(Shake256(message, (m + 1) / 2), m)
  }

  function CredentialTarget(m: nat, scope: Digest, secret: Digest, hidingNonce: Digest): (target: seq<bv4>)
    ensures |target| == m
  {
    HashNibbles(CredentialMessage(scope, secret, hidingNonce), m)
  }

  function SignedCredentialTarget(m: nat, commitment: seq<bv4>, salt: Digest): (target: seq<bv4>)
    ensures |target| == m
  {
    HashNibbles(SignedCredentialMessage(commitment, salt), m)
  }

  function DeriveTag(secret: Digest, scope: Digest, nonce: U32): (digest: Digest) {
    Shake256(TagMessage(secret, scope, nonce), 32)
  }

  // ----- The same messages as wires

  function CredentialWires<F>(f: Field<F>, scope: Digest, secret: seq<Wire<F>>,
                              hidingNonce: seq<Wire<F>>): (ws: seq<Wire<F>>)
  {
    ConstantWires(f, BytesBits(CredentialDomain())) + ConstantWires(f, BytesBits(scope)) + secret + hidingNonce
  }

  /** Zero wires up to the next byte boundary. */
  function ZeroFill<F>(f: Field<F>, length: nat): (ws: seq<Wire<F>>)
    ensures (length + |ws|) % 8 == 0
  {
    seq((8 - length % 8) % 8, i => Constant(f.zero))
  }

  function SignedCredentialWires<F>(f: Field<F>, commitment: seq<Wire<F>>, salt: seq<Wire<F>>): (ws: seq<Wire<F>>) {
    var prefix := ConstantWires(f, BytesBits(SignedCredentialDomain())) + commitment;
    prefix + ZeroFill(f, |prefix|) + salt
  }

  function TagWires<F>(f: Field<F>, secret: seq<Wire<F>>, scope: Digest, nonce: seq<Wire<F>>): (ws: seq<Wire<F>>) {
    ConstantWires(f, BytesBits(TagDomain())) + secret + ConstantWires(f, BytesBits(scope)) + nonce
  }

  /** `signed_credential_wires`: pads the nibbles to a byte boundary in a loop. */
  method BuildSignedCredentialWires<F>(f: Field<F>, commitment: seq<Wire<F>>, salt: seq<Wire<F>>)
    returns (message: seq<Wire<F>>)
    ensures message == SignedCredentialWires(f, commitment, salt)
  {
    hide BytesBits, ConstantWires, SignedCredentialDomain;
    message := ConstantWires(f, BytesBits(SignedCredentialDomain())) + commitment;
    ghost var prefix := message;
    ghost var fill := ZeroFill(f, |prefix|);
    FillLength(|prefix|);
    while |message| % 8 != 0
      invariant |prefix| <= |message| <= |prefix| + |fill|
      invariant message == prefix + fill[..|message| - |prefix|]
      decreases |prefix| + |fill| - |message|
    {
      message := message + [Constant(f.zero)];
    }
    NoEarlierBoundary(|prefix|, |message|);
    assert fill[..|fill|] == fill;
    message := message + salt;
  }

  lemma FillLength(length: nat)
    ensures (8 - length % 8) % 8 < 8 && (length + (8 - length % 8) % 8) % 8 == 0
  {
  }

  lemma NoEarlierBoundary(length: nat, end: nat)
    requires length <= end <= length + (8 - length % 8) % 8 && end % 8 == 0
    ensures end == length + (8 - length % 8) % 8
  {
  }

  // ----- The two agree bit for bit

  lemma CredentialWiresBits<F(!new)>(f: Field<F>, scope: Digest, secret: seq<Wire<F>>, hidingNonce: seq<Wire<F>>,
                                     k: Digest, rho: Digest, wit: seq<bool>)
    requires LawfulField(f) && AreBitWires(f, secret) && AreBitWires(f, hidingNonce)
    requires WireBits(f, secret, wit) == BytesBits(k) && WireBits(f, hidingNonce, wit) == BytesBits(rho)
    ensures AreBitWires(f, CredentialWires(f, scope, secret, hidingNonce))
    ensures WireBits(f, CredentialWires(f, scope, secret, hidingNonce), wit)
         == BytesBits(CredentialMessage(scope, k, rho))
  {
    hide CredentialDomain, BytesBits, WireBits, ConstantWires;
    var domain := CredentialDomain();
    var d, s := ConstantWires(f, BytesBits(domain)), ConstantWires(f, BytesBits(scope));
    ConstantWiresBits(f, BytesBits(domain), wit);
    ConstantWiresBits(f, BytesBits(scope), wit);
    WireBitsConcat(f, d, s, wit);
    WireBitsConcat(f, d + s, secret, wit);
    WireBitsConcat(f, d + s + secret, hidingNonce, wit);
    BytesBitsConcat(domain, scope);
    BytesBitsConcat(domain + scope, k);
    BytesBitsConcat(domain + scope + k, rho);
  }

  lemma TagWiresBits<F(!new)>(f: Field<F>, secret: seq<Wire<F>>, scope: Digest, nonce: seq<Wire<F>>,
                              k: Digest, i: U32, wit: seq<bool>)
    requires LawfulField(f) && AreBitWires(f, secret) && AreBitWires(f, nonce)
    requires WireBits(f, secret, wit) == BytesBits(k) && WireBits(f, nonce, wit) == NatBits(i, 32)
    ensures AreBitWires(f, TagWires(f, secret, scope, nonce))
    ensures WireBits(f, TagWires(f, secret, scope, nonce), wit) == BytesBits(TagMessage(k, scope, i))
  {
    hide TagDomain, BytesBits, WireBits, ConstantWires, NatBits;
    var domain := TagDomain();
    var d, s := ConstantWires(f, BytesBits(domain)), ConstantWires(f, BytesBits(scope));
    ConstantWiresBits(f, BytesBits(domain), wit);
    ConstantWiresBits(f, BytesBits(scope), wit);
    WireBitsConcat(f, d, secret, wit);
    WireBitsConcat(f, d + secret, s, wit);
    WireBitsConcat(f, d + secret + s, nonce, wit);
    LeBytesBits(i, 4);
    BytesBitsConcat(domain, k);
    BytesBitsConcat(domain + k, scope);
    BytesBitsConcat(domain + k + scope, LeBytes(i, 4));
  }

  lemma ZeroFillBits<F(!new)>(f: Field<F>, length: nat, wit: seq<bool>)
    requires LawfulField(f) && length % 4 == 0
    ensures AreBitWires(f, ZeroFill(f, length))
    ensures WireBits(f, ZeroFill(f, length), wit) == if length % 8 == 0 then [] else [false, false, false, false]
  {
    assert length % 8 == 0 || length % 8 == 4;
  }

  /** The zero fill stands for the empty high nibble of an odd vector. */
  lemma SignedCredentialWiresBits<F(!new)>(f: Field<F>, commitment: seq<Wire<F>>, salt: seq<Wire<F>>,
                                           c: seq<bv4>, zeta: Digest, wit: seq<bool>)
    requires LawfulField(f) && AreBitWires(f, commitment) && AreBitWires(f, salt)
    requires WireBits(f, commitment, wit) == NibblesBits(c) && WireBits(f, salt, wit) == BytesBits(zeta)
    ensures AreBitWires(f, SignedCredentialWires(f, commitment, salt))
    ensures WireBits(f, SignedCredentialWires(f, commitment, salt), wit)
         == BytesBits(SignedCredentialMessage(c, zeta))
  {
    hide SignedCredentialDomain, BytesBits, WireBits, ConstantWires, NibblesBits, Pack, ZeroFill;
    var domain := SignedCredentialDomain();
    var d := ConstantWires(f, BytesBits(domain));
    var fill := ZeroFill(f, |d + commitment|);
    assert |commitment| == 4 * |c|;
    ConstantWiresBits(f, BytesBits(domain), wit);
    ZeroFillBits(f, |d + commitment|, wit);
    WireBitsConcat(f, d, commitment, wit);
    WireBitsConcat(f, d + commitment, fill, wit);
    WireBitsConcat(f, d + commitment + fill, salt, wit);
    PackBits(c);
    BytesBitsConcat(domain, Pack(c));
    BytesBitsConcat(domain + Pack(c), zeta);
    assert |d + commitment| % 8 == 0 <==> |c| % 2 == 0;
    assert BytesBits(domain) + NibblesBits(c) + WireBits(f, fill, wit)
        == BytesBits(domain) + BytesBits(Pack(c));
  }

  /** Hash outputs read as nibbles are the leading bits of the permuted state. */
  lemma HashNibblesBits(message: seq<bv8>, m: nat)
    requires |message| < RATE_BYTES && (m + 1) / 2 <= RATE_BYTES
    ensures NibblesBits(HashNibbles(message, m)) == KeccakF(InitialBits(BytesBits(message)))[..4 * m]
  {
    hide KeccakF, InitialBits, BytesBits, NibblesBits, Shake256, Unpack;
    var length := (m + 1) / 2;
    Shake256SingleBlock(message, length);
    UnpackBits(Shake256(message, length), m);
    var state := KeccakF(InitialBits(BytesBits(message)));
    assert state[..8 * length][..4 * m] == state[..4 * m];
  }

  lemma DeriveTagBits(secret: Digest, scope: Digest, nonce: U32)
    ensures BytesBits(DeriveTag(secret, scope, nonce))
         == KeccakF(InitialBits(BytesBits(TagMessage(secret, scope, nonce))))[..256]
  {
    hide KeccakF, InitialBits, BytesBits, Shake256, TagMessage;
    Shake256SingleBlock(TagMessage(secret, scope, nonce), 32);
  }
}
