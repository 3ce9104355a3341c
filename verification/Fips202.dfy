/** The Keccak-f[1600] permutation and the SHAKE256 sponge as bit-string
    functions, following FIPS 202. A state is a string of 1600 bits whose bit
    A[x, y, z] stands at 64(5y + x) + z (section 3.1.2). */
module Fips202 {
  import opened Bits

  type State = s: seq<bool> | |s| == 1600 witness seq(1600, i => false)

  /** Rotation offsets of rho by lane x + 5y, reduced modulo 64. */
  const RHO: seq<nat> := [
    0, 1, 62, 28, 27, 36, 44, 6, 55, 20, 3, 10, 43, 25, 39, 41, 45, 15, 21, 8, 18, 2, 61, 56, 14]

  /** Round constants as 64-bit numbers. */
  const RC: seq<nat> := [
    0x0000000000000001, 0x0000000000008082, 0x800000000000808a, 0x8000000080008000,
    0x000000000000808b, 0x0000000080000001, 0x8000000080008081, 0x8000000000008009,
    0x000000000000008a, 0x0000000000000088, 0x0000000080008009, 0x000000008000000a,
    0x000000008000808b, 0x800000000000008b, 0x8000000000008089, 0x8000000000008003,
    0x8000000000008002, 0x8000000000000080, 0x000000000000800a, 0x800000008000000a,
    0x8000000080008081, 0x8000000000008080, 0x0000000080000001, 0x8000000080008008]

  /** Bit z of a 64-bit round constant. */
  function ConstantBit(constant: nat, z: nat): (bit: bool)
    requires z < 64
  {
    NatBits(constant, 64)[z]
  }

  // ----- Coordinates

  function Index(x: nat, y: nat, z: nat): (k: nat)
    requires x < 5 && y < 5 && z < 64
    ensures k < 1600
  {
    64 * (5 * y + x) + z
  }

  function X(k: nat): (x: nat)
    requires k < 1600
    ensures x < 5
  {
    k / 64 % 5
  }

  function Y(k: nat): (y: nat)
    requires k < 1600
    ensures y < 5
  {
    k / 64 / 5
  }

  function Z(k: nat): (z: nat)
    ensures z < 64
  {
    k % 64
  }

  lemma Coordinates(x: nat, y: nat, z: nat)
    requires x < 5 && y < 5 && z < 64
    ensures X(Index(x, y, z)) == x && Y(Index(x, y, z)) == y && Z(Index(x, y, z)) == z
  {
    assert (64 * (5 * y + x) + z) / 64 == 5 * y + x;
  }

  lemma IndexOfCoordinates(k: nat)
    requires k < 1600
    ensures Index(X(k), Y(k), Z(k)) == k
  {
  }

  function At(s: State, x: nat, y: nat, z: nat): (bit: bool)
    requires x < 5 && y < 5 && z < 64
  {
    s[Index(x, y, z)]
  }

  lemma StatesEqual(s: State, t: State)
    requires forall x: nat, y: nat, z: nat :: x < 5 && y < 5 && z < 64 ==> At(s, x, y, z) == At(t, x, y, z)
    ensures s == t
  {
    forall k | 0 <= k < 1600
      ensures s[k] == t[k]
    {
      IndexOfCoordinates(k);
      assert At(s, X(k), Y(k), Z(k)) == At(t, X(k), Y(k), Z(k));
    }
  }

  // ----- Step mappings, sections 3.2.1 to 3.2.5

  function Parity(s: State, x: nat, z: nat): (bit: bool)
    requires x < 5 && z < 64
  {
    Xor(Xor(Xor(Xor(At(s, x, 0, z), At(s, x, 1, z)), At(s, x, 2, z)), At(s, x, 3, z)), At(s, x, 4, z))
  }

  function ThetaBit(s: State, x: nat, y: nat, z: nat): (bit: bool)
    requires x < 5 && y < 5 && z < 64
  {
    Xor(At(s, x, y, z), Xor(Parity(s, (x + 4) % 5, z), Parity(s, (x + 1) % 5, (z + 63) % 64)))
  }

  function Theta(s: State): (t: State) {
    seq(1600, k requires 0 <= k < 1600 => ThetaBit(s, X(k), Y(k), Z(k)))
  }

  function RhoBit(s: State, x: nat, y: nat, z: nat): (bit: bool)
    requires x < 5 && y < 5 && z < 64
  {
    At(s, x, y, (z + 64 - RHO[x + 5 * y] % 64) % 64)
  }

  function Rho(s: State): (t: State) {
    seq(1600, k requires 0 <= k < 1600 => RhoBit(s, X(k), Y(k), Z(k)))
  }

  function PiBit(s: State, x: nat, y: nat, z: nat): (bit: bool)
    requires x < 5 && y < 5 && z < 64
  {
    At(s, (x + 3 * y) % 5, x, z)
  }

  function Pi(s: State): (t: State) {
    seq(1600, k requires 0 <= k < 1600 => PiBit(s, X(k), Y(k), Z(k)))
  }

  function ChiBit(s: State, x: nat, y: nat, z: nat): (bit: bool)
    requires x < 5 && y < 5 && z < 64
  {
    Xor(At(s, x, y, z), !At(s, (x + 1) % 5, y, z) && At(s, (x + 2) % 5, y, z))
  }

  function Chi(s: State): (t: State) {
    seq(1600, k requires 0 <= k < 1600 => ChiBit(s, X(k), Y(k), Z(k)))
  }

  function IotaBit(s: State, constant: nat, x: nat, y: nat, z: nat): (bit: bool)
    requires x < 5 && y < 5 && z < 64
  {
    Xor(At(s, x, y, z), x == 0 && y == 0 && ConstantBit(constant, z))
  }

  function Iota(s: State, constant: nat): (t: State) {
    seq(1600, k requires 0 <= k < 1600 => IotaBit(s, constant, X(k), Y(k), Z(k)))
  }

  lemma ThetaAt(s: State, x: nat, y: nat, z: nat)
    requires x < 5 && y < 5 && z < 64
    ensures At(Theta(s), x, y, z) == ThetaBit(s, x, y, z)
  {
    Coordinates(x, y, z);
  }

  lemma RhoAt(s: State, x: nat, y: nat, z: nat)
    requires x < 5 && y < 5 && z < 64
    ensures At(Rho(s), x, y, z) == RhoBit(s, x, y, z)
  {
    Coordinates(x, y, z);
  }

  lemma PiAt(s: State, x: nat, y: nat, z: nat)
    requires x < 5 && y < 5 && z < 64
    ensures At(Pi(s), x, y, z) == PiBit(s, x, y, z)
  {
    Coordinates(x, y, z);
  }

  lemma ChiAt(s: State, x: nat, y: nat, z: nat)
    requires x < 5 && y < 5 && z < 64
    ensures At(Chi(s), x, y, z) == ChiBit(s, x, y, z)
  {
    Coordinates(x, y, z);
  }

  lemma IotaAt(s: State, constant: nat, x: nat, y: nat, z: nat)
    requires x < 5 && y < 5 && z < 64
    ensures At(Iota(s, constant), x, y, z) == IotaBit(s, constant, x, y, z)
  {
    Coordinates(x, y, z);
  }

  // ----- The permutation, section 3.3

  function Rnd(s: State, constant: nat): (t: State) {
    Iota(Chi(Pi(Rho(Theta(s)))), constant)
  }

  /** Rounds `first` to `first + count - 1`. */
  function Rounds(s: State, first: nat, count: nat): (t: State)
    requires first + count <= |RC|
    decreases count
  {
    if count == 0 then s else Rnd(Rounds(s, first, count - 1), RC[first + count - 1])
  }

  function KeccakF(s: State): (t: State) {
    Rounds(s, 0, |RC|)
  }

  lemma {:induction false} RoundsCompose(s: State, first: nat, a: nat, b: nat)
    requires first + a + b <= |RC|
    ensures Rounds(Rounds(s, first, a), first + a, b) == Rounds(s, first, a + b)
    decreases b
  {
    hide Rnd;
    if b == 0 {
    } else {
      RoundsCompose(s, first, a, b - 1);
    }
  }

  // ----- The sponge, sections 4, 5.1 and 6.2, with c = 512

  const RATE := 1088

  function ZeroState(): (t: State) {
    seq(1600, i => false)
  }

  function PadZeros(m: nat): (zeros: nat)
    ensures (m + zeros + 2) % RATE == 0
  {
    (2 * RATE - 2 - m % RATE) % RATE
  }

  /** pad10*1 for a string of m bits. */
  function Pad(m: nat): (p: seq<bool>)
    ensures |p| == PadZeros(m) + 2
  {
    [true] + seq(PadZeros(m), i => false) + [true]
  }

  /** XOR of one rate block into the first bits of a state. */
  function XorBlock(s: State, block: seq<bool>): (t: State)
    requires |block| == RATE
  {
    seq(1600, k requires 0 <= k < 1600 => if k < RATE then Xor(s[k], block[k]) else s[k])
  }

  /** Steps 3 to 6 of the sponge, one rate block at a time. */
  function Absorb(s: State, padded: seq<bool>): (t: State)
    decreases |padded|
  {
    if |padded| < RATE then s else Absorb(KeccakF(XorBlock(s, padded[..RATE])), padded[RATE..])
  }

  /** Steps 7 to 10 of the sponge: the first d bits of output. */
  function Squeeze(s: State, d: nat): (output: seq<bool>)
    ensures |output| == d
    decreases d
  {
    if d <= RATE then s[..d] else s[..RATE] + Squeeze(KeccakF(s), d - RATE)
  }

  /** KECCAK[512](N, d). */
  function Keccak512(n: seq<bool>, d: nat): (output: seq<bool>)
    ensures |output| == d
  {
    Squeeze(Absorb(ZeroState(), n + Pad(|n|)), d)
  }

  /** SHAKE256(M, d) = KECCAK[512](M || 1111, d). */
  function Shake256Bits(message: seq<bool>, d: nat): (output: seq<bool>)
    ensures |output| == d
  {
    Keccak512(message + [true, true, true, true], d)
  }

  /** SHAKE256 on byte strings, with the bit order of appendix B.1. */
  function Shake256(message: seq<bv8>, length: nat): (output: seq<bv8>)
    ensures |output| == length
  {
    BitsBytes(Shake256Bits(BytesBits(message), 8 * length))
  }

  /** A shorter output is a prefix of every longer one. */
  lemma {:induction false} SqueezePrefix(s: State, d: nat, longer: nat)
    requires d <= longer
    ensures Squeeze(s, longer)[..d] == Squeeze(s, d)
    decreases d
  {
    hide KeccakF;
    if longer <= RATE {
    } else if d <= RATE {
      assert Squeeze(s, longer)[..RATE] == s[..RATE];
      assert Squeeze(s, longer)[..d] == s[..RATE][..d];
    } else {
      SqueezePrefix(KeccakF(s), d - RATE, longer - RATE);
      var rest := Squeeze(KeccakF(s), longer - RATE);
      assert (s[..RATE] + rest)[..d] == s[..RATE] + rest[..d - RATE];
    }
  }

  lemma Shake256Prefix(message: seq<bv8>, length: nat, longer: nat)
    requires length <= longer
    ensures Shake256(message, length) == Shake256(message, longer)[..length]
  {
    hide KeccakF, Absorb, Squeeze, Pad;
    var n := BytesBits(message) + [true, true, true, true];
    var state := Absorb(ZeroState(), n + Pad(|n|));
    SqueezePrefix(state, 8 * length, 8 * longer);
    BitsBytesPrefix(Squeeze(state, 8 * length), Squeeze(state, 8 * longer));
  }

  lemma BitsBytesPrefix(short: seq<bool>, long: seq<bool>)
    requires |short| % 8 == 0 && |long| % 8 == 0 && short <= long
    ensures BitsBytes(short) == BitsBytes(long)[..|short| / 8]
  {
    hide ByteOfBits;
    forall i | 0 <= i < |short| / 8
      ensures BitsBytes(short)[i] == BitsBytes(long)[i]
    {
      assert short[8 * i..8 * i + 8] == long[8 * i..8 * i + 8];
    }
  }
}
