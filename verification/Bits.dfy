/** Bit strings of the machine values the protocol uses: bytes, GF(16) elements
    and unsigned integers, always least significant bit first. */
module Bits {

  /** An unsigned 32-bit integer. */
  type U32 = n: nat | n < 0x1_0000_0000

  /** Exclusive or, addition in GF(2). */
  predicate Xor(a: bool, b: bool) {
    a != b
  }

  /** Eight bits of a byte, in the order `(byte >> bit) & 1` for bit = 0..7. */
  function ByteBits(b: bv8): (bits: seq<bool>)
    ensures |bits| == 8
  {
    [b & 1 == 1, (b >> 1) & 1 == 1, (b >> 2) & 1 == 1, (b >> 3) & 1 == 1,
     (b >> 4) & 1 == 1, (b >> 5) & 1 == 1, (b >> 6) & 1 == 1, (b >> 7) & 1 == 1]
  }

  function Weight(bit: bool, value: bv8): (r: bv8) {
    if bit then value else 0
  }

  function ByteOfBits(bits: seq<bool>): (r: bv8)
    requires |bits| == 8
  {
    Weight(bits[0], 1) | Weight(bits[1], 2) | Weight(bits[2], 4) | Weight(bits[3], 8) |
    Weight(bits[4], 16) | Weight(bits[5], 32) | Weight(bits[6], 64) | Weight(bits[7], 128)
  }

  lemma ByteOfByteBits(b: bv8)
    ensures ByteOfBits(ByteBits(b)) == b
  {
  }

  lemma ByteBitsOfByte(bits: seq<bool>)
    requires |bits| == 8
    ensures ByteBits(ByteOfBits(bits)) == bits
  {
  }

  function BytesBits(bytes: seq<bv8>): (bits: seq<bool>)
    ensures |bits| == 8 * |bytes|
  {
    seq(8 * |bytes|, k requires 0 <= k < 8 * |bytes| => ByteBits(bytes[k / 8])[k % 8])
  }

  function BitsBytes(bits: seq<bool>): (bytes: seq<bv8>)
    requires |bits| % 8 == 0
    ensures |bytes| == |bits| / 8
  {
    seq(|bits| / 8, i requires 0 <= i < |bits| / 8 => ByteOfBits(bits[8 * i..8 * i + 8]))
  }

  lemma BitsBytesInverse(bytes: seq<bv8>)
    ensures BitsBytes(BytesBits(bytes)) == bytes
  {
    hide ByteBits, ByteOfBits;
    var bits := BytesBits(bytes);
    forall i | 0 <= i < |bytes|
      ensures BitsBytes(bits)[i] == bytes[i]
    {
      forall j | 0 <= j < 8
        ensures bits[8 * i..8 * i + 8][j] == ByteBits(bytes[i])[j]
      {
        assert (8 * i + j) / 8 == i && (8 * i + j) % 8 == j;
      }
      assert bits[8 * i..8 * i + 8] == ByteBits(bytes[i]);
      ByteOfByteBits(bytes[i]);
    }
  }

  lemma BytesBitsInverse(bits: seq<bool>)
    requires |bits| % 8 == 0
    ensures BytesBits(BitsBytes(bits)) == bits
  {
    hide ByteBits, ByteOfBits;
    forall k | 0 <= k < |bits|
      ensures BytesBits(BitsBytes(bits))[k] == bits[k]
    {
      var i, j := k / 8, k % 8;
      ByteBitsOfByte(bits[8 * i..8 * i + 8]);
      assert bits[8 * i..8 * i + 8][j] == bits[8 * i + j];
    }
  }

  lemma BytesBitsConcat(a: seq<bv8>, b: seq<bv8>)
    ensures BytesBits(a + b) == BytesBits(a) + BytesBits(b)
  {
    hide ByteBits;
    forall k | 0 <= k < 8 * |a + b|
      ensures BytesBits(a + b)[k] == (BytesBits(a) + BytesBits(b))[k]
    {
      if k >= 8 * |a| {
        assert k / 8 - |a| == (k - 8 * |a|) / 8 && k % 8 == (k - 8 * |a|) % 8;
      }
    }
  }

  lemma BytesBitsSlice(bytes: seq<bv8>, lo: nat, hi: nat)
    requires lo <= hi <= |bytes|
    ensures BytesBits(bytes[lo..hi]) == BytesBits(bytes)[8 * lo..8 * hi]
  {
    hide ByteBits;
    forall k | 0 <= k < 8 * (hi - lo)
      ensures BytesBits(bytes[lo..hi])[k] == BytesBits(bytes)[8 * lo..8 * hi][k]
    {
      assert (8 * lo + k) / 8 == lo + k / 8 && (8 * lo + k) % 8 == k % 8;
    }
  }

  lemma BytesBitsInjective(a: seq<bv8>, b: seq<bv8>)
    requires BytesBits(a) == BytesBits(b)
    ensures a == b
  {
    BitsBytesInverse(a);
    BitsBytesInverse(b);
  }

  // ----- GF(16) elements

  function NibbleBits(v: bv4): (bits: seq<bool>)
    ensures |bits| == 4
  {
    [v & 1 == 1, (v >> 1) & 1 == 1, (v >> 2) & 1 == 1, (v >> 3) & 1 == 1]
  }

  function NibbleWeight(bit: bool, value: bv4): (r: bv4) {
    if bit then value else 0
  }

  function NibbleOfBits(bits: seq<bool>): (r: bv4)
    requires |bits| == 4
  {
    NibbleWeight(bits[0], 1) | NibbleWeight(bits[1], 2) | NibbleWeight(bits[2], 4) | NibbleWeight(bits[3], 8)
  }

  lemma NibbleOfNibbleBits(v: bv4)
    ensures NibbleOfBits(NibbleBits(v)) == v
  {
  }

  lemma NibbleBitsOfNibble(bits: seq<bool>)
    requires |bits| == 4
    ensures NibbleBits(NibbleOfBits(bits)) == bits
  {
  }

  function NibblesBits(values: seq<bv4>): (bits: seq<bool>)
    ensures |bits| == 4 * |values|
  {
    seq(4 * |values|, k requires 0 <= k < 4 * |values| => NibbleBits(values[k / 4])[k % 4])
  }

  function BitsNibbles(bits: seq<bool>): (values: seq<bv4>)
    requires |bits| % 4 == 0
    ensures |values| == |bits| / 4
  {
    seq(|bits| / 4, i requires 0 <= i < |bits| / 4 => NibbleOfBits(bits[4 * i..4 * i + 4]))
  }

  lemma BitsNibblesInverse(values: seq<bv4>)
    ensures BitsNibbles(NibblesBits(values)) == values
  {
    hide NibbleBits, NibbleOfBits;
    var bits := NibblesBits(values);
    forall i | 0 <= i < |values|
      ensures BitsNibbles(bits)[i] == values[i]
    {
      forall j | 0 <= j < 4
        ensures bits[4 * i..4 * i + 4][j] == NibbleBits(values[i])[j]
      {
        assert (4 * i + j) / 4 == i && (4 * i + j) % 4 == j;
      }
      assert bits[4 * i..4 * i + 4] == NibbleBits(values[i]);
      NibbleOfNibbleBits(values[i]);
    }
  }

  lemma NibblesBitsInverse(bits: seq<bool>)
    requires |bits| % 4 == 0
    ensures NibblesBits(BitsNibbles(bits)) == bits
  {
    hide NibbleBits, NibbleOfBits;
    forall k | 0 <= k < |bits|
      ensures NibblesBits(BitsNibbles(bits))[k] == bits[k]
    {
      var i, j := k / 4, k % 4;
      NibbleBitsOfNibble(bits[4 * i..4 * i + 4]);
      assert bits[4 * i..4 * i + 4][j] == bits[4 * i + j];
    }
  }

  lemma NibblesBitsConcat(a: seq<bv4>, b: seq<bv4>)
    ensures NibblesBits(a + b) == NibblesBits(a) + NibblesBits(b)
  {
    hide NibbleBits;
    forall k | 0 <= k < 4 * |a + b|
      ensures NibblesBits(a + b)[k] == (NibblesBits(a) + NibblesBits(b))[k]
    {
      if k >= 4 * |a| {
        assert k / 4 - |a| == (k - 4 * |a|) / 4 && k % 4 == (k - 4 * |a|) % 4;
      }
    }
  }

  lemma NibblesBitsInjective(a: seq<bv4>, b: seq<bv4>)
    requires NibblesBits(a) == NibblesBits(b)
    ensures a == b
  {
    BitsNibblesInverse(a);
    BitsNibblesInverse(b);
  }

  // ----- Unsigned integers

  function Pow2(n: nat): (p: nat)
    ensures p > 0
  {
    if n == 0 then 1 else 2 * Pow2(n - 1)
  }

  /** The low `count` bits of `n`, in the order `(n >> bit) & 1`. */
  function NatBits(n: nat, count: nat): (bits: seq<bool>)
    ensures |bits| == count
    decreases count
  {
    if count == 0 then [] else [n % 2 == 1] + NatBits(n / 2, count - 1)
  }

  function NatOfBits(bits: seq<bool>): (n: nat)
    ensures n < Pow2(|bits|)
  {
    if bits == [] then 0 else (if bits[0] then 1 else 0) + 2 * NatOfBits(bits[1..])
  }

  lemma {:induction false} NatOfNatBits(n: nat, count: nat)
    requires n < Pow2(count)
    ensures NatOfBits(NatBits(n, count)) == n
    decreases count
  {
    if count == 0 {
    } else {
      NatOfNatBits(n / 2, count - 1);
      assert NatBits(n, count)[1..] == NatBits(n / 2, count - 1);
    }
  }

  lemma {:induction false} NatBitsOfNat(bits: seq<bool>)
    ensures NatBits(NatOfBits(bits), |bits|) == bits
  {
    if bits == [] {
    } else {
      NatBitsOfNat(bits[1..]);
      var rest := NatOfBits(bits[1..]);
      assert NatOfBits(bits) / 2 == rest && (NatOfBits(bits) % 2 == 1) == bits[0];
    }
  }

  // ----- Shifts, masks and truncation

  lemma DivModUnique(n: int, d: nat, q: int, r: nat)
    requires d > 0 && n == d * q + r && r < d
    ensures n / d == q && n % d == r
  {
    QuotientUnique(d, n / d, q, n % d, r);
  }

  lemma QuotientUnique(d: nat, q1: int, q2: int, r1: nat, r2: nat)
    requires r1 < d && r2 < d && d * q1 + r1 == d * q2 + r2
    ensures q1 == q2 && r1 == r2
  {
    MultipleGrows(d, q2 - q1);
    MultipleGrows(d, q1 - q2);
    assert d * (q2 - q1) == d * q2 - d * q1 && d * (q1 - q2) == d * q1 - d * q2;
  }

  lemma MultipleGrows(d: nat, k: int)
    ensures k >= 1 ==> d * k >= d
  {
    if k >= 1 {
      assert d * (k - 1) >= 0;
    }
  }

  /** Truncation halves like this: the lowest bit, and the rest truncated. */
  lemma HalveModulo(n: nat, p: nat)
    requires p > 0
    ensures n % (2 * p) == n % 2 + 2 * (n / 2 % p)
    ensures n / (2 * p) == n / 2 / p
  {
    var h, b := n / 2, n % 2;
    var q, r := h / p, h % p;
    assert h == p * q + r;
    RegroupHalves(p, q, r, b);
    DivModUnique(n, 2 * p, q, 2 * r + b);
  }

  lemma RegroupHalves(p: nat, q: nat, r: nat, b: nat)
    ensures 2 * (p * q + r) + b == (2 * p) * q + (2 * r + b)
  {
  }

  /** The low j bits spell the number modulo 2^j. */
  lemma {:induction false} LowBits(n: nat, count: nat, j: nat)
    requires j <= count
    ensures NatOfBits(NatBits(n, count)[..j]) == n % Pow2(j)
    decreases j
  {
    var low := NatBits(n, count)[..j];
    if j == 0 {
      assert low == [];
    } else {
      LowBits(n / 2, count - 1, j - 1);
      HalveModulo(n, Pow2(j - 1));
      assert low[1..] == NatBits(n / 2, count - 1)[..j - 1];
    }
  }

  /** Bit i is the lowest bit of the number shifted right by i. */
  lemma {:induction false} BitIsShift(n: nat, count: nat, i: nat)
    requires i < count
    ensures NatBits(n, count)[i] <==> n / Pow2(i) % 2 == 1
    decreases i
  {
    if i > 0 {
      BitIsShift(n / 2, count - 1, i - 1);
      HalveModulo(n, Pow2(i - 1));
    }
  }

  lemma {:induction false} Pow2Sum(a: nat, b: nat)
    ensures Pow2(a + b) == Pow2(a) * Pow2(b)
    decreases a
  {
    if a > 0 {
      Pow2Sum(a - 1, b);
      Doubling(Pow2(a - 1), Pow2(b));
      assert Pow2(a + b) == 2 * Pow2(a - 1 + b);
      assert Pow2(a) == 2 * Pow2(a - 1);
    }
  }

  lemma Doubling(x: nat, y: nat)
    ensures 2 * (x * y) == (2 * x) * y
  {
  }

  lemma NatBitsConcat(low: nat, high: nat, a: nat, b: nat)
    requires low < Pow2(a) && high < Pow2(b)
    ensures NatBits(low + Pow2(a) * high, a + b) == NatBits(low, a) + NatBits(high, b)
  {
    hide NatBits, NatOfBits, Pow2;
    var bits := NatBits(low, a) + NatBits(high, b);
    NatOfBitsConcat(NatBits(low, a), NatBits(high, b));
    NatOfNatBits(low, a);
    NatOfNatBits(high, b);
    NatBitsOfNat(bits);
  }

  lemma {:induction false} ComplementBits(n: nat, count: nat, j: nat)
    requires n < Pow2(count) && j < count
    ensures NatBits(Pow2(count) - 1 - n, count)[j] == !NatBits(n, count)[j]
    decreases count
  {
    if j > 0 {
      assert (Pow2(count) - 1 - n) / 2 == Pow2(count - 1) - 1 - n / 2;
      ComplementBits(n / 2, count - 1, j - 1);
    }
  }

  lemma Pow2Of32()
    ensures Pow2(32) == 0x1_0000_0000
  {
    assert Pow2(8) == 0x100;
    assert Pow2(16) == 0x1_0000;
    assert Pow2(24) == 0x100_0000;
  }

  lemma Pow2Of64()
    ensures Pow2(64) == 0x1_0000_0000_0000_0000
  {
    Pow2Of32();
    assert Pow2(40) == 0x100_0000_0000;
    assert Pow2(48) == 0x1_0000_0000_0000;
    assert Pow2(56) == 0x100_0000_0000_0000;
  }

  /** `n` as `count` little-endian bytes. */
  function LeBytes(n: nat, count: nat): (bytes: seq<bv8>)
    ensures |bytes| == count
  {
    BitsBytes(NatBits(n, 8 * count))
  }

  function OfLeBytes(bytes: seq<bv8>): (n: nat)
    ensures n < Pow2(8 * |bytes|)
  {
    NatOfBits(BytesBits(bytes))
  }

  lemma LeBytesRoundTrip(n: nat, count: nat)
    requires n < Pow2(8 * count)
    ensures OfLeBytes(LeBytes(n, count)) == n
  {
    BytesBitsInverse(NatBits(n, 8 * count));
    NatOfNatBits(n, 8 * count);
  }

  lemma OfLeBytesRoundTrip(bytes: seq<bv8>)
    ensures LeBytes(OfLeBytes(bytes), |bytes|) == bytes
  {
    NatBitsOfNat(BytesBits(bytes));
    BitsBytesInverse(bytes);
  }

  /** The little-endian bytes mean what their name says: the first byte is the
      low eight bits, the others encode the rest. */
  lemma LeBytesStep(bytes: seq<bv8>)
    requires bytes != []
    ensures OfLeBytes(bytes) == bytes[0] as nat + 256 * OfLeBytes(bytes[1..])
  {
    hide ByteBits, NatOfBits;
    var bits := BytesBits(bytes);
    BytesBitsSlice(bytes, 1, |bytes|);
    assert bits[..8] == ByteBits(bytes[0]);
    assert bits[8..] == BytesBits(bytes[1..]);
    assert bits == bits[..8] + bits[8..];
    NatOfBitsConcat(bits[..8], bits[8..]);
    assert Pow2(8) == 256;
    NatOfByteBits(bytes[0]);
  }

  lemma {:induction false} NatOfBitsConcat(low: seq<bool>, high: seq<bool>)
    ensures NatOfBits(low + high) == NatOfBits(low) + Pow2(|low|) * NatOfBits(high)
  {
    if low == [] {
      assert low + high == high;
    } else {
      var rest := NatOfBits(low[1..]);
      NatOfBitsConcat(low[1..], high);
      Regroup(if low[0] then 1 else 0, rest, Pow2(|low| - 1), NatOfBits(high));
      assert (low + high)[1..] == low[1..] + high && (low + high)[0] == low[0];
    }
  }

  lemma Regroup(first: nat, rest: nat, p: nat, h: nat)
    ensures first + 2 * (rest + p * h) == (first + 2 * rest) + (2 * p) * h
  {
  }

  lemma NatOfByteBits(b: bv8)
    ensures NatOfBits(ByteBits(b)) == b as nat
  {
    hide ByteBits, NatOfBits, NatBits, Pow2;
    var n := b as nat;
    assert n as bv8 == b;
    ByteBitsOfNat(n);
    NatBitsEight(n);
    assert Pow2(8) == 256 by { Pow2OfEight(); }
    NatOfNatBits(n, 8);
  }

  lemma Pow2OfEight()
    ensures Pow2(8) == 256
  {
  }

  lemma NatBitsEight(n: nat)
    ensures NatBits(n, 8) == [n % 2 == 1, n / 2 % 2 == 1, n / 4 % 2 == 1, n / 8 % 2 == 1,
                              n / 16 % 2 == 1, n / 32 % 2 == 1, n / 64 % 2 == 1, n / 128 % 2 == 1]
  {
    hide NatBits;
    HalfOfQuotient(n, 1);
    HalfOfQuotient(n, 2);
    HalfOfQuotient(n, 4);
    HalfOfQuotient(n, 8);
    HalfOfQuotient(n, 16);
    HalfOfQuotient(n, 32);
    HalfOfQuotient(n, 64);
    HalfOfQuotient(n, 128);
    NatBitsFour(n, n / 2, n / 4, n / 8, n / 16, 4);
    NatBitsFour(n / 16, n / 32, n / 64, n / 128, n / 256, 0);
  }

  lemma NatBitsFour(n: nat, n1: nat, n2: nat, n3: nat, n4: nat, rest: nat)
    requires n1 == n / 2 && n2 == n1 / 2 && n3 == n2 / 2 && n4 == n3 / 2
    ensures NatBits(n, rest + 4) == [n % 2 == 1, n1 % 2 == 1, n2 % 2 == 1, n3 % 2 == 1] + NatBits(n4, rest)
    ensures NatBits(n4, 0) == []
  {
    NatBitsStep(n3, rest);
    NatBitsStep(n2, rest + 1);
    NatBitsStep(n1, rest + 2);
    NatBitsStep(n, rest + 3);
    hide NatBits;
    FourInFront(n % 2 == 1, n1 % 2 == 1, n2 % 2 == 1, n3 % 2 == 1, NatBits(n4, rest));
  }

  lemma NatBitsStep(n: nat, count: nat)
    ensures NatBits(n, 0) == []
    ensures NatBits(n, count + 1) == [n % 2 == 1] + NatBits(n / 2, count)
  {
  }

  lemma FourInFront(a: bool, b: bool, c: bool, d: bool, rest: seq<bool>)
    ensures [a] + ([b] + ([c] + ([d] + rest))) == [a, b, c, d] + rest
  {
  }

  lemma HalfOfQuotient(n: nat, d: nat)
    requires d == 1 || d == 2 || d == 4 || d == 8 || d == 16 || d == 32 || d == 64 || d == 128
    ensures n / d / 2 == n / (2 * d)
  {
  }

  lemma ByteBitsOfNat(n: nat)
    requires n < 256
    ensures ByteBits(n as bv8) == [n % 2 == 1, n / 2 % 2 == 1, n / 4 % 2 == 1, n / 8 % 2 == 1,
                                   n / 16 % 2 == 1, n / 32 % 2 == 1, n / 64 % 2 == 1, n / 128 % 2 == 1]
  {
    var b := n as bv8;
    assert (b & 1 == 1) == (n % 2 == 1);
    assert ((b >> 1) & 1 == 1) == (n / 2 % 2 == 1);
    assert ((b >> 2) & 1 == 1) == (n / 4 % 2 == 1);
    assert ((b >> 3) & 1 == 1) == (n / 8 % 2 == 1);
    assert ((b >> 4) & 1 == 1) == (n / 16 % 2 == 1);
    assert ((b >> 5) & 1 == 1) == (n / 32 % 2 == 1);
    assert ((b >> 6) & 1 == 1) == (n / 64 % 2 == 1);
    assert ((b >> 7) & 1 == 1) == (n / 128 % 2 == 1);
  }

  /** The bits of a little-endian encoding are the bits of the number. */
  lemma LeBytesBits(n: nat, count: nat)
    ensures BytesBits(LeBytes(n, count)) == NatBits(n, 8 * count)
  {
    BytesBitsInverse(NatBits(n, 8 * count));
  }
}
