/** Lanes as numbers: what the operations of src/keccak.rs on a u64 do to the
    string of its bits that stands for it. */
module Words {
  import opened Bits
  import opened Keccak

  type U64 = n: nat | n < 0x1_0000_0000_0000_0000

  function WordLane(w: U64): (lane: Lane) {
    NatBits(w, 64)
  }

  function WordLanes(words: seq<U64>): (lanes: Lanes)
    requires |words| == 25
  {
    seq(25, i requires 0 <= i < 25 => WordLane(words[i]))
  }

  /** `state_bit` shifts and masks the word. */
  lemma StateBitIsShift(words: seq<U64>, index: nat)
    requires |words| == 25 && index < 1600
    ensures StateBit(WordLanes(words), index) <==> words[index / 64] / Pow2(index % 64) % 2 == 1
  {
    hide NatBits, Pow2;
    BitIsShift(words[index / 64], 64, index % 64);
  }

  /** `u64::from_le_bytes` reads the bits of the eight bytes in order. */
  lemma FromLeBytes(bytes: seq<bv8>)
    requires |bytes| == 8
    ensures OfLeBytes(bytes) < 0x1_0000_0000_0000_0000
    ensures WordLane(OfLeBytes(bytes)) == BytesBits(bytes)
  {
    hide BytesBits, NatOfBits, NatBits, Pow2;
    Pow2Of64();
    NatBitsOfNat(BytesBits(bytes));
  }

  /** `u64::to_le_bytes` cuts the bits of the word into eight bytes. */
  lemma ToLeBytes(w: U64)
    ensures BytesBits(LeBytes(w, 8)) == WordLane(w) && OfLeBytes(LeBytes(w, 8)) == w
  {
    hide BytesBits, NatOfBits, NatBits, Pow2;
    Pow2Of64();
    LeBytesBits(w, 8);
    LeBytesRoundTrip(w, 8);
  }

  /** Shift left, truncate, and add what was shifted out. */
  function Rotated(w: U64, n: nat): (rotated: nat)
    requires n < 64
  {
    Funnel(w, Pow2(n), 0x1_0000_0000_0000_0000, Pow2(64 - n))
  }

  function Funnel(w: nat, left: nat, modulus: nat, right: nat): (rotated: nat)
    requires modulus > 0 && right > 0
  {
    w * left % modulus + w / right
  }

  /** `u64::rotate_left` rotates the bits. */
  lemma RotateLeftIsShifts(w: U64, n: nat)
    requires n < 64
    ensures Rotated(w, n) < 0x1_0000_0000_0000_0000
    ensures NatBits(Rotated(w, n), 64) == RotateLeft(WordLane(w), n)
  {
    hide NatBits, Pow2;
    Pow2Of64();
    Pow2Sum(n, 64 - n);
    var p, h := Pow2(64 - n), Pow2(n);
    var low, high := w % p, w / p;
    SplitBelow(w, p, h);
    RotatedParts(w, low, high, p, h);
    NatBitsConcat(low, high, 64 - n, n);
    NatBitsConcat(high, low, n, 64 - n);
    assert WordLane(w) == NatBits(low, 64 - n) + NatBits(high, n);
    assert low * h == h * low;
    WordBound(high, low, h, p);
  }

  lemma SplitBelow(w: nat, p: nat, h: nat)
    requires p > 0 && w < p * h
    ensures w == w % p + p * (w / p) && w / p < h
  {
    MultipleGrows(p, w / p - h + 1);
    assert p * (w / p - h + 1) == p * (w / p) - p * h + p;
  }

  lemma RotatedParts(w: nat, low: nat, high: nat, p: nat, h: nat)
    requires p > 0 && h > 0 && w == low + p * high && low < p
    ensures w * h % (p * h) == h * low
  {
    Reorder(low, high, p, h);
    MultipleGrows(h, p - low);
    assert h * (p - low) == p * h - h * low;
    DivModUnique(w * h, p * h, high, h * low);
  }

  lemma Reorder(low: nat, high: nat, p: nat, h: nat)
    ensures (low + p * high) * h == (p * h) * high + h * low
  {
  }

  lemma WordBound(high: nat, low: nat, h: nat, p: nat)
    requires high < h && low < p
    ensures high + h * low < h * p
  {
    assert h * (p - 1 - low) >= 0;
    assert h * (p - 1 - low) == h * p - h - h * low;
  }

  /** The bitwise complement of a word. */
  lemma NotIsComplement(w: U64)
    ensures WordLane(0xffff_ffff_ffff_ffff - w) == NotLane(WordLane(w))
  {
    hide NatBits, Pow2;
    Pow2Of64();
    forall j | 0 <= j < 64
      ensures WordLane(0xffff_ffff_ffff_ffff - w)[j] == !WordLane(w)[j]
    {
      ComplementBits(w, 64, j);
    }
  }
}
