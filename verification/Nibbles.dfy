/** Packing GF(16) vectors two to a byte, low nibble first: the chunked
    `pack_gf16`, the in-place `pack_nibbles`, and the unpacking of the decoder. */
module Nibbles {
  import opened Bits

  function PackPair(low: bv4, high: bv4): (r: bv8) {
    low as bv8 | (high as bv8 << 4)
  }

  function LowNibble(b: bv8): (r: bv4) {
    (b & 0x0f) as bv4
  }

  function HighNibble(b: bv8): (r: bv4) {
    (b >> 4) as bv4
  }

  /** `pack_gf16`: chunks of two, a missing high nibble counted as zero. */
  function Pack(values: seq<bv4>): (bytes: seq<bv8>)
    ensures |bytes| == (|values| + 1) / 2
  {
    seq((|values| + 1) / 2, i requires 0 <= i < (|values| + 1) / 2 =>
      PackPair(values[2 * i], if 2 * i + 1 < |values| then values[2 * i + 1] else 0))
  }

  /** The first `count` nibbles of a byte string. */
  function Unpack(bytes: seq<bv8>, count: nat): (values: seq<bv4>)
    requires count <= 2 * |bytes|
    ensures |values| == count
  {
    seq(count, i requires 0 <= i < count => if i % 2 == 0 then LowNibble(bytes[i / 2]) else HighNibble(bytes[i / 2]))
  }

  /** An odd count must leave the last high nibble zero. */
  predicate Canonical(bytes: seq<bv8>, count: nat)
    requires |bytes| == (count + 1) / 2
  {
    count % 2 == 1 ==> bytes[|bytes| - 1] & 0xf0 == 0
  }

  lemma PairNibbles(low: bv4, high: bv4)
    ensures LowNibble(PackPair(low, high)) == low && HighNibble(PackPair(low, high)) == high
    ensures PackPair(low, high) & 0xf0 == 0 <==> high == 0
  {
  }

  lemma PairOfNibbles(b: bv8)
    ensures PackPair(LowNibble(b), HighNibble(b)) == b
    ensures b & 0xf0 == 0 <==> HighNibble(b) == 0
  {
  }

  lemma UnpackPack(values: seq<bv4>)
    ensures Canonical(Pack(values), |values|)
    ensures Unpack(Pack(values), |values|) == values
  {
    hide PackPair, LowNibble, HighNibble;
    var bytes := Pack(values);
    forall i | 0 <= i < |bytes|
      ensures LowNibble(bytes[i]) == values[2 * i]
      ensures HighNibble(bytes[i]) == if 2 * i + 1 < |values| then values[2 * i + 1] else 0
    {
      PairNibbles(values[2 * i], if 2 * i + 1 < |values| then values[2 * i + 1] else 0);
    }
    if |values| % 2 == 1 {
      PairNibbles(values[|values| - 1], 0);
    }
  }

  lemma PackUnpack(bytes: seq<bv8>, count: nat)
    requires |bytes| == (count + 1) / 2 && Canonical(bytes, count)
    ensures Pack(Unpack(bytes, count)) == bytes
  {
    hide PackPair, LowNibble, HighNibble;
    var values := Unpack(bytes, count);
    forall i | 0 <= i < |bytes|
      ensures Pack(values)[i] == bytes[i]
    {
      PairOfNibbles(bytes[i]);
      assert 2 * i / 2 == i && (2 * i + 1) / 2 == i;
    }
  }

  /** `pack_nibbles`: pushes even nibbles, ORs odd ones into the last byte. */
  method PackNibbles(values: seq<bv4>) returns (output: seq<bv8>)
    ensures output == Pack(values)
  {
    output := [];
    for index := 0 to |values|
      invariant output == Pack(values[..index])
    {
      if index % 2 == 0 {
        output := output + [values[index] as bv8];
      } else {
        output := output[|output| - 1 := output[|output| - 1] | (values[index] as bv8 << 4)];
      }
      PackExtend(values, index);
    }
    assert values[..|values|] == values;
  }

  lemma PackExtend(values: seq<bv4>, index: nat)
    requires index < |values|
    ensures var before := Pack(values[..index]);
            Pack(values[..index + 1])
              == if index % 2 == 0 then before + [values[index] as bv8]
                 else before[|before| - 1 := before[|before| - 1] | (values[index] as bv8 << 4)]
  {
    var before, after := Pack(values[..index]), Pack(values[..index + 1]);
    PairWithZero(values[index]);
    hide PackPair;
    forall i | 0 <= i < |after| - 1
      ensures after[i] == before[i]
    {
    }
    if index % 2 == 0 {
      assert after[|after| - 1] == PackPair(values[index], 0);
    } else {
      PairLater(values[index - 1], values[index]);
      assert before[|before| - 1] == PackPair(values[index - 1], 0);
      assert after[|after| - 1] == PackPair(values[index - 1], values[index]);
    }
  }

  lemma PairWithZero(low: bv4)
    ensures PackPair(low, 0) == low as bv8
  {
  }

  lemma PairLater(low: bv4, high: bv4)
    ensures PackPair(low, high) == PackPair(low, 0) | (high as bv8 << 4)
  {
  }

  // ----- Bit order

  lemma ByteBitsOfPair(low: bv4, high: bv4)
    ensures ByteBits(PackPair(low, high)) == NibbleBits(low) + NibbleBits(high)
  {
  }

  /** The first 4 count bits of the bytes are the bits of the nibble vector. */
  lemma UnpackBits(bytes: seq<bv8>, count: nat)
    requires count <= 2 * |bytes|
    ensures NibblesBits(Unpack(bytes, count)) == BytesBits(bytes)[..4 * count]
  {
    hide ByteBits, NibbleBits, PackPair, LowNibble, HighNibble;
    var values := Unpack(bytes, count);
    forall k | 0 <= k < 4 * count
      ensures NibblesBits(values)[k] == BytesBits(bytes)[k]
    {
      var b := bytes[k / 8];
      PairOfNibbles(b);
      ByteBitsOfPair(LowNibble(b), HighNibble(b));
      assert k / 4 / 2 == k / 8;
      if k / 4 % 2 == 0 {
        assert k % 8 == k % 4;
      } else {
        assert k % 8 == 4 + k % 4;
      }
    }
  }

  /** Packing appends a zero nibble of bits exactly when the count is odd. */
  lemma PackBits(values: seq<bv4>)
    ensures BytesBits(Pack(values))
        == NibblesBits(values) + (if |values| % 2 == 1 then [false, false, false, false] else [])
  {
    if |values| % 2 == 0 {
      FullBytesBits(values);
    } else {
      assert Pack(values + [0]) == Pack(values);
      FullBytesBits(values + [0]);
      NibblesBitsConcat(values, [0]);
      assert NibblesBits([0]) == [false, false, false, false];
    }
  }

  lemma FullBytesBits(values: seq<bv4>)
    requires |values| % 2 == 0
    ensures BytesBits(Pack(values)) == NibblesBits(values)
  {
    hide BytesBits, NibblesBits, Pack, Unpack;
    UnpackPack(values);
    UnpackBits(Pack(values), |values|);
  }
}
