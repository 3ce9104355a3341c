/** The lane-level Keccak-f[1600] and SHAKE256 of src/keccak.rs. A 64-bit lane is
    the string of its bits, least significant first; the operators of the source
    act on it position by position. */
module Keccak {
  import opened Bits
  import opened Fips202

  type Lane = l: seq<bool> | |l| == 64 witness seq(64, i => false)

  type Lanes = s: seq<Lane> | |s| == 25 witness seq(25, i => seq(64, j => false))

  const RATE_BYTES: nat := 136

  function ZeroLane(): (lane: Lane) {
    seq(64, i => false)
  }

  function XorLane(a: Lane, b: Lane): (lane: Lane) {
    seq(64, i requires 0 <= i < 64 => Xor(a[i], b[i]))
  }

  function AndLane(a: Lane, b: Lane): (lane: Lane) {
    seq(64, i requires 0 <= i < 64 => a[i] && b[i])
  }

  function NotLane(a: Lane): (lane: Lane) {
    seq(64, i requires 0 <= i < 64 => !a[i])
  }

  function RotateLeft(l: Lane, n: nat): (lane: Lane)
    requires n < 64
  {
    l[64 - n..] + l[..64 - n]
  }

  lemma RotateBit(l: Lane, n: nat, z: nat)
    requires n < 64 && z < 64
    ensures RotateLeft(l, n)[z] == l[(z + 64 - n) % 64]
  {
  }

  function LaneOfConstant(constant: nat): (lane: Lane) {
    NatBits(constant, 64)
  }

  /** Bit `index` of a state: `(state[index / 64] >> (index % 64)) & 1 == 1`. */
  function StateBit(s: Lanes, index: nat): (bit: bool)
    requires index < 1600
  {
    s[index / 64][index % 64]
  }

  function StateBits(s: Lanes): (t: State) {
    seq(1600, k requires 0 <= k < 1600 => StateBit(s, k))
  }

  lemma StateBitsAt(s: Lanes, x: nat, y: nat, z: nat)
    requires x < 5 && y < 5 && z < 64
    ensures At(StateBits(s), x, y, z) == s[x + 5 * y][z]
  {
    assert (64 * (5 * y + x) + z) / 64 == x + 5 * y;
  }

  lemma StateBitsInjective(s: Lanes, t: Lanes)
    requires StateBits(s) == StateBits(t)
    ensures s == t
  {
    forall i, z | 0 <= i < 25 && 0 <= z < 64
      ensures s[i][z] == t[i][z]
    {
      assert StateBits(s)[64 * i + z] == s[i][z];
      assert StateBits(t)[64 * i + z] == t[i][z];
    }
    forall i | 0 <= i < 25
      ensures s[i] == t[i]
    {
    }
  }

  // ----- One round, lane by lane

  function ColumnLane(s: Lanes, x: nat): (lane: Lane)
    requires x < 5
  {
    XorLane(XorLane(XorLane(XorLane(s[x], s[x + 5]), s[x + 10]), s[x + 15]), s[x + 20])
  }

  function ThetaLane(s: Lanes, i: nat): (lane: Lane)
    requires i < 25
  {
    XorLane(XorLane(s[i], ColumnLane(s, (i % 5 + 4) % 5)), RotateLeft(ColumnLane(s, (i % 5 + 1) % 5), 1))
  }

  /** The lane that rho and pi move to position t. */
  function SourceLane(t: nat): (source: nat)
    requires t < 25
    ensures source < 25
  {
    (t % 5 + 3 * (t / 5)) % 5 + 5 * (t % 5)
  }

  function TargetLane(x: nat, y: nat): (target: nat)
    requires x < 5 && y < 5
    ensures target < 25
  {
    y + 5 * ((2 * x + 3 * y) % 5)
  }

  lemma SourceOfTarget(x: nat, y: nat)
    requires x < 5 && y < 5
    ensures SourceLane(TargetLane(x, y)) == x + 5 * y
  {
    var q, targetY := (2 * x + 3 * y) / 5, (2 * x + 3 * y) % 5;
    DivMod5(y + 5 * targetY, targetY, y);
    DivMod5(y + 3 * targetY, 2 * y + x - 3 * q, x);
  }

  lemma TargetOfSource(t: nat)
    requires t < 25
    ensures TargetLane(SourceLane(t) % 5, SourceLane(t) / 5) == t
  {
    var x, y := t % 5, t / 5;
    var q, sourceX := (x + 3 * y) / 5, (x + 3 * y) % 5;
    DivMod5(sourceX + 5 * x, x, sourceX);
    DivMod5(2 * sourceX + 3 * x, x + y - 2 * q, y);
  }

  lemma DivMod5(n: int, q: int, r: int)
    requires n == 5 * q + r && 0 <= r < 5
    ensures n / 5 == q && n % 5 == r
  {
  }

  lemma SourceUnique(x: nat, y: nat, t: nat)
    requires x < 5 && y < 5 && t < 25 && SourceLane(t) == x + 5 * y
    ensures t == TargetLane(x, y)
  {
    hide SourceLane, TargetLane;
    TargetOfSource(t);
    DivMod5(SourceLane(t), y, x);
  }

  function PermutedLane(theta: Lanes, t: nat): (lane: Lane)
    requires t < 25
  {
    RotateLeft(theta[SourceLane(t)], RHO[SourceLane(t)])
  }

  function ChiLane(b: Lanes, i: nat): (lane: Lane)
    requires i < 25
  {
    XorLane(b[i], AndLane(NotLane(b[(i % 5 + 1) % 5 + 5 * (i / 5)]), b[(i % 5 + 2) % 5 + 5 * (i / 5)]))
  }

  function ThetaLanes(s: Lanes): (lanes: Lanes) {
    seq(25, i requires 0 <= i < 25 => ThetaLane(s, i))
  }

  function PermutedLanes(s: Lanes): (lanes: Lanes) {
    seq(25, i requires 0 <= i < 25 => PermutedLane(s, i))
  }

  function ChiLanes(s: Lanes): (lanes: Lanes) {
    seq(25, i requires 0 <= i < 25 => ChiLane(s, i))
  }

  function IotaLanes(s: Lanes, constant: nat): (lanes: Lanes) {
    s[0 := XorLane(s[0], LaneOfConstant(constant))]
  }

  lemma ThetaLanesRefine(s: Lanes)
    ensures StateBits(ThetaLanes(s)) == Theta(StateBits(s))
  {
    hide At, StateBits, Theta, ThetaLane, ThetaBit;
    forall x: nat, y: nat, z: nat | x < 5 && y < 5 && z < 64
      ensures At(StateBits(ThetaLanes(s)), x, y, z) == At(Theta(StateBits(s)), x, y, z)
    {
      StateBitsAt(ThetaLanes(s), x, y, z);
      ThetaAt(StateBits(s), x, y, z);
      ThetaLaneBit(s, x, y, z);
    }
    StatesEqual(StateBits(ThetaLanes(s)), Theta(StateBits(s)));
  }

  lemma ThetaLaneBit(s: Lanes, x: nat, y: nat, z: nat)
    requires x < 5 && y < 5 && z < 64
    ensures ThetaLane(s, x + 5 * y)[z] == ThetaBit(StateBits(s), x, y, z)
  {
    hide At, StateBits, RotateLeft, ColumnLane, Parity;
    assert (x + 5 * y) % 5 == x;
    StateBitsAt(s, x, y, z);
    ColumnBit(s, (x + 4) % 5, z);
    ColumnBit(s, (x + 1) % 5, (z + 63) % 64);
    RotateBit(ColumnLane(s, (x + 1) % 5), 1, z);
  }

  lemma ColumnBit(s: Lanes, x: nat, z: nat)
    requires x < 5 && z < 64
    ensures ColumnLane(s, x)[z] == Parity(StateBits(s), x, z)
  {
    hide At, StateBits;
    StateBitsAt(s, x, 0, z);
    StateBitsAt(s, x, 1, z);
    StateBitsAt(s, x, 2, z);
    StateBitsAt(s, x, 3, z);
    StateBitsAt(s, x, 4, z);
  }

  lemma PermutedLanesRefine(s: Lanes)
    ensures StateBits(PermutedLanes(s)) == Pi(Rho(StateBits(s)))
  {
    hide At, StateBits, Pi, Rho, PermutedLane;
    var bits := StateBits(s);
    forall x: nat, y: nat, z: nat | x < 5 && y < 5 && z < 64
      ensures At(StateBits(PermutedLanes(s)), x, y, z) == At(Pi(Rho(bits)), x, y, z)
    {
      StateBitsAt(PermutedLanes(s), x, y, z);
      PermutedLaneBit(s, x, y, z);
    }
    StatesEqual(StateBits(PermutedLanes(s)), Pi(Rho(bits)));
  }

  lemma PermutedLaneBit(s: Lanes, x: nat, y: nat, z: nat)
    requires x < 5 && y < 5 && z < 64
    ensures PermutedLane(s, x + 5 * y)[z] == At(Pi(Rho(StateBits(s))), x, y, z)
  {
    hide At, StateBits, Pi, Rho, RotateLeft;
    var source := (x + 3 * y) % 5;
    var lane := source + 5 * x;
    SourceLaneIs(x, y);
    hide SourceLane;
    OffsetSmall(lane);
    RotateBit(s[lane], RHO[lane], z);
    PiAt(Rho(StateBits(s)), x, y, z);
    RhoAt(StateBits(s), source, x, z);
    StateBitsAt(s, source, x, (z + 64 - RHO[lane]) % 64);
  }

  lemma SourceLaneIs(x: nat, y: nat)
    requires x < 5 && y < 5
    ensures SourceLane(x + 5 * y) == (x + 3 * y) % 5 + 5 * x
  {
    DivMod5(x + 5 * y, y, x);
  }

  lemma OffsetSmall(lane: nat)
    requires lane < 25
    ensures RHO[lane] < 64 && RHO[lane] % 64 == RHO[lane]
  {
  }

  lemma ChiLanesRefine(s: Lanes)
    ensures StateBits(ChiLanes(s)) == Chi(StateBits(s))
  {
    hide At, StateBits, Chi;
    var bits := StateBits(s);
    forall x: nat, y: nat, z: nat | x < 5 && y < 5 && z < 64
      ensures At(StateBits(ChiLanes(s)), x, y, z) == At(Chi(bits), x, y, z)
    {
      StateBitsAt(ChiLanes(s), x, y, z);
      ChiAt(bits, x, y, z);
      StateBitsAt(s, x, y, z);
      StateBitsAt(s, (x + 1) % 5, y, z);
      StateBitsAt(s, (x + 2) % 5, y, z);
    }
    StatesEqual(StateBits(ChiLanes(s)), Chi(bits));
  }

  lemma IotaLanesRefine(s: Lanes, constant: nat)
    ensures StateBits(IotaLanes(s, constant)) == Iota(StateBits(s), constant)
  {
    hide At, StateBits, Iota, NatBits;
    var bits := StateBits(s);
    forall x: nat, y: nat, z: nat | x < 5 && y < 5 && z < 64
      ensures At(StateBits(IotaLanes(s, constant)), x, y, z) == At(Iota(bits, constant), x, y, z)
    {
      StateBitsAt(IotaLanes(s, constant), x, y, z);
      StateBitsAt(s, x, y, z);
      IotaAt(bits, constant, x, y, z);
    }
    StatesEqual(StateBits(IotaLanes(s, constant)), Iota(bits, constant));
  }

  method Round(input: Lanes, roundConstant: nat) returns (output: Lanes)
    ensures StateBits(output) == Rnd(StateBits(input), roundConstant)
  {
    hide XorLane, AndLane, NotLane, RotateLeft, ColumnLane, StateBits, Rnd;
    var columns := new Lane[5](_ => ZeroLane());
    for x := 0 to 5
      invariant forall k :: 0 <= k < x ==> columns[k] == ColumnLane(input, k)
    {
      columns[x] := XorLane(XorLane(XorLane(XorLane(input[x], input[x + 5]), input[x + 10]), input[x + 15]),
        input[x + 20]);
      assert columns[x] == ColumnLane(input, x) by { ColumnLaneIs(input, x); }
    }
    var theta := ThetaPass(input, columns);
    var permuted := PermutePass(theta);
    output := ChiPass(permuted);
    output := output[0 := XorLane(output[0], LaneOfConstant(roundConstant))];
    ThetaLanesRefine(input);
    PermutedLanesRefine(theta);
    ChiLanesRefine(permuted);
    IotaLanesRefine(ChiLanes(permuted), roundConstant);
    assert Rnd(StateBits(input), roundConstant) == StateBits(output) by { RndIs(StateBits(input), roundConstant); }
  }

  lemma ColumnLaneIs(s: Lanes, x: nat)
    requires x < 5
    ensures ColumnLane(s, x) == XorLane(XorLane(XorLane(XorLane(s[x], s[x + 5]), s[x + 10]), s[x + 15]), s[x + 20])
  {
  }

  lemma RndIs(s: State, constant: nat)
    ensures Rnd(s, constant) == Iota(Chi(Pi(Rho(Theta(s)))), constant)
  {
  }

  method ThetaPass(input: Lanes, columns: array<Lane>) returns (output: Lanes)
    requires columns.Length == 5
    requires forall x :: 0 <= x < 5 ==> columns[x] == ColumnLane(input, x)
    ensures output == ThetaLanes(input)
  {
    hide XorLane, RotateLeft, ColumnLane;
    var theta := new Lane[25](_ => ZeroLane());
    for y := 0 to 5
      invariant forall k :: 0 <= k < 5 * y ==> theta[k] == ThetaLane(input, k)
    {
      for x := 0 to 5
        invariant forall k :: 0 <= k < 5 * y + x ==> theta[k] == ThetaLane(input, k)
      {
        theta[x + 5 * y] := XorLane(XorLane(input[x + 5 * y], columns[(x + 4) % 5]),
          RotateLeft(columns[(x + 1) % 5], 1));
        assert (x + 5 * y) % 5 == x;
      }
    }
    output := theta[..];
  }

  method PermutePass(theta: Lanes) returns (output: Lanes)
    ensures output == PermutedLanes(theta)
  {
    hide RotateLeft, SourceLane, PermutedLane;
    var permuted := new Lane[25](_ => ZeroLane());
    for y := 0 to 5
      invariant forall t :: 0 <= t < 25 && SourceLane(t) < 5 * y ==> permuted[t] == PermutedLane(theta, t)
    {
      for x := 0 to 5
        invariant forall t :: 0 <= t < 25 && SourceLane(t) < 5 * y + x ==> permuted[t] == PermutedLane(theta, t)
      {
        var source := x + 5 * y;
        var targetX := y;
        var targetY := (2 * x + 3 * y) % 5;
        ghost var target := TargetLane(x, y);
        permuted[targetX + 5 * targetY] := RotateLeft(theta[source], RHO[source]);
        SourceOfTarget(x, y);
        PermutedLaneIs(theta, target);
        forall t | 0 <= t < 25 && SourceLane(t) == source
          ensures t == target
        {
          SourceUnique(x, y, t);
        }
      }
    }
    output := permuted[..];
  }

  lemma PermutedLaneIs(theta: Lanes, t: nat)
    requires t < 25
    ensures PermutedLane(theta, t) == RotateLeft(theta[SourceLane(t)], RHO[SourceLane(t)])
  {
  }

  method ChiPass(permuted: Lanes) returns (result: Lanes)
    ensures result == ChiLanes(permuted)
  {
    hide XorLane, AndLane, NotLane, ChiLane;
    var output := new Lane[25](_ => ZeroLane());
    for y := 0 to 5
      invariant forall k :: 0 <= k < 5 * y ==> output[k] == ChiLane(permuted, k)
    {
      for x := 0 to 5
        invariant forall k :: 0 <= k < 5 * y + x ==> output[k] == ChiLane(permuted, k)
      {
        output[x + 5 * y] := XorLane(permuted[x + 5 * y],
                                     AndLane(NotLane(permuted[(x + 1) % 5 + 5 * y]), permuted[(x + 2) % 5 + 5 * y]));
        ChiLaneIs(permuted, x, y);
      }
    }
    result := output[..];
  }

  lemma ChiLaneIs(b: Lanes, x: nat, y: nat)
    requires x < 5 && y < 5
    ensures ChiLane(b, x + 5 * y)
         == XorLane(b[x + 5 * y], AndLane(NotLane(b[(x + 1) % 5 + 5 * y]), b[(x + 2) % 5 + 5 * y]))
  {
    DivMod5(x + 5 * y, y, x);
  }

  /** `keccak_f`: all rounds in order. */
  method Permute(input: Lanes) returns (state: Lanes)
    ensures StateBits(state) == KeccakF(StateBits(input))
  {
    hide Rnd, StateBits;
    state := input;
    for r := 0 to |RC|
      invariant StateBits(state) == Rounds(StateBits(input), 0, r)
    {
      state := Round(state, RC[r]);
    }
  }

  // ----- SHAKE256

  /** XOR one rate block into the first 17 lanes. */
  method AbsorbBlock(state: array<Lane>, block: seq<bv8>)
    requires state.Length == 25 && |block| == RATE_BYTES
    modifies state
    ensures StateBits(state[..]) == XorBlock(old(StateBits(state[..])), BytesBits(block))
  {
    hide XorLane, ByteBits;
    for index := 0 to RATE_BYTES / 8
      invariant forall i :: 0 <= i < index ==> state[i] == XorLane(old(state[i]), BytesBits(block[8 * i..8 * i + 8]))
      invariant forall i :: index <= i < 25 ==> state[i] == old(state[i])
    {
      state[index] := XorLane(state[index], BytesBits(block[8 * index..8 * index + 8]));
    }
    AbsorbedBits(old(state[..]), state[..], block);
  }

  lemma AbsorbedBits(before: Lanes, after: Lanes, block: seq<bv8>)
    requires |block| == RATE_BYTES
    requires forall i :: 0 <= i < 17 ==> after[i] == XorLane(before[i], BytesBits(block[8 * i..8 * i + 8]))
    requires forall i :: 17 <= i < 25 ==> after[i] == before[i]
    ensures StateBits(after) == XorBlock(StateBits(before), BytesBits(block))
  {
    hide BytesBits, XorLane;
    forall k | 0 <= k < 1600
      ensures StateBits(after)[k] == XorBlock(StateBits(before), BytesBits(block))[k]
    {
      if k < 1088 {
        AbsorbedBit(before[k / 64], block, k / 64, k % 64);
      }
    }
  }

  lemma AbsorbedBit(lane: Lane, block: seq<bv8>, i: nat, z: nat)
    requires |block| == RATE_BYTES && i < 17 && z < 64
    ensures XorLane(lane, BytesBits(block[8 * i..8 * i + 8]))[z] == Xor(lane[z], BytesBits(block)[64 * i + z])
  {
    hide BytesBits;
    BytesBitsSlice(block, 8 * i, 8 * i + 8);
    assert BytesBits(block)[8 * (8 * i)..8 * (8 * i + 8)][z] == BytesBits(block)[64 * i + z];
  }

  /** Pad a message shorter than one block: domain bits and pad10*1 as bytes. */
  method PadSingleBlock(message: seq<bv8>) returns (result: seq<bv8>)
    requires |message| < RATE_BYTES
    ensures result == PaddedBlock(message)
  {
    var block := new bv8[RATE_BYTES](_ => 0);
    for i := 0 to |message|
      invariant forall j :: 0 <= j < i ==> block[j] == message[j]
      invariant forall j :: i <= j < RATE_BYTES ==> block[j] == 0
    {
      block[i] := message[i];
    }
    block[|message|] := block[|message|] ^ 0x1f;
    block[RATE_BYTES - 1] := block[RATE_BYTES - 1] ^ 0x80;
    result := block[..];
  }

  function PaddedBlock(message: seq<bv8>): (block: seq<bv8>)
    requires |message| < RATE_BYTES
    ensures |block| == RATE_BYTES
  {
    seq(RATE_BYTES, i requires 0 <= i < RATE_BYTES =>
      if i < |message| then message[i]
      else (if i == |message| then 0x1f else 0) ^ (if i == RATE_BYTES - 1 then 0x80 else 0))
  }

  /** The padded SHAKE256 input of FIPS 202, sections 5.1 and 6.2. */
  function PaddedBits(message: seq<bool>): (padded: seq<bool>) {
    var n := message + [true, true, true, true];
    n + Pad(|n|)
  }

  lemma PaddedBitsBlock(block: seq<bool>, rest: seq<bool>)
    requires |block| == RATE
    ensures PaddedBits(block + rest) == block + PaddedBits(rest)
  {
    var n := rest + [true, true, true, true];
    assert (|n| + 1088) % 1088 == |n| % 1088;
    assert PadZeros(|n| + 1088) == PadZeros(|n|);
    assert block + rest + [true, true, true, true] == block + n;
  }

  lemma PaddedBlockBits(message: seq<bv8>)
    requires |message| < RATE_BYTES
    ensures PaddedBits(BytesBits(message)) == BytesBits(PaddedBlock(message))
  {
    var padded, block := PaddedBits(BytesBits(message)), PaddedBlock(message);
    var m := 8 * |message|;
    assert PadZeros(m + 4) == 1088 - 6 - m;
    DomainBytes();
    hide ByteBits;
    forall k | 0 <= k < RATE
      ensures padded[k] == BytesBits(block)[k]
    {
      assert BytesBits(block)[k] == ByteBits(block[k / 8])[k % 8];
      if k < m {
        assert padded[k] == BytesBits(message)[k];
      } else {
        assert padded[k] == (k < m + 5 || k == 1087);
        assert k / 8 == |message| <==> k < m + 8;
        assert k / 8 == 135 <==> k >= 1080;
      }
    }
  }

  lemma DomainBytes()
    ensures ByteBits(0) == [false, false, false, false, false, false, false, false]
    ensures ByteBits(0x1f) == [true, true, true, true, true, false, false, false]
    ensures ByteBits(0x80) == [false, false, false, false, false, false, false, true]
    ensures ByteBits(0x1f ^ 0x80) == [true, true, true, true, true, false, false, true]
    ensures (0x1f as bv8) ^ 0 == 0x1f && (0 as bv8) ^ 0x80 == 0x80 && (0 as bv8) ^ 0 == 0
  {
  }

  method SetState(state: array<Lane>, lanes: Lanes)
    requires state.Length == 25
    modifies state
    ensures state[..] == lanes
  {
    forall i | 0 <= i < 25 {
      state[i] := lanes[i];
    }
  }

  /** `shake256`: the byte-level function computes the FIPS 202 one. */
  method Shake256Native(message: seq<bv8>, outputLength: nat) returns (result: seq<bv8>)
    ensures result == Shake256(message, outputLength)
  {
    hide KeccakF, StateBits, Absorb, PaddedBits, PaddedBlock, BytesBits, Squeeze, ByteBits, XorBlock;
    var state := new Lane[25](_ => ZeroLane());
    var blocks := |message| / RATE_BYTES;
    ghost var absorbed := Absorb(ZeroState(), PaddedBits(BytesBits(message)));
    StateStartsZero(state[..]);
    assert message[0..] == message;
    for i := 0 to blocks
      invariant absorbed == Absorb(StateBits(state[..]), PaddedBits(BytesBits(message[RATE_BYTES * i..])))
    {
      var block := message[RATE_BYTES * i..RATE_BYTES * i + RATE_BYTES];
      assert message[RATE_BYTES * i..] == block + message[RATE_BYTES * (i + 1)..];
      AbsorbStep(StateBits(state[..]), block, message[RATE_BYTES * (i + 1)..]);
      AbsorbBlock(state, block);
      var next := Permute(state[..]);
      SetState(state, next);
    }
    var remainder := message[RATE_BYTES * blocks..];
    var finalBlock := PadSingleBlock(remainder);
    AbsorbLast(StateBits(state[..]), remainder);
    AbsorbBlock(state, finalBlock);
    var absorbedLanes := Permute(state[..]);
    SetState(state, absorbedLanes);
    assert StateBits(state[..]) == absorbed;
    result := SqueezeNative(state, outputLength);
    Shake256Is(message, outputLength);
  }

  lemma Shake256Is(message: seq<bv8>, length: nat)
    ensures Shake256(message, length)
         == BitsBytes(Squeeze(Absorb(ZeroState(), PaddedBits(BytesBits(message))), 8 * length))
  {
  }

  lemma StateStartsZero(s: Lanes)
    requires forall i :: 0 <= i < 25 ==> s[i] == ZeroLane()
    ensures StateBits(s) == ZeroState()
  {
  }

  lemma AbsorbStep(s: State, block: seq<bv8>, rest: seq<bv8>)
    requires |block| == RATE_BYTES
    ensures Absorb(s, PaddedBits(BytesBits(block + rest)))
         == Absorb(KeccakF(XorBlock(s, BytesBits(block))), PaddedBits(BytesBits(rest)))
  {
    hide KeccakF, PaddedBits, XorBlock, ByteBits;
    BytesBitsConcat(block, rest);
    PaddedBitsBlock(BytesBits(block), BytesBits(rest));
    var padded := BytesBits(block) + PaddedBits(BytesBits(rest));
    assert padded[..RATE] == BytesBits(block);
    assert padded[RATE..] == PaddedBits(BytesBits(rest));
  }

  lemma AbsorbLast(s: State, message: seq<bv8>)
    requires |message| < RATE_BYTES
    ensures Absorb(s, PaddedBits(BytesBits(message))) == KeccakF(XorBlock(s, BytesBits(PaddedBlock(message))))
  {
    hide KeccakF, PaddedBits, PaddedBlock, XorBlock, ByteBits;
    PaddedBlockBits(message);
    var padded := BytesBits(PaddedBlock(message));
    assert padded[..RATE] == padded && padded[RATE..] == [];
    assert Absorb(KeccakF(XorBlock(s, padded)), []) == KeccakF(XorBlock(s, padded));
  }

  /** The output loop: one chunk of at most 136 bytes a time, with a permutation
      after every full chunk, also after a full last one. */
  method SqueezeNative(state: array<Lane>, outputLength: nat) returns (result: seq<bv8>)
    requires state.Length == 25
    modifies state
    ensures result == BitsBytes(Squeeze(old(StateBits(state[..])), 8 * outputLength))
  {
    hide KeccakF, StateBits, BytesBits, Squeeze, StateByte;
    var output := new bv8[outputLength](_ => 0);
    var offset := 0;
    ghost var start := StateBits(state[..]);
    assert output[..0] == [];
    assert BytesBits([]) == [] by { BitsOfNothing(); }
    while offset < outputLength
      invariant offset <= outputLength
      invariant BytesBits(output[..offset]) + Squeeze(StateBits(state[..]), 8 * (outputLength - offset))
             == Squeeze(start, 8 * outputLength)
      decreases outputLength - offset
    {
      var length := if outputLength - offset < RATE_BYTES then outputLength - offset else RATE_BYTES;
      ghost var lanes := state[..];
      ghost var bits := StateBits(lanes);
      ghost var done := output[..offset];
      WriteChunk(state[..], output, offset, length);
      ghost var chunk := output[offset..offset + length];
      ChunkBits(lanes, chunk);
      assert output[..offset + length] == done + chunk;
      BytesBitsConcat(done, chunk);
      SqueezeStep(bits, length, outputLength - offset);
      Reassociate(BytesBits(done), bits[..8 * length],
                  Squeeze(if length == RATE_BYTES then KeccakF(bits) else bits, 8 * (outputLength - offset - length)));
      ghost var left := outputLength - offset - length;
      assert BytesBits(done + chunk) + Squeeze(if length == RATE_BYTES then KeccakF(bits) else bits, 8 * left)
          == Squeeze(start, 8 * outputLength);
      if length == RATE_BYTES {
        var next := Permute(state[..]);
        SetState(state, next);
      }
      assert StateBits(state[..]) == if length == RATE_BYTES then KeccakF(bits) else bits;
      offset := offset + length;
      assert output[..offset] == done + chunk;
    }
    assert output[..offset] == output[..];
    SqueezeNothing(StateBits(state[..]));
    result := output[..];
    assert BytesBits(result) == BytesBits(result) + [];
    BitsBytesInverse(result);
  }

  /** Copy the first bytes of the state into one chunk of the output. */
  method WriteChunk(lanes: Lanes, output: array<bv8>, offset: nat, length: nat)
    requires offset + length <= output.Length && length <= RATE_BYTES
    modifies output
    ensures output[..offset] == old(output[..offset])
    ensures forall i :: 0 <= i < length ==> output[offset..offset + length][i] == StateByte(lanes, i)
  {
    for index := 0 to length
      invariant output[..offset] == old(output[..offset])
      invariant forall i :: 0 <= i < index ==> output[offset + i] == StateByte(lanes, i)
    {
      output[offset + index] := BitsBytes(lanes[index / 8])[index % 8];
    }
  }

  /** Byte `index` of the little-endian lanes. */
  function StateByte(s: Lanes, index: nat): (r: bv8)
    requires index < 200
  {
    BitsBytes(s[index / 8])[index % 8]
  }

  lemma BitsOfNothing()
    ensures BytesBits([]) == []
  {
  }

  lemma Reassociate(a: seq<bool>, b: seq<bool>, c: seq<bool>)
    ensures (a + b) + c == a + (b + c)
  {
  }

  lemma SqueezeNothing(s: State)
    ensures Squeeze(s, 0) == []
  {
  }

  lemma SqueezeStep(s: State, length: nat, remaining: nat)
    requires length == if remaining < RATE_BYTES then remaining else RATE_BYTES
    ensures Squeeze(s, 8 * remaining)
         == s[..8 * length] + Squeeze(if length == RATE_BYTES then KeccakF(s) else s, 8 * (remaining - length))
  {
    hide KeccakF;
    assert Squeeze(s, 0) == [];
    assert Squeeze(KeccakF(s), 0) == [];
  }

  lemma ChunkBits(s: Lanes, chunk: seq<bv8>)
    requires |chunk| <= RATE_BYTES
    requires forall i :: 0 <= i < |chunk| ==> chunk[i] == StateByte(s, i)
    ensures BytesBits(chunk) == StateBits(s)[..8 * |chunk|]
  {
    hide ByteBits, StateByte, StateBits;
    forall k | 0 <= k < 8 * |chunk|
      ensures BytesBits(chunk)[k] == StateBits(s)[k]
    {
      assert chunk[k / 8] == StateByte(s, k / 8);
      StateByteBit(s, k / 8, k % 8);
    }
  }

  lemma StateByteBit(s: Lanes, index: nat, bit: nat)
    requires index < 200 && bit < 8
    ensures ByteBits(StateByte(s, index))[bit] == StateBits(s)[8 * index + bit]
  {
    hide ByteBits, ByteOfBits;
    var lane, j := s[index / 8], index % 8;
    ByteBitsOfByte(lane[8 * j..8 * j + 8]);
    assert (8 * index + bit) / 64 == index / 8 && (8 * index + bit) % 64 == 8 * j + bit;
    assert lane[8 * j..8 * j + 8][bit] == lane[8 * j + bit];
  }

  // ----- Messages that fit in one block

  /** The state a single-block message is absorbed into, as bits. */
  function InitialBits(message: seq<bool>): (t: State)
    requires |message| % 8 == 0 && |message| < RATE
  {
    PaddedBits(message) + seq(512, i => false)
  }

  lemma InitialBitsIsAbsorb(message: seq<bv8>)
    requires |message| < RATE_BYTES
    ensures InitialBits(BytesBits(message)) == XorBlock(ZeroState(), BytesBits(PaddedBlock(message)))
  {
    hide ByteBits, PaddedBits, PaddedBlock;
    PaddedBlockBits(message);
  }

  /** One block in, at most one block out: SHAKE256 is a prefix of one permutation. */
  lemma Shake256SingleBlock(message: seq<bv8>, length: nat)
    requires |message| < RATE_BYTES && length <= RATE_BYTES
    ensures BytesBits(Shake256(message, length)) == KeccakF(InitialBits(BytesBits(message)))[..8 * length]
  {
    hide KeccakF, Absorb, PaddedBits, PaddedBlock, InitialBits, ByteBits, XorBlock;
    Shake256Is(message, length);
    AbsorbLast(ZeroState(), message);
    InitialBitsIsAbsorb(message);
    BytesBitsInverse(KeccakF(InitialBits(BytesBits(message)))[..8 * length]);
  }
}
