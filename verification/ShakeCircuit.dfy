/** The whole SHAKE256 gadget for messages shorter than one block: six
    checkpoints, each forced to be the native state four rounds later. */
module ShakeCircuit {
  import opened Bits
  import opened Fips202
  import opened Keccak
  import opened Constraints
  import opened KeccakCircuit

  const GROUPS: nat := 6

  // ----- The absorbed state as wires

  function InitialWires<F>(f: Field<F>, message: seq<Wire<F>>): (ws: seq<Wire<F>>)
    requires |message| % 8 == 0 && |message| < RATE
    ensures |ws| == 1600
  {
    seq(1600, k requires 0 <= k < 1600 =>
      if k < |message| then message[k]
      else if k < |message| + 5 || k == RATE - 1 then Constant(f.one)
      else Constant(f.zero))
  }

  method InitialSpongeState<F>(backend: Backend<F>, message: seq<Wire<F>>) returns (result: seq<Wire<F>>)
    requires |message| % 8 == 0 && |message| < RATE
    ensures result == InitialWires(backend.field, message)
  {
    hide ByteBits;
    var state := new Wire<F>[1600](_ => Constant(backend.field.zero));
    for i := 0 to |message|
      invariant forall k :: 0 <= k < i ==> state[k] == message[k]
      invariant forall k :: i <= k < 1600 ==> state[k] == Constant(backend.field.zero)
    {
      state[i] := message[i];
    }
    var messageByte := |message| / 8;
    assert 8 * messageByte == |message|;
    DomainBytes();
    for bit := 0 to 8
      invariant forall k :: 0 <= k < |message| ==> state[k] == message[k]
      invariant forall k :: |message| <= k < 1600 ==>
        state[k] == Constant(if k < |message| + bit && k < |message| + 5 then backend.field.one else backend.field.zero)
    {
      if ByteBits(0x1f)[bit] {
        state[messageByte * 8 + bit] := Constant(backend.field.one);
      }
    }
    state[RATE_BYTES * 8 - 1] := Constant(backend.field.one);
    result := state[..];
  }

  lemma InitialWiresBits<F(!new)>(f: Field<F>, message: seq<Wire<F>>, wit: seq<bool>)
    requires LawfulField(f) && |message| % 8 == 0 && |message| < RATE && AreBitWires(f, message)
    ensures AreBitWires(f, InitialWires(f, message))
    ensures WireBits(f, InitialWires(f, message), wit) == InitialBits(WireBits(f, message, wit))
  {
    var m := |message|;
    assert PadZeros(m + 4) == 1088 - 6 - m;
    var bits := InitialBits(WireBits(f, message, wit));
    forall k | 0 <= k < 1600
      ensures WireBit(f, InitialWires(f, message)[k], wit) == bits[k]
    {
      if k < m {
      } else if k < RATE {
        assert bits[k] == (k < m + 5 || k == 1087);
      }
    }
  }

  // ----- Assertions

  function WireExprs<F>(ws: seq<Wire<F>>): (s: seq<Expr<F>>)
    ensures |s| == |ws|
  {
    seq(|ws|, k requires 0 <= k < |ws| => OfWire(ws[k]))
  }

  function GroupExprs<F>(f: Field<F>, state: seq<Wire<F>>, group: nat): (s: seq<Expr<F>>)
    requires |state| == 1600 && group < GROUPS
    ensures |s| == 1600
  {
    ExprRounds(f, WireExprs(state), 4 * group, 4)
  }

  function DifferenceAssertions<F>(computed: seq<Expr<F>>, committed: seq<Wire<F>>): (a: seq<Assertion<F>>)
    requires |computed| == |committed|
    ensures |a| == |computed|
  {
    seq(|computed|, k requires 0 <= k < |computed| => ExprZero(Plus(computed[k], OfWire(committed[k]))))
  }

  /** The state wires entering a group: the absorbed block, then checkpoints. */
  function GroupState<F>(start: seq<Wire<F>>, cursor: nat, group: nat): (ws: seq<Wire<F>>)
    requires |start| == 1600
    ensures |ws| == 1600
  {
    if group == 0 then start else Inputs(cursor + 1600 * (group - 1), 1600)
  }

  function GroupAssertions<F>(f: Field<F>, start: seq<Wire<F>>, cursor: nat,
                              group: nat): (assertions: seq<Assertion<F>>)
    requires |start| == 1600 && group < GROUPS
  {
    DifferenceAssertions(GroupExprs(f, GroupState(start, cursor, group), group), Inputs(cursor + 1600 * group, 1600))
  }

  function ShakeAssertions<F>(f: Field<F>, start: seq<Wire<F>>, cursor: nat,
                              groups: nat): (assertions: seq<Assertion<F>>)
    requires |start| == 1600 && groups <= GROUPS
  {
    if groups == 0 then []
    else ShakeAssertions(f, start, cursor, groups - 1) + GroupAssertions(f, start, cursor, groups - 1)
  }

  /** The wires of the final state. */
  function ShakeOutput<F>(cursor: nat): (ws: seq<Wire<F>>)
    ensures |ws| == 1600
  {
    Inputs(cursor + 8000, 1600)
  }

  method AllocBits<F>(backend: Backend<F>, count: nat) returns (wires: seq<Wire<F>>)
    modifies backend
    ensures wires == Inputs(old(backend.inputs), count)
    ensures backend.inputs == old(backend.inputs) + count && backend.assertions == old(backend.assertions)
  {
    wires := [];
    for i := 0 to count
      invariant wires == Inputs(old(backend.inputs), i)
      invariant backend.inputs == old(backend.inputs) + i && backend.assertions == old(backend.assertions)
    {
      var wire := backend.WitnessBit();
      wires := wires + [wire];
    }
  }

  method ShakeDegree16<F>(backend: Backend<F>, message: seq<Wire<F>>) returns (state: seq<Wire<F>>)
    requires |message| % 8 == 0 && |message| < RATE
    modifies backend
    ensures state == ShakeOutput(old(backend.inputs))
    ensures backend.inputs == old(backend.inputs) + CHECKPOINT_BITS
    ensures backend.assertions == old(backend.assertions)
      + ShakeAssertions(backend.field, InitialWires(backend.field, message), old(backend.inputs), GROUPS)
  {
    hide RoundExprs, InitialWires, ExprRounds, Inputs, DifferenceAssertions;
    state := InitialSpongeState(backend, message);
    ghost var start := state;
    ghost var cursor := backend.inputs;
    for group := 0 to |RC| / 4
      invariant state == GroupState(start, cursor, group)
      invariant backend.inputs == cursor + 1600 * group
      invariant backend.assertions == old(backend.assertions) + ShakeAssertions(backend.field, start, cursor, group)
    {
      ghost var before := backend.assertions;
      var checkpoint := AllocBits(backend, 1600);
      var expression := WireExprs(state);
      NoRounds(backend.field, WireExprs(state), 4 * group);
      for round := 0 to 4
        invariant |expression| == 1600
        invariant expression == ExprRounds(backend.field, WireExprs(state), 4 * group, round)
        invariant backend.assertions == before && backend.inputs == cursor + 1600 * (group + 1)
      {
        expression := KeccakRoundExpr(backend, expression, RC[4 * group + round]);
        OneMoreRound(backend.field, WireExprs(state), 4 * group, round);
      }
      AssertDifferences(backend, expression, checkpoint);
      assert DifferenceAssertions(expression, checkpoint) == GroupAssertions(backend.field, start, cursor, group);
      state := checkpoint;
    }
  }

  /** Assert that every computed bit equals the committed one. */
  method AssertDifferences<F>(backend: Backend<F>, computed: seq<Expr<F>>, committed: seq<Wire<F>>)
    requires |computed| == |committed|
    modifies backend
    ensures backend.inputs == old(backend.inputs)
    ensures backend.assertions == old(backend.assertions) + DifferenceAssertions(computed, committed)
  {
    ghost var all := DifferenceAssertions(computed, committed);
    for k := 0 to |computed|
      invariant backend.inputs == old(backend.inputs)
      invariant backend.assertions == old(backend.assertions) + all[..k]
    {
      var difference := Plus(computed[k], OfWire(committed[k]));
      backend.AssertExprZero(difference);
      assert all[..k + 1] == all[..k] + [ExprZero(difference)];
    }
    assert all[..|computed|] == all;
  }

  lemma NoRounds<F>(f: Field<F>, s: seq<Expr<F>>, first: nat)
    requires |s| == 1600 && first <= |RC|
    ensures ExprRounds(f, s, first, 0) == s
  {
  }

  lemma OneMoreRound<F>(f: Field<F>, s: seq<Expr<F>>, first: nat, count: nat)
    requires |s| == 1600 && first + count < |RC|
    ensures ExprRounds(f, s, first, count + 1) == RoundExprs(f, ExprRounds(f, s, first, count), RC[first + count])
  {
    hide RoundExprs;
  }

  function OutputAssertions<F>(actual: seq<Wire<F>>, expected: seq<Wire<F>>): (a: seq<Assertion<F>>)
    requires |expected| <= |actual|
    ensures |a| == |expected|
  {
    seq(|expected|, k requires 0 <= k < |expected| => WireZero(Sum(actual[k], expected[k])))
  }

  method ShakeAssertOutput<F>(backend: Backend<F>, message: seq<Wire<F>>, expected: seq<Wire<F>>)
    requires |message| % 8 == 0 && |message| < RATE && |expected| <= 1600
    modifies backend
    ensures backend.inputs == old(backend.inputs) + CHECKPOINT_BITS
    ensures backend.assertions == old(backend.assertions)
      + ShakeAssertions(backend.field, InitialWires(backend.field, message), old(backend.inputs), GROUPS)
      + OutputAssertions(ShakeOutput(old(backend.inputs)), expected)
  {
    hide ShakeAssertions, ShakeOutput, InitialWires;
    var state := ShakeDegree16(backend, message);
    ghost var before := backend.assertions;
    ghost var all := OutputAssertions(state, expected);
    for k := 0 to |expected|
      invariant backend.assertions == before + all[..k]
      invariant backend.inputs == old(backend.inputs) + CHECKPOINT_BITS
    {
      backend.AssertZero(Sum(state[k], expected[k]));
      assert all[..k + 1] == all[..k] + [WireZero(Sum(state[k], expected[k]))];
    }
    assert all[..|expected|] == all;
  }

  // ----- Native checkpoints

  /** The first `groups` checkpoints of a run of the permutation from s. */
  function Checkpoints(s: State, groups: nat): (bits: seq<bool>)
    requires groups <= GROUPS
    ensures |bits| == 1600 * groups
  {
    if groups == 0 then [] else Checkpoints(s, groups - 1) + Rounds(s, 0, 4 * groups)
  }

  /** A witness buffer that the appending functions of the source extend. */
  class WitnessBuffer {
    var bits: seq<bool>

    constructor ()
      ensures bits == []
    {
      bits := [];
    }

    method AppendBytesBits(bytes: seq<bv8>)
      modifies this
      ensures bits == old(bits) + BytesBits(bytes)
    {
      hide ByteBits;
      var i := 0;
      assert bytes[..0] == [];
      while i < |bytes|
        invariant i <= |bytes|
        invariant bits == old(bits) + BytesBits(bytes[..i])
      {
        bits := bits + ByteBits(bytes[i]);
        assert bytes[..i + 1] == bytes[..i] + [bytes[i]];
        BytesBitsConcat(bytes[..i], [bytes[i]]);
        assert BytesBits([bytes[i]]) == ByteBits(bytes[i]);
        i := i + 1;
      }
      assert bytes[..i] == bytes;
    }

    method AppendGf16Bits(values: seq<bv4>)
      modifies this
      ensures bits == old(bits) + NibblesBits(values)
    {
      hide NibbleBits;
      var i := 0;
      while i < |values|
        invariant i <= |values|
        invariant bits == old(bits) + NibblesBits(values)[..4 * i]
      {
        bits := bits + NibbleBits(values[i]);
        assert NibblesBits(values)[..4 * (i + 1)] == NibblesBits(values)[..4 * i] + NibbleBits(values[i]);
        i := i + 1;
      }
      assert NibblesBits(values)[..4 * i] == NibblesBits(values);
    }

    method AppendU32Bits(value: U32)
      modifies this
      ensures bits == old(bits) + NatBits(value, 32)
    {
      hide NatBits;
      for bit := 0 to 32
        invariant bits == old(bits) + NatBits(value, 32)[..bit]
      {
        bits := bits + [NatBits(value, 32)[bit]];
      }
      assert NatBits(value, 32)[..32] == NatBits(value, 32);
    }

    /** `append_keccak_checkpoints`: every fourth native state. */
    method AppendKeccakCheckpoints(message: seq<bv8>)
      requires |message| < RATE_BYTES
      modifies this
      ensures bits == old(bits) + Checkpoints(InitialBits(BytesBits(message)), GROUPS)
    {
      hide Rnd, StateBits, InitialBits, PaddedBlock, XorBlock, BytesBits, Checkpoints, ZeroState, Rounds;
      var block := PadSingleBlock(message);
      var state := new Lane[25](_ => ZeroLane());
      StateStartsZero(state[..]);
      AbsorbBlock(state, block);
      InitialBitsIsAbsorb(message);
      ghost var start := InitialBits(BytesBits(message));
      var lanes: Lanes := state[..];
      NoCheckpoints(start);
      NoRoundsYet(start);
      ghost var groups := 0;
      for roundIndex := 0 to |RC|
        invariant StateBits(lanes) == Rounds(start, 0, roundIndex)
        invariant 4 * groups <= roundIndex < 4 * groups + 4
        invariant bits == old(bits) + Checkpoints(start, groups)
      {
        lanes := Round(lanes, RC[roundIndex]);
        NextRound(start, roundIndex);
        if (roundIndex + 1) % 4 == 0 {
          bits := bits + StateBits(lanes);
          NextCheckpoint(start, groups);
          groups := groups + 1;
        }
      }
    }
  }

  lemma NoCheckpoints(s: State)
    ensures Checkpoints(s, 0) == []
  {
  }

  lemma NextCheckpoint(s: State, groups: nat)
    requires groups < GROUPS
    ensures Checkpoints(s, groups + 1) == Checkpoints(s, groups) + Rounds(s, 0, 4 * (groups + 1))
  {
    hide Rounds;
  }

  // ----- Meaning of the gadget

  lemma WireExprsBits<F>(f: Field<F>, ws: seq<Wire<F>>, wit: seq<bool>)
    requires |ws| == 1600 && AreBitWires(f, ws)
    ensures AreBitExprs(f, WireExprs(ws))
    ensures ExprBits(f, WireExprs(ws), wit) == WireBits(f, ws, wit)
  {
  }

  lemma DifferencesHold<F(!new)>(sys: System<F>, computed: seq<Expr<F>>, committed: seq<Wire<F>>, wit: seq<bool>)
    requires LawfulField(sys.field) && |computed| == |committed| == 1600
    requires AreBitExprs(sys.field, computed) && AreBitWires(sys.field, committed)
    ensures AllHold(sys, DifferenceAssertions(computed, committed), wit)
       <==> WireBits(sys.field, committed, wit) == ExprBits(sys.field, computed, wit)
  {
    var f := sys.field;
    var a := DifferenceAssertions(computed, committed);
    forall k | 0 <= k < 1600
      ensures Holds(sys, a[k], wit) <==> WireBits(f, committed, wit)[k] == ExprBits(f, computed, wit)[k]
    {
      ExprBitValue(f, Plus(computed[k], OfWire(committed[k])), wit);
    }
    if AllHold(sys, a, wit) {
      forall k | 0 <= k < 1600
        ensures WireBits(f, committed, wit)[k] == ExprBits(f, computed, wit)[k]
      {
        assert Holds(sys, a[k], wit);
      }
    }
  }

  lemma OutputsHold<F(!new)>(sys: System<F>, actual: seq<Wire<F>>, expected: seq<Wire<F>>, wit: seq<bool>)
    requires LawfulField(sys.field) && |expected| <= |actual|
    requires AreBitWires(sys.field, actual) && AreBitWires(sys.field, expected)
    ensures AllHold(sys, OutputAssertions(actual, expected), wit)
       <==> WireBits(sys.field, actual, wit)[..|expected|] == WireBits(sys.field, expected, wit)
  {
    var f := sys.field;
    var a := OutputAssertions(actual, expected);
    forall k | 0 <= k < |expected|
      ensures Holds(sys, a[k], wit) <==> WireBits(f, actual, wit)[k] == WireBits(f, expected, wit)[k]
    {
      WireBitValue(f, actual[k], wit);
      WireBitValue(f, expected[k], wit);
    }
    if AllHold(sys, a, wit) {
      forall k | 0 <= k < |expected|
        ensures WireBits(f, actual, wit)[k] == WireBits(f, expected, wit)[k]
      {
        assert Holds(sys, a[k], wit);
      }
    } else {
      var k :| 0 <= k < |a| && !Holds(sys, a[k], wit);
      assert WireBits(f, actual, wit)[..|expected|][k] == WireBits(f, actual, wit)[k];
    }
  }

  lemma GroupHolds<F(!new)>(sys: System<F>, state: seq<Wire<F>>, here: nat, group: nat, wit: seq<bool>)
    requires LawfulField(sys.field) && |state| == 1600 && AreBitWires(sys.field, state)
    requires group < GROUPS && here + 1600 <= |wit|
    ensures AllHold(sys, DifferenceAssertions(GroupExprs(sys.field, state, group), Inputs(here, 1600)), wit)
       <==> wit[here..here + 1600] == Rounds(WireBits(sys.field, state, wit), 4 * group, 4)
  {
    hide Rounds, ExprRounds, DifferenceAssertions, WireExprs, WireBits, ExprBits, AllHold, Inputs;
    var f := sys.field;
    InputsBits(f, here, 1600, wit);
    WireExprsBits(f, state, wit);
    ExprRoundsRefine(f, WireExprs(state), 4 * group, 4, wit);
    DifferencesHold(sys, GroupExprs(f, state, group), Inputs(here, 1600), wit);
  }

  /** Once the earlier checkpoints are native, so is the state entering a group. */
  lemma GroupStateBits<F>(f: Field<F>, start: seq<Wire<F>>, cursor: nat, group: nat, wit: seq<bool>)
    requires |start| == 1600 && AreBitWires(f, start) && group < GROUPS && cursor + 1600 * group <= |wit|
    requires wit[cursor..cursor + 1600 * group] == Checkpoints(WireBits(f, start, wit), group)
    ensures AreBitWires(f, GroupState(start, cursor, group))
    ensures WireBits(f, GroupState(start, cursor, group), wit) == Rounds(WireBits(f, start, wit), 0, 4 * group)
  {
    hide Rounds, Checkpoints, WireBits, Inputs;
    var s := WireBits(f, start, wit);
    if group == 0 {
      NoRoundsYet(s);
    } else {
      var before := cursor + 1600 * (group - 1);
      var here := cursor + 1600 * group;
      assert here == before + 1600;
      InputsBits(f, before, 1600, wit);
      NextCheckpoint(s, group - 1);
      assert wit[cursor..before] + wit[before..here] == wit[cursor..here];
      ConcatEqual(wit[cursor..before], wit[before..here], Checkpoints(s, group - 1), Rounds(s, 0, 4 * group));
    }
  }

  lemma NextRound(s: State, r: nat)
    requires r < |RC|
    ensures Rounds(s, 0, r + 1) == Rnd(Rounds(s, 0, r), RC[r])
  {
    hide Rnd;
  }

  lemma NoRoundsYet(s: State)
    ensures Rounds(s, 0, 0) == s
  {
  }

  /** All assertions of the gadget hold exactly when the checkpoint bits of the
      witness are the native states: every checkpoint is forced. */
  lemma {:induction false} ShakeHolds<F(!new)>(sys: System<F>, start: seq<Wire<F>>, cursor: nat, groups: nat,
                                               wit: seq<bool>)
    requires LawfulField(sys.field) && |start| == 1600 && AreBitWires(sys.field, start)
    requires groups <= GROUPS && cursor + 1600 * groups <= |wit|
    ensures AllHold(sys, ShakeAssertions(sys.field, start, cursor, groups), wit)
       <==> wit[cursor..cursor + 1600 * groups] == Checkpoints(WireBits(sys.field, start, wit), groups)
  {
    hide Rounds, DifferenceAssertions, GroupExprs, GroupState, WireBits, Inputs, Checkpoints, AllHold;
    var f := sys.field;
    var s := WireBits(f, start, wit);
    if groups == 0 {
      NoCheckpoints(s);
      NothingHolds(sys, wit);
    } else {
      var last := groups - 1;
      var here := cursor + 1600 * last;
      ShakeHolds(sys, start, cursor, last, wit);
      AllHoldConcat(sys, ShakeAssertions(f, start, cursor, last), GroupAssertions(f, start, cursor, last), wit);
      var init, tail := wit[cursor..here], wit[here..here + 1600];
      if init == Checkpoints(s, last) {
        GroupStateBits(f, start, cursor, last, wit);
        GroupHolds(sys, GroupState(start, cursor, last), here, last, wit);
        RoundsCompose(s, 0, 4 * last, 4);
      }
      assert wit[cursor..cursor + 1600 * groups] == init + tail;
      NextCheckpoint(s, last);
      ConcatEqual(init, tail, Checkpoints(s, last), Rounds(s, 0, 4 * groups));
    }
  }

  lemma NothingHolds<F>(sys: System<F>, wit: seq<bool>)
    ensures AllHold(sys, [], wit)
  {
  }

  lemma ConcatEqual(a: seq<bool>, b: seq<bool>, c: seq<bool>, d: seq<bool>)
    requires |a| == |c|
    ensures a + b == c + d <==> a == c && b == d
  {
    if a + b == c + d {
      assert a == (a + b)[..|a|] && b == (a + b)[|a|..];
      assert c == (c + d)[..|c|] && d == (c + d)[|c|..];
    }
  }

  /** With forced checkpoints, the output wires carry the permuted state. */
  lemma ShakeOutputBits<F>(f: Field<F>, s: State, cursor: nat, wit: seq<bool>)
    requires cursor + CHECKPOINT_BITS <= |wit|
    requires wit[cursor..cursor + CHECKPOINT_BITS] == Checkpoints(s, GROUPS)
    ensures AreBitWires(f, ShakeOutput<F>(cursor))
    ensures WireBits(f, ShakeOutput<F>(cursor), wit) == KeccakF(s)
  {
    hide Rounds;
    InputsBits(f, cursor + 8000, 1600, wit);
    var all := wit[cursor..cursor + 9600];
    assert all[8000..] == wit[cursor + 8000..cursor + 9600];
    LastOfSix(s);
  }

  lemma LastOfSix(s: State)
    ensures Checkpoints(s, GROUPS)[8000..] == KeccakF(s)
  {
    hide Rounds;
    assert Checkpoints(s, GROUPS) == Checkpoints(s, 5) + Rounds(s, 0, 24);
  }

  // ----- Degree

  lemma GroupDegree<F>(f: Field<F>, start: seq<Wire<F>>, cursor: nat, group: nat)
    requires |start| == 1600 && WiresLinear(start) && group < GROUPS
    ensures AllDegreesAtMost(GroupAssertions(f, start, cursor, group), 16)
  {
    hide ExprRounds;
    var state := GroupState(start, cursor, group);
    assert WiresLinear(state);
    ExprRoundsDegree(f, WireExprs(state), 4 * group, 4);
    assert Pow2(4) == 16;
    var computed, committed := GroupExprs(f, state, group), Inputs<F>(cursor + 1600 * group, 1600);
    forall k | 0 <= k < 1600
      ensures Degree(Plus(computed[k], OfWire(committed[k]))) <= 16
    {
    }
  }

  /** Four rounds between checkpoints keep every assertion at degree 16. */
  lemma {:induction false} ShakeDegree<F>(f: Field<F>, start: seq<Wire<F>>, cursor: nat, groups: nat)
    requires |start| == 1600 && WiresLinear(start) && groups <= GROUPS
    ensures AllDegreesAtMost(ShakeAssertions(f, start, cursor, groups), 16)
  {
    hide GroupAssertions;
    if groups == 0 {
    } else {
      ShakeDegree(f, start, cursor, groups - 1);
      GroupDegree(f, start, cursor, groups - 1);
    }
  }

  lemma InitialWiresLinear<F>(f: Field<F>, message: seq<Wire<F>>)
    requires |message| % 8 == 0 && |message| < RATE && WiresLinear(message)
    ensures WiresLinear(InitialWires(f, message))
  {
  }
}
