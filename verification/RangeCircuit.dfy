/** The strict comparison `value < limit`: a ripple carry for value + !limit + 1
    whose last carry is constrained to zero. Proved for every bit width. */
module RangeCircuit {
  import opened Bits
  import opened Constraints
  import opened ShakeCircuit

  // ----- The carry chain on bits

  function Majority(a: bool, b: bool, c: bool): (bit: bool) {
    (a && b) || (a && c) || (b && c)
  }

  /** Carry out of the low `count` bits of value + !limit + 1. */
  function Carry(value: seq<bool>, limit: seq<bool>, count: nat): (bit: bool)
    requires count <= |value| == |limit|
  {
    if count == 0 then true
    else Majority(value[count - 1], !limit[count - 1], Carry(value, limit, count - 1))
  }

  function Carries(value: seq<bool>, limit: seq<bool>): (carries: seq<bool>)
    requires |value| == |limit|
    ensures |carries| == |value|
  {
    seq(|value|, j requires 0 <= j < |value| => Carry(value, limit, j + 1))
  }

  /** The carry out of the low j bits is one exactly when the value, cut to j
      bits, is at least the limit cut to j bits; equivalently the truncated sum
      with the complement overflows. */
  lemma {:induction false} CarryCompares(value: seq<bool>, limit: seq<bool>, count: nat)
    requires count <= |value| == |limit|
    ensures Carry(value, limit, count) <==> NatOfBits(value[..count]) >= NatOfBits(limit[..count])
    ensures Carry(value, limit, count)
       <==> NatOfBits(value[..count]) + (Pow2(count) - 1 - NatOfBits(limit[..count])) + 1 >= Pow2(count)
    decreases count
  {
    if count == 0 {
    } else {
      CarryCompares(value, limit, count - 1);
      LastBit(value, count);
      LastBit(limit, count);
    }
  }

  lemma LastBit(bits: seq<bool>, count: nat)
    requires 0 < count <= |bits|
    ensures NatOfBits(bits[..count]) == NatOfBits(bits[..count - 1]) + (if bits[count - 1] then Pow2(count - 1) else 0)
    ensures NatOfBits(bits[..count - 1]) < Pow2(count - 1)
  {
    hide NatOfBits;
    assert bits[..count] == bits[..count - 1] + [bits[count - 1]];
    NatOfBitsConcat(bits[..count - 1], [bits[count - 1]]);
    NatOfOneBit(bits[count - 1]);
  }

  lemma NatOfOneBit(bit: bool)
    ensures NatOfBits([bit]) == if bit then 1 else 0
  {
    assert [bit][1..] == [];
  }

  // ----- 32-bit words

  /** `!limit` on 32-bit words. */
  function Not32(n: U32): (r: U32) {
    0xffff_ffff - n
  }

  lemma Not32Bits(n: U32, j: nat)
    requires j < 32
    ensures NatBits(Not32(n), 32)[j] == !NatBits(n, 32)[j]
  {
    Pow2Of32();
    hide NatBits, Pow2;
    ComplementBits(n, 32, j);
  }

  function Carries32(value: U32, limit: U32): (carries: seq<bool>)
    ensures |carries| == 32
  {
    Carries(NatBits(value, 32), NatBits(limit, 32))
  }

  /** The complement truncates to the complement of the truncation. */
  lemma ComplementModulo(n: nat, count: nat, j: nat)
    requires n < Pow2(count) && j <= count
    ensures (Pow2(count) - 1 - n) % Pow2(j) == Pow2(j) - 1 - n % Pow2(j)
  {
    hide Pow2;
    Pow2Sum(j, count - j);
    ComplementDivision(n, Pow2(j), Pow2(count - j));
  }

  lemma ComplementDivision(n: nat, p: nat, h: nat)
    requires p > 0
    ensures (p * h - 1 - n) % p == p - 1 - n % p
  {
    var q, r := n / p, n % p;
    assert n == p * q + r;
    Distribute(p, h, q);
    DivModUnique(p * h - 1 - n, p, h - 1 - q, p - 1 - r);
  }

  lemma Distribute(p: int, h: int, q: int)
    ensures p * (h - 1 - q) == p * h - p - p * q
  {
  }

  /** The carry invariant in arithmetic, for every width: the carry out of the
      low j bits is one exactly when value mod 2^j + !limit mod 2^j + 1 reaches
      2^j, that is when value mod 2^j is at least limit mod 2^j. */
  lemma CarryInvariant(value: nat, limit: nat, count: nat, j: nat)
    requires limit < Pow2(count) && j <= count
    ensures var p := Pow2(j);
            var carry := Carry(NatBits(value, count), NatBits(limit, count), j);
            && (carry <==> value % p + (Pow2(count) - 1 - limit) % p + 1 >= p)
            && (carry <==> value % p >= limit % p)
  {
    hide Carry, NatOfBits, NatBits, Pow2;
    CarryCompares(NatBits(value, count), NatBits(limit, count), j);
    LowBits(value, count, j);
    LowBits(limit, count, j);
    ComplementModulo(limit, count, j);
  }

  /** `append_less_than_carries`. */
  method AppendLessThanCarries(output: WitnessBuffer, value: U32, limit: U32)
    modifies output
    ensures output.bits == old(output.bits) + Carries32(value, limit)
  {
    hide NatBits;
    var carry := true;
    for bit := 0 to 32
      invariant carry == Carry(NatBits(value, 32), NatBits(limit, 32), bit)
      invariant output.bits == old(output.bits) + Carries32(value, limit)[..bit]
    {
      var a := NatBits(value, 32)[bit];
      var b := NatBits(Not32(limit), 32)[bit];
      Not32Bits(limit, bit);
      carry := (a && b) || (a && carry) || (b && carry);
      output.bits := output.bits + [carry];
    }
    assert Carries32(value, limit)[..32] == Carries32(value, limit);
  }

  /** The last carry decides the comparison of 32-bit words. */
  lemma LastCarry(value: U32, limit: U32)
    ensures Carries32(value, limit)[31] <==> value >= limit
  {
    Pow2Of32();
    hide NatBits, NatOfBits, Pow2;
    var v, l := NatBits(value, 32), NatBits(limit, 32);
    CarryCompares(v, l, 32);
    assert v[..32] == v && l[..32] == l;
    NatOfNatBits(value, 32);
    NatOfNatBits(limit, 32);
  }

  // ----- The constraints

  function CarryBefore(carries: seq<bool>, bit: nat): (carry: bool)
    requires bit < |carries|
  {
    if bit == 0 then true else carries[bit - 1]
  }

  function CarryIn<F>(f: Field<F>, carries: seq<Wire<F>>, bit: nat): (wire: Wire<F>)
    requires bit < |carries|
  {
    if bit == 0 then Constant(f.one) else carries[bit - 1]
  }

  function CarryEquation<F>(a: Wire<F>, carryIn: Wire<F>, carryOut: Wire<F>, b: bool): (expr: Expr<F>) {
    var product := Times(OfWire(a), OfWire(carryIn));
    if b then Plus(Plus(Plus(OfWire(carryOut), OfWire(a)), product), OfWire(carryIn))
    else Plus(OfWire(carryOut), product)
  }

  function CarryAssertions<F>(f: Field<F>, value: seq<Wire<F>>, carries: seq<Wire<F>>,
                              limit: seq<bool>): (a: seq<Assertion<F>>)
    requires |value| == |carries| == |limit|
    ensures |a| == |value|
  {
    seq(|value|, j requires 0 <= j < |value| =>
      ExprZero(CarryEquation(value[j], CarryIn(f, carries, j), carries[j], !limit[j])))
  }

  function LessThanAssertions<F>(f: Field<F>, value: seq<Wire<F>>, carries: seq<Wire<F>>,
                                 limit: seq<bool>): (assertions: seq<Assertion<F>>)
    requires |value| == |carries| == |limit| > 0
  {
    CarryAssertions(f, value, carries, limit) + [WireZero(carries[|carries| - 1])]
  }

  method AssertU32LessThan<F>(backend: Backend<F>, value: seq<Wire<F>>, carries: seq<Wire<F>>, limit: U32)
    requires |value| == |carries| == 32
    modifies backend
    ensures backend.inputs == old(backend.inputs)
    ensures backend.assertions
        == old(backend.assertions) + LessThanAssertions(backend.field, value, carries, NatBits(limit, 32))
  {
    hide NatBits;
    ghost var all := CarryAssertions(backend.field, value, carries, NatBits(limit, 32));
    var carryIn := Constant(backend.field.one);
    for bit := 0 to 32
      invariant carryIn == if bit == 0 then Constant(backend.field.one) else carries[bit - 1]
      invariant backend.inputs == old(backend.inputs)
      invariant backend.assertions == old(backend.assertions) + all[..bit]
    {
      var a := OfWire(value[bit]);
      var carry := OfWire(carryIn);
      var equation := OfWire(carries[bit]);
      var b := NatBits(Not32(limit), 32)[bit];
      Not32Bits(limit, bit);
      if b {
        equation := Plus(equation, a);
      }
      equation := Plus(equation, Times(a, carry));
      if b {
        equation := Plus(equation, carry);
      }
      assert ExprZero(equation) == all[bit];
      backend.AssertExprZero(equation);
      carryIn := carries[bit];
    }
    assert all[..32] == all;
    backend.AssertZero(carryIn);
  }

  lemma CarryEquationHolds<F(!new)>(sys: System<F>, a: Wire<F>, carryIn: Wire<F>, carryOut: Wire<F>, b: bool,
                                    wit: seq<bool>)
    requires LawfulField(sys.field)
    requires IsBitWire(sys.field, a) && IsBitWire(sys.field, carryIn) && IsBitWire(sys.field, carryOut)
    ensures Holds(sys, ExprZero(CarryEquation(a, carryIn, carryOut, b)), wit)
       <==> WireBit(sys.field, carryOut, wit)
            == Majority(WireBit(sys.field, a, wit), b, WireBit(sys.field, carryIn, wit))
  {
    var f := sys.field;
    var e := CarryEquation(a, carryIn, carryOut, b);
    var sum := Plus(OfWire(carryOut), OfWire(a));
    var product := Times(OfWire(a), OfWire(carryIn));
    assert IsBitExpr(f, OfWire(a)) && IsBitExpr(f, OfWire(carryIn)) && IsBitExpr(f, OfWire(carryOut));
    assert IsBitExpr(f, sum) && IsBitExpr(f, product);
    assert ExprBit(f, sum, wit) == Xor(ExprBit(f, OfWire(carryOut), wit), ExprBit(f, OfWire(a), wit));
    assert ExprBit(f, product, wit) == (ExprBit(f, OfWire(a), wit) && ExprBit(f, OfWire(carryIn), wit));
    assert IsBitExpr(f, Plus(sum, product)) && IsBitExpr(f, e);
    assert ExprBit(f, Plus(sum, product), wit)
        == Xor(Xor(WireBit(f, carryOut, wit), WireBit(f, a, wit)), WireBit(f, a, wit) && WireBit(f, carryIn, wit));
    ExprBitValue(f, e, wit);
  }

  /** The carry equations force every carry. */
  lemma CarriesForced<F(!new)>(sys: System<F>, value: seq<Wire<F>>, carries: seq<Wire<F>>, limit: seq<bool>,
                               wit: seq<bool>)
    requires LawfulField(sys.field) && |value| == |carries| == |limit|
    requires AreBitWires(sys.field, value) && AreBitWires(sys.field, carries)
    ensures AllHold(sys, CarryAssertions(sys.field, value, carries, limit), wit)
       <==> WireBits(sys.field, carries, wit) == Carries(WireBits(sys.field, value, wit), limit)
  {
    hide CarryEquation, Holds;
    var f := sys.field;
    var all := CarryAssertions(f, value, carries, limit);
    var v, c := WireBits(f, value, wit), WireBits(f, carries, wit);
    forall j | 0 <= j < |value|
      ensures Holds(sys, all[j], wit) <==> c[j] == Majority(v[j], !limit[j], CarryBefore(c, j))
    {
      assert WireBit(f, Constant(f.one), wit);
      assert j > 0 ==> c[j - 1] == WireBit(f, carries[j - 1], wit);
      CarryEquationHolds(sys, value[j], CarryIn(f, carries, j), carries[j], !limit[j], wit);
    }
    if AllHold(sys, all, wit) {
      CarriesUnique(v, limit, c);
    }
    if c == Carries(v, limit) {
      forall j | 0 <= j < |all|
        ensures Holds(sys, all[j], wit)
      {
        CarriesAreNative(v, limit, j);
      }
    }
  }

  lemma CarryStep(value: seq<bool>, limit: seq<bool>, j: nat)
    requires j < |value| == |limit|
    ensures Carry(value, limit, j + 1) == Majority(value[j], !limit[j], Carry(value, limit, j))
    ensures Carry(value, limit, 0)
  {
  }

  lemma CarriesAreNative(value: seq<bool>, limit: seq<bool>, j: nat)
    requires j < |value| == |limit|
    ensures Carries(value, limit)[j] == Majority(value[j], !limit[j], CarryBefore(Carries(value, limit), j))
  {
    CarryStep(value, limit, j);
  }

  lemma CarriesUnique(value: seq<bool>, limit: seq<bool>, carries: seq<bool>)
    requires |value| == |limit| == |carries|
    requires forall j :: 0 <= j < |value| ==> carries[j] == Majority(value[j], !limit[j], CarryBefore(carries, j))
    ensures carries == Carries(value, limit)
  {
    var j := 0;
    while j < |value|
      invariant j <= |value|
      invariant forall i :: 0 <= i < j ==> carries[i] == Carry(value, limit, i + 1)
    {
      CarryStep(value, limit, j);
      assert CarryBefore(carries, j) == Carry(value, limit, j);
      j := j + 1;
    }
  }

  /** For every width: the constraints hold exactly when the carries are the
      ones of the generator and the value is strictly below the limit. */
  lemma LessThanHolds<F(!new)>(sys: System<F>, value: seq<Wire<F>>, carries: seq<Wire<F>>, limit: seq<bool>,
                               wit: seq<bool>)
    requires LawfulField(sys.field) && |value| == |carries| == |limit| > 0
    requires AreBitWires(sys.field, value) && AreBitWires(sys.field, carries)
    ensures AllHold(sys, LessThanAssertions(sys.field, value, carries, limit), wit)
       <==> WireBits(sys.field, carries, wit) == Carries(WireBits(sys.field, value, wit), limit)
            && NatOfBits(WireBits(sys.field, value, wit)) < NatOfBits(limit)
  {
    hide CarryAssertions, NatOfBits, WireBits, Carries, AllHold;
    var f := sys.field;
    var n := |value|;
    var v, c := WireBits(f, value, wit), WireBits(f, carries, wit);
    CarriesForced(sys, value, carries, limit, wit);
    AllHoldConcat(sys, CarryAssertions(f, value, carries, limit), [WireZero(carries[n - 1])], wit);
    LastWireZero(sys, carries, wit);
    CarryCompares(v, limit, n);
    assert v[..n] == v && limit[..n] == limit;
    assert Carries(v, limit)[n - 1] == Carry(v, limit, n) by { CarriesAt(v, limit, n - 1); }
  }

  lemma CarriesAt(value: seq<bool>, limit: seq<bool>, j: nat)
    requires j < |value| == |limit|
    ensures Carries(value, limit)[j] == Carry(value, limit, j + 1)
  {
  }

  lemma LastWireZero<F(!new)>(sys: System<F>, wires: seq<Wire<F>>, wit: seq<bool>)
    requires LawfulField(sys.field) && |wires| > 0 && AreBitWires(sys.field, wires)
    ensures AllHold(sys, [WireZero(wires[|wires| - 1])], wit) <==> !WireBits(sys.field, wires, wit)[|wires| - 1]
  {
    var last := WireZero(wires[|wires| - 1]);
    WireBitValue(sys.field, wires[|wires| - 1], wit);
    assert AllHold(sys, [last], wit) <==> Holds(sys, [last][0], wit);
  }

  lemma LessThanDegree<F>(f: Field<F>, value: seq<Wire<F>>, carries: seq<Wire<F>>, limit: seq<bool>)
    requires |value| == |carries| == |limit| > 0 && WiresLinear(value) && WiresLinear(carries)
    ensures AllDegreesAtMost(LessThanAssertions(f, value, carries, limit), 2)
  {
    forall j | 0 <= j < |value|
      ensures Degree(CarryEquation(value[j], CarryIn(f, carries, j), carries[j], !limit[j])) <= 2
    {
      var a, c, o := OfWire(value[j]), OfWire(CarryIn(f, carries, j)), OfWire(carries[j]);
      assert Degree(Times(a, c)) <= 2;
      assert Degree(Plus(o, a)) <= 1;
      assert Degree(Plus(Plus(o, a), Times(a, c))) <= 2;
    }
  }
}
