/** The constraint-system backend that the circuits of src/circuit.rs are built
    against. The backend crate is not part of this model: what a wire, an
    expression and an assertion mean is fixed here, over any field of
    characteristic two. */
module Constraints {
  import opened Bits

  /** The operations of the extension field that wires carry. */
  datatype Field<!F> = Field(zero: F, one: F, add: (F, F) -> F, mul: (F, F) -> F)

  /** The field, the embedding of GF(16) and the public MAYO map, natively on
      GF(16) vectors and as quadratic forms over the extension field. */
  datatype System<!F> = System(field: Field<F>, embed: bv4 -> F, eval: seq<bv4> -> seq<bv4>, forms: seq<F> -> seq<F>)

  /** What the proofs use of the field: characteristic two, and zero and one
      behave as such. */
  ghost predicate LawfulField<F(!new)>(f: Field<F>) {
    && f.zero != f.one
    && (forall a: F :: f.add(f.zero, a) == a && f.add(a, f.zero) == a && f.add(a, a) == f.zero)
    && (forall a: F :: f.mul(f.zero, a) == f.zero && f.mul(a, f.zero) == f.zero)
    && (forall a: F :: f.mul(f.one, a) == a && f.mul(a, f.one) == a)
  }

  /** The embedding is additive and injective, and the quadratic forms of the
      extension field restrict to the MAYO map on embedded vectors. */
  ghost predicate Lawful<F(!new)>(sys: System<F>) {
    && LawfulField(sys.field)
    && sys.embed(0) == sys.field.zero
    && (forall a: bv4, b: bv4 :: sys.embed(a ^ b) == sys.field.add(sys.embed(a), sys.embed(b)))
    && (forall a: bv4, b: bv4 :: sys.embed(a) == sys.embed(b) ==> a == b)
    && (forall v: seq<bv4> :: sys.forms(Embedded(sys, v)) == Embedded(sys, sys.eval(v)))
  }

  function Embedded<F>(sys: System<F>, v: seq<bv4>): (r: seq<F>)
    ensures |r| == |v|
  {
    seq(|v|, i requires 0 <= i < |v| => sys.embed(v[i]))
  }

  datatype Wire<!F> =
    | Constant(value: F)
    | Input(index: nat)
    | Scaled(factor: F, wire: Wire<F>)
    | Sum(left: Wire<F>, right: Wire<F>)

  datatype Expr<!F> =
    | OfWire(wire: Wire<F>)
    | Plus(left: Expr<F>, right: Expr<F>)
    | Times(left: Expr<F>, right: Expr<F>)

  datatype Assertion<!F> =
    | WireZero(wire: Wire<F>)
    | ExprZero(expr: Expr<F>)
    | QuadForms(inputs: seq<Wire<F>>, targets: seq<Wire<F>>)

  /** A circuit under construction: how many witness bits have been allocated,
      and the assertions made so far. */
  class Backend<!F> {
    const field: Field<F>
    var inputs: nat
    var assertions: seq<Assertion<F>>

    constructor (field: Field<F>)
      ensures this.field == field && inputs == 0 && assertions == []
    {
      this.field := field;
      inputs := 0;
      assertions := [];
    }

    method WitnessBit() returns (wire: Wire<F>)
      modifies this
      ensures wire == Input(old(inputs))
      ensures inputs == old(inputs) + 1 && assertions == old(assertions)
    {
      wire := Input(inputs);
      inputs := inputs + 1;
    }

    method AssertZero(wire: Wire<F>)
      modifies this
      ensures assertions == old(assertions) + [WireZero(wire)] && inputs == old(inputs)
    {
      assertions := assertions + [WireZero(wire)];
    }

    method AssertExprZero(expr: Expr<F>)
      modifies this
      ensures assertions == old(assertions) + [ExprZero(expr)] && inputs == old(inputs)
    {
      assertions := assertions + [ExprZero(expr)];
    }

    method AssertQuadFormSystem(wires: seq<Wire<F>>, targets: seq<Wire<F>>)
      modifies this
      ensures assertions == old(assertions) + [QuadForms(wires, targets)] && inputs == old(inputs)
    {
      assertions := assertions + [QuadForms(wires, targets)];
    }
  }

  // ----- Meaning under a witness bit string

  function FieldBit<F>(f: Field<F>, bit: bool): (v: F) {
    if bit then f.one else f.zero
  }

  function WireValue<F>(f: Field<F>, w: Wire<F>, wit: seq<bool>): (v: F) {
    match w
    case Constant(value) => value
    case Input(index) => FieldBit(f, index < |wit| && wit[index])
    case Scaled(factor, wire) => f.mul(factor, WireValue(f, wire, wit))
    case Sum(left, right) => f.add(WireValue(f, left, wit), WireValue(f, right, wit))
  }

  function ExprValue<F>(f: Field<F>, e: Expr<F>, wit: seq<bool>): (v: F) {
    match e
    case OfWire(wire) => WireValue(f, wire, wit)
    case Plus(left, right) => f.add(ExprValue(f, left, wit), ExprValue(f, right, wit))
    case Times(left, right) => f.mul(ExprValue(f, left, wit), ExprValue(f, right, wit))
  }

  function WireValues<F>(f: Field<F>, ws: seq<Wire<F>>, wit: seq<bool>): (r: seq<F>)
    ensures |r| == |ws|
  {
    seq(|ws|, i requires 0 <= i < |ws| => WireValue(f, ws[i], wit))
  }

  ghost predicate Holds<F>(sys: System<F>, a: Assertion<F>, wit: seq<bool>) {
    match a
    case WireZero(wire) => WireValue(sys.field, wire, wit) == sys.field.zero
    case ExprZero(expr) => ExprValue(sys.field, expr, wit) == sys.field.zero
    case QuadForms(inputs, targets) =>
      sys.forms(WireValues(sys.field, inputs, wit)) == WireValues(sys.field, targets, wit)
  }

  ghost predicate AllHold<F>(sys: System<F>, assertions: seq<Assertion<F>>, wit: seq<bool>) {
    forall i :: 0 <= i < |assertions| ==> Holds(sys, assertions[i], wit)
  }

  /** What a builder hands to the proof backend: how many witness bits it
      allocated, and what it asserted about them. */
  datatype Compiled<!F> = Compiled(inputs: nat, assertions: seq<Assertion<F>>)

  ghost predicate Satisfied<F>(sys: System<F>, circuit: Compiled<F>, wit: seq<bool>) {
    |wit| == circuit.inputs && AllHold(sys, circuit.assertions, wit)
  }

  lemma AllHoldConcat<F>(sys: System<F>, a: seq<Assertion<F>>, b: seq<Assertion<F>>, wit: seq<bool>)
    ensures AllHold(sys, a + b, wit) <==> AllHold(sys, a, wit) && AllHold(sys, b, wit)
  {
    if AllHold(sys, a + b, wit) {
      forall i | 0 <= i < |a|
        ensures Holds(sys, a[i], wit)
      {
        assert (a + b)[i] == a[i];
      }
      forall i | 0 <= i < |b|
        ensures Holds(sys, b[i], wit)
      {
        assert (a + b)[|a| + i] == b[i];
      }
    }
  }

  // ----- Wires and expressions over bits

  ghost predicate IsBitWire<F>(f: Field<F>, w: Wire<F>) {
    w == Constant(f.zero) || w == Constant(f.one) || w.Input?
  }

  ghost predicate IsBitExpr<F>(f: Field<F>, e: Expr<F>) {
    match e
    case OfWire(wire) => IsBitWire(f, wire)
    case Plus(left, right) => IsBitExpr(f, left) && IsBitExpr(f, right)
    case Times(left, right) => IsBitExpr(f, left) && IsBitExpr(f, right)
  }

  ghost function WireBit<F>(f: Field<F>, w: Wire<F>, wit: seq<bool>): (bit: bool) {
    match w
    case Constant(value) => value == f.one
    case Input(index) => index < |wit| && wit[index]
    case _ => false
  }

  /** Over bits, addition is exclusive or and multiplication is conjunction. */
  ghost function ExprBit<F>(f: Field<F>, e: Expr<F>, wit: seq<bool>): (bit: bool) {
    match e
    case OfWire(wire) => WireBit(f, wire, wit)
    case Plus(left, right) => Xor(ExprBit(f, left, wit), ExprBit(f, right, wit))
    case Times(left, right) => ExprBit(f, left, wit) && ExprBit(f, right, wit)
  }

  lemma WireBitValue<F(!new)>(f: Field<F>, w: Wire<F>, wit: seq<bool>)
    requires LawfulField(f) && IsBitWire(f, w)
    ensures WireValue(f, w, wit) == FieldBit(f, WireBit(f, w, wit))
  {
  }

  lemma {:induction false} ExprBitValue<F(!new)>(f: Field<F>, e: Expr<F>, wit: seq<bool>)
    requires LawfulField(f) && IsBitExpr(f, e)
    ensures ExprValue(f, e, wit) == FieldBit(f, ExprBit(f, e, wit))
  {
    match e
    case OfWire(wire) =>
      WireBitValue(f, wire, wit);
    case Plus(left, right) =>
      ExprBitValue(f, left, wit);
      ExprBitValue(f, right, wit);
    case Times(left, right) =>
      ExprBitValue(f, left, wit);
      ExprBitValue(f, right, wit);
  }

  ghost function WireBits<F>(f: Field<F>, ws: seq<Wire<F>>, wit: seq<bool>): (bits: seq<bool>)
    ensures |bits| == |ws|
  {
    seq(|ws|, i requires 0 <= i < |ws| => WireBit(f, ws[i], wit))
  }

  ghost predicate AreBitWires<F>(f: Field<F>, ws: seq<Wire<F>>) {
    forall i :: 0 <= i < |ws| ==> IsBitWire(f, ws[i])
  }

  /** A consecutive run of allocated witness wires. */
  function Inputs<F>(start: nat, count: nat): (ws: seq<Wire<F>>)
    ensures |ws| == count
  {
    seq(count, i requires 0 <= i < count => Input(start + i))
  }

  lemma InputsBits<F>(f: Field<F>, start: nat, count: nat, wit: seq<bool>)
    requires start + count <= |wit|
    ensures AreBitWires(f, Inputs(start, count))
    ensures WireBits(f, Inputs(start, count), wit) == wit[start..start + count]
  {
  }

  lemma WireBitsConcat<F>(f: Field<F>, a: seq<Wire<F>>, b: seq<Wire<F>>, wit: seq<bool>)
    ensures WireBits(f, a + b, wit) == WireBits(f, a, wit) + WireBits(f, b, wit)
  {
  }

  // ----- Constants

  function ConstantWires<F>(f: Field<F>, bits: seq<bool>): (ws: seq<Wire<F>>)
    ensures |ws| == |bits|
  {
    seq(|bits|, i requires 0 <= i < |bits| => Constant(FieldBit(f, bits[i])))
  }

  lemma ConstantWiresBits<F(!new)>(f: Field<F>, bits: seq<bool>, wit: seq<bool>)
    requires LawfulField(f)
    ensures AreBitWires(f, ConstantWires(f, bits))
    ensures WireBits(f, ConstantWires(f, bits), wit) == bits
  {
  }

  // ----- Lifting four bits to an embedded GF(16) element

  /** The basis element of bit `index` of a GF(16) value. */
  function Basis(index: nat): (r: bv4)
    requires index < 4
  {
    if index == 0 then 1 else if index == 1 then 2 else if index == 2 then 4 else 8
  }

  /** The sum of the scaled basis elements of the first `count` bits. */
  function LiftPrefix<F>(sys: System<F>, bits: seq<Wire<F>>, count: nat): (wire: Wire<F>)
    requires count <= |bits| == 4
  {
    if count == 0 then Constant(sys.field.zero)
    else Sum(LiftPrefix(sys, bits, count - 1), Scaled(sys.embed(Basis(count - 1)), bits[count - 1]))
  }

  function LiftGf16<F>(sys: System<F>, bits: seq<Wire<F>>): (wire: Wire<F>)
    requires |bits| == 4
  {
    LiftPrefix(sys, bits, 4)
  }

  function LiftNibbles<F>(sys: System<F>, bits: seq<Wire<F>>): (ws: seq<Wire<F>>)
    requires |bits| % 4 == 0
    ensures |ws| == |bits| / 4
  {
    seq(|bits| / 4, i requires 0 <= i < |bits| / 4 => LiftGf16(sys, bits[4 * i..4 * i + 4]))
  }

  /** `lift_nibbles`, with the accumulator of `lift_gf16` as its inner loop. */
  method BuildLiftNibbles<F>(sys: System<F>, bits: seq<Wire<F>>) returns (wires: seq<Wire<F>>)
    requires |bits| % 4 == 0
    ensures wires == LiftNibbles(sys, bits)
  {
    wires := [];
    for i := 0 to |bits| / 4
      invariant wires == LiftNibbles(sys, bits)[..i]
    {
      var nibble := bits[4 * i..4 * i + 4];
      var accumulator := Constant(sys.field.zero);
      for bitIndex := 0 to 4
        invariant accumulator == LiftPrefix(sys, nibble, bitIndex)
      {
        accumulator := Sum(accumulator, Scaled(sys.embed(Basis(bitIndex)), nibble[bitIndex]));
      }
      wires := wires + [accumulator];
    }
    assert LiftNibbles(sys, bits)[..|bits| / 4] == LiftNibbles(sys, bits);
  }

  lemma LiftGf16Value<F(!new)>(sys: System<F>, bits: seq<Wire<F>>, wit: seq<bool>)
    requires Lawful(sys) && |bits| == 4 && AreBitWires(sys.field, bits)
    ensures WireValue(sys.field, LiftGf16(sys, bits), wit)
         == sys.embed(NibbleOfBits(WireBits(sys.field, bits, wit)))
  {
    var f := sys.field;
    var b := WireBits(f, bits, wit);
    forall i | 0 <= i < 4
      ensures WireValue(f, bits[i], wit) == FieldBit(f, b[i])
    {
      WireBitValue(f, bits[i], wit);
    }
    var v0, v1, v2, v3 := NibbleWeight(b[0], 1), NibbleWeight(b[1], 2), NibbleWeight(b[2], 4), NibbleWeight(b[3], 8);
    DisjointWeights(b[0], b[1], b[2], b[3]);
    assert WireValue(f, LiftPrefix(sys, bits, 0), wit) == sys.embed(0);
    LiftStep(sys, bits, 0, 0, wit);
    LiftStep(sys, bits, 1, v0, wit);
    LiftStep(sys, bits, 2, v0 ^ v1, wit);
    LiftStep(sys, bits, 3, v0 ^ v1 ^ v2, wit);
    assert 0 ^ v0 == v0;
  }

  lemma LiftStep<F(!new)>(sys: System<F>, bits: seq<Wire<F>>, count: nat, sum: bv4, wit: seq<bool>)
    requires Lawful(sys) && count < |bits| == 4 && AreBitWires(sys.field, bits)
    requires WireValue(sys.field, LiftPrefix(sys, bits, count), wit) == sys.embed(sum)
    ensures WireValue(sys.field, LiftPrefix(sys, bits, count + 1), wit)
         == sys.embed(sum ^ NibbleWeight(WireBit(sys.field, bits[count], wit), Basis(count)))
  {
    WireBitValue(sys.field, bits[count], wit);
    var v := NibbleWeight(WireBit(sys.field, bits[count], wit), Basis(count));
    var scaled := Scaled(sys.embed(Basis(count)), bits[count]);
    assert WireValue(sys.field, scaled, wit) == sys.embed(v);
    assert LiftPrefix(sys, bits, count + 1) == Sum(LiftPrefix(sys, bits, count), scaled);
    assert sys.embed(sum ^ v) == sys.field.add(sys.embed(sum), sys.embed(v));
  }

  lemma DisjointWeights(a: bool, b: bool, c: bool, d: bool)
    ensures NibbleWeight(a, 1) ^ NibbleWeight(b, 2) ^ NibbleWeight(c, 4) ^ NibbleWeight(d, 8)
         == NibbleWeight(a, 1) | NibbleWeight(b, 2) | NibbleWeight(c, 4) | NibbleWeight(d, 8)
  {
  }

  lemma LiftNibblesValues<F(!new)>(sys: System<F>, bits: seq<Wire<F>>, wit: seq<bool>)
    requires Lawful(sys) && |bits| % 4 == 0 && AreBitWires(sys.field, bits)
    ensures WireValues(sys.field, LiftNibbles(sys, bits), wit)
         == Embedded(sys, BitsNibbles(WireBits(sys.field, bits, wit)))
  {
    hide NibbleOfBits, LiftGf16;
    forall i | 0 <= i < |bits| / 4
      ensures WireValue(sys.field, LiftGf16(sys, bits[4 * i..4 * i + 4]), wit)
           == sys.embed(NibbleOfBits(WireBits(sys.field, bits, wit)[4 * i..4 * i + 4]))
    {
      LiftGf16Value(sys, bits[4 * i..4 * i + 4], wit);
      assert WireBits(sys.field, bits[4 * i..4 * i + 4], wit) == WireBits(sys.field, bits, wit)[4 * i..4 * i + 4];
    }
  }

  lemma EmbeddedInjective<F(!new)>(sys: System<F>, a: seq<bv4>, b: seq<bv4>)
    requires Lawful(sys)
    ensures Embedded(sys, a) == Embedded(sys, b) <==> a == b
  {
    if Embedded(sys, a) == Embedded(sys, b) {
      assert |a| == |b|;
      forall i | 0 <= i < |a|
        ensures a[i] == b[i]
      {
        assert Embedded(sys, a)[i] == Embedded(sys, b)[i];
      }
    }
  }

  /** The quadratic assertion on lifted bits is the MAYO equation on nibbles. */
  lemma QuadFormsHold<F(!new)>(sys: System<F>, inputs: seq<Wire<F>>, targets: seq<Wire<F>>, wit: seq<bool>)
    requires Lawful(sys) && |inputs| % 4 == 0 && |targets| % 4 == 0
    requires AreBitWires(sys.field, inputs) && AreBitWires(sys.field, targets)
    ensures Holds(sys, QuadForms(LiftNibbles(sys, inputs), LiftNibbles(sys, targets)), wit)
       <==> sys.eval(BitsNibbles(WireBits(sys.field, inputs, wit)))
            == BitsNibbles(WireBits(sys.field, targets, wit))
  {
    hide LiftNibbles, BitsNibbles;
    LiftNibblesValues(sys, inputs, wit);
    LiftNibblesValues(sys, targets, wit);
    var v, t := BitsNibbles(WireBits(sys.field, inputs, wit)), BitsNibbles(WireBits(sys.field, targets, wit));
    EmbeddedInjective(sys, sys.eval(v), t);
  }

  // ----- Polynomial degree in the witness bits

  function Max(a: nat, b: nat): (n: nat) {
    if a >= b then a else b
  }

  function WireDegree<F>(w: Wire<F>): (degree: nat) {
    match w
    case Constant(_) => 0
    case Input(_) => 1
    case Scaled(_, wire) => WireDegree(wire)
    case Sum(left, right) => Max(WireDegree(left), WireDegree(right))
  }

  function Degree<F>(e: Expr<F>): (degree: nat) {
    match e
    case OfWire(wire) => WireDegree(wire)
    case Plus(left, right) => Max(Degree(left), Degree(right))
    case Times(left, right) => Degree(left) + Degree(right)
  }

  ghost predicate WiresLinear<F>(ws: seq<Wire<F>>) {
    forall i :: 0 <= i < |ws| ==> WireDegree(ws[i]) <= 1
  }

  /** Quadratic forms in linear wires have degree two. */
  ghost predicate DegreeAtMost<F>(a: Assertion<F>, bound: nat) {
    match a
    case WireZero(wire) => WireDegree(wire) <= bound
    case ExprZero(expr) => Degree(expr) <= bound
    case QuadForms(inputs, targets) => WiresLinear(inputs) && WiresLinear(targets) && 2 <= bound
  }

  ghost predicate AllDegreesAtMost<F>(assertions: seq<Assertion<F>>, bound: nat) {
    forall i :: 0 <= i < |assertions| ==> DegreeAtMost(assertions[i], bound)
  }

  lemma LiftNibblesLinear<F>(sys: System<F>, bits: seq<Wire<F>>)
    requires |bits| % 4 == 0 && WiresLinear(bits)
    ensures WiresLinear(LiftNibbles(sys, bits))
  {
    forall i | 0 <= i < |bits| / 4
      ensures WireDegree(LiftGf16(sys, bits[4 * i..4 * i + 4])) <= 1
    {
      LiftGf16Linear(sys, bits[4 * i..4 * i + 4]);
    }
  }

  lemma LiftGf16Linear<F>(sys: System<F>, bits: seq<Wire<F>>)
    requires |bits| == 4 && WiresLinear(bits)
    ensures WireDegree(LiftGf16(sys, bits)) <= 1
  {
    LiftPrefixLinear(sys, bits, 4);
  }

  lemma {:induction false} LiftPrefixLinear<F>(sys: System<F>, bits: seq<Wire<F>>, count: nat)
    requires count <= |bits| == 4 && WiresLinear(bits)
    ensures WireDegree(LiftPrefix(sys, bits, count)) <= 1
    decreases count
  {
    if count > 0 {
      LiftPrefixLinear(sys, bits, count - 1);
    }
  }

  /** The laws have a model, so nothing proved from them is empty: GF(16) as its
      own extension, with any map that sends bit vectors to bit vectors. */
  lemma LawsHaveAModel(eval: seq<bv4> -> seq<bv4>)
    ensures exists sys: System<bv4> :: Lawful(sys) && sys.eval == eval
  {
    var f: Field<bv4> := Field(0, 1, (a: bv4, b: bv4) => a ^ b,
      (a: bv4, b: bv4) => if a == 1 then b else if b == 1 then a else 0);
    var sys := System(f, (v: bv4) => v, eval, eval);
    forall v: seq<bv4>
      ensures Embedded(sys, v) == v
    {
    }
    assert Lawful(sys);
  }
}
