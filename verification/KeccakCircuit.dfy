/** The SHAKE256 gadget: symbolic Keccak rounds over expressions, and one
    permutation checked at a committed checkpoint after every four rounds. */
module KeccakCircuit {
  import opened Bits
  import opened Fips202
  import opened Keccak
  import opened Constraints

  const CHECKPOINT_BITS: nat := 9600

  // ----- Expressions of one round

  function Zero<F>(f: Field<F>): (expr: Expr<F>) {
    OfWire(Constant(f.zero))
  }

  function One<F>(f: Field<F>): (expr: Expr<F>) {
    OfWire(Constant(f.one))
  }

  /** The running sum of the first `count` bits of column (x, z). */
  function ColumnSum<F>(f: Field<F>, s: seq<Expr<F>>, x: nat, z: nat, count: nat): (expr: Expr<F>)
    requires |s| == 1600 && x < 5 && z < 64 && count <= 5
  {
    if count == 0 then Zero(f) else Plus(ColumnSum(f, s, x, z, count - 1), s[Index(x, count - 1, z)])
  }

  function ParityExpr<F>(f: Field<F>, s: seq<Expr<F>>, x: nat, z: nat): (expr: Expr<F>)
    requires |s| == 1600 && x < 5 && z < 64
  {
    ColumnSum(f, s, x, z, 5)
  }

  function ThetaExpr<F>(f: Field<F>, s: seq<Expr<F>>, x: nat, y: nat, z: nat): (expr: Expr<F>)
    requires |s| == 1600 && x < 5 && y < 5 && z < 64
  {
    Plus(s[Index(x, y, z)], Plus(ParityExpr(f, s, (x + 4) % 5, z), ParityExpr(f, s, (x + 1) % 5, (z + 63) % 64)))
  }

  function ThetaExprs<F>(f: Field<F>, s: seq<Expr<F>>): (r: seq<Expr<F>>)
    requires |s| == 1600
    ensures |r| == 1600
  {
    seq(1600, k requires 0 <= k < 1600 => ThetaExpr(f, s, X(k), Y(k), Z(k)))
  }

  /** Where the bit at position k comes from under rho followed by pi. */
  function PiRho(k: nat): (source: nat)
    requires k < 1600
    ensures source < 1600
  {
    var lane := SourceLane(k / 64);
    64 * lane + (k % 64 + 64 - RHO[lane]) % 64
  }

  function ChiExpr<F>(f: Field<F>, theta: seq<Expr<F>>, constant: nat, k: nat): (expr: Expr<F>)
    requires |theta| == 1600 && k < 1600
  {
    var x, y, z := X(k), Y(k), Z(k);
    var first := theta[PiRho(Index(x, y, z))];
    var second := theta[PiRho(Index((x + 1) % 5, y, z))];
    var third := theta[PiRho(Index((x + 2) % 5, y, z))];
    var bit := Plus(first, Times(Plus(One(f), second), third));
    if k / 64 == 0 && ConstantBit(constant, z) then Plus(bit, One(f)) else bit
  }

  function RoundExprs<F>(f: Field<F>, s: seq<Expr<F>>, constant: nat): (r: seq<Expr<F>>)
    requires |s| == 1600
    ensures |r| == 1600
  {
    var theta := ThetaExprs(f, s);
    seq(1600, k requires 0 <= k < 1600 => ChiExpr(f, theta, constant, k))
  }

  /** Symbolic rounds `first` to `first + count - 1`. */
  function ExprRounds<F>(f: Field<F>, s: seq<Expr<F>>, first: nat, count: nat): (r: seq<Expr<F>>)
    requires |s| == 1600 && first + count <= |RC|
    ensures |r| == 1600
    decreases count
  {
    if count == 0 then s else RoundExprs(f, ExprRounds(f, s, first, count - 1), RC[first + count - 1])
  }

  // ----- The builders of the source compute these expressions

  method KeccakLinearExpr<F>(backend: Backend<F>, state: seq<Expr<F>>) returns (result: seq<Expr<F>>)
    requires |state| == 1600
    ensures result == ThetaExprs(backend.field, state)
  {
    var zero := OfWire(Constant(backend.field.zero));
    var columns := new Expr<F>[5 * 64](_ => zero);
    for x := 0 to 5
      invariant forall k :: 0 <= k < 64 * x ==> columns[k] == ParityExpr(backend.field, state, k / 64, k % 64)
    {
      for z := 0 to 64
        invariant forall k :: 0 <= k < 64 * x + z ==> columns[k] == ParityExpr(backend.field, state, k / 64, k % 64)
      {
        var parity := zero;
        for y := 0 to 5
          invariant parity == ColumnSum(backend.field, state, x, z, y)
        {
          parity := Plus(parity, state[64 * (x + 5 * y) + z]);
        }
        columns[64 * x + z] := parity;
        assert (64 * x + z) / 64 == x && (64 * x + z) % 64 == z;
      }
    }
    result := ThetaExprsOfColumns(backend, state, columns);
  }

  method ThetaExprsOfColumns<F>(backend: Backend<F>, state: seq<Expr<F>>, columns: array<Expr<F>>)
    returns (result: seq<Expr<F>>)
    requires |state| == 1600 && columns.Length == 320
    requires forall k :: 0 <= k < 320 ==> columns[k] == ParityExpr(backend.field, state, k / 64, k % 64)
    ensures result == ThetaExprs(backend.field, state)
  {
    hide ParityExpr, ThetaExprs, ThetaExpr;
    var theta := new Expr<F>[1600](_ => OfWire(Constant(backend.field.zero)));
    ghost var expected := ThetaExprs(backend.field, state);
    for y := 0 to 5
      invariant forall k :: 0 <= k < 320 * y ==> theta[k] == expected[k]
    {
      for x := 0 to 5
        invariant forall k :: 0 <= k < 320 * y + 64 * x ==> theta[k] == expected[k]
      {
        for z := 0 to 64
          invariant forall k :: 0 <= k < 320 * y + 64 * x + z ==> theta[k] == expected[k]
        {
          var left := columns[64 * ((x + 4) % 5) + z];
          var right := columns[64 * ((x + 1) % 5) + (z + 63) % 64];
          var delta := Plus(left, right);
          theta[64 * (x + 5 * y) + z] := Plus(state[64 * (x + 5 * y) + z], delta);
          ThetaExprsAt(backend.field, state, x, y, z);
          ColumnCoordinates((x + 4) % 5, z);
          ColumnCoordinates((x + 1) % 5, (z + 63) % 64);
        }
      }
    }
    result := theta[..];
  }

  lemma ThetaExprsAt<F>(f: Field<F>, s: seq<Expr<F>>, x: nat, y: nat, z: nat)
    requires |s| == 1600 && x < 5 && y < 5 && z < 64
    ensures 64 * (x + 5 * y) + z < 1600
    ensures ThetaExprs(f, s)[64 * (x + 5 * y) + z]
         == Plus(s[64 * (x + 5 * y) + z],
           Plus(ParityExpr(f, s, (x + 4) % 5, z), ParityExpr(f, s, (x + 1) % 5, (z + 63) % 64)))
  {
    hide ParityExpr;
    Coordinates(x, y, z);
    IndexIs(x, y, z);
  }

  lemma ColumnCoordinates(x: nat, z: nat)
    requires x < 5 && z < 64
    ensures (64 * x + z) / 64 == x && (64 * x + z) % 64 == z
  {
  }

  /** `pi_rho_index`: the permutation table, filled target lane by target lane. */
  method PiRhoIndex() returns (result: seq<nat>)
    ensures |result| == 1600
    ensures forall k :: 0 <= k < 1600 ==> result[k] < 1600 && result[k] == PiRho(k)
  {
    hide SourceLane, TargetLane, PiRho;
    var index := new nat[1600](_ => 0);
    for y := 0 to 5
      invariant forall k :: 0 <= k < 1600 && SourceLane(k / 64) < 5 * y ==> index[k] == PiRho(k)
    {
      for x := 0 to 5
        invariant forall k :: 0 <= k < 1600 && SourceLane(k / 64) < 5 * y + x ==> index[k] == PiRho(k)
      {
        var sourceLane := x + 5 * y;
        var targetX := y;
        var targetY := (2 * x + 3 * y) % 5;
        var targetLane := targetX + 5 * targetY;
        TargetLaneIs(x, y);
        SourceOfTarget(x, y);
        for z := 0 to 64
          invariant forall k :: 0 <= k < 1600 && SourceLane(k / 64) < 5 * y + x ==> index[k] == PiRho(k)
          invariant forall k :: 64 * targetLane <= k < 64 * targetLane + z ==> index[k] == PiRho(k)
        {
          var sourceZ := (z + 64 - RHO[sourceLane]) % 64;
          index[64 * targetLane + z] := 64 * sourceLane + sourceZ;
          PiRhoOfLane(targetLane, z);
        }
        forall k | 0 <= k < 1600 && SourceLane(k / 64) == sourceLane
          ensures 64 * targetLane <= k < 64 * targetLane + 64
        {
          SourceUnique(x, y, k / 64);
        }
      }
    }
    result := index[..];
  }

  lemma PiRhoOfLane(lane: nat, z: nat)
    requires lane < 25 && z < 64
    ensures PiRho(64 * lane + z) == 64 * SourceLane(lane) + (z + 64 - RHO[SourceLane(lane)]) % 64
  {
    DivMod64(64 * lane + z, lane, z);
  }

  lemma TargetLaneIs(x: nat, y: nat)
    requires x < 5 && y < 5
    ensures TargetLane(x, y) == y + 5 * ((2 * x + 3 * y) % 5)
  {
  }

  method KeccakRoundExpr<F>(backend: Backend<F>, state: seq<Expr<F>>, roundConstant: nat)
    returns (output: seq<Expr<F>>)
    requires |state| == 1600
    ensures output == RoundExprs(backend.field, state, roundConstant)
  {
    hide PiRho, ConstantBit, ChiExpr, ThetaExprs, Index;
    var theta := KeccakLinearExpr(backend, state);
    var permutation := PiRhoIndex();
    var one := OfWire(Constant(backend.field.one));
    output := [];
    for bitIndex := 0 to 1600
      invariant |output| == bitIndex
      invariant forall k :: 0 <= k < bitIndex ==> output[k] == ChiExpr(backend.field, theta, roundConstant, k)
    {
      var lane := bitIndex / 64;
      var z := bitIndex % 64;
      var x := lane % 5;
      var y := lane / 5;
      IndexIs(x, y, z);
      IndexIs((x + 1) % 5, y, z);
      IndexIs((x + 2) % 5, y, z);
      var first := theta[permutation[64 * (x + 5 * y) + z]];
      var second := theta[permutation[64 * ((x + 1) % 5 + 5 * y) + z]];
      var third := theta[permutation[64 * ((x + 2) % 5 + 5 * y) + z]];
      var product := Times(Plus(one, second), third);
      var bit := Plus(first, product);
      if lane == 0 && ConstantBit(roundConstant, z) {
        bit := Plus(bit, one);
      }
      ChiExprIs(backend.field, theta, roundConstant, permutation, bitIndex);
      output := output + [bit];
    }
  }

  lemma IndexIs(x: nat, y: nat, z: nat)
    requires x < 5 && y < 5 && z < 64
    ensures Index(x, y, z) == 64 * (x + 5 * y) + z
  {
  }

  lemma ChiExprIs<F>(f: Field<F>, theta: seq<Expr<F>>, constant: nat, permutation: seq<nat>, k: nat)
    requires |theta| == 1600 && k < 1600 && |permutation| == 1600
    requires forall i :: 0 <= i < 1600 ==> permutation[i] < 1600 && permutation[i] == PiRho(i)
    ensures var x, y, z := X(k), Y(k), Z(k);
            var first := theta[permutation[Index(x, y, z)]];
            var second := theta[permutation[Index((x + 1) % 5, y, z)]];
            var third := theta[permutation[Index((x + 2) % 5, y, z)]];
            var bit := Plus(first, Times(Plus(One(f), second), third));
            ChiExpr(f, theta, constant, k) == if k / 64 == 0 && ConstantBit(constant, z) then Plus(bit, One(f)) else bit
  {
    hide PiRho, ConstantBit, Index, X, Y, Z;
  }

  // ----- One symbolic round refines one round on bits

  ghost predicate AreBitExprs<F>(f: Field<F>, s: seq<Expr<F>>) {
    forall k :: 0 <= k < |s| ==> IsBitExpr(f, s[k])
  }

  ghost function ExprBits<F>(f: Field<F>, s: seq<Expr<F>>, wit: seq<bool>): (bits: State)
    requires |s| == 1600
  {
    seq(1600, k requires 0 <= k < 1600 => ExprBit(f, s[k], wit))
  }

  function ColumnXor(s: State, x: nat, z: nat, count: nat): (bit: bool)
    requires x < 5 && z < 64 && count <= 5
  {
    if count == 0 then false else Xor(ColumnXor(s, x, z, count - 1), At(s, x, count - 1, z))
  }

  lemma ColumnXorIsParity(s: State, x: nat, z: nat)
    requires x < 5 && z < 64
    ensures ColumnXor(s, x, z, 5) == Parity(s, x, z)
  {
    hide At;
    assert ColumnXor(s, x, z, 1) == At(s, x, 0, z);
    assert ColumnXor(s, x, z, 3) == Xor(Xor(At(s, x, 0, z), At(s, x, 1, z)), At(s, x, 2, z));
  }

  lemma {:induction false} ColumnSumBit<F(!new)>(f: Field<F>, s: seq<Expr<F>>, wit: seq<bool>, x: nat, z: nat,
                                                 count: nat)
    requires LawfulField(f) && |s| == 1600 && AreBitExprs(f, s) && x < 5 && z < 64 && count <= 5
    ensures IsBitExpr(f, ColumnSum(f, s, x, z, count))
    ensures ExprBit(f, ColumnSum(f, s, x, z, count), wit) == ColumnXor(ExprBits(f, s, wit), x, z, count)
    decreases count
  {
    if count == 0 {
    } else {
      ColumnSumBit(f, s, wit, x, z, count - 1);
    }
  }

  lemma ParityExprBit<F(!new)>(f: Field<F>, s: seq<Expr<F>>, wit: seq<bool>, x: nat, z: nat)
    requires LawfulField(f) && |s| == 1600 && AreBitExprs(f, s) && x < 5 && z < 64
    ensures IsBitExpr(f, ParityExpr(f, s, x, z))
    ensures ExprBit(f, ParityExpr(f, s, x, z), wit) == Parity(ExprBits(f, s, wit), x, z)
  {
    ColumnSumBit(f, s, wit, x, z, 5);
    ColumnXorIsParity(ExprBits(f, s, wit), x, z);
  }

  lemma ThetaExprBits<F(!new)>(f: Field<F>, s: seq<Expr<F>>, wit: seq<bool>)
    requires LawfulField(f) && |s| == 1600 && AreBitExprs(f, s)
    ensures AreBitExprs(f, ThetaExprs(f, s))
    ensures ExprBits(f, ThetaExprs(f, s), wit) == Theta(ExprBits(f, s, wit))
  {
    hide ParityExpr, Parity, Index;
    forall k | 0 <= k < 1600
      ensures IsBitExpr(f, ThetaExprs(f, s)[k])
      ensures ExprBit(f, ThetaExprs(f, s)[k], wit) == Theta(ExprBits(f, s, wit))[k]
    {
      var x, z := X(k), Z(k);
      ParityExprBit(f, s, wit, (x + 4) % 5, z);
      ParityExprBit(f, s, wit, (x + 1) % 5, (z + 63) % 64);
    }
  }

  lemma PiRhoIs(x: nat, y: nat, z: nat)
    requires x < 5 && y < 5 && z < 64
    ensures var source := (x + 3 * y) % 5;
            PiRho(Index(x, y, z)) == Index(source, x, (z + 64 - RHO[source + 5 * x] % 64) % 64)
  {
    hide PiRho, Index, SourceLane;
    var source := (x + 3 * y) % 5;
    IndexIs(x, y, z);
    SourceLaneIs(x, y);
    PiRhoOfLane(x + 5 * y, z);
    OffsetSmall(source + 5 * x);
    IndexIs(source, x, (z + 64 - RHO[source + 5 * x]) % 64);
  }

  lemma DivMod64(n: nat, q: nat, r: nat)
    requires n == 64 * q + r && r < 64
    ensures n / 64 == q && n % 64 == r
  {
  }

  lemma PiRhoAt(s: State, x: nat, y: nat, z: nat)
    requires x < 5 && y < 5 && z < 64
    ensures s[PiRho(Index(x, y, z))] == At(Pi(Rho(s)), x, y, z)
  {
    hide Rho, Pi, PiRho, Index;
    PiRhoIs(x, y, z);
    PiAt(Rho(s), x, y, z);
    RhoAt(s, (x + 3 * y) % 5, x, z);
  }

  lemma ChiExprBit<F(!new)>(f: Field<F>, theta: seq<Expr<F>>, constant: nat, wit: seq<bool>, k: nat)
    requires LawfulField(f) && |theta| == 1600 && AreBitExprs(f, theta) && k < 1600
    ensures IsBitExpr(f, ChiExpr(f, theta, constant, k))
    ensures ExprBit(f, ChiExpr(f, theta, constant, k), wit)
         == At(Iota(Chi(Pi(Rho(ExprBits(f, theta, wit)))), constant), X(k), Y(k), Z(k))
  {
    hide PiRho, Rho, Pi, Chi, Iota, At, ConstantBit, Index;
    var bits := ExprBits(f, theta, wit);
    var moved := Pi(Rho(bits));
    var x, y, z := X(k), Y(k), Z(k);
    PiRhoAt(bits, x, y, z);
    PiRhoAt(bits, (x + 1) % 5, y, z);
    PiRhoAt(bits, (x + 2) % 5, y, z);
    ChiAt(moved, x, y, z);
    IotaAt(Chi(moved), constant, x, y, z);
    assert k / 64 == 0 <==> x == 0 && y == 0;
    assert ExprBit(f, One(f), wit);
    var first := theta[PiRho(Index(x, y, z))];
    var second := theta[PiRho(Index((x + 1) % 5, y, z))];
    var third := theta[PiRho(Index((x + 2) % 5, y, z))];
    var bit := Plus(first, Times(Plus(One(f), second), third));
    assert IsBitExpr(f, Plus(One(f), second));
    assert IsBitExpr(f, bit);
    assert ExprBit(f, Plus(One(f), second), wit) == !ExprBit(f, second, wit);
    assert ExprBit(f, bit, wit) == ChiBit(moved, x, y, z);
  }

  /** Evaluating one symbolic round gives the round of the evaluated state. */
  lemma RoundExprsRefine<F(!new)>(f: Field<F>, s: seq<Expr<F>>, constant: nat, wit: seq<bool>)
    requires LawfulField(f) && |s| == 1600 && AreBitExprs(f, s)
    ensures AreBitExprs(f, RoundExprs(f, s, constant))
    ensures ExprBits(f, RoundExprs(f, s, constant), wit) == Rnd(ExprBits(f, s, wit), constant)
  {
    hide ThetaExprs, ChiExpr, Theta, Rho, Pi, Chi, Iota;
    var theta := ThetaExprs(f, s);
    var after := Rnd(ExprBits(f, s, wit), constant);
    ThetaExprBits(f, s, wit);
    forall k | 0 <= k < 1600
      ensures IsBitExpr(f, RoundExprs(f, s, constant)[k])
      ensures ExprBit(f, RoundExprs(f, s, constant)[k], wit) == after[k]
    {
      ChiExprBit(f, theta, constant, wit, k);
      IndexOfCoordinates(k);
    }
  }

  lemma {:induction false} ExprRoundsRefine<F(!new)>(f: Field<F>, s: seq<Expr<F>>, first: nat, count: nat,
                                                     wit: seq<bool>)
    requires LawfulField(f) && |s| == 1600 && AreBitExprs(f, s) && first + count <= |RC|
    ensures AreBitExprs(f, ExprRounds(f, s, first, count))
    ensures ExprBits(f, ExprRounds(f, s, first, count), wit) == Rounds(ExprBits(f, s, wit), first, count)
    decreases count
  {
    hide RoundExprs, Rnd, ExprBits;
    if count == 0 {
    } else {
      ExprRoundsRefine(f, s, first, count - 1, wit);
      RoundExprsRefine(f, ExprRounds(f, s, first, count - 1), RC[first + count - 1], wit);
    }
  }

  // ----- Degrees

  ghost predicate DegreesAtMost<F>(s: seq<Expr<F>>, bound: nat) {
    forall k :: 0 <= k < |s| ==> Degree(s[k]) <= bound
  }

  lemma {:induction false} ColumnSumDegree<F>(f: Field<F>, s: seq<Expr<F>>, bound: nat, x: nat, z: nat, count: nat)
    requires |s| == 1600 && DegreesAtMost(s, bound) && x < 5 && z < 64 && count <= 5
    ensures Degree(ColumnSum(f, s, x, z, count)) <= bound
    decreases count
  {
    if count == 0 {
    } else {
      ColumnSumDegree(f, s, bound, x, z, count - 1);
    }
  }

  /** Theta is linear and chi doubles, so r rounds have degree at most 2^r. */
  lemma RoundExprsDegree<F>(f: Field<F>, s: seq<Expr<F>>, constant: nat, bound: nat)
    requires |s| == 1600 && DegreesAtMost(s, bound)
    ensures DegreesAtMost(RoundExprs(f, s, constant), 2 * bound)
  {
    hide ColumnSum, PiRho, Index, ConstantBit;
    var theta := ThetaExprs(f, s);
    forall k | 0 <= k < 1600
      ensures Degree(theta[k]) <= bound
    {
      ColumnSumDegree(f, s, bound, (X(k) + 4) % 5, Z(k), 5);
      ColumnSumDegree(f, s, bound, (X(k) + 1) % 5, (Z(k) + 63) % 64, 5);
    }
    forall k | 0 <= k < 1600
      ensures Degree(RoundExprs(f, s, constant)[k]) <= 2 * bound
    {
      ChiExprDegree(f, theta, constant, bound, k);
    }
  }

  lemma ChiExprDegree<F>(f: Field<F>, theta: seq<Expr<F>>, constant: nat, bound: nat, k: nat)
    requires |theta| == 1600 && DegreesAtMost(theta, bound) && k < 1600
    ensures Degree(ChiExpr(f, theta, constant, k)) <= 2 * bound
  {
    hide PiRho, Index, ConstantBit;
    var x, y, z := X(k), Y(k), Z(k);
    var first := theta[PiRho(Index(x, y, z))];
    var second := theta[PiRho(Index((x + 1) % 5, y, z))];
    var third := theta[PiRho(Index((x + 2) % 5, y, z))];
    assert Degree(Plus(One(f), second)) <= bound;
    assert Degree(Plus(first, Times(Plus(One(f), second), third))) <= 2 * bound;
  }

  lemma {:induction false} ExprRoundsDegree<F>(f: Field<F>, s: seq<Expr<F>>, first: nat, count: nat)
    requires |s| == 1600 && DegreesAtMost(s, 1) && first + count <= |RC|
    ensures DegreesAtMost(ExprRounds(f, s, first, count), Pow2(count))
    decreases count
  {
    hide RoundExprs;
    if count == 0 {
    } else {
      ExprRoundsDegree(f, s, first, count - 1);
      RoundExprsDegree(f, ExprRounds(f, s, first, count - 1), RC[first + count - 1], Pow2(count - 1));
    }
  }
}
