/** Keccak-f[1600] is a bijection on states (FIPS 202, section 3.3): every step
    mapping has an explicit two-sided inverse. */
module Permutation {
  import opened Bits
  import opened Fips202
  import opened Keccak

  // ----- Theta: a power of the column-parity operator is the identity

  /** The 320 column parities of a state, the one of (x, z) at 64x + z. */
  type Plane = p: seq<bool> | |p| == 320 witness seq(320, i => false)

  function PlaneAt(p: Plane, x: nat, z: nat): (bit: bool)
    requires x < 5 && z < 64
  {
    p[64 * x + z]
  }

  lemma PlanesEqual(p: Plane, q: Plane)
    requires forall x: nat, z: nat :: x < 5 && z < 64 ==> PlaneAt(p, x, z) == PlaneAt(q, x, z)
    ensures p == q
  {
    forall k | 0 <= k < 320
      ensures p[k] == q[k]
    {
      assert PlaneAt(p, k / 64, k % 64) == PlaneAt(q, k / 64, k % 64);
    }
  }

  function Columns(s: State): (r: Plane) {
    seq(320, k requires 0 <= k < 320 => Parity(s, k / 64, k % 64))
  }

  function Minus(x: nat, a: nat, n: nat): (r: nat)
    requires x < n && a < n
    ensures r < n
  {
    if a <= x then x - a else x + n - a
  }

  function Twice(a: nat, n: nat): (r: nat)
    requires a < n
    ensures r < n
  {
    if 2 * a < n then 2 * a else 2 * a - n
  }

  lemma MinusTwice(x: nat, a: nat, n: nat)
    requires x < n && a < n
    ensures Minus(Minus(x, a, n), a, n) == Minus(x, Twice(a, n), n)
  {
  }

  lemma MinusCommutes(x: nat, a: nat, b: nat, n: nat)
    requires x < n && a < n && b < n
    ensures Minus(Minus(x, a, n), b, n) == Minus(Minus(x, b, n), a, n)
  {
  }

  function SpreadBit(p: Plane, a: nat, b: nat, c: nat, x: nat, z: nat): (bit: bool)
    requires x < 5 && z < 64 && a < 5 && b < 5 && c < 64
  {
    Xor(PlaneAt(p, x, z), Xor(PlaneAt(p, Minus(x, a, 5), z), PlaneAt(p, Minus(x, b, 5), Minus(z, c, 64))))
  }

  /** Multiplication by the three-term polynomial 1 + X^a + X^b Z^c. */
  function Spread(p: Plane, a: nat, b: nat, c: nat): (r: Plane)
    requires a < 5 && b < 5 && c < 64
  {
    seq(320, k requires 0 <= k < 320 => SpreadBit(p, a, b, c, k / 64, k % 64))
  }

  lemma SpreadAt(p: Plane, a: nat, b: nat, c: nat, x: nat, z: nat)
    requires x < 5 && z < 64 && a < 5 && b < 5 && c < 64
    ensures PlaneAt(Spread(p, a, b, c), x, z) == SpreadBit(p, a, b, c, x, z)
  {
    assert (64 * x + z) / 64 == x && (64 * x + z) % 64 == z;
  }

  /** Squaring is linear in characteristic two: it doubles the exponents. */
  lemma SpreadSquare(p: Plane, a: nat, b: nat, c: nat)
    requires a < 5 && b < 5 && c < 64
    ensures Spread(Spread(p, a, b, c), a, b, c) == Spread(p, Twice(a, 5), Twice(b, 5), Twice(c, 64))
  {
    hide Spread, SpreadBit, PlaneAt;
    var twice := Spread(Spread(p, a, b, c), a, b, c);
    forall x: nat, z: nat | x < 5 && z < 64
      ensures PlaneAt(twice, x, z) == PlaneAt(Spread(p, Twice(a, 5), Twice(b, 5), Twice(c, 64)), x, z)
    {
      SpreadSquareAt(p, a, b, c, x, z);
    }
    PlanesEqual(twice, Spread(p, Twice(a, 5), Twice(b, 5), Twice(c, 64)));
  }

  lemma SpreadSquareAt(p: Plane, a: nat, b: nat, c: nat, x: nat, z: nat)
    requires a < 5 && b < 5 && c < 64 && x < 5 && z < 64
    ensures PlaneAt(Spread(Spread(p, a, b, c), a, b, c), x, z)
         == PlaneAt(Spread(p, Twice(a, 5), Twice(b, 5), Twice(c, 64)), x, z)
  {
    hide Spread, PlaneAt, Minus, Twice;
    var once := Spread(p, a, b, c);
    var xa, xb, zc := Minus(x, a, 5), Minus(x, b, 5), Minus(z, c, 64);
    MinusTwice(x, a, 5);
    MinusTwice(x, b, 5);
    MinusTwice(z, c, 64);
    MinusCommutes(x, a, b, 5);
    SpreadAt(once, a, b, c, x, z);
    SpreadAt(p, a, b, c, x, z);
    SpreadAt(p, a, b, c, xa, z);
    SpreadAt(p, a, b, c, xb, zc);
    SpreadAt(p, Twice(a, 5), Twice(b, 5), Twice(c, 64), x, z);
  }

  /** The five bits of one plane column z, and one parity step 1 + X^4 + X on them. */
  function ColumnBits(p: Plane, z: nat): (bits: seq<bool>)
    requires z < 64
    ensures |bits| == 5
  {
    [PlaneAt(p, 0, z), PlaneAt(p, 1, z), PlaneAt(p, 2, z), PlaneAt(p, 3, z), PlaneAt(p, 4, z)]
  }

  function ColumnStep(bits: seq<bool>): (r: seq<bool>)
    requires |bits| == 5
    ensures |r| == 5
  {
    [Xor(bits[0], Xor(bits[1], bits[4])), Xor(bits[1], Xor(bits[2], bits[0])), Xor(bits[2], Xor(bits[3], bits[1])),
     Xor(bits[3], Xor(bits[4], bits[2])), Xor(bits[4], Xor(bits[0], bits[3]))]
  }

  lemma ColumnStepCube(bits: seq<bool>)
    requires |bits| == 5
    ensures ColumnStep(ColumnStep(ColumnStep(bits))) == bits
  {
  }

  lemma SpreadColumn(p: Plane, z: nat)
    requires z < 64
    ensures ColumnBits(Spread(p, 4, 1, 0), z) == ColumnStep(ColumnBits(p, z))
  {
    hide Spread, PlaneAt;
    SpreadAt(p, 4, 1, 0, 0, z);
    SpreadAt(p, 4, 1, 0, 1, z);
    SpreadAt(p, 4, 1, 0, 2, z);
    SpreadAt(p, 4, 1, 0, 3, z);
    SpreadAt(p, 4, 1, 0, 4, z);
  }

  /** The cube of 1 + X^4 + X is 1, as X^5 = 1. */
  lemma SpreadCube(p: Plane)
    ensures Spread(Spread(Spread(p, 4, 1, 0), 4, 1, 0), 4, 1, 0) == p
  {
    hide Spread, PlaneAt, ColumnStep;
    var one := Spread(p, 4, 1, 0);
    var two := Spread(one, 4, 1, 0);
    var three := Spread(two, 4, 1, 0);
    forall x: nat, z: nat | x < 5 && z < 64
      ensures PlaneAt(three, x, z) == PlaneAt(p, x, z)
    {
      SpreadColumn(p, z);
      SpreadColumn(one, z);
      SpreadColumn(two, z);
      ColumnStepCube(ColumnBits(p, z));
      assert ColumnBits(three, z)[x] == ColumnBits(p, z)[x];
    }
    PlanesEqual(three, p);
  }

  /** n applications of the parity operator of theta, 1 + X + X^4 Z. */
  function Power(p: Plane, n: nat): (r: Plane) {
    if n == 0 then p else Spread(Power(p, n - 1), 1, 4, 1)
  }

  lemma {:induction false} PowerSum(p: Plane, m: nat, n: nat)
    ensures Power(Power(p, m), n) == Power(p, m + n)
  {
    hide Spread;
    if n == 0 {
    } else {
      assert m + n - 1 == m + (n - 1);
      PowerSum(p, m, n - 1);
    }
  }

  ghost predicate IsPower(n: nat, a: nat, b: nat, c: nat)
    requires a < 5 && b < 5 && c < 64
  {
    forall p: Plane :: Power(p, n) == Spread(p, a, b, c)
  }

  lemma PowerDouble(n: nat, a: nat, b: nat, c: nat)
    requires a < 5 && b < 5 && c < 64
    requires IsPower(n, a, b, c)
    ensures IsPower(2 * n, Twice(a, 5), Twice(b, 5), Twice(c, 64))
  {
    hide Power, Spread;
    forall p: Plane
      ensures Power(p, 2 * n) == Spread(p, Twice(a, 5), Twice(b, 5), Twice(c, 64))
    {
      PowerSum(p, n, n);
      SpreadSquare(p, a, b, c);
    }
  }

  lemma Power64()
    ensures IsPower(64, 4, 1, 0)
  {
    PowerOne();
    hide IsPower, Power, Spread;
    PowerDouble(1, 1, 4, 1);
    PowerDouble(2, 2, 3, 2);
    PowerDouble(4, 4, 1, 4);
    PowerDouble(8, 3, 2, 8);
    PowerDouble(16, 1, 4, 16);
    PowerDouble(32, 2, 3, 32);
  }

  lemma PowerOne()
    ensures IsPower(1, 1, 4, 1)
  {
    forall p: Plane
      ensures Power(p, 1) == Spread(p, 1, 4, 1)
    {
      assert Power(p, 0) == p;
    }
  }

  /** The 192nd power of the parity operator is the identity. */
  lemma Power192(p: Plane)
    ensures Power(p, 192) == p
  {
    hide Power, Spread;
    Power64();
    PowerSum(p, 64, 64);
    PowerSum(p, 128, 64);
    SpreadCube(p);
  }

  lemma ThetaSpreads(s: State, x: nat, y: nat, z: nat)
    requires x < 5 && y < 5 && z < 64
    ensures At(Theta(s), x, y, z)
         == Xor(At(s, x, y, z), Xor(PlaneAt(Columns(s), x, z), PlaneAt(Spread(Columns(s), 1, 4, 1), x, z)))
  {
    hide Theta, At, Parity, Spread;
    ThetaAt(s, x, y, z);
    SpreadAt(Columns(s), 1, 4, 1, x, z);
    var left, right := (x + 4) % 5, (x + 1) % 5;
    assert (64 * left + z) / 64 == left && (64 * left + z) % 64 == z;
    var before := (z + 63) % 64;
    assert (64 * right + before) / 64 == right && (64 * right + before) % 64 == before;
    assert (64 * x + z) / 64 == x && (64 * x + z) % 64 == z;
  }

  lemma ThetaColumns(s: State)
    ensures Columns(Theta(s)) == Spread(Columns(s), 1, 4, 1)
  {
    hide Theta, At, Spread;
    forall x: nat, z: nat | x < 5 && z < 64
      ensures PlaneAt(Columns(Theta(s)), x, z) == PlaneAt(Spread(Columns(s), 1, 4, 1), x, z)
    {
      assert (64 * x + z) / 64 == x && (64 * x + z) % 64 == z;
      ThetaSpreads(s, x, 0, z);
      ThetaSpreads(s, x, 1, z);
      ThetaSpreads(s, x, 2, z);
      ThetaSpreads(s, x, 3, z);
      ThetaSpreads(s, x, 4, z);
    }
    PlanesEqual(Columns(Theta(s)), Spread(Columns(s), 1, 4, 1));
  }

  function ThetaPower(s: State, n: nat): (t: State) {
    if n == 0 then s else Theta(ThetaPower(s, n - 1))
  }

  /** Iterated theta telescopes: it adds the columns and their n-th power. */
  lemma {:induction false} ThetaPowerAt(s: State, n: nat, x: nat, y: nat, z: nat)
    requires x < 5 && y < 5 && z < 64
    ensures Columns(ThetaPower(s, n)) == Power(Columns(s), n)
    ensures At(ThetaPower(s, n), x, y, z)
         == Xor(At(s, x, y, z), Xor(PlaneAt(Columns(s), x, z), PlaneAt(Power(Columns(s), n), x, z)))
  {
    hide Theta, At, Spread, Columns, PlaneAt;
    if n == 0 {
    } else {
      ThetaPowerAt(s, n - 1, x, y, z);
      ThetaColumns(ThetaPower(s, n - 1));
      ThetaSpreads(ThetaPower(s, n - 1), x, y, z);
    }
  }

  lemma ThetaOrder(s: State)
    ensures ThetaPower(s, 192) == s
  {
    hide ThetaPower, At, Power;
    forall x: nat, y: nat, z: nat | x < 5 && y < 5 && z < 64
      ensures At(ThetaPower(s, 192), x, y, z) == At(s, x, y, z)
    {
      ThetaPowerAt(s, 192, x, y, z);
      Power192(Columns(s));
    }
    StatesEqual(ThetaPower(s, 192), s);
  }

  lemma {:induction false} ThetaPowerFirst(s: State, n: nat)
    ensures ThetaPower(Theta(s), n) == ThetaPower(s, n + 1)
  {
    hide Theta;
    if n == 0 {
      assert ThetaPower(s, 0) == s;
    } else {
      ThetaPowerFirst(s, n - 1);
    }
  }

  lemma ThetaPowerLast(s: State, n: nat)
    ensures Theta(ThetaPower(s, n)) == ThetaPower(s, n + 1)
  {
  }

  function ThetaInverse(s: State): (t: State) {
    ThetaPower(s, 191)
  }

  lemma ThetaBijective(s: State)
    ensures ThetaInverse(Theta(s)) == s && Theta(ThetaInverse(s)) == s
  {
    ThetaPowerFirst(s, 191);
    ThetaPowerLast(s, 191);
    hide ThetaPower, Theta;
    ThetaOrder(s);
  }

  // ----- Rho and pi move bits

  function RhoInverse(s: State): (t: State) {
    seq(1600, k requires 0 <= k < 1600 => At(s, X(k), Y(k), (Z(k) + RHO[X(k) + 5 * Y(k)]) % 64))
  }

  function PiInverse(s: State): (t: State) {
    seq(1600, k requires 0 <= k < 1600 => At(s, Y(k), (2 * X(k) + 3 * Y(k)) % 5, Z(k)))
  }

  lemma RhoInverseAt(s: State, x: nat, y: nat, z: nat)
    requires x < 5 && y < 5 && z < 64
    ensures At(RhoInverse(s), x, y, z) == At(s, x, y, (z + RHO[x + 5 * y]) % 64)
  {
    Coordinates(x, y, z);
  }

  lemma PiInverseAt(s: State, x: nat, y: nat, z: nat)
    requires x < 5 && y < 5 && z < 64
    ensures At(PiInverse(s), x, y, z) == At(s, y, (2 * x + 3 * y) % 5, z)
  {
    Coordinates(x, y, z);
  }

  lemma RotateBack(z: nat, offset: nat)
    requires z < 64 && offset < 64
    ensures offset % 64 == offset
    ensures ((z + offset) % 64 + 64 - offset) % 64 == z
    ensures ((z + 64 - offset) % 64 + offset) % 64 == z
  {
  }

  lemma RhoInverseBits(s: State, x: nat, y: nat, z: nat)
    requires x < 5 && y < 5 && z < 64
    ensures At(RhoInverse(Rho(s)), x, y, z) == At(s, x, y, z)
    ensures At(Rho(RhoInverse(s)), x, y, z) == At(s, x, y, z)
  {
    hide At, Rho, RhoInverse;
    var offset := RHO[x + 5 * y];
    assert offset < 64;
    RotateBack(z, offset);
    var up, down := (z + offset) % 64, (z + 64 - offset) % 64;
    RhoInverseAt(Rho(s), x, y, z);
    RhoAt(s, x, y, up);
    RhoAt(RhoInverse(s), x, y, z);
    RhoInverseAt(s, x, y, down);
  }

  lemma RhoBijective(s: State)
    ensures RhoInverse(Rho(s)) == s && Rho(RhoInverse(s)) == s
  {
    hide At, Rho, RhoInverse;
    forall x: nat, y: nat, z: nat | x < 5 && y < 5 && z < 64
      ensures At(RhoInverse(Rho(s)), x, y, z) == At(s, x, y, z)
      ensures At(Rho(RhoInverse(s)), x, y, z) == At(s, x, y, z)
    {
      RhoInverseBits(s, x, y, z);
    }
    StatesEqual(RhoInverse(Rho(s)), s);
    StatesEqual(Rho(RhoInverse(s)), s);
  }

  /** The moves of pi and of its inverse undo each other on lanes. */
  lemma LaneMoves(x: nat, y: nat)
    requires x < 5 && y < 5
    ensures (y + 3 * ((2 * x + 3 * y) % 5)) % 5 == x
    ensures (2 * ((x + 3 * y) % 5) + 3 * x) % 5 == y
  {
    var a, b := (2 * x + 3 * y) / 5, (x + 3 * y) / 5;
    Residue(y + 3 * ((2 * x + 3 * y) % 5), 2 * y + x - 3 * a, x);
    Residue(2 * ((x + 3 * y) % 5) + 3 * x, x + y - 2 * b, y);
  }

  lemma Residue(n: int, q: int, r: int)
    requires n == 5 * q + r && 0 <= r < 5
    ensures n % 5 == r
  {
  }

  lemma PiInverseBits(s: State, x: nat, y: nat, z: nat)
    requires x < 5 && y < 5 && z < 64
    ensures At(PiInverse(Pi(s)), x, y, z) == At(s, x, y, z)
    ensures At(Pi(PiInverse(s)), x, y, z) == At(s, x, y, z)
  {
    hide At, Pi, PiInverse;
    LaneMoves(x, y);
    PiInverseAt(Pi(s), x, y, z);
    PiAt(s, y, (2 * x + 3 * y) % 5, z);
    PiAt(PiInverse(s), x, y, z);
    PiInverseAt(s, (x + 3 * y) % 5, x, z);
  }

  lemma PiBijective(s: State)
    ensures PiInverse(Pi(s)) == s && Pi(PiInverse(s)) == s
  {
    hide At, Pi, PiInverse;
    forall x: nat, y: nat, z: nat | x < 5 && y < 5 && z < 64
      ensures At(PiInverse(Pi(s)), x, y, z) == At(s, x, y, z)
      ensures At(Pi(PiInverse(s)), x, y, z) == At(s, x, y, z)
    {
      PiInverseBits(s, x, y, z);
    }
    StatesEqual(PiInverse(Pi(s)), s);
    StatesEqual(Pi(PiInverse(s)), s);
  }

  // ----- Chi has order four on every row

  function ChiInverse(s: State): (t: State) {
    Chi(Chi(Chi(s)))
  }

  function Row(s: State, y: nat, z: nat): (row: seq<bool>)
    requires y < 5 && z < 64
    ensures |row| == 5
  {
    [At(s, 0, y, z), At(s, 1, y, z), At(s, 2, y, z), At(s, 3, y, z), At(s, 4, y, z)]
  }

  function ChiRow(row: seq<bool>): (r: seq<bool>)
    requires |row| == 5
    ensures |r| == 5
  {
    [Xor(row[0], !row[1] && row[2]), Xor(row[1], !row[2] && row[3]), Xor(row[2], !row[3] && row[4]),
     Xor(row[3], !row[4] && row[0]), Xor(row[4], !row[0] && row[1])]
  }

  lemma ChiRowOrder(row: seq<bool>)
    requires |row| == 5
    ensures ChiRow(ChiRow(ChiRow(ChiRow(row)))) == row
  {
    var a, b, c, d, e := row[0], row[1], row[2], row[3], row[4];
    assert row == [a, b, c, d, e];
  }

  lemma ChiOnRow(s: State, y: nat, z: nat)
    requires y < 5 && z < 64
    ensures Row(Chi(s), y, z) == ChiRow(Row(s, y, z))
  {
    hide At, Chi;
    ChiAt(s, 0, y, z);
    ChiAt(s, 1, y, z);
    ChiAt(s, 2, y, z);
    ChiAt(s, 3, y, z);
    ChiAt(s, 4, y, z);
  }

  lemma ChiOrder(s: State)
    ensures Chi(Chi(Chi(Chi(s)))) == s
  {
    hide At, Chi, ChiRow;
    var s4 := Chi(Chi(Chi(Chi(s))));
    forall x: nat, y: nat, z: nat | x < 5 && y < 5 && z < 64
      ensures At(s4, x, y, z) == At(s, x, y, z)
    {
      ChiOnRow(s, y, z);
      ChiOnRow(Chi(s), y, z);
      ChiOnRow(Chi(Chi(s)), y, z);
      ChiOnRow(Chi(Chi(Chi(s))), y, z);
      ChiRowOrder(Row(s, y, z));
      assert Row(s4, y, z)[x] == Row(s, y, z)[x];
    }
    StatesEqual(s4, s);
  }

  lemma IotaInvolution(s: State, constant: nat)
    ensures Iota(Iota(s, constant), constant) == s
  {
    hide At, Iota, ConstantBit;
    forall x: nat, y: nat, z: nat | x < 5 && y < 5 && z < 64
      ensures At(Iota(Iota(s, constant), constant), x, y, z) == At(s, x, y, z)
    {
      IotaAt(Iota(s, constant), constant, x, y, z);
      IotaAt(s, constant, x, y, z);
    }
    StatesEqual(Iota(Iota(s, constant), constant), s);
  }

  // ----- The permutation

  function RndInverse(s: State, constant: nat): (t: State) {
    ThetaInverse(RhoInverse(PiInverse(ChiInverse(Iota(s, constant)))))
  }

  lemma RndBijective(s: State, constant: nat)
    ensures RndInverse(Rnd(s, constant), constant) == s
    ensures Rnd(RndInverse(s, constant), constant) == s
  {
    hide Iota, Chi, Pi, PiInverse, Rho, RhoInverse, Theta, ThetaInverse;
    ThetaBijective(s);
    RhoBijective(Theta(s));
    PiBijective(Rho(Theta(s)));
    ChiOrder(Pi(Rho(Theta(s))));
    IotaInvolution(Chi(Pi(Rho(Theta(s)))), constant);
    var a := Iota(s, constant);
    IotaInvolution(s, constant);
    ChiOrder(a);
    PiBijective(ChiInverse(a));
    RhoBijective(PiInverse(ChiInverse(a)));
    ThetaBijective(RhoInverse(PiInverse(ChiInverse(a))));
  }

  function RoundsInverse(s: State, first: nat, count: nat): (t: State)
    requires first + count <= |RC|
    decreases count
  {
    if count == 0 then s
    else RoundsInverse(RndInverse(s, RC[first + count - 1]), first, count - 1)
  }

  lemma {:induction false} RoundsBijective(s: State, first: nat, count: nat)
    requires first + count <= |RC|
    ensures RoundsInverse(Rounds(s, first, count), first, count) == s
    ensures Rounds(RoundsInverse(s, first, count), first, count) == s
    decreases count
  {
    hide Rnd, RndInverse;
    if count == 0 {
    } else {
      var constant := RC[first + count - 1];
      RoundsBijective(s, first, count - 1);
      RndBijective(Rounds(s, first, count - 1), constant);
      RoundsBijective(RndInverse(s, constant), first, count - 1);
      RndBijective(s, constant);
    }
  }

  function KeccakFInverse(s: State): (t: State) {
    RoundsInverse(s, 0, |RC|)
  }

  /** Keccak-f[1600] is a permutation of the states. */
  lemma KeccakFBijective(s: State)
    ensures KeccakFInverse(KeccakF(s)) == s
    ensures KeccakF(KeccakFInverse(s)) == s
  {
    RoundsBijective(s, 0, |RC|);
  }

  /** Hence the native permutation of lanes is injective. */
  lemma NativePermutationInjective(a: Lanes, b: Lanes)
    requires KeccakF(StateBits(a)) == KeccakF(StateBits(b))
    ensures a == b
  {
    hide KeccakF, KeccakFInverse, StateBits;
    KeccakFBijective(StateBits(a));
    KeccakFBijective(StateBits(b));
    StateBitsInjective(a, b);
  }
}
