/** The tables of rotation offsets and round constants are the ones FIPS 202
    defines: offsets by the walk of Algorithm 2, constants by the linear
    feedback shift register of Algorithm 5. */
module KeccakConstants {
  import opened Fips202

  /** The lane (x, y) visited at step t of Algorithm 2. */
  function RhoPoint(t: nat): (point: (nat, nat))
    ensures point.0 < 5 && point.1 < 5
  {
    if t == 0 then (1, 0)
    else
      var (x, y) := RhoPoint(t - 1);
      (y, (2 * x + 3 * y) % 5)
  }

  /** (t + 1) t / 2, as the sum 1 + ... + t. */
  function Triangular(t: nat): (n: nat) {
    if t == 0 then 0 else Triangular(t - 1) + t
  }

  lemma RhoWalk()
    ensures RhoPoint(0) == (1, 0) && Triangular(1) == 1
    ensures RhoPoint(1) == (0, 2) && Triangular(2) == 3
    ensures RhoPoint(2) == (2, 1) && Triangular(3) == 6
    ensures RhoPoint(3) == (1, 2) && Triangular(4) == 10
    ensures RhoPoint(4) == (2, 3) && Triangular(5) == 15
    ensures RhoPoint(5) == (3, 3) && Triangular(6) == 21
    ensures RhoPoint(6) == (3, 0) && Triangular(7) == 28
    ensures RhoPoint(7) == (0, 1) && Triangular(8) == 36
    ensures RhoPoint(8) == (1, 3) && Triangular(9) == 45
    ensures RhoPoint(9) == (3, 1) && Triangular(10) == 55
    ensures RhoPoint(10) == (1, 4) && Triangular(11) == 66
    ensures RhoPoint(11) == (4, 4) && Triangular(12) == 78
    ensures RhoPoint(12) == (4, 0) && Triangular(13) == 91
    ensures RhoPoint(13) == (0, 3) && Triangular(14) == 105
    ensures RhoPoint(14) == (3, 4) && Triangular(15) == 120
    ensures RhoPoint(15) == (4, 3) && Triangular(16) == 136
    ensures RhoPoint(16) == (3, 2) && Triangular(17) == 153
    ensures RhoPoint(17) == (2, 2) && Triangular(18) == 171
    ensures RhoPoint(18) == (2, 0) && Triangular(19) == 190
    ensures RhoPoint(19) == (0, 4) && Triangular(20) == 210
    ensures RhoPoint(20) == (4, 2) && Triangular(21) == 231
    ensures RhoPoint(21) == (2, 4) && Triangular(22) == 253
    ensures RhoPoint(22) == (4, 1) && Triangular(23) == 276
    ensures RhoPoint(23) == (1, 1) && Triangular(24) == 300
  {
  }

  lemma RhoOffsets(t: nat)
    requires t < 24
    ensures RHO[0] == 0
    ensures RHO[RhoPoint(t).0 + 5 * RhoPoint(t).1] == Triangular(t + 1) % 64
  {
    hide RhoPoint, Triangular;
    RhoWalk();
    if t < 12 {
      assert t == 0 || t == 1 || t == 2 || t == 3 || t == 4 || t == 5
          || t == 6 || t == 7 || t == 8 || t == 9 || t == 10 || t == 11;
    } else {
      assert t == 12 || t == 13 || t == 14 || t == 15 || t == 16 || t == 17
          || t == 18 || t == 19 || t == 20 || t == 21 || t == 22 || t == 23;
    }
  }

  /** The walk visits every lane other than (0, 0), so the offsets above
      determine the whole table. */
  lemma RhoPointsCover(x: nat, y: nat)
    requires x < 5 && y < 5 && (x, y) != (0, 0)
    ensures exists t: nat :: t < 24 && RhoPoint(t) == (x, y)
  {
    hide RhoPoint, Triangular;
    RhoWalk();
  }

  /** Register after t steps of Algorithm 5, R[0] in the lowest bit. */
  function Register(t: nat): (r: bv8) {
    if t == 0 then 1 else Shift(Register(t - 1))
  }

  function Shift(r: bv8): (result: bv8) {
    if r >= 128 then (r << 1) ^ 0x71 else r << 1
  }

  function ConstantFromRegister(r0: bv8, r1: bv8, r2: bv8, r3: bv8, r4: bv8, r5: bv8, r6: bv8): (n: nat) {
    (if r0 & 1 == 1 then 0x1 else 0) + (if r1 & 1 == 1 then 0x2 else 0) +
    (if r2 & 1 == 1 then 0x8 else 0) + (if r3 & 1 == 1 then 0x80 else 0) +
    (if r4 & 1 == 1 then 0x8000 else 0) + (if r5 & 1 == 1 then 0x80000000 else 0) +
    (if r6 & 1 == 1 then 0x8000000000000000 else 0)
  }

  /** Section 3.2.5: bit 2^j - 1 of the constant is rc(j + 7 ir). */
  function RoundConstant(ir: nat): (n: nat) {
    ConstantFromRegister(Register(7 * ir), Register(7 * ir + 1), Register(7 * ir + 2), Register(7 * ir + 3),
                         Register(7 * ir + 4), Register(7 * ir + 5), Register(7 * ir + 6))
  }

  lemma Seven(ir: nat, r: bv8)
    requires Register(7 * ir) == r
    ensures var r1 := Shift(r); var r2 := Shift(r1); var r3 := Shift(r2);
            var r4 := Shift(r3); var r5 := Shift(r4); var r6 := Shift(r5);
            RoundConstant(ir) == ConstantFromRegister(r, r1, r2, r3, r4, r5, r6)
            && Register(7 * (ir + 1)) == Shift(r6)
  {
    hide Shift, ConstantFromRegister;
    assert Register(7 * ir + 1) == Shift(r);
    assert Register(7 * ir + 2) == Shift(Shift(r));
    assert Register(7 * ir + 3) == Shift(Shift(Shift(r)));
    assert Register(7 * ir + 4) == Shift(Shift(Shift(Shift(r))));
    assert Register(7 * ir + 5) == Shift(Shift(Shift(Shift(Shift(r)))));
    assert Register(7 * ir + 6) == Shift(Shift(Shift(Shift(Shift(Shift(r))))));
    assert Register(7 * (ir + 1)) == Shift(Register(7 * ir + 6));
  }

  lemma RegisterStart()
    ensures Register(0) == 1
  {
  }

  lemma Constants0To6()
    ensures Register(42) == 53
    ensures forall ir: nat :: 0 <= ir < 6 ==> RC[ir] == RoundConstant(ir)
  {
    hide Register, RoundConstant;
    RegisterStart();
    Seven(0, 1);
    Seven(1, 128);
    Seven(2, 216);
    Seven(3, 26);
    Seven(4, 223);
    Seven(5, 9);
  }

  lemma Constants6To12()
    requires Register(42) == 53
    ensures Register(84) == 213
    ensures forall ir: nat :: 6 <= ir < 12 ==> RC[ir] == RoundConstant(ir)
  {
    hide Register, RoundConstant;
    Seven(6, 53);
    Seven(7, 79);
    Seven(8, 202);
    Seven(9, 112);
    Seven(10, 65);
    Seven(11, 236);
  }

  lemma Constants12To18()
    requires Register(84) == 213
    ensures Register(126) == 242
    ensures forall ir: nat :: 12 <= ir < 18 ==> RC[ir] == RoundConstant(ir)
  {
    hide Register, RoundConstant;
    Seven(12, 213);
    Seven(13, 205);
    Seven(14, 99);
    Seven(15, 171);
    Seven(16, 170);
    Seven(17, 42);
  }

  lemma Constants18To24()
    requires Register(126) == 242
    ensures Register(168) == 142
    ensures forall ir: nat :: 18 <= ir < 24 ==> RC[ir] == RoundConstant(ir)
  {
    hide Register, RoundConstant;
    Seven(18, 242);
    Seven(19, 232);
    Seven(20, 55);
    Seven(21, 62);
    Seven(22, 11);
    Seven(23, 68);
  }

  lemma RoundConstants(ir: nat)
    requires ir < 24
    ensures RC[ir] == RoundConstant(ir)
  {
    hide Register, RoundConstant;
    Constants0To6();
    Constants6To12();
    Constants12To18();
    Constants18To24();
  }
}
