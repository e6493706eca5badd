/** The combinational ALU of the execution unit, wire by wire. */
module Alu {
  import opened Arith
  import opened Bits
  import opened BitReverse

  /** A four-bit function code. */
  type Code = n: nat | n < 16

  type Xlen = x: Word | |x| == 64 witness Fill(false, 64)

  function Literal(n: nat): Xlen {
    FromNat(n, 64)
  }

  /** The log-step bit reversal in front of and behind the right shifter. */
  function Reverse64(x: Xlen): Xlen {
    var x32 := Swap(x, 32, Literal(0xffff_ffff), Literal(0xffff_ffff_0000_0000));
    var x16 := Swap(x32, 16, Literal(0xffff_0000_ffff), Literal(0xffff_0000_ffff_0000));
    var x8 := Swap(x16, 8, Literal(0xff_00ff_00ff_00ff), Literal(0xff00_ff00_ff00_ff00));
    var x4 := Swap(x8, 4, Literal(0xf0f_0f0f_0f0f_0f0f), Literal(0xf0f0_f0f0_f0f0_f0f0));
    var x2 := Swap(x4, 2, Literal(0x3333_3333_3333_3333), Literal(0xcccc_cccc_cccc_cccc));
    Swap(x2, 1, Literal(0x5555_5555_5555_5555), Literal(0xaaaa_aaaa_aaaa_aaaa))
  }

  /** The second operand, inverted by code bit 3. */
  function In2Inv(fn: Code, in2: Xlen): Xlen {
    if Bit(fn, 3) then Not(in2) else in2
  }

  function AdderOut(fn: Code, in2: Xlen, in1: Xlen): Xlen {
    Add(Add(in1, In2Inv(fn, in2)), Literal(if Bit(fn, 3) then 1 else 0))
  }

  /** Less-than, from the sign of the difference or of an operand. */
  function Slt(fn: Code, in2: Xlen, in1: Xlen): bool {
    if in1[63] == in2[63] then AdderOut(fn, in2, in1)[63]
    else if Bit(fn, 1) then in2[63] else in1[63]
  }

  /** The operand of a right shift, its upper half replaced in the 32-bit forms. */
  function ShinR(dw: bool, fn: Code, in1: Xlen): Xlen {
    in1[..32] + if dw then in1[32..] else Fill(Bit(fn, 3) && in1[31], 32)
  }

  function Shamt(dw: bool, in2: Xlen): (s: nat)
    ensures s < 64
  {
    ToNatBound(in2[..5] + [in2[5] && dw]);
    assert Pow2(6) == 64;
    ToNat(in2[..5] + [in2[5] && dw])
  }

  predicate IsRightShift(fn: Code) {
    fn == 5 || fn == 11
  }

  function Shin(dw: bool, fn: Code, in1: Xlen): Xlen {
    if IsRightShift(fn) then ShinR(dw, fn, in1) else Reverse64(ShinR(dw, fn, in1))
  }

  /** The shifter: one more sign bit in front, shifted arithmetically. */
  function ShoutR(fn: Code, shin: Xlen, shamt: nat): Xlen
    requires shamt < 64
  {
    ShiftRight(shin + [Bit(fn, 3) && shin[63]], shamt)[..64]
  }

  function Masked(c: bool, x: Xlen): Xlen {
    if c then x else Literal(0)
  }

  function Shout(dw: bool, fn: Code, in2: Xlen, in1: Xlen): Xlen {
    var shoutR := ShoutR(fn, Shin(dw, fn, in1), Shamt(dw, in2));
    Or(Masked(IsRightShift(fn), shoutR), Masked(fn == 1, Reverse64(shoutR)))
  }

  function Logic(fn: Code, in2: Xlen, in1: Xlen): Xlen {
    Or(Masked(fn == 4 || fn == 6, Xor(in1, In2Inv(fn, in2))),
       Masked(fn == 6 || fn == 7, And(in1, in2)))
  }

  function ShiftLogic(dw: bool, fn: Code, in2: Xlen, in1: Xlen): Xlen {
    Or(Or(Literal(if fn >= 12 && Slt(fn, in2, in1) then 1 else 0), Logic(fn, in2, in1)),
       Shout(dw, fn, in2, in1))
  }

  function WideOut(dw: bool, fn: Code, in2: Xlen, in1: Xlen): Xlen {
    if fn == 0 || fn == 10 then AdderOut(fn, in2, in1) else ShiftLogic(dw, fn, in2, in1)
  }

  function SignExtended(x: Word): Xlen
    requires |x| == 32
  {
    x + Fill(x[31], 32)
  }

  /** The result; the 32-bit forms sign-extend its lower half. */
  function Out(dw: bool, fn: Code, in2: Xlen, in1: Xlen): Xlen {
    var out := WideOut(dw, fn, in2, in1);
    if dw then out else SignExtended(out[..32])
  }

  // ---------- the reversal ----------

  lemma PowersOfTwo()
    ensures Pow2(0) == 1 && Pow2(1) == 2 && Pow2(2) == 4 && Pow2(3) == 8 && Pow2(4) == 16
    ensures Pow2(5) == 32 && Pow2(6) == 64
    ensures Pow2(8) == 0x100 && Pow2(16) == 0x1_0000 && Pow2(32) == 0x1_0000_0000
    ensures Pow2(64) == WORD_RANGE
  {
    assert Pow2(8) == 0x100;
    Pow2Add(8, 8);
    Pow2Add(16, 16);
    Pow2At64();
  }

  lemma LiteralIs(n: nat, x: Xlen)
    requires ToNat(x) == n
    ensures Literal(n) == x
  {
    FromTo(x);
  }

  lemma LiteralsAre(keep: nat, move: nat, mask: Xlen)
    requires ToNat(mask) == keep && keep + move == WORD_RANGE - 1
    ensures Literal(keep) == mask && Literal(move) == Not(mask)
  {
    LiteralIs(keep, mask);
    ToNatNot(mask);
    Pow2At64();
    LiteralIs(move, Not(mask));
  }

  lemma MaskStep(m: nat, j: nat, width: nat, p: nat, v: nat)
    requires ToNat(Mask(m, j)) == v && Pow2(m + 1 + j) == width && Pow2(width) == p
    ensures ToNat(Mask(m, j + 1)) == v + p * v
  {
    MaskDoubles(m, j);
  }

  lemma Masks32()
    ensures |Mask(5, 0)| == 64 && ToNat(Mask(5, 0)) == 0xffff_ffff
  {
    PowersOfTwo();
    NarrowMask(5);
  }

  lemma Masks16()
    ensures |Mask(4, 1)| == 64 && ToNat(Mask(4, 1)) == 0xffff_0000_ffff
  {
    PowersOfTwo();
    NarrowMask(4);
    MaskStep(4, 0, 32, 0x1_0000_0000, 0xffff);
  }

  lemma Masks8()
    ensures |Mask(3, 2)| == 64 && ToNat(Mask(3, 2)) == 0xff_00ff_00ff_00ff
  {
    PowersOfTwo();
    NarrowMask(3);
    MaskStep(3, 0, 16, 0x1_0000, 0xff);
    MaskStep(3, 1, 32, 0x1_0000_0000, 0xff_00ff);
  }

  lemma Masks4()
    ensures |Mask(2, 3)| == 64 && ToNat(Mask(2, 3)) == 0xf0f_0f0f_0f0f_0f0f
  {
    PowersOfTwo();
    NarrowMask(2);
    MaskStep(2, 0, 8, 0x100, 0xf);
    MaskStep(2, 1, 16, 0x1_0000, 0xf0f);
    MaskStep(2, 2, 32, 0x1_0000_0000, 0xf0f_0f0f);
  }

  lemma Masks2()
    ensures |Mask(1, 4)| == 64 && ToNat(Mask(1, 4)) == 0x3333_3333_3333_3333
  {
    PowersOfTwo();
    NarrowMask(1);
    MaskStep(1, 0, 4, 0x10, 0x3);
    MaskStep(1, 1, 8, 0x100, 0x33);
    MaskStep(1, 2, 16, 0x1_0000, 0x3333);
    MaskStep(1, 3, 32, 0x1_0000_0000, 0x3333_3333);
  }

  lemma Masks1Low()
    ensures ToNat(Mask(0, 3)) == 0x5555
  {
    PowersOfTwo();
    NarrowMask(0);
    MaskStep(0, 0, 2, 0x4, 0x1);
    MaskStep(0, 1, 4, 0x10, 0x5);
    MaskStep(0, 2, 8, 0x100, 0x55);
  }

  lemma Masks1High(m: nat, j: nat)
    requires m == 0 && j == 3 && ToNat(Mask(m, j)) == 0x5555
    ensures ToNat(Mask(m, j + 2)) == 0x5555_5555_5555_5555
  {
    PowersOfTwo();
    MaskStep(m, j, 16, 0x1_0000, 0x5555);
    MaskStep(m, j + 1, 32, 0x1_0000_0000, 0x5555_5555);
  }

  lemma Masks1()
    ensures |Mask(0, 5)| == 64 && ToNat(Mask(0, 5)) == 0x5555_5555_5555_5555
  {
    Masks1Low();
    Masks1High(0, 3);
  }

  /** One hardware stage is one stage of the butterfly. */
  lemma StageIs(x: Xlen, m: nat, keep: nat, move: nat)
    requires m <= 5 && |Mask(m, 5 - m)| == 64 && ToNat(Mask(m, 5 - m)) == keep
    requires keep + move == WORD_RANGE - 1
    ensures Pow2(m) <= 64 && Pow2(6) == 64
    ensures Butterfly(x, 6, m + 1) == Butterfly(Swap(x, Pow2(m), Literal(keep), Literal(move)), 6, m)
  {
    PowersOfTwo();
    Pow2Mono(m, 6);
    LiteralsAre(keep, move, Mask(m, 5 - m));
  }

  lemma Reverse64Reverses(x: Xlen)
    ensures Reverse64(x) == Reverse(x)
  {
    PowersOfTwo();
    Masks32();
    Masks16();
    Masks8();
    Masks4();
    Masks2();
    Masks1();
    StageIs(x, 5, 0xffff_ffff, 0xffff_ffff_0000_0000);
    var x32 := Swap(x, 32, Literal(0xffff_ffff), Literal(0xffff_ffff_0000_0000));
    StageIs(x32, 4, 0xffff_0000_ffff, 0xffff_0000_ffff_0000);
    var x16 := Swap(x32, 16, Literal(0xffff_0000_ffff), Literal(0xffff_0000_ffff_0000));
    StageIs(x16, 3, 0xff_00ff_00ff_00ff, 0xff00_ff00_ff00_ff00);
    var x8 := Swap(x16, 8, Literal(0xff_00ff_00ff_00ff), Literal(0xff00_ff00_ff00_ff00));
    StageIs(x8, 2, 0xf0f_0f0f_0f0f_0f0f, 0xf0f0_f0f0_f0f0_f0f0);
    var x4 := Swap(x8, 4, Literal(0xf0f_0f0f_0f0f_0f0f), Literal(0xf0f0_f0f0_f0f0_f0f0));
    StageIs(x4, 1, 0x3333_3333_3333_3333, 0xcccc_cccc_cccc_cccc);
    var x2 := Swap(x4, 2, Literal(0x3333_3333_3333_3333), Literal(0xcccc_cccc_cccc_cccc));
    StageIs(x2, 0, 0x5555_5555_5555_5555, 0xaaaa_aaaa_aaaa_aaaa);
    ButterflyReverses(x, 6);
  }
}
