/** Branch resolution in the execution unit: conditions, the indirect jump target, the report. */
module BranchUnit {
  import opened Arith
  import opened Bits
  import opened Alu

  // ---------- conditions ----------

  function BrEq(rs1: Xlen, rs2: Xlen): bool {
    rs1 == rs2
  }

  function BrLtu(rs1: Xlen, rs2: Xlen): bool {
    ToNat(rs1) < ToNat(rs2)
  }

  /** Signed comparison out of the unsigned one and the signs. */
  function BrLt(rs1: Xlen, rs2: Xlen): bool {
    (!(rs1[63] != rs2[63]) && BrLtu(rs1, rs2)) || (rs1[63] && !rs2[63])
  }

  /** Zero: fall through; one: the branch or jump target; two: an indirect target. */
  function PcSel(brType: nat, rs1: Xlen, rs2: Xlen): nat {
    var sel1 := if brType == 1 && !BrEq(rs1, rs2) then 1 else 0;
    var sel2 := if brType == 2 then (if BrEq(rs1, rs2) then 1 else 0) else sel1;
    var sel3 := if brType == 3 then (if !BrLt(rs1, rs2) then 1 else 0) else sel2;
    var sel4 := if brType == 4 then (if !BrLtu(rs1, rs2) then 1 else 0) else sel3;
    var sel5 := if brType == 5 then (if BrLt(rs1, rs2) then 1 else 0) else sel4;
    var sel6 := if brType == 6 then (if BrLtu(rs1, rs2) then 1 else 0) else sel5;
    var sel7 := if brType == 7 then 1 else sel6;
    if brType == 8 then 2 else sel7
  }

  datatype Branch = Bne | Beq | Bge | Bgeu | Blt | Bltu

  function TypeOf(branch: Branch): nat {
    match branch
    case Bne => 1
    case Beq => 2
    case Bge => 3
    case Bgeu => 4
    case Blt => 5
    case Bltu => 6
  }

  /** The condition of the conditional branch, on the registers' values. */
  predicate Condition(branch: Branch, rs1: Xlen, rs2: Xlen) {
    match branch
    case Bne => ToNat(rs1) != ToNat(rs2)
    case Beq => ToNat(rs1) == ToNat(rs2)
    case Bge => ToInt(rs1) >= ToInt(rs2)
    case Bgeu => ToNat(rs1) >= ToNat(rs2)
    case Blt => ToInt(rs1) < ToInt(rs2)
    case Bltu => ToNat(rs1) < ToNat(rs2)
  }

  lemma SignedLess(rs1: Xlen, rs2: Xlen)
    ensures BrLt(rs1, rs2) <==> ToInt(rs1) < ToInt(rs2)
  {
    ToNatBound(rs1);
    ToNatBound(rs2);
  }

  lemma BranchDecides(branch: Branch, rs1: Xlen, rs2: Xlen)
    ensures PcSel(TypeOf(branch), rs1, rs2) == if Condition(branch, rs1, rs2) then 1 else 0
  {
    SignedLess(rs1, rs2);
    if ToNat(rs1) == ToNat(rs2) {
      SameNumber(rs1, rs2);
    }
  }

  // ---------- the report to the front end ----------

  /** What the front end predicted for the instruction. */
  datatype Prediction = Prediction(taken: bool, nextVal: bool, nextPc: Word, cfiValid: bool,
                                   cfiMatches: bool)

  function Mispredict(sel: nat, live: bool, p: Prediction, target: Word): bool {
    if sel == 2 then !p.nextVal || p.nextPc != target || !p.cfiValid || !p.cfiMatches
    else live && if sel == 1 then !p.taken else sel == 0 && p.taken
  }

  /** A live conditional branch reports a misprediction exactly when its condition differs from
      the predicted direction. */
  lemma BranchReport(branch: Branch, rs1: Xlen, rs2: Xlen, p: Prediction, target: Word)
    ensures Mispredict(PcSel(TypeOf(branch), rs1, rs2), true, p, target) <==>
            (p.taken != Condition(branch, rs1, rs2))
  {
    BranchDecides(branch, rs1, rs2);
  }

  /** An indirect jump reports none exactly when the front end went on at its very target, for the
      instruction at its place; the outcome of the pipeline slot does not matter. */
  lemma IndirectReport(live: bool, rs1: Xlen, rs2: Xlen, p: Prediction, target: Word)
    ensures !Mispredict(PcSel(8, rs1, rs2), live, p, target) <==>
            p.nextVal && p.nextPc == target && p.cfiValid && p.cfiMatches
  {
  }

  /** A direct jump always goes to its target, and falling through never does; either reports a wrong
      direction when live, and nothing that is not live and direct reports. */
  lemma DirectReport(brType: nat, live: bool, rs1: Xlen, rs2: Xlen, p: Prediction, target: Word)
    requires brType != 8
    ensures brType == 7 ==> PcSel(brType, rs1, rs2) == 1 && (Mispredict(1, true, p, target) <==> !p.taken)
    ensures brType == 0 || brType > 8 ==> PcSel(brType, rs1, rs2) == 0 && (Mispredict(0, true, p, target) <==> p.taken)
    ensures !live ==> !Mispredict(PcSel(brType, rs1, rs2), live, p, target)
  {
  }

  // ---------- indirect jumps ----------

  type Offset = x: Word | |x| == 21 witness Fill(false, 21)

  function TargetSum(rs1: Xlen, offset: Offset): Xlen {
    Add(rs1, offset + Fill(offset[20], 43))
  }

  predicate AllEqual(x: Word, from: nat) {
    forall i :: from <= i < |x| ==> x[i] == x[|x| - 1]
  }

  /** Forty bits of the target; the top one flags a sum whose upper bits disagree. */
  function JalrTarget(rs1: Xlen, offset: Offset): (t: Word)
    ensures |t| == 40
  {
    var sum := TargetSum(rs1, offset);
    var a := sum[39..];
    var msb := if a == Fill(false, 25) || a == Fill(true, 25) then sum[39] else !sum[38];
    [false] + sum[1..39] + [msb]
  }

  /** An address whose upper bits repeat bit 38. */
  predicate Canonical(x: Word) {
    AllEqual(x, 38)
  }

  function SignExtended40(x: Word): Xlen
    requires |x| == 40
  {
    x + Fill(x[39], 24)
  }

  function ClearLowest(x: Xlen): Xlen {
    [false] + x[1..]
  }

  /** The target, sign-extended, is the sum with its lowest bit cleared exactly when bits 39 to 63
      of the sum agree. */
  lemma JalrTargetIsSum(rs1: Xlen, offset: Offset)
    ensures SignExtended40(JalrTarget(rs1, offset)) == ClearLowest(TargetSum(rs1, offset)) <==>
            AllEqual(TargetSum(rs1, offset), 39)
  {
    var sum, t := TargetSum(rs1, offset), JalrTarget(rs1, offset);
    var a := sum[39..];
    var wide, clear := SignExtended40(t), ClearLowest(sum);
    if AllEqual(sum, 39) {
      assert a == Fill(sum[63], 25);
      assert wide == clear;
    } else if wide == clear {
      forall i | 39 <= i < 64 ensures sum[i] == sum[63] {
        assert wide[i] == clear[i] && wide[63] == clear[63];
      }
    }
  }

  /** The target is canonical exactly when the sum is. */
  lemma JalrTargetCanonical(rs1: Xlen, offset: Offset)
    ensures Canonical(JalrTarget(rs1, offset)) <==> Canonical(TargetSum(rs1, offset))
  {
    var sum := TargetSum(rs1, offset);
    var t, a := JalrTarget(rs1, offset), sum[39..];
    assert t[39] == t[38] <==> Canonical(t);
    assert t[38] == sum[38];
    if Canonical(sum) {
      assert a == Fill(sum[63], 25);
    } else if a == Fill(false, 25) || a == Fill(true, 25) {
      assert forall i :: 39 <= i < 64 ==> sum[i] == a[i - 39];
      assert sum[38] != sum[63];
    }
  }

  /** Its bits: even, those of the sum up to bit 38, and on top the sum's bit 39 where the bits above
      agree and the opposite of bit 38 where they do not. */
  lemma JalrTargetBits(rs1: Xlen, offset: Offset)
    ensures var sum, t := TargetSum(rs1, offset), JalrTarget(rs1, offset);
            && !t[0] && (forall i :: 1 <= i < 39 ==> t[i] == sum[i])
            && t[39] == if AllEqual(sum, 39) then sum[39] else !sum[38]
  {
    UpperBitsAgree(TargetSum(rs1, offset));
  }

  lemma UpperBitsAgree(sum: Xlen)
    ensures sum[39..] == Fill(false, 25) || sum[39..] == Fill(true, 25) <==> AllEqual(sum, 39)
  {
    var a := sum[39..];
    assert forall i :: 39 <= i < 64 ==> sum[i] == a[i - 39];
    if AllEqual(sum, 39) {
      assert a == Fill(sum[63], 25);
    }
  }

  /** The sum behind an indirect target: register plus signed offset, modulo 2^64. */
  lemma TargetSumMeans(rs1: Xlen, offset: Offset)
    ensures ToNat(TargetSum(rs1, offset)) ==
            (ToNat(rs1) + ToNat(offset + Fill(offset[20], 43))) % Pow2(64)
    ensures ToInt(offset + Fill(offset[20], 43)) == ToInt(offset)
  {
    ToFrom(ToNat(rs1) + ToNat(offset + Fill(offset[20], 43)), 64);
    FilledAbove(offset, offset[20], 43);
  }
}
