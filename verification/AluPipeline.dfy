/** The three-stage pipeline behind the ALU, with branch kill. */
module AluPipeline {
  import opened Arith
  import opened Bits
  import opened Alu
  import AluMeaning

  // ---------- signals ----------

  /** A mask with one bit per branch tag: the tags whose bits are set. */
  type Mask = set<nat>

  /** The part of an instruction that travels down the pipeline. */
  datatype Uop = Uop(csrCmd: nat, brMask: Mask, immPacked: nat, robIdx: nat, pdst: nat,
                     bypassable: bool, isAmo: bool, usesStq: bool, dstRtype: nat)

  type Half = x: Word | |x| == 32 witness Fill(false, 32)
  type PcWord = x: Word | |x| == 40 witness Fill(false, 40)

  /** A request, with the program counter and the immediate it selects already formed. */
  datatype Request = Request(valid: bool, uopc: nat, fcnDw: bool, opFcn: Code, op1Sel: nat, op2Sel: nat,
                             isRvc: bool, prs1: nat, pc: PcWord, imm: Half, rs1: Xlen, rs2: Xlen,
                             kill: bool, uop: Uop)

  /** The signals sampled at one clock edge: the inputs and the output of the ALU. */
  datatype Cycle = Cycle(reset: bool, req: Request, resolveMask: Mask, mispredictMask: Mask,
                         aluOut: Xlen)

  predicate Hit(mispredictMask: Mask, brMask: Mask) {
    mispredictMask * brMask != {}
  }

  function Resolved(uop: Uop, resolveMask: Mask): Uop {
    uop.(brMask := uop.brMask - resolveMask)
  }

  // ---------- operands ----------

  function Op1(req: Request): Xlen {
    if req.op1Sel == 0 then req.rs1
    else if req.op1Sel == 2 then req.pc + Fill(req.pc[39], 24)
    else Literal(0)
  }

  function Op2(req: Request): Xlen {
    if req.op2Sel == 1 then SignExtended(req.imm)
    else if req.op2Sel == 4 then Literal(req.prs1 % 32)
    else if req.op2Sel == 0 then req.rs2
    else Literal(if req.op2Sel == 3 then (if req.isRvc then 2 else 4) else 0)
  }

  function AluOut(req: Request): Xlen {
    Out(req.fcnDw, req.opFcn, Op2(req), Op1(req))
  }

  /** The ALU is connected to the operands of the request. */
  predicate Wired(c: Cycle) {
    c.aluOut == AluOut(c.req)
  }

  /** The value the instruction writes: a move passes its second register on. */
  function Data(c: Cycle): Xlen {
    if c.req.uopc == 0x6d then c.req.rs2 else c.aluOut
  }

  // ---------- one clock edge ----------

  /** The registers. */
  datatype Regs = Regs(valid0: bool, valid1: bool, valid2: bool, uop0: Uop, uop1: Uop, uop2: Uop,
                       val0: bool, val1: bool, data0: Xlen, data1: Xlen, data2: Xlen)

  /** Whether an instruction moves on to the next stage. */
  predicate Enters(valid: bool, uop: Uop, c: Cycle) {
    !c.reset && valid && !Hit(c.mispredictMask, uop.brMask) && !c.req.kill
  }

  function Step(r: Regs, c: Cycle): Regs {
    Regs(Enters(c.req.valid, c.req.uop, c), Enters(r.valid0, r.uop0, c), Enters(r.valid1, r.uop1, c),
         Resolved(c.req.uop, c.resolveMask), Resolved(r.uop0, c.resolveMask),
         Resolved(r.uop1, c.resolveMask), !c.reset && c.req.valid, !c.reset && r.val0,
         Data(c), r.data0, r.data1)
  }

  /** What a port offers in a cycle. */
  datatype Port = Port(valid: bool, pdst: nat, dstRtype: nat, data: Xlen)

  function Response(r: Regs, c: Cycle): Port {
    Port(r.valid2 && !Hit(c.mispredictMask, r.uop2.brMask), r.uop2.pdst, r.uop2.dstRtype, r.data2)
  }

  function Bypass(r: Regs, c: Cycle, k: nat): Port
    requires k < 3
  {
    if k == 0 then Port(c.req.valid, c.req.uop.pdst, c.req.uop.dstRtype, Data(c))
    else if k == 1 then Port(r.val0, r.uop0.pdst, r.uop0.dstRtype, r.data0)
    else Port(r.val1, r.uop1.pdst, r.uop1.dstRtype, r.data1)
  }

  class AluUnit {
    var validReg0: bool
    var validReg1: bool
    var validReg2: bool
    var uopReg0: Uop
    var uopReg1: Uop
    var uopReg2: Uop
    var valReg0: bool
    var valReg1: bool
    var dataReg0: Xlen
    var dataReg1: Xlen
    var dataReg2: Xlen

    /** Registers power up with arbitrary contents. */
    constructor (r: Regs)
      ensures State() == r
    {
      validReg0, validReg1, validReg2 := r.valid0, r.valid1, r.valid2;
      uopReg0, uopReg1, uopReg2 := r.uop0, r.uop1, r.uop2;
      valReg0, valReg1 := r.val0, r.val1;
      dataReg0, dataReg1, dataReg2 := r.data0, r.data1, r.data2;
    }

    function State(): Regs
      reads this
    {
      Regs(validReg0, validReg1, validReg2, uopReg0, uopReg1, uopReg2, valReg0, valReg1,
           dataReg0, dataReg1, dataReg2)
    }

    /** Validity of the stages, from the masks held before the edge. */
    method LatchValid(c: Cycle)
      modifies this`validReg0, this`validReg1, this`validReg2, this`valReg0, this`valReg1
      ensures validReg0 == Enters(c.req.valid, c.req.uop, c)
      ensures validReg1 == Enters(old(validReg0), uopReg0, c)
      ensures validReg2 == Enters(old(validReg1), uopReg1, c)
      ensures valReg0 == (!c.reset && c.req.valid) && valReg1 == (!c.reset && old(valReg0))
    {
      if c.reset {
        validReg0, validReg1, validReg2 := false, false, false;
        valReg0, valReg1 := false, false;
      } else {
        var hit0 := Hit(c.mispredictMask, c.req.uop.brMask);
        var hit1 := Hit(c.mispredictMask, uopReg0.brMask);
        var hit2 := Hit(c.mispredictMask, uopReg1.brMask);
        validReg0, validReg1, validReg2 := c.req.valid && !hit0 && !c.req.kill,
                                           validReg0 && !hit1 && !c.req.kill,
                                           validReg1 && !hit2 && !c.req.kill;
        valReg0, valReg1 := c.req.valid, valReg0;
      }
    }

    /** The values of the stages. */
    method LatchData(c: Cycle)
      modifies this`dataReg0, this`dataReg1, this`dataReg2
      ensures dataReg0 == Data(c) && dataReg1 == old(dataReg0) && dataReg2 == old(dataReg1)
    {
      dataReg1, dataReg2 := dataReg0, dataReg1;
      if c.req.uopc == 0x6d {
        dataReg0 := c.req.rs2;
      } else {
        dataReg0 := c.aluOut;
      }
    }

    /** The rising clock edge; every register takes its new value from the old ones. */
    method ClockEdge(c: Cycle)
      modifies this
      ensures State() == Step(old(State()), c)
    {
      LatchValid(c);
      LatchData(c);
      uopReg0, uopReg1, uopReg2 := Resolved(c.req.uop, c.resolveMask),
                                   Resolved(uopReg0, c.resolveMask),
                                   Resolved(uopReg1, c.resolveMask);
    }
  }

  // ---------- whole runs ----------

  /** The registers after all the cycles of a run. */
  function Run(start: Regs, run: seq<Cycle>): Regs {
    if run == [] then start else Step(Run(start, run[..|run| - 1]), run[|run| - 1])
  }

  lemma RunStep(start: Regs, run: seq<Cycle>, t: nat)
    requires t < |run|
    ensures Run(start, run[..t + 1]) == Step(Run(start, run[..t]), run[t])
  {
    assert run[..t + 1][..t] == run[..t];
  }

  /** The branches an instruction requested at `t` still depends on `k` cycles later: those not
      resolved in an earlier cycle. */
  function Pending(run: seq<Cycle>, t: nat, k: nat): Mask
    requires t + k < |run|
    decreases k
  {
    if k == 0 then run[t].req.uop.brMask else Pending(run, t, k - 1) - run[t + k - 1].resolveMask
  }

  /** No cycle up to `t + k` mispredicted a branch the instruction then still depended on. */
  ghost predicate NoHit(run: seq<Cycle>, t: nat, k: nat)
    requires t + k < |run|
  {
    forall j :: 0 <= j <= k ==> !Hit(run[t + j].mispredictMask, Pending(run, t, j))
  }

  /** No reset or kill in the `k` cycles from `t`. */
  ghost predicate Undisturbed(run: seq<Cycle>, t: nat, k: nat)
    requires t + k <= |run|
  {
    forall j :: t <= j < t + k ==> !run[j].reset && !run[j].req.kill
  }

  /** The instruction requested at `t`, with the branches it still depends on `k` cycles later. */
  function Carried(run: seq<Cycle>, t: nat, k: nat): Uop
    requires t + k < |run|
  {
    run[t].req.uop.(brMask := Pending(run, t, k))
  }

  lemma CarriedStep(run: seq<Cycle>, t: nat, k: nat)
    requires t + k + 1 < |run|
    ensures Carried(run, t, k + 1) == Resolved(Carried(run, t, k), run[t + k].resolveMask)
  {
  }

  ghost predicate Alive(run: seq<Cycle>, t: nat, k: nat)
    requires t + k < |run|
  {
    run[t].req.valid && Undisturbed(run, t, k) && (k > 0 ==> NoHit(run, t, k - 1))
  }

  lemma AliveStep(run: seq<Cycle>, t: nat, k: nat)
    requires t + k + 1 < |run|
    ensures Alive(run, t, k + 1) <==>
            Alive(run, t, k) && !run[t + k].reset && !run[t + k].req.kill &&
            !Hit(run[t + k].mispredictMask, Pending(run, t, k))
  {
  }

  lemma FirstStage(start: Regs, run: seq<Cycle>, t: nat)
    requires t + 1 < |run|
    ensures var r := Run(start, run[..t + 1]);
            (r.valid0 <==> Alive(run, t, 1)) && r.uop0 == Carried(run, t, 1) &&
            r.data0 == Data(run[t]) && (r.val0 <==> !run[t].reset && run[t].req.valid)
  {
    RunStep(start, run, t);
    AliveStep(run, t, 0);
    CarriedStep(run, t, 0);
    assert Carried(run, t, 0) == run[t].req.uop;
  }

  lemma SecondStage(start: Regs, run: seq<Cycle>, t: nat)
    requires t + 2 < |run|
    ensures var r := Run(start, run[..t + 2]);
            (r.valid1 <==> Alive(run, t, 2)) && r.uop1 == Carried(run, t, 2) &&
            r.data1 == Data(run[t]) &&
            (r.val1 <==> !run[t].reset && !run[t + 1].reset && run[t].req.valid)
  {
    FirstStage(start, run, t);
    RunStep(start, run, t + 1);
    AliveStep(run, t, 1);
    CarriedStep(run, t, 1);
  }

  lemma ThirdStage(start: Regs, run: seq<Cycle>, t: nat)
    requires t + 3 < |run|
    ensures var r := Run(start, run[..t + 3]);
            (r.valid2 <==> Alive(run, t, 3)) && r.uop2 == Carried(run, t, 3) &&
            r.data2 == Data(run[t])
  {
    SecondStage(start, run, t);
    RunStep(start, run, t + 2);
    AliveStep(run, t, 2);
    CarriedStep(run, t, 2);
  }

  /** Over every run and from any power-up contents: cycle t + 3 answers exactly the request of
      cycle t that no reset, kill or misprediction touched, with that request's own data. */
  lemma ResponseExactly(start: Regs, run: seq<Cycle>, t: nat)
    requires t + 3 < |run|
    ensures var response := Response(Run(start, run[..t + 3]), run[t + 3]);
            (response.valid <==> run[t].req.valid && Undisturbed(run, t, 3) && NoHit(run, t, 3)) &&
            response.data == Data(run[t]) && response.pdst == run[t].req.uop.pdst &&
            response.dstRtype == run[t].req.uop.dstRtype
    ensures Run(start, run[..t + 3]).uop2 == Carried(run, t, 3)
  {
    ThirdStage(start, run, t);
    NoHitStep(run, t, 2);
  }

  lemma NoHitStep(run: seq<Cycle>, t: nat, k: nat)
    requires t + k + 1 < |run|
    ensures NoHit(run, t, k + 1) <==>
            NoHit(run, t, k) && !Hit(run[t + k + 1].mispredictMask, Pending(run, t, k + 1))
  {
  }

  /** A branch is pending exactly while no earlier cycle resolved it. */
  lemma {:induction false} PendingBit(run: seq<Cycle>, t: nat, k: nat, tag: nat)
    requires t + k < |run|
    ensures tag in Pending(run, t, k) <==>
            tag in run[t].req.uop.brMask &&
            forall j :: t <= j < t + k ==> tag !in run[j].resolveMask
    decreases k
  {
    if k > 0 {
      PendingBit(run, t, k - 1, tag);
    }
  }

  /** Whatever a response delivers, the bypass ports offered in the three cycles before. */
  lemma BypassAnnounces(start: Regs, run: seq<Cycle>, t: nat, k: nat)
    requires t + 3 < |run| && k < 3
    requires Response(Run(start, run[..t + 3]), run[t + 3]).valid
    ensures Bypass(Run(start, run[..t + k]), run[t + k], k) ==
            Response(Run(start, run[..t + 3]), run[t + 3])
  {
    ResponseExactly(start, run, t);
    if k == 1 {
      FirstStage(start, run, t);
    } else if k == 2 {
      assert !run[t].reset && !run[t + 1].reset;
      SecondStage(start, run, t);
    }
  }

  // ---------- what the data says about the request ----------

  /** The value of the first operand: a register, the program counter, or nothing. */
  function FirstValue(req: Request): int {
    match req.op1Sel
    case 0 => ToInt(req.rs1)
    case 2 => ToInt(req.pc)
    case _ => 0
  }

  /** The value of the second operand: a register, the immediate, the length of the instruction, the
      number of the first source register, or nothing. */
  function SecondValue(req: Request): int {
    match req.op2Sel
    case 0 => ToInt(req.rs2)
    case 1 => ToInt(req.imm)
    case 3 => if req.isRvc then 2 else 4
    case 4 => req.prs1 % 32
    case _ => 0
  }

  lemma SmallLiteral(n: nat)
    requires n < 32
    ensures ToInt(Literal(n)) == n
  {
    Pow2Mono(5, 63);
    assert Pow2(5) == 32;
    AluMeaning.LiteralMeans(n);
    MsbMeans(Literal(n));
  }

  lemma ExtendedValue(x: Word, n: nat)
    requires x != []
    ensures ToInt(x + Fill(Msb(x), n)) == ToInt(x)
  {
    FilledAbove(x, Msb(x), n);
    assert Msb(x + Fill(Msb(x), n)) == Msb(x);
  }

  lemma FirstOperand(req: Request)
    ensures ToInt(Op1(req)) == FirstValue(req)
  {
    if req.op1Sel == 2 {
      ExtendedValue(req.pc, 24);
    } else if req.op1Sel != 0 {
      SmallLiteral(0);
    }
  }

  lemma SecondOperand(req: Request)
    ensures ToInt(Op2(req)) == SecondValue(req)
  {
    if req.op2Sel == 1 {
      ExtendedValue(req.imm, 32);
    } else if req.op2Sel != 0 {
      SmallLiteral(Number(req));
    }
  }

  /** The number that is selected when the operand is neither register nor immediate. */
  function Number(req: Request): (n: nat)
    ensures n < 32
  {
    if req.op2Sel == 3 then (if req.isRvc then 2 else 4) else if req.op2Sel == 4 then req.prs1 % 32 else 0
  }

  /** The operands have those values: the immediate and the program counter are sign-extended. */
  lemma OperandValues(req: Request)
    ensures ToInt(Op1(req)) == FirstValue(req) && ToInt(Op2(req)) == SecondValue(req)
  {
    FirstOperand(req);
    SecondOperand(req);
  }

  lemma SameValue(x: Xlen, y: Xlen)
    requires ToInt(x) == ToInt(y)
    ensures x == y
  {
    IntAndNat(x);
    IntAndNat(y);
    SameNumber(x, y);
  }

  /** The data of a response is the operation's result on the words that have the values which the
      request selects. */
  lemma ResponseComputes(start: Regs, run: seq<Cycle>, t: nat, op: AluMeaning.Op, x: Xlen, y: Xlen)
    requires t + 3 < |run| && Wired(run[t]) && run[t].req.uopc != 0x6d
    requires run[t].req.opFcn == AluMeaning.CodeOf(op) && run[t].req.fcnDw == AluMeaning.IsWide(op)
    requires ToInt(x) == FirstValue(run[t].req) && ToInt(y) == SecondValue(run[t].req)
    ensures var data := Response(Run(start, run[..t + 3]), run[t + 3]).data;
            (if AluMeaning.IsSigned(op) then ToInt(data) else ToNat(data)) == AluMeaning.Result(op, x, y)
  {
    var req := run[t].req;
    ResponseExactly(start, run, t);
    OperandValues(req);
    SameValue(x, Op1(req));
    SameValue(y, Op2(req));
    AluMeaning.AluComputes(op, x, y);
  }

  /** There are such words for every request. */
  lemma OperandsExist(req: Request) returns (x: Xlen, y: Xlen)
    ensures ToInt(x) == FirstValue(req) && ToInt(y) == SecondValue(req)
  {
    x, y := Op1(req), Op2(req);
    OperandValues(req);
  }

  lemma AddComputes(x: Xlen, y: Xlen)
    ensures ToNat(Out(true, 0, y, x)) == AluMeaning.Result(AluMeaning.AddOp, x, y)
  {
    AluMeaning.AluComputes(AluMeaning.AddOp, x, y);
  }

  lemma AddResult(x: Xlen, y: Xlen)
    ensures AluMeaning.Result(AluMeaning.AddOp, x, y) == (ToInt(x) + ToInt(y)) % WORD_RANGE
  {
    Pow2At64();
    SumOfWords(x, y);
  }

  lemma AddSums(dw: bool, fn: Code, x: Xlen, y: Xlen, v: int, w: int)
    requires dw && fn == 0 && ToInt(x) == v && ToInt(y) == w
    ensures ToNat(Out(dw, fn, y, x)) == (v + w) % WORD_RANGE
  {
    AddComputes(x, y);
    AddResult(x, y);
  }

  lemma AluSum(req: Request)
    requires req.opFcn == 0 && req.fcnDw
    ensures ToNat(AluOut(req)) == (FirstValue(req) + SecondValue(req)) % WORD_RANGE
  {
    OperandValues(req);
    AddSums(req.fcnDw, req.opFcn, Op1(req), Op2(req), FirstValue(req), SecondValue(req));
  }

  lemma WiredSum(c: Cycle)
    requires Wired(c) && c.req.opFcn == 0 && c.req.fcnDw
    ensures ToNat(c.aluOut) == (FirstValue(c.req) + SecondValue(c.req)) % WORD_RANGE
  {
    AluSum(c.req);
  }

  lemma AluDelivered(start: Regs, run: seq<Cycle>, t: nat, v: nat)
    requires t + 3 < |run| && run[t].req.uopc != 0x6d && ToNat(run[t].aluOut) == v
    ensures ToNat(Response(Run(start, run[..t + 3]), run[t + 3]).data) == v
  {
    ResponseExactly(start, run, t);
  }

  /** A sum delivers the two values added modulo 2^64: two registers, a register and an immediate, the
      program counter and an immediate, or the address of the next instruction. */
  lemma SumDelivered(start: Regs, run: seq<Cycle>, t: nat)
    requires t + 3 < |run| && Wired(run[t]) && run[t].req.uopc != 0x6d
    requires run[t].req.opFcn == 0 && run[t].req.fcnDw
    ensures ToNat(Response(Run(start, run[..t + 3]), run[t + 3]).data) ==
            (FirstValue(run[t].req) + SecondValue(run[t].req)) % WORD_RANGE
  {
    WiredSum(run[t]);
    AluDelivered(start, run, t, (FirstValue(run[t].req) + SecondValue(run[t].req)) % WORD_RANGE);
  }

  lemma SumOfWords(x: Xlen, y: Xlen)
    ensures (ToNat(x) + ToNat(y)) % WORD_RANGE == (ToInt(x) + ToInt(y)) % WORD_RANGE
  {
    Pow2At64();
    IntAndNat(x);
    IntAndNat(y);
    SumOfResidues(ToInt(x), ToInt(y), WORD_RANGE);
  }

  lemma SumOfResidues(a: int, b: int, m: nat)
    requires m > 0
    ensures (a % m + b % m) % m == (a + b) % m
  {
    var q, r := a / m + b / m, a % m + b % m;
    assert a + b == (a / m) * m + a % m + ((b / m) * m + b % m);
    assert q * m == (a / m) * m + (b / m) * m;
    DivModUniqueInt(a + b, m, q + r / m, r % m) by {
      assert r == (r / m) * m + r % m;
      assert (q + r / m) * m == q * m + (r / m) * m;
    }
  }

  /** A move delivers its second register, whatever the ALU computes. */
  lemma MoveDelivered(start: Regs, run: seq<Cycle>, t: nat)
    requires t + 3 < |run| && run[t].req.uopc == 0x6d
    ensures Response(Run(start, run[..t + 3]), run[t + 3]).data == run[t].req.rs2
  {
    ResponseExactly(start, run, t);
  }

  /** Bypass port k offers in cycle t + k what was requested in cycle t, exactly when it was a valid
      request and no reset came in between; a kill or a misprediction does not withdraw it. */
  lemma BypassExactly(start: Regs, run: seq<Cycle>, t: nat, k: nat)
    requires t + k < |run| && k < 3
    ensures var port := Bypass(Run(start, run[..t + k]), run[t + k], k);
            && (port.valid <==> run[t].req.valid && forall j :: t <= j < t + k ==> !run[j].reset)
            && port.pdst == run[t].req.uop.pdst && port.dstRtype == run[t].req.uop.dstRtype
            && port.data == if run[t].req.uopc == 0x6d then run[t].req.rs2 else run[t].aluOut
  {
    if k == 1 {
      FirstStage(start, run, t);
    } else if k == 2 {
      SecondStage(start, run, t);
    }
  }
}
