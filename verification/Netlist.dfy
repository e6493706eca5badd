/** Hierarchical netlists and what it means for values on their nets to be consistent. */
module Netlist {
  import opened Arith

  /** A net of one module. `Original(w)` is the placeholder `w_original`; the bits of the
      vectors `fault_inputs` and `fault_outputs` are nets of their own. */
  datatype Net = Wire(name: string) | Original(name: string) | FaultIn(bit: nat) | FaultOut(bit: nat)

  /** Expressions over nets; what an operator computes is left open. */
  datatype Expr = Lit(v: nat) | Read(net: Net) | Prim(op: string, args: seq<Expr>)

  type Ops = (string, seq<nat>) -> nat

  /** A driver of a net of the given width. */
  datatype Def = Def(width: nat, rhs: Expr)

  /** How an instance's fault ports are connected: not at all, each bit to the listed bit of
      the enclosing module's vectors, or to the vectors as a whole. */
  datatype FaultPort = NoFaultPort | Pick(bits: seq<nat>) | Whole

  /** A module name: as parsed, or extended by a digest of the module's text, which is
      taken to be injective. */
  datatype TypeName = Base(name: string) | Hashed(base: TypeName, text: Body)

  /** An instance declaration: input ports with what drives them, and the wires that its
      output ports drive. */
  datatype Decl = Decl(name: string, typeName: TypeName, ins: map<string, Def>, outs: map<string, string>,
                       fault: FaultPort)

  /** A module's text: its name in the header, the width of its fault vectors (0 for none),
      its combinational definitions, its registers with the wires that hold their next
      value, and its instances. */
  datatype Body = Body(header: TypeName, faultWidth: nat, defs: map<Net, Def>, regs: map<string, string>,
                       decls: seq<Decl>)

  /** /inst0/inst1/.../:wire */
  datatype FaultPath = FaultPath(names: seq<string>, wire: string)

  /** An instance with its module, its marked faults and its child instances, one per declaration. */
  datatype Inst = Inst(name: string, typeName: TypeName, body: Body, paths: seq<FaultPath>, kids: seq<Inst>)

  /** Values on the nets of an instance and of its children. */
  datatype Val = Val(nets: Net -> nat, kids: seq<Val>)

  // ---------- expressions ----------

  function Eval(ops: Ops, e: Expr, env: Net -> nat): nat {
    match e
    case Lit(v) => v
    case Read(n) => env(n)
    case Prim(op, args) => ops(op, seq(|args|, i requires 0 <= i < |args| => Eval(ops, args[i], env)))
  }

  function Reads(e: Expr): set<Net> {
    match e
    case Lit(_) => {}
    case Read(n) => {n}
    case Prim(_, args) => set i, n | 0 <= i < |args| && n in Reads(args[i]) :: n
  }

  lemma {:induction false} EvalAgree(ops: Ops, e: Expr, env1: Net -> nat, env2: Net -> nat)
    requires forall n :: n in Reads(e) ==> env1(n) == env2(n)
    ensures Eval(ops, e, env1) == Eval(ops, e, env2)
  {
    match e
    case Lit(_) =>
    case Read(_) =>
    case Prim(op, args) =>
      forall i | 0 <= i < |args| ensures Eval(ops, args[i], env1) == Eval(ops, args[i], env2) {
        EvalAgree(ops, args[i], env1, env2);
      }
      assert seq(|args|, i requires 0 <= i < |args| => Eval(ops, args[i], env1)) ==
             seq(|args|, i requires 0 <= i < |args| => Eval(ops, args[i], env2));
  }

  /** The value a driver puts on its net. */
  function Value(ops: Ops, d: Def, env: Net -> nat): nat {
    Eval(ops, d.rhs, env) % Pow2(d.width)
  }

  lemma ValueAgree(ops: Ops, d: Def, env1: Net -> nat, env2: Net -> nat)
    requires forall n :: n in Reads(d.rhs) ==> env1(n) == env2(n)
    ensures Value(ops, d, env1) == Value(ops, d, env2)
  {
    EvalAgree(ops, d.rhs, env1, env2);
  }

  lemma OneBit(ops: Ops, d: Def, env: Net -> nat)
    requires d.width == 1
    ensures Value(ops, d, env) == Eval(ops, d.rhs, env) % 2
  {
    assert Pow2(1) == 2;
  }

  // ---------- consistency ----------

  /** The bit of the enclosing vectors that a fault bit of an instance is connected to. The
      concatenation lists its most significant bit first. */
  function Route(p: FaultPort, j: nat): nat {
    match p
    case Pick(bits) => if j < |bits| then bits[|bits| - 1 - j] else j
    case _ => j
  }

  ghost predicate Defines(ops: Ops, defs: map<Net, Def>, env: Net -> nat) {
    forall n :: n in defs ==> env(n) == Value(ops, defs[n], env)
  }

  ghost predicate PortsAgree(ops: Ops, decl: Decl, env: Net -> nat, kid: Net -> nat) {
    && (forall p :: p in decl.ins ==> kid(Wire(p)) == Value(ops, decl.ins[p], env))
    && (forall w :: w in decl.outs ==> env(Wire(w)) == kid(Wire(decl.outs[w])))
  }

  /** The fault ports: an instance's input bits come from the enclosing vector, its output
      bits drive it. A vector connected as a whole to a narrower port reads its low bits,
      and its other bits are driven to zero. */
  ghost predicate FaultsAgree(p: FaultPort, width: nat, kidWidth: nat, env: Net -> nat, kid: Net -> nat) {
    p != NoFaultPort ==>
      && (forall j: nat :: j < kidWidth ==> kid(FaultIn(j)) == env(FaultIn(Route(p, j))) % 2)
      && (forall j: nat :: j < kidWidth ==> env(FaultOut(Route(p, j))) == kid(FaultOut(j)))
      && (p == Whole ==> forall j: nat :: kidWidth <= j < width ==> env(FaultOut(j)) == 0)
  }

  /** The instance tree mirrors the declarations. */
  ghost predicate Shaped(d: Inst) {
    && |d.kids| == |d.body.decls|
    && (forall i :: 0 <= i < |d.kids| ==> d.kids[i].name == d.body.decls[i].name && Shaped(d.kids[i]))
    && (forall i, j :: 0 <= i < j < |d.kids| ==> d.kids[i].name != d.kids[j].name)
  }

  /** Every net of the hierarchy carries the value its drivers put on it. */
  ghost predicate Consistent(ops: Ops, d: Inst, v: Val)
    decreases d
  {
    && |v.kids| == |d.kids| == |d.body.decls|
    && Defines(ops, d.body.defs, v.nets)
    && forall i :: 0 <= i < |d.kids| ==>
         && PortsAgree(ops, d.body.decls[i], v.nets, v.kids[i].nets)
         && FaultsAgree(d.body.decls[i].fault, d.body.faultWidth, d.kids[i].body.faultWidth, v.nets, v.kids[i].nets)
         && Consistent(ops, d.kids[i], v.kids[i])
  }

  /** A netlist as parsed: no fault nets anywhere. */
  ghost predicate Plain(d: Inst) {
    && d.body.faultWidth == 0
    && (forall n :: n in d.body.defs ==> n.Wire? && forall m :: m in Reads(d.body.defs[n].rhs) ==> m.Wire?)
    && (forall i :: 0 <= i < |d.body.decls| ==>
          && d.body.decls[i].fault == NoFaultPort
          && forall p :: p in d.body.decls[i].ins ==> forall m :: m in Reads(d.body.decls[i].ins[p].rhs) ==> m.Wire?)
    && forall i :: 0 <= i < |d.kids| ==> Plain(d.kids[i])
  }
}
