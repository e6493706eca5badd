/** What an injected netlist computes: the original netlist with each marked wire held at
    the fault bit routed to it, while the value it would have had is shown on the same bit. */
module InjectionMeaning {
  import opened Netlist
  import opened Injection

  // ---------- assumptions on what is marked ----------

  /** Path i marks wire w of the module itself. */
  predicate MarkedAt(paths: seq<FaultPath>, i: nat, w: string) {
    i < |paths| && Local(paths[i]) && paths[i].wire == w
  }

  ghost predicate Marked(paths: seq<FaultPath>, w: string) {
    exists i: nat :: MarkedAt(paths, i, w)
  }

  predicate DistinctLocals(paths: seq<FaultPath>) {
    forall i, j :: 0 <= i < j < |paths| && Local(paths[i]) && Local(paths[j]) ==> paths[i].wire != paths[j].wire
  }

  predicate SingleBit(defs: map<Net, Def>, paths: seq<FaultPath>) {
    forall i :: 0 <= i < |paths| && Local(paths[i]) && Wire(paths[i].wire) in defs ==>
      defs[Wire(paths[i].wire)].width == 1
  }

  /** A parsed netlist with distinct single-bit wires marked in it. */
  ghost predicate Ready(d: Inst) {
    Injectable(d) && Distributed(d) && DistinctSiblings(d) && Plain(d) && Cuttable(d)
  }

  ghost predicate Cuttable(d: Inst) {
    && DistinctLocals(d.paths) && SingleBit(d.body.defs, d.paths)
    && forall i :: 0 <= i < |d.kids| ==> Cuttable(d.kids[i])
  }

  lemma ReadyKid(d: Inst, i: nat)
    requires Ready(d) && i < |d.kids|
    ensures Ready(d.kids[i])
  {
  }

  /** No instance with several faults has a child with exactly one. */
  ghost predicate RoutingOk(d: Inst) {
    && (|d.paths| > 1 ==> forall i :: 0 <= i < |d.kids| ==> |d.kids[i].paths| != 1)
    && forall i :: 0 <= i < |d.kids| ==> RoutingOk(d.kids[i])
  }

  // ---------- what the cuts leave ----------

  ghost predicate CutShape(defs: map<Net, Def>, paths: seq<FaultPath>, r: map<Net, Def>) {
    CutsMade(defs, paths, r) && OthersKept(defs, paths, r) && NothingElse(defs, paths, r)
  }

  ghost predicate CutsMade(defs: map<Net, Def>, paths: seq<FaultPath>, r: map<Net, Def>) {
    forall i: nat :: i < |paths| && Local(paths[i]) ==>
      var w := paths[i].wire;
      && Wire(w) in defs && Wire(w) in r && Original(w) in r && FaultOut(i) in r
      && r[Wire(w)] == Def(defs[Wire(w)].width, Read(FaultIn(i)))
      && r[Original(w)] == Def(1, defs[Wire(w)].rhs)
      && r[FaultOut(i)] == Def(1, Read(Original(w)))
  }

  ghost predicate OthersKept(defs: map<Net, Def>, paths: seq<FaultPath>, r: map<Net, Def>) {
    forall w :: Wire(w) in defs && !Marked(paths, w) ==> Wire(w) in r && r[Wire(w)] == defs[Wire(w)]
  }

  ghost predicate NothingElse(defs: map<Net, Def>, paths: seq<FaultPath>, r: map<Net, Def>) {
    forall n :: n in r ==>
      || (n.Wire? && n in defs)
      || (n.Original? && Marked(paths, n.name))
      || (n.FaultOut? && n.bit < |paths| && Local(paths[n.bit]))
  }

  lemma {:induction false} CutAllShape(defs: map<Net, Def>, paths: seq<FaultPath>)
    requires LocalsExist(defs, paths) && DistinctLocals(paths) && forall n :: n in defs ==> n.Wire?
    ensures CutShape(defs, paths, CutAll(defs, paths))
  {
    if paths != [] {
      var front, last := paths[..|paths| - 1], paths[|paths| - 1];
      assert paths == front + [last];
      assert forall i :: 0 <= i < |front| ==> front[i] == paths[i];
      CutAllShape(defs, front);
      if Local(last) {
        CutOneShape(defs, front, CutAll(defs, front), last);
      } else {
        CutNoneShape(defs, front, CutAll(defs, front), last);
      }
    }
  }

  lemma CutNoneShape(defs: map<Net, Def>, front: seq<FaultPath>, r: map<Net, Def>, p: FaultPath)
    requires CutShape(defs, front, r) && !Local(p)
    ensures CutShape(defs, front + [p], r)
  {
    var paths := front + [p];
    assert forall i: nat, w :: MarkedAt(paths, i, w) <==> MarkedAt(front, i, w);
    assert forall w :: Marked(paths, w) <==> Marked(front, w);
  }

  lemma CutOneShape(defs: map<Net, Def>, front: seq<FaultPath>, r: map<Net, Def>, p: FaultPath)
    requires CutShape(defs, front, r) && Local(p) && DistinctLocals(front + [p]) && Wire(p.wire) in defs &&
             Wire(p.wire) in r
    ensures CutShape(defs, front + [p], Cut(r, p.wire, |front|))
  {
    var paths, n := front + [p], |front|;
    forall i: nat | i < n && Local(front[i]) ensures front[i].wire != p.wire {
      assert paths[i] == front[i] && paths[n] == p;
    }
    assert !Marked(front, p.wire);
    assert MarkedAt(paths, n, p.wire);
    MarkedSnoc(front, p);
    assert r[Wire(p.wire)] == defs[Wire(p.wire)];
    CutOneMade(defs, front, r, p);
  }

  lemma MarkedSnoc(front: seq<FaultPath>, p: FaultPath)
    requires Local(p)
    ensures forall w :: Marked(front + [p], w) <==> Marked(front, w) || w == p.wire
  {
    var paths := front + [p];
    assert forall i: nat, w :: MarkedAt(paths, i, w) <==> MarkedAt(front, i, w) || (i == |front| && p.wire == w);
    assert MarkedAt(paths, |front|, p.wire);
    forall w | Marked(front, w) ensures Marked(paths, w) {
      var i: nat :| MarkedAt(front, i, w);
      assert MarkedAt(paths, i, w);
    }
  }

  lemma CutOneMade(defs: map<Net, Def>, front: seq<FaultPath>, r: map<Net, Def>, p: FaultPath)
    requires CutsMade(defs, front, r) && Local(p) && Wire(p.wire) in defs && Wire(p.wire) in r
    requires r[Wire(p.wire)] == defs[Wire(p.wire)]
    requires forall i: nat :: i < |front| && Local(front[i]) ==> front[i].wire != p.wire
    ensures CutsMade(defs, front + [p], Cut(r, p.wire, |front|))
  {
    var paths, n := front + [p], |front|;
    assert forall i: nat :: i < n ==> paths[i] == front[i];
  }

  // ---------- the netlist with wires held at given bits ----------

  /** The position of the path that marks a wire, or the number of paths. */
  function IndexOf(paths: seq<FaultPath>, w: string): (i: nat)
    ensures i <= |paths| && (i < |paths| ==> MarkedAt(paths, i, w))
    ensures forall j: nat :: j < i ==> !MarkedAt(paths, j, w)
  {
    if paths == [] then 0
    else
      var n := |paths| - 1;
      var i := IndexOf(paths[..n], w);
      assert forall j: nat :: j < n ==> (MarkedAt(paths, j, w) <==> MarkedAt(paths[..n], j, w));
      if i < n then i else if Local(paths[n]) && paths[n].wire == w then n else n + 1
  }

  function BitOf(bits: seq<nat>, k: nat): nat {
    if k < |bits| then bits[k] else 0
  }

  function ForceDefs(defs: map<Net, Def>, paths: seq<FaultPath>, bits: seq<nat>): map<Net, Def> {
    map n | n in defs ::
      if n.Wire? && IndexOf(paths, n.name) < |paths|
      then Def(defs[n].width, Lit(BitOf(bits, IndexOf(paths, n.name))))
      else defs[n]
  }

  /** The fault connection of child i. */
  function PortOf(d: Inst, i: nat): FaultPort
    requires i < |d.kids|
  {
    Connection(Indices(d.paths, d.kids[i].name))
  }

  /** The bits of the enclosing module that reach child i. */
  function KidBits(d: Inst, i: nat, bits: seq<nat>): (r: seq<nat>)
    requires i < |d.kids|
    ensures |r| == |d.kids[i].paths|
  {
    seq(|d.kids[i].paths|, j requires 0 <= j < |d.kids[i].paths| => BitOf(bits, Route(PortOf(d, i), j)))
  }

  /** The original netlist with its marked wires stuck at the routed bits. */
  function Force(d: Inst, bits: seq<nat>): Inst {
    d.(body := d.body.(defs := ForceDefs(d.body.defs, d.paths, bits)),
       kids := seq(|d.kids|, i requires 0 <= i < |d.kids| => Force(d.kids[i], KidBits(d, i, bits))))
  }

  /** The fault inputs of an instance carry the given bits. */
  ghost predicate Fed(d: Inst, v: Val, bits: seq<nat>) {
    |bits| == |d.paths| && forall i :: 0 <= i < |bits| ==> v.nets(FaultIn(i)) % 2 == bits[i] % 2
  }

  /** The shape of an injected instance, child by child. */
  lemma InjectTreeShape(d: Inst, root: bool)
    requires Ready(d)
    ensures var r := InjectTree(d, root);
            && |r.kids| == |d.kids| == |r.body.decls| == |d.body.decls|
            && r.body.faultWidth == |d.paths|
            && CutShape(d.body.defs, d.paths, r.body.defs)
            && r.body.regs == d.body.regs
            && forall i :: 0 <= i < |d.kids| ==>
                 && r.kids[i] == InjectTree(d.kids[i], false)
                 && r.body.decls[i].name == d.body.decls[i].name
                 && r.body.decls[i].ins == d.body.decls[i].ins && r.body.decls[i].outs == d.body.decls[i].outs
                 && r.body.decls[i].fault == if d.kids[i].paths == [] then NoFaultPort else PortOf(d, i)
  {
    InjectTreeBody(d, root);
    if d.paths == [] {
      CutNothing(d.body.defs);
    } else {
      CutAllShape(d.body.defs, d.paths);
    }
    forall i | 0 <= i < |d.kids| ensures |d.kids[i].paths| == |Indices(d.paths, d.kids[i].name)| {
    }
  }

  /** The parts of the body, without assumptions on what is marked. */
  lemma InjectTreeBody(d: Inst, root: bool)
    requires Injectable(d)
    ensures var r := InjectTree(d, root);
            && |r.kids| == |d.kids| == |r.body.decls| == |d.body.decls|
            && r.body.defs == (if d.paths == [] then d.body.defs else CutAll(d.body.defs, d.paths))
            && r.body.faultWidth == (if d.paths == [] then d.body.faultWidth else |d.paths|)
            && r.body.regs == d.body.regs
            && forall i :: 0 <= i < |d.kids| ==>
                 && r.kids[i] == InjectTree(d.kids[i], false)
                 && r.body.decls[i].name == d.body.decls[i].name
                 && r.body.decls[i].ins == d.body.decls[i].ins && r.body.decls[i].outs == d.body.decls[i].outs
                 && r.body.decls[i].fault ==
                    if Indices(d.paths, d.kids[i].name) == [] then d.body.decls[i].fault else PortOf(d, i)
  {
  }

  lemma CutNothing(defs: map<Net, Def>)
    requires forall n :: n in defs ==> n.Wire?
    ensures CutShape(defs, [], defs)
  {
  }

  /** The bit a child's fault bit is routed to is one of its own positions in the parent,
      unless a child with a single fault is connected to a wider vector. */
  lemma RouteInRange(paths: seq<FaultPath>, child: string, j: nat)
    requires j < |Indices(paths, child)|
    ensures var bits := Indices(paths, child);
            && Route(Connection(bits), j) < |paths|
            && (|bits| > 1 || |paths| == 1 ==> Route(Connection(bits), j) == bits[|bits| - 1 - j])
  {
    var bits := Indices(paths, child);
    assert bits[|bits| - 1 - j] < |paths|;
  }

  /** Whatever drives its fault inputs, an injected netlist computes the original one with
      the marked wires held at those bits. */
  lemma {:induction false} InjectedIsForced(ops: Ops, d: Inst, root: bool, v: Val, bits: seq<nat>)
    requires Ready(d) && Consistent(ops, InjectTree(d, root), v) && Fed(d, v, bits)
    ensures Consistent(ops, Force(d, bits), v)
    decreases d
  {
    var r := InjectTree(d, root);
    InjectTreeShape(d, root);
    ForcedHere(ops, d, r.body.defs, v, bits);
    forall i | 0 <= i < |d.kids| ensures Consistent(ops, Force(d.kids[i], KidBits(d, i, bits)), v.kids[i]) {
      ReadyKid(d, i);
      assert Consistent(ops, r.kids[i], v.kids[i]);
      InjectTreeShape(d.kids[i], false);
      KidIsFed(d, v, bits, i, r.body.faultWidth);
      InjectedIsForced(ops, d.kids[i], false, v.kids[i], KidBits(d, i, bits));
    }
    assert forall i :: 0 <= i < |d.kids| ==> PortsAgree(ops, r.body.decls[i], v.nets, v.kids[i].nets);
  }

  lemma ForcedHere(ops: Ops, d: Inst, r: map<Net, Def>, v: Val, bits: seq<nat>)
    requires CutShape(d.body.defs, d.paths, r) && Defines(ops, r, v.nets) && Fed(d, v, bits)
    requires DistinctLocals(d.paths) && SingleBit(d.body.defs, d.paths) && forall n :: n in d.body.defs ==> n.Wire?
    ensures Defines(ops, ForceDefs(d.body.defs, d.paths, bits), v.nets)
  {
    forall n | n in d.body.defs
      ensures v.nets(n) == Value(ops, ForceDefs(d.body.defs, d.paths, bits)[n], v.nets)
    {
      var i := IndexOf(d.paths, n.name);
      assert n == Wire(n.name);
      if i < |d.paths| {
        ForcedWire(ops, d, r, v, bits, i);
      } else {
        assert !Marked(d.paths, n.name);
      }
    }
  }

  lemma ForcedWire(ops: Ops, d: Inst, r: map<Net, Def>, v: Val, bits: seq<nat>, i: nat)
    requires CutsMade(d.body.defs, d.paths, r) && Defines(ops, r, v.nets) && Fed(d, v, bits)
    requires SingleBit(d.body.defs, d.paths) && i < |d.paths| && Local(d.paths[i])
    ensures var n := Wire(d.paths[i].wire);
            n in d.body.defs && v.nets(n) == Value(ops, Def(d.body.defs[n].width, Lit(BitOf(bits, i))), v.nets)
  {
    var n := Wire(d.paths[i].wire);
    OneBit(ops, r[n], v.nets);
    OneBit(ops, Def(d.body.defs[n].width, Lit(BitOf(bits, i))), v.nets);
    assert v.nets(n) == Value(ops, r[n], v.nets);
  }

  lemma KidIsFed(d: Inst, v: Val, bits: seq<nat>, i: nat, width: nat)
    requires i < |d.kids| && |d.kids| == |v.kids| && Fed(d, v, bits)
    requires d.kids[i].paths == Through(d.paths, d.kids[i].name)
    requires d.kids[i].paths != [] ==>
               FaultsAgree(PortOf(d, i), width, |d.kids[i].paths|, v.nets, v.kids[i].nets)
    ensures Fed(d.kids[i], v.kids[i], KidBits(d, i, bits))
  {
    forall j | 0 <= j < |d.kids[i].paths|
      ensures v.kids[i].nets(FaultIn(j)) % 2 == KidBits(d, i, bits)[j] % 2
    {
      RouteInRange(d.paths, d.kids[i].name, j);
    }
  }

  // ---------- what is observed ----------

  /** The position at which value x occurs, or the length. */
  function PositionOf(bits: seq<nat>, x: nat): (k: nat)
    ensures k <= |bits| && (k < |bits| ==> bits[k] == x)
    ensures x in bits ==> k < |bits|
  {
    if bits == [] || bits[0] == x then 0 else 1 + PositionOf(bits[1..], x)
  }

  /** The child that path i goes through, or the number of children. */
  function Owner(d: Inst, i: nat): (c: nat)
    ensures c <= |d.kids|
  {
    if i < |d.paths| && |d.paths[i].names| > 1 then ChildNamed(d.kids, d.paths[i].names[1]) else |d.kids|
  }

  /** The bit of its owner that bit i of an instance is connected to. */
  function OwnerBit(d: Inst, i: nat): nat
    requires Owner(d, i) < |d.kids|
  {
    var bits := Indices(d.paths, d.kids[Owner(d, i)].name);
    var p := PositionOf(bits, i);
    if p < |bits| then |bits| - 1 - p else 0
  }

  lemma OwnerOk(d: Inst, i: nat)
    requires Distributed(d) && i < |d.paths| && !Local(d.paths[i])
    ensures Owner(d, i) < |d.kids| && GoesThrough(d.paths[i], d.kids[Owner(d, i)].name)
    ensures var bits := Indices(d.paths, d.kids[Owner(d, i)].name);
            && |bits| == |d.kids[Owner(d, i)].paths| && OwnerBit(d, i) < |bits|
            && bits[|bits| - 1 - OwnerBit(d, i)] == i
  {
    assert ToChild(d.paths[i], d.kids);
    var c := Owner(d, i);
    IndicesComplete(d.paths, d.kids[c].name, i);
    assert d.kids[c].paths == Through(d.paths, d.kids[c].name);
  }

  lemma PositionIs(bits: seq<nat>, k: nat)
    requires k < |bits| && forall i, j :: 0 <= i < j < |bits| ==> bits[i] < bits[j]
    ensures PositionOf(bits, bits[k]) == k
  {
    var p := PositionOf(bits, bits[k]);
    assert bits[p] == bits[k];
  }

  /** The path at position k of a child's list: whose it is ... */
  lemma ChildEntry(d: Inst, c: nat, k: nat)
    requires Distributed(d) && DistinctSiblings(d) && c < |d.kids| && k < |d.kids[c].paths|
    ensures var bits := Indices(d.paths, d.kids[c].name);
            && |bits| == |d.kids[c].paths| && bits[k] < |d.paths| && !Local(d.paths[bits[k]])
            && Owner(d, bits[k]) == c && PositionOf(bits, bits[k]) == k
  {
    var bits := Indices(d.paths, d.kids[c].name);
    assert |d.kids[c].paths| == |Through(d.paths, d.kids[c].name)|;
    assert GoesThrough(d.paths[bits[k]], d.kids[c].name);
    PositionIs(bits, k);
  }

  /** The value on bit i of the fault outputs: what an own cut wire would have had, or what the owner
      of the bit shows on it; a bit that its owner's connection does not reach is driven with zero. */
  function Observed(ops: Ops, d: Inst, v: Val, i: nat): nat
    decreases d
  {
    if i < |d.paths| && Local(d.paths[i]) then
      var w := Wire(d.paths[i].wire);
      if w in d.body.defs then Eval(ops, d.body.defs[w].rhs, v.nets) % 2 else 0
    else
      var c := Owner(d, i);
      if c < |d.kids| && c < |v.kids| && Route(PortOf(d, c), OwnerBit(d, i)) == i
      then Observed(ops, d.kids[c], v.kids[c], OwnerBit(d, i))
      else 0
  }

  /** What child c drives on the fault outputs, zeros included, is what is observed there. */
  ghost predicate KidAgrees(ops: Ops, d: Inst, v: Val, c: nat)
    requires c < |d.kids| && c < |v.kids|
  {
    d.kids[c].paths != [] ==>
      && (forall j: nat :: j < |d.kids[c].paths| ==>
            Observed(ops, d, v, Route(PortOf(d, c), j)) == Observed(ops, d.kids[c], v.kids[c], j))
      && (PortOf(d, c) == Whole ==>
            forall j: nat :: |d.kids[c].paths| <= j < |d.paths| ==> Observed(ops, d, v, j) == 0)
  }

  /** All drivers of a fault output bit show the same value, at every level. */
  ghost predicate DriversAgree(ops: Ops, d: Inst, v: Val)
    decreases d
  {
    |v.kids| == |d.kids| &&
    forall c :: 0 <= c < |d.kids| ==> KidAgrees(ops, d, v, c) && DriversAgree(ops, d.kids[c], v.kids[c])
  }

  ghost predicate SameShape(d: Inst, v: Val) {
    |v.kids| == |d.kids| && forall i :: 0 <= i < |d.kids| ==> SameShape(d.kids[i], v.kids[i])
  }
}
