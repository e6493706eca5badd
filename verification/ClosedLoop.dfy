/** Injection preserves meaning: driving each fault input with the fault output of the
    same index gives back the original netlist, nothing more and nothing less. */
module ClosedLoop {
  import opened Arith
  import opened Netlist
  import opened Injection
  import opened InjectionMeaning

  // ---------- from the injected netlist to the original ----------

  /** Each fault input bit carries the fault output bit of the same index. */
  ghost predicate Closed(d: Inst, v: Val) {
    forall i :: 0 <= i < |d.paths| ==> v.nets(FaultIn(i)) % 2 == v.nets(FaultOut(i)) % 2
  }

  lemma ClosedHere(ops: Ops, d: Inst, r: map<Net, Def>, v: Val)
    requires CutShape(d.body.defs, d.paths, r) && Defines(ops, r, v.nets) && Closed(d, v)
    requires DistinctLocals(d.paths) && SingleBit(d.body.defs, d.paths) && forall n :: n in d.body.defs ==> n.Wire?
    ensures Defines(ops, d.body.defs, v.nets)
  {
    forall n | n in d.body.defs ensures v.nets(n) == Value(ops, d.body.defs[n], v.nets) {
      var i := IndexOf(d.paths, n.name);
      assert n == Wire(n.name);
      if i < |d.paths| {
        ClosedWire(ops, d, r, v, i);
      } else {
        assert !Marked(d.paths, n.name);
      }
    }
  }

  lemma ClosedWire(ops: Ops, d: Inst, r: map<Net, Def>, v: Val, i: nat)
    requires CutsMade(d.body.defs, d.paths, r) && Defines(ops, r, v.nets) && Closed(d, v)
    requires SingleBit(d.body.defs, d.paths) && i < |d.paths| && Local(d.paths[i])
    ensures var n := Wire(d.paths[i].wire);
            n in d.body.defs && v.nets(n) == Value(ops, d.body.defs[n], v.nets)
  {
    var w := d.paths[i].wire;
    OneBit(ops, d.body.defs[Wire(w)], v.nets);
    OneBit(ops, r[Wire(w)], v.nets);
    OneBit(ops, r[Original(w)], v.nets);
    OneBit(ops, r[FaultOut(i)], v.nets);
    assert v.nets(Wire(w)) == Value(ops, r[Wire(w)], v.nets);
    assert v.nets(Original(w)) == Value(ops, r[Original(w)], v.nets);
    assert v.nets(FaultOut(i)) == Value(ops, r[FaultOut(i)], v.nets);
  }

  lemma KidIsClosed(d: Inst, v: Val, i: nat, width: nat)
    requires i < |d.kids| && |d.kids| == |v.kids| && Closed(d, v)
    requires d.kids[i].paths == Through(d.paths, d.kids[i].name)
    requires d.kids[i].paths != [] ==>
               FaultsAgree(PortOf(d, i), width, |d.kids[i].paths|, v.nets, v.kids[i].nets)
    ensures Closed(d.kids[i], v.kids[i])
  {
    forall j | 0 <= j < |d.kids[i].paths|
      ensures v.kids[i].nets(FaultIn(j)) % 2 == v.kids[i].nets(FaultOut(j)) % 2
    {
      RouteInRange(d.paths, d.kids[i].name, j);
    }
  }

  /** A consistent valuation of the injected netlist with its loop closed is a consistent
      valuation of the original one, on every net of every level. */
  lemma {:induction false} ClosedIsOriginal(ops: Ops, d: Inst, root: bool, v: Val)
    requires Ready(d) && Consistent(ops, InjectTree(d, root), v) && Closed(d, v)
    ensures Consistent(ops, d, v)
    decreases d
  {
    var r := InjectTree(d, root);
    InjectTreeShape(d, root);
    ClosedHere(ops, d, r.body.defs, v);
    forall i | 0 <= i < |d.kids| ensures Consistent(ops, d.kids[i], v.kids[i]) {
      ReadyKid(d, i);
      InjectTreeShape(d.kids[i], false);
      KidIsClosed(d, v, i, r.body.faultWidth);
      ClosedIsOriginal(ops, d.kids[i], false, v.kids[i]);
    }
    assert forall i :: 0 <= i < |d.kids| ==> PortsAgree(ops, r.body.decls[i], v.nets, v.kids[i].nets);
  }

  // ---------- from the original to the injected netlist ----------

  function ExtendNet(ops: Ops, d: Inst, v: Val, bits: seq<nat>, n: Net): nat {
    match n
    case Wire(_) => v.nets(n)
    case Original(w) => if Wire(w) in d.body.defs then Eval(ops, d.body.defs[Wire(w)].rhs, v.nets) % 2 else 0
    case FaultIn(i) => BitOf(bits, i)
    case FaultOut(i) => Observed(ops, d, v, i)
  }

  function ExtendNets(ops: Ops, d: Inst, v: Val, bits: seq<nat>): (env: Net -> nat)
    ensures forall n :: env(n) == ExtendNet(ops, d, v, bits, n)
  {
    n => ExtendNet(ops, d, v, bits, n)
  }

  /** Values for the fault nets as well, given the bits fed in. */
  function Extend(ops: Ops, d: Inst, v: Val, bits: seq<nat>): Val
    requires SameShape(d, v)
    decreases d
  {
    Val(ExtendNets(ops, d, v, bits),
        seq(|d.kids|, i requires 0 <= i < |d.kids| => Extend(ops, d.kids[i], v.kids[i], KidBits(d, i, bits))))
  }

  lemma WiresAlone(ops: Ops, e: Def, env1: Net -> nat, env2: Net -> nat)
    requires forall n :: n in Reads(e.rhs) ==> n.Wire?
    requires forall n: Net :: n.Wire? ==> env1(n) == env2(n)
    ensures Eval(ops, e.rhs, env1) == Eval(ops, e.rhs, env2)
  {
    EvalAgree(ops, e.rhs, env1, env2);
  }

  lemma ExtendWire(ops: Ops, defs: map<Net, Def>, paths: seq<FaultPath>, r: map<Net, Def>, bits: seq<nat>,
                   w: string, env1: Net -> nat, env2: Net -> nat)
    requires CutShape(defs, paths, r) && Wire(w) in defs && SingleBit(defs, paths) && |bits| == |paths|
    requires forall n :: n in Reads(defs[Wire(w)].rhs) ==> n.Wire?
    requires forall n: Net :: n.Wire? ==> env1(n) == env2(n)
    requires forall i :: 0 <= i < |bits| ==> env2(FaultIn(i)) == bits[i]
    requires env1(Wire(w)) == Value(ops, ForceDefs(defs, paths, bits)[Wire(w)], env1)
    ensures Wire(w) in r && env2(Wire(w)) == Value(ops, r[Wire(w)], env2)
  {
    var i := IndexOf(paths, w);
    if i < |paths| {
      assert Local(paths[i]) && paths[i].wire == w;
      OneBit(ops, r[Wire(w)], env2);
      OneBit(ops, ForceDefs(defs, paths, bits)[Wire(w)], env1);
    } else {
      assert !Marked(paths, w);
      WiresAlone(ops, defs[Wire(w)], env1, env2);
    }
  }

  lemma ExtendOthers(ops: Ops, d: Inst, r: map<Net, Def>, v: Val, bits: seq<nat>, n: Net)
    requires CutShape(d.body.defs, d.paths, r) && n in r && !n.Wire?
    requires forall m :: m in d.body.defs ==> forall k :: k in Reads(d.body.defs[m].rhs) ==> k.Wire?
    ensures ExtendNets(ops, d, v, bits)(n) == Value(ops, r[n], ExtendNets(ops, d, v, bits))
  {
    if n.Original? {
      var i: nat :| MarkedAt(d.paths, i, n.name);
      ExtendOriginal(ops, d, r, v, bits, i);
    } else {
      assert n == FaultOut(n.bit) && n.bit < |d.paths| && Local(d.paths[n.bit]);
      ExtendShown(ops, d, r, v, bits, n.bit);
    }
  }

  lemma ExtendOriginal(ops: Ops, d: Inst, r: map<Net, Def>, v: Val, bits: seq<nat>, i: nat)
    requires CutsMade(d.body.defs, d.paths, r) && i < |d.paths| && Local(d.paths[i])
    requires forall m :: m in d.body.defs ==> forall k :: k in Reads(d.body.defs[m].rhs) ==> k.Wire?
    ensures var n := Original(d.paths[i].wire);
            n in r && ExtendNets(ops, d, v, bits)(n) == Value(ops, r[n], ExtendNets(ops, d, v, bits))
  {
    var env := ExtendNets(ops, d, v, bits);
    var n := Wire(d.paths[i].wire);
    OneBit(ops, r[Original(d.paths[i].wire)], env);
    WiresAlone(ops, d.body.defs[n], v.nets, env);
  }

  lemma ExtendShown(ops: Ops, d: Inst, r: map<Net, Def>, v: Val, bits: seq<nat>, i: nat)
    requires CutsMade(d.body.defs, d.paths, r) && i < |d.paths| && Local(d.paths[i])
    ensures var n := FaultOut(i);
            n in r && ExtendNets(ops, d, v, bits)(n) == Value(ops, r[n], ExtendNets(ops, d, v, bits))
  {
    OneBit(ops, r[FaultOut(i)], ExtendNets(ops, d, v, bits));
    ExtendOut(ops, d, v, bits, i);
  }

  lemma ExtendOut(ops: Ops, d: Inst, v: Val, bits: seq<nat>, i: nat)
    requires i < |d.paths| && Local(d.paths[i]) && Wire(d.paths[i].wire) in d.body.defs
    ensures var env := ExtendNets(ops, d, v, bits);
            env(FaultOut(i)) == env(Original(d.paths[i].wire)) < 2
  {
  }

  lemma ExtendDefines(ops: Ops, d: Inst, r: map<Net, Def>, v: Val, bits: seq<nat>)
    requires |bits| == |d.paths| && SingleBit(d.body.defs, d.paths) && CutShape(d.body.defs, d.paths, r)
    requires forall m :: m in d.body.defs ==> forall k :: k in Reads(d.body.defs[m].rhs) ==> k.Wire?
    requires Defines(ops, ForceDefs(d.body.defs, d.paths, bits), v.nets)
    ensures Defines(ops, r, ExtendNets(ops, d, v, bits))
  {
    var env := ExtendNets(ops, d, v, bits);
    assert forall i :: 0 <= i < |bits| ==> env(FaultIn(i)) == bits[i];
    forall n | n in r ensures env(n) == Value(ops, r[n], env) {
      if n.Wire? {
        assert n in d.body.defs && n == Wire(n.name);
        ExtendWire(ops, d.body.defs, d.paths, r, bits, n.name, v.nets, env);
      } else {
        ExtendOthers(ops, d, r, v, bits, n);
      }
    }
  }

  lemma ExtendPorts(ops: Ops, decl: Decl, env1: Net -> nat, kid1: Net -> nat, env2: Net -> nat, kid2: Net -> nat)
    requires PortsAgree(ops, decl, env1, kid1)
    requires forall p :: p in decl.ins ==> forall m :: m in Reads(decl.ins[p].rhs) ==> m.Wire?
    requires forall n: Net :: n.Wire? ==> env1(n) == env2(n) && kid1(n) == kid2(n)
    ensures PortsAgree(ops, decl, env2, kid2)
  {
    forall p | p in decl.ins ensures kid2(Wire(p)) == Value(ops, decl.ins[p], env2) {
      WiresAlone(ops, decl.ins[p], env1, env2);
    }
  }

  /** Where the routing condition holds, a child's bit and the parent's bit it is connected
      to stand for the same cut wire. */
  lemma RouteOwner(d: Inst, i: nat, j: nat)
    requires Distributed(d) && DistinctSiblings(d) && i < |d.kids| && j < |d.kids[i].paths|
    requires |d.paths| > 1 ==> |d.kids[i].paths| != 1
    ensures |Indices(d.paths, d.kids[i].name)| == |d.kids[i].paths|
    ensures var k := Route(PortOf(d, i), j);
            k < |d.paths| && !Local(d.paths[k]) && Owner(d, k) == i && OwnerBit(d, k) == j
  {
    ChildEntry(d, i, |d.kids[i].paths| - 1 - j);
    RouteInRange(d.paths, d.kids[i].name, j);
  }

  lemma KidAgreesWhenRouted(ops: Ops, d: Inst, v: Val, c: nat)
    requires Distributed(d) && DistinctSiblings(d) && c < |d.kids| == |v.kids|
    requires |d.paths| > 1 ==> |d.kids[c].paths| != 1
    ensures KidAgrees(ops, d, v, c)
  {
    if d.kids[c].paths != [] {
      forall j: nat | j < |d.kids[c].paths|
        ensures Observed(ops, d, v, Route(PortOf(d, c), j)) == Observed(ops, d.kids[c], v.kids[c], j)
      {
        RouteOwner(d, c, j);
      }
      RouteOwner(d, c, 0);
    }
  }

  /** Where the routing condition holds, the drivers agree in every valuation. */
  lemma {:induction false} RoutingAgrees(ops: Ops, d: Inst, v: Val)
    requires Distributed(d) && DistinctSiblings(d) && RoutingOk(d) && SameShape(d, v)
    ensures DriversAgree(ops, d, v)
    decreases d
  {
    forall c | 0 <= c < |d.kids| ensures KidAgrees(ops, d, v, c) && DriversAgree(ops, d.kids[c], v.kids[c]) {
      KidAgreesWhenRouted(ops, d, v, c);
      RoutingAgrees(ops, d.kids[c], v.kids[c]);
    }
  }

  lemma KidBit(d: Inst, i: nat, j: nat, bits: seq<nat>)
    requires i < |d.kids| && j < |d.kids[i].paths| && Route(PortOf(d, i), j) < |bits|
    ensures KidBits(d, i, bits)[j] == bits[Route(PortOf(d, i), j)]
  {
  }

  lemma ExtendFault(ops: Ops, d: Inst, v: Val, bits: seq<nat>, i: nat, j: nat)
    requires Distributed(d) && i < |d.kids| == |v.kids| && j < |d.kids[i].paths| && |bits| == |d.paths|
    requires KidAgrees(ops, d, v, i)
    ensures var k := Route(PortOf(d, i), j);
            k < |bits| && KidBits(d, i, bits)[j] == bits[k] &&
            Observed(ops, d, v, k) == Observed(ops, d.kids[i], v.kids[i], j)
  {
    assert |d.kids[i].paths| == |Through(d.paths, d.kids[i].name)|;
    RouteInRange(d.paths, d.kids[i].name, j);
    KidBit(d, i, j, bits);
  }

  lemma BitNets(ops: Ops, d: Inst, v: Val, bits: seq<nat>, i: nat, j: nat, k: nat)
    requires i < |d.kids| == |v.kids| && j < |d.kids[i].paths| && k < |bits|
    requires forall l :: 0 <= l < |bits| ==> bits[l] < 2
    requires KidBits(d, i, bits)[j] == bits[k]
    requires Observed(ops, d, v, k) == Observed(ops, d.kids[i], v.kids[i], j)
    ensures var env, kid := ExtendNets(ops, d, v, bits), ExtendNets(ops, d.kids[i], v.kids[i], KidBits(d, i, bits));
            kid(FaultIn(j)) == env(FaultIn(k)) % 2 && env(FaultOut(k)) == kid(FaultOut(j))
  {
    assert bits[k] % 2 == bits[k];
  }

  lemma ExtendFaults(ops: Ops, d: Inst, v: Val, bits: seq<nat>, i: nat)
    requires Distributed(d) && i < |d.kids| == |v.kids| && d.kids[i].paths != [] && KidAgrees(ops, d, v, i)
    requires |bits| == |d.paths| && forall k :: 0 <= k < |bits| ==> bits[k] < 2
    ensures FaultsAgree(PortOf(d, i), |d.paths|, |d.kids[i].paths|, ExtendNets(ops, d, v, bits),
                        ExtendNets(ops, d.kids[i], v.kids[i], KidBits(d, i, bits)))
  {
    forall j: nat | j < |d.kids[i].paths|
      ensures var env, kid := ExtendNets(ops, d, v, bits), ExtendNets(ops, d.kids[i], v.kids[i], KidBits(d, i, bits));
              var k := Route(PortOf(d, i), j);
              kid(FaultIn(j)) == env(FaultIn(k)) % 2 && env(FaultOut(k)) == kid(FaultOut(j))
    {
      ExtendFault(ops, d, v, bits, i, j);
      BitNets(ops, d, v, bits, i, j, Route(PortOf(d, i), j));
    }
  }

  lemma {:induction false} ForcedShape(ops: Ops, d: Inst, bits: seq<nat>, v: Val)
    requires Consistent(ops, Force(d, bits), v)
    ensures SameShape(d, v)
    decreases d
  {
    forall i | 0 <= i < |d.kids| ensures SameShape(d.kids[i], v.kids[i]) {
      ForcedShape(ops, d.kids[i], KidBits(d, i, bits), v.kids[i]);
    }
  }

  lemma ForcedHere(ops: Ops, d: Inst, root: bool, v: Val, bits: seq<nat>)
    requires Ready(d) && Consistent(ops, Force(d, bits), v) && SameShape(d, v)
    requires |bits| == |d.paths| && forall k :: 0 <= k < |bits| ==> bits[k] < 2
    ensures var r, v' := InjectTree(d, root), Extend(ops, d, v, bits);
            && |r.kids| == |d.kids| == |r.body.decls| == |v'.kids| == |v.kids|
            && Defines(ops, r.body.defs, v'.nets)
            && forall i :: 0 <= i < |d.kids| ==>
                 && r.kids[i] == InjectTree(d.kids[i], false)
                 && v'.kids[i] == Extend(ops, d.kids[i], v.kids[i], KidBits(d, i, bits))
  {
    InjectTreeShape(d, root);
    ExtendDefines(ops, d, InjectTree(d, root).body.defs, v, bits);
  }

  lemma ForcedKid(ops: Ops, d: Inst, v: Val, bits: seq<nat>, i: nat)
    requires Ready(d) && Consistent(ops, Force(d, bits), v) && DriversAgree(ops, d, v) && i < |d.kids|
    requires |bits| == |d.paths| && forall k :: 0 <= k < |bits| ==> bits[k] < 2
    ensures |v.kids| == |d.kids| && Ready(d.kids[i]) && DriversAgree(ops, d.kids[i], v.kids[i])
    ensures var kidBits := KidBits(d, i, bits);
            && Consistent(ops, Force(d.kids[i], kidBits), v.kids[i])
            && |kidBits| == |d.kids[i].paths| && forall k :: 0 <= k < |kidBits| ==> kidBits[k] < 2
  {
    ReadyKid(d, i);
  }

  /** Conversely, where the drivers agree, a consistent valuation of the netlist with stuck wires is
      part of one of the injected netlist fed with those bits. */
  lemma {:induction false} ForcedIsInjected(ops: Ops, d: Inst, root: bool, v: Val, bits: seq<nat>)
    requires Ready(d) && Consistent(ops, Force(d, bits), v) && DriversAgree(ops, d, v)
    requires |bits| == |d.paths| && forall k :: 0 <= k < |bits| ==> bits[k] < 2
    ensures SameShape(d, v)
    ensures Consistent(ops, InjectTree(d, root), Extend(ops, d, v, bits))
    decreases d
  {
    ForcedShape(ops, d, bits, v);
    ForcedHere(ops, d, root, v, bits);
    var r, v' := InjectTree(d, root), Extend(ops, d, v, bits);
    forall i | 0 <= i < |d.kids|
      ensures PortsAgree(ops, r.body.decls[i], v'.nets, v'.kids[i].nets)
      ensures FaultsAgree(r.body.decls[i].fault, r.body.faultWidth, r.kids[i].body.faultWidth,
                          v'.nets, v'.kids[i].nets)
      ensures Consistent(ops, r.kids[i], v'.kids[i])
    {
      ForcedKid(ops, d, v, bits, i);
      ForcedIsInjected(ops, d.kids[i], false, v.kids[i], KidBits(d, i, bits));
      KidConnected(ops, d, root, v, bits, i);
    }
  }

  lemma ExtendKeeps(ops: Ops, d: Inst, v: Val, bits: seq<nat>, i: nat)
    requires SameShape(d, v) && i < |d.kids|
    ensures var v' := Extend(ops, d, v, bits);
            |v'.kids| == |d.kids| &&
            forall n: Net :: n.Wire? ==> v'.nets(n) == v.nets(n) && v'.kids[i].nets(n) == v.kids[i].nets(n)
  {
    assert Extend(ops, d, v, bits).kids[i] == Extend(ops, d.kids[i], v.kids[i], KidBits(d, i, bits));
  }

  lemma KidConnected(ops: Ops, d: Inst, root: bool, v: Val, bits: seq<nat>, i: nat)
    requires Ready(d) && Consistent(ops, Force(d, bits), v) && SameShape(d, v) && i < |d.kids|
    requires KidAgrees(ops, d, v, i)
    requires |bits| == |d.paths| && forall k :: 0 <= k < |bits| ==> bits[k] < 2
    ensures var r, v' := InjectTree(d, root), Extend(ops, d, v, bits);
            && |r.kids| == |r.body.decls| == |d.kids|
            && PortsAgree(ops, r.body.decls[i], v'.nets, v'.kids[i].nets)
            && FaultsAgree(r.body.decls[i].fault, r.body.faultWidth, r.kids[i].body.faultWidth,
                           v'.nets, v'.kids[i].nets)
  {
    var v' := Extend(ops, d, v, bits);
    ReadyKid(d, i);
    InjectTreeShape(d, root);
    InjectTreeShape(d.kids[i], false);
    assert PortsAgree(ops, d.body.decls[i], v.nets, v.kids[i].nets);
    ExtendKeeps(ops, d, v, bits, i);
    ExtendPorts(ops, d.body.decls[i], v.nets, v.kids[i].nets, v'.nets, v'.kids[i].nets);
    if d.kids[i].paths != [] {
      ExtendFaults(ops, d, v, bits, i);
    }
  }

  // ---------- the loop closed ----------

  function ObservedBits(ops: Ops, d: Inst, v: Val): (bits: seq<nat>)
    ensures |bits| == |d.paths|
  {
    seq(|d.paths|, i requires 0 <= i < |d.paths| => Observed(ops, d, v, i))
  }

  lemma {:induction false} ObservedIsBit(ops: Ops, d: Inst, v: Val, i: nat)
    ensures Observed(ops, d, v, i) < 2
    decreases d
  {
    var c := Owner(d, i);
    if !(i < |d.paths| && Local(d.paths[i])) && c < |d.kids| && c < |v.kids| {
      ObservedIsBit(ops, d.kids[c], v.kids[c], OwnerBit(d, i));
    }
  }

  lemma ObservedAreBits(ops: Ops, d: Inst, v: Val)
    ensures forall k :: 0 <= k < |d.paths| ==> ObservedBits(ops, d, v)[k] < 2
  {
    forall k | 0 <= k < |d.paths| ensures ObservedBits(ops, d, v)[k] < 2 {
      ObservedIsBit(ops, d, v, k);
    }
  }

  lemma KidObserved(ops: Ops, d: Inst, v: Val, i: nat)
    requires Distributed(d) && i < |d.kids| == |v.kids| && KidAgrees(ops, d, v, i)
    ensures KidBits(d, i, ObservedBits(ops, d, v)) == ObservedBits(ops, d.kids[i], v.kids[i])
  {
    forall j | 0 <= j < |d.kids[i].paths|
      ensures KidBits(d, i, ObservedBits(ops, d, v))[j] == ObservedBits(ops, d.kids[i], v.kids[i])[j]
    {
      ExtendFault(ops, d, v, ObservedBits(ops, d, v), i, j);
    }
  }

  lemma {:induction false} ConsistentShape(ops: Ops, d: Inst, v: Val)
    requires Consistent(ops, d, v)
    ensures SameShape(d, v)
    decreases d
  {
    forall i | 0 <= i < |d.kids| ensures SameShape(d.kids[i], v.kids[i]) {
      ConsistentShape(ops, d.kids[i], v.kids[i]);
    }
  }

  lemma ForcedHereToObserved(ops: Ops, d: Inst, v: Val)
    requires LocalsExist(d.body.defs, d.paths) && SingleBit(d.body.defs, d.paths) && Defines(ops, d.body.defs, v.nets)
    requires forall n :: n in d.body.defs ==> n.Wire?
    ensures Defines(ops, ForceDefs(d.body.defs, d.paths, ObservedBits(ops, d, v)), v.nets)
  {
    var bits := ObservedBits(ops, d, v);
    assert Pow2(1) == 2;
    forall n | n in d.body.defs
      ensures v.nets(n) == Value(ops, ForceDefs(d.body.defs, d.paths, bits)[n], v.nets)
    {
      var i := IndexOf(d.paths, n.name);
      if i < |d.paths| {
        assert Local(d.paths[i]) && d.paths[i].wire == n.name;
        assert n == Wire(n.name);
      }
    }
  }

  /** Holding the marked wires at the values they have changes nothing. */
  lemma {:induction false} ForcedToObserved(ops: Ops, d: Inst, v: Val)
    requires Ready(d) && Consistent(ops, d, v) && DriversAgree(ops, d, v)
    ensures SameShape(d, v)
    ensures Consistent(ops, Force(d, ObservedBits(ops, d, v)), v)
    decreases d
  {
    ConsistentShape(ops, d, v);
    var bits := ObservedBits(ops, d, v);
    ForcedHereToObserved(ops, d, v);
    forall i | 0 <= i < |d.kids| ensures Consistent(ops, Force(d.kids[i], KidBits(d, i, bits)), v.kids[i]) {
      ReadyKid(d, i);
      KidObserved(ops, d, v, i);
      ForcedToObserved(ops, d.kids[i], v.kids[i]);
    }
  }

  /** The values of original wires are the same, at every level. */
  ghost predicate SameWires(v: Val, v': Val)
    decreases v
  {
    && (forall n: Net :: n.Wire? ==> v.nets(n) == v'.nets(n))
    && |v.kids| == |v'.kids|
    && forall i :: 0 <= i < |v.kids| ==> SameWires(v.kids[i], v'.kids[i])
  }

  lemma {:induction false} ExtendKeepsWires(ops: Ops, d: Inst, v: Val, bits: seq<nat>)
    requires SameShape(d, v)
    ensures SameWires(v, Extend(ops, d, v, bits))
    decreases d
  {
    forall i | 0 <= i < |d.kids| ensures SameWires(v.kids[i], Extend(ops, d, v, bits).kids[i]) {
      ExtendKeepsWires(ops, d.kids[i], v.kids[i], KidBits(d, i, bits));
    }
  }

  /** Where the drivers agree, a consistent valuation of the original netlist is, wire by wire, one of
      the injected netlist with its loop closed. */
  lemma AgreeingCloses(ops: Ops, d: Inst, root: bool, v: Val) returns (v': Val)
    requires Ready(d) && Consistent(ops, d, v) && DriversAgree(ops, d, v)
    ensures Consistent(ops, InjectTree(d, root), v') && SameWires(v, v')
    ensures forall i :: 0 <= i < |d.paths| ==> v'.nets(FaultIn(i)) == v'.nets(FaultOut(i))
  {
    ForcedToObserved(ops, d, v);
    var bits := ObservedBits(ops, d, v);
    ObservedAreBits(ops, d, v);
    ForcedIsInjected(ops, d, root, v, bits);
    ExtendKeepsWires(ops, d, v, bits);
    v' := Extend(ops, d, v, bits);
    ExtendCloses(ops, d, v);
  }

  /** Under the routing condition that is every valuation. */
  lemma OriginalIsClosed(ops: Ops, d: Inst, root: bool, v: Val) returns (v': Val)
    requires Ready(d) && RoutingOk(d) && Consistent(ops, d, v)
    ensures Consistent(ops, InjectTree(d, root), v') && SameWires(v, v')
    ensures forall i :: 0 <= i < |d.paths| ==> v'.nets(FaultIn(i)) == v'.nets(FaultOut(i))
  {
    ConsistentShape(ops, d, v);
    RoutingAgrees(ops, d, v);
    v' := AgreeingCloses(ops, d, root, v);
  }

  lemma ExtendCloses(ops: Ops, d: Inst, v: Val)
    requires SameShape(d, v)
    ensures var v' := Extend(ops, d, v, ObservedBits(ops, d, v));
            forall i :: 0 <= i < |d.paths| ==> v'.nets(FaultIn(i)) == v'.nets(FaultOut(i))
  {
  }

  // ---------- only agreeing drivers leave a valuation ----------

  /** An own output bit shows what the cut wire would have had. */
  lemma OwnShown(ops: Ops, d: Inst, r: map<Net, Def>, v: Val, v': Val, i: nat)
    requires CutsMade(d.body.defs, d.paths, r) && Defines(ops, r, v'.nets) && i < |d.paths| && Local(d.paths[i])
    requires forall m :: m in d.body.defs ==> forall k :: k in Reads(d.body.defs[m].rhs) ==> k.Wire?
    requires forall n: Net :: n.Wire? ==> v.nets(n) == v'.nets(n)
    ensures v'.nets(FaultOut(i)) == Observed(ops, d, v, i)
  {
    var w := d.paths[i].wire;
    OneBit(ops, r[Original(w)], v'.nets);
    OneBit(ops, r[FaultOut(i)], v'.nets);
    assert v'.nets(Original(w)) == Value(ops, r[Original(w)], v'.nets);
    assert v'.nets(FaultOut(i)) == Value(ops, r[FaultOut(i)], v'.nets);
    WiresAlone(ops, d.body.defs[Wire(w)], v.nets, v'.nets);
  }

  /** Any other bit shows what its owner shows, or zero. */
  lemma OwnerShown(ops: Ops, d: Inst, v: Val, v': Val, i: nat)
    requires Distributed(d) && i < |d.paths| && !Local(d.paths[i]) && |v.kids| == |v'.kids| == |d.kids|
    requires Owner(d, i) < |d.kids| && OwnerBit(d, i) < |d.kids[Owner(d, i)].paths|
    requires var c := Owner(d, i);
             && FaultsAgree(PortOf(d, c), |d.paths|, |d.kids[c].paths|, v'.nets, v'.kids[c].nets)
             && v'.kids[c].nets(FaultOut(OwnerBit(d, i))) == Observed(ops, d.kids[c], v.kids[c], OwnerBit(d, i))
    ensures v'.nets(FaultOut(i)) == Observed(ops, d, v, i)
  {
    var c, j := Owner(d, i), OwnerBit(d, i);
    OwnerMissed(d, i);
    ShownVia(PortOf(d, c), |d.paths|, |d.kids[c].paths|, v'.nets, v'.kids[c].nets, i, j);
  }

  /** A connection that does not take the owner's bit to bit i is one of a single fault to the whole
      vector, and drives bit i with zero. */
  lemma OwnerMissed(d: Inst, i: nat)
    requires Distributed(d) && i < |d.paths| && !Local(d.paths[i]) && Owner(d, i) < |d.kids|
    ensures var c := Owner(d, i);
            Route(PortOf(d, c), OwnerBit(d, i)) == i || (PortOf(d, c) == Whole && |d.kids[c].paths| <= i)
  {
    OwnerOk(d, i);
  }

  lemma ShownVia(p: FaultPort, width: nat, kidWidth: nat, env: Net -> nat, kid: Net -> nat, i: nat, j: nat)
    requires FaultsAgree(p, width, kidWidth, env, kid) && p != NoFaultPort && i < width && j < kidWidth
    requires Route(p, j) == i || (p == Whole && kidWidth <= i)
    ensures env(FaultOut(i)) == if Route(p, j) == i then kid(FaultOut(j)) else 0
  {
    assert env(FaultOut(Route(p, j))) == kid(FaultOut(j));
  }

  lemma KidFaults(ops: Ops, d: Inst, root: bool, v': Val, c: nat)
    requires Ready(d) && Consistent(ops, InjectTree(d, root), v') && c < |d.kids| && d.kids[c].paths != []
    ensures c < |v'.kids| && FaultsAgree(PortOf(d, c), |d.paths|, |d.kids[c].paths|, v'.nets, v'.kids[c].nets)
  {
    InjectTreeShape(d, root);
    ReadyKid(d, c);
    InjectTreeShape(d.kids[c], false);
  }

  lemma {:induction false} ShownIsObserved(ops: Ops, d: Inst, root: bool, v: Val, v': Val)
    requires Ready(d) && Consistent(ops, InjectTree(d, root), v') && SameWires(v, v')
    ensures forall i :: 0 <= i < |d.paths| ==> v'.nets(FaultOut(i)) == Observed(ops, d, v, i)
    ensures DriversAgree(ops, d, v)
    decreases d
  {
    InjectTreeShape(d, root);
    forall c | 0 <= c < |d.kids|
      ensures forall j :: 0 <= j < |d.kids[c].paths| ==>
                v'.kids[c].nets(FaultOut(j)) == Observed(ops, d.kids[c], v.kids[c], j)
      ensures DriversAgree(ops, d.kids[c], v.kids[c])
    {
      ReadyKid(d, c);
      ShownIsObserved(ops, d.kids[c], false, v.kids[c], v'.kids[c]);
    }
    forall i | 0 <= i < |d.paths| ensures v'.nets(FaultOut(i)) == Observed(ops, d, v, i) {
      BitShown(ops, d, root, v, v', i);
    }
    forall c | 0 <= c < |d.kids| ensures KidAgrees(ops, d, v, c) {
      KidShown(ops, d, root, v, v', c);
    }
  }

  lemma BitShown(ops: Ops, d: Inst, root: bool, v: Val, v': Val, i: nat)
    requires Ready(d) && Consistent(ops, InjectTree(d, root), v') && SameWires(v, v') && i < |d.paths|
    requires |v'.kids| == |d.kids|
    requires forall c :: 0 <= c < |d.kids| ==> forall j :: 0 <= j < |d.kids[c].paths| ==>
               v'.kids[c].nets(FaultOut(j)) == Observed(ops, d.kids[c], v.kids[c], j)
    ensures v'.nets(FaultOut(i)) == Observed(ops, d, v, i)
  {
    if Local(d.paths[i]) {
      InjectTreeShape(d, root);
      OwnShown(ops, d, InjectTree(d, root).body.defs, v, v', i);
    } else {
      OwnerOk(d, i);
      KidFaults(ops, d, root, v', Owner(d, i));
      OwnerShown(ops, d, v, v', i);
    }
  }

  lemma KidShown(ops: Ops, d: Inst, root: bool, v: Val, v': Val, c: nat)
    requires Ready(d) && Consistent(ops, InjectTree(d, root), v') && c < |d.kids| == |v.kids| == |v'.kids|
    requires forall i :: 0 <= i < |d.paths| ==> v'.nets(FaultOut(i)) == Observed(ops, d, v, i)
    requires forall j :: 0 <= j < |d.kids[c].paths| ==>
               v'.kids[c].nets(FaultOut(j)) == Observed(ops, d.kids[c], v.kids[c], j)
    ensures KidAgrees(ops, d, v, c)
  {
    if d.kids[c].paths != [] {
      KidFaults(ops, d, root, v', c);
      forall j: nat | j < |d.kids[c].paths|
        ensures Observed(ops, d, v, Route(PortOf(d, c), j)) == Observed(ops, d.kids[c], v.kids[c], j)
      {
        assert |d.kids[c].paths| == |Through(d.paths, d.kids[c].name)|;
        RouteInRange(d.paths, d.kids[c].name, j);
      }
    }
  }

  /** A valuation of the original netlist is one of the injected netlist with its loop closed exactly
      when, in it, all drivers of every fault output bit show the same value. */
  lemma ClosesIffDriversAgree(ops: Ops, d: Inst, root: bool, v: Val)
    requires Ready(d) && Consistent(ops, d, v)
    ensures (exists v' :: Consistent(ops, InjectTree(d, root), v') && SameWires(v, v') && Closed(d, v')) <==>
            DriversAgree(ops, d, v)
  {
    if v' :| Consistent(ops, InjectTree(d, root), v') && SameWires(v, v') && Closed(d, v') {
      ShownIsObserved(ops, d, root, v, v');
    }
    if DriversAgree(ops, d, v) {
      var v' := AgreeingCloses(ops, d, root, v);
      assert Closed(d, v');
    }
  }
}
