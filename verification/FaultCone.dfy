/** Acyclic netlists have at most one valuation, so injection keeps the value of every wire that no
    cut wire can influence, and of every wire when the fault loop is closed. */
module FaultCone {
  import opened Netlist
  import opened Injection
  import opened InjectionMeaning
  import opened ClosedLoop

  /** A number, or a mark, for each net of an instance and of its children. */
  datatype Rank = Rank(of: Net -> nat, kids: seq<Rank>)
  datatype Region = Region(has: Net -> bool, kids: seq<Region>)

  /** Every driver of a net ranks below it: the netlist has no combinational cycle, within
      a module or across instances. */
  ghost predicate Acyclic(d: Inst, r: Rank)
    decreases d
  {
    && |r.kids| == |d.kids| == |d.body.decls|
    && (forall n :: n in d.body.defs ==> forall m :: m in Reads(d.body.defs[n].rhs) ==> r.of(m) < r.of(n))
    && forall i :: 0 <= i < |d.kids| ==>
         && Acyclic(d.kids[i], r.kids[i])
         && PortsRanked(d.body.decls[i], r.of, r.kids[i].of)
  }

  ghost predicate PortsRanked(decl: Decl, of: Net -> nat, kid: Net -> nat) {
    && (forall p :: p in decl.ins ==> forall m :: m in Reads(decl.ins[p].rhs) ==> of(m) < kid(Wire(p)))
    && (forall w :: w in decl.outs ==> kid(Wire(decl.outs[w])) < of(Wire(w)))
  }

  /** A region closed under fan-out: what is driven from inside it lies in it. */
  ghost predicate FanoutClosed(d: Inst, c: Region)
    decreases d
  {
    && |c.kids| == |d.kids| == |d.body.decls|
    && (forall n :: n in d.body.defs ==> forall m :: m in Reads(d.body.defs[n].rhs) && c.has(m) ==> c.has(n))
    && forall i :: 0 <= i < |d.kids| ==>
         && FanoutClosed(d.kids[i], c.kids[i])
         && PortsClosed(d.body.decls[i], c.has, c.kids[i].has)
  }

  ghost predicate PortsClosed(decl: Decl, has: Net -> bool, kid: Net -> bool) {
    && (forall p :: p in decl.ins ==> forall m :: m in Reads(decl.ins[p].rhs) && has(m) ==> kid(Wire(p)))
    && (forall w :: w in decl.outs ==> kid(Wire(decl.outs[w])) ==> has(Wire(w)))
  }

  /** The region contains every marked wire. */
  ghost predicate HoldsCuts(d: Inst, c: Region)
    decreases d
  {
    && |c.kids| == |d.kids|
    && (forall i :: 0 <= i < |d.paths| && Local(d.paths[i]) ==> c.has(Wire(d.paths[i].wire)))
    && forall i :: 0 <= i < |d.kids| ==> HoldsCuts(d.kids[i], c.kids[i])
  }

  /** The equations of the original netlist hold for every net outside a region. */
  ghost predicate Outside(ops: Ops, d: Inst, c: Region, v: Val)
    decreases d
  {
    && |v.kids| == |c.kids| == |d.kids| == |d.body.decls|
    && (forall n :: n in d.body.defs && !c.has(n) ==> v.nets(n) == Value(ops, d.body.defs[n], v.nets))
    && forall i :: 0 <= i < |d.kids| ==>
         && PortsAgree(ops, d.body.decls[i], v.nets, v.kids[i].nets)
         && Outside(ops, d.kids[i], c.kids[i], v.kids[i])
  }

  /** Nets that nothing in the hierarchy drives (inputs of the root and registers) agree;
      `ports` are the nets of the instance that its parent drives. */
  ghost predicate FreeAgree(d: Inst, c: Region, ports: set<string>, v1: Val, v2: Val)
    decreases d
  {
    && |v1.kids| == |v2.kids| == |c.kids| == |d.kids| == |d.body.decls|
    && (forall w :: Undriven(d.body, ports, w) && !c.has(Wire(w)) ==> v1.nets(Wire(w)) == v2.nets(Wire(w)))
    && forall i :: 0 <= i < |d.kids| ==>
         FreeAgree(d.kids[i], c.kids[i], d.body.decls[i].ins.Keys, v1.kids[i], v2.kids[i])
  }

  ghost predicate Undriven(b: Body, ports: set<string>, w: string) {
    Wire(w) !in b.defs && w !in ports && forall i :: 0 <= i < |b.decls| ==> w !in b.decls[i].outs
  }

  /** Wires outside the region ranked below k agree, at every level. */
  ghost predicate AgreeBelow(d: Inst, r: Rank, c: Region, k: nat, v1: Val, v2: Val)
    decreases d
  {
    && |v1.kids| == |v2.kids| == |r.kids| == |c.kids| == |d.kids|
    && (forall w :: r.of(Wire(w)) < k && !c.has(Wire(w)) ==> v1.nets(Wire(w)) == v2.nets(Wire(w)))
    && forall i :: 0 <= i < |d.kids| ==> AgreeBelow(d.kids[i], r.kids[i], c.kids[i], k, v1.kids[i], v2.kids[i])
  }

  /** One wire of rank k. */
  lemma WireStep(ops: Ops, d: Inst, r: Rank, c: Region, k: nat, ports: set<string>, v1: Val, v2: Val, w: string)
    requires Acyclic(d, r) && FanoutClosed(d, c) && Plain(d)
    requires Outside(ops, d, c, v1) && Outside(ops, d, c, v2) && FreeAgree(d, c, ports, v1, v2)
    requires AgreeBelow(d, r, c, k, v1, v2)
    requires w in ports ==> v1.nets(Wire(w)) == v2.nets(Wire(w))
    requires r.of(Wire(w)) == k && !c.has(Wire(w))
    ensures v1.nets(Wire(w)) == v2.nets(Wire(w))
  {
    var n := Wire(w);
    if n in d.body.defs {
      var e := d.body.defs[n];
      forall m | m in Reads(e.rhs) ensures v1.nets(m) == v2.nets(m) {
        assert m == Wire(m.name) && r.of(m) < k && !c.has(m);
      }
      ValueAgree(ops, e, v1.nets, v2.nets);
    } else if i :| 0 <= i < |d.body.decls| && w in d.body.decls[i].outs {
      var decl := d.body.decls[i];
      var m := Wire(decl.outs[w]);
      assert PortsRanked(decl, r.of, r.kids[i].of) && PortsClosed(decl, c.has, c.kids[i].has);
      assert PortsAgree(ops, decl, v1.nets, v1.kids[i].nets) && PortsAgree(ops, decl, v2.nets, v2.kids[i].nets);
      assert r.kids[i].of(m) < k && !c.kids[i].has(m);
      assert AgreeBelow(d.kids[i], r.kids[i], c.kids[i], k, v1.kids[i], v2.kids[i]);
    } else {
      assert w !in ports ==> Undriven(d.body, ports, w);
    }
  }

  lemma PortStep(ops: Ops, decl: Decl, r: Rank, c: Region, i: nat, k: nat, v1: Val, v2: Val, p: string)
    requires i < |r.kids| == |c.kids| == |v1.kids| == |v2.kids| && p in decl.ins
    requires PortsRanked(decl, r.of, r.kids[i].of) && PortsClosed(decl, c.has, c.kids[i].has)
    requires PortsAgree(ops, decl, v1.nets, v1.kids[i].nets) && PortsAgree(ops, decl, v2.nets, v2.kids[i].nets)
    requires forall m :: m in Reads(decl.ins[p].rhs) ==> m.Wire?
    requires forall w :: r.of(Wire(w)) < k && !c.has(Wire(w)) ==> v1.nets(Wire(w)) == v2.nets(Wire(w))
    requires r.kids[i].of(Wire(p)) <= k && !c.kids[i].has(Wire(p))
    ensures v1.kids[i].nets(Wire(p)) == v2.kids[i].nets(Wire(p))
  {
    forall m | m in Reads(decl.ins[p].rhs) ensures v1.nets(m) == v2.nets(m) {
      assert m == Wire(m.name);
    }
    ValueAgree(ops, decl.ins[p], v1.nets, v2.nets);
  }

  /** All wires of rank k, at every level. */
  lemma {:induction false} RankStep(ops: Ops, d: Inst, r: Rank, c: Region, k: nat, ports: set<string>, v1: Val, v2: Val)
    requires Acyclic(d, r) && FanoutClosed(d, c) && Plain(d)
    requires Outside(ops, d, c, v1) && Outside(ops, d, c, v2) && FreeAgree(d, c, ports, v1, v2)
    requires AgreeBelow(d, r, c, k, v1, v2)
    requires forall w :: w in ports && r.of(Wire(w)) <= k && !c.has(Wire(w)) ==> v1.nets(Wire(w)) == v2.nets(Wire(w))
    ensures AgreeBelow(d, r, c, k + 1, v1, v2)
    decreases d
  {
    forall w | r.of(Wire(w)) < k + 1 && !c.has(Wire(w)) ensures v1.nets(Wire(w)) == v2.nets(Wire(w)) {
      if r.of(Wire(w)) == k {
        WireStep(ops, d, r, c, k, ports, v1, v2, w);
      }
    }
    forall i | 0 <= i < |d.kids| ensures AgreeBelow(d.kids[i], r.kids[i], c.kids[i], k + 1, v1.kids[i], v2.kids[i]) {
      var decl := d.body.decls[i];
      forall p | p in decl.ins.Keys && r.kids[i].of(Wire(p)) <= k && !c.kids[i].has(Wire(p))
        ensures v1.kids[i].nets(Wire(p)) == v2.kids[i].nets(Wire(p))
      {
        PortStep(ops, decl, r, c, i, k, v1, v2, p);
      }
      RankStep(ops, d.kids[i], r.kids[i], c.kids[i], k, decl.ins.Keys, v1.kids[i], v2.kids[i]);
    }
  }

  lemma {:induction false} AgreeAtZero(d: Inst, r: Rank, c: Region, ports: set<string>, v1: Val, v2: Val)
    requires Acyclic(d, r) && FreeAgree(d, c, ports, v1, v2)
    ensures AgreeBelow(d, r, c, 0, v1, v2)
    decreases d
  {
    forall i | 0 <= i < |d.kids| ensures AgreeBelow(d.kids[i], r.kids[i], c.kids[i], 0, v1.kids[i], v2.kids[i]) {
      AgreeAtZero(d.kids[i], r.kids[i], c.kids[i], d.body.decls[i].ins.Keys, v1.kids[i], v2.kids[i]);
    }
  }

  lemma {:induction false} AgreeUpTo(d: Inst, r: Rank, c: Region, k: nat, v1: Val, v2: Val)
    requires AgreeBelow(d, r, c, 0, v1, v2)
    requires forall j: nat :: AgreeBelow(d, r, c, j, v1, v2) ==> AgreeBelow(d, r, c, j + 1, v1, v2)
    ensures AgreeBelow(d, r, c, k, v1, v2)
    decreases k
  {
    if k > 0 {
      var j: nat := k - 1;
      AgreeUpTo(d, r, c, j, v1, v2);
      assert AgreeBelow(d, r, c, j + 1, v1, v2);
    }
  }

  /** All wires outside the region agree, at every level. */
  ghost predicate AgreeOutside(d: Inst, c: Region, v1: Val, v2: Val)
    decreases d
  {
    && |v1.kids| == |v2.kids| == |c.kids| == |d.kids|
    && (forall w :: !c.has(Wire(w)) ==> v1.nets(Wire(w)) == v2.nets(Wire(w)))
    && forall i :: 0 <= i < |d.kids| ==> AgreeOutside(d.kids[i], c.kids[i], v1.kids[i], v2.kids[i])
  }

  lemma {:induction false} AgreeAtAllRanks(d: Inst, r: Rank, c: Region, v1: Val, v2: Val)
    requires forall k: nat :: AgreeBelow(d, r, c, k, v1, v2)
    ensures AgreeOutside(d, c, v1, v2)
    decreases d
  {
    assert AgreeBelow(d, r, c, 0, v1, v2);
    forall w | !c.has(Wire(w)) ensures v1.nets(Wire(w)) == v2.nets(Wire(w)) {
      assert AgreeBelow(d, r, c, r.of(Wire(w)) + 1, v1, v2);
    }
    forall i | 0 <= i < |d.kids| ensures AgreeOutside(d.kids[i], c.kids[i], v1.kids[i], v2.kids[i]) {
      forall k: nat ensures AgreeBelow(d.kids[i], r.kids[i], c.kids[i], k, v1.kids[i], v2.kids[i]) {
        assert AgreeBelow(d, r, c, k, v1, v2);
      }
      AgreeAtAllRanks(d.kids[i], r.kids[i], c.kids[i], v1.kids[i], v2.kids[i]);
    }
  }

  /** An acyclic netlist leaves no choice: valuations that satisfy its equations outside a
      fan-out closed region and agree on undriven nets agree outside the region. */
  lemma OutsideDetermined(ops: Ops, d: Inst, r: Rank, c: Region, v1: Val, v2: Val)
    requires Acyclic(d, r) && FanoutClosed(d, c) && Plain(d)
    requires Outside(ops, d, c, v1) && Outside(ops, d, c, v2) && FreeAgree(d, c, {}, v1, v2)
    ensures AgreeOutside(d, c, v1, v2)
  {
    AgreeAtZero(d, r, c, {}, v1, v2);
    forall j: nat | AgreeBelow(d, r, c, j, v1, v2) ensures AgreeBelow(d, r, c, j + 1, v1, v2) {
      RankStep(ops, d, r, c, j, {}, v1, v2);
    }
    forall k: nat ensures AgreeBelow(d, r, c, k, v1, v2) {
      AgreeUpTo(d, r, c, k, v1, v2);
    }
    AgreeAtAllRanks(d, r, c, v1, v2);
  }

  // ---------- consequences for injection ----------

  lemma {:induction false} ConsistentOutside(ops: Ops, d: Inst, c: Region, v: Val)
    requires Consistent(ops, d, v) && FanoutClosed(d, c)
    ensures Outside(ops, d, c, v)
    decreases d
  {
    forall i | 0 <= i < |d.kids| ensures Outside(ops, d.kids[i], c.kids[i], v.kids[i]) {
      ConsistentOutside(ops, d.kids[i], c.kids[i], v.kids[i]);
    }
  }

  lemma {:induction false} InjectedOutside(ops: Ops, d: Inst, root: bool, c: Region, v: Val)
    requires Ready(d) && Consistent(ops, InjectTree(d, root), v) && HoldsCuts(d, c)
    ensures Outside(ops, d, c, v)
    decreases d
  {
    var r := InjectTree(d, root);
    InjectTreeShape(d, root);
    forall n | n in d.body.defs && !c.has(n) ensures v.nets(n) == Value(ops, d.body.defs[n], v.nets) {
      assert n == Wire(n.name);
      assert !Marked(d.paths, n.name);
      assert r.body.defs[n] == d.body.defs[n];
    }
    forall i | 0 <= i < |d.kids|
      ensures PortsAgree(ops, d.body.decls[i], v.nets, v.kids[i].nets) && Outside(ops, d.kids[i], c.kids[i], v.kids[i])
    {
      ReadyKid(d, i);
      assert PortsAgree(ops, r.body.decls[i], v.nets, v.kids[i].nets);
      InjectedOutside(ops, d.kids[i], false, c.kids[i], v.kids[i]);
    }
  }

  /** Whatever drives the fault inputs, wires outside the fan-out of the cut wires keep their
      values; this needs no condition on the routing. */
  lemma ConeIndependence(ops: Ops, d: Inst, root: bool, r: Rank, c: Region, v: Val, v': Val)
    requires Ready(d) && Acyclic(d, r) && FanoutClosed(d, c) && HoldsCuts(d, c)
    requires Consistent(ops, d, v) && Consistent(ops, InjectTree(d, root), v') && FreeAgree(d, c, {}, v, v')
    ensures AgreeOutside(d, c, v, v')
  {
    ConsistentOutside(ops, d, c, v);
    InjectedOutside(ops, d, root, c, v');
    OutsideDetermined(ops, d, r, c, v, v');
  }

  function Nowhere(d: Inst): (c: Region)
    ensures |c.kids| == |d.kids| && forall n :: !c.has(n)
  {
    Region(_ => false, seq(|d.kids|, i requires 0 <= i < |d.kids| => Nowhere(d.kids[i])))
  }

  lemma {:induction false} NowhereClosed(d: Inst, r: Rank)
    requires Acyclic(d, r)
    ensures FanoutClosed(d, Nowhere(d))
    decreases d
  {
    forall i | 0 <= i < |d.kids| ensures FanoutClosed(d.kids[i], Nowhere(d).kids[i]) {
      NowhereClosed(d.kids[i], r.kids[i]);
    }
  }

  /** With the loop closed, every original wire at every level keeps its value. */
  lemma ClosedLoopKeepsValues(ops: Ops, d: Inst, root: bool, r: Rank, v: Val, v': Val)
    requires Ready(d) && Acyclic(d, r)
    requires Consistent(ops, d, v) && Consistent(ops, InjectTree(d, root), v') && Closed(d, v')
    requires FreeAgree(d, Nowhere(d), {}, v, v')
    ensures AgreeOutside(d, Nowhere(d), v, v')
  {
    ClosedIsOriginal(ops, d, root, v');
    NowhereClosed(d, r);
    ConsistentOutside(ops, d, Nowhere(d), v);
    ConsistentOutside(ops, d, Nowhere(d), v');
    OutsideDetermined(ops, d, r, Nowhere(d), v, v');
  }

  // ---------- over time ----------

  /** Every register holds what its next-state wire carried in the cycle before. */
  ghost predicate Clocked(d: Inst, v: Val, next: Val)
    decreases d
  {
    && |v.kids| == |next.kids| == |d.kids|
    && (forall q :: q in d.body.regs ==> next.nets(Wire(q)) == v.nets(Wire(d.body.regs[q])))
    && forall i :: 0 <= i < |d.kids| ==> Clocked(d.kids[i], v.kids[i], next.kids[i])
  }

  /** A run: each cycle is consistent and the registers take their next values. */
  ghost predicate IsRun(ops: Ops, d: Inst, vs: seq<Val>) {
    && (forall t :: 0 <= t < |vs| ==> Consistent(ops, d, vs[t]))
    && forall t :: 0 <= t < |vs| - 1 ==> Clocked(d, vs[t], vs[t + 1])
  }

  /** Registers outside a region agree. */
  ghost predicate RegsAgree(d: Inst, c: Region, v1: Val, v2: Val)
    decreases d
  {
    && |v1.kids| == |v2.kids| == |c.kids| == |d.kids|
    && (forall q :: q in d.body.regs && !c.has(Wire(q)) ==> v1.nets(Wire(q)) == v2.nets(Wire(q)))
    && forall i :: 0 <= i < |d.kids| ==> RegsAgree(d.kids[i], c.kids[i], v1.kids[i], v2.kids[i])
  }

  /** Undriven nets outside a region, other than registers, agree. */
  ghost predicate InputsAgree(d: Inst, c: Region, ports: set<string>, v1: Val, v2: Val)
    decreases d
  {
    && |v1.kids| == |v2.kids| == |c.kids| == |d.kids| == |d.body.decls|
    && (forall w :: Undriven(d.body, ports, w) && w !in d.body.regs && !c.has(Wire(w)) ==>
          v1.nets(Wire(w)) == v2.nets(Wire(w)))
    && forall i :: 0 <= i < |d.kids| ==>
         InputsAgree(d.kids[i], c.kids[i], d.body.decls[i].ins.Keys, v1.kids[i], v2.kids[i])
  }

  /** A register whose next value comes from inside the region lies in it. */
  ghost predicate ClockClosed(d: Inst, c: Region)
    decreases d
  {
    && |c.kids| == |d.kids|
    && (forall q :: q in d.body.regs && c.has(Wire(d.body.regs[q])) ==> c.has(Wire(q)))
    && forall i :: 0 <= i < |d.kids| ==> ClockClosed(d.kids[i], c.kids[i])
  }

  lemma {:induction false} FreeNets(d: Inst, c: Region, ports: set<string>, v1: Val, v2: Val)
    requires RegsAgree(d, c, v1, v2) && InputsAgree(d, c, ports, v1, v2)
    ensures FreeAgree(d, c, ports, v1, v2)
    decreases d
  {
    forall i | 0 <= i < |d.kids|
      ensures FreeAgree(d.kids[i], c.kids[i], d.body.decls[i].ins.Keys, v1.kids[i], v2.kids[i])
    {
      FreeNets(d.kids[i], c.kids[i], d.body.decls[i].ins.Keys, v1.kids[i], v2.kids[i]);
    }
  }

  lemma {:induction false} RegsFollow(d: Inst, root: bool, c: Region, v1: Val, v2: Val, n1: Val, n2: Val)
    requires Ready(d) && ClockClosed(d, c) && AgreeOutside(d, c, v1, v2)
    requires Clocked(d, v1, n1) && Clocked(InjectTree(d, root), v2, n2)
    ensures RegsAgree(d, c, n1, n2)
    decreases d
  {
    InjectTreeShape(d, root);
    forall i | 0 <= i < |d.kids| ensures RegsAgree(d.kids[i], c.kids[i], n1.kids[i], n2.kids[i]) {
      ReadyKid(d, i);
      RegsFollow(d.kids[i], false, c.kids[i], v1.kids[i], v2.kids[i], n1.kids[i], n2.kids[i]);
    }
  }

  lemma StepFollows(ops: Ops, d: Inst, root: bool, c: Region, vs: seq<Val>, ws: seq<Val>, t: nat)
    requires Ready(d) && ClockClosed(d, c) && |vs| == |ws| && t + 1 < |vs|
    requires IsRun(ops, d, vs) && IsRun(ops, InjectTree(d, root), ws) && AgreeOutside(d, c, vs[t], ws[t])
    ensures RegsAgree(d, c, vs[t + 1], ws[t + 1])
  {
    assert Clocked(d, vs[t], vs[t + 1]) && Clocked(InjectTree(d, root), ws[t], ws[t + 1]);
    RegsFollow(d, root, c, vs[t], ws[t], vs[t + 1], ws[t + 1]);
  }

  lemma {:induction false} NowhereClockClosed(d: Inst)
    ensures ClockClosed(d, Nowhere(d))
    decreases d
  {
    forall i | 0 <= i < |d.kids| ensures ClockClosed(d.kids[i], Nowhere(d).kids[i]) {
      NowhereClockClosed(d.kids[i]);
    }
  }

  /** Whole runs: whatever drives the fault inputs in each cycle, wires outside the fan-out of the cut
      wires, through registers too, show the same values for ever. */
  lemma {:induction false} ConeRuns(ops: Ops, d: Inst, root: bool, r: Rank, c: Region, vs: seq<Val>, ws: seq<Val>,
                                    t: nat)
    requires Ready(d) && Acyclic(d, r) && FanoutClosed(d, c) && ClockClosed(d, c) && HoldsCuts(d, c)
    requires |vs| == |ws| && t < |vs| && IsRun(ops, d, vs) && IsRun(ops, InjectTree(d, root), ws)
    requires forall s :: 0 <= s < |ws| ==> InputsAgree(d, c, {}, vs[s], ws[s])
    requires RegsAgree(d, c, vs[0], ws[0])
    ensures AgreeOutside(d, c, vs[t], ws[t])
    decreases t
  {
    if t > 0 {
      ConeRuns(ops, d, root, r, c, vs, ws, t - 1);
      StepFollows(ops, d, root, c, vs, ws, t - 1);
    }
    FreeNets(d, c, {}, vs[t], ws[t]);
    ConeIndependence(ops, d, root, r, c, vs[t], ws[t]);
  }

  /** From equal registers and under equal inputs, the injected netlist with its loop closed in every
      cycle shows, on every original wire, the same values for ever. */
  lemma {:induction false} ClosedLoopRuns(ops: Ops, d: Inst, root: bool, r: Rank, vs: seq<Val>, ws: seq<Val>, t: nat)
    requires Ready(d) && Acyclic(d, r) && |vs| == |ws| && t < |vs|
    requires IsRun(ops, d, vs) && IsRun(ops, InjectTree(d, root), ws)
    requires forall s :: 0 <= s < |ws| ==> Closed(d, ws[s]) && InputsAgree(d, Nowhere(d), {}, vs[s], ws[s])
    requires RegsAgree(d, Nowhere(d), vs[0], ws[0])
    ensures AgreeOutside(d, Nowhere(d), vs[t], ws[t])
    decreases t
  {
    if t > 0 {
      ClosedLoopRuns(ops, d, root, r, vs, ws, t - 1);
      NowhereClockClosed(d);
      StepFollows(ops, d, root, Nowhere(d), vs, ws, t - 1);
    }
    FreeNets(d, Nowhere(d), {}, vs[t], ws[t]);
    ClosedLoopKeepsValues(ops, d, root, r, vs[t], ws[t]);
  }
}
