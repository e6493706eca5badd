/** What the driver does to a netlist, and two trees for which injection does less than it seems
    to promise. */
module StuckAt {
  import opened Arith
  import opened Netlist
  import opened Injection
  import opened InjectionMeaning
  import opened FaultRouting
  import opened FaultDriver
  import opened FaultCone
  import opened Valuations

  // ---------- the driver ----------

  /** Whatever values its lines assign, the driver makes the injected netlist compute the original
      equations with the marked wires held at the routed values. */
  lemma DriverForces(ops: Ops, d: Inst, v: Val, m: DriverModule)
    requires Ready(d) && Consistent(ops, InjectTree(d, true), v) && LinesFor(m, d.paths) && Assigned(m, v.nets)
    ensures SameShape(d, v) && Consistent(ops, Force(d, Values(m)), v)
  {
    FedByLines(d, v, m);
    InjectedIsForced(ops, d, true, v, Values(m));
    InjectedShape(ops, d, true, v);
  }

  lemma FedByLines(d: Inst, v: Val, m: DriverModule)
    requires LinesFor(m, d.paths) && Assigned(m, v.nets)
    ensures Fed(d, v, Values(m))
  {
    forall i | 0 <= i < |m.lines| ensures v.nets(FaultIn(i)) % 2 == Values(m)[i] % 2 {
      assert m.lines[i].bit == i;
    }
  }

  /** Each marked wire carries the value of the line of its root bit. */
  lemma LineDrives(ops: Ops, d: Inst, v: Val, m: DriverModule, s: Site)
    requires Ready(d) && Consistent(ops, InjectTree(d, true), v) && SameShape(d, v) && SiteOk(d, s)
    requires LinesFor(m, d.paths) && Assigned(m, v.nets)
    ensures RootBit(d, s) < |m.lines|
    ensures NetsAt(d, v, s)(Wire(WireAt(d, s))) == m.lines[RootBit(d, s)].value % 2
  {
    RootBitInRange(d, s);
    LineValue(d, v, m, RootBit(d, s));
    RoutesCarry(ops, d, true, v, s);
  }

  lemma LineValue(d: Inst, v: Val, m: DriverModule, i: nat)
    requires LinesFor(m, d.paths) && Assigned(m, v.nets) && i < |d.paths|
    ensures v.nets(FaultIn(i)) % 2 == m.lines[i].value % 2
  {
    assert m.lines[i].bit == i;
  }

  /** In a balanced tree that is the line labelled with the wire itself. */
  lemma LabelDrives(ops: Ops, d: Inst, v: Val, m: DriverModule, i: nat)
    requires Ready(d) && Consistent(ops, InjectTree(d, true), v) && SameShape(d, v) && Balanced(d, false)
    requires LinesFor(m, d.paths) && Assigned(m, v.nets) && i < |d.paths|
    ensures SiteOk(d, Named(d, i)) && WireAt(d, Named(d, i)) == m.lines[i].fault.wire
    ensures NetsAt(d, v, Named(d, i))(Wire(m.lines[i].fault.wire)) == m.lines[i].value % 2
  {
    NamedOk(d, i);
    NamedWire(d, i);
    LabelsHoldIffBalanced(d);
    LineDrives(ops, d, v, m, Named(d, i));
  }

  /** The driver as generated, which assigns 0 to every bit: each marked wire is stuck at zero. */
  lemma DriverSticksAtZero(ops: Ops, d: Inst, v: Val, m: DriverModule)
    requires Ready(d) && Consistent(ops, InjectTree(d, true), v) && Assigned(m, v.nets)
    requires |m.lines| == |d.paths| && forall i :: 0 <= i < |d.paths| ==> m.lines[i] == Line(i, 0, d.paths[i])
    ensures SameShape(d, v)
    ensures forall s :: SiteOk(d, s) ==> NetsAt(d, v, s)(Wire(WireAt(d, s))) == 0
  {
    InjectedShape(ops, d, true, v);
    forall s | SiteOk(d, s) ensures NetsAt(d, v, s)(Wire(WireAt(d, s))) == 0 {
      LineDrives(ops, d, v, m, s);
    }
  }

  function Bits(m: DriverModule): (bits: seq<nat>)
    ensures |bits| == |m.lines|
  {
    seq(|m.lines|, i requires 0 <= i < |m.lines| => m.lines[i].value % 2)
  }

  /** Under the routing condition there is such a valuation, for every driver and every choice of the
      undriven nets. */
  lemma DriverHasValuation(ops: Ops, d: Inst, r: Rank, m: DriverModule, b: Val) returns (v: Val)
    requires Ready(d) && RoutingOk(d) && Acyclic(d, r) && WellDriven(d, {}) && SameShape(d, b)
    requires LinesFor(m, d.paths)
    ensures Consistent(ops, InjectTree(d, true), v) && Assigned(m, v.nets) && FreeAgree(d, Nowhere(d), {}, b, v)
  {
    v := InjectedHasValuation(ops, d, true, r, Bits(m), b);
    forall i | 0 <= i < |m.lines| ensures v.nets(FaultIn(m.lines[i].bit)) == m.lines[i].value % 2 {
      assert Bits(m)[i] == m.lines[i].value % 2;
    }
  }

  predicate DrivenBy(d: Inst, k: nat, x: nat)
    requires k < |d.paths|
  {
    var n := Wire(d.paths[k].wire);
    n in d.body.defs && d.body.defs[n].rhs == Lit(x)
  }

  /** The first fault of d and the only one of its child c both lie in the instance itself, on wires
      driven by the constants x and y. */
  predicate SharesBit(d: Inst, c: nat, x: nat, y: nat) {
    && |d.paths| > 0 && Local(d.paths[0]) && DrivenBy(d, 0, x)
    && c < |d.kids| && |d.kids[c].paths| == 1 && Local(d.kids[c].paths[0]) && DrivenBy(d.kids[c], 0, y)
  }

  // ---------- a parent with two faults and a child with one ----------

  const LEAF_BODY: Body := Body(Base("Leaf"), 0, map[Wire("b") := Def(1, Lit(0))], map[], [])
  const LEAF_INST: Inst := Inst("leaf", Base("Leaf"), LEAF_BODY, [FaultPath(["leaf"], "b")], [])
  const TOP_BODY: Body :=
    Body(Base("Top"), 0, map[Wire("a") := Def(1, Lit(1))], map[],
         [Decl("leaf", Base("Leaf"), map[], map[], NoFaultPort)])
  const TOP_INST: Inst :=
    Inst("Root", Base("Top"), TOP_BODY, [FaultPath(["Root"], "a"), FaultPath(["Root", "leaf"], "b")], [LEAF_INST])

  lemma TopPaths()
    ensures Indices(TOP_INST.paths, "leaf") == [1] && Through(TOP_INST.paths, "leaf") == LEAF_INST.paths
    ensures Indices(LEAF_INST.paths, "leaf") == []
  {
    var p := TOP_INST.paths;
    assert p[..1] == [FaultPath(["Root"], "a")] && p[..1][..0] == [];
    assert Indices([], "leaf") == [];
    assert Indices(p[..1], "leaf") == [];
    assert LEAF_INST.paths[..0] == [];
  }

  lemma LeafReady()
    ensures Ready(LEAF_INST)
  {
    assert LocalsExist(LEAF_BODY.defs, LEAF_INST.paths);
    assert Leads(LEAF_INST.paths, []);
  }

  lemma TopDistributed()
    ensures Distributed(TOP_INST) && DistinctSiblings(TOP_INST)
  {
    TopPaths();
    LeafReady();
    assert GoesThrough(TOP_INST.paths[1], TOP_INST.kids[0].name);
    assert ToChild(TOP_INST.paths[1], TOP_INST.kids);
  }

  lemma TopReady()
    ensures Ready(TOP_INST) && !RoutingOk(TOP_INST)
  {
    LeafReady();
    TopDistributed();
    assert TOP_INST.kids[0] == LEAF_INST;
    assert Injectable(TOP_INST);
    assert Plain(TOP_INST);
    assert Cuttable(TOP_INST);
  }

  const LEAF_VAL: Val := Val(_ => 0, [])
  const TOP_VAL: Val := Val(n => if n == Wire("a") then 1 else 0, [LEAF_VAL])

  lemma TopHasValuation(ops: Ops)
    ensures Consistent(ops, TOP_INST, TOP_VAL)
  {
    assert Pow2(1) == 2;
    assert Consistent(ops, LEAF_INST, LEAF_VAL);
  }

  lemma Conflict(ops: Ops, d: Inst, v: Val, c: nat, x: nat, y: nat)
    requires Ready(d) && SharesBit(d, c, x, y) && x % 2 != y % 2
    ensures !Consistent(ops, InjectTree(d, true), v)
  {
    if Consistent(ops, InjectTree(d, true), v) {
      SharedBit(ops, d, v, c, x, y);
    }
  }

  lemma TopShares()
    ensures SharesBit(TOP_INST, 0, 1, 0)
  {
    assert TOP_INST.kids[0] == LEAF_INST;
  }

  lemma InjectedTopHasNone(ops: Ops, v: Val)
    requires Ready(TOP_INST)
    ensures !Consistent(ops, InjectTree(TOP_INST, true), v)
  {
    TopShares();
    Conflict(ops, TOP_INST, v, 0, 1, 0);
  }

  /** The routing condition is needed: here the original netlist has a valuation and the
      injected one has none, whatever drives its fault inputs, because the child's vector
      and the parent's own fault both drive bit 0. */
  lemma ConflictingDrivers(ops: Ops)
    ensures Ready(TOP_INST) && !RoutingOk(TOP_INST)
    ensures exists v :: Consistent(ops, TOP_INST, v)
    ensures forall v :: !Consistent(ops, InjectTree(TOP_INST, true), v)
  {
    TopReady();
    TopHasValuation(ops);
    forall v ensures !Consistent(ops, InjectTree(TOP_INST, true), v) {
      InjectedTopHasNone(ops, v);
    }
  }

  /** An own fault at position 0 and a child with a single fault both show on bit 0, so wires driven
      with constants must have been driven with the same one. */
  lemma SharedBit(ops: Ops, d: Inst, v: Val, c: nat, x: nat, y: nat)
    requires Ready(d) && Consistent(ops, InjectTree(d, true), v) && SharesBit(d, c, x, y)
    ensures x % 2 == y % 2
  {
    ConstantShows(ops, d, true, v, 0, x);
    KidShows(ops, d, v, c, y);
  }

  lemma KidShows(ops: Ops, d: Inst, v: Val, c: nat, y: nat)
    requires Ready(d) && Consistent(ops, InjectTree(d, true), v)
    requires c < |d.kids| && |d.kids[c].paths| == 1 && Local(d.kids[c].paths[0]) && DrivenBy(d.kids[c], 0, y)
    ensures v.nets(FaultOut(0)) == y % 2
  {
    ReadyKid(d, c);
    assert |Indices(d.paths, d.kids[c].name)| == |Through(d.paths, d.kids[c].name)| == 1;
    LevelCarries(ops, d, true, v, c, 0);
    ConstantShows(ops, d.kids[c], false, v.kids[c], 0, y);
  }

  /** A cut wire that was driven with a constant shows it on its output bit. */
  lemma ConstantShows(ops: Ops, d: Inst, root: bool, v: Val, k: nat, c: nat)
    requires Ready(d) && Consistent(ops, InjectTree(d, root), v) && k < |d.paths| && Local(d.paths[k])
    requires DrivenBy(d, k, c)
    ensures v.nets(FaultOut(k)) == c % 2
  {
    InjectTreeShape(d, root);
    ConstantCarries(ops, d, InjectTree(d, root).body.defs, v, k, c);
  }

  lemma ConstantCarries(ops: Ops, d: Inst, r: map<Net, Def>, v: Val, k: nat, c: nat)
    requires CutsMade(d.body.defs, d.paths, r) && Defines(ops, r, v.nets) && k < |d.paths| && Local(d.paths[k])
    requires DrivenBy(d, k, c)
    ensures v.nets(FaultOut(k)) == c % 2
  {
    var n := Original(d.paths[k].wire);
    OneBit(ops, r[n], v.nets);
    OneBit(ops, r[FaultOut(k)], v.nets);
    assert v.nets(n) == Value(ops, r[n], v.nets);
    assert v.nets(FaultOut(k)) == Value(ops, r[FaultOut(k)], v.nets);
  }

  // ---------- a child with two faults ----------

  const PAIR_BODY: Body :=
    Body(Base("Pair"), 0, map[Wire("x") := Def(1, Lit(0)), Wire("y") := Def(1, Lit(1))], map[], [])
  const PAIR_INST: Inst :=
    Inst("pair", Base("Pair"), PAIR_BODY, [FaultPath(["pair"], "x"), FaultPath(["pair"], "y")], [])
  const OVER_BODY: Body :=
    Body(Base("Over"), 0, map[], map[], [Decl("pair", Base("Pair"), map[], map[], NoFaultPort)])
  const OVER_INST: Inst :=
    Inst("Root", Base("Over"), OVER_BODY,
         [FaultPath(["Root", "pair"], "x"), FaultPath(["Root", "pair"], "y")], [PAIR_INST])

  lemma PairPaths()
    ensures Indices(OVER_INST.paths, "pair") == [0, 1] && Through(OVER_INST.paths, "pair") == PAIR_INST.paths
  {
    var p := OVER_INST.paths;
    assert p[..1] == [p[0]] && p[..1][..0] == [];
    assert Indices([], "pair") == [];
    assert Indices(p[..1], "pair") == [0];
  }

  lemma PairReady()
    ensures Ready(PAIR_INST)
  {
    assert LocalsExist(PAIR_BODY.defs, PAIR_INST.paths);
    assert Leads(PAIR_INST.paths, []);
  }

  lemma OverDistributed()
    ensures Distributed(OVER_INST) && DistinctSiblings(OVER_INST) && RoutingOk(OVER_INST)
  {
    PairPaths();
    PairReady();
    var p := OVER_INST.paths;
    assert GoesThrough(p[0], OVER_INST.kids[0].name) && GoesThrough(p[1], OVER_INST.kids[0].name);
    assert ToChild(p[0], OVER_INST.kids) && ToChild(p[1], OVER_INST.kids);
  }

  lemma OverReady()
    ensures Ready(OVER_INST) && RoutingOk(OVER_INST)
  {
    PairReady();
    OverDistributed();
    assert OVER_INST.kids[0] == PAIR_INST;
    assert Injectable(OVER_INST);
    assert Plain(OVER_INST);
    assert Cuttable(OVER_INST);
  }

  lemma OverSites()
    ensures Named(OVER_INST, 0) == Below(0, Here(0)) && Named(OVER_INST, 1) == Below(0, Here(1))
    ensures RootBit(OVER_INST, Below(0, Here(0))) == 1 && RootBit(OVER_INST, Below(0, Here(1))) == 0
  {
    PairPaths();
    OverDistributed();
    assert OVER_INST.kids[0] == PAIR_INST;
    NamedThrough(OVER_INST, 0, 0, 0);
    NamedThrough(OVER_INST, 0, 1, 1);
  }

  /** The driver's lines are labelled in marking order, but in every valuation line 0 drives the
      second marked wire and line 1 the first. */
  lemma LabelsReversed(ops: Ops, v: Val)
    requires Consistent(ops, InjectTree(OVER_INST, true), v)
    ensures Ready(OVER_INST) && RoutingOk(OVER_INST) && !Balanced(OVER_INST, false)
    ensures |v.kids| == 1
    ensures v.kids[0].nets(Wire("y")) == v.nets(FaultIn(0)) % 2
    ensures v.kids[0].nets(Wire("x")) == v.nets(FaultIn(1)) % 2
  {
    OverReady();
    OverSites();
    assert RootBit(OVER_INST, Named(OVER_INST, 0)) != Flipped(2, false, 0);
    LabelsHoldIffBalanced(OVER_INST);
    PairShows(ops, v);
  }

  lemma PairShows(ops: Ops, v: Val)
    requires Ready(OVER_INST) && Consistent(ops, InjectTree(OVER_INST, true), v)
    ensures |v.kids| == 1
    ensures v.kids[0].nets(Wire("y")) == v.nets(FaultIn(0)) % 2
    ensures v.kids[0].nets(Wire("x")) == v.nets(FaultIn(1)) % 2
  {
    assert OVER_INST.kids[0] == PAIR_INST;
    OverSites();
    InjectedShape(ops, OVER_INST, true, v);
    RoutesCarry(ops, OVER_INST, true, v, Below(0, Here(0)));
    RoutesCarry(ops, OVER_INST, true, v, Below(0, Here(1)));
  }
}
