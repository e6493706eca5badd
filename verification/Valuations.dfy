/** An acyclic netlist has a valuation for every choice of its undriven nets: evaluating every
    driver at once, again and again, settles each net once its rank is reached. */
module Valuations {
  import opened Netlist
  import opened Injection
  import opened InjectionMeaning
  import opened ClosedLoop
  import opened FaultCone

  // ---------- one driver per net ----------

  /** No wire has two drivers; `ports` are driven by the enclosing module. */
  ghost predicate WellDriven(d: Inst, ports: set<string>)
    decreases d
  {
    && |d.kids| == |d.body.decls|
    && (forall p :: p in ports ==> Wire(p) !in d.body.defs)
    && (forall i :: 0 <= i < |d.kids| ==> OutsApart(d.body, ports, i))
    && forall i :: 0 <= i < |d.kids| ==> WellDriven(d.kids[i], d.body.decls[i].ins.Keys)
  }

  ghost predicate OutsApart(b: Body, ports: set<string>, i: nat)
    requires i < |b.decls|
  {
    forall w :: w in b.decls[i].outs ==>
      Wire(w) !in b.defs && w !in ports && forall j :: 0 <= j < |b.decls| && w in b.decls[j].outs ==> j == i
  }

  // ---------- evaluating everything at once ----------

  /** The declaration whose instance drives a wire, or the number of declarations. */
  function OutOf(decls: seq<Decl>, w: string): (i: nat)
    ensures i <= |decls| && (i < |decls| ==> w in decls[i].outs)
    ensures i == |decls| ==> forall j :: 0 <= j < |decls| ==> w !in decls[j].outs
  {
    if decls == [] then 0
    else
      var n := |decls| - 1;
      var i := OutOf(decls[..n], w);
      if i < n then i else if w in decls[n].outs then n else n + 1
  }

  function KidOf(v: Val, i: nat): Val {
    if i < |v.kids| then v.kids[i] else Val(_ => 0, [])
  }

  function InsOf(b: Body, i: nat): map<string, Def> {
    if i < |b.decls| then b.decls[i].ins else map[]
  }

  /** The value that the drivers of a net give it, when the nets carry v and the nets of the
      enclosing module carry `up`; an undriven net keeps its value in b. */
  function NextNet(ops: Ops, body: Body, ports: map<string, Def>, up: Net -> nat, b: Val, v: Val, n: Net): nat {
    if n in body.defs then Value(ops, body.defs[n], v.nets)
    else if n.Wire? && n.name in ports then Value(ops, ports[n.name], up)
    else if n.Wire? && OutOf(body.decls, n.name) < |body.decls| then
      var i := OutOf(body.decls, n.name);
      KidOf(v, i).nets(Wire(body.decls[i].outs[n.name]))
    else b.nets(n)
  }

  function Next(ops: Ops, d: Inst, ports: map<string, Def>, up: Net -> nat, b: Val, v: Val): Val
    decreases d
  {
    Val(n => NextNet(ops, d.body, ports, up, b, v, n),
        seq(|d.kids|, i requires 0 <= i < |d.kids| =>
          Next(ops, d.kids[i], InsOf(d.body, i), v.nets, KidOf(b, i), KidOf(v, i))))
  }

  /** Nothing drives the ports of the root. */
  const NO_PORTS: map<string, Def> := map[]

  function NoNets(n: Net): nat {
    0
  }

  type Trace = nat -> Val

  function KidTrace(f: Trace, i: nat): Trace {
    (k: nat) => KidOf(f(k), i)
  }

  function NetsTrace(f: Trace): nat -> Net -> nat {
    (k: nat) => f(k).nets
  }

  function Iterated(ops: Ops, d: Inst, b: Val, k: nat): Val {
    if k == 0 then b else Next(ops, d, NO_PORTS, NoNets, b, Iterated(ops, d, b, k - 1))
  }

  /** Each entry of a trace is the evaluation of the one before, at every level. */
  ghost predicate Evaluates(ops: Ops, d: Inst, ports: map<string, Def>, up: nat -> Net -> nat, b: Val, f: Trace)
    decreases d
  {
    && (forall k: nat, n :: f(k + 1).nets(n) == NextNet(ops, d.body, ports, up(k), b, f(k), n))
    && forall i :: 0 <= i < |d.kids| ==>
         Evaluates(ops, d.kids[i], InsOf(d.body, i), NetsTrace(f), KidOf(b, i), KidTrace(f, i))
  }

  lemma {:induction false} NextEvaluates(ops: Ops, d: Inst, ports: map<string, Def>,
                                         up: nat -> Net -> nat, b: Val, f: Trace)
    requires forall k: nat :: f(k + 1) == Next(ops, d, ports, up(k), b, f(k))
    ensures Evaluates(ops, d, ports, up, b, f)
    decreases d
  {
    forall k: nat, n ensures f(k + 1).nets(n) == NextNet(ops, d.body, ports, up(k), b, f(k), n) {
      assert f(k + 1) == Next(ops, d, ports, up(k), b, f(k));
    }
    forall i | 0 <= i < |d.kids|
      ensures Evaluates(ops, d.kids[i], InsOf(d.body, i), NetsTrace(f), KidOf(b, i), KidTrace(f, i))
    {
      forall k: nat
        ensures KidTrace(f, i)(k + 1) ==
                Next(ops, d.kids[i], InsOf(d.body, i), NetsTrace(f)(k), KidOf(b, i), KidTrace(f, i)(k))
      {
        assert f(k + 1) == Next(ops, d, ports, up(k), b, f(k));
      }
      NextEvaluates(ops, d.kids[i], InsOf(d.body, i), NetsTrace(f), KidOf(b, i), KidTrace(f, i));
    }
  }

  // ---------- settling ----------

  /** The value at which a net settles. */
  function Limit(d: Inst, r: Rank, f: Trace): Val
    decreases d
  {
    Val(n => f(r.of(n) + 1).nets(n),
        seq(|d.kids|, i requires 0 <= i < |d.kids| =>
          Limit(d.kids[i], if i < |r.kids| then r.kids[i] else r, KidTrace(f, i))))
  }

  ghost predicate SettledNet(r: Rank, f: Trace, n: Net) {
    forall k: nat :: k > r.of(n) ==> f(k).nets(n) == f(r.of(n) + 1).nets(n)
  }

  /** Nets ranked below q have settled, at every level. */
  ghost predicate Settled(d: Inst, r: Rank, f: Trace, q: nat)
    decreases d
  {
    && |r.kids| == |d.kids|
    && (forall n :: r.of(n) < q ==> SettledNet(r, f, n))
    && forall i :: 0 <= i < |d.kids| ==> Settled(d.kids[i], r.kids[i], KidTrace(f, i), q)
  }

  /** The nets that a port's driver reads have settled by the time its own rank is reached. */
  ghost predicate PortSettled(ports: map<string, Def>, up: nat -> Net -> nat, r: Rank, p: string)
    requires p in ports
  {
    forall m, k: nat, l: nat :: m in Reads(ports[p].rhs) && k >= r.of(Wire(p)) && l >= r.of(Wire(p)) ==>
      up(k)(m) == up(l)(m)
  }

  lemma SettlesDef(ops: Ops, d: Inst, r: Rank, ports: map<string, Def>, up: nat -> Net -> nat, b: Val, f: Trace, n: Net)
    requires n in d.body.defs && forall m :: m in Reads(d.body.defs[n].rhs) ==> r.of(m) < r.of(n) && SettledNet(r, f, m)
    requires forall k: nat :: f(k + 1).nets(n) == NextNet(ops, d.body, ports, up(k), b, f(k), n)
    ensures SettledNet(r, f, n)
  {
    var q := r.of(n);
    forall k: nat | k > q ensures f(k).nets(n) == f(q + 1).nets(n) {
      var j: nat := k - 1;
      assert f(j + 1).nets(n) == NextNet(ops, d.body, ports, up(j), b, f(j), n);
      assert f(q + 1).nets(n) == NextNet(ops, d.body, ports, up(q), b, f(q), n);
      forall m | m in Reads(d.body.defs[n].rhs) ensures f(j).nets(m) == f(q).nets(m) {
        assert SettledNet(r, f, m);
      }
      ValueAgree(ops, d.body.defs[n], f(j).nets, f(q).nets);
    }
  }

  lemma SettlesPort(ops: Ops, d: Inst, r: Rank, ports: map<string, Def>,
                    up: nat -> Net -> nat, b: Val, f: Trace, p: string)
    requires p in ports && Wire(p) !in d.body.defs && PortSettled(ports, up, r, p)
    requires forall k: nat :: f(k + 1).nets(Wire(p)) == NextNet(ops, d.body, ports, up(k), b, f(k), Wire(p))
    ensures SettledNet(r, f, Wire(p))
  {
    var n, q := Wire(p), r.of(Wire(p));
    forall k: nat | k > q ensures f(k).nets(n) == f(q + 1).nets(n) {
      var j: nat := k - 1;
      assert f(j + 1).nets(n) == NextNet(ops, d.body, ports, up(j), b, f(j), n);
      assert f(q + 1).nets(n) == NextNet(ops, d.body, ports, up(q), b, f(q), n);
      ValueAgree(ops, ports[p], up(j), up(q));
    }
  }

  lemma SettlesOut(ops: Ops, d: Inst, r: Rank, ports: map<string, Def>, up: nat -> Net -> nat, b: Val, f: Trace, n: Net)
    requires n !in d.body.defs && !(n.Wire? && n.name in ports)
    requires n.Wire? && OutOf(d.body.decls, n.name) < |d.body.decls| == |r.kids| ==>
               var i := OutOf(d.body.decls, n.name);
               var m := Wire(d.body.decls[i].outs[n.name]);
               r.kids[i].of(m) < r.of(n) && SettledNet(r.kids[i], KidTrace(f, i), m)
    requires |d.body.decls| == |r.kids|
    requires forall k: nat :: f(k + 1).nets(n) == NextNet(ops, d.body, ports, up(k), b, f(k), n)
    ensures SettledNet(r, f, n)
  {
    var q := r.of(n);
    forall k: nat | k > q ensures f(k).nets(n) == f(q + 1).nets(n) {
      var j: nat := k - 1;
      assert f(j + 1).nets(n) == NextNet(ops, d.body, ports, up(j), b, f(j), n);
      assert f(q + 1).nets(n) == NextNet(ops, d.body, ports, up(q), b, f(q), n);
      if n.Wire? && OutOf(d.body.decls, n.name) < |d.body.decls| {
        var i := OutOf(d.body.decls, n.name);
        var m := Wire(d.body.decls[i].outs[n.name]);
        assert KidTrace(f, i)(j).nets(m) == KidTrace(f, i)(q).nets(m);
      }
    }
  }

  /** One net of rank q. */
  lemma SettlesNet(ops: Ops, d: Inst, r: Rank, ports: map<string, Def>,
                   up: nat -> Net -> nat, b: Val, f: Trace, q: nat, n: Net)
    requires Acyclic(d, r) && WellDriven(d, ports.Keys) && Evaluates(ops, d, ports, up, b, f) && Settled(d, r, f, q)
    requires forall p :: p in ports && r.of(Wire(p)) <= q ==> PortSettled(ports, up, r, p)
    requires r.of(n) == q
    ensures SettledNet(r, f, n)
  {
    if n in d.body.defs {
      SettlesDef(ops, d, r, ports, up, b, f, n);
    } else if n.Wire? && n.name in ports {
      assert n == Wire(n.name);
      SettlesPort(ops, d, r, ports, up, b, f, n.name);
    } else {
      if n.Wire? && OutOf(d.body.decls, n.name) < |d.body.decls| {
        var i := OutOf(d.body.decls, n.name);
        assert PortsRanked(d.body.decls[i], r.of, r.kids[i].of);
        assert n == Wire(n.name);
        assert Settled(d.kids[i], r.kids[i], KidTrace(f, i), q);
      }
      SettlesOut(ops, d, r, ports, up, b, f, n);
    }
  }

  /** The ports of a child whose rank is at most q read nets of the parent that have settled. */
  lemma KidPortSettled(decl: Decl, r: Rank, kid: Rank, f: Trace, q: nat, p: string)
    requires PortsRanked(decl, r.of, kid.of) && p in decl.ins && kid.of(Wire(p)) <= q
    requires forall n :: r.of(n) < q ==> SettledNet(r, f, n)
    ensures PortSettled(decl.ins, NetsTrace(f), kid, p)
  {
    forall m, k: nat, l: nat | m in Reads(decl.ins[p].rhs) && k >= kid.of(Wire(p)) && l >= kid.of(Wire(p))
      ensures NetsTrace(f)(k)(m) == NetsTrace(f)(l)(m)
    {
      assert SettledNet(r, f, m);
    }
  }

  /** All nets of rank q, at every level. */
  lemma {:induction false} SettleStep(ops: Ops, d: Inst, r: Rank, ports: map<string, Def>,
                                      up: nat -> Net -> nat, b: Val, f: Trace, q: nat)
    requires Acyclic(d, r) && WellDriven(d, ports.Keys) && Evaluates(ops, d, ports, up, b, f) && Settled(d, r, f, q)
    requires forall p :: p in ports && r.of(Wire(p)) <= q ==> PortSettled(ports, up, r, p)
    ensures Settled(d, r, f, q + 1)
    decreases d
  {
    forall n | r.of(n) < q + 1 ensures SettledNet(r, f, n) {
      if r.of(n) == q {
        SettlesNet(ops, d, r, ports, up, b, f, q, n);
      }
    }
    forall i | 0 <= i < |d.kids| ensures Settled(d.kids[i], r.kids[i], KidTrace(f, i), q + 1) {
      var decl := d.body.decls[i];
      forall p | p in decl.ins && r.kids[i].of(Wire(p)) <= q ensures PortSettled(decl.ins, NetsTrace(f), r.kids[i], p) {
        KidPortSettled(decl, r, r.kids[i], f, q, p);
      }
      SettleStep(ops, d.kids[i], r.kids[i], decl.ins, NetsTrace(f), KidOf(b, i), KidTrace(f, i), q);
    }
  }

  lemma {:induction false} SettledAtZero(d: Inst, r: Rank, f: Trace)
    requires Acyclic(d, r)
    ensures Settled(d, r, f, 0)
    decreases d
  {
    forall i | 0 <= i < |d.kids| ensures Settled(d.kids[i], r.kids[i], KidTrace(f, i), 0) {
      SettledAtZero(d.kids[i], r.kids[i], KidTrace(f, i));
    }
  }

  lemma {:induction false} SettledUpTo(d: Inst, r: Rank, f: Trace, q: nat)
    requires Settled(d, r, f, 0)
    requires forall j: nat :: Settled(d, r, f, j) ==> Settled(d, r, f, j + 1)
    ensures Settled(d, r, f, q)
    decreases q
  {
    if q > 0 {
      var j: nat := q - 1;
      SettledUpTo(d, r, f, j);
      assert Settled(d, r, f, j + 1);
    }
  }

  /** Every net has settled one step after its rank, at every level. */
  ghost predicate AllSettled(d: Inst, r: Rank, f: Trace)
    decreases d
  {
    && |r.kids| == |d.kids|
    && (forall n :: SettledNet(r, f, n))
    && forall i :: 0 <= i < |d.kids| ==> AllSettled(d.kids[i], r.kids[i], KidTrace(f, i))
  }

  lemma {:induction false} SettledAtAllRanks(d: Inst, r: Rank, f: Trace)
    requires forall q: nat :: Settled(d, r, f, q)
    ensures AllSettled(d, r, f)
    decreases d
  {
    assert Settled(d, r, f, 0);
    forall n ensures SettledNet(r, f, n) {
      assert Settled(d, r, f, r.of(n) + 1);
    }
    forall i | 0 <= i < |d.kids| ensures AllSettled(d.kids[i], r.kids[i], KidTrace(f, i)) {
      forall q: nat ensures Settled(d.kids[i], r.kids[i], KidTrace(f, i), q) {
        assert Settled(d, r, f, q);
      }
      SettledAtAllRanks(d.kids[i], r.kids[i], KidTrace(f, i));
    }
  }

  lemma SettlesFurther(ops: Ops, d: Inst, r: Rank, up: nat -> Net -> nat, b: Val, f: Trace, j: nat)
    requires Acyclic(d, r) && WellDriven(d, {}) && Evaluates(ops, d, NO_PORTS, up, b, f) && Settled(d, r, f, j)
    ensures Settled(d, r, f, j + 1)
  {
    assert NO_PORTS.Keys == {};
    SettleStep(ops, d, r, NO_PORTS, up, b, f, j);
  }

  lemma EverythingSettles(ops: Ops, d: Inst, r: Rank, up: nat -> Net -> nat, b: Val, f: Trace)
    requires Acyclic(d, r) && WellDriven(d, {}) && Evaluates(ops, d, NO_PORTS, up, b, f)
    ensures AllSettled(d, r, f)
  {
    SettledAtZero(d, r, f);
    forall j: nat | Settled(d, r, f, j) ensures Settled(d, r, f, j + 1) {
      SettlesFurther(ops, d, r, up, b, f, j);
    }
    forall q: nat ensures Settled(d, r, f, q) {
      SettledUpTo(d, r, f, q);
    }
    SettledAtAllRanks(d, r, f);
  }

  // ---------- the limit is a valuation ----------

  lemma LimitDef(ops: Ops, d: Inst, r: Rank, ports: map<string, Def>, up: nat -> Net -> nat, b: Val, f: Trace, n: Net)
    requires n in d.body.defs && forall m :: m in Reads(d.body.defs[n].rhs) ==> r.of(m) < r.of(n) && SettledNet(r, f, m)
    requires forall k: nat :: f(k + 1).nets(n) == NextNet(ops, d.body, ports, up(k), b, f(k), n)
    ensures Limit(d, r, f).nets(n) == Value(ops, d.body.defs[n], Limit(d, r, f).nets)
  {
    var q := r.of(n);
    assert f(q + 1).nets(n) == NextNet(ops, d.body, ports, up(q), b, f(q), n);
    forall m | m in Reads(d.body.defs[n].rhs) ensures f(q).nets(m) == Limit(d, r, f).nets(m) {
      assert SettledNet(r, f, m);
    }
    ValueAgree(ops, d.body.defs[n], f(q).nets, Limit(d, r, f).nets);
  }

  lemma LimitPort(ops: Ops, decl: Decl, kid: Inst, r: Rank, rk: Rank,
                  env: Net -> nat, bk: Val, f: Trace, fk: Trace, p: string)
    requires p in decl.ins && Wire(p) !in kid.body.defs && PortsRanked(decl, r.of, rk.of)
    requires forall n :: SettledNet(r, f, n) && env(n) == f(r.of(n) + 1).nets(n)
    requires forall k: nat :: fk(k + 1).nets(Wire(p)) == NextNet(ops, kid.body, decl.ins, f(k).nets, bk, fk(k), Wire(p))
    ensures Limit(kid, rk, fk).nets(Wire(p)) == Value(ops, decl.ins[p], env)
  {
    var q := rk.of(Wire(p));
    assert fk(q + 1).nets(Wire(p)) == NextNet(ops, kid.body, decl.ins, f(q).nets, bk, fk(q), Wire(p));
    forall m | m in Reads(decl.ins[p].rhs) ensures f(q).nets(m) == env(m) {
      assert SettledNet(r, f, m);
    }
    ValueAgree(ops, decl.ins[p], f(q).nets, env);
  }

  lemma LimitOut(ops: Ops, d: Inst, r: Rank, ports: map<string, Def>,
                 up: nat -> Net -> nat, b: Val, f: Trace, i: nat, w: string)
    requires i < |d.kids| == |d.body.decls| == |r.kids| && w in d.body.decls[i].outs && OutsApart(d.body, ports.Keys, i)
    requires PortsRanked(d.body.decls[i], r.of, r.kids[i].of)
    requires SettledNet(r.kids[i], KidTrace(f, i), Wire(d.body.decls[i].outs[w]))
    requires forall k: nat :: f(k + 1).nets(Wire(w)) == NextNet(ops, d.body, ports, up(k), b, f(k), Wire(w))
    ensures Limit(d, r, f).nets(Wire(w)) ==
            Limit(d.kids[i], r.kids[i], KidTrace(f, i)).nets(Wire(d.body.decls[i].outs[w]))
  {
    var q := r.of(Wire(w));
    assert f(q + 1).nets(Wire(w)) == NextNet(ops, d.body, ports, up(q), b, f(q), Wire(w));
    assert OutOf(d.body.decls, w) == i;
    assert KidTrace(f, i)(q) == KidOf(f(q), i);
  }

  lemma {:induction false} LimitConsistent(ops: Ops, d: Inst, r: Rank, ports: map<string, Def>,
                                           up: nat -> Net -> nat, b: Val, f: Trace)
    requires Acyclic(d, r) && WellDriven(d, ports.Keys) && Plain(d)
    requires Evaluates(ops, d, ports, up, b, f) && AllSettled(d, r, f)
    ensures Consistent(ops, d, Limit(d, r, f))
    decreases d
  {
    var v := Limit(d, r, f);
    forall n | n in d.body.defs ensures v.nets(n) == Value(ops, d.body.defs[n], v.nets) {
      LimitDef(ops, d, r, ports, up, b, f, n);
    }
    forall i | 0 <= i < |d.kids|
      ensures PortsAgree(ops, d.body.decls[i], v.nets, v.kids[i].nets) && Consistent(ops, d.kids[i], v.kids[i])
    {
      LimitPorts(ops, d, r, ports, up, b, f, i);
      LimitConsistent(ops, d.kids[i], r.kids[i], InsOf(d.body, i), NetsTrace(f), KidOf(b, i), KidTrace(f, i));
    }
  }

  lemma KidPortEvaluates(ops: Ops, kid: Inst, decl: Decl, bk: Val, f: Trace, fk: Trace, p: string)
    requires Evaluates(ops, kid, decl.ins, NetsTrace(f), bk, fk)
    ensures forall k: nat :: fk(k + 1).nets(Wire(p)) == NextNet(ops, kid.body, decl.ins, f(k).nets, bk, fk(k), Wire(p))
  {
    forall k: nat
      ensures fk(k + 1).nets(Wire(p)) == NextNet(ops, kid.body, decl.ins, f(k).nets, bk, fk(k), Wire(p))
    {
      assert NetsTrace(f)(k) == f(k).nets;
    }
  }

  lemma LimitPorts(ops: Ops, d: Inst, r: Rank, ports: map<string, Def>, up: nat -> Net -> nat, b: Val, f: Trace, i: nat)
    requires Acyclic(d, r) && WellDriven(d, ports.Keys) && i < |d.kids|
    requires Evaluates(ops, d, ports, up, b, f) && AllSettled(d, r, f)
    ensures PortsAgree(ops, d.body.decls[i], Limit(d, r, f).nets, Limit(d, r, f).kids[i].nets)
  {
    var decl, v := d.body.decls[i], Limit(d, r, f);
    assert Evaluates(ops, d.kids[i], InsOf(d.body, i), NetsTrace(f), KidOf(b, i), KidTrace(f, i));
    forall p | p in decl.ins ensures v.kids[i].nets(Wire(p)) == Value(ops, decl.ins[p], v.nets) {
      assert WellDriven(d.kids[i], decl.ins.Keys) && p in decl.ins.Keys;
      KidPortEvaluates(ops, d.kids[i], decl, KidOf(b, i), f, KidTrace(f, i), p);
      LimitPort(ops, decl, d.kids[i], r, r.kids[i], v.nets, KidOf(b, i), f, KidTrace(f, i), p);
    }
    forall w | w in decl.outs ensures v.nets(Wire(w)) == v.kids[i].nets(Wire(decl.outs[w])) {
      assert AllSettled(d.kids[i], r.kids[i], KidTrace(f, i));
      LimitOut(ops, d, r, ports, up, b, f, i, w);
    }
  }

  /** Undriven nets keep the values chosen for them. */
  lemma {:induction false} LimitFree(ops: Ops, d: Inst, r: Rank, ports: map<string, Def>,
                                     up: nat -> Net -> nat, b: Val, f: Trace)
    requires SameShape(d, b) && |r.kids| == |d.kids| == |d.body.decls| && Evaluates(ops, d, ports, up, b, f)
    requires Acyclic(d, r)
    ensures FreeAgree(d, Nowhere(d), ports.Keys, b, Limit(d, r, f))
    decreases d
  {
    forall w | Undriven(d.body, ports.Keys, w) ensures b.nets(Wire(w)) == Limit(d, r, f).nets(Wire(w)) {
      var q := r.of(Wire(w));
      assert f(q + 1).nets(Wire(w)) == NextNet(ops, d.body, ports, up(q), b, f(q), Wire(w));
    }
    forall i | 0 <= i < |d.kids|
      ensures FreeAgree(d.kids[i], Nowhere(d).kids[i], d.body.decls[i].ins.Keys, b.kids[i], Limit(d, r, f).kids[i])
    {
      LimitFree(ops, d.kids[i], r.kids[i], InsOf(d.body, i), NetsTrace(f), KidOf(b, i), KidTrace(f, i));
    }
  }

  lemma IterationEvaluates(ops: Ops, d: Inst, b: Val, up: nat -> Net -> nat, f: Trace)
    requires forall k: nat :: f(k) == Iterated(ops, d, b, k) && up(k) == NoNets
    ensures Evaluates(ops, d, NO_PORTS, up, b, f)
  {
    forall k: nat ensures f(k + 1) == Next(ops, d, NO_PORTS, up(k), b, f(k)) {
      assert f(k + 1) == Iterated(ops, d, b, k + 1);
    }
    NextEvaluates(ops, d, NO_PORTS, up, b, f);
  }

  /** For every choice of the undriven nets there is a valuation. */
  lemma AcyclicHasValuation(ops: Ops, d: Inst, r: Rank, b: Val) returns (v: Val)
    requires Acyclic(d, r) && WellDriven(d, {}) && Plain(d) && SameShape(d, b)
    ensures Consistent(ops, d, v) && FreeAgree(d, Nowhere(d), {}, b, v)
  {
    var f: Trace := (k: nat) => Iterated(ops, d, b, k);
    var up: nat -> Net -> nat := (k: nat) => NoNets;
    IterationEvaluates(ops, d, b, up, f);
    v := Limit(d, r, f);
    SettledLimit(ops, d, r, up, b, f);
  }

  lemma SettledLimit(ops: Ops, d: Inst, r: Rank, up: nat -> Net -> nat, b: Val, f: Trace)
    requires Acyclic(d, r) && WellDriven(d, {}) && Plain(d) && SameShape(d, b)
    requires Evaluates(ops, d, NO_PORTS, up, b, f)
    ensures Consistent(ops, d, Limit(d, r, f)) && FreeAgree(d, Nowhere(d), {}, b, Limit(d, r, f))
  {
    assert NO_PORTS.Keys == {};
    assert Consistent(ops, d, Limit(d, r, f)) by {
      EverythingSettles(ops, d, r, up, b, f);
      LimitConsistent(ops, d, r, NO_PORTS, up, b, f);
    }
    LimitFree(ops, d, r, NO_PORTS, up, b, f);
  }

  /** ... and only one, on every wire. */
  lemma AcyclicHasOneValuation(ops: Ops, d: Inst, r: Rank, b: Val, v1: Val, v2: Val)
    requires Acyclic(d, r) && Plain(d)
    requires Consistent(ops, d, v1) && FreeAgree(d, Nowhere(d), {}, b, v1)
    requires Consistent(ops, d, v2) && FreeAgree(d, Nowhere(d), {}, b, v2)
    ensures AgreeOutside(d, Nowhere(d), v1, v2)
  {
    NowhereClosed(d, r);
    ConsistentOutside(ops, d, Nowhere(d), v1);
    ConsistentOutside(ops, d, Nowhere(d), v2);
    FreeBoth(d, {}, b, v1, v2);
    OutsideDetermined(ops, d, r, Nowhere(d), v1, v2);
  }

  lemma {:induction false} FreeBoth(d: Inst, ports: set<string>, b: Val, v1: Val, v2: Val)
    requires FreeAgree(d, Nowhere(d), ports, b, v1) && FreeAgree(d, Nowhere(d), ports, b, v2)
    ensures FreeAgree(d, Nowhere(d), ports, v1, v2)
    decreases d
  {
    forall i | 0 <= i < |d.kids|
      ensures FreeAgree(d.kids[i], Nowhere(d).kids[i], d.body.decls[i].ins.Keys, v1.kids[i], v2.kids[i])
    {
      FreeBoth(d.kids[i], d.body.decls[i].ins.Keys, b.kids[i], v1.kids[i], v2.kids[i]);
    }
  }

  // ---------- the injected netlist ----------

  /** Holding the marked wires keeps what existence needs. */
  lemma {:induction false} ForceKeepsForm(d: Inst, r: Rank, ports: set<string>, bits: seq<nat>)
    requires Acyclic(d, r) && WellDriven(d, ports) && Plain(d)
    ensures Acyclic(Force(d, bits), r) && WellDriven(Force(d, bits), ports) && Plain(Force(d, bits))
    decreases d
  {
    forall i | 0 <= i < |d.kids|
      ensures var kid := Force(d.kids[i], KidBits(d, i, bits));
              Acyclic(kid, r.kids[i]) && WellDriven(kid, d.body.decls[i].ins.Keys) && Plain(kid)
    {
      ForceKeepsForm(d.kids[i], r.kids[i], d.body.decls[i].ins.Keys, KidBits(d, i, bits));
    }
    ForceKeepsBody(d, r, ports, bits);
  }

  lemma ForceKeepsBody(d: Inst, r: Rank, ports: set<string>, bits: seq<nat>)
    requires Acyclic(d, r) && WellDriven(d, ports) && Plain(d)
    ensures var f := Force(d, bits);
            && (forall n :: n in f.body.defs <==> n in d.body.defs)
            && (forall n :: n in f.body.defs ==> forall m :: m in Reads(f.body.defs[n].rhs) ==> r.of(m) < r.of(n))
            && (forall n :: n in f.body.defs ==> forall m :: m in Reads(f.body.defs[n].rhs) ==> m.Wire?)
            && (forall i :: 0 <= i < |d.kids| ==> OutsApart(f.body, ports, i))
  {
    var f := Force(d, bits);
    forall i | 0 <= i < |d.kids| ensures OutsApart(f.body, ports, i) {
      assert OutsApart(d.body, ports, i);
    }
  }

  lemma {:induction false} ForceKeepsShape(d: Inst, bits: seq<nat>, b: Val)
    requires SameShape(d, b)
    ensures SameShape(Force(d, bits), b)
    decreases d
  {
    forall i | 0 <= i < |d.kids| ensures SameShape(Force(d.kids[i], KidBits(d, i, bits)), b.kids[i]) {
      ForceKeepsShape(d.kids[i], KidBits(d, i, bits), b.kids[i]);
    }
  }

  /** The undriven nets are the same, and extending a valuation leaves them alone. */
  lemma {:induction false} FreeForced(d: Inst, bits: seq<nat>, ports: set<string>, b: Val, v: Val, v': Val)
    requires FreeAgree(Force(d, bits), Nowhere(Force(d, bits)), ports, b, v) && SameWires(v, v')
    ensures FreeAgree(d, Nowhere(d), ports, b, v')
    decreases d
  {
    var f := Force(d, bits);
    forall w | Undriven(d.body, ports, w) ensures b.nets(Wire(w)) == v'.nets(Wire(w)) {
      assert Undriven(f.body, ports, w);
    }
    forall i | 0 <= i < |d.kids|
      ensures FreeAgree(d.kids[i], Nowhere(d).kids[i], d.body.decls[i].ins.Keys, b.kids[i], v'.kids[i])
    {
      assert f.kids[i] == Force(d.kids[i], KidBits(d, i, bits));
      FreeForced(d.kids[i], KidBits(d, i, bits), d.body.decls[i].ins.Keys, b.kids[i], v.kids[i], v'.kids[i]);
    }
  }

  /** Whatever bits are fed in, the injected netlist has a valuation, for every choice of the
      undriven nets. */
  lemma InjectedHasValuation(ops: Ops, d: Inst, root: bool, r: Rank, bits: seq<nat>, b: Val) returns (v: Val)
    requires Ready(d) && RoutingOk(d) && Acyclic(d, r) && WellDriven(d, {}) && SameShape(d, b)
    requires |bits| == |d.paths| && forall k :: 0 <= k < |bits| ==> bits[k] < 2
    ensures Consistent(ops, InjectTree(d, root), v) && FreeAgree(d, Nowhere(d), {}, b, v)
    ensures forall k :: 0 <= k < |bits| ==> v.nets(FaultIn(k)) == bits[k]
  {
    ForceKeepsForm(d, r, {}, bits);
    ForceKeepsShape(d, bits, b);
    var held := AcyclicHasValuation(ops, Force(d, bits), r, b);
    ForcedShape(ops, d, bits, held);
    RoutingAgrees(ops, d, held);
    ForcedIsInjected(ops, d, root, held, bits);
    ExtendKeepsWires(ops, d, held, bits);
    v := Extend(ops, d, held, bits);
    FreeForced(d, bits, {}, b, held, v);
  }
}
