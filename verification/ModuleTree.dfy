/** `ModuleTree`: injecting a whole tree of instances. */
module ModuleTrees {
  import opened Netlist
  import opened Injection
  import opened Injector
  import opened TreeWalk
  import opened FaultDriver

  // ---------- the tree ----------

  function Instances(xs: seq<Node>): (s: seq<ModuleInstance>)
    ensures |s| == |xs|
  {
    seq(|xs|, i requires 0 <= i < |xs| => xs[i].obj)
  }

  /** Every instance can be rewritten: its marked wires exist and its children are declared. */
  ghost predicate AllEditable(n: Node)
    reads Objs(n), set o | o in Objs(n) :: o.mod
  {
    forall o {:trigger o.Editable()} :: o in Objs(n) ==> o.Editable()
  }

  /** What rewriting makes of an instance, given the types of its children. */
  function RewrittenTo(c: Cell, types: seq<TypeName>, root: bool): Cell
    requires LocalsExist(c.body.defs, c.paths) && |types| == |c.body.decls|
  {
    if c.paths == [] then c
    else
      c.(body := Injected(c.body, c.typeName, c.paths, types, root),
         typeName := NewType(c.body, c.typeName, c.paths, types))
  }

  lemma RewrittenCell(st: State, x: Node, root: bool, types: seq<TypeName>)
    requires x.obj in st && LocalsExist(st[x.obj].body.defs, st[x.obj].paths)
    requires |types| == |x.kids| == |st[x.obj].body.decls| && KidTypes(Build(x, st).kids) == types
    ensures InjectedCell(st, x, root) == st[x.obj := RewrittenTo(st[x.obj], types, root)]
  {
  }

  lemma SameElsewhere(st: State, st': State, inst: ModuleInstance, cell: Cell)
    requires st'.Keys == st.Keys && inst in st && st'[inst] == cell
    requires forall o :: o in st && o != inst ==> st'[o] == st[o]
    ensures st' == st[inst := cell]
  {
  }

  /** Stack entries are subtrees of the tree. */
  ghost predicate InTree(xs: seq<Node>, n: Node)
    reads set x, o | x in xs && o in Objs(x) :: o`children
  {
    forall x :: x in xs ==> Objs(x) <= Objs(n) && IsTree(x) && Linked(x)
  }

  /** The modules of the instances without faults. */
  ghost function UnmarkedModules(objs: set<ModuleInstance>): map<ModuleInstance, Module>
    reads objs
  {
    map o | o in objs && o.faultyChildPaths == [] :: o.mod
  }

  /** What the walk followed by the root makes of the tree: its injected form exactly when no
      skipped instance has a marked fault, and so whenever no instance with children repeats
      a name met before. */
  ghost predicate WalkOutcome(n: Node, st: State, st': State) {
    Injectable(Build(n, st)) ==>
      && (Build(n, st') == InjectTree(Build(n, st), true) <==>
          NoFaultSkipped(PreList(n.kids), VisitList(n.kids, {}).0, st))
      && (NoParentRepeats(PreList(n.kids)) ==> Build(n, st') == InjectTree(Build(n, st), true))
  }

  class ModuleTree {
    const rootInstance: ModuleInstance

    constructor (root: ModuleInstance)
      ensures rootInstance == root
    {
      rootInstance := root;
    }

    /** Rewrite one instance; the others keep their modules. */
    method Rewrite(inst: ModuleInstance, root: bool, ghost n: Node)
      requires inst in Objs(n) && inst.Editable()
      modifies inst`mod
      ensures inst.Editable()
      ensures Now(Objs(n)) ==
              old(Now(Objs(n))[inst := RewrittenTo(Now(Objs(n))[inst], inst.ChildTypes(), root)])
      ensures inst.faultyChildPaths == [] ==> inst.mod == old(inst.mod)
    {
      ObjsAllocated(n);
      ghost var st := Now(Objs(n));
      ghost var cell := RewrittenTo(st[inst], inst.ChildTypes(), root);
      inst.InjectFaults(root);
      SameElsewhere(st, Now(Objs(n)), inst, cell);
    }

    /** After that every instance can still be rewritten. */
    method RewriteInTree(inst: ModuleInstance, root: bool, ghost n: Node)
      requires inst in Objs(n) && AllEditable(n) && inst.Editable()
      modifies inst`mod
      ensures AllEditable(n)
      ensures Now(Objs(n)) ==
              old(Now(Objs(n))[inst := RewrittenTo(Now(Objs(n))[inst], inst.ChildTypes(), root)])
      ensures inst.faultyChildPaths == [] ==> inst.mod == old(inst.mod)
    {
      ObjsAllocated(n);
      Rewrite(inst, root, n);
      forall o | o in Objs(n) && o != inst ensures o.Editable() {
        assert old(o.Editable());
      }
    }

    /** Inject one instance of the tree. */
    method InjectOne(inst: ModuleInstance, root: bool, ghost x: Node, ghost n: Node)
      requires x.obj == inst && IsTree(x) && Linked(x) && Objs(x) <= Objs(n) && AllEditable(n)
      modifies inst`mod
      ensures AllEditable(n) && Linked(x)
      ensures Now(Objs(n)) == InjectedCell(old(Now(Objs(n))), x, root)
      ensures UnmarkedModules(Objs(n)) == old(UnmarkedModules(Objs(n)))
    {
      assert x.obj in Objs(x);
      assert inst.Editable();
      WillBecome(x, n, root);
      ObjsAllocated(n);
      RewriteInTree(inst, root, n);
    }

    /** Inject an instance that has come off the stack. */
    method InjectNext(inst: ModuleInstance, ghost x: Node, ghost rest: seq<Node>, ghost n: Node)
      requires x.obj == inst && IsTree(x) && Linked(x) && Objs(x) <= Objs(n) && AllEditable(n)
      requires Linked(n) && InTree(rest, n)
      modifies inst`mod
      ensures AllEditable(n) && Linked(n) && InTree(rest, n)
      ensures Now(Objs(n)) == InjectCell(old(Now(Objs(n))), x)
      ensures UnmarkedModules(Objs(n)) == old(UnmarkedModules(Objs(n)))
    {
      ObjsAllocated(n);
      InjectOne(inst, false, x, n);
    }

    /** Walk the tree with a stack: an instance that comes off unseen goes back under its
        children; it is injected when it comes off again, or at once if its name was seen.
        `order` lists the instances on which injection was called. */
    method InjectBelowRoot(ghost n: Node) returns (order: seq<ModuleInstance>)
      requires n.obj == rootInstance && IsTree(n) && Linked(n) && AllEditable(n)
      modifies Objs(n)`mod
      ensures AllEditable(n) && Linked(n) && order == Instances(VisitList(n.kids, {}).0)
      ensures Now(Objs(n)) == InjectAll(old(Now(Objs(n))), VisitList(n.kids, {}).0)
      ensures UnmarkedModules(Objs(n)) == old(UnmarkedModules(Objs(n)))
    {
      ObjsAllocated(n);
      order := [];
      var stack, visited := rootInstance.children, {};
      ghost var st0, nodes, done: seq<Node> := Now(Objs(n)), n.kids, [];
      ghost var names := set o | o in Objs(n) :: o.name;
      while |stack| > 0
        invariant AllEditable(n) && Linked(n) && stack == Instances(nodes) && InTree(nodes, n)
        invariant done + VisitList(nodes, visited).0 == VisitList(n.kids, {}).0
        invariant order == Instances(done) && Now(Objs(n)) == InjectAll(st0, done)
        invariant UnmarkedModules(Objs(n)) == old(UnmarkedModules(Objs(n)))
        decreases |VisitList(nodes, visited).0|, names - visited
      {
        var inst := stack[|stack| - 1];
        ghost var x, rest := nodes[|nodes| - 1], nodes[..|nodes| - 1];
        PopNode(nodes, n);
        stack := stack[..|stack| - 1];
        if inst.name !in visited {
          stack := stack + [inst];
          stack := stack + inst.children;
          Expanded(rest, x, n, visited);
          nodes := rest + [x] + x.kids;
          visited := visited + {inst.name};
        } else {
          InjectNext(inst, x, rest, n);
          Finished(rest, x, visited, done, st0);
          order := order + [inst];
          done := done + [x];
          nodes := rest;
        }
      }
      assert nodes == [];
      assert done + VisitList(nodes, visited).0 == done;
    }

    method MakeDriver(ghost n: Node) returns (driver: DriverModule)
      requires AllEditable(n) && Linked(n)
      ensures AllEditable(n) && Linked(n) && Now(Objs(n)) == old(Now(Objs(n)))
      ensures driver.width == |rootInstance.faultyChildPaths| == |driver.lines|
      ensures forall i :: 0 <= i < driver.width ==> driver.lines[i] == Line(i, 0, rootInstance.faultyChildPaths[i])
    {
      ObjsAllocated(n);
      driver := GenerateFaultDriver(rootInstance.faultyChildPaths);
      forall o | o in Objs(n) ensures o.Editable() {
        assert old(o.Editable());
      }
    }

    /** Inject everything below the root, make the driver, and rewrite the root. */
    method InjectInWalkOrder(ghost n: Node) returns (driver: DriverModule, order: seq<ModuleInstance>)
      requires n.obj == rootInstance && IsTree(n) && Linked(n) && AllEditable(n)
      modifies Objs(n)`mod
      ensures order == Instances(VisitList(n.kids, {}).0)
      ensures driver.width == |rootInstance.faultyChildPaths| == |driver.lines|
      ensures forall i :: 0 <= i < driver.width ==> driver.lines[i] == Line(i, 0, rootInstance.faultyChildPaths[i])
      ensures Now(Objs(n)) == InjectedCell(InjectAll(old(Now(Objs(n))), VisitList(n.kids, {}).0), n, true)
      ensures UnmarkedModules(Objs(n)) == old(UnmarkedModules(Objs(n)))
    {
      ObjsAllocated(n);
      order := InjectBelowRoot(n);
      driver := MakeDriver(n);
      InjectOne(rootInstance, true, n, n);
    }

    /** The whole injection. In any case the root keeps its header, no module that existed before
        is edited, and an instance without faults keeps its module. */
    method InjectFaults(ghost n: Node) returns (driver: DriverModule, order: seq<ModuleInstance>)
      requires n.obj == rootInstance && IsTree(n) && Linked(n) && AllEditable(n)
      modifies Objs(n)`mod
      ensures order == Instances(VisitList(n.kids, {}).0)
      ensures driver.width == |rootInstance.faultyChildPaths| == |driver.lines|
      ensures forall i :: 0 <= i < driver.width ==> driver.lines[i] == Line(i, 0, rootInstance.faultyChildPaths[i])
      ensures WalkOutcome(n, old(Now(Objs(n))), Now(Objs(n)))
      ensures rootInstance.mod.body.header == old(rootInstance.mod.body.header)
      ensures UnmarkedModules(Objs(n)) == old(UnmarkedModules(Objs(n)))
      ensures forall m: Module :: old(allocated(m)) ==> m.body == old(m.body) && m.typeName == old(m.typeName)
    {
      ghost var st := Now(Objs(n));
      driver, order := InjectInWalkOrder(n);
      WalkResult(n, st, Now(Objs(n)));
      RootHeaderKept(n, st);
    }
  }

  /** Whatever the walk skips, the root keeps the name in its header. */
  lemma RootHeaderKept(n: Node, st: State)
    requires IsTree(n)
    ensures var after := InjectedCell(InjectAll(st, VisitList(n.kids, {}).0), n, true);
            CellOf(after, n.obj).body.header == CellOf(st, n.obj).body.header
  {
    VisitListInside(n.kids, {});
    InjectAllElsewhere(st, VisitList(n.kids, {}).0, n.obj);
  }

  lemma WalkResult(n: Node, st: State, st': State)
    requires IsTree(n) && Objs(n) <= st.Keys
    requires st' == InjectedCell(InjectAll(st, VisitList(n.kids, {}).0), n, true)
    ensures WalkOutcome(n, st, st')
  {
    if Injectable(Build(n, st)) {
      InjectsTreeIffNoFaultSkipped(n, st);
      if NoParentRepeats(PreList(n.kids)) {
        WalkInjectsTree(n, st);
      }
    }
  }

  lemma ObjsAllocated(n: Node)
    ensures forall o :: o in Objs(n) ==> allocated(o)
  {
    forall i | 0 <= i < |n.kids| ensures forall o :: o in Objs(n.kids[i]) ==> allocated(o) {
      ObjsAllocated(n.kids[i]);
    }
  }

  /** The types that an instance sees in its children are those of the present state. */
  lemma KidTypesNow(x: Node, n: Node)
    requires Linked(x) && Objs(x) <= Objs(n)
    ensures KidTypes(Build(x, Now(Objs(n))).kids) == x.obj.ChildTypes()
  {
    var d := Build(x, Now(Objs(n)));
    forall i | 0 <= i < |x.kids| ensures d.kids[i].typeName == x.obj.ChildTypes()[i] {
      assert x.kids[i].obj in Objs(x.kids[i]);
      assert x.kids[i].obj in Objs(x);
      assert x.obj.children[i] == x.kids[i].obj;
    }
  }

  /** The children of an instance go on the stack above it. */
  lemma Expanded(rest: seq<Node>, x: Node, n: Node, visited: set<string>)
    requires InTree(rest + [x], n) && x.obj.name !in visited
    ensures InTree(rest + [x] + x.kids, n)
    ensures Instances(rest + [x] + x.kids) == Instances(rest) + [x.obj] + KidObjs(x)
    ensures VisitList(rest + [x] + x.kids, visited + {x.obj.name}).0 == VisitList(rest + [x], visited).0
  {
    ExpandStep(rest, x, visited);
    KidsInTree(rest, x, n);
    InstancesOf(rest, x);
  }

  /** An instance whose name was seen leaves the stack. */
  lemma Finished(rest: seq<Node>, x: Node, visited: set<string>, done: seq<Node>, st0: State)
    requires x.obj.name in visited
    ensures done + VisitList(rest + [x], visited).0 == done + [x] + VisitList(rest, visited).0
    ensures |VisitList(rest, visited).0| < |VisitList(rest + [x], visited).0|
    ensures InjectAll(st0, done + [x]) == InjectCell(InjectAll(st0, done), x)
    ensures Instances(done + [x]) == Instances(done) + [x.obj]
  {
    SeenStep(rest, x, visited, done);
    DoneStep(st0, done, x);
  }

  lemma WillBecome(x: Node, n: Node, root: bool)
    requires Linked(x) && Objs(x) <= Objs(n) && x.obj in Objs(n) && x.obj.Editable()
    ensures InjectedCell(Now(Objs(n)), x, root) ==
            Now(Objs(n))[x.obj := RewrittenTo(Now(Objs(n))[x.obj], x.obj.ChildTypes(), root)]
  {
    KidTypesNow(x, n);
    RewrittenCell(Now(Objs(n)), x, root, x.obj.ChildTypes());
  }

  lemma PopNode(nodes: seq<Node>, n: Node)
    requires nodes != [] && InTree(nodes, n)
    ensures var x, rest := nodes[|nodes| - 1], nodes[..|nodes| - 1];
            && nodes == rest + [x] && InTree(rest, n)
            && x.obj in Objs(n) && Objs(x) <= Objs(n) && IsTree(x) && Linked(x)
            && Instances(nodes) == Instances(rest) + [x.obj]
  {
    var x := nodes[|nodes| - 1];
    assert x in nodes && x.obj in Objs(x);
  }

  lemma InstancesOf(rest: seq<Node>, x: Node)
    ensures Instances(rest + [x] + x.kids) == Instances(rest) + [x.obj] + KidObjs(x)
  {
  }

  lemma DoneStep(st0: State, done: seq<Node>, x: Node)
    ensures InjectAll(st0, done + [x]) == InjectCell(InjectAll(st0, done), x)
    ensures Instances(done + [x]) == Instances(done) + [x.obj]
  {
    assert (done + [x])[..|done|] == done;
  }

  lemma KidsInTree(rest: seq<Node>, x: Node, n: Node)
    requires InTree(rest + [x], n)
    ensures InTree(rest + [x] + x.kids, n)
  {
    assert x in rest + [x];
    forall y | y in x.kids ensures Objs(y) <= Objs(n) && IsTree(y) && Linked(y) {
      var i :| 0 <= i < |x.kids| && x.kids[i] == y;
      assert Objs(y) <= Objs(x);
    }
  }

  lemma SeenStep(rest: seq<Node>, x: Node, seen: set<string>, done: seq<Node>)
    requires x.obj.name in seen
    ensures done + VisitList(rest + [x], seen).0 == done + [x] + VisitList(rest, seen).0
    ensures |VisitList(rest, seen).0| < |VisitList(rest + [x], seen).0|
  {
    assert (rest + [x])[..|rest|] == rest;
    assert VisitList(rest + [x], seen).0 == [x] + VisitList(rest, seen).0;
  }
}
