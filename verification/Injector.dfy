/** The injector's objects: modules that are copied before they are edited, instances that
    keep their marked paths, and the stack walk over the instance tree. */
module Injector {
  import opened Netlist
  import opened Injection

  class Module {
    var typeName: TypeName
    var body: Body

    constructor (typeName: TypeName, body: Body)
      ensures this.typeName == typeName && this.body == body
    {
      this.typeName, this.body := typeName, body;
    }

    method Copy() returns (m: Module)
      ensures fresh(m) && m.typeName == typeName && m.body == body
    {
      m := new Module(typeName, body);
    }

    /** `inject_fault` for a single-bit wire or assignment. */
    method InjectFault(w: string, i: nat)
      requires Wire(w) in body.defs
      modifies this`body
      ensures body == old(body).(defs := Cut(old(body.defs), w, i))
    {
      var def := body.defs[Wire(w)];
      body := body.(defs := body.defs[Original(w) := Def(1, def.rhs)]);
      body := body.(defs := body.defs[FaultOut(i) := Def(1, Read(Original(w)))]);
      body := body.(defs := body.defs[Wire(w) := Def(def.width, Read(FaultIn(i)))]);
    }
  }

  /** What an instance holds at some moment. */
  datatype Cell = Cell(typeName: TypeName, body: Body, paths: seq<FaultPath>)

  type State = map<ModuleInstance, Cell>

  /** The shape of an instance tree, which no operation here changes. */
  datatype Node = Node(obj: ModuleInstance, kids: seq<Node>)

  ghost function Objs(n: Node): set<ModuleInstance> {
    {n.obj} + set i, o | 0 <= i < |n.kids| && o in Objs(n.kids[i]) :: o
  }

  /** A tree: no object occurs twice. */
  ghost predicate IsTree(n: Node) {
    && (forall i :: 0 <= i < |n.kids| ==> IsTree(n.kids[i]) && n.obj !in Objs(n.kids[i]))
    && (forall i, j :: 0 <= i < j < |n.kids| ==> Objs(n.kids[i]) !! Objs(n.kids[j]))
  }

  function KidObjs(n: Node): (s: seq<ModuleInstance>)
    ensures |s| == |n.kids|
  {
    seq(|n.kids|, i requires 0 <= i < |n.kids| => n.kids[i].obj)
  }

  /** The objects' children lists have that shape. */
  ghost predicate Linked(n: Node)
    reads Objs(n)`children
  {
    n.obj.children == KidObjs(n) && forall i :: 0 <= i < |n.kids| ==> Linked(n.kids[i])
  }

  function CellOf(st: State, o: ModuleInstance): Cell {
    if o in st then st[o] else Cell(Base(""), Body(Base(""), 0, map[], map[], []), [])
  }

  /** The instance tree as a value. */
  function Build(n: Node, st: State): Inst {
    var c := CellOf(st, n.obj);
    Inst(n.obj.name, c.typeName, c.body, c.paths, seq(|n.kids|, i requires 0 <= i < |n.kids| => Build(n.kids[i], st)))
  }

  lemma {:induction false} BuildDepends(n: Node, st1: State, st2: State)
    requires forall o :: o in Objs(n) ==> CellOf(st1, o) == CellOf(st2, o)
    ensures Build(n, st1) == Build(n, st2)
  {
    forall i | 0 <= i < |n.kids| ensures Build(n.kids[i], st1) == Build(n.kids[i], st2) {
      BuildDepends(n.kids[i], st1, st2);
    }
  }

  /** What the objects hold now. */
  ghost function Now(objs: set<ModuleInstance>): (st: State)
    reads objs, set o | o in objs :: o.mod
    ensures st.Keys == objs
  {
    map o | o in objs :: Cell(o.mod.typeName, o.mod.body, o.faultyChildPaths)
  }

  class ModuleInstance {
    var mod: Module
    const name: string
    var children: seq<ModuleInstance>
    var faultyChildPaths: seq<FaultPath>

    constructor (m: Module, name: string)
      ensures mod == m && this.name == name && children == [] && faultyChildPaths == []
    {
      mod, this.name, children, faultyChildPaths := m, name, [], [];
    }

    /** Record a fault path here and in the children it goes through. An error ends the
        program in the source. */
    method MarkFault(p: FaultPath, ghost n: Node) returns (r: Outcome)
      requires n.obj == this && IsTree(n) && Linked(n)
      modifies Objs(n)`faultyChildPaths
      ensures Linked(n)
      ensures Reports(r, Mark(old(Build(n, Now(Objs(n)))), p), Build(n, Now(Objs(n))))
      decreases n
    {
      ghost var st0 := Now(Objs(n));
      Record(p, n);
      if |p.names| > 1 {
        var k := FindChild(p.names[1]);
        FoundHere(n, st0, p.names[1], k);
        if k == |children| {
          MarkFails(n, st0, p);
          return ChildNotFound;
        }
        r := MarkInChild(p, k, n, st0);
      } else if |p.names| == 0 {
        MarkFails(n, st0, p);
        r := PathInvalid;
      } else {
        r := Marked;
        MarkedHere(n, st0, Now(Objs(n)), p);
      }
    }

    method Record(p: FaultPath, ghost n: Node)
      requires n.obj == this
      modifies `faultyChildPaths
      ensures faultyChildPaths == old(faultyChildPaths) + [p]
      ensures Now(Objs(n)) == old(Now(Objs(n))[this := Now(Objs(n))[this].(paths := faultyChildPaths + [p])])
    {
      faultyChildPaths := faultyChildPaths + [p];
    }

    /** Continue in the child that the path goes through. */
    method MarkInChild(p: FaultPath, k: nat, ghost n: Node, ghost st0: State) returns (r: Outcome)
      requires n.obj == this && IsTree(n) && Linked(n) && |p.names| > 1
      requires k < |n.kids| && ChildNamed(Build(n, st0).kids, p.names[1]) == k
      requires CellOf(Now(Objs(n)), this) == CellOf(st0, this).(paths := CellOf(st0, this).paths + [p])
      requires forall o :: o in Objs(n) && o != this ==> CellOf(Now(Objs(n)), o) == CellOf(st0, o)
      modifies Objs(n.kids[k])`faultyChildPaths
      ensures Linked(n)
      ensures Reports(r, Mark(Build(n, st0), p), Build(n, Now(Objs(n))))
      decreases n, 0
    {
      KidUntouched(n, k, st0, Now(Objs(n)));
      BuildKid(n, k);
      r := children[k].MarkFault(p.(names := p.names[1..]), n.kids[k]);
      BuildKid(n, k);
      ReportedByChild(n, st0, Now(Objs(n)), k, p, r);
    }

    method FindChild(name: string) returns (k: nat)
      ensures k <= |children| && (k < |children| ==> children[k].name == name)
      ensures forall j :: 0 <= j < k ==> children[j].name != name
    {
      k := 0;
      while k < |children| && children[k].name != name
        invariant k <= |children| && forall j :: 0 <= j < k ==> children[j].name != name
      {
        k := k + 1;
      }
    }

    ghost function ChildTypes(): (ts: seq<TypeName>)
      reads this, children, set c | c in children :: c.mod
      ensures |ts| == |children|
    {
      seq(|children|, i requires 0 <= i < |children| reads this, children, set c | c in children :: c.mod =>
        children[i].mod.typeName)
    }

    /** The declarations name the children, each once, and every path leads somewhere. */
    ghost predicate Editable()
      reads this, mod
    {
      this !in children && CanRewrite(mod.body, faultyChildPaths, children)
    }

    /** Rewrite the module for the faults marked here and below: on a copy, so that other
        instances of the same module are not affected. */
    method InjectFaults(root: bool)
      requires Editable()
      modifies this`mod
      ensures Editable()
      ensures faultyChildPaths == [] ==> mod == old(mod)
      ensures faultyChildPaths != [] ==>
                && fresh(mod)
                && mod.body == Injected(old(mod.body), old(mod.typeName), faultyChildPaths, old(ChildTypes()), root)
                && mod.typeName == NewType(old(mod.body), old(mod.typeName), faultyChildPaths, old(ChildTypes()))
      ensures root ==> mod.body.header == old(mod.body.header)
      ensures !root && faultyChildPaths != [] ==> mod.body.header == mod.typeName
    {
      if |faultyChildPaths| == 0 {
        return;
      }
      ghost var body, types := mod.body, ChildTypes();
      mod := mod.Copy();
      var childFaults, order := CutWires();
      forall c | c in order ensures exists i :: 0 <= i < |children| && children[i].name == c {
        var bits := Indices(faultyChildPaths, c);
        assert GoesThrough(faultyChildPaths[bits[0]], c) && ToOneOf(faultyChildPaths[bits[0]], children);
      }
      Redeclared(body, childFaults, order, types);
      var text := mod.body;
      mod.body := text.(faultWidth := |faultyChildPaths|,
                        header := if root then text.header else Hashed(mod.typeName, text));
      mod.typeName := Hashed(mod.typeName, text);
      InjectedEditable(body, old(mod.typeName), faultyChildPaths, types, root);
    }

    /** Give each child on a fault path its fault ports and its present type. */
    method Redeclared(ghost body: Body, childFaults: map<string, seq<nat>>, order: seq<string>,
                      ghost types: seq<TypeName>)
      requires this !in children && mod !in (set c | c in children :: c.mod)
      requires |children| == |body.decls| == |types|
      requires LocalsExist(body.defs, faultyChildPaths) &&
               mod.body == body.(defs := CutAll(body.defs, faultyChildPaths))
      requires forall i :: 0 <= i < |children| ==>
               children[i].name == body.decls[i].name && children[i].mod.typeName == types[i]
      requires forall i, j :: 0 <= i < j < |children| ==> children[i].name != children[j].name
      requires forall c :: c in childFaults <==> Indices(faultyChildPaths, c) != []
      requires forall c :: c in childFaults ==> childFaults[c] == Indices(faultyChildPaths, c)
      requires forall c :: c in childFaults <==> c in order
      requires forall c :: c in order ==> exists i :: 0 <= i < |children| && children[i].name == c
      modifies mod`body
      ensures mod.body == Rewired(body, faultyChildPaths, types)
    {
      var k := 0;
      while k < |order|
        invariant k <= |order| && |mod.body.decls| == |body.decls|
        invariant mod.body == body.(defs := CutAll(body.defs, faultyChildPaths), decls := mod.body.decls)
        invariant Partly(body.decls, mod.body.decls, faultyChildPaths, types, order[..k])
      {
        var childName := order[k];
        assert childName in order;
        var j := FindChild(childName);
        ghost var decls := mod.body.decls;
        RedeclareOne(j, childFaults[childName]);
        assert Partly(body.decls, mod.body.decls, faultyChildPaths, types, order[..k + 1]) by {
          PrefixSnoc(order, k);
          PartlyStep(body.decls, decls, faultyChildPaths, types, order[..k], j);
        }
        k := k + 1;
      }
      assert order[..k] == order;
      AllDeclared(body, mod.body.decls, faultyChildPaths, types, order);
    }

    /** Give one child its fault ports and its present type. */
    method RedeclareOne(j: nat, bits: seq<nat>)
      requires j < |children| == |mod.body.decls|
      modifies mod`body
      ensures mod.body == old(mod.body).(decls := old(mod.body.decls)[j :=
                old(mod.body.decls)[j].(typeName := children[j].mod.typeName, fault := Connection(bits))])
    {
      var port := Whole;
      if |bits| > 1 {
        port := Pick(bits);
      }
      var decls := mod.body.decls;
      mod.body := mod.body.(decls := decls[j := decls[j].(typeName := children[j].mod.typeName, fault := port)]);
    }

    /** Cut the wires marked here and sort the other paths by child. */
    method CutWires() returns (childFaults: map<string, seq<nat>>, order: seq<string>)
      requires LocalsExist(mod.body.defs, faultyChildPaths)
      requires forall i :: 0 <= i < |faultyChildPaths| ==> |faultyChildPaths[i].names| >= 1
      modifies mod
      ensures mod.body == old(mod.body).(defs := CutAll(old(mod.body.defs), faultyChildPaths))
      ensures mod.typeName == old(mod.typeName)
      ensures forall c :: c in childFaults <==> Indices(faultyChildPaths, c) != []
      ensures forall c :: c in childFaults ==> childFaults[c] == Indices(faultyChildPaths, c)
      ensures forall c :: c in childFaults <==> c in order
    {
      childFaults, order := map[], [];
      var k := 0;
      ghost var body := mod.body;
      while k < |faultyChildPaths|
        invariant k <= |faultyChildPaths|
        invariant LocalsExist(body.defs, faultyChildPaths[..k])
        invariant mod.body == body.(defs := CutAll(body.defs, faultyChildPaths[..k])) &&
                  mod.typeName == old(mod.typeName)
        invariant forall c :: c in childFaults <==> Indices(faultyChildPaths[..k], c) != []
        invariant forall c :: c in childFaults ==> childFaults[c] == Indices(faultyChildPaths[..k], c)
        invariant forall c :: c in childFaults <==> c in order
      {
        var path := faultyChildPaths[k];
        assert faultyChildPaths[..k + 1] == faultyChildPaths[..k] + [path];
        CutAllSnoc(body.defs, faultyChildPaths, k);
        forall c ensures Indices(faultyChildPaths[..k + 1], c) ==
                         Indices(faultyChildPaths[..k], c) + if GoesThrough(path, c) then [k] else []
        {
          IndicesSnoc(faultyChildPaths[..k], path, c);
        }
        if |path.names| == 1 {
          mod.InjectFault(path.wire, k);
        } else {
          var childName := path.names[1];
          if childName !in childFaults {
            childFaults := childFaults[childName := []];
            order := order + [childName];
          }
          childFaults := childFaults[childName := childFaults[childName] + [k]];
        }
        k := k + 1;
      }
      assert faultyChildPaths[..k] == faultyChildPaths;
    }
  }

  lemma InjectedEditable(body: Body, typeName: TypeName, paths: seq<FaultPath>, types: seq<TypeName>, root: bool)
    requires LocalsExist(body.defs, paths) && |types| == |body.decls|
    ensures var r := Injected(body, typeName, paths, types, root);
            && LocalsExist(r.defs, paths) && |r.decls| == |body.decls|
            && forall i :: 0 <= i < |r.decls| ==> r.decls[i].name == body.decls[i].name
  {
  }

  ghost predicate CanRewrite(body: Body, paths: seq<FaultPath>, children: seq<ModuleInstance>) {
    && LocalsExist(body.defs, paths)
    && |children| == |body.decls|
    && (forall i :: 0 <= i < |children| ==> children[i].name == body.decls[i].name)
    && (forall i, j :: 0 <= i < j < |children| ==> children[i].name != children[j].name)
    && (forall i :: 0 <= i < |paths| ==> Local(paths[i]) || ToOneOf(paths[i], children))
  }

  predicate ToOneOf(p: FaultPath, children: seq<ModuleInstance>) {
    exists k :: 0 <= k < |children| && GoesThrough(p, children[k].name)
  }

  /** The declarations named so far have been redeclared. */
  ghost predicate Partly(decls0: seq<Decl>, decls: seq<Decl>, paths: seq<FaultPath>, types: seq<TypeName>,
                         done: seq<string>)
  {
    |decls| == |decls0| == |types| &&
    forall j :: 0 <= j < |decls0| ==>
      decls[j] == if decls0[j].name in done then Redeclare(decls0[j], Indices(paths, decls0[j].name), types[j])
        else decls0[j]
  }

  lemma PartlyStep(decls0: seq<Decl>, decls: seq<Decl>, paths: seq<FaultPath>, types: seq<TypeName>, done: seq<string>,
                   j: nat)
    requires Partly(decls0, decls, paths, types, done) && j < |decls0|
    requires forall i, l :: 0 <= i < l < |decls0| ==> decls0[i].name != decls0[l].name
    requires Indices(paths, decls0[j].name) != []
    ensures var d := decls[j].(typeName := types[j], fault := Connection(Indices(paths, decls0[j].name)));
            Partly(decls0, decls[j := d], paths, types, done + [decls0[j].name])
  {
  }

  lemma PrefixSnoc(s: seq<string>, k: nat)
    requires k < |s|
    ensures s[..k + 1] == s[..k] + [s[k]]
  {
  }

  lemma AllDeclared(body: Body, decls: seq<Decl>, paths: seq<FaultPath>, types: seq<TypeName>, done: seq<string>)
    requires Partly(body.decls, decls, paths, types, done) && LocalsExist(body.defs, paths)
    requires forall c :: c in done <==> Indices(paths, c) != []
    ensures decls == Rewired(body, paths, types).decls
  {
  }

  lemma CutAllSnoc(defs: map<Net, Def>, paths: seq<FaultPath>, k: nat)
    requires LocalsExist(defs, paths) && k < |paths|
    ensures LocalsExist(defs, paths[..k]) && LocalsExist(defs, paths[..k + 1])
    ensures CutAll(defs, paths[..k + 1]) ==
            if Local(paths[k]) then Cut(CutAll(defs, paths[..k]), paths[k].wire, k) else CutAll(defs, paths[..k])
  {
    assert paths[..k + 1][..k] == paths[..k];
  }

  /** The outcome of marking and, when it succeeds, the tree it leaves. */
  ghost predicate Reports(r: Outcome, m: MarkResult, now: Inst) {
    match m
    case Done(inst) => r == Marked && now == inst
    case NoSuchChild => r == ChildNotFound
    case InvalidPath => r == PathInvalid
  }

  lemma MarkFails(n: Node, st: State, p: FaultPath)
    ensures |p.names| == 0 ==> Mark(Build(n, st), p) == InvalidPath
    ensures |p.names| > 1 && ChildNamed(Build(n, st).kids, p.names[1]) == |n.kids| ==>
              Mark(Build(n, st), p) == NoSuchChild
  {
  }

  lemma KidUntouched(n: Node, k: nat, st0: State, st1: State)
    requires IsTree(n) && k < |n.kids|
    requires forall o :: o in Objs(n) && o != n.obj ==> CellOf(st1, o) == CellOf(st0, o)
    ensures Build(n.kids[k], st1) == Build(n.kids[k], st0)
  {
    BuildDepends(n.kids[k], st0, st1);
  }

  lemma ReportedByChild(n: Node, st0: State, st2: State, k: nat, p: FaultPath, r: Outcome)
    requires IsTree(n) && k < |n.kids| && |p.names| > 1 && ChildNamed(Build(n, st0).kids, p.names[1]) == k
    requires CellOf(st2, n.obj) == CellOf(st0, n.obj).(paths := CellOf(st0, n.obj).paths + [p])
    requires forall o :: o in Objs(n) && o != n.obj && o !in Objs(n.kids[k]) ==> CellOf(st2, o) == CellOf(st0, o)
    requires Reports(r, Mark(Build(n.kids[k], st0), Tail(p)), Build(n.kids[k], st2))
    ensures Reports(r, Mark(Build(n, st0), p), Build(n, st2))
  {
    assert Build(n, st0).kids[k] == Build(n.kids[k], st0);
    if r == Marked {
      MarkedThroughChild(n, st0, st2, k, p);
    }
  }

  /** Marking in child k and recording the path here marks the whole tree. */
  lemma MarkedThroughChild(n: Node, st0: State, st2: State, k: nat, p: FaultPath)
    requires IsTree(n) && k < |n.kids| && |p.names| > 1 && ChildNamed(Build(n, st0).kids, p.names[1]) == k
    requires CellOf(st2, n.obj) == CellOf(st0, n.obj).(paths := CellOf(st0, n.obj).paths + [p])
    requires forall o :: o in Objs(n) && o != n.obj && o !in Objs(n.kids[k]) ==> CellOf(st2, o) == CellOf(st0, o)
    requires Mark(Build(n.kids[k], st0), Tail(p)) == Done(Build(n.kids[k], st2))
    ensures Mark(Build(n, st0), p) == Done(Build(n, st2))
  {
    OtherKidsKept(n, st0, st2, k);
    var a, b := Build(n, st0), Build(n, st2);
    assert b.kids == a.kids[k := Build(n.kids[k], st2)];
  }

  lemma OtherKidsKept(n: Node, st0: State, st2: State, k: nat)
    requires IsTree(n) && k < |n.kids|
    requires forall o :: o in Objs(n) && o != n.obj && o !in Objs(n.kids[k]) ==> CellOf(st2, o) == CellOf(st0, o)
    ensures forall i :: 0 <= i < |n.kids| && i != k ==> Build(n.kids[i], st2) == Build(n.kids[i], st0)
  {
    forall i | 0 <= i < |n.kids| && i != k ensures Build(n.kids[i], st2) == Build(n.kids[i], st0) {
      assert Objs(n.kids[i]) !! Objs(n.kids[k]);
      BuildDepends(n.kids[i], st0, st2);
    }
  }

  lemma {:induction false} FirstChild(kids: seq<Inst>, name: string, k: nat)
    requires k <= |kids| && (k < |kids| ==> kids[k].name == name)
    requires forall j :: 0 <= j < k ==> kids[j].name != name
    ensures ChildNamed(kids, name) == k
  {
    if k > 0 {
      FirstChild(kids[1..], name, k - 1);
    }
  }

  lemma FoundChild(n: Node, st: State, name: string, k: nat)
    requires k <= |n.kids| && (k < |n.kids| ==> n.kids[k].obj.name == name)
    requires forall j :: 0 <= j < k ==> n.kids[j].obj.name != name
    ensures |Build(n, st).kids| == |n.kids| && ChildNamed(Build(n, st).kids, name) == k
  {
    var kids := Build(n, st).kids;
    assert forall j :: 0 <= j < |n.kids| ==> kids[j] == Build(n.kids[j], st);
    FirstChild(kids, name, k);
  }

  lemma FoundHere(n: Node, st: State, name: string, k: nat)
    requires Linked(n) && k <= |n.obj.children| && (k < |n.obj.children| ==> n.obj.children[k].name == name)
    requires forall j :: 0 <= j < k ==> n.obj.children[j].name != name
    ensures |n.obj.children| == |n.kids| == |Build(n, st).kids| && ChildNamed(Build(n, st).kids, name) == k
  {
    assert forall j :: 0 <= j < |n.kids| ==> n.kids[j].obj == n.obj.children[j];
    FoundChild(n, st, name, k);
  }

  /** Recording a path that ends here marks the tree. */
  lemma MarkedHere(n: Node, st0: State, st1: State, p: FaultPath)
    requires IsTree(n) && Local(p)
    requires CellOf(st1, n.obj) == CellOf(st0, n.obj).(paths := CellOf(st0, n.obj).paths + [p])
    requires forall o :: o in Objs(n) && o != n.obj ==> CellOf(st1, o) == CellOf(st0, o)
    ensures Mark(Build(n, st0), p) == Done(Build(n, st1))
  {
    forall i | 0 <= i < |n.kids| ensures Build(n.kids[i], st1) == Build(n.kids[i], st0) {
      BuildDepends(n.kids[i], st0, st1);
    }
    assert Build(n, st1).kids == Build(n, st0).kids;
  }

  /** A child is built alike from the whole tree's cells and from its own. */
  lemma BuildKid(n: Node, i: nat)
    requires i < |n.kids|
    ensures Build(n.kids[i], Now(Objs(n))) == Build(n.kids[i], Now(Objs(n.kids[i])))
  {
    BuildDepends(n.kids[i], Now(Objs(n)), Now(Objs(n.kids[i])));
  }

  datatype Outcome = Marked | ChildNotFound | PathInvalid
}
