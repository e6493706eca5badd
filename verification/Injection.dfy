/** Marking faults in an instance tree and rewriting the modules they lie in. */
module Injection {
  import opened Netlist

  // ---------- marked paths ----------

  /** The path of a fault that lies in the instance itself. */
  predicate Local(p: FaultPath) {
    |p.names| == 1
  }

  predicate GoesThrough(p: FaultPath, child: string) {
    |p.names| > 1 && p.names[1] == child
  }

  function Tail(p: FaultPath): FaultPath
    requires |p.names| > 1
  {
    p.(names := p.names[1..])
  }

  /** The positions of the paths that go through a child, in order. */
  function Indices(paths: seq<FaultPath>, child: string): (bits: seq<nat>)
    ensures forall k :: 0 <= k < |bits| ==> bits[k] < |paths| && GoesThrough(paths[bits[k]], child)
    ensures forall k, l :: 0 <= k < l < |bits| ==> bits[k] < bits[l]
  {
    if paths == [] then []
    else
      var n := |paths| - 1;
      Indices(paths[..n], child) + if GoesThrough(paths[n], child) then [n] else []
  }

  lemma {:induction false} IndicesComplete(paths: seq<FaultPath>, child: string, i: nat)
    requires i < |paths| && GoesThrough(paths[i], child)
    ensures i in Indices(paths, child)
    decreases |paths|
  {
    var n := |paths| - 1;
    if i < n {
      IndicesComplete(paths[..n], child, i);
    }
  }

  /** The paths that go through a child, as the child sees them. */
  function Through(paths: seq<FaultPath>, child: string): (tails: seq<FaultPath>)
    ensures |tails| == |Indices(paths, child)|
  {
    var bits := Indices(paths, child);
    seq(|bits|, k requires 0 <= k < |bits| => Tail(paths[bits[k]]))
  }

  lemma ThroughSnoc(paths: seq<FaultPath>, p: FaultPath, child: string)
    ensures Through(paths + [p], child) ==
            Through(paths, child) + if GoesThrough(p, child) then [Tail(p)] else []
  {
    assert (paths + [p])[..|paths|] == paths;
    var bits, more := Indices(paths, child), Indices(paths + [p], child);
    assert forall k :: 0 <= k < |bits| ==> more[k] == bits[k];
  }

  /** The position of the child with a given name. */
  function ChildNamed(kids: seq<Inst>, name: string): (i: nat)
    ensures i <= |kids| && (i < |kids| ==> kids[i].name == name)
    ensures forall j :: 0 <= j < i ==> kids[j].name != name
  {
    if kids == [] || kids[0].name == name then 0 else 1 + ChildNamed(kids[1..], name)
  }

  datatype MarkResult = Done(inst: Inst) | NoSuchChild | InvalidPath

  /** `mark_fault`: record the path here and, shortened, in the child it goes through. The
      first name of a path stands for the instance itself and is not compared. */
  function Mark(d: Inst, p: FaultPath): MarkResult
    decreases d
  {
    if |p.names| == 0 then InvalidPath
    else if Local(p) then Done(d.(paths := d.paths + [p]))
    else
      var i := ChildNamed(d.kids, p.names[1]);
      if i == |d.kids| then NoSuchChild
      else
        match Mark(d.kids[i], Tail(p))
        case Done(kid) => Done(d.(paths := d.paths + [p], kids := d.kids[i := kid]))
        case error => error
  }

  /** The names after the first lead, child by child, to an instance of the tree. */
  ghost predicate Reaches(d: Inst, names: seq<string>)
    decreases d
  {
    |names| == 1 ||
    (|names| > 1 && exists k :: 0 <= k < |d.kids| && FirstNamed(d.kids, k, names[1]) && Reaches(d.kids[k], names[1..]))
  }

  predicate FirstNamed(kids: seq<Inst>, k: nat, name: string) {
    k < |kids| && kids[k].name == name && forall j :: 0 <= j < k ==> kids[j].name != name
  }

  /** Marking succeeds exactly for the paths that lead to an instance; of the others, the empty one is
      invalid and the rest name a child that is not there. */
  lemma {:induction false} MarkSucceedsIff(d: Inst, p: FaultPath)
    ensures Mark(d, p).Done? <==> Reaches(d, p.names)
    ensures Mark(d, p).InvalidPath? <==> p.names == []
    decreases d
  {
    if |p.names| > 1 {
      var i := ChildNamed(d.kids, p.names[1]);
      if i < |d.kids| {
        MarkSucceedsIff(d.kids[i], Tail(p));
        assert forall k :: 0 <= k < |d.kids| && FirstNamed(d.kids, k, p.names[1]) ==> k == i;
      } else {
        assert forall k :: 0 <= k < |d.kids| ==> !FirstNamed(d.kids, k, p.names[1]);
      }
    }
  }

  predicate ToChild(p: FaultPath, kids: seq<Inst>) {
    exists k :: 0 <= k < |kids| && GoesThrough(p, kids[k].name)
  }

  /** Every path ends here or goes through a child. */
  predicate Leads(paths: seq<FaultPath>, kids: seq<Inst>) {
    forall i :: 0 <= i < |paths| ==> Local(paths[i]) || ToChild(paths[i], kids)
  }

  /** Each child's list is, in order, the tails of exactly those paths that go through it. */
  ghost predicate Distributed(d: Inst) {
    && Leads(d.paths, d.kids)
    && (forall k :: 0 <= k < |d.kids| ==> d.kids[k].paths == Through(d.paths, d.kids[k].name))
    && forall k :: 0 <= k < |d.kids| ==> Distributed(d.kids[k])
  }

  ghost predicate DistinctSiblings(d: Inst) {
    && (forall i, j :: 0 <= i < j < |d.kids| ==> d.kids[i].name != d.kids[j].name)
    && forall i :: 0 <= i < |d.kids| ==> DistinctSiblings(d.kids[i])
  }

  /** A fresh tree, with nothing marked, is distributed. */
  ghost predicate Unmarked(d: Inst) {
    d.paths == [] && forall k :: 0 <= k < |d.kids| ==> Unmarked(d.kids[k])
  }

  lemma {:induction false} UnmarkedDistributed(d: Inst)
    requires Unmarked(d)
    ensures Distributed(d)
  {
    forall k | 0 <= k < |d.kids| ensures d.kids[k].paths == Through(d.paths, d.kids[k].name) && Distributed(d.kids[k]) {
      UnmarkedDistributed(d.kids[k]);
    }
  }

  predicate SameNames(a: seq<Inst>, b: seq<Inst>) {
    |a| == |b| && forall k :: 0 <= k < |a| ==> a[k].name == b[k].name
  }

  lemma LeadsSnoc(paths: seq<FaultPath>, p: FaultPath, kids: seq<Inst>, kids': seq<Inst>)
    requires Leads(paths, kids) && SameNames(kids, kids') && (Local(p) || ToChild(p, kids))
    ensures Leads(paths + [p], kids')
  {
    forall i | 0 <= i < |paths| + 1 ensures Local((paths + [p])[i]) || ToChild((paths + [p])[i], kids') {
      var q := if i < |paths| then paths[i] else p;
      if !Local(q) {
        var k :| 0 <= k < |kids| && GoesThrough(q, kids[k].name);
        assert GoesThrough(q, kids'[k].name);
      }
    }
  }

  /** Marking keeps the distribution, over any sequence of successful marks. */
  lemma {:induction false} MarkKeepsDistributed(d: Inst, p: FaultPath)
    requires Distributed(d) && DistinctSiblings(d) && Mark(d, p).Done?
    ensures var r := Mark(d, p).inst;
            && Distributed(r) && DistinctSiblings(r)
            && r.name == d.name && r.paths == d.paths + [p] && SameNames(d.kids, r.kids)
    decreases d
  {
    var r := Mark(d, p).inst;
    if !Local(p) {
      var c := ChildNamed(d.kids, p.names[1]);
      MarkKeepsDistributed(d.kids[c], Tail(p));
      assert GoesThrough(p, d.kids[c].name);
    }
    LeadsSnoc(d.paths, p, d.kids, r.kids);
    forall k | 0 <= k < |d.kids|
      ensures r.kids[k].paths == Through(r.paths, r.kids[k].name) && Distributed(r.kids[k])
    {
      ThroughSnoc(d.paths, p, d.kids[k].name);
    }
  }

  /** Mark a list of faults, as long as every mark succeeds. */
  function MarkAll(d: Inst, ps: seq<FaultPath>): MarkResult {
    if ps == [] then Done(d)
    else
      match MarkAll(d, ps[..|ps| - 1])
      case Done(r) => Mark(r, ps[|ps| - 1])
      case error => error
  }

  lemma {:induction false} MarksAreDistributed(d: Inst, ps: seq<FaultPath>)
    requires Unmarked(d) && DistinctSiblings(d) && MarkAll(d, ps).Done?
    ensures Distributed(MarkAll(d, ps).inst) && DistinctSiblings(MarkAll(d, ps).inst)
    ensures MarkAll(d, ps).inst.paths == ps
  {
    if ps == [] {
      UnmarkedDistributed(d);
    } else {
      var front, last := ps[..|ps| - 1], ps[|ps| - 1];
      assert ps == front + [last];
      MarksAreDistributed(d, front);
      MarkedAfter(d, front, last);
    }
  }

  lemma MarkedAfter(d: Inst, front: seq<FaultPath>, last: FaultPath)
    requires MarkAll(d, front).Done? && Mark(MarkAll(d, front).inst, last).Done?
    requires Distributed(MarkAll(d, front).inst) && DistinctSiblings(MarkAll(d, front).inst)
    requires MarkAll(d, front).inst.paths == front
    ensures MarkAll(d, front + [last]) == Mark(MarkAll(d, front).inst, last)
    ensures var r := Mark(MarkAll(d, front).inst, last).inst;
            Distributed(r) && DistinctSiblings(r) && r.paths == front + [last]
  {
    assert (front + [last])[..|front|] == front;
    MarkKeepsDistributed(MarkAll(d, front).inst, last);
  }

  // ---------- how many faults ----------

  function Locals(paths: seq<FaultPath>): nat {
    if paths == [] then 0 else Locals(paths[..|paths| - 1]) + if Local(paths[|paths| - 1]) then 1 else 0
  }

  function KidCount(kids: seq<Inst>): nat {
    if kids == [] then 0 else KidCount(kids[..|kids| - 1]) + |kids[|kids| - 1].paths|
  }

  function ThroughCount(paths: seq<FaultPath>, kids: seq<Inst>): nat {
    if kids == [] then 0
    else ThroughCount(paths, kids[..|kids| - 1]) + |Indices(paths, kids[|kids| - 1].name)|
  }

  lemma {:induction false} ThroughCountSnoc(paths: seq<FaultPath>, p: FaultPath, kids: seq<Inst>)
    requires forall i, j :: 0 <= i < j < |kids| ==> kids[i].name != kids[j].name
    ensures ThroughCount(paths + [p], kids) == ThroughCount(paths, kids) + if ToChild(p, kids) then 1 else 0
  {
    if kids != [] {
      var n := |kids| - 1;
      ThroughCountSnoc(paths, p, kids[..n]);
      ToChildSnoc(p, kids);
      IndicesSnoc(paths, p, kids[n].name);
    }
  }

  lemma IndicesSnoc(paths: seq<FaultPath>, p: FaultPath, child: string)
    ensures Indices(paths + [p], child) == Indices(paths, child) + if GoesThrough(p, child) then [|paths|] else []
  {
    assert (paths + [p])[..|paths|] == paths;
  }

  lemma ToChildSnoc(p: FaultPath, kids: seq<Inst>)
    requires kids != [] && forall i, j :: 0 <= i < j < |kids| ==> kids[i].name != kids[j].name
    ensures var n := |kids| - 1;
            && (ToChild(p, kids) <==> ToChild(p, kids[..n]) || GoesThrough(p, kids[n].name))
            && !(ToChild(p, kids[..n]) && GoesThrough(p, kids[n].name))
  {
    var n := |kids| - 1;
    if k :| 0 <= k < |kids| && GoesThrough(p, kids[k].name) {
      assert k < n ==> GoesThrough(p, kids[..n][k].name);
    }
    if k :| 0 <= k < n && GoesThrough(p, kids[..n][k].name) {
      assert GoesThrough(p, kids[k].name);
    }
  }

  lemma LeadsFront(paths: seq<FaultPath>, kids: seq<Inst>)
    requires Leads(paths, kids) && paths != []
    ensures Leads(paths[..|paths| - 1], kids)
  {
    var front := paths[..|paths| - 1];
    forall i | 0 <= i < |front| ensures Local(front[i]) || ToChild(front[i], kids) {
      assert front[i] == paths[i];
    }
  }

  lemma LastSplit(paths: seq<FaultPath>, kids: seq<Inst>)
    requires forall i, j :: 0 <= i < j < |kids| ==> kids[i].name != kids[j].name
    requires paths != [] && Leads(paths, kids)
    ensures var n := |paths| - 1;
            Locals(paths) + ThroughCount(paths, kids) == Locals(paths[..n]) + ThroughCount(paths[..n], kids) + 1
  {
    var front, last := paths[..|paths| - 1], paths[|paths| - 1];
    assert paths == front + [last];
    assert Local(last) <==> !ToChild(last, kids);
    ThroughCountSnoc(front, last, kids);
  }

  lemma {:induction false} PathsSplit(paths: seq<FaultPath>, kids: seq<Inst>)
    requires forall i, j :: 0 <= i < j < |kids| ==> kids[i].name != kids[j].name
    requires Leads(paths, kids)
    ensures |paths| == Locals(paths) + ThroughCount(paths, kids)
    decreases |paths|
  {
    if paths == [] {
      NothingThrough(kids);
    } else {
      LeadsFront(paths, kids);
      PathsSplit(paths[..|paths| - 1], kids);
      LastSplit(paths, kids);
    }
  }

  lemma {:induction false} NothingThrough(kids: seq<Inst>)
    ensures ThroughCount([], kids) == 0
  {
    if kids != [] {
      NothingThrough(kids[..|kids| - 1]);
    }
  }

  lemma {:induction false} KidCountIsThrough(paths: seq<FaultPath>, kids: seq<Inst>)
    requires forall k :: 0 <= k < |kids| ==> kids[k].paths == Through(paths, kids[k].name)
    ensures KidCount(kids) == ThroughCount(paths, kids)
  {
    if kids != [] {
      KidCountIsThrough(paths, kids[..|kids| - 1]);
    }
  }

  /** An instance's faults are its own plus those of its children. */
  lemma FaultCount(d: Inst)
    requires Distributed(d) && DistinctSiblings(d)
    ensures |d.paths| == Locals(d.paths) + KidCount(d.kids)
  {
    PathsSplit(d.paths, d.kids);
    KidCountIsThrough(d.paths, d.kids);
  }

  // ---------- rewriting one module ----------

  /** Cut one wire: it now takes fault bit i, and its former driver feeds the placeholder,
      which is shown on bit i of the outputs. */
  function Cut(defs: map<Net, Def>, w: string, i: nat): map<Net, Def>
    requires Wire(w) in defs
  {
    defs[Original(w) := Def(1, defs[Wire(w)].rhs)]
        [FaultOut(i) := Def(1, Read(Original(w)))]
        [Wire(w) := Def(defs[Wire(w)].width, Read(FaultIn(i)))]
  }

  /** Every marked wire of the module exists. */
  predicate LocalsExist(defs: map<Net, Def>, paths: seq<FaultPath>) {
    forall i :: 0 <= i < |paths| && Local(paths[i]) ==> Wire(paths[i].wire) in defs
  }

  /** The definitions after the wires marked by the paths are cut, in order. */
  function CutAll(defs: map<Net, Def>, paths: seq<FaultPath>): (r: map<Net, Def>)
    requires LocalsExist(defs, paths)
    ensures forall n :: n in defs ==> n in r
  {
    if paths == [] then defs
    else
      var n := |paths| - 1;
      assert forall i :: 0 <= i < n ==> paths[..n][i] == paths[i];
      var r := CutAll(defs, paths[..n]);
      if Local(paths[n]) then Cut(r, paths[n].wire, n) else r
  }

  /** The connection written for a child on the given fault bits. */
  function Connection(bits: seq<nat>): FaultPort {
    if |bits| > 1 then Pick(bits) else Whole
  }

  /** Children on a fault path get fault ports and the name of their present module. */
  function Redeclare(decl: Decl, bits: seq<nat>, kidType: TypeName): Decl {
    if bits == [] then decl else decl.(typeName := kidType, fault := Connection(bits))
  }

  /** The module text before its header is touched. */
  function Rewired(body: Body, paths: seq<FaultPath>, kidTypes: seq<TypeName>): (r: Body)
    requires LocalsExist(body.defs, paths) && |kidTypes| == |body.decls|
    ensures |r.decls| == |body.decls|
  {
    body.(defs := CutAll(body.defs, paths),
          decls := seq(|body.decls|, i requires 0 <= i < |body.decls| =>
            Redeclare(body.decls[i], Indices(paths, body.decls[i].name), kidTypes[i])))
  }

  /** The root keeps the name in its header and declares the vectors as wires; any other
      module is renamed and gets them as ports. */
  function Injected(body: Body, typeName: TypeName, paths: seq<FaultPath>, kidTypes: seq<TypeName>, root: bool): Body
    requires LocalsExist(body.defs, paths) && |kidTypes| == |body.decls|
  {
    var r := Rewired(body, paths, kidTypes);
    r.(faultWidth := |paths|, header := if root then r.header else Hashed(typeName, r))
  }

  function NewType(body: Body, typeName: TypeName, paths: seq<FaultPath>, kidTypes: seq<TypeName>): TypeName
    requires LocalsExist(body.defs, paths) && |kidTypes| == |body.decls|
  {
    Hashed(typeName, Rewired(body, paths, kidTypes))
  }

  function KidTypes(kids: seq<Inst>): (ts: seq<TypeName>)
    ensures |ts| == |kids|
  {
    seq(|kids|, i requires 0 <= i < |kids| => kids[i].typeName)
  }

  /** `ModuleInstance.inject_faults`: an instance without marked faults is left alone. */
  function InjectHere(d: Inst, root: bool): Inst
    requires LocalsExist(d.body.defs, d.paths) && |d.kids| == |d.body.decls|
  {
    if d.paths == [] then d
    else
      d.(body := Injected(d.body, d.typeName, d.paths, KidTypes(d.kids), root),
         typeName := NewType(d.body, d.typeName, d.paths, KidTypes(d.kids)))
  }

  /** Everywhere, marked wires exist and there is one declaration per child. */
  ghost predicate Injectable(d: Inst) {
    && LocalsExist(d.body.defs, d.paths)
    && |d.kids| == |d.body.decls|
    && (forall i :: 0 <= i < |d.kids| ==> d.body.decls[i].name == d.kids[i].name)
    && forall i :: 0 <= i < |d.kids| ==> Injectable(d.kids[i])
  }

  /** The whole tree, children before their parents. */
  function InjectTree(d: Inst, root: bool): (r: Inst)
    requires Injectable(d)
    ensures r.name == d.name && r.paths == d.paths && |r.kids| == |d.kids|
    decreases d
  {
    InjectHere(d.(kids := seq(|d.kids|, i requires 0 <= i < |d.kids| => InjectTree(d.kids[i], false))), root)
  }

  lemma {:induction false} HashDiffers(t: TypeName, text: Body)
    ensures Hashed(t, text) != t
    decreases t
  {
    if t.Hashed? {
      HashDiffers(t.base, t.text);
    }
  }

  /** The root keeps the name in its header, so that whatever instantiates it still finds it; any
      other rewritten module bears its new type name, which is not its old one. */
  lemma InjectedHeader(d: Inst, root: bool)
    requires Injectable(d)
    ensures var r := InjectTree(d, root);
            && (root || d.paths == [] ==> r.body.header == d.body.header)
            && (!root && d.paths != [] ==> r.body.header == r.typeName)
            && (d.paths == [] <==> r.typeName == d.typeName)
  {
    var kids := seq(|d.kids|, i requires 0 <= i < |d.kids| => InjectTree(d.kids[i], false));
    if d.paths != [] {
      HashDiffers(d.typeName, Rewired(d.body, d.paths, KidTypes(kids)));
    }
  }

  /** After injection every declaration of a child on a fault path, and every other one that
      was right before, names the child's final module, whose header bears that name. */
  ghost predicate TypesMatch(d: Inst) {
    && (forall i :: 0 <= i < |d.kids| && i < |d.body.decls| ==>
          d.body.decls[i].typeName == d.kids[i].typeName == d.kids[i].body.header)
    && forall i :: 0 <= i < |d.kids| ==> TypesMatch(d.kids[i])
  }

  lemma {:induction false} InjectionKeepsTypes(d: Inst, root: bool)
    requires Injectable(d) && Distributed(d) && TypesMatch(d)
    ensures TypesMatch(InjectTree(d, root))
    decreases d
  {
    var r := InjectTree(d, root);
    forall i | 0 <= i < |d.kids|
      ensures r.kids[i] == InjectTree(d.kids[i], false) && TypesMatch(r.kids[i])
      ensures r.body.decls[i].typeName == r.kids[i].typeName == r.kids[i].body.header
    {
      InjectionKeepsTypes(d.kids[i], false);
      assert |Indices(d.paths, d.kids[i].name)| == |d.kids[i].paths|;
    }
  }
}
