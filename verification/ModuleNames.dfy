/** The names that injection gives: two instances whose modules end up with one name end up with
    one module. */
module ModuleNames {
  import opened Netlist
  import opened Injection
  import opened InjectionMeaning

  // ---------- the number of faults can be read off the text ----------

  /** The fault bits of its own that a module shows. */
  function OwnBits(defs: map<Net, Def>): set<nat> {
    set n | n in defs && n.FaultOut? :: n.bit
  }

  /** The fault bits that are connected to instances. */
  function PortBits(decls: seq<Decl>): nat {
    if decls == [] then 0
    else
      PortBits(decls[..|decls| - 1]) +
      match decls[|decls| - 1].fault
      case NoFaultPort => 0
      case Pick(bits) => |bits|
      case Whole => 1
  }

  lemma {:induction false} OwnBitsAreLocals(defs: map<Net, Def>, paths: seq<FaultPath>)
    requires LocalsExist(defs, paths) && OwnBits(defs) == {}
    ensures |OwnBits(CutAll(defs, paths))| == Locals(paths)
    ensures forall k :: k in OwnBits(CutAll(defs, paths)) ==> k < |paths|
    decreases |paths|
  {
    if paths != [] {
      var n := |paths| - 1;
      assert forall i :: 0 <= i < n ==> paths[..n][i] == paths[i];
      var front := CutAll(defs, paths[..n]);
      OwnBitsAreLocals(defs, paths[..n]);
      if Local(paths[n]) {
        CutShows(front, paths[n].wire, n);
        assert n !in OwnBits(front);
      }
    }
  }

  lemma CutShows(defs: map<Net, Def>, w: string, i: nat)
    requires Wire(w) in defs
    ensures OwnBits(Cut(defs, w, i)) == OwnBits(defs) + {i}
  {
    var r := Cut(defs, w, i);
    assert FaultOut(i) in r;
    forall k ensures k in OwnBits(r) <==> k in OwnBits(defs) || k == i {
      assert k in OwnBits(r) <==> FaultOut(k) in r;
      assert k in OwnBits(defs) <==> FaultOut(k) in defs;
    }
  }

  predicate NoPorts(decls: seq<Decl>) {
    forall i :: 0 <= i < |decls| ==> decls[i].fault == NoFaultPort
  }

  lemma {:induction false} PortBitsAreThrough(paths: seq<FaultPath>, decls: seq<Decl>, after: seq<Decl>,
                                              kids: seq<Inst>)
    requires |after| == |decls| == |kids| && NoPorts(decls)
    requires forall i :: 0 <= i < |decls| ==> decls[i].name == kids[i].name
    requires forall i :: 0 <= i < |decls| ==> after[i].fault == Redeclare(decls[i], Indices(paths, decls[i].name),
                                                                          decls[i].typeName).fault
    ensures PortBits(after) == ThroughCount(paths, kids)
  {
    if decls != [] {
      var n := |decls| - 1;
      PortBitsAreThrough(paths, decls[..n], after[..n], kids[..n]);
    }
  }

  /** A rewritten text shows how many faults it was rewritten for. */
  lemma TextShowsFaults(d: Inst, types: seq<TypeName>)
    requires Ready(d) && |types| == |d.kids|
    ensures var text := Rewired(d.body, d.paths, types);
            |d.paths| == |OwnBits(text.defs)| + PortBits(text.decls)
  {
    var text := Rewired(d.body, d.paths, types);
    assert OwnBits(d.body.defs) == {};
    OwnBitsAreLocals(d.body.defs, d.paths);
    PortBitsAreThrough(d.paths, d.body.decls, text.decls, d.kids);
    PathsSplit(d.paths, d.kids);
  }

  // ---------- equal names ----------

  /** What becomes of a marked instance. */
  lemma MarkedBecomes(d: Inst) returns (text: Body)
    requires Ready(d) && d.paths != []
    ensures var r := InjectTree(d, false);
            && r.typeName == Hashed(d.typeName, text)
            && r.body == text.(faultWidth := |d.paths|, header := r.typeName)
            && |d.paths| == |OwnBits(text.defs)| + PortBits(text.decls)
  {
    var kids := seq(|d.kids|, i requires 0 <= i < |d.kids| => InjectTree(d.kids[i], false));
    text := Rewired(d.body, d.paths, KidTypes(kids));
    TextShowsFaults(d, KidTypes(kids));
  }

  /** Instances that had one module whenever they had one type name still do after injection,
      whichever faults are marked in them and below. */
  lemma SameNameSameModule(x: Inst, y: Inst)
    requires Ready(x) && Ready(y) && x.typeName.Base? && y.typeName.Base?
    requires x.typeName == y.typeName ==> x.body == y.body
    requires InjectTree(x, false).typeName == InjectTree(y, false).typeName
    ensures InjectTree(x, false).body == InjectTree(y, false).body
  {
    if x.paths != [] && y.paths != [] {
      var s := MarkedBecomes(x);
      var t := MarkedBecomes(y);
    }
  }

  // ---------- in the whole tree ----------

  /** x is an instance of the tree below d, or d itself. */
  ghost predicate Within(x: Inst, d: Inst)
    decreases d
  {
    x == d || exists i :: 0 <= i < |d.kids| && Within(x, d.kids[i])
  }

  /** Every instance of the injected tree comes from one of the original tree. */
  lemma {:induction false} ComesFrom(x: Inst, d: Inst) returns (o: Inst)
    requires Ready(d) && Within(x, InjectTree(d, false))
    ensures Within(o, d) && Ready(o) && x == InjectTree(o, false)
    decreases d
  {
    var r := InjectTree(d, false);
    if x == r {
      o := d;
    } else {
      var i :| 0 <= i < |r.kids| && Within(x, r.kids[i]);
      ReadyKid(d, i);
      assert r.kids[i] == InjectTree(d.kids[i], false);
      o := ComesFrom(x, d.kids[i]);
    }
  }

  /** As parsed, type names are plain and name one module each. */
  ghost predicate NamesModules(d: Inst) {
    && (forall x :: Within(x, d) ==> x.typeName.Base?)
    && forall x, y :: Within(x, d) && Within(y, d) && x.typeName == y.typeName ==> x.body == y.body
  }

  /** So below the injected root each type name names one module again. */
  lemma InjectedNamesModules(d: Inst, x: Inst, y: Inst, i: nat, j: nat)
    requires Ready(d) && NamesModules(d) && i < |d.kids| && j < |d.kids|
    requires Within(x, InjectTree(d.kids[i], false)) && Within(y, InjectTree(d.kids[j], false))
    requires x.typeName == y.typeName
    ensures x.body == y.body
  {
    ReadyKid(d, i);
    ReadyKid(d, j);
    var a := ComesFrom(x, d.kids[i]);
    var b := ComesFrom(y, d.kids[j]);
    SameNameSameModule(a, b);
  }
}
