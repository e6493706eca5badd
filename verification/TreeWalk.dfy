/** The stack walk of `ModuleTree.inject_faults`: in which order instances are injected,
    when that is bottom-up, and what the whole tree becomes. */
module TreeWalk {
  import opened Netlist
  import opened Injection
  import opened Injector

  // ---------- the order of the walk ----------

  /** What becomes of a stack entry: an instance whose name has been seen is injected at
      once; any other waits until its children, the last one first, have been dealt with. */
  function Visit(x: Node, seen: set<string>): (seq<Node>, set<string>)
    decreases x, 1
  {
    if x.obj.name in seen then ([x], seen)
    else
      var (order, seen') := VisitList(x.kids, seen + {x.obj.name});
      (order + [x], seen')
  }

  function VisitList(xs: seq<Node>, seen: set<string>): (seq<Node>, set<string>)
    decreases xs, 0
  {
    if xs == [] then ([], seen)
    else
      var (order1, seen1) := Visit(xs[|xs| - 1], seen);
      var (order2, seen2) := VisitList(xs[..|xs| - 1], seen1);
      (order1 + order2, seen2)
  }

  /** All instances below, children before parents. */
  function Post(x: Node): seq<Node>
    decreases x, 1
  {
    PostList(x.kids) + [x]
  }

  function PostList(xs: seq<Node>): seq<Node>
    decreases xs, 0
  {
    if xs == [] then [] else Post(xs[|xs| - 1]) + PostList(xs[..|xs| - 1])
  }

  /** All instances below in the order in which the walk first meets them. */
  function Pre(x: Node): seq<Node>
    decreases x, 1
  {
    [x] + PreList(x.kids)
  }

  function PreList(xs: seq<Node>): seq<Node>
    decreases xs, 0
  {
    if xs == [] then [] else Pre(xs[|xs| - 1]) + PreList(xs[..|xs| - 1])
  }

  function Names(xs: seq<Node>): set<string> {
    set x | x in xs :: x.obj.name
  }

  /** No instance with children bears a name that was seen before it. */
  predicate Clear(pre: seq<Node>, seen: set<string>) {
    pre == [] || ((pre[0].obj.name in seen ==> pre[0].kids == []) && Clear(pre[1..], seen + {pre[0].obj.name}))
  }

  predicate NoParentRepeats(pre: seq<Node>) {
    forall i, j :: 0 <= i < j < |pre| && pre[i].obj.name == pre[j].obj.name ==> pre[j].kids == []
  }

  lemma {:induction false} ClearMeans(pre: seq<Node>, seen: set<string>)
    ensures Clear(pre, seen) <==>
            NoParentRepeats(pre) && forall j :: 0 <= j < |pre| && pre[j].obj.name in seen ==> pre[j].kids == []
  {
    if pre != [] {
      var x, rest := pre[0], pre[1..];
      ClearMeans(rest, seen + {x.obj.name});
      assert forall j :: 0 <= j < |rest| ==> rest[j] == pre[j + 1];
      assert NoParentRepeats(pre) <==>
        NoParentRepeats(rest) && forall j :: 0 <= j < |rest| && rest[j].obj.name == x.obj.name ==> rest[j].kids == [];
    }
  }

  lemma {:induction false} ClearConcat(a: seq<Node>, b: seq<Node>, seen: set<string>)
    ensures Clear(a + b, seen) <==> Clear(a, seen) && Clear(b, seen + Names(a))
  {
    if a == [] {
      assert a + b == b && seen + Names(a) == seen;
    } else {
      ClearConcat(a[1..], b, seen + {a[0].obj.name});
      assert (a + b)[1..] == a[1..] + b;
      assert a == [a[0]] + a[1..];
      assert seen + Names(a) == seen + {a[0].obj.name} + Names(a[1..]);
    }
  }

  lemma NamesConcat(a: seq<Node>, b: seq<Node>)
    ensures Names(a + b) == Names(a) + Names(b)
  {
  }

  lemma {:induction false} VisitIsPost(x: Node, seen: set<string>)
    ensures Clear(Pre(x), seen) ==> Visit(x, seen) == (Post(x), seen + Names(Pre(x)))
    ensures !Clear(Pre(x), seen) ==> |Visit(x, seen).0| < |Post(x)|
    decreases x, 1
  {
    assert Pre(x)[1..] == PreList(x.kids);
    assert Names(Pre(x)) == {x.obj.name} + Names(PreList(x.kids));
    VisitListIsPost(x.kids, seen + {x.obj.name});
    if x.obj.name in seen {
      if x.kids == [] {
        assert Post(x) == [x];
        assert seen + Names(Pre(x)) == seen;
      } else {
        assert |Post(x.kids[|x.kids| - 1])| > 0;
      }
    } else {
      assert seen + Names(Pre(x)) == seen + {x.obj.name} + Names(PreList(x.kids));
    }
  }

  lemma {:induction false} VisitListIsPost(xs: seq<Node>, seen: set<string>)
    ensures Clear(PreList(xs), seen) ==> VisitList(xs, seen) == (PostList(xs), seen + Names(PreList(xs)))
    ensures !Clear(PreList(xs), seen) ==> |VisitList(xs, seen).0| < |PostList(xs)|
    decreases xs, 0
  {
    if xs == [] {
      assert seen + Names([]) == seen;
    } else {
      var x, rest := xs[|xs| - 1], xs[..|xs| - 1];
      VisitIsPost(x, seen);
      VisitListIsPost(rest, Visit(x, seen).1);
      ClearConcat(Pre(x), PreList(rest), seen);
      NamesConcat(Pre(x), PreList(rest));
      assert seen + Names(PreList(xs)) == seen + Names(Pre(x)) + Names(PreList(rest));
    }
  }

  /** The walk injects every instance, children before parents, exactly when no instance
      with children repeats the name of one that the walk meets before it. */
  lemma WalkIsBottomUpIff(xs: seq<Node>)
    ensures VisitList(xs, {}).0 == PostList(xs) <==> NoParentRepeats(PreList(xs))
  {
    VisitListIsPost(xs, {});
    ClearMeans(PreList(xs), {});
  }

  /** Under the root's last child a leaf; under its first child an instance of the leaf's name that
      has a child of its own. No two siblings share a name. */
  predicate Repeats(n: Node) {
    && |n.kids| == 2 && |n.kids[0].kids| == 1 && |n.kids[1].kids| == 1
    && |n.kids[0].kids[0].kids| == 1 && n.kids[1].kids[0].kids == []
    && n.kids[0].kids[0].obj.name == n.kids[1].kids[0].obj.name
    && n.kids[0].obj.name != n.kids[1].obj.name
    && n.kids[0].kids[0].obj.name != n.kids[0].obj.name
    && n.kids[0].kids[0].obj.name != n.kids[1].obj.name
  }

  lemma VisitLeaf(x: Node, seen: set<string>)
    requires x.obj.name in seen || x.kids == []
    ensures Visit(x, seen).0 == [x] && Visit(x, seen).1 == seen + {x.obj.name}
  {
  }

  lemma VisitOnly(x: Node, seen: set<string>)
    ensures VisitList([x], seen) == Visit(x, seen)
  {
    assert [x][..0] == [];
    assert Visit(x, seen).0 + [] == Visit(x, seen).0;
  }

  lemma VisitParent(x: Node, y: Node, seen: set<string>)
    requires x.kids == [y] && x.obj.name !in seen
    requires y.obj.name in seen + {x.obj.name} || y.kids == []
    ensures Visit(x, seen).0 == [y, x] && Visit(x, seen).1 == seen + {x.obj.name} + {y.obj.name}
  {
    VisitLeaf(y, seen + {x.obj.name});
    VisitOnly(y, seen + {x.obj.name});
  }

  lemma RepeatsOrder(n: Node)
    requires Repeats(n)
    ensures VisitList(n.kids, {}).0 == [n.kids[1].kids[0], n.kids[1], n.kids[0].kids[0], n.kids[0]]
  {
    var a, b := n.kids[0], n.kids[1];
    var leaf, twin := b.kids[0], a.kids[0];
    assert b.kids == [leaf] && a.kids == [twin];
    VisitParent(b, leaf, {});
    VisitParent(a, twin, Visit(b, {}).1);
    VisitOnly(a, Visit(b, {}).1);
    assert n.kids[..1] == [a];
  }

  /** In the bottom-up order every child comes before its parent. */
  ghost predicate BottomUp(order: seq<Node>) {
    forall k, i :: 0 <= k < |order| && 0 <= i < |order[k].kids| ==> order[k].kids[i] in order[..k]
  }

  lemma BottomUpConcat(a: seq<Node>, b: seq<Node>)
    requires BottomUp(a) && BottomUp(b)
    ensures BottomUp(a + b)
  {
    forall k, i | 0 <= k < |a + b| && 0 <= i < |(a + b)[k].kids| ensures (a + b)[k].kids[i] in (a + b)[..k] {
      if k < |a| {
        assert (a + b)[..k] == a[..k];
      } else {
        assert (a + b)[..k] == a + b[..k - |a|];
        assert b[k - |a|].kids[i] in b[..k - |a|];
      }
    }
  }

  lemma {:induction false} PostBottomUp(x: Node)
    ensures BottomUp(Post(x)) && Post(x)[|Post(x)| - 1] == x
    decreases x, 1
  {
    PostListBottomUp(x.kids);
    var front := PostList(x.kids);
    forall k, i | 0 <= k < |Post(x)| && 0 <= i < |Post(x)[k].kids| ensures Post(x)[k].kids[i] in Post(x)[..k] {
      if k < |front| {
        assert Post(x)[..k] == front[..k];
      } else {
        assert Post(x)[..k] == front;
        assert x.kids[i] in front;
      }
    }
  }

  lemma {:induction false} PostListBottomUp(xs: seq<Node>)
    ensures BottomUp(PostList(xs)) && forall x :: x in xs ==> x in PostList(xs)
    decreases xs, 0
  {
    if xs != [] {
      var x, rest := xs[|xs| - 1], xs[..|xs| - 1];
      PostBottomUp(x);
      PostListBottomUp(rest);
      BottomUpConcat(Post(x), PostList(rest));
      assert xs == rest + [x];
      assert x in Post(x);
    }
  }

  ghost function Below(xs: seq<Node>): set<ModuleInstance> {
    set i, o | 0 <= i < |xs| && o in Objs(xs[i]) :: o
  }

  ghost predicate Forest(xs: seq<Node>) {
    && (forall i :: 0 <= i < |xs| ==> IsTree(xs[i]))
    && (forall i, j :: 0 <= i < j < |xs| ==> Objs(xs[i]) !! Objs(xs[j]))
  }

  predicate Once(order: seq<Node>) {
    forall i, j :: 0 <= i < j < |order| ==> order[i].obj != order[j].obj
  }

  ghost function ObjsOf(order: seq<Node>): set<ModuleInstance> {
    set x | x in order :: x.obj
  }

  lemma OnceConcat(a: seq<Node>, b: seq<Node>)
    requires Once(a) && Once(b) && ObjsOf(a) !! ObjsOf(b)
    ensures Once(a + b) && ObjsOf(a + b) == ObjsOf(a) + ObjsOf(b)
  {
    var all := a + b;
    forall i, j | 0 <= i < j < |all| ensures all[i].obj != all[j].obj {
      if i < |a| && j >= |a| {
        assert a[i].obj in ObjsOf(a) && b[j - |a|].obj in ObjsOf(b);
      }
    }
    assert forall x :: x in all <==> x in a || x in b;
  }

  /** ... and every instance is listed exactly once. */
  lemma {:induction false} PostListsOnce(x: Node)
    requires IsTree(x)
    ensures Once(Post(x)) && ObjsOf(Post(x)) == Objs(x)
    decreases x, 1
  {
    PostListListsOnce(x.kids);
    assert Objs(x) == {x.obj} + Below(x.kids);
    assert ObjsOf([x]) == {x.obj};
    OnceConcat(PostList(x.kids), [x]);
  }

  lemma {:induction false} PostListListsOnce(xs: seq<Node>)
    requires Forest(xs)
    ensures Once(PostList(xs)) && ObjsOf(PostList(xs)) == Below(xs)
    decreases xs, 0
  {
    if xs != [] {
      var x, rest := xs[|xs| - 1], xs[..|xs| - 1];
      PostListsOnce(x);
      PostListListsOnce(rest);
      BelowSplit(xs);
      OnceConcat(Post(x), PostList(rest));
    }
  }

  lemma BelowSplit(xs: seq<Node>)
    requires xs != [] && Forest(xs)
    ensures Forest(xs[..|xs| - 1])
    ensures Below(xs) == Objs(xs[|xs| - 1]) + Below(xs[..|xs| - 1])
    ensures Objs(xs[|xs| - 1]) !! Below(xs[..|xs| - 1])
  {
    var n := |xs| - 1;
    assert forall i :: 0 <= i < n ==> xs[..n][i] == xs[i];
    forall o | o in Below(xs) ensures o in Objs(xs[n]) || o in Below(xs[..n]) {
      var i :| 0 <= i < |xs| && o in Objs(xs[i]);
      assert i < n ==> o in Objs(xs[..n][i]);
    }
    forall o | o in Below(xs[..n]) ensures o in Below(xs) && o !in Objs(xs[n]) {
      var i :| 0 <= i < n && o in Objs(xs[..n][i]);
      assert o in Objs(xs[i]);
    }
  }

  // ---------- what the walk does to the tree ----------

  /** Inject one instance, given what its children have become. */
  function InjectedCell(st: State, x: Node, root: bool): State {
    var d := Build(x, st);
    if LocalsExist(d.body.defs, d.paths) && |d.kids| == |d.body.decls| then
      var r := InjectHere(d, root);
      st[x.obj := Cell(r.typeName, r.body, r.paths)]
    else st
  }

  function InjectCell(st: State, x: Node): State {
    InjectedCell(st, x, false)
  }

  function InjectAll(st: State, order: seq<Node>): State {
    if order == [] then st else InjectCell(InjectAll(st, order[..|order| - 1]), order[|order| - 1])
  }

  lemma {:induction false} InjectAllConcat(st: State, a: seq<Node>, b: seq<Node>)
    ensures InjectAll(st, a + b) == InjectAll(InjectAll(st, a), b)
    decreases |b|
  {
    if b == [] {
      assert a + b == a;
    } else {
      assert (a + b)[..|a + b| - 1] == a + b[..|b| - 1];
      InjectAllConcat(st, a, b[..|b| - 1]);
    }
  }

  lemma {:induction false} InjectAllElsewhere(st: State, order: seq<Node>, o: ModuleInstance)
    requires o !in ObjsOf(order)
    ensures CellOf(InjectAll(st, order), o) == CellOf(st, o)
    decreases |order|
  {
    if order != [] {
      var n := |order| - 1;
      assert order[n] in order;
      assert forall x :: x in order[..n] ==> x in order;
      InjectAllElsewhere(st, order[..n], o);
    }
  }

  /** Rewriting one instance changes no other. */
  lemma CellAlone(n: Node, st: State, root: bool)
    requires IsTree(n)
    requires var d := Build(n, st); LocalsExist(d.body.defs, d.paths) && |d.kids| == |d.body.decls|
    ensures Build(n, InjectedCell(st, n, root)) == InjectHere(Build(n, st), root)
  {
    var st2 := InjectedCell(st, n, root);
    forall i | 0 <= i < |n.kids| ensures Build(n.kids[i], st2) == Build(n.kids[i], st) {
      BuildDepends(n.kids[i], st, st2);
    }
    assert Build(n, st2).kids == Build(n, st).kids;
  }

  lemma {:induction false} PostInjects(x: Node, st: State)
    requires IsTree(x) && Injectable(Build(x, st))
    ensures Build(x, InjectAll(st, Post(x))) == InjectTree(Build(x, st), false)
    decreases x, 1
  {
    assert forall i :: 0 <= i < |x.kids| ==> Build(x.kids[i], st) == Build(x, st).kids[i];
    PostListInjects(x.kids, st);
    PostListListsOnce(x.kids);
    InjectAllConcat(st, PostList(x.kids), [x]);
    var st1 := InjectAll(st, PostList(x.kids));
    assert [x][..0] == [];
    assert InjectAll(st1, [x]) == InjectCell(st1, x);
    InjectAllElsewhere(st, PostList(x.kids), x.obj);
    RootStep(x, st, st1, false);
    CellAlone(x, st1, false);
  }

  /** Once the children are injected, injecting the instance injects its tree. */
  lemma RootStep(x: Node, st: State, st1: State, root: bool)
    requires IsTree(x) && Injectable(Build(x, st))
    requires CellOf(st1, x.obj) == CellOf(st, x.obj)
    requires forall i :: 0 <= i < |x.kids| ==> Injectable(Build(x.kids[i], st))
    requires forall i :: 0 <= i < |x.kids| ==> Build(x.kids[i], st1) == InjectTree(Build(x.kids[i], st), false)
    ensures var d := Build(x, st1);
            && LocalsExist(d.body.defs, d.paths) && |d.kids| == |d.body.decls|
            && InjectHere(d, root) == InjectTree(Build(x, st), root)
  {
    var d0 := Build(x, st);
    assert Build(x, st1) ==
           d0.(kids := seq(|d0.kids|, i requires 0 <= i < |d0.kids| => InjectTree(d0.kids[i], false)));
  }

  ghost predicate AllInjectable(xs: seq<Node>, st: State) {
    forall i :: 0 <= i < |xs| ==> Injectable(Build(xs[i], st))
  }

  ghost predicate AllInjected(xs: seq<Node>, st: State, st': State)
    requires AllInjectable(xs, st)
  {
    forall i :: 0 <= i < |xs| ==> Build(xs[i], st') == InjectTree(Build(xs[i], st), false)
  }

  lemma {:induction false} PostListInjects(xs: seq<Node>, st: State)
    requires Forest(xs) && AllInjectable(xs, st)
    ensures AllInjected(xs, st, InjectAll(st, PostList(xs)))
    decreases xs, 0
  {
    if xs != [] {
      var n := |xs| - 1;
      var st1 := InjectAll(st, Post(xs[n]));
      BelowSplit(xs);
      PostInjects(xs[n], st);
      RestKept(xs, st);
      PostListInjects(xs[..n], st1);
      LastKept(xs, st);
      InjectedTogether(xs, st, st1, InjectAll(st, PostList(xs)));
    }
  }

  lemma InjectedTogether(xs: seq<Node>, st: State, st1: State, st2: State)
    requires xs != [] && AllInjectable(xs, st) && SameTrees(xs[..|xs| - 1], st, st1)
    requires AllInjectable(xs[..|xs| - 1], st1) && AllInjected(xs[..|xs| - 1], st1, st2)
    requires Build(xs[|xs| - 1], st2) == InjectTree(Build(xs[|xs| - 1], st), false)
    ensures AllInjected(xs, st, st2)
  {
    var n := |xs| - 1;
    forall i | 0 <= i < n ensures Build(xs[i], st2) == InjectTree(Build(xs[i], st), false) {
      assert xs[..n][i] == xs[i];
    }
  }

  ghost predicate SameTrees(xs: seq<Node>, st: State, st': State) {
    forall i :: 0 <= i < |xs| ==> Build(xs[i], st') == Build(xs[i], st)
  }

  /** Injecting the last tree leaves the others alone ... */
  lemma RestKept(xs: seq<Node>, st: State)
    requires xs != [] && Forest(xs) && AllInjectable(xs, st)
    ensures var n := |xs| - 1;
            var st1 := InjectAll(st, Post(xs[n]));
            SameTrees(xs[..n], st, st1) && AllInjectable(xs[..n], st1)
  {
    var n := |xs| - 1;
    PostListsOnce(xs[n]);
    forall i | 0 <= i < n ensures Build(xs[..n][i], InjectAll(st, Post(xs[n]))) == Build(xs[i], st) {
      KeptElsewhere(xs[i], st, Post(xs[n]));
    }
  }

  /** ... and injecting the others leaves it alone. */
  lemma LastKept(xs: seq<Node>, st: State)
    requires xs != [] && Forest(xs)
    ensures var n := |xs| - 1;
            var st1 := InjectAll(st, Post(xs[n]));
            && InjectAll(st, PostList(xs)) == InjectAll(st1, PostList(xs[..n]))
            && Build(xs[n], InjectAll(st, PostList(xs))) == Build(xs[n], st1)
  {
    var n := |xs| - 1;
    BelowSplit(xs);
    PostListListsOnce(xs[..n]);
    InjectAllConcat(st, Post(xs[n]), PostList(xs[..n]));
    KeptElsewhere(xs[n], InjectAll(st, Post(xs[n])), PostList(xs[..n]));
  }

  lemma KeptElsewhere(x: Node, st: State, order: seq<Node>)
    requires Objs(x) !! ObjsOf(order)
    ensures Build(x, InjectAll(st, order)) == Build(x, st)
  {
    forall o | o in Objs(x) ensures CellOf(InjectAll(st, order), o) == CellOf(st, o) {
      InjectAllElsewhere(st, order, o);
    }
    BuildDepends(x, st, InjectAll(st, order));
  }

  // ---------- the walk itself ----------

  lemma {:induction false} VisitListConcat(a: seq<Node>, b: seq<Node>, seen: set<string>)
    ensures var (order1, seen1) := VisitList(b, seen);
            var (order2, seen2) := VisitList(a, seen1);
            VisitList(a + b, seen) == (order1 + order2, seen2)
    decreases |b|
  {
    if b == [] {
      assert a + b == a;
      assert [] + VisitList(a, seen).0 == VisitList(a, seen).0;
    } else {
      var n := |b| - 1;
      var (order0, seen0) := Visit(b[n], seen);
      assert (a + b)[..|a + b| - 1] == a + b[..n];
      VisitListConcat(a, b[..n], seen0);
      var (order1, seen1) := VisitList(b[..n], seen0);
      assert order0 + (order1 + VisitList(a, seen1).0) == order0 + order1 + VisitList(a, seen1).0;
    }
  }

  lemma {:induction false} SeenGrows(xs: seq<Node>, seen: set<string>)
    ensures seen <= VisitList(xs, seen).1
    decreases xs, 0
  {
    if xs != [] {
      var x := xs[|xs| - 1];
      if x.obj.name !in seen {
        SeenGrows(x.kids, seen + {x.obj.name});
      }
      SeenGrows(xs[..|xs| - 1], Visit(x, seen).1);
    }
  }

  /** Pushing an unseen instance back with its children on top changes nothing. */
  lemma ExpandStep(rest: seq<Node>, x: Node, seen: set<string>)
    requires x.obj.name !in seen
    ensures VisitList(rest + [x] + x.kids, seen + {x.obj.name}).0 == VisitList(rest + [x], seen).0
  {
    var seen' := seen + {x.obj.name};
    VisitListConcat(rest + [x], x.kids, seen');
    VisitListConcat(rest, [x], seen);
    SeenGrows(x.kids, seen');
    var (order1, seen1) := VisitList(x.kids, seen');
    VisitListConcat(rest, [x], seen1);
    VisitOne(x, seen);
    VisitOne(x, seen1);
    assert order1 + ([x] + VisitList(rest, seen1).0) == order1 + [x] + VisitList(rest, seen1).0;
  }

  lemma VisitOne(x: Node, seen: set<string>)
    ensures VisitList([x], seen) == Visit(x, seen)
  {
    var (order, seen') := Visit(x, seen);
    assert [x][..0] == [];
    assert VisitList([], seen') == ([], seen');
    assert order + [] == order;
  }

  /** When no instance with children repeats a name, and so whenever the names are pairwise
      distinct, the walk followed by the root yields the injected tree. */
  lemma WalkInjectsTree(n: Node, st: State)
    requires IsTree(n) && Injectable(Build(n, st)) && NoParentRepeats(PreList(n.kids))
    ensures Build(n, InjectedCell(InjectAll(st, VisitList(n.kids, {}).0), n, true)) == InjectTree(Build(n, st), true)
  {
    WalkIsBottomUpIff(n.kids);
    BottomUpInjectsTree(n, st);
  }

  lemma BottomUpInjectsTree(n: Node, st: State)
    requires IsTree(n) && Injectable(Build(n, st))
    ensures Build(n, InjectedCell(InjectAll(st, PostList(n.kids)), n, true)) == InjectTree(Build(n, st), true)
  {
    var st1 := InjectAll(st, PostList(n.kids));
    ChildrenInjected(n, st);
    RootStep(n, st, st1, true);
    CellAlone(n, st1, true);
  }

  lemma ChildrenInjected(n: Node, st: State)
    requires IsTree(n) && Injectable(Build(n, st))
    ensures var st1 := InjectAll(st, PostList(n.kids));
            && CellOf(st1, n.obj) == CellOf(st, n.obj)
            && (forall i :: 0 <= i < |n.kids| ==> Injectable(Build(n.kids[i], st)))
            && (forall i :: 0 <= i < |n.kids| ==> Build(n.kids[i], st1) == InjectTree(Build(n.kids[i], st), false))
  {
    assert forall i :: 0 <= i < |n.kids| ==> Build(n.kids[i], st) == Build(n, st).kids[i];
    PostListInjects(n.kids, st);
    PostListListsOnce(n.kids);
    InjectAllElsewhere(st, PostList(n.kids), n.obj);
  }

  // ---------- which walks inject the whole tree ----------

  /** Of these instances, those that the walk skips have no marked fault. */
  ghost predicate NoFaultSkipped(nodes: seq<Node>, order: seq<Node>, st: State) {
    forall m :: m in nodes && m.obj !in ObjsOf(order) ==> CellOf(st, m.obj).paths == []
  }

  /** The walk followed by the root yields the injected tree exactly when no instance that
      it skips has a marked fault. */
  lemma InjectsTreeIffNoFaultSkipped(n: Node, st: State)
    requires IsTree(n) && Objs(n) <= st.Keys && Injectable(Build(n, st))
    ensures var order := VisitList(n.kids, {}).0;
            Build(n, InjectedCell(InjectAll(st, order), n, true)) == InjectTree(Build(n, st), true) <==>
              NoFaultSkipped(PreList(n.kids), order, st)
  {
    var order := VisitList(n.kids, {}).0;
    if NoFaultSkipped(PreList(n.kids), order, st) {
      assert Below(n.kids) <= Objs(n);
      VisitListInjects(n.kids, {}, st);
      BottomUpInjectsTree(n, st);
    } else {
      var m :| m in PreList(n.kids) && m.obj !in ObjsOf(order) && CellOf(st, m.obj).paths != [];
      SkippedFaultShows(n, st, order, m);
    }
  }

  /** Skipping instances without faults makes no difference. */
  lemma {:induction false} VisitInjects(x: Node, seen: set<string>, st: State)
    requires IsTree(x) && Objs(x) <= st.Keys && NoFaultSkipped(Pre(x), Visit(x, seen).0, st)
    ensures InjectAll(st, Visit(x, seen).0) == InjectAll(st, Post(x))
    decreases x, 1
  {
    assert Below(x.kids) <= Objs(x);
    forall m | m in PreList(x.kids) ensures m in Pre(x) && m.obj != x.obj {
      PreListInside(x.kids, m);
    }
    if x.obj.name in seen {
      assert ObjsOf([x]) == {x.obj};
      forall m | m in PostList(x.kids) ensures m in PreList(x.kids) {
        PostListInPre(x.kids, m);
      }
      PostListListsOnce(x.kids);
      UnmarkedKept(PostList(x.kids), st);
      InjectAllConcat(st, PostList(x.kids), [x]);
    } else {
      var order := VisitList(x.kids, seen + {x.obj.name}).0;
      assert forall m :: m in order + [x] <==> m in order || m == x;
      VisitListInjects(x.kids, seen + {x.obj.name}, st);
      InjectAllConcat(st, order, [x]);
      InjectAllConcat(st, PostList(x.kids), [x]);
    }
  }

  lemma {:induction false} VisitListInjects(xs: seq<Node>, seen: set<string>, st: State)
    requires Forest(xs) && Below(xs) <= st.Keys && NoFaultSkipped(PreList(xs), VisitList(xs, seen).0, st)
    ensures InjectAll(st, VisitList(xs, seen).0) == InjectAll(st, PostList(xs))
    decreases xs, 0
  {
    if xs != [] {
      var x, rest := xs[|xs| - 1], xs[..|xs| - 1];
      var (order1, seen1) := Visit(x, seen);
      var order2 := VisitList(rest, seen1).0;
      BelowSplit(xs);
      SkippedApart(xs, seen, st);
      VisitInjects(x, seen, st);
      PostListsOnce(x);
      PathsKept(st, Post(x));
      VisitListInjects(rest, seen1, InjectAll(st, Post(x)));
      InjectAllConcat(st, order1, order2);
      InjectAllConcat(st, Post(x), PostList(rest));
    }
  }

  /** What is skipped in the last tree and in the others. */
  lemma SkippedApart(xs: seq<Node>, seen: set<string>, st: State)
    requires Forest(xs) && xs != [] && NoFaultSkipped(PreList(xs), VisitList(xs, seen).0, st)
    ensures var x, rest := xs[|xs| - 1], xs[..|xs| - 1];
            && NoFaultSkipped(Pre(x), Visit(x, seen).0, st)
            && NoFaultSkipped(PreList(rest), VisitList(rest, Visit(x, seen).1).0, st)
  {
    var x, rest := xs[|xs| - 1], xs[..|xs| - 1];
    var (order1, seen1) := Visit(x, seen);
    var order2 := VisitList(rest, seen1).0;
    BelowSplit(xs);
    VisitInside(x, seen);
    VisitListInside(rest, seen1);
    assert forall o :: o in ObjsOf(order1 + order2) ==> o in ObjsOf(order1) || o in ObjsOf(order2);
    forall m | m in Pre(x) ensures m in PreList(xs) && m.obj !in ObjsOf(order2) {
      PreInside(x, m);
    }
    forall m | m in PreList(rest) ensures m in PreList(xs) && m.obj !in ObjsOf(order1) {
      PreListInside(rest, m);
    }
  }

  lemma {:induction false} PreInside(x: Node, m: Node)
    requires m in Pre(x)
    ensures m.obj in Objs(x)
    decreases x, 1
  {
    if m != x {
      PreListInside(x.kids, m);
    }
  }

  lemma {:induction false} PreListInside(xs: seq<Node>, m: Node)
    requires m in PreList(xs)
    ensures exists i :: 0 <= i < |xs| && m in Pre(xs[i]) && m.obj in Objs(xs[i])
    ensures m.obj in Below(xs)
    decreases xs, 0
  {
    var n := |xs| - 1;
    if m in Pre(xs[n]) {
      PreInside(xs[n], m);
    } else {
      PreListInside(xs[..n], m);
      var i :| 0 <= i < n && m in Pre(xs[..n][i]) && m.obj in Objs(xs[..n][i]);
      assert xs[i] == xs[..n][i];
    }
  }

  lemma {:induction false} VisitInside(x: Node, seen: set<string>)
    ensures ObjsOf(Visit(x, seen).0) <= Objs(x)
    decreases x, 1
  {
    if x.obj.name !in seen {
      VisitListInside(x.kids, seen + {x.obj.name});
      assert Below(x.kids) <= Objs(x);
    }
  }

  lemma {:induction false} VisitListInside(xs: seq<Node>, seen: set<string>)
    ensures ObjsOf(VisitList(xs, seen).0) <= Below(xs)
    decreases xs, 0
  {
    if xs != [] {
      var n := |xs| - 1;
      VisitInside(xs[n], seen);
      VisitListInside(xs[..n], Visit(xs[n], seen).1);
      assert forall i :: 0 <= i < n ==> xs[..n][i] == xs[i];
      assert Below(xs[..n]) <= Below(xs) && Objs(xs[n]) <= Below(xs);
    }
  }

  lemma {:induction false} PostInPre(x: Node, m: Node)
    requires m in Post(x)
    ensures m in Pre(x)
    decreases x, 1
  {
    if m != x {
      PostListInPre(x.kids, m);
    }
  }

  lemma {:induction false} PostListInPre(xs: seq<Node>, m: Node)
    requires m in PostList(xs)
    ensures m in PreList(xs)
    decreases xs, 0
  {
    var n := |xs| - 1;
    if m in Post(xs[n]) {
      PostInPre(xs[n], m);
    } else {
      PostListInPre(xs[..n], m);
    }
  }

  /** Injection keeps the marked paths of every instance. */
  lemma {:induction false} PathsKept(st: State, order: seq<Node>)
    requires ObjsOf(order) <= st.Keys
    ensures InjectAll(st, order).Keys == st.Keys
    ensures forall o :: CellOf(InjectAll(st, order), o).paths == CellOf(st, o).paths
    decreases |order|
  {
    if order != [] {
      var n := |order| - 1;
      assert order[n].obj in ObjsOf(order);
      assert forall x :: x in order[..n] ==> x in order;
      PathsKept(st, order[..n]);
    }
  }

  /** Injecting instances without marked faults changes nothing. */
  lemma {:induction false} UnmarkedKept(order: seq<Node>, st: State)
    requires ObjsOf(order) <= st.Keys && forall x :: x in order ==> CellOf(st, x.obj).paths == []
    ensures InjectAll(st, order) == st
    decreases |order|
  {
    if order != [] {
      var n := |order| - 1;
      assert order[n].obj in ObjsOf(order);
      assert forall x :: x in order[..n] ==> x in order;
      UnmarkedKept(order[..n], st);
      assert InjectCell(st, order[n]) == st;
    }
  }

  /** A skipped instance keeps its type name, which injecting the whole tree would change. */
  lemma SkippedFaultShows(n: Node, st: State, order: seq<Node>, m: Node)
    requires IsTree(n) && Injectable(Build(n, st)) && m in PreList(n.kids) && m.obj !in ObjsOf(order)
    requires CellOf(st, m.obj).paths != []
    ensures var after := InjectedCell(InjectAll(st, order), n, true);
            && CellOf(after, m.obj) == CellOf(st, m.obj)
            && Build(n, after) != InjectTree(Build(n, st), true)
  {
    var after := InjectedCell(InjectAll(st, order), n, true);
    PreListInside(n.kids, m);
    InjectAllElsewhere(st, order, m.obj);
    TypeChanges(n, st, after, true, m);
  }

  lemma {:induction false} TypeChanges(x: Node, st: State, st': State, root: bool, m: Node)
    requires Injectable(Build(x, st)) && (m in PreList(x.kids) || (m == x && !root))
    requires CellOf(st, m.obj).paths != [] && CellOf(st', m.obj).typeName == CellOf(st, m.obj).typeName
    ensures Build(x, st') != InjectTree(Build(x, st), root)
    decreases x
  {
    var d := Build(x, st);
    if m in PreList(x.kids) {
      PreListInside(x.kids, m);
      var i :| 0 <= i < |x.kids| && m in Pre(x.kids[i]) && m.obj in Objs(x.kids[i]);
      assert d.kids[i] == Build(x.kids[i], st);
      InjectedKid(d, root, i);
      TypeChanges(x.kids[i], st, st', false, m);
      assert Build(x, st').kids[i] == Build(x.kids[i], st');
    } else {
      InjectedHeader(d, false);
    }
  }

  lemma InjectedKid(d: Inst, root: bool, i: nat)
    requires Injectable(d) && i < |d.kids|
    ensures Injectable(d.kids[i]) && InjectTree(d, root).kids[i] == InjectTree(d.kids[i], false)
  {
  }

  lemma RepeatsObjects(n: Node)
    requires IsTree(n) && Repeats(n)
    ensures var m := n.kids[0].kids[0].kids[0].obj;
            m != n.obj && m !in ObjsOf([n.kids[1].kids[0], n.kids[1], n.kids[0].kids[0], n.kids[0]])
  {
    var a, b := n.kids[0], n.kids[1];
    var twin, leaf := a.kids[0], b.kids[0];
    var m := twin.kids[0];
    assert m.obj in Objs(m) && m.obj in Objs(twin) && m.obj in Objs(a);
    assert IsTree(a) && IsTree(twin);
    assert leaf.obj in Objs(leaf) && leaf.obj in Objs(b) && b.obj in Objs(b);
    assert Objs(a) !! Objs(b);
  }

  /** The second instance of the name is injected without its child, so a fault marked in the child
      is never cut and the tree does not become its injected form. */
  lemma RepeatedNameSkipsChild(n: Node, st: State)
    requires IsTree(n) && Repeats(n) && Injectable(Build(n, st))
    requires CellOf(st, n.kids[0].kids[0].kids[0].obj).paths != []
    ensures var after := InjectedCell(InjectAll(st, VisitList(n.kids, {}).0), n, true);
            && CellOf(after, n.kids[0].kids[0].kids[0].obj) == CellOf(st, n.kids[0].kids[0].kids[0].obj)
            && Build(n, after) != InjectTree(Build(n, st), true)
  {
    var a := n.kids[0];
    var m := a.kids[0].kids[0];
    RepeatsOrder(n);
    RepeatsObjects(n);
    KidInPre(a.kids[0], m);
    KidInPre(a, m);
    KidInPre(n, m);
    SkippedFaultShows(n, st, VisitList(n.kids, {}).0, m);
  }

  lemma KidInPre(x: Node, m: Node)
    requires x.kids != [] && m in Pre(x.kids[0])
    ensures m in PreList(x.kids) && m in Pre(x)
  {
    PreListCovers(x.kids, 0, m);
  }

  lemma {:induction false} PreListCovers(xs: seq<Node>, i: nat, m: Node)
    requires i < |xs| && m in Pre(xs[i])
    ensures m in PreList(xs)
    decreases |xs|
  {
    if i < |xs| - 1 {
      PreListCovers(xs[..|xs| - 1], i, m);
    }
  }

  lemma DistinctNamesSuffice(pre: seq<Node>)
    requires forall i, j :: 0 <= i < j < |pre| ==> pre[i].obj.name != pre[j].obj.name
    ensures NoParentRepeats(pre)
  {
  }
}
