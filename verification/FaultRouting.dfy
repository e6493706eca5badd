/** Where each bit of the root's fault vectors ends up. */
module FaultRouting {
  import opened Netlist
  import opened Injection
  import opened InjectionMeaning

  /** A marked wire: its position in the list of faults of an instance, and where that
      instance lies below the present one. */
  datatype Site = Here(k: nat) | Below(c: nat, s: Site)

  predicate SiteOk(d: Inst, s: Site) {
    match s
    case Here(k) => k < |d.paths| && Local(d.paths[k])
    case Below(c, rest) => c < |d.kids| && SiteOk(d.kids[c], rest)
  }

  /** The root bit that a site's own bit is connected to, level by level. */
  function RootBit(d: Inst, s: Site): nat
    decreases s
  {
    match s
    case Here(k) => k
    case Below(c, rest) => if c < |d.kids| then Route(PortOf(d, c), RootBit(d.kids[c], rest)) else 0
  }

  /** The site that bit i leads to when each connection is followed downwards: the inverse of
      `RootBit`. */
  function Reached(d: Inst, i: nat): Site {
    var c := Owner(d, i);
    if c == |d.kids| then Here(i) else Below(c, Reached(d.kids[c], OwnerBit(d, i)))
  }

  /** A child with a single fault sees bit 0 of its parent's vector, so that fault must be the
      parent's first. */
  predicate SoloAtZero(d: Inst, c: nat)
    requires c < |d.kids|
  {
    var bits := Indices(d.paths, d.kids[c].name);
    |bits| == 1 ==> bits[0] == 0
  }

  ghost predicate SoloFirst(d: Inst) {
    && (forall c :: 0 <= c < |d.kids| ==> SoloAtZero(d, c))
    && forall c :: 0 <= c < |d.kids| ==> SoloFirst(d.kids[c])
  }

  /** No two marked wires share a root bit. */
  ghost predicate OneToOne(d: Inst) {
    forall s, t :: SiteOk(d, s) && SiteOk(d, t) && RootBit(d, s) == RootBit(d, t) ==> s == t
  }

  lemma SoloRoute(d: Inst, c: nat, j: nat)
    requires Distributed(d) && DistinctSiblings(d) && c < |d.kids| && j < |d.kids[c].paths| && SoloAtZero(d, c)
    ensures var i := Route(PortOf(d, c), j);
            i < |d.paths| && !Local(d.paths[i]) && Owner(d, i) == c && OwnerBit(d, i) == j
  {
    ChildEntry(d, c, |d.kids[c].paths| - 1 - j);
    RouteInRange(d.paths, d.kids[c].name, j);
  }

  /** Where that holds, the composed connections map root bits one-to-one onto marked wires:
      from a bit to its wire and back ... */
  lemma {:induction false} BitToSiteToBit(d: Inst, i: nat)
    requires Distributed(d) && DistinctSiblings(d) && SoloFirst(d) && i < |d.paths|
    ensures SiteOk(d, Reached(d, i)) && RootBit(d, Reached(d, i)) == i
    decreases d
  {
    if !Local(d.paths[i]) {
      OwnerOk(d, i);
      BitToSiteToBit(d.kids[Owner(d, i)], OwnerBit(d, i));
      OwnerRoute(d, i);
    }
  }

  /** The bit of a child is connected to the parent's bit that it stands for. */
  lemma OwnerRoute(d: Inst, i: nat)
    requires Distributed(d) && i < |d.paths| && !Local(d.paths[i]) && Owner(d, i) < |d.kids|
    requires SoloAtZero(d, Owner(d, i))
    ensures Route(PortOf(d, Owner(d, i)), OwnerBit(d, i)) == i
  {
    OwnerOk(d, i);
    RouteInRange(d.paths, d.kids[Owner(d, i)].name, OwnerBit(d, i));
  }

  lemma ReachedRoute(d: Inst, c: nat, j: nat)
    requires Distributed(d) && DistinctSiblings(d) && c < |d.kids| && j < |d.kids[c].paths| && SoloAtZero(d, c)
    ensures Route(PortOf(d, c), j) < |d.paths|
    ensures Reached(d, Route(PortOf(d, c), j)) == Below(c, Reached(d.kids[c], j))
  {
    SoloRoute(d, c, j);
  }

  /** ... and from a wire to its bit and back. */
  lemma {:induction false} SiteToBitToSite(d: Inst, s: Site)
    requires Distributed(d) && DistinctSiblings(d) && SoloFirst(d) && SiteOk(d, s)
    ensures RootBit(d, s) < |d.paths| && Reached(d, RootBit(d, s)) == s
    decreases s
  {
    match s
    case Here(k) =>
      assert Owner(d, k) == |d.kids|;
    case Below(c, rest) =>
      SiteToBitToSite(d.kids[c], rest);
      SiteBelow(d, c, rest);
  }

  lemma SiteBelow(d: Inst, c: nat, rest: Site)
    requires Distributed(d) && DistinctSiblings(d) && c < |d.kids| && SoloAtZero(d, c)
    requires RootBit(d.kids[c], rest) < |d.kids[c].paths| && Reached(d.kids[c], RootBit(d.kids[c], rest)) == rest
    ensures RootBit(d, Below(c, rest)) < |d.paths| && Reached(d, RootBit(d, Below(c, rest))) == Below(c, rest)
  {
    ReachedRoute(d, c, RootBit(d.kids[c], rest));
  }

  /** The routing condition is more than is needed for that. */
  lemma {:induction false} RoutingOkIsSoloFirst(d: Inst)
    requires Distributed(d) && RoutingOk(d)
    ensures SoloFirst(d)
    decreases d
  {
    forall c | 0 <= c < |d.kids| ensures SoloAtZero(d, c) && SoloFirst(d.kids[c]) {
      RoutingOkIsSoloFirst(d.kids[c]);
      assert |d.kids[c].paths| == |Through(d.paths, d.kids[c].name)|;
    }
  }

  lemma KidOneToOne(d: Inst, c: nat)
    requires OneToOne(d) && c < |d.kids|
    ensures OneToOne(d.kids[c])
  {
    var kid := d.kids[c];
    forall s, t | SiteOk(kid, s) && SiteOk(kid, t) && RootBit(kid, s) == RootBit(kid, t) ensures s == t {
      assert SiteOk(d, Below(c, s)) && SiteOk(d, Below(c, t));
      assert RootBit(d, Below(c, s)) == RootBit(d, Below(c, t));
    }
  }

  /** A single fault away from position 0 shares root bit 0 with the wire at position 0. */
  lemma SoloCollides(d: Inst, c: nat)
    requires Distributed(d) && DistinctSiblings(d) && c < |d.kids| && !SoloAtZero(d, c)
    requires forall k :: 0 <= k < |d.kids| ==> SoloFirst(d.kids[k])
    ensures !OneToOne(d)
  {
    assert |d.kids[c].paths| == |Through(d.paths, d.kids[c].name)| == 1;
    BitToSiteToBit(d.kids[c], 0);
    var s := Below(c, Reached(d.kids[c], 0));
    assert SiteOk(d, s) && RootBit(d, s) == 0;
    if Local(d.paths[0]) {
      assert SiteOk(d, Here(0)) && RootBit(d, Here(0)) == 0 && Here(0) != s;
    } else {
      OtherAtZero(d, c, s);
    }
  }

  lemma OtherAtZero(d: Inst, c: nat, s: Site)
    requires Distributed(d) && DistinctSiblings(d) && c < |d.kids| && !SoloAtZero(d, c)
    requires forall k :: 0 <= k < |d.kids| ==> SoloFirst(d.kids[k])
    requires s.Below? && s.c == c && SiteOk(d, s) && RootBit(d, s) == 0
    requires |d.paths| > 0 && !Local(d.paths[0])
    ensures !OneToOne(d)
  {
    OwnerOk(d, 0);
    var o, j := Owner(d, 0), OwnerBit(d, 0);
    BitToSiteToBit(d.kids[o], j);
    var t := Below(o, Reached(d.kids[o], j));
    assert 0 in Indices(d.paths, d.kids[o].name);
    assert SoloAtZero(d, o);
    OwnerRoute(d, 0);
    assert SiteOk(d, t) && RootBit(d, t) == 0 && t != s;
  }

  /** The connections are one-to-one exactly when every child that carries a single fault of
      several has the first of them. */
  lemma {:induction false} OneToOneIffSoloFirst(d: Inst)
    requires Distributed(d) && DistinctSiblings(d)
    ensures OneToOne(d) <==> SoloFirst(d)
    decreases d
  {
    if OneToOne(d) {
      forall c | 0 <= c < |d.kids| ensures SoloFirst(d.kids[c]) {
        KidOneToOne(d, c);
        OneToOneIffSoloFirst(d.kids[c]);
      }
      forall c | 0 <= c < |d.kids| ensures SoloAtZero(d, c) {
        if !SoloAtZero(d, c) {
          SoloCollides(d, c);
        }
      }
    }
    if SoloFirst(d) {
      forall s, t | SiteOk(d, s) && SiteOk(d, t) && RootBit(d, s) == RootBit(d, t) ensures s == t {
        SiteToBitToSite(d, s);
        SiteToBitToSite(d, t);
      }
    }
  }

  ghost function NetsAt(d: Inst, v: Val, s: Site): Net -> nat
    requires SiteOk(d, s) && SameShape(d, v)
    decreases s
  {
    match s
    case Here(_) => v.nets
    case Below(c, rest) => NetsAt(d.kids[c], v.kids[c], rest)
  }

  function WireAt(d: Inst, s: Site): string
    requires SiteOk(d, s)
    decreases s
  {
    match s
    case Here(k) => d.paths[k].wire
    case Below(c, rest) => WireAt(d.kids[c], rest)
  }

  lemma {:induction false} InjectedShape(ops: Ops, d: Inst, root: bool, v: Val)
    requires Ready(d) && Consistent(ops, InjectTree(d, root), v)
    ensures SameShape(d, v)
    decreases d
  {
    InjectTreeShape(d, root);
    forall i | 0 <= i < |d.kids| ensures SameShape(d.kids[i], v.kids[i]) {
      ReadyKid(d, i);
      InjectedShape(ops, d.kids[i], false, v.kids[i]);
    }
  }

  /** One level: a child's fault bit and the parent's bit it is routed to. */
  lemma LevelCarries(ops: Ops, d: Inst, root: bool, v: Val, c: nat, j: nat)
    requires Ready(d) && Consistent(ops, InjectTree(d, root), v) && c < |d.kids| && j < |d.kids[c].paths|
    ensures c < |v.kids| && Consistent(ops, InjectTree(d.kids[c], false), v.kids[c])
    ensures v.kids[c].nets(FaultIn(j)) % 2 == v.nets(FaultIn(Route(PortOf(d, c), j))) % 2
    ensures v.nets(FaultOut(Route(PortOf(d, c), j))) == v.kids[c].nets(FaultOut(j))
  {
    InjectTreeShape(d, root);
    ReadyKid(d, c);
    InjectTreeShape(d.kids[c], false);
    BitCarries(PortOf(d, c), |d.paths|, |d.kids[c].paths|, v.nets, v.kids[c].nets, j);
  }

  lemma BitCarries(p: FaultPort, width: nat, kidWidth: nat, env: Net -> nat, kid: Net -> nat, j: nat)
    requires FaultsAgree(p, width, kidWidth, env, kid) && p != NoFaultPort && j < kidWidth
    ensures kid(FaultIn(j)) % 2 == env(FaultIn(Route(p, j))) % 2
    ensures env(FaultOut(Route(p, j))) == kid(FaultOut(j))
  {
  }

  lemma SiteHere(ops: Ops, d: Inst, root: bool, v: Val, k: nat)
    requires Ready(d) && Consistent(ops, InjectTree(d, root), v) && k < |d.paths| && Local(d.paths[k])
    ensures v.nets(Wire(d.paths[k].wire)) == v.nets(FaultIn(k)) % 2
    ensures v.nets(FaultOut(k)) == v.nets(Original(d.paths[k].wire)) % 2
  {
    InjectTreeShape(d, root);
    SiteCarries(ops, d, InjectTree(d, root).body.defs, v, k);
  }

  /** The drive route and the observe route are the same map: the root's input bit drives
      the cut wire, and the root's output bit of the same index shows its former driver. */
  lemma {:induction false} RoutesCarry(ops: Ops, d: Inst, root: bool, v: Val, s: Site)
    requires Ready(d) && SiteOk(d, s) && Consistent(ops, InjectTree(d, root), v) && SameShape(d, v)
    ensures NetsAt(d, v, s)(Wire(WireAt(d, s))) == v.nets(FaultIn(RootBit(d, s))) % 2
    ensures v.nets(FaultOut(RootBit(d, s))) == NetsAt(d, v, s)(Original(WireAt(d, s))) % 2
    decreases s
  {
    match s
    case Here(k) => SiteHere(ops, d, root, v, k);
    case Below(c, rest) =>
      ReadyKid(d, c);
      RootBitInRange(d.kids[c], rest);
      LevelCarries(ops, d, root, v, c, RootBit(d.kids[c], rest));
      RoutesCarry(ops, d.kids[c], false, v.kids[c], rest);
  }

  lemma SiteCarries(ops: Ops, d: Inst, r: map<Net, Def>, v: Val, k: nat)
    requires CutShape(d.body.defs, d.paths, r) && Defines(ops, r, v.nets) && SingleBit(d.body.defs, d.paths)
    requires k < |d.paths| && Local(d.paths[k])
    ensures v.nets(Wire(d.paths[k].wire)) == v.nets(FaultIn(k)) % 2
    ensures v.nets(FaultOut(k)) == v.nets(Original(d.paths[k].wire)) % 2
  {
    var w := d.paths[k].wire;
    OneBit(ops, r[Wire(w)], v.nets);
    OneBit(ops, r[FaultOut(k)], v.nets);
    assert v.nets(Wire(w)) == Value(ops, r[Wire(w)], v.nets);
    assert v.nets(FaultOut(k)) == Value(ops, r[FaultOut(k)], v.nets);
  }

  lemma {:induction false} RootBitInRange(d: Inst, s: Site)
    requires Distributed(d) && SiteOk(d, s)
    ensures RootBit(d, s) < |d.paths|
    decreases s
  {
    match s
    case Here(_) =>
    case Below(c, rest) =>
      RootBitInRange(d.kids[c], rest);
      RouteInRange(d.paths, d.kids[c].name, RootBit(d.kids[c], rest));
  }

  // ---------- who drives an output bit ----------

  datatype Driver = Own | Child(c: nat)

  /** Child c drives bit i of the fault outputs: picked bits one by one, or the vector as a
      whole, zeros included. */
  predicate Drives(d: Inst, c: nat, i: nat)
    requires c < |d.kids|
  {
    d.kids[c].paths != [] &&
    match PortOf(d, c)
    case Pick(bits) => i in bits
    case _ => true
  }

  function Drivers(d: Inst, i: nat): set<Driver>
    requires i < |d.paths|
  {
    (if Local(d.paths[i]) then {Own} else {}) + set c: nat | c < |d.kids| && Drives(d, c, i) :: Child(c)
  }

  ghost predicate OneDriver(d: Inst, i: nat)
    requires i < |d.paths|
  {
    exists x :: Drivers(d, i) == {x}
  }

  ghost predicate SinglyDriven(d: Inst) {
    && (forall i :: 0 <= i < |d.paths| ==> OneDriver(d, i))
    && forall c :: 0 <= c < |d.kids| ==> SinglyDriven(d.kids[c])
  }

  lemma DrivesIfOwner(d: Inst, c: nat, i: nat)
    requires Distributed(d) && i < |d.paths| && c < |d.kids| && GoesThrough(d.paths[i], d.kids[c].name)
    ensures Drives(d, c, i)
  {
    IndicesComplete(d.paths, d.kids[c].name, i);
    assert d.kids[c].paths == Through(d.paths, d.kids[c].name);
  }

  lemma OnlyOwnerDrives(d: Inst, c: nat, i: nat)
    requires Distributed(d) && i < |d.paths| && c < |d.kids| && Drives(d, c, i)
    requires |d.paths| > 1 ==> |d.kids[c].paths| != 1
    ensures GoesThrough(d.paths[i], d.kids[c].name)
  {
    var bits := Indices(d.paths, d.kids[c].name);
    assert |d.kids[c].paths| == |bits|;
    if |bits| == 1 {
      assert bits[0] == i;
    } else {
      var k :| 0 <= k < |bits| && bits[k] == i;
    }
  }

  lemma DrivenOnce(d: Inst, i: nat)
    requires Distributed(d) && DistinctSiblings(d) && i < |d.paths|
    requires |d.paths| > 1 ==> forall c :: 0 <= c < |d.kids| ==> |d.kids[c].paths| != 1
    ensures OneDriver(d, i)
  {
    forall c: nat | c < |d.kids| ensures Drives(d, c, i) <==> GoesThrough(d.paths[i], d.kids[c].name) {
      if Drives(d, c, i) {
        OnlyOwnerDrives(d, c, i);
      }
      if GoesThrough(d.paths[i], d.kids[c].name) {
        DrivesIfOwner(d, c, i);
      }
    }
    if !Local(d.paths[i]) {
      OwnerOk(d, i);
      ThroughOne(d, i, Owner(d, i));
    }
    DrivenByOwner(d, i);
  }

  lemma DrivenByOwner(d: Inst, i: nat)
    requires i < |d.paths|
    requires forall c: nat :: c < |d.kids| ==> (Drives(d, c, i) <==> GoesThrough(d.paths[i], d.kids[c].name))
    requires !Local(d.paths[i]) ==> Owner(d, i) < |d.kids| && forall c: nat :: c < |d.kids| ==>
               (GoesThrough(d.paths[i], d.kids[c].name) <==> c == Owner(d, i))
    ensures OneDriver(d, i)
  {
    if Local(d.paths[i]) {
      assert Drivers(d, i) == {Own};
    } else {
      assert Drivers(d, i) == {Child(Owner(d, i))};
    }
  }

  lemma ThroughOne(d: Inst, i: nat, o: nat)
    requires DistinctSiblings(d) && i < |d.paths| && o < |d.kids| && GoesThrough(d.paths[i], d.kids[o].name)
    ensures forall c: nat :: c < |d.kids| && GoesThrough(d.paths[i], d.kids[c].name) ==> c == o
  {
  }

  lemma DrivenTwice(d: Inst, c: nat)
    requires Distributed(d) && |d.paths| > 1 && c < |d.kids| && |d.kids[c].paths| == 1
    ensures exists i :: 0 <= i < |d.paths| && !OneDriver(d, i)
  {
    var bits := Indices(d.paths, d.kids[c].name);
    assert |d.kids[c].paths| == |bits|;
    var j := if bits[0] == 0 then 1 else 0;
    if Local(d.paths[j]) {
      TwoDrivers(d, j, Own, Child(c));
    } else {
      OwnerOk(d, j);
      DrivesIfOwner(d, Owner(d, j), j);
      IndicesComplete(d.paths, d.kids[Owner(d, j)].name, j);
      assert Owner(d, j) != c;
      TwoDrivers(d, j, Child(Owner(d, j)), Child(c));
    }
  }

  lemma TwoDrivers(d: Inst, i: nat, x: Driver, y: Driver)
    requires i < |d.paths| && x in Drivers(d, i) && y in Drivers(d, i) && x != y
    ensures !OneDriver(d, i)
  {
  }

  /** Every fault output bit of every instance has exactly one driver if and only if no
      instance with several faults has a child with exactly one. */
  lemma {:induction false} SinglyDrivenIffRoutingOk(d: Inst)
    requires Distributed(d) && DistinctSiblings(d)
    ensures SinglyDriven(d) <==> RoutingOk(d)
    decreases d
  {
    forall c | 0 <= c < |d.kids| ensures SinglyDriven(d.kids[c]) <==> RoutingOk(d.kids[c]) {
      SinglyDrivenIffRoutingOk(d.kids[c]);
    }
    if |d.paths| > 1 && exists c :: 0 <= c < |d.kids| && |d.kids[c].paths| == 1 {
      var c :| 0 <= c < |d.kids| && |d.kids[c].paths| == 1;
      DrivenTwice(d, c);
    } else {
      forall i | 0 <= i < |d.paths| ensures OneDriver(d, i) {
        DrivenOnce(d, i);
      }
    }
  }

  // ---------- which fault a bit belongs to ----------

  /** The site that the i-th marked path names. */
  function Named(d: Inst, i: nat): Site {
    var c := Owner(d, i);
    if c == |d.kids| then Here(i)
    else Below(c, Named(d.kids[c], PositionOf(Indices(d.paths, d.kids[c].name), i)))
  }

  lemma {:induction false} NamedOk(d: Inst, i: nat)
    requires Distributed(d) && i < |d.paths|
    ensures SiteOk(d, Named(d, i))
    decreases d
  {
    if !Local(d.paths[i]) {
      OwnerOk(d, i);
      var c := Owner(d, i);
      IndicesComplete(d.paths, d.kids[c].name, i);
      NamedOk(d.kids[c], PositionOf(Indices(d.paths, d.kids[c].name), i));
    } else {
      assert Owner(d, i) == |d.kids|;
    }
  }

  /** That site bears the wire that the path names. */
  lemma {:induction false} NamedWire(d: Inst, i: nat)
    requires Distributed(d) && i < |d.paths|
    ensures SiteOk(d, Named(d, i))
    ensures WireAt(d, Named(d, i)) == d.paths[i].wire
    decreases d
  {
    if !Local(d.paths[i]) {
      OwnerOk(d, i);
      var c := Owner(d, i);
      var k := PositionOf(Indices(d.paths, d.kids[c].name), i);
      IndicesComplete(d.paths, d.kids[c].name, i);
      assert d.kids[c].paths[k] == Through(d.paths, d.kids[c].name)[k] == Tail(d.paths[i]);
      NamedWire(d.kids[c], k);
    } else {
      assert Owner(d, i) == |d.kids|;
    }
  }

  function Flipped(n: nat, flip: bool, i: nat): nat
    requires i < n
  {
    if flip then n - 1 - i else i
  }

  /** The i-th marked fault is connected to root bit i, counted from the other end when flipped. */
  ghost predicate InOrder(d: Inst, flip: bool) {
    forall i :: 0 <= i < |d.paths| ==> RootBit(d, Named(d, i)) == Flipped(|d.paths|, flip, i)
  }

  /** The positions of a child's faults lie symmetrically in the list. */
  predicate Symmetric(bits: seq<nat>, n: nat) {
    forall k :: 0 <= k < |bits| ==> bits[k] + bits[|bits| - 1 - k] == n - 1
  }

  /** Where the faults of a child must lie: a single one where bit 0 belongs, several of them
      symmetrically when flipped. */
  predicate PlacedIn(bits: seq<nat>, n: nat, flip: bool) {
    if |bits| == 1 then n > 0 && bits[0] == Flipped(n, flip, 0) else flip ==> Symmetric(bits, n)
  }

  predicate WellPlaced(d: Inst, flip: bool, c: nat)
    requires c < |d.kids|
  {
    PlacedIn(Indices(d.paths, d.kids[c].name), |d.paths|, flip)
  }

  /** Each connection to a child with several faults reverses the order, so below an odd number
      of them own faults must sit in the middle, and every child's faults be well placed. */
  ghost predicate Balanced(d: Inst, flip: bool)
    decreases d
  {
    && (flip ==> forall i :: 0 <= i < |d.paths| && Local(d.paths[i]) ==> 2 * i == |d.paths| - 1)
    && (forall c :: 0 <= c < |d.kids| ==> WellPlaced(d, flip, c))
    && forall c :: 0 <= c < |d.kids| ==> Balanced(d.kids[c], !flip)
  }

  lemma NamedThrough(d: Inst, c: nat, k: nat, i: nat)
    requires Distributed(d) && DistinctSiblings(d) && c < |d.kids| && k < |d.kids[c].paths|
    requires k < |Indices(d.paths, d.kids[c].name)| && i == Indices(d.paths, d.kids[c].name)[k]
    ensures i < |d.paths| && Named(d, i) == Below(c, Named(d.kids[c], k))
  {
    ChildEntry(d, c, k);
  }

  lemma KidBitInRange(d: Inst, c: nat, k: nat)
    requires Distributed(d) && c < |d.kids| && k < |d.kids[c].paths|
    ensures RootBit(d.kids[c], Named(d.kids[c], k)) < |Indices(d.paths, d.kids[c].name)| == |d.kids[c].paths|
  {
    assert |d.kids[c].paths| == |Through(d.paths, d.kids[c].name)|;
    NamedOk(d.kids[c], k);
    RootBitInRange(d.kids[c], Named(d.kids[c], k));
  }

  /** ... and to which root bit it is connected. */
  lemma KidRootBit(d: Inst, c: nat, k: nat)
    requires Distributed(d) && DistinctSiblings(d) && c < |d.kids| && k < |d.kids[c].paths|
    ensures k < |Indices(d.paths, d.kids[c].name)| == |d.kids[c].paths|
    ensures var bits := Indices(d.paths, d.kids[c].name);
            RootBit(d, Named(d, bits[k])) == Route(Connection(bits), RootBit(d.kids[c], Named(d.kids[c], k)))
  {
    ChildEntry(d, c, k);
    NamedThrough(d, c, k, Indices(d.paths, d.kids[c].name)[k]);
  }

  /** Several faults are reversed, a single one is connected to bit 0: a well placed child's
      fault is in order exactly when it is in the opposite order below. */
  lemma MirrorOf(bits: seq<nat>, n: nat, flip: bool, j: nat, k: nat)
    requires j < |bits| && k < |bits| && bits[k] < n
    requires forall x, y :: 0 <= x < y < |bits| ==> bits[x] < bits[y]
    requires PlacedIn(bits, n, flip)
    ensures Route(Connection(bits), j) == Flipped(n, flip, bits[k]) <==> j == Flipped(|bits|, !flip, k)
  {
    var m := |bits|;
    if flip && m > 1 {
      assert bits[k] + bits[m - 1 - k] == n - 1;
    }
  }

  lemma KidInOrder(d: Inst, flip: bool, c: nat, k: nat)
    requires Distributed(d) && DistinctSiblings(d) && c < |d.kids| && k < |d.kids[c].paths| && WellPlaced(d, flip, c)
    ensures k < |Indices(d.paths, d.kids[c].name)| && Indices(d.paths, d.kids[c].name)[k] < |d.paths|
    ensures var i, n, m := Indices(d.paths, d.kids[c].name)[k], |d.paths|, |d.kids[c].paths|;
            RootBit(d, Named(d, i)) == Flipped(n, flip, i) <==>
            RootBit(d.kids[c], Named(d.kids[c], k)) == Flipped(m, !flip, k)
  {
    KidBitInRange(d, c, k);
    KidRootBit(d, c, k);
    MirrorOf(Indices(d.paths, d.kids[c].name), |d.paths|, flip, RootBit(d.kids[c], Named(d.kids[c], k)), k);
  }

  lemma {:induction false} BalancedIsInOrder(d: Inst, flip: bool)
    requires Distributed(d) && DistinctSiblings(d) && Balanced(d, flip)
    ensures InOrder(d, flip)
    decreases d
  {
    forall c | 0 <= c < |d.kids| ensures InOrder(d.kids[c], !flip) {
      BalancedIsInOrder(d.kids[c], !flip);
    }
    forall i | 0 <= i < |d.paths| ensures RootBit(d, Named(d, i)) == Flipped(|d.paths|, flip, i) {
      if !Local(d.paths[i]) {
        OwnerOk(d, i);
        BalancedEntry(d, flip, Owner(d, i), i);
      }
    }
  }

  lemma BalancedEntry(d: Inst, flip: bool, c: nat, i: nat)
    requires Distributed(d) && DistinctSiblings(d) && i < |d.paths| && !Local(d.paths[i])
    requires c == Owner(d, i) < |d.kids| && InOrder(d.kids[c], !flip) && WellPlaced(d, flip, c)
    ensures RootBit(d, Named(d, i)) == Flipped(|d.paths|, flip, i)
  {
    OwnerOk(d, i);
    var k := PositionOf(Indices(d.paths, d.kids[c].name), i);
    IndicesComplete(d.paths, d.kids[c].name, i);
    KidInOrder(d, flip, c, k);
  }

  /** f gives the position of each entry's mirror image; it falls by at least one a step. */
  ghost predicate Mirrors(bits: seq<nat>, n: nat, f: seq<nat>) {
    && |f| == |bits|
    && (forall k :: 0 <= k < |f| ==> f[k] < |bits| && bits[k] < n && bits[f[k]] == n - 1 - bits[k])
    && forall k :: 0 <= k < |f| - 1 ==> f[k + 1] < f[k]
  }

  lemma {:induction false} MirrorLow(bits: seq<nat>, n: nat, f: seq<nat>, k: nat)
    requires Mirrors(bits, n, f) && k < |f|
    ensures f[k] <= |bits| - 1 - k
  {
    if k > 0 {
      MirrorLow(bits, n, f, k - 1);
      assert f[k - 1 + 1] < f[k - 1];
    }
  }

  lemma {:induction false} MirrorHigh(bits: seq<nat>, n: nat, f: seq<nat>, k: nat)
    requires Mirrors(bits, n, f) && k < |f|
    ensures f[k] >= |bits| - 1 - k
    decreases |f| - k
  {
    if k < |f| - 1 {
      MirrorHigh(bits, n, f, k + 1);
    }
  }

  predicate HasMirror(bits: seq<nat>, n: nat, i: nat)
    requires i < |bits|
  {
    bits[i] < n && (n - 1 - bits[i]) in bits
  }

  lemma MirrorExists(bits: seq<nat>, n: nat) returns (f: seq<nat>)
    requires forall i, j :: 0 <= i < j < |bits| ==> bits[i] < bits[j]
    requires forall i :: 0 <= i < |bits| ==> HasMirror(bits, n, i)
    ensures Mirrors(bits, n, f)
  {
    f := seq(|bits|, k requires 0 <= k < |bits| => PositionOf(bits, if bits[k] < n then n - 1 - bits[k] else 0));
    forall k | 0 <= k < |f| ensures f[k] < |bits| && bits[k] < n && bits[f[k]] == n - 1 - bits[k] {
      assert HasMirror(bits, n, k);
    }
    forall k | 0 <= k < |f| - 1 ensures f[k + 1] < f[k] {
      var p, q := f[k], f[k + 1];
      assert bits[p] == n - 1 - bits[k] && bits[q] == n - 1 - bits[k + 1];
      assert bits[p] > bits[q];
    }
  }

  /** An increasing list closed under mirroring is its own mirror image. */
  lemma MirrorClosed(bits: seq<nat>, n: nat)
    requires forall i, j :: 0 <= i < j < |bits| ==> bits[i] < bits[j]
    requires forall i :: 0 <= i < |bits| ==> HasMirror(bits, n, i)
    ensures Symmetric(bits, n)
  {
    var f := MirrorExists(bits, n);
    MirrorSymmetric(bits, n, f);
  }

  lemma MirrorSymmetric(bits: seq<nat>, n: nat, f: seq<nat>)
    requires Mirrors(bits, n, f)
    ensures Symmetric(bits, n)
  {
    forall k | 0 <= k < |bits| ensures bits[k] + bits[|bits| - 1 - k] == n - 1 {
      MirrorLow(bits, n, f, k);
      MirrorHigh(bits, n, f, k);
    }
  }

  lemma InOrderEntry(d: Inst, flip: bool, c: nat, k: nat)
    requires Distributed(d) && DistinctSiblings(d) && InOrder(d, flip) && c < |d.kids| && k < |d.kids[c].paths|
    ensures var bits, j := Indices(d.paths, d.kids[c].name), RootBit(d.kids[c], Named(d.kids[c], k));
            && j < |bits| == |d.kids[c].paths| && bits[k] < |d.paths|
            && Route(Connection(bits), j) == Flipped(|d.paths|, flip, bits[k])
  {
    KidBitInRange(d, c, k);
    KidRootBit(d, c, k);
  }

  lemma InOrderPlaced(d: Inst, flip: bool, c: nat)
    requires Distributed(d) && DistinctSiblings(d) && InOrder(d, flip) && c < |d.kids|
    ensures WellPlaced(d, flip, c)
  {
    var n, bits := |d.paths|, Indices(d.paths, d.kids[c].name);
    assert |bits| == |Through(d.paths, d.kids[c].name)| == |d.kids[c].paths|;
    if |bits| == 1 {
      InOrderEntry(d, flip, c, 0);
    } else if flip {
      forall k | 0 <= k < |bits| ensures HasMirror(bits, n, k) {
        InOrderEntry(d, flip, c, k);
        MirrorAt(bits, n, RootBit(d.kids[c], Named(d.kids[c], k)), k);
      }
      MirrorClosed(bits, n);
    }
  }

  lemma MirrorAt(bits: seq<nat>, n: nat, j: nat, k: nat)
    requires |bits| > 1 && j < |bits| && k < |bits| && bits[k] < n
    requires Route(Connection(bits), j) == n - 1 - bits[k]
    ensures HasMirror(bits, n, k)
  {
  }

  lemma InOrderChild(d: Inst, flip: bool, c: nat)
    requires Distributed(d) && DistinctSiblings(d) && InOrder(d, flip) && c < |d.kids|
    ensures InOrder(d.kids[c], !flip)
  {
    forall k | 0 <= k < |d.kids[c].paths|
      ensures RootBit(d.kids[c], Named(d.kids[c], k)) == Flipped(|d.kids[c].paths|, !flip, k)
    {
      ChildEntry(d, c, k);
      InOrderPlaced(d, flip, c);
      KidInOrder(d, flip, c, k);
    }
  }

  lemma {:induction false} InOrderIsBalanced(d: Inst, flip: bool)
    requires Distributed(d) && DistinctSiblings(d) && InOrder(d, flip)
    ensures Balanced(d, flip)
    decreases d
  {
    forall i | 0 <= i < |d.paths| && Local(d.paths[i]) ensures flip ==> 2 * i == |d.paths| - 1 {
      assert Named(d, i) == Here(i);
    }
    forall c | 0 <= c < |d.kids|
      ensures WellPlaced(d, flip, c) && Balanced(d.kids[c], !flip)
    {
      InOrderPlaced(d, flip, c);
      InOrderChild(d, flip, c);
      InOrderIsBalanced(d.kids[c], !flip);
    }
  }

  /** The driver's i-th line, labelled with the i-th marked fault, drives that fault for
      every i exactly when the tree is balanced. */
  lemma LabelsHoldIffBalanced(d: Inst)
    requires Distributed(d) && DistinctSiblings(d)
    ensures InOrder(d, false) <==> Balanced(d, false)
  {
    if Balanced(d, false) {
      BalancedIsInOrder(d, false);
    }
    if InOrder(d, false) {
      InOrderIsBalanced(d, false);
    }
  }
}
