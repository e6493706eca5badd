/** `mm_magic_t`: the memory model without timing. */
module MagicMemory {
  import opened Arith
  import opened Axi
  import opened ByteStore
  import opened WriteEngine
  import opened MemoryModel

  datatype MagicState = MagicState(store: Store, writer: Writer, bresp: seq<nat>, rresp: seq<RBeat>, cycle: nat)

  predicate MagicOk(s: MagicState) {
    WriterOk(s.writer, s.store.word)
  }

  predicate LegalTick(s: MagicState, i: Inputs) {
    LegalInputs(i, s.store.word) && LastBeatMarked(s.writer, i)
  }

  predicate ArFire(i: Inputs) { !i.reset && i.arValid }

  /** The AR, AW and W channels of one cycle. */
  function AcceptStep(s: MagicState, i: Inputs): (r: MagicState)
    requires MagicOk(s) && LegalTick(s, i)
  {
    var writer := WriterStep(s.writer, AwFire(s.writer, i), i);
    MagicState(
      if WFire(s.writer, i) then WriteBeat(s.store, s.writer.addr, i.w, s.writer.size) else s.store,
      writer,
      if WFire(s.writer, i) && !writer.inflight then s.bresp + [s.writer.id] else s.bresp,
      if ArFire(i) then s.rresp + Expand(s.store, ToReq(i.ar)) else s.rresp,
      s.cycle)
  }

  /** The R and B channels, and reset. */
  function RetireStep(s: MagicState, rFire: bool, bFire: bool, reset: bool): MagicState {
    if reset then s.(bresp := [], rresp := [], cycle := 0)
    else s.(bresp := Popped(s.bresp, bFire), rresp := Popped(s.rresp, rFire), cycle := Wrap(s.cycle + 1))
  }

  /** One clock cycle; the response handshakes look at the queues as they were before it. */
  function MagicStep(s: MagicState, i: Inputs): (r: MagicState)
    requires MagicOk(s) && LegalTick(s, i)
  {
    RetireStep(AcceptStep(s, i), !i.reset && s.rresp != [] && i.rReady, !i.reset && s.bresp != [] && i.bReady, i.reset)
  }

  class MagicMemoryModel {
    const mem: Memory
    var storeInflight: bool
    var storeAddr: nat
    var storeId: nat
    var storeSize: nat
    var storeCount: nat
    var bresp: seq<nat>
    var rresp: seq<RBeat>
    var cycle: nat

    ghost predicate Valid()
      reads this
    {
      mem.Valid() && WriterOk(Writer(storeInflight, storeAddr, storeId, storeSize, storeCount), mem.word)
    }

    ghost function State(): MagicState
      requires Valid()
      reads this, mem.data
    {
      MagicState(mem.Contents(), Writer(storeInflight, storeAddr, storeId, storeSize, storeCount), bresp, rresp, cycle)
    }

    constructor Init(size: nat, word: nat, line: nat)
      requires word > 0 && line > 0 && BitAnd(line, line - 1) == 0 && line % word == 0
      requires 0 < size && size % word == 0 && word <= 16
      ensures Valid() && fresh(mem) && fresh(mem.data)
      ensures !State().writer.inflight && State().bresp == [] && State().rresp == []
      ensures State().store == StoreRecord(seq(size, _ => 0), word)
    {
      mem := new Memory.Init(size, word, line);
      storeInflight, storeAddr, storeId, storeSize, storeCount := false, 0, 0, 0, 0;
      bresp, rresp, cycle := [], [], 0;
    }

    /** Push the beats of an accepted read burst. */
    method AcceptRead(ar: Address)
      requires Valid() && LegalAddress(ar, mem.word)
      modifies `rresp
      ensures rresp == old(rresp) + Expand(mem.Contents(), ToReq(ar))
    {
      var startAddr := AlignDown(ar.addr, mem.word);
      ghost var beats := Expand(mem.Contents(), ToReq(ar));
      for k := 0 to ar.len + 1
        invariant rresp == old(rresp) + beats[..k]
      {
        BeatAddressAligned(mem.Contents(), startAddr, k, mem.word);
        var dat := mem.Read(BeatAddress(startAddr, k, mem.word));
        rresp := rresp + [RBeat(ar.id, dat, k == ar.len)];
        assert beats[..k + 1] == beats[..k] + [beats[k]];
      }
      assert beats[..ar.len + 1] == beats;
    }

    /** Store one accepted W beat and finish the burst after its last one. */
    method AcceptBeat(w: WBeat)
      requires Valid() && State().writer.inflight && |w.data| == mem.word
      modifies this, mem.data
      ensures Valid() && State().writer == NextBeat(old(State().writer))
      ensures State().store == WriteBeat(old(State().store), old(storeAddr), w, old(storeSize))
      ensures State().bresp == old(bresp) + if old(storeCount) == 1 then [old(storeId)] else []
      ensures State().rresp == old(rresp) && State().cycle == old(cycle)
    {
      mem.Write(storeAddr, w, storeSize);
      storeAddr := Wrap(storeAddr + storeSize);
      storeCount := storeCount - 1;
      if storeCount == 0 {
        storeInflight := false;
        bresp := bresp + [storeId];
      }
    }

    method AcceptRequests(i: Inputs)
      requires Valid() && LegalTick(State(), i)
      modifies this, mem.data
      ensures Valid() && State() == AcceptStep(old(State()), i)
    {
      var arFire := !i.reset && i.arValid;
      var awFire := !i.reset && i.awValid && !storeInflight;
      var wFire := !i.reset && i.wValid && storeInflight;
      if arFire {
        AcceptRead(i.ar);
      }
      if awFire {
        BeatDividesWord(i.aw.size, mem.word);
        storeAddr, storeId, storeCount, storeSize := i.aw.addr, i.aw.id, i.aw.len + 1, Pow2(i.aw.size);
        storeInflight := true;
      }
      if wFire {
        AcceptBeat(i.w);
      }
    }

    method Tick(i: Inputs)
      requires Valid() && LegalTick(State(), i)
      modifies this, mem.data
      ensures Valid() && State() == MagicStep(old(State()), i)
    {
      var rFire := !i.reset && rresp != [] && i.rReady;
      var bFire := !i.reset && bresp != [] && i.bReady;
      AcceptRequests(i);
      Retire(rFire, bFire, i.reset);
    }

    /** The R and B channels, the cycle counter and reset. */
    method Retire(rFire: bool, bFire: bool, reset: bool)
      requires Valid() && (rFire ==> rresp != []) && (bFire ==> bresp != [])
      modifies `rresp, `bresp, `cycle
      ensures Valid() && State() == RetireStep(old(State()), rFire, bFire, reset)
    {
      ghost var contents := mem.Contents();
      if bFire {
        bresp := bresp[1..];
      }
      if rFire {
        rresp := rresp[1..];
      }
      cycle := Wrap(cycle + 1);
      if reset {
        bresp, rresp, cycle := [], [], 0;
      }
      assert mem.Contents() == contents;
    }
  }

  // ---------- runs ----------

  /** A state and what has happened on the channels since the run began. */
  datatype MagicRun = MagicRun(
    s: MagicState, initial: Store,
    accepted: seq<Tagged>, delivered: seq<RBeat>,
    bursts: seq<Burst>, deliveredB: seq<nat>)

  /** Every beat produced so far is a beat of an accepted request, in order, and
      write responses are the identifiers of the finished bursts, in order. */
  ghost predicate MagicInv(h: MagicRun) {
    && WriteInv(h.initial, h.bursts, h.s.writer, h.s.store)
    && h.delivered + h.s.rresp == Flatten(ExpandTagged(h.accepted))
    && h.deliveredB + h.s.bresp == Ids(Finished(h.bursts, h.s.writer.inflight))
    && (forall t :: t in h.accepted ==> t.req.len > 0)
  }

  /** A run that has just begun: every invariant holds. */
  ghost function MagicStart(store: Store): (r: MagicRun)
    ensures MagicInv(r) && r.initial == store
  {
    MagicRun(MagicState(store, IDLE, [], [], 0), store, [], [], [], [])
  }

  /** One reset-free clock cycle of a run. */
  function MagicRunStep(h: MagicRun, i: Inputs): (r: MagicRun)
    requires MagicOk(h.s) && LegalTick(h.s, i) && !i.reset
    requires h.s.writer.inflight ==> h.bursts != []
    ensures r.s == MagicStep(h.s, i)
  {
    MagicRun(
      MagicStep(h.s, i), h.initial,
      if ArFire(i) then h.accepted + [Tagged(ToReq(i.ar), h.s.store)] else h.accepted,
      h.delivered + Delivered(h.s.rresp, i.rReady),
      BurstsStep(h.bursts, h.s.writer, AwFire(h.s.writer, i), i),
      h.deliveredB + Delivered(h.s.bresp, i.bReady))
  }

  lemma MagicInvStep(h: MagicRun, i: Inputs)
    requires MagicInv(h) && LegalTick(h.s, i) && !i.reset
    ensures MagicInv(MagicRunStep(h, i))
  {
    MagicStoreStep(h, i);
    MagicReadStep(h, i);
    MagicWriteRespStep(h, i);
  }

  lemma MagicStoreStep(h: MagicRun, i: Inputs)
    requires MagicInv(h) && LegalTick(h.s, i) && !i.reset
    ensures var r := MagicRunStep(h, i);
            WriteInv(r.initial, r.bursts, r.s.writer, r.s.store)
  {
    if AwFire(h.s.writer, i) {
      WriteInvStart(h.initial, h.bursts, h.s.writer, h.s.store, i.aw);
    } else if WFire(h.s.writer, i) {
      WriteInvBeat(h.initial, h.bursts, h.s.writer, h.s.store, i.w);
    }
  }

  lemma MagicReadStep(h: MagicRun, i: Inputs)
    requires MagicInv(h) && LegalTick(h.s, i) && !i.reset
    ensures var r := MagicRunStep(h, i);
            && r.delivered + r.s.rresp == Flatten(ExpandTagged(r.accepted))
            && (forall t :: t in r.accepted ==> t.req.len > 0)
  {
    var t := Tagged(ToReq(i.ar), h.s.store);
    var beats := if ArFire(i) then Expand(t.snap, t.req) else [];
    PopKeeps(h.delivered, h.s.rresp, beats, i.rReady);
    RrespStep(h.s, i, beats);
    if ArFire(i) {
      assert ExpandTagged(h.accepted + [t]) == ExpandTagged(h.accepted) + [beats];
      FlattenSnoc(ExpandTagged(h.accepted), beats);
    } else {
      assert Flatten(ExpandTagged(h.accepted)) + beats == Flatten(ExpandTagged(h.accepted));
    }
  }

  lemma RrespStep(s: MagicState, i: Inputs, beats: seq<RBeat>)
    requires MagicOk(s) && LegalTick(s, i) && !i.reset
    requires beats == if ArFire(i) then Expand(s.store, ToReq(i.ar)) else []
    ensures MagicStep(s, i).rresp == Popped(s.rresp + beats, s.rresp != [] && i.rReady)
  {
    assert s.rresp + [] == s.rresp;
  }

  lemma MagicWriteRespStep(h: MagicRun, i: Inputs)
    requires MagicInv(h) && LegalTick(h.s, i) && !i.reset
    ensures var r := MagicRunStep(h, i);
            r.deliveredB + r.s.bresp == Ids(Finished(r.bursts, r.s.writer.inflight))
  {
    var done := if WFire(h.s.writer, i) && h.s.writer.count == 1 then [h.s.writer.id] else [];
    PopKeeps(h.deliveredB, h.s.bresp, done, i.bReady);
    FinishedStep(h.bursts, h.s.writer, AwFire(h.s.writer, i), i);
    BrespStep(h.s, i, done);
  }

  lemma BrespStep(s: MagicState, i: Inputs, done: seq<nat>)
    requires MagicOk(s) && LegalTick(s, i) && !i.reset
    requires done == if WFire(s.writer, i) && s.writer.count == 1 then [s.writer.id] else []
    ensures MagicStep(s, i).bresp == Popped(s.bresp + done, s.bresp != [] && i.bReady)
    ensures MagicStep(s, i).writer == WriterStep(s.writer, AwFire(s.writer, i), i)
  {
    assert s.bresp + [] == s.bresp;
  }

  ghost predicate LegalRun(h: MagicRun, ins: seq<Inputs>)
    requires MagicInv(h)
    decreases |ins|
  {
    ins == [] ||
    (LegalTick(h.s, ins[0]) && !ins[0].reset &&
     (MagicInvStep(h, ins[0]); LegalRun(MagicRunStep(h, ins[0]), ins[1..])))
  }

  ghost function RunFrom(h: MagicRun, ins: seq<Inputs>): (r: MagicRun)
    requires MagicInv(h) && LegalRun(h, ins)
    ensures MagicInv(r) && r.initial == h.initial
    decreases |ins|
  {
    if ins == [] then h
    else
      MagicInvStep(h, ins[0]);
      RunFrom(MagicRunStep(h, ins[0]), ins[1..])
  }

  /** Conservation on both response channels, over every reset-free run: read beats are
      those of the accepted requests in order, write responses are those of the finished
      bursts in order, the store is the accepted bursts applied in order, and a burst in
      flight still expects a beat. */
  lemma MagicStreams(store: Store, ins: seq<Inputs>)
    requires LegalRun(MagicStart(store), ins)
    ensures var r := RunFrom(MagicStart(store), ins);
            && r.delivered + r.s.rresp == Flatten(ExpandTagged(r.accepted))
            && r.deliveredB + r.s.bresp == Ids(Finished(r.bursts, r.s.writer.inflight))
            && (r.s.writer.inflight ==> r.s.writer.count >= 1)
            && (forall i: Inputs :: !(AwFire(r.s.writer, i) && WFire(r.s.writer, i)))
            && (forall b :: b in r.bursts ==> BurstOk(b, store.word))
            && (forall b :: b in Finished(r.bursts, r.s.writer.inflight) ==> Complete(b))
            && r.s.store == ApplyBursts(store, r.bursts)
  {
  }

  // ---------- splitting the read stream ----------

  /** Cut a stream of beats after each beat marked last. */
  function SplitAtLast(beats: seq<RBeat>, current: seq<RBeat>): seq<seq<RBeat>>
    decreases |beats|
  {
    if beats == [] then (if current == [] then [] else [current])
    else if beats[0].last then [current + [beats[0]]] + SplitAtLast(beats[1..], [])
    else SplitAtLast(beats[1..], current + [beats[0]])
  }

  predicate WellMarked(burst: seq<RBeat>) {
    burst != [] && forall i :: 0 <= i < |burst| ==> (burst[i].last <==> i == |burst| - 1)
  }

  lemma {:induction false} SplitOne(burst: seq<RBeat>, k: nat, rest: seq<RBeat>)
    requires WellMarked(burst) && k < |burst|
    ensures SplitAtLast(burst[k..] + rest, burst[..k]) == [burst] + SplitAtLast(rest, [])
    decreases |burst| - k
  {
    var beats := burst[k..] + rest;
    assert beats[0] == burst[k];
    assert burst[..k] + [burst[k]] == burst[..k + 1];
    assert beats[1..] == burst[k + 1..] + rest;
    if k + 1 < |burst| {
      SplitOne(burst, k + 1, rest);
    } else {
      assert burst[..k + 1] == burst && burst[k + 1..] + rest == rest;
    }
  }

  /** The `last` marks recover the bursts from the stream. */
  lemma {:induction false} SplitRecovers(bursts: seq<seq<RBeat>>)
    requires forall b :: b in bursts ==> WellMarked(b)
    ensures SplitAtLast(Flatten(bursts), []) == bursts
  {
    if bursts != [] {
      var rest := bursts[1..];
      SplitRecovers(rest);
      FlattenConcat([bursts[0]], rest);
      assert [bursts[0]][..0] == [];
      assert Flatten([bursts[0]]) == bursts[0];
      assert bursts == [bursts[0]] + rest;
      SplitOne(bursts[0], 0, Flatten(rest));
      assert bursts[0][0..] + Flatten(rest) == Flatten(bursts);
      assert bursts[0][..0] == [];
    }
  }

  /** Once drained, the delivered beats split at `last` into one burst per accepted request. */
  lemma MagicDrainedSplits(store: Store, ins: seq<Inputs>)
    requires LegalRun(MagicStart(store), ins)
    requires RunFrom(MagicStart(store), ins).s.rresp == []
    ensures var r := RunFrom(MagicStart(store), ins);
            SplitAtLast(r.delivered, []) == ExpandTagged(r.accepted)
  {
    var r := RunFrom(MagicStart(store), ins);
    forall b | b in ExpandTagged(r.accepted) ensures WellMarked(b) {
      var k :| 0 <= k < |r.accepted| && b == Expand(r.accepted[k].snap, r.accepted[k].req);
      assert r.accepted[k] in r.accepted;
    }
    SplitRecovers(ExpandTagged(r.accepted));
    assert r.delivered + r.s.rresp == r.delivered;
  }
}
