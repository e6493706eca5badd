/** Both memory models as their ports show them: which offers are taken, what is answered, and
    that it is all determined by what was taken before. */
module BusPorts {
  import opened Axi
  import opened ByteStore
  import opened WriteEngine
  import opened DramHistory
  import opened BusLog
  import opened ReadBeats
  import opened StoreBytes
  import M = MagicMemory

  // ---------- which offers are taken ----------

  /** What the master drives in a cycle, and whether the DRAM accepts transactions then. */
  datatype Offer = Offer(i: Inputs, accept: bool)

  /** The transfers of a cycle: on each channel, one exactly when valid and ready are both high. */
  function Taken(i: Inputs, arReady: bool, awReady: bool, wReady: bool): seq<Event> {
    (if i.arValid && arReady then [ReadEvent(i.ar)] else []) +
    (if i.awValid && awReady then [WriteEvent(i.aw)] else []) +
    (if i.wValid && wReady then [BeatEvent(i.w)] else [])
  }

  /** The last burst still expects beats. */
  predicate Open(bursts: seq<Burst>) {
    bursts != [] && |bursts[|bursts| - 1].beats| <= bursts[|bursts| - 1].aw.len
  }

  /** A log and the transfers of further cycles: reads are taken whenever the DRAM accepts, write
      addresses then too unless a burst is open, and data exactly while one is open. */
  function Transfers(log: seq<Event>, offers: seq<Offer>): seq<Event>
    decreases |offers|
  {
    if offers == [] then log
    else
      var o, open := offers[0], Open(BurstsOf(log));
      Transfers(log + Taken(o.i, o.accept, o.accept && !open, open), offers[1..])
  }

  /** A burst is in flight exactly when the last one expects beats. */
  lemma InflightIsOpen(initial: Store, bursts: seq<Burst>, w: Writer, now: Store)
    requires WriteInv(initial, bursts, w, now)
    ensures w.inflight <==> Open(bursts)
  {
    if !w.inflight && bursts != [] {
      assert bursts[|bursts| - 1] in Finished(bursts, false);
    }
  }

  /** The transfers of a cycle, from the ready outputs. */
  lemma CycleIsTaken(w: Writer, i: Inputs, accept: bool)
    requires !i.reset
    ensures CycleLog(w, i, i.arValid && accept, i.awValid && accept && !w.inflight) ==
            Taken(i, accept, accept && !w.inflight, w.inflight)
  {
  }

  // ---------- the magic model ----------

  /** `ar_ready` is always high, `aw_ready` while no burst is in flight, `w_ready` while one is. */
  lemma MagicTakes(m: M.MagicRun, i: Inputs)
    requires M.MagicInv(m) && M.LegalTick(m.s, i) && !i.reset
    ensures MagicCycleLog(m, i) == Taken(i, true, !m.s.writer.inflight, m.s.writer.inflight)
    ensures m.s.writer.inflight <==> Open(m.bursts)
  {
    InflightIsOpen(m.initial, m.bursts, m.s.writer, m.s.store);
    CycleIsTaken(m.s.writer, i, true);
  }

  function MagicOffers(ins: seq<Inputs>): (offers: seq<Offer>)
    ensures |offers| == |ins|
  {
    seq(|ins|, k requires 0 <= k < |ins| => Offer(ins[k], true))
  }

  lemma MagicOffersStep(ins: seq<Inputs>)
    requires ins != []
    ensures MagicOffers(ins)[0] == Offer(ins[0], true) && MagicOffers(ins)[1..] == MagicOffers(ins[1..])
  {
  }

  lemma {:induction false} MagicTransfers(m: M.MagicRun, ins: seq<Inputs>, log: seq<Event>)
    requires M.MagicInv(m) && M.LegalRun(m, ins) && MagicAccounts(log, m)
    ensures log + MagicLog(m, ins) == Transfers(log, MagicOffers(ins))
    decreases |ins|
  {
    if ins == [] {
      Nothing(log);
    } else {
      M.MagicInvStep(m, ins[0]);
      MagicCycle(m, ins[0], log);
      MagicTakes(m, ins[0]);
      MagicOffersStep(ins);
      MagicTransfers(M.MagicRunStep(m, ins[0]), ins[1..], log + MagicCycleLog(m, ins[0]));
      Assoc(log, MagicCycleLog(m, ins[0]), MagicLog(M.MagicRunStep(m, ins[0]), ins[1..]));
    }
  }

  lemma MagicLogIs(m: M.MagicRun, ins: seq<Inputs>)
    requires M.MagicInv(m) && M.LegalRun(m, ins) && MagicAccounts([], m)
    ensures MagicLog(m, ins) == Transfers([], MagicOffers(ins))
  {
    MagicTransfers(m, ins, []);
    Nothing(MagicLog(m, ins));
  }

  /** The bursts whose last beat has been taken. */
  function Completed(bursts: seq<Burst>): seq<Burst> {
    if Open(bursts) then bursts[..|bursts| - 1] else bursts
  }

  /** One write response per burst, in order, with the identifier that its address transfer carried. */
  predicate WritesAnswered(responses: seq<nat>, bursts: seq<Burst>) {
    |responses| == |bursts| && forall k :: 0 <= k < |responses| ==> responses[k] == bursts[k].aw.id
  }

  /** A read is answered from the initial store after the write beats taken before it. */
  ghost predicate AnswersPoint(beats: seq<RBeat>, p: Point, initial: Store) {
    BurstsOk(p.bursts, initial.word) && Answers(beats, p.ar, ApplyBursts(initial, p.bursts))
  }

  /** A stream of beats is the answers to the reads of a log, in order. */
  ghost predicate ReadsAnswered(initial: Store, log: seq<Event>, stream: seq<RBeat>) {
    exists groups: seq<seq<RBeat>> :: stream == Flatten(groups) && AllAnswered(initial, log, groups)
  }

  ghost predicate AllAnswered(initial: Store, log: seq<Event>, groups: seq<seq<RBeat>>) {
    && |groups| == |PointsOf(log)|
    && forall k :: 0 <= k < |groups| ==> AnswersPoint(groups[k], PointsOf(log)[k], initial)
  }

  lemma AcceptedAnswered(log: seq<Event>, initial: Store, accepted: seq<Tagged>, bursts: seq<Burst>)
    requires Accounts(log, initial, accepted, bursts)
    ensures AllAnswered(initial, log, ExpandTagged(accepted))
  {
    forall k | 0 <= k < |accepted| ensures AnswersPoint(ExpandTagged(accepted)[k], PointsOf(log)[k], initial) {
      assert Explained(initial, accepted[k], PointsOf(log)[k]);
      ExpandAnswers(accepted[k].snap, accepted[k].req, PointsOf(log)[k].ar);
    }
  }

  lemma MagicStoreOfLog(m: M.MagicRun, log: seq<Event>)
    requires M.MagicInv(m) && MagicAccounts(log, m)
    ensures BurstsOk(BurstsOf(log), m.initial.word) && m.s.store == ApplyBursts(m.initial, BurstsOf(log))
    ensures m.s.writer.inflight <==> Open(BurstsOf(log))
    ensures WritesAnswered(m.deliveredB + m.s.bresp, Completed(BurstsOf(log)))
  {
    InflightIsOpen(m.initial, m.bursts, m.s.writer, m.s.store);
  }

  lemma MagicReadsOfLog(m: M.MagicRun, log: seq<Event>)
    requires M.MagicInv(m) && MagicAccounts(log, m)
    ensures ReadsAnswered(m.initial, log, m.delivered + m.s.rresp)
  {
    AcceptedAnswered(log, m.initial, m.accepted, m.bursts);
    assert AllAnswered(m.initial, log, ExpandTagged(m.accepted));
  }

  lemma MagicRunAccounts(m: M.MagicRun, ins: seq<Inputs>)
    requires M.MagicInv(m) && M.LegalRun(m, ins) && MagicAccounts([], m)
    ensures MagicAccounts(Transfers([], MagicOffers(ins)), M.RunFrom(m, ins))
  {
    MagicTransfers(m, ins, []);
    MagicLogAccounts(m, ins, []);
  }

  /** Over every run of the magic model: the transfers follow from what the master drives; the beats
      sent or waiting are the answers to the reads taken, in order; the write responses sent or
      waiting are those of the completed bursts, in order; and the store is made by the beats
      taken. */
  lemma MagicPorts(store: Store, ins: seq<Inputs>)
    requires M.LegalRun(M.MagicStart(store), ins)
    ensures var r, log := M.RunFrom(M.MagicStart(store), ins), Transfers([], MagicOffers(ins));
            && ReadsAnswered(store, log, r.delivered + r.s.rresp)
            && WritesAnswered(r.deliveredB + r.s.bresp, Completed(BurstsOf(log)))
            && BurstsOk(BurstsOf(log), store.word) && r.s.store == ApplyBursts(store, BurstsOf(log))
            && (r.s.writer.inflight <==> Open(BurstsOf(log)))
  {
    var r, log := M.RunFrom(M.MagicStart(store), ins), Transfers([], MagicOffers(ins));
    MagicRunAccounts(M.MagicStart(store), ins);
    MagicReadsOfLog(r, log);
    MagicStoreOfLog(r, log);
  }

  /** The store of a log, byte by byte. */
  ghost predicate BytesOfLog(initial: Store, log: seq<Event>, now: Store)
    requires BurstsOk(BurstsOf(log), initial.word)
  {
    && |now.mem| == |initial.mem|
    && Fitting(AllSent(BurstsOf(log)), initial.word)
    && forall p :: 0 <= p < |now.mem| ==> LastWritten(initial, AllSent(BurstsOf(log)), now, p)
  }

  lemma AppliedBytes(initial: Store, log: seq<Event>)
    requires BurstsOk(BurstsOf(log), initial.word)
    ensures BytesOfLog(initial, log, ApplyBursts(initial, BurstsOf(log)))
  {
    BytesFromBeats(initial, BurstsOf(log), 0);
    forall p | 0 <= p < |initial.mem|
      ensures LastWritten(initial, AllSent(BurstsOf(log)), ApplyBursts(initial, BurstsOf(log)), p)
    {
      BytesFromBeats(initial, BurstsOf(log), p);
    }
  }

  /** So in every run each byte of the store is that of the last data beat taken that covers it. */
  lemma MagicBytes(store: Store, ins: seq<Inputs>)
    requires M.LegalRun(M.MagicStart(store), ins)
    ensures var log := Transfers([], MagicOffers(ins));
            BurstsOk(BurstsOf(log), store.word) && BytesOfLog(store, log, M.RunFrom(M.MagicStart(store), ins).s.store)
  {
    MagicPorts(store, ins);
    AppliedBytes(store, Transfers([], MagicOffers(ins)));
  }

  /** One cycle of the response channels of the magic model: an offered response goes exactly when
      ready is high, and otherwise stays on offer; and the cycles are counted. */
  lemma MagicResponds(m: M.MagicRun, i: Inputs)
    requires M.MagicOk(m.s) && M.LegalTick(m.s, i) && !i.reset && (m.s.writer.inflight ==> m.bursts != [])
    ensures var r := M.MagicRunStep(m, i);
            && r.delivered == m.delivered + Goes(m.s.rresp, i.rReady)
            && r.deliveredB == m.deliveredB + Goes(m.s.bresp, i.bReady)
            && Waits(m.s.rresp, i.rReady, r.s.rresp) && Waits(m.s.bresp, i.bReady, r.s.bresp)
            && r.s.cycle == (m.s.cycle + 1) % 0x1_0000_0000_0000_0000
  {
  }

  /** What goes out of a queue in a cycle. */
  function Goes<T>(queue: seq<T>, ready: bool): seq<T> {
    if queue != [] && ready then [queue[0]] else []
  }

  /** A response that was on offer and did not go is still on offer. */
  predicate Waits<T(==)>(queue: seq<T>, ready: bool, next: seq<T>) {
    queue != [] && !ready ==> next != [] && next[0] == queue[0]
  }

  /** Reset takes nothing and drops the waiting responses. */
  lemma MagicResets(s: M.MagicState, i: Inputs)
    requires M.MagicOk(s) && M.LegalTick(s, i) && i.reset
    ensures M.MagicStep(s, i) == s.(bresp := [], rresp := [], cycle := 0)
  {
  }

  // ---------- the DRAM-timed model ----------

  /** `ar_ready` is high while the DRAM accepts, `aw_ready` while it does and no burst is in flight,
      `w_ready` while one is. */
  lemma DramTakes(h: DramRun, c: Cycle)
    requires DramInv(h) && LegalCycle(h, c)
    ensures DramCycleLog(h, c) == Taken(c.i, c.accept, c.accept && !h.s.writer.inflight, h.s.writer.inflight)
    ensures h.s.writer.inflight <==> Open(h.bursts)
  {
    InflightIsOpen(h.initial, h.bursts, h.s.writer, h.s.store);
    CycleIsTaken(h.s.writer, c.i, c.accept);
  }

  function DramOffers(cs: seq<Cycle>): (offers: seq<Offer>)
    ensures |offers| == |cs|
  {
    seq(|cs|, k requires 0 <= k < |cs| => Offer(cs[k].i, cs[k].accept))
  }

  lemma DramOffersStep(cs: seq<Cycle>)
    requires cs != []
    ensures DramOffers(cs)[0] == Offer(cs[0].i, cs[0].accept) && DramOffers(cs)[1..] == DramOffers(cs[1..])
  {
  }

  lemma {:induction false} DramTransfers(h: DramRun, cs: seq<Cycle>, log: seq<Event>)
    requires DramInv(h) && LegalRun(h, cs) && DramAccounts(log, h)
    ensures log + DramLog(h, cs) == Transfers(log, DramOffers(cs))
    decreases |cs|
  {
    if cs == [] {
      Nothing(log);
    } else {
      DramCycle(h, cs[0], log);
      DramTakes(h, cs[0]);
      DramOffersStep(cs);
      DramTransfers(RunStep(h, cs[0]), cs[1..], log + DramCycleLog(h, cs[0]));
      Assoc(log, DramCycleLog(h, cs[0]), DramLog(RunStep(h, cs[0]), cs[1..]));
    }
  }

  lemma DramLogIs(h: DramRun, cs: seq<Cycle>)
    requires DramInv(h) && LegalRun(h, cs) && DramAccounts([], h)
    ensures DramLog(h, cs) == Transfers([], DramOffers(cs))
  {
    DramTransfers(h, cs, []);
    Nothing(DramLog(h, cs));
  }
}
