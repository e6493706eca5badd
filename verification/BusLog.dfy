/** What the bus transfers tell about a run: from their order alone, which store each read was
    accepted under. */
module BusLog {
  import opened Arith
  import opened Axi
  import opened ByteStore
  import opened WriteEngine
  import opened DramMemory
  import opened DramHistory
  import M = MagicMemory

  /** An accepted transfer on the AR, AW or W channel. */
  datatype Event = ReadEvent(ar: Address) | WriteEvent(aw: Address) | BeatEvent(w: WBeat)

  function AfterEvent(bursts: seq<Burst>, e: Event): seq<Burst> {
    if e.WriteEvent? then bursts + [Burst(e.aw, [])]
    else if e.BeatEvent? && bursts != [] then AddBeat(bursts, e.w)
    else bursts
  }

  /** The write bursts that a log has opened and filled so far. */
  function BurstsOf(log: seq<Event>): seq<Burst> {
    if log == [] then [] else AfterEvent(BurstsOf(log[..|log| - 1]), log[|log| - 1])
  }

  /** A read and the write bursts accepted before it. */
  datatype Point = Point(ar: Address, bursts: seq<Burst>)

  function PointsOf(log: seq<Event>): seq<Point> {
    if log == [] then []
    else
      var front, last := log[..|log| - 1], log[|log| - 1];
      PointsOf(front) + if last.ReadEvent? then [Point(last.ar, BurstsOf(front))] else []
  }

  lemma LogSnoc(log: seq<Event>, e: Event)
    ensures PointsOf(log + [e]) == PointsOf(log) + if e.ReadEvent? then [Point(e.ar, BurstsOf(log))] else []
    ensures BurstsOf(log + [e]) == AfterEvent(BurstsOf(log), e)
  {
    assert (log + [e])[..|log|] == log;
  }

  // ---------- one cycle ----------

  /** A read accepted in a cycle comes before the cycle's write transfer, as in both models. */
  function ReadPart(i: Inputs, arFire: bool): seq<Event> {
    if arFire then [ReadEvent(i.ar)] else []
  }

  function WritePart(w: Writer, i: Inputs, awFire: bool): seq<Event> {
    if awFire then [WriteEvent(i.aw)] else if WFire(w, i) then [BeatEvent(i.w)] else []
  }

  function CycleLog(w: Writer, i: Inputs, arFire: bool, awFire: bool): seq<Event> {
    ReadPart(i, arFire) + WritePart(w, i, awFire)
  }

  /** A request as the fields on the wires describe it. */
  predicate StandsFor(r: Req, ar: Address) {
    r.id == ar.id && r.addr == ar.addr && r.len == ar.len + 1 && r.size == Pow2(ar.size)
  }

  /** The request is the one on the wires, and the store that it was accepted under is the initial
      one after the bursts before it. */
  ghost predicate Explained(initial: Store, t: Tagged, p: Point) {
    StandsFor(t.req, p.ar) && (forall b :: b in p.bursts ==> BurstOk(b, initial.word)) &&
    t.snap == ApplyBursts(initial, p.bursts)
  }

  /** A log accounts for a run. */
  ghost predicate Accounts(log: seq<Event>, initial: Store, accepted: seq<Tagged>, bursts: seq<Burst>) {
    && BurstsOf(log) == bursts
    && |PointsOf(log)| == |accepted|
    && forall k :: 0 <= k < |accepted| ==> Explained(initial, accepted[k], PointsOf(log)[k])
  }

  lemma ReadAccounts(log: seq<Event>, initial: Store, accepted: seq<Tagged>, bursts: seq<Burst>, now: Store, i: Inputs,
                     arFire: bool)
    requires Accounts(log, initial, accepted, bursts)
    requires now.word == initial.word && (forall b :: b in bursts ==> BurstOk(b, initial.word)) &&
             now == ApplyBursts(initial, bursts)
    ensures Accounts(log + ReadPart(i, arFire), initial,
                     accepted + if arFire then [Tagged(ToReq(i.ar), now)] else [], bursts)
  {
    if arFire {
      LogSnoc(log, ReadEvent(i.ar));
    } else {
      assert log + [] == log && accepted + [] == accepted;
    }
  }

  lemma WriteAccounts(log: seq<Event>, initial: Store, accepted: seq<Tagged>, bursts: seq<Burst>, w: Writer, i: Inputs,
                      awFire: bool)
    requires Accounts(log, initial, accepted, bursts) && (w.inflight ==> bursts != [])
    ensures Accounts(log + WritePart(w, i, awFire), initial, accepted, BurstsStep(bursts, w, awFire, i))
  {
    if awFire {
      LogSnoc(log, WriteEvent(i.aw));
    } else if WFire(w, i) {
      LogSnoc(log, BeatEvent(i.w));
    } else {
      assert log + [] == log;
    }
  }

  /** A cycle extends the log by its transfers. */
  lemma CycleAccounts(log: seq<Event>, initial: Store, accepted: seq<Tagged>, bursts: seq<Burst>, now: Store,
                      w: Writer, i: Inputs, arFire: bool, awFire: bool)
    requires Accounts(log, initial, accepted, bursts) && WriteInv(initial, bursts, w, now)
    ensures w.inflight ==> bursts != []
    ensures Accounts(log + CycleLog(w, i, arFire, awFire), initial,
                     accepted + if arFire then [Tagged(ToReq(i.ar), now)] else [], BurstsStep(bursts, w, awFire, i))
  {
    ReadAccounts(log, initial, accepted, bursts, now, i, arFire);
    WriteAccounts(log + ReadPart(i, arFire), initial,
                  accepted + if arFire then [Tagged(ToReq(i.ar), now)] else [], bursts, w, i, awFire);
    Assoc(log, ReadPart(i, arFire), WritePart(w, i, awFire));
  }

  /** Two runs with the same log accepted the same reads under the same stores. */
  lemma SameLogSameReads(log: seq<Event>, initial: Store, a: seq<Tagged>, b: seq<Tagged>, bursts: seq<Burst>,
                         bursts': seq<Burst>)
    requires Accounts(log, initial, a, bursts) && Accounts(log, initial, b, bursts')
    ensures a == b
  {
    forall k | 0 <= k < |a| ensures a[k] == b[k] {
      assert Explained(initial, a[k], PointsOf(log)[k]) && Explained(initial, b[k], PointsOf(log)[k]);
    }
  }

  // ---------- the magic model ----------

  function MagicCycleLog(m: M.MagicRun, i: Inputs): seq<Event> {
    CycleLog(m.s.writer, i, M.ArFire(i), AwFire(m.s.writer, i))
  }

  ghost function MagicLog(m: M.MagicRun, ins: seq<Inputs>): seq<Event>
    requires M.MagicInv(m) && M.LegalRun(m, ins)
    decreases |ins|
  {
    if ins == [] then []
    else
      M.MagicInvStep(m, ins[0]);
      MagicCycleLog(m, ins[0]) + MagicLog(M.MagicRunStep(m, ins[0]), ins[1..])
  }

  ghost predicate MagicAccounts(log: seq<Event>, m: M.MagicRun) {
    Accounts(log, m.initial, m.accepted, m.bursts)
  }

  lemma MagicCycle(m: M.MagicRun, i: Inputs, log: seq<Event>)
    requires M.MagicInv(m) && M.LegalTick(m.s, i) && !i.reset && MagicAccounts(log, m)
    ensures MagicAccounts(log + MagicCycleLog(m, i), M.MagicRunStep(m, i))
  {
    CycleAccounts(log, m.initial, m.accepted, m.bursts, m.s.store, m.s.writer, i, M.ArFire(i), AwFire(m.s.writer, i));
    assert m.accepted + (if M.ArFire(i) then [Tagged(ToReq(i.ar), m.s.store)] else []) ==
           M.MagicRunStep(m, i).accepted;
  }

  lemma {:induction false} MagicLogAccounts(m: M.MagicRun, ins: seq<Inputs>, log: seq<Event>)
    requires M.MagicInv(m) && M.LegalRun(m, ins) && MagicAccounts(log, m)
    ensures MagicAccounts(log + MagicLog(m, ins), M.RunFrom(m, ins))
    decreases |ins|
  {
    if ins == [] {
      Nothing(log);
    } else {
      M.MagicInvStep(m, ins[0]);
      MagicCycle(m, ins[0], log);
      MagicLogAccounts(M.MagicRunStep(m, ins[0]), ins[1..], log + MagicCycleLog(m, ins[0]));
      Assoc(log, MagicCycleLog(m, ins[0]), MagicLog(M.MagicRunStep(m, ins[0]), ins[1..]));
    }
  }

  // ---------- the DRAM-timed model ----------

  function DramCycleLog(h: DramRun, c: Cycle): seq<Event> {
    CycleLog(h.s.writer, c.i, ArFires(c.i, c.accept), AwFires(h.s, c.i, c.accept))
  }

  ghost function DramLog(h: DramRun, cs: seq<Cycle>): seq<Event>
    requires DramInv(h) && LegalRun(h, cs)
    decreases |cs|
  {
    if cs == [] then [] else DramCycleLog(h, cs[0]) + DramLog(RunStep(h, cs[0]), cs[1..])
  }

  ghost predicate DramAccounts(log: seq<Event>, h: DramRun) {
    Accounts(log, h.initial, h.accepted, h.bursts)
  }

  lemma {:induction false} CompletionsKeepBursts(h: DramRun, done: seq<Transaction>)
    requires DramInv(h) && MayComplete(h.s, done)
    ensures RunCompleteAll(h, done).bursts == h.bursts
    decreases |done|
  {
    if done != [] {
      CompleteKeepsInv(h, done[0]);
      CompletionsKeepBursts(RunComplete1(h, done[0]), done[1..]);
    }
  }

  lemma ChannelsBursts(h: DramRun, i: Inputs, accept: bool)
    requires DramInv(h) && LegalTick(h.s, i)
    ensures h.s.writer.inflight ==> h.bursts != []
    ensures RunChannels(h, i, accept).bursts == BurstsStep(h.bursts, h.s.writer, AwFires(h.s, i, accept), i)
  {
    EnqueueKeepsInv(h, i, accept);
  }

  lemma BeforeUpdateBursts(h: DramRun, i: Inputs, accept: bool)
    requires DramInv(h) && LegalTick(h.s, i)
    ensures h.s.writer.inflight ==> h.bursts != []
    ensures RunBeforeUpdate(h, i, accept).bursts == BurstsStep(h.bursts, h.s.writer, AwFires(h.s, i, accept), i)
  {
    IssueKeepsInv(h, accept);
    IssueFacts(h, accept);
    ChannelsBursts(RunIssue(h, accept), i, accept);
  }

  lemma StepBursts(h: DramRun, c: Cycle)
    requires DramInv(h) && LegalCycle(h, c)
    ensures h.s.writer.inflight ==> h.bursts != []
    ensures RunStep(h, c).bursts == BurstsStep(h.bursts, h.s.writer, AwFires(h.s, c.i, c.accept), c.i)
  {
    BeforeUpdateBursts(h, c.i, c.accept);
    CompletionsKeepBursts(RunBeforeUpdate(h, c.i, c.accept), c.done);
  }

  lemma DramCycle(h: DramRun, c: Cycle, log: seq<Event>)
    requires DramInv(h) && LegalCycle(h, c) && DramAccounts(log, h)
    ensures DramAccounts(log + DramCycleLog(h, c), RunStep(h, c))
  {
    CycleAccounts(log, h.initial, h.accepted, h.bursts, h.s.store, h.s.writer, c.i, ArFires(c.i, c.accept),
                  AwFires(h.s, c.i, c.accept));
    StepBursts(h, c);
  }

  lemma {:induction false} DramLogAccounts(h: DramRun, cs: seq<Cycle>, log: seq<Event>)
    requires DramInv(h) && LegalRun(h, cs) && DramAccounts(log, h)
    ensures DramAccounts(log + DramLog(h, cs), RunFrom(h, cs))
    decreases |cs|
  {
    if cs == [] {
      Nothing(log);
    } else {
      DramCycle(h, cs[0], log);
      DramLogAccounts(RunStep(h, cs[0]), cs[1..], log + DramCycleLog(h, cs[0]));
      Assoc(log, DramCycleLog(h, cs[0]), DramLog(RunStep(h, cs[0]), cs[1..]));
    }
  }

  // ---------- both from one initial store ----------

  lemma MagicReadsFromLog(store: Store, ins: seq<Inputs>)
    requires M.LegalRun(M.MagicStart(store), ins)
    ensures var r := M.RunFrom(M.MagicStart(store), ins);
            Accounts(MagicLog(M.MagicStart(store), ins), store, r.accepted, r.bursts)
  {
    MagicLogAccounts(M.MagicStart(store), ins, []);
    Nothing(MagicLog(M.MagicStart(store), ins));
  }

  lemma DramReadsFromLog(store: Store, ids: nat, cs: seq<Cycle>)
    requires LegalRun(RunStart(store, ids), cs)
    ensures var r := RunFrom(RunStart(store, ids), cs);
            Accounts(DramLog(RunStart(store, ids), cs), store, r.accepted, r.bursts)
  {
    DramLogAccounts(RunStart(store, ids), cs, []);
    Nothing(DramLog(RunStart(store, ids), cs));
  }
}
