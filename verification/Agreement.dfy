/** The DRAM-timed model agrees with the magic model: whatever order the DRAM completes
    in, each identifier receives the same beats. */
module Agreement {
  import opened Axi
  import opened ByteStore
  import opened DramMemory
  import opened DramHistory
  import opened ReadOrder
  import opened BusLog
  import opened BusPorts
  import M = MagicMemory

  // ---------- runs in which the store rests while reads are pending ----------

  /** Every pending read was accepted under the present store, and every answered read was
      answered from the store it was accepted under. */
  ghost predicate QuietInv(h: DramRun) {
    && (forall k :: 0 <= k < |h.queued| ==> h.queued[k].snap == h.s.store)
    && (forall d: nat :: d in h.flight ==> h.flight[d].snap == h.s.store)
    && (forall k :: 0 <= k < |h.answers| ==> h.answers[k].at == h.answers[k].t.snap)
  }

  predicate Pending(h: DramRun) {
    h.queued != [] || h.flight != map[]
  }

  /** The store does not change in this cycle, or no read is pending or being accepted. */
  ghost predicate QuietCycle(h: DramRun, c: Cycle)
    requires DramInv(h) && LegalCycle(h, c)
  {
    RunStep(h, c).s.store == h.s.store || (!Pending(h) && !ArFires(c.i, c.accept))
  }

  lemma QuietEnqueue(h: DramRun, i: Inputs, accept: bool)
    requires QuietInv(h)
    ensures QuietInv(RunEnqueue(h, i, accept)) && RunEnqueue(h, i, accept).s.store == h.s.store
    ensures !Pending(h) && !ArFires(i, accept) ==> !Pending(RunEnqueue(h, i, accept))
  {
  }

  /** The write channel and the responses leave the pending reads alone. */
  lemma QuietWrite(h: DramRun, i: Inputs, accept: bool)
    requires Safe(h.s) && LegalTick(h.s, i) && (h.s.writer.inflight ==> h.bursts != []) && QuietInv(h)
    requires WriteStep(h.s, i, accept).store == h.s.store || !Pending(h)
    ensures QuietInv(RunPop(RunWrite(h, i, accept), i))
  {
  }

  lemma QuietChannels(h: DramRun, c: Cycle)
    requires DramInv(h) && QuietInv(h) && LegalTick(h.s, c.i)
    requires WriteStep(EnqueueSafe(h.s, c.i, c.accept), c.i, c.accept).store == h.s.store ||
             (!Pending(h) && !ArFires(c.i, c.accept))
    ensures QuietInv(RunChannels(h, c.i, c.accept))
  {
    EnqueueKeepsInv(h, c.i, c.accept);
    EnqueueStepSafe(h.s, c.i, c.accept);
    QuietEnqueue(h, c.i, c.accept);
    QuietWrite(RunEnqueue(h, c.i, c.accept), c.i, c.accept);
  }

  function EnqueueSafe(s: DramState, i: Inputs, accept: bool): (r: DramState)
    requires Safe(s) && LegalTick(s, i)
    ensures Safe(r) && LegalTick(r, i) && r == EnqueueStep(s, i, accept)
  {
    EnqueueStepSafe(s, i, accept);
    EnqueueStep(s, i, accept)
  }

  lemma QuietIssue(h: DramRun, accept: bool)
    requires QuietInv(h) && h.s.queue == Reqs(h.queued) && QueuedInRange(h.s.queue, |h.s.readBusy|)
    ensures QuietInv(RunIssue(h, accept)) && RunIssue(h, accept).s.store == h.s.store
    ensures !Pending(h) ==> RunIssue(h, accept) == h
  {
  }

  lemma {:induction false} QuietCompletions(h: DramRun, done: seq<Transaction>)
    requires DramInv(h) && QuietInv(h) && MayComplete(h.s, done)
    ensures QuietInv(RunCompleteAll(h, done))
    decreases |done|
  {
    if done != [] {
      CompleteKeepsInv(h, done[0]);
      QuietCompletion(h, done[0]);
      QuietCompletions(RunComplete1(h, done[0]), done[1..]);
    }
  }

  lemma QuietCompletion(h: DramRun, t: Transaction)
    requires Safe(h.s) && FlightInv(h.flight, h.s.rreq, h.s.readBusy) && QuietInv(h) && Outstanding(h.s, t)
    ensures QuietInv(RunComplete1(h, t))
  {
    CallbackFindsEntry(h.s, t);
    if !t.isWrite {
      var d := At(h.s.rreq, t.addr)[0].id;
      assert d in h.flight;
      QuietAnswer(h, d, RunComplete1(h, t).s);
    }
  }

  lemma QuietAnswer(h: DramRun, d: nat, s: DramState)
    requires QuietInv(h) && d in h.flight && s.store == h.s.store
    ensures QuietInv(h.(s := s, flight := h.flight - {d}, answers := h.answers + [Answer(h.flight[d], h.s.store)]))
  {
  }

  lemma QuietStep(h: DramRun, c: Cycle)
    requires DramInv(h) && QuietInv(h) && LegalCycle(h, c) && QuietCycle(h, c)
    ensures QuietInv(RunStep(h, c))
  {
    IssueKeepsInv(h, c.accept);
    IssueFacts(h, c.accept);
    QuietIssue(h, c.accept);
    var h1 := RunIssue(h, c.accept);
    assert RunBeforeUpdate(h, c.i, c.accept) == RunChannels(h1, c.i, c.accept);
    QuietChannels(h1, c);
    QuietCompletions(RunBeforeUpdate(h, c.i, c.accept), c.done);
  }

  ghost predicate QuietRun(h: DramRun, cs: seq<Cycle>)
    requires DramInv(h) && LegalRun(h, cs)
    decreases |cs|
  {
    cs == [] || (QuietCycle(h, cs[0]) && QuietRun(RunStep(h, cs[0]), cs[1..]))
  }

  lemma {:induction false} QuietRuns(h: DramRun, cs: seq<Cycle>)
    requires DramInv(h) && LegalRun(h, cs) && QuietRun(h, cs) && QuietInv(h)
    ensures QuietInv(RunFrom(h, cs))
    decreases |cs|
  {
    if cs != [] {
      QuietStep(h, cs[0]);
      QuietRuns(RunStep(h, cs[0]), cs[1..]);
    }
  }

  // ---------- both streams, per identifier ----------

  ghost predicate SelfAnswered(answers: seq<Answer>) {
    forall k :: 0 <= k < |answers| ==> answers[k].at == answers[k].t.snap
  }

  function ToAnswers(ts: seq<Tagged>): (answers: seq<Answer>)
    ensures |answers| == |ts|
  {
    seq(|ts|, i requires 0 <= i < |ts| => Answer(ts[i], ts[i].snap))
  }

  lemma {:induction false} SelectionSelfAnswered(answers: seq<Answer>, d: nat)
    requires SelfAnswered(answers)
    ensures SelfAnswered(AnswersOf(answers, d))
  {
    if answers != [] {
      SelectionSelfAnswered(answers[..|answers| - 1], d);
    }
  }

  /** When every answer comes from the store its request was accepted under, the beats of
      an identifier are determined by its accepted requests. */
  lemma BeatsOfSelfAnswered(answers: seq<Answer>, d: nat)
    requires SelfAnswered(answers)
    ensures BeatsOf(Flatten(AnswerBeats(answers)), d) == Flatten(ExpandTagged(OfId(Answered(answers), d)))
  {
    BeatsOfAnswers(answers, d);
    AnsweredOf(answers, d);
    SelectionSelfAnswered(answers, d);
    assert AnswerBeats(AnswersOf(answers, d)) == ExpandTagged(Answered(AnswersOf(answers, d)));
  }

  predicate Drained(h: DramRun) {
    !Pending(h) && h.s.rresp == []
  }

  /** The two models deliver the same beats to every identifier once both have drained,
      if they accepted the same requests and the store rested while reads were pending. */
  lemma DrainedRunsAgree(m: M.MagicRun, h: DramRun, d: nat)
    requires M.MagicInv(m) && DramInv(h) && QuietInv(h)
    requires m.accepted == h.accepted && m.s.rresp == [] && Drained(h)
    ensures BeatsOf(m.delivered, d) == BeatsOf(h.delivered, d)
  {
    var self := ToAnswers(m.accepted);
    assert AnswerBeats(self) == ExpandTagged(m.accepted) && Answered(self) == m.accepted;
    assert m.delivered == m.delivered + m.s.rresp;
    assert h.delivered == h.delivered + h.s.rresp;
    BeatsOfSelfAnswered(self, d);
    BeatsOfSelfAnswered(h.answers, d);
    assert OfId(h.accepted, d) == OfId(Answered(h.answers), d) + InFlight(h.flight, d) + OfId(h.queued, d);
    assert OfId(h.accepted, d) == OfId(Answered(h.answers), d);
  }

  lemma SameReadsAgree(store: Store, ids: nat, ins: seq<Inputs>, cs: seq<Cycle>, d: nat)
    requires M.LegalRun(M.MagicStart(store), ins)
    requires LegalRun(RunStart(store, ids), cs) && QuietRun(RunStart(store, ids), cs)
    requires M.RunFrom(M.MagicStart(store), ins).accepted == RunFrom(RunStart(store, ids), cs).accepted
    requires M.RunFrom(M.MagicStart(store), ins).s.rresp == [] && Drained(RunFrom(RunStart(store, ids), cs))
    ensures BeatsOf(M.RunFrom(M.MagicStart(store), ins).delivered, d) ==
            BeatsOf(RunFrom(RunStart(store, ids), cs).delivered, d)
  {
    QuietRuns(RunStart(store, ids), cs);
    DrainedRunsAgree(M.RunFrom(M.MagicStart(store), ins), RunFrom(RunStart(store, ids), cs), d);
  }

  /** The same for whole runs from a common initial store: it is enough that both saw the same
      read, write and data transfers in the same order. When each was accepted, and in which order
      the DRAM completed the reads, makes no difference. */
  lemma TimedModelAgreesWithMagic(store: Store, ids: nat, ins: seq<Inputs>, cs: seq<Cycle>, d: nat)
    requires M.LegalRun(M.MagicStart(store), ins)
    requires LegalRun(RunStart(store, ids), cs) && QuietRun(RunStart(store, ids), cs)
    requires MagicLog(M.MagicStart(store), ins) == DramLog(RunStart(store, ids), cs)
    requires M.RunFrom(M.MagicStart(store), ins).s.rresp == [] && Drained(RunFrom(RunStart(store, ids), cs))
    ensures BeatsOf(M.RunFrom(M.MagicStart(store), ins).delivered, d) ==
            BeatsOf(RunFrom(RunStart(store, ids), cs).delivered, d)
  {
    SameLogAccepted(store, ids, ins, cs);
    SameReadsAgree(store, ids, ins, cs, d);
  }

  lemma SameLogs(store: Store, ids: nat, ins: seq<Inputs>, cs: seq<Cycle>)
    requires M.LegalRun(M.MagicStart(store), ins) && LegalRun(RunStart(store, ids), cs)
    requires Transfers([], MagicOffers(ins)) == Transfers([], DramOffers(cs))
    ensures MagicLog(M.MagicStart(store), ins) == DramLog(RunStart(store, ids), cs)
  {
    MagicLogIs(M.MagicStart(store), ins);
    DramLogIs(RunStart(store, ids), cs);
  }

  /** So it is for two masters whose offers lead to the same transfers. */
  lemma SameTransfersAgree(store: Store, ids: nat, ins: seq<Inputs>, cs: seq<Cycle>, d: nat)
    requires M.LegalRun(M.MagicStart(store), ins)
    requires LegalRun(RunStart(store, ids), cs) && QuietRun(RunStart(store, ids), cs)
    requires Transfers([], MagicOffers(ins)) == Transfers([], DramOffers(cs))
    requires M.RunFrom(M.MagicStart(store), ins).s.rresp == [] && Drained(RunFrom(RunStart(store, ids), cs))
    ensures BeatsOf(M.RunFrom(M.MagicStart(store), ins).delivered, d) ==
            BeatsOf(RunFrom(RunStart(store, ids), cs).delivered, d)
  {
    SameLogs(store, ids, ins, cs);
    TimedModelAgreesWithMagic(store, ids, ins, cs, d);
  }

  lemma SameLogAccepted(store: Store, ids: nat, ins: seq<Inputs>, cs: seq<Cycle>)
    requires M.LegalRun(M.MagicStart(store), ins) && LegalRun(RunStart(store, ids), cs)
    requires MagicLog(M.MagicStart(store), ins) == DramLog(RunStart(store, ids), cs)
    ensures M.RunFrom(M.MagicStart(store), ins).accepted == RunFrom(RunStart(store, ids), cs).accepted
  {
    MagicReadsFromLog(store, ins);
    DramReadsFromLog(store, ids, cs);
    var m, h := M.RunFrom(M.MagicStart(store), ins), RunFrom(RunStart(store, ids), cs);
    SameLogSameReads(DramLog(RunStart(store, ids), cs), store, m.accepted, h.accepted, m.bursts, h.bursts);
  }

  // ---------- runs without writes ----------

  ghost predicate AcceptedUnder(accepted: seq<Tagged>, store: Store) {
    forall k :: 0 <= k < |accepted| ==> accepted[k].snap == store
  }

  lemma MagicReadsOnlyStep(m: M.MagicRun, i: Inputs)
    requires M.MagicInv(m) && M.LegalTick(m.s, i) && !i.reset && !i.wValid && AcceptedUnder(m.accepted, m.s.store)
    ensures M.MagicInv(M.MagicRunStep(m, i)) && M.MagicRunStep(m, i).s.store == m.s.store
    ensures AcceptedUnder(M.MagicRunStep(m, i).accepted, m.s.store)
  {
    M.MagicInvStep(m, i);
  }

  lemma {:induction false} MagicReadsOnly(m: M.MagicRun, ins: seq<Inputs>)
    requires M.MagicInv(m) && M.LegalRun(m, ins) && AcceptedUnder(m.accepted, m.s.store)
    requires forall k :: 0 <= k < |ins| ==> !ins[k].wValid
    ensures AcceptedUnder(M.RunFrom(m, ins).accepted, m.s.store)
    decreases |ins|
  {
    if ins != [] {
      MagicReadsOnlyStep(m, ins[0]);
      MagicReadsOnly(M.MagicRunStep(m, ins[0]), ins[1..]);
    }
  }

  lemma DramReadsOnlyStep(h: DramRun, c: Cycle)
    requires DramInv(h) && LegalCycle(h, c) && !c.i.wValid && AcceptedUnder(h.accepted, h.s.store)
    ensures RunStep(h, c).s.store == h.s.store
    ensures AcceptedUnder(RunStep(h, c).accepted, h.s.store)
  {
    AcceptedUnderNew(h.accepted, h.s.store, c.i, c.accept);
  }

  lemma AcceptedUnderNew(accepted: seq<Tagged>, store: Store, i: Inputs, accept: bool)
    requires AcceptedUnder(accepted, store)
    ensures AcceptedUnder(accepted + NewRead(store, i, accept), store)
  {
  }

  ghost predicate ReadsOnly(cs: seq<Cycle>)
    decreases |cs|
  {
    cs == [] || (!cs[0].i.wValid && ReadsOnly(cs[1..]))
  }

  lemma {:induction false} DramReadsOnly(h: DramRun, cs: seq<Cycle>)
    requires DramInv(h) && LegalRun(h, cs) && AcceptedUnder(h.accepted, h.s.store) && ReadsOnly(cs)
    ensures AcceptedUnder(RunFrom(h, cs).accepted, h.s.store) && QuietRun(h, cs)
    decreases |cs|
  {
    if cs != [] {
      DramReadsOnlyStep(h, cs[0]);
      DramReadsOnly(RunStep(h, cs[0]), cs[1..]);
    }
  }

  /** Without write beats it is enough that both runs accept the same read requests. */
  lemma ReadOnlyRunsAgree(store: Store, ids: nat, ins: seq<Inputs>, cs: seq<Cycle>, d: nat)
    requires M.LegalRun(M.MagicStart(store), ins)
    requires LegalRun(RunStart(store, ids), cs)
    requires forall k :: 0 <= k < |ins| ==> !ins[k].wValid
    requires ReadsOnly(cs)
    requires Reqs(M.RunFrom(M.MagicStart(store), ins).accepted) == Reqs(RunFrom(RunStart(store, ids), cs).accepted)
    requires M.RunFrom(M.MagicStart(store), ins).s.rresp == [] && Drained(RunFrom(RunStart(store, ids), cs))
    ensures BeatsOf(M.RunFrom(M.MagicStart(store), ins).delivered, d) ==
            BeatsOf(RunFrom(RunStart(store, ids), cs).delivered, d)
  {
    MagicReadsOnly(M.MagicStart(store), ins);
    DramReadsOnly(RunStart(store, ids), cs);
    var a, b := M.RunFrom(M.MagicStart(store), ins).accepted, RunFrom(RunStart(store, ids), cs).accepted;
    forall k | 0 <= k < |a| ensures a[k] == b[k] {
      assert Reqs(a)[k] == Reqs(b)[k];
    }
    assert a == b by {
      assert |a| == |Reqs(a)| == |Reqs(b)| == |b|;
    }
    SameReadsAgree(store, ids, ins, cs, d);
  }
}
