/** Which transaction each response of the DRAM-timed model answers: for every address the oldest
    one handed over under it, and responses are queued in completion order. */
module CompletionOrder {
  import opened Arith
  import opened Axi
  import opened ByteStore
  import opened WriteEngine
  import opened DramMemory
  import opened DramHistory
  import opened BusLog
  import opened BusPorts

  // ---------- transactions by address ----------

  /** What was handed over under an address, oldest first. */
  function Under<T>(handed: seq<(nat, T)>, a: nat): seq<T> {
    if handed == [] then []
    else
      var (b, x) := handed[|handed| - 1];
      Under(handed[..|handed| - 1], a) + if b == a then [x] else []
  }

  function Count(xs: seq<nat>, a: nat): nat {
    if xs == [] then 0 else Count(xs[..|xs| - 1], a) + if xs[|xs| - 1] == a then 1 else 0
  }

  /** Response k answers completion k: it is for the oldest transaction handed over under its address
      that no earlier completion answered. */
  predicate AnswersCompletion<T(==)>(handed: seq<(nat, T)>, completions: seq<nat>, responses: seq<T>, k: nat)
    requires k < |completions| == |responses|
  {
    var a := completions[k];
    var j := Count(completions[..k], a);
    j < |Under(handed, a)| && responses[k] == Under(handed, a)[j]
  }

  predicate InCompletionOrder<T(==)>(handed: seq<(nat, T)>, completions: seq<nat>, responses: seq<T>) {
    && |responses| == |completions|
    && forall k :: 0 <= k < |completions| ==> AnswersCompletion(handed, completions, responses, k)
  }

  /** The queue of an address holds what was handed over under it and has not completed. */
  ghost predicate QueuesHold<T>(handed: seq<(nat, T)>, completions: seq<nat>, queues: map<nat, seq<T>>) {
    forall a: nat ::
      Count(completions, a) <= |Under(handed, a)| && At(queues, a) == Under(handed, a)[Count(completions, a)..]
  }

  ghost predicate InOrder<T>(handed: seq<(nat, T)>, completions: seq<nat>, queues: map<nat, seq<T>>,
                             responses: seq<T>) {
    InCompletionOrder(handed, completions, responses) && QueuesHold(handed, completions, queues)
  }

  // ---------- one event ----------

  lemma UnderSnoc<T>(handed: seq<(nat, T)>, b: nat, x: T, a: nat)
    ensures Under(handed + [(b, x)], a) == Under(handed, a) + if b == a then [x] else []
  {
    assert (handed + [(b, x)])[..|handed|] == handed;
  }

  lemma CountSnoc(xs: seq<nat>, x: nat, a: nat)
    ensures Count(xs + [x], a) == Count(xs, a) + if x == a then 1 else 0
  {
    assert (xs + [x])[..|xs|] == xs;
  }

  /** Handing over one more transaction. */
  lemma HandOverKeeps<T>(handed: seq<(nat, T)>, completions: seq<nat>, queues: map<nat, seq<T>>, responses: seq<T>,
                         b: nat, x: T)
    requires InOrder(handed, completions, queues, responses)
    ensures InOrder(handed + [(b, x)], completions, Push(queues, b, x), responses)
  {
    forall k | 0 <= k < |completions| ensures AnswersCompletion(handed + [(b, x)], completions, responses, k) {
      assert AnswersCompletion(handed, completions, responses, k);
      UnderSnoc(handed, b, x, completions[k]);
    }
    forall a: nat
      ensures Count(completions, a) <= |Under(handed + [(b, x)], a)|
      ensures At(Push(queues, b, x), a) == Under(handed + [(b, x)], a)[Count(completions, a)..]
    {
      UnderSnoc(handed, b, x, a);
    }
  }

  /** One completion. */
  lemma CompletionKeeps<T>(handed: seq<(nat, T)>, completions: seq<nat>, queues: map<nat, seq<T>>, responses: seq<T>,
                           a: nat)
    requires InOrder(handed, completions, queues, responses) && At(queues, a) != []
    ensures InOrder(handed, completions + [a], Pop(queues, a), responses + [At(queues, a)[0]])
  {
    var cs, rs := completions + [a], responses + [At(queues, a)[0]];
    forall k | 0 <= k < |cs| ensures AnswersCompletion(handed, cs, rs, k) {
      if k < |completions| {
        assert AnswersCompletion(handed, completions, responses, k);
        assert cs[..k] == completions[..k];
      } else {
        assert cs[..k] == completions;
      }
    }
    forall x: nat
      ensures Count(cs, x) <= |Under(handed, x)|
      ensures At(Pop(queues, a), x) == Under(handed, x)[Count(cs, x)..]
    {
      CountSnoc(completions, a, x);
    }
  }

  // ---------- what is handed over ----------

  /** A finished burst is handed to the DRAM under the address past its last beat. */
  function EndAddress(aw: Address): nat {
    NonNegative(aw.len + 1, Pow2(aw.size));
    (aw.addr + (aw.len + 1) * Pow2(aw.size)) % 0x1_0000_0000_0000_0000
  }

  function HandedWrites(bursts: seq<Burst>): (handed: seq<(nat, nat)>)
    ensures |handed| == |bursts|
  {
    seq(|bursts|, k requires 0 <= k < |bursts| => (EndAddress(bursts[k].aw), bursts[k].aw.id))
  }

  /** The read issued in a cycle, if any: the first queued one whose identifier is free, under its own
      address. */
  function IssuedNow(s: DramState, accept: bool): seq<(nat, Req)>
    requires QueuedInRange(s.queue, |s.readBusy|)
  {
    var k := FirstFree(s.queue, s.readBusy, 0);
    if accept && k < |s.queue| then [(s.queue[k].addr, s.queue[k])] else []
  }

  ghost function IssuedReads(h: DramRun, cs: seq<Cycle>): seq<(nat, Req)>
    requires DramInv(h) && LegalRun(h, cs)
    decreases |cs|
  {
    if cs == [] then [] else IssuedNow(h.s, cs[0].accept) + IssuedReads(RunStep(h, cs[0]), cs[1..])
  }

  /** The addresses of the completions of one kind, in order. */
  function Completions(done: seq<Transaction>, isWrite: bool): seq<nat> {
    if done == [] then []
    else (if done[0].isWrite == isWrite then [done[0].addr] else []) + Completions(done[1..], isWrite)
  }

  function AllCompletions(cs: seq<Cycle>, isWrite: bool): seq<nat> {
    if cs == [] then [] else Completions(cs[0].done, isWrite) + AllCompletions(cs[1..], isWrite)
  }

  lemma OneDone(done: seq<Transaction>, isWrite: bool)
    requires done != []
    ensures Completions([done[0]], isWrite) == if done[0].isWrite == isWrite then [done[0].addr] else []
    ensures Completions(done, isWrite) == Completions([done[0]], isWrite) + Completions(done[1..], isWrite)
  {
    assert [done[0]][1..] == [];
  }

  // ---------- writes ----------

  /** The bursts finished so far grow by the one whose last beat is taken. */
  lemma HandedStep(bursts: seq<Burst>, w: Writer, awFire: bool, i: Inputs)
    requires w.inflight ==> bursts != [] && |bursts[|bursts| - 1].beats| <= bursts[|bursts| - 1].aw.len + 1
    requires w.inflight ==> w == WriterFor(bursts[|bursts| - 1]) && w.count > 0
    requires awFire ==> AwFire(w, i)
    ensures var now := Finished(BurstsStep(bursts, w, awFire, i), WriterStep(w, awFire, i).inflight);
            if WFire(w, i) && w.count == 1
            then HandedWrites(now) == HandedWrites(Finished(bursts, true)) + [(NextBeat(w).addr, w.id)]
            else HandedWrites(now) == HandedWrites(Finished(bursts, w.inflight))
  {
    var n := |bursts| - 1;
    var more := BurstsStep(bursts, w, awFire, i);
    if awFire {
      assert more[..|bursts|] == bursts;
    } else if WFire(w, i) {
      assert more[..n] == bursts[..n] && more == more[..n] + [more[n]];
      if w.count == 1 {
        EndIs(bursts[n], w);
      }
    }
  }

  /** The last beat of a burst leaves the writer at the address past its end. */
  lemma EndIs(b: Burst, w: Writer)
    requires |b.beats| <= b.aw.len + 1 && w == WriterFor(b) && w.count == 1
    ensures NextBeat(w).addr == EndAddress(b.aw) && NextBeat(w).id == b.aw.id
  {
    BeatStep(b.aw.addr, b.aw.len, Pow2(b.aw.size));
  }

  ghost predicate WritesInOrder(h: DramRun, completions: seq<nat>) {
    InOrder(HandedWrites(Finished(h.bursts, h.s.writer.inflight)), completions, h.s.wreq, h.deliveredB + h.s.bresp)
  }

  lemma WriteInOrder(h: DramRun, i: Inputs, accept: bool, completions: seq<nat>)
    requires Safe(h.s) && LegalTick(h.s, i) && WriteInv(h.initial, h.bursts, h.s.writer, h.s.store)
    requires WritesInOrder(h, completions)
    ensures WritesInOrder(RunWrite(h, i, accept), completions)
  {
    var w := h.s.writer;
    HandedStep(h.bursts, w, AwFires(h.s, i, accept), i);
    if WFire(w, i) && w.count == 1 {
      HandOverKeeps(HandedWrites(Finished(h.bursts, true)), completions, h.s.wreq, h.deliveredB + h.s.bresp,
                    NextBeat(w).addr, w.id);
    }
  }

  // ---------- reads ----------

  ghost predicate ReadsInOrder(h: DramRun, issued: seq<(nat, Req)>, completions: seq<nat>) {
    InOrder(issued, completions, h.s.rreq, Reqs(Answered(h.answers)))
  }

  lemma IssueInOrder(h: DramRun, accept: bool, issued: seq<(nat, Req)>, completions: seq<nat>)
    requires h.s.queue == Reqs(h.queued) && QueuedInRange(h.s.queue, |h.s.readBusy|)
    requires ReadsInOrder(h, issued, completions)
    ensures ReadsInOrder(RunIssue(h, accept), issued + IssuedNow(h.s, accept), completions)
  {
    var k := FirstFree(h.s.queue, h.s.readBusy, 0);
    if accept && k < |h.queued| {
      HandOverKeeps(issued, completions, h.s.rreq, Reqs(Answered(h.answers)), h.s.queue[k].addr, h.s.queue[k]);
    } else {
      Nothing(issued);
    }
  }

  // ---------- both, over a cycle ----------

  ghost predicate BothInOrder(h: DramRun, issued: seq<(nat, Req)>, readsDone: seq<nat>, writesDone: seq<nat>) {
    ReadsInOrder(h, issued, readsDone) && WritesInOrder(h, writesDone)
  }

  lemma PopInOrder(h: DramRun, i: Inputs, issued: seq<(nat, Req)>, readsDone: seq<nat>, writesDone: seq<nat>)
    requires BothInOrder(h, issued, readsDone, writesDone)
    ensures BothInOrder(RunPop(h, i), issued, readsDone, writesDone)
  {
    PopAlone(h.deliveredB, h.s.bresp, !i.reset && i.bReady);
  }

  lemma EnqueueInOrder(h: DramRun, i: Inputs, accept: bool, issued: seq<(nat, Req)>, readsDone: seq<nat>,
                       writesDone: seq<nat>)
    requires BothInOrder(h, issued, readsDone, writesDone)
    ensures BothInOrder(RunEnqueue(h, i, accept), issued, readsDone, writesDone)
  {
  }

  lemma WriteBothInOrder(h: DramRun, i: Inputs, accept: bool, issued: seq<(nat, Req)>, readsDone: seq<nat>,
                         writesDone: seq<nat>)
    requires Safe(h.s) && LegalTick(h.s, i) && WriteInv(h.initial, h.bursts, h.s.writer, h.s.store)
    requires BothInOrder(h, issued, readsDone, writesDone)
    ensures BothInOrder(RunWrite(h, i, accept), issued, readsDone, writesDone)
  {
    WriteInOrder(h, i, accept, writesDone);
  }

  lemma ChannelsInOrder(h: DramRun, i: Inputs, accept: bool, issued: seq<(nat, Req)>, readsDone: seq<nat>,
                        writesDone: seq<nat>)
    requires DramInv(h) && LegalTick(h.s, i) && BothInOrder(h, issued, readsDone, writesDone)
    ensures BothInOrder(RunChannels(h, i, accept), issued, readsDone, writesDone)
  {
    EnqueueKeepsInv(h, i, accept);
    EnqueueStepSafe(h.s, i, accept);
    var h2 := RunEnqueue(h, i, accept);
    EnqueueInOrder(h, i, accept, issued, readsDone, writesDone);
    WriteBothInOrder(h2, i, accept, issued, readsDone, writesDone);
    PopInOrder(RunWrite(h2, i, accept), i, issued, readsDone, writesDone);
  }

  lemma BeforeUpdateInOrder(h: DramRun, i: Inputs, accept: bool, issued: seq<(nat, Req)>, readsDone: seq<nat>,
                            writesDone: seq<nat>)
    requires DramInv(h) && LegalTick(h.s, i) && BothInOrder(h, issued, readsDone, writesDone)
    ensures BothInOrder(RunBeforeUpdate(h, i, accept), issued + IssuedNow(h.s, accept), readsDone, writesDone)
  {
    IssueKeepsInv(h, accept);
    IssueFacts(h, accept);
    IssueInOrder(h, accept, issued, readsDone);
    ChannelsInOrder(RunIssue(h, accept), i, accept, issued + IssuedNow(h.s, accept), readsDone, writesDone);
  }

  lemma WriteDoneInOrder(h: DramRun, t: Transaction, writesDone: seq<nat>)
    requires Safe(h.s) && Outstanding(h.s, t) && t.isWrite && FlightInv(h.flight, h.s.rreq, h.s.readBusy)
    requires WritesInOrder(h, writesDone)
    ensures WritesInOrder(RunComplete1(h, t), writesDone + [t.addr])
  {
    CallbackFindsEntry(h.s, t);
    CompletionKeeps(HandedWrites(Finished(h.bursts, h.s.writer.inflight)), writesDone, h.s.wreq,
                    h.deliveredB + h.s.bresp, t.addr);
    Assoc(h.deliveredB, h.s.bresp, [At<nat>(h.s.wreq, t.addr)[0]]);
  }

  lemma AnsweredSnoc(answers: seq<Answer>, a: Answer)
    ensures Reqs(Answered(answers + [a])) == Reqs(Answered(answers)) + [a.t.req]
  {
  }

  lemma ReadDone(h: DramRun, t: Transaction)
    requires Safe(h.s) && Outstanding(h.s, t) && !t.isWrite && FlightInv(h.flight, h.s.rreq, h.s.readBusy)
    ensures var r := RunComplete1(h, t);
            && At(h.s.rreq, t.addr) != [] && r.s.rreq == Pop(h.s.rreq, t.addr)
            && Reqs(Answered(r.answers)) == Reqs(Answered(h.answers)) + [At(h.s.rreq, t.addr)[0]]
  {
    CallbackFindsEntry(h.s, t);
    var r := At(h.s.rreq, t.addr)[0];
    assert r.id in h.flight && h.flight[r.id].req == r;
    AnsweredSnoc(h.answers, Answer(h.flight[r.id], h.s.store));
  }

  lemma ReadDoneInOrder(h: DramRun, t: Transaction, issued: seq<(nat, Req)>, readsDone: seq<nat>)
    requires Safe(h.s) && Outstanding(h.s, t) && !t.isWrite && FlightInv(h.flight, h.s.rreq, h.s.readBusy)
    requires ReadsInOrder(h, issued, readsDone)
    ensures ReadsInOrder(RunComplete1(h, t), issued, readsDone + [t.addr])
  {
    ReadDone(h, t);
    CompletionKeeps(issued, readsDone, h.s.rreq, Reqs(Answered(h.answers)), t.addr);
  }

  lemma Complete1InOrder(h: DramRun, t: Transaction, issued: seq<(nat, Req)>, readsDone: seq<nat>, writesDone: seq<nat>)
    requires Safe(h.s) && Outstanding(h.s, t) && FlightInv(h.flight, h.s.rreq, h.s.readBusy)
    requires BothInOrder(h, issued, readsDone, writesDone)
    ensures BothInOrder(RunComplete1(h, t), issued, readsDone + Completions([t], false),
                        writesDone + Completions([t], true))
  {
    OneDone([t], false);
    OneDone([t], true);
    if t.isWrite {
      WriteDoneInOrder(h, t, writesDone);
      Nothing(readsDone);
    } else {
      ReadDoneInOrder(h, t, issued, readsDone);
      Nothing(writesDone);
    }
  }

  lemma {:induction false} CompleteInOrder(h: DramRun, done: seq<Transaction>, issued: seq<(nat, Req)>,
                                           readsDone: seq<nat>, writesDone: seq<nat>)
    requires DramInv(h) && MayComplete(h.s, done) && BothInOrder(h, issued, readsDone, writesDone)
    ensures BothInOrder(RunCompleteAll(h, done), issued, readsDone + Completions(done, false),
                        writesDone + Completions(done, true))
    decreases |done|
  {
    if done == [] {
      Nothing(readsDone);
      Nothing(writesDone);
    } else {
      var t := done[0];
      CompleteKeepsInv(h, t);
      Complete1InOrder(h, t, issued, readsDone, writesDone);
      CompleteInOrder(RunComplete1(h, t), done[1..], issued, readsDone + Completions([t], false),
                      writesDone + Completions([t], true));
      OneDone(done, false);
      OneDone(done, true);
      Assoc(readsDone, Completions([t], false), Completions(done[1..], false));
      Assoc(writesDone, Completions([t], true), Completions(done[1..], true));
    }
  }

  lemma StepInOrder(h: DramRun, c: Cycle, issued: seq<(nat, Req)>, readsDone: seq<nat>, writesDone: seq<nat>)
    requires DramInv(h) && LegalCycle(h, c) && BothInOrder(h, issued, readsDone, writesDone)
    ensures BothInOrder(RunStep(h, c), issued + IssuedNow(h.s, c.accept), readsDone + Completions(c.done, false),
                        writesDone + Completions(c.done, true))
  {
    BeforeUpdateInOrder(h, c.i, c.accept, issued, readsDone, writesDone);
    CompleteInOrder(RunBeforeUpdate(h, c.i, c.accept), c.done, issued + IssuedNow(h.s, c.accept), readsDone,
                    writesDone);
  }

  // ---------- whole runs ----------

  lemma {:induction false} RunsInOrder(h: DramRun, cs: seq<Cycle>, issued: seq<(nat, Req)>, readsDone: seq<nat>,
                                       writesDone: seq<nat>)
    requires DramInv(h) && LegalRun(h, cs) && BothInOrder(h, issued, readsDone, writesDone)
    ensures BothInOrder(RunFrom(h, cs), issued + IssuedReads(h, cs), readsDone + AllCompletions(cs, false),
                        writesDone + AllCompletions(cs, true))
    decreases |cs|
  {
    if cs == [] {
      Nothing(issued);
      Nothing(readsDone);
      Nothing(writesDone);
    } else {
      var h1, now := RunStep(h, cs[0]), IssuedNow(h.s, cs[0].accept);
      var r, w := Completions(cs[0].done, false), Completions(cs[0].done, true);
      StepInOrder(h, cs[0], issued, readsDone, writesDone);
      RunsInOrder(h1, cs[1..], issued + now, readsDone + r, writesDone + w);
      Assoc(issued, now, IssuedReads(h1, cs[1..]));
      Assoc(readsDone, r, AllCompletions(cs[1..], false));
      Assoc(writesDone, w, AllCompletions(cs[1..], true));
    }
  }

  lemma StartInOrder(store: Store, ids: nat)
    ensures BothInOrder(RunStart(store, ids), [], [], [])
  {
  }

  lemma AllInOrder(store: Store, ids: nat, cs: seq<Cycle>)
    requires LegalRun(RunStart(store, ids), cs)
    ensures var start := RunStart(store, ids);
            BothInOrder(RunFrom(start, cs), IssuedReads(start, cs), AllCompletions(cs, false), AllCompletions(cs, true))
  {
    var start := RunStart(store, ids);
    StartInOrder(store, ids);
    RunsInOrder(start, cs, [], [], []);
    Nothing(IssuedReads(start, cs));
    Nothing(AllCompletions(cs, false));
    Nothing(AllCompletions(cs, true));
  }

  lemma CompletedOfRun(h: DramRun, cs: seq<Cycle>)
    requires DramInv(h) && LegalRun(h, cs) && DramAccounts([], h)
    ensures var r := RunFrom(h, cs);
            Finished(r.bursts, r.s.writer.inflight) == Completed(BurstsOf(Transfers([], DramOffers(cs))))
  {
    var r := RunFrom(h, cs);
    DramTransfers(h, cs, []);
    DramLogAccounts(h, cs, []);
    InflightIsOpen(r.initial, r.bursts, r.s.writer, r.s.store);
  }

  /** Over every run: the write responses, sent or waiting, answer the write completions in the order
      in which the DRAM completed them, each with the identifier of the oldest unanswered burst
      handed over under its address; what is outstanding there is the rest of those bursts. */
  lemma WritesAnsweredInOrder(store: Store, ids: nat, cs: seq<Cycle>)
    requires LegalRun(RunStart(store, ids), cs)
    ensures var h := RunFrom(RunStart(store, ids), cs);
            var handed := HandedWrites(Completed(BurstsOf(Transfers([], DramOffers(cs)))));
            && InCompletionOrder(handed, AllCompletions(cs, true), h.deliveredB + h.s.bresp)
            && QueuesHold(handed, AllCompletions(cs, true), h.s.wreq)
  {
    AllInOrder(store, ids, cs);
    CompletedOfRun(RunStart(store, ids), cs);
  }

  /** Likewise for reads: the beats, sent or waiting, are those of the answers in completion order, and
      each answers the oldest unanswered read issued under its address. */
  lemma ReadsAnsweredInOrder(store: Store, ids: nat, cs: seq<Cycle>)
    requires LegalRun(RunStart(store, ids), cs)
    ensures var h, issued := RunFrom(RunStart(store, ids), cs), IssuedReads(RunStart(store, ids), cs);
            && InCompletionOrder(issued, AllCompletions(cs, false), Reqs(Answered(h.answers)))
            && QueuesHold(issued, AllCompletions(cs, false), h.s.rreq)
            && h.delivered + h.s.rresp == Flatten(AnswerBeats(h.answers))
  {
    AllInOrder(store, ids, cs);
  }
}
