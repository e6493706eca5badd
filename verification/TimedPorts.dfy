/** The ports of the DRAM-timed model over whole runs. */
module TimedPorts {
  import opened Axi
  import opened ByteStore
  import opened WriteEngine
  import opened DramMemory
  import opened DramHistory
  import opened ReadOrder
  import opened BusLog
  import opened ReadBeats
  import opened ReadStores
  import opened BusPorts

  // ---------- the reads of one identifier ----------

  /** The read transfers with identifier d, in order. */
  function ReadsOfId(log: seq<Event>, d: nat): seq<Address> {
    if log == [] then []
    else
      var e := log[|log| - 1];
      ReadsOfId(log[..|log| - 1], d) + if e.ReadEvent? && e.ar.id == d then [e.ar] else []
  }

  ghost predicate Match(ts: seq<Tagged>, ars: seq<Address>) {
    |ts| == |ars| && forall j :: 0 <= j < |ts| ==> StandsFor(ts[j].req, ars[j])
  }

  ghost predicate MatchPoints(ts: seq<Tagged>, ps: seq<Point>) {
    |ts| == |ps| && forall j :: 0 <= j < |ts| ==> StandsFor(ts[j].req, ps[j].ar)
  }

  /** The accepted requests of an identifier are its transfers. */
  lemma {:induction false} AcceptedAreReads(log: seq<Event>, accepted: seq<Tagged>, d: nat)
    requires MatchPoints(accepted, PointsOf(log))
    ensures Match(OfId(accepted, d), ReadsOfId(log, d))
    decreases |log|
  {
    if log != [] {
      var front, e := log[..|log| - 1], log[|log| - 1];
      if e.ReadEvent? {
        AcceptedAreReads(front, accepted[..|accepted| - 1], d);
      } else {
        AcceptedAreReads(front, accepted, d);
      }
    }
  }

  lemma AccountsMatch(log: seq<Event>, initial: Store, accepted: seq<Tagged>, bursts: seq<Burst>, d: nat)
    requires Accounts(log, initial, accepted, bursts)
    ensures Match(OfId(accepted, d), ReadsOfId(log, d))
  {
    assert forall k :: 0 <= k < |accepted| ==> Explained(initial, accepted[k], PointsOf(log)[k]);
    AcceptedAreReads(log, accepted, d);
  }

  // ---------- the answers of one identifier ----------

  /** Where answer j of an identifier is among all answers. */
  lemma {:induction false} AnswerPlace(answers: seq<Answer>, d: nat, j: nat) returns (k: nat)
    requires j < |AnswersOf(answers, d)|
    ensures k < |answers| && answers[k].t.req.id == d && answers[k] == AnswersOf(answers, d)[j]
    ensures |AnswersOf(answers[..k], d)| == j
  {
    var n := |answers| - 1;
    if j < |AnswersOf(answers[..n], d)| {
      k := AnswerPlace(answers[..n], d, j);
      assert answers[..n][..k] == answers[..k];
    } else {
      k := n;
    }
  }

  /** Answer j of an identifier, given when the transfers so far were `upto`: it answers read j of
      the identifier, which has been taken by then, from the store that they make. */
  ghost predicate AnswerAt(beats: seq<RBeat>, initial: Store, upto: seq<Event>, d: nat, j: nat) {
    && j < |ReadsOfId(upto, d)|
    && BurstsOk(BurstsOf(upto), initial.word)
    && Answers(beats, ReadsOfId(upto, d)[j], ApplyBursts(initial, BurstsOf(upto)))
  }

  ghost predicate AnsweredDuring(beats: seq<RBeat>, initial: Store, log: seq<Event>, d: nat, j: nat) {
    exists upto: seq<Event> :: upto <= log && AnswerAt(beats, initial, upto, d, j)
  }

  lemma ExplainedAnswer(m: Moment, k: nat, d: nat, j: nat, a: Answer)
    requires Explains(m) && k < |m.h.answers| && m.h.answers[k] == a && a.t.req.id == d && a.at == m.h.s.store
    requires |AnswersOf(m.h.answers[..k], d)| == j
    ensures AnswerAt(Expand(a.at, a.t.req), m.h.initial, m.log, d, j)
  {
    AccountsMatch(m.log, m.h.initial, m.h.accepted, m.h.bursts, d);
    assert TakesNext(m.h.accepted, m.h.answers, k);
    ExpandAnswers(a.at, a.t.req, ReadsOfId(m.log, d)[j]);
  }

  lemma AnswerIsAt(ms: seq<Moment>, d: nat, j: nat)
    requires Sound(ms) && ms != [] && ms[0].h.answers == [] && j < |AnswersOf(ms[|ms| - 1].h.answers, d)|
    ensures var end := ms[|ms| - 1];
            var a := AnswersOf(end.h.answers, d)[j];
            AnsweredDuring(Expand(a.at, a.t.req), end.h.initial, end.log, d, j)
  {
    var end := ms[|ms| - 1];
    var k := AnswerPlace(end.h.answers, d, j);
    EveryAnswer(ms, k, |ms| - 1);
    var n: nat :| AnsweredIn(ms, k, n);
    var after := ms[n + 1];
    assert after.h.answers[..k] == end.h.answers[..k];
    ExplainedAnswer(after, k, d, j, end.h.answers[k]);
  }

  // ---------- whole runs ----------

  function CountOfId(queue: seq<Req>, d: nat): nat {
    if queue == [] then 0
    else CountOfId(queue[..|queue| - 1], d) + if queue[|queue| - 1].id == d then 1 else 0
  }

  /** How many reads of an identifier are taken and not answered. */
  function Unanswered(s: DramState, d: nat): nat {
    CountOfId(s.queue, d) + if d < |s.readBusy| && s.readBusy[d] then 1 else 0
  }

  lemma {:induction false} QueuedCount(ts: seq<Tagged>, d: nat)
    ensures CountOfId(Reqs(ts), d) == |OfId(ts, d)|
  {
    if ts != [] {
      QueuedCount(ts[..|ts| - 1], d);
      assert Reqs(ts)[..|ts| - 1] == Reqs(ts[..|ts| - 1]);
    }
  }

  lemma UnansweredCount(h: DramRun, d: nat)
    requires DramInv(h)
    ensures |AnswersOf(h.answers, d)| + Unanswered(h.s, d) == |OfId(h.accepted, d)|
  {
    QueuedCount(h.queued, d);
    AnsweredOf(h.answers, d);
  }

  /** A stream of one identifier's beats answers its reads in order; the last `pending` of them are
      still to be answered. */
  ghost predicate IdAnswered(initial: Store, log: seq<Event>, d: nat, stream: seq<RBeat>, pending: nat) {
    exists groups: seq<seq<RBeat>> :: stream == Flatten(groups) && GroupsAnswer(initial, log, d, groups, pending)
  }

  ghost predicate GroupsAnswer(initial: Store, log: seq<Event>, d: nat, groups: seq<seq<RBeat>>, pending: nat) {
    && |groups| + pending == |ReadsOfId(log, d)|
    && forall j :: 0 <= j < |groups| ==> AnsweredDuring(groups[j], initial, log, d, j)
  }

  lemma SoundAnswers(ms: seq<Moment>, d: nat, pending: nat)
    requires Sound(ms) && ms != [] && ms[0].h.answers == []
    requires var end := ms[|ms| - 1];
             |AnswersOf(end.h.answers, d)| + pending == |OfId(end.h.accepted, d)|
    ensures var end := ms[|ms| - 1];
            GroupsAnswer(end.h.initial, end.log, d, AnswerBeats(AnswersOf(end.h.answers, d)), pending)
  {
    var end := ms[|ms| - 1];
    assert Explains(end);
    AccountsMatch(end.log, end.h.initial, end.h.accepted, end.h.bursts, d);
    forall j: nat | j < |AnswersOf(end.h.answers, d)|
      ensures AnsweredDuring(AnswerBeats(AnswersOf(end.h.answers, d))[j], end.h.initial, end.log, d, j)
    {
      AnswerIsAt(ms, d, j);
    }
  }

  lemma IdIsAnswered(h: DramRun, cs: seq<Cycle>, d: nat)
    requires DramInv(h) && LegalRun(h, cs) && DramAccounts([], h) && h.answers == []
    ensures var r := RunFrom(h, cs);
            IdAnswered(h.initial, [] + DramLog(h, cs), d, BeatsOf(r.delivered + r.s.rresp, d), Unanswered(r.s, d))
  {
    var r := RunFrom(h, cs);
    MomentsAreSound(h, cs, []);
    LastMoment(h, cs, []);
    UnansweredCount(r, d);
    SoundAnswers(Moments(h, cs, []), d, Unanswered(r.s, d));
    BeatsOfAnswers(r.answers, d);
    assert GroupsAnswer(h.initial, [] + DramLog(h, cs), d, AnswerBeats(AnswersOf(r.answers, d)), Unanswered(r.s, d));
  }

  lemma StoreOfLog(h: DramRun, log: seq<Event>)
    requires DramInv(h) && DramAccounts(log, h)
    ensures BurstsOk(BurstsOf(log), h.initial.word) && h.s.store == ApplyBursts(h.initial, BurstsOf(log))
    ensures h.s.writer.inflight <==> Open(BurstsOf(log))
  {
    InflightIsOpen(h.initial, h.bursts, h.s.writer, h.s.store);
  }

  /** Over every run of the timed model and whatever order the DRAM completes in: the transfers follow
      from what is driven; each identifier's beats, sent or waiting, answer its reads in order, each
      from the store made by the beats taken when it is answered; and the store is made by all beats
      taken. */
  lemma DramPorts(store: Store, ids: nat, cs: seq<Cycle>)
    requires LegalRun(RunStart(store, ids), cs)
    ensures var h, log := RunFrom(RunStart(store, ids), cs), Transfers([], DramOffers(cs));
            && (forall d: nat :: IdAnswered(store, log, d, BeatsOf(h.delivered + h.s.rresp, d), Unanswered(h.s, d)))
            && BurstsOk(BurstsOf(log), store.word) && h.s.store == ApplyBursts(store, BurstsOf(log))
            && (h.s.writer.inflight <==> Open(BurstsOf(log)))
  {
    var start := RunStart(store, ids);
    DramTransfers(start, cs, []);
    DramLogAccounts(start, cs, []);
    StoreOfLog(RunFrom(start, cs), [] + DramLog(start, cs));
    forall d: nat
      ensures var h, log := RunFrom(start, cs), [] + DramLog(start, cs);
              IdAnswered(store, log, d, BeatsOf(h.delivered + h.s.rresp, d), Unanswered(h.s, d))
    {
      IdIsAnswered(start, cs, d);
    }
  }

  /** So in every run each byte of the store is that of the last data beat taken that covers it. */
  lemma DramBytes(store: Store, ids: nat, cs: seq<Cycle>)
    requires LegalRun(RunStart(store, ids), cs)
    ensures var log := Transfers([], DramOffers(cs));
            && BurstsOk(BurstsOf(log), store.word)
            && BytesOfLog(store, log, RunFrom(RunStart(store, ids), cs).s.store)
  {
    DramPorts(store, ids, cs);
    AppliedBytes(store, Transfers([], DramOffers(cs)));
  }

  // ---------- the response channels ----------

  /** The response channels of two states of a run agree. */
  predicate SameOffers(h: DramRun, r: DramRun) {
    && r.delivered == h.delivered && r.deliveredB == h.deliveredB
    && r.s.rresp == h.s.rresp && r.s.bresp == h.s.bresp && r.s.cycle == h.s.cycle
  }

  /** From h to r an offered response went exactly when ready was high, and otherwise stayed. */
  predicate Responded(h: DramRun, i: Inputs, r: DramRun) {
    && r.delivered == h.delivered + Goes(h.s.rresp, i.rReady)
    && r.deliveredB == h.deliveredB + Goes(h.s.bresp, i.bReady)
    && Waits(h.s.rresp, i.rReady, r.s.rresp) && Waits(h.s.bresp, i.bReady, r.s.bresp)
  }

  lemma PopResponds(h: DramRun, i: Inputs)
    requires !i.reset
    ensures Responded(h, i, RunPop(h, i)) && RunPop(h, i).s.cycle == h.s.cycle
  {
  }

  lemma EnqueueOffers(h: DramRun, i: Inputs, accept: bool)
    ensures SameOffers(h, RunEnqueue(h, i, accept))
    ensures RunEnqueue(h, i, accept).s.writer == h.s.writer && RunEnqueue(h, i, accept).bursts == h.bursts
  {
  }

  lemma WriteOffers(h: DramRun, i: Inputs, accept: bool)
    requires Safe(h.s) && LegalTick(h.s, i) && (h.s.writer.inflight ==> h.bursts != [])
    ensures SameOffers(h, RunWrite(h, i, accept))
  {
  }

  lemma IssueOffers(h: DramRun, accept: bool)
    requires h.s.queue == Reqs(h.queued) && QueuedInRange(h.s.queue, |h.s.readBusy|)
    ensures SameOffers(h, RunIssue(h, accept))
  {
  }

  lemma RespondedAfter(h: DramRun, i: Inputs, h1: DramRun, r: DramRun)
    requires SameOffers(h, h1) && Responded(h1, i, r)
    ensures Responded(h, i, r)
  {
  }

  lemma ChannelsRespond(h: DramRun, i: Inputs, accept: bool)
    requires DramInv(h) && LegalTick(h.s, i) && !i.reset
    ensures Responded(h, i, RunChannels(h, i, accept)) && RunChannels(h, i, accept).s.cycle == h.s.cycle
  {
    EnqueueKeepsInv(h, i, accept);
    EnqueueStepSafe(h.s, i, accept);
    var h2 := RunEnqueue(h, i, accept);
    EnqueueOffers(h, i, accept);
    WriteOffers(h2, i, accept);
    var h3 := RunWrite(h2, i, accept);
    PopResponds(h3, i);
    RespondedAfter(h, i, h3, RunPop(h3, i));
  }

  lemma BeforeUpdateResponds(h: DramRun, i: Inputs, accept: bool)
    requires DramInv(h) && LegalTick(h.s, i) && !i.reset
    ensures Responded(h, i, RunBeforeUpdate(h, i, accept)) && RunBeforeUpdate(h, i, accept).s.cycle == h.s.cycle
  {
    IssueKeepsInv(h, accept);
    IssueFacts(h, accept);
    IssueOffers(h, accept);
    ChannelsRespond(RunIssue(h, accept), i, accept);
    RespondedAfter(h, i, RunIssue(h, accept), RunBeforeUpdate(h, i, accept));
  }

  /** Responses are only added at the end. */
  predicate Appended(h: DramRun, r: DramRun) {
    && h.s.rresp <= r.s.rresp && h.s.bresp <= r.s.bresp && r.s.cycle == h.s.cycle
    && r.delivered == h.delivered && r.deliveredB == h.deliveredB
  }

  lemma CompletionAppends(h: DramRun, t: Transaction)
    requires DramInv(h) && Outstanding(h.s, t)
    ensures Appended(h, RunComplete1(h, t))
  {
    CallbackFindsEntry(h.s, t);
  }

  lemma AppendedAfter(h: DramRun, h1: DramRun, r: DramRun)
    requires Appended(h, h1) && Appended(h1, r)
    ensures Appended(h, r)
  {
  }

  lemma {:induction false} CompletionsAppend(h: DramRun, done: seq<Transaction>)
    requires DramInv(h) && MayComplete(h.s, done)
    ensures Appended(h, RunCompleteAll(h, done))
    decreases |done|
  {
    if done != [] {
      var h1 := RunComplete1(h, done[0]);
      CompleteKeepsInv(h, done[0]);
      CompletionAppends(h, done[0]);
      CompletionsAppend(h1, done[1..]);
      AppendedAfter(h, h1, RunCompleteAll(h1, done[1..]));
    }
  }

  lemma CycleEnds(h: DramRun, i: Inputs, t: DramRun, r: DramRun)
    requires Responded(h, i, t) && t.s.cycle == h.s.cycle && Appended(t, r)
    ensures var e := r.(s := Reset(r.s, false));
            Responded(h, i, e) && e.s.cycle == (h.s.cycle + 1) % 0x1_0000_0000_0000_0000
  {
  }

  ghost function BeforeReset(h: DramRun, c: Cycle): (r: DramRun)
    requires DramInv(h) && LegalCycle(h, c)
    ensures RunStep(h, c) == r.(s := Reset(r.s, false))
  {
    RunCompleteAll(RunBeforeUpdate(h, c.i, c.accept), c.done)
  }

  /** One cycle of the response channels: an offered response goes exactly when ready is high, and
      otherwise stays on offer, whatever completes; and the cycles are counted. */
  lemma DramResponds(h: DramRun, c: Cycle)
    requires DramInv(h) && LegalCycle(h, c)
    ensures Responded(h, c.i, RunStep(h, c))
    ensures RunStep(h, c).s.cycle == (h.s.cycle + 1) % 0x1_0000_0000_0000_0000
  {
    var t := RunBeforeUpdate(h, c.i, c.accept);
    BeforeUpdateResponds(h, c.i, c.accept);
    CompletionsAppend(t, c.done);
    CycleEnds(h, c.i, t, BeforeReset(h, c));
  }

  /** In a cycle with reset no offer is taken and all waiting responses are dropped; queued reads are
      still issued, and what is outstanding stays so unless it completes. */
  lemma DramResets(s: DramState, i: Inputs, accept: bool, done: seq<Transaction>)
    requires Safe(s) && LegalTick(s, i) && i.reset && MayComplete(BeforeUpdate(s, i, accept), done)
    ensures BeforeUpdate(s, i, accept) == IssueStep(s, accept)
    ensures var r := DramStep(s, i, accept, done);
            && r.rresp == [] && r.bresp == [] && r.cycle == 0
            && r.store == s.store && r.writer == s.writer && r.queue == IssueStep(s, accept).queue
  {
    IssueStepSafe(s, accept);
    WriterStays(BeforeUpdate(s, i, accept), done);
  }

  lemma {:induction false} WriterStays(s: DramState, done: seq<Transaction>)
    requires Safe(s) && MayComplete(s, done)
    ensures CompleteAll(s, done).writer == s.writer
    decreases |done|
  {
    if done != [] {
      Complete1Safe(s, done[0]);
      WriterStays(Complete1(s, done[0]), done[1..]);
    }
  }
}
