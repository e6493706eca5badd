/** What a master sees on the read channel of the DRAM-timed model, for every order in
    which the DRAM may complete, and why no request waits for ever. */
module ReadOrder {
  import opened Axi
  import opened ByteStore
  import opened WriteEngine
  import opened DramMemory
  import opened DramHistory

  // ---------- beats of one identifier ----------

  function BeatsOf(beats: seq<RBeat>, d: nat): seq<RBeat> {
    if beats == [] then []
    else BeatsOf(beats[..|beats| - 1], d) + if beats[|beats| - 1].id == d then [beats[|beats| - 1]] else []
  }

  lemma {:induction false} BeatsOfConcat(a: seq<RBeat>, b: seq<RBeat>, d: nat)
    ensures BeatsOf(a + b, d) == BeatsOf(a, d) + BeatsOf(b, d)
  {
    if b == [] {
      assert a + b == a;
    } else {
      BeatsOfConcat(a, b[..|b| - 1], d);
      assert (a + b)[..|a + b| - 1] == a + b[..|b| - 1];
    }
  }

  lemma {:induction false} BeatsOfBurst(burst: seq<RBeat>, id: nat, d: nat)
    requires forall k :: 0 <= k < |burst| ==> burst[k].id == id
    ensures BeatsOf(burst, d) == if id == d then burst else []
  {
    if burst != [] {
      BeatsOfBurst(burst[..|burst| - 1], id, d);
    }
  }

  function AnswersOf(answers: seq<Answer>, d: nat): seq<Answer> {
    if answers == [] then []
    else
      var a := answers[|answers| - 1];
      AnswersOf(answers[..|answers| - 1], d) + if a.t.req.id == d then [a] else []
  }

  lemma {:induction false} AnsweredOf(answers: seq<Answer>, d: nat)
    ensures Answered(AnswersOf(answers, d)) == OfId(Answered(answers), d)
  {
    if answers != [] {
      var n := |answers| - 1;
      AnsweredOf(answers[..n], d);
      assert Answered(answers)[..n] == Answered(answers[..n]);
    }
  }

  /** Selecting the beats of an identifier from the stream is answering its requests alone. */
  lemma {:induction false} BeatsOfAnswers(answers: seq<Answer>, d: nat)
    ensures BeatsOf(Flatten(AnswerBeats(answers)), d) == Flatten(AnswerBeats(AnswersOf(answers, d)))
  {
    if answers != [] {
      var n := |answers| - 1;
      var a, front := answers[n], answers[..n];
      BeatsOfAnswers(front, d);
      assert answers == front + [a];
      BeatsOfOneMore(front, a, d);
      if a.t.req.id == d {
        FlattenAnswer(AnswersOf(front, d), a);
      } else {
        assert AnswersOf(front, d) + [] == AnswersOf(front, d);
      }
    }
  }

  lemma BeatsOfOneMore(front: seq<Answer>, a: Answer, d: nat)
    ensures BeatsOf(Flatten(AnswerBeats(front + [a])), d) ==
            BeatsOf(Flatten(AnswerBeats(front)), d) + if a.t.req.id == d then Expand(a.at, a.t.req) else []
  {
    FlattenAnswer(front, a);
    BeatsOfConcat(Flatten(AnswerBeats(front)), Expand(a.at, a.t.req), d);
    BeatsOfBurst(Expand(a.at, a.t.req), a.t.req.id, d);
  }

  lemma FlattenAnswer(front: seq<Answer>, a: Answer)
    ensures Flatten(AnswerBeats(front + [a])) == Flatten(AnswerBeats(front)) + Expand(a.at, a.t.req)
  {
    assert AnswerBeats(front + [a]) == AnswerBeats(front) + [Expand(a.at, a.t.req)];
    FlattenSnoc(AnswerBeats(front), Expand(a.at, a.t.req));
  }

  /** Same-identifier reads never reorder and none is lost or duplicated: the beats of an
      identifier, delivered or waiting, answer a prefix of its accepted requests in order;
      at most one more is in flight, and the rest are queued in order. */
  lemma PerIdOrder(store: Store, ids: nat, cs: seq<Cycle>, d: nat)
    requires LegalRun(RunStart(store, ids), cs)
    ensures var h := RunFrom(RunStart(store, ids), cs);
            var mine := AnswersOf(h.answers, d);
            && BeatsOf(h.delivered + h.s.rresp, d) == Flatten(AnswerBeats(mine))
            && OfId(h.accepted, d) == Answered(mine) + InFlight(h.flight, d) + OfId(h.queued, d)
            && Reqs(h.queued) == h.s.queue
            && |InFlight(h.flight, d)| == (if d < ids && h.s.readBusy[d] then 1 else 0)
  {
    var h := RunFrom(RunStart(store, ids), cs);
    BeatsOfAnswers(h.answers, d);
    AnsweredOf(h.answers, d);
    assert OfId(h.accepted, d) == OfId(Answered(h.answers), d) + InFlight(h.flight, d) + OfId(h.queued, d);
  }

  /** A callback finds its entry, a busy bit stands for exactly one entry of the address queues, and
      at most one read per identifier is outstanding. */
  ghost predicate CallbackSafe(s: DramState, ids: nat) {
    && |s.readBusy| == ids
    && (forall a: nat :: |At(s.rreq, a)| == s.readsOut[a] && |At<nat>(s.wreq, a)| == s.writesOut[a])
    && (forall d: nat :: d < ids && s.readBusy[d] <==> exists a: nat, k: nat :: EntryOf(s, d, a, k))
    && (forall d: nat, a: nat, k: nat, b: nat, l: nat ::
          EntryOf(s, d, a, k) && EntryOf(s, d, b, l) ==> a == b && k == l)
    && |s.readsOut| <= ids
  }

  lemma InvIsSafe(h: DramRun)
    requires DramInv(h)
    ensures CallbackSafe(h.s, |h.s.readBusy|)
  {
    var ids := |h.s.readBusy|;
    QueuesMatch(h);
    forall d: nat ensures d < ids && h.s.readBusy[d] <==> exists a: nat, k: nat :: EntryOf(h.s, d, a, k) {
      BusyMeansEntry(h, d);
    }
    forall d: nat, a: nat, k: nat, b: nat, l: nat | EntryOf(h.s, d, a, k) && EntryOf(h.s, d, b, l)
      ensures a == b && k == l
    {
      EntriesCoincide(h, d, a, k, b, l);
    }
    Pigeonhole(h.flight.Keys, ids);
  }

  /** That holds in every reachable state. */
  lemma CallbacksAreSafe(store: Store, ids: nat, cs: seq<Cycle>)
    requires LegalRun(RunStart(store, ids), cs)
    ensures CallbackSafe(RunFrom(RunStart(store, ids), cs).s, ids)
  {
    InvIsSafe(RunFrom(RunStart(store, ids), cs));
  }

  lemma QueuesMatch(h: DramRun)
    requires Matched(h.s)
    ensures forall a: nat :: |At(h.s.rreq, a)| == h.s.readsOut[a] && |At<nat>(h.s.wreq, a)| == h.s.writesOut[a]
  {
  }

  lemma BusyMeansEntry(h: DramRun, d: nat)
    requires FlightInv(h.flight, h.s.rreq, h.s.readBusy)
    ensures d < |h.s.readBusy| && h.s.readBusy[d] <==> exists a: nat, k: nat :: EntryOf(h.s, d, a, k)
  {
    if d in h.flight {
      var k: nat :| Holds(h.s.rreq, h.flight[d].req, k);
      assert EntryOf(h.s, d, h.flight[d].req.addr, k);
    }
  }

  /** Nothing written is lost: the store is the accepted bursts applied in order, and every
      finished burst is waiting at the DRAM, queued as a response or delivered, exactly once. */
  lemma WritesConserved(store: Store, ids: nat, cs: seq<Cycle>)
    requires LegalRun(RunStart(store, ids), cs)
    ensures var h := RunFrom(RunStart(store, ids), cs);
            && (forall b :: b in h.bursts ==> BurstOk(b, store.word))
            && (forall b :: b in Finished(h.bursts, h.s.writer.inflight) ==> Complete(b))
            && h.s.store == ApplyBursts(store, h.bursts)
            && multiset(h.deliveredB + h.s.bresp) + Gather(h.s.wreq) ==
               multiset(Ids(Finished(h.bursts, h.s.writer.inflight)))
  {
  }

  /** Entry k of the queue for address a is a read of identifier d. */
  predicate EntryOf(s: DramState, d: nat, a: nat, k: nat) {
    k < |At(s.rreq, a)| && At(s.rreq, a)[k].id == d
  }

  lemma EntriesCoincide(h: DramRun, d: nat, a: nat, k: nat, b: nat, l: nat)
    requires FlightInv(h.flight, h.s.rreq, h.s.readBusy) && EntryOf(h.s, d, a, k) && EntryOf(h.s, d, b, l)
    ensures a == b && k == l
  {
    assert At(h.s.rreq, a)[k] == h.flight[d].req == At(h.s.rreq, b)[l];
  }

  lemma {:induction false} Pigeonhole(s: set<nat>, n: nat)
    requires forall x :: x in s ==> x < n
    ensures |s| <= n
    decreases n
  {
    if n == 0 {
      assert s == {};
    } else {
      Pigeonhole(s - {n - 1}, n - 1);
      if n - 1 in s {
        assert |s - {n - 1}| == |s| - 1;
      } else {
        assert s - {n - 1} == s;
      }
    }
  }

  // ---------- bounded bypass ----------

  /** Where the request at position p of the queue is after a cycle: gone once issued. */
  function Track(s: DramState, accept: bool, p: nat): Option<nat>
    requires QueuedInRange(s.queue, |s.readBusy|)
  {
    var k := FirstFree(s.queue, s.readBusy, 0);
    if !accept || p < k then Some(p) else if p == k then None else Some(p - 1)
  }

  /** The DRAM accepts and the identifier of the request at p is free. */
  predicate Opportunity(s: DramState, accept: bool, p: nat)
    requires QueuedInRange(s.queue, |s.readBusy|)
  {
    accept && p < |s.queue| && !s.readBusy[s.queue[p].id]
  }

  lemma TrackIssue(s: DramState, accept: bool, p: nat)
    requires QueuedInRange(s.queue, |s.readBusy|) && p < |s.queue|
    ensures var t, q := Track(s, accept, p), IssueStep(s, accept).queue;
            && (t.Some? ==> t.value <= p && t.value < |q| && q[t.value] == s.queue[p])
            && (t.Some? && Opportunity(s, accept, p) ==> t.value == p - 1)
            && (t.None? ==> Opportunity(s, accept, p) && p == FirstFree(s.queue, s.readBusy, 0))
  {
    var k := FirstFree(s.queue, s.readBusy, 0);
    assert !s.readBusy[s.queue[p].id] ==> k <= p;
  }

  /** Apart from issuing, a cycle only appends to the queue. */
  lemma QueueAfter(h: DramRun, c: Cycle)
    requires DramInv(h) && LegalCycle(h, c)
    ensures IssueStep(h.s, c.accept).queue <= RunStep(h, c).s.queue
  {
    IssueStepSafe(h.s, c.accept);
    var s1 := IssueStep(h.s, c.accept);
    assert BeforeUpdate(h.s, c.i, c.accept).queue == EnqueueStep(s1, c.i, c.accept).queue;
    assert RunStep(h, c).s.queue == EnqueueStep(s1, c.i, c.accept).queue;
  }

  /** A position never grows, the tracked request is still the same one, and at every
      opportunity either it or an older request is issued. */
  lemma TrackStep(h: DramRun, c: Cycle, p: nat)
    requires DramInv(h) && LegalCycle(h, c) && p < |h.s.queue|
    ensures var t := Track(h.s, c.accept, p);
            var s' := RunStep(h, c).s;
            && (t.Some? ==> t.value <= p && t.value < |s'.queue| && s'.queue[t.value] == h.s.queue[p])
            && (t.Some? && Opportunity(h.s, c.accept, p) ==> t.value == p - 1)
            && (t.None? ==> Opportunity(h.s, c.accept, p) && p == FirstFree(h.s.queue, h.s.readBusy, 0))
  {
    TrackIssue(h.s, c.accept, p);
    QueueAfter(h, c);
  }

  ghost function TrackRun(h: DramRun, cs: seq<Cycle>, p: nat): Option<nat>
    requires DramInv(h) && LegalRun(h, cs) && p < |h.s.queue|
    decreases |cs|
  {
    if cs == [] then Some(p)
    else
      TrackStep(h, cs[0], p);
      match Track(h.s, cs[0].accept, p)
      case None => None
      case Some(q) => TrackRun(RunStep(h, cs[0]), cs[1..], q)
  }

  /** How many cycles, until it is issued, the DRAM accepts while the request could go. */
  ghost function Opportunities(h: DramRun, cs: seq<Cycle>, p: nat): nat
    requires DramInv(h) && LegalRun(h, cs) && p < |h.s.queue|
    decreases |cs|
  {
    if cs == [] then 0
    else
      TrackStep(h, cs[0], p);
      (if Opportunity(h.s, cs[0].accept, p) then 1 else 0) +
      match Track(h.s, cs[0].accept, p)
      case None => 0
      case Some(q) => Opportunities(RunStep(h, cs[0]), cs[1..], q)
  }

  /** The request is gone, or it is still queued and has moved up once per opportunity. */
  predicate Bypassed(at: Option<nat>, opportunities: nat, p: nat, queue: seq<Req>, r: Req) {
    match at
    case None => opportunities <= p + 1
    case Some(q) => q + opportunities <= p && q < |queue| && queue[q] == r
  }

  /** A request at position p is passed over at most p times: p + 1 opportunities issue it. */
  lemma {:induction false} BoundedBypass(h: DramRun, cs: seq<Cycle>, p: nat)
    requires DramInv(h) && LegalRun(h, cs) && p < |h.s.queue|
    ensures Bypassed(TrackRun(h, cs, p), Opportunities(h, cs, p), p, RunFrom(h, cs).s.queue, h.s.queue[p])
    decreases |cs|
  {
    if cs != [] {
      TrackStep(h, cs[0], p);
      match Track(h.s, cs[0].accept, p)
      case None =>
      case Some(q) => BoundedBypass(RunStep(h, cs[0]), cs[1..], q);
    }
  }
}
