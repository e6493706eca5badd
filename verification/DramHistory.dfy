/** Whole runs of the DRAM-timed memory model: what is queued, in flight and answered,
    and what never goes wrong whatever order the DRAM completes in. */
module DramHistory {
  import opened Axi
  import opened ByteStore
  import opened WriteEngine
  import opened DramMemory

  /** An answered read and the store it was answered from. */
  datatype Answer = Answer(t: Tagged, at: Store)

  /** A state and what has happened on the channels since the run began. `queued` and
      `flight` are the pending requests with the store they were accepted under. */
  datatype DramRun = DramRun(
    s: DramState, initial: Store,
    accepted: seq<Tagged>, queued: seq<Tagged>, flight: map<nat, Tagged>, answers: seq<Answer>,
    delivered: seq<RBeat>, bursts: seq<Burst>, deliveredB: seq<nat>)

  // ---------- projections ----------

  function Reqs(ts: seq<Tagged>): (rs: seq<Req>)
    ensures |rs| == |ts|
  {
    seq(|ts|, i requires 0 <= i < |ts| => ts[i].req)
  }

  /** The requests of one identifier, in order. */
  function OfId(ts: seq<Tagged>, d: nat): seq<Tagged> {
    if ts == [] then []
    else OfId(ts[..|ts| - 1], d) + if ts[|ts| - 1].req.id == d then [ts[|ts| - 1]] else []
  }

  function Answered(answers: seq<Answer>): (ts: seq<Tagged>)
    ensures |ts| == |answers|
  {
    seq(|answers|, i requires 0 <= i < |answers| => answers[i].t)
  }

  function InFlight(flight: map<nat, Tagged>, d: nat): seq<Tagged> {
    if d in flight then [flight[d]] else []
  }

  function AnswerBeats(answers: seq<Answer>): (bursts: seq<seq<RBeat>>)
    ensures |bursts| == |answers|
  {
    seq(|answers|, i requires 0 <= i < |answers| => Expand(answers[i].at, answers[i].t.req))
  }

  lemma {:induction false} OfIdConcat(a: seq<Tagged>, b: seq<Tagged>, d: nat)
    ensures OfId(a + b, d) == OfId(a, d) + OfId(b, d)
  {
    if b == [] {
      assert a + b == a;
    } else {
      var n := |b| - 1;
      OfIdConcat(a, b[..n], d);
      assert (a + b)[..|a + b| - 1] == a + b[..n];
    }
  }

  lemma {:induction false} NoneOfId(ts: seq<Tagged>, d: nat)
    requires forall t :: t in ts ==> t.req.id != d
    ensures OfId(ts, d) == []
  {
    if ts != [] {
      NoneOfId(ts[..|ts| - 1], d);
    }
  }

  /** Taking out the first request of an identifier leaves every projection in order. */
  lemma OfIdWithout(q: seq<Tagged>, k: nat, d: nat)
    requires k < |q| && forall j :: 0 <= j < k ==> q[j].req.id != q[k].req.id
    ensures OfId(q, d) == (if d == q[k].req.id then [q[k]] else []) + OfId(Without(q, k), d)
  {
    assert q == q[..k] + ([q[k]] + q[k + 1..]);
    OfIdConcat(q[..k], [q[k]] + q[k + 1..], d);
    OfIdConcat([q[k]], q[k + 1..], d);
    OfIdConcat(q[..k], q[k + 1..], d);
    assert [q[k]][..0] == [];
    assert OfId([q[k]], d) == if d == q[k].req.id then [q[k]] else [];
    if d == q[k].req.id {
      NoneOfId(q[..k], d);
    }
  }

  // ---------- the invariant ----------

  /** A busy bit is set exactly for the identifiers in flight, and the per-address queues
      hold exactly the requests in flight, each once and under its own address. */
  ghost predicate FlightInv(flight: map<nat, Tagged>, rreq: map<nat, seq<Req>>, busy: seq<bool>) {
    BusyInv(flight, busy) && FiledInv(flight, rreq) && PresentInv(flight, rreq) && DistinctInv(rreq)
  }

  ghost predicate BusyInv(flight: map<nat, Tagged>, busy: seq<bool>) {
    forall d: nat :: d in flight <==> d < |busy| && busy[d]
  }

  ghost predicate FiledInv(flight: map<nat, Tagged>, rreq: map<nat, seq<Req>>) {
    forall a: nat, k: nat :: k < |At(rreq, a)| ==>
      var r := At(rreq, a)[k]; r.addr == a && r.id in flight && flight[r.id].req == r
  }

  ghost predicate PresentInv(flight: map<nat, Tagged>, rreq: map<nat, seq<Req>>) {
    forall d: nat :: d in flight ==> flight[d].req.id == d && Present(rreq, flight[d].req)
  }

  ghost predicate Present(rreq: map<nat, seq<Req>>, r: Req) {
    exists k: nat :: Holds(rreq, r, k)
  }

  predicate Holds(rreq: map<nat, seq<Req>>, r: Req, k: nat) {
    k < |At(rreq, r.addr)| && At(rreq, r.addr)[k] == r
  }

  ghost predicate DistinctInv(rreq: map<nat, seq<Req>>) {
    forall a: nat, i: nat, j: nat :: i < j < |At(rreq, a)| ==> At(rreq, a)[i].id != At(rreq, a)[j].id
  }

  /** Per identifier: accepted == answered ++ in flight ++ queued. */
  ghost predicate OrderInv(accepted: seq<Tagged>, answers: seq<Answer>, flight: map<nat, Tagged>, queued: seq<Tagged>) {
    forall d: nat :: OfId(accepted, d) == OfId(Answered(answers), d) + InFlight(flight, d) + OfId(queued, d)
  }

  ghost predicate StreamInv(delivered: seq<RBeat>, rresp: seq<RBeat>, answers: seq<Answer>) {
    delivered + rresp == Flatten(AnswerBeats(answers))
  }

  /** Finished write bursts are waiting at the DRAM, queued as responses or delivered. */
  ghost predicate ResponseInv(deliveredB: seq<nat>, bresp: seq<nat>, wreq: map<nat, seq<nat>>, finished: seq<nat>) {
    multiset(deliveredB + bresp) + Gather(wreq) == multiset(finished)
  }

  ghost predicate DramInv(h: DramRun) {
    && Safe(h.s)
    && h.s.queue == Reqs(h.queued)
    && FlightInv(h.flight, h.s.rreq, h.s.readBusy)
    && |h.s.readsOut| == |h.flight|
    && OrderInv(h.accepted, h.answers, h.flight, h.queued)
    && StreamInv(h.delivered, h.s.rresp, h.answers)
    && WriteInv(h.initial, h.bursts, h.s.writer, h.s.store)
    && ResponseInv(h.deliveredB, h.s.bresp, h.s.wreq, Ids(Finished(h.bursts, h.s.writer.inflight)))
  }

  // ---------- everything in a map of queues ----------

  ghost function Gather(m: map<nat, seq<nat>>): multiset<nat>
    decreases |m|
  {
    if m == map[] then multiset{}
    else
      var k :| k in m;
      multiset(m[k]) + Gather(m - {k})
  }

  lemma {:induction false} GatherPick(m: map<nat, seq<nat>>, k: nat)
    requires k in m
    ensures Gather(m) == multiset(m[k]) + Gather(m - {k})
    decreases |m|
  {
    var k0 :| k0 in m && Gather(m) == multiset(m[k0]) + Gather(m - {k0});
    if k != k0 {
      GatherPick(m - {k0}, k);
      GatherPick(m - {k}, k0);
      assert m - {k0} - {k} == m - {k} - {k0};
    }
  }

  lemma GatherUpdate(m: map<nat, seq<nat>>, k: nat, v: seq<nat>)
    ensures Gather(m[k := v]) + multiset(At<nat>(m, k)) == Gather(m) + multiset(v)
  {
    var m' := m[k := v];
    GatherPick(m', k);
    if k in m {
      GatherPick(m, k);
      assert m' - {k} == m - {k};
    } else {
      assert m' - {k} == m;
    }
  }

  lemma Cancel(a: multiset<nat>, b: multiset<nat>, c: multiset<nat>)
    requires a + c == b + c
    ensures a == b
  {
    assert a == (a + c) - c;
    assert b == (b + c) - c;
  }

  // ---------- issuing ----------

  function RunIssueAt(h: DramRun, k: nat): DramRun
    requires k < |h.queued| && h.s.queue == Reqs(h.queued) && QueuedInRange(h.s.queue, |h.s.readBusy|)
  {
    h.(s := Issue(h.s, k),
       queued := Without(h.queued, k),
       flight := h.flight[h.queued[k].req.id := h.queued[k]])
  }

  function RunIssue(h: DramRun, accept: bool): DramRun
    requires h.s.queue == Reqs(h.queued) && QueuedInRange(h.s.queue, |h.s.readBusy|)
  {
    var k := FirstFree(h.s.queue, h.s.readBusy, 0);
    if accept && k < |h.queued| then RunIssueAt(h, k) else h
  }

  lemma IssueKeepsFlight(flight: map<nat, Tagged>, rreq: map<nat, seq<Req>>, busy: seq<bool>, t: Tagged)
    requires FlightInv(flight, rreq, busy) && t.req.id < |busy| && !busy[t.req.id]
    ensures var r := t.req;
            FlightInv(flight[r.id := t], Push(rreq, r.addr, r), busy[r.id := true])
  {
    var r := t.req;
    var rreq' := Push(rreq, r.addr, r);
    IssueFiled(flight, rreq, t);
    var flight' := flight[r.id := t];
    forall d: nat | d in flight' ensures Present(rreq', flight'[d].req) {
      if d == r.id {
        assert Holds(rreq', r, |At(rreq, r.addr)|);
      } else {
        var k: nat :| Holds(rreq, flight[d].req, k);
        assert Holds(rreq', flight[d].req, k);
      }
    }
  }

  lemma IssueFiled(flight: map<nat, Tagged>, rreq: map<nat, seq<Req>>, t: Tagged)
    requires FiledInv(flight, rreq) && DistinctInv(rreq) && t.req.id !in flight
    ensures var r := t.req;
            var rreq' := Push(rreq, r.addr, r);
            FiledInv(flight[r.id := t], rreq') && DistinctInv(rreq')
  {
    var r := t.req;
    var rreq' := Push(rreq, r.addr, r);
    forall a: nat, k: nat | k < |At(rreq', a)|
      ensures (k < |At(rreq, a)| && At(rreq', a)[k] == At(rreq, a)[k] && At(rreq, a)[k].id != r.id) ||
              (a == r.addr && k == |At(rreq, a)| && At(rreq', a)[k] == r)
    {
    }
  }

  lemma IssueKeepsOrder(h: DramRun, k: nat)
    requires OrderInv(h.accepted, h.answers, h.flight, h.queued)
    requires k < |h.queued| && h.queued[k].req.id !in h.flight
    requires forall j :: 0 <= j < k ==> h.queued[j].req.id in h.flight
    ensures OrderInv(h.accepted, h.answers, h.flight[h.queued[k].req.id := h.queued[k]], Without(h.queued, k))
  {
    var t := h.queued[k];
    var flight' := h.flight[t.req.id := t];
    forall d: nat
      ensures OfId(h.accepted, d) == OfId(Answered(h.answers), d) + InFlight(flight', d) + OfId(Without(h.queued, k), d)
    {
      OfIdWithout(h.queued, k, d);
      var before := OfId(Answered(h.answers), d);
      assert OfId(h.accepted, d) == before + InFlight(h.flight, d) + OfId(h.queued, d);
    }
  }

  lemma IssueAtKeepsInv(h: DramRun, k: nat)
    requires DramInv(h) && k < |h.queued| && Safe(Issue(h.s, k))
    requires h.queued[k].req.id !in h.flight && forall j :: 0 <= j < k ==> h.queued[j].req.id in h.flight
    ensures DramInv(RunIssueAt(h, k))
  {
    var t := h.queued[k];
    assert h.s.queue[k] == t.req;
    IssueKeepsFlight(h.flight, h.s.rreq, h.s.readBusy, t);
    ReqsWithout(h.queued, k);
    AddSize(h.flight, t.req.id, t);
    IssueKeepsOrder(h, k);
  }

  lemma IssueFacts(h: DramRun, accept: bool)
    requires h.s.queue == Reqs(h.queued) && QueuedInRange(h.s.queue, |h.s.readBusy|)
    ensures RunIssue(h, accept).s == IssueStep(h.s, accept)
    ensures RunIssue(h, accept).initial == h.initial && RunIssue(h, accept).accepted == h.accepted
    ensures RunIssue(h, accept).bursts == h.bursts && RunIssue(h, accept).s.writer == h.s.writer
    ensures RunIssue(h, accept).s.store == h.s.store
  {
  }

  lemma BusyInFlight(h: DramRun, k: nat)
    requires DramInv(h) && k == FirstFree(h.s.queue, h.s.readBusy, 0) && k < |h.queued|
    ensures h.queued[k].req.id !in h.flight && forall j :: 0 <= j < k ==> h.queued[j].req.id in h.flight
  {
    var f := FirstFree(h.s.queue, h.s.readBusy, 0);
    forall j | 0 <= j <= k ensures h.queued[j].req.id in h.flight <==> h.s.readBusy[h.s.queue[j].id] {
      QueuedBusy(h, j);
    }
  }

  lemma QueuedBusy(h: DramRun, j: nat)
    requires h.s.queue == Reqs(h.queued) && BusyInv(h.flight, h.s.readBusy) && j < |h.queued|
    requires QueuedInRange(h.s.queue, |h.s.readBusy|)
    ensures h.queued[j].req.id in h.flight <==> h.s.readBusy[h.s.queue[j].id]
  {
    assert h.s.queue[j] == h.queued[j].req;
  }

  lemma IssueKeepsInv(h: DramRun, accept: bool)
    requires DramInv(h)
    ensures DramInv(RunIssue(h, accept))
  {
    IssueStepSafe(h.s, accept);
    var k := FirstFree(h.s.queue, h.s.readBusy, 0);
    if accept && k < |h.queued| {
      BusyInFlight(h, k);
      IssueAtKeepsInv(h, k);
    }
  }

  lemma ReqsSnoc(q: seq<Tagged>, t: Tagged)
    ensures Reqs(q + [t]) == Reqs(q) + [t.req]
  {
  }

  lemma ReqsWithout(q: seq<Tagged>, k: nat)
    requires k < |q|
    ensures Reqs(Without(q, k)) == Without(Reqs(q), k)
  {
  }

  lemma AddSize<T>(m: map<nat, T>, k: nat, v: T)
    requires k !in m
    ensures |m[k := v]| == |m| + 1
  {
    assert m[k := v] - {k} == m;
  }

  // ---------- accepting ----------

  /** The read request accepted in a cycle, if any. */
  function NewRead(store: Store, i: Inputs, accept: bool): seq<Tagged> {
    if ArFires(i, accept) then [Tagged(ToReq(i.ar), store)] else []
  }

  function RunEnqueue(h: DramRun, i: Inputs, accept: bool): DramRun {
    h.(s := EnqueueStep(h.s, i, accept),
       accepted := h.accepted + NewRead(h.s.store, i, accept),
       queued := h.queued + NewRead(h.s.store, i, accept))
  }

  lemma EnqueueKeepsInv(h: DramRun, i: Inputs, accept: bool)
    requires DramInv(h) && LegalTick(h.s, i)
    ensures DramInv(RunEnqueue(h, i, accept))
  {
    EnqueueStepSafe(h.s, i, accept);
    if ArFires(i, accept) {
      var r, t := RunEnqueue(h, i, accept), Tagged(ToReq(i.ar), h.s.store);
      ReqsSnoc(h.queued, t);
      EnqueueKeepsOrder(h, t);
    } else {
      assert h.accepted + [] == h.accepted && h.queued + [] == h.queued;
    }
  }

  lemma EnqueueKeepsOrder(h: DramRun, t: Tagged)
    requires OrderInv(h.accepted, h.answers, h.flight, h.queued)
    ensures OrderInv(h.accepted + [t], h.answers, h.flight, h.queued + [t])
  {
    forall d: nat
      ensures OfId(h.accepted + [t], d) ==
              OfId(Answered(h.answers), d) + InFlight(h.flight, d) + OfId(h.queued + [t], d)
    {
      OfIdConcat(h.accepted, [t], d);
      OfIdConcat(h.queued, [t], d);
    }
  }

  function RunWrite(h: DramRun, i: Inputs, accept: bool): DramRun
    requires Safe(h.s) && LegalTick(h.s, i) && (h.s.writer.inflight ==> h.bursts != [])
  {
    h.(s := WriteStep(h.s, i, accept),
       bursts := BurstsStep(h.bursts, h.s.writer, AwFires(h.s, i, accept), i))
  }

  lemma WriteKeepsInv(h: DramRun, i: Inputs, accept: bool)
    requires DramInv(h) && LegalTick(h.s, i)
    ensures DramInv(RunWrite(h, i, accept))
  {
    WriteStepSafe(h.s, i, accept);
    WriteKeepsStore(h, i, accept);
    WriteKeepsResponses(h, i, accept);
  }

  lemma WriteKeepsStore(h: DramRun, i: Inputs, accept: bool)
    requires Safe(h.s) && LegalTick(h.s, i) && WriteInv(h.initial, h.bursts, h.s.writer, h.s.store)
    ensures var r := RunWrite(h, i, accept);
            WriteInv(r.initial, r.bursts, r.s.writer, r.s.store)
  {
    var w := h.s.writer;
    if AwFires(h.s, i, accept) {
      WriteInvStart(h.initial, h.bursts, w, h.s.store, i.aw);
    } else if WFire(w, i) {
      WriteInvBeat(h.initial, h.bursts, w, h.s.store, i.w);
    }
  }

  lemma WriteKeepsResponses(h: DramRun, i: Inputs, accept: bool)
    requires Safe(h.s) && LegalTick(h.s, i) && WriteInv(h.initial, h.bursts, h.s.writer, h.s.store)
    requires ResponseInv(h.deliveredB, h.s.bresp, h.s.wreq, Ids(Finished(h.bursts, h.s.writer.inflight)))
    ensures var r := RunWrite(h, i, accept);
            ResponseInv(r.deliveredB, r.s.bresp, r.s.wreq, Ids(Finished(r.bursts, r.s.writer.inflight)))
  {
    var w := h.s.writer;
    var finished := Ids(Finished(h.bursts, w.inflight));
    FinishedStep(h.bursts, w, AwFires(h.s, i, accept), i);
    if WFire(w, i) && w.count == 1 {
      PushKeepsResponses(h.deliveredB, h.s.bresp, h.s.wreq, finished, NextBeat(w).addr, w.id);
    } else {
      assert finished + [] == finished;
    }
  }

  lemma PushKeepsResponses(deliveredB: seq<nat>, bresp: seq<nat>, wreq: map<nat, seq<nat>>, finished: seq<nat>,
                           addr: nat, id: nat)
    requires ResponseInv(deliveredB, bresp, wreq, finished)
    ensures ResponseInv(deliveredB, bresp, Push<nat>(wreq, addr, id), finished + [id])
  {
    var q := At<nat>(wreq, addr);
    GatherUpdate(wreq, addr, q + [id]);
    assert multiset(q + [id]) == multiset{id} + multiset(q);
    Cancel(Gather(Push<nat>(wreq, addr, id)), Gather(wreq) + multiset{id}, multiset(q));
  }

  function RunPop(h: DramRun, i: Inputs): DramRun {
    h.(s := PopStep(h.s, i),
       delivered := h.delivered + Delivered(h.s.rresp, !i.reset && i.rReady),
       deliveredB := h.deliveredB + Delivered(h.s.bresp, !i.reset && i.bReady))
  }

  lemma PopKeepsInv(h: DramRun, i: Inputs)
    requires DramInv(h)
    ensures DramInv(RunPop(h, i))
  {
    PopAlone(h.delivered, h.s.rresp, !i.reset && i.rReady);
    PopAlone(h.deliveredB, h.s.bresp, !i.reset && i.bReady);
  }

  lemma PopAlone<T>(taken: seq<T>, queue: seq<T>, fire: bool)
    ensures taken + Delivered(queue, fire) + Popped(queue, fire) == taken + queue
  {
  }

  // ---------- completing ----------

  function RunComplete1(h: DramRun, t: Transaction): DramRun
    requires Safe(h.s) && Outstanding(h.s, t) && FlightInv(h.flight, h.s.rreq, h.s.readBusy)
  {
    CallbackFindsEntry(h.s, t);
    var s' := Complete1(h.s, t);
    if t.isWrite then h.(s := s')
    else
      var r := At(h.s.rreq, t.addr)[0];
      h.(s := s', flight := h.flight - {r.id}, answers := h.answers + [Answer(h.flight[r.id], h.s.store)])
  }

  lemma CompleteKeepsFlight(flight: map<nat, Tagged>, rreq: map<nat, seq<Req>>, busy: seq<bool>, addr: nat)
    requires FlightInv(flight, rreq, busy) && At(rreq, addr) != []
    ensures var r := At(rreq, addr)[0];
            && r.id in flight && flight[r.id].req == r && r.id < |busy|
            && FlightInv(flight - {r.id}, Pop(rreq, addr), busy[r.id := false])
  {
    var r := At(rreq, addr)[0];
    CompleteFiled(flight, rreq, addr);
    CompletePresent(flight, rreq, addr);
    CompleteBusy(flight, busy, r.id);
  }

  lemma CompleteBusy(flight: map<nat, Tagged>, busy: seq<bool>, id: nat)
    requires BusyInv(flight, busy) && id in flight
    ensures id < |busy| && BusyInv(flight - {id}, busy[id := false])
  {
  }

  lemma CompletePresent(flight: map<nat, Tagged>, rreq: map<nat, seq<Req>>, addr: nat)
    requires PresentInv(flight, rreq) && At(rreq, addr) != []
    ensures PresentInv(flight - {At(rreq, addr)[0].id}, Pop(rreq, addr))
  {
    var flight' := flight - {At(rreq, addr)[0].id};
    forall d: nat | d in flight' ensures flight'[d].req.id == d && Present(Pop(rreq, addr), flight'[d].req) {
      assert flight'[d] == flight[d];
      StillPresent(rreq, addr, flight[d].req);
    }
  }

  lemma StillPresent(rreq: map<nat, seq<Req>>, addr: nat, r: Req)
    requires At(rreq, addr) != [] && Present(rreq, r) && r != At(rreq, addr)[0]
    ensures Present(Pop(rreq, addr), r)
  {
    var k: nat :| Holds(rreq, r, k);
    if r.addr == addr {
      assert Holds(Pop(rreq, addr), r, k - 1);
    } else {
      assert Holds(Pop(rreq, addr), r, k);
    }
  }

  lemma CompleteFiled(flight: map<nat, Tagged>, rreq: map<nat, seq<Req>>, addr: nat)
    requires FiledInv(flight, rreq) && DistinctInv(rreq) && At(rreq, addr) != []
    ensures var rreq' := Pop(rreq, addr);
            FiledInv(flight - {At(rreq, addr)[0].id}, rreq') && DistinctInv(rreq')
  {
    var r := At(rreq, addr)[0];
    var rreq' := Pop(rreq, addr);
    forall a: nat, k: nat | k < |At(rreq', a)|
      ensures var k' := if a == addr then k + 1 else k;
              k' < |At(rreq, a)| && At(rreq', a)[k] == At(rreq, a)[k'] && At(rreq', a)[k].id != r.id
    {
      if a != addr {
        assert At(rreq, a)[k].addr == a && r.addr == addr;
      }
    }
  }

  lemma CompleteKeepsInv(h: DramRun, t: Transaction)
    requires DramInv(h) && Outstanding(h.s, t)
    ensures DramInv(RunComplete1(h, t))
  {
    CallbackFindsEntry(h.s, t);
    Complete1Safe(h.s, t);
    if t.isWrite {
      WriteCompleteKeepsInv(h, t);
    } else {
      ReadCompleteKeepsInv(h, t);
    }
  }

  lemma WriteCompleteKeepsInv(h: DramRun, t: Transaction)
    requires DramInv(h) && Outstanding(h.s, t) && t.isWrite && Safe(RunComplete1(h, t).s)
    ensures DramInv(RunComplete1(h, t))
  {
    CallbackFindsEntry(h.s, t);
    CompleteKeepsResponses(h.deliveredB, h.s.bresp, h.s.wreq, Ids(Finished(h.bursts, h.s.writer.inflight)), t.addr);
  }

  lemma CompleteKeepsResponses(deliveredB: seq<nat>, bresp: seq<nat>, wreq: map<nat, seq<nat>>, finished: seq<nat>,
                               addr: nat)
    requires ResponseInv(deliveredB, bresp, wreq, finished) && At<nat>(wreq, addr) != []
    ensures ResponseInv(deliveredB, bresp + [At<nat>(wreq, addr)[0]], Pop<nat>(wreq, addr), finished)
  {
    var q := At<nat>(wreq, addr);
    GatherUpdate(wreq, addr, q[1..]);
    assert q == [q[0]] + q[1..];
    assert multiset(q) == multiset{q[0]} + multiset(q[1..]);
    assert deliveredB + (bresp + [q[0]]) == deliveredB + bresp + [q[0]];
    Cancel(Gather(Pop<nat>(wreq, addr)) + multiset{q[0]}, Gather(wreq), multiset(q[1..]));
  }

  lemma ReadCompleteKeepsInv(h: DramRun, t: Transaction)
    requires DramInv(h) && Outstanding(h.s, t) && !t.isWrite && Safe(RunComplete1(h, t).s)
    ensures DramInv(RunComplete1(h, t))
  {
    CallbackFindsEntry(h.s, t);
    var id := At(h.s.rreq, t.addr)[0].id;
    CompleteKeepsFlight(h.flight, h.s.rreq, h.s.readBusy, t.addr);
    assert |h.s.readsOut - multiset{t.addr}| == |h.flight - {id}| by {
      RemoveSize(h.flight, id);
    }
    CompleteKeepsHistory(h, id);
  }

  lemma CompleteKeepsHistory(h: DramRun, id: nat)
    requires OrderInv(h.accepted, h.answers, h.flight, h.queued) && id in h.flight && h.flight[id].req.id == id
    requires StreamInv(h.delivered, h.s.rresp, h.answers)
    ensures var a := Answer(h.flight[id], h.s.store);
            && OrderInv(h.accepted, h.answers + [a], h.flight - {id}, h.queued)
            && StreamInv(h.delivered, h.s.rresp + Expand(a.at, a.t.req), h.answers + [a])
  {
    CompleteKeepsOrder(h, id, h.s.store);
    CompleteKeepsStream(h, Answer(h.flight[id], h.s.store));
  }

  lemma RemoveSize<T>(m: map<nat, T>, k: nat)
    requires k in m
    ensures |m - {k}| == |m| - 1
  {
    assert (m - {k}).Keys == m.Keys - {k};
  }

  lemma CompleteKeepsOrder(h: DramRun, id: nat, at: Store)
    requires OrderInv(h.accepted, h.answers, h.flight, h.queued) && id in h.flight && h.flight[id].req.id == id
    ensures OrderInv(h.accepted, h.answers + [Answer(h.flight[id], at)], h.flight - {id}, h.queued)
  {
    var t := h.flight[id];
    var answers' := h.answers + [Answer(t, at)];
    assert Answered(answers') == Answered(h.answers) + [t];
    forall d: nat
      ensures OfId(h.accepted, d) == OfId(Answered(answers'), d) + InFlight(h.flight - {id}, d) + OfId(h.queued, d)
    {
      OfIdConcat(Answered(h.answers), [t], d);
      OfIdOne(t, d);
    }
  }

  lemma OfIdOne(t: Tagged, d: nat)
    ensures OfId([t], d) == if t.req.id == d then [t] else []
  {
    assert [t][..0] == [];
  }

  lemma CompleteKeepsStream(h: DramRun, a: Answer)
    requires StreamInv(h.delivered, h.s.rresp, h.answers)
    ensures StreamInv(h.delivered, h.s.rresp + Expand(a.at, a.t.req), h.answers + [a])
  {
    var beats := Expand(a.at, a.t.req);
    assert AnswerBeats(h.answers + [a]) == AnswerBeats(h.answers) + [beats];
    FlattenSnoc(AnswerBeats(h.answers), beats);
    assert h.delivered + (h.s.rresp + beats) == h.delivered + h.s.rresp + beats;
  }

  ghost function RunCompleteAll(h: DramRun, done: seq<Transaction>): (r: DramRun)
    requires DramInv(h) && MayComplete(h.s, done)
    ensures DramInv(r) && r.s == CompleteAll(h.s, done) && r.initial == h.initial && r.accepted == h.accepted
    decreases |done|
  {
    if done == [] then h
    else
      CompleteKeepsInv(h, done[0]);
      RunCompleteAll(RunComplete1(h, done[0]), done[1..])
  }

  // ---------- runs ----------

  /** What the bus and the DRAM do in one reset-free cycle. */
  datatype Cycle = Cycle(i: Inputs, accept: bool, done: seq<Transaction>)

  ghost function RunBeforeUpdate(h: DramRun, i: Inputs, accept: bool): (r: DramRun)
    requires DramInv(h) && LegalTick(h.s, i)
    ensures DramInv(r) && r.s == BeforeUpdate(h.s, i, accept) && r.initial == h.initial
    ensures r.accepted == h.accepted + NewRead(h.s.store, i, accept)
  {
    IssueKeepsInv(h, accept);
    IssueFacts(h, accept);
    RunChannels(RunIssue(h, accept), i, accept)
  }

  ghost function RunChannels(h: DramRun, i: Inputs, accept: bool): (r: DramRun)
    requires DramInv(h) && LegalTick(h.s, i)
    ensures DramInv(r) && r.initial == h.initial && r.accepted == h.accepted + NewRead(h.s.store, i, accept)
    ensures LegalTick(EnqueueStep(h.s, i, accept), i) && Safe(EnqueueStep(h.s, i, accept))
    ensures r.s == PopStep(WriteStep(EnqueueStep(h.s, i, accept), i, accept), i)
  {
    EnqueueKeepsInv(h, i, accept);
    EnqueueStepSafe(h.s, i, accept);
    var h2 := RunEnqueue(h, i, accept);
    WriteKeepsInv(h2, i, accept);
    var h3 := RunWrite(h2, i, accept);
    PopKeepsInv(h3, i);
    RunPop(h3, i)
  }

  ghost predicate LegalCycle(h: DramRun, c: Cycle)
    requires DramInv(h)
  {
    LegalTick(h.s, c.i) && !c.i.reset && MayComplete(BeforeUpdate(h.s, c.i, c.accept), c.done)
  }

  ghost function RunStep(h: DramRun, c: Cycle): (r: DramRun)
    requires DramInv(h) && LegalCycle(h, c)
    ensures DramInv(r) && r.s == DramStep(h.s, c.i, c.accept, c.done)
    ensures r.initial == h.initial && |r.s.readBusy| == |h.s.readBusy|
    ensures r.accepted == h.accepted + NewRead(h.s.store, c.i, c.accept)
  {
    var t := RunCompleteAll(RunBeforeUpdate(h, c.i, c.accept), c.done);
    ResetSafe(t.s, false);
    t.(s := Reset(t.s, false))
  }

  ghost predicate LegalRun(h: DramRun, cs: seq<Cycle>)
    requires DramInv(h)
    decreases |cs|
  {
    cs == [] || (LegalCycle(h, cs[0]) && LegalRun(RunStep(h, cs[0]), cs[1..]))
  }

  ghost function RunFrom(h: DramRun, cs: seq<Cycle>): (r: DramRun)
    requires DramInv(h) && LegalRun(h, cs)
    ensures DramInv(r) && r.initial == h.initial && |r.s.readBusy| == |h.s.readBusy|
    decreases |cs|
  {
    if cs == [] then h else RunFrom(RunStep(h, cs[0]), cs[1..])
  }

  /** A run that has just begun: every invariant holds. */
  ghost function RunStart(store: Store, ids: nat): (r: DramRun)
    ensures DramInv(r) && r.initial == store && |r.s.readBusy| == ids
  {
    DramRun(DramStart(store, ids), store, [], [], map[], [], [], [], [])
  }
}
