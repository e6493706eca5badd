/** `mm_dramsim2_t`: reads are queued, issued to a DRAM one at a time per identifier,
    and answered when the DRAM calls back. The DRAM itself is an environment: it says
    once per cycle whether it accepts transactions, and it may complete any of the
    transactions outstanding at it, in any order. */
module DramMemory {
  import opened Arith
  import opened Axi
  import opened ByteStore
  import opened WriteEngine
  import opened MemoryModel

  datatype Transaction = Transaction(isWrite: bool, addr: nat)

  datatype DramState = DramState(
    store: Store, writer: Writer, bresp: seq<nat>, rresp: seq<RBeat>,
    rreq: map<nat, seq<Req>>, wreq: map<nat, seq<nat>>,
    readBusy: seq<bool>, writeBusy: seq<bool>, queue: seq<Req>, cycle: nat,
    // outstanding at the DRAM, by address
    readsOut: multiset<nat>, writesOut: multiset<nat>)

  /** `operator[]` of a map of queues: a missing queue is empty. */
  function At<T>(m: map<nat, seq<T>>, a: nat): seq<T> {
    if a in m then m[a] else []
  }

  /** Append to, and drop from, the queue kept for an address. */
  function Push<T>(m: map<nat, seq<T>>, a: nat, x: T): (m': map<nat, seq<T>>)
    ensures forall b :: At(m', b) == if b == a then At(m, a) + [x] else At(m, b)
  {
    m[a := At(m, a) + [x]]
  }

  function Pop<T>(m: map<nat, seq<T>>, a: nat): (m': map<nat, seq<T>>)
    requires At(m, a) != []
    ensures forall b :: At(m', b) == if b == a then At(m, a)[1..] else At(m, b)
  {
    m[a := At(m, a)[1..]]
  }

  predicate QueuedInRange(queue: seq<Req>, ids: nat) {
    forall k :: 0 <= k < |queue| ==> queue[k].id < ids && queue[k].len > 0
  }

  ghost predicate ReadsInRange(rreq: map<nat, seq<Req>>, ids: nat) {
    forall a: nat, k: nat :: k < |At(rreq, a)| ==> At(rreq, a)[k].id < ids && At(rreq, a)[k].len > 0
  }

  ghost predicate WritesInRange(wreq: map<nat, seq<nat>>, ids: nat) {
    forall a: nat, k: nat :: k < |At<nat>(wreq, a)| ==> At<nat>(wreq, a)[k] < ids
  }

  ghost predicate IdsInRange(s: DramState) {
    && |s.writeBusy| == |s.readBusy|
    && (s.writer.inflight ==> s.writer.id < |s.readBusy|)
    && QueuedInRange(s.queue, |s.readBusy|)
    && ReadsInRange(s.rreq, |s.readBusy|)
    && WritesInRange(s.wreq, |s.readBusy|)
  }

  /** The queue kept for an address is as long as the number of transactions
      outstanding there, so a callback always finds an entry. */
  ghost predicate Matches<T>(m: map<nat, seq<T>>, out: multiset<nat>) {
    forall a: nat :: |At(m, a)| == out[a]
  }

  ghost predicate Matched(s: DramState) {
    Matches(s.rreq, s.readsOut) && Matches<nat>(s.wreq, s.writesOut)
  }

  ghost predicate Safe(s: DramState) {
    WriterOk(s.writer, s.store.word) && IdsInRange(s) && Matched(s)
  }

  predicate LegalTick(s: DramState, i: Inputs) {
    && LegalInputs(i, s.store.word)
    && LastBeatMarked(s.writer, i)
    && (i.arValid ==> i.ar.id < |s.readBusy|)
    && (i.awValid ==> i.aw.id < |s.readBusy|)
  }

  // ---------- issuing a read ----------

  /** The first queued request, from position k on, whose identifier is free. */
  function FirstFree(queue: seq<Req>, busy: seq<bool>, k: nat): (f: nat)
    requires k <= |queue| && QueuedInRange(queue, |busy|)
    ensures k <= f <= |queue|
    ensures forall j :: k <= j < f ==> busy[queue[j].id]
    ensures f < |queue| ==> !busy[queue[f].id]
    decreases |queue| - k
  {
    if k == |queue| || !busy[queue[k].id] then k else FirstFree(queue, busy, k + 1)
  }

  function Without<T>(q: seq<T>, k: nat): seq<T>
    requires k < |q|
  {
    q[..k] + q[k + 1..]
  }

  function Issue(s: DramState, k: nat): DramState
    requires k < |s.queue| && s.queue[k].id < |s.readBusy|
  {
    var r := s.queue[k];
    s.(readBusy := s.readBusy[r.id := true],
       rreq := Push(s.rreq, r.addr, r),
       readsOut := s.readsOut + multiset{r.addr},
       queue := Without(s.queue, k))
  }

  function IssueStep(s: DramState, accept: bool): DramState
    requires QueuedInRange(s.queue, |s.readBusy|)
  {
    var k := FirstFree(s.queue, s.readBusy, 0);
    if accept && k < |s.queue| then Issue(s, k) else s
  }

  // ---------- accepting requests ----------

  predicate ArFires(i: Inputs, accept: bool) {
    !i.reset && i.arValid && accept
  }

  predicate AwFires(s: DramState, i: Inputs, accept: bool) {
    AwFire(s.writer, i) && accept
  }

  /** Hand a finished write burst to the DRAM, under the address past its end. */
  function AddWrite(s: DramState, addr: nat, id: nat): DramState {
    s.(wreq := Push<nat>(s.wreq, addr, id), writesOut := s.writesOut + multiset{addr})
  }

  function WriteStep(s: DramState, i: Inputs, accept: bool): DramState
    requires Safe(s) && LegalTick(s, i)
  {
    var writer := WriterStep(s.writer, AwFires(s, i, accept), i);
    var t := s.(writer := writer,
                store := if WFire(s.writer, i) then WriteBeat(s.store, s.writer.addr, i.w, s.writer.size) else s.store);
    if WFire(s.writer, i) && !writer.inflight then AddWrite(t, writer.addr, writer.id) else t
  }

  /** One accepted beat. */
  function DataStep(s: DramState, w: WBeat): DramState
    requires s.writer.count > 0 && |w.data| == s.store.word
  {
    var writer := NextBeat(s.writer);
    var t := s.(writer := writer, store := WriteBeat(s.store, s.writer.addr, w, s.writer.size));
    if writer.inflight then t else AddWrite(t, writer.addr, writer.id)
  }

  /** The write channel, case by case. */
  lemma WriteStepIs(s: DramState, i: Inputs, accept: bool)
    requires Safe(s) && LegalTick(s, i)
    ensures AwFires(s, i, accept) ==> WriteStep(s, i, accept) == s.(writer := StartBurst(i.aw))
    ensures WFire(s.writer, i) ==> WriteStep(s, i, accept) == DataStep(s, i.w)
    ensures !AwFires(s, i, accept) && !WFire(s.writer, i) ==> WriteStep(s, i, accept) == s
  {
  }

  function EnqueueStep(s: DramState, i: Inputs, accept: bool): DramState {
    if ArFires(i, accept) then s.(queue := s.queue + [ToReq(i.ar)]) else s
  }

  function PopStep(s: DramState, i: Inputs): DramState {
    s.(bresp := Popped(s.bresp, !i.reset && i.bReady), rresp := Popped(s.rresp, !i.reset && i.rReady))
  }

  // ---------- completions ----------

  function ReadComplete(s: DramState, addr: nat): DramState
    requires At(s.rreq, addr) != [] && At(s.rreq, addr)[0].id < |s.readBusy|
  {
    var r := At(s.rreq, addr)[0];
    s.(rresp := s.rresp + Expand(s.store, r),
       readBusy := s.readBusy[r.id := false],
       rreq := Pop(s.rreq, addr),
       readsOut := s.readsOut - multiset{addr})
  }

  function WriteComplete(s: DramState, addr: nat): DramState
    requires At<nat>(s.wreq, addr) != [] && At<nat>(s.wreq, addr)[0] < |s.writeBusy|
  {
    var id := At<nat>(s.wreq, addr)[0];
    s.(bresp := s.bresp + [id],
       writeBusy := s.writeBusy[id := false],
       wreq := Pop<nat>(s.wreq, addr),
       writesOut := s.writesOut - multiset{addr})
  }

  predicate Outstanding(s: DramState, t: Transaction) {
    if t.isWrite then t.addr in s.writesOut else t.addr in s.readsOut
  }

  /** Both callbacks assert that the queue of the address is not empty: it never is. */
  lemma CallbackFindsEntry(s: DramState, t: Transaction)
    requires Safe(s) && Outstanding(s, t)
    ensures t.isWrite ==> At<nat>(s.wreq, t.addr) != [] && At<nat>(s.wreq, t.addr)[0] < |s.writeBusy|
    ensures !t.isWrite ==> At(s.rreq, t.addr) != [] && At(s.rreq, t.addr)[0].id < |s.readBusy|
  {
    assert |At(s.rreq, t.addr)| == s.readsOut[t.addr];
    assert |At<nat>(s.wreq, t.addr)| == s.writesOut[t.addr];
  }

  function Complete1(s: DramState, t: Transaction): DramState
    requires Safe(s) && Outstanding(s, t)
  {
    CallbackFindsEntry(s, t);
    if t.isWrite then WriteComplete(s, t.addr) else ReadComplete(s, t.addr)
  }

  lemma PushMatches<T>(m: map<nat, seq<T>>, out: multiset<nat>, a: nat, x: T)
    requires Matches(m, out)
    ensures Matches(Push(m, a, x), out + multiset{a})
  {
    forall b: nat ensures |At(Push(m, a, x), b)| == (out + multiset{a})[b] {
      assert |At(m, b)| == out[b];
    }
  }

  lemma PopMatches<T>(m: map<nat, seq<T>>, out: multiset<nat>, a: nat)
    requires Matches(m, out) && At(m, a) != []
    ensures Matches(Pop(m, a), out - multiset{a})
  {
    forall b: nat ensures |At(Pop(m, a), b)| == (out - multiset{a})[b] {
      assert |At(m, b)| == out[b];
    }
  }

  lemma PopReadInRange(rreq: map<nat, seq<Req>>, a: nat, ids: nat)
    requires ReadsInRange(rreq, ids) && At(rreq, a) != []
    ensures ReadsInRange(Pop(rreq, a), ids)
  {
    forall b: nat, k: nat | k < |At(Pop(rreq, a), b)|
      ensures At(Pop(rreq, a), b)[k].id < ids && At(Pop(rreq, a), b)[k].len > 0
    {
      assert At(Pop(rreq, a), b)[k] == At(rreq, b)[if a == b then k + 1 else k];
    }
  }

  lemma PopWriteInRange(wreq: map<nat, seq<nat>>, a: nat, ids: nat)
    requires WritesInRange(wreq, ids) && At<nat>(wreq, a) != []
    ensures WritesInRange(Pop<nat>(wreq, a), ids)
  {
    forall b: nat, k: nat | k < |At<nat>(Pop<nat>(wreq, a), b)| ensures At<nat>(Pop<nat>(wreq, a), b)[k] < ids {
      assert At<nat>(Pop<nat>(wreq, a), b)[k] == At<nat>(wreq, b)[if a == b then k + 1 else k];
    }
  }

  lemma Complete1Safe(s: DramState, t: Transaction)
    requires Safe(s) && Outstanding(s, t)
    ensures Safe(Complete1(s, t))
    ensures |Complete1(s, t).readBusy| == |s.readBusy| && Complete1(s, t).store == s.store
  {
    CallbackFindsEntry(s, t);
    if t.isWrite {
      PopWriteInRange(s.wreq, t.addr, |s.readBusy|);
      PopMatches<nat>(s.wreq, s.writesOut, t.addr);
    } else {
      PopReadInRange(s.rreq, t.addr, |s.readBusy|);
      PopMatches(s.rreq, s.readsOut, t.addr);
    }
  }

  /** The environment completes only what is outstanding. */
  ghost predicate MayComplete(s: DramState, done: seq<Transaction>)
    requires Safe(s)
    decreases |done|
  {
    done == [] ||
    (Outstanding(s, done[0]) && (Complete1Safe(s, done[0]); MayComplete(Complete1(s, done[0]), done[1..])))
  }

  ghost function CompleteAll(s: DramState, done: seq<Transaction>): (r: DramState)
    requires Safe(s) && MayComplete(s, done)
    ensures Safe(r) && |r.readBusy| == |s.readBusy| && r.store == s.store && r.queue == s.queue
    decreases |done|
  {
    if done == [] then s
    else
      Complete1Safe(s, done[0]);
      CompleteAll(Complete1(s, done[0]), done[1..])
  }

  /** The state after construction. */
  function DramStart(store: Store, ids: nat): DramState {
    DramState(store, IDLE, [], [], map[], map[], seq(ids, _ => false), seq(ids, _ => false), [], 0,
              multiset{}, multiset{})
  }

  // ---------- one cycle ----------

  lemma IssueStepSafe(s: DramState, accept: bool)
    requires Safe(s)
    ensures Safe(IssueStep(s, accept)) && |IssueStep(s, accept).readBusy| == |s.readBusy|
  {
    var k := FirstFree(s.queue, s.readBusy, 0);
    if accept && k < |s.queue| {
      var q := s.queue[k];
      PushMatches(s.rreq, s.readsOut, q.addr, q);
      PushReadInRange(s.rreq, q, |s.readBusy|);
      assert forall j :: 0 <= j < |s.queue| - 1 ==>
        Without(s.queue, k)[j] == s.queue[if j < k then j else j + 1];
    }
  }

  lemma PushReadInRange(rreq: map<nat, seq<Req>>, r: Req, ids: nat)
    requires ReadsInRange(rreq, ids) && r.id < ids && r.len > 0
    ensures ReadsInRange(Push(rreq, r.addr, r), ids)
  {
    forall b: nat, k: nat | k < |At(Push(rreq, r.addr, r), b)|
      ensures At(Push(rreq, r.addr, r), b)[k].id < ids && At(Push(rreq, r.addr, r), b)[k].len > 0
    {
      assert k < |At(rreq, b)| ==> At(Push(rreq, r.addr, r), b)[k] == At(rreq, b)[k];
    }
  }

  lemma PushWriteInRange(wreq: map<nat, seq<nat>>, a: nat, id: nat, ids: nat)
    requires WritesInRange(wreq, ids) && id < ids
    ensures WritesInRange(Push<nat>(wreq, a, id), ids)
  {
    forall b: nat, k: nat | k < |At<nat>(Push<nat>(wreq, a, id), b)|
      ensures At<nat>(Push<nat>(wreq, a, id), b)[k] < ids
    {
      assert k < |At<nat>(wreq, b)| ==> At<nat>(Push<nat>(wreq, a, id), b)[k] == At<nat>(wreq, b)[k];
    }
  }

  lemma EnqueueStepSafe(s: DramState, i: Inputs, accept: bool)
    requires Safe(s) && LegalTick(s, i)
    ensures Safe(EnqueueStep(s, i, accept)) && LegalTick(EnqueueStep(s, i, accept), i)
  {
  }

  lemma WriteStepSafe(s: DramState, i: Inputs, accept: bool)
    requires Safe(s) && LegalTick(s, i)
    ensures Safe(WriteStep(s, i, accept))
    ensures |WriteStep(s, i, accept).readBusy| == |s.readBusy|
  {
    if i.awValid {
      BeatDividesWord(i.aw.size, s.store.word);
    }
    if WFire(s.writer, i) && s.writer.count == 1 {
      var addr := NextBeat(s.writer).addr;
      PushMatches<nat>(s.wreq, s.writesOut, addr, s.writer.id);
      PushWriteInRange(s.wreq, addr, s.writer.id, |s.readBusy|);
    }
  }

  /** The cycle up to the call of the DRAM's `update`. */
  ghost function BeforeUpdate(s: DramState, i: Inputs, accept: bool): (r: DramState)
    requires Safe(s) && LegalTick(s, i)
    ensures Safe(r) && |r.readBusy| == |s.readBusy|
    ensures !WFire(s.writer, i) ==> r.store == s.store
  {
    IssueStepSafe(s, accept);
    var s1 := IssueStep(s, accept);
    EnqueueStepSafe(s1, i, accept);
    var s2 := EnqueueStep(s1, i, accept);
    WriteStepSafe(s2, i, accept);
    var s3 := WriteStep(s2, i, accept);
    PopStep(s3, i)
  }

  function Reset(s: DramState, reset: bool): DramState {
    if reset then s.(bresp := [], rresp := [], cycle := 0) else s.(cycle := Wrap(s.cycle + 1))
  }

  lemma ResetSafe(s: DramState, reset: bool)
    requires Safe(s)
    ensures Safe(Reset(s, reset))
  {
  }

  /** One clock cycle: what the DRAM accepts and which transactions it completes are
      choices of the environment. */
  ghost function DramStep(s: DramState, i: Inputs, accept: bool, done: seq<Transaction>): (r: DramState)
    requires Safe(s) && LegalTick(s, i) && MayComplete(BeforeUpdate(s, i, accept), done)
    ensures Safe(r) && |r.readBusy| == |s.readBusy|
    ensures !WFire(s.writer, i) ==> r.store == s.store
  {
    var t := CompleteAll(BeforeUpdate(s, i, accept), done);
    ResetSafe(t, i.reset);
    Reset(t, i.reset)
  }

  // ---------- the model that updates its fields in place ----------

  lemma MegabyteGeometry(size: nat, word: nat)
    requires size % 0x10_0000 == 0 && 0 < word <= 16 && 64 % word == 0
    ensures size % word == 0 && WordSize(word)
    ensures BitAnd(64, 63) == 0
  {
    assert Pow2(6) == 64;
    AndWithPredecessor(64);
    InitGivesWordSize(word, 64);
    assert 0x10_0000 % word == 0;
    ModOfMod(size, 0x10_0000, word);
  }

  class DramMemoryModel {
    const mem: Memory
    var storeInflight: bool
    var storeAddr: nat
    var storeId: nat
    var storeSize: nat
    var storeCount: nat
    var bresp: seq<nat>
    var rresp: seq<RBeat>
    var rreq: map<nat, seq<Req>>
    var wreq: map<nat, seq<nat>>
    var readBusy: seq<bool>
    var writeBusy: seq<bool>
    var rreqQueue: seq<Req>
    var cycle: nat
    // what `addTransaction` has handed to the DRAM and no callback has returned
    var readsOut: multiset<nat>
    var writesOut: multiset<nat>

    ghost function State(): DramState
      requires mem.Valid()
      reads this, mem.data
    {
      DramState(mem.Contents(), Writer(storeInflight, storeAddr, storeId, storeSize, storeCount), bresp, rresp,
                rreq, wreq, readBusy, writeBusy, rreqQueue, cycle, readsOut, writesOut)
    }

    ghost predicate Valid()
      reads this, mem.data
    {
      mem.Valid() && Safe(State())
    }

    /** DRAMSim2 wants 64-byte lines and whole megabytes; whole words follow from that. */
    constructor Init(axi4Ids: nat, size: nat, word: nat)
      requires 0 < size && size % 0x10_0000 == 0 && 0 < word <= 16 && 64 % word == 0
      ensures Valid() && fresh(mem) && fresh(mem.data)
      ensures State().store.mem == seq(size, _ => 0) && State().store.word == word
      ensures State() == DramStart(State().store, axi4Ids)
    {
      MegabyteGeometry(size, word);
      mem := new Memory.Init(size, word, 64);
      storeInflight, storeAddr, storeId, storeSize, storeCount := false, 0, 0, 1, 0;
      bresp, rresp, rreq, wreq, rreqQueue, cycle := [], [], map[], map[], [], 0;
      readBusy, writeBusy := seq(axi4Ids, _ => false), seq(axi4Ids, _ => false);
      readsOut, writesOut := multiset{}, multiset{};
    }

    /** Scan the queue for a request whose identifier is free. */
    method FindFree() returns (it: nat)
      requires QueuedInRange(rreqQueue, |readBusy|)
      ensures it == FirstFree(rreqQueue, readBusy, 0)
    {
      it := 0;
      while it < |rreqQueue|
        invariant it <= |rreqQueue|
        invariant FirstFree(rreqQueue, readBusy, 0) == FirstFree(rreqQueue, readBusy, it)
      {
        if !readBusy[rreqQueue[it].id] {
          break;
        }
        it := it + 1;
      }
    }

    /** Hand a queued request to the DRAM and erase it from the queue. */
    method IssueAt(it: nat)
      requires mem.Valid() && it < |rreqQueue| && rreqQueue[it].id < |readBusy|
      modifies `readBusy, `rreq, `readsOut, `rreqQueue
      ensures State() == Issue(old(State()), it)
    {
      var r := rreqQueue[it];
      readBusy := readBusy[r.id := true];
      rreq := Push(rreq, r.addr, r);
      readsOut := readsOut + multiset{r.addr};
      rreqQueue := rreqQueue[..it] + rreqQueue[it + 1..];
    }

    /** Issue the first request whose identifier is free. */
    method IssueRead()
      requires Valid()
      modifies this
      ensures Valid() && State() == IssueStep(old(State()), true)
    {
      IssueStepSafe(State(), true);
      var it := FindFree();
      if it < |rreqQueue| {
        IssueAt(it);
      }
    }

    /** Store one accepted W beat. */
    method StoreBeat(w: WBeat)
      requires mem.Valid() && WriterOk(State().writer, mem.word) && storeInflight && |w.data| == mem.word
      modifies `storeAddr, `storeCount, `storeInflight, mem.data
      ensures var s := old(State());
              State() == s.(writer := NextBeat(s.writer), store := WriteBeat(s.store, s.writer.addr, w, s.writer.size))
    {
      mem.Write(storeAddr, w, storeSize);
      storeAddr := Wrap(storeAddr + storeSize);
      storeCount := storeCount - 1;
      if storeCount == 0 {
        storeInflight := false;
      }
    }

    /** Note an accepted write address. */
    method StartWrite(aw: Address)
      requires mem.Valid()
      modifies `storeAddr, `storeId, `storeCount, `storeSize, `storeInflight
      ensures State() == old(State()).(writer := StartBurst(aw))
    {
      ghost var contents := mem.Contents();
      storeAddr, storeId, storeCount, storeSize := aw.addr, aw.id, aw.len + 1, Pow2(aw.size);
      storeInflight := true;
      assert mem.Contents() == contents;
    }

    /** Hand a finished burst to the DRAM. */
    method HandOver()
      requires mem.Valid()
      modifies `writesOut, `wreq
      ensures State() == AddWrite(old(State()), storeAddr, storeId)
    {
      writesOut := writesOut + multiset{storeAddr};
      wreq := Push<nat>(wreq, storeAddr, storeId);
    }

    /** One accepted W beat; the last one of a burst hands it over. */
    method AcceptBeat(w: WBeat)
      requires mem.Valid() && WriterOk(State().writer, mem.word) && storeInflight && |w.data| == mem.word
      modifies `storeAddr, `storeCount, `storeInflight, `writesOut, `wreq, mem.data
      ensures State() == DataStep(old(State()), w)
    {
      StoreBeat(w);
      if !storeInflight {
        HandOver();
      }
    }

    /** The AW and W channels; a finished burst is handed to the DRAM. */
    method AcceptWrite(i: Inputs, awFire: bool, wFire: bool, ghost accept: bool)
      requires Valid() && LegalTick(State(), i)
      requires awFire == AwFires(State(), i, accept) && wFire == WFire(State().writer, i)
      modifies this, mem.data
      ensures Valid() && State() == WriteStep(old(State()), i, accept)
    {
      WriteStepSafe(State(), i, accept);
      WriteStepIs(State(), i, accept);
      if awFire {
        StartWrite(i.aw);
      } else if wFire {
        AcceptBeat(i.w);
      }
    }

    /** The AR channel. */
    method AcceptRead(i: Inputs, arFire: bool, ghost accept: bool)
      requires Valid() && LegalTick(State(), i) && arFire == ArFires(i, accept)
      modifies `rreqQueue
      ensures Valid() && LegalTick(State(), i) && State() == EnqueueStep(old(State()), i, accept)
    {
      EnqueueStepSafe(State(), i, accept);
      if arFire {
        rreqQueue := rreqQueue + [Req(i.ar.id, Pow2(i.ar.size), i.ar.len + 1, i.ar.addr)];
      }
    }

    /** The R and B channels. */
    method PopResponses(i: Inputs, rFire: bool, bFire: bool)
      requires Valid()
      requires rFire == (!i.reset && rresp != [] && i.rReady) && bFire == (!i.reset && bresp != [] && i.bReady)
      modifies `rresp, `bresp
      ensures Valid() && State() == PopStep(old(State()), i)
    {
      if bFire {
        bresp := bresp[1..];
      }
      if rFire {
        rresp := rresp[1..];
      }
    }

    /** Push the beats that answer a read burst. */
    method PushBeats(req: Req)
      requires mem.Valid()
      modifies `rresp
      ensures rresp == old(rresp) + Expand(mem.Contents(), req)
    {
      var startAddr := AlignDown(req.addr, mem.word);
      ghost var beats := Expand(mem.Contents(), req);
      for i := 0 to req.len
        invariant rresp == old(rresp) + beats[..i]
      {
        BeatAddressAligned(mem.Contents(), startAddr, i, mem.word);
        var dat := mem.Read(BeatAddress(startAddr, i, mem.word));
        rresp := rresp + [RBeat(req.id, dat, i == req.len - 1)];
        assert beats[..i + 1] == beats[..i] + [beats[i]];
      }
      assert beats[..req.len] == beats;
    }

    /** Answer the oldest read of an address and free its identifier. */
    method AnswerRead(address: nat)
      requires mem.Valid() && At(rreq, address) != [] && At(rreq, address)[0].id < |readBusy|
      modifies `rresp, `readBusy, `rreq, `readsOut
      ensures State() == ReadComplete(old(State()), address)
    {
      ghost var contents := mem.Contents();
      var req := At(rreq, address)[0];
      PushBeats(req);
      readBusy := readBusy[req.id := false];
      rreq := Pop(rreq, address);
      readsOut := readsOut - multiset{address};
      assert mem.Contents() == contents;
    }

    /** The read callback. */
    method OnReadComplete(address: nat)
      requires Valid() && Outstanding(State(), Transaction(false, address))
      modifies this
      ensures Valid() && State() == Complete1(old(State()), Transaction(false, address))
    {
      ghost var t := Transaction(false, address);
      CallbackFindsEntry(State(), t);
      Complete1Safe(State(), t);
      AnswerRead(address);
    }

    /** Answer the oldest write of an address. */
    method AnswerWrite(address: nat)
      requires mem.Valid() && At<nat>(wreq, address) != [] && At<nat>(wreq, address)[0] < |writeBusy|
      modifies `bresp, `writeBusy, `wreq, `writesOut
      ensures State() == WriteComplete(old(State()), address)
    {
      ghost var contents := mem.Contents();
      var bId := At<nat>(wreq, address)[0];
      bresp := bresp + [bId];
      writeBusy := writeBusy[bId := false];
      wreq := Pop<nat>(wreq, address);
      writesOut := writesOut - multiset{address};
      assert mem.Contents() == contents;
    }

    /** The write callback. */
    method OnWriteComplete(address: nat)
      requires Valid() && Outstanding(State(), Transaction(true, address))
      modifies this
      ensures Valid() && State() == Complete1(old(State()), Transaction(true, address))
    {
      ghost var t := Transaction(true, address);
      CallbackFindsEntry(State(), t);
      Complete1Safe(State(), t);
      AnswerWrite(address);
    }

    /** The DRAM's `update` calls back for each transaction it completes. */
    method Update(done: seq<Transaction>)
      requires Valid() && MayComplete(State(), done)
      modifies this
      ensures Valid() && State() == CompleteAll(old(State()), done)
    {
      var k := 0;
      assert done[0..] == done;
      while k < |done|
        invariant k <= |done|
        invariant Valid() && MayComplete(State(), done[k..])
        invariant CompleteAll(State(), done[k..]) == CompleteAll(old(State()), done)
      {
        ghost var s, rest := State(), done[k..];
        assert rest[0] == done[k] && rest[1..] == done[k + 1..];
        Complete1Safe(s, rest[0]);
        assert CompleteAll(s, rest) == CompleteAll(Complete1(s, rest[0]), rest[1..]);
        if done[k].isWrite {
          OnWriteComplete(done[k].addr);
        } else {
          OnReadComplete(done[k].addr);
        }
        k := k + 1;
      }
    }

    /** The cycle up to the call of `update`. */
    method Channels(i: Inputs, accept: bool, arFire: bool, awFire: bool, wFire: bool, rFire: bool, bFire: bool)
      requires Valid() && LegalTick(State(), i)
      requires arFire == ArFires(i, accept) && awFire == AwFires(State(), i, accept) &&
               wFire == WFire(State().writer, i)
      requires rFire == (!i.reset && rresp != [] && i.rReady) && bFire == (!i.reset && bresp != [] && i.bReady)
      modifies this, mem.data
      ensures Valid() && State() == BeforeUpdate(old(State()), i, accept)
    {
      Requests(i, accept, arFire);
      AcceptWrite(i, awFire, wFire, accept);
      PopResponses(i, rFire, bFire);
    }

    /** Reads: one is issued, one is accepted. */
    method Requests(i: Inputs, accept: bool, arFire: bool)
      requires Valid() && LegalTick(State(), i) && arFire == ArFires(i, accept)
      modifies this
      ensures Valid() && LegalTick(State(), i) && State() == EnqueueStep(IssueStep(old(State()), accept), i, accept)
      ensures State().writer == old(State()).writer && rresp == old(rresp) && bresp == old(bresp)
    {
      IssueStepSafe(State(), accept);
      if accept {
        IssueRead();
      }
      AcceptRead(i, arFire, accept);
    }

    method EndCycle(reset: bool)
      requires Valid()
      modifies `cycle, `bresp, `rresp
      ensures Valid() && State() == Reset(old(State()), reset)
    {
      ResetSafe(State(), reset);
      cycle := Wrap(cycle + 1);
      if reset {
        bresp, rresp, cycle := [], [], 0;
      }
    }

    /** `accept` is what `willAcceptTransaction` answers throughout this call, `done` the
        transactions that `update` completes. */
    method Tick(i: Inputs, accept: bool, done: seq<Transaction>)
      requires Valid() && LegalTick(State(), i) && MayComplete(BeforeUpdate(State(), i, accept), done)
      modifies this, mem.data
      ensures Valid() && State() == DramStep(old(State()), i, accept, done)
    {
      var arFire := !i.reset && i.arValid && accept;
      var awFire := !i.reset && i.awValid && accept && !storeInflight;
      var wFire := !i.reset && i.wValid && storeInflight;
      var rFire := !i.reset && rresp != [] && i.rReady;
      var bFire := !i.reset && bresp != [] && i.bReady;
      Channels(i, accept, arFire, awFire, wFire, rFire, bFire);
      Update(done);
      EndCycle(i.reset);
    }
  }
}
