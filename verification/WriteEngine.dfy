/** The write channel shared by both memory models: the burst in flight, and what
    a whole history of bursts has done to the store. */
module WriteEngine {
  import opened Arith
  import opened Axi
  import opened ByteStore

  /** The fields `store_inflight`, `store_addr`, `store_id`, `store_size`, `store_count`. */
  datatype Writer = Writer(inflight: bool, addr: nat, id: nat, size: nat, count: nat)

  const IDLE := Writer(false, 0, 0, 1, 0)

  predicate WriterOk(w: Writer, word: nat) {
    w.inflight ==> 1 <= w.count <= 256 && WordSize(w.size) && WordSize(word) && word % w.size == 0
  }

  function StartBurst(aw: Address): Writer {
    Writer(true, aw.addr, aw.id, Pow2(aw.size), aw.len + 1)
  }

  function NextBeat(w: Writer): Writer
    requires w.count > 0
  {
    Writer(w.count != 1, Wrap(w.addr + w.size), w.id, w.size, w.count - 1)
  }

  /** The source asserts that the final beat is marked as such. */
  predicate LastBeatMarked(w: Writer, i: Inputs) {
    i.wValid && w.inflight && w.count == 1 ==> i.wLast
  }

  // ---------- history ----------

  /** A burst and the beats it has received so far. */
  datatype Burst = Burst(aw: Address, beats: seq<WBeat>)

  ghost predicate BurstOk(b: Burst, word: nat) {
    && LegalAddress(b.aw, word)
    && |b.beats| <= b.aw.len + 1
    && forall w :: w in b.beats ==> |w.data| == word
  }

  predicate Complete(b: Burst) {
    |b.beats| == b.aw.len + 1
  }

  /** The store after a list of bursts, each applied as a whole. */
  ghost function ApplyBursts(s: Store, bursts: seq<Burst>): (r: Store)
    requires forall b :: b in bursts ==> BurstOk(b, s.word)
    ensures |r.mem| == |s.mem| && r.word == s.word
  {
    if bursts == [] then s
    else
      var n := |bursts| - 1;
      assert BurstOk(bursts[n], s.word);
      WriteBurst(ApplyBursts(s, bursts[..n]), bursts[n].aw.addr, Pow2(bursts[n].aw.size), bursts[n].beats)
  }

  function Ids(bursts: seq<Burst>): (ids: seq<nat>)
    ensures |ids| == |bursts|
  {
    seq(|bursts|, i requires 0 <= i < |bursts| => bursts[i].aw.id)
  }

  /** The bursts whose last beat has arrived. */
  function Finished(bursts: seq<Burst>, inflight: bool): seq<Burst> {
    if inflight && bursts != [] then bursts[..|bursts| - 1] else bursts
  }

  /** The writer and the store agree with the bursts accepted so far: only the last
      one may be incomplete, and the store is the result of applying them in order. */
  ghost predicate WriteInv(initial: Store, bursts: seq<Burst>, w: Writer, now: Store) {
    && WriterOk(w, now.word)
    && initial.word == now.word
    && (forall b :: b in bursts ==> BurstOk(b, now.word))
    && (forall b :: b in Finished(bursts, w.inflight) ==> Complete(b))
    && (bursts != [] ==> BurstOk(bursts[|bursts| - 1], now.word))
    && now == ApplyBursts(initial, bursts)
    && (w.inflight ==> bursts != [] && !Complete(bursts[|bursts| - 1]) && w == WriterFor(bursts[|bursts| - 1]))
  }

  /** The writer while burst b is in flight. */
  function WriterFor(b: Burst): Writer
    requires |b.beats| <= b.aw.len + 1
  {
    Writer(true, BeatAddress(b.aw.addr, |b.beats|, Pow2(b.aw.size)), b.aw.id, Pow2(b.aw.size),
           b.aw.len + 1 - |b.beats|)
  }

  lemma WriteInvStart(initial: Store, bursts: seq<Burst>, w: Writer, now: Store, aw: Address)
    requires WriteInv(initial, bursts, w, now) && !w.inflight && LegalAddress(aw, now.word)
    ensures WriteInv(initial, bursts + [Burst(aw, [])], StartBurst(aw), now)
  {
    BeatDividesWord(aw.size, now.word);
    var more := bursts + [Burst(aw, [])];
    assert more[..|bursts|] == bursts;
    assert BeatAddress(aw.addr, 0, Pow2(aw.size)) == aw.addr;
  }

  /** The history after one more beat for the burst in flight. */
  function AddBeat(bursts: seq<Burst>, beat: WBeat): (more: seq<Burst>)
    requires bursts != []
    ensures Ids(more) == Ids(bursts) && |more| == |bursts|
  {
    var n := |bursts| - 1;
    bursts[n := bursts[n].(beats := bursts[n].beats + [beat])]
  }

  lemma WriteInvBeat(initial: Store, bursts: seq<Burst>, w: Writer, now: Store, beat: WBeat)
    requires WriteInv(initial, bursts, w, now) && w.inflight && |beat.data| == now.word
    ensures WriteInv(initial, AddBeat(bursts, beat), NextBeat(w), WriteBeat(now, w.addr, beat, w.size))
  {
    var n := |bursts| - 1;
    var b := bursts[n];
    var more := AddBeat(bursts, beat);
    BurstsStayOk(bursts, w, beat, now.word);
    assert BurstOk(more[n], now.word);
    ApplyBeat(initial, bursts, beat, w, now);
    BeatStep(b.aw.addr, |b.beats|, Pow2(b.aw.size));
    BeatDividesWord(b.aw.size, now.word);
  }

  /** The store after the bursts with one more beat. */
  lemma ApplyBeat(initial: Store, bursts: seq<Burst>, beat: WBeat, w: Writer, now: Store)
    requires bursts != [] && initial.word == now.word && |beat.data| == now.word
    requires forall b :: b in bursts ==> BurstOk(b, now.word)
    requires forall b :: b in AddBeat(bursts, beat) ==> BurstOk(b, now.word)
    requires |bursts[|bursts| - 1].beats| <= bursts[|bursts| - 1].aw.len + 1 && w == WriterFor(bursts[|bursts| - 1])
    requires now == ApplyBursts(initial, bursts)
    ensures WriteBeat(now, w.addr, beat, w.size) == ApplyBursts(initial, AddBeat(bursts, beat))
  {
    var n := |bursts| - 1;
    var b, more := bursts[n], AddBeat(bursts, beat);
    assert more[..n] == bursts[..n];
    assert more[n].beats[..|b.beats|] == b.beats;
  }

  lemma BurstsStayOk(bursts: seq<Burst>, w: Writer, beat: WBeat, word: nat)
    requires bursts != [] && w.inflight && !Complete(bursts[|bursts| - 1])
    requires |beat.data| == word && |bursts[|bursts| - 1].beats| <= bursts[|bursts| - 1].aw.len + 1
    requires w == WriterFor(bursts[|bursts| - 1])
    requires forall b :: b in bursts ==> BurstOk(b, word)
    requires forall b :: b in Finished(bursts, true) ==> Complete(b)
    ensures forall b :: b in AddBeat(bursts, beat) ==> BurstOk(b, word)
    ensures forall b :: b in Finished(AddBeat(bursts, beat), NextBeat(w).inflight) ==> Complete(b)
  {
    var n := |bursts| - 1;
    var more := AddBeat(bursts, beat);
    assert BurstOk(bursts[n], word) && BurstOk(more[n], word);
    assert more[..n] == bursts[..n];
    forall c | c in more ensures BurstOk(c, word) {
      if c != more[n] {
        assert c in bursts[..n];
      }
    }
    forall c | c in Finished(more, NextBeat(w).inflight) ensures Complete(c) {
      if c != more[n] || NextBeat(w).inflight {
        assert c in bursts[..n];
      }
    }
  }

  predicate AwFire(w: Writer, i: Inputs) {
    !i.reset && i.awValid && !w.inflight
  }

  predicate WFire(w: Writer, i: Inputs) {
    !i.reset && i.wValid && w.inflight
  }

  /** The writer after a cycle; an address and a data beat are never accepted together. */
  function WriterStep(w: Writer, awFire: bool, i: Inputs): Writer
    requires w.inflight ==> w.count > 0
  {
    if awFire then StartBurst(i.aw) else if WFire(w, i) then NextBeat(w) else w
  }

  function BurstsStep(bursts: seq<Burst>, w: Writer, awFire: bool, i: Inputs): seq<Burst>
    requires w.inflight ==> bursts != []
  {
    if awFire then bursts + [Burst(i.aw, [])] else if WFire(w, i) then AddBeat(bursts, i.w) else bursts
  }

  /** A cycle finishes a burst exactly when it accepts the last expected beat. */
  lemma FinishedStep(bursts: seq<Burst>, w: Writer, awFire: bool, i: Inputs)
    requires w.inflight ==> bursts != [] && w.count > 0 && w.id == bursts[|bursts| - 1].aw.id
    requires awFire ==> AwFire(w, i)
    ensures Ids(Finished(BurstsStep(bursts, w, awFire, i), WriterStep(w, awFire, i).inflight)) ==
            Ids(Finished(bursts, w.inflight)) + if WFire(w, i) && w.count == 1 then [w.id] else []
  {
    var n := |bursts| - 1;
    var more := BurstsStep(bursts, w, awFire, i);
    if awFire {
      assert more[..|bursts|] == bursts;
    } else if WFire(w, i) {
      assert more[..n] == bursts[..n];
      assert Ids(more) == Ids(bursts[..n]) + [w.id];
    }
  }

  lemma BeatStep(start: nat, i: nat, step: nat)
    ensures BeatAddress(start, i + 1, step) == Wrap(BeatAddress(start, i, step) + step)
  {
    NonNegative(i, step);
    assert (i + 1) * step == i * step + step;
    ModAdd(start + i * step, step, WORD_RANGE);
  }
}
