/** What the beats of a read say, on the fields of the address transfer and the bytes of the
    store alone. */
module ReadBeats {
  import opened Arith
  import opened Axi
  import opened ByteStore
  import opened Bursts
  import opened WriteEngine
  import opened BusLog

  /** Where the bytes of beat i begin: the beats step by whole words from the word that holds the
      start, in 64-bit arithmetic, and the memory repeats. */
  function BeatStart(ar: Address, word: nat, size: nat, i: nat): nat
    requires word > 0 && size > 0
  {
    NonNegative(i, word);
    NonNegative(ar.addr / word, word);
    (ar.addr / word * word + i * word) % 0x1_0000_0000_0000_0000 % size
  }

  /** Beat i of the answer to `ar`, from the store s. */
  ghost predicate IsBeat(beat: RBeat, ar: Address, s: Store, i: nat) {
    && beat.id == ar.id
    && (beat.last <==> i == ar.len)
    && |beat.data| == s.word
    && BeatStart(ar, s.word, |s.mem|, i) + s.word <= |s.mem|
    && forall b :: 0 <= b < s.word ==> beat.data[b] == s.mem[BeatStart(ar, s.word, |s.mem|, i) + b]
  }

  ghost predicate Answers(beats: seq<RBeat>, ar: Address, s: Store) {
    |beats| == ar.len + 1 && forall i :: 0 <= i < |beats| ==> IsBeat(beats[i], ar, s, i)
  }

  lemma StartIs(s: Store, ar: Address, i: nat)
    ensures BeatAddress(AlignDown(ar.addr, s.word), i, s.word) % |s.mem| == BeatStart(ar, s.word, |s.mem|, i)
    ensures BeatStart(ar, s.word, |s.mem|, i) + s.word <= |s.mem|
  {
    BeatAddressAligned(s, AlignDown(ar.addr, s.word), i, s.word);
  }

  lemma ExpandedBeat(s: Store, r: Req, i: nat)
    requires i < r.len
    ensures var addr := BeatAddress(AlignDown(r.addr, s.word), i, s.word);
            && addr % |s.mem| + s.word <= |s.mem|
            && Expand(s, r)[i] == RBeat(r.id, ReadWord(s, addr), i == r.len - 1)
  {
    BeatAddressAligned(s, AlignDown(r.addr, s.word), i, s.word);
  }

  lemma BeatIs(s: Store, addr: nat, ar: Address, i: nat)
    requires addr % |s.mem| == BeatStart(ar, s.word, |s.mem|, i) && addr % |s.mem| + s.word <= |s.mem|
    ensures IsBeat(RBeat(ar.id, ReadWord(s, addr), i == ar.len), ar, s, i)
  {
  }

  /** A request that stands for an address transfer is expanded to its answer. */
  lemma ExpandAnswers(s: Store, r: Req, ar: Address)
    requires StandsFor(r, ar)
    ensures Answers(Expand(s, r), ar, s)
  {
    forall i | 0 <= i < r.len ensures IsBeat(Expand(s, r)[i], ar, s, i) {
      StartIs(s, ar, i);
      ExpandedBeat(s, r, i);
      BeatIs(s, BeatAddress(AlignDown(ar.addr, s.word), i, s.word), ar, i);
    }
  }

  /** There is no other answer. */
  lemma OneAnswer(a: seq<RBeat>, b: seq<RBeat>, ar: Address, s: Store)
    requires Answers(a, ar, s) && Answers(b, ar, s)
    ensures a == b
  {
    forall i | 0 <= i < |a| ensures a[i] == b[i] {
      assert IsBeat(a[i], ar, s, i) && IsBeat(b[i], ar, s, i);
      assert a[i].data == b[i].data;
    }
  }

  /** An accepted read is one transfer, so it is answered by `len + 1` beats. */
  lemma AcceptedAnswers(s: Store, ar: Address)
    ensures Answers(Expand(s, ToReq(ar)), ar, s)
  {
    ExpandAnswers(s, ToReq(ar), ar);
  }

  // ---------- write, then read, with the same fields on the wires ----------

  /** A full-width burst from a word boundary. */
  predicate FullWidth(a: Address, word: nat) {
    word > 0 && Pow2(a.size) == word && a.addr % word == 0
  }

  ghost predicate BurstsOk(bursts: seq<Burst>, word: nat) {
    forall b :: b in bursts ==> BurstOk(b, word)
  }

  /** The beats carry the words of the burst, in order, and `last` on the final one. */
  predicate Returns(r: seq<RBeat>, id: nat, beats: seq<WBeat>) {
    && |r| == |beats|
    && forall i :: 0 <= i < |r| ==> r[i].id == id && r[i].data == beats[i].data && (r[i].last <==> i == |r| - 1)
  }

  /** The transfers of one write burst, the last one so far, are read back by an address transfer
      with the same start and length, for every list of words. */
  ghost predicate ReadsBackOnBus(initial: Store, prev: seq<Burst>, aw: Address, ar: Address) {
    forall beats: seq<WBeat>, r: seq<RBeat> ::
      (BurstsOk(prev + [Burst(aw, beats)], initial.word) && |beats| == aw.len + 1 && FullBeats(initial.word, beats) &&
       Answers(r, ar, ApplyBursts(initial, prev + [Burst(aw, beats)]))) ==> Returns(r, ar.id, beats)
  }

  lemma LastBurst(initial: Store, prev: seq<Burst>, aw: Address, beats: seq<WBeat>)
    requires BurstsOk(prev + [Burst(aw, beats)], initial.word)
    ensures BurstsOk(prev, initial.word) && forall b :: b in beats ==> |b.data| == initial.word
    ensures ApplyBursts(initial, prev + [Burst(aw, beats)]) ==
            WriteBurst(ApplyBursts(initial, prev), aw.addr, Pow2(aw.size), beats)
  {
    var all := prev + [Burst(aw, beats)];
    assert all[..|prev|] == prev && all[|prev|] == Burst(aw, beats);
    assert forall b :: b in prev ==> b in all;
    assert BurstOk(all[|prev|], initial.word);
  }

  lemma {:induction false} AnswerIsEcho(s: Store, ar: Address, r: seq<RBeat>, beats: seq<WBeat>)
    requires Answers(r, ar, s) && |beats| == ar.len + 1
    ensures Expand(s, Req(ar.id, s.word, ar.len + 1, ar.addr)) == r
    ensures Returns(r, ar.id, beats) <==> r == Echo(ar.id, beats)
  {
    var same := Req(ar.id, s.word, ar.len + 1, ar.addr);
    ExpandAnswers(s, same.(size := Pow2(ar.size)), ar);
    assert Expand(s, same) == Expand(s, same.(size := Pow2(ar.size)));
    OneAnswer(r, Expand(s, same), ar, s);
    if Returns(r, ar.id, beats) {
      forall i | 0 <= i < |r| ensures r[i] == Echo(ar.id, beats)[i] {
      }
    }
  }

  /** That holds exactly when no two beats of the burst share a slot. */
  lemma BusRoundTrip(initial: Store, prev: seq<Burst>, aw: Address, ar: Address)
    requires BurstsOk(prev, initial.word) && LegalAddress(aw, initial.word) && FullWidth(aw, initial.word)
    requires ar.addr == aw.addr && ar.len == aw.len
    ensures ReadsBackOnBus(initial, prev, aw, ar) <==> OwnSlots(initial, aw.addr, aw.len + 1)
  {
    var s, n := ApplyBursts(initial, prev), aw.len + 1;
    RoundTripIffOwnSlots(s, aw.addr, n, ar.id);
    SlotsAlike(initial, s, aw.addr, n);
    if OwnSlots(initial, aw.addr, n) {
      forall beats: seq<WBeat>, r: seq<RBeat> |
        BurstsOk(prev + [Burst(aw, beats)], initial.word) && |beats| == aw.len + 1 && FullBeats(initial.word, beats) &&
        Answers(r, ar, ApplyBursts(initial, prev + [Burst(aw, beats)]))
        ensures Returns(r, ar.id, beats)
      {
        LastBurst(initial, prev, aw, beats);
        AnswerIsEcho(WriteBurst(s, aw.addr, s.word, beats), ar, r, beats);
      }
    } else {
      var beats: seq<WBeat> :| |beats| == n && FullBeats(s.word, beats) &&
        Expand(WriteBurst(s, aw.addr, s.word, beats), Req(ar.id, s.word, n, aw.addr)) != Echo(ar.id, beats);
      NotReadBack(initial, prev, aw, ar, beats);
    }
  }

  lemma SlotsAlike(s: Store, t: Store, start: nat, n: nat)
    requires |t.mem| == |s.mem| && t.word == s.word
    ensures OwnSlots(t, start, n) <==> OwnSlots(s, start, n)
  {
    forall i, j | 0 <= i < j < n
      ensures Slot(t, start, i) == Slot(s, start, i) && Slot(t, start, j) == Slot(s, start, j)
    {
    }
  }

  lemma NotReadBack(initial: Store, prev: seq<Burst>, aw: Address, ar: Address, beats: seq<WBeat>)
    requires BurstsOk(prev, initial.word) && LegalAddress(aw, initial.word) && FullWidth(aw, initial.word)
    requires ar.addr == aw.addr && ar.len == aw.len && |beats| == aw.len + 1 && FullBeats(initial.word, beats)
    requires var s := ApplyBursts(initial, prev);
             Expand(WriteBurst(s, aw.addr, s.word, beats), Req(ar.id, s.word, aw.len + 1, aw.addr)) !=
             Echo(ar.id, beats)
    ensures !ReadsBackOnBus(initial, prev, aw, ar)
  {
    var s := ApplyBursts(initial, prev);
    var t := WriteBurst(s, aw.addr, s.word, beats);
    var r := Expand(t, Req(ar.id, Pow2(ar.size), ar.len + 1, ar.addr));
    assert BurstsOk(prev + [Burst(aw, beats)], initial.word);
    LastBurst(initial, prev, aw, beats);
    ExpandAnswers(t, Req(ar.id, Pow2(ar.size), ar.len + 1, ar.addr), ar);
    AnswerIsEcho(t, ar, r, beats);
    assert !Returns(r, ar.id, beats);
  }
}
