/** What whole bursts do: a write burst is a flat byte write, and a read burst
    returns what a fitting write burst put there. */
module Bursts {
  import opened Arith
  import opened Axi
  import opened ByteStore

  // ---------- a beat is a run of bytes ----------

  /** The bytes that one aligned beat contributes, in address order. */
  function BeatBytes(w: WBeat, lane: nat, n: nat): (flat: seq<Option<Byte>>)
    requires lane + n <= |w.data|
    ensures |flat| == n
  {
    seq(n, j requires 0 <= j < n => if Bit(w.strb, lane + j) then Some(w.data[lane + j]) else None)
  }

  lemma PositionNear(s: Store, addr: nat, j: nat)
    requires addr + j < WORD_RANGE && addr % |s.mem| + j < |s.mem|
    ensures Position(s, addr, j) == addr % |s.mem| + j
  {
    var n := |s.mem|;
    assert addr + j == (addr / n) * n + (addr % n + j);
    DivModUnique(addr + j, n, addr / n, addr % n + j);
  }

  lemma {:induction false} RunAt(s: Store, addr: nat, w: WBeat, lane: nat, n: nat, p: nat)
    requires lane + n <= |w.data| && p < |s.mem|
    requires addr + n <= WORD_RANGE && addr % |s.mem| + n <= |s.mem|
    ensures FlatWrite(s, addr, BeatBytes(w, lane, n)).mem[p] ==
            var first := addr % |s.mem|;
            if first <= p < first + n && Bit(w.strb, lane + (p - first)) then w.data[lane + (p - first)] else s.mem[p]
  {
    if n > 0 {
      var flat := BeatBytes(w, lane, n);
      assert flat[..n - 1] == BeatBytes(w, lane, n - 1);
      RunAt(s, addr, w, lane, n - 1, p);
      PositionNear(s, addr, n - 1);
    }
  }

  /** Masking by lane makes an aligned beat write its own bytes and no other. */
  lemma BeatAt(s: Store, addr: nat, w: WBeat, size: nat, p: nat)
    requires |w.data| == s.word && WordSize(size) && addr % s.word + size <= s.word && p < |s.mem|
    ensures WriteBeat(s, addr, w, size).mem[p] ==
            var first, lane := addr % |s.mem|, addr % s.word;
            if first <= p < first + size && Bit(w.strb, lane + (p - first)) then w.data[lane + (p - first)]
            else s.mem[p]
  {
    var lane := addr % s.word;
    var base := BaseOf(addr, |s.mem|, s.word);
    ModOfMod(addr, |s.mem|, s.word);
    assert addr % |s.mem| == base + lane;
    if base <= p < base + s.word {
      LaneStrobeBits(w.strb, size, lane, p - base);
    }
  }

  lemma BeatFits(s: Store, addr: nat, size: nat)
    requires WordSize(size) && s.word % size == 0 && addr < WORD_RANGE && addr % size == 0
    ensures addr % s.word + size <= s.word && addr + size <= WORD_RANGE && addr % |s.mem| + size <= |s.mem|
  {
    AlignedBlock(addr, 0, size, s.word);
    BeatAddressAligned(s, addr, 0, size);
    assert BeatAddress(addr, 0, size) == addr;
  }

  lemma BeatIsRun(s: Store, addr: nat, w: WBeat, size: nat, lane: nat)
    requires |w.data| == s.word && WordSize(size) && lane == addr % s.word && lane + size <= s.word
    requires addr + size <= WORD_RANGE && addr % |s.mem| + size <= |s.mem|
    ensures WriteBeat(s, addr, w, size) == FlatWrite(s, addr, BeatBytes(w, lane, size))
  {
    var got, want := WriteBeat(s, addr, w, size), FlatWrite(s, addr, BeatBytes(w, lane, size));
    forall p | 0 <= p < |s.mem| ensures got.mem[p] == want.mem[p] {
      RunAt(s, addr, w, lane, size, p);
      BeatAt(s, addr, w, size, p);
    }
    assert got.mem == want.mem;
  }

  lemma {:induction false} FlatWriteSplit(s: Store, start: nat, front: seq<Option<Byte>>, back: seq<Option<Byte>>,
                                          at: nat)
    requires at == Wrap(start + |front|)
    ensures FlatWrite(s, start, front + back) == FlatWrite(FlatWrite(s, start, front), at, back)
  {
    if back == [] {
      assert front + back == front;
    } else {
      var rest, last := back[..|back| - 1], back[|back| - 1];
      FlatWriteSplit(s, start, front, rest, at);
      assert front + back == (front + rest) + [last] && back == rest + [last];
      FlatWriteBoth(s, start, front, rest, at, last);
    }
  }

  lemma FlatWriteBoth(s: Store, start: nat, front: seq<Option<Byte>>, rest: seq<Option<Byte>>, at: nat,
                      last: Option<Byte>)
    requires at == Wrap(start + |front|)
    requires FlatWrite(s, start, front + rest) == FlatWrite(FlatWrite(s, start, front), at, rest)
    ensures FlatWrite(s, start, (front + rest) + [last]) == FlatWrite(FlatWrite(s, start, front), at, rest + [last])
  {
    FlatWriteLast(s, start, front + rest, last);
    FlatWriteLast(FlatWrite(s, start, front), at, rest, last);
    PositionShift(s, start, |front|, |rest|);
  }

  lemma FlatPrefix(word: nat, start: nat, size: nat, beats: seq<WBeat>, k: nat)
    requires word > 0 && size > 0 && beats != []
    requires forall b :: b in beats ==> |b.data| == word
    requires k < (|beats| - 1) * size
    ensures k < |beats| * size
    ensures FlatBurst(word, start, size, beats)[k] == FlatBurst(word, start, size, beats[..|beats| - 1])[k]
  {
    var n := |beats| - 1;
    assert (n + 1) * size == n * size + size;
    FlatIndex(n, size, k);
    assert beats[..n][k / size] == beats[k / size];
  }

  /** The flat bytes of a burst end with the bytes of its last beat. */
  lemma FlatBurstSnoc(word: nat, start: nat, size: nat, beats: seq<WBeat>)
    requires WordSize(word) && WordSize(size) && word % size == 0 && start % size == 0 && beats != []
    requires forall b :: b in beats ==> |b.data| == word
    ensures var n := |beats| - 1;
            var addr := BeatAddress(start, n, size);
            && addr % word + size <= word
            && FlatBurst(word, start, size, beats) ==
               FlatBurst(word, start, size, beats[..n]) + BeatBytes(beats[n], addr % word, size)
  {
    var n := |beats| - 1;
    var addr := BeatAddress(start, n, size);
    LaneOf(word, start, n, size, 0);
    var flat, front := FlatBurst(word, start, size, beats), FlatBurst(word, start, size, beats[..n]);
    var last := BeatBytes(beats[n], addr % word, size);
    assert |beats| * size == n * size + size;
    forall k | 0 <= k < n * size ensures flat[k] == front[k] {
      FlatPrefix(word, start, size, beats, k);
    }
    forall j | 0 <= j < size ensures flat[n * size + j] == last[j] {
      FlatTail(word, start, size, beats, j);
    }
    assert flat == front + last;
  }

  /** The byte of a burst that lies in lane `lane + j` of its last beat. */
  lemma FlatLast(word: nat, start: nat, size: nat, beats: seq<WBeat>, k: nat, lane: nat, j: nat)
    requires word > 0 && size > 0 && beats != [] && forall b :: b in beats ==> |b.data| == word
    requires k / size == |beats| - 1 && (start + k) % word == lane + j && j < size && lane + size <= word
    ensures FlatByte(word, start, size, beats, k) == BeatBytes(beats[|beats| - 1], lane, size)[j]
  {
  }

  lemma FlatTail(word: nat, start: nat, size: nat, beats: seq<WBeat>, j: nat)
    requires WordSize(word) && WordSize(size) && word % size == 0 && start % size == 0 && beats != [] && j < size
    requires forall b :: b in beats ==> |b.data| == word
    ensures var n := |beats| - 1;
            var addr := BeatAddress(start, n, size);
            && n * size >= 0 && (n * size + j) / size == n && addr % word + size <= word
            && FlatByte(word, start, size, beats, n * size + j) == BeatBytes(beats[n], addr % word, size)[j]
  {
    var n := |beats| - 1;
    LaneOf(word, start, n, size, j);
    DivModUnique(n * size + j, size, n, j);
    FlatLast(word, start, size, beats, n * size + j, BeatAddress(start, n, size) % word, j);
  }

  /** Byte j of beat n falls in lane j of those that the beat addresses. */
  lemma LaneOf(word: nat, start: nat, n: nat, size: nat, j: nat)
    requires WordSize(word) && WordSize(size) && word % size == 0 && start % size == 0 && j < size
    ensures n * size >= 0
    ensures BeatAddress(start, n, size) % word + size <= word
    ensures (start + (n * size + j)) % word == BeatAddress(start, n, size) % word + j
  {
    NonNegative(n, size);
    ModAddMultiple(start, n, size);
    AlignedBlock(start + n * size, 0, size, word);
    AlignedBlock(start + n * size, j, size, word);
    WrapKeepsLane(start + n * size, word);
  }

  lemma WrapKeepsLane(a: nat, word: nat)
    requires WordSize(word)
    ensures Wrap(a) % word == a % word
  {
    ModOfMod(a, WORD_RANGE, word);
  }

  /** A write burst, beat by beat under the lane mask, is the flat write of its
      strobed bytes to `start .. start + beats * size` modulo the memory size. */
  lemma {:induction false} BurstIsFlat(s: Store, start: nat, size: nat, beats: seq<WBeat>)
    requires WordSize(size) && s.word % size == 0 && start % size == 0
    requires forall b :: b in beats ==> |b.data| == s.word
    ensures WriteBurst(s, start, size, beats) == FlatWrite(s, start, FlatBurst(s.word, start, size, beats))
  {
    if beats == [] {
      assert FlatBurst(s.word, start, size, beats) == [];
    } else {
      var n := |beats| - 1;
      assert forall b :: b in beats[..n] ==> b in beats;
      BurstIsFlat(s, start, size, beats[..n]);
      LastBeatIsFlat(s, start, size, beats);
    }
  }

  /** One more beat extends a flat write by the bytes of the beat. */
  lemma JoinBeat(s: Store, start: nat, front: seq<Option<Byte>>, addr: nat, w: WBeat, size: nat, lane: nat)
    requires |w.data| == s.word && WordSize(size) && s.word % size == 0
    requires addr == Wrap(start + |front|) && addr % size == 0 && lane == addr % s.word
    ensures lane + size <= s.word
    ensures WriteBeat(FlatWrite(s, start, front), addr, w, size) ==
            FlatWrite(s, start, front + BeatBytes(w, lane, size))
  {
    var t := FlatWrite(s, start, front);
    BeatFits(t, addr, size);
    BeatIsRun(t, addr, w, size, lane);
    FlatWriteSplit(s, start, front, BeatBytes(w, lane, size), addr);
  }

  lemma LastBeatIsFlat(s: Store, start: nat, size: nat, beats: seq<WBeat>)
    requires WordSize(size) && s.word % size == 0 && start % size == 0 && beats != []
    requires forall b :: b in beats ==> |b.data| == s.word
    ensures var n := |beats| - 1;
            var t := FlatWrite(s, start, FlatBurst(s.word, start, size, beats[..n]));
            WriteBeat(t, BeatAddress(start, n, size), beats[n], size) ==
            FlatWrite(s, start, FlatBurst(s.word, start, size, beats))
  {
    var n := |beats| - 1;
    var addr := BeatAddress(start, n, size);
    BeatAddressAligned(s, start, n, size);
    FlatBurstSnoc(s.word, start, size, beats);
    JoinBeat(s, start, FlatBurst(s.word, start, size, beats[..n]), addr, beats[n], size, addr % s.word);
  }

  /** Byte k of a burst is sent to position p and no later byte is. */
  ghost predicate LastSent(s: Store, start: nat, flat: seq<Option<Byte>>, k: nat, p: nat) {
    Hits(s, start, flat, k, p) && forall j: nat :: k < j ==> !Hits(s, start, flat, j, p)
  }

  /** A position to which a burst sends nothing keeps its byte ... */
  lemma BurstLeavesOthers(s: Store, start: nat, size: nat, beats: seq<WBeat>, p: nat)
    requires WordSize(size) && s.word % size == 0 && start % size == 0 && p < |s.mem|
    requires forall b :: b in beats ==> |b.data| == s.word
    requires forall k: nat :: !Hits(s, start, FlatBurst(s.word, start, size, beats), k, p)
    ensures WriteBurst(s, start, size, beats).mem[p] == s.mem[p]
  {
    BurstIsFlat(s, start, size, beats);
    FlatWriteAt(s, start, FlatBurst(s.word, start, size, beats), p);
  }

  /** ... and any other position ends up with the last strobed byte sent to it. */
  lemma BurstUpdates(s: Store, start: nat, size: nat, beats: seq<WBeat>, p: nat, k: nat)
    requires WordSize(size) && s.word % size == 0 && start % size == 0 && p < |s.mem|
    requires forall b :: b in beats ==> |b.data| == s.word
    requires LastSent(s, start, FlatBurst(s.word, start, size, beats), k, p)
    ensures k / size < |beats| && Position(s, start, k) == p
    ensures Bit(beats[k / size].strb, (start + k) % s.word)
    ensures WriteBurst(s, start, size, beats).mem[p] == beats[k / size].data[(start + k) % s.word]
  {
    BurstIsFlat(s, start, size, beats);
    var flat := FlatBurst(s.word, start, size, beats);
    FlatWriteAt(s, start, flat, p);
    FlatIndex(|beats|, size, k);
    assert flat[k] == FlatByte(s.word, start, size, beats, k);
  }

  // ---------- write, then read back ----------

  ghost predicate FullBeats(word: nat, beats: seq<WBeat>) {
    forall b :: b in beats ==> |b.data| == word && forall i :: 0 <= i < word ==> Bit(b.strb, i)
  }

  /** Where beat i of a full-width burst is stored. */
  function Slot(s: Store, start: nat, i: nat): nat {
    BeatAddress(start, i, s.word) % |s.mem|
  }

  /** The first n beats are stored in places of their own. */
  ghost predicate OwnSlots(s: Store, start: nat, n: nat) {
    forall i, j :: 0 <= i < j < n ==> Slot(s, start, i) != Slot(s, start, j)
  }

  lemma SlotsDistinct(s: Store, start: nat, n: nat, i: nat, j: nat)
    requires i < j < n && n * s.word <= |s.mem| && CarryFree(s, start, n * s.word)
    ensures Slot(s, start, i) != Slot(s, start, j)
  {
    NonNegative(i, s.word);
    Scale(s.word, i, j);
    Scale(s.word, j, n);
    PositionsDistinct(s, start, i * s.word, j * s.word, n * s.word);
  }

  lemma FullBeatAt(s: Store, start: nat, i: nat, w: WBeat)
    requires start % s.word == 0 && FullBeats(s.word, [w])
    ensures var t := WriteBeat(s, BeatAddress(start, i, s.word), w, s.word);
            && Slot(s, start, i) + s.word <= |s.mem|
            && t.mem[Slot(s, start, i)..][..s.word] == w.data
            && forall p :: 0 <= p < |s.mem| && !(Slot(s, start, i) <= p < Slot(s, start, i) + s.word)
                 ==> t.mem[p] == s.mem[p]
  {
    var addr := BeatAddress(start, i, s.word);
    BeatAddressAligned(s, start, i, s.word);
    assert w in [w];
    assert addr % s.word == 0;
    assert BaseOf(addr, |s.mem|, s.word) == Slot(s, start, i);
    forall k | 0 <= k < s.word ensures Bit(LaneStrobe(w.strb, s.word, 0), k) {
      LaneStrobeBits(w.strb, s.word, 0, k);
    }
  }

  lemma SameSlots(s: Store, t: Store, start: nat, i: nat)
    requires |t.mem| == |s.mem| && t.word == s.word
    ensures Slot(t, start, i) == Slot(s, start, i)
  {
  }

  lemma SlotKept(t: Store, start: nat, n: nat, i: nat, w: WBeat)
    requires start % t.word == 0 && FullBeats(t.word, [w]) && Slot(t, start, i) != Slot(t, start, n)
    ensures Slot(t, start, i) + t.word <= |t.mem|
    ensures WriteBeat(t, BeatAddress(start, n, t.word), w, t.word).mem[Slot(t, start, i)..][..t.word] ==
            t.mem[Slot(t, start, i)..][..t.word]
  {
    FullBeatAt(t, start, n, w);
    BeatAddressAligned(t, start, i, t.word);
    BeatAddressAligned(t, start, n, t.word);
    SeparateSlots(Slot(t, start, i), Slot(t, start, n), t.word);
  }

  /** After a full burst whose slots are distinct, every slot holds the word sent to it. */
  lemma {:induction false} BurstFills(s: Store, start: nat, beats: seq<WBeat>, i: nat)
    requires start % s.word == 0 && FullBeats(s.word, beats) && i < |beats| && OwnSlots(s, start, |beats|)
    ensures Slot(s, start, i) + s.word <= |s.mem|
    ensures WriteBurst(s, start, s.word, beats).mem[Slot(s, start, i)..][..s.word] == beats[i].data
    decreases |beats|
  {
    var front, last := beats[..|beats| - 1], beats[|beats| - 1];
    assert FullBeats(s.word, front) && FullBeats(s.word, [last]) by {
      assert forall b :: b in front ==> b in beats;
    }
    var t := WriteBurst(s, start, s.word, front);
    if i < |front| {
      assert t.mem[Slot(s, start, i)..][..s.word] == beats[i].data by {
        BurstFills(s, start, front, i);
      }
      assert Slot(s, start, i) != Slot(s, start, |front|);
      SameSlots(s, t, start, i);
      SameSlots(s, t, start, |front|);
      SlotKept(t, start, |front|, i, last);
    } else {
      FullBeatAt(t, start, |front|, last);
    }
  }

  lemma SeparateSlots(x: nat, y: nat, w: nat)
    requires w > 0 && x % w == 0 && y % w == 0 && x != y
    ensures x + w <= y || y + w <= x
  {
    if x < y {
      RoomForBlock(x / w, y / w, w);
    } else {
      RoomForBlock(y / w, x / w, w);
    }
  }

  /** The response beats that carry the written words back. */
  function Echo(id: nat, beats: seq<WBeat>): seq<RBeat> {
    seq(|beats|, i requires 0 <= i < |beats| => RBeat(id, beats[i].data, i == |beats| - 1))
  }

  /** Reading back a full-width, fully strobed burst of n beats returns every list of words. */
  ghost predicate RoundTrips(s: Store, start: nat, n: nat, id: nat) {
    forall beats: seq<WBeat> :: |beats| == n && FullBeats(s.word, beats) ==>
      Expand(WriteBurst(s, start, s.word, beats), Req(id, s.word, n, start)) == Echo(id, beats)
  }

  /** For every start, length and memory size: a burst reads back as written exactly when no two of
      its beats share a slot. */
  lemma RoundTripIffOwnSlots(s: Store, start: nat, n: nat, id: nat)
    requires start % s.word == 0
    ensures RoundTrips(s, start, n, id) <==> OwnSlots(s, start, n)
  {
    if OwnSlots(s, start, n) {
      forall beats: seq<WBeat> | |beats| == n && FullBeats(s.word, beats)
        ensures Expand(WriteBurst(s, start, s.word, beats), Req(id, s.word, n, start)) == Echo(id, beats)
      {
        ReadsBack(s, start, beats, id);
      }
    } else {
      var i, j :| 0 <= i < j < n && Slot(s, start, i) == Slot(s, start, j);
      SharedSlot(s, start, n, id, i, j);
    }
  }

  lemma ReadsBack(s: Store, start: nat, beats: seq<WBeat>, id: nat)
    requires start % s.word == 0 && FullBeats(s.word, beats) && OwnSlots(s, start, |beats|)
    ensures Expand(WriteBurst(s, start, s.word, beats), Req(id, s.word, |beats|, start)) == Echo(id, beats)
  {
    assert AlignDown(start, s.word) == start;
    forall i | 0 <= i < |beats|
      ensures Expand(WriteBurst(s, start, s.word, beats), Req(id, s.word, |beats|, start))[i] == Echo(id, beats)[i]
    {
      BurstFills(s, start, beats, i);
    }
  }

  /** Unless a carry leaves the address, that is when the burst fits in the memory; wrapping past
      the end of the memory is no obstacle. */
  lemma RoundTripIffFits(s: Store, start: nat, n: nat, id: nat)
    requires start % s.word == 0 && CarryFree(s, start, n * s.word)
    ensures RoundTrips(s, start, n, id) <==> n * s.word <= |s.mem|
  {
    if n * s.word <= |s.mem| {
      forall i, j | 0 <= i < j < n ensures Slot(s, start, i) != Slot(s, start, j) {
        SlotsDistinct(s, start, n, i, j);
      }
      RoundTripIffOwnSlots(s, start, n, id);
    } else {
      OverlongBurst(s, start, n, id);
    }
  }

  lemma SlotRepeats(s: Store, start: nat, m: nat)
    requires m * s.word == |s.mem| && CarryFree(s, start, |s.mem| + 1)
    ensures Slot(s, start, 0) == Slot(s, start, m)
  {
    WrapThenMod(start, |s.mem|);
    WrapThenMod(start + |s.mem|, |s.mem|);
    ModAddMultiple(start, 1, |s.mem|);
  }

  lemma AllOnes(word: nat)
    requires WordSize(word)
    ensures forall i :: 0 <= i < word ==> Bit(RunOfOnes(16, 0), i)
  {
    forall i | 0 <= i < word ensures Bit(RunOfOnes(16, 0), i) {
      RunOfOnesBits(16, 0, i);
    }
  }

  /** Two beats of a read burst that share a slot carry the same word. */
  lemma SharedSlotSameData(s: Store, r: Req, i: nat, j: nat)
    requires r.addr % s.word == 0 && i < r.len && j < r.len && Slot(s, r.addr, i) == Slot(s, r.addr, j)
    ensures Expand(s, r)[i].data == Expand(s, r)[j].data
  {
    assert AlignDown(r.addr, s.word) == r.addr;
  }

  lemma WordsBelow(m: nat, n: nat, w: nat)
    requires m * w < n * w
    ensures m < n
  {
    assert (m - n) * w == m * w - n * w;
    if m >= n {
      NonNegative(m - n, w);
    }
  }

  /** Of two beats that share a slot only one reads back. */
  lemma SharedSlot(s: Store, start: nat, n: nat, id: nat, i: nat, j: nat)
    requires start % s.word == 0 && i < j < n && Slot(s, start, i) == Slot(s, start, j)
    ensures !RoundTrips(s, start, n, id)
  {
    var w := s.word;
    AllOnes(w);
    var zeros := WBeat(seq(w, _ => 0), RunOfOnes(16, 0));
    var other := WBeat(seq(w, _ => 1), RunOfOnes(16, 0));
    var beats := seq(n, k => if k == j then other else zeros);
    assert FullBeats(w, beats);
    var t := WriteBurst(s, start, w, beats);
    SharedSlotSameData(t, Req(id, w, n, start), i, j);
    assert Echo(id, beats)[i].data[0] != Echo(id, beats)[j].data[0];
    assert Expand(t, Req(id, w, n, start)) != Echo(id, beats);
  }

  /** A longer burst overwrites its own first word. */
  lemma OverlongBurst(s: Store, start: nat, n: nat, id: nat)
    requires start % s.word == 0 && CarryFree(s, start, n * s.word) && n * s.word > |s.mem|
    ensures !RoundTrips(s, start, n, id)
  {
    var m := |s.mem| / s.word;
    WordsBelow(m, n, s.word);
    SlotRepeats(s, start, m);
    SharedSlot(s, start, n, id, 0, m);
  }
}
