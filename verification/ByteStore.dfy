/** The byte-strobed, modulo-addressed backing store of `mm_t`:
    what one beat, one burst and one image load do to the bytes. */
module ByteStore {
  import opened Arith
  import opened Axi

  datatype StoreRecord = StoreRecord(mem: seq<Byte>, word: nat) {
    /** Words are a power of two of at most 16 bytes, so that the lane mask, an
        `int` shift, stays below 2^31; the memory is a whole number of words. */
    predicate Ok() {
      WordSize(word) && 0 < |mem| && |mem| % word == 0
    }
  }

  type Store = s: StoreRecord | s.Ok() witness StoreRecord([0], 1)

  predicate WordSize(w: nat) {
    w == 1 || w == 2 || w == 4 || w == 8 || w == 16
  }

  /** The checks in `init` on the line size already make the word size a power of two. */
  lemma InitGivesWordSize(word: nat, line: nat)
    requires word > 0 && line > 0 && BitAnd(line, line - 1) == 0 && line % word == 0
    ensures IsPow2(word)
    ensures word <= 16 ==> WordSize(word)
  {
    AndWithPredecessor(line);
    var k: nat :| Pow2(k) == line;
    DivisorOfPow2(word, k);
    var j: nat :| Pow2(j) == word;
    if j > 4 {
      Pow2Mono(5, j);
      assert Pow2(5) == 32;
    } else {
      SmallPow2(j);
    }
  }

  lemma SmallPow2(j: nat)
    requires j <= 4
    ensures Pow2(j) == [1, 2, 4, 8, 16][j]
  {
    assert Pow2(0) == 1 && Pow2(1) == 2;
    assert Pow2(2) == 4 && Pow2(3) == 8;
    assert Pow2(4) == 16;
  }

  /** A beat no wider than the word divides it. */
  lemma BeatDividesWord(k: nat, word: nat)
    requires WordSize(word) && Pow2(k) <= word
    ensures WordSize(Pow2(k)) && word % Pow2(k) == 0
  {
    assert Pow2(5) == 32;
    if k > 4 {
      Pow2Mono(5, k);
    } else {
      SmallPow2(k);
    }
  }

  /** A write, which starts at the word that holds its address, stays inside the memory for every
      address, and a read, which starts at its reduced address, for every word-aligned one, exactly
      when the word size divides the memory size. */
  lemma WordsInBounds(size: nat, word: nat)
    requires size > 0 && word > 0
    ensures (forall addr: nat :: BaseOf(addr, size, word) + word <= size) <==> size % word == 0
    ensures (forall addr: nat :: addr % word == 0 ==> ReadFits(addr, size, word)) <==> size % word == 0
  {
    if size % word == 0 {
      forall addr: nat ensures BaseOf(addr, size, word) + word <= size {
        WordFits(addr, size, word);
      }
      forall addr: nat | addr % word == 0 ensures ReadFits(addr, size, word) {
        AlignedBlock(addr, 0, word, size);
      }
    } else {
      LastWordSpills(size, word);
      LastReadSpills(size, word);
    }
  }

  predicate ReadFits(addr: nat, size: nat, word: nat)
    requires size > 0
  {
    addr % size + word <= size
  }

  /** The last aligned address below the end does not leave room for a word. */
  lemma LastReadSpills(size: nat, word: nat)
    requires size > 0 && word > 0 && size % word != 0
    ensures exists addr: nat :: addr % word == 0 && !ReadFits(addr, size, word)
  {
    var q := size / word;
    MultipleMod(q, word);
    var addr: nat := q * word;
    DivMod(size, word);
    SmallResidue(addr, size);
    assert addr % word == 0 && !ReadFits(addr, size, word);
  }

  /** Start of the word that holds `addr`. */
  function BaseOf(addr: nat, size: nat, word: nat): nat
    requires size > 0 && word > 0
  {
    NonNegative((addr % size) / word, word);
    (addr % size) / word * word
  }

  lemma WordFits(addr: nat, size: nat, word: nat)
    requires size > 0 && word > 0 && size % word == 0
    ensures BaseOf(addr, size, word) + word <= size
  {
    assert size == (size / word) * word;
    RoomForBlock((addr % size) / word, size / word, word);
  }

  lemma LastWordSpills(size: nat, word: nat)
    requires size > 0 && word > 0 && size % word != 0
    ensures BaseOf(size - 1, size, word) + word > size
  {
    DivModUnique(size - 1, size, 0, size - 1);
    DivModUnique(size - 1, word, size / word, size % word - 1);
    assert BaseOf(size - 1, size, word) == (size / word) * word;
  }

  // ---------- one beat ----------

  /** The strobes that survive the lane mask. */
  function LaneStrobe(strb: nat, size: nat, lane: nat): nat {
    if size == 64 then strb else BitAnd(strb, RunOfOnes(size, lane))
  }

  lemma LaneStrobeBits(strb: nat, size: nat, lane: nat, i: nat)
    requires size != 64
    ensures Bit(LaneStrobe(strb, size, lane), i) <==> Bit(strb, i) && lane <= i < lane + size
  {
    BitAndBits(strb, RunOfOnes(size, lane), i);
    RunOfOnesBits(size, lane, i);
  }

  /** The mask `((1 << size) - 1) << lane` fits in a non-negative `int` for every beat size and lane
      of a word exactly when words have at most 16 bytes. */
  lemma LaneMaskFits(word: nat)
    requires word > 0
    ensures (forall size: nat, lane: nat :: size <= word && lane < word ==> RunOfOnes(size, lane) < 0x8000_0000) <==>
            word <= 16
  {
    if word <= 16 {
      forall size: nat, lane: nat | size <= word && lane < word ensures RunOfOnes(size, lane) < 0x8000_0000 {
        MaskBelow(size, lane);
      }
    } else {
      assert RunOfOnes(17, 16) >= 0x8000_0000 by {
        assert Pow2(4) == 16 && Pow2(8) == 256 && Pow2(12) == 4096 && Pow2(16) == 0x1_0000 && Pow2(17) == 0x2_0000;
      }
    }
  }

  lemma MaskBelow(size: nat, lane: nat)
    requires size <= 16 && lane < 16
    ensures RunOfOnes(size, lane) < 0x8000_0000
  {
    Pow2Mono(size, 16);
    Pow2Mono(lane, 15);
    assert Pow2(4) == 16 && Pow2(8) == 256 && Pow2(12) == 4096 && Pow2(15) == 0x8000 && Pow2(16) == 0x1_0000;
    var x, y := Pow2(size) - 1, Pow2(lane);
    NonNegative(0xffff - x, y);
    assert (0xffff - x) * y == 0xffff * y - x * y;
  }

  /** `mm_t::write`. */
  function WriteBeat(s: Store, addr: nat, w: WBeat, size: nat): (r: Store)
    requires |w.data| == s.word
    ensures |r.mem| == |s.mem| && r.word == s.word
  {
    var strobe := LaneStrobe(w.strb, size, addr % s.word);
    WordFits(addr, |s.mem|, s.word);
    var base := BaseOf(addr, |s.mem|, s.word);
    s.(mem := seq(|s.mem|, p requires 0 <= p < |s.mem| =>
      if base <= p < base + s.word && Bit(strobe, p - base) then w.data[p - base] else s.mem[p]))
  }

  /** `mm_t::read`, for an address whose word lies inside the memory. */
  function ReadWord(s: Store, addr: nat): (r: seq<Byte>)
    requires addr % |s.mem| + s.word <= |s.mem|
  {
    s.mem[addr % |s.mem|..][..s.word]
  }

  // ---------- bursts ----------

  function AlignDown(addr: nat, word: nat): (r: nat)
    requires word > 0
    ensures r % word == 0 && r <= addr < r + word
  {
    MultipleMod(addr / word, word);
    addr / word * word
  }

  /** Address of beat i of a burst. */
  function BeatAddress(start: nat, i: nat, step: nat): nat {
    NonNegative(i, step);
    Wrap(start + i * step)
  }

  lemma BeatAddressAligned(s: Store, start: nat, i: nat, step: nat)
    requires WordSize(step) && s.word % step == 0 && start % step == 0
    ensures BeatAddress(start, i, step) % step == 0
    ensures (BeatAddress(start, i, step) % |s.mem|) % step == 0
    ensures BeatAddress(start, i, step) % |s.mem| + step <= |s.mem|
    ensures BeatAddress(start, i, step) + step <= WORD_RANGE
    ensures |s.mem| % step == 0
  {
    NonNegative(i, step);
    ModAddMultiple(start, i, step);
    ModOfMod(|s.mem|, s.word, step) by {
      assert s.word > 0;
    }
    assert (|s.mem| % s.word) % step == |s.mem| % step;
    AlignedBlock(start + i * step, 0, step, WORD_RANGE);
    AlignedBlock(BeatAddress(start, i, step), 0, step, |s.mem|);
  }

  /** The R beats of one read burst, read from a given store. */
  function Expand(s: Store, r: Req): (beats: seq<RBeat>)
    ensures |beats| == r.len
  {
    var start := AlignDown(r.addr, s.word);
    seq(r.len, i requires 0 <= i < r.len =>
      BeatAddressAligned(s, start, i, s.word);
      RBeat(r.id, ReadWord(s, BeatAddress(start, i, s.word)), i == r.len - 1))
  }

  /** A read request together with the store at the moment it was accepted. */
  datatype Tagged = Tagged(req: Req, snap: Store)

  function ExpandTagged(ts: seq<Tagged>): (bursts: seq<seq<RBeat>>)
    ensures |bursts| == |ts|
  {
    seq(|ts|, i requires 0 <= i < |ts| => Expand(ts[i].snap, ts[i].req))
  }

  /** The store after the given beats of a write burst. */
  function WriteBurst(s: Store, start: nat, size: nat, beats: seq<WBeat>): (r: Store)
    requires forall b :: b in beats ==> |b.data| == s.word
    ensures |r.mem| == |s.mem| && r.word == s.word
  {
    if beats == [] then s
    else
      var n := |beats| - 1;
      WriteBeat(WriteBurst(s, start, size, beats[..n]), BeatAddress(start, n, size), beats[n], size)
  }

  // ---------- the flat view ----------

  /** Where byte k counted from `start` lives. */
  function Position(s: Store, start: nat, k: nat): (p: nat)
    ensures p < |s.mem|
  {
    Wrap(start + k) % |s.mem|
  }

  /** No carry out of the 64-bit address, or a carry that the memory size does not notice. */
  predicate CarryFree(s: Store, start: nat, bytes: nat) {
    start + bytes <= WORD_RANGE || WORD_RANGE % |s.mem| == 0
  }

  lemma PositionShift(s: Store, start: nat, i: nat, j: nat)
    ensures Position(s, start, i + j) == Position(s, Wrap(start + i), j)
  {
    ModAdd(start + i, j, WORD_RANGE);
  }

  lemma PositionIsResidue(s: Store, start: nat, k: nat, n: nat)
    requires k < n && CarryFree(s, start, n)
    ensures Position(s, start, k) == (start + k) % |s.mem|
  {
    WrapThenMod(start + k, |s.mem|);
  }

  /** Bytes that start less than one memory size apart have positions of their own. */
  lemma PositionsDistinct(s: Store, start: nat, i: nat, j: nat, n: nat)
    requires i < j < n && n <= |s.mem| && CarryFree(s, start, n)
    ensures Position(s, start, i) != Position(s, start, j)
  {
    PositionIsResidue(s, start, i, n);
    PositionIsResidue(s, start, j, n);
    DistinctResidues(Position(s, start, i), Position(s, start, j), start + i, start + j, |s.mem|);
  }

  lemma FlatWriteLast(s: Store, start: nat, flat: seq<Option<Byte>>, b: Option<Byte>)
    ensures FlatWrite(s, start, flat + [b]) ==
            FlatWriteOne(FlatWrite(s, start, flat), Position(s, start, |flat|), b)
  {
    assert (flat + [b])[..|flat|] == flat;
  }

  function FlatWriteOne(s: Store, p: nat, b: Option<Byte>): Store
    requires p < |s.mem|
  {
    match b
    case None => s
    case Some(v) => s.(mem := s.mem[p := v])
  }

  /** Write optional bytes one after the other from `start` on. */
  function FlatWrite(s: Store, start: nat, flat: seq<Option<Byte>>): (r: Store)
    ensures |r.mem| == |s.mem| && r.word == s.word
  {
    if flat == [] then s
    else
      var n := |flat| - 1;
      var t := FlatWrite(s, start, flat[..n]);
      FlatWriteOne(t, Position(s, start, n), flat[n])
  }

  /** Byte k of a burst: present when its beat strobes the lane that `start + k` falls in. */
  function FlatByte(word: nat, start: nat, size: nat, beats: seq<WBeat>, k: nat): Option<Byte>
    requires word > 0 && size > 0 && k / size < |beats|
    requires forall b :: b in beats ==> |b.data| == word
  {
    var b := beats[k / size];
    var lane := (start + k) % word;
    if Bit(b.strb, lane) then Some(b.data[lane]) else None
  }

  function FlatBurst(word: nat, start: nat, size: nat, beats: seq<WBeat>): (flat: seq<Option<Byte>>)
    requires word > 0 && size > 0
    requires forall b :: b in beats ==> |b.data| == word
    ensures |flat| == |beats| * size
  {
    NonNegative(|beats|, size);
    seq(|beats| * size, k requires 0 <= k < |beats| * size =>
      (FlatIndex(|beats|, size, k);
       FlatByte(word, start, size, beats, k)))
  }

  lemma FlatIndex(n: nat, size: nat, k: nat)
    requires size > 0 && k < n * size
    ensures k / size < n
  {
    var q := k / size;
    assert (q - n) * size == q * size - n * size;
    if q >= n {
      NonNegative(q - n, size);
    }
  }

  /** Does byte k land on position p? */
  predicate Hits(s: Store, start: nat, flat: seq<Option<Byte>>, k: nat, p: nat) {
    k < |flat| && flat[k].Some? && Position(s, start, k) == p
  }

  /** A flat write leaves at each position the last byte sent there, and the old
      byte where none was sent. */
  lemma {:induction false} FlatWriteAt(s: Store, start: nat, flat: seq<Option<Byte>>, p: nat)
    requires p < |s.mem|
    ensures (forall k: nat :: !Hits(s, start, flat, k, p)) ==> FlatWrite(s, start, flat).mem[p] == s.mem[p]
    ensures forall k: nat :: Hits(s, start, flat, k, p) && (forall j: nat :: k < j ==> !Hits(s, start, flat, j, p))
              ==> FlatWrite(s, start, flat).mem[p] == flat[k].value
  {
    if flat != [] {
      var front, last := flat[..|flat| - 1], flat[|flat| - 1];
      FlatWriteAt(s, start, front, p);
      assert flat == front + [last];
      FlatWriteLast(s, start, front, last);
      if !Hits(s, start, flat, |front|, p) {
        HitsFront(s, start, front, last, p);
      }
    }
  }

  lemma HitsFront(s: Store, start: nat, front: seq<Option<Byte>>, last: Option<Byte>, p: nat)
    requires !Hits(s, start, front + [last], |front|, p)
    ensures forall k: nat :: Hits(s, start, front + [last], k, p) <==> Hits(s, start, front, k, p)
  {
    forall k: nat ensures Hits(s, start, front + [last], k, p) <==> Hits(s, start, front, k, p) {
      assert k < |front| ==> (front + [last])[k] == front[k];
    }
  }
}
