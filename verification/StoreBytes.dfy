/** The store byte by byte: which accepted data beat each byte comes from, for every address,
    beat size and strobe. */
module StoreBytes {
  import opened Arith
  import opened Axi
  import opened ByteStore
  import opened WriteEngine

  /** A data beat with the address and size that it is written under. */
  datatype Sent = Sent(addr: nat, size: nat, w: WBeat)

  /** Beat j of a burst: addresses step by the beat size, in 64-bit arithmetic. */
  function SentBeat(b: Burst, j: nat): Sent
    requires j < |b.beats|
  {
    NonNegative(j, Pow2(b.aw.size));
    Sent((b.aw.addr + j * Pow2(b.aw.size)) % 0x1_0000_0000_0000_0000, Pow2(b.aw.size), b.beats[j])
  }

  function SentBeats(b: Burst): (xs: seq<Sent>)
    ensures |xs| == |b.beats|
  {
    seq(|b.beats|, j requires 0 <= j < |b.beats| => SentBeat(b, j))
  }

  /** All data beats of the bursts, in order. */
  function AllSent(bursts: seq<Burst>): seq<Sent> {
    if bursts == [] then [] else AllSent(bursts[..|bursts| - 1]) + SentBeats(bursts[|bursts| - 1])
  }

  /** The beat writes position p: p lies in the word of its address, in one of its lanes, and the
      strobe of that lane is set. */
  predicate Touches(x: Sent, p: nat, word: nat, size: nat)
    requires word > 0 && size > 0
  {
    && p / word == x.addr % size / word
    && x.addr % word <= p % word < x.addr % word + x.size
    && Bit(x.w.strb, p % word)
  }

  ghost predicate Fitting(xs: seq<Sent>, word: nat) {
    forall k :: 0 <= k < |xs| ==> xs[k].size <= 16 && |xs[k].w.data| == word
  }

  /** Beat k writes position p and no later beat does. */
  ghost predicate LastTouch(xs: seq<Sent>, k: nat, p: nat, word: nat, size: nat)
    requires word > 0 && size > 0
  {
    k < |xs| && Touches(xs[k], p, word, size) && forall l :: k < l < |xs| ==> !Touches(xs[l], p, word, size)
  }

  ghost predicate Untouched(xs: seq<Sent>, p: nat, word: nat, size: nat)
    requires word > 0 && size > 0
  {
    forall k :: 0 <= k < |xs| ==> !Touches(xs[k], p, word, size)
  }

  /** One or the other holds, so what follows leaves no choice of the byte. */
  lemma {:induction false} TouchedOrNot(xs: seq<Sent>, p: nat, word: nat, size: nat)
    requires word > 0 && size > 0
    ensures Untouched(xs, p, word, size) <==> !exists k: nat :: LastTouch(xs, k, p, word, size)
  {
    if xs != [] {
      var n := |xs| - 1;
      TouchedOrNot(xs[..n], p, word, size);
      if Touches(xs[n], p, word, size) {
        assert LastTouch(xs, n, p, word, size);
      } else if k: nat :| LastTouch(xs[..n], k, p, word, size) {
        assert LastTouch(xs, k, p, word, size);
      } else {
        assert forall k: nat :: k < n ==> xs[..n][k] == xs[k];
      }
    }
  }

  /** Position p holds the byte of the last beat that writes it, or what it held at first. */
  ghost predicate LastWritten(initial: Store, xs: seq<Sent>, now: Store, p: nat)
    requires p < |initial.mem| == |now.mem| && Fitting(xs, initial.word)
  {
    && (Untouched(xs, p, initial.word, |initial.mem|) ==> now.mem[p] == initial.mem[p])
    && forall k: nat :: LastTouch(xs, k, p, initial.word, |initial.mem|) ==>
         now.mem[p] == xs[k].w.data[p % initial.word]
  }

  lemma WordOf(p: nat, q: nat, word: nat)
    requires word > 0
    ensures q * word <= p < q * word + word <==> p / word == q
    ensures q * word <= p < q * word + word ==> p - q * word == p % word
  {
    DivMod(p, word);
    if q * word <= p < q * word + word {
      DivModUnique(p, word, q, p - q * word);
    }
  }

  /** One beat writes exactly the positions that it touches. */
  lemma BeatTouches(s: Store, x: Sent, p: nat)
    requires |x.w.data| == s.word && x.size <= 16 && p < |s.mem|
    ensures WriteBeat(s, x.addr, x.w, x.size).mem[p] ==
            if Touches(x, p, s.word, |s.mem|) then x.w.data[p % s.word] else s.mem[p]
  {
    WordOf(p, x.addr % |s.mem| / s.word, s.word);
    LaneStrobeBits(x.w.strb, x.size, x.addr % s.word, p % s.word);
    WordFits(x.addr, |s.mem|, s.word);
  }

  lemma LastWrittenStep(initial: Store, xs: seq<Sent>, now: Store, x: Sent, p: nat)
    requires p < |initial.mem| == |now.mem| && now.word == initial.word
    requires Fitting(xs, initial.word) && x.size <= 16 && |x.w.data| == initial.word
    requires LastWritten(initial, xs, now, p)
    ensures Fitting(xs + [x], initial.word)
    ensures LastWritten(initial, xs + [x], WriteBeat(now, x.addr, x.w, x.size), p)
  {
    BeatTouches(now, x, p);
    var ys := xs + [x];
    var word, size := initial.word, |initial.mem|;
    assert ys[|xs|] == x && forall k :: 0 <= k < |xs| ==> ys[k] == xs[k];
    if Touches(x, p, word, size) {
      assert forall k: nat :: LastTouch(ys, k, p, word, size) ==> k == |xs|;
    } else {
      assert forall k: nat :: LastTouch(ys, k, p, word, size) ==> LastTouch(xs, k, p, word, size);
      assert Untouched(ys, p, word, size) ==> Untouched(xs, p, word, size);
    }
  }

  /** The store after n beats of a burst. */
  ghost function AfterBeats(s: Store, b: Burst, n: nat): (r: Store)
    requires BurstOk(b, s.word) && n <= |b.beats|
    ensures |r.mem| == |s.mem| && r.word == s.word
  {
    assert forall w :: w in b.beats[..n] ==> w in b.beats;
    WriteBurst(s, b.aw.addr, Pow2(b.aw.size), b.beats[..n])
  }

  lemma OneMoreBeat(s: Store, b: Burst, n: nat)
    requires BurstOk(b, s.word) && n < |b.beats|
    ensures var x := SentBeat(b, n);
            && |x.w.data| == s.word && x.size <= 16
            && AfterBeats(s, b, n + 1) == WriteBeat(AfterBeats(s, b, n), x.addr, x.w, x.size)
  {
    assert b.beats[n] in b.beats;
    assert b.beats[..n + 1][..n] == b.beats[..n];
  }

  lemma SentSnoc(xs: seq<Sent>, b: Burst, n: nat)
    requires n < |b.beats|
    ensures xs + SentBeats(b)[..n + 1] == xs + SentBeats(b)[..n] + [SentBeat(b, n)]
  {
  }

  lemma NothingSent(xs: seq<Sent>, s: Store, b: Burst)
    requires BurstOk(b, s.word)
    ensures xs + SentBeats(b)[..0] == xs && AfterBeats(s, b, 0) == s
  {
  }

  /** The first n beats of a burst are accounted for. */
  ghost predicate WrittenTo(initial: Store, xs: seq<Sent>, now: Store, b: Burst, n: nat, p: nat)
    requires BurstOk(b, initial.word) && n <= |b.beats| && now.word == initial.word
    requires p < |initial.mem| == |now.mem|
  {
    && Fitting(xs + SentBeats(b)[..n], initial.word)
    && LastWritten(initial, xs + SentBeats(b)[..n], AfterBeats(now, b, n), p)
  }

  lemma WrittenFurther(initial: Store, xs: seq<Sent>, now: Store, b: Burst, n: nat, p: nat)
    requires BurstOk(b, initial.word) && n < |b.beats| && now.word == initial.word
    requires p < |initial.mem| == |now.mem| && WrittenTo(initial, xs, now, b, n, p)
    ensures WrittenTo(initial, xs, now, b, n + 1, p)
  {
    OneMoreBeat(now, b, n);
    LastWrittenStep(initial, xs + SentBeats(b)[..n], AfterBeats(now, b, n), SentBeat(b, n), p);
    SentSnoc(xs, b, n);
  }

  lemma {:induction false} BurstLastWritten(initial: Store, xs: seq<Sent>, now: Store, b: Burst, n: nat, p: nat)
    requires BurstOk(b, initial.word) && n <= |b.beats| && now.word == initial.word
    requires p < |initial.mem| == |now.mem| && Fitting(xs, initial.word) && LastWritten(initial, xs, now, p)
    ensures WrittenTo(initial, xs, now, b, n, p)
    decreases n
  {
    if n == 0 {
      NothingSent(xs, now, b);
    } else {
      BurstLastWritten(initial, xs, now, b, n - 1, p);
      WrittenFurther(initial, xs, now, b, n - 1, p);
    }
  }

  /** After any list of bursts every byte is that of the last beat that writes it. */
  lemma {:induction false} BytesFromBeats(initial: Store, bursts: seq<Burst>, p: nat)
    requires (forall b :: b in bursts ==> BurstOk(b, initial.word)) && p < |initial.mem|
    ensures Fitting(AllSent(bursts), initial.word)
    ensures LastWritten(initial, AllSent(bursts), ApplyBursts(initial, bursts), p)
  {
    if bursts != [] {
      var n := |bursts| - 1;
      var b := bursts[n];
      BytesFromBeats(initial, bursts[..n], p);
      assert b in bursts;
      assert b.beats[..|b.beats|] == b.beats && SentBeats(b)[..|b.beats|] == SentBeats(b);
      BurstLastWritten(initial, AllSent(bursts[..n]), ApplyBursts(initial, bursts[..n]), b, |b.beats|, p);
    }
  }
}
