/**
 * Bit reversal by a butterfly: in each stage neighbouring blocks of bits change places, the
 * blocks halving from stage to stage.
 */
module BitReverse {
  import opened Arith
  import opened Bits

  function Reverse(x: Word): (r: Word)
    ensures |r| == |x|
  {
    seq(|x|, i requires 0 <= i < |x| => x[|x| - 1 - i])
  }

  /** Bits moved down by `b`, zeros entering at the top. */
  function Lowered(x: Word, b: nat): (r: Word)
    requires b <= |x|
    ensures |r| == |x|
  {
    x[b..] + Fill(false, b)
  }

  /** Two masked shifts: bits in `keep` come from `b` places above, bits in `move` from below. */
  function Swap(x: Word, b: nat, keep: Word, move: Word): (r: Word)
    requires b <= |x| && |keep| == |x| && |move| == |x|
    ensures |r| == |x|
  {
    Or(And(Lowered(x, b), keep), And(Raised(x, b), move))
  }

  /** The lower block of every pair of blocks of 2^m bits, in a word of 2^(m + 1 + j) bits. */
  function Mask(m: nat, j: nat): (r: Word)
    ensures |r| == Pow2(m + 1 + j)
    decreases j
  {
    if j == 0 then Fill(true, Pow2(m)) + Fill(false, Pow2(m)) else Mask(m, j - 1) + Mask(m, j - 1)
  }

  function Stage(x: Word, m: nat, j: nat): (r: Word)
    requires |x| == Pow2(m + 1 + j)
    ensures |r| == |x|
  {
    Pow2Mono(m, m + 1 + j);
    Swap(x, Pow2(m), Mask(m, j), Not(Mask(m, j)))
  }

  /** The stages with blocks of 2^(m - 1), ..., 2, 1 bits on a word of 2^k bits. */
  function Butterfly(x: Word, k: nat, m: nat): (r: Word)
    requires |x| == Pow2(k) && m <= k
    ensures |r| == |x|
    decreases m
  {
    if m == 0 then x else Butterfly(Stage(x, m - 1, k - m), k, m - 1)
  }

  // ---------- exactness ----------

  /** No stage reaches outside the word. */
  lemma {:induction false} MaskInside(m: nat, j: nat, i: nat)
    requires i < Pow2(m + 1 + j)
    ensures if Mask(m, j)[i] then i + Pow2(m) < Pow2(m + 1 + j) else i >= Pow2(m)
    decreases j
  {
    if j > 0 {
      var half := Pow2(m + j);
      if i < half {
        MaskInside(m, j - 1, i);
      } else {
        MaskInside(m, j - 1, i - half);
      }
    }
  }

  /** One stage, bit by bit. */
  lemma StageAt(x: Word, m: nat, j: nat, i: nat)
    requires |x| == Pow2(m + 1 + j) && i < |x|
    ensures if Mask(m, j)[i]
            then i + Pow2(m) < |x| && Stage(x, m, j)[i] == x[i + Pow2(m)]
            else i >= Pow2(m) && Stage(x, m, j)[i] == x[i - Pow2(m)]
  {
    MaskInside(m, j, i);
    Pow2Mono(m, m + 1 + j);
  }

  /** The widest stage exchanges the halves. */
  lemma StageExchanges(x: Word, y: Word, m: nat)
    requires |x| == |y| == Pow2(m)
    ensures Stage(x + y, m, 0) == y + x
  {
    forall i | 0 <= i < |x + y| ensures Stage(x + y, m, 0)[i] == (y + x)[i] {
      StageAt(x + y, m, 0, i);
    }
  }

  lemma LowHalfOfStage(x: Word, y: Word, m: nat, j: nat, i: nat)
    requires |x| == |y| == Pow2(m + 1 + j) && i < |x|
    ensures Stage(x + y, m, j + 1)[i] == Stage(x, m, j)[i]
  {
    StageAt(x + y, m, j + 1, i);
    StageAt(x, m, j, i);
  }

  lemma HighHalfOfStage(x: Word, y: Word, m: nat, j: nat, i: nat)
    requires |x| == |y| == Pow2(m + 1 + j) && i < |x|
    ensures Stage(x + y, m, j + 1)[|x| + i] == Stage(y, m, j)[i]
  {
    StageAt(x + y, m, j + 1, |x| + i);
    StageAt(y, m, j, i);
  }

  /** Every narrower stage works on the halves separately. */
  lemma StageSplits(x: Word, y: Word, m: nat, j: nat)
    requires |x| == |y| == Pow2(m + 1 + j)
    ensures Stage(x + y, m, j + 1) == Stage(x, m, j) + Stage(y, m, j)
  {
    var whole, low, high := Stage(x + y, m, j + 1), Stage(x, m, j), Stage(y, m, j);
    forall i | 0 <= i < |x| ensures whole[i] == low[i] && whole[|x| + i] == high[i] {
      LowHalfOfStage(x, y, m, j, i);
      HighHalfOfStage(x, y, m, j, i);
    }
    SameHalves(whole, low, high);
  }

  lemma SameHalves(whole: Word, low: Word, high: Word)
    requires |low| == |high| && |whole| == 2 * |low|
    requires forall i :: 0 <= i < |low| ==> whole[i] == low[i] && whole[|low| + i] == high[i]
    ensures whole == low + high
  {
    forall i | 0 <= i < |whole| ensures whole[i] == (low + high)[i] {
      if i >= |low| {
        assert whole[|low| + (i - |low|)] == high[i - |low|];
      }
    }
  }

  lemma {:induction false} ButterflySplits(x: Word, y: Word, k: nat, m: nat)
    requires |x| == |y| == Pow2(k) && m <= k
    ensures Butterfly(x + y, k + 1, m) == Butterfly(x, k, m) + Butterfly(y, k, m)
    decreases m
  {
    if m > 0 {
      StageSplits(x, y, m - 1, k - m);
      ButterflySplits(Stage(x, m - 1, k - m), Stage(y, m - 1, k - m), k, m - 1);
    }
  }

  lemma ReverseConcat(x: Word, y: Word)
    ensures Reverse(x + y) == Reverse(y) + Reverse(x)
  {
  }

  /** The widest stage of a butterfly, then the narrower ones on each half. */
  lemma ButterflyHalves(x: Word, y: Word, k: nat)
    requires |x| == |y| == Pow2(k)
    ensures Butterfly(x + y, k + 1, k + 1) == Butterfly(y, k, k) + Butterfly(x, k, k)
  {
    StageExchanges(x, y, k);
    ButterflySplits(y, x, k, k);
  }

  /** For every width 2^k the butterfly is exact bit reversal. */
  lemma {:induction false} ButterflyReverses(x: Word, k: nat)
    requires |x| == Pow2(k)
    ensures Butterfly(x, k, k) == Reverse(x)
  {
    if k > 0 {
      var low, high := x[..Pow2(k - 1)], x[Pow2(k - 1)..];
      assert x == low + high;
      ButterflyHalves(low, high, k - 1);
      ButterflyReverses(low, k - 1);
      ButterflyReverses(high, k - 1);
      ReverseConcat(low, high);
    }
  }

  /** Reversing, shifting down and reversing again shifts up. */
  lemma ShiftByReversal(x: Word, s: nat)
    requires s <= |x|
    ensures Reverse(Lowered(Reverse(x), s)) == Raised(x, s)
  {
  }

  // ---------- the masks as numbers ----------

  lemma MaskDoubles(m: nat, j: nat)
    ensures ToNat(Mask(m, j + 1)) == ToNat(Mask(m, j)) + Pow2(Pow2(m + 1 + j)) * ToNat(Mask(m, j))
  {
    ToNatConcat(Mask(m, j), Mask(m, j));
  }

  lemma NarrowMask(m: nat)
    ensures ToNat(Mask(m, 0)) == Pow2(Pow2(m)) - 1
  {
    FilledAbove(Fill(true, Pow2(m)), false, Pow2(m));
    ToNatFill(true, Pow2(m));
  }
}
