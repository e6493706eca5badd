/** Bit vectors, least significant bit first, and the numbers they stand for. */
module Bits {
  import opened Arith

  type Word = seq<bool>

  function ToNat(x: Word): nat {
    if x == [] then 0 else (if x[0] then 1 else 0) + 2 * ToNat(x[1..])
  }

  function FromNat(n: nat, width: nat): (x: Word)
    ensures |x| == width
  {
    if width == 0 then [] else [n % 2 == 1] + FromNat(n / 2, width - 1)
  }

  function Msb(x: Word): bool
    requires x != []
  {
    x[|x| - 1]
  }

  /** The two's complement value. */
  function ToInt(x: Word): int
    requires x != []
  {
    ToNat(x) - if Msb(x) then Pow2(|x|) else 0
  }

  // ---------- operators ----------

  function Fill(b: bool, n: nat): (x: Word)
    ensures |x| == n
  {
    seq(n, _ => b)
  }

  function Not(x: Word): (r: Word)
    ensures |r| == |x|
  {
    seq(|x|, i requires 0 <= i < |x| => !x[i])
  }

  function And(x: Word, y: Word): (r: Word)
    requires |x| == |y|
    ensures |r| == |x|
  {
    seq(|x|, i requires 0 <= i < |x| => x[i] && y[i])
  }

  function Or(x: Word, y: Word): (r: Word)
    requires |x| == |y|
    ensures |r| == |x|
  {
    seq(|x|, i requires 0 <= i < |x| => x[i] || y[i])
  }

  function Xor(x: Word, y: Word): (r: Word)
    requires |x| == |y|
    ensures |r| == |x|
  {
    seq(|x|, i requires 0 <= i < |x| => x[i] != y[i])
  }

  /** Addition modulo 2^width. */
  function Add(x: Word, y: Word): (r: Word)
    requires |x| == |y|
    ensures |r| == |x|
  {
    FromNat(ToNat(x) + ToNat(y), |x|)
  }

  /** Arithmetic right shift. */
  function ShiftRight(x: Word, s: nat): (r: Word)
    requires x != [] && s <= |x|
    ensures |r| == |x|
  {
    x[s..] + Fill(Msb(x), s)
  }

  // ---------- numbers ----------

  lemma {:induction false} ToNatBound(x: Word)
    ensures ToNat(x) < Pow2(|x|)
  {
    if x != [] {
      ToNatBound(x[1..]);
    }
  }

  lemma {:induction false} ToFrom(n: nat, width: nat)
    ensures ToNat(FromNat(n, width)) == n % Pow2(width)
  {
    if width > 0 {
      ToFrom(n / 2, width - 1);
      HalfMod(n, Pow2(width - 1));
    }
  }

  lemma HalfMod(n: nat, p: nat)
    requires p > 0
    ensures n % (2 * p) == 2 * ((n / 2) % p) + n % 2
  {
    var h := n / 2;
    var q, r := h / p, h % p;
    Reassociate(q, 2, p);
    DivModUnique(n, 2 * p, q, 2 * r + n % 2);
  }

  lemma Reassociate(a: int, b: int, c: int)
    ensures a * (b * c) == b * (a * c) == (a * b) * c
  {
  }

  lemma {:induction false} FromTo(x: Word)
    ensures FromNat(ToNat(x), |x|) == x
  {
    if x != [] {
      FromTo(x[1..]);
      assert ToNat(x) / 2 == ToNat(x[1..]);
    }
  }

  /** Equal numbers of equal width are equal words. */
  lemma SameNumber(x: Word, y: Word)
    requires |x| == |y| && ToNat(x) == ToNat(y)
    ensures x == y
  {
    FromTo(x);
    FromTo(y);
  }

  lemma Twice(p: nat, t: nat)
    ensures (2 * p) * t == 2 * (p * t)
  {
  }

  lemma {:induction false} ToNatConcat(x: Word, y: Word)
    ensures ToNat(x + y) == ToNat(x) + Pow2(|x|) * ToNat(y)
  {
    if x == [] {
      assert x + y == y;
    } else {
      assert (x + y)[1..] == x[1..] + y;
      ToNatConcat(x[1..], y);
      Twice(Pow2(|x| - 1), ToNat(y));
    }
  }

  /** The low and the high part of a word. */
  lemma ToNatSplit(x: Word, k: nat)
    requires k <= |x|
    ensures ToNat(x[..k]) == ToNat(x) % Pow2(k)
    ensures ToNat(x[k..]) == ToNat(x) / Pow2(k)
  {
    assert x == x[..k] + x[k..];
    ToNatConcat(x[..k], x[k..]);
    ToNatBound(x[..k]);
    assert Pow2(k) * ToNat(x[k..]) == ToNat(x[k..]) * Pow2(k);
    DivModUnique(ToNat(x), Pow2(k), ToNat(x[k..]), ToNat(x[..k]));
  }

  lemma {:induction false} ToNatFill(b: bool, n: nat)
    ensures ToNat(Fill(b, n)) == if b then Pow2(n) - 1 else 0
  {
    if n > 0 {
      assert Fill(b, n)[1..] == Fill(b, n - 1);
      ToNatFill(b, n - 1);
    }
  }

  lemma {:induction false} ToNatNot(x: Word)
    ensures ToNat(Not(x)) == Pow2(|x|) - 1 - ToNat(x)
  {
    if x != [] {
      assert Not(x)[1..] == Not(x[1..]);
      ToNatNot(x[1..]);
    }
  }

  lemma MsbMeans(x: Word)
    requires x != []
    ensures Msb(x) <==> ToNat(x) >= Pow2(|x| - 1)
  {
    var n := |x| - 1;
    ToNatSplit(x, n);
    ToNatBound(x[..n]);
    assert x[n..] == [Msb(x)];
    assert x == x[..n] + [Msb(x)];
    ToNatConcat(x[..n], [Msb(x)]);
    assert [Msb(x)][1..] == [];
  }

  // ---------- shifts as arithmetic ----------

  lemma Distribute(d: int, q: int, m: int, p: int)
    ensures (d * q + m) * p == d * (p * q) + p * m
  {
    Reassociate(d, p, q);
  }

  lemma ScaleMod(a: nat, p: nat, q: nat)
    requires p > 0 && q > 0
    ensures p * q > 0 && a * p >= 0 && (a * p) % (p * q) == p * (a % q)
  {
    var d, m := a / q, a % q;
    Product(p, q);
    NonNegative(p, m);
    NonNegative(a, p);
    Distribute(d, q, m, p);
    Scale(p, m, q);
    assert p * m == m * p && p * q == q * p;
    DivModUnique(a * p, p * q, d, p * m);
  }

  lemma ShiftedLow(a: nat, p: nat, q: nat, n: nat, low: nat)
    requires p > 0 && q > 0 && n == p * q && low == a % q
    ensures n > 0 && a * p >= 0 && p * low == (a * p) % n
  {
    ScaleMod(a, p, q);
  }

  /** Moving bits up with zeros below. */
  function Raised(x: Word, s: nat): (r: Word)
    requires s <= |x|
    ensures |r| == |x|
  {
    Fill(false, s) + x[..|x| - s]
  }

  lemma RaisedBits(x: Word, s: nat)
    requires s <= |x|
    ensures ToNat(Raised(x, s)) == Pow2(s) * ToNat(x[..|x| - s])
  {
    ToNatConcat(Fill(false, s), x[..|x| - s]);
    ToNatFill(false, s);
  }

  /** Moving bits up multiplies by a power of two, modulo the width. */
  lemma ShiftLeftMeans(x: Word, s: nat)
    requires s <= |x|
    ensures ToNat(Raised(x, s)) == (ToNat(x) * Pow2(s)) % Pow2(|x|)
  {
    var n := |x|;
    RaisedBits(x, s);
    ToNatSplit(x, n - s);
    Pow2Add(s, n - s);
    ShiftedLow(ToNat(x), Pow2(s), Pow2(n - s), Pow2(n), ToNat(x[..n - s]));
  }

  /** A logical right shift divides. */
  lemma ShiftRightMeans(x: Word, s: nat)
    requires s <= |x|
    ensures ToNat(x[s..] + Fill(false, s)) == ToNat(x) / Pow2(s)
  {
    assert ToNat(x[s..] + Fill(false, s)) == ToNat(x[s..]) by {
      ToNatConcat(x[s..], Fill(false, s));
      ToNatFill(false, s);
    }
    ToNatSplit(x, s);
  }

  /** An arithmetic right shift divides the signed value, rounding down. */
  lemma ShiftArithMeans(x: Word, s: nat)
    requires x != [] && s < |x|
    ensures ToInt(ShiftRight(x, s)) == ToInt(x) / Pow2(s)
    ensures Msb(ShiftRight(x, s)) == Msb(x)
  {
    FilledAbove(x[s..], Msb(x), s);
    KeepsSign(x, s);
    ToNatSplit(x, s);
    Pow2Add(|x| - s, s);
    if Msb(x) {
      FloorOfShifted(ToNat(x), Pow2(s), Pow2(|x| - s), Pow2(|x|), ToNat(x[s..]));
    }
  }

  lemma FloorOfShifted(a: nat, p: nat, q: nat, n: nat, high: nat)
    requires p > 0 && q > 0 && n == q * p && high == a / p
    ensures high - q == (a - n) / p
  {
    FloorOfNegative(a, p, q);
  }

  lemma KeepsSign(x: Word, s: nat)
    requires x != [] && s < |x|
    ensures Msb(ShiftRight(x, s)) == Msb(x)
  {
  }

  /** The value of a word extended at the top by copies of one bit. */
  lemma {:induction false} FilledAbove(x: Word, b: bool, s: nat)
    ensures ToNat(x + Fill(b, s)) == ToNat(x) + if b then Pow2(|x| + s) - Pow2(|x|) else 0
  {
    if x == [] {
      assert x + Fill(b, s) == Fill(b, s);
      ToNatFill(b, s);
    } else {
      assert (x + Fill(b, s))[1..] == x[1..] + Fill(b, s);
      FilledAbove(x[1..], b, s);
    }
  }

  /** Quotient and remainder are unique, for integers. */
  lemma DivModUniqueInt(b: int, n: nat, q: int, r: nat)
    requires n > 0 && b == q * n + r && r < n
    ensures b / n == q && b % n == r
  {
    assert b == (b / n) * n + b % n;
    QuotientLow(n, q, r, b / n, b % n);
    QuotientLow(n, b / n, b % n, q, r);
  }

  lemma FloorOfNegative(a: nat, p: nat, q: nat)
    requires p > 0 && q > 0
    ensures (a - q * p) / p == a / p - q
  {
    var d, m := a / p, a % p;
    assert (d - q) * p == d * p - q * p;
    DivModUniqueInt(a - q * p, p, d - q, m);
  }

  /** The word of a given width that represents an integer. */
  function OfInt(v: int, width: nat): nat {
    v % Pow2(width)
  }

  lemma NegateIsTimes(p: int)
    ensures (-1) * p == -p
  {
  }

  lemma IntAndNat(x: Word)
    requires x != []
    ensures ToNat(x) == OfInt(ToInt(x), |x|)
  {
    ToNatBound(x);
    var p: int := Pow2(|x|);
    if Msb(x) {
      NegateIsTimes(p);
      DivModUniqueInt(ToNat(x) - p, p, -1, ToNat(x));
    } else {
      DivModUnique(ToNat(x), p, 0, ToNat(x));
    }
  }
}
