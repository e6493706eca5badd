/** What the ALU computes: every register operation of RV64I, for all operands. */
module AluMeaning {
  import opened Arith
  import opened Bits
  import opened BitReverse
  import opened Alu

  datatype Op =
    | AddOp | SubOp | SllOp | SltOp | SltuOp | XorOp | SrlOp | SraOp | OrOp | AndOp
    | AddwOp | SubwOp | SllwOp | SrlwOp | SrawOp

  function CodeOf(op: Op): Code {
    match op
    case AddOp | AddwOp => 0
    case SllOp | SllwOp => 1
    case XorOp => 4
    case SrlOp | SrlwOp => 5
    case OrOp => 6
    case AndOp => 7
    case SubOp | SubwOp => 10
    case SraOp | SrawOp => 11
    case SltOp => 12
    case SltuOp => 14
  }

  predicate IsWide(op: Op) {
    !(op.AddwOp? || op.SubwOp? || op.SllwOp? || op.SrlwOp? || op.SrawOp?)
  }

  /** The two's complement value of the low `n` bits of an integer. */
  function SignedAt(v: int, n: nat): int
    requires n > 0
  {
    (v + Pow2(n - 1)) % Pow2(n) - Pow2(n - 1)
  }

  /** The low `n` bits of an integer, unsigned. */
  function Low(v: int, n: nat): nat {
    v % Pow2(n)
  }

  function Scaled(u: nat, s: nat): nat {
    NonNegative(u, Pow2(s));
    u * Pow2(s)
  }

  /** Division by a power of two, rounding down. */
  function Floor(v: int, s: nat): int {
    v / Pow2(s)
  }

  /** The results that the manual gives as signed values. */
  predicate IsSigned(op: Op) {
    op.SraOp? || !IsWide(op)
  }

  /** The instruction's result as a number. */
  function Result(op: Op, a: Xlen, b: Xlen): int {
    match op
    case AddOp => Low(ToNat(a) + ToNat(b), 64)
    case SubOp => Low(ToNat(a) - ToNat(b), 64)
    case SllOp => Low(Scaled(ToNat(a), ToNat(b) % 64), 64)
    case SltOp => if ToInt(a) < ToInt(b) then 1 else 0
    case SltuOp => if ToNat(a) < ToNat(b) then 1 else 0
    case XorOp => ToNat(Xor(a, b))
    case SrlOp => Floor(ToNat(a), ToNat(b) % 64)
    case SraOp => Floor(ToInt(a), ToNat(b) % 64)
    case OrOp => ToNat(Or(a, b))
    case AndOp => ToNat(And(a, b))
    case AddwOp => SignedAt(ToNat(a) + ToNat(b), 32)
    case SubwOp => SignedAt(ToNat(a) - ToNat(b), 32)
    case SllwOp => SignedAt(Scaled(ToNat(a), ToNat(b) % 32), 32)
    case SrlwOp => SignedAt(Floor(Low(ToNat(a), 32), ToNat(b) % 32), 32)
    case SrawOp => Floor(SignedAt(ToNat(a), 32), ToNat(b) % 32)
  }

  /** The register written by the instruction represents its result. */
  predicate Computes(op: Op, a: Xlen, b: Xlen) {
    var out := Out(IsWide(op), CodeOf(op), b, a);
    (if IsSigned(op) then ToInt(out) else ToNat(out)) == Result(op, a, b)
  }

  // ---------- residues of integers ----------

  lemma ResidueShift(a: int, m: nat)
    requires m > 0
    ensures (a + m) % m == a % m
  {
    var q, r := a / m, a % m;
    assert (q + 1) * m == q * m + m;
    DivModUniqueInt(a + m, m, q + 1, r);
  }

  lemma Subtract(a: nat, b: nat, m: nat)
    requires a < m && b < m
    ensures (((a + (m - 1 - b)) % m) + 1) % m == (a - b) % m
  {
    ModAdd(a + (m - 1 - b), 1, m);
    assert a + (m - 1 - b) + 1 == (a - b) + m;
    ResidueShift(a - b, m);
  }

  /** Reducing an integer by a multiple of `w` first does not change its residue by `w`. */
  lemma IntModOfMod(a: int, n: nat, w: nat)
    requires n > 0 && w > 0 && n % w == 0
    ensures (a % n) % w == a % w
  {
    var q, m, r := a / n, n / w, a % n;
    DivMod(n, w);
    assert q * (m * w) == (q * m) * w;
    var q', r' := r / w, r % w;
    assert (q * m + q') * w == (q * m) * w + q' * w;
    DivModUniqueInt(a, w, q * m + q', r');
  }

  lemma SignedSame(v: int, u: int, n: nat)
    requires n > 0 && v % Pow2(n) == u % Pow2(n)
    ensures SignedAt(v, n) == SignedAt(u, n)
  {
    ResidueAdd(v, Pow2(n - 1), Pow2(n));
    ResidueAdd(u, Pow2(n - 1), Pow2(n));
  }

  lemma ResidueAdd(v: int, c: int, m: nat)
    requires m > 0
    ensures (v + c) % m == (v % m + c) % m
  {
    var q, r := v / m, v % m;
    var s := r + c;
    var q', r' := s / m, s % m;
    assert (q + q') * m == q * m + q' * m;
    DivModUniqueInt(v + c, m, q + q', r');
  }

  lemma SignedOf(x: Word)
    requires x != []
    ensures ToInt(x) == SignedAt(ToNat(x), |x|)
  {
    var n, v, h := |x|, ToNat(x), Pow2(|x| - 1);
    MsbMeans(x);
    ToNatBound(x);
    if v >= h {
      ResidueShift(v - h, 2 * h);
      SmallResidue(v - h, 2 * h);
    } else {
      SmallResidue(v + h, 2 * h);
    }
  }

  // ---------- sign extension ----------

  lemma SignExtendedMeans(x: Word)
    requires |x| == 32
    ensures ToInt(SignExtended(x)) == ToInt(x)
    ensures ToNat(SignExtended(x)) == OfInt(ToInt(x), 64)
  {
    FilledAbove(x, Msb(x), 32);
    assert Msb(SignExtended(x)) == Msb(x);
    IntAndNat(SignExtended(x));
  }

  lemma LowHalf(x: Xlen, v: int)
    requires ToNat(x) == Low(v, 64)
    ensures ToInt(x[..32]) == SignedAt(v, 32)
  {
    ToNatSplit(x, 32);
    Pow2Divides(32, 64);
    IntModOfMod(v, Pow2(64), Pow2(32));
    SignedOf(x[..32]);
    IntModOfMod(v, Pow2(32), Pow2(32));
    SelfDivides(Pow2(32));
    SignedSame(ToNat(x[..32]), v, 32);
  }

  lemma SelfDivides(n: nat)
    requires n > 0
    ensures n % n == 0
  {
    DivModUnique(n, n, 1, 0);
  }

  // ---------- the adder ----------

  lemma LiteralMeans(n: nat)
    requires n < Pow2(64)
    ensures ToNat(Literal(n)) == n
  {
    ToFrom(n, 64);
    SmallResidue(n, Pow2(64));
  }

  lemma AddMeans(x: Xlen, y: Xlen)
    ensures ToNat(Add(x, y)) == (ToNat(x) + ToNat(y)) % Pow2(64)
  {
    ToFrom(ToNat(x) + ToNat(y), 64);
  }

  lemma AddsTwice(x: Xlen, y: Xlen, z: Xlen)
    ensures ToNat(Add(Add(x, y), z)) == (((ToNat(x) + ToNat(y)) % Pow2(64)) + ToNat(z)) % Pow2(64)
  {
    AddMeans(x, y);
    AddMeans(Add(x, y), z);
  }

  lemma BitMeans(c: bool)
    ensures ToNat(Literal(if c then 1 else 0)) == if c then 1 else 0
  {
    assert Pow2(64) >= 2;
    LiteralMeans(if c then 1 else 0);
  }

  lemma AdderSum(fn: Code, b: Xlen, a: Xlen)
    ensures ToNat(AdderOut(fn, b, a)) ==
            (((ToNat(a) + ToNat(In2Inv(fn, b))) % Pow2(64)) + if Bit(fn, 3) then 1 else 0) % Pow2(64)
  {
    BitMeans(Bit(fn, 3));
    AddsTwice(a, In2Inv(fn, b), Literal(if Bit(fn, 3) then 1 else 0));
  }

  lemma NoCarry(s: nat, p: nat)
    requires p > 0
    ensures (s % p + 0) % p == s % p
  {
    ModAdd(s, 0, p);
  }

  lemma AdderAdds(fn: Code, b: Xlen, a: Xlen)
    requires !Bit(fn, 3)
    ensures ToNat(AdderOut(fn, b, a)) == Low(ToNat(a) + ToNat(b), 64)
  {
    AdderSum(fn, b, a);
    NoCarry(ToNat(a) + ToNat(b), Pow2(64));
  }

  lemma AdderSubtracts(fn: Code, b: Xlen, a: Xlen)
    requires Bit(fn, 3)
    ensures ToNat(AdderOut(fn, b, a)) == Low(ToNat(a) - ToNat(b), 64)
  {
    AdderSum(fn, b, a);
    AddsComplement(a, b);
  }

  lemma AddsComplement(a: Xlen, b: Xlen)
    ensures (((ToNat(a) + ToNat(Not(b))) % Pow2(64)) + 1) % Pow2(64) == Low(ToNat(a) - ToNat(b), 64)
  {
    ToNatNot(b);
    ToNatBound(a);
    ToNatBound(b);
    Subtract(ToNat(a), ToNat(b), Pow2(64));
  }

  /** Operands of equal sign: the difference does not overflow. */
  lemma DifferenceSign(ua: nat, ub: nat, d: nat, h: nat)
    requires ua < 2 * h && ub < 2 * h && (ua >= h <==> ub >= h) && d == (ua - ub) % (2 * h)
    ensures d >= h <==> ua < ub
  {
    if ua >= ub {
      SmallResidue(ua - ub, 2 * h);
    } else {
      ResidueShift(ua - ub, 2 * h);
      SmallResidue(ua - ub + 2 * h, 2 * h);
    }
  }

  lemma SameSignCompare(a: Xlen, b: Xlen, d: Xlen)
    requires Msb(a) == Msb(b) && ToNat(d) == Low(ToNat(a) - ToNat(b), 64)
    ensures Msb(d) <==> ToNat(a) < ToNat(b)
  {
    MsbMeans(a);
    MsbMeans(b);
    MsbMeans(d);
    ToNatBound(a);
    ToNatBound(b);
    DifferenceSign(ToNat(a), ToNat(b), ToNat(d), Pow2(63));
  }

  lemma OtherSignCompare(a: Xlen, b: Xlen)
    requires Msb(a) != Msb(b)
    ensures Msb(b) <==> ToNat(a) < ToNat(b)
    ensures Msb(a) <==> ToInt(a) < ToInt(b)
  {
    MsbMeans(a);
    MsbMeans(b);
    ToNatBound(a);
    ToNatBound(b);
  }

  /** The comparison, signed or unsigned by code bit 1. */
  lemma SltMeans(fn: Code, b: Xlen, a: Xlen)
    requires Bit(fn, 3)
    ensures Slt(fn, b, a) <==>
            if Bit(fn, 1) then ToNat(a) < ToNat(b) else ToInt(a) < ToInt(b)
  {
    if Msb(a) == Msb(b) {
      AdderSubtracts(fn, b, a);
      SameSignCompare(a, b, AdderOut(fn, b, a));
    } else {
      OtherSignCompare(a, b);
    }
  }

  // ---------- the shifter ----------

  lemma ShamtMeans(dw: bool, b: Xlen)
    ensures Shamt(dw, b) == ToNat(b) % (if dw then 64 else 32)
  {
    PowersOfTwo();
    if dw {
      assert b[..5] + [b[5] && dw] == b[..6];
      ToNatSplit(b, 6);
    } else {
      assert [b[5] && dw] == Fill(false, 1);
      FilledAbove(b[..5], false, 1);
      ToNatSplit(b, 5);
    }
  }

  lemma ShoutRBits(fn: Code, x: Xlen, s: nat)
    requires s < 64
    ensures ShoutR(fn, x, s) == x[s..] + Fill(Bit(fn, 3) && x[63], s)
  {
  }

  lemma ZeroWord()
    ensures Literal(0) == Fill(false, 64)
  {
    ToNatFill(false, 64);
    LiteralIs(0, Fill(false, 64));
  }

  lemma OrZero(x: Xlen)
    ensures Or(x, Literal(0)) == x && Or(Literal(0), x) == x
  {
    ZeroWord();
  }

  /** Left shifts come out of the right shifter, reversed in front and behind. */
  lemma LeftShiftBits(dw: bool, b: Xlen, a: Xlen)
    ensures WideOut(dw, 1, b, a) == Raised(ShinR(dw, 1, a), Shamt(dw, b))
  {
    var x, s := ShinR(dw, 1, a), Shamt(dw, b);
    Reverse64Reverses(x);
    assert !Bit(1, 3);
    ShoutRBits(1, Reverse(x), s);
    Reverse64Reverses(Lowered(Reverse(x), s));
    ShiftByReversal(x, s);
    OrZero(Raised(x, s));
    OrZero(Literal(0));
  }

  lemma ShoutOfRight(dw: bool, fn: Code, b: Xlen, a: Xlen)
    requires IsRightShift(fn)
    ensures Shout(dw, fn, b, a) == ShoutR(fn, ShinR(dw, fn, a), Shamt(dw, b))
  {
    OrZero(ShoutR(fn, ShinR(dw, fn, a), Shamt(dw, b)));
  }

  lemma RightShiftBits(dw: bool, fn: Code, b: Xlen, a: Xlen)
    requires IsRightShift(fn)
    ensures WideOut(dw, fn, b, a) == ShoutR(fn, ShinR(dw, fn, a), Shamt(dw, b))
  {
    ShoutOfRight(dw, fn, b, a);
    OrZero(Shout(dw, fn, b, a));
    OrZero(Literal(0));
  }

  lemma ShinRWide(fn: Code, a: Xlen)
    ensures ShinR(true, fn, a) == a
  {
  }

  lemma SllMeans(b: Xlen, a: Xlen)
    ensures ToNat(Out(true, 1, b, a)) == Low(Scaled(ToNat(a), ToNat(b) % 64), 64)
  {
    LeftShiftBits(true, b, a);
    ShinRWide(1, a);
    ShamtMeans(true, b);
    ShiftLeftMeans(a, Shamt(true, b));
  }

  lemma SrlMeans(b: Xlen, a: Xlen)
    ensures ToNat(Out(true, 5, b, a)) == Floor(ToNat(a), ToNat(b) % 64)
  {
    RightShiftBits(true, 5, b, a);
    ShinRWide(5, a);
    ShamtMeans(true, b);
    ShoutRBits(5, a, Shamt(true, b));
    assert !Bit(5, 3);
    ShiftRightMeans(a, Shamt(true, b));
  }

  lemma SraMeans(b: Xlen, a: Xlen)
    ensures ToInt(Out(true, 11, b, a)) == Floor(ToInt(a), ToNat(b) % 64)
  {
    RightShiftBits(true, 11, b, a);
    ShinRWide(11, a);
    ShamtMeans(true, b);
    ShoutRBits(11, a, Shamt(true, b));
    assert Bit(11, 3);
    ShiftArithMeans(a, Shamt(true, b));
  }

  // ---------- 32-bit shifts: the lower half of the shifter's output ----------

  lemma LowOfLeft(a: Xlen, s: nat)
    requires s < 32
    ensures Raised(a[..32] + Fill(false, 32), s)[..32] == Raised(a, s)[..32]
  {
  }

  lemma SllwMeans(b: Xlen, a: Xlen)
    ensures ToInt(WideOut(false, 1, b, a)[..32]) == SignedAt(Scaled(ToNat(a), ToNat(b) % 32), 32)
  {
    var s := Shamt(false, b);
    LeftShiftBits(false, b, a);
    ShamtMeans(false, b);
    assert !Bit(1, 3);
    LowOfLeft(a, s);
    ShiftLeftMeans(a, s);
    LowHalf(Raised(a, s), ToNat(a) * Pow2(s));
  }

  lemma LowOfRight(y: Word, c: bool, s: nat, fn: Code)
    requires |y| == 32 && s < 32 && (Bit(fn, 3) ==> c == y[31]) && (!Bit(fn, 3) ==> !c)
    ensures ShoutR(fn, y + Fill(c, 32), s)[..32] == y[s..] + Fill(c, s)
  {
    ShoutRBits(fn, y + Fill(c, 32), s);
  }

  lemma SrlwMeans(b: Xlen, a: Xlen)
    ensures ToInt(WideOut(false, 5, b, a)[..32]) ==
            SignedAt(Floor(Low(ToNat(a), 32), ToNat(b) % 32), 32)
  {
    var y, s := a[..32], Shamt(false, b);
    RightShiftBits(false, 5, b, a);
    ShamtMeans(false, b);
    assert !Bit(5, 3);
    LowOfRight(y, false, s, 5);
    ShiftRightMeans(y, s);
    ToNatSplit(a, 32);
    SignedOf(y[s..] + Fill(false, s));
  }

  lemma SrawMeans(b: Xlen, a: Xlen)
    ensures ToInt(WideOut(false, 11, b, a)[..32]) ==
            Floor(SignedAt(ToNat(a), 32), ToNat(b) % 32)
  {
    var y, s := a[..32], Shamt(false, b);
    RightShiftBits(false, 11, b, a);
    ShamtMeans(false, b);
    assert Bit(11, 3);
    LowOfRight(y, Msb(y), s, 11);
    ShiftArithMeans(y, s);
    ToNatBound(a);
    SmallResidue(ToNat(a), Pow2(64));
    LowHalf(a, ToNat(a));
  }

  // ---------- comparison and logic ----------

  lemma NoLogic(fn: Code, b: Xlen, a: Xlen)
    requires fn !in {4, 6, 7}
    ensures Logic(fn, b, a) == Literal(0)
  {
    OrZero(Literal(0));
  }

  lemma NoShift(dw: bool, fn: Code, b: Xlen, a: Xlen)
    requires fn !in {1, 5, 11}
    ensures Shout(dw, fn, b, a) == Literal(0)
  {
    OrZero(Literal(0));
  }

  lemma CompareBits(fn: Code, b: Xlen, a: Xlen)
    requires fn == 12 || fn == 14
    ensures ShiftLogic(true, fn, b, a) == Literal(if Slt(fn, b, a) then 1 else 0)
  {
    var c := Literal(if Slt(fn, b, a) then 1 else 0);
    NoLogic(fn, b, a);
    NoShift(true, fn, b, a);
    OrZero(c);
  }

  lemma NoCompare(fn: Code, b: Xlen, a: Xlen)
    requires fn < 12
    ensures ShiftLogic(true, fn, b, a) == Or(Or(Literal(0), Logic(fn, b, a)), Shout(true, fn, b, a))
  {
  }

  lemma LogicBits(fn: Code, b: Xlen, a: Xlen)
    requires fn == 4 || fn == 6 || fn == 7
    ensures Out(true, fn, b, a) == Logic(fn, b, a)
  {
    NoCompare(fn, b, a);
    NoShift(true, fn, b, a);
    OrZero(Logic(fn, b, a));
  }

  lemma XorBits(b: Xlen, a: Xlen)
    ensures Out(true, 4, b, a) == Xor(a, b)
  {
    assert !Bit(4, 3);
    LogicBits(4, b, a);
    OrZero(Xor(a, b));
  }

  lemma OrBits(b: Xlen, a: Xlen)
    ensures Out(true, 6, b, a) == Or(a, b)
  {
    assert !Bit(6, 3);
    assert Or(Xor(a, b), And(a, b)) == Or(a, b);
    LogicBits(6, b, a);
  }

  lemma AndBits(b: Xlen, a: Xlen)
    ensures Out(true, 7, b, a) == And(a, b)
  {
    LogicBits(7, b, a);
    OrZero(And(a, b));
  }

  /** The logic operations, bit by bit. */
  lemma XorBitwise(b: Xlen, a: Xlen, i: nat)
    requires i < 64
    ensures Out(true, 4, b, a)[i] <==> a[i] != b[i]
  {
    XorBits(b, a);
  }

  lemma OrBitwise(b: Xlen, a: Xlen, i: nat)
    requires i < 64
    ensures Out(true, 6, b, a)[i] <==> a[i] || b[i]
  {
    OrBits(b, a);
  }

  lemma AndBitwise(b: Xlen, a: Xlen, i: nat)
    requires i < 64
    ensures Out(true, 7, b, a)[i] <==> a[i] && b[i]
  {
    AndBits(b, a);
  }

  // ---------- the whole unit ----------

  lemma NarrowResult(fn: Code, b: Xlen, a: Xlen)
    ensures ToInt(Out(false, fn, b, a)) == ToInt(WideOut(false, fn, b, a)[..32])
  {
    SignExtendedMeans(WideOut(false, fn, b, a)[..32]);
  }

  lemma AddRight(a: Xlen, b: Xlen)
    ensures Computes(AddOp, a, b)
  {
    AdderAdds(0, b, a);
  }

  lemma SubRight(a: Xlen, b: Xlen)
    ensures Computes(SubOp, a, b)
  {
    AdderSubtracts(10, b, a);
  }

  lemma SllRight(a: Xlen, b: Xlen)
    ensures Computes(SllOp, a, b)
  {
    SllMeans(b, a);
  }

  lemma SltOut(a: Xlen, b: Xlen)
    ensures ToNat(Out(true, 12, b, a)) == if ToInt(a) < ToInt(b) then 1 else 0
  {
    CompareBits(12, b, a);
    SltMeans(12, b, a);
    BitMeans(Slt(12, b, a));
  }

  lemma SltRight(a: Xlen, b: Xlen)
    ensures Computes(SltOp, a, b)
  {
    SltOut(a, b);
  }

  lemma SltuOut(a: Xlen, b: Xlen)
    ensures ToNat(Out(true, 14, b, a)) == if ToNat(a) < ToNat(b) then 1 else 0
  {
    CompareBits(14, b, a);
    SltMeans(14, b, a);
    BitMeans(Slt(14, b, a));
  }

  lemma SltuRight(a: Xlen, b: Xlen)
    ensures Computes(SltuOp, a, b)
  {
    SltuOut(a, b);
  }

  lemma SrlRight(a: Xlen, b: Xlen)
    ensures Computes(SrlOp, a, b)
  {
    SrlMeans(b, a);
  }

  lemma SraRight(a: Xlen, b: Xlen)
    ensures Computes(SraOp, a, b)
  {
    SraMeans(b, a);
  }

  lemma XorRight(a: Xlen, b: Xlen)
    ensures Computes(XorOp, a, b)
  {
    XorBits(b, a);
  }

  lemma OrRight(a: Xlen, b: Xlen)
    ensures Computes(OrOp, a, b)
  {
    OrBits(b, a);
  }

  lemma AndRight(a: Xlen, b: Xlen)
    ensures Computes(AndOp, a, b)
  {
    AndBits(b, a);
  }

  lemma AdderAddsTo(fn: Code, a: Xlen, b: Xlen, v: int)
    requires !Bit(fn, 3) && v == ToNat(a) + ToNat(b)
    ensures ToNat(AdderOut(fn, b, a)) == Low(v, 64)
  {
    AdderAdds(fn, b, a);
  }

  lemma AddwAt(fn: Code, a: Xlen, b: Xlen, v: int)
    requires fn == 0 && !Bit(fn, 3) && v == ToNat(a) + ToNat(b)
    ensures ToInt(Out(false, fn, b, a)) == SignedAt(v, 32)
  {
    AdderAddsTo(fn, a, b, v);
    NarrowAdder(fn, b, a, v);
  }

  lemma CodeZero()
    ensures !Bit(0, 3)
  {
  }

  lemma AddwRight(a: Xlen, b: Xlen)
    ensures Computes(AddwOp, a, b)
  {
    CodeZero();
    AddwAt(CodeOf(AddwOp), a, b, ToNat(a) + ToNat(b));
  }

  lemma NarrowAdder(fn: Code, b: Xlen, a: Xlen, v: int)
    requires (fn == 0 || fn == 10) && ToNat(AdderOut(fn, b, a)) == Low(v, 64)
    ensures ToInt(Out(false, fn, b, a)) == SignedAt(v, 32)
  {
    NarrowResult(fn, b, a);
    LowHalf(AdderOut(fn, b, a), v);
  }

  lemma SubwAt(fn: Code, a: Xlen, b: Xlen, v: int)
    requires fn == 10 && Bit(fn, 3) && v == ToNat(a) - ToNat(b)
    ensures ToInt(Out(false, fn, b, a)) == SignedAt(v, 32)
  {
    AdderSubtracts(fn, b, a);
    NarrowAdder(fn, b, a, v);
  }

  lemma CodeTen()
    ensures Bit(10, 3)
  {
  }

  lemma SubwRight(a: Xlen, b: Xlen)
    ensures Computes(SubwOp, a, b)
  {
    CodeTen();
    SubwAt(CodeOf(SubwOp), a, b, ToNat(a) - ToNat(b));
  }

  lemma SllwOut(a: Xlen, b: Xlen)
    ensures ToInt(Out(false, 1, b, a)) == SignedAt(Scaled(ToNat(a), ToNat(b) % 32), 32)
  {
    NarrowResult(1, b, a);
    SllwMeans(b, a);
  }

  lemma SllwRight(a: Xlen, b: Xlen)
    ensures Computes(SllwOp, a, b)
  {
    SllwOut(a, b);
  }

  lemma SrlwOut(a: Xlen, b: Xlen)
    ensures ToInt(Out(false, 5, b, a)) == SignedAt(Floor(Low(ToNat(a), 32), ToNat(b) % 32), 32)
  {
    NarrowResult(5, b, a);
    SrlwMeans(b, a);
  }

  lemma SrlwRight(a: Xlen, b: Xlen)
    ensures Computes(SrlwOp, a, b)
  {
    SrlwOut(a, b);
  }

  lemma SrawOut(a: Xlen, b: Xlen)
    ensures ToInt(Out(false, 11, b, a)) == Floor(SignedAt(ToNat(a), 32), ToNat(b) % 32)
  {
    NarrowResult(11, b, a);
    SrawMeans(b, a);
  }

  lemma SrawRight(a: Xlen, b: Xlen)
    ensures Computes(SrawOp, a, b)
  {
    SrawOut(a, b);
  }

  /** Every decoded operation, for all operands: the register receives the result's low bits. */
  lemma AluComputes(op: Op, a: Xlen, b: Xlen)
    ensures Computes(op, a, b)
  {
    match op
    case AddOp => AddRight(a, b);
    case SubOp => SubRight(a, b);
    case SllOp => SllRight(a, b);
    case SltOp => SltRight(a, b);
    case SltuOp => SltuRight(a, b);
    case XorOp => XorRight(a, b);
    case SrlOp => SrlRight(a, b);
    case SraOp => SraRight(a, b);
    case OrOp => OrRight(a, b);
    case AndOp => AndRight(a, b);
    case AddwOp => AddwRight(a, b);
    case SubwOp => SubwRight(a, b);
    case SllwOp => SllwRight(a, b);
    case SrlwOp => SrlwRight(a, b);
    case SrawOp => SrawRight(a, b);
  }
}
