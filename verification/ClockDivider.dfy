/** A divide-by-N clock divider: a counter of just enough bits and one output register. */
module ClockDivider {
  import opened Arith

  /** The bits needed to count `n` values. */
  function Clog2(n: nat): nat {
    if n <= 1 then 0 else 1 + Clog2((n + 1) / 2)
  }

  lemma {:induction false} Clog2Fits(n: nat)
    ensures n <= Pow2(Clog2(n))
  {
    if n > 1 {
      Clog2Fits((n + 1) / 2);
    }
  }

  /** A value cut to the counter's width. */
  function Truncated(v: nat, div: nat): nat {
    v % Pow2(Clog2(div))
  }

  lemma TruncationKeeps(v: nat, div: nat)
    requires v < div
    ensures Truncated(v, div) == v
  {
    Clog2Fits(div);
    SmallResidue(v, Pow2(Clog2(div)));
  }

  datatype State = State(count: nat, high: bool)

  function Start(div: nat): State
    requires div >= 2
  {
    State(Truncated(div / 2 - 1, div), false)
  }

  function Step(s: State, div: nat): State
    requires div >= 2
  {
    if s.count == Truncated(div - 1, div) then State(0, false)
    else State(Truncated(s.count + 1, div), s.high || s.count == Truncated(div / 2 - 1, div))
  }

  class ClockDividerN {
    const div: nat
    var count: nat
    var clkOut: bool

    ghost predicate Valid()
      reads this
    {
      div >= 2
    }

    ghost function Now(): State
      reads this
    {
      State(count, clkOut)
    }

    constructor (div: nat)
      requires div >= 2
      ensures Valid() && this.div == div && Now() == After(div, 0)
    {
      this.div := div;
      count := Truncated(div / 2 - 1, div);
      clkOut := false;
    }

    /** A rising edge of the input clock. The output is assigned at once, the counter at the end
        of the step, from its old value. */
    method Posedge()
      requires Valid()
      modifies this
      ensures Valid() && Now() == Step(old(Now()), div)
    {
      if count == Truncated(div - 1, div) {
        clkOut := false;
        count := 0;
      } else {
        if count == Truncated(div / 2 - 1, div) {
          clkOut := true;
        }
        count := Truncated(count + 1, div);
      }
    }
  }

  // ---------- closed form ----------

  /** The state after `n` rising edges of the input. */
  function After(div: nat, n: nat): State
    requires div >= 2
  {
    if n == 0 then Start(div) else Step(After(div, n - 1), div)
  }

  lemma NextResidue(a: nat, m: nat)
    requires m > 0
    ensures (a + 1) % m == if a % m == m - 1 then 0 else a % m + 1
  {
    DivMod(a, m);
    if a % m == m - 1 {
      DivModUnique(a + 1, m, a / m + 1, 0) by {
        assert (a / m + 1) * m == (a / m) * m + m;
      }
    } else {
      StepWithin(a, 1, m);
    }
  }

  /** For every divisor and every number of edges: the counter and the output. */
  lemma {:induction false} ClosedForm(div: nat, n: nat)
    requires div >= 2
    ensures After(div, n) ==
            State((n + (div / 2 - 1)) % div, (n + (div / 2 - 1)) % div >= div / 2)
  {
    TruncationKeeps(div / 2 - 1, div);
    if n == 0 {
      DivModUnique(div / 2 - 1, div, 0, div / 2 - 1);
    } else {
      ClosedForm(div, n - 1);
      var c := n - 1 + (div / 2 - 1);
      NextResidue(c, div);
      TruncationKeeps(div - 1, div);
      if c % div < div - 1 {
        TruncationKeeps(c % div + 1, div);
      }
    }
  }

  /** Counter and output repeat after `div` edges. */
  lemma Periodic(div: nat, n: nat)
    requires div >= 2
    ensures After(div, n + div) == After(div, n)
  {
    ClosedForm(div, n);
    ClosedForm(div, n + div);
    var a := n + (div / 2 - 1);
    ModAddMultiple(a, 1, div);
    assert a + 1 * div == n + div + (div / 2 - 1);
  }

  lemma RisesFrom(div: nat, n: nat)
    requires div >= 2 && n >= 1
    ensures !After(div, n - 1).high && After(div, n).high <==>
            (n - 1 + (div / 2 - 1)) % div == div / 2 - 1
  {
    TruncationKeeps(div / 2 - 1, div);
    TruncationKeeps(div - 1, div);
    ClosedForm(div, n - 1);
  }

  /** The output rises exactly at edges 1, 1 + div, 1 + 2 div, ... */
  lemma RisesOncePerPeriod(div: nat, n: nat)
    requires div >= 2 && n >= 1
    ensures !After(div, n - 1).high && After(div, n).high <==> n % div == 1
  {
    RisesFrom(div, n);
    RiseResidue(div, n);
  }

  lemma RiseResidue(div: nat, n: nat)
    requires div >= 2 && n >= 1
    ensures (n - 1 + (div / 2 - 1)) % div == div / 2 - 1 <==> n % div == 1
  {
    var h, m := div / 2, n - 1;
    NextResidue(m, div);
    ModAdd(m, h - 1, div);
    var r := m % div;
    if r + (h - 1) >= div {
      DivModUnique(r + (h - 1), div, 1, r + (h - 1) - div);
    } else {
      DivModUnique(r + (h - 1), div, 0, r + (h - 1));
    }
  }

  // ---------- duty cycle ----------

  /** The high cycles among the `len` cycles that begin with edge `from`. */
  function HighCycles(div: nat, from: nat, len: nat): nat
    requires div >= 2
  {
    if len == 0 then 0
    else HighCycles(div, from, len - 1) + if After(div, from + len - 1).high then 1 else 0
  }

  lemma {:induction false} FirstPeriod(div: nat, len: nat)
    requires div >= 2 && len <= div
    ensures HighCycles(div, 1, len) == if len <= div - div / 2 then len else div - div / 2
  {
    if len > 0 {
      FirstPeriod(div, len - 1);
      ClosedForm(div, len);
      var h, a := div / 2, len + (div / 2 - 1);
      if a < div {
        DivModUnique(a, div, 0, a);
      } else {
        DivModUnique(a, div, 1, a - div);
      }
    }
  }

  lemma {:induction false} SlideWindow(div: nat, from: nat, len: nat)
    requires div >= 2 && len >= 1
    ensures HighCycles(div, from, len) ==
            HighCycles(div, from + 1, len - 1) + if After(div, from).high then 1 else 0
  {
    if len > 1 {
      SlideWindow(div, from, len - 1);
    }
  }

  /** Every window of `div` cycles is high for half of them, rounded up. */
  lemma {:induction false} DutyCycle(div: nat, from: nat)
    requires div >= 2
    ensures HighCycles(div, from, div) == (div + 1) / 2
  {
    if from == 0 {
      SlideWindow(div, 0, div);
      FirstPeriod(div, div - 1);
    } else {
      DutyCycle(div, from - 1);
      SlideWindow(div, from - 1, div);
      Periodic(div, from - 1);
    }
  }
}
