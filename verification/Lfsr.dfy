/** Division of polynomials over the field of two elements by a shift register. */
module Lfsr {
  // For any register whose contents form a group in which every element is its own inverse and whose
  // step is additive. The CRC is one instance; no bit vector occurs here.

  /**
   `step` multiplies by x modulo the generator; `mono(i)` is x^(width - 1 - i), so `mono(0)` is the
   top bit; `low` tells which contents have a clear top bit.
   */
  datatype Register<!T> = Register(
    width: nat, zero: T, plus: (T, T) -> T, step: T -> T, mono: nat -> T, low: T -> bool)
  {
    function Top(): T {
      mono(0)
    }

    /** x^0. */
    function One(): T
      requires width > 0
    {
      mono(width - 1)
    }

    function If(b: bool, x: T): T {
      if b then x else zero
    }

    /** Multiplication by x^n. */
    function Steps(x: T, n: nat): T
      decreases n
    {
      if n == 0 then x else Steps(step(x), n - 1)
    }

    /** Long division: the remainder when `bits` follow a number whose remainder is `r`. */
    function Divide(r: T, bits: seq<bool>): T
      requires width > 0
      decreases |bits|
    {
      if bits == [] then r else Divide(plus(step(r), If(bits[0], One())), bits[1..])
    }

    /** The short form: each bit is added at the top before the step. */
    function Enter(c: T, bits: seq<bool>): T
      decreases |bits|
    {
      if bits == [] then c else Enter(step(plus(c, If(bits[0], Top()))), bits[1..])
    }

    /** `bits` as register contents, the first at position `i` from the top. */
    function Word(i: nat, bits: seq<bool>): T
      decreases |bits|
    {
      if bits == [] then zero else plus(If(bits[0], mono(i)), Word(i + 1, bits[1..]))
    }
  }

  ghost predicate IsGroup<T(!new)>(g: Register<T>) {
    && (forall a, b, c :: g.plus(g.plus(a, b), c) == g.plus(a, g.plus(b, c)))
    && (forall a :: g.plus(a, g.zero) == a && g.plus(g.zero, a) == a)
    && (forall a :: g.plus(a, a) == g.zero)
  }

  ghost predicate IsLinear<T(!new)>(g: Register<T>) {
    && (forall a, b :: g.step(g.plus(a, b)) == g.plus(g.step(a), g.step(b)))
    && (forall a :: g.step(a) == g.zero ==> a == g.zero)
    && g.step(g.zero) == g.zero
  }

  ghost predicate HasMonomials<T(!new)>(g: Register<T>) {
    && g.width > 0
    && (forall i: nat {:trigger g.step(g.mono(i))} :: 0 < i < g.width ==> g.step(g.mono(i)) == g.mono(i - 1))
    && g.low(g.zero)
    && (forall a, b :: g.low(a) && g.low(b) ==> g.low(g.plus(a, b)))
    && (forall i: nat :: 0 < i < g.width ==> g.low(g.mono(i)))
    && !g.low(g.mono(0))
  }

  ghost predicate Lawful<T(!new)>(g: Register<T>) {
    IsGroup(g) && IsLinear(g) && HasMonomials(g)
  }

  // ---- steps

  lemma {:induction false} StepsAdditive<T(!new)>(g: Register<T>, a: T, b: T, n: nat)
    requires IsLinear(g)
    ensures g.Steps(g.plus(a, b), n) == g.plus(g.Steps(a, n), g.Steps(b, n))
    decreases n
  {
    if n > 0 {
      StepsAdditive(g, g.step(a), g.step(b), n - 1);
    }
  }

  lemma {:induction false} StepsZero<T(!new)>(g: Register<T>, n: nat)
    requires IsLinear(g)
    ensures g.Steps(g.zero, n) == g.zero
    decreases n
  {
    if n > 0 {
      StepsZero(g, n - 1);
    }
  }

  lemma {:induction false} StepLast<T(!new)>(g: Register<T>, a: T, n: nat)
    ensures g.Steps(a, n + 1) == g.step(g.Steps(a, n))
    decreases n
  {
    if n > 0 {
      StepLast(g, g.step(a), n - 1);
    }
  }

  lemma {:induction false} StepsCompose<T(!new)>(g: Register<T>, a: T, m: nat, n: nat)
    ensures g.Steps(g.Steps(a, m), n) == g.Steps(a, m + n)
    decreases m
  {
    if m > 0 {
      StepsCompose(g, g.step(a), m - 1, n);
    }
  }

  /** Equal sums with one term in common have the other in common. */
  lemma Cancel<T(!new)>(g: Register<T>, a: T, b: T, c: T)
    requires IsGroup(g) && g.plus(a, c) == g.plus(b, c)
    ensures a == b
  {
    calc {
      a;
      g.plus(a, g.plus(c, c));
      g.plus(g.plus(a, c), c);
      g.plus(g.plus(b, c), c);
      g.plus(b, g.plus(c, c));
      b;
    }
  }

  lemma CancelLeft<T(!new)>(g: Register<T>, c: T, a: T, b: T)
    requires IsGroup(g) && g.plus(c, a) == g.plus(c, b)
    ensures a == b
  {
    assert a == g.plus(g.plus(c, c), a) == g.plus(c, g.plus(c, a));
    assert b == g.plus(g.plus(c, c), b) == g.plus(c, g.plus(c, b));
  }

  lemma StepInjective<T(!new)>(g: Register<T>, a: T, b: T)
    requires Lawful(g) && g.step(a) == g.step(b)
    ensures a == b
  {
    assert g.step(g.plus(a, b)) == g.plus(g.step(a), g.step(b));
    assert g.plus(a, b) == g.zero == g.plus(b, b);
    Cancel(g, a, b, b);
  }

  lemma {:induction false} StepsInjective<T(!new)>(g: Register<T>, a: T, b: T, n: nat)
    requires Lawful(g) && g.Steps(a, n) == g.Steps(b, n)
    ensures a == b
    decreases n
  {
    if n > 0 {
      StepsInjective(g, g.step(a), g.step(b), n - 1);
      StepInjective(g, a, b);
    }
  }

  /** A monomial reaches the top after as many steps as it lies below it. */
  lemma {:induction false} MonomialRises<T(!new)>(g: Register<T>, i: nat)
    requires HasMonomials(g) && i < g.width
    ensures g.Steps(g.mono(i), i) == g.Top()
    decreases i
  {
    if i > 0 {
      assert g.step(g.mono(i)) == g.mono(i - 1);
      MonomialRises(g, i - 1);
    }
  }

  // ---- the short form computes long division

  lemma {:induction false} DivideAppend<T(!new)>(g: Register<T>, r: T, a: seq<bool>, b: seq<bool>)
    requires g.width > 0
    ensures g.Divide(r, a + b) == g.Divide(g.Divide(r, a), b)
    decreases |a|
  {
    if a == [] {
      assert a + b == b;
    } else {
      assert (a + b)[1..] == a[1..] + b;
      DivideAppend(g, g.plus(g.step(r), g.If(a[0], g.One())), a[1..], b);
    }
  }

  lemma {:induction false} DivideZeros<T(!new)>(g: Register<T>, r: T, zeros: seq<bool>)
    requires Lawful(g) && forall i :: 0 <= i < |zeros| ==> !zeros[i]
    ensures g.Divide(r, zeros) == g.Steps(r, |zeros|)
    decreases |zeros|
  {
    if zeros != [] {
      DivideZeros(g, g.step(r), zeros[1..]);
      assert g.plus(g.step(r), g.zero) == g.step(r);
    }
  }

  /** One step of long division, seen `width` steps later, is one step of the short form. */
  lemma DivideStepIsEnterStep<T(!new)>(g: Register<T>, r: T, b: bool)
    requires IsLinear(g) && HasMonomials(g)
    ensures g.Steps(g.plus(g.step(r), g.If(b, g.One())), g.width) == g.step(g.plus(g.Steps(r, g.width), g.If(b, g.Top())))
  {
    var w, s := g.width, g.Steps(r, g.width);
    StepsAdditive(g, g.step(r), g.If(b, g.One()), w);
    StepLast(g, r, w);
    OneComesAround(g, b);
    assert g.step(g.plus(s, g.If(b, g.Top()))) == g.plus(g.step(s), g.step(g.If(b, g.Top())));
  }

  lemma OneComesAround<T(!new)>(g: Register<T>, b: bool)
    requires IsLinear(g) && HasMonomials(g)
    ensures g.Steps(g.If(b, g.One()), g.width) == g.step(g.If(b, g.Top()))
  {
    if b {
      MonomialRises(g, g.width - 1);
      StepLast(g, g.One(), g.width - 1);
    } else {
      StepsZero(g, g.width);
    }
  }

  lemma {:induction false} EnterIsDivide<T(!new)>(g: Register<T>, r: T, bits: seq<bool>)
    requires IsLinear(g) && HasMonomials(g)
    ensures g.Enter(g.Steps(r, g.width), bits) == g.Steps(g.Divide(r, bits), g.width)
    decreases |bits|
  {
    if bits != [] {
      DivideStepIsEnterStep(g, r, bits[0]);
      EnterIsDivide(g, g.plus(g.step(r), g.If(bits[0], g.One())), bits[1..]);
    }
  }

  /** The short form gives the remainder of the bits followed by `width` zeros. */
  lemma ShortFormIsLongDivision<T(!new)>(g: Register<T>, bits: seq<bool>, zeros: seq<bool>)
    requires Lawful(g) && |zeros| == g.width && forall i :: 0 <= i < |zeros| ==> !zeros[i]
    ensures g.Enter(g.zero, bits) == g.Divide(g.zero, bits + zeros)
  {
    StepsZero(g, g.width);
    EnterIsDivide(g, g.zero, bits);
    DivideAppend(g, g.zero, bits, zeros);
    DivideZeros(g, g.Divide(g.zero, bits), zeros);
  }

  // ---- entering many bits at once

  lemma {:induction false} EnterAppend<T(!new)>(g: Register<T>, c: T, a: seq<bool>, b: seq<bool>)
    ensures g.Enter(c, a + b) == g.Enter(g.Enter(c, a), b)
    decreases |a|
  {
    if a == [] {
      assert a + b == b;
    } else {
      assert (a + b)[1..] == a[1..] + b;
      EnterAppend(g, g.step(g.plus(c, g.If(a[0], g.Top()))), a[1..], b);
    }
  }

  lemma TermRises<T(!new)>(g: Register<T>, i: nat, b: bool)
    requires IsLinear(g) && HasMonomials(g) && i + 1 < g.width
    ensures g.step(g.If(b, g.mono(i + 1))) == g.If(b, g.mono(i))
  {
  }

  lemma {:induction false} WordRises<T(!new)>(g: Register<T>, i: nat, bits: seq<bool>)
    requires IsLinear(g) && HasMonomials(g) && i + |bits| < g.width
    ensures g.step(g.Word(i + 1, bits)) == g.Word(i, bits)
    decreases |bits|
  {
    if bits != [] {
      TermRises(g, i, bits[0]);
      WordRises(g, i + 1, bits[1..]);
      StepOfSum(g, g.If(bits[0], g.mono(i + 1)), g.Word(i + 2, bits[1..]), g.If(bits[0], g.mono(i)), g.Word(i + 1, bits[1..]));
    }
  }

  lemma StepOfSum<T(!new)>(g: Register<T>, a: T, b: T, c: T, d: T)
    requires IsLinear(g) && g.step(a) == c && g.step(b) == d
    ensures g.step(g.plus(a, b)) == g.plus(c, d)
  {
  }

  lemma WordCons<T(!new)>(g: Register<T>, i: nat, b: bool, bits: seq<bool>)
    ensures g.Word(i, [b] + bits) == g.plus(g.If(b, g.mono(i)), g.Word(i + 1, bits))
  {
    assert ([b] + bits)[1..] == bits;
  }

  /** Up to `width` bits can be added all at once, before all the steps. */
  lemma AddBelow<T(!new)>(g: Register<T>, c: T, t: T, lower: T, d: T, raised: T)
    requires IsGroup(g) && IsLinear(g) && d == g.step(g.plus(c, t)) && raised == g.step(lower)
    ensures g.step(g.plus(c, g.plus(t, lower))) == g.plus(d, raised)
  {
    assert g.plus(c, g.plus(t, lower)) == g.plus(g.plus(c, t), lower);
  }

  lemma {:induction false} EnterIsSteps<T(!new)>(g: Register<T>, c: T, bits: seq<bool>)
    requires Lawful(g) && |bits| <= g.width
    ensures g.Enter(c, bits) == g.Steps(g.plus(c, g.Word(0, bits)), |bits|)
    decreases |bits|
  {
    if bits != [] {
      var v, t := bits[1..], g.If(bits[0], g.Top());
      var d := g.step(g.plus(c, t));
      WordRises(g, 0, v);
      AddBelow(g, c, t, g.Word(1, v), d, g.step(g.Word(1, v)));
      EnterIsSteps(g, d, v);
      EnterOneMore(g, c, bits, v, t, d);
    }
  }

  /** One step of the above, in which nothing but the definitions is used. */
  lemma EnterOneMore<T(!new)>(g: Register<T>, c: T, bits: seq<bool>, v: seq<bool>, t: T, d: T)
    requires bits != [] && v == bits[1..] && t == g.If(bits[0], g.Top()) && d == g.step(g.plus(c, t))
    requires g.step(g.plus(c, g.plus(t, g.Word(1, v)))) == g.plus(d, g.step(g.Word(1, v))) && g.step(g.Word(1, v)) == g.Word(0, v)
    requires g.Enter(d, v) == g.Steps(g.plus(d, g.Word(0, v)), |v|)
    ensures g.Enter(c, bits) == g.Steps(g.plus(c, g.Word(0, bits)), |bits|)
  {
  }

  // ---- error detection

  lemma {:induction false} EnterInjective<T(!new)>(g: Register<T>, c: T, d: T, bits: seq<bool>)
    requires Lawful(g) && g.Enter(c, bits) == g.Enter(d, bits)
    ensures c == d
    decreases |bits|
  {
    if bits != [] {
      var t := g.If(bits[0], g.Top());
      EnterInjective(g, g.step(g.plus(c, t)), g.step(g.plus(d, t)), bits[1..]);
      StepInjective(g, g.plus(c, t), g.plus(d, t));
      Cancel(g, c, d, t);
    }
  }

  lemma {:induction false} WordIsLow<T(!new)>(g: Register<T>, i: nat, bits: seq<bool>)
    requires Lawful(g) && 0 < i && i + |bits| <= g.width
    ensures g.low(g.Word(i, bits))
    decreases |bits|
  {
    if bits != [] {
      WordIsLow(g, i + 1, bits[1..]);
    }
  }

  /** Words whose top bits differ are different. */
  lemma WordsDiffer<T(!new)>(g: Register<T>, a: seq<bool>, b: seq<bool>)
    requires Lawful(g) && 0 < |a| == |b| <= g.width && a[0] && !b[0]
    ensures g.Word(0, a) != g.Word(0, b)
  {
    var x, y := g.Word(1, a[1..]), g.Word(1, b[1..]);
    WordIsLow(g, 1, a[1..]);
    WordIsLow(g, 1, b[1..]);
    if g.Word(0, a) == g.Word(0, b) {
      TopIsNotLow(g, x, y);
    }
  }

  lemma TopIsNotLow<T(!new)>(g: Register<T>, x: T, y: T)
    requires IsGroup(g) && HasMonomials(g) && g.low(x) && g.low(y)
    ensures g.plus(g.Top(), x) != g.plus(g.zero, y)
  {
    assert g.plus(g.plus(g.Top(), x), x) == g.plus(g.Top(), g.plus(x, x)) == g.Top();
    assert g.plus(g.zero, y) == y && g.low(g.plus(y, x));
  }

  /** Bursts of at most `width` bits always change the result. */
  lemma {:induction false} BurstChanges<T(!new)>(g: Register<T>, c: T, a: seq<bool>, b: seq<bool>)
    requires Lawful(g) && |a| == |b| <= g.width && a != b
    ensures g.Enter(c, a) != g.Enter(c, b)
    decreases |a|
  {
    if a[0] == b[0] {
      assert a == [a[0]] + a[1..] && b == [b[0]] + b[1..];
      BurstChanges(g, g.step(g.plus(c, g.If(a[0], g.Top()))), a[1..], b[1..]);
    } else {
      EnterIsSteps(g, c, a);
      EnterIsSteps(g, c, b);
      if a[0] { WordsDiffer(g, a, b); } else { WordsDiffer(g, b, a); }
      if g.Enter(c, a) == g.Enter(c, b) {
        StepsInjective(g, g.plus(c, g.Word(0, a)), g.plus(c, g.Word(0, b)), |a|);
        CancelLeft(g, c, g.Word(0, a), g.Word(0, b));
      }
    }
  }

  /**
   Two messages that differ, all within `width` consecutive bits, have different results, whatever
   comes before and after.
   */
  lemma BurstDetected<T(!new)>(g: Register<T>, c: T, before: seq<bool>, a: seq<bool>, b: seq<bool>, after: seq<bool>)
    requires Lawful(g) && |a| == |b| <= g.width && a != b
    ensures g.Enter(c, before + a + after) != g.Enter(c, before + b + after)
  {
    var s := g.Enter(c, before);
    EnterAppend(g, c, before + a, after);
    EnterAppend(g, c, before + b, after);
    EnterAppend(g, c, before, a);
    EnterAppend(g, c, before, b);
    BurstChanges(g, s, a, b);
    if g.Enter(g.Enter(s, a), after) == g.Enter(g.Enter(s, b), after) {
      EnterInjective(g, g.Enter(s, a), g.Enter(s, b), after);
    }
  }
}
