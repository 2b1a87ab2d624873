/** Bitwise operations on naturals, bit by bit. */
module Bits {
  import Division

  /** Bitwise exclusive or of the low `bits` bits. */
  function XorBits(a: nat, b: nat, bits: nat): (x: nat)
    decreases bits
  {
    if bits == 0 then 0 else (a + b) % 2 + 2 * XorBits(a / 2, b / 2, bits - 1)
  }

  function Pow2(n: nat): nat {
    if n == 0 then 1 else 2 * Pow2(n - 1)
  }

  lemma {:induction false} XorBitsFits(a: nat, b: nat, bits: nat)
    ensures XorBits(a, b, bits) < Pow2(bits)
    decreases bits
  {
    if bits > 0 {
      XorBitsFits(a / 2, b / 2, bits - 1);
    }
  }

  lemma LowBit(bit: nat, rest: nat)
    requires bit < 2
    ensures (bit + 2 * rest) / 2 == rest && (bit + 2 * rest) % 2 == bit
  {
  }

  lemma ParityTwice(a: nat, b: nat, rest: nat)
    ensures ((a + b) % 2 + 2 * rest + b) % 2 == a % 2
  {
  }

  lemma {:induction false} XorBitsTwice(a: nat, b: nat, bits: nat)
    requires a < Pow2(bits)
    ensures XorBits(XorBits(a, b, bits), b, bits) == a
    decreases bits
  {
    if bits > 0 {
      XorBitsTwice(a / 2, b / 2, bits - 1);
      LowBit((a + b) % 2, XorBits(a / 2, b / 2, bits - 1));
      ParityTwice(a, b, XorBits(a / 2, b / 2, bits - 1));
    }
  }

  lemma {:induction false} Pow2Positive(n: nat)
    ensures Pow2(n) >= 1
  {
    if n > 0 {
      Pow2Positive(n - 1);
    }
  }

  /** Bit `j`, counted from the lowest. */
  function Bit(x: nat, j: nat): nat {
    Pow2Positive(j);
    x / Pow2(j) % 2
  }

  lemma NextBit(x: nat, j: nat)
    ensures Bit(x, j + 1) == Bit(x / 2, j)
  {
    Pow2Positive(j);
    Division.DivideTwice(x, 2, Pow2(j));
  }

  /** Every bit of the exclusive or is that of one number or the other, but not of both. */
  lemma {:induction false} XorBitAt(a: nat, b: nat, bits: nat, j: nat)
    requires j < bits
    ensures Bit(XorBits(a, b, bits), j) == if Bit(a, j) == Bit(b, j) then 0 else 1
    decreases bits
  {
    var x, more := XorBits(a, b, bits), XorBits(a / 2, b / 2, bits - 1);
    LowBit((a + b) % 2, more);
    if j == 0 {
      assert Pow2(0) == 1;
    } else {
      NextBit(x, j - 1);
      NextBit(a, j - 1);
      NextBit(b, j - 1);
      XorBitAt(a / 2, b / 2, bits - 1, j - 1);
    }
  }

  lemma Pow2Of8()
    ensures Pow2(8) == 256
  {
    assert Pow2(4) == 16;
  }

  /** Bitwise or. */
  function Or(a: nat, b: nat): nat
    decreases a + b
  {
    if a == 0 && b == 0 then 0
    else (if a % 2 == 1 || b % 2 == 1 then 1 else 0) + 2 * Or(a / 2, b / 2)
  }

  lemma {:induction false} OrZero(a: nat)
    ensures Or(a, 0) == a
  {
    if a > 0 {
      OrZero(a / 2);
    }
  }

  /** Numbers that share no bit are combined by adding. */
  lemma {:induction false} OrAdds(q: nat, k: nat, b: nat)
    requires b < Pow2(k)
    ensures Or(q * Pow2(k), b) == q * Pow2(k) + b
  {
    if k == 0 {
      assert q * Pow2(0) == q;
      OrZero(q);
    } else {
      OrAdds(q, k - 1, b / 2);
      var half := q * Pow2(k - 1);
      DoubleProduct(q, Pow2(k - 1));
      assert q * Pow2(k) == 2 * half;
      assert (2 * half) / 2 == half && (2 * half) % 2 == 0;
    }
  }

  lemma DoubleProduct(q: nat, p: nat)
    ensures q * (2 * p) == 2 * (q * p)
  {
  }
}
