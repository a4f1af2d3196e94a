/** Bitwise and, or on unsigned integers. */
module Bits {
  import opened BitXor

  function And(a: nat, b: nat): nat {
    if a == 0 || b == 0 then 0
    else 2 * And(a / 2, b / 2) + (if a % 2 == 1 && b % 2 == 1 then 1 else 0)
  }

  function Or(a: nat, b: nat): nat {
    if a == 0 && b == 0 then 0
    else 2 * Or(a / 2, b / 2) + (if a % 2 == 1 || b % 2 == 1 then 1 else 0)
  }

  lemma {:induction false} OrZero(a: nat)
    ensures Or(a, 0) == a && Or(0, a) == a
  {
    if a > 0 {
      OrZero(a / 2);
    }
  }

  lemma {:induction false} OrAtLeast(a: nat, b: nat)
    ensures Or(a, b) >= a && Or(a, b) >= b
    decreases a + b
  {
    if a != 0 || b != 0 {
      OrAtLeast(a / 2, b / 2);
    }
  }

  /** Numbers without a bit in common are added. */
  lemma {:induction false} OrHigh(a: nat, h: nat, n: nat)
    requires a < Pow2(n)
    ensures Or(a, Pow2(n) * h) == Pow2(n) * h + a
    ensures Or(Pow2(n) * h, a) == Pow2(n) * h + a
    decreases n
  {
    if n == 0 {
      OrZero(h);
    } else {
      var x := Pow2(n - 1) * h;
      assert Pow2(n) * h == 2 * x;
      OrHigh(a / 2, h, n - 1);
    }
  }

  lemma AndBits(a: nat, b: nat)
    ensures And(a, b) / 2 == And(a / 2, b / 2)
    ensures And(a, b) % 2 == if a % 2 == 1 && b % 2 == 1 then 1 else 0
  {
  }

  lemma OrBits(a: nat, b: nat)
    ensures Or(a, b) / 2 == Or(a / 2, b / 2)
    ensures Or(a, b) % 2 == if a % 2 == 1 || b % 2 == 1 then 1 else 0
  {
  }

  lemma {:induction false} OrShr(a: nat, b: nat, n: nat)
    ensures Shr(Or(a, b), n) == Or(Shr(a, n), Shr(b, n))
    decreases n
  {
    if n > 0 {
      OrBits(a, b);
      OrShr(a / 2, b / 2, n - 1);
    }
  }

  lemma {:induction false} OrLow(a: nat, b: nat, n: nat)
    ensures Low(Or(a, b), n) == Or(Low(a, n), Low(b, n))
    decreases n
  {
    if n > 0 {
      OrBits(a, b);
      OrLow(a / 2, b / 2, n - 1);
      LowBits(a, n);
      LowBits(b, n);
      LowBits(Or(a, b), n);
      OrBits(Low(a, n), Low(b, n));
      SameBits(Low(Or(a, b), n), Or(Low(a, n), Low(b, n)));
    }
  }

  lemma {:induction false} AndShr(a: nat, b: nat, n: nat)
    ensures Shr(And(a, b), n) == And(Shr(a, n), Shr(b, n))
    decreases n
  {
    if n > 0 {
      AndBits(a, b);
      AndShr(a / 2, b / 2, n - 1);
    }
  }

  lemma {:induction false} AndLow(a: nat, b: nat, n: nat)
    ensures Low(And(a, b), n) == And(Low(a, n), Low(b, n))
    decreases n
  {
    if n > 0 {
      AndBits(a, b);
      AndLow(a / 2, b / 2, n - 1);
      LowBits(a, n);
      LowBits(b, n);
      LowBits(And(a, b), n);
      AndBits(Low(a, n), Low(b, n));
      SameBits(Low(And(a, b), n), And(Low(a, n), Low(b, n)));
    }
  }

  /** A mask of ones keeps the low bits. */
  lemma {:induction false} AndOnes(a: nat, n: nat)
    ensures And(a, Pow2(n) - 1) == Low(a, n)
    decreases n
  {
    if n > 0 {
      AndOnes(a / 2, n - 1);
      var ones: nat := Pow2(n) - 1;
      assert ones / 2 == Pow2(n - 1) - 1 && ones % 2 == 1;
      AndBits(a, ones);
    }
  }

  lemma LowTen(a: nat)
    ensures And(a, 0x3FF) == a % 0x400
  {
    TenBits(a, 10);
  }

  lemma TenBits(a: nat, n: nat)
    requires n == 10
    ensures Pow2(n) == 0x400
    ensures And(a, 0x3FF) == a % 0x400
  {
    TwoToTheTenth(n);
    AndOnes(a, n);
    Parts(a, n);
    TenQuotient(a, Shr(a, n), Low(a, n));
  }

  lemma TwoToTheTenth(n: nat)
    requires n == 10
    ensures Pow2(n) == 0x400
  {
    assert Pow2(n) == 32 * Pow2(n - 5);
  }

  lemma TenQuotient(a: nat, q: nat, r: nat)
    requires a == 0x400 * q + r && r < 0x400
    ensures a % 0x400 == r
  {
  }
}
