/** Exclusive or on unsigned integers of any width, and the laws the checksums need. */
module BitXor {

  function Pow2(n: nat): (p: nat)
    ensures p > 0
  {
    if n == 0 then 1 else 2 * Pow2(n - 1)
  }

  function Xor(a: nat, b: nat): nat {
    if a == 0 && b == 0 then 0
    else 2 * Xor(a / 2, b / 2) + (if a % 2 == b % 2 then 0 else 1)
  }

  lemma XorBits(a: nat, b: nat)
    ensures Xor(a, b) / 2 == Xor(a / 2, b / 2)
    ensures Xor(a, b) % 2 == if a % 2 == b % 2 then 0 else 1
  {
  }

  /** Two numbers with the same low bit and the same other bits are the same. */
  lemma SameBits(x: nat, y: nat)
    requires x / 2 == y / 2 && x % 2 == y % 2
    ensures x == y
  {
  }

  lemma {:induction false} XorZero(a: nat)
    ensures Xor(a, 0) == a && Xor(0, a) == a
  {
    if a > 0 {
      XorZero(a / 2);
    }
  }

  lemma {:induction false} XorSelf(a: nat)
    ensures Xor(a, a) == 0
  {
    if a > 0 {
      XorSelf(a / 2);
    }
  }

  lemma {:induction false} XorComm(a: nat, b: nat)
    ensures Xor(a, b) == Xor(b, a)
    decreases a + b
  {
    if a != 0 || b != 0 {
      XorComm(a / 2, b / 2);
    }
  }

  lemma {:induction false} XorAssoc(a: nat, b: nat, c: nat)
    ensures Xor(Xor(a, b), c) == Xor(a, Xor(b, c))
    decreases a + b + c
  {
    if a != 0 || b != 0 || c != 0 {
      XorAssoc(a / 2, b / 2, c / 2);
      XorBits(a, b);
      XorBits(b, c);
      XorBits(Xor(a, b), c);
      XorBits(a, Xor(b, c));
      SameBits(Xor(Xor(a, b), c), Xor(a, Xor(b, c)));
    }
  }

  lemma XorTwice(a: nat, b: nat)
    ensures Xor(Xor(a, b), b) == a
    ensures Xor(b, Xor(a, b)) == a
  {
    XorAssoc(a, b, b);
    XorSelf(b);
    XorZero(a);
    XorComm(b, Xor(a, b));
  }

  lemma XorSwap(a: nat, b: nat, c: nat)
    ensures Xor(Xor(a, b), c) == Xor(Xor(a, c), b)
  {
    XorAssoc(a, b, c);
    XorComm(b, c);
    XorAssoc(a, c, b);
  }

  lemma XorCross(a: nat, b: nat, c: nat, d: nat)
    ensures Xor(Xor(a, b), Xor(c, d)) == Xor(Xor(a, c), Xor(b, d))
  {
    XorAssoc(Xor(a, b), c, d);
    XorSwap(a, b, c);
    XorAssoc(Xor(a, c), b, d);
  }

  // ----- the high and low parts of the operands do not mix

  function Shr(a: nat, n: nat): nat
    decreases n, a
  {
    if n == 0 then a else Shr(a / 2, n - 1)
  }

  function Low(a: nat, n: nat): nat
    decreases n, a
  {
    if n == 0 then 0 else 2 * Low(a / 2, n - 1) + a % 2
  }

  lemma LowBits(a: nat, n: nat)
    requires n > 0
    ensures Low(a, n) / 2 == Low(a / 2, n - 1) && Low(a, n) % 2 == a % 2
  {
  }

  lemma {:induction false} XorShr(a: nat, b: nat, n: nat)
    ensures Shr(Xor(a, b), n) == Xor(Shr(a, n), Shr(b, n))
    decreases n
  {
    if n > 0 {
      XorBits(a, b);
      XorShr(a / 2, b / 2, n - 1);
    }
  }

  lemma {:induction false} XorLow(a: nat, b: nat, n: nat)
    ensures Low(Xor(a, b), n) == Xor(Low(a, n), Low(b, n))
    decreases n
  {
    if n > 0 {
      XorBits(a, b);
      XorLow(a / 2, b / 2, n - 1);
      LowBits(a, n);
      LowBits(b, n);
      LowBits(Xor(a, b), n);
      XorBits(Low(a, n), Low(b, n));
      SameBits(Low(Xor(a, b), n), Xor(Low(a, n), Low(b, n)));
    }
  }

  lemma {:induction false} ShrIsZero(a: nat, n: nat)
    ensures Shr(a, n) == 0 <==> a < Pow2(n)
    decreases n
  {
    if n > 0 {
      ShrIsZero(a / 2, n - 1);
    }
  }

  lemma XorBound(a: nat, b: nat, n: nat)
    requires a < Pow2(n) && b < Pow2(n)
    ensures Xor(a, b) < Pow2(n)
  {
    XorShr(a, b, n);
    ShrIsZero(a, n);
    ShrIsZero(b, n);
    ShrIsZero(Xor(a, b), n);
  }

  lemma {:induction false} Parts(a: nat, n: nat)
    ensures a == Pow2(n) * Shr(a, n) + Low(a, n) && Low(a, n) < Pow2(n)
    decreases n
  {
    if n > 0 {
      Parts(a / 2, n - 1);
      PartsStep(a, Pow2(n - 1), Shr(a / 2, n - 1), Low(a / 2, n - 1));
    }
  }

  lemma PartsStep(a: nat, p: nat, h: nat, l: nat)
    requires a / 2 == p * h + l
    ensures a == 2 * p * h + (2 * l + a % 2)
  {
    assert 2 * p * h == 2 * (p * h);
  }

  lemma ByteParts(a: nat)
    ensures Shr(a, 8) == a / 256 && Low(a, 8) == a % 256
  {
    PowersOfTwo();
    Parts(a, 8);
    ByteQuotient(a, Shr(a, 8), Low(a, 8));
  }

  lemma ByteQuotient(a: nat, q: nat, r: nat)
    requires a == 256 * q + r && r < 256
    ensures a / 256 == q && a % 256 == r
  {
  }

  lemma {:induction false} ShrInTwo(a: nat, m: nat, n: nat)
    ensures Shr(a, m + n) == Shr(Shr(a, m), n)
    decreases m
  {
    if m > 0 {
      ShrInTwo(a / 2, m - 1, n);
    }
  }

  lemma XorBytes(a: nat, b: nat)
    ensures Xor(a, b) / 256 == Xor(a / 256, b / 256)
    ensures Xor(a, b) % 256 == Xor(a % 256, b % 256)
  {
    XorShr(a, b, 8);
    XorLow(a, b, 8);
    ByteParts(a);
    ByteParts(b);
    ByteParts(Xor(a, b));
  }

  /** Xor with a byte touches the lowest byte only. */
  lemma XorByte(a: nat, b: nat)
    requires b < 256
    ensures Xor(a, b) / 256 == a / 256
    ensures Xor(a, b) % 256 == Xor(a % 256, b)
    ensures Xor(a % 256, b) < 256
  {
    XorBytes(a, b);
    XorZero(a / 256);
  }

  lemma XorDisjoint(h: nat, b: nat)
    requires b < 256
    ensures Xor(256 * h, b) == 256 * h + b
    ensures Xor(b, 256 * h) == 256 * h + b
  {
    assert 256 * h / 256 == h && 256 * h % 256 == 0;
    XorByte(256 * h, b);
    XorZero(b);
    XorComm(b, 256 * h);
  }

  lemma PowersOfTwo()
    ensures Pow2(8) == 256 && Pow2(16) == 0x1_0000 && Pow2(31) == 0x8000_0000 && Pow2(32) == 0x1_0000_0000
  {
    assert Pow2(8) == 256;
    assert Pow2(16) == 256 * Pow2(8);
    assert Pow2(24) == 256 * Pow2(16);
    assert Pow2(31) == 128 * Pow2(24);
  }
}
