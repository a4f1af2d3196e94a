/** Rounding a size up to a power of two by filling in the bits below its highest one. */
module PowerOfTwo {
  import opened BitXor
  import opened Bits

  function Min(a: nat, b: nat): nat {
    if a < b then a else b
  }

  function BitLength(y: nat): nat {
    if y == 0 then 0 else 1 + BitLength(y / 2)
  }

  /** The highest `w` of the `n` bits of `y` are ones. */
  predicate Filled(y: nat, n: nat, w: nat) {
    w <= n && Shr(y, n) == 0 && Shr(y, n - w) == Pow2(w) - 1
  }

  lemma {:induction false} HighestBit(y: nat, n: nat)
    requires n == BitLength(y)
    ensures Filled(y, n, Min(1, n))
    ensures n > 0 ==> Pow2(n - 1) <= y
    decreases y
  {
    if y > 0 {
      HighestBit(y / 2, n - 1);
    }
  }

  lemma {:induction false} ShrZero(n: nat)
    ensures Shr(0, n) == 0
  {
    if n > 0 {
      ShrZero(n - 1);
    }
  }

  lemma {:induction false} OnesShifted(w: nat, k: nat)
    requires k <= w
    ensures Shr(Pow2(w) - 1, k) == Pow2(w - k) - 1
    decreases k
  {
    if k > 0 {
      assert (Pow2(w) - 1) / 2 == Pow2(w - 1) - 1;
      OnesShifted(w - 1, k - 1);
    }
  }

  /** A run of ones covers the low bits. */
  lemma {:induction false} OrOnes(x: nat, ones: nat, u: nat)
    requires ones == Pow2(u) - 1
    ensures Or(x, ones) == Pow2(u) * Shr(x, u) + ones
    decreases u
  {
    if u == 0 {
      OrZero(x);
    } else {
      assert ones / 2 == Pow2(u - 1) - 1 && ones % 2 == 1;
      OrOnes(x / 2, ones / 2, u - 1);
      OrBits(x, ones);
      assert Pow2(u) * Shr(x, u) == 2 * (Pow2(u - 1) * Shr(x / 2, u - 1));
    }
  }

  lemma {:induction false} PowAdd(a: nat, b: nat)
    ensures Pow2(a + b) == Pow2(a) * Pow2(b)
    decreases a
  {
    if a > 0 {
      PowAdd(a - 1, b);
      assert Pow2(a) * Pow2(b) == 2 * (Pow2(a - 1) * Pow2(b));
    }
  }

  lemma OrStaysLow(y: nat, w: nat, n: nat)
    requires Shr(y, n) == 0
    ensures Shr(Or(y, Shr(y, w)), n) == 0
  {
    OrShr(y, Shr(y, w), n);
    ShrInTwo(y, w, n);
    ShrInTwo(y, n, w);
    assert Shr(y, w + n) == Shr(y, n + w);
    ShrZero(w);
    OrZero(0);
  }

  lemma RunsJoined(x: nat, u: nat, w: nat)
    requires Shr(x, u) == Pow2(w) - 1
    ensures Or(x, Pow2(u) - 1) == Pow2(u + w) - 1
  {
    OrOnes(x, Pow2(u) - 1, u);
    PowAdd(u, w);
    OnesBelow(Pow2(u), Pow2(w));
  }

  lemma OnesBelow(a: nat, b: nat)
    ensures a * (b - 1) + (a - 1) == a * b - 1
  {
  }

  lemma RunDoubles(y: nat, m: nat, u: nat, w: nat)
    requires u <= w && Shr(y, m + u) == Pow2(w) - 1
    ensures Shr(Or(y, Shr(y, w)), m) == Pow2(u + w) - 1
  {
    OrShr(y, Shr(y, w), m);
    ShrInTwo(y, m, u);
    ShrInTwo(y, w, m);
    ShrInTwo(y, m + u, w - u);
    assert w + m == (m + u) + (w - u);
    OnesShifted(w, w - u);
    RunsJoined(Shr(y, m), u, w);
  }

  lemma FillsMore(y: nat, n: nat, w: nat, t: nat)
    requires Shr(y, n) == 0 && w <= t <= n && t <= 2 * w && Shr(y, n - w) == Pow2(w) - 1
    ensures Filled(Or(y, Shr(y, w)), n, t)
  {
    var m, u := n - t, t - w;
    assert m + u == n - w && u + w == t;
    OrStaysLow(y, w, n);
    RunDoubles(y, m, u, w);
  }

  lemma NothingToFill(y: nat, n: nat, w: nat)
    requires Shr(y, n) == 0 && w >= n
    ensures Or(y, Shr(y, w)) == y
  {
    ShrInTwo(y, n, w - n);
    ShrZero(w - n);
    OrZero(y);
  }

  /** Joining a number with itself shifted doubles the run of ones at its top. */
  lemma FillsTwice(y: nat, n: nat, w: nat)
    requires Filled(y, n, Min(w, n))
    ensures Filled(Or(y, Shr(y, w)), n, Min(2 * w, n))
  {
    if w >= n {
      NothingToFill(y, n, w);
    } else {
      FillsMore(y, n, w, Min(2 * w, n));
    }
  }

  lemma AllFilled(y: nat, n: nat)
    requires Filled(y, n, n)
    ensures y == Pow2(n) - 1
  {
  }

  lemma {:induction false} PowGrows(a: nat, b: nat)
    requires a <= b
    ensures Pow2(a) <= Pow2(b)
  {
    if a < b {
      PowGrows(a, b - 1);
    }
  }

  /** The least power of two that is not below a size, for sizes of up to 32 bits; never below the size. */
  method Pow2gt(size: nat) returns (r: nat, ghost n: nat)
    requires size >= 1
    ensures r >= size
    ensures size <= Pow2(32) ==> r == Pow2(n) && (n > 0 ==> Pow2(n - 1) < size)
  {
    var x := size - 1;
    n := BitLength(x);
    HighestBit(x, n);
    x := Smear(x, 1, n);
    x := Smear(x, 2, n);
    x := Smear(x, 4, n);
    x := Smear(x, 8, n);
    x := Smear(x, 16, n);
    r := x + 1;
    if size <= Pow2(32) {
      if n > 32 {
        PowGrows(32, n - 1);
      }
      assert Min(32, n) == n;
      AllFilled(x, n);
    }
  }

  method Smear(x: nat, w: nat, ghost n: nat) returns (y: nat)
    requires Filled(x, n, Min(w, n))
    ensures y >= x && Filled(y, n, Min(2 * w, n))
  {
    FillsTwice(x, n, w);
    OrAtLeast(x, Shr(x, w));
    y := Or(x, Shr(x, w));
  }
}
