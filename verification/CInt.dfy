/** The C integer operators that differ from Dafny's. */
module CInt {

  /** C's `/`: the quotient is rounded toward zero. */
  function TruncDiv(a: int, b: int): (q: int)
    requires b > 0
    ensures a >= 0 ==> q == a / b
    ensures a < 0 ==> q == -(-a / b)
  {
    if a >= 0 then a / b else -(-a / b)
  }

  /** C's `%`: the remainder takes the sign of the dividend. */
  function TruncMod(a: int, b: int): (r: int)
    requires b > 0
    ensures a == b * TruncDiv(a, b) + r
    ensures -b < r < b
    ensures a >= 0 ==> r >= 0
    ensures a <= 0 ==> r <= 0
  {
    a - b * TruncDiv(a, b)
  }

  /** Whichever way the remainder is taken, it is zero for the same numbers. */
  lemma TruncModZero(a: int, b: int)
    requires b == 4 || b == 100 || b == 400
    ensures TruncMod(a, b) == 0 <==> a % b == 0
  {
    if a < 0 {
      NegatedRemainder(a, b, a / b, -a / b);
    }
  }

  lemma NegatedRemainder(a: int, b: int, q: int, p: int)
    requires b > 0 && q == a / b && p == -a / b
    ensures a % b == 0 <==> -a % b == 0
  {
    var r, t := a % b, -a % b;
    assert a == b * q + r && -a == b * p + t;
    SumOfRemainders(b, q + p, r, t);
  }

  lemma SumOfRemainders(b: int, n: int, r: int, t: int)
    requires b > 0 && 0 <= r < b && 0 <= t < b && b * n + r + t == 0
    ensures r == 0 <==> t == 0
  {
    if n <= -2 {
      AtMost(b, n);
      assert false;
    }
    assert n == -1 || b * n >= 0;
  }

  lemma AtMost(b: int, n: int)
    requires b > 0 && n <= -2
    ensures b * n <= -2 * b
  {
  }

  const INT32_MIN: int := -0x8000_0000
  const INT32_MAX: int := 0x7FFF_FFFF
  const INT64_MIN: int := -0x8000_0000_0000_0000
  const INT64_MAX: int := 0x7FFF_FFFF_FFFF_FFFF

  predicate InInt32(n: int) {
    INT32_MIN <= n <= INT32_MAX
  }

  predicate InInt64(n: int) {
    INT64_MIN <= n <= INT64_MAX
  }

  /** The conversion `(int)n`, which keeps the low 32 bits. */
  function Int32Cast(n: int): (r: int)
    ensures InInt32(r)
    ensures InInt32(n) <==> r == n
  {
    (n + 0x8000_0000) % 0x1_0000_0000 - 0x8000_0000
  }
}
