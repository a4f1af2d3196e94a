/** `ofCRC`: Adler-32 with the modulo put off to the end of each block. */
module Adler {
  import opened Octets

  const BASE: nat := 65521
  const NMAX: nat := 5552
  const WRAP: nat := 0x1_0000_0000

  /** An addition in a 32-bit unsigned register. */
  function Add32(a: nat, b: nat): nat {
    (a + b) % WRAP
  }

  // ----- the definition of section 8.2 of RFC 1950: both sums reduced at every byte

  function ModSums(a: nat, b: nat, data: seq<Byte>): (r: (nat, nat))
    ensures r.0 < BASE && r.1 < BASE
  {
    if data == [] then (a % BASE, b % BASE)
    else
      var (a', b') := ModSums(a, b, data[..|data| - 1]);
      var a'' := (a' + data[|data| - 1] as int) % BASE;
      (a'', (b' + a'') % BASE)
  }

  function Combine(a: nat, b: nat): nat {
    b * 0x1_0000 + a
  }

  function Adler32(adler: nat, data: seq<Byte>): nat {
    var (a, b) := ModSums(adler % 0x1_0000, adler / 0x1_0000, data);
    Combine(a, b)
  }

  // ----- the same sums without reduction

  function RawA(a: nat, data: seq<Byte>): nat {
    if data == [] then a else RawA(a, data[..|data| - 1]) + data[|data| - 1] as int
  }

  function RawB(a: nat, b: nat, data: seq<Byte>): nat {
    if data == [] then b else RawB(a, b, data[..|data| - 1]) + RawA(a, data)
  }

  lemma ModOfSum(x: nat, y: nat)
    ensures (x + y) % BASE == (x % BASE + y) % BASE
  {
    var q := x / BASE;
    assert x + y == (x % BASE + y) + BASE * q;
  }

  /** Reducing once at the end is the same as reducing at every byte. */
  lemma {:induction false} DeferredModulo(a: nat, b: nat, data: seq<Byte>)
    ensures ModSums(a, b, data) == (RawA(a, data) % BASE, RawB(a, b, data) % BASE)
  {
    if data != [] {
      var init, last := data[..|data| - 1], data[|data| - 1] as int;
      DeferredModulo(a, b, init);
      ModOfSum(RawA(a, init), last);
      ModOfSum(RawB(a, b, init), RawA(a, data));
      ModOfSum(RawA(a, data), RawB(a, b, init) % BASE);
    }
  }

  lemma {:induction false} ModSumsAppend(a: nat, b: nat, x: seq<Byte>, y: seq<Byte>)
    ensures var (a', b') := ModSums(a, b, x); ModSums(a, b, x + y) == ModSums(a', b', y)
    decreases |y|
  {
    var (a', b') := ModSums(a, b, x);
    if y == [] {
      assert x + y == x;
    } else {
      var init := y[..|y| - 1];
      assert (x + y)[..|x + y| - 1] == x + init;
      ModSumsAppend(a, b, x, init);
      SameStep(a, b, x + y, a', b', y);
    }
  }

  lemma SameStep(a: nat, b: nat, s: seq<Byte>, c: nat, d: nat, t: seq<Byte>)
    requires s != [] && t != [] && s[|s| - 1] == t[|t| - 1]
    requires ModSums(a, b, s[..|s| - 1]) == ModSums(c, d, t[..|t| - 1])
    ensures ModSums(a, b, s) == ModSums(c, d, t)
  {
  }

  /** A checksum can be continued over a second piece of the data. */
  lemma Adler32Append(adler: nat, x: seq<Byte>, y: seq<Byte>)
    ensures Adler32(Adler32(adler, x), y) == Adler32(adler, x + y)
  {
    ModSumsAppend(adler % 0x1_0000, adler / 0x1_0000, x, y);
    var (a, b) := ModSums(adler % 0x1_0000, adler / 0x1_0000, x);
    Halves(a, b);
  }

  // ----- the block length

  /** The largest second sum after `n` bytes, from sums that fit 16 bits. */
  function LargestSum(n: nat): nat {
    65535 * (n + 1) + 255 * (n * (n + 1) / 2)
  }

  lemma LargestSumStep(n: nat)
    ensures LargestSum(n + 1) == LargestSum(n) + 65535 + 255 * (n + 1)
  {
    assert (n + 1) * (n + 2) == n * (n + 1) + 2 * (n + 1);
  }

  lemma {:induction false} BlockFits(n: nat)
    requires n <= NMAX
    ensures LargestSum(n) < WRAP
    decreases NMAX - n
  {
    if n < NMAX {
      BlockFits(n + 1);
      LargestSumStep(n);
    }
  }

  /** NMAX is the largest block for which reduced sums cannot overflow. */
  lemma NmaxIsLargest(n: nat)
    ensures 255 * (n * (n + 1) / 2) + (n + 1) * (BASE - 1) < WRAP <==> n <= NMAX
  {
    if n <= NMAX {
      BlockFits(n);
    } else {
      assert n * (n + 1) >= 5553 * 5554;
    }
  }

  lemma {:induction false} SumsBound(a: nat, b: nat, data: seq<Byte>)
    requires a <= 65535 && b <= 65535
    ensures RawA(a, data) <= 65535 + 255 * |data|
    ensures RawB(a, b, data) <= LargestSum(|data|)
  {
    if data != [] {
      SumsBound(a, b, data[..|data| - 1]);
      LargestSumStep(|data| - 1);
    }
  }

  lemma NoOverflow(a: nat, b: nat, data: seq<Byte>)
    requires a <= 65535 && b <= 65535 && |data| <= NMAX
    ensures RawA(a, data) < WRAP && RawB(a, b, data) < WRAP
  {
    SumsBound(a, b, data);
    BlockFits(|data|);
  }

  // ----- the program

  /** One byte into both sums, in 32-bit arithmetic; `from` is where the sums were last reduced. */
  method Do1(adler: nat, sum2: nat, buf: array<Byte>, pos: nat, ghost from: nat, ghost a: nat, ghost b: nat)
    returns (adler': nat, sum2': nat)
    requires from <= pos < buf.Length && pos < from + NMAX
    requires a <= 65535 && b <= 65535
    requires adler == RawA(a, buf[from..pos]) && sum2 == RawB(a, b, buf[from..pos])
    ensures adler' == RawA(a, buf[from..pos + 1]) && sum2' == RawB(a, b, buf[from..pos + 1])
  {
    ghost var data := buf[from..pos + 1];
    assert data[..|data| - 1] == buf[from..pos];
    NoOverflow(a, b, data);
    adler' := Add32(adler, buf[pos] as int);
    sum2' := Add32(sum2, adler');
  }

  method Do16(adler: nat, sum2: nat, buf: array<Byte>, pos: nat, ghost from: nat, ghost a: nat, ghost b: nat)
    returns (adler': nat, sum2': nat)
    requires from <= pos && pos + 16 <= buf.Length && pos + 16 <= from + NMAX
    requires a <= 65535 && b <= 65535
    requires adler == RawA(a, buf[from..pos]) && sum2 == RawB(a, b, buf[from..pos])
    ensures adler' == RawA(a, buf[from..pos + 16]) && sum2' == RawB(a, b, buf[from..pos + 16])
  {
    adler', sum2' := adler, sum2;
    for i := 0 to 16
      invariant adler' == RawA(a, buf[from..pos + i]) && sum2' == RawB(a, b, buf[from..pos + i])
    {
      adler', sum2' := Do1(adler', sum2', buf, pos + i, from, a, b);
    }
  }

  /** A full block, with one modulo at its end. */
  method Block(adler: nat, sum2: nat, buf: array<Byte>, pos: nat) returns (adler': nat, sum2': nat)
    requires adler <= 65535 && sum2 <= 65535
    requires pos + NMAX <= buf.Length
    ensures (adler', sum2') == ModSums(adler, sum2, buf[pos..pos + NMAX])
  {
    adler', sum2' := adler, sum2;
    var n := NMAX / 16;
    var p := pos;
    while n > 0
      invariant 0 <= n <= NMAX / 16 && p == pos + (NMAX / 16 - n) * 16
      invariant adler' == RawA(adler, buf[pos..p]) && sum2' == RawB(adler, sum2, buf[pos..p])
    {
      adler', sum2' := Do16(adler', sum2', buf, p, pos, adler, sum2);
      p := p + 16;
      n := n - 1;
    }
    DeferredModulo(adler, sum2, buf[pos..p]);
    adler', sum2' := adler' % BASE, sum2' % BASE;
  }

  /** Byte by byte to the end, less than a block away. */
  method Bytes(adler: nat, sum2: nat, buf: array<Byte>, pos: nat, end: nat, ghost from: nat, ghost a: nat, ghost b: nat)
    returns (adler': nat, sum2': nat)
    requires from <= pos <= end <= buf.Length && end <= from + NMAX
    requires a <= 65535 && b <= 65535
    requires adler == RawA(a, buf[from..pos]) && sum2 == RawB(a, b, buf[from..pos])
    ensures adler' == RawA(a, buf[from..end]) && sum2' == RawB(a, b, buf[from..end])
  {
    adler', sum2' := adler, sum2;
    for p := pos to end
      invariant adler' == RawA(a, buf[from..p]) && sum2' == RawB(a, b, buf[from..p])
    {
      adler', sum2' := Do1(adler', sum2', buf, p, from, a, b);
    }
  }

  /** The rest after the last full block, by sixteens and then byte by byte, with one modulo. */
  method Remainder(adler: nat, sum2: nat, buf: array<Byte>, pos: nat, end: nat) returns (adler': nat, sum2': nat)
    requires (adler < BASE && sum2 < BASE) || pos < end
    requires adler <= 65535 && sum2 <= 65535
    requires pos <= end <= buf.Length && end - pos < NMAX
    ensures (adler', sum2') == ModSums(adler, sum2, buf[pos..end])
  {
    adler', sum2' := adler, sum2;
    var p := pos;
    if p < end {
      while end - p >= 16
        invariant pos <= p <= end
        invariant adler' == RawA(adler, buf[pos..p]) && sum2' == RawB(adler, sum2, buf[pos..p])
      {
        adler', sum2' := Do16(adler', sum2', buf, p, pos, adler, sum2);
        p := p + 16;
      }
      adler', sum2' := Bytes(adler', sum2', buf, p, end, pos, adler, sum2);
      DeferredModulo(adler, sum2, buf[pos..end]);
      adler', sum2' := adler' % BASE, sum2' % BASE;
    }
  }

  /** The second sum after one byte is below twice the base, so one subtraction reduces it. */
  predicate OneByteFits(adler0: nat, d: Byte) {
    adler0 / 0x1_0000 + (adler0 % 0x1_0000 + d as int) % BASE < 2 * BASE
  }

  /** What the path for a single byte returns. */
  function AfterOneByte(adler0: nat, d: Byte): nat {
    OneByteSums(adler0 % 0x1_0000, adler0 / 0x1_0000, d)
  }

  function OneByteSums(lo: nat, hi: nat, d: Byte): nat {
    var a := (lo + d as int) % BASE;
    Combine(a, Subtract(hi + a))
  }

  function Returned(adler0: nat, data: seq<Byte>): nat {
    if |data| == 1 then AfterOneByte(adler0, data[0]) else Adler32(adler0, data)
  }

  /**
   The checksum of `len` bytes continued from `adler0`. It is the defined one for every
   start and length, except that a single byte after sums too large to be reduced ones
   leaves the second sum unreduced when it passes twice the base.
   */
  method OfCrc(adler0: nat, buf: array?<Byte>, len: nat) returns (r: nat)
    requires adler0 < WRAP
    requires buf == null ==> len != 1
    requires buf != null ==> len <= buf.Length
    ensures buf == null ==> r == 1
    ensures buf != null ==> r == Returned(adler0, buf[..len]) < WRAP
    ensures buf != null ==>
      (r == Adler32(adler0, buf[..len]) <==> (len == 1 ==> OneByteFits(adler0, buf[0])))
  {
    HighHalf(adler0);
    var sum2 := adler0 / 0x1_0000 % 0x1_0000;
    var adler := adler0 % 0x1_0000;
    if len == 1 {
      r := OneByte(adler, sum2, buf);
      OneByteExact(adler0, buf[..len]);
      AfterOneByteBound(adler0, buf[0]);
      return;
    }
    if buf == null {
      return 1;
    }
    if len < 16 {
      adler, sum2 := Short(adler, sum2, buf, len);
    } else {
      adler, sum2 := Long(adler, sum2, buf, len);
    }
    AdlerIsReduced(adler0, buf[..len]);
    r := Combine(adler, sum2);
  }

  lemma HighHalf(adler0: nat)
    requires adler0 < WRAP
    ensures adler0 / 0x1_0000 % 0x1_0000 == adler0 / 0x1_0000
  {
  }

  /** One subtraction reduces a number below twice the base, and no larger one. */
  function Subtract(x: nat): nat {
    if x >= BASE then x - BASE else x
  }

  lemma SubtractReduces(x: nat)
    requires x < 3 * BASE
    ensures Subtract(x) == x % BASE <==> x < 2 * BASE
  {
  }

  method OneByte(adler0: nat, sum0: nat, buf: array<Byte>) returns (r: nat)
    requires adler0 <= 65535 && sum0 <= 65535 && buf.Length >= 1
    ensures r == OneByteSums(adler0, sum0, buf[0])
  {
    NoWrap(adler0, buf[0] as int);
    var adler, sum2 := Add32(adler0, buf[0] as int), sum0;
    SubtractReduces(adler);
    if adler >= BASE {
      adler := adler - BASE;
    }
    NoWrap(sum2, adler);
    sum2 := Add32(sum2, adler);
    if sum2 >= BASE {
      sum2 := sum2 - BASE;
    }
    r := Combine(adler, sum2);
  }

  /** The path for a single byte gives the defined checksum exactly when its sums fit. */
  lemma OneByteExact(adler0: nat, data: seq<Byte>)
    requires adler0 < WRAP && |data| == 1
    ensures AfterOneByte(adler0, data[0]) == Adler32(adler0, data) <==> OneByteFits(adler0, data[0])
  {
    var lo, hi := adler0 % 0x1_0000, adler0 / 0x1_0000;
    SumsOfOne(lo, hi, data);
    SubtractReduces(hi + (lo + data[0] as int) % BASE);
  }

  /** A single byte that does not fit. */
  lemma OneByteFails(adler0: nat, data: seq<Byte>)
    requires adler0 == 0xFFFF_FFE6 && data == [0]
    ensures Returned(adler0, data) != Adler32(adler0, data)
  {
    LargeSums(adler0, 65510, 65535);
    assert !OneByteFits(adler0, data[0]);
    OneByteExact(adler0, data);
  }

  lemma LargeSums(adler0: nat, lo: nat, hi: nat)
    requires adler0 == hi * 0x1_0000 + lo && lo < 0x1_0000
    ensures adler0 / 0x1_0000 == hi && adler0 % 0x1_0000 == lo
  {
  }

  lemma NoWrap(x: nat, y: nat)
    requires x + y < WRAP
    ensures Add32(x, y) == x + y
  {
  }

  lemma SumsOfOne(a: nat, b: nat, data: seq<Byte>)
    requires |data| == 1
    ensures var a' := (a + data[0] as int) % BASE; ModSums(a, b, data) == (a', (b + a') % BASE)
  {
    var a' := (a + data[0] as int) % BASE;
    assert data[..0] == [];
    ModOfSum(a, data[0] as int);
    ModOfSum(b, a');
  }

  method Short(adler0: nat, sum0: nat, buf: array<Byte>, len: nat) returns (adler: nat, sum2: nat)
    requires adler0 <= 65535 && sum0 <= 65535 && len < 16 && len <= buf.Length
    ensures (adler, sum2) == ModSums(adler0, sum0, buf[..len])
  {
    assert buf[0..len] == buf[..len];
    adler, sum2 := Bytes(adler0, sum0, buf, 0, len, 0, adler0, sum0);
    SumsBound(adler0, sum0, buf[..len]);
    SubtractReduces(adler);
    if adler >= BASE {
      adler := adler - BASE;
    }
    sum2 := sum2 % BASE;
    DeferredModulo(adler0, sum0, buf[..len]);
  }

  method Long(adler0: nat, sum0: nat, buf: array<Byte>, len: nat) returns (adler: nat, sum2: nat)
    requires adler0 <= 65535 && sum0 <= 65535 && 16 <= len <= buf.Length
    ensures (adler, sum2) == ModSums(adler0, sum0, buf[..len])
  {
    adler, sum2 := adler0, sum0;
    var pos := 0;
    while len - pos >= NMAX
      invariant 0 <= pos <= len
      invariant adler <= 65535 && sum2 <= 65535
      invariant if pos == 0 then adler == adler0 && sum2 == sum0
                else (adler, sum2) == ModSums(adler0, sum0, buf[..pos])
    {
      ghost var a, b := adler, sum2;
      adler, sum2 := Block(adler, sum2, buf, pos);
      Continue(adler0, sum0, a, b, buf[..pos], buf[pos..pos + NMAX]);
      assert buf[..pos] + buf[pos..pos + NMAX] == buf[..pos + NMAX];
      pos := pos + NMAX;
    }
    ghost var a, b := adler, sum2;
    adler, sum2 := Remainder(adler, sum2, buf, pos, len);
    Continue(adler0, sum0, a, b, buf[..pos], buf[pos..len]);
    assert buf[..pos] + buf[pos..len] == buf[..len];
  }

  lemma Continue(a0: nat, b0: nat, a: nat, b: nat, x: seq<Byte>, y: seq<Byte>)
    requires if x == [] then a == a0 && b == b0 else (a, b) == ModSums(a0, b0, x)
    ensures ModSums(a0, b0, x + y) == ModSums(a, b, y)
  {
    if x == [] {
      assert x + y == y;
    } else {
      ModSumsAppend(a0, b0, x, y);
    }
  }

  // ----- continuing a checksum

  /** Sums that agree modulo the base go on in the same way. */
  lemma {:induction false} SameResidues(a: nat, b: nat, c: nat, d: nat, data: seq<Byte>)
    requires a % BASE == c % BASE && b % BASE == d % BASE
    ensures ModSums(a, b, data) == ModSums(c, d, data)
  {
    if data != [] {
      SameResidues(a, b, c, d, data[..|data| - 1]);
    }
  }

  /** An unreduced sum is put right by whatever is summed next. */
  lemma AfterOneByteGoesOn(adler0: nat, x: seq<Byte>, y: seq<Byte>)
    requires adler0 < WRAP && |x| == 1
    ensures Adler32(AfterOneByte(adler0, x[0]), y) == Adler32(adler0, x + y)
  {
    var lo, hi := adler0 % 0x1_0000, adler0 / 0x1_0000;
    var a := (lo + x[0] as int) % BASE;
    var b := Subtract(hi + a);
    FromOneByte(lo, hi, x, y, a);
    Halves(a, b);
  }

  lemma FromOneByte(lo: nat, hi: nat, x: seq<Byte>, y: seq<Byte>, a: nat)
    requires |x| == 1 && a == (lo + x[0] as int) % BASE
    ensures ModSums(lo, hi, x + y) == ModSums(a, Subtract(hi + a), y)
  {
    SumsOfOne(lo, hi, x);
    ModSumsAppend(lo, hi, x, y);
    SubtractedResidue(hi + a);
    SameResidues(a, Subtract(hi + a), a, (hi + a) % BASE, y);
  }

  lemma SubtractedResidue(x: nat)
    ensures Subtract(x) % BASE == x % BASE % BASE
  {
  }

  lemma Halves(a: nat, b: nat)
    requires a < 0x1_0000
    ensures Combine(a, b) % 0x1_0000 == a && Combine(a, b) / 0x1_0000 == b
  {
  }

  /**
   Where continuing over two pieces gives what the whole gives: everywhere but around a
   single byte that does not fit.
   */
  predicate Continues(adler0: nat, x: seq<Byte>, y: seq<Byte>) {
    && (|x| == 0 && |y| == 1 ==> OneByteFits(adler0, y[0]))
    && (|x| == 1 && |y| == 0 ==> OneByteFits(adler0, x[0]))
    && (|x| == 1 && |y| == 1 ==> OneByteFits(AfterOneByte(adler0, x[0]), y[0]))
  }

  lemma ReducedFits(adler0: nat, d: Byte)
    requires adler0 / 0x1_0000 < BASE
    ensures OneByteFits(adler0, d)
  {
  }

  lemma AdlerIsReduced(adler0: nat, data: seq<Byte>)
    ensures Adler32(adler0, data) / 0x1_0000 < BASE && Adler32(adler0, data) < WRAP
  {
    var (a, b) := ModSums(adler0 % 0x1_0000, adler0 / 0x1_0000, data);
    Halves(a, b);
  }

  lemma AfterOneByteBound(adler0: nat, d: Byte)
    requires adler0 < WRAP
    ensures AfterOneByte(adler0, d) < WRAP
    ensures adler0 / 0x1_0000 < BASE ==> AfterOneByte(adler0, d) / 0x1_0000 < BASE
  {
    var a := (adler0 % 0x1_0000 + d as int) % BASE;
    Halves(a, Subtract(adler0 / 0x1_0000 + a));
  }

  lemma ContinuesExact(adler0: nat, x: seq<Byte>, y: seq<Byte>)
    requires adler0 < WRAP
    ensures Returned(Returned(adler0, x), y) == Returned(adler0, x + y) <==> Continues(adler0, x, y)
    ensures adler0 / 0x1_0000 < BASE ==> Continues(adler0, x, y)
  {
    var first := Returned(adler0, x);
    if |x| == 1 {
      AfterOneByteGoesOn(adler0, x, y);
      AfterOneByteBound(adler0, x[0]);
      OneByteExact(adler0, x);
      assert y == [] ==> x + y == x;
      if adler0 / 0x1_0000 < BASE {
        ReducedFits(adler0, x[0]);
      }
    } else {
      Adler32Append(adler0, x, y);
      AdlerIsReduced(adler0, x);
      assert x == [] ==> x + y == y;
    }
    if |y| == 1 {
      OneByteExact(first, y);
      OneByteExact(adler0, y);
      if first / 0x1_0000 < BASE {
        ReducedFits(first, y[0]);
      }
      if adler0 / 0x1_0000 < BASE {
        ReducedFits(adler0, y[0]);
      }
    }
  }

  /** `ofCRC(ofCRC(a, x), y)` beside `ofCRC(a, xy)`. */
  method InTwoPieces(adler0: nat, x: array<Byte>, y: array<Byte>, xy: array<Byte>) returns (pieces: nat, whole: nat)
    requires adler0 < WRAP && xy[..] == x[..] + y[..]
    ensures pieces == whole <==> Continues(adler0, x[..], y[..])
    ensures adler0 / 0x1_0000 < BASE ==> pieces == whole
  {
    pieces := OfCrc(adler0, x, x.Length);
    pieces := OfCrc(pieces, y, y.Length);
    whole := OfCrc(adler0, xy, xy.Length);
    assert x[..x.Length] == x[..] && y[..y.Length] == y[..] && xy[..xy.Length] == xy[..];
    ContinuesExact(adler0, x[..], y[..]);
  }

  // ----- the modulus: the largest prime below 2^16

  lemma NoDivisor2To64()
    ensures forall d :: 2 <= d < 64 ==> 65521 % d != 0
  {
  }

  lemma NoDivisor64To128()
    ensures forall d :: 64 <= d < 128 ==> 65521 % d != 0
  {
  }

  lemma NoDivisor128To192()
    ensures forall d :: 128 <= d < 192 ==> 65521 % d != 0
  {
  }

  lemma NoDivisor192To256()
    ensures forall d :: 192 <= d < 256 ==> 65521 % d != 0
  {
  }

  lemma NoSmallDivisor(d: nat)
    requires 2 <= d < 256
    ensures 65521 % d != 0
  {
    if d < 64 {
      NoDivisor2To64();
    } else if d < 128 {
      NoDivisor64To128();
    } else if d < 192 {
      NoDivisor128To192();
    } else {
      NoDivisor192To256();
    }
  }

  lemma OneFactorIsSmall(d: nat, e: nat)
    requires d * e == BASE
    ensures d < 256 || e < 256
  {
    if d >= 256 {
      assert (d - 256) * e >= 0;
    }
  }

  lemma QuotientDivides(d: nat, e: nat, n: nat)
    requires d > 0 && e > 0 && d * e == n
    ensures n % e == 0
  {
    if n % e != 0 {
      var r := d - n / e;
      assert n == e * (n / e) + n % e;
      assert e * r == n % e;
      NoMultipleBetween(e, r);
    }
  }

  lemma NoMultipleBetween(e: nat, r: int)
    ensures !(0 < e * r < e)
  {
    if r >= 1 {
      assert e * (r - 1) >= 0;
    } else {
      assert e * -r >= 0;
    }
  }

  lemma BaseIsPrime(d: nat)
    requires 1 < d < BASE
    ensures BASE % d != 0
  {
    if BASE % d == 0 {
      var e := BASE / d;
      assert d * e == BASE;
      OneFactorIsSmall(d, e);
      QuotientDivides(d, e, BASE);
      NoSmallDivisor(if d < 256 then d else e);
    }
  }

  /** No prime lies between the modulus and 2^16. */
  lemma BaseIsLargest(n: nat) returns (d: nat)
    requires BASE < n < 0x1_0000
    ensures 1 < d < n && n % d == 0
  {
    d := 2;
    if n % 2 != 0 {
      d := OddDivisor(n);
    }
  }

  lemma OddDivisor(n: nat) returns (d: nat)
    requires BASE < n < 0x1_0000 && n % 2 != 0
    ensures 1 < d < n && n % d == 0
  {
    assert n in {65523, 65525, 65527, 65529, 65531, 65533, 65535};
    if n == 65525 {
      d := 5;
    } else if n == 65527 {
      d := 7;
    } else if n == 65531 {
      d := 19;
    } else if n == 65533 {
      d := 13;
    } else {
      d := 3;
    }
  }

  lemma NextSums(s: seq<Byte>, k: nat, a: nat, b: nat, a': nat, b': nat)
    requires k < |s| && ModSums(1, 0, s[..k]) == (a, b)
    requires a' == a + s[k] as int < BASE && b' == b + a' < BASE
    ensures ModSums(1, 0, s[..k + 1]) == (a', b')
  {
    assert s[..k + 1][..k] == s[..k];
  }

  lemma FirstFourDigits(s: seq<Byte>)
    requires |s| >= 4 && s[0] == 49 && s[1] == 50 && s[2] == 51 && s[3] == 52
    ensures ModSums(1, 0, s[..4]) == (203, 504)
  {
    NextSums(s, 0, 1, 0, 50, 50);
    NextSums(s, 1, 50, 50, 100, 150);
    NextSums(s, 2, 100, 150, 151, 301);
    NextSums(s, 3, 151, 301, 203, 504);
  }

  /** The check value: the Adler-32 of the nine digits, started from 1. */
  lemma CheckValue(s: seq<Byte>)
    requires s == [49, 50, 51, 52, 53, 54, 55, 56, 57]
    ensures Adler32(1, s) == 0x091E_01DE
  {
    FirstFourDigits(s);
    NextSums(s, 4, 203, 504, 256, 760);
    NextSums(s, 5, 256, 760, 310, 1070);
    NextSums(s, 6, 310, 1070, 365, 1435);
    NextSums(s, 7, 365, 1435, 421, 1856);
    NextSums(s, 8, 421, 1856, 478, 2334);
    assert s[..9] == s;
  }
}
