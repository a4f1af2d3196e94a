/**
 The checksum's shift register, bit by bit: what the table-driven engines have to compute.
 The polynomial is reflected, and the register is a number whose low bit leaves first.
 */
module CrcRegister {
  import opened Octets
  import opened BitXor

  /** The register shifts, and a one that falls out brings in the polynomial. */
  function Step(poly: nat, c: nat): nat {
    if c % 2 == 1 then Xor(c / 2, poly) else c / 2
  }

  function Steps(poly: nat, c: nat, n: nat): nat
    decreases n, c
  {
    if n == 0 then c else Steps(poly, Step(poly, c), n - 1)
  }

  /** One message bit enters the register. */
  function FeedBit(poly: nat, c: nat, bit: nat): nat {
    if c % 2 != bit then Xor(c / 2, poly) else c / 2
  }

  /** The low `n` bits of a byte enter the register, the lowest first. */
  function FeedBits(poly: nat, c: nat, byte: nat, n: nat): nat
    decreases n, byte
  {
    if n == 0 then c else FeedBits(poly, FeedBit(poly, c, byte % 2), byte / 2, n - 1)
  }

  /** A message enters the register bit by bit. */
  function BitSerial(poly: nat, c: nat, data: seq<Byte>): nat {
    if data == [] then c
    else FeedBits(poly, BitSerial(poly, c, data[..|data| - 1]), data[|data| - 1] as int, 8)
  }

  /** The register after eight steps with nothing entering. */
  function Eight(poly: nat, c: nat): nat {
    Steps(poly, c, 8)
  }

  // ----- linearity

  lemma StepLinear(poly: nat, a: nat, b: nat)
    ensures Step(poly, Xor(a, b)) == Xor(Step(poly, a), Step(poly, b))
  {
    XorBits(a, b);
    if a % 2 == 1 && b % 2 == 1 {
      XorCross(a / 2, poly, b / 2, poly);
      XorSelf(poly);
      XorZero(Xor(a / 2, b / 2));
    } else if a % 2 == 1 {
      XorSwap(a / 2, b / 2, poly);
    } else if b % 2 == 1 {
      XorAssoc(a / 2, b / 2, poly);
    }
  }

  lemma {:induction false} StepsLinear(poly: nat, a: nat, b: nat, n: nat)
    ensures Steps(poly, Xor(a, b), n) == Xor(Steps(poly, a, n), Steps(poly, b, n))
    decreases n
  {
    if n > 0 {
      StepLinear(poly, a, b);
      StepsLinear(poly, Step(poly, a), Step(poly, b), n - 1);
    }
  }

  lemma {:induction false} StepsOfShifted(poly: nat, h: nat, n: nat)
    ensures Steps(poly, Pow2(n) * h, n) == h
    decreases n
  {
    if n > 0 {
      assert Pow2(n) * h == 2 * (Pow2(n - 1) * h);
      StepsOfShifted(poly, h, n - 1);
    }
  }

  /** A register whose low byte is empty just shifts that byte out. */
  lemma EightOfHigh(poly: nat, h: nat)
    ensures Eight(poly, 256 * h) == h
  {
    PowersOfTwo();
    StepsOfShifted(poly, h, 8);
  }

  /** The rule behind the table: only the low byte needs looking up. */
  lemma EightByTable(poly: nat, c: nat)
    ensures Eight(poly, c) == Xor(Eight(poly, c % 256), c / 256)
  {
    XorDisjoint(c / 256, c % 256);
    StepsLinear(poly, c % 256, 256 * (c / 256), 8);
    EightOfHigh(poly, c / 256);
  }

  lemma {:induction false} FeedBitsAreSteps(poly: nat, c: nat, byte: nat, n: nat)
    requires byte < Pow2(n)
    ensures FeedBits(poly, c, byte, n) == Steps(poly, Xor(c, byte), n)
    decreases n
  {
    if n == 0 {
      XorZero(c);
    } else {
      var c1 := FeedBit(poly, c, byte % 2);
      FeedBitsAreSteps(poly, c1, byte / 2, n - 1);
      XorBits(c, byte);
      XorSwap(c / 2, byte / 2, poly);
      assert Step(poly, Xor(c, byte)) == Xor(c1, byte / 2);
    }
  }

  /** Feeding a byte is xoring it in and taking eight steps. */
  lemma FeedByte(poly: nat, c: nat, byte: nat)
    requires byte < 256
    ensures FeedBits(poly, c, byte, 8) == Eight(poly, Xor(c, byte))
  {
    PowersOfTwo();
    FeedBitsAreSteps(poly, c, byte, 8);
  }

  /** One table lookup and one shift feed a whole byte. */
  lemma FeedByTable(poly: nat, c: nat, byte: nat)
    requires byte < 256
    ensures Xor(c % 256, byte) < 256
    ensures FeedBits(poly, c, byte, 8) == Xor(Eight(poly, Xor(c % 256, byte)), c / 256)
  {
    FeedByte(poly, c, byte);
    XorByte(c, byte);
    EightByTable(poly, Xor(c, byte));
  }

  // ----- the register keeps its width

  lemma {:induction false} StepsBound(poly: nat, c: nat, n: nat, width: nat)
    requires poly < Pow2(width) && c < Pow2(width)
    ensures Steps(poly, c, n) < Pow2(width)
    decreases n
  {
    if n > 0 {
      XorBound(c / 2, poly, width);
      StepsBound(poly, Step(poly, c), n - 1, width);
    }
  }

  lemma {:induction false} BitSerialBound(poly: nat, c: nat, data: seq<Byte>, width: nat)
    requires poly < Pow2(width) && c < Pow2(width) && width >= 8
    ensures BitSerial(poly, c, data) < Pow2(width)
  {
    if data != [] {
      var before, last := BitSerial(poly, c, data[..|data| - 1]), data[|data| - 1] as int;
      BitSerialBound(poly, c, data[..|data| - 1], width);
      PowersGrow(8, width);
      XorBound(before, last, width);
      FeedByte(poly, before, last);
      StepsBound(poly, Xor(before, last), 8, width);
    }
  }

  lemma {:induction false} PowersGrow(m: nat, n: nat)
    requires m <= n
    ensures Pow2(m) <= Pow2(n)
    ensures Pow2(8) == 256
    decreases n - m
  {
    PowersOfTwo();
    if m < n {
      PowersGrow(m, n - 1);
    }
  }

  lemma {:induction false} BitSerialAppend(poly: nat, c: nat, a: seq<Byte>, b: seq<Byte>)
    ensures BitSerial(poly, c, a + b) == BitSerial(poly, BitSerial(poly, c, a), b)
    decreases |b|
  {
    if b == [] {
      assert a + b == a;
    } else {
      assert (a + b)[..|a + b| - 1] == a + b[..|b| - 1];
      BitSerialAppend(poly, c, a, b[..|b| - 1]);
    }
  }

  // ----- running backwards, for a 32-bit polynomial with its top bit set

  const WIDTH32: nat := 0x1_0000_0000
  const TOP_BIT: nat := 0x8000_0000

  predicate HasTopBit(poly: nat) {
    TOP_BIT <= poly < WIDTH32
  }

  function Back(poly: nat, c: nat): nat {
    if c >= TOP_BIT then 2 * Xor(c, poly) + 1 else 2 * c
  }

  lemma XorTopBit(a: nat, b: nat)
    requires a < WIDTH32 && HasTopBit(b)
    ensures Xor(a, b) < WIDTH32
    ensures a >= TOP_BIT <==> Xor(a, b) < TOP_BIT
  {
    PowersOfTwo();
    XorBound(a, b, 32);
    XorShr(a, b, 31);
    ShrIsZero(a, 31);
    ShrIsZero(Xor(a, b), 31);
    TopIsOne(a);
    TopIsOne(b);
    assert Xor(1, 1) == 0;
    XorZero(1);
  }

  lemma TopIsOne(a: nat)
    requires a < WIDTH32
    ensures Shr(a, 31) == if a >= TOP_BIT then 1 else 0
  {
    PowersOfTwo();
    ShrIsZero(a, 31);
    ShrInTwo(a, 31, 1);
    ShrIsZero(a, 32);
    assert Shr(Shr(a, 31), 1) == Shr(a, 31) / 2;
  }

  lemma BackThenStep(poly: nat, c: nat)
    requires HasTopBit(poly) && c < WIDTH32
    ensures Back(poly, c) < WIDTH32
    ensures Step(poly, Back(poly, c)) == c
  {
    XorTopBit(c, poly);
    XorTwice(c, poly);
  }

  lemma StepThenBack(poly: nat, c: nat)
    requires HasTopBit(poly) && c < WIDTH32
    ensures Step(poly, c) < WIDTH32
    ensures Back(poly, Step(poly, c)) == c
  {
    XorTopBit(c / 2, poly);
    XorTwice(c / 2, poly);
  }

  lemma {:induction false} StepsInjective(poly: nat, a: nat, b: nat, n: nat)
    requires HasTopBit(poly) && a < WIDTH32 && b < WIDTH32
    requires Steps(poly, a, n) == Steps(poly, b, n)
    ensures a == b
    decreases n
  {
    if n > 0 {
      StepThenBack(poly, a);
      StepThenBack(poly, b);
      StepsInjective(poly, Step(poly, a), Step(poly, b), n - 1);
    }
  }

  lemma {:induction false} StepsSurjective(poly: nat, c: nat, n: nat) returns (r: nat)
    requires HasTopBit(poly) && c < WIDTH32
    ensures r < WIDTH32 && Steps(poly, r, n) == c
    decreases n
  {
    if n == 0 {
      r := c;
    } else {
      var s := StepsSurjective(poly, c, n - 1);
      BackThenStep(poly, s);
      r := Back(poly, s);
    }
  }

  function TopByte(c: nat): nat {
    c / 256 / 256 / 256
  }

  lemma TopByteOfXor(a: nat, b: nat)
    ensures TopByte(Xor(a, b)) == Xor(TopByte(a), TopByte(b))
  {
    XorBytes(a, b);
    XorBytes(a / 256, b / 256);
    XorBytes(a / 256 / 256, b / 256 / 256);
  }

  /** Every top byte is the top byte of some table entry ... */
  lemma TopBytesCovered(poly: nat, c: nat) returns (t: nat)
    requires HasTopBit(poly) && c < WIDTH32
    ensures t < 256 && TopByte(Eight(poly, t)) == TopByte(c)
  {
    var r := StepsSurjective(poly, c, 8);
    t := r % 256;
    EightByTable(poly, r);
    TopByteOfXor(Eight(poly, t), r / 256);
    XorZero(TopByte(Eight(poly, t)));
  }

  /** ... and of one only: the top bytes of the table are a permutation of the bytes. */
  lemma TopBytesDistinct(poly: nat, a: nat, b: nat)
    requires HasTopBit(poly) && a < 256 && b < 256
    requires TopByte(Eight(poly, a)) == TopByte(Eight(poly, b))
    ensures a == b
  {
    var d, x := Xor(a, b), Xor(Eight(poly, a), Eight(poly, b));
    StepsLinear(poly, a, b, 8);
    TopByteOfXor(Eight(poly, a), Eight(poly, b));
    XorSelf(TopByte(Eight(poly, a)));
    EightOfHigh(poly, x);
    XorByte(a, b);
    StepsInjective(poly, d, 256 * x, 8);
    LowAndHigh(d, x);
    XorTwice(a, b);
    XorZero(b);
  }

  lemma LowAndHigh(d: nat, x: nat)
    requires d < 256 && d == 256 * x
    ensures d == 0
  {
  }
}
