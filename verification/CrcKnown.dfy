/**
 The polynomials and start registers of the two CRCs, held against what their standards say, and
 a header as a peer writes it. The known values are worked out on bit vectors.
 */
module CrcKnown {
  import opened Octets
  import opened BitXor
  import opened CrcRegister
  import opened Crc
  import opened PacketClient

  // ----- the polynomials, by their exponents

  /** The bit of a reflected polynomial that stands for an exponent. */
  function Term(exponent: nat, width: nat): nat
    requires exponent < width
  {
    Pow2(width - 1 - exponent)
  }

  lemma HighPowers()
    ensures Pow2(15) == 0x8000 && Pow2(19) == 0x8_0000 && Pow2(20) == 0x10_0000 && Pow2(21) == 0x20_0000
    ensures Pow2(23) == 0x80_0000 && Pow2(24) == 0x100_0000 && Pow2(26) == 0x400_0000 && Pow2(27) == 0x800_0000
    ensures Pow2(29) == 0x2000_0000 && Pow2(30) == 0x4000_0000 && Pow2(31) == 0x8000_0000
  {
    assert Pow2(8) == 0x100;
    assert Pow2(22) == 0x40_0000;
    assert Pow2(28) == 0x1000_0000;
  }

  /** Section 8 of RFC 1952: the exponents are 32, and those of these terms. */
  lemma Poly32Exponents()
    ensures POLY32 == Term(26, 32) + Term(23, 32) + Term(22, 32) + Term(16, 32) + Term(12, 32) + Term(11, 32)
                      + Term(10, 32) + Term(8, 32) + Term(7, 32) + Term(5, 32) + Term(4, 32) + Term(2, 32)
                      + Term(1, 32) + Term(0, 32)
  {
    HighPowers();
    assert Pow2(5) == 0x20 && Pow2(8) == 0x100 && Pow2(9) == 0x200;
  }

  /** Section 6.2.2 of the MODBUS over Serial Line guide: the exponents are 16, 15, 2 and 0. */
  lemma Poly16Exponents()
    ensures POLY16 == Term(15, 16) + Term(2, 16) + Term(0, 16)
  {
    HighPowers();
    assert Pow2(13) == 0x2000;
  }

  // ----- numbers as bit vectors

  function Half(x: bv32): bv32 {
    x >> 1
  }

  predicate Odd(x: bv32) {
    x & 1 == 1
  }

  /** The number that a bit vector stands for. */
  function Number(x: bv32): nat
    decreases x
  {
    if x == 0 then 0 else 2 * Number(Half(x)) + (if Odd(x) then 1 else 0)
  }

  lemma NumberStep(x: bv32)
    ensures Number(x) == 2 * Number(Half(x)) + (if Odd(x) then 1 else 0)
    ensures Number(x) / 2 == Number(Half(x)) && Number(x) % 2 == (if Odd(x) then 1 else 0)
  {
  }

  lemma XorHalves(x: bv32, y: bv32)
    ensures Half(x ^ y) == Half(x) ^ Half(y) && Odd(x ^ y) == (Odd(x) != Odd(y))
  {
  }

  lemma {:induction false} NumberFalls(x: bv32)
    ensures x != 0 ==> Number(Half(x)) < Number(x)
    decreases x
  {
    if x != 0 && Half(x) != 0 {
      NumberFalls(Half(x));
    }
  }

  lemma XorJoin(a: nat, p: bool, b: nat, q: bool)
    ensures Xor(2 * a + (if p then 1 else 0), 2 * b + (if q then 1 else 0))
      == 2 * Xor(a, b) + (if p == q then 0 else 1)
  {
    var x, y := 2 * a + (if p then 1 else 0), 2 * b + (if q then 1 else 0);
    assert x / 2 == a && y / 2 == b;
    assert x % 2 == (if p then 1 else 0) && y % 2 == (if q then 1 else 0);
  }

  lemma NumberParts(x: bv32) returns (h: bv32, o: bool)
    ensures h == Half(x) && o == Odd(x) && Number(x) == Joined(h, o)
    ensures Number(x) / 2 == Number(h) && Number(x) % 2 == (if o then 1 else 0)
    ensures x != 0 ==> Number(h) < Number(x)
  {
    h, o := Half(x), Odd(x);
    NumberFalls(x);
    NumberStep(x);
  }

  lemma NumberFrom(z: bv32, h: bv32, o: bool)
    requires h == Half(z) && o == Odd(z)
    ensures Number(z) == Joined(h, o)
  {
    NumberStep(z);
  }

  /** Two bit vectors taken apart, with their exclusive or. */
  lemma XorParts(x: bv32, y: bv32) returns (zero: bool, hx: bv32, ox: bool, hy: bv32, oy: bool)
    ensures zero ==> Number(x) == Number(y) == Number(x ^ y) == 0
    ensures !zero ==> Number(hx) + Number(hy) < Number(x) + Number(y)
    ensures Number(x) == Joined(hx, ox) && Number(y) == Joined(hy, oy)
    ensures Number(x ^ y) == Joined(hx ^ hy, ox != oy)
  {
    zero := x == 0 && y == 0;
    hx, ox := NumberParts(x);
    hy, oy := NumberParts(y);
    XorHalves(x, y);
    NumberFrom(x ^ y, hx ^ hy, ox != oy);
  }

  function Joined(h: bv32, o: bool): nat {
    2 * Number(h) + (if o then 1 else 0)
  }

  lemma XorOfParts(x: nat, y: nat, z: nat, hx: nat, ox: bool, hy: nat, oy: bool, hz: nat)
    requires x == 2 * hx + (if ox then 1 else 0) && y == 2 * hy + (if oy then 1 else 0)
    requires z == 2 * hz + (if ox != oy then 1 else 0) && hz == Xor(hx, hy)
    ensures z == Xor(x, y)
  {
    XorJoin(hx, ox, hy, oy);
  }

  lemma {:induction false} NumberOfXor(x: bv32, y: bv32)
    ensures Number(x ^ y) == Xor(Number(x), Number(y))
    decreases Number(x) + Number(y)
  {
    var zero, hx, ox, hy, oy := XorParts(x, y);
    if !zero {
      NumberOfXor(hx, hy);
      XorOfParts(Number(x), Number(y), Number(x ^ y), Number(hx), ox, Number(hy), oy, Number(hx ^ hy));
    }
  }

  // ----- the register as a bit vector

  function Shifted(poly: bv32, c: bv32, bit: bool): bv32 {
    if Odd(c) != bit then Half(c) ^ poly else Half(c)
  }

  lemma ShiftedFeeds(poly: bv32, c: bv32, bit: bool)
    ensures FeedBit(Number(poly), Number(c), if bit then 1 else 0) == Number(Shifted(poly, c, bit))
  {
    var h, o := NumberParts(c);
    var d := ShiftedParts(poly, c, bit, h, o);
    FeedParts(Number(poly), Number(c), Number(h), o, bit);
    if o != bit {
      NumberOfXor(h, poly);
    }
  }

  lemma ShiftedParts(poly: bv32, c: bv32, bit: bool, h: bv32, o: bool) returns (d: bv32)
    requires h == Half(c) && o == Odd(c)
    ensures d == Shifted(poly, c, bit) && d == if o != bit then h ^ poly else h
  {
    d := Shifted(poly, c, bit);
  }

  lemma FeedParts(poly: nat, c: nat, h: nat, o: bool, bit: bool)
    requires c / 2 == h && c % 2 == if o then 1 else 0
    ensures FeedBit(poly, c, if bit then 1 else 0) == if o != bit then Xor(h, poly) else h
  {
  }

  function ShiftedBy(poly: bv32, c: bv32, byte: bv32, n: nat): bv32
    decreases n, c
  {
    if n == 0 then c else ShiftedBy(poly, Shifted(poly, c, Odd(byte)), Half(byte), n - 1)
  }

  lemma {:induction false} ShiftedByFeeds(poly: bv32, c: bv32, byte: bv32, n: nat)
    ensures FeedBits(Number(poly), Number(c), Number(byte), n) == Number(ShiftedBy(poly, c, byte, n))
    decreases n
  {
    if n > 0 {
      NumberStep(byte);
      ShiftedFeeds(poly, c, Odd(byte));
      ShiftedByFeeds(poly, Shifted(poly, c, Odd(byte)), Half(byte), n - 1);
    }
  }

  // ----- a message byte by byte

  function EightShifts(poly: bv32, c: bv32, b: bv32): bv32 {
    var c1, b1 := Shifted(poly, c, Odd(b)), Half(b);
    var c2, b2 := Shifted(poly, c1, Odd(b1)), Half(b1);
    var c3, b3 := Shifted(poly, c2, Odd(b2)), Half(b2);
    var c4, b4 := Shifted(poly, c3, Odd(b3)), Half(b3);
    var c5, b5 := Shifted(poly, c4, Odd(b4)), Half(b4);
    var c6, b6 := Shifted(poly, c5, Odd(b5)), Half(b5);
    var c7, b7 := Shifted(poly, c6, Odd(b6)), Half(b6);
    Shifted(poly, c7, Odd(b7))
  }

  lemma TwoShifts(poly: bv32, c: bv32, b: bv32, n: nat, d: bv32, e: bv32)
    requires d == Shifted(poly, Shifted(poly, c, Odd(b)), Odd(Half(b))) && e == Half(Half(b))
    ensures ShiftedBy(poly, c, b, n + 2) == ShiftedBy(poly, d, e, n)
  {
  }

  lemma EightShiftsFeed(poly: bv32, c: bv32, b: bv32)
    ensures EightShifts(poly, c, b) == ShiftedBy(poly, c, b, 8)
  {
    var b2, b4, b6 := Half(Half(b)), Half(Half(Half(Half(b)))), Half(Half(Half(Half(Half(Half(b))))));
    var c2 := Shifted(poly, Shifted(poly, c, Odd(b)), Odd(Half(b)));
    var c4 := Shifted(poly, Shifted(poly, c2, Odd(b2)), Odd(Half(b2)));
    var c6 := Shifted(poly, Shifted(poly, c4, Odd(b4)), Odd(Half(b4)));
    TwoShifts(poly, c, b, 6, c2, b2);
    TwoShifts(poly, c2, b2, 4, c4, b4);
    TwoShifts(poly, c4, b4, 2, c6, b6);
    TwoShifts(poly, c6, b6, 0, Shifted(poly, Shifted(poly, c6, Odd(b6)), Odd(Half(b6))), Half(Half(b6)));
  }

  /** The register after the first `k` bytes of a message. */
  function Register(poly: bv32, start: bv32, m: seq<bv32>, k: nat): bv32
    requires k <= |m|
    decreases k, m
  {
    if k == 0 then start else EightShifts(poly, Register(poly, start, m, k - 1), m[k - 1])
  }

  lemma RegisterStep(poly: bv32, start: bv32, m: seq<bv32>, k: nat, c: bv32, d: bv32)
    requires k < |m| && Register(poly, start, m, k) == c && EightShifts(poly, c, m[k]) == d
    ensures Register(poly, start, m, k + 1) == d
  {
  }

  lemma FourOf(m: seq<bv32>, k: nat, b0: bv32, b1: bv32, b2: bv32, b3: bv32)
    requires k + 4 <= |m| && m[k..k + 4] == [b0, b1, b2, b3]
    ensures m[k] == b0 && m[k + 1] == b1 && m[k + 2] == b2 && m[k + 3] == b3
  {
    var four := m[k..k + 4];
    assert m[k] == four[0] && m[k + 1] == four[1] && m[k + 2] == four[2] && m[k + 3] == four[3];
  }

  lemma FourBytes(poly: bv32, start: bv32, m: seq<bv32>, k: nat, b0: bv32, b1: bv32, b2: bv32, b3: bv32,
                  c0: bv32, c1: bv32, c2: bv32, c3: bv32, c4: bv32)
    requires k + 4 <= |m| && m[k..k + 4] == [b0, b1, b2, b3] && Register(poly, start, m, k) == c0
    requires EightShifts(poly, c0, b0) == c1 && EightShifts(poly, c1, b1) == c2
    requires EightShifts(poly, c2, b2) == c3 && EightShifts(poly, c3, b3) == c4
    ensures Register(poly, start, m, k + 4) == c4
  {
    FourOf(m, k, b0, b1, b2, b3);
    RegisterStep(poly, start, m, k, c0, c1);
    RegisterStep(poly, start, m, k + 1, c1, c2);
    RegisterStep(poly, start, m, k + 2, c2, c3);
    RegisterStep(poly, start, m, k + 3, c3, c4);
  }

  lemma {:induction false} RegisterFeeds(poly: bv32, start: bv32, m: seq<bv32>, s: seq<Byte>, k: nat)
    requires k <= |m| == |s| && forall i :: 0 <= i < |s| ==> Number(m[i]) == s[i] as int
    ensures BitSerial(Number(poly), Number(start), s[..k]) == Number(Register(poly, start, m, k))
  {
    if k > 0 {
      RegisterFeeds(poly, start, m, s, k - 1);
      NextByte(poly, start, m, s, k - 1);
    }
  }

  lemma NextByte(poly: bv32, start: bv32, m: seq<bv32>, s: seq<Byte>, k: nat)
    requires k < |m| == |s| && Number(m[k]) == s[k] as int
    requires BitSerial(Number(poly), Number(start), s[..k]) == Number(Register(poly, start, m, k))
    ensures BitSerial(Number(poly), Number(start), s[..k + 1]) == Number(Register(poly, start, m, k + 1))
  {
    var c := Register(poly, start, m, k);
    OneByteFeeds(poly, c, m[k], s[k]);
    RegisterStep(poly, start, m, k, c, EightShifts(poly, c, m[k]));
    LastByte(Number(poly), Number(start), s, k);
  }

  lemma LastByte(poly: nat, start: nat, s: seq<Byte>, k: nat)
    requires k < |s|
    ensures BitSerial(poly, start, s[..k + 1]) == FeedBits(poly, BitSerial(poly, start, s[..k]), s[k] as int, 8)
  {
    assert s[..k + 1][..k] == s[..k];
  }

  lemma OneByteFeeds(poly: bv32, c: bv32, b: bv32, byte: Byte)
    requires Number(b) == byte as int
    ensures FeedBits(Number(poly), Number(c), byte as int, 8) == Number(EightShifts(poly, c, b))
  {
    EightShiftsFeed(poly, c, b);
    ShiftedByFeeds(poly, c, b, 8);
  }

  lemma SmallNumbers()
    ensures Number(0) == 0 && Number(1) == 1
    ensures Number(0x31) == 0x31 && Number(0x32) == 0x32 && Number(0x33) == 0x33 && Number(0x34) == 0x34
    ensures Number(0x35) == 0x35 && Number(0x36) == 0x36 && Number(0x37) == 0x37 && Number(0x38) == 0x38
    ensures Number(0x39) == 0x39
  {
  }

  lemma PolyNumber()
    ensures Number(0xEDB8_8320) == 0xEDB8_8320
  {
    assert Number(0xE) == 0xE && Number(0xED) == 0xED && Number(0xEDB) == 0xEDB;
    assert Number(0xEDB8) == 0xEDB8 && Number(0xEDB88) == 0xEDB88 && Number(0xEDB883) == 0xEDB883;
    assert Number(0xEDB8832) == 0xEDB8832;
  }

  lemma OnesNumber()
    ensures Number(0xFFFF_FFFF) == 0xFFFF_FFFF
  {
    assert Number(0xF) == 0xF && Number(0xFF) == 0xFF && Number(0xFFF) == 0xFFF;
    assert Number(0xFFFF) == 0xFFFF && Number(0xFFFFF) == 0xFFFFF && Number(0xFFFFFF) == 0xFFFFFF;
    assert Number(0xFFFFFFF) == 0xFFFFFFF;
  }

  lemma RegisterNumber32()
    ensures Number(0x340B_C6D9) == 0x340B_C6D9
  {
    assert Number(0x3) == 0x3 && Number(0x34) == 0x34 && Number(0x340) == 0x340;
    assert Number(0x340B) == 0x340B && Number(0x340BC) == 0x340BC && Number(0x340BC6) == 0x340BC6;
    assert Number(0x340BC6D) == 0x340BC6D;
  }

  lemma RegisterNumberHeader()
    ensures Number(0xC41E_9D9E) == 0xC41E_9D9E
  {
    assert Number(0xC) == 0xC && Number(0xC4) == 0xC4 && Number(0xC41) == 0xC41;
    assert Number(0xC41E) == 0xC41E && Number(0xC41E9) == 0xC41E9 && Number(0xC41E9D) == 0xC41E9D;
    assert Number(0xC41E9D9) == 0xC41E9D9;
  }

  lemma WordNumbers()
    ensures Number(0xA001) == 0xA001 && Number(0xFFFF) == 0xFFFF
  {
    assert Number(0xA) == 0xA && Number(0xA0) == 0xA0 && Number(0xA00) == 0xA00;
    assert Number(0xF) == 0xF && Number(0xFF) == 0xFF && Number(0xFFF) == 0xFFF;
  }

  lemma RegisterNumber16()
    ensures Number(0x4B37) == 0x4B37
  {
    assert Number(0x4) == 0x4 && Number(0x4B) == 0x4B && Number(0x4B3) == 0x4B3;
  }

  lemma Register32AShifts()
    ensures EightShifts(0xEDB8_8320, 0xFFFF_FFFF, 0x31) == 0x7C23_1048
    ensures EightShifts(0xEDB8_8320, 0x7C23_1048, 0x32) == 0xB0AC_BB32
    ensures EightShifts(0xEDB8_8320, 0xB0AC_BB32, 0x33) == 0x77B7_9C2D
    ensures EightShifts(0xEDB8_8320, 0x77B7_9C2D, 0x34) == 0x641C_1F5C
  {
  }

  lemma Register32A(m: seq<bv32>)
    requires |m| >= 4 && m[0..4] == [0x31, 0x32, 0x33, 0x34]
    requires Register(0xEDB8_8320, 0xFFFF_FFFF, m, 0) == 0xFFFF_FFFF
    ensures Register(0xEDB8_8320, 0xFFFF_FFFF, m, 4) == 0x641C_1F5C
  {
    Register32AShifts();
    FourBytes(0xEDB8_8320, 0xFFFF_FFFF, m, 0, 0x31, 0x32, 0x33, 0x34,
              0xFFFF_FFFF, 0x7C23_1048, 0xB0AC_BB32, 0x77B7_9C2D, 0x641C_1F5C);
  }

  lemma Register32BShifts()
    ensures EightShifts(0xEDB8_8320, 0x641C_1F5C, 0x35) == 0x340A_C5E3
    ensures EightShifts(0xEDB8_8320, 0x340A_C5E3, 0x36) == 0xF68D_2C9E
    ensures EightShifts(0xEDB8_8320, 0xF68D_2C9E, 0x37) == 0xAFFC_9660
    ensures EightShifts(0xEDB8_8320, 0xAFFC_9660, 0x38) == 0x651F_2550
  {
  }

  lemma Register32B(m: seq<bv32>)
    requires |m| >= 8 && m[4..8] == [0x35, 0x36, 0x37, 0x38]
    requires Register(0xEDB8_8320, 0xFFFF_FFFF, m, 4) == 0x641C_1F5C
    ensures Register(0xEDB8_8320, 0xFFFF_FFFF, m, 8) == 0x651F_2550
  {
    Register32BShifts();
    FourBytes(0xEDB8_8320, 0xFFFF_FFFF, m, 4, 0x35, 0x36, 0x37, 0x38,
              0x641C_1F5C, 0x340A_C5E3, 0xF68D_2C9E, 0xAFFC_9660, 0x651F_2550);
  }

  lemma Register32(m: seq<bv32>)
    requires m == [0x31, 0x32, 0x33, 0x34, 0x35, 0x36, 0x37, 0x38, 0x39]
    ensures Register(0xEDB8_8320, 0xFFFF_FFFF, m, 9) == 0x340B_C6D9
  {
    Register32A(m);
    Register32B(m);
    RegisterStep(0xEDB8_8320, 0xFFFF_FFFF, m, 8, 0x651F_2550, 0x340B_C6D9);
  }

  lemma Register16AShifts()
    ensures EightShifts(0x0000_A001, 0x0000_FFFF, 0x31) == 0x0000_947E
    ensures EightShifts(0x0000_A001, 0x0000_947E, 0x32) == 0x0000_F595
    ensures EightShifts(0x0000_A001, 0x0000_F595, 0x33) == 0x0000_7A75
    ensures EightShifts(0x0000_A001, 0x0000_7A75, 0x34) == 0x0000_30BA
  {
  }

  lemma Register16A(m: seq<bv32>)
    requires |m| >= 4 && m[0..4] == [0x31, 0x32, 0x33, 0x34]
    requires Register(0x0000_A001, 0x0000_FFFF, m, 0) == 0x0000_FFFF
    ensures Register(0x0000_A001, 0x0000_FFFF, m, 4) == 0x0000_30BA
  {
    Register16AShifts();
    FourBytes(0x0000_A001, 0x0000_FFFF, m, 0, 0x31, 0x32, 0x33, 0x34,
              0x0000_FFFF, 0x0000_947E, 0x0000_F595, 0x0000_7A75, 0x0000_30BA);
  }

  lemma Register16BShifts()
    ensures EightShifts(0x0000_A001, 0x0000_30BA, 0x35) == 0x0000_A471
    ensures EightShifts(0x0000_A001, 0x0000_A471, 0x36) == 0x0000_32E4
    ensures EightShifts(0x0000_A001, 0x0000_32E4, 0x37) == 0x0000_9D73
    ensures EightShifts(0x0000_A001, 0x0000_9D73, 0x38) == 0x0000_37DD
  {
  }

  lemma Register16B(m: seq<bv32>)
    requires |m| >= 8 && m[4..8] == [0x35, 0x36, 0x37, 0x38]
    requires Register(0x0000_A001, 0x0000_FFFF, m, 4) == 0x0000_30BA
    ensures Register(0x0000_A001, 0x0000_FFFF, m, 8) == 0x0000_37DD
  {
    Register16BShifts();
    FourBytes(0x0000_A001, 0x0000_FFFF, m, 4, 0x35, 0x36, 0x37, 0x38,
              0x0000_30BA, 0x0000_A471, 0x0000_32E4, 0x0000_9D73, 0x0000_37DD);
  }

  lemma Register16(m: seq<bv32>)
    requires m == [0x31, 0x32, 0x33, 0x34, 0x35, 0x36, 0x37, 0x38, 0x39]
    ensures Register(0x0000_A001, 0x0000_FFFF, m, 9) == 0x0000_4B37
  {
    Register16A(m);
    Register16B(m);
    RegisterStep(0x0000_A001, 0x0000_FFFF, m, 8, 0x0000_37DD, 0x0000_4B37);
  }

  lemma RegisterHeaderAShifts()
    ensures EightShifts(0xEDB8_8320, 0xFFFF_FFFF, 0x01) == 0x5AFA_20E4
    ensures EightShifts(0xEDB8_8320, 0x5AFA_20E4, 0x00) == 0xA73D_DC41
    ensures EightShifts(0xEDB8_8320, 0xA73D_DC41, 0x00) == 0x017C_4CDA
    ensures EightShifts(0xEDB8_8320, 0x017C_4CDA, 0x00) == 0x6607_4786
  {
  }

  lemma RegisterHeaderA(m: seq<bv32>)
    requires |m| >= 4 && m[0..4] == [0x01, 0x00, 0x00, 0x00]
    requires Register(0xEDB8_8320, 0xFFFF_FFFF, m, 0) == 0xFFFF_FFFF
    ensures Register(0xEDB8_8320, 0xFFFF_FFFF, m, 4) == 0x6607_4786
  {
    RegisterHeaderAShifts();
    FourBytes(0xEDB8_8320, 0xFFFF_FFFF, m, 0, 0x01, 0x00, 0x00, 0x00,
              0xFFFF_FFFF, 0x5AFA_20E4, 0xA73D_DC41, 0x017C_4CDA, 0x6607_4786);
  }

  lemma RegisterHeaderBShifts()
    ensures EightShifts(0xEDB8_8320, 0x6607_4786, 0x00) == 0x04BD_2152
    ensures EightShifts(0xEDB8_8320, 0x04BD_2152, 0x01) == 0xF266_BD6F
    ensures EightShifts(0xEDB8_8320, 0xF266_BD6F, 0x00) == 0xDDFF_1A74
    ensures EightShifts(0xEDB8_8320, 0xDDFF_1A74, 0x00) == 0x57B5_4A3F
  {
  }

  lemma RegisterHeaderB(m: seq<bv32>)
    requires |m| >= 8 && m[4..8] == [0x00, 0x01, 0x00, 0x00]
    requires Register(0xEDB8_8320, 0xFFFF_FFFF, m, 4) == 0x6607_4786
    ensures Register(0xEDB8_8320, 0xFFFF_FFFF, m, 8) == 0x57B5_4A3F
  {
    RegisterHeaderBShifts();
    FourBytes(0xEDB8_8320, 0xFFFF_FFFF, m, 4, 0x00, 0x01, 0x00, 0x00,
              0x6607_4786, 0x04BD_2152, 0xF266_BD6F, 0xDDFF_1A74, 0x57B5_4A3F);
  }

  lemma RegisterHeaderCShifts()
    ensures EightShifts(0xEDB8_8320, 0x57B5_4A3F, 0x00) == 0xB631_9877
    ensures EightShifts(0xEDB8_8320, 0xB631_9877, 0x00) == 0xCED7_D507
    ensures EightShifts(0xEDB8_8320, 0xCED7_D507, 0x00) == 0x9EAA_4276
    ensures EightShifts(0xEDB8_8320, 0x9EAA_4276, 0x00) == 0xB9F8_7E4B
  {
  }

  lemma RegisterHeaderC(m: seq<bv32>)
    requires |m| >= 12 && m[8..12] == [0x00, 0x00, 0x00, 0x00]
    requires Register(0xEDB8_8320, 0xFFFF_FFFF, m, 8) == 0x57B5_4A3F
    ensures Register(0xEDB8_8320, 0xFFFF_FFFF, m, 12) == 0xB9F8_7E4B
  {
    RegisterHeaderCShifts();
    FourBytes(0xEDB8_8320, 0xFFFF_FFFF, m, 8, 0x00, 0x00, 0x00, 0x00,
              0x57B5_4A3F, 0xB631_9877, 0xCED7_D507, 0x9EAA_4276, 0xB9F8_7E4B);
  }

  lemma RegisterHeaderDShifts()
    ensures EightShifts(0xEDB8_8320, 0xB9F8_7E4B, 0x01) == 0x96B0_50F0
    ensures EightShifts(0xEDB8_8320, 0x96B0_50F0, 0x00) == 0xBD2B_424C
    ensures EightShifts(0xEDB8_8320, 0xBD2B_424C, 0x00) == 0x7FD7_26F9
    ensures EightShifts(0xEDB8_8320, 0x7FD7_26F9, 0x00) == 0xC41E_9D9E
  {
  }

  lemma RegisterHeaderD(m: seq<bv32>)
    requires |m| >= 16 && m[12..16] == [0x01, 0x00, 0x00, 0x00]
    requires Register(0xEDB8_8320, 0xFFFF_FFFF, m, 12) == 0xB9F8_7E4B
    ensures Register(0xEDB8_8320, 0xFFFF_FFFF, m, 16) == 0xC41E_9D9E
  {
    RegisterHeaderDShifts();
    FourBytes(0xEDB8_8320, 0xFFFF_FFFF, m, 12, 0x01, 0x00, 0x00, 0x00,
              0xB9F8_7E4B, 0x96B0_50F0, 0xBD2B_424C, 0x7FD7_26F9, 0xC41E_9D9E);
  }

  lemma RegisterHeader(m: seq<bv32>)
    requires m == [0x01, 0x00, 0x00, 0x00, 0x00, 0x01, 0x00, 0x00, 0x00, 0x00, 0x00, 0x00, 0x01, 0x00, 0x00, 0x00]
    ensures Register(0xEDB8_8320, 0xFFFF_FFFF, m, 16) == 0xC41E_9D9E
  {
    RegisterHeaderA(m);
    RegisterHeaderB(m);
    RegisterHeaderC(m);
    RegisterHeaderD(m);
  }

  const DIGITS: seq<Byte> := [49, 50, 51, 52, 53, 54, 55, 56, 57]

  lemma DigitsMatch(m: seq<bv32>)
    requires m == [0x31, 0x32, 0x33, 0x34, 0x35, 0x36, 0x37, 0x38, 0x39]
    ensures forall i :: 0 <= i < 9 ==> Number(m[i]) == DIGITS[i] as int
  {
    SmallNumbers();
  }

  /** What the register of bits says of the register of numbers. */
  lemma RegisterValue(poly: bv32, start: bv32, m: seq<bv32>, s: seq<Byte>, d: bv32)
    requires |m| == |s| && forall i :: 0 <= i < |s| ==> Number(m[i]) == s[i] as int
    requires Register(poly, start, m, |m|) == d
    ensures BitSerial(Number(poly), Number(start), s) == Number(d)
  {
    RegisterFeeds(poly, start, m, s, |s|);
    assert s[..|s|] == s;
  }

  /** The check value of the CRC-32: that of the nine digits. */
  lemma CheckValue32()
    ensures Checksum32(POLY32, DIGITS) == 0xCBF4_3926
  {
    var m: seq<bv32> := [0x31, 0x32, 0x33, 0x34, 0x35, 0x36, 0x37, 0x38, 0x39];
    DigitsMatch(m);
    Register32(m);
    RegisterValue(0xEDB8_8320, 0xFFFF_FFFF, m, DIGITS, 0x340B_C6D9);
    PolyNumber();
    OnesNumber();
    RegisterNumber32();
  }

  /** The check value of the MODBUS CRC-16. */
  lemma CheckValue16()
    ensures Modbus(DIGITS) == 0x4B37
  {
    var m: seq<bv32> := [0x31, 0x32, 0x33, 0x34, 0x35, 0x36, 0x37, 0x38, 0x39];
    DigitsMatch(m);
    Register16(m);
    RegisterValue(0x0000_A001, 0x0000_FFFF, m, DIGITS, 0x0000_4B37);
    WordNumbers();
    RegisterNumber16();
  }

  lemma HeaderChecksum(s: seq<Byte>)
    requires s == [1, 0, 0, 0, 0, 1, 0, 0, 0, 0, 0, 0, 1, 0, 0, 0]
    ensures Checksum32(POLY32, s) == 0x3BE1_6261
  {
    var m: seq<bv32> := [1, 0, 0, 0, 0, 1, 0, 0, 0, 0, 0, 0, 1, 0, 0, 0];
    HeaderMatches(m, s);
    RegisterHeader(m);
    RegisterValue(0xEDB8_8320, 0xFFFF_FFFF, m, s, 0xC41E_9D9E);
    PolyNumber();
    OnesNumber();
    RegisterNumberHeader();
  }

  /** A header for one byte of data, with the checksum that every peer computes. */
  lemma KnownHeader(h: Header)
    requires h[..8] == [1, 0, 0, 0, 0, 1, 0, 0] && h[8..16] == [0, 0, 0, 0, 1, 0, 0, 0]
    requires h[16..] == [0x61, 0x62, 0xE1, 0x3B]
    ensures Magic(h) == 1 && DataSize(h) == 1 && CrcField(h) == 0x3BE1_6261 && GoodCrc(h) && Present(h)
  {
    assert h[..16] == h[..8] + h[8..16];
    HeaderChecksum(h[..16]);
    HeaderWords(h);
  }

  lemma HeaderMatches(m: seq<bv32>, s: seq<Byte>)
    requires m == [1, 0, 0, 0, 0, 1, 0, 0, 0, 0, 0, 0, 1, 0, 0, 0]
    requires s == [1, 0, 0, 0, 0, 1, 0, 0, 0, 0, 0, 0, 1, 0, 0, 0]
    ensures forall i :: 0 <= i < 16 ==> Number(m[i]) == s[i] as int
  {
    assert Number(0) == 0 && Number(1) == 1;
    forall i | 0 <= i < 16 ensures Number(m[i]) == s[i] as int {
      assert (m[i] == 0 && s[i] == 0) || (m[i] == 1 && s[i] == 1);
    }
  }

  lemma HeaderWords(h: Header)
    requires h[..8] == [1, 0, 0, 0, 0, 1, 0, 0] && h[8..16] == [0, 0, 0, 0, 1, 0, 0, 0]
    requires h[16..] == [0x61, 0x62, 0xE1, 0x3B]
    ensures Magic(h) == 1 && DataSize(h) == 1 && CrcField(h) == 0x3BE1_6261
  {
    assert h[0] == h[..8][0] && h[1] == h[..8][1] && h[2] == h[..8][2] && h[3] == h[..8][3];
    assert h[12] == h[8..16][4] && h[13] == h[8..16][5] && h[14] == h[8..16][6] && h[15] == h[8..16][7];
    assert h[16] == h[16..][0] && h[17] == h[16..][1] && h[18] == h[16..][2] && h[19] == h[16..][3];
  }
}
