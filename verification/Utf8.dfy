/** The UTF-8 bytes of a code point, and the bit operations that the parser makes them with. */
module Utf8 {
  import opened Octets
  import opened BitXor
  import opened Bits

  /** The number of bytes a code point takes. */
  function Length(uc: nat): nat {
    if uc < 0x80 then 1 else if uc < 0x800 then 2 else if uc < 0x1_0000 then 3 else 4
  }

  /** The bytes of a code point, six bits to each byte after the first. */
  function Encode(uc: nat): (r: seq<Byte>)
    requires uc < 0x11_0000
    ensures |r| == Length(uc)
  {
    if uc < 0x80 then [uc as Byte]
    else if uc < 0x800 then [(0xC0 + uc / 64) as Byte, Tail(uc)]
    else if uc < 0x1_0000 then [(0xE0 + uc / 64 / 64) as Byte, Tail(uc / 64), Tail(uc)]
    else [(0xF0 + uc / 64 / 64 / 64) as Byte, Tail(uc / 64 / 64), Tail(uc / 64), Tail(uc)]
  }

  function Tail(uc: nat): (b: Byte)
    ensures IsTail(b) && TailBits(b) == uc % 64
  {
    (0x80 + uc % 64) as Byte
  }

  // ----- section 3 of RFC 3629, read back by arithmetic

  predicate IsTail(b: Byte) {
    0x80 <= b < 0xC0
  }

  function TailBits(b: Byte): nat
    requires IsTail(b)
  {
    b as int - 0x80
  }

  datatype Decoded = CodePoint(cp: nat, length: nat) | Malformed

  /** The code point at the front of a byte string; longer forms than needed and surrogates are malformed. */
  function Decode(s: seq<Byte>): Decoded {
    if |s| >= 1 && s[0] < 0x80 then CodePoint(s[0] as int, 1)
    else if |s| >= 2 && 0xC0 <= s[0] < 0xE0 && IsTail(s[1]) then
      Checked(0x40 * (s[0] as int - 0xC0) + TailBits(s[1]), 2)
    else if |s| >= 3 && 0xE0 <= s[0] < 0xF0 && IsTail(s[1]) && IsTail(s[2]) then
      Checked(0x1000 * (s[0] as int - 0xE0) + 0x40 * TailBits(s[1]) + TailBits(s[2]), 3)
    else if |s| >= 4 && 0xF0 <= s[0] < 0xF8 && IsTail(s[1]) && IsTail(s[2]) && IsTail(s[3]) then
      Checked(0x4_0000 * (s[0] as int - 0xF0) + 0x1000 * TailBits(s[1]) + 0x40 * TailBits(s[2]) + TailBits(s[3]), 4)
    else Malformed
  }

  function Checked(cp: nat, length: nat): Decoded {
    if Length(cp) == length && !(0xD800 <= cp < 0xE000) && cp < 0x11_0000 then CodePoint(cp, length) else Malformed
  }

  /** Every scalar value is read back from its bytes, in the shortest form, whatever follows. */
  lemma DecodeEncode(uc: nat, rest: seq<Byte>)
    requires uc < 0x11_0000 && !(0xD800 <= uc < 0xE000)
    ensures Decode(Encode(uc) + rest) == CodePoint(uc, Length(uc))
  {
    var s := Encode(uc) + rest;
    SixBits(uc);
    SixBits(uc / 64);
    SixBits(uc / 64 / 64);
  }

  /** A byte string is the UTF-8 of these code points and nothing else. */
  predicate ReadsAs(s: seq<Byte>, cps: seq<nat>)
    decreases |cps|
  {
    if cps == [] then s == []
    else
      var d := Decode(s);
      d.CodePoint? && d.cp == cps[0] && d.length <= |s| && ReadsAs(s[d.length..], cps[1..])
  }

  lemma SixBits(x: nat)
    ensures x == 64 * (x / 64) + x % 64
  {
  }

  // ----- the bit operations as arithmetic

  /** A mark in the two bits above the low six sets one of them and clears the other. */
  lemma MarkedSix(uc: nat, mark: nat, mask: nat, n: nat)
    requires Shr(mark, n) == 2 && Low(mark, n) == 0
    requires Shr(mask, n) == 2 && Low(mask, n) == Pow2(n) - 1
    ensures And(Or(uc, mark), mask) == Pow2(n) * 2 + Low(uc, n)
  {
    var marked := Or(uc, mark);
    OrShr(uc, mark, n);
    OrLow(uc, mark, n);
    AndShr(marked, mask, n);
    AndLow(marked, mask, n);
    OrZero(Low(uc, n));
    AndOnes(Low(uc, n), n);
    Parts(uc, n);
    LowOfLow(uc, n);
    TwoStays(Shr(uc, n));
    Parts(And(marked, mask), n);
  }

  lemma {:induction false} LowOfLow(a: nat, n: nat)
    ensures Low(Low(a, n), n) == Low(a, n)
    decreases n
  {
    if n > 0 {
      LowOfLow(a / 2, n - 1);
    }
  }

  lemma SixBitMarks(n: nat)
    requires n == 6
    ensures Pow2(n) == 64
    ensures Shr(0x80, n) == 2 && Low(0x80, n) == 0
    ensures Shr(0xBF, n) == 2 && Low(0xBF, n) == 63
  {
    assert Pow2(n) == 8 * Pow2(3);
    Parts(0x80, n);
    Parts(0xBF, n);
  }

  lemma SixQuotient(a: nat, q: nat, r: nat)
    requires a == 64 * q + r && r < 64
    ensures a % 64 == r
  {
  }

  /** The byte written for the low six bits. */
  lemma LaterByteBits(uc: nat, mark: nat, mask: nat, n: nat)
    requires mark == 0x80 && mask == 0xBF && n == 6
    ensures And(Or(uc, mark), mask) == Tail(uc) as int
  {
    SixBitMarks(n);
    SixBitTail(uc, mark, mask, n);
  }

  lemma SixBitTail(uc: nat, mark: nat, mask: nat, n: nat)
    requires Pow2(n) == 64
    requires Shr(mark, n) == 2 && Low(mark, n) == 0
    requires Shr(mask, n) == 2 && Low(mask, n) == 63
    ensures And(Or(uc, mark), mask) == Tail(uc) as int
  {
    MarkedSix(uc, mark, mask, n);
    Parts(uc, n);
    SixQuotient(uc, Shr(uc, n), Low(uc, n));
  }

  lemma TwoStays(x: nat)
    ensures And(Or(x, 2), 2) == 2
  {
    var y := Or(x, 2);
    OrBits(x, 2);
    OrBits(x / 2, 1);
    AndBits(y, 2);
    AndBits(y / 2, 1);
    assert And(y / 2 / 2, 0) == 0;
  }

  const FIRST_BYTE_MARK: seq<nat> := [0x00, 0x00, 0xC0, 0xE0, 0xF0, 0xF8, 0xFC]

  /** The mark of a first byte leaves `n` bits free below it. */
  lemma MarkBits(len: nat) returns (n: nat, h: nat)
    requires 2 <= len <= 4
    ensures FIRST_BYTE_MARK[len] == Pow2(n) * h
    ensures Pow2(n) == if len == 2 then 0x20 else if len == 3 then 0x10 else 0x08
  {
    assert Pow2(5) == 32 && Pow2(4) == 16 && Pow2(3) == 8;
    n, h := 7 - len, if len == 2 then 6 else if len == 3 then 14 else 30;
  }

  lemma MarkAdded(uc: nat, len: nat, mark: nat)
    requires 1 <= len <= 4 && mark == FIRST_BYTE_MARK[len]
    requires uc < if len == 1 then 0x80 else if len == 2 then 0x20 else if len == 3 then 0x10 else 0x08
    ensures Or(uc, mark) == mark + uc < 256
  {
    if len == 1 {
      OrZero(uc);
    } else {
      var n, h := MarkBits(len);
      OrHigh(uc, h, n);
    }
  }

}
