/** `rCRC32` and `rCRC16`: the table-driven checksum engines. */
module Crc {
  import opened Octets
  import opened BitXor
  import opened CrcRegister

  /** The CRC-32 of section 8 of RFC 1952, for any 32-bit reflected polynomial. */
  function Checksum32(poly: nat, data: seq<Byte>): (r: int) {
    0xFFFF_FFFF - BitSerial(poly, 0xFFFF_FFFF, data)
  }

  function LowByte(r: nat): Byte {
    (r % 256) as Byte
  }

  /** The bytes of a 32-bit number in memory order. */
  function LittleEndian(r: nat): (b: seq<Byte>)
    ensures |b| == 4
  {
    [LowByte(r), LowByte(r / 256), LowByte(r / 256 / 256), LowByte(r / 256 / 256 / 256)]
  }

  /** A left shift by eight in a 32-bit register. */
  function ShiftLeft8(c: nat): (r: nat)
    ensures r % 256 == 0 && r < WIDTH32
  {
    c % 0x100_0000 * 256
  }

  /** The byte of the start register that round `ii` of `getReversedBytes` brings in. */
  function StartByte(start: nat, ii: nat): (b: nat)
    requires ii < 4
    ensures b < 256
  {
    Bytes(start, 3 - ii) % 256
  }

  function Bytes(c: nat, n: nat): nat
    decreases n
  {
    if n == 0 then c else Bytes(c, n - 1) / 256
  }

  /** Four table lookups in a row, with nothing entering the register. */
  function Rounds(poly: nat, c: nat, n: nat): nat
    decreases n, c
  {
    if n == 0 then c else Rounds(poly, Eight(poly, c), n - 1)
  }

  // ----- the algebra of getReversedBytes

  /** Removing an entry with the right top byte leaves a register that shifts left without loss. */
  lemma EntryRemoved(poly: nat, e: nat, t: nat)
    requires poly < WIDTH32 && e < WIDTH32 && t < 256
    requires TopByte(Eight(poly, t)) == TopByte(e)
    ensures var x := Xor(e, Eight(poly, t)); x < 0x100_0000 && ShiftLeft8(x) == 256 * x
  {
    var entry := Eight(poly, t);
    PowersOfTwo();
    StepsBound(poly, t, 8, 32);
    XorBound(e, entry, 32);
    TopByteOfXor(e, entry);
    XorSelf(TopByte(e));
  }

  lemma EntryRestored(poly: nat, e: nat, t: nat)
    requires t < 256
    ensures var x := Xor(e, Eight(poly, t)); Eight(poly, 256 * x + t) == e
  {
    var entry := Eight(poly, t);
    var x := Xor(e, entry);
    EightByTable(poly, 256 * x + t);
    assert (256 * x + t) / 256 == x && (256 * x + t) % 256 == t;
    XorTwice(e, entry);
  }

  /** One round undoes one byte: the entry found, shifted out, gives the register before it. */
  lemma RoundUndoes(poly: nat, e: nat, t: nat, s: nat)
    requires poly < WIDTH32 && e < WIDTH32 && t < 256 && s < 256
    requires TopByte(Eight(poly, t)) == TopByte(e)
    ensures var e' := Xor(ShiftLeft8(Xor(e, Eight(poly, t))), Xor(t, s));
      e' < WIDTH32 && Eight(poly, Xor(e', s)) == e
  {
    EntryRemoved(poly, e, t);
    EntryRestored(poly, e, t);
    StartByteIn(Xor(e, Eight(poly, t)), t, s);
  }

  lemma StartByteIn(x: nat, t: nat, s: nat)
    requires x < 0x100_0000 && t < 256 && s < 256
    ensures Xor(256 * x, Xor(t, s)) < WIDTH32
    ensures Xor(Xor(256 * x, Xor(t, s)), s) == 256 * x + t
  {
    XorDisjoint(x, t);
    XorAssoc(256 * x, t, s);
    XorTwice(256 * x + t, s);
    LowByteXor(256 * x + t, s);
  }

  lemma LowByteXor(c: nat, s: nat)
    requires c < WIDTH32 && s < 256
    ensures Xor(c, s) < WIDTH32
  {
    PowersOfTwo();
    XorBound(c, s, 32);
  }

  /** What the loop keeps: running forward again reaches the wanted register. */
  lemma RoundKeeps(poly: nat, start: nat, e: nat, e': nat, ii: nat)
    requires ii < 4
    requires Eight(poly, Xor(e', StartByte(start, ii))) == e
    ensures Rounds(poly, Xor(e', Bytes(start, 3 - ii)), ii + 1) == Rounds(poly, Xor(e, Bytes(start, 4 - ii)), ii)
  {
    var b, s := Bytes(start, 3 - ii), StartByte(start, ii);
    XorDisjoint(b / 256, s);
    XorAssoc(e', s, 256 * (b / 256));
    StepsLinear(poly, Xor(e', s), 256 * (b / 256), 8);
    EightOfHigh(poly, b / 256);
  }

  /** Feeding the bytes of a word, the lowest first, is xoring it in and then running on. */
  function FeedWord(poly: nat, c: nat, r: nat, n: nat): nat
    decreases n, r
  {
    if n == 0 then c else FeedWord(poly, Eight(poly, Xor(c, r % 256)), r / 256, n - 1)
  }

  lemma {:induction false} FeedWordIsRounds(poly: nat, c: nat, r: nat, n: nat)
    requires Bytes(r, n) == 0
    ensures FeedWord(poly, c, r, n) == Rounds(poly, Xor(c, r), n)
    decreases n
  {
    if n == 0 {
      XorZero(c);
    } else {
      BytesFromBelow(r, n - 1);
      FeedWordIsRounds(poly, Eight(poly, Xor(c, r % 256)), r / 256, n - 1);
      XorDisjoint(r / 256, r % 256);
      XorAssoc(c, r % 256, 256 * (r / 256));
      StepsLinear(poly, Xor(c, r % 256), 256 * (r / 256), 8);
      EightOfHigh(poly, r / 256);
    }
  }

  lemma {:induction false} BytesFromBelow(r: nat, n: nat)
    ensures Bytes(r, n + 1) == Bytes(r / 256, n)
    decreases n
  {
    if n > 0 {
      BytesFromBelow(r, n - 1);
    }
  }

  lemma NoBytesAboveFour(r: nat)
    requires r < WIDTH32
    ensures Bytes(r, 4) == 0
  {
    assert Bytes(r, 1) == r / 256;
    assert Bytes(r, 2) == r / 256 / 256;
    assert Bytes(r, 3) == r / 256 / 256 / 256;
  }

  lemma FeedFourBytes(poly: nat, c: nat, r: nat)
    requires r < WIDTH32
    ensures BitSerial(poly, c, LittleEndian(r)) == Rounds(poly, Xor(c, r), 4)
  {
    var b := LittleEndian(r);
    var b0, b1, b2, b3 := b[0] as int, b[1] as int, b[2] as int, b[3] as int;
    NoBytesAboveFour(r);
    FeedWordIsRounds(poly, c, r, 4);
    var c1 := Eight(poly, Xor(c, b0));
    var c2 := Eight(poly, Xor(c1, b1));
    var c3 := Eight(poly, Xor(c2, b2));
    var c4 := Eight(poly, Xor(c3, b3));
    assert FeedWord(poly, c3, r / 256 / 256 / 256, 1) == c4;
    assert FeedWord(poly, c2, r / 256 / 256, 2) == c4;
    assert FeedWord(poly, c1, r / 256, 3) == c4;
    FeedByte(poly, c, b0);
    FeedByte(poly, c1, b1);
    FeedByte(poly, c2, b2);
    FeedByte(poly, c3, b3);
    assert b[..3][..2][..1][..0] == [];
    assert BitSerial(poly, c, b[..3][..2][..1]) == c1;
    assert BitSerial(poly, c, b[..3][..2]) == c2;
    assert BitSerial(poly, c, b[..3]) == c3;
  }

  /** Bytes that bring the register of `start` to the register of `end` do so after any message. */
  lemma Steers(poly: nat, start: int, end: int, tail: seq<Byte>, p: seq<Byte>)
    requires 0 <= start < WIDTH32
    requires BitSerial(poly, 0xFFFF_FFFF - start, tail) == 0xFFFF_FFFF - end
    requires Checksum32(poly, p) == start
    ensures Checksum32(poly, p + tail) == end
  {
    BitSerialAppend(poly, 0xFFFF_FFFF, p, tail);
  }

  /** Without bit 31 in the polynomial no bytes can set the top bit of the register again. */
  lemma {:induction false} TopBitLost(poly: nat, p: seq<Byte>, tail: seq<Byte>)
    requires poly < TOP_BIT && tail != []
    ensures Checksum32(poly, p + tail) >= TOP_BIT
  {
    var data := p + tail;
    var before, last := BitSerial(poly, 0xFFFF_FFFF, data[..|data| - 1]), data[|data| - 1] as int;
    PowersOfTwo();
    BitSerialBound(poly, 0xFFFF_FFFF, data[..|data| - 1], 32);
    FeedByte(poly, before, last);
    XorBound(before, last, 32);
    var x := Xor(before, last);
    XorBound(x / 2, poly, 31);
    StepsBound(poly, Step(poly, x), 7, 31);
  }

  /** The bitwise complement is an xor with all ones. */
  lemma {:induction false} Complement(c: nat, n: nat)
    requires c < Pow2(n)
    ensures Xor(c, Pow2(n) - 1) == Pow2(n) - 1 - c
    decreases n
  {
    if n > 0 {
      var ones: nat := Pow2(n) - 1;
      assert ones / 2 == Pow2(n - 1) - 1 && ones % 2 == 1;
      Complement(c / 2, n - 1);
      XorBits(c, ones);
    }
  }

  /** No earlier entry of the table has the top byte of this one. */
  lemma NewTopByte(poly: nat, ii: nat)
    requires HasTopBit(poly) && ii < 256
    ensures forall t :: 0 <= t < ii ==> TopByte(Eight(poly, t)) != TopByte(Eight(poly, ii))
  {
    forall t | 0 <= t < ii
      ensures TopByte(Eight(poly, t)) != TopByte(Eight(poly, ii))
    {
      if TopByte(Eight(poly, t)) == TopByte(Eight(poly, ii)) {
        TopBytesDistinct(poly, t, ii);
      }
    }
  }

  class Crc32 {
    var poly: nat
    var table: array<nat>
    var inv: array<nat>

    ghost predicate Valid()
      reads this, table
    {
      && poly < WIDTH32
      && table.Length == 256
      && forall t :: 0 <= t < 256 ==> table[t] == Eight(poly, t)
    }

    constructor (poly: nat)
      requires poly < WIDTH32
      ensures Valid() && this.poly == poly
      ensures fresh(table) && fresh(inv) && inv.Length == 256
      ensures HasTopBit(poly) ==> forall t :: 0 <= t < 256 ==>
        TopByte(table[t]) < 256 && inv[TopByte(table[t])] == Xor(ShiftLeft8(table[t]), t)
    {
      this.poly := poly;
      table := new nat[256];
      inv := new nat[256];
      new;
      Init();
    }

    /** Fills the table of eight-step results, and the table that undoes them by their top byte. */
    method Init()
      requires poly < WIDTH32 && table != inv && table.Length == inv.Length == 256
      modifies table, inv
      ensures Valid()
      ensures HasTopBit(poly) ==> forall t :: 0 <= t < 256 ==>
        TopByte(table[t]) < 256 && inv[TopByte(table[t])] == Xor(ShiftLeft8(table[t]), t)
    {
      for k := 0 to 256 {
        inv[k] := 0;
      }
      for ii := 0 to 256
        invariant forall t :: 0 <= t < ii ==> table[t] == Eight(poly, t) && TopByte(table[t]) < 256
        invariant HasTopBit(poly) ==> forall t :: 0 <= t < ii ==>
          inv[TopByte(table[t])] == Xor(ShiftLeft8(table[t]), t)
      {
        var c: nat := ii;
        for jj := 0 to 8
          invariant Steps(poly, c, 8 - jj) == Eight(poly, ii)
        {
          c := if c % 2 == 1 then Xor(c / 2, poly) else c / 2;
        }
        PowersOfTwo();
        StepsBound(poly, ii, 8, 32);
        if HasTopBit(poly) {
          NewTopByte(poly, ii);
        }
        table[ii] := c;
        inv[TopByte(c)] := Xor(ShiftLeft8(c), ii);
      }
    }

    /** One table lookup feeds one byte. */
    function Update(crc: nat, byte: Byte): (r: nat)
      requires Valid()
      reads this, table
      ensures r == FeedBits(poly, crc, byte as int, 8)
    {
      FeedByTable(poly, crc, byte as int);
      Xor(table[Xor(crc % 256, byte as int)], crc / 256)
    }

    method Get(data: seq<Byte>) returns (r: nat)
      requires Valid()
      ensures r == Checksum32(poly, data)
    {
      var crc := 0xFFFF_FFFF;
      PowersOfTwo();
      for i := 0 to |data|
        invariant crc == BitSerial(poly, 0xFFFF_FFFF, data[..i])
      {
        assert data[..i + 1][..|data[..i + 1]| - 1] == data[..i];
        crc := Update(crc, data[i]);
      }
      assert data[..|data|] == data;
      BitSerialBound(poly, 0xFFFF_FFFF, data, 32);
      r := 0xFFFF_FFFF - crc;
    }

    /** The first table entry with the top byte of `reg`, or 256. */
    method FindTopByte(reg: nat) returns (t: nat)
      requires Valid() && reg < WIDTH32
      ensures t <= 256
      ensures t < 256 ==> TopByte(table[t]) == TopByte(reg)
      ensures t == 256 ==> forall k :: 0 <= k < 256 ==> TopByte(table[k]) != TopByte(reg)
    {
      t := 0;
      while t < 256
        invariant t <= 256
        invariant forall k :: 0 <= k < t ==> TopByte(table[k]) != TopByte(reg)
      {
        if TopByte(table[t]) == TopByte(reg) {
          return;
        }
        t := t + 1;
      }
    }

    /**
     Four bytes that, appended to any message with the checksum `regStart`, make its
     checksum `regEnd`. The polynomial needs its bit 31.
     */
    method GetReversedBytes(regStart: nat, regEnd: nat) returns (r: nat)
      requires Valid() && regStart < WIDTH32 && regEnd < WIDTH32
      ensures r < WIDTH32
      ensures HasTopBit(poly) ==> forall p: seq<Byte> ::
        Checksum32(poly, p) == regStart ==> Checksum32(poly, p + LittleEndian(r)) == regEnd
    {
      PowersOfTwo();
      Complement(regStart, 32);
      Complement(regEnd, 32);
      var start, end := Xor(regStart, 0xFFFF_FFFF), Xor(regEnd, 0xFFFF_FFFF);
      NoBytesAboveFour(start);
      XorZero(end);
      r := end;
      for ii := 0 to 4
        invariant r < WIDTH32
        invariant HasTopBit(poly) ==> Rounds(poly, Xor(r, Bytes(start, 4 - ii)), ii) == end
      {
        var t := FindTopByte(r);
        if HasTopBit(poly) {
          ghost var k := TopBytesCovered(poly, r);
          assert TopByte(table[k]) == TopByte(r);
        }
        if t < 256 {
          RoundUndoes(poly, r, t, StartByte(start, ii));
          var e := Xor(ShiftLeft8(Xor(r, table[t])), Xor(t, StartByte(start, ii)));
          RoundKeeps(poly, start, r, e, ii);
          r := e;
        }
      }
      FeedFourBytes(poly, start, r);
      XorComm(r, start);
      forall p: seq<Byte> | HasTopBit(poly) && Checksum32(poly, p) == regStart
        ensures Checksum32(poly, p + LittleEndian(r)) == regEnd
      {
        Steers(poly, regStart, regEnd, LittleEndian(r), p);
      }
    }
  }

  const POLY16: nat := 0xA001

  /** The CRC-16 register of section 6.2.2 of the MODBUS over Serial Line guide V1.02. */
  function Modbus(data: seq<Byte>): nat {
    BitSerial(POLY16, 0xFFFF, data)
  }

  class Crc16 {
    var table: array<nat>

    ghost predicate Valid()
      reads this, table
    {
      && table.Length == 256
      && forall t :: 0 <= t < 256 ==> table[t] == Eight(POLY16, t)
    }

    constructor ()
      ensures Valid() && fresh(table)
    {
      table := new nat[256];
      new;
      for ii := 0 to 256
        invariant table.Length == 256 && fresh(table)
        invariant forall t :: 0 <= t < ii ==> table[t] == Eight(POLY16, t)
      {
        var r: nat := ii;
        for jj := 0 to 8
          invariant Steps(POLY16, r, 8 - jj) == Eight(POLY16, ii)
        {
          r := if r % 2 == 1 then Xor(r / 2, POLY16) else r / 2;
        }
        table[ii] := r;
      }
    }

    /** The bit-by-bit engine. */
    method GetModbus(data: seq<Byte>) returns (code: nat)
      ensures code == Modbus(data)
    {
      code := 0xFFFF;
      for i := 0 to |data|
        invariant code == BitSerial(POLY16, 0xFFFF, data[..i])
      {
        ghost var before := code;
        FeedByte(POLY16, before, data[i] as int);
        code := Xor(code, data[i] as int);
        for j := 0 to 8
          invariant Steps(POLY16, code, 8 - j) == Eight(POLY16, Xor(before, data[i] as int))
        {
          var flag := code % 2;
          code := code / 2;
          if flag != 0 {
            code := Xor(code, 0xA001);
          }
        }
        assert data[..i + 1][..|data[..i + 1]| - 1] == data[..i];
      }
      assert data[..|data|] == data;
    }

    function Update(code: nat, byte: Byte): (r: nat)
      requires Valid()
      reads this, table
      ensures r == FeedBits(POLY16, code, byte as int, 8)
    {
      FeedByTable(POLY16, code, byte as int);
      Xor(table[Xor(code % 256, byte as int)], code / 256)
    }

    /** The table engine; the length is a 16-bit number. Its result is complemented, the other's is not. */
    method Get(data: seq<Byte>) returns (r: nat)
      requires Valid() && |data| < 0x1_0000
      ensures r + Modbus(data) == 0xFFFF
    {
      var crc := 0xFFFF;
      PowersOfTwo();
      for i := 0 to |data|
        invariant crc == BitSerial(POLY16, 0xFFFF, data[..i])
      {
        assert data[..i + 1][..|data[..i + 1]| - 1] == data[..i];
        crc := Update(crc, data[i]);
      }
      assert data[..|data|] == data;
      BitSerialBound(POLY16, 0xFFFF, data, 16);
      r := 0xFFFF - crc;
    }
  }
}
