/** The recursive parser of cJSON, walking a text by position. */
module JsonParser {
  import opened Octets
  import opened Bits
  import opened Json
  import opened JsonEscapes
  import opened JsonList
  import opened JsonParse
  import opened JsonTree
  import Utf8

  /** A value and the position after it, and the two ways of not getting there. */
  datatype Scan<T> = Found(value: T, next: nat) | Failed | Unspecified

  /** A scan of a text by position does what parsing the text that is left does. */
  predicate Agrees<T(==)>(r: Scan<T>, p: Parsed<T>, text: seq<Byte>) {
    match r
    case Found(v, next) => next <= |text| && p == Ok(v, text[next..])
    case Failed => p == Fail
    case Unspecified => p == Undefined
  }

  /** A scan that builds what it reads, `v`, elsewhere. */
  predicate Reads<T(==)>(r: Scan<()>, v: T, p: Parsed<T>, text: seq<Byte>) {
    match r
    case Found(_, next) => next <= |text| && p == Ok(v, text[next..])
    case Failed => p == Fail
    case Unspecified => p == Undefined
  }

  method SkipSpace(text: CText, start: nat) returns (i: nat)
    requires start <= |text|
    ensures start <= i <= |text| && text[i..] == Skip(text[start..])
  {
    i := start;
    while i < |text| && 1 <= text[i] <= 32
      invariant start <= i <= |text| && Skip(text[i..]) == Skip(text[start..])
    {
      assert text[i..][1..] == text[i + 1..];
      i := i + 1;
    }
  }

  lemma PeekAt(text: seq<Byte>, i: nat, k: nat)
    requires i <= |text|
    ensures Peek(text, i + k) == Peek(text[i..], k)
  {
  }

  // ----- numbers

  method ReadDigitsAt(text: CText, start: nat) returns (n: nat, i: nat)
    requires start <= |text|
    ensures i <= |text| && (n, text[i..]) == ReadDigits(0, text[start..])
  {
    n, i := 0, start;
    while IsDigit(Peek(text, i))
      invariant i <= |text| && ReadDigits(n, text[i..]) == ReadDigits(0, text[start..])
      decreases |text| - i
    {
      assert text[i..][1..] == text[i + 1..];
      n := n * 10 + (text[i] - ZERO) as int;
      i := i + 1;
    }
  }

  method SkipByte(text: CText, start: nat, c: Byte) returns (i: nat, there: bool)
    requires start <= |text| && c != 0
    ensures there == (Peek(text[start..], 0) == c)
    ensures i <= |text| && text[i..] == if there then text[start..][1..] else text[start..]
  {
    i, there := start, Peek(text, start) == c;
    PeekAt(text, start, 0);
    if there {
      DropMore(text, start, 1);
      i := i + 1;
    }
  }

  method ParseNumberAt(text: CText, start: nat) returns (r: Scan<Value>)
    requires start <= |text|
    ensures Agrees(r, ParseNumber(text[start..]), text) && (r.Found? ==> r.value.Number?)
  {
    var n := 0;
    var i, negative := SkipByte(text, start, MINUS);
    var sign: int := if negative then -1 else 1;
    var zero;
    i, zero := SkipByte(text, i, ZERO);
    PeekAt(text, i, 0);
    if 49 <= Peek(text, i) <= 57 {
      n, i := ReadDigitsAt(text, i);
    }
    NumberParts(text[start..], n, text[i..], if negative then -1 else 1);
    r := SignedNumber(text, i, n, sign);
  }

  method SignedNumber(text: CText, i: nat, n: nat, sign: int) returns (r: Scan<Value>)
    requires i <= |text|
    ensures Agrees(r, Signed(n, sign, text[i..]), text) && (r.Found? ==> r.value.Number?)
  {
    var value := sign * n;
    if FractionOrExponent(text[i..]) || !(-0x8000_0000 <= value < 0x8000_0000) {
      r := Unspecified;
    } else {
      r := Found(Number(value), i);
    }
  }

  function Signed(n: nat, sign: int, rest: seq<Byte>): Parsed<Value> {
    var value := sign * n;
    if FractionOrExponent(rest) || !(-0x8000_0000 <= value < 0x8000_0000) then Undefined else Ok(Number(value), rest)
  }

  lemma NumberParts(s: seq<Byte>, n: nat, rest: seq<Byte>, sign: int)
    requires sign == if Peek(s, 0) == MINUS then -1 else 1
    requires var s1 := if Peek(s, 0) == MINUS then s[1..] else s;
      var s2 := if Peek(s1, 0) == ZERO then s1[1..] else s1;
      (n, rest) == if 49 <= Peek(s2, 0) <= 57 then ReadDigits(0, s2) else (0, s2)
    ensures ParseNumber(s) == Signed(n, sign, rest)
  {
    var m: int := n;
    assert sign * m == if Peek(s, 0) == MINUS then -m else m;
  }

  // ----- strings

  /** The first pass: the room to allocate, and where the string seems to end. */
  method CountString(text: CText, start: nat) returns (len: nat, over: bool)
    requires start <= |text|
    ensures over == RunsOver(text[start..])
    ensures !over ==> len == Counted(text[start..])
  {
    len, over := 0, false;
    var i := start;
    while i < |text| && text[i] != QUOTE
      invariant start <= i <= |text|
      invariant len + Counted(text[i..]) == Counted(text[start..])
      invariant RunsOver(text[i..]) == RunsOver(text[start..])
    {
      len := len + 1;
      assert text[i..][1..] == text[i + 1..];
      if text[i] == BACKSLASH {
        if i + 1 == |text| {
          return len, true;
        }
        assert text[i..][2..] == text[i + 2..];
        i := i + 2;
      } else {
        i := i + 1;
      }
    }
  }

  /** Writes a code point backwards from its last byte, six bits at a time. */
  method WriteUtf8(out: array<Byte>, at: nat, cp: nat) returns (next: nat)
    requires cp < 0x11_0000 && at + Utf8.Length(cp) <= out.Length
    modifies out
    ensures next == at + Utf8.Length(cp)
    ensures out[..next] == old(out[..at]) + Utf8.Encode(cp)
  {
    var uc := cp;
    var len := 4;
    if uc < 0x80 {
      len := 1;
    } else if uc < 0x800 {
      len := 2;
    } else if uc < 0x1_0000 {
      len := 3;
    }
    next := at + len;
    ghost var front := out[..at];
    var p, rest;
    ghost var bytes;
    p, rest, bytes := WriteTails(out, at, next, cp, len);
    LastBits(cp, len, rest);
    EncodeParts(cp, len, rest, bytes);
    p, bytes := WriteBefore(out, at, p, FirstByte(rest, len), bytes);
    JoinBytes(out[..], at, front, bytes);
  }

  /** The bits of a code point above its last `steps` groups of six, and those groups as bytes. */
  predicate SplitInto(cp: nat, len: nat, rest: nat, bytes: seq<Byte>) {
    match len
    case 1 => rest == cp && bytes == []
    case 2 => rest == cp / 64 && bytes == [Utf8.Tail(cp)]
    case 3 => rest == cp / 64 / 64 && bytes == [Utf8.Tail(cp / 64), Utf8.Tail(cp)]
    case 4 => rest == cp / 64 / 64 / 64 && bytes == [Utf8.Tail(cp / 64 / 64), Utf8.Tail(cp / 64), Utf8.Tail(cp)]
    case _ => false
  }

  method WriteTails(out: array<Byte>, at: nat, end: nat, cp: nat, len: nat)
    returns (p: nat, uc: nat, ghost bytes: seq<Byte>)
    requires 1 <= len <= 4 && end == at + len <= out.Length
    modifies out
    ensures p == at + 1 && SplitInto(cp, len, uc, bytes)
    ensures out[..at] == old(out[..at]) && p + |bytes| == end && out[p..end] == bytes
  {
    p, uc, bytes := end, cp, [];
    if len >= 4 {
      p, uc, bytes := WriteTail(out, at, p, uc, bytes);
    }
    if len >= 3 {
      p, uc, bytes := WriteTail(out, at, p, uc, bytes);
    }
    if len >= 2 {
      p, uc, bytes := WriteTail(out, at, p, uc, bytes);
    }
  }

  /** What is left for the first byte fits beside its mark. */
  lemma LastBits(cp: nat, len: nat, rest: nat)
    requires cp < 0x11_0000 && len == Utf8.Length(cp)
    requires rest == if len == 1 then cp else if len == 2 then cp / 64
                     else if len == 3 then cp / 64 / 64 else cp / 64 / 64 / 64
    ensures rest < Room(len)
  {
  }

  /** The numbers a first byte has room for beside its mark. */
  function Room(len: nat): nat {
    if len == 1 then 0x80 else if len == 2 then 0x20 else if len == 3 then 0x10 else 0x08
  }

  lemma EncodeParts(cp: nat, len: nat, rest: nat, bytes: seq<Byte>)
    requires cp < 0x11_0000 && len == Utf8.Length(cp) && rest < Room(len) && SplitInto(cp, len, rest, bytes)
    ensures Utf8.Encode(cp) == [FirstByte(rest, len)] + bytes
  {
    EncodeFirst(cp, len, FirstByte(rest, len), rest, bytes);
  }

  lemma EncodeFirst(cp: nat, len: nat, first: Byte, rest: nat, bytes: seq<Byte>)
    requires cp < 0x11_0000 && len == Utf8.Length(cp) && SplitInto(cp, len, rest, bytes)
    requires first as int == rest + if len == 1 then 0 else if len == 2 then 0xC0 else if len == 3 then 0xE0 else 0xF0
    ensures Utf8.Encode(cp) == [first] + bytes
  {
  }

  lemma JoinBytes(s: seq<Byte>, at: nat, front: seq<Byte>, bytes: seq<Byte>)
    requires at + |bytes| <= |s| && s[..at] == front && s[at..at + |bytes|] == bytes
    ensures s[..at + |bytes|] == front + bytes
  {
  }

  /** Puts a byte in front of the bytes already written at the end of their place. */
  method WriteBefore(out: array<Byte>, at: nat, end: nat, b: Byte, ghost bytes: seq<Byte>)
    returns (p: nat, ghost more: seq<Byte>)
    requires at < end && end + |bytes| <= out.Length && out[end..end + |bytes|] == bytes
    modifies out
    ensures p == end - 1 && more == [b] + bytes
    ensures out[..at] == old(out[..at]) && out[p..p + |more|] == more
  {
    p, more := end - 1, [b] + bytes;
    out[p] := b;
    assert out[end..end + |bytes|] == bytes;
  }

  function FirstByte(uc: nat, len: nat): (b: Byte)
    requires 1 <= len <= 4 && uc < Room(len)
    ensures b as int == Utf8.FIRST_BYTE_MARK[len] + uc
  {
    Utf8.MarkAdded(uc, len, Utf8.FIRST_BYTE_MARK[len]);
    (Or(uc, Utf8.FIRST_BYTE_MARK[len]) % 256) as Byte
  }

  /** A continuation byte: the mark is set and all but the low six bits are masked. */
  function LaterByte(uc: nat, mark: nat, mask: nat): (b: Byte)
    requires mark == 0x80 && mask == 0xBF
    ensures b == Utf8.Tail(uc)
  {
    Utf8.LaterByteBits(uc, mark, mask, 6);
    And(Or(uc, mark), mask) as Byte
  }

  method WriteTail(out: array<Byte>, at: nat, end: nat, uc: nat, ghost bytes: seq<Byte>)
    returns (p: nat, rest: nat, ghost more: seq<Byte>)
    requires at < end && end + |bytes| <= out.Length && out[end..end + |bytes|] == bytes
    modifies out
    ensures p == end - 1 && rest == uc / 64 && more == [Utf8.Tail(uc)] + bytes
    ensures out[..at] == old(out[..at]) && out[p..p + |more|] == more
  {
    p, more := WriteBefore(out, at, end, LaterByte(uc, 0x80, 0xBF), bytes);
    rest := uc / 64;
  }

  /** The second pass over one escape: its bytes go into the room counted for them. */
  method WriteEscape(text: CText, at: nat, out: array<Byte>, k: nat) returns (i: nat, next: nat)
    requires at < |text| && text[at] == BACKSLASH
    requires k + |Escaped(text[at..]).0| <= out.Length
    modifies out
    ensures var (bytes, used) := Escaped(text[at..]);
      && i == at + used
      && (used != 0 ==> next == k + |bytes| && out[..next] == old(out[..k]) + bytes)
  {
    ghost var s := text[at..];
    i, next := at, k;
    PeekAt(text, at, 1);
    PeekAt(text, at, 6);
    PeekAt(text, at, 7);
    if at + 1 == |text| {
      return;
    }
    var c := text[at + 1];
    if c == SMALL_U {
      i, next := WriteUnicode(text, at, out, k);
      return;
    }
    var byte := if c == 98 then 8 else if c == 102 then 12 else if c == 110 then NEWLINE
                else if c == 114 then RETURN else if c == 116 then TAB else c;
    assert Escaped(s) == ([byte], 2);
    out[k] := byte;
    i, next := at + 2, k + 1;
  }

  /** An escape of a UTF-16 code unit, or of a surrogate pair, becomes UTF-8. */
  method WriteUnicode(text: CText, at: nat, out: array<Byte>, k: nat) returns (i: nat, next: nat)
    requires at + 2 <= |text| && text[at] == BACKSLASH && text[at + 1] == SMALL_U
    requires k + |Escaped(text[at..]).0| <= out.Length
    modifies out
    ensures var (bytes, used) := Escaped(text[at..]);
      && i == at + used
      && (used != 0 ==> next == k + |bytes| && out[..next] == old(out[..k]) + bytes)
  {
    var cp;
    i, cp := ReadCodePoint(text, at);
    next := k;
    ghost var bytes := Escaped(text[at..]).0;
    if cp != 0 {
      next := WriteUtf8(out, k, cp);
    }
    assert cp == 0 ==> bytes == [] && out[..k] + bytes == out[..k];
  }

  /** The code point of an escape, 0 when it writes nothing, and the position after it. */
  method ReadCodePoint(text: CText, at: nat) returns (i: nat, cp: nat)
    requires at + 2 <= |text| && text[at] == BACKSLASH && text[at + 1] == SMALL_U
    ensures cp < 0x11_0000
    ensures Escaped(text[at..]) == (if cp == 0 then [] else Utf8.Encode(cp), i - at)
  {
    ghost var s := text[at..];
    assert s[1] == SMALL_U;
    i, cp := at, 0;
    var uc := ParseHex4(text, at, 2);
    if at + 6 > |text| {
      return;
    }
    i := at + 6;
    if IsLowSurrogate(uc) || uc == 0 {
      return;
    }
    if !IsHighSurrogate(uc) {
      return i, uc;
    }
    i, cp := ReadSecondHalf(text, at, uc);
  }

  method ReadSecondHalf(text: CText, at: nat, uc: nat) returns (i: nat, cp: nat)
    requires at <= |text| && IsHighSurrogate(uc)
    ensures cp < 0x11_0000
    ensures SecondHalf(text[at..], uc) == (if cp == 0 then [] else Utf8.Encode(cp), i - at)
  {
    i, cp := at + 6, 0;
    PeekAt(text, at, 6);
    PeekAt(text, at, 7);
    if Peek(text, at + 6) != BACKSLASH || Peek(text, at + 7) != SMALL_U {
      return;
    }
    var uc2 := ParseHex4(text, at, 8);
    if at + 12 > |text| {
      return at, 0;
    }
    i := at + 12;
    if !IsLowSurrogate(uc2) {
      return;
    }
    PairBits(uc, uc2);
    cp := CombinedBits(uc, uc2);
  }

  predicate HexUpTo(s: seq<Byte>, n: nat) {
    n <= |s| && forall j :: 0 <= j < n ==> IsHex(s[j])
  }

  /** The number that the first digits make. */
  function HexSoFar(s: seq<Byte>, n: nat): nat
    requires HexUpTo(s, n)
  {
    if n == 0 then 0 else HexSoFar(s, n - 1) * 16 + HexValue(s[n - 1])
  }

  lemma FourDigits(s: seq<Byte>, k: nat)
    requires k <= |s|
    ensures FourHex(s, k) <==> HexUpTo(s[k..], 4)
    ensures FourHex(s, k) ==> Hex4(s, k) == HexSoFar(s[k..], 4)
  {
    var t := s[k..];
    if FourHex(s, k) {
      assert t[0] == s[k] && t[1] == s[k + 1] && t[2] == s[k + 2] && t[3] == s[k + 3];
      assert HexSoFar(t, 1) == HexValue(t[0]);
      assert HexSoFar(t, 2) == HexValue(t[0]) * 16 + HexValue(t[1]);
      assert HexSoFar(t, 4) == (HexSoFar(t, 2) * 16 + HexValue(t[2])) * 16 + HexValue(t[3]);
    }
  }

  /** `parse_hex4`: digits shifted in one after the other; 0 at the first byte that is none. */
  method ParseHex4(text: CText, at: nat, k: nat) returns (h: nat)
    requires at + k <= |text|
    ensures h == CodeUnit(text[at..], k)
  {
    ghost var t := text[at..][k..];
    FourDigits(text[at..], k);
    h := 0;
    for i := 0 to 4
      invariant HexUpTo(t, i) && h == HexSoFar(t, i)
    {
      var c := Peek(text, at + k + i);
      if !IsHex(c) {
        return 0;
      }
      h := h * 16 + HexValue(c);
    }
  }

  function CombinedBits(uc: nat, uc2: nat): nat {
    0x1_0000 + Or(And(uc, 0x3FF) * 0x400, And(uc2, 0x3FF))
  }

  /** The bits of a surrogate pair, put together, are its code point. */
  lemma PairBits(uc: nat, uc2: nat)
    requires IsHighSurrogate(uc) && IsLowSurrogate(uc2)
    ensures CombinedBits(uc, uc2) == Pair(uc, uc2)
  {
    LowTen(uc);
    LowTen(uc2);
    HalfBits(uc, 0x36);
    HalfBits(uc2, 0x37);
    TenApart(uc - 0xD800, uc2 - 0xDC00, 10);
  }

  lemma HalfBits(uc: nat, half: nat)
    requires half * 0x400 <= uc < half * 0x400 + 0x400
    ensures uc % 0x400 == uc - half * 0x400
  {
    assert uc / 0x400 == half;
  }

  lemma TenApart(high: nat, low: nat, n: nat)
    requires n == 10 && low < 0x400
    ensures Or(high * 0x400, low) == high * 0x400 + low
  {
    TenBits(low, n);
    OrHigh(low, high, n);
  }

  /** One escape of the second pass; `bytes` is what it writes. Given up where the first pass does not step over it. */
  method WriteWholeEscape(text: CText, at: nat, out: array<Byte>, k: nat)
    returns (i: nat, next: nat, ghost bytes: seq<Byte>)
    requires at < |text| && text[at] == BACKSLASH
    requires k + Counted(text[at..]) < out.Length
    modifies out
    ensures i == at ==> Unescape(text[at..]) == Undefined
    ensures i != at ==> at < i <= |text| && Unescape(text[at..]) == Prepend(bytes, Unescape(text[i..]))
    ensures i != at ==> next + Counted(text[i..]) < out.Length && out[..next] == old(out[..k]) + bytes
  {
    var whole;
    ghost var used;
    whole, bytes, used := LookAtEscape(text, at);
    if !whole {
      return at, k, [];
    }
    i, next := WriteEscape(text, at, out, k);
  }

  /** Whether the first pass steps over an escape whole, and then what the escape makes of the text. */
  method LookAtEscape(text: CText, at: nat) returns (whole: bool, ghost bytes: seq<Byte>, ghost used: nat)
    requires at < |text| && text[at] == BACKSLASH
    ensures Escaped(text[at..]) == (bytes, used)
    ensures used == 0 || !whole ==> Unescape(text[at..]) == Undefined
    ensures used == 0 ==> bytes == []
    ensures used != 0 && whole ==>
      && at + used <= |text| && Unescape(text[at..]) == Prepend(bytes, Unescape(text[at + used..]))
      && |bytes| + Counted(text[at + used..]) <= Counted(text[at..])
  {
    bytes, used := Escaped(text[at..]).0, Escaped(text[at..]).1;
    WholeEscape(text, at, bytes, used);
    whole := StepsOver(text[at..], Escaped(text[at..]).1);
  }

  lemma WholeEscape(text: seq<Byte>, at: nat, bytes: seq<Byte>, used: nat)
    requires at < |text| && text[at] == BACKSLASH && Escaped(text[at..]) == (bytes, used)
    ensures used == 0 || !StepsOver(text[at..], used) ==> Unescape(text[at..]) == Undefined
    ensures used == 0 ==> bytes == []
    ensures used != 0 && StepsOver(text[at..], used) ==>
      && at + used <= |text| && Unescape(text[at..]) == Prepend(bytes, Unescape(text[at + used..]))
      && |bytes| + Counted(text[at + used..]) <= Counted(text[at..])
  {
    var s := text[at..];
    EscapeStep(s, bytes, used);
    CutShort(s);
    if used != 0 && StepsOver(s, used) {
      EscapeFits(s);
      DropMore(text, at, used);
    }
  }

  /** One character or one escape of the second pass. */
  method WriteOne(text: CText, at: nat, out: array<Byte>, k: nat) returns (i: nat, next: nat, ghost bytes: seq<Byte>)
    requires at < |text| && text[at] != QUOTE
    requires k + Counted(text[at..]) < out.Length
    modifies out
    ensures i == at ==> Unescape(text[at..]) == Undefined
    ensures i != at ==> at < i <= |text| && Unescape(text[at..]) == Prepend(bytes, Unescape(text[i..]))
    ensures i != at ==> next + Counted(text[i..]) < out.Length && out[..next] == old(out[..k]) + bytes
  {
    if text[at] != BACKSLASH {
      DropMore(text, at, 1);
      bytes := [text[at]];
      out[k] := text[at];
      i, next := at + 1, k + 1;
    } else {
      i, next, bytes := WriteWholeEscape(text, at, out, k);
    }
  }

  lemma CutShort(s: seq<Byte>)
    requires s != []
    ensures Escaped(s).1 == 0 ==> Escaped(s).0 == []
  {
  }

  /** The second pass: the contents of the string, followed by a zero byte. */
  method WriteString(text: CText, start: nat, out: array<Byte>) returns (ok: bool, i: nat, k: nat)
    requires start <= |text| && Counted(text[start..]) < out.Length
    modifies out
    ensures !ok ==> Unescape(text[start..]) == Undefined
    ensures ok ==> k < out.Length && out[k] == 0
    ensures ok ==> i <= |text| && (i < |text| ==> text[i] == QUOTE)
    ensures ok ==> Unescape(text[start..]) == Prepend(out[..k], Unescape(text[i..]))
  {
    ghost var all := Unescape(text[start..]);
    i, k := start, 0;
    PrependNone(all);
    while i < |text| && text[i] != QUOTE
      invariant start <= i <= |text| && k + Counted(text[i..]) < out.Length
      invariant all == Prepend(out[..k], Unescape(text[i..]))
      decreases |text| - i
    {
      ghost var written, bytes := out[..k], [];
      var j;
      j, k, bytes := WriteOne(text, i, out, k);
      if j == i {
        return false, i, k;
      }
      PrependTwice(written, bytes, Unescape(text[j..]));
      i := j;
    }
    ghost var written := out[..k];
    out[k] := 0;
    assert out[..k] == written;
    ok := true;
  }

  /** Reads a string literal, first counting the room its contents need, then writing them. */
  method ParseStringAt(text: CText, start: nat) returns (r: Scan<seq<Byte>>)
    requires start <= |text|
    ensures Agrees(r, ParseString(text[start..]), text)
  {
    PeekAt(text, start, 0);
    if Peek(text, start) != QUOTE {
      return Failed;
    }
    DropMore(text, start, 1);
    var len, over := CountString(text, start + 1);
    if over {
      OverrunIsUndefined(text[start + 1..]);
      return Unspecified;
    }
    var out := new Byte[len + 1];
    var ok, i, k := WriteString(text, start + 1, out);
    if !ok {
      return Unspecified;
    }
    StringEnds(text, i, out[..k]);
    r := Found(out[..k], if i < |text| then i + 1 else i);
  }

  lemma StringEnds(text: seq<Byte>, i: nat, bytes: seq<Byte>)
    requires i <= |text| && (i < |text| ==> text[i] == QUOTE)
    ensures Prepend(bytes, Unescape(text[i..])) == Ok(bytes, text[if i < |text| then i + 1 else i..])
  {
    assert bytes + [] == bytes;
    if i < |text| {
      DropMore(text, i, 1);
    }
  }

  // ----- values

  predicate WordAt(text: seq<Byte>, i: nat, word: seq<Byte>) {
    i + |word| <= |text| && text[i..i + |word|] == word
  }

  lemma WordStarts(text: seq<Byte>, i: nat, word: seq<Byte>)
    requires i <= |text|
    ensures WordAt(text, i, word) <==> StartsWith(text[i..], word)
    ensures WordAt(text, i, word) ==> text[i..][|word|..] == text[i + |word|..]
  {
    if i + |word| <= |text| {
      assert text[i..][..|word|] == text[i..i + |word|];
    }
  }

  /** Parses a value into a new item. What is built is none of the `others`, whatever items exist. */
  method ParseValueAt(text: CText, i: nat, item: Item, ghost others: set<Item>)
    returns (r: Scan<()>, ghost v: Value, ghost t: Tree)
    requires i <= |text| && Blank(item) && item in others
    modifies item`kind, item`valueString, item`valueInt, item`child, item`children
    ensures Reads(r, v, ParseValue(text[i..]), text)
    ensures r.Found? ==> t.item == item && Stands(t, v) && ItemsOf(t.kids) !! others
    decreases |text| - i, 0
  {
    PeekAt(text, i, 0);
    if Peek(text, i) == OPEN_ARRAY {
      r, v, t := ParseArrayAt(text, i, item, others);
    } else if Peek(text, i) == OPEN_OBJECT {
      r, v, t := ParseObjectAt(text, i, item, others);
    } else {
      r, v := ParseLeafAt(text, i, item);
      t := Tree(item, []);
    }
  }

  /** Words, strings and numbers. */
  method ParseLeafAt(text: CText, i: nat, item: Item) returns (r: Scan<()>, ghost v: Value)
    requires i <= |text| && Blank(item)
    requires Peek(text[i..], 0) != OPEN_ARRAY && Peek(text[i..], 0) != OPEN_OBJECT
    modifies item`kind, item`valueString, item`valueInt
    ensures Reads(r, v, ParseValue(text[i..]), text)
    ensures r.Found? ==> Stands(Tree(item, []), v)
  {
    WordStarts(text, i, NULL_TEXT);
    WordStarts(text, i, FALSE_TEXT);
    WordStarts(text, i, TRUE_TEXT);
    PeekAt(text, i, 0);
    v := Null;
    if WordAt(text, i, NULL_TEXT) {
      item.kind := CJSON_NULL;
      r := Found((), i + 4);
    } else if WordAt(text, i, FALSE_TEXT) {
      item.kind := CJSON_FALSE;
      r, v := Found((), i + 5), False;
    } else if WordAt(text, i, TRUE_TEXT) {
      item.kind, item.valueInt := CJSON_TRUE, 1;
      r, v := Found((), i + 4), True;
    } else if Peek(text, i) == QUOTE {
      var s := ParseStringAt(text, i);
      if !s.Found? {
        return if s.Failed? then Failed else Unspecified, Null;
      }
      item.kind, item.valueString := CJSON_STRING, s.value;
      r, v := Found((), s.next), String(s.value);
    } else if Peek(text, i) == MINUS || IsDigit(Peek(text, i)) {
      var n := ParseNumberAt(text, i);
      if !n.Found? {
        return if n.Failed? then Failed else Unspecified, Null;
      }
      item.kind, item.valueInt := CJSON_NUMBER, n.value.n;
      r, v := Found((), n.next), n.value;
    } else {
      return Failed, Null;
    }
    LeafStands(item, v);
  }

  method ParseArrayAt(text: CText, start: nat, item: Item, ghost others: set<Item>)
    returns (r: Scan<()>, ghost v: Value, ghost t: Tree)
    requires start < |text| && text[start] == OPEN_ARRAY && Blank(item) && item in others
    modifies item`kind, item`child, item`children
    ensures Reads(r, v, ParseValue(text[start..]), text)
    ensures r.Found? ==> t.item == item && Stands(t, v) && ItemsOf(t.kids) !! others
    decreases |text| - start - 1, 6
  {
    item.kind := CJSON_ARRAY;
    DropMore(text, start, 1);
    var i := SkipSpace(text, start + 1);
    ParseArray(text[start..], text[i..]);
    PeekAt(text, i, 0);
    if Peek(text, i) == CLOSE_ARRAY {
      DropMore(text, i, 1);
      LeafStands(item, Array([]));
      return Found((), i + 1), Array([]), Tree(item, []);
    }
    r, v, t := CloseArrayAt(text, i, item, others);
  }

  /** The items of an array and its closing bracket. */
  method CloseArrayAt(text: CText, i: nat, item: Item, ghost others: set<Item>)
    returns (r: Scan<()>, ghost v: Value, ghost t: Tree)
    requires i <= |text| && Peek(text[i..], 0) != CLOSE_ARRAY && item.kind == CJSON_ARRAY && item in others
    modifies item`child, item`children
    ensures Reads(r, v, ItemsThenClose(text[i..]), text)
    ensures r.Found? ==> t.item == item && Stands(t, v) && ItemsOf(t.kids) !! others
    decreases |text| - i, 5
  {
    ghost var vs, kids;
    r, vs, kids := ParseItemsAt(text, i, item, others);
    v, t := Array(vs), Tree(item, kids);
    if r.Found? {
      item.children := Roots(kids);
      ArrayStands(item, kids, vs);
      r := CloseBracket(text, r.next, CLOSE_ARRAY, t, v);
    }
  }

  /** The bracket that must come next; a tree that stands is left standing. */
  method CloseBracket(text: CText, at: nat, bracket: Byte, ghost t: Tree, ghost v: Value) returns (r: Scan<()>)
    requires at <= |text| && bracket != 0 && Stands(t, v)
    ensures Stands(t, v)
    ensures r == if Peek(text[at..], 0) == bracket then Found((), at + 1) else Failed
    ensures r.Found? ==> at < |text| && text[at + 1..] == text[at..][1..]
  {
    TreeExists(t);
    var next, there := SkipByte(text, at, bracket);
    r := if there then Found((), at + 1) else Failed;
    if there {
      DropMore(text, at, 1);
    }
  }

  /** Skips white space and a comma; a tree that stands is left standing. */
  method SkipComma(text: CText, at: nat, ghost t: Tree, ghost v: Value) returns (next: nat, more: bool)
    requires at <= |text| && Stands(t, v)
    ensures Stands(t, v)
    ensures next <= |text| && (more ==> next > at)
    ensures var rest := Skip(text[at..]);
      more == (Peek(rest, 0) == COMMA) && text[next..] == if more then rest[1..] else rest
  {
    TreeExists(t);
    next := SkipSpace(text, at);
    PeekAt(text, next, 0);
    more := Peek(text, next) == COMMA;
    if more {
      DropMore(text, next, 1);
      next := next + 1;
    }
  }

  /** The text after a scan. */
  function Beyond(text: seq<Byte>, r: Scan<()>): seq<Byte> {
    if r.Found? && r.next <= |text| then text[r.next..] else []
  }

  /** What one round of a comma loop makes of the text: one value, and whether more follow. */
  predicate Round<T(==)>(r: Scan<()>, more: bool, p: Parsed<seq<T>>, v: T, left: Parsed<seq<T>>, text: seq<Byte>) {
    match r
    case Failed => p == Fail
    case Unspecified => p == Undefined
    case Found(_, next) => next <= |text| && p == (if more then After([v], left) else Ok([v], text[next..]))
  }

  /** What the whole list is once a round is done: what is read so far and what is left, or the end. */
  predicate SoFar<T(==)>(r: Scan<()>, more: bool, whole: Parsed<seq<T>>, done: seq<T>, left: Parsed<seq<T>>,
                         text: seq<Byte>)
  {
    if r.Found? && more then r.next <= |text| && whole == After(done, left) else Reads(r, done, whole, text)
  }

  lemma RoundJoins<T>(r: Scan<()>, more: bool, p: Parsed<seq<T>>, done: seq<T>, v: T, left: Parsed<seq<T>>,
                      text: seq<Byte>)
    requires Round(r, more, p, v, left, text)
    ensures SoFar(r, more, After(done, p), done + [v], left, text)
  {
    if more {
      AfterTwice(done, [v], left);
    }
  }

  /** One value of an array, and whether a comma follows it. */
  method ParseItemAt(text: CText, start: nat, item: Item, ghost others: set<Item>)
    returns (r: Scan<()>, more: bool, ghost v: Value, ghost t: Tree)
    requires start <= |text| && Blank(item) && item in others
    modifies item`kind, item`valueString, item`valueInt, item`child, item`children
    ensures Round(r, more, ParseItems(text[start..]), v, ParseItems(Beyond(text, r)), text)
    ensures r.Found? ==> r.next > start || !more
    ensures r.Found? ==> t.item == item && Stands(t, v) && ItemsOf(t.kids) !! others
    decreases |text| - start, 1
  {
    more := false;
    var j := SkipSpace(text, start);
    r, v, t := ParseValueAt(text, j, item, others);
    if r.Found? {
      ItemThenMore(text[start..], v, text[r.next..]);
      var next;
      next, more := SkipComma(text, r.next, t, v);
      r := Found((), next);
    }
  }

  /** One value of an array, in the new item at the end of a list. */
  method ParseNextItem(text: CText, start: nat, list: Item, child: Item, ghost kids: seq<Tree>, ghost vs: seq<Value>,
                       ghost others: set<Item>)
    returns (r: Scan<()>, more: bool, ghost v: Value, ghost t: Tree)
    requires start <= |text| && Growing(list, kids, vs, child) && list != child
    modifies child`kind, child`valueString, child`valueInt, child`child, child`children
    ensures Round(r, more, ParseItems(text[start..]), v, ParseItems(Beyond(text, r)), text)
    ensures r.Found? ==> r.next > start || !more
    ensures r.Found? ==> Follows(list, kids, vs, t, v) && t.item == child && ItemsOf(t.kids) !! others
    decreases |text| - start, 2
  {
    ghost var items := Roots(kids) + [child];
    assert AllStand(kids, vs) && Linked(items, null, null) && list.child == First(Roots(kids), child);
    ForestExists(kids);
    r, more, v, t := ParseItemAt(text, start, child, others + ItemsOf(kids) + {child});
    if r.Found? {
      assert AllStand(kids, vs) && Linked(items, null, null);
      Apart(t, kids, others);
    }
  }

  /** One round of the comma loop: a value, and a new item linked after it if there is a comma. */
  method ParseItemsRound(text: CText, i: nat, list: Item, child: Item, ghost kids: seq<Tree>, ghost vs: seq<Value>,
                         ghost others: set<Item>, ghost left: Parsed<seq<Value>>)
    returns (r: Scan<()>, next: Item, more: bool, ghost v: Value, ghost t: Tree, ghost left': Parsed<seq<Value>>)
    requires i <= |text| && Growing(list, kids, vs, child) && list != child
    requires list in others && child !in others && ItemsOf(kids) !! others
    modifies child
    requires left == ParseItems(text[i..])
    ensures left' == ParseItems(Beyond(text, r)) && SoFar(r, more, After(vs, left), vs + [v], left', text)
    ensures r.Found? ==> ItemsOf(kids + [t]) !! others
    ensures r.Found? && !more ==> Complete(list, kids + [t], vs + [v])
    ensures r.Found? && more ==> r.next > i && Growing(list, kids + [t], vs + [v], next)
    ensures r.Found? && more ==> fresh(next) && next !in others
    decreases |text| - i, 3
  {
    next := child;
    r, more, v, t := ParseNextItem(text, i, list, child, kids, vs, others);
    OneMoreTree(kids, t);
    left' := ParseItems(Beyond(text, r));
    RoundJoins(r, more, left, vs, v, left', text);
    if r.Found? {
      Finished(list, kids, vs, t, v);
      if more {
        next := NextInList(list, child, kids + [t], vs + [v]);
      }
    }
  }

  /** The comma loop of an array: each new item is linked after the last one. */
  method ParseItemsAt(text: CText, start: nat, list: Item, ghost others: set<Item>)
    returns (r: Scan<()>, ghost vs: seq<Value>, ghost kids: seq<Tree>)
    requires start <= |text| && list in others
    modifies list`child
    ensures Reads(r, vs, ParseItems(text[start..]), text)
    ensures r.Found? ==> Complete(list, kids, vs) && ItemsOf(kids) !! others
    decreases |text| - start, 4
  {
    var i, more := start, true;
    var child := StartList(list);
    vs, kids := [], [];
    ghost var whole, left := ParseItems(text[start..]), ParseItems(text[start..]);
    AfterNone(whole);
    while true
      invariant i <= |text| && left == ParseItems(text[i..]) && whole == After(vs, left)
      invariant Growing(list, kids, vs, child) && fresh(child) && child !in others && ItemsOf(kids) !! others
      decreases |text| - i
    {
      ghost var v, t;
      r, child, more, v, t, left := ParseItemsRound(text, i, list, child, kids, vs, others, left);
      vs, kids := vs + [v], kids + [t];
      if !r.Found? || !more {
        return;
      }
      i := r.next;
    }
  }

  method ParseObjectAt(text: CText, start: nat, item: Item, ghost others: set<Item>)
    returns (r: Scan<()>, ghost v: Value, ghost t: Tree)
    requires start < |text| && text[start] == OPEN_OBJECT && Blank(item) && item in others
    modifies item`kind, item`child, item`children
    ensures Reads(r, v, ParseValue(text[start..]), text)
    ensures r.Found? ==> t.item == item && Stands(t, v) && ItemsOf(t.kids) !! others
    decreases |text| - start - 1, 8
  {
    item.kind := CJSON_OBJECT;
    DropMore(text, start, 1);
    var i := SkipSpace(text, start + 1);
    ParseObject(text[start..], text[i..]);
    PeekAt(text, i, 0);
    if Peek(text, i) == CLOSE_OBJECT {
      DropMore(text, i, 1);
      LeafStands(item, Object([]));
      return Found((), i + 1), Object([]), Tree(item, []);
    }
    r, v, t := CloseObjectAt(text, i, item, others);
  }

  /** The members of an object and its closing bracket. */
  method CloseObjectAt(text: CText, i: nat, item: Item, ghost others: set<Item>)
    returns (r: Scan<()>, ghost v: Value, ghost t: Tree)
    requires i <= |text| && Peek(text[i..], 0) != CLOSE_OBJECT && item.kind == CJSON_OBJECT && item in others
    modifies item`child, item`children
    ensures Reads(r, v, MembersThenClose(text[i..]), text)
    ensures r.Found? ==> t.item == item && Stands(t, v) && ItemsOf(t.kids) !! others
    decreases |text| - i, 7
  {
    ghost var members, kids;
    r, members, kids := ParseMembersAt(text, i, item, others);
    v, t := Object(members), Tree(item, kids);
    if r.Found? {
      item.children := Roots(kids);
      ObjectStands(item, kids, members);
      r := CloseBracket(text, r.next, CLOSE_OBJECT, t, v);
    }
  }

  /** A member: its name becomes that of the item, into which the value is parsed then. */
  method ParseMemberAt(text: CText, start: nat, item: Item, ghost others: set<Item>)
    returns (r: Scan<()>, ghost m: Member, ghost t: Tree)
    requires start <= |text| && Blank(item) && item in others
    modifies item`kind, item`valueString, item`valueInt, item`child, item`children, item`name
    ensures Reads(r, m, ParseMember(text[start..]), text)
    ensures r.Found? ==> t.item == item && item.name == m.name && Stands(t, m.value) && ItemsOf(t.kids) !! others
    decreases |text| - start, 1
  {
    var i := SkipSpace(text, start);
    var s := ParseStringAt(text, i);
    PeekAt(text, i, 0);
    if !s.Found? {
      return if s.Failed? then Failed else Unspecified, Member([], Null), Tree(item, []);
    }
    NameShrinks(text, i, s.value, s.next);
    NameThenValue(text[start..], s.value, text[s.next..]);
    item.kind, item.valueString := CJSON_STRING, s.value;
    item.name, item.valueString := item.valueString, [];
    ghost var v;
    r, v, t := ParseMemberValue(text, s.next, item, s.value, others);
    m := Member(s.value, v);
  }

  lemma NameShrinks(text: seq<Byte>, i: nat, name: seq<Byte>, next: nat)
    requires i <= |text| && next <= |text| && ParseString(text[i..]) == Ok(name, text[next..])
    ensures i < next && Peek(text[i..], 0) == QUOTE
  {
    UnescapeShrinks(text[i..][1..]);
  }

  method ParseMemberValue(text: CText, start: nat, item: Item, ghost name: seq<Byte>, ghost others: set<Item>)
    returns (r: Scan<()>, ghost v: Value, ghost t: Tree)
    requires start <= |text| && Blank(item) && item in others
    modifies item`kind, item`valueString, item`valueInt, item`child, item`children
    ensures Reads(r, Member(name, v), MemberValue(name, text[start..]), text)
    ensures r.Found? ==> t.item == item && Stands(t, v) && ItemsOf(t.kids) !! others
    decreases |text| - start, 1
  {
    var j := SkipSpace(text, start);
    PeekAt(text, j, 0);
    if Peek(text, j) != COLON {
      return Failed, Null, Tree(item, []);
    }
    DropMore(text, j, 1);
    var k := SkipSpace(text, j + 1);
    r, v, t := ParseValueAt(text, k, item, others);
  }

  /** One member of an object, and whether a comma follows it. */
  method ParseMemberAndComma(text: CText, start: nat, item: Item, ghost others: set<Item>)
    returns (r: Scan<()>, more: bool, ghost m: Member, ghost t: Tree)
    requires start <= |text| && Blank(item) && item in others
    modifies item`kind, item`valueString, item`valueInt, item`child, item`children, item`name
    ensures Round(r, more, ParseMembers(text[start..]), m, ParseMembers(Beyond(text, r)), text)
    ensures r.Found? ==> r.next > start || !more
    ensures r.Found? ==> t.item == item && item.name == m.name && Stands(t, m.value) && ItemsOf(t.kids) !! others
    decreases |text| - start, 2
  {
    more := false;
    r, m, t := ParseMemberAt(text, start, item, others);
    if r.Found? {
      MemberThenMore(text[start..], m, text[r.next..]);
      var next;
      next, more := SkipComma(text, r.next, t, m.value);
      r := Found((), next);
    }
  }

  /** One member of an object, in the new item at the end of a list. */
  method ParseMemberInList(text: CText, start: nat, list: Item, child: Item, ghost kids: seq<Tree>,
                           ghost vs: seq<Value>, ghost others: set<Item>)
    returns (r: Scan<()>, more: bool, ghost m: Member, ghost t: Tree)
    requires start <= |text| && Growing(list, kids, vs, child) && list != child
    modifies child`kind, child`valueString, child`valueInt, child`child, child`children, child`name
    ensures Round(r, more, ParseMembers(text[start..]), m, ParseMembers(Beyond(text, r)), text)
    ensures r.Found? ==> r.next > start || !more
    ensures r.Found? ==> Follows(list, kids, vs, t, m.value)
    ensures r.Found? ==> t.item == child && t.item.name == m.name && ItemsOf(t.kids) !! others
    decreases |text| - start, 3
  {
    ghost var items := Roots(kids) + [child];
    assert AllStand(kids, vs) && Linked(items, null, null) && list.child == First(Roots(kids), child);
    ForestExists(kids);
    r, more, m, t := ParseMemberAndComma(text, start, child, others + ItemsOf(kids) + {child});
    if r.Found? {
      assert AllStand(kids, vs) && Linked(items, null, null);
      Apart(t, kids, others);
    }
  }

  /** The new item at the end has become a member. */
  method ParseNextMember(text: CText, start: nat, list: Item, child: Item, ghost kids: seq<Tree>,
                         ghost members: seq<Member>, ghost others: set<Item>)
    returns (r: Scan<()>, more: bool, ghost m: Member, ghost t: Tree)
    requires start <= |text| && list != child
    requires Growing(list, kids, ValuesOf(members), child) && Named(kids, members)
    modifies child`kind, child`valueString, child`valueInt, child`child, child`children, child`name
    ensures Round(r, more, ParseMembers(text[start..]), m, ParseMembers(Beyond(text, r)), text)
    ensures r.Found? ==> r.next > start || !more
    ensures r.Found? ==> Complete(list, kids + [t], ValuesOf(members + [m])) && Named(kids + [t], members + [m])
    ensures r.Found? ==> t.item == child && ItemsOf(t.kids) !! others
    decreases |text| - start, 4
  {
    ForestExists(kids);
    r, more, m, t := ParseMemberInList(text, start, list, child, kids, ValuesOf(members), others);
    if r.Found? {
      assert Named(kids, members);
      FinishedMember(list, kids, members, t, m);
    }
  }

  /** One round of the comma loop: a member, and a new item linked after it if there is a comma. */
  method ParseMembersRound(text: CText, i: nat, list: Item, child: Item, ghost kids: seq<Tree>,
                           ghost members: seq<Member>, ghost others: set<Item>, ghost left: Parsed<seq<Member>>)
    returns (r: Scan<()>, next: Item, more: bool, ghost m: Member, ghost t: Tree, ghost left': Parsed<seq<Member>>)
    requires i <= |text| && list != child
    requires Growing(list, kids, ValuesOf(members), child) && Named(kids, members)
    requires list in others && child !in others && ItemsOf(kids) !! others
    modifies child
    requires left == ParseMembers(text[i..])
    ensures left' == ParseMembers(Beyond(text, r)) && SoFar(r, more, After(members, left), members + [m], left', text)
    ensures r.Found? ==> ItemsOf(kids + [t]) !! others && Named(kids + [t], members + [m])
    ensures r.Found? && !more ==> Complete(list, kids + [t], ValuesOf(members + [m]))
    ensures r.Found? && more ==> r.next > i && Growing(list, kids + [t], ValuesOf(members + [m]), next)
    ensures r.Found? && more ==> fresh(next) && next !in others
    decreases |text| - i, 5
  {
    next := child;
    r, more, m, t := ParseNextMember(text, i, list, child, kids, members, others);
    OneMoreTree(kids, t);
    left' := ParseMembers(Beyond(text, r));
    RoundJoins(r, more, left, members, m, left', text);
    if r.Found? && more {
      ForestExists(kids + [t]);
      next := NextInList(list, child, kids + [t], ValuesOf(members + [m]));
    }
  }

  /** The comma loop of an object. */
  method ParseMembersAt(text: CText, start: nat, list: Item, ghost others: set<Item>)
    returns (r: Scan<()>, ghost members: seq<Member>, ghost kids: seq<Tree>)
    requires start <= |text| && list in others
    modifies list`child
    ensures Reads(r, members, ParseMembers(text[start..]), text)
    ensures r.Found? ==> Complete(list, kids, ValuesOf(members)) && Named(kids, members) && ItemsOf(kids) !! others
    decreases |text| - start, 6
  {
    var i, more := start, true;
    var child := StartList(list);
    members, kids := [], [];
    ghost var whole, left := ParseMembers(text[start..]), ParseMembers(text[start..]);
    AfterNone(whole);
    while true
      invariant i <= |text| && left == ParseMembers(text[i..]) && whole == After(members, left)
      invariant Growing(list, kids, ValuesOf(members), child) && Named(kids, members)
      invariant fresh(child) && child !in others && ItemsOf(kids) !! others
      decreases |text| - i
    {
      ghost var m, t;
      r, child, more, m, t, left := ParseMembersRound(text, i, list, child, kids, members, others, left);
      members, kids := members + [m], kids + [t];
      if !r.Found? || !more {
        return;
      }
      i := r.next;
    }
  }

  /** `cJSON_Parse`: leading white space, one value in a new item; what follows it is not looked at. */
  method ParseText(text: CText) returns (r: Scan<Item>, ghost v: Value, ghost t: Tree)
    ensures match r
            case Found(c, next) => next <= |text| && Parse(text) == Ok(v, text[next..]) && t.item == c && Stands(t, v)
            case Failed => Parse(text) == Fail
            case Unspecified => Parse(text) == Undefined
    ensures r.Found? ==> fresh(r.value)
  {
    var c := new Item();
    var i := SkipSpace(text, 0);
    assert text[0..] == text;
    var end;
    end, v, t := ParseValueAt(text, i, c, {c});
    r := match end
         case Found(_, next) => Found(c, next)
         case Failed => Failed
         case Unspecified => Unspecified;
  }
}
