/** What the parser makes of a text, as a function of the text that is left. */
module JsonParse {
  import opened Octets
  import opened Json
  import Utf8

  /**
   A value and the text after it, a failure, or an outcome that is not modelled: an escape
   cut short by the end of the text, one that the first pass over its literal does not step
   over as the second does (`JsonEscapes.SkippedExact` says what may then happen), and a
   number that is not a C `int`.
   */
  datatype Parsed<T> = Ok(value: T, rest: seq<Byte>) | Fail | Undefined

  /** The byte a C pointer shows, zero at the end of the text. */
  function Peek(s: seq<Byte>, i: nat): Byte {
    if i < |s| then s[i] else 0
  }

  function Skip(s: seq<Byte>): (r: seq<Byte>)
    ensures |r| <= |s|
  {
    if s != [] && 1 <= s[0] <= 32 then Skip(s[1..]) else s
  }

  predicate IsDigit(c: Byte) {
    48 <= c <= 57
  }

  // ----- numbers

  /** Reads digits onto `n`. */
  function ReadDigits(n: nat, s: seq<Byte>): (nat, seq<Byte>)
    decreases |s|
  {
    if s != [] && IsDigit(s[0]) then ReadDigits(10 * n + (s[0] - ZERO) as int, s[1..]) else (n, s)
  }

  predicate FractionOrExponent(s: seq<Byte>) {
    (Peek(s, 0) == DOT && IsDigit(Peek(s, 1))) || Peek(s, 0) == 101 || Peek(s, 0) == 69
  }

  function ParseNumber(s: seq<Byte>): Parsed<Value> {
    var negative := Peek(s, 0) == MINUS;
    var s1 := if negative then s[1..] else s;
    var s2 := if Peek(s1, 0) == ZERO then s1[1..] else s1;
    var (n, rest) := if 49 <= Peek(s2, 0) <= 57 then ReadDigits(0, s2) else (0, s2);
    var m: int := n;
    var value := if negative then -m else m;
    if FractionOrExponent(rest) || !(-0x8000_0000 <= value < 0x8000_0000) then Undefined
    else Ok(Number(value), rest)
  }

  // ----- strings

  predicate IsHex(c: Byte) {
    IsDigit(c) || 65 <= c <= 70 || 97 <= c <= 102
  }

  function HexValue(c: Byte): nat
    requires IsHex(c)
  {
    if IsDigit(c) then c as int - 48 else if c <= 70 then c as int - 55 else c as int - 87
  }

  predicate FourHex(s: seq<Byte>, i: nat) {
    i + 4 <= |s| && IsHex(s[i]) && IsHex(s[i + 1]) && IsHex(s[i + 2]) && IsHex(s[i + 3])
  }

  function Hex4(s: seq<Byte>, i: nat): (r: nat)
    requires FourHex(s, i)
    ensures r < 0x1_0000
  {
    ((HexValue(s[i]) * 16 + HexValue(s[i + 1])) * 16 + HexValue(s[i + 2])) * 16 + HexValue(s[i + 3])
  }

  /** A code unit as the program reads it: 0 unless all four digits are hexadecimal. */
  function CodeUnit(s: seq<Byte>, i: nat): (r: nat)
    ensures r < 0x1_0000
  {
    if FourHex(s, i) then Hex4(s, i) else 0
  }

  predicate IsLowSurrogate(uc: nat) {
    0xDC00 <= uc <= 0xDFFF
  }

  predicate IsHighSurrogate(uc: nat) {
    0xD800 <= uc <= 0xDBFF
  }

  /** The code point of a surrogate pair. */
  function Pair(uc: nat, uc2: nat): (cp: nat)
    requires IsHighSurrogate(uc) && IsLowSurrogate(uc2)
    ensures 0x1_0000 <= cp < 0x11_0000
  {
    0x1_0000 + 0x400 * (uc - 0xD800) + (uc2 - 0xDC00)
  }

  /** The bytes an escape stands for, and how many bytes of text it takes; 0 if it is cut short. */
  function Escaped(s: seq<Byte>): (seq<Byte>, nat)
    requires |s| >= 1
  {
    if |s| == 1 then ([], 0)
    else if s[1] == 98 then ([8], 2)
    else if s[1] == 102 then ([12], 2)
    else if s[1] == 110 then ([NEWLINE], 2)
    else if s[1] == 114 then ([RETURN], 2)
    else if s[1] == 116 then ([TAB], 2)
    else if s[1] != SMALL_U then ([s[1]], 2)
    else if |s| < 6 then ([], 0)
    else UnicodeEscape(s)
  }

  function UnicodeEscape(s: seq<Byte>): (seq<Byte>, nat) {
    var uc := CodeUnit(s, 2);
    if IsLowSurrogate(uc) || uc == 0 then ([], 6)
    else if !IsHighSurrogate(uc) then (Utf8.Encode(uc), 6)
    else SecondHalf(s, uc)
  }

  /** An escape of a high surrogate needs that of a low one after it. */
  function SecondHalf(s: seq<Byte>, uc: nat): (seq<Byte>, nat)
    requires IsHighSurrogate(uc)
  {
    if Peek(s, 6) != BACKSLASH || Peek(s, 7) != SMALL_U then ([], 6)
    else if |s| < 12 then ([], 0)
    else
      var uc2 := CodeUnit(s, 8);
      if !IsLowSurrogate(uc2) then ([], 12) else (Utf8.Encode(Pair(uc, uc2)), 12)
  }

  lemma EscapedBounds(s: seq<Byte>)
    requires |s| >= 1
    ensures var (bytes, used) := Escaped(s); used <= |s| && (used == 0 || used >= 2)
  {
  }

  /** The first pass over a literal steps over exactly its first `n` bytes: no quote, and no escape across their end. */
  predicate StepsOver(s: seq<Byte>, n: nat) {
    if n == 0 then true
    else if s == [] || s[0] == QUOTE then false
    else if s[0] == BACKSLASH then n >= 2 && |s| >= 2 && StepsOver(s[2..], n - 2)
    else StepsOver(s[1..], n - 1)
  }

  /** The contents of a string literal after its opening quote; the end of the text also ends it. */
  function Unescape(s: seq<Byte>): Parsed<seq<Byte>>
    decreases |s|
  {
    if s == [] then Ok([], [])
    else if s[0] == QUOTE then Ok([], s[1..])
    else if s[0] != BACKSLASH then Prepend([s[0]], Unescape(s[1..]))
    else
      var (bytes, used) := Escaped(s);
      EscapedBounds(s);
      if used == 0 || !StepsOver(s, used) then Undefined else Prepend(bytes, Unescape(s[used..]))
  }

  function Prepend(bytes: seq<Byte>, p: Parsed<seq<Byte>>): Parsed<seq<Byte>> {
    match p
    case Ok(more, rest) => Ok(bytes + more, rest)
    case _ => p
  }

  /** One escape of a literal: what it stands for and the rest, or nothing to go on with. */
  lemma EscapeStep(s: seq<Byte>, bytes: seq<Byte>, used: nat)
    requires s != [] && s[0] == BACKSLASH && Escaped(s) == (bytes, used)
    ensures used == 0 || !StepsOver(s, used) ==> Unescape(s) == Undefined
    ensures used != 0 && StepsOver(s, used) ==>
      2 <= used <= |s| && Unescape(s) == Prepend(bytes, Unescape(s[used..]))
  {
    EscapedBounds(s);
  }

  /** Hexadecimal digits hold no quote and no backslash. */
  lemma HexSteps(s: seq<Byte>, n: nat)
    requires FourHex(s, 0)
    ensures StepsOver(s, 4 + n) == StepsOver(s[4..], n)
  {
    PlainStepsOver(s, 3 + n);
    DropMore(s, 1, 1);
    PlainStepsOver(s[1..], 2 + n);
    DropMore(s, 2, 1);
    PlainStepsOver(s[2..], 1 + n);
    DropMore(s, 3, 1);
    PlainStepsOver(s[3..], n);
  }

  lemma PlainStepsOver(s: seq<Byte>, n: nat)
    requires s != [] && s[0] != QUOTE && s[0] != BACKSLASH
    ensures StepsOver(s, 1 + n) == StepsOver(s[1..], n)
  {
  }

  lemma UnicodeSteps(s: seq<Byte>, n: nat)
    requires |s| >= 2 && s[0] == BACKSLASH && FourHex(s, 2)
    ensures StepsOver(s, 6 + n) == StepsOver(s[6..], n)
  {
    HexSteps(s[2..], n);
    DropMore(s, 2, 4);
  }

  lemma PrependNone(p: Parsed<seq<Byte>>)
    ensures Prepend([], p) == p
  {
    assert p.Ok? ==> [] + p.value == p.value;
  }

  lemma PrependTwice(a: seq<Byte>, b: seq<Byte>, p: Parsed<seq<Byte>>)
    ensures Prepend(a, Prepend(b, p)) == Prepend(a + b, p)
  {
    if p.Ok? {
      Regroup(a, b, p.value);
    }
  }

  function ParseString(s: seq<Byte>): Parsed<seq<Byte>> {
    if Peek(s, 0) != QUOTE then Fail else Unescape(s[1..])
  }

  lemma {:induction false} UnescapeShrinks(s: seq<Byte>)
    ensures Unescape(s).Ok? ==> |Unescape(s).rest| <= |s|
    decreases |s|
  {
    if s != [] && s[0] != QUOTE {
      if s[0] != BACKSLASH {
        UnescapeShrinks(s[1..]);
      } else {
        EscapedBounds(s);
        if Escaped(s).1 != 0 && StepsOver(s, Escaped(s).1) {
          UnescapeShrinks(s[Escaped(s).1..]);
        }
      }
    }
  }

  lemma {:induction false} ReadDigitsShrinks(n: nat, s: seq<Byte>)
    ensures |ReadDigits(n, s).1| <= |s|
    ensures s != [] && IsDigit(s[0]) ==> |ReadDigits(n, s).1| < |s|
    decreases |s|
  {
    if s != [] && IsDigit(s[0]) {
      ReadDigitsShrinks(10 * n + (s[0] - ZERO) as int, s[1..]);
    }
  }

  lemma NumberShrinks(s: seq<Byte>)
    requires Peek(s, 0) == MINUS || IsDigit(Peek(s, 0))
    ensures ParseNumber(s).Ok? ==> |ParseNumber(s).rest| < |s|
  {
    var s1 := if Peek(s, 0) == MINUS then s[1..] else s;
    var s2 := if Peek(s1, 0) == ZERO then s1[1..] else s1;
    ReadDigitsShrinks(0, s2);
  }

  // ----- values

  predicate StartsWith(s: seq<Byte>, t: seq<Byte>) {
    |t| <= |s| && s[..|t|] == t
  }

  function ParseValue(s: seq<Byte>): (r: Parsed<Value>)
    ensures r.Ok? ==> |r.rest| < |s|
    decreases |s|, 0
  {
    if StartsWith(s, NULL_TEXT) then Ok(Null, s[4..])
    else if StartsWith(s, FALSE_TEXT) then Ok(False, s[5..])
    else if StartsWith(s, TRUE_TEXT) then Ok(True, s[4..])
    else if Peek(s, 0) == QUOTE then
      UnescapeShrinks(s[1..]);
      match ParseString(s)
      case Ok(bytes, rest) => Ok(String(bytes), rest)
      case Fail => Fail
      case Undefined => Undefined
    else if Peek(s, 0) == MINUS || IsDigit(Peek(s, 0)) then
      NumberShrinks(s);
      ParseNumber(s)
    else if Peek(s, 0) == OPEN_ARRAY then ItemsThenClose(Skip(s[1..]))
    else if Peek(s, 0) == OPEN_OBJECT then MembersThenClose(Skip(s[1..]))
    else Fail
  }

  /** What an array is after its opening bracket and white space: items and a closing bracket. */
  function ItemsThenClose(inside: seq<Byte>): (r: Parsed<Value>)
    ensures r.Ok? ==> |r.rest| < |inside|
    decreases |inside|, 3
  {
    if Peek(inside, 0) == CLOSE_ARRAY then Ok(Array([]), inside[1..])
    else
      match ParseItems(inside)
      case Ok(items, rest) => if Peek(rest, 0) == CLOSE_ARRAY then Ok(Array(items), rest[1..]) else Fail
      case Fail => Fail
      case Undefined => Undefined
  }

  function MembersThenClose(inside: seq<Byte>): (r: Parsed<Value>)
    ensures r.Ok? ==> |r.rest| < |inside|
    decreases |inside|, 3
  {
    if Peek(inside, 0) == CLOSE_OBJECT then Ok(Object([]), inside[1..])
    else
      match ParseMembers(inside)
      case Ok(members, rest) => if Peek(rest, 0) == CLOSE_OBJECT then Ok(Object(members), rest[1..]) else Fail
      case Fail => Fail
      case Undefined => Undefined
  }

  /** Values separated by commas, and the text after them without its leading white space. */
  function ParseItems(s: seq<Byte>): (r: Parsed<seq<Value>>)
    ensures r.Ok? ==> |r.rest| < |s|
    decreases |s|, 1
  {
    match ParseValue(Skip(s))
    case Fail => Fail
    case Undefined => Undefined
    case Ok(v, rest) =>
      var next := Skip(rest);
      if Peek(next, 0) != COMMA then Ok([v], next)
      else
        match ParseItems(next[1..])
        case Ok(more, rest) => Ok([v] + more, rest)
        case Fail => Fail
        case Undefined => Undefined
  }

  function ParseMember(s: seq<Byte>): (r: Parsed<Member>)
    ensures r.Ok? ==> |r.rest| < |s|
    decreases |s|, 1
  {
    var t := Skip(s);
    if Peek(t, 0) != QUOTE then Fail
    else
      UnescapeShrinks(t[1..]);
      match ParseString(t)
      case Fail => Fail
      case Undefined => Undefined
      case Ok(name, rest) => MemberValue(name, rest)
  }

  /** What a member is after its name: a colon and a value. */
  function MemberValue(name: seq<Byte>, rest: seq<Byte>): (r: Parsed<Member>)
    ensures r.Ok? ==> |r.rest| < |rest|
    decreases |rest|, 1
  {
    var next := Skip(rest);
    if Peek(next, 0) != COLON then Fail
    else
      match ParseValue(Skip(next[1..]))
      case Ok(v, rest) => Ok(Member(name, v), rest)
      case Fail => Fail
      case Undefined => Undefined
  }

  function ParseMembers(s: seq<Byte>): (r: Parsed<seq<Member>>)
    ensures r.Ok? ==> |r.rest| < |s|
    decreases |s|, 2
  {
    match ParseMember(s)
    case Fail => Fail
    case Undefined => Undefined
    case Ok(m, rest) =>
      var next := Skip(rest);
      if Peek(next, 0) != COMMA then Ok([m], next)
      else
        match ParseMembers(next[1..])
        case Ok(more, rest) => Ok([m] + more, rest)
        case Fail => Fail
        case Undefined => Undefined
  }

  /** The whole program: leading white space, one value, and whatever follows it is ignored. */
  function Parse(text: seq<Byte>): Parsed<Value> {
    ParseValue(Skip(text))
  }

  // ----- the parser one step at a time

  /** A text starts with a word only if it starts with its first letter. */
  lemma FirstLetter(t: seq<Byte>)
    ensures StartsWith(t, NULL_TEXT) ==> t[0] == 110
    ensures StartsWith(t, FALSE_TEXT) ==> t[0] == 102
    ensures StartsWith(t, TRUE_TEXT) ==> t[0] == 116
  {
    assert |t| >= 4 ==> t[..4][0] == t[0];
    assert |t| >= 5 ==> t[..5][0] == t[0];
  }

  lemma ParseArray(s: seq<Byte>, inside: seq<Byte>)
    requires s != [] && s[0] == OPEN_ARRAY && inside == Skip(s[1..])
    ensures ParseValue(s) == ItemsThenClose(inside)
  {
    FirstLetter(s);
  }

  lemma ParseObject(s: seq<Byte>, inside: seq<Byte>)
    requires s != [] && s[0] == OPEN_OBJECT && inside == Skip(s[1..])
    ensures ParseValue(s) == MembersThenClose(inside)
  {
    FirstLetter(s);
  }

  lemma NameThenValue(s: seq<Byte>, name: seq<Byte>, rest: seq<Byte>)
    requires Peek(Skip(s), 0) == QUOTE && ParseString(Skip(s)) == Ok(name, rest)
    ensures ParseMember(s) == MemberValue(name, rest)
  {
  }

  function After<T>(done: seq<T>, p: Parsed<seq<T>>): Parsed<seq<T>> {
    match p
    case Ok(more, rest) => Ok(done + more, rest)
    case _ => p
  }

  lemma AfterNone<T>(p: Parsed<seq<T>>)
    ensures After([], p) == p
  {
    assert p.Ok? ==> [] + p.value == p.value;
  }

  /** One round of the comma loop of an array. */
  lemma ItemThenMore(s: seq<Byte>, v: Value, rest: seq<Byte>)
    requires ParseValue(Skip(s)) == Ok(v, rest)
    ensures var next := Skip(rest);
      ParseItems(s) == if Peek(next, 0) != COMMA then Ok([v], next) else After([v], ParseItems(next[1..]))
  {
  }

  lemma MemberThenMore(s: seq<Byte>, m: Member, rest: seq<Byte>)
    requires ParseMember(s) == Ok(m, rest)
    ensures var next := Skip(rest);
      ParseMembers(s) == if Peek(next, 0) != COMMA then Ok([m], next) else After([m], ParseMembers(next[1..]))
  {
  }

  lemma AfterTwice<T>(a: seq<T>, b: seq<T>, p: Parsed<seq<T>>)
    ensures After(a, After(b, p)) == After(a + b, p)
  {
    if p.Ok? {
      Regroup(a, b, p.value);
    }
  }
}
