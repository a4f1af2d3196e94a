/** The parser reads a text as a value if and only if the text is one of the forms of that value. */
module JsonSpelling {
  import opened Octets
  import opened Json
  import opened JsonParse
  import opened JsonRoundTrip
  import opened JsonSyntax
  import JsonEscapes
  import Utf8

  // ----- one character of a literal

  lemma {:induction false} ClosedSteps(s: seq<Byte>)
    ensures Closed(s) == StepsOver(s, |s|)
  {
    if s != [] && s[0] != QUOTE {
      if s[0] != BACKSLASH {
        ClosedSteps(s[1..]);
      } else if |s| >= 2 {
        ClosedSteps(s[2..]);
      }
    }
  }

  lemma UnitRead(hex: seq<Byte>, s: seq<Byte>, i: nat)
    requires |hex| == 4 && i + 4 <= |s| && s[i..i + 4] == hex
    ensures CodeUnit(s, i) == UnitOf(hex) && (UnitOf(hex) != 0 ==> FourHex(s, i))
  {
    assert s[i] == hex[0] && s[i + 1] == hex[1] && s[i + 2] == hex[2] && s[i + 3] == hex[3];
  }

  predicate StartsUnicode(s: seq<Byte>) {
    |s| >= 2 && s[0] == BACKSLASH && s[1] == SMALL_U
  }

  lemma UnitParts(hex: seq<Byte>, more: seq<Byte>)
    requires |hex| == 4
    ensures var s := [92, 117] + (hex + more);
      |s| >= 6 && s[0] == BACKSLASH && s[1] == SMALL_U && s[2..] == hex + more && s[2..6] == hex && s[6..] == more
  {
  }

  lemma UnitSteps(hex: seq<Byte>, more: seq<Byte>)
    requires |hex| == 4
    ensures StepsOver([92, 117] + (hex + more), 6) == Closed(hex)
  {
    UnitParts(hex, more);
    ClosedSteps(hex);
    JsonEscapes.StepsInFront(hex, more, 4);
  }

  lemma OneUnitRead(hex: seq<Byte>, more: seq<Byte>)
    requires GoodPiece(Unit(hex)) && (IsHigh(UnitOf(hex)) ==> !StartsUnicode(more))
    ensures Unescape(PieceThen(Unit(hex), more)) == Prepend(PieceMeans(Unit(hex)), Unescape(more))
  {
    var s := PieceThen(Unit(hex), more);
    UnitParts(hex, more);
    UnitRead(hex, s, 2);
    UnitSteps(hex, more);
    assert IsHigh(UnitOf(hex)) ==> Peek(s, 6) == Peek(more, 0) && Peek(s, 7) == Peek(more, 1);
    EscapeStep(s, PieceMeans(Unit(hex)), 6);
  }

  lemma TwiceRead(high: seq<Byte>, low: seq<Byte>, more: seq<Byte>)
    requires GoodPiece(Twice(high, low))
    ensures Unescape(PieceThen(Twice(high, low), more)) == Prepend(PieceMeans(Twice(high, low)), Unescape(more))
  {
    var s := PieceThen(Twice(high, low), more);
    TwiceParts(high, low, more);
    TwiceEscaped(high, low, s);
    UnitRead(high, s, 2);
    UnitSteps(low, more);
    UnicodeSteps(s, 6);
    EscapeStep(s, PieceMeans(Twice(high, low)), 12);
  }

  lemma TwiceEscaped(high: seq<Byte>, low: seq<Byte>, s: seq<Byte>)
    requires GoodPiece(Twice(high, low)) && |s| >= 12 && s[2..6] == high && s[8..12] == low
    requires s[0] == BACKSLASH && s[1] == SMALL_U && s[6] == BACKSLASH && s[7] == SMALL_U
    ensures Escaped(s) == (PieceMeans(Twice(high, low)), 12)
  {
    UnitRead(high, s, 2);
    UnitRead(low, s, 8);
    TwoUnits(s, UnitOf(high), UnitOf(low));
  }

  lemma TwoUnits(s: seq<Byte>, uc: nat, uc2: nat)
    requires |s| >= 12 && s[0] == BACKSLASH && s[1] == SMALL_U && s[6] == BACKSLASH && s[7] == SMALL_U
    requires uc == CodeUnit(s, 2) && uc2 == CodeUnit(s, 8) && IsHighSurrogate(uc)
    ensures Escaped(s) == (if IsLowSurrogate(uc2) then Utf8.Encode(Pair(uc, uc2)) else [], 12)
  {
  }

  lemma TwiceParts(high: seq<Byte>, low: seq<Byte>, more: seq<Byte>)
    requires |high| == 4 && |low| == 4
    ensures var s := PieceThen(Twice(high, low), more);
      && |s| >= 12 && s[0] == BACKSLASH && s[1] == SMALL_U && s[6] == BACKSLASH && s[7] == SMALL_U
      && s[2..6] == high && s[6..] == [92, 117] + (low + more) && s[8..12] == low && s[12..] == more
  {
    var s2 := [92, 117] + (low + more);
    UnitParts(high, s2);
    UnitParts(low, more);
    var s := [92, 117] + (high + s2);
    assert s[8..12] == s[6..][2..6] && s[12..] == s[6..][6..];
    assert s[6] == s[6..][0] && s[7] == s[6..][1];
  }

  lemma ShortRead(letter: Byte, more: seq<Byte>)
    requires letter != 117
    ensures Unescape([92, letter] + more) == Prepend(PieceMeans(Short(letter)), Unescape(more))
  {
    var s := [92, letter] + more;
    assert s[2..] == more && StepsOver(s[2..], 0);
    assert StepsOver(s, 2) && Escaped(s) == (PieceMeans(Short(letter)), 2);
    EscapeStep(s, PieceMeans(Short(letter)), 2);
  }

  lemma PieceRead(p: Piece, more: seq<Byte>)
    requires GoodPiece(p) && (p.Unit? && IsHigh(UnitOf(p.hex)) ==> !StartsUnicode(more))
    ensures Unescape(PieceThen(p, more)) == Prepend(PieceMeans(p), Unescape(more))
  {
    var s := PieceThen(p, more);
    match p
    case Plain(b) => assert s[1..] == more;
    case Short(letter) => ShortRead(letter, more);
    case Unit(hex) => OneUnitRead(hex, more);
    case Twice(high, low) => TwiceRead(high, low, more);
  }

  /** The end of a literal is its closing quote, or the end of the text. */
  predicate EndsLiteral(end: seq<Byte>) {
    end == [] || end[0] == QUOTE
  }

  lemma UnicodeStarts(ps: seq<Piece>, end: seq<Byte>)
    requires GoodPieces(ps) && EndsLiteral(end)
    ensures StartsUnicode(PiecesThen(ps, end)) <==> ps != [] && IsUnicode(ps[0])
  {
  }

  lemma {:induction false} PiecesRead(ps: seq<Piece>, end: seq<Byte>)
    requires GoodPieces(ps) && EndsLiteral(end)
    ensures Unescape(PiecesThen(ps, end)) == Ok(PiecesMean(ps), if end == [] then [] else end[1..])
  {
    if ps != [] {
      PiecesRead(ps[1..], end);
      UnicodeStarts(ps[1..], end);
      PieceRead(ps[0], PiecesThen(ps[1..], end));
    }
  }

  lemma LiteralRead(ps: seq<Piece>, more: seq<Byte>)
    requires GoodPieces(ps)
    ensures ParseString(LiteralThen(ps, more)) == Ok(PiecesMean(ps), more)
  {
    PiecesRead(ps, [34] + more);
    assert LiteralThen(ps, more)[1..] == PiecesThen(ps, [34] + more);
    assert ([34] + more)[1..] == more;
  }

  // ----- numbers

  lemma {:induction false} DigitsRead(front: seq<Byte>, digits: seq<Byte>, more: seq<Byte>, n: nat)
    requires forall i :: 0 <= i < |digits| ==> 48 <= digits[i] <= 57
    requires !StartsWithin(more, 48, 57) && n == Decimal(front)
    ensures Decimal(front + digits) >= 0 && ReadDigits(n, digits + more) == (Decimal(front + digits), more)
    decreases |digits|
  {
    if digits == [] {
      assert digits + more == more && front + digits == front;
    } else {
      var d := digits[0];
      OneDigitLonger(front, d);
      FirstMoves(front, digits, more);
      OneDigitRead(n, d, digits[1..] + more);
      DigitsRead(front + [d], digits[1..], more, 10 * n + (d as int - 48));
    }
  }

  lemma FirstMoves(front: seq<Byte>, digits: seq<Byte>, more: seq<Byte>)
    requires digits != []
    ensures (front + [digits[0]]) + digits[1..] == front + digits
    ensures digits + more == [digits[0]] + (digits[1..] + more)
  {
  }

  lemma OneDigitRead(n: nat, d: Byte, s: seq<Byte>)
    requires 48 <= d <= 57
    ensures ReadDigits(n, [d] + s) == ReadDigits(10 * n + (d as int - 48), s)
  {
    assert ([d] + s)[1..] == s;
  }

  lemma OneDigitLonger(front: seq<Byte>, c: Byte)
    ensures Decimal(front + [c]) == 10 * Decimal(front) + (c as int - 48)
  {
    assert (front + [c])[..|front|] == front;
  }

  /** The number in front of a text, from its first digit other than zero. */
  function Leading(s: seq<Byte>): (nat, seq<Byte>) {
    if StartsWithin(s, 49, 57) then ReadDigits(0, s) else (0, s)
  }

  function Unsigned(s: seq<Byte>): (nat, seq<Byte>) {
    Leading(if StartsWithin(s, 48, 48) then s[1..] else s)
  }

  /** A number of that sign and size, if it is a C `int` and nothing goes on with it. */
  function Settled(negative: bool, size: int, rest: seq<Byte>): Parsed<Value> {
    var n := Signed(negative, size);
    if FractionOrExponent(rest) || !(-0x8000_0000 <= n < 0x8000_0000) then Undefined else Ok(Number(n), rest)
  }

  lemma NumberBySign(negative: bool, s: seq<Byte>, n: nat, rest: seq<Byte>)
    requires (negative || !StartsWithin(s, 45, 45)) && Unsigned(s) == (n, rest)
    ensures ParseNumber((if negative then [45] else []) + s) == Settled(negative, n, rest)
  {
    assert ([45] + s)[1..] == s && [] + s == s;
  }

  /** The digits of a number after its first zero, up to where the parser stops reading them. */
  predicate Parted(zero: bool, digits: seq<Byte>, more: seq<Byte>) {
    && (forall i :: 0 <= i < |digits| ==> 48 <= digits[i] <= 57)
    && (digits != [] ==> digits[0] != 48 && !StartsWithin(more, 48, 57))
    && (digits == [] ==> !StartsWithin(more, 49, 57) && (zero || !StartsWithin(more, 48, 48)))
  }

  lemma UnsignedRead(zero: bool, digits: seq<Byte>, more: seq<Byte>, s: seq<Byte>)
    requires Parted(zero, digits, more) && s == (if zero then [48] else []) + (digits + more)
    ensures Decimal(digits) >= 0 && Unsigned(s) == (Decimal(digits), more)
  {
    var s2 := digits + more;
    assert ([48] + s2)[1..] == s2 && [] + s2 == s2;
    if digits == [] {
      assert s2 == more;
    } else {
      DigitsRead([], digits, more, 0);
      assert [] + digits == digits && s2[0] == digits[0];
    }
  }

  /** What the parser makes of a number taken apart; `s1` is what comes after its sign. */
  lemma NumberOfParts(negative: bool, zero: bool, digits: seq<Byte>, more: seq<Byte>, s1: seq<Byte>, s: seq<Byte>)
    requires Parted(zero, digits, more) && s1 == (if zero then [48] else []) + (digits + more)
    requires (negative || !StartsWithin(s1, 45, 45)) && s == (if negative then [45] else []) + s1
    ensures ParseNumber(s) == Settled(negative, Decimal(digits), more)
  {
    UnsignedRead(zero, digits, more, s1);
    NumberBySign(negative, s1, Decimal(digits), more);
  }

  lemma NumeralRead(negative: bool, zero: bool, digits: seq<Byte>, more: seq<Byte>)
    requires var x := Numeral(negative, zero, digits); Good(x) && MayFollow(x, more)
    ensures var x := Numeral(negative, zero, digits); ParseNumber(Then(x, more)) == Ok(Means(x), more)
  {
    NoFraction(Numeral(negative, zero, digits), more);
    NoOtherSign(negative, zero, digits, more);
    var s1 := (if zero then [48] else []) + (digits + more);
    NumberOfParts(negative, zero, digits, more, s1, Then(Numeral(negative, zero, digits), more));
  }

  /** A number without a sign starts with a digit; after a sign another one may follow, which ends the number. */
  lemma NoOtherSign(negative: bool, zero: bool, digits: seq<Byte>, more: seq<Byte>)
    requires GoodNumeral(negative, zero, digits)
    ensures negative || !StartsWithin((if zero then [48] else []) + (digits + more), 45, 45)
  {
  }

  lemma NoFraction(x: Syntax, more: seq<Byte>)
    requires x.Numeral? && MayFollow(x, more)
    ensures !FractionOrExponent(more)
  {
  }

  // ----- values

  /** The first byte of a value, and nothing to skip before it. */
  lemma ThenStarts(x: Syntax, more: seq<Byte>)
    requires Good(x)
    ensures var s := Then(x, more);
      && s != [] && s[0] > 32 && s[0] != CLOSE_ARRAY && Skip(s) == s
      && (x.Numeral? <==> s[0] == MINUS || IsDigit(s[0]))
      && (x.Literal? || x.OpenLiteral? <==> s[0] == QUOTE)
  {
  }

  /** After a value inside brackets come white space and a comma or a bracket, which go on with no number. */
  lemma FollowsInside(x: Syntax, after: seq<Byte>, next: seq<Byte>)
    requires Blank(after) && next != [] && next[0] in {COMMA, CLOSE_ARRAY, CLOSE_OBJECT} && !x.OpenLiteral?
    ensures MayFollow(x, after + next) && Skip(after + next) == next
  {
    SkipBlanks(after, next);
    assert (after + next)[0] == if after == [] then next[0] else after[0];
  }

  lemma {:induction false} ValueRead(x: Syntax, more: seq<Byte>)
    requires Good(x) && MayFollow(x, more)
    ensures ParseValue(Then(x, more)) == Ok(Means(x), more)
    decreases x, 1
  {
    var s := Then(x, more);
    ThenStarts(x, more);
    FirstLetter(s);
    match x
    case WordNull => LiteralBack(NULL_TEXT, more);
    case WordFalse => LiteralBack(FALSE_TEXT, more);
    case WordTrue => LiteralBack(TRUE_TEXT, more);
    case Numeral(negative, zero, digits) => NumeralRead(negative, zero, digits, more);
    case Literal(ps) => LiteralRead(ps, more);
    case OpenLiteral(ps) =>
      PiecesRead(ps, []);
      assert s[1..] == PiecesThen(ps, []);
    case EmptyList(blank) => EmptyRead(blank, 91, 93, more);
    case EmptyRecord(blank) => EmptyRead(blank, 123, 125, more);
    case List(items) => ListRead(items, more);
    case Record(entries) => RecordRead(entries, more);
  }

  lemma EmptyRead(blank: seq<Byte>, open: Byte, close: Byte, more: seq<Byte>)
    requires Blank(blank) && ((open == 91 && close == 93) || (open == 123 && close == 125))
    ensures ParseValue([open] + (blank + ([close] + more)))
      == Ok(if open == 91 then Array([]) else Object([]), more)
  {
    var s := [open] + (blank + ([close] + more));
    assert s[1..] == blank + ([close] + more);
    SkipBlanks(blank, [close] + more);
    assert ([close] + more)[1..] == more;
    FirstLetter(s);
  }

  lemma {:induction false} ListRead(items: seq<Element>, more: seq<Byte>)
    requires items != [] && GoodItems(items)
    ensures ParseValue([91] + ItemsThen(items, [93] + more)) == Ok(Array(ItemsMean(items)), more)
    decreases items, 1
  {
    var inside := ItemsThen(items, [93] + more);
    var s := [91] + inside;
    assert s[1..] == inside && ([93] + more)[1..] == more;
    ParseArray(s, Skip(inside));
    ItemsRead(items, [93] + more);
    SkipAgain(inside);
    ParseItemsSkips(Skip(inside), inside);
  }

  lemma {:induction false} SkipAgain(s: seq<Byte>)
    ensures Skip(Skip(s)) == Skip(s)
  {
    if s != [] && 1 <= s[0] <= 32 {
      SkipAgain(s[1..]);
    }
  }

  lemma {:induction false} ItemsRead(items: seq<Element>, end: seq<Byte>)
    requires items != [] && GoodItems(items) && end != [] && end[0] == 93
    ensures ParseItems(ItemsThen(items, end)) == Ok(ItemsMean(items), end)
    ensures Peek(Skip(ItemsThen(items, end)), 0) != 93
    decreases items, 0
  {
    var item := items[0];
    var next := if |items| == 1 then end else [44] + ItemsThen(items[1..], end);
    var rest := item.after + next;
    FollowsInside(item.value, item.after, next);
    ValueRead(item.value, rest);
    ThenStarts(item.value, rest);
    SkipBlanks(item.before, Then(item.value, rest));
    ItemThenMore(ItemsThen(items, end), Means(item.value), rest);
    if |items| == 1 {
      assert ItemsMean(items) == [Means(item.value)];
    } else {
      ItemsRead(items[1..], end);
      assert next[1..] == ItemsThen(items[1..], end);
    }
  }

  lemma {:induction false} RecordRead(entries: seq<Entry>, more: seq<Byte>)
    requires entries != [] && GoodEntries(entries)
    ensures ParseValue([123] + EntriesThen(entries, [125] + more)) == Ok(Object(EntriesMean(entries)), more)
    decreases entries, 1
  {
    var inside := EntriesThen(entries, [125] + more);
    var s := [123] + inside;
    assert s[1..] == inside && ([125] + more)[1..] == more;
    ParseObject(s, Skip(inside));
    EntriesRead(entries, [125] + more);
    SkipAgain(inside);
    ParseMembersSkips(Skip(inside), inside);
  }

  lemma {:induction false} EntryRead(e: Entry, next: seq<Byte>)
    requires GoodEntry(e) && next != [] && next[0] in {COMMA, CLOSE_OBJECT}
    ensures ParseMember(EntryThen(e, next)) == Ok(EntryMeans(e), e.after + next)
    ensures Peek(Skip(EntryThen(e, next)), 0) == QUOTE && Skip(e.after + next) == next
    decreases e, 2
  {
    var rest := e.after + next;
    var value := Then(e.value, rest);
    var colon := [58] + (e.beforeValue + value);
    FollowsInside(e.value, e.after, next);
    ValueRead(e.value, rest);
    ThenStarts(e.value, rest);
    SkipBlanks(e.beforeValue, value);
    SkipBlanks(e.afterName, colon);
    assert colon[1..] == e.beforeValue + value;
    LiteralRead(e.name, e.afterName + colon);
    SkipBlanks(e.before, LiteralThen(e.name, e.afterName + colon));
    NameThenValue(EntryThen(e, next), PiecesMean(e.name), e.afterName + colon);
  }

  lemma {:induction false} EntriesRead(entries: seq<Entry>, end: seq<Byte>)
    requires entries != [] && GoodEntries(entries) && end != [] && end[0] == 125
    ensures ParseMembers(EntriesThen(entries, end)) == Ok(EntriesMean(entries), end)
    ensures Peek(Skip(EntriesThen(entries, end)), 0) == QUOTE
    decreases entries, 0
  {
    var next := if |entries| == 1 then end else [44] + EntriesThen(entries[1..], end);
    EntryRead(entries[0], next);
    MemberThenMore(EntriesThen(entries, end), EntryMeans(entries[0]), entries[0].after + next);
    if |entries| == 1 {
      assert EntriesMean(entries) == [EntryMeans(entries[0])];
    } else {
      EntriesRead(entries[1..], end);
      assert next[1..] == EntriesThen(entries[1..], end);
    }
  }

  // ----- every text that is read is one of these forms

  lemma {:induction false} BlanksIn(s: seq<Byte>) returns (w: seq<Byte>)
    ensures Blank(w) && s == w + Skip(s)
  {
    w := [];
    if s != [] && 1 <= s[0] <= 32 {
      var more := BlanksIn(s[1..]);
      w := [s[0]] + more;
      Regroup([s[0]], more, Skip(s));
      assert s == [s[0]] + s[1..];
    }
  }

  lemma UnicodeIn(s: seq<Byte>) returns (p: Piece, more: seq<Byte>)
    requires |s| >= 2 && s[0] == BACKSLASH && s[1] == SMALL_U && Unescape(s).Ok?
    ensures s == PieceThen(p, more) && |more| < |s| && GoodPiece(p)
    ensures p.Unit? && IsHigh(UnitOf(p.hex)) ==> !StartsUnicode(more)
  {
    EscapeStep(s, Escaped(s).0, Escaped(s).1);
    var hex := s[2..6];
    assert s == [92, 117] + (hex + s[6..]);
    UnitRead(hex, s, 2);
    if Escaped(s).1 == 6 {
      p, more := Unit(hex), s[6..];
      UnitSteps(hex, more);
      assert IsHigh(UnitOf(hex)) ==> Peek(s, 6) == Peek(more, 0) && Peek(s, 7) == Peek(more, 1);
    } else {
      more := s[12..];
      p := SecondIn(s, hex, s[8..12], more);
    }
  }

  lemma SecondIn(s: seq<Byte>, high: seq<Byte>, low: seq<Byte>, more: seq<Byte>) returns (p: Piece)
    requires |s| >= 12 && s[0] == BACKSLASH && s[1] == SMALL_U && StepsOver(s, 12) && Escaped(s).1 == 12
    requires high == s[2..6] && low == s[8..12] && more == s[12..]
    ensures p == Twice(high, low) && GoodPiece(p) && s == PieceThen(p, more)
  {
    p := Twice(high, low);
    UnitRead(high, s, 2);
    SecondStarts(s);
    var s2 := [92, 117] + (low + more);
    assert s == [92, 117] + (high + s2);
    UnicodeSteps(s, 6);
    assert s[6..] == s2;
    UnitSteps(low, more);
  }

  lemma SecondStarts(s: seq<Byte>)
    requires |s| >= 12 && s[0] == BACKSLASH && s[1] == SMALL_U && Escaped(s).1 == 12
    ensures IsHighSurrogate(CodeUnit(s, 2)) && s[6] == BACKSLASH && s[7] == SMALL_U
  {
  }

  lemma PieceIn(s: seq<Byte>) returns (p: Piece, more: seq<Byte>)
    requires s != [] && s[0] != QUOTE && Unescape(s).Ok?
    ensures s == PieceThen(p, more) && |more| < |s| && GoodPiece(p)
    ensures p.Unit? && IsHigh(UnitOf(p.hex)) ==> !StartsUnicode(more)
  {
    if s[0] != BACKSLASH {
      p, more := Plain(s[0]), s[1..];
    } else {
      EscapeStep(s, Escaped(s).0, Escaped(s).1);
      if s[1] != SMALL_U {
        p, more := Short(s[1]), s[2..];
      } else {
        p, more := UnicodeIn(s);
      }
    }
  }

  lemma {:induction false} PiecesIn(s: seq<Byte>) returns (ps: seq<Piece>, end: seq<Byte>)
    requires Unescape(s).Ok?
    ensures GoodPieces(ps) && EndsLiteral(end) && s == PiecesThen(ps, end)
    decreases |s|
  {
    ps, end := [], s;
    if !EndsLiteral(s) {
      var p, more := PieceIn(s);
      PieceRead(p, more);
      var others, last := PiecesIn(more);
      UnicodeStarts(others, last);
      ps, end := [p] + others, last;
    }
  }

  lemma {:induction false} DigitsIn(s: seq<Byte>) returns (digits: seq<Byte>, more: seq<Byte>)
    ensures forall i :: 0 <= i < |digits| ==> 48 <= digits[i] <= 57
    ensures s == digits + more && !StartsWithin(more, 48, 57)
  {
    digits, more := [], s;
    if StartsWithin(s, 48, 57) {
      var others, last := DigitsIn(s[1..]);
      digits, more := [s[0]] + others, last;
    }
  }

  /** The number in front of a text that may start with a zero. */
  lemma UnsignedIn(s: seq<Byte>) returns (zero: bool, digits: seq<Byte>, more: seq<Byte>)
    ensures Parted(zero, digits, more) && s == (if zero then [48] else []) + (digits + more)
  {
    zero := StartsWithin(s, 48, 48);
    var s2 := if zero then s[1..] else s;
    digits, more := [], s2;
    if StartsWithin(s2, 49, 57) {
      digits, more := DigitsIn(s2);
    }
  }

  lemma NumeralIn(s: seq<Byte>, v: Value, rest: seq<Byte>) returns (x: Syntax)
    requires s != [] && (s[0] == MINUS || IsDigit(s[0])) && ParseNumber(s) == Ok(v, rest)
    ensures s == Then(x, rest) && Good(x) && x.Numeral? && MayFollow(x, rest) && Means(x) == v
  {
    var negative, zero, digits, more, s1 := NumeralParts(s);
    x := Numeral(negative, zero, digits);
    NumberOfParts(negative, zero, digits, more, s1, s);
    FollowsNumeral(negative, zero, digits, more);
  }

  lemma NumeralParts(s: seq<Byte>)
    returns (negative: bool, zero: bool, digits: seq<Byte>, more: seq<Byte>, s1: seq<Byte>)
    requires s != [] && (s[0] == MINUS || IsDigit(s[0]))
    ensures Parted(zero, digits, more) && s1 == (if zero then [48] else []) + (digits + more)
    ensures (negative || !StartsWithin(s1, 45, 45)) && s == (if negative then [45] else []) + s1
    ensures digits == [] ==> negative || zero
  {
    negative := s[0] == 45;
    s1 := if negative then s[1..] else s;
    zero, digits, more := UnsignedIn(s1);
    NotNothing(s, more, negative, zero, digits);
  }

  /** A text that starts with a sign or a digit does not start with a number of nothing. */
  lemma NotNothing(s: seq<Byte>, more: seq<Byte>, negative: bool, zero: bool, digits: seq<Byte>)
    requires s != [] && (s[0] == MINUS || IsDigit(s[0])) && (negative <==> s[0] == 45)
    requires s == Then(Numeral(negative, zero, digits), more) && Parted(zero, digits, more)
    ensures digits == [] ==> negative || zero
  {
    assert digits == [] && !negative && !zero ==> s == more;
  }

  lemma FollowsNumeral(negative: bool, zero: bool, digits: seq<Byte>, more: seq<Byte>)
    requires Parted(zero, digits, more)
    ensures !FractionOrExponent(more) ==> MayFollow(Numeral(negative, zero, digits), more)
  {
  }

  lemma StringIn(s: seq<Byte>, bytes: seq<Byte>, rest: seq<Byte>) returns (x: Syntax)
    requires s != [] && s[0] == QUOTE && ParseString(s) == Ok(bytes, rest)
    ensures s == Then(x, rest) && Good(x) && MayFollow(x, rest) && Means(x) == String(bytes)
  {
    var ps, end := PiecesIn(s[1..]);
    PiecesRead(ps, end);
    assert s == [34] + s[1..];
    if end == [] {
      x := OpenLiteral(ps);
    } else {
      x := Literal(ps);
      assert end == [34] + end[1..];
    }
  }

  lemma WordIn(s: seq<Byte>, v: Value, rest: seq<Byte>) returns (x: Syntax)
    requires ParseValue(s) == Ok(v, rest)
    requires StartsWith(s, NULL_TEXT) || StartsWith(s, FALSE_TEXT) || StartsWith(s, TRUE_TEXT)
    ensures s == Then(x, rest) && Good(x) && MayFollow(x, rest) && Means(x) == v
  {
    x := if StartsWith(s, NULL_TEXT) then WordNull else if StartsWith(s, FALSE_TEXT) then WordFalse else WordTrue;
    FirstLetter(s);
    assert s == s[..4] + s[4..];
    assert |s| >= 5 ==> s == s[..5] + s[5..];
  }

  lemma {:induction false} ValueIn(s: seq<Byte>, v: Value, rest: seq<Byte>) returns (x: Syntax)
    requires ParseValue(s) == Ok(v, rest)
    ensures s == Then(x, rest) && Good(x) && MayFollow(x, rest) && Means(x) == v
    decreases |s|, 1
  {
    FirstLetter(s);
    if StartsWith(s, NULL_TEXT) || StartsWith(s, FALSE_TEXT) || StartsWith(s, TRUE_TEXT) {
      x := WordIn(s, v, rest);
    } else if s[0] == QUOTE {
      x := StringIn(s, v.s, rest);
    } else if s[0] == MINUS || IsDigit(s[0]) {
      x := NumeralIn(s, v, rest);
    } else if s[0] == OPEN_ARRAY {
      ParseArray(s, Skip(s[1..]));
      ListCases(s[1..], v, rest);
      x := ListIn(s[1..], v.items, rest);
      assert s == [91] + s[1..];
    } else {
      ParseObject(s, Skip(s[1..]));
      RecordCases(s[1..], v, rest);
      x := RecordIn(s[1..], v.members, rest);
      assert s == [123] + s[1..];
    }
  }

  /** An array in brackets is empty, or some items follow. */
  lemma ListCases(s: seq<Byte>, v: Value, rest: seq<Byte>)
    requires ItemsThenClose(Skip(s)) == Ok(v, rest)
    ensures v.Array?
    ensures v.items == [] ==> Skip(s) == [93] + rest
    ensures v.items != [] ==> ParseItems(s) == Ok(v.items, [93] + rest)
  {
    SkipAgain(s);
    ParseItemsSkips(s, Skip(s));
  }

  lemma RecordCases(s: seq<Byte>, v: Value, rest: seq<Byte>)
    requires MembersThenClose(Skip(s)) == Ok(v, rest)
    ensures v.Object?
    ensures v.members == [] ==> Skip(s) == [125] + rest
    ensures v.members != [] ==> ParseMembers(s) == Ok(v.members, [125] + rest)
  {
    SkipAgain(s);
    ParseMembersSkips(s, Skip(s));
  }

  lemma {:induction false} ListIn(s: seq<Byte>, items: seq<Value>, rest: seq<Byte>) returns (x: Syntax)
    requires items == [] ==> Skip(s) == [93] + rest
    requires items != [] ==> ParseItems(s) == Ok(items, [93] + rest)
    ensures [91] + s == Then(x, rest) && Good(x) && MayFollow(x, rest) && Means(x) == Array(items)
    decreases |s|, 4
  {
    if items == [] {
      var blank := BlanksIn(s);
      x := EmptyList(blank);
    } else {
      var list := ItemsIn(s, items, [93] + rest);
      x := List(list);
    }
  }

  lemma {:induction false} RecordIn(s: seq<Byte>, members: seq<Member>, rest: seq<Byte>) returns (x: Syntax)
    requires members == [] ==> Skip(s) == [125] + rest
    requires members != [] ==> ParseMembers(s) == Ok(members, [125] + rest)
    ensures [123] + s == Then(x, rest) && Good(x) && MayFollow(x, rest) && Means(x) == Object(members)
    decreases |s|, 4
  {
    if members == [] {
      var blank := BlanksIn(s);
      x := EmptyRecord(blank);
    } else {
      var entries := EntriesIn(s, members, [125] + rest);
      x := Record(entries);
    }
  }

  lemma {:induction false} ItemIn(s: seq<Byte>, v: Value, rest: seq<Byte>) returns (item: Element)
    requires ParseValue(Skip(s)) == Ok(v, rest) && Skip(rest) != []
    ensures GoodItems([item]) && Means(item.value) == v
    ensures s == item.before + Then(item.value, item.after + Skip(rest))
    decreases |s|, 2
  {
    var before := BlanksIn(s);
    var value := ValueIn(Skip(s), v, rest);
    var after := BlanksIn(rest);
    item := Element(before, value, after);
    assert GoodItems([item][1..]);
  }

  lemma {:induction false} ItemsIn(s: seq<Byte>, values: seq<Value>, end: seq<Byte>) returns (items: seq<Element>)
    requires ParseItems(s) == Ok(values, end) && end != []
    ensures items != [] && GoodItems(items) && s == ItemsThen(items, end) && ItemsMean(items) == values
    decreases |s|, 3
  {
    var v, rest, next := FirstItem(s, values, end);
    var item := ItemIn(s, v, rest);
    var others: seq<Element> := [];
    if next[0] == 44 {
      others := ItemsIn(next[1..], values[1..], end);
    }
    items := ItemsPut(item, others, end);
  }

  lemma FirstItem(s: seq<Byte>, values: seq<Value>, end: seq<Byte>) returns (v: Value, rest: seq<Byte>, next: seq<Byte>)
    requires ParseItems(s) == Ok(values, end) && end != []
    ensures ParseValue(Skip(s)) == Ok(v, rest) && next == Skip(rest) != [] && values != [] && v == values[0]
    ensures next[0] != 44 ==> values == [v] && end == next
    ensures next[0] == 44 ==> ParseItems(next[1..]) == Ok(values[1..], end) && values == [v] + values[1..]
    ensures next[0] == 44 ==> next == [44] + next[1..] && |next| <= |s|
  {
    v, rest := ParseValue(Skip(s)).value, ParseValue(Skip(s)).rest;
    next := Skip(rest);
    ItemThenMore(s, v, rest);
  }

  lemma ItemsPut(item: Element, others: seq<Element>, end: seq<Byte>) returns (items: seq<Element>)
    requires GoodItems([item]) && GoodItems(others)
    ensures items != [] && GoodItems(items) && ItemsMean(items) == [Means(item.value)] + ItemsMean(others)
    ensures var next := if others == [] then end else [44] + ItemsThen(others, end);
      ItemsThen(items, end) == item.before + Then(item.value, item.after + next)
  {
    items := [item] + others;
    assert items[1..] == others;
  }

  lemma {:induction false} EntryIn(s: seq<Byte>, m: Member, rest: seq<Byte>) returns (e: Entry)
    requires ParseMember(s) == Ok(m, rest) && Skip(rest) != []
    ensures GoodEntry(e) && s == EntryThen(e, Skip(rest)) && EntryMeans(e) == m
    decreases |s|, 2
  {
    var t, left, colon := MemberIn(s, m, rest);
    var before := BlanksIn(s);
    var name := StringIn(t, m.name, left);
    var afterName := BlanksIn(left);
    var beforeValue := BlanksIn(colon);
    var value := ValueIn(Skip(colon), m.value, rest);
    var after := BlanksIn(rest);
    e := Entry(before, name.pieces, afterName, beforeValue, value, after);
  }

  /** Where the name of a member, its colon and its value are. */
  lemma MemberIn(s: seq<Byte>, m: Member, rest: seq<Byte>)
    returns (t: seq<Byte>, left: seq<Byte>, colon: seq<Byte>)
    requires ParseMember(s) == Ok(m, rest)
    ensures t == Skip(s) != [] && t[0] == QUOTE && ParseString(t) == Ok(m.name, left)
    ensures Skip(left) == [58] + colon && ParseValue(Skip(colon)) == Ok(m.value, rest) && |Skip(colon)| < |s|
  {
    t := Skip(s);
    left := ParseString(t).rest;
    NameThenValue(s, ParseString(t).value, left);
    UnescapeShrinks(t[1..]);
    ColonThenValue(ParseString(t).value, left, m, rest);
    colon := Skip(left)[1..];
  }

  lemma ColonThenValue(name: seq<Byte>, s: seq<Byte>, m: Member, rest: seq<Byte>)
    requires MemberValue(name, s) == Ok(m, rest)
    ensures Peek(Skip(s), 0) == COLON && m.name == name && ParseValue(Skip(Skip(s)[1..])) == Ok(m.value, rest)
  {
  }

  lemma {:induction false} EntriesIn(s: seq<Byte>, members: seq<Member>, end: seq<Byte>) returns (entries: seq<Entry>)
    requires ParseMembers(s) == Ok(members, end) && end != []
    ensures entries != [] && GoodEntries(entries) && s == EntriesThen(entries, end) && EntriesMean(entries) == members
    decreases |s|, 3
  {
    var m, rest, next := FirstMember(s, members, end);
    var e := EntryIn(s, m, rest);
    var others: seq<Entry> := [];
    if next[0] == 44 {
      others := EntriesIn(next[1..], members[1..], end);
    }
    entries := EntriesPut(e, others, end);
  }

  lemma FirstMember(s: seq<Byte>, members: seq<Member>, end: seq<Byte>)
    returns (m: Member, rest: seq<Byte>, next: seq<Byte>)
    requires ParseMembers(s) == Ok(members, end) && end != []
    ensures ParseMember(s) == Ok(m, rest) && next == Skip(rest) != [] && members != [] && m == members[0]
    ensures next[0] != 44 ==> members == [m] && end == next
    ensures next[0] == 44 ==> ParseMembers(next[1..]) == Ok(members[1..], end) && members == [m] + members[1..]
    ensures next[0] == 44 ==> next == [44] + next[1..] && |next| <= |s|
  {
    m, rest := ParseMember(s).value, ParseMember(s).rest;
    next := Skip(rest);
    MemberThenMore(s, m, rest);
  }

  lemma EntriesPut(e: Entry, others: seq<Entry>, end: seq<Byte>) returns (entries: seq<Entry>)
    requires GoodEntry(e) && GoodEntries(others)
    ensures entries != [] && GoodEntries(entries) && EntriesMean(entries) == [EntryMeans(e)] + EntriesMean(others)
    ensures EntriesThen(entries, end) == EntryThen(e, if others == [] then end else [44] + EntriesThen(others, end))
  {
    entries := [e] + others;
    assert entries[1..] == others;
  }

  /** White space, one form of the value, and what the parser leaves alone. */
  predicate Spells(text: seq<Byte>, before: seq<Byte>, x: Syntax, v: Value, rest: seq<Byte>) {
    Blank(before) && Good(x) && MayFollow(x, rest) && text == before + Then(x, rest) && v == Means(x)
  }

  /** `cJSON_Parse` reads a text as a value, up to a place, exactly if the text is a form of the value up to there. */
  lemma ParsesExactly(text: seq<Byte>, v: Value, rest: seq<Byte>)
    ensures Parse(text) == Ok(v, rest) <==> exists before, x :: Spells(text, before, x, v, rest)
  {
    if Parse(text) == Ok(v, rest) {
      var before := BlanksIn(text);
      var x := ValueIn(Skip(text), v, rest);
      assert Spells(text, before, x, v, rest);
    }
    forall before, x | Spells(text, before, x, v, rest) ensures Parse(text) == Ok(v, rest) {
      SkipBlanks(before, Then(x, rest));
      ThenStarts(x, rest);
      ValueRead(x, rest);
    }
  }

  // ----- some texts that no printer writes

  lemma SpacedPair(x: Syntax, y: Syntax, w: seq<Byte>)
    requires Good(x) && Good(y) && !x.OpenLiteral? && !y.OpenLiteral? && Blank(w)
    ensures ParseValue([91] + Then(x, w + ([44] + Then(y, w + [93])))) == Ok(Array([Means(x), Means(y)]), [])
  {
    var last := [Element([], y, w)];
    var items := [Element([], x, w)] + last;
    assert items[1..] == last && last[1..] == [];
    assert ItemsThen(last, [93]) == Then(y, w + [93]);
    assert ItemsThen(items, [93]) == Then(x, w + ([44] + Then(y, w + [93])));
    assert ItemsMean(last) == [Means(y)];
    assert ItemsMean(items) == [Means(x), Means(y)];
    assert GoodItems(last);
    ListRead(items, []);
    assert [93] + [] == [93];
  }

  lemma SpacedMember(name: seq<Piece>, x: Syntax, w: seq<Byte>)
    requires GoodPieces(name) && Good(x) && !x.OpenLiteral? && Blank(w)
    ensures ParseValue([123] + (w + LiteralThen(name, w + ([58] + (w + Then(x, w + [125]))))))
      == Ok(Object([Member(PiecesMean(name), Means(x))]), [])
  {
    var e := Entry(w, name, w, w, x, w);
    assert GoodEntry(e) && EntryMeans(e) == Member(PiecesMean(name), Means(x));
    var entries := [e];
    assert GoodEntries(entries[1..]) && EntriesMean(entries[1..]) == [];
    assert EntriesThen(entries, [125]) == EntryThen(e, [125]);
    assert EntriesMean(entries) == [EntryMeans(e)];
    RecordRead(entries, []);
    assert [125] + [] == [125];
  }

  /** A number of one digit. */
  function Digit(c: Byte): (x: Syntax)
    requires 49 <= c <= 57
    ensures Good(x) && !x.OpenLiteral? && Means(x) == Number(c as int - 48)
  {
    assert Decimal([c][..0]) == 0;
    Numeral(false, false, [c])
  }

  lemma DigitThen(c: Byte, more: seq<Byte>)
    requires 49 <= c <= 57
    ensures Then(Digit(c), more) == [c] + more
  {
    assert [] + ([] + ([c] + more)) == [c] + more;
  }

  /** `[ ]`, with white space inside. */
  lemma SpacedEmpty()
    ensures Parse([91, 32, 93]) == Ok(Array([]), [])
  {
    EmptyRead([32], 91, 93, []);
    assert [91] + ([32] + ([93] + [])) == [91, 32, 93];
  }

  /** `[1 ,2 ]`, with white space after the items. */
  lemma SpacedItems(text: seq<Byte>)
    requires text == [91, 49, 32, 44, 50, 32, 93]
    ensures Parse(text) == Ok(Array([Number(1), Number(2)]), [])
  {
    SpacedPair(Digit(49), Digit(50), [32]);
    DigitThen(50, [32] + [93]);
    DigitThen(49, [32] + ([44] + ([50] + ([32] + [93]))));
    assert text == [91] + ([49] + ([32] + ([44] + ([50] + ([32] + [93])))));
  }

  /** `{ "a" : 1 }`, with white space around every token. */
  lemma SpacedRecord(text: seq<Byte>)
    requires text == [123, 32, 34, 97, 34, 32, 58, 32, 49, 32, 125]
    ensures Parse(text) == Ok(Object([Member([97], Number(1))]), [])
  {
    var name, one := [Plain(97)], Digit(49);
    var value := [32] + Then(one, [32] + [125]);
    DigitThen(49, [32] + [125]);
    NameThen(97, [32] + ([58] + value));
    SpacedMember(name, one, [32]);
    assert text == [123] + ([32] + ([34, 97, 34] + ([32] + ([58] + value))));
  }

  lemma NameThen(c: Byte, more: seq<Byte>)
    requires c != 34 && c != 92
    ensures LiteralThen([Plain(c)], more) == [34, c, 34] + more
    ensures GoodPieces([Plain(c)]) && PiecesMean([Plain(c)]) == [c]
  {
    var name := [Plain(c)];
    assert name[1..] == [] && PiecesThen(name, [34] + more) == [c] + ([34] + more);
    assert PiecesMean(name[1..]) == [] && [c] + [] == [c];
  }
}
