/** Which texts stand for a value, and for which one: the forms of a JSON text as this parser knows them. */
module JsonSyntax {
  import opened Octets
  import opened Json
  import Utf8

  /** One character of a string literal: itself, a letter after a backslash, or one or two `\u` escapes. */
  datatype Piece = Plain(b: Byte) | Short(letter: Byte) | Unit(hex: seq<Byte>) | Twice(high: seq<Byte>, low: seq<Byte>)

  /** A value with all the choices its writer had; white space is any bytes from 1 to 32. */
  datatype Syntax =
    | WordNull
    | WordFalse
    | WordTrue
    | Numeral(negative: bool, zero: bool, digits: seq<Byte>)
    | Literal(pieces: seq<Piece>)
    | OpenLiteral(pieces: seq<Piece>)
    | EmptyList(blank: seq<Byte>)
    | List(items: seq<Element>)
    | EmptyRecord(blank: seq<Byte>)
    | Record(entries: seq<Entry>)

  datatype Element = Element(before: seq<Byte>, value: Syntax, after: seq<Byte>)

  datatype Entry = Entry(before: seq<Byte>, name: seq<Piece>, afterName: seq<Byte>, beforeValue: seq<Byte>,
                         value: Syntax, after: seq<Byte>)

  // ----- the text, up to and including what follows it

  function PieceThen(p: Piece, more: seq<Byte>): seq<Byte> {
    match p
    case Plain(b) => [b] + more
    case Short(letter) => [92, letter] + more
    case Unit(hex) => [92, 117] + (hex + more)
    case Twice(high, low) => [92, 117] + (high + ([92, 117] + (low + more)))
  }

  function PiecesThen(ps: seq<Piece>, more: seq<Byte>): seq<Byte> {
    if ps == [] then more else PieceThen(ps[0], PiecesThen(ps[1..], more))
  }

  function LiteralThen(ps: seq<Piece>, more: seq<Byte>): seq<Byte> {
    [34] + PiecesThen(ps, [34] + more)
  }

  function Then(x: Syntax, more: seq<Byte>): seq<Byte>
    decreases x, 1
  {
    match x
    case WordNull => [110, 117, 108, 108] + more
    case WordFalse => [102, 97, 108, 115, 101] + more
    case WordTrue => [116, 114, 117, 101] + more
    case Numeral(negative, zero, digits) =>
      (if negative then [45] else []) + ((if zero then [48] else []) + (digits + more))
    case Literal(ps) => LiteralThen(ps, more)
    case OpenLiteral(ps) => [34] + PiecesThen(ps, more)
    case EmptyList(blank) => [91] + (blank + ([93] + more))
    case List(items) => [91] + ItemsThen(items, [93] + more)
    case EmptyRecord(blank) => [123] + (blank + ([125] + more))
    case Record(entries) => [123] + EntriesThen(entries, [125] + more)
  }

  function ItemsThen(items: seq<Element>, more: seq<Byte>): seq<Byte>
    decreases items, 0
  {
    if items == [] then more
    else
      var next := if |items| == 1 then more else [44] + ItemsThen(items[1..], more);
      items[0].before + Then(items[0].value, items[0].after + next)
  }

  function EntryThen(e: Entry, more: seq<Byte>): seq<Byte>
    decreases e, 2
  {
    e.before + LiteralThen(e.name, e.afterName + ([58] + (e.beforeValue + Then(e.value, e.after + more))))
  }

  function EntriesThen(entries: seq<Entry>, more: seq<Byte>): seq<Byte>
    decreases entries, 0
  {
    if entries == [] then more
    else EntryThen(entries[0], if |entries| == 1 then more else [44] + EntriesThen(entries[1..], more))
  }

  // ----- which choices there are

  predicate Blank(w: seq<Byte>) {
    forall i :: 0 <= i < |w| ==> 1 <= w[i] <= 32
  }

  /** No bare quote, and no backslash without a byte after it. */
  predicate Closed(s: seq<Byte>) {
    if s == [] then true
    else if s[0] == 34 then false
    else if s[0] == 92 then |s| >= 2 && Closed(s[2..])
    else Closed(s[1..])
  }

  function DigitOf(c: Byte): int {
    if 48 <= c <= 57 then c as int - 48
    else if 65 <= c <= 70 then c as int - 55
    else if 97 <= c <= 102 then c as int - 87
    else -1
  }

  /** Four hexadecimal digits, as a number; any other four bytes count as zero. */
  function UnitOf(hex: seq<Byte>): nat
    requires |hex| == 4
  {
    var a, b, c, d := DigitOf(hex[0]), DigitOf(hex[1]), DigitOf(hex[2]), DigitOf(hex[3]);
    if a >= 0 && b >= 0 && c >= 0 && d >= 0 then 4096 * a + 256 * b + 16 * c + d else 0
  }

  predicate IsHigh(unit: nat) {
    0xD800 <= unit < 0xDC00
  }

  predicate IsLow(unit: nat) {
    0xDC00 <= unit < 0xE000
  }

  predicate GoodPiece(p: Piece) {
    match p
    case Plain(b) => b != 34 && b != 92
    case Short(letter) => letter != 117
    case Unit(hex) => |hex| == 4 && Closed(hex)
    case Twice(high, low) => |high| == 4 && |low| == 4 && IsHigh(UnitOf(high)) && Closed(low)
  }

  predicate IsUnicode(p: Piece) {
    p.Unit? || p.Twice?
  }

  /** The first half of a surrogate pair goes together with any `\u` escape after it. */
  predicate GoodPieces(ps: seq<Piece>) {
    ps != [] ==>
      && GoodPiece(ps[0]) && GoodPieces(ps[1..])
      && (ps[0].Unit? && IsHigh(UnitOf(ps[0].hex)) && |ps| > 1 ==> !IsUnicode(ps[1]))
  }

  /** The first zero of a number and the digits after it are different things: 007 is 0 and a stray 07. */
  predicate GoodNumeral(negative: bool, zero: bool, digits: seq<Byte>) {
    && (forall i :: 0 <= i < |digits| ==> 48 <= digits[i] <= 57)
    && (digits == [] ==> negative || zero)
    && (digits != [] ==> digits[0] != 48)
    && -0x8000_0000 <= Signed(negative, Decimal(digits)) < 0x8000_0000
  }

  function Decimal(digits: seq<Byte>): int {
    if digits == [] then 0
    else 10 * Decimal(digits[..|digits| - 1]) + (digits[|digits| - 1] as int - 48)
  }

  function Signed(negative: bool, n: int): int {
    if negative then -n else n
  }

  /** An unclosed literal is a value only at the end of the whole text. */
  predicate Good(x: Syntax)
    decreases x, 1
  {
    match x
    case Numeral(negative, zero, digits) => GoodNumeral(negative, zero, digits)
    case Literal(ps) => GoodPieces(ps)
    case OpenLiteral(ps) => GoodPieces(ps)
    case EmptyList(blank) => Blank(blank)
    case List(items) => items != [] && GoodItems(items)
    case EmptyRecord(blank) => Blank(blank)
    case Record(entries) => entries != [] && GoodEntries(entries)
    case _ => true
  }

  predicate GoodItems(items: seq<Element>)
    decreases items, 0
  {
    items != [] ==>
      && Blank(items[0].before) && Good(items[0].value) && !items[0].value.OpenLiteral? && Blank(items[0].after)
      && GoodItems(items[1..])
  }

  predicate GoodEntry(e: Entry)
    decreases e, 2
  {
    && Blank(e.before) && GoodPieces(e.name) && Blank(e.afterName) && Blank(e.beforeValue) && Blank(e.after)
    && Good(e.value) && !e.value.OpenLiteral?
  }

  predicate GoodEntries(entries: seq<Entry>)
    decreases entries, 0
  {
    entries != [] ==> GoodEntry(entries[0]) && GoodEntries(entries[1..])
  }

  predicate StartsWithin(s: seq<Byte>, low: Byte, high: Byte) {
    s != [] && low <= s[0] <= high
  }

  /** What may follow: nothing that goes on with a number, and nothing at all after an unclosed literal. */
  predicate MayFollow(x: Syntax, more: seq<Byte>) {
    match x
    case Numeral(negative, zero, digits) =>
      && !StartsWithin(more, 49, 57) && (StartsWithin(more, 48, 48) ==> digits == [] && zero)
      && !StartsWithin(more, 101, 101) && !StartsWithin(more, 69, 69)
      && !(StartsWithin(more, 46, 46) && StartsWithin(more[1..], 48, 57))
    case OpenLiteral(_) => more == []
    case _ => true
  }

  // ----- the value meant

  function PieceMeans(p: Piece): seq<Byte>
    requires GoodPiece(p)
  {
    match p
    case Plain(b) => [b]
    case Short(letter) =>
      if letter == 98 then [8]
      else if letter == 102 then [12]
      else if letter == 110 then [10]
      else if letter == 114 then [13]
      else if letter == 116 then [9]
      else [letter]
    case Unit(hex) =>
      var unit := UnitOf(hex);
      if unit == 0 || IsHigh(unit) || IsLow(unit) then [] else Utf8.Encode(unit)
    case Twice(high, low) =>
      if IsLow(UnitOf(low)) then
        Utf8.Encode(0x1_0000 + 0x400 * (UnitOf(high) - 0xD800) + (UnitOf(low) - 0xDC00))
      else []
  }

  function PiecesMean(ps: seq<Piece>): seq<Byte>
    requires GoodPieces(ps)
  {
    if ps == [] then [] else PieceMeans(ps[0]) + PiecesMean(ps[1..])
  }

  function Means(x: Syntax): Value
    requires Good(x)
    decreases x, 1
  {
    match x
    case WordNull => Null
    case WordFalse => False
    case WordTrue => True
    case Numeral(negative, zero, digits) => Number(Signed(negative, Decimal(digits)))
    case Literal(ps) => String(PiecesMean(ps))
    case OpenLiteral(ps) => String(PiecesMean(ps))
    case EmptyList(_) => Array([])
    case List(items) => Array(ItemsMean(items))
    case EmptyRecord(_) => Object([])
    case Record(entries) => Object(EntriesMean(entries))
  }

  function ItemsMean(items: seq<Element>): seq<Value>
    requires GoodItems(items)
    decreases items, 0
  {
    if items == [] then [] else [Means(items[0].value)] + ItemsMean(items[1..])
  }

  function EntryMeans(e: Entry): Member
    requires GoodEntry(e)
    decreases e, 2
  {
    Member(PiecesMean(e.name), Means(e.value))
  }

  function EntriesMean(entries: seq<Entry>): seq<Member>
    requires GoodEntries(entries)
    decreases entries, 0
  {
    if entries == [] then [] else [EntryMeans(entries[0])] + EntriesMean(entries[1..])
  }
}
