/** The unformatted text of a value is the shortest text without control characters that means it. */
module JsonShortest {
  import opened Octets
  import opened Json
  import opened JsonParse
  import opened JsonSyntax
  import opened JsonSpelling
  import Utf8

  /** No control characters, which section 7 of RFC 8259 keeps out of literals. */
  predicate Visible(s: seq<Byte>) {
    forall i :: 0 <= i < |s| ==> s[i] >= 32
  }

  lemma VisibleParts(a: seq<Byte>, b: seq<Byte>)
    ensures Visible(a + b) <==> Visible(a) && Visible(b)
  {
    assert Visible(a + b) ==> forall i :: 0 <= i < |a| ==> a[i] == (a + b)[i];
    assert Visible(a + b) ==> forall i :: 0 <= i < |b| ==> b[i] == (a + b)[|a| + i];
  }

  // ----- the text is visible

  lemma {:induction false} DigitsVisible(n: nat)
    ensures Visible(Digits(n))
  {
    if n >= 10 {
      DigitsVisible(n / 10);
    }
  }

  lemma {:induction false} EscapeVisible(s: seq<Byte>)
    ensures Visible(Escape(s))
  {
    if s != [] {
      EscapeVisible(s[1..]);
      VisibleParts(EscapeByte(s[0]), Escape(s[1..]));
    }
  }

  lemma StringVisible(s: seq<Byte>)
    ensures Visible(StringText(s))
  {
    EscapeVisible(s);
  }

  lemma {:induction false} TextVisible(v: Value, depth: nat)
    ensures Visible(Text(v, depth, false))
    decreases v, 1
  {
    match v
    case Number(n) => DigitsVisible(if n < 0 then -n else n);
    case String(s) => StringVisible(s);
    case Array(items) => ItemsVisible(items, depth + 1);
    case Object(members) => MembersVisible(members, depth + 1);
    case _ =>
  }

  lemma {:induction false} ItemsVisible(items: seq<Value>, depth: nat)
    ensures Visible(ItemsText(items, depth, false))
    decreases items, 0
  {
    if items != [] {
      TextVisible(items[0], depth);
      if |items| > 1 {
        ItemsVisible(items[1..], depth);
        VisibleParts(Text(items[0], depth, false), Comma(false) + ItemsText(items[1..], depth, false));
      }
    }
  }

  lemma {:induction false} MemberVisible(m: Member, depth: nat)
    ensures Visible(MemberText(m, depth, false))
    decreases m, 2
  {
    StringVisible(m.name);
    TextVisible(m.value, depth);
    VisibleParts(StringText(m.name), Colon(false) + Text(m.value, depth, false));
  }

  lemma {:induction false} MembersVisible(members: seq<Member>, depth: nat)
    ensures Visible(MembersText(members, depth, false))
    decreases members, 0
  {
    if members != [] {
      MemberVisible(members[0], depth);
      if |members| > 1 {
        MembersVisible(members[1..], depth);
        var more := MembersText(members[1..], depth, false);
        VisibleParts(MemberText(members[0], depth, false), [COMMA] + (LineEnd(false) + more));
      }
    }
  }

  // ----- no form is shorter

  lemma {:induction false} EscapeJoin(a: seq<Byte>, b: seq<Byte>)
    ensures Escape(a + b) == Escape(a) + Escape(b)
  {
    if a == [] {
      assert a + b == b;
    } else {
      EscapeJoin(a[1..], b);
      assert (a + b)[1..] == a[1..] + b;
      Regroup(EscapeByte(a[0]), Escape(a[1..]), Escape(b));
    }
  }

  lemma {:induction false} HighBytesStay(s: seq<Byte>)
    requires forall i :: 0 <= i < |s| ==> s[i] >= 0x80
    ensures Escape(s) == s
  {
    if s != [] {
      HighBytesStay(s[1..]);
      assert [s[0]] + s[1..] == s;
    }
  }

  lemma OneByte(c: Byte)
    ensures Escape([c]) == EscapeByte(c)
  {
    assert [c][1..] == [] && Escape([c][1..]) == [];
    assert EscapeByte(c) + [] == EscapeByte(c);
  }

  /** The bytes of a code point never take more than one `\u` escape. */
  lemma EncodedFits(cp: nat)
    requires cp < 0x11_0000
    ensures |Escape(Utf8.Encode(cp))| <= 6
  {
    if cp < 0x80 {
      OneByte(cp as Byte);
    } else {
      HighBytesStay(Utf8.Encode(cp));
    }
  }

  /** The escape written for a byte is the shortest piece of a literal that means it. */
  lemma PieceShortest(p: Piece, more: seq<Byte>)
    requires GoodPiece(p) && Visible(PieceThen(p, more))
    ensures Visible(more) && |Escape(PieceMeans(p))| + |more| <= |PieceThen(p, more)|
  {
    match p
    case Plain(b) =>
      assert PieceThen(p, more)[0] == b;
      VisibleParts([b], more);
      OneByte(b);
    case Short(letter) =>
      assert PieceThen(p, more)[1] == letter;
      VisibleParts([92, letter], more);
      OneByte(PieceMeans(p)[0]);
    case Unit(hex) =>
      Regroup([92, 117], hex, more);
      VisibleParts([92, 117] + hex, more);
      UnitSmall(hex);
      EncodedFits(UnitOf(hex));
    case Twice(high, low) =>
      var front := [92, 117] + (high + ([92, 117] + low));
      assert PieceThen(p, more) == front + more;
      VisibleParts(front, more);
      UnitSmall(high);
      UnitSmall(low);
      if IsLow(UnitOf(low)) {
        EncodedFits(0x1_0000 + 0x400 * (UnitOf(high) - 0xD800) + (UnitOf(low) - 0xDC00));
      }
  }

  lemma UnitSmall(hex: seq<Byte>)
    requires |hex| == 4
    ensures UnitOf(hex) < 0x1_0000
  {
  }

  lemma {:induction false} PiecesShortest(ps: seq<Piece>, more: seq<Byte>)
    requires GoodPieces(ps) && Visible(PiecesThen(ps, more))
    ensures Visible(more) && |Escape(PiecesMean(ps))| + |more| <= |PiecesThen(ps, more)|
  {
    if ps != [] {
      PieceShortest(ps[0], PiecesThen(ps[1..], more));
      PiecesShortest(ps[1..], more);
      EscapeJoin(PieceMeans(ps[0]), PiecesMean(ps[1..]));
    }
  }

  lemma LiteralShortest(ps: seq<Piece>, more: seq<Byte>)
    requires GoodPieces(ps) && Visible(LiteralThen(ps, more))
    ensures Visible(more) && |StringText(PiecesMean(ps))| + |more| <= |LiteralThen(ps, more)|
  {
    VisibleParts([34], PiecesThen(ps, [34] + more));
    PiecesShortest(ps, [34] + more);
    VisibleParts([34], more);
  }

  lemma OneDigit(d: nat)
    requires d < 10
    ensures Digits(d) == [48 + d as Byte]
  {
  }

  lemma OneMoreDigit(m: nat, d: nat)
    requires m > 0 && d < 10
    ensures Digits(10 * m + d) == Digits(m) + [48 + d as Byte]
  {
    assert (10 * m + d) / 10 == m && (10 * m + d) % 10 == d;
  }

  lemma LastDigit(digits: seq<Byte>, k: nat)
    requires k + 1 == |digits| && 48 <= digits[k] <= 57
    ensures var d := digits[k] as int - 48;
      Decimal(digits) == 10 * Decimal(digits[..k]) + d && digits == digits[..k] + [48 + d as Byte]
  {
  }

  /** Digits without a leading zero are the digits of their number. */
  lemma {:induction false} DigitsOfDecimal(digits: seq<Byte>, n: int)
    requires digits != [] && digits[0] != 48 && n == Decimal(digits)
    requires forall i :: 0 <= i < |digits| ==> 48 <= digits[i] <= 57
    ensures n > 0 && Digits(n) == digits
  {
    var k := |digits| - 1;
    var front, d := digits[..k], digits[k] as int - 48;
    LastDigit(digits, k);
    if k == 0 {
      OneDigit(d);
    } else {
      var m := Decimal(front);
      DigitsOfDecimal(front, m);
      OneMoreDigit(m, d);
    }
  }

  lemma NumeralShortest(negative: bool, zero: bool, digits: seq<Byte>, more: seq<Byte>)
    requires GoodNumeral(negative, zero, digits)
    ensures |NumberText(Signed(negative, Decimal(digits)))| + |more| <= |Then(Numeral(negative, zero, digits), more)|
  {
    if digits != [] {
      DigitsOfDecimal(digits, Decimal(digits));
    }
  }

  lemma {:induction false} TextShortest(x: Syntax, depth: nat, more: seq<Byte>)
    requires Good(x) && !x.OpenLiteral? && Visible(Then(x, more))
    ensures Visible(more) && |Text(Means(x), depth, false)| + |more| <= |Then(x, more)|
    decreases x, 1
  {
    match x
    case WordNull => VisibleParts([110, 117, 108, 108], more);
    case WordFalse => VisibleParts([102, 97, 108, 115, 101], more);
    case WordTrue => VisibleParts([116, 114, 117, 101], more);
    case Numeral(negative, zero, digits) =>
      NumeralShortest(negative, zero, digits, more);
      NumeralVisible(x, more);
    case Literal(ps) => LiteralShortest(ps, more);
    case EmptyList(blank) => EmptyVisible(91, blank, 93, more);
    case EmptyRecord(blank) => EmptyVisible(123, blank, 125, more);
    case List(items) => ListShortest(items, depth, more);
    case Record(entries) => RecordShortest(entries, depth, more);
  }

  lemma {:induction false} ListShortest(items: seq<Element>, depth: nat, more: seq<Byte>)
    requires items != [] && GoodItems(items) && Visible([91] + ItemsThen(items, [93] + more))
    ensures Visible(more)
    ensures |Text(Array(ItemsMean(items)), depth, false)| + |more| <= |[91] + ItemsThen(items, [93] + more)|
    decreases items, 1
  {
    VisibleParts([91], ItemsThen(items, [93] + more));
    ItemsShortest(items, depth + 1, [93] + more);
    VisibleParts([93], more);
  }

  lemma {:induction false} RecordShortest(entries: seq<Entry>, depth: nat, more: seq<Byte>)
    requires entries != [] && GoodEntries(entries) && Visible([123] + EntriesThen(entries, [125] + more))
    ensures Visible(more)
    ensures |Text(Object(EntriesMean(entries)), depth, false)| + |more| <= |[123] + EntriesThen(entries, [125] + more)|
    decreases entries, 1
  {
    VisibleParts([123], EntriesThen(entries, [125] + more));
    EntriesShortest(entries, depth + 1, [125] + more);
    VisibleParts([125], more);
  }

  lemma NumeralVisible(x: Syntax, more: seq<Byte>)
    requires x.Numeral? && Visible(Then(x, more))
    ensures Visible(more)
  {
    var s1 := (if x.zero then [48] else []) + (x.digits + more);
    VisibleParts(if x.negative then [45] else [], s1);
    VisibleParts(if x.zero then [48] else [], x.digits + more);
    VisibleParts(x.digits, more);
  }

  lemma EmptyVisible(open: Byte, blank: seq<Byte>, close: Byte, more: seq<Byte>)
    requires Visible([open] + (blank + ([close] + more)))
    ensures Visible(more)
  {
    VisibleParts([open], blank + ([close] + more));
    VisibleParts(blank, [close] + more);
    VisibleParts([close], more);
  }

  lemma {:induction false} ItemsShortest(items: seq<Element>, depth: nat, more: seq<Byte>)
    requires GoodItems(items) && Visible(ItemsThen(items, more))
    ensures Visible(more) && |ItemsText(ItemsMean(items), depth, false)| + |more| <= |ItemsThen(items, more)|
    decreases items, 0
  {
    if items != [] {
      var item := items[0];
      var next := if |items| == 1 then more else [44] + ItemsThen(items[1..], more);
      VisibleParts(item.before, Then(item.value, item.after + next));
      TextShortest(item.value, depth, item.after + next);
      VisibleParts(item.after, next);
      var others := ItemsMean(items[1..]);
      assert ItemsMean(items)[1..] == others;
      if |items| > 1 {
        VisibleParts([44], ItemsThen(items[1..], more));
        ItemsShortest(items[1..], depth, more);
      }
    }
  }

  lemma {:induction false} EntryShortest(e: Entry, depth: nat, next: seq<Byte>)
    requires GoodEntry(e) && Visible(EntryThen(e, next))
    ensures Visible(next) && |MemberText(EntryMeans(e), depth, false)| + |next| <= |EntryThen(e, next)|
    decreases e, 2
  {
    var value := Then(e.value, e.after + next);
    var colon := [58] + (e.beforeValue + value);
    VisibleParts(e.before, LiteralThen(e.name, e.afterName + colon));
    LiteralShortest(e.name, e.afterName + colon);
    VisibleParts(e.afterName, colon);
    VisibleParts([58], e.beforeValue + value);
    VisibleParts(e.beforeValue, value);
    TextShortest(e.value, depth, e.after + next);
    VisibleParts(e.after, next);
  }

  lemma {:induction false} EntriesShortest(entries: seq<Entry>, depth: nat, more: seq<Byte>)
    requires GoodEntries(entries) && Visible(EntriesThen(entries, more))
    ensures Visible(more) && |MembersText(EntriesMean(entries), depth, false)| + |more| <= |EntriesThen(entries, more)|
    decreases entries, 0
  {
    if entries != [] {
      var next := if |entries| == 1 then more else [44] + EntriesThen(entries[1..], more);
      EntryShortest(entries[0], depth, next);
      var others := EntriesMean(entries[1..]);
      assert EntriesMean(entries)[1..] == others;
      if |entries| > 1 {
        VisibleParts([44], EntriesThen(entries[1..], more));
        EntriesShortest(entries[1..], depth, more);
      }
    }
  }

  /**
   No text without control characters that the parser reads as a value, and that is closed so that something
   may follow it, is shorter than the unformatted text, which is such a text itself.
   */
  lemma NothingShorter(v: Value, text: seq<Byte>, more: seq<Byte>)
    requires Parse(text + more) == Ok(v, more) && more != [] && Visible(text + more)
    ensures |Text(v, 0, false)| <= |text| && Visible(Text(v, 0, false))
  {
    ParsesExactly(text + more, v, more);
    var before, x :| Spells(text + more, before, x, v, more);
    VisibleParts(before, Then(x, more));
    TextShortest(x, 0, more);
    TextVisible(v, 0);
  }

  /** A control character without a letter of its own has two zeros and two digits, in lower case. */
  lemma ControlDigits(c: Byte)
    requires 0 < c < 32 && c !in {8, 9, 10, 12, 13}
    ensures var e := EscapeByte(c);
      && e == PieceThen(Unit(e[2..]), []) && e[2] == 48 && e[3] == 48
      && DigitOf(e[4]) >= 0 && DigitOf(e[5]) >= 0 && c as int == 16 * DigitOf(e[4]) + DigitOf(e[5])
      && !(65 <= e[4] <= 70) && !(65 <= e[5] <= 70)
  {
    var e := EscapeByte(c);
    assert e == [92, 117] + (e[2..] + []);
  }
}
