/** Parsing the text of a value gives the value back. */
module JsonRoundTrip {
  import opened Octets
  import opened Json
  import opened JsonParse

  /** Nothing here continues a number. */
  predicate EndsNumber(rest: seq<Byte>) {
    var c := Peek(rest, 0);
    !IsDigit(c) && c != DOT && c != 101 && c != 69
  }

  lemma SkipOne(c: Byte, s: seq<Byte>)
    requires 1 <= c <= 32
    ensures Skip([c] + s) == Skip(s)
  {
    assert ([c] + s)[1..] == s;
  }

  lemma {:induction false} SkipTabs(n: int, s: seq<Byte>)
    ensures Skip(Tabs(n) + s) == Skip(s)
    decreases n
  {
    if n <= 0 {
      assert Tabs(n) + s == s;
    } else {
      SkipTabs(n - 1, s);
      Regroup([TAB], Tabs(n - 1), s);
      SkipOne(TAB, Tabs(n - 1) + s);
    }
  }

  lemma SkipIndent(fmt: bool, depth: int, s: seq<Byte>)
    ensures Skip(Indent(fmt, depth) + s) == Skip(s)
  {
    SkipTabs(depth, s);
    assert [] + s == s;
  }

  lemma SkipLineEnd(fmt: bool, s: seq<Byte>)
    ensures Skip(LineEnd(fmt) + s) == Skip(s)
  {
    SkipOne(NEWLINE, s);
    assert [] + s == s;
  }

  // ----- numbers

  lemma {:induction false} ReadsDigits(n: nat, rest: seq<Byte>)
    ensures ReadDigits(0, Digits(n) + rest) == ReadDigits(n, rest)
  {
    var d := ZERO + (n % 10) as Byte;
    assert ([d] + rest)[1..] == rest;
    if n >= 10 {
      ReadsDigits(n / 10, [d] + rest);
      Regroup(Digits(n / 10), [d], rest);
    }
  }

  lemma {:induction false} FirstDigit(n: nat)
    ensures Digits(n) != [] && IsDigit(Digits(n)[0])
    ensures Digits(n)[0] == ZERO <==> n == 0
  {
    if n >= 10 {
      FirstDigit(n / 10);
    }
  }

  lemma NumberBack(n: int, rest: seq<Byte>)
    requires -0x8000_0000 <= n < 0x8000_0000 && EndsNumber(rest)
    ensures ParseNumber(NumberText(n) + rest) == Ok(Number(n), rest)
  {
    var m := if n < 0 then -n else n;
    var s1 := Digits(m) + rest;
    FirstDigit(m);
    assert s1[0] == Digits(m)[0];
    if n < 0 {
      Regroup([MINUS], Digits(m), rest);
      assert (NumberText(n) + rest)[1..] == s1;
    }
    if m == 0 {
      assert s1[1..] == rest;
    } else {
      ReadsDigits(m, rest);
    }
  }

  // ----- strings

  lemma HexBack(c: Byte)
    requires 0 < c < 32
    ensures var hi, lo := HexDigit(c as int / 16), HexDigit(c as int % 16);
      IsHex(hi) && IsHex(lo) && HexValue(hi) * 16 + HexValue(lo) == c as int
  {
  }

  lemma ControlBack(c: Byte, more: seq<Byte>)
    requires 0 < c < 32
    ensures Escaped([BACKSLASH, SMALL_U, ZERO, ZERO, HexDigit(c as int / 16), HexDigit(c as int % 16)] + more)
      == ([c], 6)
  {
    var s := [BACKSLASH, SMALL_U, ZERO, ZERO, HexDigit(c as int / 16), HexDigit(c as int % 16)] + more;
    HexBack(c);
    assert FourHex(s, 2);
    assert Hex4(s, 2) == c as int;
  }

  /** Every byte of a string is read back from its own escape. */
  lemma ByteBack(c: Byte, more: seq<Byte>)
    requires c != 0
    ensures Unescape(EscapeByte(c) + more) == Prepend([c], Unescape(more))
  {
    var s := EscapeByte(c) + more;
    if ShortEscape(c) != 0 {
      ShortBack(c, s);
      EscapeReads(s, [c], more);
    } else if c < 32 {
      ControlBack(c, more);
      UnicodeSteps(s, 0);
      EscapeReads(s, [c], more);
    } else {
      assert s[1..] == more;
    }
  }

  lemma ShortBack(c: Byte, s: seq<Byte>)
    requires ShortEscape(c) != 0 && |s| >= 2 && s[0] == BACKSLASH && s[1] == ShortEscape(c)
    ensures Escaped(s) == ([c], 2) && StepsOver(s, 2)
  {
  }

  lemma EscapeReads(s: seq<Byte>, bytes: seq<Byte>, more: seq<Byte>)
    requires s != [] && s[0] == BACKSLASH && |more| < |s| && Escaped(s) == (bytes, |s| - |more|)
    requires StepsOver(s, |s| - |more|) && s[|s| - |more|..] == more
    ensures Unescape(s) == Prepend(bytes, Unescape(more))
  {
    EscapeStep(s, bytes, |s| - |more|);
  }

  lemma {:induction false} EscapeBack(s: seq<Byte>, rest: seq<Byte>)
    requires NoZero(s)
    ensures Unescape(Escape(s) + ([QUOTE] + rest)) == Ok(s, rest)
  {
    var end := [QUOTE] + rest;
    if s == [] {
      assert [] + end == end;
      assert end[1..] == rest;
    } else {
      EscapeBack(s[1..], rest);
      Regroup(EscapeByte(s[0]), Escape(s[1..]), end);
      ByteBack(s[0], Escape(s[1..]) + end);
      assert [s[0]] + s[1..] == s;
    }
  }

  lemma StringBack(s: seq<Byte>, rest: seq<Byte>)
    requires NoZero(s)
    ensures ParseString(StringText(s) + rest) == Ok(s, rest)
    ensures Peek(StringText(s) + rest, 0) == QUOTE
  {
    var text := StringText(s) + rest;
    assert text[1..] == Escape(s) + ([QUOTE] + rest);
    EscapeBack(s, rest);
  }

  // ----- values

  /** A text starts with a byte that is not white space and closes nothing. */
  lemma TextStarts(v: Value, depth: nat, fmt: bool, rest: seq<Byte>)
    ensures var t := Text(v, depth, fmt) + rest;
      t != [] && t[0] > 32 && t[0] != CLOSE_ARRAY && Skip(t) == t
  {
    if v.Number? {
      FirstDigit(if v.n < 0 then -v.n else v.n);
    }
    assert (Text(v, depth, fmt) + rest)[0] == Text(v, depth, fmt)[0];
  }

  lemma {:induction false} ValueBack(v: Value, depth: nat, fmt: bool, rest: seq<Byte>)
    requires Valid(v) && EndsNumber(rest)
    ensures ParseValue(Text(v, depth, fmt) + rest) == Ok(v, rest)
    decreases v, 1
  {
    var t := Text(v, depth, fmt) + rest;
    match v
    case Null => WordBack(v, rest);
    case False => WordBack(v, rest);
    case True => WordBack(v, rest);
    case Number(n) =>
      NumberBack(n, rest);
      FirstDigit(if n < 0 then -n else n);
      assert t[0] == NumberText(n)[0];
      FirstLetter(t);
    case String(s) =>
      StringBack(s, rest);
      FirstLetter(t);
    case Array(items) => ArrayBack(items, depth, fmt, rest);
    case Object(members) => ObjectBack(members, depth, fmt, rest);
  }

  lemma {:induction false} ArrayBack(items: seq<Value>, depth: nat, fmt: bool, rest: seq<Byte>)
    requires forall i :: 0 <= i < |items| ==> Valid(items[i])
    ensures ParseValue(Text(Array(items), depth, fmt) + rest) == Ok(Array(items), rest)
    decreases items, 1
  {
    var t := Text(Array(items), depth, fmt) + rest;
    var end := [CLOSE_ARRAY] + rest;
    var inside := ItemsText(items, depth + 1, fmt) + end;
    FirstLetter(t);
    assert t[1..] == inside;
    assert end[1..] == rest;
    if items == [] {
      assert inside == end;
    } else {
      ItemsStart(items, depth + 1, fmt, end);
      ItemsBack(items, depth + 1, fmt, end);
    }
  }

  lemma LiteralBack(word: seq<Byte>, rest: seq<Byte>)
    requires word != []
    ensures StartsWith(word + rest, word) && (word + rest)[|word|..] == rest
    ensures (word + rest)[0] == word[0]
  {
    DropFront(word, rest);
  }

  lemma WordBack(v: Value, rest: seq<Byte>)
    requires v.Null? || v.False? || v.True?
    ensures ParseValue(Text(v, 0, false) + rest) == Ok(v, rest)
  {
    var word := Text(v, 0, false);
    LiteralBack(word, rest);
    FirstLetter(word + rest);
  }

  lemma {:induction false} ItemsBack(items: seq<Value>, depth: nat, fmt: bool, rest: seq<Byte>)
    requires items != [] && forall i :: 0 <= i < |items| ==> Valid(items[i])
    requires rest != [] && rest[0] == CLOSE_ARRAY
    ensures ParseItems(ItemsText(items, depth, fmt) + rest) == Ok(items, rest)
    decreases items, 0
  {
    var first := Text(items[0], depth, fmt);
    if |items| == 1 {
      TextStarts(items[0], depth, fmt, rest);
      ValueBack(items[0], depth, fmt, rest);
      LastItem(items[0], first + rest, rest);
      assert items == [items[0]];
    } else {
      var more := ItemsText(items[1..], depth, fmt);
      var after := Comma(fmt) + (more + rest);
      ValueBack(items[0], depth, fmt, after);
      ItemsBack(items[1..], depth, fmt, rest);
      ItemsJoined(items, depth, fmt, rest);
    }
  }

  lemma ItemsJoined(items: seq<Value>, depth: nat, fmt: bool, rest: seq<Byte>)
    requires |items| > 1
    requires ParseItems(ItemsText(items[1..], depth, fmt) + rest) == Ok(items[1..], rest)
    requires var after := Comma(fmt) + (ItemsText(items[1..], depth, fmt) + rest);
      ParseValue(Text(items[0], depth, fmt) + after) == Ok(items[0], after)
    ensures ParseItems(ItemsText(items, depth, fmt) + rest) == Ok(items, rest)
  {
    var more := ItemsText(items[1..], depth, fmt);
    var after := Comma(fmt) + (more + rest);
    var s := ItemsText(items, depth, fmt) + rest;
    assert s == Text(items[0], depth, fmt) + after by {
      ItemsTextSplit(items, depth, fmt, rest);
    }
    TextStarts(items[0], depth, fmt, after);
    AfterComma(fmt, more + rest);
    assert items == [items[0]] + items[1..];
    OneMoreItem(items[0], s, after, items[1..], rest);
  }

  lemma ItemsTextSplit(items: seq<Value>, depth: nat, fmt: bool, rest: seq<Byte>)
    requires |items| > 1
    ensures ItemsText(items, depth, fmt) + rest ==
      Text(items[0], depth, fmt) + (Comma(fmt) + (ItemsText(items[1..], depth, fmt) + rest))
  {
    var more := ItemsText(items[1..], depth, fmt);
    Regroup(Comma(fmt), more, rest);
    Regroup(Text(items[0], depth, fmt), Comma(fmt) + more, rest);
  }

  lemma MembersTextSplit(members: seq<Member>, depth: nat, fmt: bool, rest: seq<Byte>)
    requires |members| > 1
    ensures MembersText(members, depth, fmt) + rest ==
      MemberText(members[0], depth, fmt) + ([COMMA] + (LineEnd(fmt) + (MembersText(members[1..], depth, fmt) + rest)))
  {
    var more := MembersText(members[1..], depth, fmt);
    Regroup(LineEnd(fmt), more, rest);
    Regroup([COMMA], LineEnd(fmt) + more, rest);
    Regroup(MemberText(members[0], depth, fmt), [COMMA] + (LineEnd(fmt) + more), rest);
  }

  lemma ItemsStart(items: seq<Value>, depth: nat, fmt: bool, rest: seq<Byte>)
    requires items != []
    ensures var t := ItemsText(items, depth, fmt) + rest; t != [] && t[0] != CLOSE_ARRAY && Skip(t) == t
  {
    var first := Text(items[0], depth, fmt);
    if |items| == 1 {
      TextStarts(items[0], depth, fmt, rest);
    } else {
      ItemsTextSplit(items, depth, fmt, rest);
      TextStarts(items[0], depth, fmt, Comma(fmt) + (ItemsText(items[1..], depth, fmt) + rest));
    }
  }

  lemma LastItem(v: Value, t: seq<Byte>, rest: seq<Byte>)
    requires Skip(t) == t && ParseValue(t) == Ok(v, rest)
    requires rest != [] && rest[0] == CLOSE_ARRAY
    ensures ParseItems(t) == Ok([v], rest)
  {
  }

  lemma OneMoreItem(v: Value, t: seq<Byte>, after: seq<Byte>, items: seq<Value>, rest: seq<Byte>)
    requires Skip(t) == t && ParseValue(t) == Ok(v, after)
    requires Skip(after) == after && after != [] && after[0] == COMMA
    requires ParseItems(after[1..]) == Ok(items, rest)
    ensures ParseItems(t) == Ok([v] + items, rest)
  {
  }

  lemma OneMoreMember(members: seq<Member>, t: seq<Byte>, after: seq<Byte>, more: seq<Byte>, rest: seq<Byte>)
    requires |members| > 1 && ParseMember(t) == Ok(members[0], after)
    requires Skip(after) == after && after != [] && after[0] == COMMA
    requires ParseMembers(after[1..]) == ParseMembers(more) == Ok(members[1..], rest)
    ensures ParseMembers(t) == Ok(members, rest)
  {
    assert [members[0]] + members[1..] == members;
  }

  /** The space after a comma is white space. */
  lemma AfterComma(fmt: bool, more: seq<Byte>)
    ensures var after := Comma(fmt) + more; Skip(after) == after && after[0] == COMMA
    ensures ParseItems((Comma(fmt) + more)[1..]) == ParseItems(more)
  {
    var after := Comma(fmt) + more;
    if fmt {
      assert after[1..] == [SPACE] + more;
      SkipOne(SPACE, more);
      ParseItemsSkips([SPACE] + more, more);
    } else {
      assert after[1..] == more;
    }
  }

  lemma ParseItemsSkips(s: seq<Byte>, t: seq<Byte>)
    requires Skip(s) == Skip(t)
    ensures ParseItems(s) == ParseItems(t)
  {
  }

  lemma ParseMembersSkips(s: seq<Byte>, t: seq<Byte>)
    requires Skip(s) == Skip(t)
    ensures ParseMembers(s) == ParseMembers(t)
  {
  }

  /** The text between the braces, up to the closing one. */
  function Inside(members: seq<Member>, depth: nat, fmt: bool, end: seq<Byte>): seq<Byte> {
    LineEnd(fmt) + (if members == [] then Indent(fmt, depth - 1) + end
                    else MembersText(members, depth + 1, fmt) + (Indent(fmt, depth) + end))
  }

  lemma ObjectOpens(members: seq<Member>, depth: nat, fmt: bool, rest: seq<Byte>)
    ensures var t := Text(Object(members), depth, fmt) + rest;
      t[0] == OPEN_OBJECT && t[1..] == Inside(members, depth, fmt, [CLOSE_OBJECT] + rest)
  {
  }

  lemma EmptyInside(depth: nat, fmt: bool, end: seq<Byte>)
    requires end != [] && end[0] == CLOSE_OBJECT
    ensures Skip(Inside([], depth, fmt, end)) == end
  {
    SkipLineEnd(fmt, Indent(fmt, depth - 1) + end);
    SkipIndent(fmt, depth - 1, end);
  }

  lemma {:induction false} FullInside(members: seq<Member>, depth: nat, fmt: bool, end: seq<Byte>)
    requires members != []
    requires forall i :: 0 <= i < |members| ==> NoZero(members[i].name) && Valid(members[i].value)
    requires end != [] && end[0] == CLOSE_OBJECT
    ensures var inside := Skip(Inside(members, depth, fmt, end));
      Peek(inside, 0) == QUOTE && ParseMembers(inside) == Ok(members, end)
    decreases members, 1
  {
    var pad := Indent(fmt, depth) + end;
    var body := MembersText(members, depth + 1, fmt) + pad;
    SkipLineEnd(fmt, body);
    SkipIndent(fmt, depth, end);
    MembersBack(members, depth + 1, fmt, pad);
    ParseMembersSkips(Skip(body), body);
  }

  lemma {:induction false} ObjectBack(members: seq<Member>, depth: nat, fmt: bool, rest: seq<Byte>)
    requires forall i :: 0 <= i < |members| ==> NoZero(members[i].name) && Valid(members[i].value)
    ensures ParseValue(Text(Object(members), depth, fmt) + rest) == Ok(Object(members), rest)
    decreases members, 3
  {
    var t := Text(Object(members), depth, fmt) + rest;
    var end := [CLOSE_OBJECT] + rest;
    assert end[1..] == rest;
    ObjectOpens(members, depth, fmt, rest);
    FirstLetter(t);
    if members == [] {
      EmptyInside(depth, fmt, end);
    } else {
      FullInside(members, depth, fmt, end);
    }
  }

  lemma {:induction false} MemberBack(m: Member, depth: nat, fmt: bool, rest: seq<Byte>)
    requires NoZero(m.name) && Valid(m.value) && EndsNumber(rest)
    ensures ParseMember(MemberText(m, depth, fmt) + rest) == Ok(m, rest)
    ensures Peek(Skip(MemberText(m, depth, fmt) + rest), 0) == QUOTE
    decreases m, 2
  {
    var value := Text(m.value, depth, fmt) + rest;
    MemberTextSplit(m, depth, fmt, rest);
    TextStarts(m.value, depth, fmt, rest);
    ValueBack(m.value, depth, fmt, rest);
    MemberJoined(m, depth, fmt, value, rest);
  }

  lemma MemberTextSplit(m: Member, depth: nat, fmt: bool, rest: seq<Byte>)
    ensures MemberText(m, depth, fmt) + rest
      == Indent(fmt, depth) + (StringText(m.name) + (Colon(fmt) + (Text(m.value, depth, fmt) + rest)))
  {
    var name, value := StringText(m.name), Text(m.value, depth, fmt);
    Regroup(Colon(fmt), value, rest);
    Regroup(name, Colon(fmt) + value, rest);
    Regroup(Indent(fmt, depth), name + (Colon(fmt) + value), rest);
  }

  lemma MemberJoined(m: Member, depth: nat, fmt: bool, value: seq<Byte>, rest: seq<Byte>)
    requires NoZero(m.name) && Skip(value) == value && ParseValue(value) == Ok(m.value, rest)
    ensures var t := Indent(fmt, depth) + (StringText(m.name) + (Colon(fmt) + value));
      ParseMember(t) == Ok(m, rest) && Peek(Skip(t), 0) == QUOTE
  {
    var colon := Colon(fmt) + value;
    SkipIndent(fmt, depth, StringText(m.name) + colon);
    StringBack(m.name, colon);
    AfterColon(fmt, value);
  }

  /** The tab after a colon is white space. */
  lemma AfterColon(fmt: bool, value: seq<Byte>)
    ensures var colon := Colon(fmt) + value;
      Skip(colon) == colon && colon[0] == COLON && Skip(colon[1..]) == Skip(value)
  {
    var colon := Colon(fmt) + value;
    if fmt {
      assert colon[1..] == [TAB] + value;
      SkipOne(TAB, value);
    } else {
      assert colon[1..] == value;
    }
  }

  lemma {:induction false} MembersBack(members: seq<Member>, depth: nat, fmt: bool, rest: seq<Byte>)
    requires members != []
    requires forall i :: 0 <= i < |members| ==> NoZero(members[i].name) && Valid(members[i].value)
    requires Peek(Skip(rest), 0) == CLOSE_OBJECT && EndsNumber(rest)
    ensures ParseMembers(MembersText(members, depth, fmt) + rest) == Ok(members, Skip(rest))
    ensures Peek(Skip(MembersText(members, depth, fmt) + rest), 0) == QUOTE
    decreases members, 0
  {
    var m := MemberText(members[0], depth, fmt);
    if |members| == 1 {
      Regroup(m, LineEnd(fmt), rest);
      MemberBack(members[0], depth, fmt, LineEnd(fmt) + rest);
      SkipLineEnd(fmt, rest);
      assert members == [members[0]];
    } else {
      var more := MembersText(members[1..], depth, fmt);
      var after := [COMMA] + (LineEnd(fmt) + (more + rest));
      MemberBack(members[0], depth, fmt, after);
      MembersBack(members[1..], depth, fmt, rest);
      MembersTextSplit(members, depth, fmt, rest);
      AfterMember(fmt, more + rest);
      OneMoreMember(members, m + after, after, more + rest, Skip(rest));
    }
  }

  /** The line end after a comma is white space. */
  lemma AfterMember(fmt: bool, more: seq<Byte>)
    ensures var after := [COMMA] + (LineEnd(fmt) + more); Skip(after) == after && after[0] == COMMA
    ensures ParseMembers(([COMMA] + (LineEnd(fmt) + more))[1..]) == ParseMembers(more)
  {
    var after := [COMMA] + (LineEnd(fmt) + more);
    assert after[1..] == LineEnd(fmt) + more;
    SkipLineEnd(fmt, more);
    ParseMembersSkips(LineEnd(fmt) + more, more);
  }

  /** `cJSON_Parse` of `cJSON_Print` or of `cJSON_PrintUnformatted` rebuilds the value. */
  lemma ParseOfPrint(v: Value, fmt: bool)
    requires Valid(v)
    ensures Parse(Text(v, 0, fmt)) == Ok(v, [])
  {
    assert Text(v, 0, fmt) + [] == Text(v, 0, fmt);
    TextStarts(v, 0, fmt, []);
    ValueBack(v, 0, fmt, []);
  }

  lemma {:induction false} SkipBlanks(w: seq<Byte>, s: seq<Byte>)
    requires forall i :: 0 <= i < |w| ==> 1 <= w[i] <= 32
    ensures Skip(w + s) == Skip(s)
  {
    if w == [] {
      assert w + s == s;
    } else {
      SkipBlanks(w[1..], s);
      assert (w + s)[1..] == w[1..] + s;
    }
  }

  /** White space, any bytes from 1 to 32, may come first; what follows the value is left alone. */
  lemma ParseInContext(w: seq<Byte>, v: Value, fmt: bool, rest: seq<Byte>)
    requires forall i :: 0 <= i < |w| ==> 1 <= w[i] <= 32
    requires Valid(v) && EndsNumber(rest)
    ensures Parse(w + (Text(v, 0, fmt) + rest)) == Ok(v, rest)
  {
    SkipBlanks(w, Text(v, 0, fmt) + rest);
    TextStarts(v, 0, fmt, rest);
    ValueBack(v, 0, fmt, rest);
  }
}
