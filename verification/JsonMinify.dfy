/** Taking white space and comments out of a text, in place. */
module JsonMinify {
  import opened Octets
  import opened Json
  import opened CStrings

  /** The text that is left, or a read past the end: of a comment or a literal that nothing closes. */
  datatype Minified = Done(text: seq<Byte>) | PastEnd

  predicate IsSpace(c: Byte) {
    c == SPACE || c == TAB || c == RETURN || c == NEWLINE
  }

  /** The bytes of a literal up to and including its closing quote; 0 if there is none. */
  function LiteralLength(s: seq<Byte>): (n: nat)
    ensures n <= |s|
  {
    if s == [] then 0
    else if s[0] == QUOTE then 1
    else if s[0] == BACKSLASH then
      if |s| == 1 then 0
      else
        var n := LiteralLength(s[2..]);
        if n == 0 then 0 else n + 2
    else
      var n := LiteralLength(s[1..]);
      if n == 0 then 0 else n + 1
  }

  /** The bytes up to and including the end of a block comment; 0 if there is none. */
  function CommentLength(s: seq<Byte>): (n: nat)
    ensures n <= |s|
  {
    if |s| < 2 then 0
    else if s[0] == STAR && s[1] == SLASH then 2
    else
      var n := CommentLength(s[1..]);
      if n == 0 then 0 else n + 1
  }

  /** The bytes before the end of a line. */
  function LineLength(s: seq<Byte>): (n: nat)
    ensures n <= |s|
  {
    if s == [] || s[0] == NEWLINE then 0 else 1 + LineLength(s[1..])
  }

  predicate StartsLineComment(s: seq<Byte>) {
    |s| >= 2 && s[0] == SLASH && s[1] == SLASH
  }

  predicate StartsComment(s: seq<Byte>) {
    |s| >= 2 && s[0] == SLASH && s[1] == STAR
  }

  function Before(bytes: seq<Byte>, r: Minified): Minified {
    if r.Done? then Done(bytes + r.text) else PastEnd
  }

  function Minify(s: seq<Byte>): Minified
    decreases |s|
  {
    if s == [] then Done([])
    else if IsSpace(s[0]) then Minify(s[1..])
    else if StartsLineComment(s) then Minify(s[LineLength(s)..])
    else if StartsComment(s) then
      if CommentLength(s) == 0 then PastEnd else Minify(s[CommentLength(s)..])
    else if s[0] == QUOTE then
      var n := LiteralLength(s[1..]);
      if n == 0 then PastEnd else Before(s[..1 + n], Minify(s[1 + n..]))
    else Before([s[0]], Minify(s[1..]))
  }

  lemma BeforeTwice(a: seq<Byte>, b: seq<Byte>, r: Minified)
    ensures Before(a, Before(b, r)) == Before(a + b, r)
  {
    if r.Done? {
      Regroup(a, b, r.text);
    }
  }

  // ----- the text of a value

  lemma {:induction false} SpaceGoes(w: seq<Byte>, rest: seq<Byte>)
    requires forall i :: 0 <= i < |w| ==> IsSpace(w[i])
    ensures Minify(w + rest) == Minify(rest)
  {
    if w == [] {
      assert w + rest == rest;
    } else {
      SpaceGoes(w[1..], rest);
      assert (w + rest)[1..] == w[1..] + rest;
    }
  }

  lemma {:induction false} LineLengthOf(c: seq<Byte>, rest: seq<Byte>)
    requires forall i :: 0 <= i < |c| ==> c[i] != NEWLINE
    ensures LineLength(c + ([NEWLINE] + rest)) == |c|
  {
    var s := c + ([NEWLINE] + rest);
    if c != [] {
      LineLengthOf(c[1..], rest);
      assert s[1..] == c[1..] + ([NEWLINE] + rest);
    }
  }

  /** A line comment goes, up to the end of its line. */
  lemma LineCommentGoes(c: seq<Byte>, rest: seq<Byte>)
    requires forall i :: 0 <= i < |c| ==> c[i] != NEWLINE
    ensures Minify([SLASH, SLASH] + c + ([NEWLINE] + rest)) == Minify(rest)
  {
    var open := [SLASH, SLASH] + c;
    LineLengthOf(open, rest);
    DropFront(open, [NEWLINE] + rest);
    SpaceGoes([NEWLINE], rest);
  }

  /** No star in these bytes is followed by a slash. */
  predicate NoEnd(c: seq<Byte>) {
    forall i :: 0 <= i < |c| - 1 ==> !(c[i] == STAR && c[i + 1] == SLASH)
  }

  lemma {:induction false} CommentLengthOf(c: seq<Byte>, rest: seq<Byte>)
    requires NoEnd(c)
    ensures CommentLength(c + ([STAR, SLASH] + rest)) == |c| + 2
  {
    var s := c + ([STAR, SLASH] + rest);
    if c != [] {
      CommentLengthOf(c[1..], rest);
      assert s[1..] == c[1..] + ([STAR, SLASH] + rest);
      assert s[1] == if |c| > 1 then c[1] else STAR;
    }
  }

  /** A block comment goes, if it does not start with the slash that would end it at once. */
  lemma BlockCommentGoes(c: seq<Byte>, rest: seq<Byte>)
    requires NoEnd(c) && (c == [] || c[0] != SLASH)
    ensures Minify([SLASH, STAR] + c + ([STAR, SLASH] + rest)) == Minify(rest)
  {
    var open := [SLASH, STAR] + c;
    CommentLengthOf(open, rest);
    DropFront(open + [STAR, SLASH], rest);
    Regroup(open, [STAR, SLASH], rest);
  }

  /** The star that opens a comment is taken for one that closes it when a slash comes next. */
  lemma SlashEndsAtOnce(rest: seq<Byte>)
    ensures Minify([SLASH, STAR, SLASH] + rest) == Minify(rest)
  {
    CommentLengthOf([SLASH], rest);
    assert [SLASH, STAR, SLASH] + rest == [SLASH] + ([STAR, SLASH] + rest);
    DropFront([SLASH, STAR, SLASH], rest);
  }

  predicate IsPlain(c: Byte) {
    !IsSpace(c) && c != SLASH && c != QUOTE
  }

  lemma {:induction false} PlainStays(p: seq<Byte>, rest: seq<Byte>)
    requires forall i :: 0 <= i < |p| ==> IsPlain(p[i])
    ensures Minify(p + rest) == Before(p, Minify(rest))
  {
    var r := Minify(rest);
    if p == [] {
      assert p + rest == rest;
      assert r.Done? ==> [] + r.text == r.text;
    } else {
      PlainStays(p[1..], rest);
      assert (p + rest)[1..] == p[1..] + rest;
      BeforeTwice([p[0]], p[1..], r);
      assert [p[0]] + p[1..] == p;
    }
  }

  lemma {:induction false} DigitsPlain(n: nat)
    ensures forall i :: 0 <= i < |Digits(n)| ==> IsPlain(Digits(n)[i])
  {
    if n >= 10 {
      DigitsPlain(n / 10);
    }
  }

  lemma {:induction false} TabsAreSpace(n: int)
    ensures forall i :: 0 <= i < |Tabs(n)| ==> IsSpace(Tabs(n)[i])
    decreases n
  {
    if n > 0 {
      TabsAreSpace(n - 1);
    }
  }

  lemma {:induction false} LiteralGoesOn(p: seq<Byte>, more: seq<Byte>)
    requires LiteralLength(more) > 0
    requires forall i :: 0 <= i < |p| ==> p[i] != QUOTE && p[i] != BACKSLASH
    ensures LiteralLength(p + more) == |p| + LiteralLength(more)
  {
    if p == [] {
      assert p + more == more;
    } else {
      LiteralGoesOn(p[1..], more);
      assert (p + more)[1..] == p[1..] + more;
    }
  }

  lemma EscapeOne(c: Byte, more: seq<Byte>)
    requires LiteralLength(more) > 0
    ensures LiteralLength(EscapeByte(c) + more) == |EscapeByte(c)| + LiteralLength(more)
  {
    var s := EscapeByte(c) + more;
    if ShortEscape(c) != 0 {
      assert s[2..] == more;
    } else if c < 32 {
      var hex := [ZERO, ZERO, HexDigit(c as int / 16), HexDigit(c as int % 16)];
      LiteralGoesOn(hex, more);
      assert s[2..] == hex + more;
    } else {
      assert s[1..] == more;
    }
  }

  /** The escapes of a literal hold no quote that could close it early. */
  lemma {:induction false} EscapeCloses(s: seq<Byte>, rest: seq<Byte>)
    ensures LiteralLength(Escape(s) + ([QUOTE] + rest)) == |Escape(s)| + 1
  {
    var end := [QUOTE] + rest;
    if s == [] {
      assert Escape(s) + end == end;
    } else {
      EscapeCloses(s[1..], rest);
      EscapeOne(s[0], Escape(s[1..]) + end);
      Regroup(EscapeByte(s[0]), Escape(s[1..]), end);
    }
  }

  lemma StringStays(s: seq<Byte>, rest: seq<Byte>)
    ensures Minify(StringText(s) + rest) == Before(StringText(s), Minify(rest))
  {
    var t := StringText(s) + rest;
    assert t[1..] == Escape(s) + ([QUOTE] + rest);
    EscapeCloses(s, rest);
    DropFront(StringText(s), rest);
  }

  /** Minifying the text of a value gives its text without white space. */
  lemma {:induction false} TextMinifies(v: Value, depth: nat, fmt: bool, rest: seq<Byte>)
    ensures Minify(Text(v, depth, fmt) + rest) == Before(Text(v, depth, false), Minify(rest))
    decreases v, 1
  {
    match v
    case Number(n) =>
      DigitsPlain(if n < 0 then -n else n);
      PlainStays(NumberText(n), rest);
    case String(s) => StringStays(s, rest);
    case Array(items) => ArrayMinifies(items, depth, fmt, rest);
    case Object(members) => ObjectMinifies(members, depth, fmt, rest);
    case _ => PlainStays(Text(v, depth, fmt), rest);
  }

  /** What two pieces of a text become, one after the other. */
  lemma PiecesMinify(a: seq<Byte>, b: seq<Byte>, rest: seq<Byte>, flatA: seq<Byte>, flatB: seq<Byte>)
    requires Minify(a + (b + rest)) == Before(flatA, Minify(b + rest))
    requires Minify(b + rest) == Before(flatB, Minify(rest))
    ensures Minify((a + b) + rest) == Before(flatA + flatB, Minify(rest))
  {
    Regroup(a, b, rest);
    BeforeTwice(flatA, flatB, Minify(rest));
  }

  lemma SpaceMinifies(w: seq<Byte>, rest: seq<Byte>)
    requires forall i :: 0 <= i < |w| ==> IsSpace(w[i])
    ensures Minify(w + rest) == Before([], Minify(rest))
  {
    SpaceGoes(w, rest);
    var r := Minify(rest);
    assert r.Done? ==> [] + r.text == r.text;
  }

  lemma IndentMinifies(fmt: bool, depth: int, rest: seq<Byte>)
    ensures Minify(Indent(fmt, depth) + rest) == Before(Indent(false, depth), Minify(rest))
  {
    TabsAreSpace(depth);
    SpaceMinifies(Indent(fmt, depth), rest);
  }

  lemma LineEndMinifies(fmt: bool, rest: seq<Byte>)
    ensures Minify(LineEnd(fmt) + rest) == Before(LineEnd(false), Minify(rest))
  {
    SpaceMinifies(LineEnd(fmt), rest);
  }

  lemma CommaMinifies(fmt: bool, rest: seq<Byte>)
    ensures Minify(Comma(fmt) + rest) == Before(Comma(false), Minify(rest))
  {
    if fmt {
      PlainStays([COMMA], [SPACE] + rest);
      SpaceMinifies([SPACE], rest);
      assert [COMMA] + [SPACE] == Comma(fmt) && [COMMA] + [] == [COMMA];
      PiecesMinify([COMMA], [SPACE], rest, [COMMA], []);
    } else {
      PlainStays([COMMA], rest);
    }
  }

  lemma ColonMinifies(fmt: bool, rest: seq<Byte>)
    ensures Minify(Colon(fmt) + rest) == Before(Colon(false), Minify(rest))
  {
    if fmt {
      PlainStays([COLON], [TAB] + rest);
      SpaceMinifies([TAB], rest);
      assert [COLON] + [TAB] == Colon(fmt) && [COLON] + [] == [COLON];
      PiecesMinify([COLON], [TAB], rest, [COLON], []);
    } else {
      PlainStays([COLON], rest);
    }
  }

  lemma {:induction false} ArrayMinifies(items: seq<Value>, depth: nat, fmt: bool, rest: seq<Byte>)
    ensures Minify(Text(Array(items), depth, fmt) + rest) == Before(Text(Array(items), depth, false), Minify(rest))
    decreases items, 1
  {
    var inside, end := ItemsText(items, depth + 1, fmt), [CLOSE_ARRAY];
    ItemsMinify(items, depth + 1, fmt, end + rest);
    PlainStays(end, rest);
    PiecesMinify(inside, end, rest, ItemsText(items, depth + 1, false), end);
    PlainStays([OPEN_ARRAY], (inside + end) + rest);
    PiecesMinify([OPEN_ARRAY], inside + end, rest, [OPEN_ARRAY], ItemsText(items, depth + 1, false) + end);
  }

  lemma {:induction false} ItemsMinify(items: seq<Value>, depth: nat, fmt: bool, rest: seq<Byte>)
    ensures Minify(ItemsText(items, depth, fmt) + rest) == Before(ItemsText(items, depth, false), Minify(rest))
    decreases items, 0
  {
    if items == [] {
      SpaceMinifies([], rest);
    } else if |items| == 1 {
      TextMinifies(items[0], depth, fmt, rest);
    } else {
      var first, more := Text(items[0], depth, fmt), ItemsText(items[1..], depth, fmt);
      var flatFirst, flatMore := Text(items[0], depth, false), ItemsText(items[1..], depth, false);
      ItemsMinify(items[1..], depth, fmt, rest);
      CommaMinifies(fmt, more + rest);
      PiecesMinify(Comma(fmt), more, rest, Comma(false), flatMore);
      TextMinifies(items[0], depth, fmt, (Comma(fmt) + more) + rest);
      PiecesMinify(first, Comma(fmt) + more, rest, flatFirst, Comma(false) + flatMore);
    }
  }

  lemma ClosingMinifies(fmt: bool, depth: int, rest: seq<Byte>)
    ensures Minify((Indent(fmt, depth) + [CLOSE_OBJECT]) + rest)
      == Before(Indent(false, depth) + [CLOSE_OBJECT], Minify(rest))
  {
    PlainStays([CLOSE_OBJECT], rest);
    IndentMinifies(fmt, depth, [CLOSE_OBJECT] + rest);
    PiecesMinify(Indent(fmt, depth), [CLOSE_OBJECT], rest, Indent(false, depth), [CLOSE_OBJECT]);
  }

  lemma OpeningMinifies(fmt: bool, body: seq<Byte>, rest: seq<Byte>, flatBody: seq<Byte>)
    requires Minify(body + rest) == Before(flatBody, Minify(rest))
    ensures Minify(([OPEN_OBJECT] + (LineEnd(fmt) + body)) + rest)
      == Before([OPEN_OBJECT] + (LineEnd(false) + flatBody), Minify(rest))
  {
    LineEndMinifies(fmt, body + rest);
    PiecesMinify(LineEnd(fmt), body, rest, LineEnd(false), flatBody);
    PlainStays([OPEN_OBJECT], (LineEnd(fmt) + body) + rest);
    PiecesMinify([OPEN_OBJECT], LineEnd(fmt) + body, rest, [OPEN_OBJECT], LineEnd(false) + flatBody);
  }

  lemma {:induction false} ObjectMinifies(members: seq<Member>, depth: nat, fmt: bool, rest: seq<Byte>)
    ensures Minify(Text(Object(members), depth, fmt) + rest)
      == Before(Text(Object(members), depth, false), Minify(rest))
    decreases members, 3
  {
    if members == [] {
      ClosingMinifies(fmt, depth - 1, rest);
      OpeningMinifies(fmt, Indent(fmt, depth - 1) + [CLOSE_OBJECT], rest, Indent(false, depth - 1) + [CLOSE_OBJECT]);
    } else {
      var close, flatClose := Indent(fmt, depth) + [CLOSE_OBJECT], Indent(false, depth) + [CLOSE_OBJECT];
      var inside, flatInside := MembersText(members, depth + 1, fmt), MembersText(members, depth + 1, false);
      ClosingMinifies(fmt, depth, rest);
      MembersMinify(members, depth + 1, fmt, close + rest);
      PiecesMinify(inside, close, rest, flatInside, flatClose);
      OpeningMinifies(fmt, inside + close, rest, flatInside + flatClose);
    }
  }

  lemma {:induction false} MembersMinify(members: seq<Member>, depth: nat, fmt: bool, rest: seq<Byte>)
    ensures Minify(MembersText(members, depth, fmt) + rest) == Before(MembersText(members, depth, false), Minify(rest))
    decreases members, 0
  {
    if members == [] {
      SpaceMinifies([], rest);
    } else {
      var m, flatM := MemberText(members[0], depth, fmt), MemberText(members[0], depth, false);
      var after, flatAfter := LineEnd(fmt), LineEnd(false);
      if |members| == 1 {
        LineEndMinifies(fmt, rest);
      } else {
        var more, flatMore := MembersText(members[1..], depth, fmt), MembersText(members[1..], depth, false);
        MembersMinify(members[1..], depth, fmt, rest);
        LineEndMinifies(fmt, more + rest);
        PiecesMinify(LineEnd(fmt), more, rest, LineEnd(false), flatMore);
        PlainStays([COMMA], (LineEnd(fmt) + more) + rest);
        PiecesMinify([COMMA], LineEnd(fmt) + more, rest, [COMMA], LineEnd(false) + flatMore);
        after, flatAfter := [COMMA] + (LineEnd(fmt) + more), [COMMA] + (LineEnd(false) + flatMore);
      }
      MemberMinifies(members[0], depth, fmt, after + rest);
      PiecesMinify(m, after, rest, flatM, flatAfter);
    }
  }

  lemma {:induction false} MemberMinifies(m: Member, depth: nat, fmt: bool, rest: seq<Byte>)
    ensures Minify(MemberText(m, depth, fmt) + rest) == Before(MemberText(m, depth, false), Minify(rest))
    decreases m, 2
  {
    var name, value, flatValue := StringText(m.name), Text(m.value, depth, fmt), Text(m.value, depth, false);
    TextMinifies(m.value, depth, fmt, rest);
    ColonMinifies(fmt, value + rest);
    PiecesMinify(Colon(fmt), value, rest, Colon(false), flatValue);
    StringStays(m.name, (Colon(fmt) + value) + rest);
    PiecesMinify(name, Colon(fmt) + value, rest, name, Colon(false) + flatValue);
    IndentMinifies(fmt, depth, (name + (Colon(fmt) + value)) + rest);
    var flat := name + (Colon(false) + flatValue);
    PiecesMinify(Indent(fmt, depth), name + (Colon(fmt) + value), rest, Indent(false, depth), flat);
  }

  /** Minifying what `cJSON_Print` gives is what `cJSON_PrintUnformatted` gives, and that stays as it is. */
  lemma MinifyOfPrint(v: Value, fmt: bool)
    ensures Minify(Text(v, 0, fmt)) == Done(Text(v, 0, false))
  {
    TextMinifies(v, 0, fmt, []);
    assert Text(v, 0, fmt) + [] == Text(v, 0, fmt);
    assert Text(v, 0, false) + [] == Text(v, 0, false);
  }

  /** No text grows. */
  lemma {:induction false} MinifyShrinks(s: seq<Byte>)
    ensures Minify(s).Done? ==> |Minify(s).text| <= |s|
    decreases |s|
  {
    if s == [] {
    } else if IsSpace(s[0]) {
      MinifyShrinks(s[1..]);
    } else if StartsLineComment(s) {
      MinifyShrinks(s[LineLength(s)..]);
    } else if StartsComment(s) {
      if CommentLength(s) != 0 {
        MinifyShrinks(s[CommentLength(s)..]);
      }
    } else if s[0] == QUOTE {
      if LiteralLength(s[1..]) != 0 {
        MinifyShrinks(s[1 + LiteralLength(s[1..])..]);
      }
    } else {
      MinifyShrinks(s[1..]);
    }
  }

  // ----- in place

  /** A text that is being rewritten: `into` bytes are done, and from `json` on it is still as it was. */
  predicate Halfway(a: array<Byte>, done: seq<Byte>, into: nat, text: seq<Byte>, json: nat)
    reads a
  {
    && into <= json <= |text| < a.Length
    && a[..into] == done && a[json..|text|] == text[json..] && a[|text|] == 0
  }

  lemma Reads(a: array<Byte>, done: seq<Byte>, into: nat, text: seq<Byte>, json: nat)
    requires Halfway(a, done, into, text, json) && NoZero(text)
    ensures json < |text| ==> a[json] == text[json] == text[json..][0] && a[json] != 0
    ensures json + 1 < |text| ==> a[json + 1] == text[json + 1] == text[json..][1]
    ensures json + 1 == |text| ==> a[json + 1] == 0
    ensures json == |text| ==> a[json] == 0
  {
    assert json < |text| ==> a[json..|text|][0] == a[json];
    assert json + 1 < |text| ==> a[json..|text|][1] == a[json + 1];
  }

  /** Moves one byte from the read cursor to the write cursor. */
  method MoveByte(a: array<Byte>, ghost done: seq<Byte>, into: nat, ghost text: seq<Byte>, json: nat)
    returns (newInto: nat, newJson: nat)
    requires NoZero(text) && Halfway(a, done, into, text, json) && json < |text|
    modifies a
    ensures newInto == into + 1 && newJson == json + 1 && Halfway(a, done + [text[json]], newInto, text, newJson)
  {
    Reads(a, done, into, text, json);
    ghost var left := a[json + 1..|text|];
    assert left == a[json..|text|][1..] == text[json + 1..];
    a[into] := a[json];
    newInto, newJson := into + 1, json + 1;
    assert a[newJson..|text|] == left;
  }

  method SkipLine(a: array<Byte>, ghost done: seq<Byte>, ghost into: nat, ghost text: seq<Byte>, start: nat)
    returns (json: nat)
    requires NoZero(text) && Halfway(a, done, into, text, start)
    ensures json == start + LineLength(text[start..]) && Halfway(a, done, into, text, json)
  {
    json := start;
    Reads(a, done, into, text, json);
    while a[json] != 0 && a[json] != NEWLINE
      invariant start <= json && Halfway(a, done, into, text, json)
      invariant json + LineLength(text[json..]) == start + LineLength(text[start..])
      invariant json < |text| ==> a[json] == text[json..][0]
      invariant json == |text| ==> a[json] == 0
      decreases |text| - json
    {
      DropMore(text, json, 1);
      DropMore(a[..|text|], json, 1);
      json := json + 1;
      assert a[json..|text|] == text[json..];
      Reads(a, done, into, text, json);
    }
    Reads(a, done, into, text, json);
  }

  method SkipComment(a: array<Byte>, ghost done: seq<Byte>, ghost into: nat, ghost text: seq<Byte>, start: nat)
    returns (json: nat)
    requires NoZero(text) && Halfway(a, done, into, text, start) && CommentLength(text[start..]) > 0
    ensures json == start + CommentLength(text[start..]) && Halfway(a, done, into, text, json)
  {
    json := start;
    Reads(a, done, into, text, json);
    while a[json] != 0 && !(a[json] == STAR && a[json + 1] == SLASH)
      invariant start <= json && Halfway(a, done, into, text, json) && json + 1 < |text|
      invariant CommentLength(text[json..]) > 0
      invariant json + CommentLength(text[json..]) == start + CommentLength(text[start..])
      invariant a[json] == text[json..][0] && a[json + 1] == text[json..][1]
      decreases |text| - json
    {
      DropMore(text, json, 1);
      json := json + 1;
      assert a[json..|text|] == text[json..];
      Reads(a, done, into, text, json);
    }
    DropMore(text, json, 2);
    Reads(a, done, into, text, json);
    json := json + 2;
    assert a[json..|text|] == text[json..];
  }

  /** Moves one more byte of a slice that is copied as it is. */
  method MoveOn(a: array<Byte>, ghost done: seq<Byte>, into: nat, ghost text: seq<Byte>, ghost start: nat, json: nat)
    returns (newInto: nat, next: nat)
    requires NoZero(text) && start <= json < |text| && Halfway(a, done + text[start..json], into, text, json)
    modifies a
    ensures newInto == into + 1 && next == json + 1
    ensures Halfway(a, done + text[start..next], newInto, text, next)
  {
    newInto, next := MoveByte(a, done + text[start..json], into, text, json);
    assert text[start..json + 1] == text[start..json] + [text[json]];
    Regroup(done, text[start..json], [text[json]]);
  }

  /** Copies a literal, whose opening quote the read cursor is on, with its quotes and escapes. */
  method CopyLiteral(a: array<Byte>, ghost done: seq<Byte>, into: nat, ghost text: seq<Byte>, start: nat)
    returns (newInto: nat, json: nat)
    requires NoZero(text) && Halfway(a, done, into, text, start)
    requires start < |text| && LiteralLength(text[start + 1..]) > 0
    modifies a
    ensures json == start + 1 + LiteralLength(text[start + 1..]) <= |text|
    ensures Halfway(a, done + text[start..json], newInto, text, json)
  {
    assert done + text[start..start] == done;
    newInto, json := MoveOn(a, done, into, text, start, start);
    Reads(a, done + text[start..json], newInto, text, json);
    while a[json] != 0 && a[json] != QUOTE
      invariant start < json <= |text| && Halfway(a, done + text[start..json], newInto, text, json)
      invariant LiteralLength(text[json..]) > 0
      invariant json + LiteralLength(text[json..]) == start + 1 + LiteralLength(text[start + 1..])
      decreases |text| - json
    {
      newInto, json := CopyCharacter(a, done, newInto, text, start, json);
    }
    LiteralStep(text, json);
    Reads(a, done + text[start..json], newInto, text, json);
    newInto, json := MoveOn(a, done, newInto, text, start, json);
  }

  /** One byte of a literal, or two when the first one is a backslash. */
  method CopyCharacter(a: array<Byte>, ghost done: seq<Byte>, into: nat, ghost text: seq<Byte>,
                       ghost start: nat, json: nat)
    returns (newInto: nat, next: nat)
    requires NoZero(text) && start <= json <= |text| && Halfway(a, done + text[start..json], into, text, json)
    requires LiteralLength(text[json..]) > 0 && a[json] != 0 && a[json] != QUOTE
    modifies a
    ensures json < next <= |text| && Halfway(a, done + text[start..next], newInto, text, next)
    ensures 0 < LiteralLength(text[next..]) == LiteralLength(text[json..]) - (next - json)
  {
    LiteralStep(text, json);
    Reads(a, done + text[start..json], into, text, json);
    newInto, next := into, json;
    if a[json] == BACKSLASH {
      newInto, next := MoveOn(a, done, newInto, text, start, next);
    }
    newInto, next := MoveOn(a, done, newInto, text, start, next);
  }

  lemma LiteralStep(text: seq<Byte>, i: nat)
    requires i <= |text| && LiteralLength(text[i..]) > 0
    ensures i < |text|
    ensures text[i] == QUOTE ==> LiteralLength(text[i..]) == 1
    ensures text[i] == BACKSLASH ==> i + 2 <= |text| && LiteralLength(text[i..]) == 2 + LiteralLength(text[i + 2..]) > 2
    ensures text[i] != QUOTE && text[i] != BACKSLASH ==>
      LiteralLength(text[i..]) == 1 + LiteralLength(text[i + 1..]) > 1
  {
    DropMore(text, i, 1);
    if i + 2 <= |text| {
      DropMore(text, i, 2);
    }
  }

  /** What `Minify` makes of the text from a position on, by what is there. */
  lemma SkippedHere(text: seq<Byte>, i: nat)
    requires i < |text| && Minify(text[i..]).Done?
    ensures var s := text[i..];
      && (IsSpace(s[0]) ==> Minify(s) == Minify(text[i + 1..]))
      && (StartsLineComment(s) ==> LineLength(s) > 0 && Minify(s) == Minify(text[i + LineLength(s)..]))
      && (StartsComment(s) ==> CommentLength(s) > 0 && Minify(s) == Minify(text[i + CommentLength(s)..]))
  {
    var s := text[i..];
    DropMore(text, i, 1);
    DropMore(text, i, LineLength(s));
    DropMore(text, i, CommentLength(s));
  }

  lemma KeptHere(text: seq<Byte>, i: nat)
    requires i < |text| && Minify(text[i..]).Done?
    requires !IsSpace(text[i]) && !StartsLineComment(text[i..]) && !StartsComment(text[i..])
    ensures text[i] == QUOTE ==>
      var n := LiteralLength(text[i + 1..]);
      n > 0 && Minify(text[i..]) == Before(text[i..i + 1 + n], Minify(text[i + 1 + n..]))
    ensures text[i] != QUOTE ==> Minify(text[i..]) == Before([text[i]], Minify(text[i + 1..]))
  {
    DropMore(text, i, 1);
    if text[i] == QUOTE {
      var n := LiteralLength(text[i + 1..]);
      DropMore(text, i, 1 + n);
      assert text[i..][..1 + n] == text[i..i + 1 + n];
    }
  }

  lemma {:induction false} MinifyNoZero(s: seq<Byte>)
    requires NoZero(s)
    ensures Minify(s).Done? ==> NoZero(Minify(s).text)
    decreases |s|
  {
    if s == [] {
    } else if IsSpace(s[0]) {
      MinifyNoZero(s[1..]);
    } else if StartsLineComment(s) {
      MinifyNoZero(s[LineLength(s)..]);
    } else if StartsComment(s) {
      if CommentLength(s) != 0 {
        MinifyNoZero(s[CommentLength(s)..]);
      }
    } else if s[0] == QUOTE {
      if LiteralLength(s[1..]) != 0 {
        MinifyNoZero(s[1 + LiteralLength(s[1..])..]);
      }
    } else {
      MinifyNoZero(s[1..]);
    }
  }

  /** `cJSON_Minify`, where nothing is left open: the result replaces the text in its own block. */
  method MinifyInPlace(a: array<Byte>, ghost text: seq<Byte>)
    requires Holds(a, text) && Minify(text).Done?
    modifies a
    ensures Holds(a, Minify(text).text)
  {
    ghost var done, all := [], Minify(text);
    var into: nat, json: nat := 0, 0;
    assert text[0..] == text && a[0..|text|] == a[..|text|];
    assert [] + all.text == all.text;
    Reads(a, done, into, text, json);
    while a[json] != 0
      invariant Halfway(a, done, into, text, json)
      invariant Minify(text[json..]).Done? && all == Before(done, Minify(text[json..]))
      invariant a[json] == 0 <==> json == |text|
      decreases |text| - json
    {
      into, json, done := Step(a, done, into, text, json);
      Reads(a, done, into, text, json);
    }
    assert done + [] == done;
    MinifyNoZero(text);
    a[into] := 0;
  }

  /** One round of the loop: a blank, a comment, a literal or another byte. */
  method Step(a: array<Byte>, ghost done: seq<Byte>, into: nat, ghost text: seq<Byte>, json: nat)
    returns (newInto: nat, next: nat, ghost more: seq<Byte>)
    requires NoZero(text) && Halfway(a, done, into, text, json) && json < |text|
    requires Minify(text[json..]).Done?
    modifies a
    ensures json < next && Halfway(a, more, newInto, text, next)
    ensures Minify(text[next..]).Done? && Before(more, Minify(text[next..])) == Before(done, Minify(text[json..]))
  {
    Reads(a, done, into, text, json);
    SkippedHere(text, json);
    newInto, more := into, done;
    if IsSpace(a[json]) {
      next := SkipByte(a, done, into, text, json);
    } else if a[json] == SLASH && a[json + 1] == SLASH {
      next := SkipLine(a, done, into, text, json);
    } else if a[json] == SLASH && a[json + 1] == STAR {
      next := SkipComment(a, done, into, text, json);
    } else {
      newInto, next := Keep(a, done, into, text, json);
      more := done + text[json..next];
      BeforeTwice(done, text[json..next], Minify(text[next..]));
    }
  }

  method Keep(a: array<Byte>, ghost done: seq<Byte>, into: nat, ghost text: seq<Byte>, json: nat)
    returns (newInto: nat, next: nat)
    requires NoZero(text) && Halfway(a, done, into, text, json) && json < |text|
    requires Minify(text[json..]).Done?
    requires !IsSpace(text[json]) && !StartsLineComment(text[json..]) && !StartsComment(text[json..])
    modifies a
    ensures json < next <= |text| && Halfway(a, done + text[json..next], newInto, text, next)
    ensures Minify(text[next..]).Done? && Minify(text[json..]) == Before(text[json..next], Minify(text[next..]))
  {
    Reads(a, done, into, text, json);
    KeptHere(text, json);
    if a[json] == QUOTE {
      newInto, next := CopyLiteral(a, done, into, text, json);
    } else {
      newInto, next := CopyPlain(a, done, into, text, json);
    }
  }

  method CopyPlain(a: array<Byte>, ghost done: seq<Byte>, into: nat, ghost text: seq<Byte>, json: nat)
    returns (newInto: nat, next: nat)
    requires NoZero(text) && Halfway(a, done, into, text, json) && json < |text|
    modifies a
    ensures next == json + 1 && text[json..next] == [text[json]]
    ensures Halfway(a, done + text[json..next], newInto, text, next)
  {
    newInto, next := MoveByte(a, done, into, text, json);
    assert text[json..next] == [text[json]];
  }

  method SkipByte(a: array<Byte>, ghost done: seq<Byte>, ghost into: nat, ghost text: seq<Byte>, start: nat)
    returns (json: nat)
    requires Halfway(a, done, into, text, start) && start < |text|
    ensures json == start + 1 && Halfway(a, done, into, text, json)
  {
    json := start + 1;
    DropMore(text, start, 1);
    assert a[start..|text|][1..] == a[json..|text|];
  }
}
