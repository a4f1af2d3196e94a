/** The formatted text is the unformatted one with line ends and indentation put in, token by token. */
module JsonLayout {
  import opened Octets
  import opened Json
  import JsonRoundTrip

  datatype Bracket = InArray | InObject

  function TabRow(n: int): seq<Byte> {
    seq(if n < 0 then 0 else n, _ => 9)
  }

  /**
   A text on lines, given the brackets that are open and whether a string literal is: a new line with a tab for
   every open bracket after an opening brace and after a comma in an object, one with a tab less before a closing
   brace, a tab after a colon, and a space after a comma in an array. An empty object has a tab less than that again.
   */
  function Layout(s: seq<Byte>, open: seq<Bracket>, inLiteral: bool): seq<Byte>
    decreases |s|
  {
    if s == [] then []
    else if inLiteral then
      if s[0] == 92 && |s| > 1 then [92, s[1]] + Layout(s[2..], open, true)
      else [s[0]] + Layout(s[1..], open, s[0] != 34)
    else if s[0] == 34 then [34] + Layout(s[1..], open, true)
    else if s[0] == 123 && |s| > 1 && s[1] == 125 then
      [123, 10] + (TabRow(|open| - 1) + ([125] + Layout(s[2..], open, false)))
    else if s[0] == 123 then [123, 10] + (TabRow(|open| + 1) + Layout(s[1..], open + [InObject], false))
    else if s[0] == 125 then [10] + (TabRow(|open| - 1) + ([125] + Layout(s[1..], Outer(open), false)))
    else if s[0] == 91 then [91] + Layout(s[1..], open + [InArray], false)
    else if s[0] == 93 then [93] + Layout(s[1..], Outer(open), false)
    else if s[0] == 58 then [58, 9] + Layout(s[1..], open, false)
    else if s[0] == 44 && open != [] && open[|open| - 1] == InObject then
      [44, 10] + (TabRow(|open|) + Layout(s[1..], open, false))
    else if s[0] == 44 then [44, 32] + Layout(s[1..], open, false)
    else [s[0]] + Layout(s[1..], open, false)
  }

  /** The brackets around the innermost one. */
  function Outer(open: seq<Bracket>): seq<Bracket> {
    if open == [] then [] else open[..|open| - 1]
  }

  // ----- tokens

  lemma {:induction false} TabsAreRow(n: int)
    ensures Tabs(n) == TabRow(n)
    decreases n
  {
    if n > 0 {
      TabsAreRow(n - 1);
    }
  }

  predicate IsPlain(c: Byte) {
    c !in {34, 44, 58, 91, 93, 123, 125}
  }

  lemma {:induction false} PlainLaidOut(p: seq<Byte>, rest: seq<Byte>, open: seq<Bracket>)
    requires forall i :: 0 <= i < |p| ==> IsPlain(p[i])
    ensures Layout(p + rest, open, false) == p + Layout(rest, open, false)
  {
    if p == [] {
      assert p + rest == rest;
    } else {
      PlainLaidOut(p[1..], rest, open);
      assert (p + rest)[1..] == p[1..] + rest;
      assert [p[0]] + p[1..] == p;
    }
  }

  lemma {:induction false} DigitsPlain(n: nat)
    ensures forall i :: 0 <= i < |Digits(n)| ==> IsPlain(Digits(n)[i])
  {
    if n >= 10 {
      DigitsPlain(n / 10);
    }
  }

  lemma {:induction false} LiteralLaidOut(p: seq<Byte>, rest: seq<Byte>, open: seq<Bracket>)
    requires forall i :: 0 <= i < |p| ==> p[i] != 34 && p[i] != 92
    ensures Layout(p + rest, open, true) == p + Layout(rest, open, true)
  {
    if p == [] {
      assert p + rest == rest;
    } else {
      LiteralLaidOut(p[1..], rest, open);
      assert (p + rest)[1..] == p[1..] + rest;
      assert [p[0]] + p[1..] == p;
    }
  }

  lemma EscapedLaidOut(c: Byte, rest: seq<Byte>, open: seq<Bracket>)
    ensures Layout(EscapeByte(c) + rest, open, true) == EscapeByte(c) + Layout(rest, open, true)
  {
    var e := EscapeByte(c);
    if e[0] == 92 {
      assert e == [92, e[1]] + e[2..] && (e + rest)[2..] == e[2..] + rest;
      LiteralLaidOut(e[2..], rest, open);
      Regroup([92, e[1]], e[2..], Layout(rest, open, true));
    } else {
      LiteralLaidOut(e, rest, open);
    }
  }

  lemma {:induction false} EscapeLaidOut(s: seq<Byte>, rest: seq<Byte>, open: seq<Bracket>)
    ensures Layout(Escape(s) + rest, open, true) == Escape(s) + Layout(rest, open, true)
  {
    if s == [] {
      assert Escape(s) + rest == rest;
    } else {
      EscapeLaidOut(s[1..], rest, open);
      Regroup(EscapeByte(s[0]), Escape(s[1..]), rest);
      EscapedLaidOut(s[0], Escape(s[1..]) + rest, open);
      Regroup(EscapeByte(s[0]), Escape(s[1..]), Layout(rest, open, true));
    }
  }

  /** A string literal stays as it is. */
  lemma StringLaidOut(s: seq<Byte>, rest: seq<Byte>, open: seq<Bracket>)
    ensures Layout(StringText(s) + rest, open, false) == StringText(s) + Layout(rest, open, false)
  {
    var end := [34] + rest;
    StringParts(s, rest);
    assert ([34] + (Escape(s) + end))[1..] == Escape(s) + end && end[1..] == rest;
    EscapeLaidOut(s, end, open);
    StringParts(s, Layout(rest, open, false));
  }

  lemma StringParts(s: seq<Byte>, rest: seq<Byte>)
    ensures StringText(s) + rest == [34] + (Escape(s) + ([34] + rest))
  {
  }

  // ----- values

  lemma {:induction false} TextLaidOut(v: Value, open: seq<Bracket>, rest: seq<Byte>)
    ensures Layout(Text(v, |open|, false) + rest, open, false) == Text(v, |open|, true) + Layout(rest, open, false)
    decreases v, 1
  {
    match v
    case Number(n) =>
      DigitsPlain(if n < 0 then -n else n);
      PlainLaidOut(NumberText(n), rest, open);
    case String(s) => StringLaidOut(s, rest, open);
    case Array(items) => ArrayLaidOut(items, open, rest);
    case Object(members) => ObjectLaidOut(members, open, rest);
    case _ => PlainLaidOut(Text(v, |open|, false), rest, open);
  }

  lemma {:induction false} ArrayLaidOut(items: seq<Value>, open: seq<Bracket>, rest: seq<Byte>)
    ensures Layout(Text(Array(items), |open|, false) + rest, open, false)
      == Text(Array(items), |open|, true) + Layout(rest, open, false)
    decreases items, 1
  {
    var inner := open + [InArray];
    var flat, full := ItemsText(items, |inner|, false), ItemsText(items, |inner|, true);
    var end := [93] + rest;
    var s := Text(Array(items), |open|, false) + rest;
    assert s[1..] == flat + end;
    ItemsLaidOut(items, inner, end);
    assert end[1..] == rest && Outer(inner) == open;
    assert Layout(end, inner, false) == [93] + Layout(rest, open, false);
    Regroup(full, [93], Layout(rest, open, false));
    Regroup([91], full + [93], Layout(rest, open, false));
  }

  lemma {:induction false} ItemsLaidOut(items: seq<Value>, open: seq<Bracket>, rest: seq<Byte>)
    requires open != [] && open[|open| - 1] == InArray
    ensures Layout(ItemsText(items, |open|, false) + rest, open, false)
      == ItemsText(items, |open|, true) + Layout(rest, open, false)
    decreases items, 0
  {
    if items == [] {
      assert [] + rest == rest;
    } else if |items| == 1 {
      TextLaidOut(items[0], open, rest);
    } else {
      var more := ItemsText(items[1..], |open|, false) + rest;
      var laid := Layout(more, open, false);
      ItemsLaidOut(items[1..], open, rest);
      JsonRoundTrip.ItemsTextSplit(items, |open|, false, rest);
      TextLaidOut(items[0], open, [44] + more);
      assert ([44] + more)[1..] == more;
      assert Layout([44] + more, open, false) == [44, 32] + laid;
      JsonRoundTrip.ItemsTextSplit(items, |open|, true, Layout(rest, open, false));
    }
  }

  lemma EmptyLaidOut(open: seq<Bracket>, rest: seq<Byte>)
    ensures Layout(Text(Object([]), |open|, false) + rest, open, false)
      == Text(Object([]), |open|, true) + Layout(rest, open, false)
  {
    var s, row := [123, 125] + rest, TabRow(|open| - 1);
    TabsAreRow(|open| - 1);
    assert s[2..] == rest;
    assert Text(Object([]), |open|, false) + rest == s;
    assert Text(Object([]), |open|, true) == [123, 10] + (row + [125]);
    Regroup([123, 10], row + [125], Layout(rest, open, false));
    Regroup(row, [125], Layout(rest, open, false));
  }

  lemma FlatParts(members: seq<Member>, depth: nat, rest: seq<Byte>)
    requires members != []
    ensures Text(Object(members), depth, false) + rest
      == [123] + (MembersText(members, depth + 1, false) + ([125] + rest))
  {
  }

  lemma FullParts(members: seq<Member>, depth: nat, rest: seq<Byte>)
    requires members != []
    ensures Text(Object(members), depth, true) + rest
      == [123, 10] + (MembersText(members, depth + 1, true) + (Tabs(depth) + ([125] + rest)))
  {
    var inside := MembersText(members, depth + 1, true);
    Regroup(Tabs(depth), [125], rest);
    Regroup(inside, Tabs(depth) + [125], rest);
    Regroup([10], inside + (Tabs(depth) + [125]), rest);
    Regroup([123], [10] + (inside + (Tabs(depth) + [125])), rest);
  }

  lemma {:induction false} ObjectLaidOut(members: seq<Member>, open: seq<Bracket>, rest: seq<Byte>)
    ensures Layout(Text(Object(members), |open|, false) + rest, open, false)
      == Text(Object(members), |open|, true) + Layout(rest, open, false)
    decreases members, 3
  {
    if members == [] {
      EmptyLaidOut(open, rest);
    } else {
      var flat := MembersText(members, |open| + 1, false) + ([125] + rest);
      FlatParts(members, |open|, rest);
      MembersStart(members, |open| + 1, [125] + rest);
      OpeningLaidOut(flat, open);
      MembersLaidOut(members, open, rest);
      FullParts(members, |open|, Layout(rest, open, false));
    }
  }

  lemma OpeningLaidOut(flat: seq<Byte>, open: seq<Bracket>)
    requires flat != [] && flat[0] == 34
    ensures Layout([123] + flat, open, false)
      == [123, 10] + (Tabs(|open| + 1) + Layout(flat, open + [InObject], false))
  {
    var s := [123] + flat;
    assert s[1..] == flat && s[1] == 34;
    TabsAreRow(|open| + 1);
  }

  lemma MembersStart(members: seq<Member>, depth: nat, rest: seq<Byte>)
    requires members != []
    ensures var s := MembersText(members, depth, false) + rest; s != [] && s[0] == 34
  {
    var m := MemberText(members[0], depth, false);
    assert m[0] == 34;
    assert MembersText(members, depth, false)[0] == m[0];
  }

  /** The members of an object, with the brace after them. */
  lemma {:induction false} MembersLaidOut(members: seq<Member>, open: seq<Bracket>, rest: seq<Byte>)
    requires members != []
    ensures var inner, d := open + [InObject], |open| + 1;
      Tabs(d) + Layout(MembersText(members, d, false) + ([125] + rest), inner, false)
        == MembersText(members, d, true) + (Tabs(|open|) + ([125] + Layout(rest, open, false)))
    decreases members, 0
  {
    var inner, d := open + [InObject], |open| + 1;
    var end := [125] + rest;
    var close := Tabs(|open|) + ([125] + Layout(rest, open, false));
    if |members| == 1 {
      ClosingLaidOut(inner, rest);
      assert Outer(inner) == open;
      MemberLaidOut(members[0], inner, end);
      LastMember(members, d, end, close);
    } else {
      var more := MembersText(members[1..], d, false) + end;
      MembersLaidOut(members[1..], open, rest);
      MemberLaidOut(members[0], inner, [44] + more);
      CommaLaidOut(more, inner);
      NextMember(members, d, end, close);
    }
  }

  lemma NextMember(members: seq<Member>, depth: nat, end: seq<Byte>, close: seq<Byte>)
    requires |members| > 1
    ensures MembersText(members, depth, false) + end
      == MemberText(members[0], depth, false) + ([44] + (MembersText(members[1..], depth, false) + end))
    ensures MembersText(members, depth, true) + close
      == MemberText(members[0], depth, true) + ([44, 10] + (MembersText(members[1..], depth, true) + close))
  {
    var more, full := MembersText(members[1..], depth, false) + end, MembersText(members[1..], depth, true) + close;
    JsonRoundTrip.MembersTextSplit(members, depth, false, end);
    JsonRoundTrip.MembersTextSplit(members, depth, true, close);
    assert [] + more == more && [44] + ([10] + full) == [44, 10] + full;
  }

  lemma LastMember(members: seq<Member>, depth: nat, end: seq<Byte>, close: seq<Byte>)
    requires |members| == 1
    ensures MembersText(members, depth, false) + end == MemberText(members[0], depth, false) + end
    ensures MembersText(members, depth, true) + close == MemberText(members[0], depth, true) + ([10] + close)
  {
    assert MemberText(members[0], depth, false) + [] == MemberText(members[0], depth, false);
    Regroup(MemberText(members[0], depth, true), [10], close);
  }

  lemma {:induction false} CommaLaidOut(more: seq<Byte>, open: seq<Bracket>)
    requires open != [] && open[|open| - 1] == InObject
    ensures Layout([44] + more, open, false) == [44, 10] + (Tabs(|open|) + Layout(more, open, false))
  {
    assert ([44] + more)[1..] == more;
    TabsAreRow(|open|);
    Regroup([44, 10], Tabs(|open|), Layout(more, open, false));
  }

  lemma ClosingLaidOut(inner: seq<Bracket>, rest: seq<Byte>)
    requires inner != []
    ensures Layout([125] + rest, inner, false)
      == [10] + (Tabs(|inner| - 1) + ([125] + Layout(rest, Outer(inner), false)))
  {
    assert ([125] + rest)[1..] == rest;
    TabsAreRow(|inner| - 1);
  }

  lemma {:induction false} MemberLaidOut(m: Member, open: seq<Bracket>, rest: seq<Byte>)
    ensures Tabs(|open|) + Layout(MemberText(m, |open|, false) + rest, open, false)
      == MemberText(m, |open|, true) + Layout(rest, open, false)
    decreases m, 2
  {
    var d, value := |open|, Text(m.value, |open|, false) + rest;
    JsonRoundTrip.MemberTextSplit(m, d, false, rest);
    assert [] + (StringText(m.name) + ([58] + value)) == StringText(m.name) + ([58] + value);
    StringLaidOut(m.name, [58] + value, open);
    assert ([58] + value)[1..] == value;
    TextLaidOut(m.value, open, rest);
    JsonRoundTrip.MemberTextSplit(m, d, true, Layout(rest, open, false));
  }

  /** What `cJSON_Print` gives is what `cJSON_PrintUnformatted` gives, laid out. */
  lemma FormattedIsLaidOut(v: Value)
    ensures Text(v, 0, true) == Layout(Text(v, 0, false), [], false)
  {
    TextLaidOut(v, [], []);
    assert Text(v, 0, false) + [] == Text(v, 0, false);
    assert Text(v, 0, true) + [] == Text(v, 0, true);
  }
}
