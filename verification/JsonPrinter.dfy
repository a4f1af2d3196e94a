/** The printers of cJSON that allocate each text and join the parts. */
module JsonPrinter {
  import opened Octets
  import opened Json
  import opened CStrings
  import opened JsonText

  // ----- strings

  predicate IsPlain(c: Byte) {
    !(0 < c < 32 || c == QUOTE || c == BACKSLASH)
  }

  lemma {:induction false} PlainEscape(s: seq<Byte>)
    requires NoZero(s) && forall i :: 0 <= i < |s| ==> IsPlain(s[i])
    ensures Escape(s) == s
  {
    if s != [] {
      PlainEscape(s[1..]);
      assert [s[0]] + s[1..] == s;
    }
  }

  lemma EscapeStep(s: seq<Byte>, i: nat)
    requires i < |s|
    ensures Escape(s[i..]) == EscapeByte(s[i]) + Escape(s[i + 1..])
  {
    assert s[i..][1..] == s[i + 1..];
  }

  /** The passes over a string before room is made for it: whether anything is escaped, and the length. */
  method MeasureString(str: seq<Byte>) returns (flag: bool, len: nat)
    requires NoZero(str)
    ensures len == |Escape(str)|
    ensures !flag ==> Escape(str) == str
  {
    var i := 0;
    flag := false;
    while i < |str|
      invariant i <= |str|
      invariant !flag ==> forall j :: 0 <= j < i ==> IsPlain(str[j])
    {
      flag := flag || !IsPlain(str[i]);
      i := i + 1;
    }
    if !flag {
      PlainEscape(str);
      return flag, |str|;
    }
    i, len := 0, 0;
    assert str[0..] == str;
    while i < |str|
      invariant i <= |str| && len + |Escape(str[i..])| == |Escape(str)|
    {
      EscapeStep(str, i);
      len := len + 1;
      if ShortEscape(str[i]) != 0 {
        len := len + 1;
      } else if str[i] < 32 {
        len := len + 5;
      }
      i := i + 1;
    }
  }

  /** The quoted text of a string and its zero byte, in room for exactly that much after `at`. */
  method WriteString(out: array<Byte>, at: nat, str: seq<Byte>, flag: bool) returns (next: nat)
    requires NoZero(str) && (!flag ==> Escape(str) == str)
    requires at + |Escape(str)| + 3 <= out.Length
    modifies out
    ensures next == at + |StringText(str)| && out[..next] == old(out[..at]) + StringText(str) && out[next] == 0
  {
    ghost var front := out[..at];
    next := Put(out, at, QUOTE);
    if !flag {
      next := CopyString(out, next, str);
    } else {
      next := WriteEscapes(out, next, str);
    }
    next := Put(out, next, QUOTE);
    next := End(out, next);
    Regroup(front + [QUOTE], Escape(str), [QUOTE]);
    Regroup(front, [QUOTE], Escape(str) + [QUOTE]);
  }

  method WriteEscapes(out: array<Byte>, at: nat, str: seq<Byte>) returns (next: nat)
    requires NoZero(str) && at + |Escape(str)| <= out.Length
    modifies out
    ensures next == at + |Escape(str)| && out[..next] == old(out[..at]) + Escape(str)
  {
    ghost var whole := out[..at] + Escape(str);
    ghost var written := out[..at];
    var i := 0;
    next := at;
    assert str[0..] == str;
    while i < |str|
      invariant i <= |str| && at <= next <= out.Length
      invariant out[..next] == written && written + Escape(str[i..]) == whole
    {
      EscapeStep(str, i);
      Regroup(written, EscapeByte(str[i]), Escape(str[i + 1..]));
      written := written + EscapeByte(str[i]);
      next := WriteEscape(out, next, str[i]);
      i := i + 1;
    }
    assert written + [] == written;
  }

  method WriteEscape(out: array<Byte>, at: nat, c: Byte) returns (next: nat)
    requires c != 0 && at + |EscapeByte(c)| <= out.Length
    modifies out
    ensures next == at + |EscapeByte(c)| && out[..next] == old(out[..at]) + EscapeByte(c)
  {
    if c > 31 && c != QUOTE && c != BACKSLASH {
      next := Put(out, at, c);
      return;
    }
    ghost var front := out[..at];
    next := Put(out, at, BACKSLASH);
    if ShortEscape(c) != 0 {
      next := Put(out, next, ShortEscape(c));
      Regroup(front, [BACKSLASH], [ShortEscape(c)]);
    } else {
      var hex := [SMALL_U, ZERO, ZERO, HexDigit(c as int / 16), HexDigit(c as int % 16)];
      next := Copy(out, next, hex);
      Regroup(front, [BACKSLASH], hex);
    }
  }

  method PrintString(str: seq<Byte>) returns (out: array<Byte>)
    requires NoZero(str)
    ensures Holds(out, StringText(str)) && out.Length == |StringText(str)| + 1
  {
    var flag, len := MeasureString(str);
    out := new Byte[len + 3];
    var next := WriteString(out, 0, str, flag);
    FromStart(out, next, StringText(str));
    StringNoZero(str);
  }

  lemma FromStart(out: array<Byte>, next: nat, text: seq<Byte>)
    requires next <= out.Length && out[..next] == out[..0] + text
    ensures out[..next] == text
  {
  }

  // ----- values

  method PrintNumber(n: int) returns (out: array<Byte>)
    requires -0x8000_0000 <= n < 0x8000_0000
    ensures Holds(out, NumberText(n)) && out.Length == if n == 0 then 2 else 21
  {
    NumberLength(n);
    NumberNoZero(n);
    out := new Byte[if n == 0 then 2 else 21];
    var next := CopyString(out, 0, NumberText(n));
    FromStart(out, next, NumberText(n));
  }

  method Duplicate(text: seq<Byte>) returns (out: array<Byte>)
    requires NoZero(text)
    ensures Holds(out, text) && out.Length == |text| + 1
  {
    out := new Byte[|text| + 1];
    var next := CopyString(out, 0, text);
    FromStart(out, next, text);
  }

  function ItemRoom(v: Value, depth: nat, fmt: bool): nat {
    |Text(v, depth, fmt)| + 2 + (if fmt then 1 else 0)
  }

  function MemberRoom(m: Member, depth: nat, fmt: bool): nat {
    |Text(m.value, depth, fmt)| + |StringText(m.name)| + 2 + (if fmt then 2 + depth else 0)
  }

  /** The bytes that the first pass adds up for the items of an array. */
  function ItemsRoom(items: seq<Value>, depth: nat, fmt: bool): nat {
    if items == [] then 0
    else ItemsRoom(items[..|items| - 1], depth, fmt) + ItemRoom(items[|items| - 1], depth, fmt)
  }

  function MembersRoom(members: seq<Member>, depth: nat, fmt: bool): nat {
    if members == [] then 0
    else MembersRoom(members[..|members| - 1], depth, fmt) + MemberRoom(members[|members| - 1], depth, fmt)
  }

  lemma ItemsRoomStep(items: seq<Value>, i: nat, depth: nat, fmt: bool)
    requires i < |items|
    ensures ItemsRoom(items[..i + 1], depth, fmt) == ItemsRoom(items[..i], depth, fmt) + ItemRoom(items[i], depth, fmt)
  {
    assert items[..i + 1][..i] == items[..i];
  }

  lemma MembersRoomStep(members: seq<Member>, i: nat, depth: nat, fmt: bool)
    requires i < |members|
    ensures MembersRoom(members[..i + 1], depth, fmt)
      == MembersRoom(members[..i], depth, fmt) + MemberRoom(members[i], depth, fmt)
  {
    assert members[..i + 1][..i] == members[..i];
  }

  /** The size of the block allocated for the text of a value. */
  function Allocated(v: Value, depth: nat, fmt: bool): nat {
    match v
    case Null => 5
    case False => 6
    case True => 5
    case Number(n) => if n == 0 then 2 else 21
    case String(s) => |Escape(s)| + 3
    case Array(items) => if items == [] then 3 else 5 + ItemsRoom(items, depth + 1, fmt)
    case Object(members) =>
      if members == [] then (if fmt then depth + 4 else 3)
      else 7 + (if fmt then depth + 1 else 0) + MembersRoom(members, depth + 1, fmt)
  }

  lemma {:induction false} ItemsFit(items: seq<Value>, i: nat, depth: nat, fmt: bool)
    requires i <= |items|
    ensures ItemsRoom(items[..i], depth, fmt) + |ItemsLeft(items, i, depth, fmt)| <= ItemsRoom(items, depth, fmt) + 1
    decreases |items| - i
  {
    if i == |items| {
      assert items[..i] == items;
    } else {
      ItemsFit(items, i + 1, depth, fmt);
      ItemsStep(items, i, depth, fmt);
      ItemsRoomStep(items, i, depth, fmt);
    }
  }

  lemma {:induction false} MembersFit(members: seq<Member>, i: nat, depth: nat, fmt: bool)
    requires i <= |members| && depth >= 1
    ensures MembersRoom(members[..i], depth, fmt) + |MembersLeft(members, i, depth, fmt)|
      <= MembersRoom(members, depth, fmt) + 1 + (if fmt then depth - 1 else 0)
    decreases |members| - i
  {
    TabsLength(depth);
    TabsLength(depth - 1);
    if i == |members| {
      assert members[..i] == members;
    } else {
      MembersFit(members, i + 1, depth, fmt);
      MembersStep(members, i, depth, fmt);
      MembersRoomStep(members, i, depth, fmt);
    }
  }

  lemma ArrayFits(items: seq<Value>, depth: nat, fmt: bool)
    ensures |Text(Array(items), depth, fmt)| < Allocated(Array(items), depth, fmt)
  {
    ItemsFit(items, 0, depth + 1, fmt);
    assert items[..0] == [] && items[0..] == items;
  }

  lemma ObjectFits(members: seq<Member>, depth: nat, fmt: bool)
    ensures |Text(Object(members), depth, fmt)| < Allocated(Object(members), depth, fmt)
  {
    TabsLength(depth - 1);
    MembersFit(members, 0, depth + 1, fmt);
    assert members[..0] == [] && members[0..] == members;
  }

  /** Every block has room for its text and the zero byte after it; a string fills its block. */
  lemma RoomIsEnough(v: Value, depth: nat, fmt: bool)
    requires Valid(v)
    ensures |Text(v, depth, fmt)| < Allocated(v, depth, fmt)
    ensures v.String? ==> Allocated(v, depth, fmt) == |Text(v, depth, fmt)| + 1
  {
    match v
    case Number(n) => NumberLength(n);
    case Array(items) => ArrayFits(items, depth, fmt);
    case Object(members) => ObjectFits(members, depth, fmt);
    case _ =>
  }

  method PrintValue(v: Value, depth: nat, fmt: bool) returns (out: array<Byte>)
    requires Valid(v)
    ensures Holds(out, Text(v, depth, fmt)) && out.Length == Allocated(v, depth, fmt)
    decreases v, 1
  {
    match v
    case Null => out := Duplicate(NULL_TEXT);
    case False => out := Duplicate(FALSE_TEXT);
    case True => out := Duplicate(TRUE_TEXT);
    case Number(n) => out := PrintNumber(n);
    case String(s) => out := PrintString(s);
    case Array(items) => out := PrintArray(items, depth, fmt);
    case Object(members) => out := PrintObject(members, depth, fmt);
  }

  method PrintArray(items: seq<Value>, depth: nat, fmt: bool) returns (out: array<Byte>)
    requires Valid(Array(items))
    ensures Holds(out, Text(Array(items), depth, fmt)) && out.Length == Allocated(Array(items), depth, fmt)
    decreases items, 1
  {
    var v := Array(items);
    TextNoZero(v, depth, fmt);
    RoomIsEnough(v, depth, fmt);
    if items == [] {
      out := new Byte[3];
      var next := CopyString(out, 0, [OPEN_ARRAY, CLOSE_ARRAY]);
      return;
    }
    var entries, len := PrintItems(items, depth, fmt);
    out := new Byte[len];
    ComposeArray(out, items, depth, fmt, entries);
  }

  function ItemTexts(items: seq<Value>, depth: nat, fmt: bool): (texts: seq<seq<Byte>>)
    ensures |texts| == |items|
  {
    if items == [] then []
    else ItemTexts(items[..|items| - 1], depth, fmt) + [Text(items[|items| - 1], depth, fmt)]
  }

  lemma ItemTextsStep(items: seq<Value>, i: nat, depth: nat, fmt: bool)
    requires i < |items|
    ensures ItemTexts(items[..i + 1], depth, fmt) == ItemTexts(items[..i], depth, fmt) + [Text(items[i], depth, fmt)]
  {
    assert items[..i + 1][..i] == items[..i];
  }

  lemma {:induction false} ItemTextAt(items: seq<Value>, i: nat, depth: nat, fmt: bool)
    requires i < |items|
    ensures ItemTexts(items, depth, fmt)[i] == Text(items[i], depth, fmt)
  {
    if i < |items| - 1 {
      ItemTextAt(items[..|items| - 1], i, depth, fmt);
    }
  }

  /** The first pass: the text of every item, and the length of the whole. */
  method PrintItems(items: seq<Value>, depth: nat, fmt: bool) returns (entries: seq<seq<Byte>>, len: nat)
    requires forall i :: 0 <= i < |items| ==> Valid(items[i])
    ensures len == 5 + ItemsRoom(items, depth + 1, fmt)
    ensures entries == ItemTexts(items, depth + 1, fmt)
    decreases items, 0
  {
    entries, len := [], 5;
    var i := 0;
    while i < |items|
      invariant i <= |items|
      invariant len == 5 + ItemsRoom(items[..i], depth + 1, fmt)
      invariant entries == ItemTexts(items[..i], depth + 1, fmt)
    {
      var entry, room := PrintItem(items[i], depth + 1, fmt);
      len := len + room;
      entries := entries + [entry];
      ItemsRoomStep(items, i, depth + 1, fmt);
      ItemTextsStep(items, i, depth + 1, fmt);
      i := i + 1;
    }
    assert items[..i] == items;
  }

  method PrintItem(v: Value, depth: nat, fmt: bool) returns (entry: seq<Byte>, room: nat)
    requires Valid(v)
    ensures entry == Text(v, depth, fmt) && room == ItemRoom(v, depth, fmt)
    decreases v, 2
  {
    var ret := PrintValue(v, depth, fmt);
    entry := Contents(ret, Text(v, depth, fmt));
    room := |entry| + 2 + (if fmt then 1 else 0);
  }

  method ComposeArray(out: array<Byte>, items: seq<Value>, depth: nat, fmt: bool, entries: seq<seq<Byte>>)
    requires items != [] && Valid(Array(items)) && |Text(Array(items), depth, fmt)| < out.Length
    requires entries == ItemTexts(items, depth + 1, fmt)
    modifies out
    ensures Holds(out, Text(Array(items), depth, fmt))
  {
    ghost var text := Text(Array(items), depth, fmt);
    TextNoZero(Array(items), depth, fmt);
    assert items[0..] == items;
    var k := Put(out, 0, OPEN_ARRAY);
    k := End(out, k);
    var i := 0;
    while i < |items|
      invariant i <= |items| && 0 <= k <= out.Length
      invariant out[..k] + ItemsLeft(items, i, depth + 1, fmt) == text
    {
      ItemTextAt(items, i, depth + 1, fmt);
      k := ComposeItem(out, k, items, i, depth + 1, fmt, entries[i]);
      i := i + 1;
    }
    assert [] + [CLOSE_ARRAY] == [CLOSE_ARRAY];
    k := Put(out, k, CLOSE_ARRAY);
    k := End(out, k);
  }

  /** One item and the comma after it, if another one follows. */
  method ComposeItem(out: array<Byte>, at: nat, items: seq<Value>, i: nat, depth: nat, fmt: bool, entry: seq<Byte>)
    returns (next: nat)
    requires i < |items| && at + |ItemsLeft(items, i, depth, fmt)| < out.Length
    requires entry == Text(items[i], depth, fmt)
    modifies out
    ensures next <= out.Length
    ensures out[..next] + ItemsLeft(items, i + 1, depth, fmt) == old(out[..at]) + ItemsLeft(items, i, depth, fmt)
  {
    ghost var front, item, sep := out[..at], Text(items[i], depth, fmt), Separator(i + 1 < |items|, fmt);
    ItemsStep(items, i, depth, fmt);
    next := Copy(out, at, entry);
    next := WriteSeparator(out, next, i != |items| - 1, fmt);
    JoinThree(front, item, sep, ItemsLeft(items, i + 1, depth, fmt));
  }

  lemma JoinThree(front: seq<Byte>, a: seq<Byte>, b: seq<Byte>, c: seq<Byte>)
    ensures front + a + b + c == front + (a + (b + c))
  {
  }

  method WriteSeparator(out: array<Byte>, at: nat, more: bool, fmt: bool) returns (next: nat)
    requires at + |Separator(more, fmt)| < out.Length
    modifies out
    ensures next == at + |Separator(more, fmt)| && out[..next] == old(out[..at]) + Separator(more, fmt)
  {
    next := at;
    if more {
      next := CopyString(out, at, Comma(fmt));
    }
  }

  method PrintObject(members: seq<Member>, depth: nat, fmt: bool) returns (out: array<Byte>)
    requires Valid(Object(members))
    ensures Holds(out, Text(Object(members), depth, fmt)) && out.Length == Allocated(Object(members), depth, fmt)
    decreases members, 1
  {
    var v := Object(members);
    TextNoZero(v, depth, fmt);
    RoomIsEnough(v, depth, fmt);
    if members == [] {
      out := new Byte[if fmt then depth + 4 else 3];
      var next := WriteEmptyObject(out, 0, depth, fmt);
      FromStart(out, next, Text(v, depth, fmt));
      return;
    }
    var names, entries, len := PrintMembers(members, depth, fmt);
    out := new Byte[len];
    ComposeObject(out, members, depth, fmt, names, entries);
  }

  function NameTexts(members: seq<Member>): (texts: seq<seq<Byte>>)
    ensures |texts| == |members|
  {
    if members == [] then [] else NameTexts(members[..|members| - 1]) + [StringText(members[|members| - 1].name)]
  }

  function EntryTexts(members: seq<Member>, depth: nat, fmt: bool): (texts: seq<seq<Byte>>)
    ensures |texts| == |members|
  {
    if members == [] then []
    else EntryTexts(members[..|members| - 1], depth, fmt) + [Text(members[|members| - 1].value, depth, fmt)]
  }

  lemma MemberTextsStep(members: seq<Member>, i: nat, depth: nat, fmt: bool)
    requires i < |members|
    ensures NameTexts(members[..i + 1]) == NameTexts(members[..i]) + [StringText(members[i].name)]
    ensures EntryTexts(members[..i + 1], depth, fmt)
      == EntryTexts(members[..i], depth, fmt) + [Text(members[i].value, depth, fmt)]
  {
    assert members[..i + 1][..i] == members[..i];
  }

  lemma {:induction false} MemberTextsAt(members: seq<Member>, i: nat, depth: nat, fmt: bool)
    requires i < |members|
    ensures NameTexts(members)[i] == StringText(members[i].name)
    ensures EntryTexts(members, depth, fmt)[i] == Text(members[i].value, depth, fmt)
  {
    if i < |members| - 1 {
      MemberTextsAt(members[..|members| - 1], i, depth, fmt);
    }
  }

  /** What the first pass over an object has after `i` members. */
  predicate Printed(members: seq<Member>, i: nat, depth: nat, fmt: bool, names: seq<seq<Byte>>, entries: seq<seq<Byte>>,
                    room: nat)
    requires i <= |members|
  {
    && names == NameTexts(members[..i]) && entries == EntryTexts(members[..i], depth, fmt)
    && room == MembersRoom(members[..i], depth, fmt)
  }

  lemma OneMorePrinted(members: seq<Member>, i: nat, depth: nat, fmt: bool, names: seq<seq<Byte>>,
                       entries: seq<seq<Byte>>, room: nat)
    requires i < |members| && Printed(members, i, depth, fmt, names, entries, room)
    ensures Printed(members, i + 1, depth, fmt, names + [StringText(members[i].name)],
                    entries + [Text(members[i].value, depth, fmt)], room + MemberRoom(members[i], depth, fmt))
  {
    MembersRoomStep(members, i, depth, fmt);
    MemberTextsStep(members, i, depth, fmt);
  }

  method PrintMembers(members: seq<Member>, depth: nat, fmt: bool)
    returns (names: seq<seq<Byte>>, entries: seq<seq<Byte>>, len: nat)
    requires forall i :: 0 <= i < |members| ==> NoZero(members[i].name) && Valid(members[i].value)
    ensures len == 7 + (if fmt then depth + 1 else 0) + MembersRoom(members, depth + 1, fmt)
    ensures names == NameTexts(members) && entries == EntryTexts(members, depth + 1, fmt)
    decreases members, 0
  {
    names, entries, len := [], [], 7 + (if fmt then depth + 1 else 0);
    ghost var start := len;
    var i := 0;
    while i < |members|
      invariant i <= |members| && start <= len
      invariant Printed(members, i, depth + 1, fmt, names, entries, len - start)
    {
      var name, entry, room := PrintMember(members[i], depth + 1, fmt);
      OneMorePrinted(members, i, depth + 1, fmt, names, entries, len - start);
      len := len + room;
      names, entries := names + [name], entries + [entry];
      i := i + 1;
    }
    assert members[..i] == members;
  }

  method PrintMember(m: Member, depth: nat, fmt: bool) returns (name: seq<Byte>, entry: seq<Byte>, room: nat)
    requires NoZero(m.name) && Valid(m.value)
    ensures name == StringText(m.name) && entry == Text(m.value, depth, fmt)
    ensures room == MemberRoom(m, depth, fmt)
    decreases m, 2
  {
    var str := PrintString(m.name);
    var ret := PrintValue(m.value, depth, fmt);
    entry := Contents(ret, Text(m.value, depth, fmt));
    name := Contents(str, StringText(m.name));
    room := |entry| + |name| + 2 + (if fmt then 2 + depth else 0);
  }

  method WriteIndent(out: array<Byte>, at: nat, depth: int, fmt: bool) returns (next: nat)
    requires at + |Indent(fmt, depth)| <= out.Length
    modifies out
    ensures next == at + |Indent(fmt, depth)| && out[..next] == old(out[..at]) + Indent(fmt, depth)
  {
    next := at;
    if fmt {
      next := PutTabs(out, at, depth);
    }
  }

  /** The text of an object without members. */
  method WriteEmptyObject(out: array<Byte>, at: nat, depth: nat, fmt: bool) returns (next: nat)
    requires at + |Text(Object([]), depth, fmt)| < out.Length
    modifies out
    ensures next == at + |Text(Object([]), depth, fmt)| && out[next] == 0
    ensures out[..next] == old(out[..at]) + Text(Object([]), depth, fmt)
  {
    ghost var front := out[..at];
    next := Put(out, at, OPEN_OBJECT);
    next := Copy(out, next, LineEnd(fmt));
    next := WriteIndent(out, next, depth - 1, fmt);
    next := Put(out, next, CLOSE_OBJECT);
    next := End(out, next);
    JoinFour(front, [OPEN_OBJECT], LineEnd(fmt), Indent(fmt, depth - 1), [CLOSE_OBJECT]);
  }

  lemma JoinFour(front: seq<Byte>, a: seq<Byte>, b: seq<Byte>, c: seq<Byte>, d: seq<Byte>)
    ensures front + a + b + c + d == front + (a + (b + (c + d)))
  {
  }

  method ComposeObject(out: array<Byte>, members: seq<Member>, depth: nat, fmt: bool,
                       names: seq<seq<Byte>>, entries: seq<seq<Byte>>)
    requires members != [] && Valid(Object(members)) && |Text(Object(members), depth, fmt)| < out.Length
    requires names == NameTexts(members) && entries == EntryTexts(members, depth + 1, fmt)
    modifies out
    ensures Holds(out, Text(Object(members), depth, fmt))
  {
    TextNoZero(Object(members), depth, fmt);
    ObjectParts(members, depth, fmt);
    var k := Put(out, 0, OPEN_OBJECT);
    k := CopyString(out, k, LineEnd(fmt));
    k := ComposeLines(out, k, members, depth + 1, fmt, names, entries);
    CloseObject(out, k, members, depth, fmt, Text(Object(members), depth, fmt));
  }

  method ComposeLines(out: array<Byte>, at: nat, members: seq<Member>, depth: nat, fmt: bool,
                      names: seq<seq<Byte>>, entries: seq<seq<Byte>>) returns (k: nat)
    requires at + |MembersLeft(members, 0, depth, fmt)| < out.Length
    requires names == NameTexts(members) && entries == EntryTexts(members, depth, fmt)
    modifies out
    ensures k <= out.Length
    ensures out[..k] + MembersLeft(members, |members|, depth, fmt)
      == old(out[..at]) + MembersLeft(members, 0, depth, fmt)
  {
    ghost var whole := out[..at] + MembersLeft(members, 0, depth, fmt);
    k := at;
    var i := 0;
    while i < |members|
      invariant i <= |members| && k <= out.Length
      invariant out[..k] + MembersLeft(members, i, depth, fmt) == whole
    {
      MemberTextsAt(members, i, depth, fmt);
      k := ComposeMemberLine(out, k, members, i, depth, fmt, names[i], entries[i]);
      i := i + 1;
    }
  }

  method CloseObject(out: array<Byte>, at: nat, members: seq<Member>, depth: nat, fmt: bool, ghost text: seq<Byte>)
    requires at <= out.Length && |text| < out.Length && NoZero(text)
    requires out[..at] + MembersLeft(members, |members|, depth + 1, fmt) == text
    modifies out
    ensures Holds(out, text)
  {
    ghost var front := out[..at];
    NoMembersLeft(members, depth + 1, fmt);
    var k := WriteIndent(out, at, depth, fmt);
    k := Put(out, k, CLOSE_OBJECT);
    k := End(out, k);
    Regroup(front, Indent(fmt, depth), [CLOSE_OBJECT]);
  }

  method ComposeMemberLine(out: array<Byte>, at: nat, members: seq<Member>, i: nat, depth: nat, fmt: bool,
                           name: seq<Byte>, entry: seq<Byte>) returns (next: nat)
    requires i < |members| && at + |MembersLeft(members, i, depth, fmt)| < out.Length
    requires name == StringText(members[i].name) && entry == Text(members[i].value, depth, fmt)
    modifies out
    ensures next <= out.Length
    ensures out[..next] + MembersLeft(members, i + 1, depth, fmt)
      == old(out[..at]) + MembersLeft(members, i, depth, fmt)
  {
    ghost var front, m, sep := out[..at], MemberText(members[i], depth, fmt), LineSeparator(i + 1 < |members|, fmt);
    MembersStep(members, i, depth, fmt);
    next := ComposeMember(out, at, members[i], depth, fmt, name, entry);
    next := WriteLineSeparator(out, next, i != |members| - 1, fmt);
    JoinThree(front, m, sep, MembersLeft(members, i + 1, depth, fmt));
  }

  method ComposeMember(out: array<Byte>, at: nat, m: Member, depth: nat, fmt: bool, name: seq<Byte>, entry: seq<Byte>)
    returns (next: nat)
    requires at + |MemberText(m, depth, fmt)| < out.Length
    requires name == StringText(m.name) && entry == Text(m.value, depth, fmt)
    modifies out
    ensures next == at + |MemberText(m, depth, fmt)| && out[..next] == old(out[..at]) + MemberText(m, depth, fmt)
  {
    ghost var front := out[..at];
    next := WriteIndent(out, at, depth, fmt);
    next := Copy(out, next, name);
    next := Copy(out, next, Colon(fmt));
    next := CopyString(out, next, entry);
    JoinFour(front, Indent(fmt, depth), StringText(m.name), Colon(fmt), Text(m.value, depth, fmt));
  }

  method WriteLineSeparator(out: array<Byte>, at: nat, more: bool, fmt: bool) returns (next: nat)
    requires at + |LineSeparator(more, fmt)| < out.Length
    modifies out
    ensures next == at + |LineSeparator(more, fmt)| && out[..next] == old(out[..at]) + LineSeparator(more, fmt)
  {
    ghost var front := out[..at];
    next := at;
    if more {
      next := Put(out, next, COMMA);
    }
    next := CopyString(out, next, LineEnd(fmt));
    Regroup(front, if more then [COMMA] else [], LineEnd(fmt));
    assert !more ==> front + [] == front;
  }

  /** `cJSON_Print` and `cJSON_PrintUnformatted`. */
  method Print(v: Value, fmt: bool) returns (out: array<Byte>)
    requires Valid(v)
    ensures Holds(out, Text(v, 0, fmt))
  {
    out := PrintValue(v, 0, fmt);
  }
}
