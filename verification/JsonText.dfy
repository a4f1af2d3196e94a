/** The texts of values taken piece by piece, as the printers write them, and how long they are. */
module JsonText {
  import opened Octets
  import opened Json

  lemma NoZeroJoin(a: seq<Byte>, b: seq<Byte>)
    requires NoZero(a) && NoZero(b)
    ensures NoZero(a + b)
  {
  }

  lemma {:induction false} DigitsNoZero(n: nat)
    ensures NoZero(Digits(n))
  {
    if n >= 10 {
      DigitsNoZero(n / 10);
      NoZeroJoin(Digits(n / 10), [ZERO + (n % 10) as Byte]);
    }
  }

  lemma {:induction false} TabsNoZero(n: int)
    ensures NoZero(Tabs(n))
    decreases n
  {
    if n > 0 {
      TabsNoZero(n - 1);
      NoZeroJoin([TAB], Tabs(n - 1));
    }
  }

  lemma {:induction false} EscapeNoZero(s: seq<Byte>)
    requires NoZero(s)
    ensures NoZero(Escape(s))
  {
    if s != [] {
      EscapeNoZero(s[1..]);
      NoZeroJoin(EscapeByte(s[0]), Escape(s[1..]));
    }
  }

  lemma StringNoZero(s: seq<Byte>)
    requires NoZero(s)
    ensures NoZero(StringText(s))
  {
    EscapeNoZero(s);
    NoZeroJoin(Escape(s), [QUOTE]);
    NoZeroJoin([QUOTE], Escape(s) + [QUOTE]);
  }

  lemma NumberNoZero(n: int)
    ensures NoZero(NumberText(n))
  {
    DigitsNoZero(if n < 0 then -n else n);
  }

  /** A text is a C string. */
  lemma {:induction false} TextNoZero(v: Value, depth: nat, fmt: bool)
    requires Valid(v)
    ensures NoZero(Text(v, depth, fmt))
    decreases v, 1
  {
    match v
    case Number(n) => NumberNoZero(n);
    case String(s) => StringNoZero(s);
    case Array(items) =>
      ItemsNoZero(items, depth + 1, fmt);
      NoZeroJoin(ItemsText(items, depth + 1, fmt), [CLOSE_ARRAY]);
      NoZeroJoin([OPEN_ARRAY], ItemsText(items, depth + 1, fmt) + [CLOSE_ARRAY]);
    case Object(members) => ObjectNoZero(members, depth, fmt);
    case _ =>
  }

  lemma {:induction false} ObjectNoZero(members: seq<Member>, depth: nat, fmt: bool)
    requires forall i :: 0 <= i < |members| ==> NoZero(members[i].name) && Valid(members[i].value)
    ensures NoZero(Text(Object(members), depth, fmt))
    decreases members, 1
  {
    TabsNoZero(depth);
    TabsNoZero(depth - 1);
    MembersNoZero(members, depth + 1, fmt);
    NoZeroJoin(MembersText(members, depth + 1, fmt), Indent(fmt, depth) + [CLOSE_OBJECT]);
  }

  lemma {:induction false} ItemsNoZero(items: seq<Value>, depth: nat, fmt: bool)
    requires forall i :: 0 <= i < |items| ==> Valid(items[i])
    ensures NoZero(ItemsText(items, depth, fmt))
    decreases items, 0
  {
    if items != [] {
      TextNoZero(items[0], depth, fmt);
      if |items| > 1 {
        ItemsNoZero(items[1..], depth, fmt);
        NoZeroJoin(Comma(fmt), ItemsText(items[1..], depth, fmt));
        NoZeroJoin(Text(items[0], depth, fmt), Comma(fmt) + ItemsText(items[1..], depth, fmt));
      }
    }
  }

  lemma {:induction false} MemberNoZero(m: Member, depth: nat, fmt: bool)
    requires NoZero(m.name) && Valid(m.value)
    ensures NoZero(MemberText(m, depth, fmt))
    decreases m, 2
  {
    TabsNoZero(depth);
    StringNoZero(m.name);
    TextNoZero(m.value, depth, fmt);
    NoZeroJoin(Colon(fmt), Text(m.value, depth, fmt));
    NoZeroJoin(StringText(m.name), Colon(fmt) + Text(m.value, depth, fmt));
    NoZeroJoin(Indent(fmt, depth), StringText(m.name) + (Colon(fmt) + Text(m.value, depth, fmt)));
  }

  lemma {:induction false} MembersNoZero(members: seq<Member>, depth: nat, fmt: bool)
    requires forall i :: 0 <= i < |members| ==> NoZero(members[i].name) && Valid(members[i].value)
    ensures NoZero(MembersText(members, depth, fmt))
    decreases members, 0
  {
    if members != [] {
      MemberNoZero(members[0], depth, fmt);
      if |members| > 1 {
        MembersNoZero(members[1..], depth, fmt);
        NoZeroJoin(LineEnd(fmt), MembersText(members[1..], depth, fmt));
        NoZeroJoin([COMMA], LineEnd(fmt) + MembersText(members[1..], depth, fmt));
      }
    }
  }

  // ----- what is left to write

  function ItemsLeft(items: seq<Value>, i: nat, depth: nat, fmt: bool): seq<Byte>
    requires i <= |items|
  {
    ItemsText(items[i..], depth, fmt) + [CLOSE_ARRAY]
  }

  function Separator(more: bool, fmt: bool): seq<Byte> {
    if more then Comma(fmt) else []
  }

  lemma ItemsStep(items: seq<Value>, i: nat, depth: nat, fmt: bool)
    requires i < |items|
    ensures ItemsLeft(items, i, depth, fmt)
      == Text(items[i], depth, fmt) + (Separator(i + 1 < |items|, fmt) + ItemsLeft(items, i + 1, depth, fmt))
  {
    var left := items[i..];
    assert left[1..] == items[i + 1..];
    if i + 1 < |items| {
      Regroup(Comma(fmt), ItemsText(left[1..], depth, fmt), [CLOSE_ARRAY]);
      Regroup(Text(items[i], depth, fmt), Comma(fmt) + ItemsText(left[1..], depth, fmt), [CLOSE_ARRAY]);
    } else {
      assert [] + ([] + [CLOSE_ARRAY]) == [CLOSE_ARRAY];
    }
  }

  function MembersLeft(members: seq<Member>, i: nat, depth: nat, fmt: bool): seq<Byte>
    requires i <= |members|
  {
    MembersText(members[i..], depth, fmt) + (Indent(fmt, depth - 1) + [CLOSE_OBJECT])
  }

  function LineSeparator(more: bool, fmt: bool): seq<Byte> {
    (if more then [COMMA] else []) + LineEnd(fmt)
  }

  lemma MembersStep(members: seq<Member>, i: nat, depth: nat, fmt: bool)
    requires i < |members|
    ensures MembersLeft(members, i, depth, fmt)
      == MemberText(members[i], depth, fmt)
        + (LineSeparator(i + 1 < |members|, fmt) + MembersLeft(members, i + 1, depth, fmt))
  {
    var left := members[i..];
    var end := Indent(fmt, depth - 1) + [CLOSE_OBJECT];
    assert left[1..] == members[i + 1..];
    if i + 1 < |members| {
      var more := MembersText(left[1..], depth, fmt);
      Regroup([COMMA], LineEnd(fmt), more + end);
      Regroup(LineEnd(fmt), more, end);
      Regroup([COMMA], LineEnd(fmt) + more, end);
      Regroup(MemberText(members[i], depth, fmt), [COMMA] + (LineEnd(fmt) + more), end);
    } else {
      assert [] + end == end && [] + LineEnd(fmt) == LineEnd(fmt);
      Regroup(MemberText(members[i], depth, fmt), LineEnd(fmt), end);
    }
  }

  lemma NoItemsLeft(items: seq<Value>, depth: nat, fmt: bool)
    ensures ItemsLeft(items, |items|, depth, fmt) == [CLOSE_ARRAY]
  {
    assert [] + [CLOSE_ARRAY] == [CLOSE_ARRAY];
  }

  lemma NoMembersLeft(members: seq<Member>, depth: nat, fmt: bool)
    ensures MembersLeft(members, |members|, depth, fmt) == Indent(fmt, depth - 1) + [CLOSE_OBJECT]
  {
    assert [] + (Indent(fmt, depth - 1) + [CLOSE_OBJECT]) == Indent(fmt, depth - 1) + [CLOSE_OBJECT];
  }

  lemma ObjectParts(members: seq<Member>, depth: nat, fmt: bool)
    requires members != []
    ensures Text(Object(members), depth, fmt)
      == ([OPEN_OBJECT] + LineEnd(fmt)) + MembersLeft(members, 0, depth + 1, fmt)
  {
    assert members[0..] == members;
    Regroup([OPEN_OBJECT], LineEnd(fmt), MembersLeft(members, 0, depth + 1, fmt));
  }

  // ----- lengths

  /** A C `int` has at most ten digits. */
  lemma {:induction false} DigitsLength(n: nat, k: nat, bound: nat)
    requires k >= 1 && bound == Tens(k) && n < bound
    ensures |Digits(n)| <= k
    decreases k
  {
    if n >= 10 {
      assert k > 1;
      DigitsLength(n / 10, k - 1, Tens(k - 1));
    }
  }

  function Tens(k: nat): nat {
    if k == 0 then 1 else 10 * Tens(k - 1)
  }

  lemma NumberLength(n: int)
    requires -0x8000_0000 <= n < 0x8000_0000
    ensures |NumberText(n)| <= 11
    ensures n == 0 ==> NumberText(n) == [ZERO]
  {
    TenDigits(10);
    DigitsLength(if n < 0 then -n else n, 10, Tens(10));
  }

  lemma TenDigits(k: nat)
    requires k == 10
    ensures Tens(k) == 10_000_000_000
  {
    assert Tens(k) == 10 * (10 * (10 * (10 * (10 * Tens(5)))));
    assert Tens(5) == 100_000;
  }
}
