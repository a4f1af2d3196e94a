/** The printers of cJSON that write into one buffer and grow it as they go. */
module JsonBuffer {
  import opened Octets
  import opened Json
  import opened CStrings
  import opened JsonText
  import opened JsonPrinter
  import PowerOfTwo

  class PrintBuffer {
    var buffer: array<Byte>
    var length: nat
    var offset: nat

    predicate Valid()
      reads this
    {
      length == buffer.Length && offset <= length
    }

    constructor (prebuffer: nat)
      requires prebuffer >= 1
      ensures Valid() && fresh(buffer) && offset == 0
    {
      buffer := new Byte[prebuffer];
      length, offset := prebuffer, 0;
    }

    /** Makes room for `needed` bytes after the offset and keeps every byte of the old buffer. */
    method Ensure(needed: nat) returns (at: nat)
      requires Valid()
      modifies this
      ensures Valid() && at == offset == old(offset) && offset + needed <= length
      ensures buffer == old(buffer) || fresh(buffer)
      ensures old(length) <= length && buffer[..old(length)] == old(buffer[..])
    {
      at := offset;
      if offset + needed <= length {
        return;
      }
      var newsize, _ := PowerOfTwo.Pow2gt(offset + needed);
      var newbuffer := new Byte[newsize];
      ghost var bytes := buffer[..];
      var copied := Copy(newbuffer, 0, buffer[..]);
      assert newbuffer[..length] == [] + bytes == bytes;
      buffer, length := newbuffer, newsize;
    }

    /** Ensures room and writes bytes at the offset, without moving it. */
    method Write(needed: nat, bytes: seq<Byte>)
      requires Valid() && |bytes| < needed
      modifies this, buffer
      ensures Valid() && offset == old(offset) && offset + |bytes| < length
      ensures buffer == old(buffer) || fresh(buffer)
      ensures buffer[..offset + |bytes|] == old(buffer[..offset]) + bytes && buffer[offset + |bytes|] == 0
    {
      var at := Ensure(needed);
      assert buffer[..at] == old(buffer[..offset]) by {
        assert buffer[..at] == buffer[..old(length)][..at];
      }
      at := CopyString(buffer, at, bytes);
    }

    /** Ensures room, writes bytes and moves the offset past them. */
    method Append(needed: nat, bytes: seq<Byte>)
      requires Valid() && |bytes| <= needed
      modifies this, buffer
      ensures Valid() && offset == old(offset) + |bytes|
      ensures buffer == old(buffer) || fresh(buffer)
      ensures buffer[..offset] == old(buffer[..offset]) + bytes
    {
      var at := Ensure(needed);
      assert buffer[..at] == old(buffer[..offset]) by {
        assert buffer[..at] == buffer[..old(length)][..at];
      }
      offset := Copy(buffer, at, bytes);
    }

    /** The end of the string that starts at `start`, found from somewhere inside it. */
    method Update(ghost front: seq<Byte>, ghost text: seq<Byte>) returns (end: nat)
      requires Valid() && NoZero(text) && |front| <= offset <= |front| + |text| < length
      requires buffer[..|front| + |text|] == front + text && buffer[|front| + |text|] == 0
      ensures end == |front| + |text|
    {
      ghost var skipped := offset - |front|;
      assert buffer[offset..offset + |text[skipped..]|] == (front + text)[offset..] == text[skipped..];
      end := StringLength(buffer, offset, text[skipped..]);
      end := offset + end;
    }

    method PrintString(str: seq<Byte>)
      requires Valid() && NoZero(str)
      modifies this, buffer
      ensures Valid() && offset == old(offset) && offset + |StringText(str)| < length
      ensures buffer == old(buffer) || fresh(buffer)
      ensures buffer[..offset + |StringText(str)|] == old(buffer[..offset]) + StringText(str)
      ensures buffer[offset + |StringText(str)|] == 0
    {
      var flag, len := MeasureString(str);
      var at := Ensure(len + 3);
      assert buffer[..at] == old(buffer[..offset]) by {
        assert buffer[..at] == buffer[..old(length)][..at];
      }
      at := WriteString(buffer, at, str, flag);
    }

    method PrintNumber(n: int)
      requires Valid() && -0x8000_0000 <= n < 0x8000_0000
      modifies this, buffer
      ensures Valid() && offset == old(offset) && offset + |NumberText(n)| < length
      ensures buffer == old(buffer) || fresh(buffer)
      ensures buffer[..offset + |NumberText(n)|] == old(buffer[..offset]) + NumberText(n)
      ensures buffer[offset + |NumberText(n)|] == 0
    {
      NumberLength(n);
      Write(if n == 0 then 2 else 21, NumberText(n));
    }

    /** Writes a value at the offset, as the other printers write it, whatever is reallocated meanwhile. */
    method PrintValue(v: Value, depth: nat, fmt: bool)
      requires Valid() && Json.Valid(v)
      modifies this, buffer
      ensures Valid() && old(offset) <= offset <= old(offset) + |Text(v, depth, fmt)| < length
      ensures buffer == old(buffer) || fresh(buffer)
      ensures buffer[..old(offset) + |Text(v, depth, fmt)|] == old(buffer[..offset]) + Text(v, depth, fmt)
      ensures buffer[old(offset) + |Text(v, depth, fmt)|] == 0
      decreases v, 1
    {
      match v
      case Array(items) => PrintArray(items, depth, fmt);
      case Object(members) => PrintObject(members, depth, fmt);
      case _ => PrintScalar(v, depth, fmt);
    }

    method PrintScalar(v: Value, ghost depth: nat, ghost fmt: bool)
      requires Valid() && Json.Valid(v) && !v.Array? && !v.Object?
      modifies this, buffer
      ensures Valid() && offset == old(offset) && offset + |Text(v, depth, fmt)| < length
      ensures buffer == old(buffer) || fresh(buffer)
      ensures buffer[..offset + |Text(v, depth, fmt)|] == old(buffer[..offset]) + Text(v, depth, fmt)
      ensures buffer[offset + |Text(v, depth, fmt)|] == 0
    {
      if v.Number? {
        PrintNumber(v.n);
      } else if v.String? {
        PrintString(v.s);
      } else {
        PrintWord(v, depth, fmt);
      }
    }

    method PrintWord(v: Value, ghost depth: nat, ghost fmt: bool)
      requires Valid() && (v.Null? || v.False? || v.True?)
      modifies this, buffer
      ensures Valid() && offset == old(offset) && offset + |Text(v, depth, fmt)| < length
      ensures buffer == old(buffer) || fresh(buffer)
      ensures buffer[..offset + |Text(v, depth, fmt)|] == old(buffer[..offset]) + Text(v, depth, fmt)
      ensures buffer[offset + |Text(v, depth, fmt)|] == 0
    {
      match v
      case Null => Write(5, NULL_TEXT);
      case False => Write(6, FALSE_TEXT);
      case True => Write(5, TRUE_TEXT);
    }

    method PrintArray(items: seq<Value>, depth: nat, fmt: bool)
      requires Valid() && forall i :: 0 <= i < |items| ==> Json.Valid(items[i])
      modifies this, buffer
      ensures Valid() && old(offset) <= offset <= old(offset) + |Text(Array(items), depth, fmt)| < length
      ensures buffer == old(buffer) || fresh(buffer)
      ensures buffer[..old(offset) + |Text(Array(items), depth, fmt)|]
        == old(buffer[..offset]) + Text(Array(items), depth, fmt)
      ensures buffer[old(offset) + |Text(Array(items), depth, fmt)|] == 0
      decreases items, 2
    {
      ghost var front, text := buffer[..offset], Text(Array(items), depth, fmt);
      if items == [] {
        Write(3, [OPEN_ARRAY, CLOSE_ARRAY]);
        return;
      }
      assert items[0..] == items;
      Append(1, [OPEN_ARRAY]);
      Regroup(front, [OPEN_ARRAY], ItemsLeft(items, 0, depth + 1, fmt));
      PrintItems(items, depth + 1, fmt);
      NoItemsLeft(items, depth + 1, fmt);
      Write(2, [CLOSE_ARRAY]);
    }

    method PrintItems(items: seq<Value>, depth: nat, fmt: bool)
      requires Valid() && forall i :: 0 <= i < |items| ==> Json.Valid(items[i])
      modifies this, buffer
      ensures Valid() && offset >= old(offset) && (buffer == old(buffer) || fresh(buffer))
      ensures buffer[..offset] + ItemsLeft(items, |items|, depth, fmt)
        == old(buffer[..offset]) + ItemsLeft(items, 0, depth, fmt)
      decreases items, 1
    {
      ghost var whole := buffer[..offset] + ItemsLeft(items, 0, depth, fmt);
      var i := 0;
      while i < |items|
        invariant i <= |items| && Valid() && offset >= old(offset) && (buffer == old(buffer) || fresh(buffer))
        invariant buffer[..offset] + ItemsLeft(items, i, depth, fmt) == whole
      {
        PrintItem(items, i, depth, fmt);
        i := i + 1;
      }
    }

    method PrintItem(items: seq<Value>, i: nat, depth: nat, fmt: bool)
      requires Valid() && i < |items| && Json.Valid(items[i])
      modifies this, buffer
      ensures Valid() && (buffer == old(buffer) || fresh(buffer))
      ensures buffer[..offset] + ItemsLeft(items, i + 1, depth, fmt)
        == old(buffer[..offset]) + ItemsLeft(items, i, depth, fmt)
      ensures offset >= old(offset)
      decreases items, 0
    {
      ghost var front, item, sep := buffer[..offset], Text(items[i], depth, fmt), Separator(i + 1 < |items|, fmt);
      AppendValue(items[i], depth, fmt);
      if i + 1 < |items| {
        Append((if fmt then 2 else 1) + 1, Comma(fmt));
      }
      ItemsStep(items, i, depth, fmt);
      JoinThree(front, item, sep, ItemsLeft(items, i + 1, depth, fmt));
    }

    method AppendIndent(depth: nat, fmt: bool)
      requires Valid()
      modifies this, buffer
      ensures Valid() && (buffer == old(buffer) || fresh(buffer))
      ensures buffer[..offset] == old(buffer[..offset]) + Indent(fmt, depth)
    {
      if fmt {
        TabsLength(depth);
        var at := Ensure(depth);
        assert buffer[..at] == old(buffer[..offset]) by {
          assert buffer[..at] == buffer[..old(length)][..at];
        }
        offset := PutTabs(buffer, at, depth);
      }
    }

    method AppendString(str: seq<Byte>)
      requires Valid() && NoZero(str)
      modifies this, buffer
      ensures Valid() && (buffer == old(buffer) || fresh(buffer))
      ensures buffer[..offset] == old(buffer[..offset]) + StringText(str)
    {
      ghost var front := buffer[..offset];
      PrintString(str);
      StringNoZero(str);
      offset := Update(front, StringText(str));
    }

    method AppendValue(v: Value, depth: nat, fmt: bool)
      requires Valid() && Json.Valid(v)
      modifies this, buffer
      ensures Valid() && (buffer == old(buffer) || fresh(buffer))
      ensures buffer[..offset] == old(buffer[..offset]) + Text(v, depth, fmt)
      decreases v, 2
    {
      ghost var front := buffer[..offset];
      PrintValue(v, depth, fmt);
      TextNoZero(v, depth, fmt);
      offset := Update(front, Text(v, depth, fmt));
    }

    method PrintObject(members: seq<Member>, depth: nat, fmt: bool)
      requires Valid() && Json.Valid(Object(members))
      modifies this, buffer
      ensures Valid() && old(offset) <= offset <= old(offset) + |Text(Object(members), depth, fmt)| < length
      ensures buffer == old(buffer) || fresh(buffer)
      ensures buffer[..old(offset) + |Text(Object(members), depth, fmt)|]
        == old(buffer[..offset]) + Text(Object(members), depth, fmt)
      ensures buffer[old(offset) + |Text(Object(members), depth, fmt)|] == 0
      decreases members, 3
    {
      if members == [] {
        PrintEmptyObject(depth, fmt);
      } else {
        PrintMembers(members, depth, fmt);
      }
    }

    method PrintEmptyObject(depth: nat, fmt: bool)
      requires Valid()
      modifies this, buffer
      ensures Valid() && offset == old(offset) && offset + |Text(Object([]), depth, fmt)| < length
      ensures buffer == old(buffer) || fresh(buffer)
      ensures buffer[..offset + |Text(Object([]), depth, fmt)|] == old(buffer[..offset]) + Text(Object([]), depth, fmt)
      ensures buffer[offset + |Text(Object([]), depth, fmt)|] == 0
    {
      TabsLength(depth - 1);
      var at := Ensure(if fmt then depth + 4 else 3);
      assert buffer[..at] == old(buffer[..offset]) by {
        assert buffer[..at] == buffer[..old(length)][..at];
      }
      at := WriteEmptyObject(buffer, at, depth, fmt);
    }

    method PrintMembers(members: seq<Member>, depth: nat, fmt: bool)
      requires Valid() && Json.Valid(Object(members)) && members != []
      modifies this, buffer
      ensures Valid() && old(offset) <= offset <= old(offset) + |Text(Object(members), depth, fmt)| < length
      ensures buffer == old(buffer) || fresh(buffer)
      ensures buffer[..old(offset) + |Text(Object(members), depth, fmt)|]
        == old(buffer[..offset]) + Text(Object(members), depth, fmt)
      ensures buffer[old(offset) + |Text(Object(members), depth, fmt)|] == 0
      decreases members, 2
    {
      ghost var front, text := buffer[..offset], Text(Object(members), depth, fmt);
      ObjectParts(members, depth, fmt);
      Append((if fmt then 2 else 1) + 1, [OPEN_OBJECT] + LineEnd(fmt));
      Regroup(front, [OPEN_OBJECT] + LineEnd(fmt), MembersLeft(members, 0, depth + 1, fmt));
      PrintLines(members, depth + 1, fmt);
      NoMembersLeft(members, depth + 1, fmt);
      PrintClosing(front, depth, fmt, text);
    }

    method PrintLines(members: seq<Member>, depth: nat, fmt: bool)
      requires Valid() && forall i :: 0 <= i < |members| ==> NoZero(members[i].name) && Json.Valid(members[i].value)
      modifies this, buffer
      ensures Valid() && offset >= old(offset) && (buffer == old(buffer) || fresh(buffer))
      ensures buffer[..offset] + MembersLeft(members, |members|, depth, fmt)
        == old(buffer[..offset]) + MembersLeft(members, 0, depth, fmt)
      decreases members, 1
    {
      ghost var whole := buffer[..offset] + MembersLeft(members, 0, depth, fmt);
      var i := 0;
      while i < |members|
        invariant i <= |members| && Valid() && offset >= old(offset) && (buffer == old(buffer) || fresh(buffer))
        invariant buffer[..offset] + MembersLeft(members, i, depth, fmt) == whole
      {
        PrintMemberLine(members, i, depth, fmt);
        i := i + 1;
      }
    }

    method PrintClosing(ghost front: seq<Byte>, depth: nat, fmt: bool, ghost text: seq<Byte>)
      requires Valid() && |front| <= offset
      requires buffer[..offset] + (Indent(fmt, depth) + [CLOSE_OBJECT]) == front + text
      modifies this, buffer
      ensures Valid() && |front| <= offset <= |front| + |text| < length
      ensures buffer == old(buffer) || fresh(buffer)
      ensures buffer[..|front| + |text|] == front + text && buffer[|front| + |text|] == 0
    {
      TabsLength(depth);
      Write(if fmt then depth + 2 else 2, Indent(fmt, depth) + [CLOSE_OBJECT]);
    }

    method PrintMemberLine(members: seq<Member>, i: nat, depth: nat, fmt: bool)
      requires Valid() && i < |members| && NoZero(members[i].name) && Json.Valid(members[i].value)
      modifies this, buffer
      ensures Valid() && (buffer == old(buffer) || fresh(buffer))
      ensures buffer[..offset] + MembersLeft(members, i + 1, depth, fmt)
        == old(buffer[..offset]) + MembersLeft(members, i, depth, fmt)
      ensures offset >= old(offset)
      decreases members, 0
    {
      ghost var front, m := buffer[..offset], MemberText(members[i], depth, fmt);
      ghost var sep := LineSeparator(i + 1 < |members|, fmt);
      PrintMember(members[i], depth, fmt);
      var more := i + 1 < |members|;
      var len := (if fmt then 1 else 0) + (if more then 1 else 0);
      Append(len + 1, LineSeparator(more, fmt));
      MembersStep(members, i, depth, fmt);
      JoinThree(front, m, sep, MembersLeft(members, i + 1, depth, fmt));
    }

    method PrintMember(m: Member, depth: nat, fmt: bool)
      requires Valid() && NoZero(m.name) && Json.Valid(m.value)
      modifies this, buffer
      ensures Valid() && (buffer == old(buffer) || fresh(buffer))
      ensures buffer[..offset] == old(buffer[..offset]) + MemberText(m, depth, fmt)
      decreases m, 3
    {
      ghost var front := buffer[..offset];
      AppendIndent(depth, fmt);
      AppendString(m.name);
      Append(if fmt then 2 else 1, Colon(fmt));
      AppendValue(m.value, depth, fmt);
      JoinFour(front, Indent(fmt, depth), StringText(m.name), Colon(fmt), Text(m.value, depth, fmt));
    }
  }

  /** `cJSON_PrintBuffered`: the same text as the other printers, in a buffer of any initial size. */
  method PrintBuffered(v: Value, prebuffer: nat, fmt: bool) returns (out: array<Byte>)
    requires Valid(v) && prebuffer >= 1
    ensures Holds(out, Text(v, 0, fmt)) && fresh(out)
  {
    var p := new PrintBuffer(prebuffer);
    assert p.buffer[..0] == [];
    TextNoZero(v, 0, fmt);
    p.PrintValue(v, 0, fmt);
    assert [] + Text(v, 0, fmt) == Text(v, 0, fmt);
    out := p.buffer;
  }
}
