/** What the two passes of the parser make of a string literal: the room it needs, and its code points. */
module JsonEscapes {
  import opened Octets
  import opened Json
  import opened JsonParse
  import Utf8

  // ----- the room counted by the first pass is enough for the second

  /** The bytes the first pass counts, and whether it steps over the end of the text. */
  function Counted(s: seq<Byte>): nat
    decreases |s|
  {
    if s == [] || s[0] == QUOTE then 0
    else if s[0] == BACKSLASH then 1 + (if |s| == 1 then 0 else Counted(s[2..]))
    else 1 + Counted(s[1..])
  }

  predicate RunsOver(s: seq<Byte>)
    decreases |s|
  {
    if s == [] || s[0] == QUOTE then false
    else if s[0] == BACKSLASH then |s| == 1 || RunsOver(s[2..])
    else RunsOver(s[1..])
  }

  /** Bytes stepped over count at least half of them. */
  lemma {:induction false} StepsCounted(s: seq<Byte>, n: nat)
    requires StepsOver(s, n)
    ensures n <= |s| && Counted(s) >= (n + 1) / 2 + Counted(s[n..]) && RunsOver(s) == RunsOver(s[n..])
    decreases n
  {
    if n == 0 {
      assert s[0..] == s;
    } else if s[0] == BACKSLASH {
      StepsCounted(s[2..], n - 2);
      DropMore(s, 2, n - 2);
    } else {
      StepsCounted(s[1..], n - 1);
      DropMore(s, 1, n - 1);
    }
  }

  lemma BytesOfEscape(s: seq<Byte>)
    requires s != []
    ensures var (bytes, used) := Escaped(s); |bytes| <= (used + 1) / 2
  {
  }

  /** An escape that the first pass steps over whole writes no more than the first pass counted for it. */
  lemma EscapeFits(s: seq<Byte>)
    requires s != [] && s[0] == BACKSLASH && StepsOver(s, Escaped(s).1)
    ensures var (bytes, used) := Escaped(s);
      used <= |s| && |bytes| + Counted(s[used..]) <= Counted(s) && RunsOver(s) == RunsOver(s[used..])
  {
    BytesOfEscape(s);
    StepsCounted(s, Escaped(s).1);
  }

  lemma {:induction false} OverrunIsUndefined(s: seq<Byte>)
    requires RunsOver(s)
    ensures Unescape(s) == Undefined
    decreases |s|
  {
    if s[0] != BACKSLASH {
      OverrunIsUndefined(s[1..]);
    } else if Escaped(s).1 != 0 && StepsOver(s, Escaped(s).1) {
      EscapeFits(s);
      OverrunIsUndefined(s[Escaped(s).1..]);
    }
  }

  /** What a string literal holds never needs more room than the first pass counted, if every escape is stepped over. */
  lemma {:induction false} ContentsFit(s: seq<Byte>)
    ensures Unescape(s).Ok? ==> |Unescape(s).value| <= Counted(s)
    decreases |s|
  {
    if s == [] || s[0] == QUOTE {
      assert Unescape(s).value == [];
    } else if s[0] != BACKSLASH {
      ContentsFit(s[1..]);
    } else if Escaped(s).1 != 0 && StepsOver(s, Escaped(s).1) {
      EscapeFits(s);
      ContentsFit(s[Escaped(s).1..]);
    }
  }

  // ----- where the two passes part

  /** What the second pass makes of a literal, whether or not the first steps over the same escapes. */
  function SecondPass(s: seq<Byte>): Parsed<seq<Byte>>
    decreases |s|
  {
    if s == [] then Ok([], [])
    else if s[0] == QUOTE then Ok([], s[1..])
    else if s[0] != BACKSLASH then Prepend([s[0]], SecondPass(s[1..]))
    else
      var (bytes, used) := Escaped(s);
      EscapedBounds(s);
      if used == 0 then Undefined else Prepend(bytes, SecondPass(s[used..]))
  }

  lemma {:induction false} PassesAgree(s: seq<Byte>)
    requires Unescape(s).Ok?
    ensures SecondPass(s) == Unescape(s)
    decreases |s|
  {
    if s != [] && s[0] != QUOTE {
      if s[0] != BACKSLASH {
        PassesAgree(s[1..]);
      } else {
        PassesAgree(s[Escaped(s).1..]);
      }
    }
  }

  /** Both passes end inside the text, and the second one writes more than the first one counted. */
  predicate Overfills(s: seq<Byte>) {
    !RunsOver(s) && SecondPass(s).Ok? && |SecondPass(s).value| > Counted(s)
  }

  /** An escape that writes nothing because digits of its last code unit are not hexadecimal. */
  predicate Skipped(e: seq<Byte>) {
    && |e| >= 6 && e[0] == BACKSLASH && e[1] == SMALL_U
    && if FourHex(e, 2) then
         && |e| == 12 && IsHighSurrogate(Hex4(e, 2)) && e[6] == BACKSLASH && e[7] == SMALL_U
         && !FourHex(e, 8)
       else |e| == 6
  }

  lemma SkippedEscape(e: seq<Byte>, more: seq<Byte>)
    requires Skipped(e)
    ensures Escaped(e + more) == ([], |e|) && SecondPass(e + more) == SecondPass(more)
  {
    var s := e + more;
    assert s[..|e|] == e && s[|e|..] == more;
    assert FourHex(s, 2) == FourHex(e, 2) && (|e| == 12 ==> FourHex(s, 8) == FourHex(e, 8));
    assert FourHex(e, 2) ==> Hex4(s, 2) == Hex4(e, 2);
    PrependNone(SecondPass(more));
  }

  lemma {:induction false} StepsInFront(e: seq<Byte>, more: seq<Byte>, n: nat)
    requires n <= |e|
    ensures StepsOver(e + more, n) == StepsOver(e, n)
    decreases n
  {
    if n > 0 && e[0] != QUOTE {
      if e[0] != BACKSLASH {
        assert (e + more)[1..] == e[1..] + more;
        StepsInFront(e[1..], more, n - 1);
      } else if n >= 2 {
        assert (e + more)[2..] == e[2..] + more;
        StepsInFront(e[2..], more, n - 2);
      }
    }
  }

  /** The first pass takes the last byte for the start of an escape that lies across the end. */
  predicate Straddles(e: seq<Byte>) {
    e != [] && e[|e| - 1] == BACKSLASH && StepsOver(e, |e| - 1)
  }

  /** Where the first pass does not step over bytes whole, it passes one byte more, or ends at a quote inside. */
  lemma {:induction false} NotSteppedOver(e: seq<Byte>, more: seq<Byte>)
    requires !StepsOver(e, |e|) && more != []
    ensures Straddles(e) ==> Counted(e + more) <= |e| + Counted(more[1..]) && RunsOver(e + more) == RunsOver(more[1..])
    ensures !Straddles(e) ==> Counted(e + more) <= |e| && !RunsOver(e + more)
    decreases |e|
  {
    var s := e + more;
    if e[0] == BACKSLASH {
      if |e| == 1 {
        assert s[2..] == more[1..];
      } else {
        assert s[2..] == e[2..] + more;
        NotSteppedOver(e[2..], more);
      }
    } else if e[0] != QUOTE {
      assert s[1..] == e[1..] + more;
      NotSteppedOver(e[1..], more);
    }
  }

  /** The end of a literal: plain bytes and the closing quote. */
  function PlainEnd(k: nat): seq<Byte> {
    if k == 0 then [QUOTE] else [66] + PlainEnd(k - 1)
  }

  lemma {:induction false} PlainEndRead(k: nat)
    ensures Unescape(PlainEnd(k)).Ok? && |Unescape(PlainEnd(k)).value| == k
  {
    if k > 0 {
      PlainEndRead(k - 1);
      assert PlainEnd(k)[1..] == PlainEnd(k - 1);
    }
  }

  lemma EscapedQuote(end: seq<Byte>)
    ensures var s := [BACKSLASH, QUOTE] + end; s[1..] == [QUOTE] + end && Unescape(s) == Prepend([QUOTE], Unescape(end))
  {
    var s := [BACKSLASH, QUOTE] + end;
    assert Escaped(s) == ([QUOTE], 2) && StepsOver(s, 2);
    assert s[2..] == end;
  }

  /** What makes a literal that starts with a skipped escape overfill its block. */
  lemma Overfilling(e: seq<Byte>) returns (more: seq<Byte>)
    requires Skipped(e) && !StepsOver(e, |e|)
    ensures Unescape(more).Ok? && Overfills(e + more)
  {
    var end := PlainEnd(|e| + 1);
    PlainEndRead(|e| + 1);
    more := end;
    if Straddles(e) {
      more := [BACKSLASH, QUOTE] + end;
      EscapedQuote(end);
    }
    PassesAgree(more);
    SkippedEscape(e, more);
    NotSteppedOver(e, more);
  }

  /**
   Whatever literal goes on after a skipped escape, its contents fit, if and only if the first pass
   steps over the escape whole: if its skipped bytes hold no quote, and no escape across their end.
   */
  lemma SkippedExact(e: seq<Byte>)
    requires Skipped(e)
    ensures (forall more :: Unescape(more).Ok? ==> !Overfills(e + more)) <==> StepsOver(e, |e|)
  {
    if StepsOver(e, |e|) {
      forall more | Unescape(more).Ok? ensures !Overfills(e + more) {
        SkippedEscape(e, more);
        StepsInFront(e, more, |e|);
        assert (e + more)[|e|..] == more;
        PassesAgree(e + more);
        ContentsFit(e + more);
      }
    } else {
      var more := Overfilling(e);
      assert Unescape(more).Ok? && Overfills(e + more);
    }
  }

  /** A quote among the four bytes: one byte is counted, and any number are written. */
  lemma QuoteOverfills(s: seq<Byte>, n: nat)
    requires n >= 2 && s == [BACKSLASH, SMALL_U, QUOTE, 65, 65, 65] + PlainEnd(n)
    ensures Overfills(s) && Counted(s) == 1 && |SecondPass(s).value| == n
  {
    PlainEndRead(n);
    PassesAgree(PlainEnd(n));
    QuoteCounted(s);
    var e: seq<Byte> := [BACKSLASH, SMALL_U, QUOTE, 65, 65, 65];
    assert Skipped(e);
    SkippedEscape(e, PlainEnd(n));
  }

  lemma QuoteCounted(s: seq<Byte>)
    requires |s| >= 3 && s[0] == BACKSLASH && s[2] == QUOTE
    ensures Counted(s) == 1 && !RunsOver(s)
  {
    assert s[2..][0] == QUOTE;
  }

  // ----- the ways to write a code point

  predicate IsScalar(cp: nat) {
    cp < 0x11_0000 && !(0xD800 <= cp < 0xE000)
  }

  /** A `\u` escape, in digits of either case, and the code point it spells, in one or two code units. */
  predicate SpellsUnicode(s: seq<Byte>, cp: nat) {
    && |s| >= 2 && s[0] == BACKSLASH && s[1] == SMALL_U && FourHex(s, 2)
    && (cp < 0x1_0000 ==> cp == Hex4(s, 2) && cp != 0 && IsScalar(cp))
    && (cp >= 0x1_0000 ==>
      && |s| >= 8 && s[6] == BACKSLASH && s[7] == SMALL_U && FourHex(s, 8)
      && IsHighSurrogate(Hex4(s, 2)) && IsLowSurrogate(Hex4(s, 8)) && cp == Pair(Hex4(s, 2), Hex4(s, 8)))
  }

  /** A backslash and one more character: a letter for a control character, or the character itself. */
  predicate SpellsShort(s: seq<Byte>, cp: nat) {
    && |s| >= 2 && s[0] == BACKSLASH && s[1] != SMALL_U && 0 < s[1] < 0x80
    && cp == (if s[1] == 98 then 8 else if s[1] == 102 then 12 else if s[1] == 110 then 10
              else if s[1] == 114 then 13 else if s[1] == 116 then 9 else s[1] as int)
  }

  /** The character itself, in UTF-8. */
  predicate SpellsPlain(s: seq<Byte>, cp: nat) {
    && IsScalar(cp) && cp != 0 && cp != QUOTE as int && cp != BACKSLASH as int
    && Utf8.Length(cp) <= |s| && s[..Utf8.Length(cp)] == Utf8.Encode(cp)
  }

  predicate SpellsOne(s: seq<Byte>, cp: nat) {
    SpellsUnicode(s, cp) || SpellsShort(s, cp) || SpellsPlain(s, cp)
  }

  /** The bytes of text that one code point takes. */
  function SpelledIn(s: seq<Byte>, cp: nat): (n: nat)
    requires SpellsOne(s, cp)
    ensures n <= |s|
  {
    if SpellsUnicode(s, cp) then (if cp < 0x1_0000 then 6 else 12)
    else if SpellsShort(s, cp) then 2
    else Utf8.Length(cp)
  }

  /** A literal, after its opening quote, that writes these code points, each in any of the ways. */
  predicate Spells(s: seq<Byte>, cps: seq<nat>)
    decreases |cps|
  {
    if cps == [] then s != [] && s[0] == QUOTE
    else SpellsOne(s, cps[0]) && Spells(s[SpelledIn(s, cps[0])..], cps[1..])
  }

  lemma UnicodeSpelled(s: seq<Byte>, cp: nat)
    requires SpellsUnicode(s, cp)
    ensures IsScalar(cp) && Escaped(s) == (Utf8.Encode(cp), if cp < 0x1_0000 then 6 else 12)
    ensures StepsOver(s, Escaped(s).1)
  {
    UnicodeSteps(s, if cp < 0x1_0000 then 0 else 6);
    if cp >= 0x1_0000 {
      assert s[6..][0] == BACKSLASH && FourHex(s[6..], 2);
      UnicodeSteps(s[6..], 0);
    }
  }

  lemma ShortSpelled(s: seq<Byte>, cp: nat)
    requires SpellsShort(s, cp)
    ensures IsScalar(cp) && Escaped(s) == (Utf8.Encode(cp), 2) && StepsOver(s, 2)
  {
  }

  /** Bytes that end nothing and escape nothing stand for themselves. */
  lemma {:induction false} PlainBytes(p: seq<Byte>, more: seq<Byte>)
    requires forall i :: 0 <= i < |p| ==> p[i] != QUOTE && p[i] != BACKSLASH
    ensures Unescape(p + more) == Prepend(p, Unescape(more))
  {
    if p == [] {
      assert p + more == more;
      PrependNone(Unescape(more));
    } else {
      PlainBytes(p[1..], more);
      assert (p + more)[1..] == p[1..] + more;
      PrependTwice([p[0]], p[1..], Unescape(more));
      assert [p[0]] + p[1..] == p;
    }
  }

  lemma EncodedIsPlain(cp: nat)
    requires IsScalar(cp) && cp != QUOTE as int && cp != BACKSLASH as int
    ensures var p := Utf8.Encode(cp); forall i :: 0 <= i < |p| ==> p[i] != QUOTE && p[i] != BACKSLASH
  {
  }

  lemma OneSpelled(s: seq<Byte>, cp: nat)
    requires SpellsOne(s, cp)
    ensures IsScalar(cp)
    ensures Unescape(s) == Prepend(Utf8.Encode(cp), Unescape(s[SpelledIn(s, cp)..]))
  {
    if SpellsUnicode(s, cp) {
      UnicodeSpelled(s, cp);
    } else if SpellsShort(s, cp) {
      ShortSpelled(s, cp);
    } else {
      var p, more := Utf8.Encode(cp), s[Utf8.Length(cp)..];
      EncodedIsPlain(cp);
      PlainBytes(p, more);
      assert s == p + more;
    }
  }

  /** Code points written in any mixture of the ways come out as UTF-8 that reads back as the same code points. */
  lemma {:induction false} SpelledBack(s: seq<Byte>, cps: seq<nat>)
    requires Spells(s, cps)
    ensures Unescape(s).Ok? && Utf8.ReadsAs(Unescape(s).value, cps)
    decreases |cps|
  {
    if cps != [] {
      var cp := cps[0];
      var left := s[SpelledIn(s, cp)..];
      SpelledBack(left, cps[1..]);
      OneSpelled(s, cp);
      var more := Unescape(left).value;
      Utf8.DecodeEncode(cp, more);
      DropFront(Utf8.Encode(cp), more);
    }
  }
}
