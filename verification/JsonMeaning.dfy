/** Minifying does not change what a text means, for every text that the parser reads to its end. */
module JsonMeaning {
  import opened Octets
  import opened Json
  import opened JsonMinify
  import opened JsonParse
  import opened JsonRoundTrip

  /** The minified text; only asked for where nothing is left open. */
  function M(s: seq<Byte>): seq<Byte>
    requires Minify(s).Done?
  {
    Minify(s).text
  }

  // ----- white space

  /** What skipping finds in a minified text is what it finds in the minified rest. */
  lemma {:induction false} SkipKept(s: seq<Byte>)
    requires Minify(s).Done?
    ensures Minify(Skip(s)).Done? && Skip(M(s)) == Skip(M(Skip(s)))
  {
    if s != [] && 1 <= s[0] <= 32 {
      assert !StartsLineComment(s) && !StartsComment(s) && s[0] != QUOTE;
      SkipKept(s[1..]);
      if !IsSpace(s[0]) {
        assert M(s)[1..] == M(s[1..]);
      }
    }
  }

  /** A byte that is no blank, slash or quote stays in front. */
  lemma PlainFirst(s: seq<Byte>)
    requires Minify(s).Done? && s != [] && JsonMinify.IsPlain(s[0])
    ensures Minify(s[1..]).Done? && M(s) == [s[0]] + M(s[1..]) && M(s)[1..] == M(s[1..])
    ensures s[0] > 32 ==> Skip(M(s)) == M(s)
  {
  }

  /** Where a value may end: at the end of the text, or before a comma or a closing bracket. */
  predicate Closes(r: seq<Byte>) {
    var next := Skip(r);
    next == [] || next[0] == COMMA || next[0] == CLOSE_ARRAY || next[0] == CLOSE_OBJECT
  }

  /** There the minified rest goes on with the same byte. */
  lemma ClosesKept(r: seq<Byte>)
    requires Minify(r).Done? && Closes(r)
    ensures Minify(Skip(r)).Done? && Skip(M(r)) == M(Skip(r)) && Peek(M(Skip(r)), 0) == Peek(Skip(r), 0)
    ensures EndsNumber(M(r)) && EndsNumber(r)
  {
    var next := Skip(r);
    SkipKept(r);
    SkipStops(r);
    if next != [] {
      PlainFirst(next);
    }
    SkipEndsNumber(r);
    SkipEndsNumber(M(r));
  }

  lemma {:induction false} SkipStops(s: seq<Byte>)
    ensures Skip(s) == [] || !(1 <= Skip(s)[0] <= 32)
  {
    if s != [] && 1 <= s[0] <= 32 {
      SkipStops(s[1..]);
    }
  }

  lemma SkipEndsNumber(s: seq<Byte>)
    requires Skip(s) == [] || EndsNumber(Skip(s))
    ensures EndsNumber(s)
  {
  }

  // ----- literals

  lemma PlainStep(s: seq<Byte>)
    requires s != [] && s[0] != QUOTE && s[0] != BACKSLASH
    ensures LiteralLength(s) == if LiteralLength(s[1..]) == 0 then 0 else 1 + LiteralLength(s[1..])
  {
  }

  /** What the first pass over a literal steps over, the minifier steps over too. */
  lemma {:induction false} StepsInside(s: seq<Byte>, n: nat)
    requires StepsOver(s, n) && LiteralLength(s) > 0
    ensures n <= |s| && LiteralLength(s[n..]) > 0 && LiteralLength(s) == n + LiteralLength(s[n..])
    decreases n
  {
    if n == 0 {
      assert s[0..] == s;
    } else if s[0] == BACKSLASH {
      TwoBytes(s);
      StepsInside(s[2..], n - 2);
      DropMore(s, 2, n - 2);
    } else {
      PlainStep(s);
      StepsInside(s[1..], n - 1);
      DropMore(s, 1, n - 1);
    }
  }

  lemma TwoBytes(s: seq<Byte>)
    requires |s| >= 2 && s[0] == BACKSLASH
    ensures LiteralLength(s) == if LiteralLength(s[2..]) == 0 then 0 else 2 + LiteralLength(s[2..])
  {
  }

  lemma SliceParts(s: seq<Byte>, m: seq<Byte>, n: nat, used: nat)
    requires used <= n <= |s|
    ensures (s[..n] + m)[used..] == s[used..][..n - used] + m
    ensures s[n..] == s[used..][n - used..]
    ensures forall i :: 0 <= i < used ==> (s[..n] + m)[i] == s[i]
  {
  }

  /** An escape lies whole inside its literal. */
  lemma EscapeInside(s: seq<Byte>, used: nat)
    requires |s| >= 2 && s[0] == BACKSLASH && StepsOver(s, used) && LiteralLength(s) > 0
    ensures used <= |s| && LiteralLength(s[used..]) > 0 && LiteralLength(s) == used + LiteralLength(s[used..])
    ensures used == 6 && LiteralLength(s) == 7 ==> s[6] != BACKSLASH
  {
    StepsInside(s, used);
    OneLeft(s[used..]);
  }

  /** A literal of one byte more is its closing quote. */
  lemma OneLeft(s: seq<Byte>)
    requires LiteralLength(s) > 0
    ensures LiteralLength(s) == 1 ==> s[0] == QUOTE
  {
  }

  /** Another text that agrees with an escape as far as it is read holds the same escape. */
  lemma SameEscape(s: seq<Byte>, t: seq<Byte>, n: nat)
    requires |s| >= 2 && s[0] == BACKSLASH && Escaped(s).1 < n <= |s| && n <= |t| && Escaped(s).1 != 0
    requires forall i :: 0 <= i < n ==> s[i] == t[i]
    requires n == 7 && Escaped(s).1 == 6 ==> s[6] != BACKSLASH
    ensures Escaped(t) == Escaped(s)
  {
    if s[1] == SMALL_U {
      assert Escaped(s).1 == 6 || Escaped(s).1 == 12;
      SameUnit(s, t, n, 2);
      if Escaped(s).1 == 12 {
        SameUnit(s, t, n, 8);
      }
    }
  }

  lemma SameUnit(s: seq<Byte>, t: seq<Byte>, n: nat, i: nat)
    requires i + 4 <= n <= |s| && n <= |t|
    requires forall i :: 0 <= i < n ==> s[i] == t[i]
    ensures CodeUnit(t, i) == CodeUnit(s, i)
  {
  }

  lemma {:induction false} SameSteps(s: seq<Byte>, t: seq<Byte>, n: nat, used: nat)
    requires used < n <= |s| && n <= |t| && StepsOver(s, used)
    requires forall i :: 0 <= i < n ==> s[i] == t[i]
    ensures StepsOver(t, used)
    decreases used
  {
    if used > 0 {
      if s[0] == BACKSLASH {
        SameSteps(s[2..], t[2..], n - 2, used - 2);
      } else {
        SameSteps(s[1..], t[1..], n - 1, used - 1);
      }
    }
  }

  /** One character or escape of a literal, with the literal's own end after it or something else. */
  lemma StepKept(s: seq<Byte>, m: seq<Byte>) returns (used: nat, bytes: seq<Byte>)
    requires Unescape(s).Ok? && LiteralLength(s) > 0 && s[0] != QUOTE
    ensures 0 < used <= |s| && LiteralLength(s[used..]) > 0 && LiteralLength(s) == used + LiteralLength(s[used..])
    ensures Unescape(s) == Prepend(bytes, Unescape(s[used..]))
    ensures var t := s[..LiteralLength(s)] + m; Unescape(t) == Prepend(bytes, Unescape(t[used..]))
  {
    var n := LiteralLength(s);
    var t := s[..n] + m;
    SliceParts(s, m, n, n);
    if s[0] != BACKSLASH {
      PlainStep(s);
      used, bytes := 1, [s[0]];
    } else {
      used, bytes := Escaped(s).1, Escaped(s).0;
      EscapeStep(s, bytes, used);
      EscapeInside(s, used);
      SameEscape(s, t, n);
      SameSteps(s, t, n, used);
      EscapeStep(t, bytes, used);
    }
  }

  /** The parser and the minifier agree on where a literal ends, and what follows it does not matter. */
  lemma {:induction false} LiteralKept(s: seq<Byte>, m: seq<Byte>)
    requires Unescape(s).Ok? && LiteralLength(s) > 0
    ensures Unescape(s).rest == s[LiteralLength(s)..]
    ensures Unescape(s[..LiteralLength(s)] + m) == Ok(Unescape(s).value, m)
    decreases |s|
  {
    if s[0] == QUOTE {
      assert (s[..1] + m)[1..] == m;
    } else {
      var used, bytes := StepKept(s, m);
      SliceParts(s, m, LiteralLength(s), used);
      LiteralKept(s[used..], m);
    }
  }

  /** What the minifier makes of a literal in front. */
  lemma LiteralFront(s: seq<Byte>, n: nat)
    requires s != [] && s[0] == QUOTE && Minify(s).Done? && n == LiteralLength(s[1..])
    ensures 0 < n < |s| && Minify(s[1 + n..]).Done? && M(s) == s[..1 + n] + M(s[1 + n..])
  {
  }

  /** A string literal is kept, and so is what the parser makes of it. */
  lemma StringKept(s: seq<Byte>)
    requires s != [] && s[0] == QUOTE && ParseString(s).Ok? && Minify(s).Done?
    ensures var r := ParseString(s).rest;
      Minify(r).Done? && M(s) != [] && M(s)[0] == QUOTE && ParseString(M(s)) == Ok(ParseString(s).value, M(r))
  {
    var n := LiteralLength(s[1..]);
    LiteralFront(s, n);
    var r := s[1 + n..];
    DropMore(s, 1, n);
    LiteralKept(s[1..], M(r));
    SliceParts(s, M(r), 1 + n, 1);
  }

  // ----- numbers and words

  /** The digits of a number are kept as they are. */
  lemma {:induction false} DigitsKept(n: nat, s: seq<Byte>, v: nat, r: seq<Byte>)
    requires Minify(s).Done? && ReadDigits(n, s) == (v, r)
    ensures Minify(r).Done?
    ensures EndsNumber(M(r)) ==> ReadDigits(n, M(s)) == (v, M(r))
    decreases |s|
  {
    if s != [] && IsDigit(s[0]) {
      PlainFirst(s);
      DigitsKept(10 * n + (s[0] - ZERO) as int, s[1..], v, r);
    }
  }

  /** What a number is after its sign and one zero. */
  function Digits0(s: seq<Byte>): (nat, seq<Byte>) {
    if 49 <= Peek(s, 0) <= 57 then ReadDigits(0, s) else (0, s)
  }

  function Unsigned(s: seq<Byte>): (nat, seq<Byte>) {
    Digits0(if Peek(s, 0) == ZERO then s[1..] else s)
  }

  lemma Digits0Kept(s: seq<Byte>, v: nat, r: seq<Byte>)
    requires Minify(s).Done? && Digits0(s) == (v, r)
    ensures Minify(r).Done?
    ensures EndsNumber(M(r)) ==> Digits0(M(s)) == (v, M(r))
  {
    if 49 <= Peek(s, 0) <= 57 {
      PlainFirst(s);
      DigitsKept(0, s, v, r);
    }
  }

  lemma UnsignedKept(s: seq<Byte>, v: nat, r: seq<Byte>)
    requires Minify(s).Done? && Unsigned(s) == (v, r)
    ensures Minify(r).Done?
    ensures EndsNumber(M(r)) ==> Unsigned(M(s)) == (v, M(r))
  {
    if Peek(s, 0) == ZERO {
      PlainFirst(s);
      Digits0Kept(s[1..], v, r);
    } else {
      Digits0Kept(s, v, r);
      if 49 <= Peek(s, 0) <= 57 {
        PlainFirst(s);
      }
    }
  }

  lemma NumberParts(s: seq<Byte>, n: nat, rest: seq<Byte>)
    requires Unsigned(if Peek(s, 0) == MINUS then s[1..] else s) == (n, rest)
    ensures ParseNumber(s) == if FractionOrExponent(rest) || !IsInt(Peek(s, 0) == MINUS, n) then Undefined
                              else Ok(Number(if Peek(s, 0) == MINUS then -(n as int) else n), rest)
  {
  }

  predicate IsInt(negative: bool, n: nat) {
    if negative then n <= 0x8000_0000 else n < 0x8000_0000
  }

  lemma NumberKept(s: seq<Byte>)
    requires Minify(s).Done? && ParseNumber(s).Ok? && Closes(ParseNumber(s).rest)
    requires Peek(s, 0) == MINUS || IsDigit(Peek(s, 0))
    ensures Minify(ParseNumber(s).rest).Done?
    ensures ParseNumber(M(s)) == Ok(ParseNumber(s).value, M(ParseNumber(s).rest))
  {
    var negative := Peek(s, 0) == MINUS;
    var u := if negative then s[1..] else s;
    var n, r := Unsigned(u).0, Unsigned(u).1;
    NumberParts(s, n, r);
    PlainFirst(s);
    UnsignedKept(u, n, r);
    ClosesKept(r);
    NumberParts(M(s), n, M(r));
  }

  lemma WordKept(s: seq<Byte>, word: seq<Byte>)
    requires StartsWith(s, word) && Minify(s).Done?
    requires forall i :: 0 <= i < |word| ==> JsonMinify.IsPlain(word[i])
    ensures Minify(s[|word|..]).Done? && M(s) == word + M(s[|word|..])
  {
    assert s == word + s[|word|..];
    PlainStays(word, s[|word|..]);
  }

  // ----- values

  /** The first byte of a value. */
  lemma ValueStarts(s: seq<Byte>)
    requires ParseValue(s).Ok?
    ensures s != [] && s[0] > 32 && s[0] != SLASH && s[0] != CLOSE_ARRAY && s[0] != CLOSE_OBJECT
  {
    FirstLetter(s);
  }

  /** A value that is read up to a place where it may end is read from the minified text too. */
  lemma {:induction false} ValueKept(s: seq<Byte>)
    requires Minify(s).Done? && ParseValue(s).Ok? && Closes(ParseValue(s).rest)
    ensures Minify(ParseValue(s).rest).Done?
    ensures ParseValue(M(s)) == Ok(ParseValue(s).value, M(ParseValue(s).rest))
    decreases |s|, 0
  {
    FirstLetter(s);
    ValueStarts(s);
    if StartsWith(s, NULL_TEXT) {
      WordValueKept(s, Null);
    } else if StartsWith(s, FALSE_TEXT) {
      WordValueKept(s, False);
    } else if StartsWith(s, TRUE_TEXT) {
      WordValueKept(s, True);
    } else if s[0] == QUOTE {
      StringKept(s);
      FirstLetter(M(s));
    } else if s[0] == MINUS || IsDigit(s[0]) {
      NumberKept(s);
      PlainFirst(s);
      FirstLetter(M(s));
    } else if s[0] == OPEN_ARRAY {
      ArrayKept(s);
    } else {
      ObjectKept(s);
    }
  }

  lemma WordValueKept(s: seq<Byte>, v: Value)
    requires v.Null? || v.False? || v.True?
    requires StartsWith(s, Text(v, 0, false)) && Minify(s).Done?
    ensures var word := Text(v, 0, false);
      Minify(s[|word|..]).Done? && ParseValue(s) == Ok(v, s[|word|..]) && ParseValue(M(s)) == Ok(v, M(s[|word|..]))
  {
    var word := Text(v, 0, false);
    WordKept(s, word);
    assert s == word + s[|word|..];
    WordBack(v, s[|word|..]);
    WordBack(v, M(s[|word|..]));
  }

  /** After an opening bracket, white space is skipped to the same byte. */
  lemma InsideKept(s: seq<Byte>)
    requires s != [] && s[0] > 32 && JsonMinify.IsPlain(s[0]) && Minify(s).Done?
    requires var inside := Skip(s[1..]); inside != [] && inside[0] > 32 && inside[0] != SLASH
    ensures var inside := Skip(s[1..]);
      Minify(inside).Done? && Skip(M(s)[1..]) == M(inside) && Peek(M(inside), 0) == inside[0]
  {
    var inside := Skip(s[1..]);
    PlainFirst(s);
    SkipKept(s[1..]);
    FirstStays(inside);
  }

  lemma FirstStays(s: seq<Byte>)
    requires Minify(s).Done? && s != [] && s[0] > 32 && s[0] != SLASH
    ensures Peek(M(s), 0) == s[0] && Skip(M(s)) == M(s)
  {
    if s[0] == QUOTE {
      assert s[..1 + LiteralLength(s[1..])][0] == s[0];
    }
  }

  lemma {:induction false} ArrayKept(s: seq<Byte>)
    requires Minify(s).Done? && ParseValue(s).Ok? && s != [] && s[0] == OPEN_ARRAY
    ensures Minify(ParseValue(s).rest).Done?
    ensures ParseValue(M(s)) == Ok(ParseValue(s).value, M(ParseValue(s).rest))
    decreases |s| - 1, 3
  {
    var inside := Skip(s[1..]);
    ParseArray(s, inside);
    if Peek(inside, 0) != CLOSE_ARRAY {
      ItemsStartWell(inside, s[1..]);
    }
    InsideKept(s);
    PlainFirst(s);
    ParseArray(M(s), M(inside));
    if Peek(inside, 0) == CLOSE_ARRAY {
      PlainFirst(inside);
    } else {
      ItemsKept(inside);
      PlainFirst(ParseItems(inside).rest);
    }
  }

  lemma ItemsStartWell(inside: seq<Byte>, s: seq<Byte>)
    requires inside == Skip(s) && ParseItems(inside).Ok?
    ensures inside != [] && inside[0] > 32 && inside[0] != SLASH
  {
    SkipStops(s);
    ValueStarts(Skip(inside));
  }

  /** The items of an array, up to its closing bracket. */
  lemma {:induction false} ItemsKept(s: seq<Byte>)
    requires Minify(s).Done? && ParseItems(s).Ok? && Peek(ParseItems(s).rest, 0) == CLOSE_ARRAY
    ensures Minify(ParseItems(s).rest).Done?
    ensures ParseItems(M(s)) == Ok(ParseItems(s).value, M(ParseItems(s).rest))
    decreases |s|, 2
  {
    var t := Skip(s);
    var v, rest := ParseValue(t).value, ParseValue(t).rest;
    var next := Skip(rest);
    ItemThenMore(s, v, rest);
    ValueStarts(t);
    SkipKept(s);
    FirstStays(t);
    ValueKept(t);
    ClosesKept(rest);
    ItemThenMore(M(s), v, M(rest));
    if next[0] == COMMA {
      PlainFirst(next);
      ItemsKept(next[1..]);
    }
  }

  lemma {:induction false} ObjectKept(s: seq<Byte>)
    requires Minify(s).Done? && ParseValue(s).Ok? && s != [] && s[0] == OPEN_OBJECT
    ensures Minify(ParseValue(s).rest).Done?
    ensures ParseValue(M(s)) == Ok(ParseValue(s).value, M(ParseValue(s).rest))
    decreases |s| - 1, 4
  {
    var inside := Skip(s[1..]);
    ParseObject(s, inside);
    if Peek(inside, 0) != CLOSE_OBJECT {
      MembersStartWell(inside, s[1..]);
    }
    InsideKept(s);
    PlainFirst(s);
    ParseObject(M(s), M(inside));
    if Peek(inside, 0) == CLOSE_OBJECT {
      PlainFirst(inside);
    } else {
      MembersKept(inside);
      PlainFirst(ParseMembers(inside).rest);
    }
  }

  lemma MembersStartWell(inside: seq<Byte>, s: seq<Byte>)
    requires inside == Skip(s) && ParseMembers(inside).Ok?
    ensures inside != [] && inside[0] == QUOTE
  {
    SkipStops(s);
  }

  lemma {:induction false} MembersKept(s: seq<Byte>)
    requires Minify(s).Done? && ParseMembers(s).Ok? && Peek(ParseMembers(s).rest, 0) == CLOSE_OBJECT
    ensures Minify(ParseMembers(s).rest).Done?
    ensures ParseMembers(M(s)) == Ok(ParseMembers(s).value, M(ParseMembers(s).rest))
    decreases |s|, 3
  {
    var m, rest := ParseMember(s).value, ParseMember(s).rest;
    var next := Skip(rest);
    MemberThenMore(s, m, rest);
    MemberKept(s);
    ClosesKept(rest);
    MemberThenMore(M(s), m, M(rest));
    if next[0] == COMMA {
      PlainFirst(next);
      MembersKept(next[1..]);
    }
  }

  lemma {:induction false} MemberKept(s: seq<Byte>)
    requires Minify(s).Done? && ParseMember(s).Ok? && Closes(ParseMember(s).rest)
    ensures Minify(ParseMember(s).rest).Done?
    ensures ParseMember(M(s)) == Ok(ParseMember(s).value, M(ParseMember(s).rest))
    decreases |s|, 2
  {
    var t := Skip(s);
    var name, rest := ParseString(t).value, ParseString(t).rest;
    NameThenValue(s, name, rest);
    SkipKept(s);
    FirstStays(t);
    StringKept(t);
    NameThenValue(M(s), name, M(rest));
    UnescapeShrinks(t[1..]);
    MemberValueKept(name, rest);
  }

  /** What follows a name: a colon, and a value up to a place where it may end. */
  lemma {:induction false} MemberValueKept(name: seq<Byte>, s: seq<Byte>)
    requires Minify(s).Done? && MemberValue(name, s).Ok? && Closes(MemberValue(name, s).rest)
    ensures Minify(MemberValue(name, s).rest).Done?
    ensures MemberValue(name, M(s)) == Ok(MemberValue(name, s).value, M(MemberValue(name, s).rest))
    decreases |s|, 1
  {
    var colon := Skip(s);
    var t := Skip(colon[1..]);
    SkipKept(s);
    PlainFirst(colon);
    ValueStarts(t);
    SkipKept(colon[1..]);
    FirstStays(t);
    ValueKept(t);
  }

  /**
   A text that the parser reads to its end, and that leaves no literal and no comment open,
   means the same value when it is minified, with nothing but white space after it.
   */
  lemma MinifyKeepsMeaning(s: seq<Byte>)
    requires Parse(s).Ok? && Skip(Parse(s).rest) == [] && Minify(s).Done?
    ensures Parse(M(s)).Ok? && Parse(M(s)).value == Parse(s).value && Skip(Parse(M(s)).rest) == []
  {
    var t := Skip(s);
    ValueStarts(t);
    SkipKept(s);
    FirstStays(t);
    ValueKept(t);
    SkipKept(Parse(s).rest);
  }
}
