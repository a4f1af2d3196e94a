/** Which texts the model of the parser gives no answer for: there is no other outcome than the source's elsewhere. */
module JsonUnsettled {
  import opened Octets
  import opened Json
  import opened JsonParse
  import opened JsonSyntax
  import opened JsonSpelling
  import JsonText

  predicate Suffix(t: seq<Byte>, s: seq<Byte>) {
    |t| <= |s| && s[|s| - |t|..] == t
  }

  /** Here a backslash, a number with a fraction or an exponent, or ten digits in a row. */
  predicate Unsettled(t: seq<Byte>) {
    || StartsWithin(t, 92, 92)
    || ((StartsWithin(t, 48, 57) || StartsWithin(t, 45, 45)) && |t| > 1 && t[1] in {46, 69, 101})
    || (|t| >= 10 && forall i :: 0 <= i < 10 ==> 48 <= t[i] <= 57)
  }

  predicate HasUnsettled(s: seq<Byte>) {
    exists i :: 0 <= i < |s| && Unsettled(s[i..])
  }

  /** What is left of a text is its end, and only a text with such a place has no outcome. */
  predicate Ends<T>(s: seq<Byte>, p: Parsed<T>) {
    match p
    case Ok(_, rest) => Suffix(rest, s)
    case Fail => true
    case Undefined => HasUnsettled(s)
  }

  lemma EndsLater<T>(t: seq<Byte>, s: seq<Byte>, p: Parsed<T>)
    requires Suffix(t, s) && Ends(t, p)
    ensures Ends(s, p)
  {
    var k := |s| - |t|;
    if p.Ok? {
      DropMore(s, k, |t| - |p.rest|);
    } else if p.Undefined? {
      var i :| 0 <= i < |t| && Unsettled(t[i..]);
      DropMore(s, k, i);
      assert Unsettled(s[k + i..]);
    }
  }

  lemma SuffixTwice(t: seq<Byte>, s: seq<Byte>, r: seq<Byte>)
    requires Suffix(t, s) && Suffix(s, r)
    ensures Suffix(t, r)
  {
    DropMore(r, |r| - |s|, |s| - |t|);
  }

  lemma {:induction false} SkipSuffix(s: seq<Byte>)
    ensures Suffix(Skip(s), s)
  {
    if s != [] && 1 <= s[0] <= 32 {
      SkipSuffix(s[1..]);
      SuffixTwice(Skip(s), s[1..], s);
    }
  }

  // ----- literals and numbers

  lemma {:induction false} UnescapeEnds(s: seq<Byte>)
    ensures Ends(s, Unescape(s))
    decreases |s|
  {
    if s != [] && s[0] != QUOTE {
      var used := if s[0] != BACKSLASH then 1 else Escaped(s).1;
      if s[0] == BACKSLASH {
        EscapeStep(s, Escaped(s).0, used);
        assert s[0..] == s && Unsettled(s);
      }
      if s[0] != BACKSLASH || (used != 0 && StepsOver(s, used)) {
        UnescapeEnds(s[used..]);
        EndsLater(s[used..], s, Unescape(s[used..]));
      }
    }
  }

  /** Nine digits stay below the tenth power of ten. */
  lemma {:induction false} DecimalBound(digits: seq<Byte>, bound: int)
    requires forall i :: 0 <= i < |digits| ==> 48 <= digits[i] <= 57
    requires bound == JsonText.Tens(|digits|)
    ensures 0 <= Decimal(digits) < bound
  {
    if digits != [] {
      DecimalBound(digits[..|digits| - 1], JsonText.Tens(|digits| - 1));
    }
  }

  lemma {:induction false} TensIncrease(j: nat, k: nat)
    requires j <= k
    ensures JsonText.Tens(j) <= JsonText.Tens(k)
    decreases k
  {
    if j < k {
      TensIncrease(j, k - 1);
    }
  }

  /** A number beyond a C `int` has ten digits. */
  lemma TenDigitsAtLeast(negative: bool, digits: seq<Byte>)
    requires forall i :: 0 <= i < |digits| ==> 48 <= digits[i] <= 57
    requires !(-0x8000_0000 <= Signed(negative, Decimal(digits)) < 0x8000_0000)
    ensures |digits| >= 10
  {
    DecimalBound(digits, JsonText.Tens(|digits|));
    if |digits| < 10 {
      TensIncrease(|digits|, 9);
      NineTens(9);
    }
  }

  lemma NineTens(k: nat)
    requires k == 9
    ensures JsonText.Tens(k) == 1_000_000_000
  {
    assert JsonText.Tens(k) == 10 * (10 * (10 * (10 * JsonText.Tens(5))));
    assert JsonText.Tens(5) == 100_000;
  }

  lemma FractionUnsettled(front: seq<Byte>, more: seq<Byte>)
    requires front != [] && (front[|front| - 1] == 45 || 48 <= front[|front| - 1] <= 57) && FractionOrExponent(more)
    ensures HasUnsettled(front + more)
  {
    var i := |front| - 1;
    assert (front + more)[i..] == [front[i]] + more;
    assert Unsettled((front + more)[i..]);
  }

  lemma DigitsUnsettled(front: seq<Byte>, digits: seq<Byte>, more: seq<Byte>)
    requires |digits| >= 10 && forall i :: 0 <= i < |digits| ==> 48 <= digits[i] <= 57
    ensures HasUnsettled(front + (digits + more))
  {
    DropFront(front, digits + more);
    assert Unsettled((front + (digits + more))[|front|..]);
  }

  lemma NumberEnds(s: seq<Byte>)
    requires s != [] && (s[0] == MINUS || IsDigit(s[0]))
    ensures Ends(s, ParseNumber(s))
  {
    var negative, zero, digits, more, s1 := NumeralParts(s);
    NumberOfParts(negative, zero, digits, more, s1, s);
    var front: seq<Byte> := (if negative then [45] else []) + (if zero then [48] else []);
    Regroup(if negative then [45] else [], if zero then [48] else [], digits + more);
    PartsEnd(s, negative, front, digits, more);
  }

  lemma PartsEnd(s: seq<Byte>, negative: bool, front: seq<Byte>, digits: seq<Byte>, more: seq<Byte>)
    requires forall i :: 0 <= i < |digits| ==> 48 <= digits[i] <= 57
    requires forall i :: 0 <= i < |front| ==> front[i] == 45 || front[i] == 48
    requires s == front + (digits + more) && front + digits != []
    ensures Ends(s, Settled(negative, Decimal(digits), more))
  {
    Regroup(front, digits, more);
    DropFront(front + digits, more);
    if FractionOrExponent(more) {
      FractionUnsettled(front + digits, more);
    } else if Settled(negative, Decimal(digits), more).Undefined? {
      TenDigitsAtLeast(negative, digits);
      DigitsUnsettled(front, digits, more);
    }
  }

  // ----- values

  lemma FirstSuffix(s: seq<Byte>, k: nat)
    requires k <= |s|
    ensures Suffix(s[k..], s)
  {
  }

  lemma {:induction false} ValueEnds(s: seq<Byte>)
    ensures Ends(s, ParseValue(s))
    decreases |s|, 0
  {
    FirstLetter(s);
    if StartsWith(s, NULL_TEXT) || StartsWith(s, TRUE_TEXT) {
      FirstSuffix(s, 4);
    } else if StartsWith(s, FALSE_TEXT) {
      FirstSuffix(s, 5);
    } else if s != [] && s[0] == QUOTE {
      UnescapeEnds(s[1..]);
      EndsLater(s[1..], s, Unescape(s[1..]));
    } else if s != [] && (s[0] == MINUS || IsDigit(s[0])) {
      NumberEnds(s);
    } else if s != [] && s[0] == OPEN_ARRAY {
      ParseArray(s, Skip(s[1..]));
      InsideSuffix(s);
      ListEnds(Skip(s[1..]));
      EndsLater(Skip(s[1..]), s, ParseValue(s));
    } else if s != [] && s[0] == OPEN_OBJECT {
      ParseObject(s, Skip(s[1..]));
      InsideSuffix(s);
      RecordEnds(Skip(s[1..]));
      EndsLater(Skip(s[1..]), s, ParseValue(s));
    }
  }

  lemma InsideSuffix(s: seq<Byte>)
    requires s != []
    ensures Suffix(Skip(s[1..]), s) && |Skip(s[1..])| < |s|
  {
    SkipSuffix(s[1..]);
    SuffixTwice(Skip(s[1..]), s[1..], s);
  }

  lemma {:induction false} ListEnds(inside: seq<Byte>)
    ensures Ends(inside, ItemsThenClose(inside))
    decreases |inside|, 3
  {
    ItemsEnd(inside);
    var p := ParseItems(inside);
    if p.Ok? && p.rest != [] {
      SuffixTwice(p.rest[1..], p.rest, inside);
    }
  }

  lemma {:induction false} RecordEnds(inside: seq<Byte>)
    ensures Ends(inside, MembersThenClose(inside))
    decreases |inside|, 3
  {
    MembersEnd(inside);
    var p := ParseMembers(inside);
    if p.Ok? && p.rest != [] {
      SuffixTwice(p.rest[1..], p.rest, inside);
    }
  }

  lemma {:induction false} ItemsEnd(s: seq<Byte>)
    ensures Ends(s, ParseItems(s))
    decreases |s|, 1
  {
    SkipSuffix(s);
    ValueEnds(Skip(s));
    var p := ParseValue(Skip(s));
    EndsLater(Skip(s), s, p);
    if p.Ok? {
      ItemThenMore(s, p.value, p.rest);
      var next := Skip(p.rest);
      SkipSuffix(p.rest);
      SuffixTwice(next, p.rest, s);
      if Peek(next, 0) == COMMA {
        ItemsEnd(next[1..]);
        SuffixTwice(next[1..], next, s);
        EndsLater(next[1..], s, ParseItems(next[1..]));
      }
    }
  }

  lemma {:induction false} MembersEnd(s: seq<Byte>)
    ensures Ends(s, ParseMembers(s))
    decreases |s|, 2
  {
    MemberEnds(s);
    var p := ParseMember(s);
    if p.Ok? {
      MemberThenMore(s, p.value, p.rest);
      var next := Skip(p.rest);
      SkipSuffix(p.rest);
      SuffixTwice(next, p.rest, s);
      if Peek(next, 0) == COMMA {
        MembersEnd(next[1..]);
        SuffixTwice(next[1..], next, s);
        EndsLater(next[1..], s, ParseMembers(next[1..]));
      }
    }
  }

  lemma {:induction false} MemberEnds(s: seq<Byte>)
    ensures Ends(s, ParseMember(s))
    decreases |s|, 1
  {
    var t := Skip(s);
    SkipSuffix(s);
    if Peek(t, 0) == QUOTE {
      UnescapeEnds(t[1..]);
      SuffixTwice(t[1..], t, s);
      EndsLater(t[1..], s, Unescape(t[1..]));
      var p := ParseString(t);
      if p.Ok? {
        UnescapeShrinks(t[1..]);
        NameThenValue(s, p.value, p.rest);
        ColonEnds(p.value, p.rest);
        EndsLater(p.rest, s, MemberValue(p.value, p.rest));
      }
    }
  }

  lemma {:induction false} ColonEnds(name: seq<Byte>, s: seq<Byte>)
    ensures Ends(s, MemberValue(name, s))
    decreases |s|, 1
  {
    var next := Skip(s);
    SkipSuffix(s);
    if Peek(next, 0) == COLON {
      InsideSuffix(next);
      SuffixTwice(Skip(next[1..]), next, s);
      ValueEnds(Skip(next[1..]));
      EndsLater(Skip(next[1..]), s, ParseValue(Skip(next[1..])));
    }
  }

  /**
   A text without a backslash, a fraction, an exponent and ten digits in a row is read as a value, or it is refused;
   what the parser leaves of it is its end.
   */
  lemma SettledTexts(text: seq<Byte>)
    ensures Parse(text).Undefined? ==> HasUnsettled(text)
    ensures Parse(text).Ok? ==> Suffix(Parse(text).rest, text)
  {
    SkipSuffix(text);
    ValueEnds(Skip(text));
    EndsLater(Skip(text), text, Parse(text));
  }
}
