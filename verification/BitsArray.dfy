/** `rBitsArray`: flags written as their names, and names read back as flags. */
module BitsArray {

  /** A 32-bit word as the set of its bits: `&` is intersection, `|` is union, and zero is empty. */
  type Word = set<nat>

  datatype Flag = Flag(name: string, value: Word, comment: string)

  predicate IsSeparator(ch: char) {
    ch == ' ' || ch == '|'
  }

  predicate AllSeparators(s: string) {
    forall i :: 0 <= i < |s| ==> IsSeparator(s[i])
  }

  predicate NoSeparators(s: string) {
    forall i :: 0 <= i < |s| ==> !IsSeparator(s[i])
  }

  // ----- a value as a list of flags

  predicate Shown(f: Flag, value: Word) {
    f.value * value != {} && f.name != ""
  }

  /** The named flags that share a bit with `value`, in order. */
  function ShownFlags(list: seq<Flag>, value: Word): seq<Flag> {
    if list == [] then []
    else ShownFlags(list[..|list| - 1], value) + (if Shown(list[|list| - 1], value) then [list[|list| - 1]] else [])
  }

  function Union(flags: seq<Flag>): Word {
    if flags == [] then {} else Union(flags[..|flags| - 1]) + flags[|flags| - 1].value
  }

  /** All bits of the named flags. */
  function Mask(list: seq<Flag>): Word {
    if list == [] then {}
    else Mask(list[..|list| - 1]) + (if list[|list| - 1].name != "" then list[|list| - 1].value else {})
  }

  function JoinNames(flags: seq<Flag>, delim: string): string {
    if flags == [] then ""
    else
      var init := JoinNames(flags[..|flags| - 1], delim);
      init + ((if init != "" then delim else "") + flags[|flags| - 1].name)
  }

  // ----- a text as a list of words

  /** The words ended by a separator, and the word still open at the end. */
  function Split(str: string): (seq<string>, string) {
    if str == "" then ([], "")
    else
      var (done, open) := Split(str[..|str| - 1]);
      var ch := str[|str| - 1];
      if !IsSeparator(ch) then (done, open + [ch])
      else if open != "" then (done + [open], "") else (done, "")
  }

  function Words(str: string): seq<string> {
    var (done, open) := Split(str);
    if open != "" then done + [open] else done
  }

  /** The first flag with a name, as an index; the length of the list if there is none. */
  function Find(list: seq<Flag>, name: string): (k: nat)
    ensures k <= |list|
    ensures k < |list| ==> list[k].name == name
    ensures forall i :: 0 <= i < k ==> list[i].name != name
  {
    if list == [] then 0
    else if list[0].name == name then 0 else 1 + Find(list[1..], name)
  }

  predicate Known(list: seq<Flag>, word: string) {
    Find(list, word) < |list|
  }

  /** The flags that words name, up to the first word that names none. */
  function NamedFlags(list: seq<Flag>, words: seq<string>): seq<Flag> {
    if words == [] then []
    else if !Known(list, words[0]) then []
    else [list[Find(list, words[0])]] + NamedFlags(list, words[1..])
  }

  predicate AllKnown(list: seq<Flag>, words: seq<string>) {
    forall i :: 0 <= i < |words| ==> Known(list, words[i])
  }

  class BitsArray {
    var list: seq<Flag>

    constructor ()
      ensures list == []
    {
      list := [];
    }

    method Add(name: string, value: Word, comment: string)
      modifies this
      ensures list == old(list) + [Flag(name, value, comment)]
    {
      list := list + [Flag(name, value, comment)];
    }

    method GetNameByBits(value: Word, delim: string) returns (result: string)
      ensures result == JoinNames(ShownFlags(list, value), delim)
    {
      result := "";
      for i := 0 to |list|
        invariant result == JoinNames(ShownFlags(list[..i], value), delim)
      {
        assert list[..i + 1][..|list[..i + 1]| - 1] == list[..i];
        ghost var before := ShownFlags(list[..i], value);
        if list[i].value * value != {} && list[i].name != "" {
          assert (before + [list[i]])[..|before + [list[i]]| - 1] == before;
          assert ShownFlags(list[..i + 1], value) == before + [list[i]];
          result := result + ((if result != "" then delim else "") + list[i].name);
        } else {
          assert ShownFlags(list[..i + 1], value) == before + [] == before;
        }
      }
      assert list[..|list|] == list;
    }

    /** An error met before stops the lookup; an empty name is no error. */
    method GetBit(name: string, err: nat) returns (r: Word, err': nat)
      ensures err != 0 || name == "" ==> r == {} && err' == err
      ensures err == 0 && name != "" && Known(list, name) ==> r == list[Find(list, name)].value && err' == 0
      ensures err == 0 && name != "" && !Known(list, name) ==> r == {} && err' == 1
    {
      if err != 0 || name == "" {
        return {}, err;
      }
      for i := 0 to |list|
        invariant forall k :: 0 <= k < i ==> list[k].name != name
      {
        if list[i].name == name {
          return list[i].value, 0;
        }
      }
      return {}, 1;
    }

    /** The flags named by the words of a text; the words after an unknown one are not read. */
    method GetValue(str: string, err: nat) returns (result: Word, err': nat)
      ensures err != 0 ==> result == {} && err' == err
      ensures err == 0 ==> result == Union(NamedFlags(list, Words(str)))
      ensures err == 0 ==> err' == if AllKnown(list, Words(str)) then 0 else 1
    {
      result, err' := {}, err;
      if err != 0 || str == "" {
        return;
      }
      var name := "";
      ghost var done: seq<string> := [];
      for i := 0 to |str|
        invariant Reading(str[..i], done, name, result) && err' == 0
      {
        assert str[..i + 1][..|str[..i + 1]| - 1] == str[..i];
        if str[i] == ' ' || str[i] == '|' {
          if name != "" {
            result, err', done := AddWord(done, name, result);
            if err' != 0 {
              UnknownWord(list, str, i + 1, done[..|done| - 1], name);
              return;
            }
            name := "";
          }
        } else {
          name := name + [str[i]];
        }
      }
      assert str[..|str|] == str;
      if name != "" {
        result, err', done := AddWord(done, name, result);
      }
    }

    /** What the tokenizer holds after some characters: all words so far are known, and united. */
    ghost predicate Reading(read: string, done: seq<string>, name: string, result: Word)
      reads this
    {
      Split(read) == (done, name) && AllKnown(list, done) && result == Union(NamedFlags(list, done))
    }

    /** One word is looked up and its flag added. */
    method AddWord(ghost done: seq<string>, name: string, sofar: Word)
      returns (result: Word, err: nat, ghost words: seq<string>)
      requires name != "" && AllKnown(list, done) && sofar == Union(NamedFlags(list, done))
      ensures words == done + [name] && words[..|words| - 1] == done
      ensures result == Union(NamedFlags(list, words))
      ensures AllKnown(list, words) <==> Known(list, name)
      ensures err == if Known(list, name) then 0 else 1
    {
      var bit;
      bit, err := GetBit(name, 0);
      OneMoreWord(list, done, name);
      result, words := sofar + bit, done + [name];
    }
  }

  lemma {:induction false} NamedFlagsSnoc(list: seq<Flag>, words: seq<string>, w: string)
    requires AllKnown(list, words)
    ensures NamedFlags(list, words + [w]) ==
      NamedFlags(list, words) + if Known(list, w) then [list[Find(list, w)]] else []
  {
    if words == [] {
      assert ([] + [w])[1..] == [];
    } else {
      NamedFlagsSnoc(list, words[1..], w);
      assert (words + [w])[1..] == words[1..] + [w];
    }
  }

  lemma OneMoreWord(list: seq<Flag>, done: seq<string>, name: string)
    requires AllKnown(list, done)
    ensures AllKnown(list, done + [name]) <==> Known(list, name)
    ensures Union(NamedFlags(list, done + [name])) ==
      Union(NamedFlags(list, done)) + if Known(list, name) then list[Find(list, name)].value else {}
  {
    NamedFlagsSnoc(list, done, name);
    assert NamedFlags(list, done) + [] == NamedFlags(list, done);
    assert (done + [name])[|done|] == name;
    if Known(list, name) {
      var flags, f := NamedFlags(list, done), list[Find(list, name)];
      assert (flags + [f])[..|flags + [f]| - 1] == flags;
    }
  }

  /** Nothing after an unknown word counts. */
  lemma {:induction false} UnknownStops(list: seq<Flag>, words: seq<string>, more: seq<string>)
    requires !AllKnown(list, words)
    ensures NamedFlags(list, words + more) == NamedFlags(list, words)
    ensures !AllKnown(list, words + more)
  {
    var k :| 0 <= k < |words| && !Known(list, words[k]);
    assert (words + more)[k] == words[k];
    if Known(list, words[0]) {
      assert words[1..][k - 1] == words[k];
      UnknownStops(list, words[1..], more);
      assert (words + more)[1..] == words[1..] + more;
    }
  }

  /** The words completed so far stay the first words of the text. */
  lemma {:induction false} SplitGrows(str: string, i: nat) returns (more: seq<string>)
    requires i <= |str|
    ensures Split(str).0 == Split(str[..i]).0 + more
    decreases |str|
  {
    if i == |str| {
      assert str[..i] == str;
      more := [];
    } else {
      more := SplitGrows(str[..|str| - 1], i);
      assert str[..|str| - 1][..i] == str[..i];
      var open := Split(str[..|str| - 1]).1;
      if IsSeparator(str[|str| - 1]) && open != "" {
        more := more + [open];
      }
    }
  }

  lemma UnknownWord(list: seq<Flag>, str: string, i: nat, done: seq<string>, name: string)
    requires i <= |str| && Split(str[..i]) == (done + [name], "")
    requires !Known(list, name)
    ensures NamedFlags(list, Words(str)) == NamedFlags(list, done + [name])
    ensures !AllKnown(list, Words(str))
  {
    var more := SplitGrows(str, i);
    assert (done + [name])[|done|] == name;
    var (all, open) := Split(str);
    if open != "" {
      assert Words(str) == done + [name] + (more + [open]);
      UnknownStops(list, done + [name], more + [open]);
    } else {
      UnknownStops(list, done + [name], more);
    }
  }

  // ----- the round trip

  function Names(flags: seq<Flag>): (r: seq<string>)
    ensures |r| == |flags| && forall i :: 0 <= i < |flags| ==> r[i] == flags[i].name
  {
    if flags == [] then [] else Names(flags[..|flags| - 1]) + [flags[|flags| - 1].name]
  }

  lemma {:induction false} SplitOpenWord(s: string, w: string)
    requires NoSeparators(w)
    ensures Split(s + w) == (Split(s).0, Split(s).1 + w)
    decreases |w|
  {
    if w == "" {
      assert s + w == s;
      assert Split(s).1 + w == Split(s).1;
    } else {
      assert (s + w)[..|s + w| - 1] == s + w[..|w| - 1];
      SplitOpenWord(s, w[..|w| - 1]);
      assert Split(s).1 + w == Split(s).1 + w[..|w| - 1] + [w[|w| - 1]];
    }
  }

  lemma {:induction false} SplitClosed(s: string, d: string)
    requires AllSeparators(d) && d != ""
    ensures Split(s + d) == (Words(s), "")
    decreases |d|
  {
    assert (s + d)[..|s + d| - 1] == s + d[..|d| - 1];
    if |d| == 1 {
      assert s + d[..0] == s;
    } else {
      SplitClosed(s, d[..|d| - 1]);
    }
  }

  predicate PlainNames(flags: seq<Flag>) {
    forall i :: 0 <= i < |flags| ==> flags[i].name != "" && NoSeparators(flags[i].name)
  }

  /** Joined names split into themselves again, whatever separators stand between them. */
  lemma {:induction false} WordsOfNames(flags: seq<Flag>, delim: string)
    requires PlainNames(flags) && AllSeparators(delim) && delim != ""
    ensures Words(JoinNames(flags, delim)) == Names(flags)
    ensures flags != [] ==> JoinNames(flags, delim) != ""
  {
    if flags != [] {
      var init, last := flags[..|flags| - 1], flags[|flags| - 1].name;
      WordsOfNames(init, delim);
      var text := JoinNames(init, delim);
      if init == [] {
        SplitOpenWord("", last);
        assert JoinNames(flags, delim) == "" + last;
        assert [] + [last] == [last] && "" + last == last;
      } else {
        SplitClosed(text, delim);
        SplitOpenWord(text + delim, last);
        assert JoinNames(flags, delim) == (text + delim) + last;
        assert "" + last == last;
      }
    }
  }

  /** No two named flags share a name; the unnamed ones are never shown. */
  predicate UniqueNames(list: seq<Flag>) {
    forall i, j :: 0 <= i < j < |list| && list[i].name != "" ==> list[i].name != list[j].name
  }

  lemma {:induction false} ShownAreFound(list: seq<Flag>, flags: seq<Flag>)
    requires UniqueNames(list) && forall i :: 0 <= i < |flags| ==> flags[i] in list && flags[i].name != ""
    ensures AllKnown(list, Names(flags)) && NamedFlags(list, Names(flags)) == flags
  {
    if flags != [] {
      var init, last := flags[..|flags| - 1], flags[|flags| - 1];
      ShownAreFound(list, init);
      OneMoreFound(list, init, Names(init), last);
    }
  }

  lemma OneMoreFound(list: seq<Flag>, init: seq<Flag>, names: seq<string>, last: Flag)
    requires UniqueNames(list) && last in list && last.name != ""
    requires AllKnown(list, names) && NamedFlags(list, names) == init
    ensures AllKnown(list, names + [last.name]) && NamedFlags(list, names + [last.name]) == init + [last]
  {
    FoundFirst(list, last);
    NamedFlagsSnoc(list, names, last.name);
  }

  lemma FoundFirst(list: seq<Flag>, f: Flag)
    requires UniqueNames(list) && f in list && f.name != ""
    ensures Known(list, f.name) && list[Find(list, f.name)] == f
  {
    var i :| 0 <= i < |list| && list[i] == f;
    var k := Find(list, f.name);
    assert k <= i;
  }

  lemma {:induction false} ShownAreListed(list: seq<Flag>, value: Word)
    ensures forall f :: f in ShownFlags(list, value) <==> f in list && Shown(f, value)
  {
    if list != [] {
      var init, last := list[..|list| - 1], list[|list| - 1];
      ShownAreListed(init, value);
      assert list == init + [last];
    }
  }

  predicate SoundTable(list: seq<Flag>) {
    UniqueNames(list) && forall i :: 0 <= i < |list| ==> NoSeparators(list[i].name)
  }

  /** Reading back what was written gives the flags shown, with no error. */
  lemma ReadBack(list: seq<Flag>, value: Word, delim: string)
    requires SoundTable(list) && AllSeparators(delim) && delim != ""
    ensures var words := Words(JoinNames(ShownFlags(list, value), delim));
      AllKnown(list, words) && NamedFlags(list, words) == ShownFlags(list, value)
  {
    var flags := ShownFlags(list, value);
    ShownAreListed(list, value);
    assert forall i :: 0 <= i < |flags| ==> flags[i] in flags;
    WordsOfNames(flags, delim);
    ShownAreFound(list, flags);
  }

  // ----- the order of the names, and every way to write words

  /** Places in the table, in order: those of the named flags that share a bit with the value. */
  predicate PlacesShown(list: seq<Flag>, value: Word, at: seq<nat>) {
    && (forall k :: 0 <= k < |at| ==> at[k] < |list|)
    && (forall j, k :: 0 <= j < k < |at| ==> at[j] < at[k])
    && forall i :: 0 <= i < |list| ==> (i in at <==> list[i].value * value != {} && list[i].name != "")
  }

  /** The flags shown stand in the order of the table, each once. */
  lemma {:induction false} ShownInOrder(list: seq<Flag>, value: Word) returns (at: seq<nat>)
    ensures PlacesShown(list, value, at) && |at| == |ShownFlags(list, value)|
    ensures forall k :: 0 <= k < |at| ==> ShownFlags(list, value)[k] == list[at[k]]
  {
    at := [];
    if list != [] {
      var last := |list| - 1;
      var before := ShownInOrder(list[..last], value);
      at := before + (if Shown(list[last], value) then [last] else []);
      LastPlace(list, value, before);
      if !Shown(list[last], value) {
        assert at == before;
      }
    }
  }

  lemma LastPlace(list: seq<Flag>, value: Word, before: seq<nat>)
    requires list != [] && PlacesShown(list[..|list| - 1], value, before)
    ensures var last := |list| - 1;
      PlacesShown(list, value, before + (if Shown(list[last], value) then [last] else []))
  {
    var last := |list| - 1;
    var at := before + (if Shown(list[last], value) then [last] else []);
    assert last !in before;
    forall i | 0 <= i < |list| ensures i in at <==> list[i].value * value != {} && list[i].name != "" {
      assert i < last ==> list[..last][i] == list[i];
    }
  }

  /** Names with a delimiter between each two. */
  function Joined(names: seq<string>, delim: string): string {
    if names == [] then ""
    else if |names| == 1 then names[0]
    else names[0] + (delim + Joined(names[1..], delim))
  }

  lemma {:induction false} JoinedSnoc(names: seq<string>, last: string, delim: string)
    requires names != []
    ensures Joined(names + [last], delim) == Joined(names, delim) + (delim + last)
  {
    var all := names + [last];
    assert all[1..] == names[1..] + [last];
    if |names| == 1 {
      assert all[1..] == [last];
    } else {
      JoinedSnoc(names[1..], last, delim);
      assert names[0] + (delim + (Joined(names[1..], delim) + (delim + last)))
        == (names[0] + (delim + Joined(names[1..], delim))) + (delim + last);
    }
  }

  lemma {:induction false} JoinedNames(flags: seq<Flag>, delim: string)
    requires forall i :: 0 <= i < |flags| ==> flags[i].name != ""
    ensures JoinNames(flags, delim) == Joined(Names(flags), delim) && (flags != [] ==> JoinNames(flags, delim) != "")
  {
    if flags != [] {
      var init, last := flags[..|flags| - 1], flags[|flags| - 1].name;
      JoinedNames(init, delim);
      if init == [] {
        assert "" + ("" + last) == last;
      } else {
        JoinedSnoc(Names(init), last, delim);
      }
    }
  }

  /** Names with what stands before, between and after them. */
  function Spread(words: seq<string>, gaps: seq<string>): string
    requires |gaps| == |words| + 1
  {
    if words == [] then gaps[0]
    else
      var k := |words| - 1;
      Spread(words[..k], gaps[..k + 1]) + (words[k] + gaps[k + 1])
  }

  /** Spaces and bars in any mixture are the gaps, and only the first and the last may be empty. */
  predicate IsSpread(words: seq<string>, gaps: seq<string>) {
    && |gaps| == |words| + 1
    && (forall i, j :: 0 <= i < |gaps| && 0 <= j < |gaps[i]| ==> gaps[i][j] == ' ' || gaps[i][j] == '|')
    && (forall i :: 0 < i < |words| ==> gaps[i] != "")
    && forall i :: 0 <= i < |words| ==> words[i] != "" && ' ' !in words[i] && '|' !in words[i]
  }

  lemma {:induction false} SpreadWords(words: seq<string>, gaps: seq<string>)
    requires IsSpread(words, gaps)
    ensures Words(Spread(words, gaps)) == words
    ensures gaps[|words|] != "" || words == [] ==> Split(Spread(words, gaps)) == (words, "")
  {
    if words == [] {
      GapAlone(gaps[0]);
    } else {
      var k := |words| - 1;
      SpreadWords(words[..k], gaps[..k + 1]);
      assert words == words[..k] + [words[k]];
      LastWord(Spread(words[..k], gaps[..k + 1]), words[..k], words[k], gaps[k + 1]);
    }
  }

  lemma LastWord(front: string, words: seq<string>, last: string, gap: string)
    requires Split(front) == (words, "") && last != "" && NoSeparators(last) && AllSeparators(gap)
    ensures Words(front + (last + gap)) == words + [last]
    ensures gap != "" ==> Split(front + (last + gap)) == (words + [last], "")
  {
    SplitOpenWord(front, last);
    assert "" + last == last;
    assert front + (last + gap) == (front + last) + gap;
    if gap == "" {
      assert (front + last) + "" == front + last;
    } else {
      SplitClosed(front + last, gap);
    }
  }

  lemma GapAlone(gap: string)
    requires AllSeparators(gap)
    ensures Split(gap) == ([], "")
  {
    if gap != "" {
      SplitClosed("", gap);
      assert "" + gap == gap;
    }
  }

  /** Every text is some words spread out, and one character more lengthens the last word or the last gap. */
  lemma {:induction false} SpreadIn(str: string) returns (words: seq<string>, gaps: seq<string>)
    ensures IsSpread(words, gaps) && str == Spread(words, gaps)
  {
    words, gaps := [], [""];
    if str != "" {
      var ch := str[|str| - 1];
      var before, gapsBefore := SpreadIn(str[..|str| - 1]);
      var k := |before|;
      words, gaps := before, gapsBefore;
      if ch == ' ' || ch == '|' {
        gaps := gapsBefore[k := gapsBefore[k] + [ch]];
        LastGapGrows(before, gapsBefore, [ch]);
      } else if gapsBefore[k] != "" || k == 0 {
        words, gaps := before + [[ch]], gapsBefore + [""];
        assert words[..k] == before && gaps[..k + 1] == gapsBefore;
      } else {
        words := before[k - 1 := before[k - 1] + [ch]];
        assert words[..k - 1] == before[..k - 1];
      }
    }
  }

  lemma LastGapGrows(words: seq<string>, gaps: seq<string>, more: string)
    requires |gaps| == |words| + 1
    ensures var k := |words|; Spread(words, gaps[k := gaps[k] + more]) == Spread(words, gaps) + more
  {
    var k := |words|;
    if k > 0 {
      assert gaps[k := gaps[k] + more][..k] == gaps[..k];
    }
  }

  /** The words of a text are these exactly if it is these words with spaces and bars around them. */
  lemma WordsExactly(str: string, words: seq<string>)
    ensures Words(str) == words <==> exists gaps :: IsSpread(words, gaps) && str == Spread(words, gaps)
  {
    var found, gaps := SpreadIn(str);
    SpreadWords(found, gaps);
    forall other | IsSpread(words, other) && str == Spread(words, other) ensures Words(str) == words {
      SpreadWords(words, other);
    }
  }

  predicate AtMostOneBit(v: Word) {
    forall a, b :: a in v && b in v ==> a == b
  }

  lemma {:induction false} SingleBitsMasked(list: seq<Flag>, value: Word)
    requires SingleBitFlags(list)
    ensures Union(ShownFlags(list, value)) == value * Mask(list)
  {
    if list != [] {
      var init, last := list[..|list| - 1], list[|list| - 1];
      SingleBitsMasked(init, value);
      var flags := ShownFlags(init, value);
      UnionStep(flags, last, value);
    }
  }

  lemma UnionStep(flags: seq<Flag>, last: Flag, value: Word)
    ensures Union(flags + if Shown(last, value) then [last] else []) ==
      Union(flags) + if Shown(last, value) then last.value else {}
  {
    assert (flags + [last])[..|flags + [last]| - 1] == flags;
    assert flags + [] == flags;
  }

  lemma {:induction false} UnionContains(flags: seq<Flag>, f: Flag)
    requires f in flags
    ensures f.value <= Union(flags)
  {
    var init, last := flags[..|flags| - 1], flags[|flags| - 1];
    if f != last {
      assert f in init;
      UnionContains(init, f);
    }
  }

  predicate SingleBitFlags(list: seq<Flag>) {
    forall i :: 0 <= i < |list| && list[i].name != "" ==> AtMostOneBit(list[i].value)
  }

  /** A value that shows a flag of several bits by one of them reads back with the others too. */
  lemma SeveralBitsFail(list: seq<Flag>, i: nat, a: nat, b: nat)
    requires i < |list| && list[i].name != ""
    requires a in list[i].value && b in list[i].value && a != b
    ensures Union(ShownFlags(list, {a})) != {a} * Mask(list)
  {
    ShownAreListed(list, {a});
    assert a in list[i].value * {a};
    assert list[i] in ShownFlags(list, {a});
    UnionContains(ShownFlags(list, {a}), list[i]);
    assert b in Union(ShownFlags(list, {a})) && b !in {a} * Mask(list);
  }

  /** Every value comes back masked by the table if and only if no named flag has two bits. */
  lemma RoundTripExact(list: seq<Flag>)
    ensures (forall value :: Union(ShownFlags(list, value)) == value * Mask(list)) <==> SingleBitFlags(list)
  {
    if SingleBitFlags(list) {
      forall value
        ensures Union(ShownFlags(list, value)) == value * Mask(list)
      {
        SingleBitsMasked(list, value);
      }
    } else {
      var i :| 0 <= i < |list| && list[i].name != "" && !AtMostOneBit(list[i].value);
      var a, b :| a in list[i].value && b in list[i].value && a != b;
      SeveralBitsFail(list, i, a, b);
    }
  }

  /** Written as names and read back, a value keeps exactly its bits in the table. */
  method WriteThenRead(flags: BitsArray, value: Word) returns (result: Word, err: nat)
    requires SoundTable(flags.list)
    requires SingleBitFlags(flags.list)
    ensures result == value * Mask(flags.list) && err == 0
  {
    var text := flags.GetNameByBits(value, "|");
    ReadBack(flags.list, value, "|");
    SingleBitsMasked(flags.list, value);
    result, err := flags.GetValue(text, 0);
  }
}
