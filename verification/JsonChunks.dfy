/** What the minifier takes out of a text, and what it keeps, for every text. */
module JsonChunks {
  import opened Octets
  import opened JsonMinify
  import JsonSyntax

  /**
   A piece of a text as the minifier divides it. A line comment ends before a line end or with the text. A block
   comment is a slash and a body, which starts with the star that opens it and ends with the first star and slash
   in it, so that slash, star and slash are a whole comment.
   */
  datatype Chunk =
    | Space(b: Byte)
    | Line(text: seq<Byte>)
    | Block(body: seq<Byte>)
    | Quoted(text: seq<Byte>)
    | Mark(b: Byte)

  /** The text of a chunk, up to and including what follows it. */
  function ChunkThen(c: Chunk, more: seq<Byte>): seq<Byte> {
    match c
    case Space(b) => [b] + more
    case Line(text) => [47, 47] + (text + more)
    case Block(body) => [47] + (body + more)
    case Quoted(text) => [34] + (text + ([34] + more))
    case Mark(b) => [b] + more
  }

  function Source(chunks: seq<Chunk>): seq<Byte> {
    if chunks == [] then [] else ChunkThen(chunks[0], Source(chunks[1..]))
  }

  /** What is left of a chunk. */
  function Kept(c: Chunk): seq<Byte> {
    match c
    case Quoted(text) => [34] + (text + [34])
    case Mark(b) => [b]
    case _ => []
  }

  function AllKept(chunks: seq<Chunk>): seq<Byte> {
    if chunks == [] then [] else Kept(chunks[0]) + AllKept(chunks[1..])
  }

  predicate EndsAt(s: seq<Byte>, i: nat)
    requires i + 1 < |s|
  {
    s[i] == 42 && s[i + 1] == 47
  }

  predicate GoodChunk(c: Chunk, more: seq<Byte>) {
    match c
    case Space(b) => b == 9 || b == 10 || b == 13 || b == 32
    case Line(text) => 10 !in text && (more == [] || more[0] == 10)
    case Block(body) =>
      && |body| >= 2 && body[0] == 42 && EndsAt(body, |body| - 2)
      && forall i :: 0 <= i < |body| - 2 ==> !EndsAt(body, i)
    case Quoted(text) => JsonSyntax.Closed(text)
    case Mark(b) =>
      && b != 9 && b != 10 && b != 13 && b != 32 && b != 34
      && (b == 47 && more != [] ==> more[0] != 47 && more[0] != 42)
  }

  predicate GoodChunks(chunks: seq<Chunk>) {
    chunks != [] ==> GoodChunk(chunks[0], Source(chunks[1..])) && GoodChunks(chunks[1..])
  }

  // ----- what the minifier makes of chunks

  lemma {:induction false} LineEnds(text: seq<Byte>, more: seq<Byte>)
    requires 10 !in text && (more == [] || more[0] == 10)
    ensures LineLength(text + more) == |text|
  {
    if text == [] {
      assert text + more == more;
    } else {
      assert (text + more)[1..] == text[1..] + more;
      LineEnds(text[1..], more);
    }
  }

  lemma {:induction false} BlockEnds(body: seq<Byte>, more: seq<Byte>)
    requires |body| >= 2 && EndsAt(body, |body| - 2)
    requires forall i :: 0 <= i < |body| - 2 ==> !EndsAt(body, i)
    ensures CommentLength(body + more) == |body|
  {
    var s := body + more;
    assert s[0] == body[0] && s[1] == body[1];
    if |body| > 2 {
      assert !EndsAt(body, 0) && s[1..] == body[1..] + more;
      forall i | 0 <= i < |body[1..]| - 2 ensures !EndsAt(body[1..], i) {
        assert !EndsAt(body, i + 1);
      }
      BlockEnds(body[1..], more);
    }
  }

  lemma {:induction false} LiteralEnds(text: seq<Byte>, more: seq<Byte>)
    requires JsonSyntax.Closed(text)
    ensures LiteralLength(text + ([34] + more)) == |text| + 1
  {
    var s := text + ([34] + more);
    if text != [] {
      var k := if text[0] == 92 then 2 else 1;
      assert s[k..] == text[k..] + ([34] + more);
      LiteralEnds(text[k..], more);
    }
  }

  lemma ChunkMinifies(c: Chunk, more: seq<Byte>)
    requires GoodChunk(c, more)
    ensures Minify(ChunkThen(c, more)) == Before(Kept(c), Minify(more))
  {
    var s := ChunkThen(c, more);
    NothingBefore(Minify(more));
    match c
    case Space(b) => assert s[1..] == more;
    case Mark(b) => assert s[1..] == more;
    case Line(text) => LineMinifies(text, more);
    case Block(body) => BlockMinifies(body, more);
    case Quoted(text) => QuotedMinifies(text, more);
  }

  lemma NothingBefore(r: Minified)
    ensures Before([], r) == r
  {
    assert r.Done? ==> [] + r.text == r.text;
  }

  lemma LineMinifies(text: seq<Byte>, more: seq<Byte>)
    requires GoodChunk(Line(text), more)
    ensures Minify(ChunkThen(Line(text), more)) == Minify(more)
  {
    var s := ChunkThen(Line(text), more);
    assert s == ([47, 47] + text) + more;
    LineEnds([47, 47] + text, more);
    assert s[2 + |text|..] == more;
  }

  lemma BlockMinifies(body: seq<Byte>, more: seq<Byte>)
    requires GoodChunk(Block(body), more)
    ensures Minify(ChunkThen(Block(body), more)) == Minify(more)
  {
    var s := ChunkThen(Block(body), more);
    BlockEnds(body, more);
    assert s[0] == 47 && s[1] == 42 && s[1..] == body + more && s[1 + |body|..] == more;
  }

  lemma QuotedMinifies(text: seq<Byte>, more: seq<Byte>)
    requires JsonSyntax.Closed(text)
    ensures Minify(ChunkThen(Quoted(text), more)) == Before(Kept(Quoted(text)), Minify(more))
  {
    var s := ChunkThen(Quoted(text), more);
    LiteralEnds(text, more);
    var n := |text| + 1;
    assert s[1..] == text + ([34] + more) && s[1 + n..] == more && s[..1 + n] == Kept(Quoted(text));
  }

  lemma {:induction false} ChunksMinify(chunks: seq<Chunk>)
    requires GoodChunks(chunks)
    ensures Minify(Source(chunks)) == Done(AllKept(chunks))
  {
    if chunks != [] {
      ChunkMinifies(chunks[0], Source(chunks[1..]));
      ChunksMinify(chunks[1..]);
    }
  }

  // ----- every text that is minified divides into chunks

  lemma {:induction false} LineIn(s: seq<Byte>)
    ensures var n := LineLength(s); 10 !in s[..n] && (s[n..] == [] || s[n] == 10)
  {
    if s != [] && s[0] != 10 {
      LineIn(s[1..]);
      var n := LineLength(s[1..]);
      assert s[..1 + n] == [s[0]] + s[1..][..n] && s[1..][n..] == s[1 + n..];
    }
  }

  lemma {:induction false} BlockIn(s: seq<Byte>)
    requires CommentLength(s) > 0
    ensures var n := CommentLength(s); 2 <= n && EndsAt(s, n - 2) && forall i :: 0 <= i < n - 2 ==> !EndsAt(s, i)
  {
    if !EndsAt(s, 0) {
      var t, n := s[1..], CommentLength(s[1..]);
      BlockIn(t);
      assert EndsAt(t, n - 2);
      forall i | 0 <= i < n - 1 ensures !EndsAt(s, i) {
        assert i > 0 ==> !EndsAt(t, i - 1);
      }
    }
  }

  lemma {:induction false} LiteralIn(s: seq<Byte>)
    requires LiteralLength(s) > 0
    ensures var n := LiteralLength(s); JsonSyntax.Closed(s[..n - 1]) && s[n - 1] == 34
  {
    if s[0] != 34 {
      var k := if s[0] == 92 then 2 else 1;
      var n := LiteralLength(s);
      LiteralIn(s[k..]);
      assert s[..n - 1][k..] == s[k..][..n - 1 - k];
    }
  }

  /** The first chunk of a text, and the rest of the text. */
  lemma FirstChunk(s: seq<Byte>) returns (c: Chunk, more: seq<Byte>)
    requires s != [] && Minify(s).Done?
    ensures GoodChunk(c, more) && s == ChunkThen(c, more) && |more| < |s|
  {
    if s[0] == 9 || s[0] == 10 || s[0] == 13 || s[0] == 32 {
      c, more := Space(s[0]), s[1..];
    } else if |s| >= 2 && s[0] == 47 && s[1] == 47 {
      c, more := LineFirst(s);
    } else if |s| >= 2 && s[0] == 47 && s[1] == 42 {
      c, more := BlockFirst(s);
    } else if s[0] == 34 {
      c, more := QuotedFirst(s);
    } else {
      c, more := Mark(s[0]), s[1..];
    }
  }

  lemma LineFirst(s: seq<Byte>) returns (c: Chunk, more: seq<Byte>)
    requires |s| >= 2 && s[0] == 47 && s[1] == 47
    ensures c.Line? && GoodChunk(c, more) && s == ChunkThen(c, more) && |more| < |s|
  {
    var n := LineLength(s);
    LineIn(s);
    LineStarts(s);
    var text := s[2..n];
    assert s[..n] == [47, 47] + text;
    c, more := Line(text), s[n..];
    assert s == s[..n] + more && ([47, 47] + text) + more == [47, 47] + (text + more);
  }

  lemma LineStarts(s: seq<Byte>)
    requires |s| >= 2 && s[0] == 47 && s[1] == 47
    ensures LineLength(s) >= 2
  {
    assert LineLength(s[1..]) == 1 + LineLength(s[1..][1..]);
  }

  lemma QuotedFirst(s: seq<Byte>) returns (c: Chunk, more: seq<Byte>)
    requires s != [] && s[0] == 34 && LiteralLength(s[1..]) > 0
    ensures c.Quoted? && GoodChunk(c, more) && s == ChunkThen(c, more) && |more| < |s|
  {
    var n := LiteralLength(s[1..]);
    LiteralIn(s[1..]);
    QuotedParts(s, n);
    c, more := Quoted(s[1..n]), s[1 + n..];
  }

  lemma QuotedParts(s: seq<Byte>, n: nat)
    requires 1 <= n < |s| && s[0] == 34 && s[1..][n - 1] == 34
    ensures s == [34] + (s[1..n] + ([34] + s[1 + n..])) && s[1..][..n - 1] == s[1..n]
  {
  }

  lemma BlockFirst(s: seq<Byte>) returns (c: Chunk, more: seq<Byte>)
    requires |s| >= 2 && s[0] == 47 && s[1] == 42 && CommentLength(s) > 0
    ensures c.Block? && GoodChunk(c, more) && s == ChunkThen(c, more) && |more| < |s|
  {
    var n := CommentLength(s);
    BlockIn(s);
    assert !EndsAt(s, 0);
    var body := s[1..n];
    c, more := Block(body), s[n..];
    assert EndsAt(body, |body| - 2);
    forall i | 0 <= i < |body| - 2 ensures !EndsAt(body, i) {
      assert !EndsAt(s, i + 1);
    }
  }

  lemma {:induction false} ChunksIn(s: seq<Byte>) returns (chunks: seq<Chunk>)
    requires Minify(s).Done?
    ensures GoodChunks(chunks) && s == Source(chunks)
    decreases |s|
  {
    chunks := [];
    if s != [] {
      var c, more := FirstChunk(s);
      ChunkMinifies(c, more);
      var others := ChunksIn(more);
      chunks := [c] + others;
      assert chunks[1..] == others;
    }
  }

  predicate Divides(chunks: seq<Chunk>, s: seq<Byte>, t: seq<Byte>) {
    GoodChunks(chunks) && s == Source(chunks) && t == AllKept(chunks)
  }

  /**
   `cJSON_Minify` gives a text exactly if the text before divides into chunks whose literals and other bytes it is:
   spaces, tabs, line ends, carriage returns and comments go, and everything else is kept in order.
   */
  lemma MinifiesExactly(s: seq<Byte>, t: seq<Byte>)
    ensures Minify(s) == Done(t) <==> exists chunks :: Divides(chunks, s, t)
  {
    if Minify(s) == Done(t) {
      var chunks := ChunksIn(s);
      ChunksMinify(chunks);
      assert Divides(chunks, s, t);
    }
    forall chunks | Divides(chunks, s, t) ensures Minify(s) == Done(t) {
      ChunksMinify(chunks);
    }
  }

  // ----- no white space is left

  /** The bytes of a text outside its string literals. */
  function Outside(s: seq<Byte>, inLiteral: bool): seq<Byte>
    decreases |s|
  {
    if s == [] then []
    else if inLiteral then
      if s[0] == 92 && |s| > 1 then Outside(s[2..], true) else Outside(s[1..], s[0] != 34)
    else if s[0] == 34 then Outside(s[1..], true)
    else [s[0]] + Outside(s[1..], false)
  }

  lemma {:induction false} LiteralPassed(text: seq<Byte>, more: seq<Byte>)
    requires JsonSyntax.Closed(text)
    ensures Outside(text + ([34] + more), true) == Outside(more, false)
  {
    var s := text + ([34] + more);
    if text == [] {
      assert s[1..] == more;
    } else {
      var k := if text[0] == 92 then 2 else 1;
      assert s[k..] == text[k..] + ([34] + more);
      LiteralPassed(text[k..], more);
    }
  }

  predicate NoBlank(s: seq<Byte>) {
    forall i :: 0 <= i < |s| ==> s[i] != 9 && s[i] != 10 && s[i] != 13 && s[i] != 32
  }

  lemma ChunkOutside(c: Chunk, next: seq<Byte>, more: seq<Byte>)
    requires GoodChunk(c, next)
    ensures NoBlank(Outside(more, false)) ==> NoBlank(Outside(Kept(c) + more, false))
  {
    match c
    case Quoted(text) =>
      var s := Kept(Quoted(text)) + more;
      assert s[1..] == text + ([34] + more);
      LiteralPassed(text, more);
    case Mark(b) => assert ([b] + more)[1..] == more;
    case _ => assert [] + more == more;
  }

  lemma {:induction false} KeptOutside(chunks: seq<Chunk>)
    requires GoodChunks(chunks)
    ensures NoBlank(Outside(AllKept(chunks), false))
  {
    if chunks != [] {
      KeptOutside(chunks[1..]);
      ChunkOutside(chunks[0], Source(chunks[1..]), AllKept(chunks[1..]));
    }
  }

  /** Outside its literals a minified text holds no tab, line end, carriage return or space. */
  lemma NoSpaceLeft(s: seq<Byte>)
    requires Minify(s).Done?
    ensures NoBlank(Outside(Minify(s).text, false))
  {
    var chunks := ChunksIn(s);
    ChunksMinify(chunks);
    KeptOutside(chunks);
  }
}
