/** The printers, the minifier and the parser one after the other. */
module JsonPipeline {
  import opened Octets
  import opened Json
  import opened CStrings
  import JsonBuffer
  import JsonMinify
  import opened JsonList
  import opened JsonParser
  import JsonPrinter
  import JsonRoundTrip
  import opened JsonTree

  /** A printed value is parsed again, to the end of the text, into linked items that stand for it. */
  method PrintAndParse(v: Value, fmt: bool) returns (r: Scan<Item>, ghost t: Tree)
    requires Valid(v)
    ensures r.Found? && r.next == |Text(v, 0, fmt)| && t.item == r.value && Stands(t, v)
  {
    var out := JsonPrinter.Print(v, fmt);
    var text := Contents(out, Text(v, 0, fmt));
    JsonRoundTrip.ParseOfPrint(v, fmt);
    ghost var w;
    r, w, t := ParseText(text);
  }

  /** A value printed into a growing buffer and minified in that buffer is still the value, and without white space. */
  method BufferMinifyAndParse(v: Value, prebuffer: nat, fmt: bool)
    returns (out: array<Byte>, r: Scan<Item>, ghost t: Tree)
    requires Valid(v) && prebuffer >= 1
    ensures Holds(out, Text(v, 0, false))
    ensures r.Found? && r.next == |Text(v, 0, false)| && t.item == r.value && Stands(t, v)
  {
    out := JsonBuffer.PrintBuffered(v, prebuffer, fmt);
    JsonMinify.MinifyOfPrint(v, fmt);
    JsonMinify.MinifyInPlace(out, Text(v, 0, fmt));
    var text := Contents(out, Text(v, 0, false));
    JsonRoundTrip.ParseOfPrint(v, false);
    ghost var w;
    r, w, t := ParseText(text);
  }
}
