/** Blocks of memory that hold zero-terminated strings, written from left to right. */
module CStrings {
  import opened Octets
  import opened Json

  /** A block holds a text and the zero byte that ends it. */
  predicate Holds(a: array<Byte>, text: seq<Byte>)
    reads a
  {
    NoZero(text) && |text| < a.Length && a[..|text|] == text && a[|text|] == 0
  }

  method Put(out: array<Byte>, at: nat, c: Byte) returns (next: nat)
    requires at < out.Length
    modifies out
    ensures next == at + 1 && out[..next] == old(out[..at]) + [c]
  {
    out[at] := c;
    next := at + 1;
  }

  method Copy(out: array<Byte>, at: nat, bytes: seq<Byte>) returns (next: nat)
    requires at + |bytes| <= out.Length
    modifies out
    ensures next == at + |bytes| && out[..next] == old(out[..at]) + bytes
  {
    ghost var front := out[..at];
    var i := 0;
    while i < |bytes|
      invariant i <= |bytes|
      invariant out[..at + i] == front + bytes[..i]
    {
      out[at + i] := bytes[i];
      i := i + 1;
    }
    next := at + |bytes|;
    assert bytes[..|bytes|] == bytes;
  }

  method CopyString(out: array<Byte>, at: nat, bytes: seq<Byte>) returns (next: nat)
    requires at + |bytes| < out.Length
    modifies out
    ensures next == at + |bytes| && out[..next] == old(out[..at]) + bytes && out[next] == 0
  {
    next := Copy(out, at, bytes);
    next := End(out, next);
  }

  /** Writes the zero byte, without stepping over it. */
  method End(out: array<Byte>, at: nat) returns (next: nat)
    requires at < out.Length
    modifies out
    ensures next == at && out[..at] == old(out[..at]) && out[at] == 0
  {
    out[at] := 0;
    next := at;
  }

  method PutTabs(out: array<Byte>, at: nat, n: int) returns (next: nat)
    requires at + |Tabs(n)| <= out.Length
    modifies out
    ensures next == at + |Tabs(n)| && out[..next] == old(out[..at]) + Tabs(n)
  {
    ghost var front := out[..at];
    TabsLength(n);
    var i := 0;
    next := at;
    assert front + Tabs(0) == front;
    while i < n
      invariant 0 <= i && (n >= 0 ==> i <= n) && (n < 0 ==> i == 0)
      invariant next == at + i && out[..next] == front + Tabs(i)
    {
      OneMoreTab(i);
      Regroup(front, Tabs(i), [TAB]);
      next := Put(out, next, TAB);
      i := i + 1;
    }
  }

  lemma {:induction false} TabsLength(n: int)
    ensures |Tabs(n)| == if n > 0 then n else 0
  {
    if n > 0 {
      TabsLength(n - 1);
    }
  }

  lemma {:induction false} OneMoreTab(n: nat)
    ensures Tabs(n + 1) == Tabs(n) + [TAB]
  {
    if n > 0 {
      OneMoreTab(n - 1);
    }
  }

  /** The string that a block holds, up to its zero byte. */
  method Contents(a: array<Byte>, ghost text: seq<Byte>) returns (s: seq<Byte>)
    requires Holds(a, text)
    ensures s == text
  {
    var n := StringLength(a, 0, text);
    s := a[..n];
  }

  method StringLength(a: array<Byte>, from: nat, ghost text: seq<Byte>) returns (n: nat)
    requires NoZero(text) && from + |text| < a.Length
    requires a[from..from + |text|] == text && a[from + |text|] == 0
    ensures n == |text|
  {
    assert forall j :: 0 <= j < |text| ==> text[j] == a[from + j];
    n := 0;
    while a[from + n] != 0
      invariant n <= |text|
      decreases |text| - n
    {
      n := n + 1;
    }
  }
}
