/** `print_string_ptr` without its allocation: the scan for characters that need escaping, the
    length computed beforehand, and the two ways of writing, which produce the same text. Writing
    takes the end of the block that was asked for and stays below it. */
module StringPrinter {
  import opened CText
  import Literal
  import PrinterSpec

  /** Copies bytes to `a` from index `at`, like `strcpy`, `memcpy` or a row of single assignments. */
  method Put(a: array<byte>, at: nat, w: seq<byte>, ghost limit: nat)
    requires at + |w| <= limit <= a.Length
    modifies a
    ensures a[..at] == old(a[..at]) && a[at..at + |w|] == w && a[limit..] == old(a[limit..])
  {
    for k := 0 to |w|
      invariant a[..at] == old(a[..at]) && a[limit..] == old(a[limit..])
      invariant forall j :: 0 <= j < k ==> a[at + j] == w[j]
    {
      a[at + k] := w[k];
    }
  }

  predicate Special(b: byte) { b < 32 || b == QUOTE || b == BACKSLASH }

  /** What stands between the quotes. */
  function Body(s: seq<byte>): seq<byte> { Literal.Render(PrinterSpec.QuoteElems(s)) }

  lemma BodyStep(s: seq<byte>)
    requires s != []
    ensures Body(s) == Literal.RenderElem(PrinterSpec.QuoteElem(s[0])) + Body(s[1..])
  {
    var es := PrinterSpec.QuoteElems(s);
    assert es[0] == PrinterSpec.QuoteElem(s[0]) && es[1..] == PrinterSpec.QuoteElems(s[1..]);
  }

  /** The fast path agrees with the escaping path. */
  lemma {:induction false} PlainBody(s: seq<byte>)
    requires forall k :: 0 <= k < |s| ==> !Special(s[k])
    ensures Body(s) == s && PrinterSpec.Quoted(s) == [QUOTE] + (s + [QUOTE])
  {
    if s != [] {
      BodyStep(s);
      PlainBody(s[1..]);
      assert s == [s[0]] + s[1..];
    }
  }

  method NeedsEscape(s: seq<byte>) returns (flag: bool)
    ensures flag == exists k :: 0 <= k < |s| && Special(s[k])
  {
    flag := false;
    for k := 0 to |s|
      invariant flag == exists j :: 0 <= j < k && Special(s[j])
    {
      flag := flag || Special(s[k]);
    }
  }

  /** The length that is asked for, less three. */
  method EscapedLength(s: seq<byte>) returns (len: nat)
    ensures len == |Body(s)|
  {
    len := 0;
    var ptr := 0;
    while ptr < |s|
      invariant ptr <= |s| && len + |Body(s[ptr..])| == |Body(s)|
    {
      BodyStep(s[ptr..]);
      var token := s[ptr];
      len := len + 1;
      if token in {QUOTE, BACKSLASH, 8, 12, LF, CR, TAB} {
        len := len + 1;
      } else if token < 32 {
        len := len + 5;
      }
      ptr := ptr + 1;
    }
  }

  /** One character of the string, escaped if it has to be. */
  method PutToken(a: array<byte>, at: nat, token: byte, ghost limit: nat) returns (next: nat)
    requires at + |Literal.RenderElem(PrinterSpec.QuoteElem(token))| < limit <= a.Length
    modifies a
    ensures next == at + |Literal.RenderElem(PrinterSpec.QuoteElem(token))|
    ensures a[..at] == old(a[..at]) && a[limit..] == old(a[limit..])
    ensures a[at..next] == Literal.RenderElem(PrinterSpec.QuoteElem(token))
  {
    if token > 31 && token != QUOTE && token != BACKSLASH {
      a[at] := token;
      return at + 1;
    }
    if token == BACKSLASH {
      Put(a, at, [BACKSLASH, BACKSLASH], limit);
    } else if token == QUOTE {
      Put(a, at, [BACKSLASH, QUOTE], limit);
    } else if token == 8 {
      Put(a, at, [BACKSLASH, LOWER_B], limit);
    } else if token == 12 {
      Put(a, at, [BACKSLASH, LOWER_F], limit);
    } else if token == LF {
      Put(a, at, [BACKSLASH, LOWER_N], limit);
    } else if token == CR {
      Put(a, at, [BACKSLASH, LOWER_R], limit);
    } else if token == TAB {
      Put(a, at, [BACKSLASH, LOWER_T], limit);
    } else {
      // `sprintf` also leaves a NUL, which what follows overwrites
      Put(a, at, [BACKSLASH, LOWER_U, ZERO, ZERO, PrinterSpec.HexDigit(token / 16), PrinterSpec.HexDigit(token % 16), NUL],
          limit);
      return at + 6;
    }
    next := at + 2;
  }

  /** Writes the quoted string and its NUL; `len` is the length of what stands between the quotes. */
  method WriteQuoted(a: array<byte>, at: nat, s: seq<byte>, flag: bool, len: nat, ghost limit: nat)
    requires flag || forall k :: 0 <= k < |s| ==> !Special(s[k])
    requires len == |Body(s)| && at + len + 3 <= limit <= a.Length
    modifies a
    ensures a[..at] == old(a[..at]) && a[limit..] == old(a[limit..])
    ensures |PrinterSpec.Quoted(s)| == len + 2
    ensures a[at..at + len + 2] == PrinterSpec.Quoted(s) && a[at + len + 2] == NUL
  {
    hide PrinterSpec.QuoteElem, PrinterSpec.QuoteElems, Literal.Render, Literal.RenderElem;
    var text := PrinterSpec.Quoted(s);
    assert text == [QUOTE] + (Body(s) + [QUOTE]);
    if !flag {
      PlainBody(s);
      Put(a, at, text + [NUL], limit);
      Split(a[at..at + len + 3], text, NUL);
      assert a[at..at + len + 3][..len + 2] == a[at..at + len + 2];
      return;
    }
    a[at] := QUOTE;
    var ptr, ptr2 := 0, at + 1;
    assert a[at..ptr2] == [QUOTE];
    while ptr < |s|
      invariant ptr <= |s| && at < ptr2 <= limit
      invariant ptr2 + |Body(s[ptr..])| == at + 1 + len
      invariant a[..at] == old(a[..at]) && a[limit..] == old(a[limit..])
      invariant a[at..ptr2] + (Body(s[ptr..]) + [QUOTE]) == text
    {
      BodyStep(s[ptr..]);
      ghost var before, rest := a[at..ptr2], Body(s[ptr + 1..]);
      ghost var start, prefix := ptr2, a[..ptr2];
      ptr2 := PutToken(a, ptr2, s[ptr], limit);
      assert a[..start] == prefix;
      assert a[at..start] == before;
      assert a[at..ptr2] == before + a[start..ptr2];
      assert before + ((a[start..ptr2] + rest) + [QUOTE]) == (before + a[start..ptr2]) + (rest + [QUOTE]);
      ptr := ptr + 1;
    }
    assert s[ptr..] == [] && Body([]) == [] by { EmptyBody(); }
    assert a[at..ptr2] + [QUOTE] == text by { assert Body(s[ptr..]) + [QUOTE] == [QUOTE]; }
    a[ptr2] := QUOTE;
    a[ptr2 + 1] := NUL;
    assert a[at..ptr2 + 1] == text;
  }

  lemma Split(w: seq<byte>, init: seq<byte>, last: byte)
    requires w == init + [last]
    ensures w[..|init|] == init && w[|init|] == last
  {
  }

  lemma EmptyBody()
    ensures Body([]) == []
  {
  }
}
