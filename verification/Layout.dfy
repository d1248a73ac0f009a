/** What printed text looks like, in bytes: the escapes of a string, the digits of an integer, and the
    lines and tabs of formatted lists and objects. */
module Layout {
  import opened CText
  import opened JsonTree
  import opened PrinterSpec
  import Literal
  import Numerals

  // ----- strings

  const HEX: string := "0123456789abcdef"

  /** How a byte stands in a printed string (section 7 of RFC 8259). */
  function Escaped(b: byte): seq<byte> {
    if b == '"' as int then [0x5C, 0x22]
    else if b == '\\' as int then [0x5C, 0x5C]
    else if b == 0x08 then [0x5C, 'b' as int]
    else if b == 0x0C then [0x5C, 'f' as int]
    else if b == 0x0A then [0x5C, 'n' as int]
    else if b == 0x0D then [0x5C, 'r' as int]
    else if b == 0x09 then [0x5C, 't' as int]
    else if b < 0x20 then [0x5C, 'u' as int, '0' as int, '0' as int, HEX[b / 16] as int, HEX[b % 16] as int]
    else [b]
  }

  function AllEscaped(s: seq<byte>): seq<byte> { if s == [] then [] else Escaped(s[0]) + AllEscaped(s[1..]) }

  lemma ByteIsEscaped(b: byte)
    ensures Literal.RenderElem(QuoteElem(b)) == Escaped(b)
  {
    if b < 0x20 { HexDigits(b / 16); HexDigits(b % 16); }
  }

  lemma HexDigits(v: nat)
    requires v < 16
    ensures HexDigit(v) == HEX[v] as int
  {
  }

  lemma {:induction false} BodyIsEscaped(s: seq<byte>)
    ensures Literal.Render(QuoteElems(s)) == AllEscaped(s)
  {
    hide Escaped, QuoteElem, Literal.RenderElem;
    if s != [] {
      ByteIsEscaped(s[0]);
      BodyIsEscaped(s[1..]);
    }
  }

  /** A string is printed as its bytes, escaped, between two quotes. */
  lemma StringLayout(s: seq<byte>)
    ensures Quoted(s) == [0x22] + AllEscaped(s) + [0x22]
  {
    BodyIsEscaped(s);
  }

  // ----- numbers

  /** The decimal digits of an integer: no leading zero, and a minus sign in front of negative ones. */
  lemma IntegerLayout(k: int)
    ensures var w := Numerals.Render(Numerals.IntNumeral(k));
            var digits := if k < 0 then w[1..] else w;
            && (k < 0 ==> w[0] == '-' as int)
            && digits != [] && Numerals.AllDigits(digits) && Numerals.DigitsValue(digits) == (if k < 0 then 0 - k else k)
            && (digits[0] == '0' as int ==> k == 0 && |digits| == 1)
  {
    SignAndDigits(k);
    var n := if k < 0 then 0 - k else k;
    Numerals.DecimalValue(n);
    assert n == 0 ==> Numerals.Decimal(n) == [ZERO];
    hide Numerals.Render, Numerals.IntNumeral, Numerals.DigitsValue, Numerals.Decimal;
    var d := Numerals.Decimal(n);
    assert ([MINUS] + d)[1..] == d && [] + d == d;
  }

  lemma SignAndDigits(k: int)
    ensures Numerals.Render(Numerals.IntNumeral(k))
         == (if k < 0 then [MINUS] else []) + Numerals.Decimal(if k < 0 then 0 - k else k)
  {
    var d := Numerals.Decimal(if k < 0 then 0 - k else k);
    hide Numerals.Decimal;
    assert d + ([] + []) == d;
  }

  /** A number at most 2^-52 beyond an integer that an `int` holds, on the side away from zero, is
      printed as that integer, and any other as the C library has it. */
  lemma NumberLayout(d: real, k: int, libc: real -> Numerals.Numeral)
    requires if d >= 0.0 then k as real <= d < k as real + 1.0 else k as real - 1.0 < d <= k as real
    ensures Print(Num(d), 0, false, libc)
         == Numerals.Render(if -2147483648.0 <= d <= 2147483647.0 && (d - k as real) * 4503599627370496.0 <= 1.0
                               && (k as real - d) * 4503599627370496.0 <= 1.0
                            then Numerals.IntNumeral(k) else libc(d))
  {
    assert Trunc(d) == k;
    NearInteger(d, k);
    if d == 0.0 { assert k == 0; }
    hide Numerals.Render, Numerals.IntNumeral, GoesByInt, Trunc;
  }

  lemma NearInteger(d: real, k: int)
    ensures GoesByInt(d, k)
       <==> && -2147483648.0 <= d <= 2147483647.0 && (d - k as real) * 4503599627370496.0 <= 1.0
            && (k as real - d) * 4503599627370496.0 <= 1.0
  {
    Scaled(d - k as real);
    Scaled(k as real - d);
  }

  lemma Scaled(x: real)
    ensures x <= DBL_EPSILON <==> x * 4503599627370496.0 <= 1.0
  {
  }

  // ----- lists and objects

  function Tabbed(n: int): seq<byte> { seq(if n < 0 then 0 else n, _ => 0x09) }

  lemma {:induction false} TabsAre(n: int)
    ensures Tabs(n) == Tabbed(n)
    decreases if n < 0 then 0 else n
  {
    if n > 0 { TabsAre(n - 1); }
  }

  function JoinedBy(sep: seq<byte>, pieces: seq<seq<byte>>): seq<byte> {
    if pieces == [] then [] else if |pieces| == 1 then pieces[0] else pieces[0] + (sep + JoinedBy(sep, pieces[1..]))
  }

  function Values(ms: seq<Member>, depth: nat, fmt: bool, libc: real -> Numerals.Numeral): seq<seq<byte>> {
    if ms == [] then [] else [Print(ms[0].value, depth, fmt, libc)] + Values(ms[1..], depth, fmt, libc)
  }

  /** Each member on a line of its own: tabs, the key, a colon, a tab and the value. */
  function Lines(ms: seq<Member>, depth: nat, libc: real -> Numerals.Numeral): seq<seq<byte>> {
    if ms == [] then []
    else [Tabbed(depth) + Quoted(KeyText(ms[0])) + [0x3A, 0x09] + Print(ms[0].value, depth, true, libc)]
         + Lines(ms[1..], depth, libc)
  }

  function Pairs(ms: seq<Member>, depth: nat, libc: real -> Numerals.Numeral): seq<seq<byte>> {
    if ms == [] then []
    else [Quoted(KeyText(ms[0])) + [0x3A] + Print(ms[0].value, depth, false, libc)] + Pairs(ms[1..], depth, libc)
  }

  /** Words. */
  lemma WordLayout(depth: nat, fmt: bool, libc: real -> Numerals.Numeral)
    ensures Print(Null, depth, fmt, libc) == ['n' as int, 'u' as int, 'l' as int, 'l' as int]
    ensures Print(False, depth, fmt, libc) == ['f' as int, 'a' as int, 'l' as int, 's' as int, 'e' as int]
    ensures Print(True, depth, fmt, libc) == ['t' as int, 'r' as int, 'u' as int, 'e' as int]
  {
  }

  /** Lists stand on one line; formatted, with a space after each comma. */
  lemma ListLayout(ms: seq<Member>, depth: nat, fmt: bool, libc: real -> Numerals.Numeral)
    ensures Print(Nest(List, ms), depth, fmt, libc)
         == [0x5B] + JoinedBy(if fmt then [0x2C, 0x20] else [0x2C], Values(ms, depth + 1, fmt, libc)) + [0x5D]
  {
    if ms != [] { ItemsLayout(ms, depth, fmt, libc); }
  }

  lemma {:induction false} ItemsLayout(ms: seq<Member>, depth: nat, fmt: bool, libc: real -> Numerals.Numeral)
    requires ms != []
    ensures ItemsText(ms, depth, fmt, libc)
         == JoinedBy(if fmt then [0x2C, 0x20] else [0x2C], Values(ms, depth + 1, fmt, libc)) + [0x5D]
    decreases |ms|
  {
    hide Print;
    var vs := Values(ms, depth + 1, fmt, libc);
    assert vs[1..] == Values(ms[1..], depth + 1, fmt, libc);
    if |ms| > 1 {
      ItemsLayout(ms[1..], depth, fmt, libc);
      assert [COMMA] + [SPACE] == [0x2C, 0x20];
    } else {
      assert ms[1..] == [];
    }
  }

  /** Formatted objects have a line for each member, indented by one tab more than the closing brace;
      unformatted there is nothing between the members but commas. */
  lemma ObjectLayout(ms: seq<Member>, depth: nat, libc: real -> Numerals.Numeral)
    requires ms != []
    ensures Print(Nest(Object, ms), depth, true, libc)
         == [0x7B, 0x0A] + JoinedBy([0x2C, 0x0A], Lines(ms, depth + 1, libc)) + [0x0A] + Tabbed(depth) + [0x7D]
    ensures Print(Nest(Object, ms), depth, false, libc)
         == [0x7B] + JoinedBy([0x2C], Pairs(ms, depth + 1, libc)) + [0x7D]
  {
    LinesLayout(ms, depth + 1, libc);
    PairsLayout(ms, depth + 1, libc);
    Unfolded(ms, depth, libc);
    hide Print, MembersText, JoinedBy, Lines, Pairs, Tabbed;
    Opened(MembersText(ms, depth + 1, true, libc), JoinedBy([0x2C, 0x0A], Lines(ms, depth + 1, libc)), Tabbed(depth));
  }

  lemma Unfolded(ms: seq<Member>, depth: nat, libc: real -> Numerals.Numeral)
    requires ms != []
    ensures Print(Nest(Object, ms), depth, true, libc) == [0x7B] + ([0x0A] + MembersText(ms, depth + 1, true, libc))
    ensures Print(Nest(Object, ms), depth, false, libc) == [0x7B] + MembersText(ms, depth + 1, false, libc)
  {
    hide MembersText;
  }

  lemma Opened(text: seq<byte>, lines: seq<byte>, tabs: seq<byte>)
    requires text == lines + [0x0A] + tabs + [0x7D]
    ensures [0x7B] + ([0x0A] + text) == [0x7B, 0x0A] + lines + [0x0A] + tabs + [0x7D]
  {
  }

  /** An empty object has a line break in it when formatted, and the closing brace stands one tab
      further to the left than that of any other. */
  lemma EmptyObjectLayout(depth: nat, libc: real -> Numerals.Numeral)
    ensures Print(Nest(Object, []), depth, true, libc) == [0x7B, 0x0A] + Tabbed(depth - 1) + [0x7D]
    ensures Print(Nest(Object, []), depth, false, libc) == [0x7B, 0x7D]
  {
    TabsAre(depth - 1);
  }

  lemma {:induction false} LinesLayout(ms: seq<Member>, depth: nat, libc: real -> Numerals.Numeral)
    requires ms != [] && depth > 0
    ensures MembersText(ms, depth, true, libc)
         == JoinedBy([0x2C, 0x0A], Lines(ms, depth, libc)) + [0x0A] + Tabbed(depth - 1) + [0x7D]
    decreases |ms|
  {
    hide Print, Quoted, KeyText;
    TabsAre(depth);
    TabsAre(depth - 1);
    var ls := Lines(ms, depth, libc);
    assert ls[1..] == Lines(ms[1..], depth, libc);
    LineLayout(ms[0], depth, libc);
    if |ms| > 1 {
      LinesLayout(ms[1..], depth, libc);
      assert [COMMA] + [LF] == [0x2C, 0x0A];
    } else {
      assert ms[1..] == [];
    }
  }

  lemma LineLayout(m: Member, depth: nat, libc: real -> Numerals.Numeral)
    ensures MemberText(m, depth, true, libc)
         == Tabbed(depth) + Quoted(KeyText(m)) + [0x3A, 0x09] + Print(m.value, depth, true, libc)
  {
    hide Print, Quoted, KeyText;
    TabsAre(depth);
    assert [COLON] + [TAB] == [0x3A, 0x09];
  }

  lemma {:induction false} PairsLayout(ms: seq<Member>, depth: nat, libc: real -> Numerals.Numeral)
    requires ms != []
    ensures MembersText(ms, depth, false, libc) == JoinedBy([0x2C], Pairs(ms, depth, libc)) + [0x7D]
    decreases |ms|
  {
    hide Print, Quoted, KeyText;
    var ps := Pairs(ms, depth, libc);
    assert ps[1..] == Pairs(ms[1..], depth, libc);
    PairLayout(ms[0], depth, libc);
    if |ms| > 1 { PairsLayout(ms[1..], depth, libc); } else { assert ms[1..] == []; }
  }

  lemma PairLayout(m: Member, depth: nat, libc: real -> Numerals.Numeral)
    ensures MemberText(m, depth, false, libc) == Quoted(KeyText(m)) + [0x3A] + Print(m.value, depth, false, libc)
  {
    hide Print, Quoted, KeyText;
  }
}
