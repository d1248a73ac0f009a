/** Facts about printed texts: they hold no NUL, their lengths, and how what is left of a container
    shrinks child by child. */
module PrintedText {
  import opened CText
  import opened JsonTree
  import opened PrinterSpec
  import Literal
  import Numerals

  lemma {:induction false} RenderHasNoNul(es: seq<Literal.Elem>)
    requires forall k :: 0 <= k < |es| ==> NUL !in Literal.RenderElem(es[k])
    ensures NUL !in Literal.Render(es)
  {
    if es != [] { RenderHasNoNul(es[1..]); }
  }

  lemma {:induction false} ElemsOf(s: seq<byte>)
    ensures |QuoteElems(s)| == |s|
    ensures forall k :: 0 <= k < |s| ==> QuoteElems(s)[k] == QuoteElem(s[k])
  {
    if s != [] { ElemsOf(s[1..]); }
  }

  lemma QuotedHasNoNul(s: seq<byte>)
    ensures NUL !in Quoted(s)
  {
    ElemsOf(s);
    RenderHasNoNul(QuoteElems(s));
  }

  lemma DigitsHaveNoNul(s: seq<byte>)
    requires Numerals.AllDigits(s)
    ensures NUL !in s
  {
  }

  lemma FracHasNoNul(n: Numerals.Numeral)
    requires Numerals.AllDigits(n.frac)
    ensures NUL !in Numerals.RenderFrac(n)
  {
    DigitsHaveNoNul(n.frac);
  }

  lemma ExponentHasNoNul(n: Numerals.Numeral)
    requires Numerals.WellFormed(n)
    ensures NUL !in Numerals.RenderExponent(n)
  {
    if n.exponent.Exponent? { DigitsHaveNoNul(n.exponent.digits); }
  }

  lemma NumberHasNoNul(n: Numerals.Numeral)
    requires Numerals.WellFormed(n)
    ensures NUL !in Numerals.Render(n)
  {
    DigitsHaveNoNul(n.whole);
    FracHasNoNul(n);
    ExponentHasNoNul(n);
    hide Numerals.AllDigits, Numerals.WellFormed, Numerals.RenderFrac, Numerals.RenderExponent;
    assert NUL !in Numerals.RenderSign(n);
  }

  /** The sizes that `print_number` asks for are enough, whatever the `valueint`. */
  lemma NumberFits(d: real, valueint: int, libc: real -> Numerals.Numeral)
    requires GoodFormat(libc)
    ensures |Numerals.Render(NumeralFor(d, valueint, libc))|
          < if d == 0.0 then 2 else if GoesByInt(d, valueint) then 21 else 64
  {
    if d == 0.0 {
      Numerals.DecimalLength(0, 1);
    } else if GoesByInt(d, valueint) {
      assert Numerals.TenTo(5) == 100000 && Numerals.TenTo(10) == 10000000000;
      Numerals.DecimalLength(if valueint < 0 then -valueint else valueint, 10);
    }
  }

  lemma {:induction false} TabsLength(n: int)
    ensures |Tabs(n)| == if n < 0 then 0 else n
    decreases if n < 0 then 0 else n
  {
    if n > 0 { TabsLength(n - 1); }
  }

  lemma {:induction false} HasNoNul(j: Json, depth: nat, fmt: bool, libc: real -> Numerals.Numeral)
    requires GoodFormat(libc)
    ensures NUL !in Print(j, depth, fmt, libc)
    decreases j, 0
  {
    hide Numerals.Render, Quoted, Tabs;
    match j
    case Num(d) =>
      NumeralIsGood(d, libc);
      NumberHasNoNul(NumeralOf(d, libc));
    case Str(s) => QuotedHasNoNul(s);
    case Nest(kind, ms) =>
      TabsAreTabs(depth - 1);
      if ms != [] && kind == List { ItemsHaveNoNul(ms, depth, fmt, libc); }
      if ms != [] && kind == Object { MembersHaveNoNul(ms, depth + 1, fmt, libc); }
    case _ =>
  }

  lemma {:induction false} ItemsHaveNoNul(ms: seq<Member>, depth: nat, fmt: bool, libc: real -> Numerals.Numeral)
    requires GoodFormat(libc) && ms != []
    ensures NUL !in ItemsText(ms, depth, fmt, libc)
    decreases ms, 0
  {
    hide Print;
    assert ms[0].value < ms[0];
    HasNoNul(ms[0].value, depth + 1, fmt, libc);
    if |ms| > 1 { ItemsHaveNoNul(ms[1..], depth, fmt, libc); }
  }

  lemma {:induction false} MembersHaveNoNul(ms: seq<Member>, depth: nat, fmt: bool, libc: real -> Numerals.Numeral)
    requires GoodFormat(libc)
    ensures NUL !in MembersText(ms, depth, fmt, libc)
    decreases ms, 0
  {
    hide Print, Quoted, Tabs;
    TabsAreTabs(depth - 1);
    TabsAreTabs(depth);
    if ms != [] {
      assert ms[0].value < ms[0];
      HasNoNul(ms[0].value, depth, fmt, libc);
      QuotedHasNoNul(KeyText(ms[0]));
      MembersHaveNoNul(ms[1..], depth, fmt, libc);
    }
  }

  /** The items left to print, possibly none, with the closing bracket. */
  function ItemsLeft(ms: seq<Member>, depth: nat, fmt: bool, libc: real -> Numerals.Numeral): seq<byte> {
    if ms == [] then [RBRACKET] else ItemsText(ms, depth, fmt, libc)
  }

  lemma ItemsLeftAll(ms: seq<Member>, depth: nat, fmt: bool, libc: real -> Numerals.Numeral)
    requires ms != []
    ensures ItemsLeft(ms, depth, fmt, libc) == ItemsText(ms, depth, fmt, libc)
  {
  }

  lemma ItemsLeftEnd(depth: nat, fmt: bool, libc: real -> Numerals.Numeral)
    ensures ItemsLeft([], depth, fmt, libc) == [RBRACKET]
  {
  }

  /** What one item takes off what is left. */
  lemma ItemsLeftStep(ms: seq<Member>, k: nat, depth: nat, fmt: bool, libc: real -> Numerals.Numeral)
    requires k < |ms|
    ensures ItemsLeft(ms[k..], depth, fmt, libc)
         == Print(ms[k].value, depth + 1, fmt, libc)
            + ((if k + 1 < |ms| then [COMMA] + When(fmt, [SPACE]) else []) + ItemsLeft(ms[k + 1..], depth, fmt, libc))
  {
    hide Print, Printable;
    assert ms[k..][1..] == ms[k + 1..];
    if k + 1 < |ms| {
      var rest := ItemsText(ms[k + 1..], depth, fmt, libc);
      assert [COMMA] + (When(fmt, [SPACE]) + rest) == ([COMMA] + When(fmt, [SPACE])) + rest;
    } else {
      assert [] + [RBRACKET] == [RBRACKET];
    }
  }

  lemma MembersStep(ms: seq<Member>, k: nat, depth: nat, fmt: bool, libc: real -> Numerals.Numeral)
    requires k < |ms|
    ensures MembersText(ms[k..], depth, fmt, libc)
         == MemberText(ms[k], depth, fmt, libc)
            + (((if k + 1 < |ms| then [COMMA] else []) + When(fmt, [LF])) + MembersText(ms[k + 1..], depth, fmt, libc))
  {
    hide MemberText, Printable;
    assert ms[k..][1..] == ms[k + 1..];
    var comma: seq<byte> := if k + 1 < |ms| then [COMMA] else [];
    var rest := MembersText(ms[k + 1..], depth, fmt, libc);
    assert comma + (When(fmt, [LF]) + rest) == (comma + When(fmt, [LF])) + rest;
  }

  lemma MembersEnd(depth: nat, fmt: bool, libc: real -> Numerals.Numeral)
    ensures MembersText([], depth + 1, fmt, libc) == When(fmt, Tabs(depth)) + [RBRACE]
    ensures NUL !in When(fmt, Tabs(depth)) && |When(fmt, Tabs(depth))| == if fmt then depth else 0
  {
    TabsAreTabs(depth);
    TabsLength(depth);
  }

  lemma ZeroText()
    ensures Numerals.Render(Numerals.IntNumeral(0)) == [ZERO]
  {
  }

  lemma EmptyText(kind: Kind, depth: nat, fmt: bool, libc: real -> Numerals.Numeral)
    ensures Print(Nest(kind, []), depth, fmt, libc)
         == [Open(kind)] + (When(kind == Object && fmt, [LF] + Tabs(depth - 1)) + [Close(kind)])
  {
    assert [LBRACKET] + ([] + [RBRACKET]) == [LBRACKET, RBRACKET];
  }

  lemma NestText(ms: seq<Member>, depth: nat, fmt: bool, libc: real -> Numerals.Numeral)
    requires ms != []
    ensures Print(Nest(List, ms), depth, fmt, libc) == [LBRACKET] + ItemsText(ms, depth, fmt, libc)
    ensures Print(Nest(Object, ms), depth, fmt, libc) == [LBRACE] + (When(fmt, [LF]) + MembersText(ms, depth + 1, fmt, libc))
  {
  }

  lemma Three(t: seq<byte>, a: seq<byte>, b: seq<byte>, c: seq<byte>)
    ensures ((t + a) + b) + c == t + (a + (b + c)) && t + a + [] == t + a
    ensures |a + (b + c)| == |a| + |b| + |c|
  {
  }

  lemma Chain(t: seq<byte>, a: seq<byte>, b: seq<byte>, c: seq<byte>, d: seq<byte>, e: seq<byte>)
    ensures (((t + a) + b) + (c + d)) + e == t + (a + (b + (c + (d + e))))
    ensures |a + (b + (c + (d + e)))| == |a| + |b| + |c| + |d| + |e|
  {
  }
}
