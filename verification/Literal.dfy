/** JSON string literals: their elements, the bytes they denote, and how a scanner splits a text
    into them. This is the reference that the C string parser and printer are measured against. */
module Literal {
  import opened CText
  import opened Utf8

  /** A plain byte, a backslash pair, or `\u` with four hexadecimal digits. */
  datatype Elem =
    | Raw(b: byte)
    | Esc(b: byte)
    | Uni(h1: byte, h2: byte, h3: byte, h4: byte)

  /** The value of a hexadecimal digit, -1 for any other byte. */
  function HexVal(b: byte): (v: int)
    ensures -1 <= v < 16
  {
    if '0' as int <= b <= '9' as int then b - '0' as int
    else if 'A' as int <= b <= 'F' as int then b - 'A' as int + 10
    else if 'a' as int <= b <= 'f' as int then b - 'a' as int + 10
    else -1
  }

  predicate IsHex(b: byte) { HexVal(b) >= 0 }

  predicate WellFormed(e: Elem) {
    match e
    case Raw(b) => b != NUL && b != QUOTE && b != BACKSLASH
    case Esc(b) => b != NUL && b != LOWER_U
    case Uni(h1, h2, h3, h4) => IsHex(h1) && IsHex(h2) && IsHex(h3) && IsHex(h4)
  }

  predicate WellFormedAll(es: seq<Elem>) {
    forall k :: 0 <= k < |es| ==> WellFormed(es[k])
  }

  function RenderElem(e: Elem): (r: seq<byte>)
    ensures 1 <= |r| <= 6
  {
    match e
    case Raw(b) => [b]
    case Esc(b) => [BACKSLASH, b]
    case Uni(h1, h2, h3, h4) => [BACKSLASH, LOWER_U, h1, h2, h3, h4]
  }

  function Render(es: seq<Elem>): seq<byte> {
    if es == [] then [] else RenderElem(es[0]) + Render(es[1..])
  }

  /** A whole literal, with its quotes. */
  function RenderLiteral(es: seq<Elem>): seq<byte> {
    [QUOTE] + (Render(es) + [QUOTE])
  }

  function Unescape(b: byte): byte {
    if b == LOWER_B then 8
    else if b == LOWER_F then 12
    else if b == LOWER_N then LF
    else if b == LOWER_R then CR
    else if b == LOWER_T then TAB
    else b
  }

  /** The UTF-16 code unit written by an element of four digits. */
  function Unit(e: Elem): (u: nat)
    requires e.Uni? && WellFormed(e)
    ensures u < 0x1_0000
  {
    HexVal(e.h1) * 0x1000 + HexVal(e.h2) * 0x100 + HexVal(e.h3) * 0x10 + HexVal(e.h4)
  }

  predicate IsHigh(u: nat) { 0xD800 <= u <= 0xDBFF }
  predicate IsLow(u: nat) { 0xDC00 <= u <= 0xDFFF }

  /** The scalar value of a surrogate pair (section 2.2 of RFC 2781). */
  function Pair(hi: nat, lo: nat): (cp: nat)
    requires IsHigh(hi) && IsLow(lo)
    ensures 0x1_0000 <= cp < 0x11_0000
  {
    0x1_0000 + (hi - 0xD800) * 0x400 + (lo - 0xDC00)
  }

  /** How many elements the first decoding step takes: two for a high surrogate followed by
      another `\u` element, whatever that one holds. */
  function Taken(es: seq<Elem>): (n: nat)
    requires es != [] && WellFormedAll(es)
    ensures 1 <= n <= 2 && n <= |es|
  {
    if es[0].Uni? && IsHigh(Unit(es[0])) && |es| > 1 && es[1].Uni? then 2 else 1
  }

  /** What the first decoding step contributes. NUL and unpaired surrogates contribute nothing. */
  function First(es: seq<Elem>): (r: seq<byte>)
    requires es != [] && WellFormedAll(es)
    ensures |r| <= 4
  {
    match es[0]
    case Raw(b) => [b]
    case Esc(b) => [Unescape(b)]
    case Uni(_, _, _, _) =>
      var u := Unit(es[0]);
      if u == 0 || IsLow(u) then []
      else if IsHigh(u) then
        if Taken(es) == 2 && IsLow(Unit(es[1])) then Encode(Pair(u, Unit(es[1]))) else []
      else Encode(u)
  }

  /** The bytes a literal stands for. */
  function Denote(es: seq<Elem>): seq<byte>
    requires WellFormedAll(es)
    decreases |es|
  {
    if es == [] then [] else First(es) + Denote(es[Taken(es)..])
  }

  // ----- the meaning of escapes, written out

  /** Hexadecimal digits, of either case and nothing else. */
  lemma HexLaw(v: nat)
    requires v < 16
    ensures HexVal("0123456789abcdef"[v] as int) == v && HexVal("0123456789ABCDEF"[v] as int) == v
    ensures forall b: byte :: IsHex(b) <==> 48 <= b <= 57 || 65 <= b <= 70 || 97 <= b <= 102
  {
  }

  /** Section 7 of RFC 8259: five letters stand for control characters, and a quote, a backslash and a
      slash for themselves, as here does every other byte but `u`. */
  lemma EscapeLaw(b: byte)
    requires b != NUL && b != 'u' as int
    ensures Denote([Esc(b)]) ==
            [if b == 'b' as int then 0x08 else if b == 'f' as int then 0x0C else if b == 'n' as int then 0x0A
             else if b == 'r' as int then 0x0D else if b == 't' as int then 0x09 else b]
  {
    assert [Esc(b)][1..] == [];
  }

  /** Four digits write a code unit in base sixteen. */
  lemma UnitLaw(u: nat, h1: byte, h2: byte, h3: byte, h4: byte)
    requires u < 0x1_0000
    requires HexVal(h1) == u / 0x1000 && HexVal(h2) == u / 0x100 % 0x10
    requires HexVal(h3) == u / 0x10 % 0x10 && HexVal(h4) == u % 0x10
    ensures WellFormed(Uni(h1, h2, h3, h4)) && Unit(Uni(h1, h2, h3, h4)) == u
  {
    hide HexVal;
    BaseSixteen(u);
  }

  lemma BaseSixteen(u: nat)
    ensures u == u / 0x1000 * 0x1000 + u / 0x100 % 0x10 * 0x100 + u / 0x10 % 0x10 * 0x10 + u % 0x10
  {
    Sixteenth(u, 0x10);
    Sixteenth(u, 0x100);
  }

  lemma Sixteenth(u: nat, n: nat)
    requires n == 0x10 || n == 0x100
    ensures u / (n * 0x10) == u / n / 0x10
  {
  }

  /** A code unit that is a scalar value by itself stands for its encoding; zero stands for nothing. */
  lemma UnitDenotes(e: Elem)
    requires e.Uni? && WellFormed(e) && (Unit(e) < 0xD800 || 0xE000 <= Unit(e))
    ensures Denote([e]) == if Unit(e) == 0 then [] else Encode(Unit(e))
  {
    assert [e][1..] == [];
  }

  /** Section 2.2 of RFC 2781: a value beyond 0xFFFF, less 0x10000, gives its upper ten bits to the first
      surrogate and its lower ten to the second; and two such units stand for it. */
  lemma PairLaw(cp: nat, a: Elem, b: Elem)
    requires 0x1_0000 <= cp < 0x11_0000 && a.Uni? && b.Uni? && WellFormed(a) && WellFormed(b)
    requires Unit(a) == 0xD800 + (cp - 0x1_0000) / 0x400 && Unit(b) == 0xDC00 + (cp - 0x1_0000) % 0x400
    ensures IsHigh(Unit(a)) && IsLow(Unit(b)) && Pair(Unit(a), Unit(b)) == cp && Denote([a, b]) == Encode(cp)
  {
    hide Unit;
    assert [a, b][2..] == [];
  }

  /** A surrogate alone stands for nothing, and a first one swallows any code unit but a second one. */
  lemma LoneSurrogates(a: Elem, b: Elem)
    requires a.Uni? && b.Uni? && WellFormed(a) && WellFormed(b) && 0xD800 <= Unit(a) <= 0xDFFF
    ensures Denote([a]) == []
    ensures Unit(a) <= 0xDBFF && !(0xDC00 <= Unit(b) <= 0xDFFF) ==> Denote([a, b]) == []
  {
    hide Unit;
    assert [a][1..] == [] && [a, b][2..] == [];
  }

  /** Longer literals are read from the left: two code units at a time where the first is a first
      surrogate, and otherwise one element, and a byte stands for itself. */
  lemma ReadFromTheLeft(es: seq<Elem>)
    requires WellFormedAll(es) && es != []
    ensures var n := if es[0].Uni? && 0xD800 <= Unit(es[0]) <= 0xDBFF && |es| > 1 && es[1].Uni? then 2 else 1;
            Denote(es) == Denote(es[..n]) + Denote(es[n..])
    ensures es[0].Raw? ==> Denote(es[..1]) == [es[0].b]
    ensures Denote([]) == []
  {
    FirstAlone(es);
    DenoteFirst(es);
    DenoteOnly(es[..Taken(es)]);
    if es[0].Raw? { RawAlone(es); }
    hide Denote, First;
  }

  lemma DenoteFirst(es: seq<Elem>)
    requires WellFormedAll(es) && es != []
    ensures Denote(es) == First(es) + Denote(es[Taken(es)..]) && Denote([]) == []
  {
    hide First, Taken;
  }

  lemma DenoteOnly(es: seq<Elem>)
    requires WellFormedAll(es) && es != [] && Taken(es) == |es|
    ensures Denote(es) == First(es)
  {
    hide First, Taken;
    assert es[|es|..] == [];
  }

  lemma FirstAlone(es: seq<Elem>)
    requires WellFormedAll(es) && es != []
    ensures First(es[..Taken(es)]) == First(es) && Taken(es[..Taken(es)]) == Taken(es)
  {
    hide Unit, Unescape, Encode, Pair;
  }

  lemma RawAlone(es: seq<Elem>)
    requires es != [] && es[0].Raw? && WellFormedAll(es)
    ensures Taken(es) == 1 && First(es) == [es[0].b]
  {
  }

  /** `\ud83d\ude00` is U+1F600. */
  lemma Grinning()
    ensures Denote([Uni(100, 56, 51, 100), Uni(100, 101, 48, 48)]) == [0xF0, 0x9F, 0x98, 0x80]
  {
    var a, b := Uni(100, 56, 51, 100), Uni(100, 101, 48, 48);
    assert Unit(a) == 0xD83D && Unit(b) == 0xDE00;
    PairLaw(0x1F600, a, b);
  }

  /** What the length-measuring pass charges: one per iteration. */
  function Measure(es: seq<Elem>): nat {
    if es == [] then 0 else (if es[0].Uni? then 5 else 1) + Measure(es[1..])
  }

  lemma {:induction false} DenoteFits(es: seq<Elem>)
    requires WellFormedAll(es)
    ensures |Denote(es)| <= Measure(es)
    decreases |es|
  {
    if es != [] {
      DenoteFits(es[Taken(es)..]);
      if Taken(es) == 2 {
        assert es[1..][1..] == es[2..];
        assert Measure(es) == 5 + Measure(es[1..]) == 10 + Measure(es[2..]);
      }
    }
  }

  lemma EncodeHasNoNul(cp: nat)
    requires 0 < cp < 0x11_0000
    ensures NUL !in Encode(cp)
  {
  }

  lemma {:induction false} DenoteHasNoNul(es: seq<Elem>)
    requires WellFormedAll(es)
    ensures NUL !in Denote(es)
    decreases |es|
  {
    if es != [] {
      DenoteHasNoNul(es[Taken(es)..]);
      assert NUL !in First(es) by {
        if es[0].Uni? {
          var u := Unit(es[0]);
          if IsHigh(u) && Taken(es) == 2 && IsLow(Unit(es[1])) {
            EncodeHasNoNul(Pair(u, Unit(es[1])));
          } else if u != 0 && !IsHigh(u) && !IsLow(u) {
            EncodeHasNoNul(u);
          }
        }
      }
    }
  }

  /** A scan ends at the closing quote or at the terminator of the text; `BadEscape` marks a
      backslash that starts no complete escape, which the parser is not written for. */
  datatype Scan = Scanned(es: seq<Elem>, end: nat) | BadEscape

  predicate FourHex(t: seq<byte>, i: nat) {
    i + 4 <= |t| && IsHex(t[i]) && IsHex(t[i + 1]) && IsHex(t[i + 2]) && IsHex(t[i + 3])
  }

  function Push(e: Elem, s: Scan): Scan {
    match s
    case Scanned(es, end) => Scanned([e] + es, end)
    case BadEscape => BadEscape
  }

  /** Splits the text from `i` on into elements. */
  function Lex(t: seq<byte>, i: nat): (s: Scan)
    requires i <= |t|
    ensures s.Scanned? ==> i <= s.end <= |t|
    ensures s.Scanned? ==> Peek(t, s.end) == NUL || Peek(t, s.end) == QUOTE
    ensures s.Scanned? ==> WellFormedAll(s.es)
    decreases |t| - i
  {
    var c := Peek(t, i);
    if c == NUL || c == QUOTE then Scanned([], i)
    else if c != BACKSLASH then Push(Raw(c), Lex(t, i + 1))
    else
      var d := Peek(t, i + 1);
      if d == NUL then BadEscape
      else if d != LOWER_U then Push(Esc(d), Lex(t, i + 2))
      else if FourHex(t, i + 2) then Push(Uni(t[i + 2], t[i + 3], t[i + 4], t[i + 5]), Lex(t, i + 6))
      else BadEscape
  }

  lemma LexStep(t: seq<byte>, i: nat)
    requires i <= |t| && Lex(t, i).Scanned? && Lex(t, i).es != []
    ensures var s := Lex(t, i);
            var n := |RenderElem(s.es[0])|;
            && i + n <= |t| && t[i..i + n] == RenderElem(s.es[0])
            && Lex(t, i + n) == Scanned(s.es[1..], s.end)
  {
    var s := Lex(t, i);
    match s.es[0]
    case Raw(b) => assert s == Push(Raw(b), Lex(t, i + 1));
    case Esc(b) => assert s == Push(Esc(b), Lex(t, i + 2));
    case Uni(h1, h2, h3, h4) =>
      assert s == Push(Uni(h1, h2, h3, h4), Lex(t, i + 6));
      assert t[i..i + 6] == [t[i], t[i + 1], t[i + 2], t[i + 3], t[i + 4], t[i + 5]];
  }

  /** Scanning finds elements that spell exactly the text it consumed. */
  lemma LexNothing(t: seq<byte>, i: nat)
    requires i <= |t| && Lex(t, i).Scanned?
    ensures Lex(t, i).es == [] ==> Lex(t, i).end == i
  {
  }

  lemma {:induction false} LexSound(t: seq<byte>, i: nat)
    requires i <= |t| && Lex(t, i).Scanned?
    ensures t[i..Lex(t, i).end] == Render(Lex(t, i).es)
    decreases |t| - i
  {
    var s := Lex(t, i);
    LexNothing(t, i);
    if s.es != [] {
      hide Lex, RenderElem;
      LexStep(t, i);
      var n := |RenderElem(s.es[0])|;
      LexSound(t, i + n);
      Glued(t, i, i + n, s.end);
    }
  }

  lemma Glued(t: seq<byte>, i: nat, k: nat, e: nat)
    requires i <= k <= e <= |t|
    ensures t[i..e] == t[i..k] + t[k..e]
  {
  }

  /** The text of a literal body is scanned back into exactly its elements. */
  lemma {:induction false} LexRender(t: seq<byte>, i: nat, es: seq<Elem>)
    requires WellFormedAll(es)
    requires At(t, i, Render(es))
    requires Peek(t, i + |Render(es)|) == QUOTE || Peek(t, i + |Render(es)|) == NUL
    ensures Lex(t, i) == Scanned(es, i + |Render(es)|)
    decreases |es|
  {
    hide Lex, RenderElem, WellFormed, At, Peek;
    if es == [] {
      LexQuote(t, i);
    } else {
      var r := RenderElem(es[0]);
      AtSplit(t, i, r, Render(es[1..]));
      LexElem(t, i, es[0]);
      LexRender(t, i + |r|, es[1..]);
      HeadAndTail(es);
    }
  }

  lemma LexQuote(t: seq<byte>, i: nat)
    requires At(t, i, []) && (Peek(t, i) == QUOTE || Peek(t, i) == NUL)
    ensures Lex(t, i) == Scanned([], i)
  {
  }

  lemma HeadAndTail(es: seq<Elem>)
    requires es != []
    ensures [es[0]] + es[1..] == es
  {
  }

  /** The scanner takes one element. */
  lemma LexElem(t: seq<byte>, i: nat, e: Elem)
    requires WellFormed(e) && At(t, i, RenderElem(e))
    ensures Lex(t, i) == Push(e, Lex(t, i + |RenderElem(e)|))
  {
    var r := RenderElem(e);
    assert t[i + 0] == r[0];
    match e
    case Raw(_) =>
    case Esc(_) => assert t[i + 1] == r[1];
    case Uni(_, _, _, _) =>
      assert t[i + 1] == r[1] && t[i + 2] == r[2] && t[i + 3] == r[3] && t[i + 4] == r[4] && t[i + 5] == r[5];
  }

  // ----- UTF-8 passes through

  lemma EncodeRuns(cp: nat)
    requires IsScalar(cp)
    ensures Run(Start, Encode(cp)) == Start
  {
    DecodeEncode(cp);
    RunChar(Encode(cp));
  }

  lemma RunAscii(q: State, s: seq<byte>)
    requires s != [] && (forall k :: 0 <= k < |s| ==> s[k] <= 0x7F)
    ensures Run(q, s) == (if q == Start then Start else Error)
    decreases |s|
  {
    var q1 := Step(q, s[0]);
    assert s[0] <= 0x7F;
    if |s| > 1 {
      RunAscii(q1, s[1..]);
    }
  }

  /** A decoding step moves the recogniser exactly as the text it came from does, unless that
      text is already wrong. */
  lemma FirstRuns(q: State, es: seq<Elem>)
    requires es != [] && WellFormedAll(es)
    requires Run(q, Render(es[..Taken(es)])) != Error
    ensures Run(q, First(es)) == Run(q, Render(es[..Taken(es)]))
  {
    var text := Render(es[..Taken(es)]);
    TakenText(es);
    match es[0]
    case Raw(b) =>
    case Esc(b) =>
      RunShort(q, text);
      RunShort(q, [Unescape(b)]);
    case Uni(_, _, _, _) =>
      hide Run, Encode, Render, First, Unit, IsHigh;
      AsciiText(es);
      RunAscii(q, text);
      UniRuns(es);
  }

  lemma AsciiText(es: seq<Elem>)
    requires es != [] && WellFormedAll(es) && es[0].Uni?
    ensures var r := RenderElem(es[0]) + if Taken(es) == 1 then [] else RenderElem(es[1]);
            r != [] && forall k :: 0 <= k < |r| ==> r[k] <= 0x7F
  {
    hide Unit, IsHigh;
  }

  lemma UniRuns(es: seq<Elem>)
    requires es != [] && WellFormedAll(es) && es[0].Uni?
    ensures Run(Start, First(es)) == Start
  {
    hide Run, Encode;
    RunNothing(Start);
    var u := Unit(es[0]);
    if IsHigh(u) && Taken(es) == 2 && IsLow(Unit(es[1])) {
      EncodeRuns(Pair(u, Unit(es[1])));
    } else if u != 0 && !IsHigh(u) && !IsLow(u) {
      EncodeRuns(u);
    }
  }

  lemma RunNothing(q: State)
    ensures Run(q, []) == q
  {
  }

  lemma TakenText(es: seq<Elem>)
    requires es != [] && WellFormedAll(es)
    ensures Render(es[..Taken(es)]) == RenderElem(es[0]) + if Taken(es) == 1 then [] else RenderElem(es[1])
  {
    hide RenderElem;
    if Taken(es) == 1 {
      assert es[..1][1..] == [];
    } else {
      assert es[..2][1..] == [es[1]];
      assert Render([es[1]]) == RenderElem(es[1]);
    }
  }

  lemma {:induction false} RenderSplit(a: seq<Elem>, b: seq<Elem>)
    ensures Render(a + b) == Render(a) + Render(b)
    decreases |a|
  {
    if a == [] {
      assert a + b == b;
    } else {
      assert (a + b)[1..] == a[1..] + b;
      RenderSplit(a[1..], b);
    }
  }

  lemma {:induction false} DenoteRuns(q: State, es: seq<Elem>)
    requires WellFormedAll(es) && Run(q, Render(es)) == Start
    ensures Run(q, Denote(es)) == Start
    decreases |es|
  {
    if es != [] {
      var n := Taken(es);
      assert es == es[..n] + es[n..];
      RenderSplit(es[..n], es[n..]);
      RunSplit(q, Render(es[..n]), Render(es[n..]));
      RunError(Render(es[n..]));
      FirstRuns(q, es);
      DenoteRuns(Run(q, First(es)), es[n..]);
      RunSplit(q, First(es), Denote(es[n..]));
    }
  }

  /** If the body of a literal is valid UTF-8 as written, so is the string it denotes. */
  lemma DenoteIsUtf8(es: seq<Elem>)
    requires WellFormedAll(es) && ValidUtf8(Render(es))
    ensures ValidUtf8(Denote(es))
  {
    RunIsValid(Render(es));
    DenoteRuns(Start, es);
    RunIsValid(Denote(es));
  }
}
