/** The printed text as a function of the tree, and the round trip: it is the text of a concrete
    tree that denotes what was printed, so parsing it gives the tree back. */
module PrinterSpec {
  import opened CText
  import opened JsonTree
  import opened Grammar
  import Literal
  import Numerals

  // ----- strings

  function HexDigit(v: nat): byte
    requires v < 16
  {
    if v < 10 then ZERO + v else 87 + v
  }

  /** The element a byte of a string is printed as. */
  function QuoteElem(b: byte): Literal.Elem {
    if b > 31 && b != QUOTE && b != BACKSLASH then Literal.Raw(b)
    else if b == BACKSLASH then Literal.Esc(BACKSLASH)
    else if b == QUOTE then Literal.Esc(QUOTE)
    else if b == 8 then Literal.Esc(LOWER_B)
    else if b == 12 then Literal.Esc(LOWER_F)
    else if b == LF then Literal.Esc(LOWER_N)
    else if b == CR then Literal.Esc(LOWER_R)
    else if b == TAB then Literal.Esc(LOWER_T)
    else Literal.Uni(ZERO, ZERO, HexDigit(b / 16), HexDigit(b % 16))
  }

  function QuoteElems(s: seq<byte>): seq<Literal.Elem> {
    if s == [] then [] else [QuoteElem(s[0])] + QuoteElems(s[1..])
  }

  function Quoted(s: seq<byte>): seq<byte> { Literal.RenderLiteral(QuoteElems(s)) }

  /** Reading a quoted string gives the string back. */
  lemma {:induction false} QuoteRoundTrip(s: seq<byte>)
    requires NUL !in s
    ensures Literal.WellFormedAll(QuoteElems(s)) && Literal.Denote(QuoteElems(s)) == s
  {
    if s != [] {
      QuoteRoundTrip(s[1..]);
      var es := QuoteElems(s);
      assert es[1..] == QuoteElems(s[1..]);
      assert es[0] == QuoteElem(s[0]);
      assert Literal.WellFormed(es[0]) by { ControlEscape(s[0]); }
      assert Literal.Taken(es) == 1 && Literal.First(es) == [s[0]] by { ControlEscape(s[0]); }
    }
  }

  lemma ControlEscape(b: byte)
    requires b != NUL
    ensures Literal.WellFormed(QuoteElem(b))
    ensures match QuoteElem(b)
            case Raw(c) => c == b
            case Esc(c) => Literal.Unescape(c) == b
            case Uni(_, _, _, _) => b < 32 && Literal.Unit(QuoteElem(b)) == b
  {
  }

  // ----- numbers

  const DBL_EPSILON: real := 1.0 / 4503599627370496.0

  function Abs(d: real): real { if d >= 0.0 then d else -d }

  /** Whether a number goes by its `valueint`, which is meant to be `d` truncated. */
  predicate GoesByInt(d: real, valueint: int) {
    Abs(valueint as real - d) <= DBL_EPSILON && INT_MIN as real <= d <= INT_MAX as real
  }

  predicate PrintsAsInt(d: real) { GoesByInt(d, Trunc(d)) }

  /** A `valueint` that makes no difference to what is printed: the truncated number, or any where the
      number is zero or neither of the two is close to it. */
  predicate Harmless(d: real, valueint: int) {
    valueint == Trunc(d) || d == 0.0 || (!GoesByInt(d, valueint) && !PrintsAsInt(d))
  }

  /** The numerals the C library writes for numbers that are not printed as integers. */
  ghost predicate GoodFormat(libc: real -> Numerals.Numeral) {
    forall d :: Numerals.WellFormed(libc(d)) && |Numerals.Render(libc(d))| < 64
  }

  /** What is printed for a number, whatever its `valueint`. */
  function NumeralFor(d: real, valueint: int, libc: real -> Numerals.Numeral): Numerals.Numeral {
    if d == 0.0 then Numerals.IntNumeral(0)
    else if GoesByInt(d, valueint) then Numerals.IntNumeral(valueint)
    else libc(d)
  }

  function NumeralOf(d: real, libc: real -> Numerals.Numeral): Numerals.Numeral { NumeralFor(d, Trunc(d), libc) }

  /** It is exactly the `valueint` that makes none, however the C library formats numbers. */
  lemma HarmlessPrints(d: real, valueint: int)
    ensures Harmless(d, valueint)
       <==> forall libc: real -> Numerals.Numeral :: NumeralFor(d, valueint, libc) == NumeralOf(d, libc)
  {
    var zeros: real -> Numerals.Numeral := x => Numerals.IntNumeral(0);
    var ones: real -> Numerals.Numeral := x => Numerals.IntNumeral(1);
    Numerals.IntNumeralIsExact(0);
    Numerals.IntNumeralIsExact(1);
    Numerals.IntNumeralIsExact(valueint);
    Numerals.IntNumeralIsExact(Trunc(d));
    hide Numerals.IntNumeral, Numerals.Value;
    if !Harmless(d, valueint) {
      assert NumeralFor(d, valueint, zeros) != NumeralOf(d, zeros) || NumeralFor(d, valueint, ones) != NumeralOf(d, ones);
    }
  }

  /** 3000000000 stored through a 32-bit assignment leaves -1294967296 in `valueint`. */
  lemma BeyondInt()
    ensures Harmless(3000000000.0, -1294967296) && !FitsInt(3000000000.0) && Trunc(3000000000.0) != -1294967296
  {
  }

  lemma NumeralIsGood(d: real, libc: real -> Numerals.Numeral)
    requires GoodFormat(libc)
    ensures Numerals.WellFormed(NumeralOf(d, libc))
  {
    Numerals.IntNumeralIsExact(0);
    Numerals.IntNumeralIsExact(Trunc(d));
  }

  // ----- the text

  function Tabs(n: int): seq<byte> {
    if n <= 0 then [] else [TAB] + Tabs(n - 1)
  }

  function When(fmt: bool, s: seq<byte>): seq<byte> { if fmt then s else [] }

  /** What `print_value` writes at a depth. */
  function Print(j: Json, depth: nat, fmt: bool, libc: real -> Numerals.Numeral): seq<byte>
    decreases j, 0
  {
    match j
    case Null => NULL_TEXT
    case False => FALSE_TEXT
    case True => TRUE_TEXT
    case Num(d) => Numerals.Render(NumeralOf(d, libc))
    case Str(s) => Quoted(s)
    case Nest(List, ms) =>
      if ms == [] then [LBRACKET, RBRACKET] else [LBRACKET] + ItemsText(ms, depth, fmt, libc)
    case Nest(Object, ms) =>
      if ms == [] then [LBRACE] + (When(fmt, [LF] + Tabs(depth - 1)) + [RBRACE])
      else [LBRACE] + (When(fmt, [LF]) + MembersText(ms, depth + 1, fmt, libc))
  }

  /** The items left to print, with the closing bracket. */
  function ItemsText(ms: seq<Member>, depth: nat, fmt: bool, libc: real -> Numerals.Numeral): seq<byte>
    requires ms != []
    decreases ms, 0
  {
    assert ms[0].value < ms[0];
    Print(ms[0].value, depth + 1, fmt, libc)
    + if |ms| == 1 then [RBRACKET]
      else [COMMA] + (When(fmt, [SPACE]) + ItemsText(ms[1..], depth, fmt, libc))
  }

  function KeyText(m: Member): seq<byte> { if m.name.Name? then m.name.s else [] }

  /** The members left to print, with the closing brace; `depth` is already theirs. */
  function MembersText(ms: seq<Member>, depth: nat, fmt: bool, libc: real -> Numerals.Numeral): seq<byte>
    decreases ms, 0
  {
    if ms == [] then When(fmt, Tabs(depth - 1)) + [RBRACE]
    else
      MemberText(ms[0], depth, fmt, libc)
      + ((if |ms| == 1 then [] else [COMMA])
         + (When(fmt, [LF]) + MembersText(ms[1..], depth, fmt, libc)))
  }

  function MemberText(m: Member, depth: nat, fmt: bool, libc: real -> Numerals.Numeral): seq<byte>
    decreases m, 1
  {
    When(fmt, Tabs(depth)) + (Quoted(KeyText(m)) + ([COLON] + (When(fmt, [TAB]) + Print(m.value, depth, fmt, libc))))
  }

  // ----- trees a text can stand for

  /** Children of objects have names, and no string that is printed holds a NUL. */
  predicate Printable(j: Json)
    decreases j, 0
  {
    match j
    case Str(s) => NUL !in s
    case Nest(kind, ms) => PrintableAll(kind, ms)
    case _ => true
  }

  predicate PrintableAll(kind: Kind, ms: seq<Member>)
    decreases ms, 0
  {
    ms != [] ==>
      assert ms[0].value < ms[0];
      && (kind == Object ==> ms[0].name.Name? && NUL !in ms[0].name.s)
      && Printable(ms[0].value) && PrintableAll(kind, ms[1..])
  }

  /** What can be seen of a tree in its text: the children of a list may have names, as a member has
      that was detached and appended, but they are not printed. */
  function Unnamed(j: Json): Json
    decreases j, 0
  {
    match j
    case Nest(kind, ms) => Nest(kind, UnnamedAll(kind, ms))
    case _ => j
  }

  function UnnamedAll(kind: Kind, ms: seq<Member>): seq<Member>
    decreases ms, 0
  {
    if ms == [] then []
    else
      assert ms[0].value < ms[0];
      [Member(if kind == List then NoName else ms[0].name, Unnamed(ms[0].value))] + UnnamedAll(kind, ms[1..])
  }

  /** No child of a list has a name. */
  predicate ListsUnnamed(j: Json)
    decreases j, 0
  {
    j.Nest? ==> ListsUnnamedAll(j.kind, j.members)
  }

  predicate ListsUnnamedAll(kind: Kind, ms: seq<Member>)
    decreases ms, 0
  {
    ms != [] ==>
      assert ms[0].value < ms[0];
      (kind == List ==> ms[0].name.NoName?) && ListsUnnamed(ms[0].value) && ListsUnnamedAll(kind, ms[1..])
  }

  /** The tree with every number replaced by the value of the numeral it prints as. */
  function Rounded(j: Json, libc: real -> Numerals.Numeral): Json
    requires GoodFormat(libc)
    decreases j, 0
  {
    match j
    case Num(d) =>
      NumeralIsGood(d, libc);
      Num(Numerals.Value(NumeralOf(d, libc)))
    case Nest(kind, ms) => Nest(kind, RoundedAll(ms, libc))
    case _ => j
  }

  function RoundedAll(ms: seq<Member>, libc: real -> Numerals.Numeral): seq<Member>
    requires GoodFormat(libc)
    decreases ms, 0
  {
    if ms == [] then []
    else
      assert ms[0].value < ms[0];
      [Member(ms[0].name, Rounded(ms[0].value, libc))] + RoundedAll(ms[1..], libc)
  }

  /** Every number is an integer that an `int` can hold. */
  predicate IntNumbers(j: Json)
    decreases j, 0
  {
    match j
    case Num(d) => d == d.Floor as real && INT_MIN <= d.Floor <= INT_MAX
    case Nest(_, ms) => IntNumbersAll(ms)
    case _ => true
  }

  predicate IntNumbersAll(ms: seq<Member>)
    decreases ms, 0
  {
    ms != [] ==>
      assert ms[0].value < ms[0];
      IntNumbers(ms[0].value) && IntNumbersAll(ms[1..])
  }

  lemma {:induction false} UnnamedInts(j: Json)
    requires IntNumbers(j)
    ensures IntNumbers(Unnamed(j))
    decreases j, 0
  {
    if j.Nest? { UnnamedIntsAll(j.kind, j.members); }
  }

  lemma {:induction false} UnnamedIntsAll(kind: Kind, ms: seq<Member>)
    requires IntNumbersAll(ms)
    ensures IntNumbersAll(UnnamedAll(kind, ms))
    decreases ms, 0
  {
    if ms != [] {
      assert ms[0].value < ms[0];
      UnnamedInts(ms[0].value);
      UnnamedIntsAll(kind, ms[1..]);
      assert UnnamedAll(kind, ms)[1..] == UnnamedAll(kind, ms[1..]);
    }
  }

  lemma {:induction false} IntNumbersStay(j: Json, libc: real -> Numerals.Numeral)
    requires GoodFormat(libc) && IntNumbers(j)
    ensures Rounded(j, libc) == j
    decreases j, 0
  {
    match j
    case Num(d) => IntPrintsExactly(d, libc);
    case Nest(_, ms) => IntNumbersStayAll(ms, libc);
    case _ =>
  }

  lemma IntPrintsExactly(d: real, libc: real -> Numerals.Numeral)
    requires GoodFormat(libc) && IntNumbers(Num(d))
    ensures NumeralOf(d, libc) == Numerals.IntNumeral(d.Floor)
    ensures Numerals.Value(NumeralOf(d, libc)) == d
  {
    hide Numerals.Value;
    assert Trunc(d) == d.Floor;
    Numerals.IntNumeralIsExact(d.Floor);
  }

  lemma {:induction false} IntNumbersStayAll(ms: seq<Member>, libc: real -> Numerals.Numeral)
    requires GoodFormat(libc) && IntNumbersAll(ms)
    ensures RoundedAll(ms, libc) == ms
    decreases ms, 0
  {
    if ms != [] {
      assert ms[0].value < ms[0];
      IntNumbersStay(ms[0].value, libc);
      IntNumbersStayAll(ms[1..], libc);
    }
  }

  // ----- the concrete tree that is printed

  function Pretty(j: Json, depth: nat, fmt: bool, libc: real -> Numerals.Numeral): Cst
    decreases j, 0
  {
    match j
    case Null => CNull
    case False => CFalse
    case True => CTrue
    case Num(d) => CNumber(NumeralOf(d, libc))
    case Str(s) => CString(QuoteElems(s))
    case Nest(kind, ms) =>
      CNest(kind, if kind == Object && ms == [] then Blanked(When(fmt, [LF] + Tabs(depth - 1))) else [],
            PrettyAll(kind, ms, true, depth, fmt, libc))
  }

  function PrettyAll(kind: Kind, ms: seq<Member>, first: bool, depth: nat, fmt: bool,
                     libc: real -> Numerals.Numeral): seq<Entry>
    decreases ms, 0
  {
    if ms == [] then []
    else [PrettyEntry(kind, ms[0], first, |ms| == 1, depth, fmt, libc)]
         + PrettyAll(kind, ms[1..], false, depth, fmt, libc)
  }

  function PrettyEntry(kind: Kind, m: Member, first: bool, last: bool, depth: nat, fmt: bool,
                       libc: real -> Numerals.Numeral): Entry
    decreases m, 1
  {
    if kind == List then
      Entry(Blanked(When(fmt && !first, [SPACE])), NoKey, Pretty(m.value, depth + 1, fmt, libc), [])
    else
      Entry(Blanked(When(fmt, [LF] + Tabs(depth + 1))),
            Key(QuoteElems(KeyText(m)), [], Blanked(When(fmt, [TAB]))),
            Pretty(m.value, depth + 1, fmt, libc),
            Blanked(When(fmt && last, [LF] + Tabs(depth))))
  }

  lemma TabsAreTabs(n: int)
    ensures forall k :: 0 <= k < |Tabs(n)| ==> Tabs(n)[k] == TAB
  {
  }

  /** The printed blanks, rendered. */
  lemma BlankSlots(depth: int)
    ensures RenderSlot(Blanked([])) == [] && RenderSlot(Blanked([SPACE])) == [SPACE] && RenderSlot(Blanked([TAB])) == [TAB]
    ensures RenderSlot(Blanked([LF] + Tabs(depth))) == [LF] + Tabs(depth)
    ensures Plain(Blanked([])) && Plain(Blanked([SPACE])) && Plain(Blanked([TAB])) && Plain(Blanked([LF] + Tabs(depth)))
    ensures Clean(Blanked([])) && Clean(Blanked([SPACE])) && Clean(Blanked([TAB])) && Clean(Blanked([LF] + Tabs(depth)))
  {
    TabsAreTabs(depth);
    BlankedText([SPACE]);
    BlankedText([TAB]);
    BlankedText([LF] + Tabs(depth));
  }

  // ----- its text is what is printed

  lemma TailIsEntries(kind: Kind, es: seq<Entry>)
    ensures RenderTail(kind, es) == if es == [] then [Close(kind)] else [COMMA] + RenderEntries(kind, es)
  {
  }

  /** What stands between an opening bracket or comma and the next child. */
  function Lead(kind: Kind, first: bool, fmt: bool): seq<byte> {
    if kind == List then When(fmt && !first, [SPACE]) else When(fmt, [LF])
  }

  function Children(kind: Kind, ms: seq<Member>, depth: nat, fmt: bool, libc: real -> Numerals.Numeral): seq<byte>
    requires ms != []
  {
    if kind == List then ItemsText(ms, depth, fmt, libc) else MembersText(ms, depth + 1, fmt, libc)
  }

  lemma {:induction false} PrettyText(j: Json, depth: nat, fmt: bool, libc: real -> Numerals.Numeral)
    ensures Render(Pretty(j, depth, fmt, libc)) == Print(j, depth, fmt, libc)
    decreases j, 0
  {
    hide Literal.RenderLiteral, Numerals.Render, NumeralOf, QuoteElems;
    match j
    case Nest(kind, ms) =>
      BlankSlots(depth - 1);
      var c := Pretty(j, depth, fmt, libc);
      assert Render(c) == [Open(kind)] + (RenderSlot(c.open) + RenderEntries(kind, c.entries));
      if ms == [] {
        assert c.entries == [];
        assert RenderEntries(kind, c.entries) == [Close(kind)];
        if kind == List { assert [Open(kind)] + ([] + [Close(kind)]) == [LBRACKET, RBRACKET]; }
      } else {
        PrettyAllText(kind, ms, true, depth, fmt, libc);
        assert [] + RenderEntries(kind, c.entries) == RenderEntries(kind, c.entries);
        if kind == List { assert Lead(kind, true, fmt) + ItemsText(ms, depth, fmt, libc) == ItemsText(ms, depth, fmt, libc); }
      }
    case _ =>
  }

  lemma {:induction false} PrettyAllText(kind: Kind, ms: seq<Member>, first: bool, depth: nat, fmt: bool,
                                         libc: real -> Numerals.Numeral)
    requires ms != []
    ensures RenderEntries(kind, PrettyAll(kind, ms, first, depth, fmt, libc))
         == Lead(kind, first, fmt) + Children(kind, ms, depth, fmt, libc)
    decreases ms, 0
  {
    hide Render, Print, Pretty, PrettyEntry, RenderEntry, RenderSlot;
    var es := PrettyAll(kind, ms, first, depth, fmt, libc);
    var rest := PrettyAll(kind, ms[1..], false, depth, fmt, libc);
    assert es[1..] == rest && es[0] == PrettyEntry(kind, ms[0], first, |ms| == 1, depth, fmt, libc);
    assert ms[0].value < ms[0];
    PrettyText(ms[0].value, depth + 1, fmt, libc);
    EntryText(kind, ms[0], first, |ms| == 1, depth, fmt, libc);
    TailIsEntries(kind, rest);
    if |ms| > 1 {
      PrettyAllText(kind, ms[1..], false, depth, fmt, libc);
    } else {
      assert ms[1..] == [] && rest == [];
    }
    Regroup(kind, ms, first, depth, fmt, libc);
  }

  /** The text of one child with the blanks around it. */
  function Child(kind: Kind, m: Member, first: bool, last: bool, depth: nat, fmt: bool,
                 libc: real -> Numerals.Numeral): seq<byte>
  {
    if kind == List then Lead(List, first, fmt) + Print(m.value, depth + 1, fmt, libc)
    else Lead(Object, first, fmt) + (MemberText(m, depth + 1, fmt, libc) + When(fmt && last, [LF] + Tabs(depth)))
  }

  lemma EntryText(kind: Kind, m: Member, first: bool, last: bool, depth: nat, fmt: bool, libc: real -> Numerals.Numeral)
    requires Render(Pretty(m.value, depth + 1, fmt, libc)) == Print(m.value, depth + 1, fmt, libc)
    ensures RenderEntry(PrettyEntry(kind, m, first, last, depth, fmt, libc)) == Child(kind, m, first, last, depth, fmt, libc)
  {
    hide Render, Print, Pretty, Literal.RenderLiteral, QuoteElems;
    BlankSlots(depth + 1);
    BlankSlots(depth);
    var value := Print(m.value, depth + 1, fmt, libc);
    var name := Quoted(KeyText(m));
    if kind == List {
      assert [] + (value + []) == value;
    } else {
      var e := PrettyEntry(kind, m, first, last, depth, fmt, libc);
      var lead, tabs, tab := When(fmt, [LF]), When(fmt, Tabs(depth + 1)), When(fmt, [TAB]);
      var close := When(fmt && last, [LF] + Tabs(depth));
      assert RenderSlot(e.before) == lead + tabs;
      assert RenderKey(e.key) == name + ([] + ([COLON] + tab));
      assert RenderSlot(e.after) == close;
      assert MemberText(m, depth + 1, fmt, libc) == tabs + (name + ([COLON] + (tab + value)));
      Reassociate(lead, tabs, name, [COLON], tab, value, close);
    }
  }

  lemma Reassociate(a: seq<byte>, b: seq<byte>, c: seq<byte>, d: seq<byte>, e: seq<byte>, f: seq<byte>, g: seq<byte>)
    ensures (a + b) + ((c + ([] + (d + e))) + (f + g)) == a + ((b + (c + (d + (e + f)))) + g)
  {
  }

  lemma Regroup(kind: Kind, ms: seq<Member>, first: bool, depth: nat, fmt: bool, libc: real -> Numerals.Numeral)
    requires ms != []
    ensures Lead(kind, first, fmt) + Children(kind, ms, depth, fmt, libc)
         == Child(kind, ms[0], first, |ms| == 1, depth, fmt, libc)
            + (if |ms| == 1 then [Close(kind)]
               else [COMMA] + (Lead(kind, false, fmt) + Children(kind, ms[1..], depth, fmt, libc)))
  {
    hide Print, MemberText;
    var lead := Lead(kind, first, fmt);
    if kind == List {
      var value := Print(ms[0].value, depth + 1, fmt, libc);
      var rest := if |ms| == 1 then [RBRACKET]
                  else [COMMA] + (When(fmt, [SPACE]) + ItemsText(ms[1..], depth, fmt, libc));
      assert ItemsText(ms, depth, fmt, libc) == value + rest;
      assert lead + (value + rest) == (lead + value) + rest;
    } else {
      var member := MemberText(ms[0], depth + 1, fmt, libc);
      var newline := When(fmt, [LF]);
      var rest := MembersText(ms[1..], depth + 1, fmt, libc);
      if |ms| == 1 {
        var tabs := When(fmt, Tabs(depth));
        assert rest == tabs + [RBRACE];
        assert When(fmt, [LF] + Tabs(depth)) == newline + tabs;
        assert lead + (member + ([] + (newline + (tabs + [RBRACE]))))
            == (lead + (member + (newline + tabs))) + [RBRACE];
      } else {
        assert lead + (member + ([COMMA] + (newline + rest)))
            == (lead + (member + [])) + ([COMMA] + (newline + rest));
      }
    }
  }
}
