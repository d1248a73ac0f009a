/** Printing and then parsing gives the tree back, formatted or not. */
module RoundTrip {
  import opened CText
  import opened JsonTree
  import opened Grammar
  import opened ParserSpec
  import opened PrinterSpec
  import Literal
  import Numerals

  /** Whatever the tree, what is printed is the text of a well-formed one. */
  lemma {:induction false} PrettyWellFormed(j: Json, depth: nat, fmt: bool, libc: real -> Numerals.Numeral)
    requires GoodFormat(libc)
    ensures WellFormed(Pretty(j, depth, fmt, libc))
    decreases j, 0
  {
    hide NumeralOf, Numerals.WellFormed;
    match j
    case Num(d) => NumeralIsGood(d, libc);
    case Str(s) => QuotedWellFormed(s);
    case Nest(kind, ms) => PrettyAllWellFormed(kind, ms, true, depth, fmt, libc);
    case _ =>
  }

  lemma {:induction false} PrettyAllWellFormed(kind: Kind, ms: seq<Member>, first: bool, depth: nat, fmt: bool,
                                               libc: real -> Numerals.Numeral)
    requires GoodFormat(libc)
    ensures WellFormedEntries(kind, PrettyAll(kind, ms, first, depth, fmt, libc))
    decreases ms, 0
  {
    hide Literal.WellFormedAll, QuoteElems;
    if ms != [] {
      assert ms[0].value < ms[0];
      PrettyWellFormed(ms[0].value, depth + 1, fmt, libc);
      PrettyAllWellFormed(kind, ms[1..], false, depth, fmt, libc);
      QuotedWellFormed(KeyText(ms[0]));
      var es := PrettyAll(kind, ms, first, depth, fmt, libc);
      assert es[1..] == PrettyAll(kind, ms[1..], false, depth, fmt, libc);
    }
  }

  lemma {:induction false} QuotedWellFormed(s: seq<byte>)
    ensures Literal.WellFormedAll(QuoteElems(s))
  {
    if s != [] {
      QuotedWellFormed(s[1..]);
      var es := QuoteElems(s);
      assert es[0] == QuoteElem(s[0]) && es[1..] == QuoteElems(s[1..]);
    }
  }

  /** And that tree denotes what was printed. */
  lemma {:induction false} PrettyMeaning(j: Json, depth: nat, fmt: bool, libc: real -> Numerals.Numeral)
    requires GoodFormat(libc) && Printable(j)
    ensures WellFormed(Pretty(j, depth, fmt, libc))
    ensures Denote(Pretty(j, depth, fmt, libc)) == Rounded(Unnamed(j), libc)
    decreases j, 0
  {
    hide NumeralOf, Numerals.Value, Numerals.WellFormed;
    PrettyWellFormed(j, depth, fmt, libc);
    match j
    case Str(s) => QuoteRoundTrip(s);
    case Nest(kind, ms) => PrettyAllMeaning(kind, ms, true, depth, fmt, libc);
    case _ =>
  }

  lemma {:induction false} PrettyAllMeaning(kind: Kind, ms: seq<Member>, first: bool, depth: nat, fmt: bool,
                                            libc: real -> Numerals.Numeral)
    requires GoodFormat(libc) && PrintableAll(kind, ms)
    ensures WellFormedEntries(kind, PrettyAll(kind, ms, first, depth, fmt, libc))
    ensures DenoteEntries(kind, PrettyAll(kind, ms, first, depth, fmt, libc)) == RoundedAll(UnnamedAll(kind, ms), libc)
    decreases ms, 0
  {
    hide Literal.Denote, Literal.WellFormedAll, QuoteElems;
    PrettyAllWellFormed(kind, ms, first, depth, fmt, libc);
    if ms != [] {
      assert ms[0].value < ms[0];
      PrettyMeaning(ms[0].value, depth + 1, fmt, libc);
      PrettyAllMeaning(kind, ms[1..], false, depth, fmt, libc);
      if kind == Object { QuoteRoundTrip(ms[0].name.s); }
      var es, us := PrettyAll(kind, ms, first, depth, fmt, libc), UnnamedAll(kind, ms);
      assert es[1..] == PrettyAll(kind, ms[1..], false, depth, fmt, libc) && us[1..] == UnnamedAll(kind, ms[1..]);
    }
  }

  lemma {:induction false} PrettySlots(j: Json, depth: nat, fmt: bool, libc: real -> Numerals.Numeral)
    ensures AllSlots(Pretty(j, depth, fmt, libc), Plain)
    ensures AllSlots(Pretty(j, depth, fmt, libc), Clean)
    decreases j, 0
  {
    hide NumeralOf, Blanked, Plain, Clean, Tabs;
    BlankSlots(depth - 1);
    assert Blanked(When(false, [LF] + Tabs(depth - 1))) == Blanked([]);
    if j.Nest? {
      EmptySlot();
      PrettyAllSlots(j.kind, j.members, true, depth, fmt, libc);
    }
  }

  lemma EmptySlot()
    ensures Plain([]) && Clean([])
  {
  }

  lemma {:induction false} PrettyAllSlots(kind: Kind, ms: seq<Member>, first: bool, depth: nat, fmt: bool,
                                          libc: real -> Numerals.Numeral)
    ensures AllEntrySlots(PrettyAll(kind, ms, first, depth, fmt, libc), Plain)
    ensures AllEntrySlots(PrettyAll(kind, ms, first, depth, fmt, libc), Clean)
    decreases ms, 0
  {
    hide NumeralOf, Blanked, Plain, Clean, Tabs;
    if ms != [] {
      BlankSlots(depth);
      BlankSlots(depth + 1);
      EmptySlot();
      assert ms[0].value < ms[0];
      PrettySlots(ms[0].value, depth + 1, fmt, libc);
      PrettyAllSlots(kind, ms[1..], false, depth, fmt, libc);
      var es := PrettyAll(kind, ms, first, depth, fmt, libc);
      assert es[1..] == PrettyAll(kind, ms[1..], false, depth, fmt, libc);
    }
  }

  /** Without its blanks, a formatted tree is the unformatted one. */
  lemma {:induction false} PrettyStrip(j: Json, depth: nat, depth': nat, fmt: bool, libc: real -> Numerals.Numeral)
    ensures Strip(Pretty(j, depth, fmt, libc)) == Pretty(j, depth', false, libc)
    decreases j, 0
  {
    hide NumeralOf, Tabs, QuoteElems;
    if j.Nest? {
      PrettyAllStrip(j.kind, j.members, true, depth, depth', fmt, libc);
    }
  }

  lemma {:induction false} PrettyAllStrip(kind: Kind, ms: seq<Member>, first: bool, depth: nat, depth': nat, fmt: bool,
                                          libc: real -> Numerals.Numeral)
    ensures StripEntries(PrettyAll(kind, ms, first, depth, fmt, libc))
         == PrettyAll(kind, ms, first, depth', false, libc)
    decreases ms, 0
  {
    hide NumeralOf, Tabs, QuoteElems;
    if ms != [] {
      assert ms[0].value < ms[0];
      PrettyStrip(ms[0].value, depth + 1, depth' + 1, fmt, libc);
      PrettyAllStrip(kind, ms[1..], false, depth, depth', fmt, libc);
      var es := PrettyAll(kind, ms, first, depth, fmt, libc);
      assert es[1..] == PrettyAll(kind, ms[1..], false, depth, fmt, libc);
    }
  }

  /** Anything may follow a printed text that does not carry a final number on. */
  predicate Follows(j: Json, rest: seq<byte>) {
    j.Num? && rest != [] ==> !Numerals.Continues(rest[0])
  }

  /** Parsing a printed text stops where the text does and gives the tree that was printed, each
      number read back from the numeral it was written as and no child of a list with a name. */
  lemma ParsePrint(j: Json, depth: nat, fmt: bool, libc: real -> Numerals.Numeral, rest: seq<byte>)
    requires GoodFormat(libc) && Printable(j) && Follows(j, rest)
    ensures ParseText(Print(j, depth, fmt, libc) + rest, false)
         == Parsed(Rounded(Unnamed(j), libc), |Print(j, depth, fmt, libc)|)
  {
    hide Render, Print, Pretty, Denote, Rounded, Unnamed, WellFormed, AllSlots, ParseValue;
    var c := Pretty(j, depth, fmt, libc);
    var t := Print(j, depth, fmt, libc) + rest;
    PrettyWellFormed(j, depth, fmt, libc);
    PrettyMeaning(j, depth, fmt, libc);
    PrettySlots(j, depth, fmt, libc);
    PrettyText(j, depth, fmt, libc);
    PrettyNumber(j, depth, fmt, libc);
    Leads(c);
    assert At(t, 0, Render(c)) && Peek(t, 0) == Render(c)[0];
    assert rest != [] ==> Peek(t, |Render(c)|) == rest[0];
    if c.CNumber? && c.n.exponent.Exponent? { Unbroken(c); }
    ParseRender(c, t, 0);
  }

  lemma Unbroken(c: Cst)
    requires WellFormed(c) && c.CNumber? && c.n.exponent.Exponent?
    ensures c.n.exponent.digits != []
  {
  }

  lemma PrettyNumber(j: Json, depth: nat, fmt: bool, libc: real -> Numerals.Numeral)
    ensures Pretty(j, depth, fmt, libc).CNumber? <==> j.Num?
  {
  }

  /** Every number is exactly the one its numeral denotes: the printer writes a number within
      `DBL_EPSILON` of an `int` as that `int`, and any other in a fixed number of digits. */
  ghost predicate ExactNumbers(j: Json, libc: real -> Numerals.Numeral)
    requires GoodFormat(libc)
    decreases j, 0
  {
    match j
    case Num(d) => if d == 0.0 || PrintsAsInt(d) then Trunc(d) as real == d else Numerals.Value(libc(d)) == d
    case Nest(_, ms) => ExactNumbersAll(ms, libc)
    case _ => true
  }

  ghost predicate ExactNumbersAll(ms: seq<Member>, libc: real -> Numerals.Numeral)
    requires GoodFormat(libc)
    decreases ms, 0
  {
    ms != [] ==>
      assert ms[0].value < ms[0];
      ExactNumbers(ms[0].value, libc) && ExactNumbersAll(ms[1..], libc)
  }

  lemma {:induction false} ExactMeansUnchanged(j: Json, libc: real -> Numerals.Numeral)
    requires GoodFormat(libc)
    ensures ExactNumbers(j, libc) && ListsUnnamed(j) <==> Rounded(Unnamed(j), libc) == j
    decreases j, 0
  {
    match j
    case Num(d) => NumberUnchanged(d, libc);
    case Nest(kind, ms) => ExactMeansUnchangedAll(kind, ms, libc);
    case _ =>
  }

  lemma NumberUnchanged(d: real, libc: real -> Numerals.Numeral)
    requires GoodFormat(libc)
    ensures Numerals.HasDigits(NumeralOf(d, libc))
    ensures Numerals.Value(NumeralOf(d, libc)) == d
       <==> if d == 0.0 || PrintsAsInt(d) then Trunc(d) as real == d else Numerals.Value(libc(d)) == d
  {
    hide Numerals.Value;
    NumeralIsGood(d, libc);
    Numerals.IntNumeralIsExact(0);
    Numerals.IntNumeralIsExact(Trunc(d));
  }

  lemma {:induction false} ExactMeansUnchangedAll(kind: Kind, ms: seq<Member>, libc: real -> Numerals.Numeral)
    requires GoodFormat(libc)
    ensures ExactNumbersAll(ms, libc) && ListsUnnamedAll(kind, ms) <==> RoundedAll(UnnamedAll(kind, ms), libc) == ms
    decreases ms, 0
  {
    hide Unnamed, Rounded, ExactNumbers, ListsUnnamed;
    if ms != [] {
      assert ms[0].value < ms[0];
      ExactMeansUnchanged(ms[0].value, libc);
      ExactMeansUnchangedAll(kind, ms[1..], libc);
      var u := UnnamedAll(kind, ms);
      var r := RoundedAll(u, libc);
      assert u[1..] == UnnamedAll(kind, ms[1..]);
      assert r[0] == Member(u[0].name, Rounded(u[0].value, libc)) && r[1..] == RoundedAll(u[1..], libc);
      assert ms == [ms[0]] + ms[1..] && r == [r[0]] + r[1..];
    }
  }

  /** The round trip is exact precisely when every number is and no child of a list has a name; all
      `int` values are exact. */
  lemma ExactRoundTrip(j: Json, depth: nat, fmt: bool, libc: real -> Numerals.Numeral, rest: seq<byte>)
    requires GoodFormat(libc) && Printable(j) && Follows(j, rest)
    ensures ParseText(Print(j, depth, fmt, libc) + rest, false) == Parsed(j, |Print(j, depth, fmt, libc)|)
       <==> ExactNumbers(j, libc) && ListsUnnamed(j)
    ensures IntNumbers(j) ==> ExactNumbers(j, libc)
  {
    hide ParseText, Print, ExactNumbers, ListsUnnamed, Unnamed, Rounded;
    ParsePrint(j, depth, fmt, libc, rest);
    ExactMeansUnchanged(j, libc);
    if IntNumbers(j) { IntsAreExact(j, libc); }
  }

  lemma {:induction false} IntsAreExact(j: Json, libc: real -> Numerals.Numeral)
    requires GoodFormat(libc) && IntNumbers(j)
    ensures ExactNumbers(j, libc)
    decreases j, 0
  {
    match j
    case Num(d) =>
      IntPrintsExactly(d, libc);
      NumberUnchanged(d, libc);
    case Nest(_, ms) => IntsAreExactAll(ms, libc);
    case _ =>
  }

  lemma {:induction false} IntsAreExactAll(ms: seq<Member>, libc: real -> Numerals.Numeral)
    requires GoodFormat(libc) && IntNumbersAll(ms)
    ensures ExactNumbersAll(ms, libc)
    decreases ms, 0
  {
    if ms != [] {
      assert ms[0].value < ms[0];
      IntsAreExact(ms[0].value, libc);
      IntsAreExactAll(ms[1..], libc);
    }
  }

  /** A list whose child has a name, `a`: it prints as `[null]`, and comes back without the name. */
  lemma ItemNameIsLost(libc: real -> Numerals.Numeral)
    requires GoodFormat(libc)
    ensures var j, back := Nest(List, [Member(Name([97]), Null)]), Nest(List, [Member(NoName, Null)]);
            && Printable(j) && ExactNumbers(j, libc)
            && Print(j, 0, false, libc) == [LBRACKET] + (NULL_TEXT + [RBRACKET])
            && ParseText(Print(j, 0, false, libc), false) == Parsed(back, |Print(j, 0, false, libc)|)
  {
    var j := Nest(List, [Member(Name([97]), Null)]);
    var back := [Member(NoName, Null)];
    assert j.members[1..] == [] && back[1..] == [];
    assert Unnamed(j) == Nest(List, back) && RoundedAll(back, libc) == back;
    assert Print(j, 0, false, libc) + [] == Print(j, 0, false, libc);
    hide ParseText;
    ParsePrint(j, 0, false, libc, []);
  }

  /** A number that does not survive: it prints as `0`. */
  lemma TinyNumberIsLost(libc: real -> Numerals.Numeral)
    requires GoodFormat(libc)
    ensures !ExactNumbers(Num(DBL_EPSILON), libc)
    ensures Rounded(Num(DBL_EPSILON), libc) == Num(0.0)
  {
    hide Numerals.Value;
    assert Trunc(DBL_EPSILON) == 0;
    Numerals.IntNumeralIsExact(0);
  }

  // ----- what the parser returns can be printed

  /** Every tree that the parser returns, whatever the text, can be printed, and no child of a list in
      it has a name. */
  lemma {:induction false} ParsedIsPrintable(t: seq<byte>, i: nat)
    requires i <= |t| && ParseValue(t, i).Parsed?
    ensures Printable(ParseValue(t, i).value) && ListsUnnamed(ParseValue(t, i).value)
    decreases |t| - i, 0
  {
    hide Literal.Lex, Literal.Denote, Numerals.Lex, Numerals.Value, ParseNest, ParseString, At;
    if Peek(t, i) == QUOTE && ParseString(t, i).Parsed? { ParsedHasNoNul(t, i); }
    if Peek(t, i) == LBRACKET { NestIsPrintable(t, i, List); }
    if Peek(t, i) == LBRACE { NestIsPrintable(t, i, Object); }
  }

  lemma ParsedHasNoNul(t: seq<byte>, i: nat)
    requires i <= |t| && ParseString(t, i).Parsed?
    ensures NUL !in ParseString(t, i).value
  {
    Literal.DenoteHasNoNul(Literal.Lex(t, i + 1).es);
  }

  lemma {:induction false} NestIsPrintable(t: seq<byte>, i: nat, kind: Kind)
    requires i < |t|
    ensures var r := ParseNest(t, i, kind); r.Parsed? ==> Printable(r.value) && ListsUnnamed(r.value)
    decreases |t| - i - 1, 4
  {
    hide ParseEntries;
    EntriesArePrintable(t, Skip(t, i + 1), kind);
  }

  lemma {:induction false} EntriesArePrintable(t: seq<byte>, a: nat, kind: Kind)
    requires a <= |t|
    ensures var r := ParseEntries(t, a, kind); r.Parsed? ==> PrintableAll(kind, r.value) && ListsUnnamedAll(kind, r.value)
    decreases |t| - a, 3
  {
    hide ParseEntry, Printable, ListsUnnamed;
    EntryIsPrintable(t, a, kind);
    var first := ParseEntry(t, a, kind);
    if first.Parsed? {
      assert [first.value][1..] == [];
      if Peek(t, first.end) == COMMA {
        EntriesArePrintable(t, first.end + 1, kind);
        var rest := ParseEntries(t, first.end + 1, kind);
        if rest.Parsed? { assert ([first.value] + rest.value)[1..] == rest.value; }
      }
    }
  }

  lemma {:induction false} EntryIsPrintable(t: seq<byte>, a: nat, kind: Kind)
    requires a <= |t|
    ensures var r := ParseEntry(t, a, kind);
            r.Parsed? ==> && r.value.name.Name? == (kind == Object) && (r.value.name.Name? ==> NUL !in r.value.name.s)
                          && Printable(r.value.value) && ListsUnnamed(r.value.value)
    decreases |t| - a, 2
  {
    hide ParseValue, Printable, ListsUnnamed, ParseString;
    if kind == List {
      if ParseValue(t, Skip(t, a)).Parsed? { ParsedIsPrintable(t, Skip(t, a)); }
    } else if ParseName(t, a).Parsed? {
      ParsedHasNoNul(t, Skip(t, a));
      var b := Skip(t, ParseName(t, a).end);
      if ParseValue(t, b).Parsed? { ParsedIsPrintable(t, b); }
    }
  }

  lemma TextIsPrintable(t: seq<byte>, requireEnd: bool)
    requires ParseText(t, requireEnd).Parsed?
    ensures Printable(ParseText(t, requireEnd).value) && ListsUnnamed(ParseText(t, requireEnd).value)
  {
    hide ParseValue, Printable, ListsUnnamed;
    ParsedIsPrintable(t, Skip(t, 0));
  }

  lemma {:induction false} UnnamedAlready(j: Json)
    requires ListsUnnamed(j)
    ensures Unnamed(j) == j
    decreases j, 0
  {
    if j.Nest? { UnnamedAlreadyAll(j.kind, j.members); }
  }

  lemma {:induction false} UnnamedAlreadyAll(kind: Kind, ms: seq<Member>)
    requires ListsUnnamedAll(kind, ms)
    ensures UnnamedAll(kind, ms) == ms
    decreases ms, 0
  {
    if ms != [] {
      assert ms[0].value < ms[0];
      UnnamedAlready(ms[0].value);
      UnnamedAlreadyAll(kind, ms[1..]);
      assert ms == [ms[0]] + ms[1..];
    }
  }
}
