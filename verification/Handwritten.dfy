/** JSON that is written with format strings instead of the printer: quoting without escaping, members
    and lists joined by commas, and what such texts denote. */
module Handwritten {
  import opened CText
  import opened JsonTree
  import opened Grammar
  import opened ParserSpec
  import Literal
  import Numerals

  function Ascii(s: string): (r: seq<byte>)
    requires forall i :: 0 <= i < |s| ==> s[i] < 128 as char
    ensures |r| == |s| && forall i :: 0 <= i < |s| ==> r[i] == s[i] as int
  {
    seq(|s|, i requires 0 <= i < |s| => s[i] as int)
  }

  /** A string that can stand between quotes as it is. */
  predicate Unescaped(s: seq<byte>) { QUOTE !in s && BACKSLASH !in s && NUL !in s }

  function Raws(s: seq<byte>): seq<Literal.Elem> { if s == [] then [] else [Literal.Raw(s[0])] + Raws(s[1..]) }

  function InQuotes(s: seq<byte>): seq<byte> { [QUOTE] + (s + [QUOTE]) }

  lemma {:induction false} RawsMean(s: seq<byte>)
    requires Unescaped(s)
    ensures Literal.WellFormedAll(Raws(s)) && Literal.Denote(Raws(s)) == s && Literal.Render(Raws(s)) == s
  {
    if s != [] {
      RawsMean(s[1..]);
      var es := Raws(s);
      assert es[0] == Literal.Raw(s[0]) && es[1..] == Raws(s[1..]);
      assert s == [s[0]] + s[1..];
    }
  }

  function Pair(name: seq<byte>, c: Cst): Entry { Entry([], Key(Raws(name), [], []), c, []) }
  function Item(c: Cst): Entry { Entry([], NoKey, c, []) }

  function PairText(name: seq<byte>, text: seq<byte>): seq<byte> { InQuotes(name) + ([COLON] + text) }

  lemma PairReads(name: seq<byte>, c: Cst)
    requires Unescaped(name)
    ensures RenderEntry(Pair(name, c)) == PairText(name, Render(c))
    ensures WellFormed(c) ==>
              WellFormedEntry(Object, Pair(name, c)) && DenoteEntry(Object, Pair(name, c)) == Member(Name(name), Denote(c))
    ensures AllSlots(c, Plain) ==> EntrySlots(Pair(name, c), Plain)
  {
    hide Literal.Render, Literal.Denote, Literal.WellFormedAll, Raws, Render, Denote;
    RawsMean(name);
    var text := Render(c);
    assert [] + ((InQuotes(name) + ([] + ([COLON] + []))) + (text + [])) == PairText(name, text);
  }

  lemma ItemReads(c: Cst)
    ensures RenderEntry(Item(c)) == Render(c)
    ensures WellFormed(c) ==> WellFormedEntry(List, Item(c)) && DenoteEntry(List, Item(c)) == Member(NoName, Denote(c))
    ensures AllSlots(c, Plain) ==> EntrySlots(Item(c), Plain)
  {
    hide Render, Denote;
    assert [] + ([] + (Render(c) + [])) == Render(c);
  }

  function Texts(es: seq<Entry>): seq<seq<byte>> { if es == [] then [] else [RenderEntry(es[0])] + Texts(es[1..]) }

  function Joined(ts: seq<seq<byte>>): seq<byte> {
    if ts == [] then [] else if |ts| == 1 then ts[0] else ts[0] + ([COMMA] + Joined(ts[1..]))
  }

  lemma {:induction false} JoinedSnoc(ts: seq<seq<byte>>, t: seq<byte>)
    ensures Joined(ts + [t]) == if ts == [] then t else Joined(ts) + ([COMMA] + t)
    decreases |ts|
  {
    if ts == [] {
      assert [] + [t] == [t];
    } else {
      assert (ts + [t])[1..] == ts[1..] + [t];
      JoinedSnoc(ts[1..], t);
    }
  }

  /** A container without whitespace is its children joined by commas. */
  lemma {:induction false} NestText(kind: Kind, es: seq<Entry>)
    ensures Render(CNest(kind, [], es)) == [Open(kind)] + (Joined(Texts(es)) + [Close(kind)])
  {
    EntriesText(kind, es);
    assert [] + RenderEntries(kind, es) == RenderEntries(kind, es);
  }

  lemma {:induction false} EntriesText(kind: Kind, es: seq<Entry>)
    ensures RenderEntries(kind, es) == Joined(Texts(es)) + [Close(kind)]
    decreases es
  {
    hide RenderEntry;
    if es != [] {
      EntriesText(kind, es[1..]);
      var first := RenderEntry(es[0]);
      if |es| > 1 {
        assert Texts(es)[1..] == Texts(es[1..]);
        var rest := Joined(Texts(es[1..]));
        assert RenderTail(kind, es[1..]) == [COMMA] + RenderEntries(kind, es[1..]);
        assert first + ([COMMA] + (rest + [Close(kind)])) == (first + ([COMMA] + rest)) + [Close(kind)];
      } else {
        assert es[1..] == [] && Texts(es) == [first];
      }
    }
  }

  /** A text without whitespace around it denotes what its tree does. */
  lemma Means(c: Cst)
    requires WellFormed(c) && AllSlots(c, Plain)
    ensures ParseText(Render(c), true) == Parsed(Denote(c), |Render(c)|)
  {
    hide Render, ParseText, Denote;
    assert RenderSlot([]) == [] && Plain([]);
    assert [] + (Render(c) + ([] + [])) == Render(c);
    ParseTextRender([], c, [], [], true);
  }

  /** The same for a text that is read up to its end and no further. */
  lemma MeansPrefix(c: Cst)
    requires WellFormed(c) && AllSlots(c, Plain)
    ensures ParseText(Render(c), false) == Parsed(Denote(c), |Render(c)|)
  {
    hide Render, ParseText, Denote;
    assert RenderSlot([]) == [] && Plain([]);
    assert [] + (Render(c) + ([] + [])) == Render(c);
    ParseTextRender([], c, [], [], false);
  }

  // ----- common shapes

  lemma StringReads(s: seq<byte>)
    requires Unescaped(s)
    ensures var c := CString(Raws(s)); WellFormed(c) && Render(c) == InQuotes(s) && Denote(c) == Str(s) && AllSlots(c, Plain)
  {
    RawsMean(s);
  }

  /** A member whose value is a string. */
  lemma StringPair(name: seq<byte>, s: seq<byte>)
    requires Unescaped(name) && Unescaped(s)
    ensures var e := Pair(name, CString(Raws(s)));
            && RenderEntry(e) == PairText(name, InQuotes(s))
            && WellFormedEntry(Object, e) && DenoteEntry(Object, e) == Member(Name(name), Str(s)) && EntrySlots(e, Plain)
  {
    StringReads(s);
    PairReads(name, CString(Raws(s)));
  }

  lemma Entries2(kind: Kind, a: Entry, b: Entry)
    ensures Texts([a, b]) == [RenderEntry(a), RenderEntry(b)]
    ensures WellFormedEntry(kind, a) && WellFormedEntry(kind, b) ==>
              WellFormedEntries(kind, [a, b]) && DenoteEntries(kind, [a, b]) == [DenoteEntry(kind, a), DenoteEntry(kind, b)]
    ensures EntrySlots(a, Plain) && EntrySlots(b, Plain) ==> AllEntrySlots([a, b], Plain)
  {
    hide RenderEntry, WellFormedEntry, DenoteEntry, EntrySlots;
    var rest := [b];
    assert [a, b][1..] == rest && rest[1..] == [];
    assert Texts(rest) == [RenderEntry(b)] && AllEntrySlots(rest, Plain) == EntrySlots(b, Plain);
    assert WellFormedEntries(kind, rest) == WellFormedEntry(kind, b);
    if WellFormedEntry(kind, b) {
      assert DenoteEntries(kind, rest) == [DenoteEntry(kind, b)];
    }
  }

  lemma Joined2(a: seq<byte>, b: seq<byte>)
    ensures Joined([a, b]) == a + ([COMMA] + b)
  {
    assert [a, b][1..] == [b] && Joined([b]) == b;
  }

  lemma CountText(n: nat)
    ensures Numerals.Render(Numerals.IntNumeral(n)) == Numerals.Decimal(n)
  {
  }

  /** An object of two members. */
  lemma TwoMembers(n1: seq<byte>, c1: Cst, n2: seq<byte>, c2: Cst)
    requires Unescaped(n1) && Unescaped(n2)
    requires WellFormed(c1) && WellFormed(c2) && AllSlots(c1, Plain) && AllSlots(c2, Plain)
    ensures var c := CNest(Object, [], [Pair(n1, c1), Pair(n2, c2)]);
            && WellFormed(c) && AllSlots(c, Plain)
            && Render(c) == Object2(n1, Render(c1), n2, Render(c2))
            && Denote(c) == Nest(Object, [Member(Name(n1), Denote(c1)), Member(Name(n2), Denote(c2))])
  {
    hide Texts, RenderEntry, WellFormedEntry, DenoteEntry, EntrySlots, Pair, RenderEntries, WellFormedEntries,
         AllEntrySlots, DenoteEntries, Joined, PairText;
    var a, b := Pair(n1, c1), Pair(n2, c2);
    assert Plain([]);
    PairReads(n1, c1);
    PairReads(n2, c2);
    Entries2(Object, a, b);
    NestText(Object, [a, b]);
    Joined2(PairText(n1, Render(c1)), PairText(n2, Render(c2)));
  }

  function Object2(n1: seq<byte>, t1: seq<byte>, n2: seq<byte>, t2: seq<byte>): seq<byte> {
    [LBRACE] + ((PairText(n1, t1) + ([COMMA] + PairText(n2, t2))) + [RBRACE])
  }

  /** A container with one child. */
  lemma SoleEntry(kind: Kind, e: Entry)
    requires WellFormedEntry(kind, e) && EntrySlots(e, Plain)
    ensures var c := CNest(kind, [], [e]);
            && WellFormed(c) && AllSlots(c, Plain) && Denote(c) == Nest(kind, [DenoteEntry(kind, e)])
            && Render(c) == [Open(kind)] + (RenderEntry(e) + [Close(kind)])
  {
    hide RenderEntry, WellFormedEntry, DenoteEntry, EntrySlots;
    var es, none := [e], [];
    assert es[0] == e && es[1..] == none && Plain([]);
    assert AllEntrySlots(none, Plain) && WellFormedEntries(kind, none) && DenoteEntries(kind, none) == [];
    assert AllEntrySlots(es, Plain) && WellFormedEntries(kind, es) && DenoteEntries(kind, es) == [DenoteEntry(kind, e)];
    NestText(kind, es);
    assert Joined(Texts(es)) == RenderEntry(e);
  }

  lemma TruthReads(b: bool)
    ensures var c := if b then CTrue else CFalse;
            && WellFormed(c) && AllSlots(c, Plain)
            && Render(c) == (if b then TRUE_TEXT else FALSE_TEXT) && Denote(c) == if b then True else False
  {
  }

  lemma CountReads(n: nat)
    ensures var c := CNumber(Numerals.IntNumeral(n));
            WellFormed(c) && AllSlots(c, Plain) && Render(c) == Numerals.Decimal(n) && Denote(c) == Num(n as real)
  {
    hide Numerals.Value;
    Numerals.IntNumeralIsExact(n);
    CountText(n);
  }

  lemma Layout2(n1: seq<byte>, t1: seq<byte>, n2: seq<byte>, t2: seq<byte>)
    ensures ([LBRACE, QUOTE] + (n1 + [QUOTE, COLON])) + (t1 + (([COMMA, QUOTE] + (n2 + [QUOTE, COLON])) + (t2 + [RBRACE])))
         == Object2(n1, t1, n2, t2)
  {
  }
}
