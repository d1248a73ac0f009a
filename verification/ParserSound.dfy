/** The converse of `ParserSpec.ParseRender`: whatever the parser accepts is the text of a concrete tree,
    with blanks in its slots, that denotes the value returned. Nothing else gets through but a string at
    the very start whose closing quote the terminator stands in for. */
module ParserSound {
  import opened CText
  import opened JsonTree
  import opened Grammar
  import opened ParserSpec
  import Literal
  import Numerals

  /** `c` is what stands at `i` up to `e`. */
  ghost predicate Spells(c: Cst, t: seq<byte>, i: nat, e: nat) {
    Lenient(c) && AllSlots(c, Plain) && i <= e <= |t| && t[i..e] == Render(c)
  }

  /** A literal at `i` that lacks its closing quote. */
  predicate CutOff(t: seq<byte>, i: nat)
    requires i <= |t|
  {
    Peek(t, i) == QUOTE && Literal.Lex(t, i + 1).Scanned? && Peek(t, Literal.Lex(t, i + 1).end) == NUL
  }

  // ----- blanks

  lemma {:induction false} Skipped(t: seq<byte>, i: nat)
    requires i <= |t|
    ensures Blanks(t[i..Skip(t, i)])
    decreases |t| - i
  {
    if IsSkipped(Peek(t, i)) {
      Skipped(t, i + 1);
      assert t[i..Skip(t, i)] == [t[i]] + t[i + 1..Skip(t, i)];
    }
  }

  lemma SlotSound(t: seq<byte>, i: nat) returns (ws: Slot)
    requires i <= |t|
    ensures Plain(ws) && t[i..Skip(t, i)] == RenderSlot(ws)
  {
    ws := Blanked(t[i..Skip(t, i)]);
    Skipped(t, i);
    BlankedText(t[i..Skip(t, i)]);
  }

  // ----- values

  /** A closed literal is its elements between two quotes. */
  lemma StringSound(t: seq<byte>, i: nat) returns (es: seq<Literal.Elem>)
    requires i <= |t| && ParseString(t, i).Parsed? && !CutOff(t, i)
    ensures Literal.WellFormedAll(es) && ParseString(t, i).value == Literal.Denote(es)
    ensures t[i..ParseString(t, i).end] == Literal.RenderLiteral(es)
  {
    hide Literal.Lex, Literal.Denote, Literal.Render, Literal.WellFormedAll;
    var s := Literal.Lex(t, i + 1);
    es := s.es;
    assert Peek(t, s.end) == QUOTE;
    Literal.LexSound(t, i + 1);
    InQuotes(t, i, s.end);
  }

  lemma InQuotes(t: seq<byte>, i: nat, e: nat)
    requires i < e <= |t| && Peek(t, i) == QUOTE && Peek(t, e) == QUOTE
    ensures t[i..e + 1] == [QUOTE] + (t[i + 1..e] + [QUOTE])
  {
  }

  lemma LeafSound(c: Cst, t: seq<byte>, i: nat, w: seq<byte>)
    requires At(t, i, w) && Render(c) == w && Lenient(c) && !c.CNest?
    ensures Spells(c, t, i, i + |w|)
  {
    AtSlice(t, i, w);
  }

  /** Every value that is accepted, unless it is a string that breaks off. */
  lemma {:induction false} ValueSound(t: seq<byte>, i: nat) returns (c: Cst)
    requires i <= |t| && ParseValue(t, i).Parsed? && !CutOff(t, i)
    ensures Spells(c, t, i, ParseValue(t, i).end) && ParseValue(t, i).value == Denote(c)
    decreases |t| - i, 0
  {
    hide ParseNest, ParseString, CutOff, Numerals.Lex, Numerals.Value, Numerals.Render, Numerals.Lenient,
         Literal.RenderLiteral, Literal.WellFormedAll, Literal.Denote, At, Spells;
    if At(t, i, NULL_TEXT) {
      c := CNull;
      LeafSound(c, t, i, NULL_TEXT);
    } else if At(t, i, FALSE_TEXT) {
      c := CFalse;
      LeafSound(c, t, i, FALSE_TEXT);
    } else if At(t, i, TRUE_TEXT) {
      c := CTrue;
      LeafSound(c, t, i, TRUE_TEXT);
    } else if Peek(t, i) == QUOTE {
      var es := StringSound(t, i);
      c := CString(es);
      SpellsSpan(c, t, i, ParseString(t, i).end);
    } else if Peek(t, i) == MINUS || IsDigit(Peek(t, i)) {
      Numerals.LexSound(t, i);
      c := CNumber(Numerals.Lex(t, i).0);
      SpellsSpan(c, t, i, Numerals.Lex(t, i).1);
    } else {
      var kind := if Peek(t, i) == LBRACKET then List else Object;
      c := NestSound(t, i, kind);
    }
  }

  lemma SpellsSpan(c: Cst, t: seq<byte>, i: nat, e: nat)
    requires i <= e <= |t| && t[i..e] == Render(c) && Lenient(c) && AllSlots(c, Plain)
    ensures Spells(c, t, i, e)
  {
  }

  lemma {:induction false} NestSound(t: seq<byte>, i: nat, kind: Kind) returns (c: Cst)
    requires i < |t| && t[i] == Open(kind) && ParseNest(t, i, kind).Parsed?
    ensures Spells(c, t, i, ParseNest(t, i, kind).end) && ParseNest(t, i, kind).value == Denote(c)
    decreases |t| - i - 1, 4
  {
    hide ParseEntries, Skip, RenderSlot, RenderEntries, Plain, Peek;
    var a := Skip(t, i + 1);
    var open := SlotSound(t, i + 1);
    var entries: seq<Entry> := [];
    var e := ParseNest(t, i, kind).end;
    if Peek(t, a) == Close(kind) {
      assert t[a..e] == RenderEntries(kind, []) by { NoEntries(t, a, kind); }
    } else {
      entries := EntriesSound(t, a, kind);
    }
    c := CNest(kind, open, entries);
    assert AllSlots(c, Plain);
    assert Denote(c) == ParseNest(t, i, kind).value;
    assert Lenient(c);
    NestGlued(t, i, a, e);
    SpellsSpan(c, t, i, e);
  }

  lemma NestGlued(t: seq<byte>, i: nat, a: nat, e: nat)
    requires i < a <= e <= |t|
    ensures t[i..e] == [t[i]] + (t[i + 1..a] + t[a..e])
  {
  }

  lemma NoEntries(t: seq<byte>, a: nat, kind: Kind)
    requires a <= |t| && Peek(t, a) == Close(kind)
    ensures a < |t| && t[a..a + 1] == RenderEntries(kind, [])
  {
  }

  lemma {:induction false} EntriesSound(t: seq<byte>, a: nat, kind: Kind) returns (es: seq<Entry>)
    requires a <= |t| && ParseEntries(t, a, kind).Parsed?
    ensures LenientEntries(kind, es) && AllEntrySlots(es, Plain) && es != []
    ensures t[a..ParseEntries(t, a, kind).end] == RenderEntries(kind, es)
    ensures ParseEntries(t, a, kind).value == DenoteEntries(kind, es)
    decreases |t| - a, 3
  {
    hide ParseEntry, RenderEntry, DenoteEntry, LenientEntry, EntrySlots, Plain;
    var b := ParseEntry(t, a, kind).end;
    var e := EntrySound(t, a, kind);
    var end := ParseEntries(t, a, kind).end;
    assert t[a..end] == t[a..b] + t[b..end];
    if Peek(t, b) == COMMA {
      var rest := EntriesSound(t, b + 1, kind);
      es := [e] + rest;
      assert es[1..] == rest;
      assert t[b..end] == [COMMA] + t[b + 1..end];
    } else {
      es := [e];
      assert es[1..] == [];
      assert t[b..end] == [Close(kind)];
    }
  }

  lemma {:induction false} EntrySound(t: seq<byte>, a: nat, kind: Kind) returns (e: Entry)
    requires a <= |t| && ParseEntry(t, a, kind).Parsed? && Peek(t, ParseEntry(t, a, kind).end) != NUL
    ensures LenientEntry(kind, e) && EntrySlots(e, Plain)
    ensures t[a..ParseEntry(t, a, kind).end] == RenderEntry(e)
    ensures ParseEntry(t, a, kind).value == DenoteEntry(kind, e)
    decreases |t| - a, 2
  {
    hide ParseMember, ParseName, Render, RenderSlot, AllSlots, Lenient, Plain, Denote, Literal.RenderLiteral,
         Literal.WellFormedAll, Literal.Denote;
    var b := ParseEntry(t, a, kind).end;
    if kind == List {
      var before, value, after := MemberSound(t, a, NoName);
      e := Entry(before, NoKey, value, after);
      assert RenderSlot(before) + ([] + (Render(value) + RenderSlot(after)))
          == RenderSlot(before) + (Render(value) + RenderSlot(after));
    } else {
      var k := ParseName(t, a).end;
      var before, es, beforeColon := NameSound(t, a);
      var afterColon, value, after := MemberSound(t, k, Name(ParseName(t, a).value));
      e := Entry(before, Key(es, beforeColon, afterColon), value, after);
      assert t[a..b] == t[a..k] + t[k..b];
      Regrouped(RenderSlot(before), Literal.RenderLiteral(es), RenderSlot(beforeColon), RenderSlot(afterColon),
                Render(value) + RenderSlot(after));
    }
  }

  lemma Regrouped(s0: seq<byte>, name: seq<byte>, s1: seq<byte>, s2: seq<byte>, rest: seq<byte>)
    ensures (s0 + (name + (s1 + [COLON]))) + (s2 + rest) == s0 + ((name + (s1 + ([COLON] + s2))) + rest)
  {
  }

  lemma {:induction false} MemberSound(t: seq<byte>, a: nat, name: Name) returns (before: Slot, value: Cst, after: Slot)
    requires a <= |t| && ParseMember(t, a, name).Parsed? && Peek(t, ParseMember(t, a, name).end) != NUL
    ensures Plain(before) && Plain(after) && AllSlots(value, Plain) && Lenient(value)
    ensures t[a..ParseMember(t, a, name).end] == RenderSlot(before) + (Render(value) + RenderSlot(after))
    ensures ParseMember(t, a, name).value == Member(name, Denote(value))
    decreases |t| - a, 1
  {
    hide ParseValue, Render, RenderSlot, AllSlots, Lenient, Plain, Denote, Skip;
    var v := Skip(t, a);
    var e := ParseValue(t, v).end;
    var b := Skip(t, e);
    before := SlotSound(t, a);
    NotCutOff(t, v);
    value := ValueSound(t, v);
    after := SlotSound(t, e);
    assert t[v..b] == t[v..e] + t[e..b];
    assert t[a..b] == t[a..v] + t[v..b];
  }

  /** A string that breaks off leaves nothing behind it. */
  lemma NotCutOff(t: seq<byte>, i: nat)
    requires i <= |t| && ParseValue(t, i).Parsed? && Peek(t, Skip(t, ParseValue(t, i).end)) != NUL
    ensures !CutOff(t, i)
  {
    hide Literal.Lex, Literal.Denote, Numerals.Lex, Numerals.Value, ParseNest;
    if CutOff(t, i) { WordsDiffer(t, i); }
  }

  lemma NameSound(t: seq<byte>, a: nat) returns (before: Slot, es: seq<Literal.Elem>, beforeColon: Slot)
    requires a <= |t| && ParseName(t, a).Parsed?
    ensures Plain(before) && Plain(beforeColon) && Literal.WellFormedAll(es)
    ensures t[a..ParseName(t, a).end]
         == RenderSlot(before) + (Literal.RenderLiteral(es) + (RenderSlot(beforeColon) + [COLON]))
    ensures ParseName(t, a).value == Literal.Denote(es)
  {
    hide ParseString, RenderSlot, Plain, Skip, Literal.RenderLiteral, Literal.WellFormedAll, Literal.Denote, CutOff;
    var s := Skip(t, a);
    var e := ParseString(t, s).end;
    var b := Skip(t, e);
    before := SlotSound(t, a);
    NameNotCutOff(t, s);
    es := StringSound(t, s);
    beforeColon := SlotSound(t, e);
    assert t[b..b + 1] == [COLON];
    assert t[e..b + 1] == t[e..b] + t[b..b + 1];
    assert t[s..b + 1] == t[s..e] + t[e..b + 1];
    assert t[a..b + 1] == t[a..s] + t[s..b + 1];
  }

  lemma NameNotCutOff(t: seq<byte>, i: nat)
    requires i <= |t| && ParseString(t, i).Parsed? && Peek(t, Skip(t, ParseString(t, i).end)) != NUL
    ensures !CutOff(t, i)
  {
    hide Literal.Lex, Literal.Denote;
  }

  // ----- whole texts

  /** Blanks, the text of `c` and blanks. */
  ghost predicate IsTextOf(t: seq<byte>, before: Slot, c: Cst, after: Slot) {
    && Plain(before) && Lenient(c) && AllSlots(c, Plain) && Plain(after)
    && t == RenderSlot(before) + (Render(c) + RenderSlot(after))
  }

  /** Blanks and a string without its closing quote. */
  ghost predicate IsCutText(t: seq<byte>, before: Slot, es: seq<Literal.Elem>) {
    Plain(before) && Literal.WellFormedAll(es) && t == RenderSlot(before) + ([QUOTE] + Literal.Render(es))
  }

  /** The texts that are accepted up to their end, and their values. */
  lemma AcceptsExactly(t: seq<byte>, v: Json)
    requires NUL !in t
    ensures ParseText(t, true) == Parsed(v, |t|)
       <==> || (exists before, c, after :: Lenient(c) && IsTextOf(t, before, c, after) && Denote(c) == v)
            || (exists before, es :: Literal.WellFormedAll(es) && IsCutText(t, before, es) && Str(Literal.Denote(es)) == v)
    ensures ParseText(t, true).Parsed? ==> ParseText(t, true).end == |t|
  {
    hide ParseText, IsTextOf, IsCutText, Denote, Literal.Denote;
    if ParseText(t, true).Parsed? { TextSound(t); }
    forall before, c, after | Lenient(c) && IsTextOf(t, before, c, after) && Denote(c) == v
      ensures ParseText(t, true) == Parsed(v, |t|)
    {
      TextComplete(t, before, c, after);
    }
    forall before, es | Literal.WellFormedAll(es) && IsCutText(t, before, es) && Str(Literal.Denote(es)) == v
      ensures ParseText(t, true) == Parsed(v, |t|)
    {
      CutTextComplete(t, before, es);
    }
  }

  lemma TextComplete(t: seq<byte>, before: Slot, c: Cst, after: Slot)
    requires IsTextOf(t, before, c, after)
    ensures ParseText(t, true) == Parsed(Denote(c), |t|)
  {
    hide ParseText, Denote, Lenient, AllSlots, Plain, Render, RenderSlot;
    ParseTextRender(before, c, after, [], true);
    assert RenderSlot(after) + [] == RenderSlot(after);
  }

  /** In particular the texts of RFC 8259 are accepted, each with the value of its tree. */
  lemma RfcTextParses(before: Slot, c: Cst, after: Slot)
    requires WellFormed(c) && AllSlots(c, Rfc) && Rfc(before) && Rfc(after)
    ensures var t := RenderSlot(before) + (Render(c) + RenderSlot(after)); ParseText(t, true) == Parsed(Denote(c), |t|)
  {
    hide ParseText, Denote, WellFormed, AllSlots, Render, RenderSlot;
    RfcSlots(c);
    TextComplete(RenderSlot(before) + (Render(c) + RenderSlot(after)), before, c, after);
  }

  lemma CutTextComplete(t: seq<byte>, before: Slot, es: seq<Literal.Elem>)
    requires IsCutText(t, before, es)
    ensures ParseText(t, true) == Parsed(Str(Literal.Denote(es)), |t|)
  {
    hide Literal.Denote, Literal.Render, Literal.Lex, Literal.WellFormedAll, RenderSlot, Skip, At;
    var i := |RenderSlot(before)|;
    AtAll(t);
    AtSplit(t, 0, RenderSlot(before), [QUOTE] + Literal.Render(es));
    AtCons(t, i, QUOTE, Literal.Render(es));
    PlainSlotBytes(before);
    SkipBlanks(t, 0, RenderSlot(before), i);
    Literal.LexRender(t, i + 1, es);
    WordsDiffer(t, i);
    assert Skip(t, |t|) == |t| by { NothingToSkip(t); }
  }

  lemma NothingToSkip(t: seq<byte>)
    ensures Skip(t, |t|) == |t|
  {
  }

  lemma AtTheEnd(t: seq<byte>, e: nat)
    requires NUL !in t && e <= |t| && Peek(t, e) == NUL
    ensures e == |t|
  {
  }

  lemma TextSound(t: seq<byte>)
    requires NUL !in t && ParseText(t, true).Parsed?
    ensures ParseText(t, true).end == |t|
    ensures var v := ParseText(t, true).value;
            || (exists before, c, after :: Lenient(c) && IsTextOf(t, before, c, after) && Denote(c) == v)
            || (exists before, es :: Literal.WellFormedAll(es) && IsCutText(t, before, es) && Str(Literal.Denote(es)) == v)
  {
    hide ParseValue, CutOff, Skip, RenderSlot, Plain, IsTextOf, IsCutText, Denote, Literal.Denote;
    var i := Skip(t, 0);
    var before := SlotSound(t, 0);
    var e := ParseValue(t, i).end;
    AtTheEnd(t, Skip(t, e));
    if CutOff(t, i) {
      var es := CutSound(t, i);
      assert IsCutText(t, before, es) by { CutGlued(t, i, before, es); }
    } else {
      var c := ValueSound(t, i);
      var after := SlotSound(t, e);
      assert IsTextOf(t, before, c, after) by { TextGlued(t, i, e, before, c, after); }
    }
  }

  lemma TextGlued(t: seq<byte>, i: nat, e: nat, before: Slot, c: Cst, after: Slot)
    requires Spells(c, t, i, e) && Plain(before) && Plain(after)
    requires t[0..i] == RenderSlot(before) && t[e..|t|] == RenderSlot(after)
    ensures IsTextOf(t, before, c, after)
  {
    hide RenderSlot, Render, Plain, Lenient, AllSlots;
    assert t == t[0..i] + (t[i..e] + t[e..|t|]);
  }

  lemma CutGlued(t: seq<byte>, i: nat, before: Slot, es: seq<Literal.Elem>)
    requires i <= |t| && Plain(before) && t[0..i] == RenderSlot(before)
    requires Literal.WellFormedAll(es) && t[i..] == [QUOTE] + Literal.Render(es)
    ensures IsCutText(t, before, es)
  {
    hide RenderSlot, Plain, Literal.Render, Literal.WellFormedAll;
    assert t == t[0..i] + t[i..];
  }

  lemma CutSound(t: seq<byte>, i: nat) returns (es: seq<Literal.Elem>)
    requires NUL !in t && i <= |t| && ParseValue(t, i).Parsed? && CutOff(t, i)
    ensures Literal.WellFormedAll(es) && t[i..] == [QUOTE] + Literal.Render(es)
    ensures ParseValue(t, i).value == Str(Literal.Denote(es))
  {
    hide Literal.Lex, Literal.Denote, Literal.Render, Literal.WellFormedAll;
    var s := Literal.Lex(t, i + 1);
    es := s.es;
    AtTheEnd(t, s.end);
    Literal.LexSound(t, i + 1);
    WordsDiffer(t, i);
    assert t[i..] == [t[i]] + t[i + 1..|t|];
  }
}
