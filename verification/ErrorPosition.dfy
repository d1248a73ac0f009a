/** Where `cJSON_GetErrorPtr` points: at the end of the longest part of the text that some accepted text
    begins with, but for the start of a word or a point that may still turn out right. */
module ErrorPosition {
  import opened CText
  import opened JsonTree
  import opened Grammar
  import opened ParserSpec
  import opened ParserSound
  import Literal
  import Numerals

  /** Where a parser stopped. */
  function Stop<T>(r: Outcome<T>): nat {
    match r
    case Parsed(_, end) => end
    case Rejected(ep) => ep
    case Malformed => 0
  }

  // ----- up to there the text can be completed

  lemma {:induction false} ValueOpen(t: seq<byte>, i: nat) returns (c: Cst, w: seq<byte>)
    requires i <= |t| && !ParseValue(t, i).Malformed?
    ensures i <= Stop(ParseValue(t, i)) <= |t| && Lenient(c) && AllSlots(c, Plain)
    ensures Render(c) == t[i..Stop(ParseValue(t, i))] + w
    ensures ParseValue(t, i).Parsed? && !CutOff(t, i) ==> w == []
    decreases |t| - i, 0
  {
    hide ParseNest, ParseString, CutOff, Numerals.Lex, Numerals.Value, Literal.Denote, At, Render;
    if ParseValue(t, i).Parsed? {
      if CutOff(t, i) {
        c, w := CutOpen(t, i);
      } else {
        c := ValueSound(t, i);
        w := [];
        assert t[i..ParseValue(t, i).end] + [] == t[i..ParseValue(t, i).end];
      }
    } else if Peek(t, i) == LBRACKET {
      c, w := NestOpen(t, i, List);
    } else if Peek(t, i) == LBRACE {
      c, w := NestOpen(t, i, Object);
    } else {
      assert Stop(ParseValue(t, i)) == i by { OnlyNestsGoOn(t, i); }
      c, w := CNull, NULL_TEXT;
      assert Render(c) == NULL_TEXT by { NullText(); }
    }
  }

  lemma NullText()
    ensures Render(CNull) == NULL_TEXT
  {
  }

  lemma OnlyNestsGoOn(t: seq<byte>, i: nat)
    requires i <= |t| && ParseValue(t, i).Rejected? && Peek(t, i) != LBRACKET && Peek(t, i) != LBRACE
    ensures ParseValue(t, i).ep == i
  {
    hide ParseNest, Literal.Lex, Literal.Denote, Numerals.Lex, Numerals.Value, At;
  }

  lemma CutOpen(t: seq<byte>, i: nat) returns (c: Cst, w: seq<byte>)
    requires i <= |t| && ParseValue(t, i).Parsed? && CutOff(t, i)
    ensures i <= Stop(ParseValue(t, i)) <= |t| && Lenient(c) && AllSlots(c, Plain)
    ensures Render(c) == t[i..Stop(ParseValue(t, i))] + w
  {
    hide Literal.Lex, Literal.Denote, Literal.Render, Literal.WellFormedAll;
    WordsDiffer(t, i);
    var s := Literal.Lex(t, i + 1);
    Literal.LexSound(t, i + 1);
    c, w := CString(s.es), [QUOTE];
    assert t[i..s.end] == [QUOTE] + t[i + 1..s.end];
    assert [QUOTE] + (t[i + 1..s.end] + [QUOTE]) == t[i..s.end] + [QUOTE];
  }

  lemma {:induction false} NestOpen(t: seq<byte>, i: nat, kind: Kind) returns (c: Cst, w: seq<byte>)
    requires i < |t| && t[i] == Open(kind) && ParseNest(t, i, kind).Rejected?
    ensures i <= ParseNest(t, i, kind).ep <= |t| && Lenient(c) && AllSlots(c, Plain)
    ensures Render(c) == t[i..ParseNest(t, i, kind).ep] + w
    decreases |t| - i - 1, 4
  {
    hide ParseEntries, Skip, RenderSlot, RenderEntries, Plain;
    var a, ep := Skip(t, i + 1), ParseNest(t, i, kind).ep;
    var open := SlotSound(t, i + 1);
    var es;
    es, w := EntriesOpen(t, a, kind);
    c := CNest(kind, open, es);
    NestGlued(t, i, a, ep);
    assert [t[i]] + (t[i + 1..a] + (t[a..ep] + w)) == ([t[i]] + (t[i + 1..a] + t[a..ep])) + w;
  }

  lemma {:induction false} EntriesOpen(t: seq<byte>, a: nat, kind: Kind) returns (es: seq<Entry>, w: seq<byte>)
    requires a <= |t| && ParseEntries(t, a, kind).Rejected?
    ensures a <= ParseEntries(t, a, kind).ep <= |t| && LenientEntries(kind, es) && AllEntrySlots(es, Plain)
    ensures es != [] && RenderEntries(kind, es) == t[a..ParseEntries(t, a, kind).ep] + w
    decreases |t| - a, 3
  {
    hide ParseEntry, RenderEntry, DenoteEntry, LenientEntry, EntrySlots, Plain;
    var r, ep := ParseEntry(t, a, kind), ParseEntries(t, a, kind).ep;
    if r.Parsed? && Peek(t, r.end) == COMMA {
      var b := r.end;
      var e := EntrySound(t, a, kind);
      var rest;
      rest, w := EntriesOpen(t, b + 1, kind);
      es := [e] + rest;
      assert es[1..] == rest;
      CommaGlued(t, a, b, ep, w);
    } else {
      var e;
      e, w := EntryOpen(t, a, kind);
      es := [e];
      assert es[1..] == [];
      assert (t[a..ep] + w) + [Close(kind)] == t[a..ep] + (w + [Close(kind)]);
      w := w + [Close(kind)];
    }
  }

  lemma CommaGlued(t: seq<byte>, a: nat, b: nat, e: nat, w: seq<byte>)
    requires a <= b < e <= |t| && t[b] == COMMA
    ensures t[a..b] + ([COMMA] + (t[b + 1..e] + w)) == t[a..e] + w
  {
    assert t[a..e] == t[a..b] + ([t[b]] + t[b + 1..e]);
  }

  lemma {:induction false} EntryOpen(t: seq<byte>, a: nat, kind: Kind) returns (e: Entry, w: seq<byte>)
    requires a <= |t| && !ParseEntry(t, a, kind).Malformed?
    ensures a <= Stop(ParseEntry(t, a, kind)) <= |t| && LenientEntry(kind, e) && EntrySlots(e, Plain)
    ensures RenderEntry(e) == t[a..Stop(ParseEntry(t, a, kind))] + w
    decreases |t| - a, 2
  {
    hide ParseMember, ParseName, Render, RenderSlot, AllSlots, Lenient, Plain, Denote, Literal.RenderLiteral,
         Literal.WellFormedAll, Literal.Denote;
    var p := Stop(ParseEntry(t, a, kind));
    if kind == List {
      var before, value, after, w' := MemberOpen(t, a, NoName);
      e, w := Entry(before, NoKey, value, after), w';
      assert RenderSlot(before) + ([] + (Render(value) + RenderSlot(after)))
          == RenderSlot(before) + (Render(value) + RenderSlot(after));
    } else if ParseName(t, a).Parsed? {
      var k := ParseName(t, a).end;
      var before, es, beforeColon := NameSound(t, a);
      var afterColon, value, after, w' := MemberOpen(t, k, Name(ParseName(t, a).value));
      e, w := Entry(before, Key(es, beforeColon, afterColon), value, after), w';
      assert t[a..p] + w == t[a..k] + (t[k..p] + w);
      Regrouped(RenderSlot(before), Literal.RenderLiteral(es), RenderSlot(beforeColon), RenderSlot(afterColon),
                Render(value) + RenderSlot(after));
    } else {
      var before, es, beforeColon, w' := NameOpen(t, a);
      e := Entry(before, Key(es, beforeColon, []), CNull, []);
      w := w' + NULL_TEXT;
      NullEntry(e);
      Regrouped(RenderSlot(before), Literal.RenderLiteral(es), RenderSlot(beforeColon), [], NULL_TEXT + []);
      assert (t[a..p] + w') + ([] + (NULL_TEXT + [])) == t[a..p] + w;
    }
  }

  lemma NullEntry(e: Entry)
    requires e.after == [] && e.value == CNull && e.key.Key? && e.key.afterColon == []
    ensures RenderSlot([]) == [] && Render(CNull) == NULL_TEXT && Plain([]) && Lenient(CNull) && AllSlots(CNull, Plain)
  {
  }

  /** A value between blanks, as far as it goes. */
  lemma {:induction false} MemberOpen(t: seq<byte>, a: nat, name: Name)
    returns (before: Slot, value: Cst, after: Slot, w: seq<byte>)
    requires a <= |t| && !ParseMember(t, a, name).Malformed?
    ensures a <= Stop(ParseMember(t, a, name)) <= |t|
    ensures Plain(before) && Plain(after) && AllSlots(value, Plain) && Lenient(value)
    ensures RenderSlot(before) + (Render(value) + RenderSlot(after)) == t[a..Stop(ParseMember(t, a, name))] + w
    decreases |t| - a, 1
  {
    hide ParseValue, Render, RenderSlot, AllSlots, Lenient, Plain, Denote, Skip;
    var v := Skip(t, a);
    var e, p := Stop(ParseValue(t, v)), Stop(ParseMember(t, a, name));
    before := SlotSound(t, a);
    value, w := ValueOpen(t, v);
    assert t[a..e] == t[a..v] + t[v..e];
    if ParseValue(t, v).Parsed? && !CutOff(t, v) {
      after := SlotSound(t, e);
      assert t[v..p] == t[v..e] + t[e..p];
      assert t[a..p] == t[a..v] + t[v..p];
      assert t[v..e] + [] == t[v..e] && t[a..p] + [] == t[a..p];
    } else {
      if ParseValue(t, v).Parsed? { CutStops(t, v); }
      after := [];
      assert RenderSlot([]) == [] && Plain([]) by { NoSlot(); }
      assert t[a..v] + ((t[v..e] + w) + []) == t[a..e] + w;
    }
  }

  lemma NoSlot()
    ensures RenderSlot([]) == [] && Plain([])
  {
  }

  /** Nothing can be skipped after a string that breaks off. */
  lemma CutStops(t: seq<byte>, i: nat)
    requires i <= |t| && ParseValue(t, i).Parsed? && CutOff(t, i)
    ensures Skip(t, ParseValue(t, i).end) == ParseValue(t, i).end
  {
    hide Literal.Lex, Literal.Denote, Numerals.Lex, Numerals.Value, ParseNest;
    WordsDiffer(t, i);
  }

  /** A key without its colon, or what is there of one. */
  lemma NameOpen(t: seq<byte>, a: nat) returns (before: Slot, es: seq<Literal.Elem>, beforeColon: Slot, w: seq<byte>)
    requires a <= |t| && ParseName(t, a).Rejected?
    ensures a <= ParseName(t, a).ep <= |t| && Plain(before) && Plain(beforeColon) && Literal.WellFormedAll(es)
    ensures RenderSlot(before) + (Literal.RenderLiteral(es) + (RenderSlot(beforeColon) + [COLON]))
         == t[a..ParseName(t, a).ep] + w
  {
    hide Plain, Skip, RenderSlot, Literal.Lex, Literal.Denote, Literal.Render, Literal.WellFormedAll;
    var s := Skip(t, a);
    before := SlotSound(t, a);
    NoSlot();
    if ParseString(t, s).Rejected? {
      es, beforeColon, w := [], [], [QUOTE, QUOTE, COLON];
      assert Literal.Render([]) == [] && Literal.WellFormedAll([]) by { NoElems(); }
    } else {
      var e := ParseString(t, s).end;
      var b := Skip(t, e);
      if CutOff(t, s) {
        NameCutStops(t, s);
        es, beforeColon, w := Literal.Lex(t, s + 1).es, [], [QUOTE, COLON];
        assert t[a..e] == t[a..s] + t[s..e];
        assert t[s..e] + [QUOTE] == Literal.RenderLiteral(es);
      } else {
        es := StringSound(t, s);
        beforeColon := SlotSound(t, e);
        w := [COLON];
        assert t[a..b] == t[a..s] + (t[s..e] + t[e..b]);
      }
    }
  }

  lemma NoElems()
    ensures Literal.Render([]) == [] && Literal.WellFormedAll([])
  {
  }

  lemma NameCutStops(t: seq<byte>, i: nat)
    requires i <= |t| && ParseString(t, i).Parsed? && CutOff(t, i)
    ensures Skip(t, ParseString(t, i).end) == ParseString(t, i).end
    ensures t[i..ParseString(t, i).end] + [QUOTE] == Literal.RenderLiteral(Literal.Lex(t, i + 1).es)
  {
    hide Literal.Lex, Literal.Denote, Literal.Render, Literal.WellFormedAll;
    Literal.LexSound(t, i + 1);
    var e := Literal.Lex(t, i + 1).end;
    assert t[i..e] + [QUOTE] == [QUOTE] + (t[i + 1..e] + [QUOTE]);
  }

  /** Whatever stands before the error can be completed to a text that is accepted. */
  lemma Completes(t: seq<byte>) returns (w: seq<byte>)
    requires NUL !in t && ParseText(t, true).Rejected?
    ensures ParseText(t, true).ep <= |t| && ParseText(t[..ParseText(t, true).ep] + w, true).Parsed?
  {
    hide ParseValue, Render, RenderSlot, AllSlots, Lenient, Plain, Denote, Skip;
    var i := Skip(t, 0);
    var before := SlotSound(t, 0);
    var e, ep := Stop(ParseValue(t, i)), ParseText(t, true).ep;
    var c;
    c, w := ValueOpen(t, i);
    var after: Slot := [];
    NoSlot();
    if ParseValue(t, i).Parsed? {
      if CutOff(t, i) {
        CutStops(t, i);
        assert false by { CutIsAccepted(t, i); }
      }
      after := SlotSound(t, e);
    }
    assert t[..ep] == t[0..i] + (t[i..e] + t[e..ep]);
    var t' := t[..ep] + w;
    assert t' == RenderSlot(before) + (Render(c) + RenderSlot(after));
    Accepted(t', before, c, after);
  }

  lemma CutIsAccepted(t: seq<byte>, i: nat)
    requires i <= |t| && ParseValue(t, i).Parsed? && CutOff(t, i)
    ensures Peek(t, ParseValue(t, i).end) == NUL
  {
    hide Literal.Lex, Literal.Denote, Numerals.Lex, Numerals.Value, ParseNest;
    WordsDiffer(t, i);
  }

  lemma Accepted(t: seq<byte>, before: Slot, c: Cst, after: Slot)
    requires t == RenderSlot(before) + (Render(c) + RenderSlot(after))
    requires Plain(before) && Lenient(c) && AllSlots(c, Plain) && Plain(after)
    ensures ParseText(t, true).Parsed?
  {
    hide ParseText, Render, RenderSlot, Denote;
    TextComplete(t, before, c, after);
  }

  // ----- no further

  /** What may still turn into a value, or carry a number on. */
  predicate Unfinished(s: seq<byte>) { s <= NULL_TEXT || s <= FALSE_TEXT || s <= TRUE_TEXT || s == [DOT] }

  /** `t'` begins as `t` does, up to and beyond `p`, and what stands there is not unfinished. */
  predicate Settled(t: seq<byte>, t': seq<byte>, p: nat, k: nat) {
    && p < k <= |t| && t[..k] <= t' && !Unfinished(t[p..k])
    && (forall j :: 0 <= j < k ==> t[j] == t'[j] != NUL)
  }

  lemma FirstSettles(t: seq<byte>, t': seq<byte>, p: nat, q: nat, k: nat)
    requires Settled(t, t', q, k) && p <= q
    requires p < q ==> var b := t[p]; b != 110 && b != 102 && b != 116 && b != DOT
    ensures Settled(t, t', p, k)
  {
    if p < q {
      var s := t[p..k];
      assert s[0] == t[p];
      assert NULL_TEXT[0] == 110 && FALSE_TEXT[0] == 102 && TRUE_TEXT[0] == 116;
    }
  }

  lemma {:induction false} SkipLocal(t: seq<byte>, t': seq<byte>, i: nat, p: nat, k: nat)
    requires Settled(t, t', p, k) && i <= |t| && Skip(t, i) <= p
    ensures i <= |t'| && Skip(t', i) == Skip(t, i)
    decreases |t| - i
  {
    if IsSkipped(Peek(t, i)) { SkipLocal(t, t', i + 1, p, k); }
  }

  lemma {:induction false} DigitsLocal(t: seq<byte>, t': seq<byte>, i: nat, p: nat, k: nat)
    requires Settled(t, t', p, k) && i <= |t| && DigitsEnd(t, i) <= p
    ensures i <= |t'| && DigitsEnd(t', i) == DigitsEnd(t, i)
    decreases |t| - i
  {
    if IsDigit(Peek(t, i)) { DigitsLocal(t, t', i + 1, p, k); }
  }

  lemma {:induction false} LiteralLocal(t: seq<byte>, t': seq<byte>, i: nat, p: nat, k: nat)
    requires Settled(t, t', p, k) && i <= |t| && Literal.Lex(t, i).Scanned? && Literal.Lex(t, i).end <= p
    ensures i <= |t'| && Literal.Lex(t', i) == Literal.Lex(t, i)
    decreases |t| - i
  {
    hide Literal.IsHex;
    var c := Peek(t, i);
    if c != QUOTE {
      var n := if c != BACKSLASH then 1 else if Peek(t, i + 1) != LOWER_U then 2 else 6;
      LiteralLocal(t, t', i + n, p, k);
    }
  }

  lemma NumberLocal(t: seq<byte>, t': seq<byte>, i: nat, p: nat, k: nat)
    requires Settled(t, t', p, k) && i <= |t| && Numerals.Lex(t, i).1 <= p
    ensures i <= |t'| && Numerals.Lex(t', i) == Numerals.Lex(t, i)
  {
    var a := Numerals.SignEnd(t, i);
    var w := Numerals.WholeEnd(t, a);
    var f := Numerals.FracEnd(t, w);
    SamePeek(t, t', p, k);
    assert Numerals.SignEnd(t', i) == a;
    hide Settled, Numerals.SignEnd, Numerals.WholeEnd, Numerals.FracEnd, Numerals.ExponentAt, Numerals.AllDigits, Peek,
         Numerals.Lex;
    LexParts(t, i, a, w, f);
    WholeLocal(t, t', a, p, k);
    FracLocal(t, t', w, p, k);
    ExponentLocal(t, t', f, p, k);
    NumeralLocal(t, t', a, w, f, p, k);
    LexParts(t', i, a, w, f);
  }

  lemma LexParts(t: seq<byte>, i: nat, a: nat, w: nat, f: nat)
    requires i <= a <= w <= f <= |t| && Numerals.SignEnd(t, i) == a && Numerals.WholeEnd(t, a) == w
    requires Numerals.FracEnd(t, w) == f
    ensures var x := Numerals.ExponentAt(t, f);
            Numerals.Lex(t, i) == (Numerals.Numeral(a > i, t[a..w], if f == w then [] else t[w + 1..f], x.0), x.1)
  {
    hide Numerals.SignEnd, Numerals.WholeEnd, Numerals.FracEnd, Numerals.ExponentAt;
  }

  lemma NumeralLocal(t: seq<byte>, t': seq<byte>, a: nat, w: nat, f: nat, p: nat, k: nat)
    requires Settled(t, t', p, k) && a <= w <= f <= p
    ensures t[a..w] == t'[a..w] && (f != w ==> t[w + 1..f] == t'[w + 1..f])
  {
    SameSlice(t, t', a, w, p, k);
    if f != w { SameSlice(t, t', w + 1, f, p, k); }
  }

  lemma SamePeek(t: seq<byte>, t': seq<byte>, p: nat, k: nat)
    requires Settled(t, t', p, k)
    ensures p < k <= |t| && k <= |t'| && forall j :: 0 <= j < k ==> Peek(t, j) == Peek(t', j)
  {
  }

  lemma SameSlice(t: seq<byte>, t': seq<byte>, i: nat, j: nat, p: nat, k: nat)
    requires Settled(t, t', p, k) && i <= j <= p
    ensures j <= |t| && j <= |t'| && t[i..j] == t'[i..j]
  {
  }

  lemma WholeLocal(t: seq<byte>, t': seq<byte>, a: nat, p: nat, k: nat)
    requires Settled(t, t', p, k) && a <= |t| && Numerals.WholeEnd(t, a) <= p
    ensures a <= |t'| && Numerals.WholeEnd(t', a) == Numerals.WholeEnd(t, a)
  {
    var z := if Peek(t, a) == ZERO then a + 1 else a;
    if ZERO < Peek(t, z) <= NINE { DigitsLocal(t, t', z, p, k); }
  }

  lemma FracLocal(t: seq<byte>, t': seq<byte>, w: nat, p: nat, k: nat)
    requires Settled(t, t', p, k) && w <= |t| && Numerals.FracEnd(t, w) <= p
    ensures w <= |t'| && Numerals.FracEnd(t', w) == Numerals.FracEnd(t, w)
  {
    if Peek(t, w) == DOT {
      assert t[w..w + 1] == [DOT];
      if IsDigit(Peek(t, w + 1)) { DigitsLocal(t, t', w + 1, p, k); }
    }
  }

  lemma ExponentLocal(t: seq<byte>, t': seq<byte>, f: nat, p: nat, k: nat)
    requires Settled(t, t', p, k) && f <= |t| && Numerals.ExponentAt(t, f).1 <= p
    ensures f <= |t'| && Numerals.ExponentAt(t', f) == Numerals.ExponentAt(t, f)
  {
    if Peek(t, f) == LOWER_E || Peek(t, f) == UPPER_E {
      var d := if Peek(t, f + 1) == PLUS || Peek(t, f + 1) == MINUS then f + 2 else f + 1;
      DigitsLocal(t, t', d, p, k);
      SameSlice(t, t', d, DigitsEnd(t, d), p, k);
    }
  }

  /** Words are found in both texts or in neither. */
  lemma WordLocal(t: seq<byte>, t': seq<byte>, i: nat, w: seq<byte>, p: nat, k: nat)
    requires Settled(t, t', p, k) && i <= p && (w == NULL_TEXT || w == FALSE_TEXT || w == TRUE_TEXT)
    requires if At(t, i, w) then i + |w| <= p else t[i] == w[0] ==> i == p
    ensures At(t', i, w) == At(t, i, w)
  {
    if At(t', i, w) {
      AtFirst(t', i, w);
      WordBegins(t, t', i, w, k);
    }
  }

  lemma WordBegins(t: seq<byte>, t': seq<byte>, i: nat, w: seq<byte>, k: nat)
    requires i <= k <= |t| && k <= |t'| && (forall j :: 0 <= j < k ==> t[j] == t'[j]) && At(t', i, w)
    ensures if k < i + |w| then t[i..k] <= w else At(t, i, w)
  {
    if k < i + |w| {
      var s := t[i..k];
      assert forall j :: 0 <= j < |s| ==> s[j] == t'[i + j];
    }
  }

  // ----- so every parser stops at the same place

  lemma StringLocal(t: seq<byte>, t': seq<byte>, i: nat, p: nat, k: nat)
    requires Settled(t, t', p, k) && i <= |t| && !ParseString(t, i).Malformed? && Stop(ParseString(t, i)) <= p
    ensures i <= |t'| && ParseString(t', i) == ParseString(t, i)
  {
    hide Literal.Lex, Literal.Denote;
    SamePeek(t, t', p, k);
    if Peek(t, i) == QUOTE { LiteralLocal(t, t', i + 1, p, k); }
  }

  lemma WordsLocal(t: seq<byte>, t': seq<byte>, i: nat, k: nat)
    requires i <= |t| && !ParseValue(t, i).Malformed? && i <= Stop(ParseValue(t, i))
    requires Settled(t, t', Stop(ParseValue(t, i)), k)
    ensures At(t', i, NULL_TEXT) == At(t, i, NULL_TEXT) && At(t', i, FALSE_TEXT) == At(t, i, FALSE_TEXT)
    ensures At(t', i, TRUE_TEXT) == At(t, i, TRUE_TEXT)
  {
    hide Literal.Lex, Literal.Denote, Numerals.Lex, Numerals.Value, ParseNest, Settled, At;
    SamePeek(t, t', Stop(ParseValue(t, i)), k);
    WordsDiffer(t, i);
    WordLocal(t, t', i, NULL_TEXT, Stop(ParseValue(t, i)), k);
    WordLocal(t, t', i, FALSE_TEXT, Stop(ParseValue(t, i)), k);
    WordLocal(t, t', i, TRUE_TEXT, Stop(ParseValue(t, i)), k);
  }

  lemma {:induction false} ValueLocal(t: seq<byte>, t': seq<byte>, i: nat, k: nat)
    requires i <= |t| && !ParseValue(t, i).Malformed? && Settled(t, t', Stop(ParseValue(t, i)), k)
    ensures i <= |t'| && ParseValue(t', i) == ParseValue(t, i)
    decreases |t| - i, 0
  {
    hide ParseNest, ParseString, Numerals.Lex, Numerals.Value, Literal.Denote, At, Settled;
    var p := Stop(ParseValue(t, i));
    var _, _ := ValueOpen(t, i);
    SamePeek(t, t', p, k);
    WordsLocal(t, t', i, k);
    WordsDiffer(t, i);
    if Peek(t, i) == QUOTE {
      StringLocal(t, t', i, p, k);
    } else if Peek(t, i) == MINUS || IsDigit(Peek(t, i)) {
      NumberLocal(t, t', i, p, k);
    } else if Peek(t, i) == LBRACKET {
      NestLocal(t, t', i, List, k);
    } else if Peek(t, i) == LBRACE {
      NestLocal(t, t', i, Object, k);
    }
  }

  lemma {:induction false} NestLocal(t: seq<byte>, t': seq<byte>, i: nat, kind: Kind, k: nat)
    requires i < |t| && t[i] == Open(kind) && !ParseNest(t, i, kind).Malformed?
    requires Settled(t, t', Stop(ParseNest(t, i, kind)), k)
    ensures i < |t'| && ParseNest(t', i, kind) == ParseNest(t, i, kind)
    decreases |t| - i - 1, 4
  {
    hide ParseEntries, Settled, Peek, IsSkipped;
    var a, p := Skip(t, i + 1), Stop(ParseNest(t, i, kind));
    SamePeek(t, t', p, k);
    if Peek(t, a) != Close(kind) {
      EntriesStop(t, a, kind);
      EntriesLocal(t, t', a, kind, k);
    }
    SkipLocal(t, t', i + 1, p, k);
  }

  lemma EntriesStop(t: seq<byte>, a: nat, kind: Kind)
    requires a <= |t| && !ParseEntries(t, a, kind).Malformed?
    ensures a <= Stop(ParseEntries(t, a, kind)) <= |t|
  {
    hide ParseEntries;
    if ParseEntries(t, a, kind).Rejected? { var _, _ := EntriesOpen(t, a, kind); }
  }

  lemma EntryStops(t: seq<byte>, a: nat, kind: Kind)
    requires a <= |t| && !ParseEntry(t, a, kind).Malformed?
    ensures a <= Stop(ParseEntry(t, a, kind)) <= |t|
  {
    hide ParseEntry;
    var _, _ := EntryOpen(t, a, kind);
  }

  lemma {:induction false} EntriesLocal(t: seq<byte>, t': seq<byte>, a: nat, kind: Kind, k: nat)
    requires a <= |t| && !ParseEntries(t, a, kind).Malformed? && Settled(t, t', Stop(ParseEntries(t, a, kind)), k)
    ensures a <= |t'| && ParseEntries(t', a, kind) == ParseEntries(t, a, kind)
    decreases |t| - a, 3
  {
    hide ParseEntry, Settled, Plain, RenderEntry, RenderEntries, LenientEntry, LenientEntries, EntrySlots, AllEntrySlots,
         IsSkipped;
    var r, p := ParseEntry(t, a, kind), Stop(ParseEntries(t, a, kind));
    EntryStops(t, a, kind);
    SamePeek(t, t', p, k);
    if r.Parsed? && Peek(t, r.end) == COMMA {
      EntriesStop(t, r.end + 1, kind);
      EntriesLocal(t, t', r.end + 1, kind, k);
    }
    FirstSettles(t, t', Stop(r), p, k);
    EntryLocal(t, t', a, kind, k);
  }

  lemma {:induction false} EntryLocal(t: seq<byte>, t': seq<byte>, a: nat, kind: Kind, k: nat)
    requires a <= |t| && !ParseEntry(t, a, kind).Malformed? && Settled(t, t', Stop(ParseEntry(t, a, kind)), k)
    ensures a <= |t'| && ParseEntry(t', a, kind) == ParseEntry(t, a, kind)
    decreases |t| - a, 2
  {
    hide ParseMember, ParseName, Settled;
    if kind == List {
      MemberLocal(t, t', a, NoName, k);
    } else {
      var r := ParseName(t, a);
      if r.Parsed? {
        var _, _, _, _ := MemberOpen(t, r.end, Name(r.value));
        MemberLocal(t, t', r.end, Name(r.value), k);
      }
      NameLocal(t, t', a, Stop(ParseEntry(t, a, kind)), k);
    }
  }

  lemma NameLocal(t: seq<byte>, t': seq<byte>, a: nat, p: nat, k: nat)
    requires a <= |t| && !ParseName(t, a).Malformed? && Settled(t, t', p, k) && Stop(ParseName(t, a)) <= p
    ensures a <= |t'| && ParseName(t', a) == ParseName(t, a)
  {
    hide ParseString, Settled, Literal.Denote;
    var s := Skip(t, a);
    SamePeek(t, t', p, k);
    if ParseString(t, s).Parsed? {
      SkipLocal(t, t', ParseString(t, s).end, p, k);
    } else {
      NoString(t, s);
    }
    SkipLocal(t, t', a, p, k);
    StringLocal(t, t', s, p, k);
  }

  lemma NoString(t: seq<byte>, i: nat)
    requires i <= |t| && ParseString(t, i).Rejected?
    ensures ParseString(t, i).ep == i
  {
    hide Literal.Lex, Literal.Denote;
  }

  lemma {:induction false} MemberLocal(t: seq<byte>, t': seq<byte>, a: nat, name: Name, k: nat)
    requires a <= |t| && !ParseMember(t, a, name).Malformed? && Settled(t, t', Stop(ParseMember(t, a, name)), k)
    ensures a <= |t'| && ParseMember(t', a, name) == ParseMember(t, a, name)
    decreases |t| - a, 1
  {
    hide ParseValue, Settled;
    var v, p := Skip(t, a), Stop(ParseMember(t, a, name));
    var r := ParseValue(t, v);
    var _, _ := ValueOpen(t, v);
    SamePeek(t, t', p, k);
    SkipLocal(t, t', a, p, k);
    if r.Parsed? { SkipLocal(t, t', r.end, p, k); }
    FirstSettles(t, t', Stop(r), p, k);
    ValueLocal(t, t', v, k);
  }

  // ----- whole texts

  /** `ep` is where the longest part of the text ends that an accepted text begins with: it can be
      completed, and every text that goes on from there as this one does is rejected, and at the same place,
      unless what has been seen from there on may still become a word or carry a number on. */
  lemma ErrorIsWhereItGoesWrong(t: seq<byte>)
    requires NUL !in t && ParseText(t, true).Rejected?
    ensures var ep := ParseText(t, true).ep;
            && ep <= |t| && (exists w :: ParseText(t[..ep] + w, true).Parsed?)
            && forall k, t' | ep < k <= |t| && t[..k] <= t' && !Unfinished(t[ep..k]) ::
                 ParseText(t', true) == Rejected(ep)
  {
    hide ParseText, Unfinished;
    var w := Completes(t);
    var ep := ParseText(t, true).ep;
    forall k, t' | ep < k <= |t| && t[..k] <= t' && !Unfinished(t[ep..k]) ensures ParseText(t', true) == Rejected(ep) {
      Begins(t, t', k);
      TextLocal(t, t', k);
    }
  }

  lemma Begins(t: seq<byte>, t': seq<byte>, k: nat)
    requires NUL !in t && k <= |t| && t[..k] <= t'
    ensures forall j :: 0 <= j < k ==> t[j] == t'[j] != NUL
  {
    assert forall j :: 0 <= j < k ==> t[j] == t[..k][j];
  }

  lemma TextLocal(t: seq<byte>, t': seq<byte>, k: nat)
    requires ParseText(t, true).Rejected? && Settled(t, t', ParseText(t, true).ep, k)
    ensures ParseText(t', true) == ParseText(t, true)
  {
    hide ParseValue, Settled;
    var i, p := Skip(t, 0), ParseText(t, true).ep;
    var r := ParseValue(t, i);
    var _, _ := ValueOpen(t, i);
    SamePeek(t, t', p, k);
    SkipLocal(t, t', 0, p, k);
    if r.Parsed? { SkipLocal(t, t', r.end, p, k); }
    FirstSettles(t, t', Stop(r), p, k);
    ValueLocal(t, t', i, k);
  }
}
