/** What `cJSON_Minify` does to the texts of the grammar: it empties the slots of the tree, and so
    keeps what the text means. */
module MinifyMeaning {
  import opened CText
  import opened JsonTree
  import opened Grammar
  import opened ParserSpec
  import opened Minify
  import Literal
  import Numerals
  import PrinterSpec
  import RoundTrip

  /** Reading `w` at `i` keeps `out` and goes on after `w`. */
  ghost predicate Keeps(t: seq<byte>, i: nat, w: seq<byte>, out: seq<byte>) {
    At(t, i, w) && Minified(t, i) == Prepend(out, Minified(t, i + |w|))
  }

  lemma KeepsNothing(t: seq<byte>, i: nat)
    requires At(t, i, [])
    ensures Keeps(t, i, [], [])
  {
    var r := Minified(t, i);
    if r.Kept? { assert [] + r.text == r.text; }
  }

  lemma KeepsBoth(t: seq<byte>, i: nat, w: seq<byte>, out: seq<byte>, w': seq<byte>, out': seq<byte>)
    requires Keeps(t, i, w, out) && Keeps(t, i + |w|, w', out')
    ensures Keeps(t, i, w + w', out + out')
  {
    hide Minified;
    AtSplit(t, i, w, w');
    var r := Minified(t, i + |w| + |w'|);
    if r.Kept? { assert out + (out' + r.text) == (out + out') + r.text; }
  }

  /** Bytes that are copied one by one. */
  predicate Ordinary(b: byte) { b != NUL && !IsJsonBlank(b) && b != SLASH && b != QUOTE }

  predicate AllOrdinary(w: seq<byte>) { forall k :: 0 <= k < |w| ==> Ordinary(w[k]) }

  lemma {:induction false} OrdinaryKept(t: seq<byte>, i: nat, w: seq<byte>)
    requires At(t, i, w) && AllOrdinary(w)
    ensures Keeps(t, i, w, w)
    decreases |w|
  {
    if w == [] {
      KeepsNothing(t, i);
    } else {
      assert w == [w[0]] + w[1..];
      AtCons(t, i, w[0], w[1..]);
      OrdinaryKept(t, i + 1, w[1..]);
      AtFirst(t, i, w);
      assert Keeps(t, i, [w[0]], [w[0]]);
      KeepsBoth(t, i, [w[0]], [w[0]], w[1..], w[1..]);
    }
  }

  // ----- slots

  lemma {:induction false} LineEndIs(t: seq<byte>, i: nat, w: seq<byte>)
    requires At(t, i, w) && NUL !in w && LF !in w
    requires Peek(t, i + |w|) == LF || Peek(t, i + |w|) == NUL
    ensures LineEnd(t, i) == i + |w|
    decreases |w|
  {
    if w != [] {
      AtFirst(t, i, w);
      assert forall b :: b in w[1..] ==> b in w;
      LineEndIs(t, i + 1, w[1..]);
    }
  }

  lemma {:induction false} CommentEndIs(t: seq<byte>, i: nat, w: seq<byte>)
    requires At(t, i, w) && NUL !in w && NoClose(w) && At(t, i + |w|, [STAR, SLASH])
    ensures CommentEnd(t, i) == i + |w|
    decreases |w|
  {
    if w == [] {
      var close := [STAR, SLASH];
      assert t[i + 0] == close[0] && t[i + 1] == close[1];
    } else {
      AtFirst(t, i, w);
      if t[i] == STAR {
        if |w| > 1 {
          assert t[i + 1] == w[1] && !(w[0] == STAR && w[1] == SLASH);
        } else {
          AtFirst(t, i + 1, [STAR, SLASH]);
        }
      }
      assert forall b :: b in w[1..] ==> b in w;
      CommentEndIs(t, i + 1, w[1..]);
    }
  }

  lemma LineCommentKeepsNothing(t: seq<byte>, i: nat, body: seq<byte>)
    requires At(t, i, [SLASH, SLASH] + (body + [LF])) && NUL !in body && LF !in body
    ensures Keeps(t, i, [SLASH, SLASH] + (body + [LF]), [])
  {
    var w := [SLASH, SLASH] + body;
    assert [SLASH, SLASH] + (body + [LF]) == w + [LF];
    AtSplit(t, i, w, [LF]);
    AtFirst(t, i + |w|, [LF]);
    AtFirst(t, i, w);
    assert t[i + 1] == w[1];
    LineEndIs(t, i, w);
    KeepsNothing(t, i + |w| + 1);
    assert Minified(t, i) == Minified(t, i + |w|) == Minified(t, i + |w| + 1);
  }

  lemma BlockCommentKeepsNothing(t: seq<byte>, i: nat, body: seq<byte>)
    requires At(t, i, [SLASH, STAR] + (body + [STAR, SLASH])) && NUL !in body && NoClose(body)
    requires body == [] || body[0] != SLASH
    ensures Keeps(t, i, [SLASH, STAR] + (body + [STAR, SLASH]), [])
  {
    var w := [SLASH, STAR] + body;
    assert [SLASH, STAR] + (body + [STAR, SLASH]) == w + [STAR, SLASH];
    AtSplit(t, i, w, [STAR, SLASH]);
    AtFirst(t, i, w);
    assert t[i + 1] == w[1];
    CommentEndsRight(t, i, body);
    AtFirst(t, i + |w|, [STAR, SLASH]);
    KeepsNothing(t, i + |w| + 2);
  }

  /** The scan finds the end of a block comment exactly when its body does not start with a slash:
      it starts at the opening slash and takes `/``*``/` for a whole comment. */
  lemma CommentEndsRight(t: seq<byte>, i: nat, body: seq<byte>)
    requires At(t, i, [SLASH, STAR] + (body + [STAR, SLASH])) && NUL !in body && NoClose(body)
    ensures CommentEnd(t, i) == i + 2 + |body| <==> (body == [] || body[0] != SLASH)
  {
    var w := [SLASH, STAR] + body;
    assert [SLASH, STAR] + (body + [STAR, SLASH]) == w + [STAR, SLASH];
    AtSplit(t, i, w, [STAR, SLASH]);
    assert t[i + 0] == w[0] && t[i + 1] == w[1];
    if body != [] && body[0] == SLASH {
      assert t[i + 2] == w[2];
      assert CommentEnd(t, i) == CommentEnd(t, i + 1) == i + 1;
    } else {
      assert NoClose(w) by {
        forall k | 0 <= k < |w| - 1 ensures !(w[k] == STAR && w[k + 1] == SLASH) {
          if k >= 2 { assert !(body[k - 2] == STAR && body[k - 1] == SLASH); }
        }
      }
      CommentEndIs(t, i, w);
    }
  }

  /** Such a comment in front of a number: `x*` is left over, and the text no longer parses. */
  lemma CommentLeftOver()
    ensures var comment := BlockComment([SLASH, 120]);
            var t := RenderTrivia(comment) + [ZERO];
            && Minified(t, 0) == Kept([120, STAR, SLASH, ZERO])
            && ParseText(Minified(t, 0).text, false) == Rejected(0)
  {
    var t: seq<byte> := [SLASH, STAR, SLASH, 120, STAR, SLASH, ZERO];
    assert RenderTrivia(BlockComment([SLASH, 120])) + [ZERO] == t;
    assert CommentEnd(t, 0) == CommentEnd(t, 1) == 1;
    assert Minified(t, 7) == Kept([]);
    assert Minified(t, 6) == Kept([ZERO] + []);
    assert Minified(t, 5) == Kept([SLASH] + ([ZERO] + []));
    assert Minified(t, 4) == Kept([STAR] + ([SLASH] + ([ZERO] + [])));
    assert Minified(t, 3) == Kept([120] + ([STAR] + ([SLASH] + ([ZERO] + []))));
    assert Minified(t, 0) == Minified(t, 3);
    var m: seq<byte> := [120, STAR, SLASH, ZERO];
    assert Minified(t, 0).text == m;
    WordsDiffer(m, 0);
    assert Skip(m, 0) == 0 && ParseValue(m, 0) == Rejected(0);
  }

  lemma TriviaKeepsNothing(t: seq<byte>, i: nat, w: Trivia)
    requires CleanTrivia(w) && At(t, i, RenderTrivia(w))
    ensures Keeps(t, i, RenderTrivia(w), [])
  {
    match w
    case Blank(b) =>
      AtFirst(t, i, [b]);
      KeepsNothing(t, i + 1);
    case LineComment(body) => LineCommentKeepsNothing(t, i, body);
    case BlockComment(body) => BlockCommentKeepsNothing(t, i, body);
  }

  lemma {:induction false} SlotKeepsNothing(t: seq<byte>, i: nat, ws: Slot)
    requires Clean(ws) && At(t, i, RenderSlot(ws))
    ensures Keeps(t, i, RenderSlot(ws), [])
    decreases |ws|
  {
    hide At, Minified, Keeps;
    if ws == [] {
      KeepsNothing(t, i);
    } else {
      AtSplit(t, i, RenderTrivia(ws[0]), RenderSlot(ws[1..]));
      TriviaKeepsNothing(t, i, ws[0]);
      SlotKeepsNothing(t, i + |RenderTrivia(ws[0])|, ws[1..]);
      KeepsBoth(t, i, RenderTrivia(ws[0]), [], RenderSlot(ws[1..]), []);
      var nothing: seq<byte> := [];
      assert nothing + nothing == nothing;
    }
  }

  // ----- literals

  lemma {:induction false} QuoteEndIs(t: seq<byte>, i: nat, es: seq<Literal.Elem>)
    requires Literal.WellFormedAll(es) && At(t, i, Literal.Render(es) + [QUOTE])
    ensures QuoteEnd(t, i) == i + |Literal.Render(es)|
    decreases |es|
  {
    hide At, Literal.RenderElem, Literal.WellFormed;
    AtSplit(t, i, Literal.Render(es), [QUOTE]);
    if es == [] {
      AtFirst(t, i, [QUOTE]);
    } else {
      var r, rest := Literal.RenderElem(es[0]), Literal.Render(es[1..]);
      AtSplit(t, i, r, rest);
      AtSplit(t, i + |r|, rest, [QUOTE]);
      QuoteEndIs(t, i + |r|, es[1..]);
      QuoteEndElem(t, i, es[0]);
    }
  }

  /** Scanning for the quote steps over an element; the digits of a `\u` are ordinary to it. */
  lemma QuoteEndElem(t: seq<byte>, i: nat, e: Literal.Elem)
    requires Literal.WellFormed(e) && At(t, i, Literal.RenderElem(e))
    ensures QuoteEnd(t, i) == QuoteEnd(t, i + |Literal.RenderElem(e)|)
  {
    var r := Literal.RenderElem(e);
    assert t[i + 0] == r[0];
    if |r| > 1 { assert t[i + 1] == r[1]; }
    if e.Uni? {
      assert t[i + 2] == r[2] && t[i + 3] == r[3] && t[i + 4] == r[4] && t[i + 5] == r[5];
      assert QuoteEnd(t, i) == QuoteEnd(t, i + 2);
      assert QuoteEnd(t, i + 2) == QuoteEnd(t, i + 3);
      assert QuoteEnd(t, i + 3) == QuoteEnd(t, i + 4);
      assert QuoteEnd(t, i + 4) == QuoteEnd(t, i + 5);
    }
  }

  lemma LiteralKept(t: seq<byte>, i: nat, es: seq<Literal.Elem>)
    requires Literal.WellFormedAll(es) && At(t, i, Literal.RenderLiteral(es))
    ensures Keeps(t, i, Literal.RenderLiteral(es), Literal.RenderLiteral(es))
  {
    var w := Literal.RenderLiteral(es);
    AtCons(t, i, QUOTE, Literal.Render(es) + [QUOTE]);
    QuoteEndIs(t, i + 1, es);
    AtSlice(t, i, w);
  }

  // ----- trees

  lemma WordsAreOrdinary()
    ensures AllOrdinary(NULL_TEXT) && AllOrdinary(FALSE_TEXT) && AllOrdinary(TRUE_TEXT)
  {
  }

  lemma NumeralIsOrdinary(n: Numerals.Numeral)
    requires Numerals.WellFormed(n)
    ensures AllOrdinary(Numerals.Render(n))
  {
    assert AllOrdinary(n.whole) && AllOrdinary(n.frac);
    assert AllOrdinary(Numerals.RenderExponent(n));
  }

  lemma {:induction false} TreeKept(c: Cst, t: seq<byte>, i: nat)
    requires WellFormed(c) && AllSlots(c, Clean) && At(t, i, Render(c))
    ensures Keeps(t, i, Render(c), Render(Strip(c)))
    decreases c, 0
  {
    hide At, Minified, Keeps, Numerals.Render, Literal.RenderLiteral, AllOrdinary, RenderSlot, Clean;
    WordsAreOrdinary();
    match c
    case CNull => OrdinaryKept(t, i, NULL_TEXT);
    case CFalse => OrdinaryKept(t, i, FALSE_TEXT);
    case CTrue => OrdinaryKept(t, i, TRUE_TEXT);
    case CNumber(n) =>
      NumeralIsOrdinary(n);
      OrdinaryKept(t, i, Numerals.Render(n));
    case CString(es) => LiteralKept(t, i, es);
    case CNest(kind, open, entries) =>
      var s, es := RenderSlot(open), RenderEntries(kind, entries);
      AtSplit(t, i, [Open(kind)], s + es);
      AtSplit(t, i + 1, s, es);
      ByteKept(t, i, Open(kind));
      SlotKeepsNothing(t, i + 1, open);
      EntriesKept(kind, entries, t, i + 1 + |s|);
      KeepsBoth(t, i + 1, s, [], es, RenderEntries(kind, StripEntries(entries)));
      KeepsBoth(t, i, [Open(kind)], [Open(kind)], s + es, [] + RenderEntries(kind, StripEntries(entries)));
      assert RenderSlot([]) == [] by { EmptyText(); }
  }

  lemma EmptyText()
    ensures RenderSlot([]) == []
  {
  }

  lemma ByteKept(t: seq<byte>, i: nat, b: byte)
    requires At(t, i, [b]) && Ordinary(b)
    ensures Keeps(t, i, [b], [b])
  {
    OrdinaryKept(t, i, [b]);
  }

  lemma {:induction false} EntriesKept(kind: Kind, entries: seq<Entry>, t: seq<byte>, i: nat)
    requires WellFormedEntries(kind, entries) && AllEntrySlots(entries, Clean) && At(t, i, RenderEntries(kind, entries))
    ensures Keeps(t, i, RenderEntries(kind, entries), RenderEntries(kind, StripEntries(entries)))
    decreases entries, 2
  {
    hide At, Minified, Keeps, RenderEntry, StripEntry, EntrySlots, WellFormedEntry;
    if entries == [] {
      ByteKept(t, i, Close(kind));
    } else {
      var e, rest := entries[0], entries[1..];
      var w := RenderEntry(e);
      AtSplit(t, i, w, RenderTail(kind, rest));
      EntryKept(kind, e, t, i);
      TailKept(kind, rest, t, i + |w|);
      KeepsBoth(t, i, w, RenderEntry(StripEntry(e)), RenderTail(kind, rest), RenderTail(kind, StripEntries(rest)));
      assert StripEntries(entries)[1..] == StripEntries(rest);
    }
  }

  lemma {:induction false} TailKept(kind: Kind, entries: seq<Entry>, t: seq<byte>, i: nat)
    requires WellFormedEntries(kind, entries) && AllEntrySlots(entries, Clean) && At(t, i, RenderTail(kind, entries))
    ensures Keeps(t, i, RenderTail(kind, entries), RenderTail(kind, StripEntries(entries)))
    decreases entries, 3
  {
    hide At, Minified, Keeps, RenderEntry, StripEntry, EntrySlots, WellFormedEntry;
    if entries == [] {
      ByteKept(t, i, Close(kind));
    } else {
      PrinterSpec.TailIsEntries(kind, entries);
      PrinterSpec.TailIsEntries(kind, StripEntries(entries));
      AtSplit(t, i, [COMMA], RenderEntries(kind, entries));
      ByteKept(t, i, COMMA);
      EntriesKept(kind, entries, t, i + 1);
      KeepsBoth(t, i, [COMMA], [COMMA], RenderEntries(kind, entries), RenderEntries(kind, StripEntries(entries)));
    }
  }

  lemma {:induction false} EntryKept(kind: Kind, e: Entry, t: seq<byte>, i: nat)
    requires WellFormedEntry(kind, e) && EntrySlots(e, Clean) && At(t, i, RenderEntry(e))
    ensures Keeps(t, i, RenderEntry(e), RenderEntry(StripEntry(e)))
    decreases e, 1
  {
    hide At, Minified, Keeps, RenderSlot, Clean, Render, Strip, RenderKey, StripKey, WellFormed, AllSlots,
         Literal.WellFormedAll;
    var s0, k, v, s1 := RenderSlot(e.before), RenderKey(e.key), Render(e.value), RenderSlot(e.after);
    var k', v' := RenderKey(StripKey(e.key)), Render(Strip(e.value));
    AtFour(t, i, s0, k, v, s1);
    SlotKeepsNothing(t, i, e.before);
    KeyKept(e.key, t, i + |s0|);
    TreeKept(e.value, t, i + |s0| + |k|);
    SlotKeepsNothing(t, i + |s0| + |k| + |v|, e.after);
    KeepsBoth(t, i + |s0| + |k|, v, v', s1, []);
    KeepsBoth(t, i + |s0|, k, k', v + s1, v' + []);
    KeepsBoth(t, i, s0, [], k + (v + s1), k' + (v' + []));
    EmptyText();
  }

  lemma KeyKept(key: Key, t: seq<byte>, i: nat)
    requires key.Key? ==> Literal.WellFormedAll(key.es) && Clean(key.beforeColon) && Clean(key.afterColon)
    requires At(t, i, RenderKey(key))
    ensures Keeps(t, i, RenderKey(key), RenderKey(StripKey(key)))
  {
    hide At, Minified, Keeps, RenderSlot, Clean, Literal.RenderLiteral, Literal.WellFormedAll;
    if key.NoKey? {
      KeepsNothing(t, i);
    } else {
      var es, s0, s1 := Literal.RenderLiteral(key.es), RenderSlot(key.beforeColon), RenderSlot(key.afterColon);
      AtFour(t, i, es, s0, [COLON], s1);
      LiteralKept(t, i, key.es);
      SlotKeepsNothing(t, i + |es|, key.beforeColon);
      ByteKept(t, i + |es| + |s0|, COLON);
      SlotKeepsNothing(t, i + |es| + |s0| + 1, key.afterColon);
      KeepsBoth(t, i + |es| + |s0|, [COLON], [COLON], s1, []);
      KeepsBoth(t, i + |es|, s0, [], [COLON] + s1, [COLON] + []);
      KeepsBoth(t, i, es, es, s0 + ([COLON] + s1), [] + ([COLON] + []));
      EmptyText();
    }
  }

  // ----- whole texts

  /** A text may end in a line comment that the terminator closes. */
  function LastComment(last: seq<byte>): seq<byte> {
    if last == [] then [] else [SLASH, SLASH] + last
  }

  lemma LastCommentKeepsNothing(t: seq<byte>, i: nat, last: seq<byte>)
    requires At(t, i, LastComment(last)) && |t| == i + |LastComment(last)| && NUL !in last && LF !in last
    ensures Minified(t, i) == Kept([])
  {
    if last != [] {
      var w := LastComment(last);
      assert t[i + 0] == w[0] && t[i + 1] == w[1];
      LineEndIs(t, i, w);
    }
  }

  /** Minifying the text of a tree gives the text of the tree with empty slots. */
  lemma MinifyStrips(before: Slot, c: Cst, after: Slot, last: seq<byte>)
    requires WellFormed(c) && AllSlots(c, Clean) && Clean(before) && Clean(after) && NUL !in last && LF !in last
    ensures Minified(RenderSlot(before) + (Render(c) + (RenderSlot(after) + LastComment(last))), 0)
         == Kept(Render(Strip(c)))
  {
    hide At, Minified, RenderSlot, Clean, Render, Strip, WellFormed, AllSlots, LastComment;
    var s0, v, s1, s2 := RenderSlot(before), Render(c), RenderSlot(after), LastComment(last);
    var t := s0 + (v + (s1 + s2));
    AtAll(t);
    AtFour(t, 0, s0, v, s1, s2);
    SlotKeepsNothing(t, 0, before);
    TreeKept(c, t, |s0|);
    SlotKeepsNothing(t, |s0| + |v|, after);
    LastCommentKeepsNothing(t, |s0| + |v| + |s1|, last);
  }

  /** So the minified text parses to the tree the original text denotes, with nothing left over. */
  lemma MinifyKeepsMeaning(before: Slot, c: Cst, after: Slot, last: seq<byte>)
    requires WellFormed(c) && AllSlots(c, Clean) && Clean(before) && Clean(after) && NUL !in last && LF !in last
    ensures var r := Minified(RenderSlot(before) + (Render(c) + (RenderSlot(after) + LastComment(last))), 0);
            r.Kept? && ParseText(r.text, true) == Parsed(Denote(c), |r.text|)
  {
    hide At, Minified, RenderSlot, Clean, Plain, Render, Strip, WellFormed, AllSlots, LastComment, Denote, ParseText;
    MinifyStrips(before, c, after, last);
    StripKeepsMeaning(c);
    RoundTrip.EmptySlot();
    ParseTextRender([], Strip(c), [], [], true);
    EmptyText();
    var text := Render(Strip(c));
    assert [] + (text + ([] + [])) == text;
  }

  /** Outside string literals, whose ends a backslash can hide, `s` holds no whitespace. */
  predicate BlankFree(s: seq<byte>, quoted: bool)
    decreases |s|
  {
    if s == [] then true
    else if !quoted then !IsWhitespace(s[0]) && BlankFree(s[1..], s[0] == 0x22)
    else if s[0] == 0x5C then |s| > 1 ==> BlankFree(s[2..], true)
    else BlankFree(s[1..], s[0] != 0x22)
  }

  lemma {:induction false} LiteralIsClosed(t: seq<byte>, i: nat, rest: seq<byte>)
    requires i <= |t| && QuoteEnd(t, i) < |t| && BlankFree(rest, false)
    ensures BlankFree(t[i..QuoteEnd(t, i) + 1] + rest, true)
    decreases |t| - i
  {
    var e := QuoteEnd(t, i);
    var s := t[i..e + 1] + rest;
    assert s[0] == t[i];
    if t[i] == QUOTE {
      assert s[1..] == rest;
    } else {
      var n := if t[i] == BACKSLASH then 2 else 1;
      QuoteStep(t, i);
      LiteralIsClosed(t, i + n, rest);
      assert s[n..] == t[i + n..e + 1] + rest;
    }
  }

  /** Whatever the text is, none of the four whitespace bytes is left outside its literals. */
  lemma {:induction false} NoBlankIsLeft(t: seq<byte>, i: nat)
    requires i <= |t| && Minified(t, i).Kept?
    ensures BlankFree(Minified(t, i).text, false)
    decreases |t| - i
  {
    var b := Peek(t, i);
    if b != NUL {
      MinifiedStep(t, i);
      NoBlankIsLeft(t, Next(t, i));
      var rest := Minified(t, Next(t, i)).text;
      if Dropped(t, i) {
        assert [] + rest == rest;
      } else if b == QUOTE {
        LiteralIsClosed(t, i + 1, rest);
        var s := t[i..QuoteEnd(t, i + 1) + 1] + rest;
        assert s[1..] == t[i + 1..QuoteEnd(t, i + 1) + 1] + rest;
      } else {
        var s := t[i..i + 1] + rest;
        assert s[0] == b && s[1..] == rest;
      }
    }
  }

  /** Minifying what the printer formats gives what it prints unformatted, byte for byte. */
  lemma MinifyFormatted(j: Json, libc: real -> Numerals.Numeral)
    requires PrinterSpec.GoodFormat(libc)
    ensures Minified(PrinterSpec.Print(j, 0, true, libc), 0) == Kept(PrinterSpec.Print(j, 0, false, libc))
  {
    hide Minified, RenderSlot, Clean, Plain, Render, Strip, WellFormed, AllSlots, Denote,
         PrinterSpec.Print, PrinterSpec.Pretty;
    var c := PrinterSpec.Pretty(j, 0, true, libc);
    RoundTrip.PrettyWellFormed(j, 0, true, libc);
    RoundTrip.PrettySlots(j, 0, true, libc);
    RoundTrip.PrettyStrip(j, 0, 0, true, libc);
    PrinterSpec.PrettyText(j, 0, true, libc);
    PrinterSpec.PrettyText(j, 0, false, libc);
    RoundTrip.EmptySlot();
    MinifyStrips([], c, [], []);
    EmptyText();
    assert [] + (Render(c) + ([] + [])) == Render(c);
  }
}
