/** The parser as a function of the text and an index, branch for branch, and its correctness:
    on every text of the grammar it returns the tree the text denotes. */
module ParserSpec {
  import opened CText
  import opened JsonTree
  import opened Grammar
  import Literal
  import Numerals

  /** `Rejected` carries the error position the C code leaves in `ep`. `Malformed` stands for
      texts whose escapes break off, for which the C code's behaviour is undefined. */
  datatype Outcome<+T> = Parsed(value: T, end: nat) | Rejected(ep: nat) | Malformed

  function ParseString(t: seq<byte>, i: nat): (r: Outcome<seq<byte>>)
    requires i <= |t|
    ensures r.Parsed? ==> i < r.end <= |t|
  {
    if Peek(t, i) != QUOTE then Rejected(i)
    else
      match Literal.Lex(t, i + 1)
      case BadEscape => Malformed
      case Scanned(es, end) => Parsed(Literal.Denote(es), if Peek(t, end) == QUOTE then end + 1 else end)
  }

  function ParseValue(t: seq<byte>, i: nat): (r: Outcome<Json>)
    requires i <= |t|
    ensures r.Parsed? ==> i < r.end <= |t|
    decreases |t| - i, 0
  {
    if At(t, i, NULL_TEXT) then Parsed(Null, i + 4)
    else if At(t, i, FALSE_TEXT) then Parsed(False, i + 5)
    else if At(t, i, TRUE_TEXT) then Parsed(True, i + 4)
    else if Peek(t, i) == QUOTE then
      match ParseString(t, i)
      case Parsed(s, end) => Parsed(Str(s), end)
      case Rejected(ep) => Rejected(ep)
      case Malformed => Malformed
    else if Peek(t, i) == MINUS || IsDigit(Peek(t, i)) then
      var r := Numerals.Lex(t, i);
      Parsed(Num(Numerals.Value(r.0)), r.1)
    else if Peek(t, i) == LBRACKET then ParseNest(t, i, List)
    else if Peek(t, i) == LBRACE then ParseNest(t, i, Object)
    else Rejected(i)
  }

  function ParseNest(t: seq<byte>, i: nat, kind: Kind): (r: Outcome<Json>)
    requires i < |t|
    ensures r.Parsed? ==> i < r.end <= |t|
    decreases |t| - i - 1, 4
  {
    var a := Skip(t, i + 1);
    if Peek(t, a) == Close(kind) then Parsed(Nest(kind, []), a + 1)
    else
      match ParseEntries(t, a, kind)
      case Parsed(members, end) => Parsed(Nest(kind, members), end)
      case Rejected(ep) => Rejected(ep)
      case Malformed => Malformed
  }

  /** The entries from `a` on, with the closing bracket. */
  function ParseEntries(t: seq<byte>, a: nat, kind: Kind): (r: Outcome<seq<Member>>)
    requires a <= |t|
    ensures r.Parsed? ==> a < r.end <= |t|
    decreases |t| - a, 3
  {
    match ParseEntry(t, a, kind)
    case Rejected(ep) => Rejected(ep)
    case Malformed => Malformed
    case Parsed(m, b) =>
      if Peek(t, b) == COMMA then
        match ParseEntries(t, b + 1, kind)
        case Parsed(ms, end) => Parsed([m] + ms, end)
        case Rejected(ep) => Rejected(ep)
        case Malformed => Malformed
      else if Peek(t, b) == Close(kind) then Parsed([m], b + 1)
      else Rejected(b)
  }

  function ParseEntry(t: seq<byte>, a: nat, kind: Kind): (r: Outcome<Member>)
    requires a <= |t|
    ensures r.Parsed? ==> a < r.end <= |t|
    decreases |t| - a, 2
  {
    if kind == List then ParseMember(t, a, NoName)
    else
      match ParseName(t, a)
      case Rejected(ep) => Rejected(ep)
      case Malformed => Malformed
      case Parsed(name, b) => ParseMember(t, b, Name(name))
  }

  /** A key and its colon. */
  function ParseName(t: seq<byte>, a: nat): (r: Outcome<seq<byte>>)
    requires a <= |t|
    ensures r.Parsed? ==> a < r.end <= |t|
  {
    match ParseString(t, Skip(t, a))
    case Rejected(ep) => Rejected(ep)
    case Malformed => Malformed
    case Parsed(name, e) =>
      var b := Skip(t, e);
      if Peek(t, b) != COLON then Rejected(b) else Parsed(name, b + 1)
  }

  /** A value between blanks. */
  function ParseMember(t: seq<byte>, a: nat, name: Name): (r: Outcome<Member>)
    requires a <= |t|
    ensures r.Parsed? ==> a < r.end <= |t|
    decreases |t| - a, 1
  {
    match ParseValue(t, Skip(t, a))
    case Rejected(ep) => Rejected(ep)
    case Malformed => Malformed
    case Parsed(v, e) => Parsed(Member(name, v), Skip(t, e))
  }

  /** `cJSON_ParseWithOpts`; `end` is what `return_parse_end` receives. */
  function ParseText(t: seq<byte>, requireEnd: bool): Outcome<Json> {
    match ParseValue(t, Skip(t, 0))
    case Rejected(ep) => Rejected(ep)
    case Malformed => Malformed
    case Parsed(v, e) =>
      if !requireEnd then Parsed(v, e)
      else if Peek(t, Skip(t, e)) != NUL then Rejected(Skip(t, e))
      else Parsed(v, Skip(t, e))
  }

  // ----- correctness

  lemma {:induction false} PlainSlotBytes(ws: Slot)
    requires Plain(ws)
    ensures Blanks(RenderSlot(ws))
  {
    if ws != [] { PlainSlotBytes(ws[1..]); }
  }

  /** What a value starts with decides the parser's branch. */
  lemma Leads(c: Cst)
    requires Lenient(c)
    ensures Render(c) != []
    ensures var b := Render(c)[0];
            && !IsSkipped(b) && b != NUL && b != COMMA && b != COLON && b != RBRACKET && b != RBRACE
            && (c.CNumber? <==> b == MINUS || IsDigit(b))
            && (c.CString? <==> b == QUOTE)
  {
    if c.CNumber? && !c.n.negative {
      assert Numerals.Render(c.n)[0] == c.n.whole[0];
    }
  }

  lemma WordsDiffer(t: seq<byte>, i: nat)
    ensures At(t, i, NULL_TEXT) ==> Peek(t, i) == NULL_TEXT[0]
    ensures At(t, i, FALSE_TEXT) ==> Peek(t, i) == FALSE_TEXT[0]
    ensures At(t, i, TRUE_TEXT) ==> Peek(t, i) == TRUE_TEXT[0]
  {
    if At(t, i, NULL_TEXT) { AtFirst(t, i, NULL_TEXT); }
    if At(t, i, FALSE_TEXT) { AtFirst(t, i, FALSE_TEXT); }
    if At(t, i, TRUE_TEXT) { AtFirst(t, i, TRUE_TEXT); }
  }

  lemma StringRender(t: seq<byte>, i: nat, es: seq<Literal.Elem>)
    requires Literal.WellFormedAll(es) && At(t, i, Literal.RenderLiteral(es))
    ensures ParseString(t, i) == Parsed(Literal.Denote(es), i + |Literal.RenderLiteral(es)|)
  {
    hide At, Literal.Render, Literal.Lex, Literal.Denote, Literal.WellFormedAll;
    AtCons(t, i, QUOTE, Literal.Render(es) + [QUOTE]);
    AtSplit(t, i + 1, Literal.Render(es), [QUOTE]);
    AtFirst(t, i + 1 + |Literal.Render(es)|, [QUOTE]);
    Literal.LexRender(t, i + 1, es);
  }

  /** Whatever follows the number `c` does not carry it on. */
  predicate Stops(c: Cst, t: seq<byte>, end: nat)
    requires end <= |t|
  {
    c.CNumber? ==> !Numerals.GoesOn(c.n, Peek(t, end))
  }

  /** On the text of a well-formed tree with blanks in its slots, the parser consumes exactly that
      text and returns the tree it denotes. */
  lemma {:induction false} ParseRender(c: Cst, t: seq<byte>, i: nat)
    requires Lenient(c) && AllSlots(c, Plain)
    requires At(t, i, Render(c)) && Stops(c, t, i + |Render(c)|)
    ensures ParseValue(t, i) == Parsed(Denote(c), i + |Render(c)|)
    decreases c, 0
  {
    hide At, ParseNest, ParseString, RenderEntries, DenoteEntries, LenientEntries, AllEntrySlots, RenderSlot, Skip,
         Numerals.Lex, Numerals.Render, Numerals.Value, Numerals.Lenient, Literal.Render, Literal.Denote, Literal.Lex;
    Leads(c);
    AtFirst(t, i, Render(c));
    WordsDiffer(t, i);
    match c
    case CNull =>
    case CFalse =>
    case CTrue =>
    case CNumber(n) => Numerals.LexRender(t, i, n);
    case CString(es) => StringRender(t, i, es);
    case CNest(kind, open, entries) =>
      var a := i + 1 + |RenderSlot(open)|;
      AtCons(t, i, Open(kind), RenderSlot(open) + RenderEntries(kind, entries));
      AtSplit(t, i + 1, RenderSlot(open), RenderEntries(kind, entries));
      NestRender(kind, entries, t, i, open);
  }

  lemma {:induction false} NestRender(kind: Kind, entries: seq<Entry>, t: seq<byte>, i: nat, open: Slot)
    requires LenientEntries(kind, entries) && AllEntrySlots(entries, Plain) && Plain(open)
    requires i < |t| && At(t, i + 1, RenderSlot(open))
    requires At(t, i + 1 + |RenderSlot(open)|, RenderEntries(kind, entries))
    ensures ParseNest(t, i, kind)
         == Parsed(Nest(kind, DenoteEntries(kind, entries)), i + 1 + |RenderSlot(open)| + |RenderEntries(kind, entries)|)
    decreases entries, 4
  {
    hide Skip, At, RenderSlot, RenderEntry, ParseEntries, DenoteEntry, LenientEntry, Plain;
    var a := i + 1 + |RenderSlot(open)|;
    PlainSlotBytes(open);
    SkipRun(t, i + 1, RenderSlot(open));
    if entries == [] {
      AtFirst(t, a, [Close(kind)]);
      SkipBlanks(t, i + 1, RenderSlot(open), a);
    } else {
      EntriesRender(kind, entries, t, a);
      AtSplit(t, a, RenderEntry(entries[0]), RenderTail(kind, entries[1..]));
      EntryLeads(kind, entries[0], t, a);
      SkipIsIdempotent(t, a, kind);
    }
  }

  lemma SkippedOnce(t: seq<byte>, a: nat)
    requires a <= |t|
    ensures Skip(t, Skip(t, a)) == Skip(t, a)
  {
  }

  /** Only the first byte past the blanks matters to the entry parser. */
  lemma SkipIsIdempotent(t: seq<byte>, a: nat, kind: Kind)
    requires a <= |t|
    ensures Skip(t, Skip(t, a)) == Skip(t, a)
    ensures ParseEntries(t, Skip(t, a), kind) == ParseEntries(t, a, kind)
  {
    hide ParseValue, ParseString, Peek, IsSkipped;
    SkippedOnce(t, a);
    assert ParseEntry(t, Skip(t, a), kind) == ParseEntry(t, a, kind);
  }

  lemma EntryLayout(t: seq<byte>, a: nat, before: seq<byte>, key: seq<byte>, value: seq<byte>, after: seq<byte>)
    requires At(t, a, before + (key + (value + after))) && Blanks(before) && value != []
    requires !IsSkipped(value[0]) && (key != [] ==> !IsSkipped(key[0]))
    ensures Skip(t, a) == a + |before|
    ensures Peek(t, Skip(t, a)) == if key == [] then value[0] else key[0]
    ensures At(t, a + |before|, key)
    ensures At(t, a + |before| + |key|, value)
    ensures At(t, a + |before| + |key| + |value|, after)
  {
    AtFour(t, a, before, key, value, after);
    if key == [] {
      AtFirst(t, a + |before|, value);
    } else {
      AtFirst(t, a + |before|, key);
    }
    SkipBlanks(t, a, before, a + |before|);
  }

  lemma KeyLeads(key: Key)
    ensures if key.NoKey? then RenderKey(key) == [] else RenderKey(key) != [] && RenderKey(key)[0] == QUOTE
  {
  }

  /** The places of an entry's parts, and the first byte that is not blank. */
  lemma EntryLeads(kind: Kind, e: Entry, t: seq<byte>, a: nat)
    requires LenientEntry(kind, e) && Plain(e.before) && At(t, a, RenderEntry(e))
    ensures Skip(t, a) == a + |RenderSlot(e.before)|
    ensures Peek(t, Skip(t, a)) != Close(kind)
    ensures At(t, Skip(t, a), RenderKey(e.key))
    ensures At(t, Skip(t, a) + |RenderKey(e.key)|, Render(e.value))
    ensures At(t, Skip(t, a) + |RenderKey(e.key)| + |Render(e.value)|, RenderSlot(e.after))
  {
    hide Skip, At, Render, RenderSlot, RenderKey, Peek, Plain, Lenient, Literal.WellFormedAll;
    PlainSlotBytes(e.before);
    Leads(e.value);
    KeyLeads(e.key);
    EntryLayout(t, a, RenderSlot(e.before), RenderKey(e.key), Render(e.value), RenderSlot(e.after));
  }

  lemma {:induction false} EntriesRender(kind: Kind, entries: seq<Entry>, t: seq<byte>, a: nat)
    requires entries != [] && LenientEntries(kind, entries) && AllEntrySlots(entries, Plain)
    requires At(t, a, RenderEntries(kind, entries))
    ensures ParseEntries(t, a, kind) == Parsed(DenoteEntries(kind, entries), a + |RenderEntries(kind, entries)|)
    decreases entries, 3
  {
    hide At, Skip, RenderEntry, DenoteEntry, RenderSlot, Literal.Lex, Literal.Denote, Literal.Render;
    var e, rest := entries[0], entries[1..];
    var b := a + |RenderEntry(e)|;
    AtSplit(t, a, RenderEntry(e), RenderTail(kind, rest));
    AtFirst(t, b, RenderTail(kind, rest));
    EntryRender(kind, e, t, a);
    assert DenoteEntries(kind, entries) == [DenoteEntry(kind, e)] + DenoteEntries(kind, rest);
    if rest == [] {
      assert RenderTail(kind, rest) == [Close(kind)];
      assert DenoteEntries(kind, entries) == [DenoteEntry(kind, e)];
    } else {
      assert RenderTail(kind, rest) == [COMMA] + RenderEntries(kind, rest);
      AtCons(t, b, COMMA, RenderEntries(kind, rest));
      EntriesRender(kind, rest, t, b + 1);
    }
  }

  lemma {:induction false} EntryRender(kind: Kind, e: Entry, t: seq<byte>, a: nat)
    requires LenientEntry(kind, e) && EntrySlots(e, Plain) && At(t, a, RenderEntry(e))
    requires Peek(t, a + |RenderEntry(e)|) == COMMA || Peek(t, a + |RenderEntry(e)|) == Close(kind)
    ensures ParseEntry(t, a, kind) == Parsed(DenoteEntry(kind, e), a + |RenderEntry(e)|)
    decreases e, 2
  {
    hide Literal.Lex, Literal.Denote, Literal.Render, RenderSlot, Skip, Render, At;
    EntryLeads(kind, e, t, a);
    var v := Skip(t, a) + |RenderKey(e.key)|;
    if e.key.NoKey? {
      MemberRender(e.value, e.after, NoName, t, a, v);
    } else {
      Leads(e.value);
      AtFirst(t, v, Render(e.value));
      NameRender(e.key, t, a, v);
      MemberRender(e.value, e.after, Name(Literal.Denote(e.key.es)), t, ParseName(t, a).end, v);
    }
  }

  lemma {:induction false} MemberRender(value: Cst, after: Slot, name: Name, t: seq<byte>, a: nat, v: nat)
    requires Lenient(value) && AllSlots(value, Plain) && Plain(after)
    requires a <= |t| && Skip(t, a) == v && At(t, v, Render(value)) && At(t, v + |Render(value)|, RenderSlot(after))
    requires var b := Peek(t, v + |Render(value)| + |RenderSlot(after)|);
             b == COMMA || b == RBRACKET || b == RBRACE
    ensures ParseMember(t, a, name)
         == Parsed(Member(name, Denote(value)), v + |Render(value)| + |RenderSlot(after)|)
    decreases value, 1
  {
    hide Skip, At, Render, RenderSlot, Plain, Lenient, AllSlots, ParseValue, Denote;
    var w := v + |Render(value)|;
    PlainSlotBytes(after);
    if RenderSlot(after) != [] {
      AtFirst(t, w, RenderSlot(after));
    }
    ParseRender(value, t, v);
    SkipBlanks(t, w, RenderSlot(after), w + |RenderSlot(after)|);
  }

  lemma NameLayout(t: seq<byte>, b: nat, name: seq<byte>, before: seq<byte>, after: seq<byte>)
    requires At(t, b, name + (before + ([COLON] + after))) && Blanks(before) && Blanks(after)
    requires !IsSkipped(Peek(t, b + |name| + |before| + 1 + |after|))
    ensures At(t, b, name)
    ensures Skip(t, b + |name|) == b + |name| + |before|
    ensures Peek(t, b + |name| + |before|) == COLON
    ensures Skip(t, b + |name| + |before| + 1) == b + |name| + |before| + 1 + |after|
  {
    AtFour(t, b, name, before, [COLON], after);
    var c := b + |name| + |before|;
    AtFirst(t, c, [COLON]);
    SkipBlanks(t, b + |name|, before, c);
    SkipBlanks(t, c + 1, after, c + 1 + |after|);
  }

  lemma NameRender(key: Key, t: seq<byte>, a: nat, v: nat)
    requires key.Key? && Literal.WellFormedAll(key.es) && Plain(key.beforeColon) && Plain(key.afterColon)
    requires a <= |t| && At(t, Skip(t, a), RenderKey(key)) && v == Skip(t, a) + |RenderKey(key)|
    requires !IsSkipped(Peek(t, v))
    ensures ParseName(t, a).Parsed? && ParseName(t, a).value == Literal.Denote(key.es)
    ensures Skip(t, ParseName(t, a).end) == v
  {
    hide Literal.Lex, Literal.Denote, Literal.Render, RenderSlot, Skip;
    PlainSlotBytes(key.beforeColon);
    PlainSlotBytes(key.afterColon);
    var name := Literal.RenderLiteral(key.es);
    NameLayout(t, Skip(t, a), name, RenderSlot(key.beforeColon), RenderSlot(key.afterColon));
    StringRender(t, Skip(t, a), key.es);
  }

  /** The whole text: blanks, a value, blanks and anything that does not carry a number on. */
  lemma ParseTextRender(before: Slot, c: Cst, after: Slot, rest: seq<byte>, requireEnd: bool)
    requires Lenient(c) && AllSlots(c, Plain) && Plain(before) && Plain(after)
    requires rest != [] ==> !IsSkipped(rest[0])
    requires c.CNumber? && after == [] && rest != [] ==> !Numerals.GoesOn(c.n, rest[0])
    ensures var end := |RenderSlot(before)| + |Render(c)|;
            ParseText(RenderSlot(before) + (Render(c) + (RenderSlot(after) + rest)), requireEnd)
            == if !requireEnd then Parsed(Denote(c), end)
               else if rest == [] || rest[0] == NUL then Parsed(Denote(c), end + |RenderSlot(after)|)
               else Rejected(end + |RenderSlot(after)|)
  {
    hide Literal.Lex, Literal.Denote, Literal.Render, Skip, Render, ParseValue, At, Denote, AllSlots, Lenient,
         ParseText, Peek;
    var s0, s1, s2 := RenderSlot(before), Render(c), RenderSlot(after);
    var t := s0 + (s1 + (s2 + rest));
    Leads(c);
    PlainSlotBytes(before);
    PlainSlotBytes(after);
    AtAll(t);
    TextLayout(t, s0, s1, s2, rest);
    assert after != [] ==> s2 != [];
    ParseRender(c, t, |s0|);
    TextParsed(t, Denote(c), |s0|, |s0| + |s1|, |s0| + |s1| + |s2|, requireEnd);
  }

  lemma TextParsed(t: seq<byte>, v: Json, start: nat, end: nat, past: nat, requireEnd: bool)
    requires Skip(t, 0) == start && ParseValue(t, start) == Parsed(v, end) && Skip(t, end) == past
    ensures ParseText(t, requireEnd)
         == if !requireEnd then Parsed(v, end)
            else if Peek(t, past) == NUL then Parsed(v, past)
            else Rejected(past)
  {
    hide ParseValue, Skip;
  }

  lemma AtAll(t: seq<byte>)
    ensures At(t, 0, t)
  {
  }

  lemma TextLayout(t: seq<byte>, before: seq<byte>, value: seq<byte>, after: seq<byte>, rest: seq<byte>)
    requires At(t, 0, before + (value + (after + rest))) && |t| == |before| + |value| + |after| + |rest|
    requires Blanks(before) && Blanks(after)
    requires value != [] && !IsSkipped(value[0]) && (rest != [] ==> !IsSkipped(rest[0]))
    ensures Skip(t, 0) == |before| && At(t, |before|, value)
    ensures var end := |before| + |value|;
            && Skip(t, end) == end + |after|
            && Peek(t, end) == (if after != [] then after[0] else if rest != [] then rest[0] else NUL)
            && Peek(t, end + |after|) == (if rest != [] then rest[0] else NUL)
  {
    AtFour(t, 0, before, value, after, rest);
    var end := |before| + |value|;
    AtFirst(t, |before|, value);
    SkipBlanks(t, 0, before, |before|);
    if rest != [] { AtFirst(t, end + |after|, rest); }
    if after != [] { AtFirst(t, end, after); }
    SkipBlanks(t, end, after, end + |after|);
  }
}
