/** Concrete syntax trees of JSON texts: the grammar of RFC 8259 with whatever stands in its
    whitespace slots, including the comments that `cJSON_Minify` removes. */
module Grammar {
  import opened CText
  import opened JsonTree
  import Literal
  import Numerals

  datatype Trivia = Blank(b: byte) | LineComment(body: seq<byte>) | BlockComment(body: seq<byte>)

  type Slot = seq<Trivia>

  datatype Cst =
    | CNull
    | CFalse
    | CTrue
    | CNumber(n: Numerals.Numeral)
    | CString(es: seq<Literal.Elem>)
    | CNest(kind: Kind, open: Slot, entries: seq<Entry>)

  /** `before value after` in a list, `before key value after` in an object. */
  datatype Entry = Entry(before: Slot, key: Key, value: Cst, after: Slot)

  datatype Key = NoKey | Key(es: seq<Literal.Elem>, beforeColon: Slot, afterColon: Slot)

  // ----- spelling

  function RenderTrivia(w: Trivia): seq<byte> {
    match w
    case Blank(b) => [b]
    case LineComment(body) => [SLASH, SLASH] + (body + [LF])
    case BlockComment(body) => [SLASH, STAR] + (body + [STAR, SLASH])
  }

  function RenderSlot(ws: Slot): seq<byte> {
    if ws == [] then [] else RenderTrivia(ws[0]) + RenderSlot(ws[1..])
  }

  function RenderKey(key: Key): seq<byte> {
    match key
    case NoKey => []
    case Key(es, beforeColon, afterColon) =>
      Literal.RenderLiteral(es) + (RenderSlot(beforeColon) + ([COLON] + RenderSlot(afterColon)))
  }

  function Render(c: Cst): seq<byte>
    decreases c, 0
  {
    match c
    case CNull => NULL_TEXT
    case CFalse => FALSE_TEXT
    case CTrue => TRUE_TEXT
    case CNumber(n) => Numerals.Render(n)
    case CString(es) => Literal.RenderLiteral(es)
    case CNest(kind, open, entries) => [Open(kind)] + (RenderSlot(open) + RenderEntries(kind, entries))
  }

  function RenderEntry(e: Entry): seq<byte>
    decreases e, 1
  {
    RenderSlot(e.before) + (RenderKey(e.key) + (Render(e.value) + RenderSlot(e.after)))
  }

  /** The entries up to and including the closing bracket. */
  function RenderEntries(kind: Kind, entries: seq<Entry>): seq<byte>
    decreases entries, 0
  {
    if entries == [] then [Close(kind)] else RenderEntry(entries[0]) + RenderTail(kind, entries[1..])
  }

  function RenderTail(kind: Kind, entries: seq<Entry>): seq<byte>
    decreases entries, 1
  {
    if entries == [] then [Close(kind)]
    else [COMMA] + (RenderEntry(entries[0]) + RenderTail(kind, entries[1..]))
  }

  // ----- meaning

  function DenoteKey(key: Key): Name
    requires key.Key? ==> Literal.WellFormedAll(key.es)
  {
    if key.NoKey? then NoName else Name(Literal.Denote(key.es))
  }

  function Denote(c: Cst): Json
    requires Lenient(c)
    decreases c, 0
  {
    match c
    case CNull => Null
    case CFalse => False
    case CTrue => True
    case CNumber(n) => Num(Numerals.Value(n))
    case CString(es) => Str(Literal.Denote(es))
    case CNest(kind, _, entries) => Nest(kind, DenoteEntries(kind, entries))
  }

  function DenoteEntry(kind: Kind, e: Entry): Member
    requires LenientEntry(kind, e)
    decreases e, 0
  {
    Member(DenoteKey(e.key), Denote(e.value))
  }

  function DenoteEntries(kind: Kind, entries: seq<Entry>): seq<Member>
    requires LenientEntries(kind, entries)
    decreases entries, 0
  {
    if entries == [] then [] else [DenoteEntry(kind, entries[0])] + DenoteEntries(kind, entries[1..])
  }

  // ----- well-formedness

  function WellFormed(c: Cst): (r: bool)
    ensures r ==> Lenient(c)
    decreases c, 0
  {
    match c
    case CNumber(n) => Numerals.WellFormed(n)
    case CString(es) => Literal.WellFormedAll(es)
    case CNest(kind, _, entries) => WellFormedEntries(kind, entries)
    case _ => true
  }

  function WellFormedEntry(kind: Kind, e: Entry): (r: bool)
    ensures r ==> LenientEntry(kind, e)
    decreases e, 0
  {
    && e.key.Key? == (kind == Object)
    && (e.key.Key? ==> Literal.WellFormedAll(e.key.es))
    && WellFormed(e.value)
  }

  function WellFormedEntries(kind: Kind, entries: seq<Entry>): (r: bool)
    ensures r ==> LenientEntries(kind, entries)
    decreases entries, 0
  {
    entries != [] ==> WellFormedEntry(kind, entries[0]) && WellFormedEntries(kind, entries[1..])
  }

  /** Trees whose numerals need only be such that the scanner takes them. */
  predicate Lenient(c: Cst)
    decreases c, 0
  {
    match c
    case CNumber(n) => Numerals.Lenient(n)
    case CString(es) => Literal.WellFormedAll(es)
    case CNest(kind, _, entries) => LenientEntries(kind, entries)
    case _ => true
  }

  predicate LenientEntry(kind: Kind, e: Entry)
    decreases e, 0
  {
    && e.key.Key? == (kind == Object)
    && (e.key.Key? ==> Literal.WellFormedAll(e.key.es))
    && Lenient(e.value)
  }

  predicate LenientEntries(kind: Kind, entries: seq<Entry>)
    decreases entries, 0
  {
    entries != [] ==> LenientEntry(kind, entries[0]) && LenientEntries(kind, entries[1..])
  }

  /** A property of every whitespace slot of a tree. */
  ghost predicate AllSlots(c: Cst, p: Slot -> bool)
    decreases c, 0
  {
    c.CNest? ==> p(c.open) && AllEntrySlots(c.entries, p)
  }

  ghost predicate EntrySlots(e: Entry, p: Slot -> bool)
    decreases e, 0
  {
    && p(e.before) && p(e.after) && AllSlots(e.value, p)
    && (e.key.Key? ==> p(e.key.beforeColon) && p(e.key.afterColon))
  }

  ghost predicate AllEntrySlots(entries: seq<Entry>, p: Slot -> bool)
    decreases entries, 0
  {
    entries != [] ==> EntrySlots(entries[0], p) && AllEntrySlots(entries[1..], p)
  }

  /** What the parser skips: bytes from 1 to 32 and no comments. */
  predicate Plain(ws: Slot) {
    forall k :: 0 <= k < |ws| ==> ws[k].Blank? && 1 <= ws[k].b <= 32
  }

  function Blanked(s: seq<byte>): Slot {
    if s == [] then [] else [Blank(s[0])] + Blanked(s[1..])
  }

  /** Whitespace as section 2 of RFC 8259 has it. */
  predicate IsWhitespace(b: byte) { b == 0x20 || b == 0x09 || b == 0x0A || b == 0x0D }

  predicate Rfc(ws: Slot) {
    forall k :: 0 <= k < |ws| ==> ws[k].Blank? && IsWhitespace(ws[k].b)
  }

  lemma {:induction false} BlankedText(s: seq<byte>)
    requires Blanks(s)
    ensures RenderSlot(Blanked(s)) == s && Plain(Blanked(s))
    ensures (forall k :: 0 <= k < |s| ==> IsWhitespace(s[k])) ==> Clean(Blanked(s))
  {
    if s != [] {
      BlankedText(s[1..]);
      assert s == [s[0]] + s[1..];
    }
  }

  /** A tree whose slots are as the RFC has them is one that the parser and the stripper are made for. */
  lemma {:induction false} RfcSlots(c: Cst)
    requires AllSlots(c, Rfc)
    ensures AllSlots(c, Plain) && AllSlots(c, Clean)
    decreases c, 1
  {
    if c.CNest? { RfcEntrySlots(c.entries); }
  }

  lemma {:induction false} RfcEntrySlots(es: seq<Entry>)
    requires AllEntrySlots(es, Rfc)
    ensures AllEntrySlots(es, Plain) && AllEntrySlots(es, Clean)
    decreases es, 0
  {
    hide AllSlots;
    if es != [] {
      RfcSlots(es[0].value);
      RfcEntrySlots(es[1..]);
    }
  }

  /** No block comment ends before the end of `s`. */
  predicate NoClose(s: seq<byte>) {
    forall k :: 0 <= k < |s| - 1 ==> !(s[k] == STAR && s[k + 1] == SLASH)
  }

  /** What `cJSON_Minify` removes. A block comment must not start with `/`, because the scan for
      its end starts at the opening slash and takes `/``*``/` for a whole comment. */
  predicate CleanTrivia(w: Trivia) {
    match w
    case Blank(b) => IsWhitespace(b)
    case LineComment(body) => NUL !in body && LF !in body
    case BlockComment(body) => NUL !in body && NoClose(body) && (body == [] || body[0] != SLASH)
  }

  predicate Clean(ws: Slot) {
    forall k :: 0 <= k < |ws| ==> CleanTrivia(ws[k])
  }

  // ----- removing everything from the slots

  function StripKey(key: Key): Key {
    if key.NoKey? then NoKey else Key(key.es, [], [])
  }

  function Strip(c: Cst): Cst
    decreases c, 0
  {
    match c
    case CNest(kind, _, entries) => CNest(kind, [], StripEntries(entries))
    case _ => c
  }

  function StripEntry(e: Entry): Entry
    decreases e, 0
  {
    Entry([], StripKey(e.key), Strip(e.value), [])
  }

  function StripEntries(entries: seq<Entry>): seq<Entry>
    decreases entries, 0
  {
    if entries == [] then [] else [StripEntry(entries[0])] + StripEntries(entries[1..])
  }

  lemma {:induction false} StripKeepsMeaning(c: Cst)
    requires WellFormed(c)
    ensures WellFormed(Strip(c)) && Denote(Strip(c)) == Denote(c) && AllSlots(Strip(c), Plain)
    decreases c, 0
  {
    if c.CNest? { StripEntriesKeepsMeaning(c.kind, c.entries); }
  }

  lemma {:induction false} StripEntriesKeepsMeaning(kind: Kind, entries: seq<Entry>)
    requires WellFormedEntries(kind, entries)
    ensures WellFormedEntries(kind, StripEntries(entries))
    ensures DenoteEntries(kind, StripEntries(entries)) == DenoteEntries(kind, entries)
    ensures AllEntrySlots(StripEntries(entries), Plain)
    decreases entries, 0
  {
    if entries != [] {
      StripKeepsMeaning(entries[0].value);
      StripEntriesKeepsMeaning(kind, entries[1..]);
      assert StripEntries(entries)[1..] == StripEntries(entries[1..]);
    }
  }
}
