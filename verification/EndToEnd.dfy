/** Printer, parser and allocator together: a tree that is printed into a buffer and parsed back comes
    back with the same value, and nothing stays allocated, whichever requests are refused on the way. */
module EndToEnd {
  import opened CText
  import opened JsonTree
  import opened PrinterSpec
  import opened RoundTrip
  import opened Standing
  import BufferedPrinter
  import Duplicate
  import SimplePrinter
  import Nodes
  import NodeParser
  import Numerals
  import ParserSpec
  import ParseText
  import Pow2gt

  /** A tree that is there to be printed has a value that can be printed: what its strings hold ends at
      the first NUL. */
  lemma {:induction false} StandsIsPrintable(s: Nodes.Shape, j: Json)
    requires Stands(s, j)
    ensures Printable(j)
    decreases s, 1
  {
    if s.node.tag == Nodes.TString { CStrHasNoNul(s.text[..]); }
    if s.node.tag == Nodes.TArray || s.node.tag == Nodes.TObject { StandAllPrintable(s.kids, j.members, j.kind, 0); }
  }

  lemma {:induction false} StandAllPrintable(ks: seq<Nodes.Shape>, ms: seq<Member>, kind: Kind, i: nat)
    requires StandsAll(ks, ms, kind) && i <= |ks| == |ms|
    ensures PrintableAll(kind, ms[i..])
    decreases ks, 0, |ks| - i
  {
    hide Stands, StandsAll;
    if i < |ks| {
      Standing.Child(ks, i, ms, kind);
      StandsIsPrintable(ks[i], ms[i].value);
      if kind == Object { CStrHasNoNul(ks[i].name[..]); }
      StandAllPrintable(ks, ms, kind, i + 1);
      assert ms[i..][1..] == ms[i + 1..];
    }
  }

  method PrintAndParse(lib: Nodes.Library, item: Nodes.Node, prebuffer: nat, fmt: bool, libc: real -> Numerals.Numeral,
                       ghost s: Nodes.Shape, ghost j: Json)
    returns (back: bool, ghost value: Json)
    requires item == s.node && Stands(s, j)
    requires GoodFormat(libc) && |Print(j, 0, fmt, libc)| + BufferedPrinter.SLACK <= Pow2gt.TWO_30
    modifies lib
    ensures lib.live == old(lib.live) && Stands(s, j)
    ensures back ==> value == Rounded(Unnamed(j), libc) && (IntNumbers(j) ==> value == Unnamed(j))
    ensures !back ==> lib.denied
  {
    hide Print, Unnamed, Printable, Rounded, ParserSpec.ParseText, ParseText.Rooted, Nodes.Objects, Nodes.Value,
         IntNumbers,
         Stands;
    Nodes.Exist(s);
    Nodes.InNode(s);
    value := Null;
    var a;
    ghost var copied;
    a, copied := BufferedPrinter.PrintBuffered(lib, item, prebuffer, fmt, libc, s, j);
    if a == null {
      return false, value;
    }
    var t := CStr(a[..]);
    StandsIsPrintable(s, j);
    ParsePrint(j, 0, fmt, libc, []);
    assert Print(j, 0, fmt, libc) + [] == t;
    var c, end, kids := ParseText.ParseWithOpts(lib, t, false);
    back := c != null;
    if c != null {
      value := Nodes.Value(NodeParser.ShapeOf(c, kids));
      if IntNumbers(j) {
        UnnamedInts(j);
        IntNumbersStay(Unnamed(j), libc);
      }
      ParseText.DeleteTree(lib, c, NodeParser.ShapeOf(c, kids));
    }
    lib.Free(a);
  }

  /** Both printers give the same text, unless they are refused the memory for it. */
  method PrintBothWays(lib: Nodes.Library, item: Nodes.Node, prebuffer: nat, fmt: bool, libc: real -> Numerals.Numeral,
                       ghost s: Nodes.Shape, ghost j: Json)
    returns (simple: array?<byte>, buffered: array?<byte>)
    requires item == s.node && Stands(s, j)
    requires GoodFormat(libc) && |Print(j, 0, fmt, libc)| + BufferedPrinter.SLACK <= Pow2gt.TWO_30
    modifies lib`live, lib`denied
    ensures simple == null || buffered == null ==> lib.denied
    ensures simple != null ==> CStr(simple[..]) == Print(j, 0, fmt, libc)
    ensures buffered != null ==> CStr(buffered[..]) == Print(j, 0, fmt, libc) && buffered != simple
    ensures lib.live == old(lib.live) + Nodes.Opt(simple) + Nodes.Opt(buffered)
  {
    hide Print, Stands, Nodes.Objects;
    Nodes.Exist(s);
    Nodes.InNode(s);
    ghost var copied;
    buffered, copied := BufferedPrinter.PrintBuffered(lib, item, prebuffer, fmt, libc, s, j);
    assert buffered != null ==> lib !in Nodes.Opt(buffered);
    simple := SimplePrinter.PrintTree(lib, item, fmt, libc, s, j);
  }

  lemma {:induction false} PrintableIsNamed(j: Json)
    requires Printable(j)
    ensures Named(j)
    decreases j, 1
  {
    if j.Nest? { PrintableAreNamed(j.kind, j.members); }
  }

  lemma {:induction false} PrintableAreNamed(kind: Kind, ms: seq<Member>)
    requires PrintableAll(kind, ms)
    ensures NamedAll(kind, ms)
    decreases ms, 0
  {
    hide Printable, Named;
    if ms != [] {
      assert ms[0].value < ms[0];
      PrintableIsNamed(ms[0].value);
      PrintableAreNamed(kind, ms[1..]);
      assert forall i :: 0 < i < |ms| ==> ms[i] == ms[1..][i - 1];
    }
  }

  /** A tree that the parser has built can be printed. */
  lemma ParsedTreesStand(s: Nodes.Shape, t: seq<byte>, requireEnd: bool)
    requires ParseText.Rooted(s) && Nodes.Spelled(s) && ParserSpec.ParseText(t, requireEnd).Parsed?
    requires Nodes.Value(s) == ParserSpec.ParseText(t, requireEnd).value
    ensures Printable(Nodes.Value(s)) && Stands(s, Nodes.Value(s))
  {
    hide Nodes.Linked, Nodes.Tidy, Nodes.Distinct, Nodes.Spelled, Nodes.Value, Stands, Printable, Named, HarmlessIn,
         ParserSpec.ParseText;
    ParseText.OwnsAll(s);
    TidyIsHarmless(s);
    TextIsPrintable(t, requireEnd);
    PrintableIsNamed(Nodes.Value(s));
    TreeStands(s);
  }

  /** Parse, print and parse again, as a program does that edits a file: for every text that is accepted
      the second tree is the first one with its numbers as they print, and nothing stays allocated. */
  method ParsePrintParse(lib: Nodes.Library, t: seq<byte>, prebuffer: nat, fmt: bool, libc: real -> Numerals.Numeral)
    returns (first: bool, second: bool, ghost value: Json)
    requires !ParserSpec.ParseText(t, false).Malformed? && GoodFormat(libc)
    requires ParserSpec.ParseText(t, false).Parsed? ==>
               |Print(ParserSpec.ParseText(t, false).value, 0, fmt, libc)| + BufferedPrinter.SLACK <= Pow2gt.TWO_30
    modifies lib
    ensures lib.live == old(lib.live)
    ensures !first ==> lib.denied || ParserSpec.ParseText(t, false).Rejected?
    ensures first && !second ==> lib.denied
    ensures second ==>
              && first && ParserSpec.ParseText(t, false).Parsed?
              && var j := ParserSpec.ParseText(t, false).value;
                 value == Rounded(j, libc) && (IntNumbers(j) ==> value == j)
  {
    hide Print, Printable, Rounded, Unnamed, ListsUnnamed, ParserSpec.ParseText, ParseText.Rooted, Nodes.Objects,
         Nodes.Value, Nodes.Spelled,
         IntNumbers, Stands;
    value := Null;
    second := false;
    var c, end, kids := ParseText.ParseWithOpts(lib, t, false);
    first := c != null;
    if c != null {
      ghost var s := NodeParser.ShapeOf(c, kids);
      ghost var j := ParserSpec.ParseText(t, false).value;
      ParsedTreesStand(s, t, false);
      TextIsPrintable(t, false);
      UnnamedAlready(j);
      second, value := PrintAndParse(lib, c, prebuffer, fmt, libc, s, j);
      ParseText.DeleteTree(lib, c, s);
    }
  }

  /** A copy stands where the original does, with the same value: it prints as the same text. */
  lemma {:induction false} CopyStands(s: Nodes.Shape, d: Nodes.Shape, j: Json)
    requires Stands(s, j) && Nodes.Linked(d, false) && Duplicate.ContentOf(s) == Duplicate.ContentOf(d)
    ensures Stands(d, j)
    decreases s, 1
  {
    if s.node.tag == Nodes.TArray || s.node.tag == Nodes.TObject { CopiesStand(s.kids, d.kids, j.members, j.kind); }
  }

  lemma {:induction false} CopiesStand(ks: seq<Nodes.Shape>, ds: seq<Nodes.Shape>, ms: seq<Member>, kind: Kind)
    requires StandsAll(ks, ms, kind) && Nodes.Segment(ds, false, null, null)
    requires Duplicate.ContentsOf(ks) == Duplicate.ContentsOf(ds)
    ensures StandsAll(ds, ms, kind)
    decreases ks, 0
  {
    hide Stands, Duplicate.ContentOf, Duplicate.ContentsOf;
    Lengths(ks, ms, kind);
    assert |ks| == |Duplicate.ContentsOf(ks)| == |ds|;
    forall i | 0 <= i < |ds| ensures StandsAt(ds, i, ms[i], kind) {
      Standing.Child(ks, i, ms, kind);
      assert Duplicate.ContentsOf(ks)[i] == Duplicate.ContentsOf(ds)[i];
      assert Nodes.InPlace(ds, i, false, null, null);
      CopyStands(ks[i], ds[i], ms[i].value);
      SameName(ks[i], ds[i]);
    }
  }

  lemma SameName(s: Nodes.Shape, d: Nodes.Shape)
    requires Nodes.Linked(d, false) && Duplicate.ContentOf(s) == Duplicate.ContentOf(d)
    ensures d.node.name == d.name && (s.name == null <==> d.name == null)
    ensures s.name != null ==> CStr(s.name[..]) == CStr(d.name[..])
  {
  }
}
