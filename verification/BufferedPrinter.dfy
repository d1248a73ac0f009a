/** The printer that writes into a growing buffer. What `print_value` leaves at the offset is only the
    tail of its text: for a container the offset has already moved up to the closing bracket. Adding
    the length of the string that stands there always gives the end of the whole text. */
module BufferedPrinter {
  import opened CText
  import opened JsonTree
  import opened PrinterSpec
  import opened PrintBuffers
  import Literal
  import Numerals
  import opened Standing
  import Nodes
  import Pow2gt
  import StringPrinter
  import PrintedText

  /** The largest amount by which a request exceeds the text it is for. */
  const SLACK: nat := 64

  ghost predicate Fits(p: PrintBuffer, n: nat)
    reads p
  {
    p.buffer != null ==> p.offset + n + SLACK <= Pow2gt.TWO_30
  }

  /** `print_number` */
  method PrintNumber(p: PrintBuffer, lib: Nodes.Library, d: real, valueint: int, libc: real -> Numerals.Numeral)
    returns (out: int)
    requires p.Ready(lib) && GoodFormat(libc) && Fits(p, |Numerals.Render(NumeralFor(d, valueint, libc))|)
    modifies p, p.buffer, lib`live, lib`denied
    ensures p.Ready(lib) && out == if p.buffer == null then -1 else old(p.offset)
    ensures p.buffer != null ==>
              && old(p.buffer) != null && (p.buffer == old(p.buffer) || fresh(p.buffer))
              && p.Text() == old(p.Text()) && p.Wrote(Numerals.Render(NumeralFor(d, valueint, libc)))
  {
    hide Numerals.Render;
    PrintedText.NumberFits(d, valueint, libc);
    out := p.offset;
    var ok;
    if d == 0.0 {
      PrintedText.ZeroText();
      ok := p.Fill(lib, [ZERO], 2, true);
    } else if Abs(valueint as real - d) <= DBL_EPSILON && INT_MIN as real <= d <= INT_MAX as real {
      ok := p.Fill(lib, Numerals.Render(Numerals.IntNumeral(valueint)), 21, true);
    } else {
      ok := p.Fill(lib, Numerals.Render(libc(d)), 64, true);
    }
    if !ok {
      return -1;
    }
  }

  /** `print_string_ptr` */
  method PrintStringPtr(p: PrintBuffer, lib: Nodes.Library, s: seq<byte>) returns (out: int)
    requires p.Ready(lib) && Fits(p, |Quoted(s)|)
    modifies p, p.buffer, lib`live, lib`denied
    ensures p.Ready(lib) && out == if p.buffer == null then -1 else old(p.offset)
    ensures p.buffer != null ==>
              && old(p.buffer) != null && (p.buffer == old(p.buffer) || fresh(p.buffer))
              && p.Text() == old(p.Text()) && p.Wrote(Quoted(s))
  {
    hide QuoteElems, Literal.Render;
    var flag := StringPrinter.NeedsEscape(s);
    var len;
    if !flag {
      StringPrinter.PlainBody(s);
      len := |s|;
    } else {
      len := StringPrinter.EscapedLength(s);
    }
    out := p.offset;
    var ok := p.Ensure(lib, len + 3);
    if !ok {
      return -1;
    }
    StringPrinter.WriteQuoted(p.buffer, p.offset, s, flag, len, p.granted);
  }

  /** Moves the offset behind the string that stands there. */
  method Advance(p: PrintBuffer, lib: Nodes.Library, ghost tail: seq<byte>)
    requires p.Ready(lib) && (p.buffer != null ==> p.Wrote(tail)) && NUL !in tail
    modifies p`offset
    ensures p.Ready(lib) && (p.buffer != null ==> p.Text() == old(p.Text()) + tail)
  {
    p.offset := p.Update(tail);
    if p.buffer != null {
      assert p.Text() == old(p.Text()) + p.buffer[old(p.offset)..p.offset];
    }
  }

  /** Where the returned pointer points: nested objects that are formatted have lost track of their
      start and answer with their depth instead. */
  function Answer(j: Json, depth: nat, fmt: bool, start: nat): nat {
    if fmt && j.Nest? && j.kind == Object && j.members != [] then depth else start
  }

  /** Prints an item of a tree that the buffer has nothing to do with. */
  method PrintValue(p: PrintBuffer, lib: Nodes.Library, item: Nodes.Node, depth: nat, fmt: bool,
                    libc: real -> Numerals.Numeral, ghost s: Nodes.Shape, ghost j: Json)
    returns (out: int, ghost tail: seq<byte>)
    requires item == s.node && Stands(s, j) && Nodes.Objects(s) <= p.kept
    requires p.Ready(lib) && GoodFormat(libc) && Fits(p, |Print(j, depth, fmt, libc)|)
    modifies p, p.buffer, lib`live, lib`denied
    ensures p.Ready(lib) && NUL !in tail
    ensures out == if p.buffer == null then -1 else Answer(j, depth, fmt, old(p.offset))
    ensures p.buffer != null ==>
              && old(p.buffer) != null && (p.buffer == old(p.buffer) || fresh(p.buffer))
              && old(p.offset) <= p.offset
              && p.Text() + tail == old(p.Text()) + Print(j, depth, fmt, libc) && p.Wrote(tail)
    decreases s, 1
  {
    hide ItemsText, MembersText, Numerals.Render, Quoted, StandsAll, PrintBuffer.Ready, PrintBuffer.Valid,
         PrintBuffer.Wrote,
         Nodes.ObjectsOf;
    tail := Print(j, depth, fmt, libc);
    PrintedText.HasNoNul(j, depth, fmt, libc);
    var ok := true;
    out := p.offset;
    match item.tag {
      case TNull => ok := p.Fill(lib, NULL_TEXT, 5, true);
      case TFalse => ok := p.Fill(lib, FALSE_TEXT, 6, true);
      case TTrue => ok := p.Fill(lib, TRUE_TEXT, 5, true);
      case TNumber => out := PrintNumber(p, lib, item.valuedouble, item.valueint, libc);
      case TString => out := PrintStringPtr(p, lib, CStr(item.valuestring[..]));
      case TArray => out, tail := PrintArray(p, lib, item, depth, fmt, libc, s, j.members);
      case TObject => out, tail := PrintObject(p, lib, item, depth, fmt, libc, s, j.members);
    }
    if !ok {
      out := -1;
    }
  }

  /** A child's value, and past it. */
  method PrintChild(p: PrintBuffer, lib: Nodes.Library, item: Nodes.Node, depth: nat, fmt: bool,
                    libc: real -> Numerals.Numeral, ghost s: Nodes.Shape, ghost j: Json)
    requires item == s.node && Stands(s, j) && Nodes.Objects(s) <= p.kept
    requires p.Ready(lib) && GoodFormat(libc) && Fits(p, |Print(j, depth, fmt, libc)|)
    modifies p, p.buffer, lib`live, lib`denied
    ensures p.Ready(lib)
    ensures p.buffer != null ==>
              && old(p.buffer) != null && (p.buffer == old(p.buffer) || fresh(p.buffer))
              && p.Text() == old(p.Text()) + Print(j, depth, fmt, libc)
    decreases s, 2
  {
    hide Print, Stands;
    var out;
    ghost var tail;
    out, tail := PrintValue(p, lib, item, depth, fmt, libc, s, j);
    Advance(p, lib, tail);
  }

  /** Nothing of a tree is touched by printing it. */
  lemma Apart(p: PrintBuffer, lib: Nodes.Library, ks: seq<Nodes.Shape>)
    requires p.Ready(lib) && Nodes.ObjectsOf(ks) <= p.kept
    ensures p !in Nodes.ObjectsOf(ks) && lib !in Nodes.ObjectsOf(ks)
    ensures p.buffer != null ==> p.buffer !in Nodes.ObjectsOf(ks)
    ensures forall o :: o in Nodes.ObjectsOf(ks) ==> allocated(o)
  {
    hide Nodes.ObjectsOf;
    Nodes.ExistAll(ks);
  }

  /** A container without children. */
  method PrintEmpty(p: PrintBuffer, lib: Nodes.Library, kind: Kind, depth: nat, fmt: bool, libc: real -> Numerals.Numeral)
    returns (out: int, ghost tail: seq<byte>)
    requires p.Ready(lib) && GoodFormat(libc) && Fits(p, |Print(Nest(kind, []), depth, fmt, libc)|)
    modifies p, p.buffer, lib`live, lib`denied
    ensures p.Ready(lib) && NUL !in tail && out == if p.buffer == null then -1 else old(p.offset)
    ensures p.buffer != null ==>
              && old(p.buffer) != null && (p.buffer == old(p.buffer) || fresh(p.buffer))
              && old(p.offset) == p.offset
              && p.Text() + tail == old(p.Text()) + Print(Nest(kind, []), depth, fmt, libc) && p.Wrote(tail)
  {
    hide Print, PrintBuffer.Text, PrintBuffer.Valid, PrintBuffer.Ready, PrintBuffer.Wrote, Tabs;
    PrintedText.TabsLength(depth - 1);
    TabsAreTabs(depth - 1);
    PrintedText.EmptyText(kind, depth, fmt, libc);
    out := p.offset;
    var text := [Open(kind)] + (When(kind == Object && fmt, [LF] + Tabs(depth - 1)) + [Close(kind)]);
    tail := text;
    var ok := p.Fill(lib, text, if kind == Object && fmt then depth + 4 else 3, true);
    if !ok {
      out := -1;
    }
  }

  method PrintArray(p: PrintBuffer, lib: Nodes.Library, item: Nodes.Node, depth: nat, fmt: bool,
                    libc: real -> Numerals.Numeral, ghost s: Nodes.Shape, ghost ms: seq<Member>)
    returns (out: int, ghost tail: seq<byte>)
    requires item == s.node && item.child == Nodes.First(s.kids) && StandsAll(s.kids, ms, List)
    requires Nodes.Objects(s) <= p.kept && p.Ready(lib) && GoodFormat(libc)
    requires Fits(p, |Print(Nest(List, ms), depth, fmt, libc)|)
    modifies p, p.buffer, lib`live, lib`denied
    ensures p.Ready(lib) && NUL !in tail && out == if p.buffer == null then -1 else old(p.offset)
    ensures p.buffer != null ==>
              && old(p.buffer) != null && (p.buffer == old(p.buffer) || fresh(p.buffer))
              && old(p.offset) <= p.offset
              && p.Text() + tail == old(p.Text()) + Print(Nest(List, ms), depth, fmt, libc) && p.Wrote(tail)
    decreases s, 0
  {
    hide Print, ItemsText, PrintedText.ItemsLeft, PrintBuffer.Text, PrintBuffer.Valid, PrintBuffer.Ready,
         PrintBuffer.Wrote,
         Stands, StandsAll, Nodes.Objects, Nodes.ObjectsOf;
    ghost var ks := s.kids;
    Nodes.InNode(s);
    Apart(p, lib, ks);
    var i := p.offset;
    var numentries := CountChildren(item, ks, ms, List);
    Standing.Lengths(ks, ms, List);
    if numentries == 0 {
      out, tail := PrintEmpty(p, lib, List, depth, fmt, libc);
      return;
    }
    tail := [RBRACKET];
    PrintedText.NestText(ms, depth, fmt, libc);
    PrintedText.ItemsLeftAll(ms, depth, fmt, libc);
    ghost var t := if p.buffer == null then [] else p.Text();
    ghost var whole := t + Print(Nest(List, ms), depth, fmt, libc);
    PrintedText.Three(t, [LBRACKET], [], ItemsText(ms, depth, fmt, libc));
    var ok := p.Emit(lib, [LBRACKET], false);
    if !ok {
      return -1, tail;
    }
    ok := PrintItems(p, lib, item.child, depth, fmt, libc, ks, ms);
    if !ok {
      return -1, tail;
    }
    assert p.buffer != null ==> p.Text() + tail == whole;
    ok := p.Fill(lib, [RBRACKET], 2, true);
    out := if ok then i else -1;
  }

  /** All the items, up to the closing bracket. */
  method PrintItems(p: PrintBuffer, lib: Nodes.Library, first: Nodes.Node?, depth: nat, fmt: bool,
                    libc: real -> Numerals.Numeral, ghost ks: seq<Nodes.Shape>, ghost ms: seq<Member>)
    returns (ok: bool)
    requires first == Nodes.First(ks) && StandsAll(ks, ms, List) && |ks| == |ms| && Nodes.ObjectsOf(ks) <= p.kept
    requires p.Ready(lib) && GoodFormat(libc) && Fits(p, |PrintedText.ItemsLeft(ms, depth, fmt, libc)|)
    modifies p, p.buffer, lib`live, lib`denied
    ensures p.Ready(lib) && (!ok ==> p.buffer == null)
    ensures p.buffer != null ==>
              && old(p.buffer) != null && (p.buffer == old(p.buffer) || fresh(p.buffer))
              && p.Text() + [RBRACKET] == old(p.Text()) + PrintedText.ItemsLeft(ms, depth, fmt, libc)
    decreases ks, 4
  {
    hide Print, PrintedText.ItemsLeft, PrintBuffer.Text, PrintBuffer.Valid, PrintBuffer.Ready, PrintBuffer.Wrote,
         Stands, StandsAll, Nodes.Objects, Nodes.ObjectsOf;
    Apart(p, lib, ks);
    ghost var whole := if p.buffer == null then [] else p.Text() + PrintedText.ItemsLeft(ms, depth, fmt, libc);
    assert ms[0..] == ms;
    ok := true;
    var child := first;
    ghost var k := 0;
    while child != null
      invariant 0 <= k <= |ms| == |ks| && child == Nodes.NodeAt(ks, k) && StandsAll(ks, ms, List) && p.Ready(lib)
      invariant p.buffer != null ==>
                  && old(p.buffer) != null && (p.buffer == old(p.buffer) || fresh(p.buffer))
                  && p.Text() + PrintedText.ItemsLeft(ms[k..], depth, fmt, libc) == whole
      decreases |ks| - k
    {
      PrintedText.ItemsLeftStep(ms, k, depth, fmt, libc);
      PrintedText.Three(if p.buffer == null then [] else p.Text(), Print(ms[k].value, depth + 1, fmt, libc),
            if k + 1 < |ms| then [COMMA] + When(fmt, [SPACE]) else [],
            PrintedText.ItemsLeft(ms[k + 1..], depth, fmt, libc));
      ok := PrintItem(p, lib, child, depth + 1, fmt, libc, ks, k, ms);
      if !ok {
        return;
      }
      Standing.Child(ks, k, ms, List);
      child := child.next;
      k := k + 1;
    }
    assert ms[|ms|..] == [];
    PrintedText.ItemsLeftEnd(depth, fmt, libc);
  }

  /** An item and the comma behind it. A refusal at the last item is only noticed later. */
  method PrintItem(p: PrintBuffer, lib: Nodes.Library, child: Nodes.Node, depth: nat, fmt: bool,
                   libc: real -> Numerals.Numeral, ghost ks: seq<Nodes.Shape>, ghost k: nat, ghost ms: seq<Member>)
    returns (ok: bool)
    requires StandsAll(ks, ms, List) && k < |ks| == |ms| && child == ks[k].node && Nodes.ObjectsOf(ks) <= p.kept
    requires p.Ready(lib) && GoodFormat(libc) && Fits(p, |Print(ms[k].value, depth, fmt, libc)|)
    modifies p, p.buffer, lib`live, lib`denied
    ensures p.Ready(lib) && (!ok ==> p.buffer == null)
    ensures p.buffer != null ==>
              && old(p.buffer) != null && (p.buffer == old(p.buffer) || fresh(p.buffer))
              && p.Text() == (old(p.Text()) + Print(ms[k].value, depth, fmt, libc))
                             + if k + 1 < |ms| then [COMMA] + When(fmt, [SPACE]) else []
    decreases ks, 3
  {
    hide Print, PrintBuffer.Text, PrintBuffer.Valid, PrintBuffer.Ready, PrintBuffer.Wrote, Stands, StandsAll,
         Nodes.Objects, Nodes.ObjectsOf;
    Apart(p, lib, ks);
    Standing.Child(ks, k, ms, List);
    PrintChild(p, lib, child, depth, fmt, libc, ks[k], ms[k].value);
    Standing.Child(ks, k, ms, List);
    ok := true;
    if child.next != null {
      ok := p.Emit(lib, [COMMA] + When(fmt, [SPACE]), true);
    }
  }

  /** A member and what separates it from the next. */
  method PrintEntry(p: PrintBuffer, lib: Nodes.Library, child: Nodes.Node, depth: nat, fmt: bool,
                    libc: real -> Numerals.Numeral, ghost ks: seq<Nodes.Shape>, ghost k: nat, ghost ms: seq<Member>)
    returns (ok: bool)
    requires StandsAll(ks, ms, Object) && k < |ks| == |ms| && child == ks[k].node && Nodes.ObjectsOf(ks) <= p.kept
    requires p.Ready(lib) && GoodFormat(libc) && Fits(p, |MemberText(ms[k], depth, fmt, libc)|)
    modifies p, p.buffer, lib`live, lib`denied
    ensures p.Ready(lib) && ok == (p.buffer != null)
    ensures p.buffer != null ==>
              && old(p.buffer) != null && (p.buffer == old(p.buffer) || fresh(p.buffer))
              && p.Text() == (old(p.Text()) + MemberText(ms[k], depth, fmt, libc))
                             + ((if k + 1 < |ms| then [COMMA] else []) + When(fmt, [LF]))
    decreases ks, 4
  {
    hide Print, MemberText, PrintBuffer.Text, PrintBuffer.Valid, PrintBuffer.Ready, PrintBuffer.Wrote, Stands,
         StandsAll,
         Nodes.Objects, Nodes.ObjectsOf;
    Apart(p, lib, ks);
    ok := PrintMember(p, lib, child, depth, fmt, libc, ks, k, ms);
    if !ok {
      return;
    }
    Standing.Child(ks, k, ms, Object);
    ok := p.Emit(lib, (if child.next != null then [COMMA] else []) + When(fmt, [LF]), true);
  }

  method PrintObject(p: PrintBuffer, lib: Nodes.Library, item: Nodes.Node, depth: nat, fmt: bool,
                     libc: real -> Numerals.Numeral, ghost s: Nodes.Shape, ghost ms: seq<Member>)
    returns (out: int, ghost tail: seq<byte>)
    requires item == s.node && item.child == Nodes.First(s.kids) && StandsAll(s.kids, ms, Object)
    requires Nodes.Objects(s) <= p.kept && p.Ready(lib) && GoodFormat(libc)
    requires Fits(p, |Print(Nest(Object, ms), depth, fmt, libc)|)
    modifies p, p.buffer, lib`live, lib`denied
    ensures p.Ready(lib) && NUL !in tail
    ensures out == if p.buffer == null then -1 else Answer(Nest(Object, ms), depth, fmt, old(p.offset))
    ensures p.buffer != null ==>
              && old(p.buffer) != null && (p.buffer == old(p.buffer) || fresh(p.buffer))
              && old(p.offset) <= p.offset && p.Wrote(tail)
              && p.Text() + tail == old(p.Text()) + Print(Nest(Object, ms), depth, fmt, libc)
    decreases s, 0
  {
    hide Print, MembersText, MemberText, Tabs, When, PrintBuffer.Text, PrintBuffer.Valid, PrintBuffer.Ready,
         PrintBuffer.Wrote,
         Stands, StandsAll, Nodes.Objects, Nodes.ObjectsOf;
    ghost var ks := s.kids;
    Nodes.InNode(s);
    Apart(p, lib, ks);
    var i := p.offset;
    var numentries := CountChildren(item, ks, ms, Object);
    Standing.Lengths(ks, ms, Object);
    if numentries == 0 {
      out, tail := PrintEmpty(p, lib, Object, depth, fmt, libc);
      return;
    }
    tail := When(fmt, Tabs(depth)) + [RBRACE];
    PrintedText.MembersEnd(depth, fmt, libc);
    PrintedText.NestText(ms, depth, fmt, libc);
    PrintedText.Three(if p.buffer == null then [] else p.Text(), [LBRACE], When(fmt, [LF]), MembersText(ms, depth + 1, fmt, libc));
    var ok := p.Emit(lib, [LBRACE] + When(fmt, [LF]), true);
    if !ok {
      return -1, tail;
    }
    ok := PrintMembers(p, lib, item.child, depth + 1, fmt, libc, ks, ms);
    if !ok {
      return -1, tail;
    }
    ok := p.Fill(lib, When(fmt, Tabs(depth)) + [RBRACE], if fmt then depth + 2 else 2, true);
    if fmt {
      i := depth;  // the loop that writes the tabs counts with the variable that held the start
    }
    out := if ok then i else -1;
  }

  /** All the members, up to the closing brace and the tabs before it. */
  method PrintMembers(p: PrintBuffer, lib: Nodes.Library, first: Nodes.Node?, depth: nat, fmt: bool,
                      libc: real -> Numerals.Numeral, ghost ks: seq<Nodes.Shape>, ghost ms: seq<Member>)
    returns (ok: bool)
    requires first == Nodes.First(ks) && StandsAll(ks, ms, Object) && |ks| == |ms| && Nodes.ObjectsOf(ks) <= p.kept
    requires p.Ready(lib) && GoodFormat(libc) && Fits(p, |MembersText(ms, depth, fmt, libc)|)
    modifies p, p.buffer, lib`live, lib`denied
    ensures p.Ready(lib) && (!ok ==> p.buffer == null)
    ensures p.buffer != null ==>
              && old(p.buffer) != null && (p.buffer == old(p.buffer) || fresh(p.buffer))
              && old(p.offset) <= p.offset
              && p.Text() + MembersText([], depth, fmt, libc) == old(p.Text()) + MembersText(ms, depth, fmt, libc)
    decreases ks, 5
  {
    hide Print, MembersText, MemberText, PrintBuffer.Text, PrintBuffer.Valid, PrintBuffer.Ready, PrintBuffer.Wrote,
         Stands, StandsAll, Nodes.Objects, Nodes.ObjectsOf;
    Apart(p, lib, ks);
    ghost var whole := if p.buffer == null then [] else p.Text() + MembersText(ms, depth, fmt, libc);
    assert ms[0..] == ms;
    ok := true;
    var child := first;
    ghost var k := 0;
    while child != null
      invariant 0 <= k <= |ms| == |ks| && child == Nodes.NodeAt(ks, k) && StandsAll(ks, ms, Object) && p.Ready(lib)
      invariant p.buffer != null ==>
                  && old(p.buffer) != null && (p.buffer == old(p.buffer) || fresh(p.buffer))
                  && old(p.offset) <= p.offset && p.Text() + MembersText(ms[k..], depth, fmt, libc) == whole
      decreases |ks| - k
    {
      PrintedText.MembersStep(ms, k, depth, fmt, libc);
      PrintedText.Three(if p.buffer == null then [] else p.Text(), MemberText(ms[k], depth, fmt, libc),
            (if k + 1 < |ms| then [COMMA] else []) + When(fmt, [LF]), MembersText(ms[k + 1..], depth, fmt, libc));
      ok := PrintEntry(p, lib, child, depth, fmt, libc, ks, k, ms);
      if !ok {
        return;
      }
      Standing.Child(ks, k, ms, Object);
      child := child.next;
      k := k + 1;
    }
    assert ms[|ms|..] == [];
  }

  /** Indentation, name, colon and value. */
  method PrintMember(p: PrintBuffer, lib: Nodes.Library, child: Nodes.Node, depth: nat, fmt: bool,
                     libc: real -> Numerals.Numeral, ghost ks: seq<Nodes.Shape>, ghost k: nat, ghost ms: seq<Member>)
    returns (ok: bool)
    requires StandsAll(ks, ms, Object) && k < |ks| == |ms| && child == ks[k].node && Nodes.ObjectsOf(ks) <= p.kept
    requires p.Ready(lib) && GoodFormat(libc) && Fits(p, |MemberText(ms[k], depth, fmt, libc)|)
    modifies p, p.buffer, lib`live, lib`denied
    ensures p.Ready(lib) && (!ok ==> p.buffer == null)
    ensures p.buffer != null ==>
              && old(p.buffer) != null && (p.buffer == old(p.buffer) || fresh(p.buffer))
              && p.Text() == old(p.Text()) + MemberText(ms[k], depth, fmt, libc)
    decreases ks, 3
  {
    hide Print, Tabs, Quoted, PrintBuffer.Text, PrintBuffer.Valid, PrintBuffer.Ready, PrintBuffer.Wrote, Stands,
         StandsAll,
         Nodes.Objects, Nodes.ObjectsOf;
    Apart(p, lib, ks);
    Standing.Child(ks, k, ms, Object);
    var name := CStr(child.name[..]);
    ghost var m := ms[k];
    PrintedText.TabsLength(depth);
    PrintedText.QuotedHasNoNul(name);
    ok := true;
    ghost var t := if p.buffer == null then [] else p.Text();
    PrintedText.Chain(t, When(fmt, Tabs(depth)), Quoted(name), [COLON], When(fmt, [TAB]), Print(m.value, depth, fmt, libc));
    if fmt {
      ok := p.Emit(lib, Tabs(depth), false);
      if !ok {
        return;
      }
    }
    assert p.buffer != null ==> p.Text() == t + When(fmt, Tabs(depth));
    var _ := PrintStringPtr(p, lib, name);
    Advance(p, lib, Quoted(name));
    ok := p.Emit(lib, [COLON] + When(fmt, [TAB]), false);
    if !ok {
      return;
    }
    Standing.Child(ks, k, ms, Object);
    PrintChild(p, lib, child, depth, fmt, libc, ks[k], m.value);
  }

  lemma Complete(b: seq<byte>, k: nat, tail: seq<byte>, text: seq<byte>)
    requires k + |tail| < |b| && b[..k] + tail == text && b[k..k + |tail|] == tail && b[k + |tail|] == NUL
    ensures |text| < |b| && b[..|text|] == text && b[|text|] == NUL
  {
    assert b[..k] + b[k..k + |tail|] == b[..k + |tail|];
  }

  /** An empty buffer of the size that the caller asks for, apart from the tree that is to be printed. */
  method NewBuffer(lib: Nodes.Library, prebuffer: nat, ghost kept: set<object>) returns (p: PrintBuffer)
    modifies lib`live, lib`denied
    ensures fresh(p) && (p.buffer == null || fresh(p.buffer))
    ensures p.Ready(lib) && p.offset == 0 && p.initial == prebuffer && p.others == old(lib.live) && p.kept == kept
  {
    var buffer := lib.NewBytes(prebuffer);
    p := new PrintBuffer(lib, buffer, prebuffer, kept);
  }

  /** `cJSON_PrintBuffered`: the text that the other printer gives, as a C string, or nothing if a
      request was refused; and then nothing stays allocated. Regrowing the buffer copied less in all
      than the first and the last block hold. */
  method PrintBuffered(lib: Nodes.Library, item: Nodes.Node, prebuffer: nat, fmt: bool, libc: real -> Numerals.Numeral,
                       ghost s: Nodes.Shape, ghost j: Json)
    returns (a: array?<byte>, ghost copied: nat)
    requires item == s.node && Stands(s, j)
    requires GoodFormat(libc) && |Print(j, 0, fmt, libc)| + SLACK <= Pow2gt.TWO_30
    modifies lib`live, lib`denied
    ensures a == null ==> lib.denied && lib.live == old(lib.live)
    ensures a != null ==>
              && fresh(a) && lib.live == old(lib.live) + {a} && CStr(a[..]) == Print(j, 0, fmt, libc)
              && copied < prebuffer + a.Length
  {
    hide Print, Stands, Nodes.Objects, PrintBuffer.Valid, PrintBuffer.Ready, GoodFormat, CStr;
    Nodes.Exist(s);
    Nodes.InNode(s);
    var p := NewBuffer(lib, prebuffer, Nodes.Objects(s));
    var out;
    ghost var tail;
    out, tail := PrintValue(p, lib, item, 0, fmt, libc, s, j);
    a, copied := p.buffer, p.copied;
    p.Outcome(lib);
    if a != null {
      Complete(a[..], p.offset, tail, Print(j, 0, fmt, libc));
      PrintedText.HasNoNul(j, 0, fmt, libc);
      CStrOf(a[..], Print(j, 0, fmt, libc));
    }
  }
}
