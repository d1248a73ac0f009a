/** The printer that allocates every piece and then concatenates: the sizes it adds up beforehand are
    enough for what it writes, and every piece is freed again, also when a request is refused. */
module SimplePrinter {
  import opened CText
  import opened JsonTree
  import opened PrinterSpec
  import opened Nodes
  import opened Standing
  import Numerals
  import PrintedText
  import StringPrinter
  import Literal

  /** A block that starts with a C string. */
  ghost predicate Spells(a: array<byte>, w: seq<byte>)
    reads a
  {
    |w| < a.Length && a[..|w|] == w && a[|w|] == NUL
  }

  method StrLen(a: array<byte>, ghost w: seq<byte>) returns (n: nat)
    requires Spells(a, w) && NUL !in w
    ensures n == |w|
  {
    n := 0;
    while a[n] != NUL
      invariant n <= |w|
      decreases |w| - n
    {
      n := n + 1;
    }
  }

  /** Asks for `size` bytes and writes a string there. */
  method NewText(lib: Library, w: seq<byte>, size: nat) returns (a: array?<byte>)
    requires |w| < size
    modifies lib`live, lib`denied
    ensures a == null ==> lib.denied && lib.live == old(lib.live)
    ensures a != null ==> fresh(a) && lib.live == old(lib.live) + {a} && lib.denied == old(lib.denied) && Spells(a, w)
  {
    a := lib.NewBytes(size);
    if a != null {
      StringPrinter.Put(a, 0, w, size);
      a[|w|] := NUL;
    }
  }

  method PrintNumber(lib: Library, d: real, valueint: int, libc: real -> Numerals.Numeral) returns (a: array?<byte>)
    requires GoodFormat(libc)
    modifies lib`live, lib`denied
    ensures a == null ==> lib.denied && lib.live == old(lib.live)
    ensures a != null ==>
              && fresh(a) && lib.live == old(lib.live) + {a} && lib.denied == old(lib.denied)
              && Spells(a, Numerals.Render(NumeralFor(d, valueint, libc)))
  {
    hide Numerals.Render;
    PrintedText.NumberFits(d, valueint, libc);
    if d == 0.0 {
      PrintedText.ZeroText();
      a := NewText(lib, [ZERO], 2);
    } else if Abs(valueint as real - d) <= DBL_EPSILON && INT_MIN as real <= d <= INT_MAX as real {
      a := NewText(lib, Numerals.Render(Numerals.IntNumeral(valueint)), 21);
    } else {
      a := NewText(lib, Numerals.Render(libc(d)), 64);
    }
  }

  method PrintStringPtr(lib: Library, s: seq<byte>) returns (a: array?<byte>)
    modifies lib`live, lib`denied
    ensures a == null ==> lib.denied && lib.live == old(lib.live)
    ensures a != null ==>
              && fresh(a) && lib.live == old(lib.live) + {a} && lib.denied == old(lib.denied)
              && Spells(a, Quoted(s))
  {
    hide QuoteElems, Literal.Render;
    var flag := StringPrinter.NeedsEscape(s);
    var len;
    if !flag {
      StringPrinter.PlainBody(s);
      len := |s|;
    } else {
      len := StringPrinter.EscapedLength(s);
    }
    a := lib.NewBytes(len + 3);
    if a != null {
      StringPrinter.WriteQuoted(a, 0, s, flag, len, len + 3);
    }
  }

  // ----- tables of strings

  ghost function Blocks(e: seq<array?<byte>>): (os: set<object>)
    ensures forall i :: 0 <= i < |e| && e[i] != null ==> e[i] in os
    ensures forall o :: o in os ==> o is array<byte>
    ensures forall o :: o in os ==> exists i :: 0 <= i < |e| && e[i] == o
  {
    assert forall i :: 0 <= i < |e| && e[i] != null ==> e[i] in Opt(e[i]);
    set i, o | 0 <= i < |e| && o in Opt(e[i]) :: o
  }

  /** No block stands in two places. */
  ghost predicate Apart(e: seq<array?<byte>>) {
    forall i, j :: 0 <= i < j < |e| && e[i] != null ==> e[i] != e[j]
  }

  ghost predicate AllSpell(e: seq<array?<byte>>, texts: seq<seq<byte>>)
    reads Blocks(e)
  {
    |e| <= |texts| && forall i :: 0 <= i < |e| && e[i] != null ==> Spells(e[i], texts[i])
  }

  lemma BlocksRest(e: seq<array?<byte>>, i: nat)
    requires i < |e| && Apart(e)
    ensures Blocks(e[i..]) == (if e[i] == null then {} else {e[i]}) + Blocks(e[i + 1..])
    ensures e[i] != null ==> e[i] !in Blocks(e[i + 1..])
  {
    assert e[i..] == [e[i]] + e[i + 1..];
  }

  /** Frees what is in a table. */
  method FreeAll(lib: Library, e: seq<array?<byte>>)
    requires Apart(e) && Blocks(e) <= lib.live
    modifies lib`live
    ensures lib.live == old(lib.live) - Blocks(e)
  {
    assert e[0..] == e;
    for i := 0 to |e|
      invariant lib.live == (old(lib.live) - Blocks(e)) + Blocks(e[i..])
    {
      BlocksRest(e, i);
      if e[i] != null {
        lib.Free(e[i]);
      }
    }
    assert e[|e|..] == [];
  }

  ghost predicate Empty(e: seq<array?<byte>>) { forall i :: 0 <= i < |e| ==> e[i] == null }

  ghost predicate Full(e: seq<array?<byte>>) { forall i :: 0 <= i < |e| ==> e[i] != null }

  /** A block goes where the table was still empty. */
  lemma Stored(e: seq<array?<byte>>, i: nat, ret: array?<byte>, texts: seq<seq<byte>>)
    requires i < |e| == |texts| && e[i] == null && Apart(e) && AllSpell(e, texts)
    requires ret != null ==> ret !in Blocks(e) && Spells(ret, texts[i])
    ensures Blocks(e[i := ret]) == Blocks(e) + Opt(ret) && Apart(e[i := ret]) && AllSpell(e[i := ret], texts)
  {
    hide Spells;
    var r := e[i := ret];
    forall o | o in Blocks(e) + Opt(ret) ensures o in Blocks(r) {
      if o in Blocks(e) {
        var k :| 0 <= k < |e| && e[k] == o;
        assert r[k] == e[k];
      } else {
        assert r[i] == ret;
      }
    }
  }

  /** A table filled up to an index. */
  ghost predicate Gathered(e: seq<array?<byte>>, texts: seq<seq<byte>>, i: nat)
    reads Blocks(e)
  {
    && i <= |e| == |texts| && Apart(e) && AllSpell(e, texts)
    && (forall k :: i <= k < |e| ==> e[k] == null)
  }

  ghost predicate FullTo(e: seq<array?<byte>>, i: nat)
    requires i <= |e|
  {
    forall k :: 0 <= k < i ==> e[k] != null
  }

  lemma GatheredMore(e: seq<array?<byte>>, i: nat, ret: array?<byte>, texts: seq<seq<byte>>)
    requires i < |e| && Gathered(e, texts, i)
    requires ret != null ==> ret !in Blocks(e) && Spells(ret, texts[i])
    ensures Gathered(e[i := ret], texts, i + 1) && Blocks(e[i := ret]) == Blocks(e) + Opt(ret)
    ensures FullTo(e, i) && ret != null ==> FullTo(e[i := ret], i + 1)
  {
    hide Spells, Apart, AllSpell, Blocks;
    Stored(e, i, ret, texts);
  }

  lemma GatheredNone(e: seq<array?<byte>>, texts: seq<seq<byte>>)
    requires Empty(e) && |e| == |texts|
    ensures Gathered(e, texts, 0) && Blocks(e) == {} && FullTo(e, 0)
  {
    hide Spells;
    NothingYet(e, texts);
  }

  lemma GatheredAll(e: seq<array?<byte>>, texts: seq<seq<byte>>, i: nat)
    requires Gathered(e, texts, i)
    ensures Apart(e) && AllSpell(e, texts) && |e| == |texts|
    ensures i == |e| && FullTo(e, i) ==> Full(e)
  {
    hide Spells, Apart, AllSpell, Blocks;
  }

  function Values(ms: seq<Member>, depth: nat, fmt: bool, libc: real -> Numerals.Numeral): (ts: seq<seq<byte>>)
    ensures |ts| == |ms| && forall i :: 0 <= i < |ms| ==> ts[i] == Print(ms[i].value, depth, fmt, libc)
  {
    seq(|ms|, i requires 0 <= i < |ms| => Print(ms[i].value, depth, fmt, libc))
  }

  function Names(ms: seq<Member>): (ts: seq<seq<byte>>)
    ensures |ts| == |ms| && forall i :: 0 <= i < |ms| ==> ts[i] == Quoted(KeyText(ms[i]))
  {
    seq(|ms|, i requires 0 <= i < |ms| => Quoted(KeyText(ms[i])))
  }

  /** What the items add to the size that is asked for. */
  function ItemsRoom(ms: seq<Member>, depth: nat, fmt: bool, libc: real -> Numerals.Numeral): nat {
    if ms == [] then 0
    else |Print(ms[0].value, depth, fmt, libc)| + 2 + (if fmt then 1 else 0) + ItemsRoom(ms[1..], depth, fmt, libc)
  }

  lemma ItemsRoomStep(ms: seq<Member>, k: nat, depth: nat, fmt: bool, libc: real -> Numerals.Numeral)
    requires k < |ms|
    ensures ItemsRoom(ms[k..], depth, fmt, libc)
         == |Print(ms[k].value, depth, fmt, libc)| + 2 + (if fmt then 1 else 0) + ItemsRoom(ms[k + 1..], depth, fmt, libc)
  {
    hide Print;
    assert ms[k..][1..] == ms[k + 1..];
  }

  lemma {:induction false} ItemsFit(ms: seq<Member>, depth: nat, fmt: bool, libc: real -> Numerals.Numeral)
    ensures |PrintedText.ItemsLeft(ms, depth, fmt, libc)| <= ItemsRoom(ms, depth + 1, fmt, libc) + 1
  {
    hide Print;
    if ms != [] { ItemsFit(ms[1..], depth, fmt, libc); }
  }

  function MembersRoom(ms: seq<Member>, depth: nat, fmt: bool, libc: real -> Numerals.Numeral): nat {
    if ms == [] then 0
    else |Print(ms[0].value, depth, fmt, libc)| + |Quoted(KeyText(ms[0]))| + 2 + (if fmt then 2 + depth else 0)
         + MembersRoom(ms[1..], depth, fmt, libc)
  }

  lemma MembersRoomStep(ms: seq<Member>, k: nat, depth: nat, fmt: bool, libc: real -> Numerals.Numeral)
    requires k < |ms|
    ensures MembersRoom(ms[k..], depth, fmt, libc)
         == |Print(ms[k].value, depth, fmt, libc)| + |Quoted(KeyText(ms[k]))| + 2 + (if fmt then 2 + depth else 0)
            + MembersRoom(ms[k + 1..], depth, fmt, libc)
  {
    hide Print, Quoted;
    assert ms[k..][1..] == ms[k + 1..];
  }

  lemma {:induction false} MembersFit(ms: seq<Member>, depth: nat, fmt: bool, libc: real -> Numerals.Numeral)
    ensures |MembersText(ms, depth, fmt, libc)| <= MembersRoom(ms, depth, fmt, libc) + (if fmt then depth else 0) + 1
  {
    hide Print, Quoted, Tabs;
    PrintedText.TabsLength(depth - 1);
    PrintedText.TabsLength(depth);
    if ms != [] { MembersFit(ms[1..], depth, fmt, libc); }
  }

  // ----- values

  method PrintValue(lib: Library, item: Node, depth: nat, fmt: bool, libc: real -> Numerals.Numeral,
                    ghost s: Shape, ghost j: Json)
    returns (a: array?<byte>)
    requires item == s.node && Stands(s, j) && GoodFormat(libc)
    modifies lib`live, lib`denied
    ensures a == null ==> lib.denied && lib.live == old(lib.live)
    ensures a != null ==>
              && fresh(a) && lib.live == old(lib.live) + {a} && lib.denied == old(lib.denied)
              && Spells(a, Print(j, depth, fmt, libc))
    decreases s, 1
  {
    hide ItemsText, MembersText, Numerals.Render, Quoted, StandsAll, ObjectsOf;
    match item.tag {
      case TNull => a := StrDup(lib, NULL_TEXT);
      case TFalse => a := StrDup(lib, FALSE_TEXT);
      case TTrue => a := StrDup(lib, TRUE_TEXT);
      case TNumber => a := PrintNumber(lib, item.valuedouble, item.valueint, libc);
      case TString => a := PrintStringPtr(lib, CStr(item.valuestring[..]));
      case TArray => a := PrintArray(lib, item, depth, fmt, libc, s, j.members);
      case TObject => a := PrintObject(lib, item, depth, fmt, libc, s, j.members);
    }
  }

  /** A container without children. */
  method PrintEmpty(lib: Library, kind: Kind, depth: nat, fmt: bool, libc: real -> Numerals.Numeral)
    returns (a: array?<byte>)
    modifies lib`live, lib`denied
    ensures a == null ==> lib.denied && lib.live == old(lib.live)
    ensures a != null ==>
              && fresh(a) && lib.live == old(lib.live) + {a} && lib.denied == old(lib.denied)
              && Spells(a, Print(Nest(kind, []), depth, fmt, libc))
  {
    hide Print, Spells;
    PrintedText.TabsLength(depth - 1);
    PrintedText.EmptyText(kind, depth, fmt, libc);
    a := NewText(lib, [Open(kind)] + (When(kind == Object && fmt, [LF] + Tabs(depth - 1)) + [Close(kind)]),
                 if kind == Object && fmt then depth + 4 else 3);
  }

  /** The pointers that stand for "nothing yet". */
  function Nulls(n: nat): (e: seq<array?<byte>>)
    ensures |e| == n && forall i :: 0 <= i < n ==> e[i] == null
  {
    seq(n, _ => null)
  }

  /** Prints the items into a table, stopping when one is refused. */
  method CollectItems(lib: Library, item: Node, numentries: nat, depth: nat, fmt: bool, libc: real -> Numerals.Numeral,
                      ghost ks: seq<Shape>, ghost ms: seq<Member>)
    returns (fail: bool, e: seq<array?<byte>>, len: nat)
    requires item.child == First(ks) && StandsAll(ks, ms, List) && GoodFormat(libc) && numentries == |ks| == |ms|
    modifies lib`live, lib`denied
    ensures |e| == |ms| && Apart(e) && AllSpell(e, Values(ms, depth, fmt, libc))
    ensures lib.live == old(lib.live) + Blocks(e) && forall o :: o in Blocks(e) ==> fresh(o)
    ensures fail ==> lib.denied
    ensures !fail ==> lib.denied == old(lib.denied) && Full(e) && len == 5 + ItemsRoom(ms, depth, fmt, libc)
    decreases ks, 2
  {
    hide Print, Spells, Blocks, AllSpell, Apart, Stands, StandsAll, Objects, ObjectsOf, Values, ItemsRoom, Gathered,
         FullTo, Full;
    Untouched(lib, ks);
    ghost var texts := Values(ms, depth, fmt, libc);
    fail, e, len := false, Nulls(numentries), 5;
    GatheredNone(e, texts);
    assert ms[0..] == ms;
    var child := item.child;
    var i: nat := 0;
    while child != null && !fail
      invariant i <= |ms| == |ks| == |e| && child == NodeAt(ks, i) && StandsAll(ks, ms, List)
      invariant Gathered(e, texts, i)
      invariant lib.live == old(lib.live) + Blocks(e) && forall o :: o in Blocks(e) ==> fresh(o)
      invariant fail ==> lib.denied
      invariant !fail ==>
                  && lib.denied == old(lib.denied) && FullTo(e, i)
                  && len + ItemsRoom(ms[i..], depth, fmt, libc) == 5 + ItemsRoom(ms, depth, fmt, libc)
      decreases |ks| - i
    {
      ItemsRoomStep(ms, i, depth, fmt, libc);
      Standing.Child(ks, i, ms, List);
      var ret, n := PrintItem(lib, child, depth, fmt, libc, ks[i], ms[i].value);
      GatheredMore(e, i, ret, texts);
      e := e[i := ret];
      if ret != null {
        len := len + n + 2 + if fmt then 1 else 0;
      } else {
        fail := true;
      }
      Standing.Child(ks, i, ms, List);
      child := child.next;
      i := i + 1;
    }
    GatheredAll(e, texts, i);
    NoItems(ms[|ms|..], depth, fmt, libc);
  }

  lemma NoItems(ms: seq<Member>, depth: nat, fmt: bool, libc: real -> Numerals.Numeral)
    requires ms == []
    ensures ItemsRoom(ms, depth, fmt, libc) == 0 && MembersRoom(ms, depth, fmt, libc) == 0
  {
  }

  /** A value's text and its length. */
  method PrintItem(lib: Library, item: Node, depth: nat, fmt: bool, libc: real -> Numerals.Numeral,
                   ghost s: Shape, ghost j: Json)
    returns (ret: array?<byte>, n: nat)
    requires item == s.node && Stands(s, j) && GoodFormat(libc)
    modifies lib`live, lib`denied
    ensures ret == null ==> lib.denied && lib.live == old(lib.live)
    ensures ret != null ==>
              && fresh(ret) && lib.live == old(lib.live) + {ret} && lib.denied == old(lib.denied)
              && Spells(ret, Print(j, depth, fmt, libc)) && n == |Print(j, depth, fmt, libc)|
    decreases s, 2
  {
    hide Print, Stands;
    ret := PrintValue(lib, item, depth, fmt, libc, s, j);
    n := 0;
    if ret != null {
      PrintedText.HasNoNul(j, depth, fmt, libc);
      n := StrLen(ret, Print(j, depth, fmt, libc));
    }
  }

  /** Nothing of a tree is touched by printing it. */
  lemma Untouched(lib: Library, ks: seq<Shape>)
    ensures lib !in ObjectsOf(ks) && forall o :: o in ObjectsOf(ks) ==> allocated(o)
  {
    hide ObjectsOf;
    ExistAll(ks);
  }

  lemma NothingYet(e: seq<array?<byte>>, texts: seq<seq<byte>>)
    requires Empty(e) && |e| == |texts|
    ensures Blocks(e) == {} && Apart(e) && AllSpell(e, texts)
  {
  }

  /** Copies a piece to its place in the whole text. */
  method Concatenate(out: array<byte>, ptr: nat, a: array<byte>, ghost w: seq<byte>) returns (next: nat)
    requires Spells(a, w) && NUL !in w && ptr + |w| <= out.Length
    modifies out
    ensures next == ptr + |w| && out[..next] == old(out[..ptr]) + w
  {
    var tmplen := StrLen(a, w);
    StringPrinter.Put(out, ptr, a[..tmplen], out.Length);
    next := ptr + tmplen;
    assert out[..next] == out[..ptr] + out[ptr..next];
  }

  /** Some bytes and a NUL behind them. */
  method Append(out: array<byte>, ptr: nat, w: seq<byte>) returns (next: nat)
    requires ptr + |w| < out.Length
    modifies out
    ensures next == ptr + |w| && out[..next] == old(out[..ptr]) + w && out[next] == NUL
  {
    StringPrinter.Put(out, ptr, w, out.Length);
    next := ptr + |w|;
    out[next] := NUL;
    assert out[..next] == out[..ptr] + out[ptr..next];
  }

  lemma BlocksExist(e: seq<array?<byte>>)
    ensures forall o :: o in Blocks(e) ==> allocated(o)
  {
  }

  lemma SpellsAt(e: seq<array?<byte>>, texts: seq<seq<byte>>, i: nat)
    requires i < |e| && AllSpell(e, texts) && Full(e)
    ensures Spells(e[i], texts[i]) && e[i] in Blocks(e)
  {
  }

  /** Puts the items together in the block that was asked for, freeing each as it goes. */
  method ComposeItems(lib: Library, e: seq<array?<byte>>, out: array<byte>, ghost ms: seq<Member>, depth: nat, fmt: bool,
                      libc: real -> Numerals.Numeral)
    requires GoodFormat(libc) && ms != [] && |e| == |ms|
    requires Full(e) && Apart(e) && AllSpell(e, Values(ms, depth + 1, fmt, libc)) && Blocks(e) <= lib.live
    requires out !in Blocks(e) && out.Length >= 5 + ItemsRoom(ms, depth + 1, fmt, libc)
    modifies out, lib`live
    ensures lib.live == old(lib.live) - Blocks(e)
    ensures Spells(out, [LBRACKET] + ItemsText(ms, depth, fmt, libc))
  {
    hide Print, Blocks, ItemsText, PrintedText.ItemsLeft, Apart, AllSpell, ItemsRoom;
    ghost var whole := [LBRACKET] + ItemsText(ms, depth, fmt, libc);
    ghost var texts := Values(ms, depth + 1, fmt, libc);
    ItemsFit(ms, depth, fmt, libc);
    PrintedText.ItemsLeftAll(ms, depth, fmt, libc);
    assert ms[0..] == ms && e[0..] == e;
    BlocksExist(e);
    assert lib !in Blocks(e);
    var ptr: nat := 0;
    ptr := Append(out, ptr, [LBRACKET]);
    var i: nat := 0;
    while i < |e|
      invariant i <= |ms|
      invariant ptr <= out.Length && out[..ptr] + PrintedText.ItemsLeft(ms[i..], depth, fmt, libc) == whole
      invariant AllSpell(e, texts)
      invariant lib.live == (old(lib.live) - Blocks(e)) + Blocks(e[i..])
    {
      PrintedText.ItemsLeftStep(ms, i, depth, fmt, libc);
      SpellsAt(e, texts, i);
      PrintedText.HasNoNul(ms[i].value, depth + 1, fmt, libc);
      PrintedText.Three(out[..ptr], texts[i], if i + 1 < |ms| then [COMMA] + When(fmt, [SPACE]) else [],
             PrintedText.ItemsLeft(ms[i + 1..], depth, fmt, libc));
      ptr := Concatenate(out, ptr, e[i], texts[i]);
      if i + 1 != |e| {
        ptr := Append(out, ptr, [COMMA] + When(fmt, [SPACE]));
      }
      BlocksRest(e, i);
      lib.Free(e[i]);
      i := i + 1;
    }
    assert ms[|ms|..] == [] && e[|ms|..] == [];
    NothingYet([], []);
    PrintedText.ItemsLeftEnd(depth, fmt, libc);
    ptr := Append(out, ptr, [RBRACKET]);
    assert out[..ptr] == whole;
  }

  const SIZEOF_POINTER: nat := 8

  method PrintArray(lib: Library, item: Node, depth: nat, fmt: bool, libc: real -> Numerals.Numeral,
                    ghost s: Shape, ghost ms: seq<Member>)
    returns (out: array?<byte>)
    requires item == s.node && item.child == First(s.kids) && StandsAll(s.kids, ms, List) && GoodFormat(libc)
    modifies lib`live, lib`denied
    ensures out == null ==> lib.denied && lib.live == old(lib.live)
    ensures out != null ==>
              && fresh(out) && lib.live == old(lib.live) + {out} && lib.denied == old(lib.denied)
              && Spells(out, Print(Nest(List, ms), depth, fmt, libc))
    decreases s, 0
  {
    hide Print, Blocks, ItemsText, Spells, AllSpell, Apart, ItemsRoom, Stands, StandsAll, Objects, ObjectsOf, Values;
    ghost var ks := s.kids;
    Untouched(lib, ks);
    Exist(s);
    InNode(s);
    Lengths(ks, ms, List);
    var numentries := CountChildren(item, ks, ms, List);
    if numentries == 0 {
      out := PrintEmpty(lib, List, depth, fmt, libc);
      return;
    }
    PrintedText.NestText(ms, depth, fmt, libc);
    out := null;
    var table := lib.NewBytes(numentries * SIZEOF_POINTER);
    if table == null {
      return;
    }
    var fail, e, len := CollectItems(lib, item, numentries, depth + 1, fmt, libc, ks, ms);
    if !fail {
      out := lib.NewBytes(len);
    }
    if out == null {
      FreeAll(lib, e);
    } else {
      ComposeItems(lib, e, out, ms, depth, fmt, libc);
    }
    lib.Free(table);
  }

  method PrintObject(lib: Library, item: Node, depth: nat, fmt: bool, libc: real -> Numerals.Numeral,
                     ghost s: Shape, ghost ms: seq<Member>)
    returns (out: array?<byte>)
    requires item == s.node && item.child == First(s.kids) && StandsAll(s.kids, ms, Object) && GoodFormat(libc)
    modifies lib`live, lib`denied
    ensures out == null ==> lib.denied && lib.live == old(lib.live)
    ensures out != null ==>
              && fresh(out) && lib.live == old(lib.live) + {out} && lib.denied == old(lib.denied)
              && Spells(out, Print(Nest(Object, ms), depth, fmt, libc))
    decreases s, 0
  {
    hide Print, Spells, Stands, StandsAll, Objects, ObjectsOf, MembersText;
    ghost var ks := s.kids;
    InNode(s);
    Untouched(lib, ks);
    Exist(s);
    Lengths(ks, ms, Object);
    var numentries := CountChildren(item, ks, ms, Object);
    if numentries == 0 {
      out := PrintEmpty(lib, Object, depth, fmt, libc);
    } else {
      PrintedText.NestText(ms, depth, fmt, libc);
      out := PrintMembers(lib, item, numentries, depth, fmt, libc, ks, ms);
    }
  }

  /** The rest of `print_object`: two tables, one for the names and one for the values. */
  method PrintMembers(lib: Library, item: Node, numentries: nat, depth: nat, fmt: bool, libc: real -> Numerals.Numeral,
                      ghost ks: seq<Shape>, ghost ms: seq<Member>)
    returns (out: array?<byte>)
    requires item.child == First(ks) && StandsAll(ks, ms, Object) && GoodFormat(libc) && numentries == |ks| == |ms| > 0
    modifies lib`live, lib`denied
    ensures out == null ==> lib.denied && lib.live == old(lib.live)
    ensures out != null ==>
              && fresh(out) && lib.live == old(lib.live) + {out} && lib.denied == old(lib.denied)
              && Spells(out, [LBRACE] + (When(fmt, [LF]) + MembersText(ms, depth + 1, fmt, libc)))
    decreases ks, 5
  {
    hide Print, Blocks, MembersText, Spells, AllSpell, Apart, MembersRoom, Stands, StandsAll, Objects, ObjectsOf,
         Values, Names;
    Untouched(lib, ks);
    out := null;
    var table := lib.NewBytes(numentries * SIZEOF_POINTER);
    if table == null {
      return;
    }
    var nameTable := lib.NewBytes(numentries * SIZEOF_POINTER);
    if nameTable == null {
      lib.Free(table);
      return;
    }
    var fail, names, e, len := CollectMembers(lib, item.child, numentries, depth + 1, fmt, libc, ks, ms);
    if !fail {
      out := lib.NewBytes(len);
    }
    if out == null {
      FreeAll(lib, names);
      FreeAll(lib, e);
    } else {
      ComposeMembers(lib, names, e, out, ms, depth + 1, fmt, libc);
    }
    lib.Free(nameTable);
    lib.Free(table);
  }

  /** Prints the names and the values into two tables. Unlike an array, an object goes on after a
      refusal. */
  method CollectMembers(lib: Library, first: Node?, numentries: nat, depth: nat, fmt: bool,
                        libc: real -> Numerals.Numeral, ghost ks: seq<Shape>, ghost ms: seq<Member>)
    returns (fail: bool, names: seq<array?<byte>>, e: seq<array?<byte>>, len: nat)
    requires first == First(ks) && StandsAll(ks, ms, Object) && GoodFormat(libc) && numentries == |ks| == |ms|
    modifies lib`live, lib`denied
    ensures |names| == |e| == |ms|
    ensures Apart(names) && AllSpell(names, Names(ms)) && Apart(e) && AllSpell(e, Values(ms, depth, fmt, libc))
    ensures lib.live == old(lib.live) + Blocks(names) + Blocks(e) && Blocks(names) !! Blocks(e)
    ensures forall o :: o in Blocks(names) ==> fresh(o)
    ensures forall o :: o in Blocks(e) ==> fresh(o)
    ensures fail ==> lib.denied
    ensures !fail ==>
              && lib.denied == old(lib.denied) && Full(names) && Full(e)
              && len == 7 + (if fmt then depth else 0) + MembersRoom(ms, depth, fmt, libc)
    decreases ks, 4
  {
    hide Print, Spells, Blocks, AllSpell, Apart, Quoted, MembersRoom, Stands, StandsAll, Objects, ObjectsOf, Names,
         Values,
         Gathered, FullTo, Full;
    Untouched(lib, ks);
    ghost var ns, vs := Names(ms), Values(ms, depth, fmt, libc);
    fail, names, e, len := false, Nulls(numentries), Nulls(numentries), 7;
    GatheredNone(names, ns);
    GatheredNone(e, vs);
    assert ms[0..] == ms;
    if fmt {
      len := len + depth;
    }
    ghost var start := len;
    var child := first;
    var i: nat := 0;
    while child != null
      invariant i <= |ms| == |ks| == |e| == |names| && child == NodeAt(ks, i) && StandsAll(ks, ms, Object)
      invariant Gathered(names, ns, i) && Gathered(e, vs, i)
      invariant lib.live == old(lib.live) + Blocks(names) + Blocks(e) && Blocks(names) !! Blocks(e)
      invariant forall o :: o in Blocks(names) ==> fresh(o)
      invariant forall o :: o in Blocks(e) ==> fresh(o)
      invariant fail ==> lib.denied
      invariant !fail ==>
                  && lib.denied == old(lib.denied) && FullTo(names, i) && FullTo(e, i)
                  && len + MembersRoom(ms[i..], depth, fmt, libc) == start + MembersRoom(ms, depth, fmt, libc)
      decreases |ks| - i
    {
      MembersRoomStep(ms, i, depth, fmt, libc);
      var ok, room;
      ok, names, e, room := CollectMember(lib, child, i, names, e, depth, fmt, libc, ks, ms);
      if ok {
        len := len + room;
      } else {
        fail := true;
      }
      Standing.Child(ks, i, ms, Object);
      child := child.next;
      i := i + 1;
    }
    GatheredAll(names, ns, i);
    GatheredAll(e, vs, i);
    NoItems(ms[|ms|..], depth, fmt, libc);
  }

  /** One name and one value. */
  method CollectMember(lib: Library, child: Node, i: nat, names: seq<array?<byte>>, e: seq<array?<byte>>,
                       depth: nat, fmt: bool, libc: real -> Numerals.Numeral, ghost ks: seq<Shape>, ghost ms: seq<Member>)
    returns (ok: bool, names': seq<array?<byte>>, e': seq<array?<byte>>, room: nat)
    requires StandsAll(ks, ms, Object) && i < |ks| == |ms| && child == ks[i].node && GoodFormat(libc)
    requires Gathered(names, Names(ms), i) && Gathered(e, Values(ms, depth, fmt, libc), i)
    requires Blocks(names) <= lib.live && Blocks(e) <= lib.live && Blocks(names) !! Blocks(e)
    modifies lib`live, lib`denied
    ensures |names'| == |names| && |e'| == |e|
    ensures Gathered(names', Names(ms), i + 1) && Gathered(e', Values(ms, depth, fmt, libc), i + 1)
    ensures lib.live == old(lib.live) + Blocks(names') + Blocks(e') && Blocks(names') !! Blocks(e')
    ensures Blocks(names) <= Blocks(names') && Blocks(e) <= Blocks(e')
    ensures forall o :: o in Blocks(names') && o !in Blocks(names) ==> fresh(o)
    ensures forall o :: o in Blocks(e') && o !in Blocks(e) ==> fresh(o)
    ensures !ok ==> lib.denied
    ensures ok ==>
              && lib.denied == old(lib.denied)
              && (FullTo(names, i) ==> FullTo(names', i + 1)) && (FullTo(e, i) ==> FullTo(e', i + 1))
              && room == |Print(ms[i].value, depth, fmt, libc)| + |Quoted(KeyText(ms[i]))| + 2 + (if fmt then 2 + depth else 0)
    decreases ks, 3
  {
    hide Print, Spells, Blocks, AllSpell, Apart, Quoted, Stands, StandsAll, Objects, ObjectsOf, Names, Values,
         Gathered, FullTo;
    Lengths2(names, Names(ms), e, Values(ms, depth, fmt, libc), i);
    BlocksExist(names);
    BlocksExist(e);
    assert lib !in Blocks(names) && lib !in Blocks(e);
    var str, ret;
    str, ret, room := PrintMember(lib, child, depth, fmt, libc, ks, i, ms);
    GatheredMore(names, i, str, Names(ms));
    GatheredMore(e, i, ret, Values(ms, depth, fmt, libc));
    names', e' := names[i := str], e[i := ret];
    ok := str != null && ret != null;
  }

  lemma Lengths2(names: seq<array?<byte>>, ns: seq<seq<byte>>, e: seq<array?<byte>>, vs: seq<seq<byte>>, i: nat)
    requires Gathered(names, ns, i) && Gathered(e, vs, i)
    ensures |names| == |ns| && |e| == |vs|
  {
  }

  /** The text of a name, the text of a value, and the room that the two need. */
  method PrintMember(lib: Library, child: Node, depth: nat, fmt: bool, libc: real -> Numerals.Numeral,
                     ghost ks: seq<Shape>, ghost i: nat, ghost ms: seq<Member>)
    returns (str: array?<byte>, ret: array?<byte>, room: nat)
    requires StandsAll(ks, ms, Object) && i < |ks| == |ms| && child == ks[i].node && GoodFormat(libc)
    modifies lib`live, lib`denied
    ensures lib.live == old(lib.live) + Opt(str) + Opt(ret) && fresh(Opt(str) + Opt(ret)) && Opt(str) !! Opt(ret)
    ensures str != null ==> Spells(str, Quoted(KeyText(ms[i])))
    ensures ret != null ==> Spells(ret, Print(ms[i].value, depth, fmt, libc))
    ensures str == null || ret == null ==> lib.denied
    ensures str != null && ret != null ==>
              && lib.denied == old(lib.denied)
              && room == |Print(ms[i].value, depth, fmt, libc)| + |Quoted(KeyText(ms[i]))| + 2 + (if fmt then 2 + depth else 0)
    decreases ks, 2
  {
    hide Print, Quoted, Stands, StandsAll, Objects, ObjectsOf;
    Untouched(lib, ks);
    Standing.Child(ks, i, ms, Object);
    room := 0;
    var name := CStr(child.name[..]);
    str := PrintStringPtr(lib, name);
    Standing.Child(ks, i, ms, Object);
    var n;
    ret, n := PrintItem(lib, child, depth, fmt, libc, ks[i], ms[i].value);
    if str != null && ret != null {
      PrintedText.QuotedHasNoNul(name);
      var b := StrLen(str, Quoted(name));
      room := n + b + 2 + if fmt then 2 + depth else 0;
    }
  }

  /** Puts names and values together, freeing them on the way. */
  method ComposeMembers(lib: Library, names: seq<array?<byte>>, e: seq<array?<byte>>, out: array<byte>,
                        ghost ms: seq<Member>, depth: nat, fmt: bool, libc: real -> Numerals.Numeral)
    requires GoodFormat(libc) && |names| == |e| == |ms|
    requires Full(names) && Apart(names) && AllSpell(names, Names(ms)) && Blocks(names) <= lib.live
    requires Full(e) && Apart(e) && AllSpell(e, Values(ms, depth, fmt, libc)) && Blocks(e) <= lib.live
    requires Blocks(names) !! Blocks(e) && out !in Blocks(names) && out !in Blocks(e)
    requires out.Length >= 7 + (if fmt then depth else 0) + MembersRoom(ms, depth, fmt, libc)
    modifies out, lib`live
    ensures lib.live == old(lib.live) - Blocks(names) - Blocks(e)
    ensures Spells(out, [LBRACE] + (When(fmt, [LF]) + MembersText(ms, depth, fmt, libc)))
  {
    hide Print, Blocks, MembersText, MemberText, Apart, Quoted, AllSpell, MembersRoom, Tabs, Full, Names, Values;
    ghost var text := MembersText(ms, depth, fmt, libc);
    ghost var whole := [LBRACE] + (When(fmt, [LF]) + text);
    MembersFit(ms, depth, fmt, libc);
    BlocksExist(names);
    BlocksExist(e);
    assert lib !in Blocks(names) && lib !in Blocks(e);
    PrintedText.Three([], [LBRACE], When(fmt, [LF]), text);
    var ptr := Append(out, 0, [LBRACE] + When(fmt, [LF]));
    ptr := ComposeAll(lib, names, e, out, ptr, depth, fmt, libc, ms);
    ptr := ComposeEnd(out, ptr, depth, fmt, libc);
    assert out[..ptr] == whole;
  }

  /** All the members, up to the closing brace and the tabs before it. */
  method ComposeAll(lib: Library, names: seq<array?<byte>>, e: seq<array?<byte>>, out: array<byte>, start: nat,
                    depth: nat, fmt: bool, libc: real -> Numerals.Numeral, ghost ms: seq<Member>)
    returns (ptr: nat)
    requires GoodFormat(libc) && |names| == |e| == |ms|
    requires Full(names) && Apart(names) && AllSpell(names, Names(ms)) && Blocks(names) <= lib.live
    requires Full(e) && Apart(e) && AllSpell(e, Values(ms, depth, fmt, libc)) && Blocks(e) <= lib.live
    requires Blocks(names) !! Blocks(e) && out !in Blocks(names) && out !in Blocks(e)
    requires start + |MembersText(ms, depth, fmt, libc)| < out.Length
    modifies out, lib`live
    ensures lib.live == old(lib.live) - Blocks(names) - Blocks(e)
    ensures ptr + |MembersText([], depth, fmt, libc)| == start + |MembersText(ms, depth, fmt, libc)|
    ensures out[..ptr] + MembersText([], depth, fmt, libc) == old(out[..start]) + MembersText(ms, depth, fmt, libc)
  {
    hide Print, Blocks, MembersText, MemberText, Apart, Quoted, AllSpell, Spells, Tabs, Full, Names, Values;
    ghost var whole := out[..start] + MembersText(ms, depth, fmt, libc);
    ghost var ns, vs := Names(ms), Values(ms, depth, fmt, libc);
    assert ms[0..] == ms && names[0..] == names && e[0..] == e;
    BlocksExist(names);
    BlocksExist(e);
    assert lib !in Blocks(names) && lib !in Blocks(e);
    MembersEndFits(ms, depth, fmt, libc);
    ptr := start;
    var i: nat := 0;
    while i < |e|
      invariant i <= |ms|
      invariant ptr <= out.Length && out[..ptr] + MembersText(ms[i..], depth, fmt, libc) == whole
      invariant AllSpell(names, ns) && AllSpell(e, vs)
      invariant lib.live == (old(lib.live) - Blocks(names) - Blocks(e)) + Blocks(names[i..]) + Blocks(e[i..])
    {
      PrintedText.MembersStep(ms, i, depth, fmt, libc);
      MembersEndFits(ms[i + 1..], depth, fmt, libc);
      SpellsAt(names, ns, i);
      SpellsAt(e, vs, i);
      PrintedText.Three(out[..ptr], MemberText(ms[i], depth, fmt, libc),
             (if i + 1 < |ms| then [COMMA] else []) + When(fmt, [LF]), MembersText(ms[i + 1..], depth, fmt, libc));
      TwoRest(names, e, i, old(lib.live));
      ptr := ComposeAndFree(lib, out, ptr, names[i], e[i], i + 1 == |e|, depth, fmt, libc, ms[i]);
      i := i + 1;
    }
    assert ms[|ms|..] == [] && names[|ms|..] == [] && e[|ms|..] == [];
    NothingYet([], []);
  }

  /** A brace always comes last. */
  lemma {:induction false} MembersEndFits(ms: seq<Member>, depth: nat, fmt: bool, libc: real -> Numerals.Numeral)
    ensures 1 <= |MembersText([], depth, fmt, libc)| <= |MembersText(ms, depth, fmt, libc)|
  {
    hide MemberText, Tabs;
    if ms != [] { MembersEndFits(ms[1..], depth, fmt, libc); }
  }

  /** What is still allocated once the next two blocks are freed as well. */
  lemma TwoRest(names: seq<array?<byte>>, e: seq<array?<byte>>, i: nat, was: set<object>)
    requires i < |e| == |names| && Apart(names) && Apart(e) && Blocks(names) !! Blocks(e) && Full(names) && Full(e)
    ensures var kept := was - Blocks(names) - Blocks(e);
            && names[i] in Blocks(names[i..]) && e[i] in Blocks(e[i..]) && names[i] != e[i]
            && (kept + Blocks(names[i..]) + Blocks(e[i..])) - {names[i]} - {e[i]}
               == kept + Blocks(names[i + 1..]) + Blocks(e[i + 1..])
  {
    hide Apart, Blocks;
    BlocksRest(names, i);
    BlocksRest(e, i);
    BlocksWithin(names, i + 1);
    BlocksWithin(e, i + 1);
    assert names[i] in Blocks(names) && e[i] in Blocks(e);
  }

  lemma BlocksWithin(e: seq<array?<byte>>, i: nat)
    requires i <= |e|
    ensures Blocks(e[i..]) <= Blocks(e)
  {
  }

  /** One member and what separates it from the next. */
  method ComposeAndFree(lib: Library, out: array<byte>, ptr: nat, name: array<byte>, value: array<byte>,
                        last: bool, depth: nat, fmt: bool, libc: real -> Numerals.Numeral, ghost m: Member)
    returns (next: nat)
    requires GoodFormat(libc) && Spells(name, Quoted(KeyText(m))) && Spells(value, Print(m.value, depth, fmt, libc))
    requires out != name && out != value && name != value && name in lib.live && value in lib.live
    requires ptr + |MemberText(m, depth, fmt, libc)| + |(if last then [] else [COMMA]) + When(fmt, [LF])| < out.Length
    modifies out, lib`live
    ensures lib.live == old(lib.live) - {name} - {value}
    ensures var separator := (if last then [] else [COMMA]) + When(fmt, [LF]);
            && next == ptr + |MemberText(m, depth, fmt, libc)| + |separator|
            && out[..next] == (old(out[..ptr]) + MemberText(m, depth, fmt, libc)) + separator
  {
    hide MemberText, Print, Quoted;
    next := ComposeMember(out, ptr, name, value, depth, fmt, libc, m);
    next := Append(out, next, (if last then [] else [COMMA]) + When(fmt, [LF]));
    lib.Free(name);
    lib.Free(value);
  }

  method ComposeEnd(out: array<byte>, ptr: nat, depth: nat, fmt: bool, libc: real -> Numerals.Numeral) returns (next: nat)
    requires ptr + |MembersText([], depth, fmt, libc)| < out.Length
    modifies out
    ensures next == ptr + |MembersText([], depth, fmt, libc)| && out[next] == NUL
    ensures out[..next] == old(out[..ptr]) + MembersText([], depth, fmt, libc)
  {
    next := Append(out, ptr, When(fmt, Tabs(depth - 1)) + [RBRACE]);
  }

  /** Indentation, name, colon and value. */
  method ComposeMember(out: array<byte>, ptr: nat, name: array<byte>, value: array<byte>, depth: nat, fmt: bool,
                       libc: real -> Numerals.Numeral, ghost m: Member)
    returns (next: nat)
    requires GoodFormat(libc) && Spells(name, Quoted(KeyText(m))) && Spells(value, Print(m.value, depth, fmt, libc))
    requires out != name && out != value && ptr + |MemberText(m, depth, fmt, libc)| < out.Length
    modifies out
    ensures next == ptr + |MemberText(m, depth, fmt, libc)| && out[..next] == old(out[..ptr]) + MemberText(m, depth, fmt, libc)
  {
    hide Print, Quoted, Tabs, Spells;
    ghost var t, tabs, q, v := out[..ptr], When(fmt, Tabs(depth)), Quoted(KeyText(m)), Print(m.value, depth, fmt, libc);
    PrintedText.Chain(t, tabs, q, [COLON], When(fmt, [TAB]), v);
    PrintedText.HasNoNul(m.value, depth, fmt, libc);
    PrintedText.QuotedHasNoNul(KeyText(m));
    next := ptr;
    if fmt {
      next := Append(out, next, Tabs(depth));
    }
    assert out[..next] == t + tabs;
    next := Concatenate(out, next, name, q);
    next := Append(out, next, [COLON] + When(fmt, [TAB]));
    next := Concatenate(out, next, value, v);
  }

  /** `cJSON_Print` and `cJSON_PrintUnformatted` */
  method PrintTree(lib: Library, item: Node, fmt: bool, libc: real -> Numerals.Numeral, ghost s: Shape, ghost j: Json)
    returns (a: array?<byte>)
    requires item == s.node && Stands(s, j) && GoodFormat(libc)
    modifies lib`live, lib`denied
    ensures a == null ==> lib.denied && lib.live == old(lib.live)
    ensures a != null ==>
              && fresh(a) && lib.live == old(lib.live) + {a} && lib.denied == old(lib.denied)
              && CStr(a[..]) == Print(j, 0, fmt, libc)
  {
    hide Print, Stands;
    a := PrintValue(lib, item, 0, fmt, libc, s, j);
    if a != null {
      PrintedText.HasNoNul(j, 0, fmt, libc);
      CStrOf(a[..], Print(j, 0, fmt, libc));
    }
  }
}
