/** Where the text of a nested item starts in the text of a whole tree, and when the pointer that the
    buffered printer answers with for a nested object is the one to its text. */
module NestedStart {
  import opened CText
  import opened JsonTree
  import opened PrinterSpec
  import BufferedPrinter
  import Numerals

  /** A way down: the index of a child, of its child, and so on. */
  predicate Leads(j: Json, path: seq<nat>)
    decreases |path|
  {
    path == [] || (j.Nest? && path[0] < |j.members| && Leads(j.members[path[0]].value, path[1..]))
  }

  function Under(j: Json, path: seq<nat>): Json
    requires Leads(j, path)
    decreases |path|
  {
    if path == [] then j else Under(j.members[path[0]].value, path[1..])
  }

  function One(fmt: bool): nat { if fmt then 1 else 0 }

  /** Before the i-th of the items that are left to print. */
  function ItemStart(ms: seq<Member>, i: nat, depth: nat, fmt: bool, libc: real -> Numerals.Numeral): nat
    requires i < |ms|
  {
    if i == 0 then 0
    else |Print(ms[0].value, depth + 1, fmt, libc)| + 1 + One(fmt) + ItemStart(ms[1..], i - 1, depth, fmt, libc)
  }

  /** Before the value of the i-th of the members that are left to print. */
  function MemberStart(ms: seq<Member>, i: nat, depth: nat, fmt: bool, libc: real -> Numerals.Numeral): nat
    requires i < |ms|
  {
    if i == 0 then (if fmt then depth else 0) + |Quoted(KeyText(ms[0]))| + 1 + One(fmt)
    else |MemberText(ms[0], depth, fmt, libc)| + 1 + One(fmt) + MemberStart(ms[1..], i - 1, depth, fmt, libc)
  }

  /** Before the item that a path leads to. */
  function Start(j: Json, path: seq<nat>, depth: nat, fmt: bool, libc: real -> Numerals.Numeral): nat
    requires Leads(j, path)
    decreases |path|
  {
    if path == [] then 0
    else
      var before := if j.kind == List then ItemStart(j.members, path[0], depth, fmt, libc)
                    else One(fmt) + MemberStart(j.members, path[0], depth + 1, fmt, libc);
      1 + before + Start(j.members[path[0]].value, path[1..], depth + 1, fmt, libc)
  }

  lemma {:induction false} ItemAt(t: seq<byte>, k: nat, ms: seq<Member>, i: nat, depth: nat, fmt: bool,
                                  libc: real -> Numerals.Numeral)
    requires i < |ms| && At(t, k, ItemsText(ms, depth, fmt, libc))
    ensures At(t, k + ItemStart(ms, i, depth, fmt, libc), Print(ms[i].value, depth + 1, fmt, libc))
    decreases |ms|
  {
    hide Print, At;
    var first := Print(ms[0].value, depth + 1, fmt, libc);
    if i == 0 {
      AtSplit(t, k, first, ItemsText(ms, depth, fmt, libc)[|first|..]);
      assert first + ItemsText(ms, depth, fmt, libc)[|first|..] == ItemsText(ms, depth, fmt, libc);
    } else {
      AtFour(t, k, first, [COMMA], When(fmt, [SPACE]), ItemsText(ms[1..], depth, fmt, libc));
      ItemAt(t, k + |first| + 1 + One(fmt), ms[1..], i - 1, depth, fmt, libc);
    }
  }

  lemma {:induction false} MemberAt(t: seq<byte>, k: nat, ms: seq<Member>, i: nat, depth: nat, fmt: bool,
                                    libc: real -> Numerals.Numeral)
    requires i < |ms| && At(t, k, MembersText(ms, depth, fmt, libc))
    ensures At(t, k + MemberStart(ms, i, depth, fmt, libc), Print(ms[i].value, depth, fmt, libc))
    decreases |ms|
  {
    hide Print, At, Quoted;
    var first := MemberText(ms[0], depth, fmt, libc);
    var comma := if |ms| == 1 then [] else [COMMA];
    AtFour(t, k, first, comma, When(fmt, [LF]), MembersText(ms[1..], depth, fmt, libc));
    if i == 0 {
      TabsCount(depth);
      var tabs, key, value := When(fmt, Tabs(depth)), Quoted(KeyText(ms[0])), Print(ms[0].value, depth, fmt, libc);
      AtFour(t, k, tabs, key, [COLON], When(fmt, [TAB]) + value);
      AtSplit(t, k + |tabs| + |key| + 1, When(fmt, [TAB]), value);
    } else {
      MemberAt(t, k + |first| + 1 + One(fmt), ms[1..], i - 1, depth, fmt, libc);
    }
  }

  lemma {:induction false} TabsCount(n: nat)
    ensures |Tabs(n)| == n
  {
    if n > 0 { TabsCount(n - 1); }
  }

  /** There the text of the item stands. */
  lemma {:induction false} StartsThere(t: seq<byte>, k: nat, j: Json, path: seq<nat>, depth: nat, fmt: bool,
                                       libc: real -> Numerals.Numeral)
    requires Leads(j, path) && At(t, k, Print(j, depth, fmt, libc))
    ensures At(t, k + Start(j, path, depth, fmt, libc), Print(Under(j, path), depth + |path|, fmt, libc))
    decreases |path|
  {
    hide At, ItemsText, MembersText, ItemStart, MemberStart;
    if path != [] {
      var c := j.members[path[0]].value;
      if j.kind == List {
        AtCons(t, k, LBRACKET, ItemsText(j.members, depth, fmt, libc));
        ItemAt(t, k + 1, j.members, path[0], depth, fmt, libc);
        StartsThere(t, k + 1 + ItemStart(j.members, path[0], depth, fmt, libc), c, path[1..], depth + 1, fmt, libc);
      } else {
        AtThree(t, k, [LBRACE], When(fmt, [LF]), MembersText(j.members, depth + 1, fmt, libc));
        MemberAt(t, k + 1 + One(fmt), j.members, path[0], depth + 1, fmt, libc);
        var before := One(fmt) + MemberStart(j.members, path[0], depth + 1, fmt, libc);
        StartsThere(t, k + 1 + before, c, path[1..], depth + 1, fmt, libc);
      }
    }
  }

  /** Nothing but opening brackets of lists before it. */
  predicate FirstOfLists(j: Json, path: seq<nat>)
    requires Leads(j, path)
    decreases |path|
  {
    path == [] || (j.kind == List && path[0] == 0 && FirstOfLists(j.members[0].value, path[1..]))
  }

  lemma {:induction false} StartIsDepth(j: Json, path: seq<nat>, depth: nat, fmt: bool, libc: real -> Numerals.Numeral)
    requires Leads(j, path)
    ensures Start(j, path, depth, fmt, libc) >= |path|
    ensures Start(j, path, depth, fmt, libc) == |path| <==> FirstOfLists(j, path)
    decreases |path|
  {
    hide Print, Quoted, MemberText;
    if path != [] {
      StartIsDepth(j.members[path[0]].value, path[1..], depth + 1, fmt, libc);
      if j.kind == Object { SomethingBefore(j.members, path[0], depth + 1, fmt, libc); }
    }
  }

  lemma SomethingBefore(ms: seq<Member>, i: nat, depth: nat, fmt: bool, libc: real -> Numerals.Numeral)
    requires i < |ms|
    ensures MemberStart(ms, i, depth, fmt, libc) > 0
  {
  }

  /** For a nested object with members, formatted, the answer is the start of its text exactly if only
      opening brackets of lists stand before it; without formatting it always is. */
  lemma AnswerIsRight(j: Json, path: seq<nat>, fmt: bool, libc: real -> Numerals.Numeral)
    requires Leads(j, path)
    ensures var c, start := Under(j, path), Start(j, path, 0, fmt, libc);
            && At(Print(j, 0, fmt, libc), start, Print(c, |path|, fmt, libc))
            && (BufferedPrinter.Answer(c, |path|, fmt, start) == start
                <==> !(fmt && c.Nest? && c.kind == Object && c.members != []) || FirstOfLists(j, path))
  {
    hide Print;
    var t := Print(j, 0, fmt, libc);
    StartsThere(t, 0, j, path, 0, fmt, libc);
    StartIsDepth(j, path, 0, fmt, libc);
  }

  /** `{"a":{"b":null}}`, formatted: the inner object starts at offset 8, and the answer is 1. */
  lemma InnerObject(libc: real -> Numerals.Numeral)
    ensures var inner := Nest(Object, [Member(Name([98]), Null)]);
            var outer := Nest(Object, [Member(Name([97]), inner)]);
            && Leads(outer, [0]) && Under(outer, [0]) == inner && Start(outer, [0], 0, true, libc) == 8
            && At(Print(outer, 0, true, libc), 8, Print(inner, 1, true, libc))
            && BufferedPrinter.Answer(inner, 1, true, 8) == 1
  {
    var inner := Nest(Object, [Member(Name([98]), Null)]);
    var outer := Nest(Object, [Member(Name([97]), inner)]);
    assert [0][1..] == [];
    assert Leads(inner, []);
    ShortQuoted();
    AnswerIsRight(outer, [0], true, libc);
  }

  lemma ShortQuoted()
    ensures |Quoted([97])| == 3
  {
  }
}
