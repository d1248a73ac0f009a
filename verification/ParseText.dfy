/** `cJSON_ParseWithOpts` and `cJSON_Delete` on whole trees: every block a parse takes is given back,
    whether the parse fails, is refused memory half-way, or succeeds and its tree is deleted. */
module ParseText {
  import opened CText
  import opened JsonTree
  import opened Nodes
  import opened Delete
  import opened NodeParser
  import ParserSpec

  /** A whole tree: its root has no siblings, every pointer is in place and nothing is shared. */
  ghost predicate Rooted(s: Shape)
    reads Objects(s)
  {
    s.node.prev == null && s.node.next == null && Linked(s, true) && Tidy(s) && Distinct(s)
  }

  /** Without flags, what a tree owns is all it shows. */
  lemma {:induction false} OwnsAll(s: Shape)
    requires Tidy(s)
    ensures Linked(s, true) <==> Linked(s, false)
    decreases s, 1
  {
    hide Tidy;
    assert !s.node.isReference && !s.node.nameIsConst && TidyAll(s.kids) by { TidyParts(s); }
    OwnsAllOf(s.kids, null, null);
  }

  lemma TidyParts(s: Shape)
    requires Tidy(s)
    ensures !s.node.isReference && !s.node.nameIsConst && TidyAll(s.kids)
  {
  }

  lemma {:induction false} OwnsAllOf(ks: seq<Shape>, before: Node?, after: Node?)
    requires TidyAll(ks)
    ensures Segment(ks, true, before, after) <==> Segment(ks, false, before, after)
    decreases ks, 0
  {
    hide Linked, Tidy;
    forall i | 0 <= i < |ks|
      ensures InPlace(ks, i, true, before, after) <==> InPlace(ks, i, false, before, after)
    {
      OwnsAll(ks[i]);
    }
  }

  /** Deletes a whole tree. */
  method DeleteTree(lib: Library, c: Node, ghost s: Shape)
    requires c == s.node && Rooted(s) && Objects(s) <= lib.live
    modifies lib`live
    ensures lib.live == old(lib.live) - Objects(s)
  {
    hide Linked, Distinct, Objects, ObjectsOf, DistinctAll;
    One(s);
    SegmentOne(s, true, null, null);
    DeleteChain(lib, c, [s]);
  }

  /** Parses a text; `end` is what `return_parse_end` would receive. */
  method ParseWithOpts(lib: Library, t: seq<byte>, requireEnd: bool) returns (c: Node?, end: int, ghost kids: seq<Shape>)
    requires !ParserSpec.ParseText(t, requireEnd).Malformed?
    modifies lib
    ensures c == null ==>
              && lib.live == old(lib.live)
              && (lib.denied || FailsAt(ParserSpec.ParseText(t, requireEnd), lib.ep))
    ensures c != null ==>
              && var s := ShapeOf(c, kids);
              && !lib.denied && end >= 0
              && Rooted(s) && Spelled(s) && fresh(Objects(s))
              && lib.live == old(lib.live) + Objects(s)
              && ParserSpec.ParseText(t, requireEnd) == ParserSpec.Parsed(Value(s), end)
              && (c.tag == TArray || c.tag == TObject || kids == [])
  {
    hide Linked, Distinct, ObjectsOf, DistinctAll, Skip, ParserSpec.ParseValue, Tidy, Spelled, Value;
    end, kids := -1, [];
    lib.denied := false;
    c := lib.NewItem();
    lib.ep := -1;
    if c == null {
      return;
    }
    end, kids := ParseValue(lib, c, t, Skip(t, 0));
    if end < 0 {
      DeleteTree(lib, c, ShapeOf(c, kids));
      return null, -1, [];
    }
    if requireEnd {
      end := Skip(t, end);
      if Peek(t, end) != NUL {
        DeleteTree(lib, c, ShapeOf(c, kids));
        lib.ep := end;
        return null, -1, [];
      }
    }
  }

  /** A parse and the deletion of what it built, as the device does with every message it receives:
      nothing stays behind, whatever the text and whichever requests are refused. */
  method ParseThenDelete(lib: Library, t: seq<byte>) returns (parsed: bool, ghost value: Json)
    requires !ParserSpec.ParseText(t, false).Malformed?
    modifies lib
    ensures lib.live == old(lib.live)
    ensures parsed ==> ParserSpec.ParseText(t, false).Parsed? && value == ParserSpec.ParseText(t, false).value
    ensures !parsed ==> lib.denied || ParserSpec.ParseText(t, false).Rejected?
  {
    hide Rooted, Spelled, ParserSpec.ParseText, Objects;
    var c, end, kids := ParseWithOpts(lib, t, false);
    parsed := c != null;
    value := Null;
    if c != null {
      value := Value(ShapeOf(c, kids));
      DeleteTree(lib, c, ShapeOf(c, kids));
    }
  }
}
