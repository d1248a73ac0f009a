/** The list operations on a container: each one is the sequence operation of its name on the
    children, and leaves them properly chained. */
module ListOps {
  import opened JsonTree
  import opened Nodes
  import opened Siblings
  import opened Delete

  /** The children of a container, with the container itself not among them. */
  ghost predicate Holds(parent: Node, ks: seq<Shape>, owned: bool)
    reads parent, ObjectsOf(ks)
  {
    parent.child == First(ks) && Chained(ks, owned) && DistinctAll(ks) && parent !in ObjectsOf(ks)
  }

  /** A tree that stands alone and shares nothing with a container. */
  ghost predicate Loose(s: Shape, parent: Node, ks: seq<Shape>, owned: bool)
    reads Objects(s)
  {
    && s.node.next == null && s.node.prev == null && Linked(s, owned) && Distinct(s)
    && Objects(s) !! ObjectsOf(ks) && parent !in Objects(s)
  }

  /** The index an `int` argument stands for. */
  function Clamp(which: int): nat { if which < 0 then 0 else which }

  /** Steps along the children while the index is positive. */
  method Walk(parent: Node, which: int, ghost ks: seq<Shape>, ghost owned: bool) returns (c: Node?)
    requires Holds(parent, ks, owned)
    ensures c == NodeAt(ks, Clamp(which))
  {
    c := parent.child;
    var left := which;
    ghost var k := 0;
    while c != null && left > 0
      invariant 0 <= k <= |ks| && c == NodeAt(ks, k)
      invariant which > 0 ==> left >= 0 && k + left == which
      invariant which <= 0 ==> k == 0 && left == which
      decreases |ks| - k
    {
      assert InPlace(ks, k, owned, null, null);
      c := c.next;
      left := left - 1;
      k := k + 1;
    }
  }

  /** `cJSON_GetArraySize` */
  method GetArraySize(parent: Node, ghost ks: seq<Shape>, ghost owned: bool) returns (size: nat)
    requires parent.child == First(ks) && Chained(ks, owned)
    ensures size == |ks|
  {
    var c := parent.child;
    size := 0;
    while c != null
      invariant size <= |ks| && c == NodeAt(ks, size)
      decreases |ks| - size
    {
      assert InPlace(ks, size, owned, null, null);
      size := size + 1;
      c := c.next;
    }
  }

  /** `cJSON_GetArrayItem` */
  method GetArrayItem(parent: Node, which: int, ghost ks: seq<Shape>, ghost owned: bool) returns (c: Node?)
    requires Holds(parent, ks, owned)
    ensures 0 <= which < |ks| ==> c == ks[which].node
    ensures which < 0 && ks != [] ==> c == ks[0].node
    ensures which >= |ks| || ks == [] ==> c == null
    ensures c == NodeAt(ks, Clamp(which))
  {
    c := Walk(parent, which, ks, owned);
  }

  ghost function NodesOf(ks: seq<Shape>): set<Node> { set i | 0 <= i < |ks| :: ks[i].node }

  /** What a child is worth to its parent. */
  ghost function Worth(s: Shape): Member
    reads Objects(s)
  {
    Member(NameOf(s), Value(s))
  }

  /** `cJSON_AddItemToArray` appends. */
  method AddItemToArray(parent: Node, item: Node, ghost ks: seq<Shape>, ghost s: Shape, ghost owned: bool)
    requires Holds(parent, ks, owned) && s.node == item && Loose(s, parent, ks, owned)
    modifies parent`child, NodesOf(ks)`next, item`prev
    ensures Holds(parent, ks + [s], owned)
    ensures Members(ks + [s]) == old(Members(ks)) + [old(Worth(s))]
  {
    hide Linked, Distinct, DistinctAll, ObjectsOf, Value, Members, Tidy, TidyAll, Spelled, SpelledAll, InPlace,
         Segment, Objects;
    Facts(s);
    Exist(s);
    ExistAll(ks);
    NodesWithin(ks);
    ghost var worth := Worth(s);
    var c := parent.child;
    if c == null {
      parent.child := item;
      NoSegment(owned, null, item);
    } else {
      c := WalkToLast(c, ks, owned);
      SuffixObject(c, item, ks, owned);
    }
    assert Worth(s) == worth by { assert item !in Opt(s.text); }
    Appended(ks, s, owned);
  }

  lemma Facts(s: Shape)
    requires Distinct(s)
    ensures s.node in Objects(s) && s.node !in ObjectsOf(s.kids) && ObjectsOf(s.kids) <= Objects(s)
    ensures Opt(s.text) <= Objects(s) && Opt(s.name) <= Objects(s)
  {
  }

  lemma NodesWithin(ks: seq<Shape>)
    ensures forall n: Node :: n in NodesOf(ks) ==> n in ObjectsOf(ks)
    ensures forall i :: 0 <= i < |ks| ==> ks[i].node in NodesOf(ks)
  {
    forall n: Node | n in NodesOf(ks) ensures n in ObjectsOf(ks) {
      var i :| 0 <= i < |ks| && n == ks[i].node;
      assert n in Objects(ks[i]);
    }
  }

  lemma Appended(ks: seq<Shape>, s: Shape, owned: bool)
    requires Segment(ks, owned, null, s.node) && s.node.prev == LastOr(ks, null) && s.node.next == null
    requires Linked(s, owned) && Distinct(s) && DistinctAll(ks) && ObjectsOf(ks) !! Objects(s)
    ensures Chained(ks + [s], owned) && DistinctAll(ks + [s]) && ObjectsOf(ks + [s]) == ObjectsOf(ks) + Objects(s)
    ensures Members(ks + [s]) == Members(ks) + [Worth(s)]
  {
    hide Linked, Distinct, DistinctAll, ObjectsOf, Value, Members, Tidy, TidyAll, Spelled, SpelledAll, InPlace,
         Segment, Objects;
    One(s);
    SegmentOne(s, owned, LastOr(ks, null), null);
    SegmentJoin(ks, [s], owned, null, null);
    DistinctSplit(ks, [s]);
    ObjectsSplit(ks, [s]);
    MembersSplit(ks, [s]);
  }

  /** Steps to the last child. */
  method WalkToLast(first: Node, ghost ks: seq<Shape>, ghost owned: bool) returns (c: Node)
    requires ks != [] && first == ks[0].node && Chained(ks, owned)
    ensures c == ks[|ks| - 1].node
  {
    c := first;
    ghost var k := 0;
    assert InPlace(ks, 0, owned, null, null);
    while c.next != null
      invariant 0 <= k < |ks| && c == ks[k].node && InPlace(ks, k, owned, null, null)
      decreases |ks| - k
    {
      c := c.next;
      k := k + 1;
    }
  }

  // ----- in the middle

  /** A chain around its i-th tree. */
  lemma Around(ks: seq<Shape>, i: nat, owned: bool)
    requires i < |ks| && Chained(ks, owned) && DistinctAll(ks)
    ensures var a, x, b := ks[..i], ks[i], ks[i + 1..];
            && Segment(a, owned, null, x.node) && Segment(b, owned, x.node, null)
            && x.node.prev == LastOr(a, null) && x.node.next == FirstOr(b, null) && Linked(x, owned)
            && DistinctAll(a) && DistinctAll(b) && Distinct(x)
            && ObjectsOf(a) !! Objects(x) && ObjectsOf(a) !! ObjectsOf(b) && Objects(x) !! ObjectsOf(b)
            && ObjectsOf(ks) == ObjectsOf(a) + Objects(x) + ObjectsOf(b)
            && Members(ks) == Members(a) + [Worth(x)] + Members(b)
            && ks == a + [x] + b
  {
    hide Linked, Distinct, DistinctAll, ObjectsOf, Value, Members, InPlace, Segment, Objects;
    var a, x, b := ks[..i], ks[i], ks[i + 1..];
    assert ks == (a + [x]) + b && ks == a + ([x] + b);
    SegmentParts(a, [x] + b, owned, null, null);
    SegmentParts([x], b, owned, LastOr(a, null), null);
    SegmentOne(x, owned, LastOr(a, null), FirstOr(b, null));
    DistinctSplit(a + [x], b);
    DistinctSplit(a, [x]);
    ObjectsSplit(a + [x], b);
    ObjectsSplit(a, [x]);
    MembersSplit(a + [x], b);
    MembersSplit(a, [x]);
    One(x);
  }

  /** Two runs and one tree between them make a chain again. */
  lemma Woven(a: seq<Shape>, x: Shape, b: seq<Shape>, owned: bool)
    requires Segment(a, owned, null, x.node) && Segment(b, owned, x.node, null)
    requires x.node.prev == LastOr(a, null) && x.node.next == FirstOr(b, null) && Linked(x, owned)
    requires DistinctAll(a) && DistinctAll(b) && Distinct(x)
    requires ObjectsOf(a) !! Objects(x) && ObjectsOf(a) !! ObjectsOf(b) && Objects(x) !! ObjectsOf(b)
    ensures Chained(a + [x] + b, owned) && DistinctAll(a + [x] + b)
    ensures ObjectsOf(a + [x] + b) == ObjectsOf(a) + Objects(x) + ObjectsOf(b)
    ensures Members(a + [x] + b) == Members(a) + [Worth(x)] + Members(b)
  {
    hide Linked, Distinct, DistinctAll, ObjectsOf, Value, Members, InPlace, Segment, Objects;
    SegmentOne(x, owned, LastOr(a, null), x.node.next);
    SegmentJoin(a, [x], owned, null, x.node.next);
    SegmentJoin(a + [x], b, owned, null, null);
    One(x);
    DistinctSplit(a + [x], b);
    DistinctSplit(a, [x]);
    ObjectsSplit(a + [x], b);
    ObjectsSplit(a, [x]);
    MembersSplit(a + [x], b);
    MembersSplit(a, [x]);
  }

  lemma Ends(ks: seq<Shape>)
    ensures ks != [] ==> ks[|ks| - 1].node in ObjectsOf(ks) && ks[0].node in ObjectsOf(ks)
  {
    NodesWithin(ks);
  }

  /** Sets a tree's own links, which leaves the tree as it is. */
  method SetLinks(item: Node, prev: Node?, next: Node?, ghost s: Shape, ghost owned: bool)
    requires s.node == item && Linked(s, owned) && Distinct(s)
    modifies item`next, item`prev
    ensures item.next == next && item.prev == prev
    ensures Linked(s, owned) && Worth(s) == old(Worth(s))
  {
    hide Linked, Distinct, ObjectsOf, Value, Objects;
    Facts(s);
    Exist(s);
    ghost var worth := Worth(s);
    item.next := next;
    item.prev := prev;
    assert item !in Opt(s.text) && item !in Opt(s.name);
    assert Worth(s) == worth;
  }

  /** Joins up the runs on both sides of `c`. */
  method Bridge(c: Node, ghost a: seq<Shape>, ghost b: seq<Shape>, ghost owned: bool)
    requires Segment(a, owned, null, c) && Segment(b, owned, c, null)
    requires c.prev == LastOr(a, null) && c.next == FirstOr(b, null)
    requires DistinctAll(a) && DistinctAll(b) && ObjectsOf(a) !! ObjectsOf(b)
    requires c !in ObjectsOf(a) && c !in ObjectsOf(b)
    modifies NodesOf(a)`next, NodesOf(b)`prev
    ensures Segment(a, owned, null, First(b)) && Segment(b, owned, LastOr(a, null), null)
    ensures Members(a) == old(Members(a)) && Members(b) == old(Members(b))
  {
    hide Linked, Distinct, DistinctAll, ObjectsOf, Value, Members, InPlace, Segment, Objects, Tidy, TidyAll, Spelled,
         SpelledAll, NodesOf;
    ExistAll(a);
    ExistAll(b);
    Ends(a);
    Ends(b);
    NodesWithin(a);
    NodesWithin(b);
    NoSegment(owned, null, First(b));
    NoSegment(owned, LastOr(a, null), null);
    if c.prev != null {
      SetNext(c.prev, c.next, a, owned, null, c);
    }
    if c.next != null {
      SetPrev(c.next, c.prev, b, owned, c, null);
    }
  }

  /** The pointer work of detaching. */
  method Unlink(parent: Node, c: Node, ghost a: seq<Shape>, ghost x: Shape, ghost b: seq<Shape>, ghost owned: bool)
    requires parent.child == FirstOr(a, c) && c == x.node && Linked(x, owned) && Distinct(x)
    requires Segment(a, owned, null, c) && Segment(b, owned, c, null)
    requires c.prev == LastOr(a, null) && c.next == FirstOr(b, null)
    requires DistinctAll(a) && DistinctAll(b)
    requires ObjectsOf(a) !! Objects(x) && ObjectsOf(a) !! ObjectsOf(b) && Objects(x) !! ObjectsOf(b)
    requires parent !in ObjectsOf(a) + Objects(x) + ObjectsOf(b)
    modifies parent`child, c`next, c`prev, NodesOf(a)`next, NodesOf(b)`prev
    ensures parent.child == FirstOr(a, First(b)) && c.next == null && c.prev == null
    ensures Segment(a, owned, null, First(b)) && Segment(b, owned, LastOr(a, null), null)
    ensures Members(a) == old(Members(a)) && Members(b) == old(Members(b))
    ensures Linked(x, owned) && Worth(x) == old(Worth(x))
  {
    hide Linked, Distinct, DistinctAll, ObjectsOf, Value, Members, InPlace, Segment, Objects, Tidy, TidyAll, Spelled,
         SpelledAll, NodesOf;
    ExistAll(a);
    ExistAll(b);
    Exist(x);
    Facts(x);
    Ends(a);
    NodesWithin(a);
    NodesWithin(b);
    ghost var worth := Worth(x);
    Bridge(c, a, b, owned);
    if c == parent.child {
      parent.child := c.next;
    }
    SetLinks(c, null, null, x, owned);
  }

  lemma Closed(a: seq<Shape>, b: seq<Shape>, owned: bool)
    requires Segment(a, owned, null, First(b)) && Segment(b, owned, LastOr(a, null), null)
    requires DistinctAll(a) && DistinctAll(b) && ObjectsOf(a) !! ObjectsOf(b)
    ensures Chained(a + b, owned) && DistinctAll(a + b) && ObjectsOf(a + b) == ObjectsOf(a) + ObjectsOf(b)
    ensures Members(a + b) == Members(a) + Members(b)
  {
    hide Linked, Distinct, DistinctAll, ObjectsOf, Value, Members, InPlace, Segment, Objects;
    SegmentJoin(a, b, owned, null, null);
    DistinctSplit(a, b);
    ObjectsSplit(a, b);
    MembersSplit(a, b);
  }

  lemma Slices<T>(s: seq<T>, a: seq<T>, x: T, b: seq<T>)
    requires s == a + [x] + b
    ensures s[..|a|] == a && s[|a|] == x && s[|a| + 1..] == b
  {
  }

  /** `cJSON_DetachItemFromArray` takes out the child at an index, if there is one. */
  method DetachItemFromArray(parent: Node, which: int, ghost ks: seq<Shape>, ghost owned: bool)
    returns (c: Node?, ghost ks': seq<Shape>)
    requires Holds(parent, ks, owned)
    modifies parent`child, NodesOf(ks)`next, NodesOf(ks)`prev
    ensures var i := Clamp(which);
            if i < |ks| then
              && c == ks[i].node && ks' == ks[..i] + ks[i + 1..]
              && Holds(parent, ks', owned) && Loose(ks[i], parent, ks', owned)
              && Members(ks') == old(Members(ks))[..i] + old(Members(ks))[i + 1..]
              && Worth(ks[i]) == old(Members(ks))[i]
            else c == null && ks' == ks && Holds(parent, ks, owned) && Members(ks) == old(Members(ks))
  {
    hide Linked, Distinct, DistinctAll, ObjectsOf, Value, Members, InPlace, Segment, Objects;
    ExistAll(ks);
    ks' := ks;
    c := Walk(parent, which, ks, owned);
    if c == null {
      return;
    }
    ghost var i := Clamp(which);
    ghost var a, x, b := ks[..i], ks[i], ks[i + 1..];
    Around(ks, i, owned);
    Slices(Members(ks), Members(a), Worth(x), Members(b));
    NodesWithin(ks);
    Unlink(parent, c, a, x, b, owned);
    Closed(a, b, owned);
    ks' := a + b;
  }

  /** `cJSON_DeleteItemFromArray` also frees it. */
  method DeleteItemFromArray(lib: Library, parent: Node, which: int, ghost ks: seq<Shape>) returns (ghost ks': seq<Shape>)
    requires Holds(parent, ks, true) && ObjectsOf(ks) <= lib.live
    modifies lib`live, parent`child, NodesOf(ks)`next, NodesOf(ks)`prev
    ensures var i := Clamp(which);
            if i < |ks| then
              && ks' == ks[..i] + ks[i + 1..] && Holds(parent, ks', true)
              && Members(ks') == old(Members(ks))[..i] + old(Members(ks))[i + 1..]
              && lib.live == old(lib.live) - Objects(ks[i])
            else ks' == ks && Holds(parent, ks, true) && Members(ks) == old(Members(ks)) && lib.live == old(lib.live)
  {
    hide Linked, Distinct, DistinctAll, ObjectsOf, Value, Members, InPlace, Segment, Objects;
    var c;
    c, ks' := DetachItemFromArray(parent, which, ks, true);
    ExistAll(ks');
    if c != null {
      ghost var s := ks[Clamp(which)];
      Within(ks);
      One(s);
      SegmentOne(s, true, null, null);
      DeleteChain(lib, c, [s]);
    }
  }

  /** The assignments that inserting and replacing share: `item` goes between two runs, the first of
      which is empty exactly when `atFront`. */
  method PutBetween(parent: Node, item: Node, prev: Node?, next: Node?, atFront: bool,
                    ghost a: seq<Shape>, ghost s: Shape, ghost b: seq<Shape>,
                    ghost after: Node?, ghost before: Node?, ghost owned: bool)
    requires prev == LastOr(a, null) && next == FirstOr(b, null) && atFront == (a == [])
    requires Segment(a, owned, null, after) && Segment(b, owned, before, null) && DistinctAll(a) && DistinctAll(b)
    requires s.node == item && Linked(s, owned) && Distinct(s)
    requires ObjectsOf(a) !! Objects(s) && ObjectsOf(a) !! ObjectsOf(b) && Objects(s) !! ObjectsOf(b)
    requires parent !in ObjectsOf(a) + Objects(s) + ObjectsOf(b)
    requires a != [] ==> parent.child == a[0].node
    modifies parent`child, item`next, item`prev, NodesOf(a)`next, NodesOf(b)`prev
    ensures Holds(parent, a + [s] + b, owned)
    ensures Members(a + [s] + b) == old(Members(a)) + [old(Worth(s))] + old(Members(b))
  {
    hide Linked, Distinct, DistinctAll, ObjectsOf, Value, Members, InPlace, Segment, Objects, Tidy, TidyAll, Spelled,
         SpelledAll, NodesOf,
         Worth;
    ExistAll(a);
    ExistAll(b);
    Exist(s);
    Facts(s);
    Ends(a);
    Ends(b);
    NodesWithin(a);
    NodesWithin(b);
    NoSegment(owned, null, item);
    NoSegment(owned, item, null);
    ghost var ma, w, mb := Members(a), Worth(s), Members(b);
    SetLinks(item, prev, next, s, owned);
    assert Members(a) == ma && Members(b) == mb;
    if item.next != null {
      SetPrev(item.next, item, b, owned, before, null);
    }
    if atFront {
      parent.child := item;
    } else {
      SetNext(item.prev, item, a, owned, null, after);
    }
    assert Members(a) == ma && Members(b) == mb && Worth(s) == w;
    Woven(a, s, b, owned);
  }

  /** A chain cut in front of its i-th tree. */
  lemma CutBefore(ks: seq<Shape>, i: nat, owned: bool)
    requires i < |ks| && Chained(ks, owned) && DistinctAll(ks)
    ensures var a, b := ks[..i], ks[i..];
            && Segment(a, owned, null, b[0].node) && Segment(b, owned, LastOr(a, null), null)
            && b[0].node.prev == LastOr(a, null) && (i == 0 <==> b[0].node == ks[0].node)
            && DistinctAll(a) && DistinctAll(b) && ObjectsOf(a) !! ObjectsOf(b)
            && ObjectsOf(ks) == ObjectsOf(a) + ObjectsOf(b)
            && Members(ks) == Members(a) + Members(b)
            && ks == a + b
  {
    hide Linked, Distinct, DistinctAll, ObjectsOf, Value, Members, Segment, Objects;
    var a, b := ks[..i], ks[i..];
    assert ks == a + b;
    SegmentParts(a, b, owned, null, null);
    DistinctSplit(a, b);
    ObjectsSplit(a, b);
    MembersSplit(a, b);
    assert b[0].node.prev == LastOr(a, null) by { AtStart(b, owned, LastOr(a, null), null); }
    Ends(a);
    Ends(b);
  }

  lemma AtStart(ks: seq<Shape>, owned: bool, before: Node?, after: Node?)
    requires ks != [] && Segment(ks, owned, before, after)
    ensures ks[0].node.prev == before
  {
    assert InPlace(ks, 0, owned, before, after);
  }

  /** `cJSON_InsertItemInArray` shifts the children from an index on to the right, or appends. */
  method InsertItemInArray(parent: Node, which: int, newitem: Node, ghost ks: seq<Shape>, ghost s: Shape,
                           ghost owned: bool)
    returns (ghost ks': seq<Shape>)
    requires Holds(parent, ks, owned) && s.node == newitem && Loose(s, parent, ks, owned)
    modifies parent`child, newitem`next, newitem`prev, NodesOf(ks)`next, NodesOf(ks)`prev
    ensures var i := if Clamp(which) < |ks| then Clamp(which) else |ks|;
            && ks' == ks[..i] + [s] + ks[i..] && Holds(parent, ks', owned)
            && Members(ks') == old(Members(ks))[..i] + [old(Worth(s))] + old(Members(ks))[i..]
  {
    hide Linked, Distinct, DistinctAll, ObjectsOf, Value, Members, InPlace, Segment, Objects;
    ExistAll(ks);
    Exist(s);
    Facts(s);
    NodesWithin(ks);
    ghost var ms := Members(ks);
    var c := Walk(parent, which, ks, owned);
    if c == null {
      assert ms[..|ks|] == ms && ms[|ks|..] == [];
      AddItemToArray(parent, newitem, ks, s, owned);
      ks' := ks + [s];
      assert ks[..|ks|] + [s] + ks[|ks|..] == ks';
      return;
    }
    ghost var i := Clamp(which);
    ghost var a, b := ks[..i], ks[i..];
    CutBefore(ks, i, owned);
    assert Members(ks)[..i] == Members(a) && Members(ks)[i..] == Members(b);
    PutBetween(parent, newitem, c.prev, c, c == parent.child, a, s, b, c, LastOr(a, null), owned);
    ks' := a + [s] + b;
  }

  /** The pointer work of replacing: `item` takes the place of `c`, which is left without siblings. */
  method SwapIn(parent: Node, c: Node, item: Node, ghost ks: seq<Shape>, ghost i: nat, ghost s: Shape, ghost owned: bool)
    requires Holds(parent, ks, owned) && s.node == item && Loose(s, parent, ks, owned)
    requires i < |ks| && c == ks[i].node
    modifies parent`child, item`next, item`prev, NodesOf(ks)`next, NodesOf(ks)`prev
    ensures Holds(parent, ks[..i] + [s] + ks[i + 1..], owned)
    ensures Members(ks[..i] + [s] + ks[i + 1..]) == old(Members(ks))[..i] + [old(Worth(s))] + old(Members(ks))[i + 1..]
    ensures Linked(ks[i], owned) && Distinct(ks[i]) && c.next == null && c.prev == null
    ensures ObjectsOf(ks[..i] + [s] + ks[i + 1..]) !! Objects(ks[i])
  {
    hide Linked, Distinct, DistinctAll, ObjectsOf, Value, Members, InPlace, Segment, Objects, Tidy, TidyAll, Spelled,
         SpelledAll, NodesOf,
         NameOf;
    ExistAll(ks);
    Exist(s);
    NodesWithin(ks);
    ghost var a, x, b := ks[..i], ks[i], ks[i + 1..];
    Around(ks, i, owned);
    Facts(x);
    Facts(s);
    Ends(a);
    NodesSub(ks, i);
    NodesWithin(a);
    NodesWithin(b);
    Slices(Members(ks), Members(a), Worth(x), Members(b));
    PutBetween(parent, item, c.prev, c.next, c == parent.child, a, s, b, c, c, owned);
    AllOf(a, s, b);
    ExistAll(a + [s] + b);
    c.next, c.prev := null, null;
  }

  lemma NodesSub(ks: seq<Shape>, i: nat)
    requires i < |ks|
    ensures NodesOf(ks[..i]) <= NodesOf(ks) && NodesOf(ks[i + 1..]) <= NodesOf(ks) && ks[i].node in NodesOf(ks)
  {
  }

  lemma AllOf(a: seq<Shape>, s: Shape, b: seq<Shape>)
    ensures ObjectsOf(a + [s] + b) == ObjectsOf(a) + Objects(s) + ObjectsOf(b)
  {
    hide Objects, ObjectsOf;
    ObjectsSplit(a + [s], b);
    ObjectsSplit(a, [s]);
    One(s);
  }

  /** The objects of one child among those of all, which are distinct. */
  lemma Slot(ks: seq<Shape>, i: nat)
    ensures i < |ks| && DistinctAll(ks) ==>
              && ObjectsOf(ks) == ObjectsOf(ks[..i]) + Objects(ks[i]) + ObjectsOf(ks[i + 1..])
              && ObjectsOf(ks[..i]) !! Objects(ks[i]) && Objects(ks[i]) !! ObjectsOf(ks[i + 1..])
  {
    hide Objects, ObjectsOf, DistinctAll, Distinct;
    if i < |ks| && DistinctAll(ks) {
      assert ks == ks[..i] + [ks[i]] + ks[i + 1..];
      AllOf(ks[..i], ks[i], ks[i + 1..]);
      DistinctSplit(ks[..i] + [ks[i]], ks[i + 1..]);
      DistinctSplit(ks[..i], [ks[i]]);
      ObjectsSplit(ks[..i], [ks[i]]);
      One(ks[i]);
    }
  }

  /** `cJSON_ReplaceItemInArray` puts a new tree in the place of a child and frees the child; an
      index past the end changes nothing. */
  method ReplaceItemInArray(lib: Library, parent: Node, which: int, newitem: Node, ghost ks: seq<Shape>, ghost s: Shape)
    returns (ghost ks': seq<Shape>)
    requires Holds(parent, ks, true) && s.node == newitem && Loose(s, parent, ks, true) && ObjectsOf(ks) <= lib.live
    modifies lib`live, parent`child, newitem`next, newitem`prev, NodesOf(ks)`next, NodesOf(ks)`prev
    ensures var i := Clamp(which);
            if i < |ks| then
              && ks' == ks[..i] + [s] + ks[i + 1..] && Holds(parent, ks', true)
              && Members(ks') == old(Members(ks))[..i] + [old(Worth(s))] + old(Members(ks))[i + 1..]
              && lib.live == old(lib.live) - Objects(ks[i])
            else
              && ks' == ks && Holds(parent, ks, true) && Members(ks) == old(Members(ks)) && lib.live == old(lib.live)
              && Loose(s, parent, ks, true) && Worth(s) == old(Worth(s))
  {
    hide Linked, Distinct, DistinctAll, ObjectsOf, Value, Members, InPlace, Segment, Objects, NodesOf;
    ExistAll(ks);
    Exist(s);
    Facts(s);
    ks' := ks;
    var c := Walk(parent, which, ks, true);
    if c == null {
      return;
    }
    ghost var i := Clamp(which);
    Within(ks);
    SwapIn(parent, c, newitem, ks, i, s, true);
    ks' := ks[..i] + [s] + ks[i + 1..];
    ExistAll(ks');
    One(ks[i]);
    SegmentOne(ks[i], true, null, null);
    DeleteChain(lib, c, [ks[i]]);
  }
}
