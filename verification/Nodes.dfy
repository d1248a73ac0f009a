/** The mutable tree: nodes linked by `next`, `prev` and `child`, the allocator they come from, and
    what it means for such a structure to be a tree with a given value. */
module Nodes {
  import opened CText
  import opened JsonTree

  /** `type & 255` */
  datatype Tag = TFalse | TTrue | TNull | TNumber | TString | TArray | TObject

  /** The C structure; its two flag bits are fields of their own and `string` is called `name`. */
  class Node {
    var next: Node?
    var prev: Node?
    var child: Node?
    var tag: Tag
    var isReference: bool
    var nameIsConst: bool
    var valuestring: array?<byte>
    var valueint: int
    var valuedouble: real
    var name: array?<byte>

    /** Memory set to zero; type 0 is `cJSON_False`. */
    constructor ()
      ensures next == null && prev == null && child == null
      ensures tag == TFalse && !isReference && !nameIsConst
      ensures valuestring == null && name == null && valueint == 0 && valuedouble == 0.0
    {
      next, prev, child := null, null, null;
      tag, isReference, nameIsConst := TFalse, false, false;
      valuestring, name := null, null;
      valueint, valuedouble := 0, 0.0;
    }
  }

  /** The parts of the C library and of the file's static data that the functions share: the error
      position `ep` (-1 for null) and the allocator, which may refuse any request. `live` is the set
      of blocks handed out and not freed; `denied` records that a request was refused. */
  class Library {
    var ep: int
    ghost var live: set<object>
    ghost var denied: bool

    method NewItem() returns (n: Node?)
      modifies this`live, this`denied
      ensures n == null ==> denied && live == old(live)
      ensures n != null ==>
                && fresh(n) && live == old(live) + {n} && denied == old(denied)
                && n.next == null && n.prev == null && n.child == null && n.valuestring == null && n.name == null
                && n.tag == TFalse && n.valueint == 0 && n.valuedouble == 0.0 && !n.isReference && !n.nameIsConst
    {
      if * {
        denied := true;
        return null;
      }
      n := new Node();
      live := live + {n};
    }

    method NewBytes(size: nat) returns (a: array?<byte>)
      modifies this`live, this`denied
      ensures a == null ==> denied && live == old(live)
      ensures a != null ==> fresh(a) && a.Length == size && live == old(live) + {a} && denied == old(denied)
    {
      if * {
        denied := true;
        return null;
      }
      a := new byte[size];
      live := live + {a};
    }

    /** Only what is live may be freed, so nothing is freed twice. */
    method Free(o: object)
      requires o in live
      modifies this`live
      ensures live == old(live) - {o}
    {
      live := live - {o};
    }
  }

  /** `cJSON_strdup` */
  method StrDup(lib: Library, s: seq<byte>) returns (copy: array?<byte>)
    modifies lib`live, lib`denied
    ensures copy == null ==> lib.denied && lib.live == old(lib.live)
    ensures copy != null ==>
              && fresh(copy) && lib.live == old(lib.live) + {copy} && lib.denied == old(lib.denied)
              && copy.Length == |s| + 1 && copy[..|s|] == s && copy[|s|] == NUL && (NUL !in s ==> Text(copy) == s)
  {
    copy := lib.NewBytes(|s| + 1);
    if copy == null {
      return;
    }
    for k := 0 to |s|
      modifies copy
      invariant forall j :: 0 <= j < k ==> copy[j] == s[j]
    {
      copy[k] := s[k];
    }
    copy[|s|] := NUL;
    if NUL !in s {
      CStrOf(copy[..], s);
    }
  }

  /** The objects of a tree in their places. */
  datatype Shape = Shape(node: Node, text: array?<byte>, name: array?<byte>, kids: seq<Shape>)

  ghost function Opt(a: array?<byte>): set<object> { if a == null then {} else {a} }

  ghost function Objects(s: Shape): (os: set<object>)
    ensures forall o :: o in os ==> o is Node || o is array<byte>
    decreases s, 1
  {
    {s.node} + Opt(s.text) + Opt(s.name) + ObjectsOf(s.kids)
  }

  ghost function ObjectsOf(ks: seq<Shape>): (os: set<object>)
    ensures forall o :: o in os ==> o is Node || o is array<byte>
    decreases ks, 0
  {
    set i, o | 0 <= i < |ks| && o in Objects(ks[i]) :: o
  }

  ghost function First(ks: seq<Shape>): Node? { if ks == [] then null else ks[0].node }

  /** The first node of a chain that goes on with `after`, and the last of one that comes from `before`. */
  ghost function FirstOr(ks: seq<Shape>, after: Node?): Node? { if ks == [] then after else ks[0].node }
  ghost function LastOr(ks: seq<Shape>, before: Node?): Node? { if ks == [] then before else ks[|ks| - 1].node }

  /** The node at an index, null past the end. */
  ghost function NodeAt(ks: seq<Shape>, i: nat): Node? { if i < |ks| then ks[i].node else null }

  /** The pointers agree with the shape. With `owned`, the shape leaves out what the node only
      refers to: the children and the string of a reference, and a constant name. */
  ghost predicate Linked(s: Shape, owned: bool)
    reads s.node`child, s.node`valuestring, s.node`name, s.node`isReference, s.node`nameIsConst, ObjectsOf(s.kids)
    decreases s, 1
  {
    && (if owned && s.node.isReference then s.kids == [] && s.text == null
        else s.node.child == First(s.kids) && s.node.valuestring == s.text)
    && (if owned && s.node.nameIsConst then s.name == null else s.node.name == s.name)
    && Segment(s.kids, owned, null, null)
  }

  /** A run of siblings between two others: `prev` is the inverse of `next`. */
  ghost predicate Segment(ks: seq<Shape>, owned: bool, before: Node?, after: Node?)
    reads ObjectsOf(ks)
    decreases ks, 1
  {
    forall i :: 0 <= i < |ks| ==> InPlace(ks, i, owned, before, after)
  }

  ghost predicate InPlace(ks: seq<Shape>, i: nat, owned: bool, before: Node?, after: Node?)
    requires i < |ks|
    reads ObjectsOf(ks)
    decreases ks, 0
  {
    assert ks[i].node in Objects(ks[i]);
    && ks[i].node.prev == (if i == 0 then before else ks[i - 1].node)
    && ks[i].node.next == (if i + 1 == |ks| then after else ks[i + 1].node)
    && Linked(ks[i], owned)
  }

  /** All the children of a node: both ends are null. */
  ghost predicate Chained(ks: seq<Shape>, owned: bool)
    reads ObjectsOf(ks)
  {
    Segment(ks, owned, null, null)
  }

  /** No object stands in two places. */
  ghost predicate Distinct(s: Shape)
    decreases s, 1
  {
    && Opt(s.text) !! Opt(s.name)
    && s.node !in ObjectsOf(s.kids) && Opt(s.text) !! ObjectsOf(s.kids) && Opt(s.name) !! ObjectsOf(s.kids)
    && DistinctAll(s.kids)
  }

  ghost predicate DistinctAll(ks: seq<Shape>)
    decreases ks, 0
  {
    && (forall i :: 0 <= i < |ks| ==> Distinct(ks[i]))
    && (forall i, j :: 0 <= i < j < |ks| ==> Objects(ks[i]) !! Objects(ks[j]))
  }

  /** `valueint` is what parsing leaves there; what a number leaves that an `int` cannot hold is open. */
  ghost predicate IntAgrees(n: Node)
    reads n`tag, n`valueint, n`valuedouble
  {
    match n.tag
    case TNumber => FitsInt(n.valuedouble) ==> n.valueint == Trunc(n.valuedouble)
    case TTrue => n.valueint == 1
    case _ => n.valueint == 0
  }

  /** No node is a reference or has a constant name, and every `valueint` is in order. */
  ghost predicate Tidy(s: Shape)
    reads s.node`isReference, s.node`nameIsConst, s.node`tag, s.node`valueint, s.node`valuedouble, ObjectsOf(s.kids)
    decreases s, 1
  {
    !s.node.isReference && !s.node.nameIsConst && IntAgrees(s.node) && TidyAll(s.kids)
  }

  ghost predicate TidyAll(ks: seq<Shape>)
    reads ObjectsOf(ks)
    decreases ks, 0
  {
    forall i :: 0 <= i < |ks| ==>
      assert ks[i].node in Objects(ks[i]);
      Tidy(ks[i])
  }

  /** No node that is a string lacks its text. */
  ghost predicate Spelled(s: Shape)
    reads s.node`tag, ObjectsOf(s.kids)
    decreases s, 1
  {
    (s.node.tag == TString ==> s.text != null) && SpelledAll(s.kids)
  }

  ghost predicate SpelledAll(ks: seq<Shape>)
    reads ObjectsOf(ks)
    decreases ks, 0
  {
    forall i :: 0 <= i < |ks| ==>
      assert ks[i].node in Objects(ks[i]);
      Spelled(ks[i])
  }

  ghost function Text(a: array?<byte>): seq<byte>
    reads Opt(a)
  {
    if a == null then [] else CStr(a[..])
  }

  ghost function NameOf(s: Shape): Name
    reads Opt(s.name)
  {
    if s.name == null then NoName else Name(Text(s.name))
  }

  ghost function Value(s: Shape): Json
    reads s.node`tag, s.node`valuedouble, Opt(s.text), ObjectsOf(s.kids)
    decreases s, 1
  {
    match s.node.tag
    case TFalse => False
    case TTrue => True
    case TNull => Null
    case TNumber => Num(s.node.valuedouble)
    case TString => Str(Text(s.text))
    case TArray => Nest(List, Members(s.kids))
    case TObject => Nest(Object, Members(s.kids))
  }

  ghost function Members(ks: seq<Shape>): (ms: seq<Member>)
    reads ObjectsOf(ks)
    ensures |ms| == |ks|
    ensures forall i :: 0 <= i < |ks| ==> ms[i] == Member(NameOf(ks[i]), Value(ks[i]))
    decreases ks, 0
  {
    InChain(ks);
    seq(|ks|, i requires 0 <= i < |ks| reads ObjectsOf(ks) => Member(NameOf(ks[i]), Value(ks[i])))
  }

  /** What a member is read from lies within its chain. */
  lemma InChain(ks: seq<Shape>)
    ensures forall i :: 0 <= i < |ks| ==>
              && ks[i].node in ObjectsOf(ks) && Opt(ks[i].text) <= ObjectsOf(ks) && Opt(ks[i].name) <= ObjectsOf(ks)
              && ObjectsOf(ks[i].kids) <= ObjectsOf(ks) && Objects(ks[i]) <= ObjectsOf(ks)
  {
    hide ObjectsOf;
    Within(ks);
    forall i | 0 <= i < |ks|
      ensures && ks[i].node in ObjectsOf(ks) && Opt(ks[i].text) <= ObjectsOf(ks) && Opt(ks[i].name) <= ObjectsOf(ks)
              && ObjectsOf(ks[i].kids) <= ObjectsOf(ks) && Objects(ks[i]) <= ObjectsOf(ks)
    {
      assert Objects(ks[i]) <= ObjectsOf(ks);
      InNode(ks[i]);
    }
  }

  lemma InNode(s: Shape)
    ensures s.node in Objects(s) && Opt(s.text) <= Objects(s) && Opt(s.name) <= Objects(s) && ObjectsOf(s.kids) <= Objects(s)
  {
  }

  /** The parts of a chain lie within it. */
  lemma Within(ks: seq<Shape>)
    ensures forall i :: 0 <= i < |ks| ==> Objects(ks[i]) <= ObjectsOf(ks)
    ensures forall n :: 0 <= n <= |ks| ==> ObjectsOf(ks[..n]) <= ObjectsOf(ks)
  {
  }

  lemma ObjectsSplit(a: seq<Shape>, b: seq<Shape>)
    ensures ObjectsOf(a + b) == ObjectsOf(a) + ObjectsOf(b)
  {
    var c := a + b;
    assert forall i :: 0 <= i < |a| ==> c[i] == a[i];
    assert forall i :: 0 <= i < |b| ==> c[|a| + i] == b[i];
    forall o | o in ObjectsOf(a) + ObjectsOf(b) ensures o in ObjectsOf(c) {
      if o in ObjectsOf(a) {
        var i :| 0 <= i < |a| && o in Objects(a[i]);
        assert o in Objects(c[i]);
      } else {
        var i :| 0 <= i < |b| && o in Objects(b[i]);
        assert o in Objects(c[|a| + i]);
      }
    }
  }

  lemma ObjectsOne(s: Shape)
    ensures ObjectsOf([s]) == Objects(s)
  {
    assert [s][0] == s;
  }

  lemma SegmentParts(a: seq<Shape>, b: seq<Shape>, owned: bool, before: Node?, after: Node?)
    requires Segment(a + b, owned, before, after)
    ensures Segment(a, owned, before, FirstOr(b, after)) && Segment(b, owned, LastOr(a, before), after)
  {
    hide Linked;
    var c := a + b;
    forall i | 0 <= i < |a| ensures InPlace(a, i, owned, before, FirstOr(b, after)) {
      assert InPlace(c, i, owned, before, after) && c[i] == a[i];
    }
    forall i | 0 <= i < |b| ensures InPlace(b, i, owned, LastOr(a, before), after) {
      assert InPlace(c, |a| + i, owned, before, after) && c[|a| + i] == b[i];
    }
  }

  lemma SegmentJoin(a: seq<Shape>, b: seq<Shape>, owned: bool, before: Node?, after: Node?)
    requires Segment(a, owned, before, FirstOr(b, after)) && Segment(b, owned, LastOr(a, before), after)
    ensures Segment(a + b, owned, before, after)
  {
    hide Linked;
    var c := a + b;
    forall i | 0 <= i < |c| ensures InPlace(c, i, owned, before, after) {
      if i < |a| {
        assert InPlace(a, i, owned, before, FirstOr(b, after)) && c[i] == a[i];
      } else {
        assert InPlace(b, i - |a|, owned, LastOr(a, before), after) && c[i] == b[i - |a|];
      }
    }
  }

  lemma SegmentOne(s: Shape, owned: bool, before: Node?, after: Node?)
    ensures Segment([s], owned, before, after)
       <==> s.node.prev == before && s.node.next == after && Linked(s, owned)
  {
    hide Linked;
    var ks := [s];
    assert ks[0] == s;
    assert InPlace(ks, 0, owned, before, after) <==> s.node.prev == before && s.node.next == after && Linked(s, owned);
  }

  lemma MembersSplit(a: seq<Shape>, b: seq<Shape>)
    ensures Members(a + b) == Members(a) + Members(b)
  {
    hide Value, Members;
    var c := a + b;
    forall i | 0 <= i < |c| ensures Members(c)[i] == (Members(a) + Members(b))[i] {
      if i < |a| { assert c[i] == a[i]; } else { assert c[i] == b[i - |a|]; }
    }
  }

  lemma DistinctSplit(a: seq<Shape>, b: seq<Shape>)
    ensures DistinctAll(a + b) <==> DistinctAll(a) && DistinctAll(b) && ObjectsOf(a) !! ObjectsOf(b)
  {
    hide Distinct, Objects;
    var c := a + b;
    assert forall i :: 0 <= i < |a| ==> c[i] == a[i];
    assert forall i :: 0 <= i < |b| ==> b[i] == c[|a| + i];
    if DistinctAll(c) {
      assert forall i, j :: 0 <= i < |a| && 0 <= j < |b| ==> Objects(a[i]) !! Objects(b[j]);
    }
    if DistinctAll(a) && DistinctAll(b) && ObjectsOf(a) !! ObjectsOf(b) {
      forall i, j | 0 <= i < j < |c| ensures Objects(c[i]) !! Objects(c[j]) {
        Within(a);
        Within(b);
        if i >= |a| {
          assert Objects(b[i - |a|]) !! Objects(b[j - |a|]);
        } else if j >= |a| {
          assert Objects(a[i]) <= ObjectsOf(a) && Objects(b[j - |a|]) <= ObjectsOf(b);
        }
      }
      forall i | 0 <= i < |c| ensures Distinct(c[i]) {
        if i >= |a| { assert Distinct(b[i - |a|]); }
      }
    }
  }

  lemma TidySplit(a: seq<Shape>, b: seq<Shape>)
    ensures TidyAll(a + b) <==> TidyAll(a) && TidyAll(b)
  {
    hide Tidy;
    var c := a + b;
    assert forall i :: 0 <= i < |a| ==> c[i] == a[i];
    assert forall i :: 0 <= i < |b| ==> b[i] == c[|a| + i];
  }

  lemma SpelledSplit(a: seq<Shape>, b: seq<Shape>)
    ensures SpelledAll(a + b) <==> SpelledAll(a) && SpelledAll(b)
  {
    hide Spelled;
    var c := a + b;
    assert forall i :: 0 <= i < |a| ==> c[i] == a[i];
    assert forall i :: 0 <= i < |b| ==> b[i] == c[|a| + i];
  }

  /** A chain of one. */
  lemma One(s: Shape)
    ensures Members([s]) == [Member(NameOf(s), Value(s))]
    ensures TidyAll([s]) <==> Tidy(s)
    ensures SpelledAll([s]) <==> Spelled(s)
    ensures DistinctAll([s]) <==> Distinct(s)
    ensures ObjectsOf([s]) == Objects(s)
  {
    hide Value, Tidy, Spelled, Distinct, Objects;
    assert [s][0] == s;
  }

  /** The last of a chain, apart from the rest. */
  lemma LastApart(ks: seq<Shape>)
    requires ks != [] && DistinctAll(ks)
    ensures var init, last := ks[..|ks| - 1], ks[|ks| - 1];
            && init + [last] == ks
            && ObjectsOf(ks) == ObjectsOf(init) + Objects(last)
            && DistinctAll(init) && Distinct(last) && ObjectsOf(init) !! Objects(last)
            && last.node in Objects(last) && last.node !in ObjectsOf(last.kids)
            && ObjectsOf(last.kids) <= Objects(last)
  {
    var init, last := ks[..|ks| - 1], ks[|ks| - 1];
    assert init + [last] == ks;
    DistinctSplit(init, [last]);
    ObjectsSplit(init, [last]);
    One(last);
  }

  /** The first of a chain, apart from the rest. */
  lemma FirstApart(ks: seq<Shape>)
    requires ks != [] && DistinctAll(ks)
    ensures var first, tail := ks[0], ks[1..];
            && [first] + tail == ks
            && ObjectsOf(ks) == Objects(first) + ObjectsOf(tail)
            && DistinctAll(tail) && Distinct(first) && Objects(first) !! ObjectsOf(tail)
            && first.node in Objects(first) && first.node !in ObjectsOf(first.kids)
            && ObjectsOf(first.kids) <= Objects(first)
  {
    var first, tail := ks[0], ks[1..];
    assert [first] + tail == ks;
    DistinctSplit([first], tail);
    ObjectsSplit([first], tail);
    One(first);
  }

  /** The objects of a shape exist. */
  lemma {:induction false} Exist(s: Shape)
    ensures forall o :: o in Objects(s) ==> allocated(o)
    decreases s, 1
  {
    ExistAll(s.kids);
  }

  lemma {:induction false} ExistAll(ks: seq<Shape>)
    ensures forall o :: o in ObjectsOf(ks) ==> allocated(o)
    decreases ks, 0
  {
    forall i | 0 <= i < |ks| ensures forall o :: o in Objects(ks[i]) ==> allocated(o) {
      Exist(ks[i]);
    }
  }

  lemma NoSegment(owned: bool, before: Node?, after: Node?)
    ensures Segment([], owned, before, after) && DistinctAll([]) && SpelledAll([])
    ensures ObjectsOf([]) == {} && Members([]) == []
  {
  }
}
