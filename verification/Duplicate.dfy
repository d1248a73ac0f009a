/** `cJSON_Duplicate`: a copy that shares nothing with the original. */
module Duplicate {
  import opened CText
  import opened Nodes
  import opened Siblings
  import opened Delete
  import opened Ownership
  import opened ListOps

  datatype Optional = Missing | Present(s: seq<byte>)

  /** All that a copy takes over from a node: every field but the links and the reference flag. */
  datatype Content = Content(tag: Tag, valueint: int, valuedouble: real, nameIsConst: bool,
                             text: Optional, name: Optional, kids: seq<Content>)

  ghost function Read(a: array?<byte>): Optional
    reads Opt(a)
  {
    if a == null then Missing else Present(Text(a))
  }

  ghost function ContentOf(s: Shape): Content
    reads s.node`tag, s.node`valueint, s.node`valuedouble, s.node`nameIsConst
    reads Opt(s.text), Opt(s.name), ObjectsOf(s.kids)
    decreases s, 1
  {
    Content(s.node.tag, s.node.valueint, s.node.valuedouble, s.node.nameIsConst, Read(s.text), Read(s.name),
            ContentsOf(s.kids))
  }

  ghost function ContentsOf(ks: seq<Shape>): (cs: seq<Content>)
    reads ObjectsOf(ks)
    ensures |cs| == |ks|
    ensures forall i :: 0 <= i < |ks| ==> cs[i] == ContentOf(ks[i])
    decreases ks, 0
  {
    InChain(ks);
    seq(|ks|, i requires 0 <= i < |ks| reads ObjectsOf(ks) => ContentOf(ks[i]))
  }

  /** Equal contents are equal values. */
  lemma {:induction false} SameValue(s: Shape, d: Shape)
    requires ContentOf(s) == ContentOf(d)
    ensures Value(s) == Value(d) && NameOf(s) == NameOf(d)
    decreases s, 1
  {
    SameMembers(s.kids, d.kids);
  }

  lemma {:induction false} SameMembers(ks: seq<Shape>, ds: seq<Shape>)
    requires ContentsOf(ks) == ContentsOf(ds)
    ensures Members(ks) == Members(ds)
    decreases ks, 0
  {
    hide ContentOf, Value, NameOf, Members, ContentsOf;
    assert |ks| == |ds|;
    forall i | 0 <= i < |ks| ensures Members(ks)[i] == Members(ds)[i] {
      assert ContentsOf(ks)[i] == ContentsOf(ds)[i];
      SameValue(ks[i], ds[i]);
    }
  }

  /** Some node has a name that is flagged constant. */
  predicate HasConstant(c: Content) {
    (c.nameIsConst && c.name.Present?) || exists i :: 0 <= i < |c.kids| && HasConstant(c.kids[i])
  }

  lemma {:induction false} ConstantsShown(s: Shape)
    ensures Constants(s) != {} <==> HasConstant(ContentOf(s))
    decreases s
  {
    var c := ContentOf(s);
    forall i | 0 <= i < |s.kids| ensures Constants(s.kids[i]) != {} <==> HasConstant(c.kids[i]) {
      ConstantsShown(s.kids[i]);
    }
    if HasConstant(c) && !(c.nameIsConst && c.name.Present?) {
      var i :| 0 <= i < |c.kids| && HasConstant(c.kids[i]);
      var o :| o in Constants(s.kids[i]);
      assert o in ConstantsOf(s.kids);
    }
  }

  /** A tree of its own, flags on names aside. */
  ghost predicate Copy(d: Shape)
    reads Objects(d)
  {
    Linked(d, false) && NoReference(d) && Distinct(d)
  }

  /** A node without children. */
  lemma LeafCopy(n: Node, text: array?<byte>, name: array?<byte>)
    requires n.child == null && n.valuestring == text && n.name == name && !n.isReference
    requires Opt(text) !! Opt(name)
    ensures var d := Shape(n, text, name, []);
            && Copy(d) && Objects(d) == {n} + Opt(text) + Opt(name)
            && Constants(d) == (if n.nameIsConst then Opt(name) else {})
            && ContentOf(d) == Content(n.tag, n.valueint, n.valuedouble, n.nameIsConst, Read(text), Read(name), [])
  {
    assert ObjectsOf([]) == {};
  }

  /** Deletes an unfinished copy of an item. */
  method GiveUp(lib: Library, newitem: Node, ghost d: Shape)
    requires newitem == d.node && newitem.prev == null && newitem.next == null && Copy(d) && Objects(d) <= lib.live
    modifies lib`live
    ensures lib.live == old(lib.live) - (Objects(d) - old(Constants(d)))
  {
    hide Linked, NoReference, Distinct, Constants;
    DeleteAll(lib, newitem, d);
  }

  /** A copy of a string that may be missing. */
  method CopyString(lib: Library, a: array?<byte>) returns (copy: array?<byte>)
    modifies lib`live, lib`denied
    ensures lib.live == old(lib.live) + Opt(copy) && fresh(Opt(copy))
    ensures a == null || copy != null ==> Read(copy) == old(Read(a)) && lib.denied == old(lib.denied)
    ensures a != null && copy == null ==> lib.denied
  {
    copy := null;
    if a != null {
      CStrHasNoNul(a[..]);
      copy := StrDup(lib, CStr(a[..]));
    }
  }

  /** A new node with another's numbers and flags, save that it is no reference. */
  method NewLike(lib: Library, item: Node) returns (n: Node?)
    modifies lib`live, lib`denied
    ensures n == null ==> lib.denied && lib.live == old(lib.live)
    ensures n != null ==>
              && fresh(n) && lib.live == old(lib.live) + {n} && lib.denied == old(lib.denied)
              && n.next == null && n.prev == null && n.child == null && n.valuestring == null && n.name == null
              && !n.isReference && n.tag == item.tag && n.nameIsConst == item.nameIsConst
              && n.valueint == item.valueint && n.valuedouble == item.valuedouble
  {
    n := lib.NewItem();
    if n != null {
      n.tag, n.nameIsConst := item.tag, item.nameIsConst;
      n.valueint, n.valuedouble := item.valueint, item.valuedouble;
    }
  }

  /** Fills in the two strings, or gives the node up. */
  method CopyStrings(lib: Library, newitem: Node, text: array?<byte>, name: array?<byte>) returns (ok: bool)
    requires newitem.next == null && newitem.prev == null && newitem.child == null && !newitem.isReference
    requires newitem.valuestring == null && newitem.name == null && newitem in lib.live
    modifies lib`live, lib`denied, newitem`valuestring, newitem`name
    ensures ok ==>
              && Read(newitem.valuestring) == old(Read(text)) && Read(newitem.name) == old(Read(name))
              && fresh(Opt(newitem.valuestring) + Opt(newitem.name))
              && Opt(newitem.valuestring) !! Opt(newitem.name)
              && lib.live == old(lib.live) + Opt(newitem.valuestring) + Opt(newitem.name)
              && lib.denied == old(lib.denied)
    ensures !ok ==> lib.denied && lib.live == old(lib.live) - {newitem}
  {
    hide Linked, NoReference, Distinct, Constants, Objects, ObjectsOf, Segment, ContentsOf, ContentOf, Read, Copy;
    assert newitem !in Opt(text) && newitem !in Opt(name);
    newitem.valuestring := CopyString(lib, text);
    if text != null && newitem.valuestring == null {
      LeafCopy(newitem, null, null);
      GiveUp(lib, newitem, Shape(newitem, null, null, []));
      return false;
    }
    newitem.name := CopyString(lib, name);
    if name != null && newitem.name == null {
      LeafCopy(newitem, newitem.valuestring, null);
      GiveUp(lib, newitem, Shape(newitem, newitem.valuestring, null, []));
      return false;
    }
    ok := true;
  }

  /** The node itself and its two strings. */
  method CopyNode(lib: Library, item: Node, ghost s: Shape) returns (newitem: Node?, ghost d: Shape)
    requires item == s.node && Linked(s, false)
    modifies lib`live, lib`denied
    ensures newitem == null ==> lib.denied && lib.live == old(lib.live)
    ensures newitem != null ==>
              && d == Shape(newitem, newitem.valuestring, newitem.name, []) && newitem.child == null
              && newitem.prev == null && newitem.next == null && !newitem.isReference && fresh(newitem)
              && Copy(d) && fresh(Objects(d)) && lib.live == old(lib.live) + Objects(d) && lib.denied == old(lib.denied)
              && ContentOf(d) == old(ContentOf(s)).(kids := [])
  {
    hide Linked, NoReference, Distinct, Constants, Objects, ObjectsOf, Segment, ContentsOf, ContentOf, Read, Copy;
    Pointers(s);
    d := s;
    ghost var text, name := Read(item.valuestring), Read(item.name);
    assert lib !in Opt(item.valuestring) && lib !in Opt(item.name);
    newitem := NewLike(lib, item);
    if newitem == null {
      return;
    }
    assert Read(item.valuestring) == text && Read(item.name) == name;
    var ok := CopyStrings(lib, newitem, item.valuestring, item.name);
    if !ok {
      return null, s;
    }
    LeafCopy(newitem, newitem.valuestring, newitem.name);
    d := Shape(newitem, newitem.valuestring, newitem.name, []);
  }

  lemma Pointers(s: Shape)
    requires Linked(s, false)
    ensures s.node.valuestring == s.text && s.node.name == s.name && s.node.child == First(s.kids)
    ensures Chained(s.kids, false)
    ensures ContentOf(s) == Content(s.node.tag, s.node.valueint, s.node.valuedouble, s.node.nameIsConst, Read(s.text),
                                    Read(s.name), ContentsOf(s.kids))
  {
  }

  /** A chain of copies. */
  ghost predicate Copies(ks: seq<Shape>)
    reads ObjectsOf(ks)
  {
    Chained(ks, false) && NoReferences(ks) && DistinctAll(ks)
  }

  /** Hangs a copy behind the last of a chain of copies. */
  method SuffixCopy(prev: Node, item: Node, ghost ks: seq<Shape>)
    requires ks != [] && prev == ks[|ks| - 1].node && Copies(ks) && item !in ObjectsOf(ks)
    modifies prev`next, item`prev
    ensures prev.next == item && item.prev == prev
    ensures Segment(ks, false, null, item) && NoReferences(ks)
    ensures ContentsOf(ks) == old(ContentsOf(ks))
  {
    hide Linked, Distinct, DistinctAll, NoReference, NoReferences, ContentOf, ContentsOf, Value, Members, Tidy,
         TidyAll, Objects, ObjectsOf, Segment, InPlace;
    ghost var init, last := ks[..|ks| - 1], ks[|ks| - 1];
    LastApart(ks);
    ExistAll(ks);
    ContentsSplit(init, last);
    InNode(last);
    ghost var cs, c := ContentsOf(init), ContentOf(last);
    SuffixObject(prev, item, ks, false);
    assert prev !in Opt(last.text) && prev !in Opt(last.name) && item !in Opt(last.text) && item !in Opt(last.name);
    assert ContentsOf(init) == cs && ContentOf(last) == c;
    ContentsSplit(init, last);
  }

  lemma ContentsSplit(init: seq<Shape>, last: Shape)
    ensures ContentsOf(init + [last]) == ContentsOf(init) + [ContentOf(last)]
    ensures NoReferences(init + [last]) <==> NoReferences(init) && NoReference(last)
  {
    hide ContentOf, ContentsOf, NoReference;
    var ks := init + [last];
    assert ks[|init|] == last && forall i :: 0 <= i < |init| ==> ks[i] == init[i];
  }

  lemma OneMoreCopy(ks: seq<Shape>, d: Shape)
    requires Segment(ks, false, null, d.node) && NoReferences(ks) && DistinctAll(ks)
    requires d.node.prev == LastOr(ks, null) && d.node.next == null
    requires Copy(d) && ObjectsOf(ks) !! Objects(d)
    ensures Copies(ks + [d])
    ensures ObjectsOf(ks + [d]) == ObjectsOf(ks) + Objects(d)
    ensures ContentsOf(ks + [d]) == ContentsOf(ks) + [ContentOf(d)]
  {
    hide Linked, Distinct, DistinctAll, ObjectsOf, InPlace, Segment, Objects, NoReference, ContentOf, ContentsOf;
    One(d);
    SegmentOne(d, false, LastOr(ks, null), null);
    SegmentJoin(ks, [d], false, null, null);
    DistinctSplit(ks, [d]);
    ObjectsSplit(ks, [d]);
  }

  /** A node whose children are copies. */
  lemma NestCopy(d: Shape, kids: seq<Shape>)
    requires d.kids == [] && Copies(kids) && d.node.child == First(kids)
    requires d.node.valuestring == d.text && d.node.name == d.name && !d.node.isReference
    requires Distinct(d) && Objects(d) !! ObjectsOf(kids)
    ensures var n := Shape(d.node, d.text, d.name, kids);
            && Copy(n) && Objects(n) == Objects(d) + ObjectsOf(kids)
            && ContentOf(n) == ContentOf(d).(kids := ContentsOf(kids))
  {
  }

  /** No name in a chain is flagged constant. */
  predicate AnyConstant(cs: seq<Content>) { exists i :: 0 <= i < |cs| && HasConstant(cs[i]) }

  /** Copies the children one by one. When a copy is refused, what is done so far stays in place. */
  method DuplicateChildren(lib: Library, newitem: Node, first: Node?, ghost ks: seq<Shape>)
    returns (ok: bool, ghost done: seq<Shape>)
    requires first == First(ks) && Chained(ks, false)
    requires newitem.child == null && newitem !in ObjectsOf(ks)
    modifies lib`live, lib`denied, newitem`child
    ensures Copies(done) && newitem.child == First(done) && fresh(ObjectsOf(done))
    ensures |done| <= |ks| && ContentsOf(done) == old(ContentsOf(ks))[..|done|]
    ensures old(lib.live) + ObjectsOf(done) <= lib.live
    ensures ok ==> |done| == |ks| && lib.live == old(lib.live) + ObjectsOf(done) && lib.denied == old(lib.denied)
    ensures !ok ==>
              && lib.denied
              && (forall o :: o in lib.live && o !in old(lib.live) ==> fresh(o) && (o in ObjectsOf(done) || o is array<byte>))
              && (!AnyConstant(old(ContentsOf(ks))) ==> lib.live == old(lib.live) + ObjectsOf(done))
    decreases ks, 0
  {
    hide Linked, Distinct, DistinctAll, ObjectsOf, InPlace, Segment, Objects, NoReference, NoReferences, ContentOf,
         ContentsOf,
         HasConstant, Copies, Chained, NodesOf;
    done := [];
    ok := true;
    ghost var cs := ContentsOf(ks);
    ExistAll(ks);
    NoCopies();
    var cptr := first;
    var nptr: Node? := null;
    while cptr != null
      invariant |done| <= |ks| && cptr == NodeAt(ks, |done|)
      invariant nptr == LastOr(done, null)
      invariant Chained(ks, false) && ContentsOf(ks) == cs
      invariant Copies(done) && newitem.child == First(done) && fresh(ObjectsOf(done))
      invariant ContentsOf(done) == cs[..|done|]
      invariant lib.live == old(lib.live) + ObjectsOf(done) && lib.denied == old(lib.denied)
      decreases |ks| - |done|
    {
      ghost var k := |done|;
      assert Linked(ks[k], false) && cptr.next == NodeAt(ks, k + 1) by { Place(ks, k); }
      assert ContentOf(ks[k]) == cs[k];
      NodesWithin(ks);
      NodesWithin(done);
      ghost var before := lib.live;
      var newchild, more := CopyChild(lib, newitem, nptr, cptr, done, ks[k]);
      if newchild == null {
        forall o | o in lib.live && o !in old(lib.live) ensures fresh(o) && (o in ObjectsOf(done) || o is array<byte>) {
          assert o in before ==> o in ObjectsOf(done);
        }
        return false, done;
      }
      Longer(cs, k);
      done := more;
      nptr := newchild;
      cptr := cptr.next;
    }
  }

  /** Copies a child and links the copy in. */
  method CopyChild(lib: Library, newitem: Node, nptr: Node?, child: Node, ghost done: seq<Shape>, ghost s: Shape)
    returns (newchild: Node?, ghost more: seq<Shape>)
    requires child == s.node && Linked(s, false)
    requires nptr == LastOr(done, null) && newitem.child == First(done) && Copies(done) && newitem !in ObjectsOf(done)
    modifies lib`live, lib`denied, newitem`child, NodesOf(done)`next
    ensures newchild == null ==>
              && lib.denied && old(lib.live) <= lib.live
              && (forall o :: o in lib.live && o !in old(lib.live) ==> fresh(o) && o is array<byte>)
              && (!HasConstant(old(ContentOf(s))) ==> lib.live == old(lib.live))
              && Copies(done) && newitem.child == First(done) && ContentsOf(done) == old(ContentsOf(done))
    ensures newchild != null ==>
              && |more| == |done| + 1 && more[..|done|] == done && newchild == LastOr(more, null)
              && Copies(more) && newitem.child == First(more)
              && ContentsOf(more) == old(ContentsOf(done)) + [old(ContentOf(s))]
              && ObjectsOf(done) <= ObjectsOf(more)
              && (forall o :: o in ObjectsOf(more) && o !in ObjectsOf(done) ==> fresh(o))
              && lib.live == old(lib.live) + (ObjectsOf(more) - ObjectsOf(done)) && lib.denied == old(lib.denied)
    decreases s, 1
  {
    hide Linked, Distinct, DistinctAll, ObjectsOf, InPlace, Segment, Objects, NoReference, NoReferences, ContentOf,
         ContentsOf,
         HasConstant, Copies, Copy;
    ExistAll(done);
    NodesWithin(done);
    more := done;
    ghost var d;
    newchild, d := Duplicate(lib, child, true, s);
    if newchild != null {
      DuplicateIn(d);
      more := AddCopy(newitem, nptr, newchild, done, d);
    }
  }

  method Duplicate(lib: Library, item: Node, recurse: bool, ghost s: Shape) returns (newitem: Node?, ghost d: Shape)
    requires item == s.node && Linked(s, false)
    modifies lib`live, lib`denied
    ensures newitem == null ==>
              && lib.denied && old(lib.live) <= lib.live
              && (forall o :: o in lib.live && o !in old(lib.live) ==> fresh(o) && o is array<byte>)
              && (!HasConstant(old(ContentOf(s))) ==> lib.live == old(lib.live))
    ensures newitem != null ==>
              && newitem == d.node && newitem.prev == null && newitem.next == null
              && Copy(d) && fresh(Objects(d)) && lib.live == old(lib.live) + Objects(d) && lib.denied == old(lib.denied)
              && ContentOf(d) == (if recurse then old(ContentOf(s)) else old(ContentOf(s)).(kids := []))
    decreases s, 0
  {
    hide Linked, Distinct, DistinctAll, ObjectsOf, InPlace, Segment, Objects, NoReference, NoReferences, ContentOf,
         ContentsOf,
         HasConstant, Copies;
    Pointers(s);
    ExistAll(s.kids);
    ghost var c := ContentOf(s);
    newitem, d := CopyNode(lib, item, s);
    if newitem == null || !recurse {
      return;
    }
    ghost var leaf := d;
    ghost var nc := ContentOf(leaf);
    assert nc == c.(kids := []);
    Exist(leaf);
    NoCopies();
    DuplicateIn(leaf);
    assert ContentsOf(s.kids) == c.kids;
    var ok;
    ghost var kids;
    ok, kids := DuplicateChildren(lib, newitem, item.child, s.kids);
    assert ContentOf(leaf) == nc by { assert newitem !in Opt(leaf.text) && newitem !in Opt(leaf.name); }
    NestCopy(leaf, kids);
    d := Shape(newitem, leaf.text, leaf.name, kids);
    assert ContentOf(d) == c.(kids := c.kids[..|kids|]);
    if !ok {
      ConstantsShown(d);
      if !HasConstant(c) { PartConstants(c, |kids|); }
      GiveUp(lib, newitem, d);
      return null, s;
    }
    assert c.kids[..|kids|] == c.kids;
  }

  lemma PartConstants(c: Content, n: nat)
    requires n <= |c.kids| && !HasConstant(c)
    ensures !HasConstant(c.(kids := c.kids[..n])) && !AnyConstant(c.kids)
  {
  }

  lemma Longer<T>(s: seq<T>, k: nat)
    requires k < |s|
    ensures s[..k + 1] == s[..k] + [s[k]]
  {
  }

  lemma NoCopies()
    ensures Copies([]) && ContentsOf([]) == [] && ObjectsOf([]) == {}
  {
  }

  lemma Place(ks: seq<Shape>, k: nat)
    requires k < |ks| && Chained(ks, false)
    ensures Linked(ks[k], false) && ks[k].node.next == NodeAt(ks, k + 1)
  {
    assert InPlace(ks, k, false, null, null);
  }

  /** Links a finished copy in: as the first child, or behind the last one. */
  method AddCopy(newitem: Node, nptr: Node?, newchild: Node, ghost done: seq<Shape>, ghost d: Shape)
    returns (ghost more: seq<Shape>)
    requires nptr == LastOr(done, null) && newitem.child == First(done)
    requires Copies(done) && Copy(d) && newchild == d.node && newchild.prev == null && newchild.next == null
    requires ObjectsOf(done) !! Objects(d) && newitem !in ObjectsOf(done) + Objects(d)
    modifies newitem`child, newchild`prev, NodesOf(done)`next
    ensures more == done + [d] && newitem.child == First(more) && Copies(more)
    ensures ObjectsOf(more) == ObjectsOf(done) + Objects(d)
    ensures ContentsOf(more) == old(ContentsOf(done)) + [old(ContentOf(d))]
  {
    hide Linked, Distinct, DistinctAll, ObjectsOf, InPlace, Segment, Objects, NoReference, NoReferences, ContentOf,
         ContentsOf;
    more := done + [d];
    ExistAll(done);
    Exist(d);
    Facts(d);
    Ends(done);
    NodesWithin(done);
    NoCopies();
    NoSegment(false, null, newchild);
    assert forall o :: o in ObjectsOf(d.kids) ==> o != newchild;
    ghost var c := ContentOf(d);
    if nptr != null {
      SuffixCopy(nptr, newchild, done);
    } else {
      newitem.child := newchild;
    }
    assert newchild !in Opt(d.text) && newchild !in Opt(d.name) && newitem !in Opt(d.text) && newitem !in Opt(d.name);
    assert ContentOf(d) == c;
    OneMoreCopy(done, d);
  }

  lemma DuplicateIn(d: Shape)
    ensures d.node in Objects(d)
  {
  }

  /** A recursive copy has the value of the original, which is unchanged, and lives in blocks of its
      own: deleting the copy leaves the original in place and gives back every block the copy took,
      except the copied names that are still flagged constant. */
  method DuplicateThenDelete(lib: Library, item: Node, ghost s: Shape) returns (copied: bool, ghost left: set<object>)
    requires item == s.node && Linked(s, false)
    modifies lib`live, lib`denied
    ensures Linked(s, false) && ContentOf(s) == old(ContentOf(s))
    ensures !copied ==> lib.denied
    ensures copied ==> lib.live == old(lib.live) + left && fresh(left)
    ensures copied ==> (left == {} <==> !HasConstant(ContentOf(s)))
  {
    hide Linked, Distinct, NoReference, ContentOf, HasConstant, Constants, Objects, ObjectsOf;
    Exist(s);
    InNode(s);
    var c, d := Duplicate(lib, item, true, s);
    copied := c != null;
    left := {};
    if c != null {
      Exist(d);
      InNode(d);
      OwnedObjects(d);
      ConstantsShown(d);
      left := Constants(d);
      DeleteAll(lib, c, d);
    }
  }

  /** Deleting the original leaves its copy in place, with the value and the name that the original
      showed. What the original owns, `o`, may be less than what it shows, `s`: the copy of a reference
      owns all that it shows, and deleting the original frees only the original's own. */
  method DuplicateThenDrop(lib: Library, item: Node, ghost s: Shape, ghost o: Shape) returns (c: Node?, ghost d: Shape)
    requires item == s.node == o.node && item.prev == null && item.next == null
    requires Linked(s, false)
    requires Linked(o, true) && Distinct(o) && Objects(o) <= lib.live
    modifies lib`live, lib`denied
    ensures c == null ==> lib.denied
    ensures c != null ==>
              && Copy(d) && Objects(d) <= lib.live && fresh(Objects(d))
              && Value(d) == old(Value(s)) && NameOf(d) == old(NameOf(s))
              && lib.live == old(lib.live) - Objects(o) + Objects(d)
  {
    hide Linked, Distinct, NoReference, ContentOf, HasConstant, Constants, Value, NameOf, Objects, ObjectsOf;
    Exist(s);
    Exist(o);
    InNode(s);
    InNode(o);
    c, d := Duplicate(lib, item, true, s);
    if c != null {
      Exist(d);
      InNode(d);
      SameValue(s, d);
      One(o);
      SegmentOne(o, true, null, null);
      DeleteChain(lib, item, [o]);
    }
  }
}
