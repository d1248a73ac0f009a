/** What deleting a tree gives back: everything but the names that are flagged constant. */
module Ownership {
  import opened CText
  import opened Nodes
  import opened Delete

  /** No node is a reference. */
  ghost predicate NoReference(s: Shape)
    reads s.node`isReference, ObjectsOf(s.kids)
    decreases s, 1
  {
    !s.node.isReference && NoReferences(s.kids)
  }

  ghost predicate NoReferences(ks: seq<Shape>)
    reads ObjectsOf(ks)
    decreases ks, 0
  {
    forall i :: 0 <= i < |ks| ==>
      assert ks[i].node in Objects(ks[i]);
      NoReference(ks[i])
  }

  /** The names that deleting leaves alone. */
  ghost function Constants(s: Shape): (os: set<object>)
    reads s.node`nameIsConst, ObjectsOf(s.kids)
    ensures forall o :: o in os ==> o is array<byte>
    decreases s, 1
  {
    (if s.node.nameIsConst then Opt(s.name) else {}) + ConstantsOf(s.kids)
  }

  ghost function ConstantsOf(ks: seq<Shape>): (os: set<object>)
    reads ObjectsOf(ks)
    ensures forall o :: o in os ==> o is array<byte>
    decreases ks, 0
  {
    assert forall i :: 0 <= i < |ks| ==> ks[i].node in Objects(ks[i]);
    set i, o | 0 <= i < |ks| && o in Constants(ks[i]) :: o
  }

  /** The shape without those names. */
  ghost function Owned(s: Shape): Shape
    reads s.node`nameIsConst, ObjectsOf(s.kids)
    decreases s, 1
  {
    Shape(s.node, s.text, if s.node.nameIsConst then null else s.name, OwnedOf(s.kids))
  }

  ghost function OwnedOf(ks: seq<Shape>): (os: seq<Shape>)
    reads ObjectsOf(ks)
    ensures |os| == |ks|
    ensures forall i :: 0 <= i < |ks| ==> os[i] == Owned(ks[i])
    decreases ks, 0
  {
    assert forall i :: 0 <= i < |ks| ==> ks[i].node in Objects(ks[i]);
    seq(|ks|, i requires 0 <= i < |ks| reads ObjectsOf(ks) => Owned(ks[i]))
  }

  lemma {:induction false} OwnedObjects(s: Shape)
    requires Distinct(s)
    ensures Distinct(Owned(s)) && Objects(Owned(s)) == Objects(s) - Constants(s)
    ensures Constants(s) <= Objects(s) && s.node !in Constants(s)
    decreases s, 1
  {
    OwnedObjectsOf(s.kids);
  }

  lemma {:induction false} OwnedObjectsOf(ks: seq<Shape>)
    requires DistinctAll(ks)
    ensures DistinctAll(OwnedOf(ks)) && ObjectsOf(OwnedOf(ks)) == ObjectsOf(ks) - ConstantsOf(ks)
    ensures ConstantsOf(ks) <= ObjectsOf(ks)
    decreases ks, 0
  {
    hide Objects, Distinct, Constants, Owned, OwnedOf;
    var os := OwnedOf(ks);
    forall i | 0 <= i < |ks|
      ensures Distinct(os[i]) && Objects(os[i]) == Objects(ks[i]) - Constants(ks[i])
      ensures Constants(ks[i]) <= Objects(ks[i])
    {
      OwnedObjects(ks[i]);
    }
    forall o | o in ObjectsOf(os) ensures o in ObjectsOf(ks) && o !in ConstantsOf(ks) {
      var i :| 0 <= i < |os| && o in Objects(os[i]);
      assert o in Objects(ks[i]);
      forall j | 0 <= j < |ks| ensures o !in Constants(ks[j]) {
        assert i == j || Objects(ks[i]) !! Objects(ks[j]);
      }
    }
    forall o | o in ObjectsOf(ks) && o !in ConstantsOf(ks) ensures o in ObjectsOf(os) {
      var i :| 0 <= i < |ks| && o in Objects(ks[i]);
      assert o !in Constants(ks[i]);
      assert o in Objects(os[i]);
    }
  }

  lemma {:induction false} OwnedLinked(s: Shape)
    requires Linked(s, false) && NoReference(s)
    ensures Linked(Owned(s), true)
    decreases s, 1
  {
    OwnedSegment(s.kids, null, null);
  }

  lemma {:induction false} OwnedSegment(ks: seq<Shape>, before: Node?, after: Node?)
    requires Segment(ks, false, before, after) && NoReferences(ks)
    ensures Segment(OwnedOf(ks), true, before, after)
    decreases ks, 0
  {
    hide Linked, NoReference, OwnedOf;
    var os := OwnedOf(ks);
    forall i | 0 <= i < |ks| ensures InPlace(os, i, true, before, after) {
      assert InPlace(ks, i, false, before, after);
      OwnedLinked(ks[i]);
    }
  }

  /** Deleting a tree without references gives back all of it but its constant names. */
  method DeleteAll(lib: Library, c: Node, ghost s: Shape)
    requires c == s.node && Linked(s, false) && NoReference(s) && Distinct(s) && Objects(s) - Constants(s) <= lib.live
    requires c.prev == null && c.next == null
    modifies lib`live
    ensures lib.live == old(lib.live) - (Objects(s) - Constants(s))
  {
    hide Linked, NoReference, Distinct, Objects, Constants;
    ghost var o := Owned(s);
    ExistAll(s.kids);
    OwnedObjects(s);
    OwnedLinked(s);
    One(o);
    SegmentOne(o, true, null, null);
    DeleteChain(lib, c, [o]);
  }
}
