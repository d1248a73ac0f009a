/** `Lib_Json::getLenght`: a breadth-first walk over a queue that is meant to count all the nodes
    below a root. A node is entered only when its whole `type` field says list or object, so one with
    a flag bit set is counted but not entered. */
module JsonLength {
  import opened Nodes
  import opened ListOps

  /** The whole `type`, flag bits and all, is that of a container. */
  predicate Entered(n: Node)
    reads n
  {
    (n.tag == TObject || n.tag == TArray) && !n.isReference && !n.nameIsConst
  }

  /** All the nodes below a root. */
  ghost function Descendants(s: Shape): nat
    decreases s, 1
  {
    |s.kids| + DescendantsOf(s.kids)
  }

  ghost function DescendantsOf(ks: seq<Shape>): nat
    decreases ks, 0
  {
    if ks == [] then 0 else Descendants(ks[0]) + DescendantsOf(ks[1..])
  }

  /** The nodes that the walk reaches. */
  ghost function Reached(s: Shape): nat
    reads ObjectsOf(s.kids)
    decreases s, 1
  {
    |s.kids| + ReachedFrom(s.kids)
  }

  ghost function ReachedFrom(ks: seq<Shape>): nat
    reads ObjectsOf(ks)
    decreases ks, 0
  {
    Parts(ks);
    if ks == [] then 0 else (if Entered(ks[0].node) then Reached(ks[0]) else 0) + ReachedFrom(ks[1..])
  }

  lemma Parts(ks: seq<Shape>)
    ensures ks != [] ==>
              ks[0].node in ObjectsOf(ks) && ObjectsOf(ks[0].kids) <= ObjectsOf(ks) && ObjectsOf(ks[1..]) <= ObjectsOf(ks)
  {
    hide Objects, ObjectsOf;
    if ks != [] {
      var head := [ks[0]];
      assert ks == head + ks[1..];
      ObjectsSplit(head, ks[1..]);
      ObjectsOne(ks[0]);
      InNode(ks[0]);
    }
  }

  /** Below the root, only nodes that the walk enters have children. */
  ghost predicate Walkable(s: Shape)
    reads ObjectsOf(s.kids)
    decreases s, 1
  {
    WalkableAll(s.kids)
  }

  ghost predicate WalkableAll(ks: seq<Shape>)
    reads ObjectsOf(ks)
    decreases ks, 0
  {
    Parts(ks);
    ks != [] ==> (if Entered(ks[0].node) then Walkable(ks[0]) else ks[0].kids == []) && WalkableAll(ks[1..])
  }

  /** The walk counts every descendant exactly when nothing but entered nodes has children. */
  lemma {:induction false} CountsAll(s: Shape)
    ensures Reached(s) <= Descendants(s)
    ensures Reached(s) == Descendants(s) <==> Walkable(s)
    decreases s, 1
  {
    CountsAllOf(s.kids);
  }

  lemma {:induction false} CountsAllOf(ks: seq<Shape>)
    ensures ReachedFrom(ks) <= DescendantsOf(ks)
    ensures ReachedFrom(ks) == DescendantsOf(ks) <==> WalkableAll(ks)
    decreases ks, 0
  {
    if ks != [] {
      CountsAll(ks[0]);
      CountsAllOf(ks[1..]);
    }
  }

  /** Below the root no flag bit is set, and only lists and objects have children. */
  ghost predicate Unflagged(ks: seq<Shape>)
    reads ObjectsOf(ks)
    decreases ks, 0
  {
    Parts(ks);
    ks != [] ==>
      var n := ks[0].node;
      && !n.isReference && !n.nameIsConst && (n.tag == TArray || n.tag == TObject || ks[0].kids == [])
      && Unflagged(ks[0].kids) && Unflagged(ks[1..])
  }

  /** In such a tree every descendant is counted. */
  lemma {:induction false} UnflaggedCountsAll(s: Shape)
    requires Unflagged(s.kids)
    ensures Reached(s) == Descendants(s)
    decreases s, 1
  {
    UnflaggedWalkable(s.kids);
    CountsAll(s);
  }

  lemma {:induction false} UnflaggedWalkable(ks: seq<Shape>)
    requires Unflagged(ks)
    ensures WalkableAll(ks)
    decreases ks, 0
  {
    if ks != [] {
      UnflaggedWalkable(ks[0].kids);
      UnflaggedWalkable(ks[1..]);
    }
  }

  /** A child under a constant name, or one that is a reference, is counted, but nothing below it is. */
  lemma ConstantNameHides(s: Shape, k: nat)
    requires k < |s.kids| && (s.kids[k].node.nameIsConst || s.kids[k].node.isReference)
    ensures Reached(s) + Descendants(s.kids[k]) <= Descendants(s)
    ensures s.kids[k].kids != [] ==> Reached(s) < Descendants(s)
  {
    HiddenBelow(s.kids, k);
  }

  lemma {:induction false} HiddenBelow(ks: seq<Shape>, k: nat)
    requires k < |ks| && !Entered(ks[k].node)
    ensures ReachedFrom(ks) + Descendants(ks[k]) <= DescendantsOf(ks)
  {
    CountsAllOf(ks[1..]);
    if k > 0 {
      CountsAll(ks[0]);
      HiddenBelow(ks[1..], k - 1);
    }
  }

  ghost function Size(s: Shape): (n: nat)
    ensures n >= 1
    decreases s, 1
  {
    1 + SizeOf(s.kids)
  }

  /** The measure of the queue: all the nodes of all its trees. */
  ghost function SizeOf(ks: seq<Shape>): nat
    decreases ks, 0
  {
    if ks == [] then 0 else Size(ks[0]) + SizeOf(ks[1..])
  }

  lemma {:induction false} SizeSnoc(ks: seq<Shape>, s: Shape)
    ensures SizeOf(ks + [s]) == SizeOf(ks) + Size(s)
    decreases ks
  {
    if ks == [] {
      assert ([] + [s])[1..] == [];
    } else {
      assert (ks + [s])[1..] == ks[1..] + [s];
      SizeSnoc(ks[1..], s);
    }
  }

  /** What the trees in the queue still contribute. */
  ghost function Pending(ks: seq<Shape>): nat
    reads ObjectsOf(ks)
    decreases |ks|
  {
    Parts(ks);
    if ks == [] then 0 else Reached(ks[0]) + Pending(ks[1..])
  }

  lemma {:induction false} PendingSnoc(ks: seq<Shape>, s: Shape)
    ensures Pending(ks + [s]) == Pending(ks) + Reached(s)
    decreases ks
  {
    hide Reached;
    if ks == [] {
      assert ([] + [s])[1..] == [];
    } else {
      assert (ks + [s])[1..] == ks[1..] + [s];
      PendingSnoc(ks[1..], s);
    }
  }

  ghost predicate Queued(q: seq<Node>, qs: seq<Shape>)
    reads q, ObjectsOf(qs)
  {
    |q| == |qs| && forall i :: 0 <= i < |qs| ==> (assert qs[i].node in Objects(qs[i]); qs[i].node == q[i] && Linked(qs[i], false))
  }

  method GetLength(root: Node?, ghost s: Shape) returns (len: nat)
    requires root != null ==> root == s.node && Linked(s, false)
    ensures len == if root == null then 0 else Reached(s)
  {
    hide Linked, Reached, Size;
    len := 0;
    if root == null {
      return;
    }
    var q: seq<Node> := [root];
    ghost var qs := [s];
    ghost var total := Reached(s);
    ExistAll(s.kids);
    assert qs[1..] == [];
    while q != []
      invariant Queued(q, qs) && len + Pending(qs) == total
      decreases SizeOf(qs)
    {
      var temp := q[0];
      ghost var t := qs[0];
      q, qs := q[1..], qs[1..];
      ChainOf(t);
      ExistAll(qs);
      ExistAll(t.kids);
      var size := GetArraySize(temp, t.kids, false);
      len := len + size;
      q, qs := PushChildren(temp.child, q, qs, t.kids);
    }
  }

  lemma ChainOf(t: Shape)
    requires Linked(t, false)
    ensures t.node.child == First(t.kids) && Chained(t.kids, false)
    ensures Reached(t) == |t.kids| + ReachedFrom(t.kids) && Size(t) == 1 + SizeOf(t.kids)
  {
  }

  /** Queues the children that are to be entered. */
  method PushChildren(first: Node?, q0: seq<Node>, ghost qs0: seq<Shape>, ghost ks: seq<Shape>)
    returns (q: seq<Node>, ghost qs: seq<Shape>)
    requires first == First(ks) && Chained(ks, false) && Queued(q0, qs0)
    ensures Queued(q, qs) && Pending(qs) == Pending(qs0) + ReachedFrom(ks)
    ensures SizeOf(qs) <= SizeOf(qs0) + SizeOf(ks)
  {
    hide Linked, Reached, Size;
    q, qs := q0, qs0;
    ExistAll(ks);
    var c := first;
    ghost var k := 0;
    assert ks[0..] == ks;
    while c != null
      invariant 0 <= k <= |ks| && c == NodeAt(ks, k)
      invariant Queued(q, qs) && Pending(qs) + ReachedFrom(ks[k..]) == Pending(qs0) + ReachedFrom(ks)
      invariant SizeOf(qs) + SizeOf(ks[k..]) <= SizeOf(qs0) + SizeOf(ks)
      decreases |ks| - k
    {
      assert InPlace(ks, k, false, null, null);
      assert ks[k..][1..] == ks[k + 1..];
      if Entered(c) {
        PendingSnoc(qs, ks[k]);
        SizeSnoc(qs, ks[k]);
        q, qs := q + [c], qs + [ks[k]];
      }
      c := c.next;
      k := k + 1;
    }
    assert ks[k..] == [];
  }
}
