/** `cJSON_Delete`: frees every block of a tree exactly once, never touching one already freed. */
module Delete {
  import opened Nodes

  method DeleteChain(lib: Library, first: Node?, ghost ks: seq<Shape>)
    requires first == First(ks) && Chained(ks, true) && DistinctAll(ks) && ObjectsOf(ks) <= lib.live
    modifies lib`live
    ensures lib.live == old(lib.live) - ObjectsOf(ks)
    decreases ks
  {
    hide Linked, Distinct, DistinctAll, Objects, ObjectsOf, Segment, InPlace;
    var c := first;
    ghost var k := 0;
    NoSegment(true, null, null);
    while c != null
      invariant 0 <= k <= |ks|
      invariant c == if k < |ks| then ks[k].node else null
      invariant lib.live == old(lib.live) - ObjectsOf(ks[..k])
      decreases |ks| - k
    {
      ghost var s := ks[k];
      Next(ks, k);
      StillLive(ks, k, old(lib.live), lib.live);
      var next := c.next;
      DeleteParts(lib, c, s);
      lib.Free(c);
      Peeled(ks, k, old(lib.live));
      c := next;
      k := k + 1;
    }
    assert ks[..k] == ks;
  }

  /** What a node owns, in the order of the source. */
  method DeleteParts(lib: Library, c: Node, ghost s: Shape)
    requires s.node == c && Linked(s, true) && Distinct(s) && Objects(s) <= lib.live
    modifies lib`live
    ensures lib.live == old(lib.live) - (Objects(s) - {c})
    decreases s
  {
    if !c.isReference && c.child != null {
      DeleteChain(lib, c.child, s.kids);
    }
    if !c.isReference && c.valuestring != null {
      lib.Free(c.valuestring);
    }
    if !c.nameIsConst && c.name != null {
      lib.Free(c.name);
    }
  }

  lemma Next(ks: seq<Shape>, k: nat)
    requires k < |ks| && Chained(ks, true) && DistinctAll(ks)
    ensures Linked(ks[k], true) && Distinct(ks[k]) && ks[k].node in Objects(ks[k])
    ensures ks[k].node.next == if k + 1 < |ks| then ks[k + 1].node else null
  {
    hide Linked, Distinct;
    assert InPlace(ks, k, true, null, null);
  }

  lemma StillLive(ks: seq<Shape>, k: nat, was: set<object>, live: set<object>)
    requires k < |ks| && DistinctAll(ks) && ObjectsOf(ks) <= was && live == was - ObjectsOf(ks[..k])
    ensures Objects(ks[k]) <= live
  {
    Within(ks);
  }

  lemma Peeled(ks: seq<Shape>, k: nat, was: set<object>)
    requires k < |ks|
    ensures was - ObjectsOf(ks[..k]) - (Objects(ks[k]) - {ks[k].node}) - {ks[k].node} == was - ObjectsOf(ks[..k + 1])
  {
    assert ks[..k + 1] == ks[..k] + [ks[k]];
    ObjectsSplit(ks[..k], [ks[k]]);
    ObjectsOne(ks[k]);
  }
}
