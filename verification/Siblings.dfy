/** Changing one link at a time: what it does to a run of siblings. */
module Siblings {
  import opened Nodes

  /** Sets what comes after the last node of a run. */
  method SetNext(last: Node, v: Node?, ghost ks: seq<Shape>, ghost owned: bool, ghost before: Node?, ghost after: Node?)
    requires ks != [] && last == ks[|ks| - 1].node
    requires Segment(ks, owned, before, after) && DistinctAll(ks)
    modifies last`next
    ensures last.next == v
    ensures Segment(ks, owned, before, v)
    ensures Members(ks) == old(Members(ks)) && TidyAll(ks) == old(TidyAll(ks)) && SpelledAll(ks) == old(SpelledAll(ks))
  {
    hide Linked, Distinct, DistinctAll, ObjectsOf, Value, Members, Tidy, TidyAll, Spelled, SpelledAll, InPlace,
         Segment, Objects;
    ghost var init, s := ks[..|ks| - 1], ks[|ks| - 1];
    LastApart(ks);
    SegmentParts(init, [s], owned, before, after);
    SegmentOne(s, owned, LastOr(init, before), after);
    MembersSplit(init, [s]);
    TidySplit(init, [s]);
    SpelledSplit(init, [s]);
    One(s);
    ghost var value := Value(s);
    last.next := v;
    assert last !in Opt(s.text);
    assert Value(s) == value;
    One(s);
    MembersSplit(init, [s]);
    TidySplit(init, [s]);
    SpelledSplit(init, [s]);
    SegmentOne(s, owned, LastOr(init, before), v);
    SegmentJoin(init, [s], owned, before, v);
  }

  /** Sets what comes before the first node of a run. */
  method SetPrev(first: Node, v: Node?, ghost ks: seq<Shape>, ghost owned: bool, ghost before: Node?, ghost after: Node?)
    requires ks != [] && first == ks[0].node
    requires Segment(ks, owned, before, after) && DistinctAll(ks)
    modifies first`prev
    ensures first.prev == v
    ensures Segment(ks, owned, v, after)
    ensures Members(ks) == old(Members(ks)) && TidyAll(ks) == old(TidyAll(ks)) && SpelledAll(ks) == old(SpelledAll(ks))
  {
    hide Linked, Distinct, DistinctAll, ObjectsOf, Value, Members, Tidy, TidyAll, Spelled, SpelledAll, InPlace,
         Segment, Objects;
    ghost var s, tail := ks[0], ks[1..];
    FirstApart(ks);
    SegmentParts([s], tail, owned, before, after);
    SegmentOne(s, owned, before, FirstOr(tail, after));
    MembersSplit([s], tail);
    TidySplit([s], tail);
    SpelledSplit([s], tail);
    One(s);
    ghost var value := Value(s);
    first.prev := v;
    assert first !in Opt(s.text);
    assert Value(s) == value;
    One(s);
    MembersSplit([s], tail);
    TidySplit([s], tail);
    SpelledSplit([s], tail);
    SegmentOne(s, owned, v, FirstOr(tail, after));
    SegmentJoin([s], tail, owned, v, after);
  }

  /** `suffix_object`: hangs a node behind the last of a run. */
  method SuffixObject(prev: Node, item: Node, ghost ks: seq<Shape>, ghost owned: bool)
    requires ks != [] && prev == ks[|ks| - 1].node
    requires Chained(ks, owned) && DistinctAll(ks) && item !in ObjectsOf(ks)
    modifies prev`next, item`prev
    ensures prev.next == item && item.prev == prev
    ensures Segment(ks, owned, null, item)
    ensures Members(ks) == old(Members(ks))
    ensures TidyAll(ks) == old(TidyAll(ks)) && SpelledAll(ks) == old(SpelledAll(ks))
  {
    hide Linked, Distinct, DistinctAll, ObjectsOf, Value, Members, Tidy, TidyAll, Spelled, SpelledAll, InPlace,
         Segment, Objects;
    ExistAll(ks);
    SetNext(prev, item, ks, owned, null, null);
    item.prev := prev;
  }
}
