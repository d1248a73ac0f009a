/** Runs of list operations on a container and the trees at hand beside it: whatever is done in whatever
    order, both are what the same operations make of two sequences, the chain stays proper, and every
    block is where it belongs or freed. A tree that has been taken out can be put back. */
module ListRuns {
  import opened JsonTree
  import opened Nodes
  import opened ListOps

  datatype Op =
    | Add(item: Node)
    | Insert(which: int, item: Node)
    | Replace(which: int, item: Node)
    | Detach(which: int)
    | Delete(which: int)

  // ----- on sequences

  /** A tree as its holder sees it. */
  datatype Entry = Entry(node: Node, member: Member)

  /** The children, and the trees that stand alone. */
  datatype State = State(kids: seq<Entry>, loose: seq<Entry>)

  predicate Brings(op: Op) { op.Add? || op.Insert? || op.Replace? }

  /** Appending and inserting always find a place, replacing needs a child at the index. */
  predicate HasPlace(op: Op, n: nat) { Brings(op) && (op.Replace? ==> Clamp(op.which) < n) }

  function Put<T>(xs: seq<T>, op: Op, x: T): seq<T>
    requires HasPlace(op, |xs|)
  {
    match op
    case Add(_) => xs + [x]
    case Insert(which, _) =>
      var i := if Clamp(which) < |xs| then Clamp(which) else |xs|;
      xs[..i] + [x] + xs[i..]
    case Replace(which, _) => xs[..Clamp(which)] + [x] + xs[Clamp(which) + 1..]
  }

  function Without<T>(xs: seq<T>, i: nat): seq<T>
    requires i < |xs|
  {
    xs[..i] + xs[i + 1..]
  }

  /** The tree of a node among those that stand alone. */
  function IndexOf(loose: seq<Entry>, n: Node): (j: nat)
    ensures j <= |loose| && (j < |loose| ==> loose[j].node == n)
  {
    if loose == [] || loose[0].node == n then 0 else 1 + IndexOf(loose[1..], n)
  }

  /** Only a tree that stands alone may be put somewhere. */
  predicate Can(st: State, op: Op) { Brings(op) ==> IndexOf(st.loose, op.item) < |st.loose| }

  function Applied(st: State, op: Op): State
    requires Can(st, op)
  {
    if Brings(op) then
      var j := IndexOf(st.loose, op.item);
      if HasPlace(op, |st.kids|) then State(Put(st.kids, op, st.loose[j]), Without(st.loose, j)) else st
    else if Clamp(op.which) < |st.kids| then
      var i := Clamp(op.which);
      State(Without(st.kids, i), if op.Detach? then st.loose + [st.kids[i]] else st.loose)
    else st
  }

  predicate CanAll(st: State, ops: seq<Op>)
    decreases |ops|
  {
    ops != [] ==> Can(st, ops[0]) && CanAll(Applied(st, ops[0]), ops[1..])
  }

  function AppliedAll(st: State, ops: seq<Op>): State
    requires CanAll(st, ops)
    decreases |ops|
  {
    if ops == [] then st else AppliedAll(Applied(st, ops[0]), ops[1..])
  }

  /** A child that is taken out and put back at the same index. */
  lemma MoveBack(st: State, i: nat)
    requires i < |st.kids| && IndexOf(st.loose, st.kids[i].node) == |st.loose|
    ensures var ops := [Detach(i), Insert(i, st.kids[i].node)];
            CanAll(st, ops) && AppliedAll(st, ops) == st
  {
    var x := st.kids[i];
    var ops := [Detach(i), Insert(i, x.node)];
    var mid := State(Without(st.kids, i), st.loose + [x]);
    IndexOfLast(st.loose, x);
    assert ops[1..] == [Insert(i, x.node)] && ops[1..][1..] == [];
    assert Without(st.loose + [x], |st.loose|) == st.loose;
    assert Put(mid.kids, Insert(i, x.node), x) == st.kids;
    assert Applied(st, ops[0]) == mid && Applied(mid, ops[1]) == st;
    assert CanAll(mid, ops[1..]) && AppliedAll(mid, ops[1..]) == st;
  }

  lemma {:induction false} IndexOfLast(loose: seq<Entry>, x: Entry)
    requires IndexOf(loose, x.node) == |loose|
    ensures IndexOf(loose + [x], x.node) == |loose|
  {
    if loose == [] {
      assert [] + [x] == [x];
    } else {
      assert (loose + [x])[1..] == loose[1..] + [x];
      IndexOfLast(loose[1..], x);
    }
  }

  // ----- on the heap

  function Zip(ks: seq<Shape>, ms: seq<Member>): (r: seq<Entry>)
    requires |ks| == |ms|
    ensures |r| == |ks| && forall i :: 0 <= i < |ks| ==> r[i] == Entry(ks[i].node, ms[i])
  {
    if ks == [] then [] else [Entry(ks[0].node, ms[0])] + Zip(ks[1..], ms[1..])
  }

  lemma {:induction false} ZipAround(ks: seq<Shape>, ms: seq<Member>, i: nat, k: nat, s: Shape, m: Member)
    requires |ks| == |ms| && i <= |ks| && k <= |ks|
    ensures Zip(ks[..i] + [s] + ks[k..], ms[..i] + [m] + ms[k..]) == Zip(ks, ms)[..i] + [Entry(s.node, m)] + Zip(ks, ms)[k..]
  {
    hide Zip;
  }

  lemma {:induction false} ZipPut(ks: seq<Shape>, ms: seq<Member>, op: Op, s: Shape, m: Member)
    requires |ks| == |ms| && HasPlace(op, |ks|)
    ensures |Put(ks, op, s)| == |Put(ms, op, m)|
    ensures Zip(Put(ks, op, s), Put(ms, op, m)) == Put(Zip(ks, ms), op, Entry(s.node, m))
  {
    hide Zip, Clamp;
    match op
    case Add(_) => ZipOn(ks, ms, s, m);
    case Insert(which, _) =>
      var i := if Clamp(which) < |ks| then Clamp(which) else |ks|;
      assert Put(ks, op, s) == ks[..i] + [s] + ks[i..] && Put(ms, op, m) == ms[..i] + [m] + ms[i..];
      ZipAround(ks, ms, i, i, s, m);
    case Replace(which, _) =>
      var i := Clamp(which);
      assert Put(ks, op, s) == ks[..i] + [s] + ks[i + 1..] && Put(ms, op, m) == ms[..i] + [m] + ms[i + 1..];
      ZipAround(ks, ms, i, i + 1, s, m);
  }

  lemma {:induction false} ZipWithout(ks: seq<Shape>, ms: seq<Member>, i: nat)
    requires |ks| == |ms| && i < |ks|
    ensures Zip(Without(ks, i), Without(ms, i)) == Without(Zip(ks, ms), i)
  {
    hide Zip;
  }

  lemma {:induction false} ZipOn(ks: seq<Shape>, ms: seq<Member>, s: Shape, m: Member)
    requires |ks| == |ms|
    ensures Zip(ks + [s], ms + [m]) == Zip(ks, ms) + [Entry(s.node, m)]
  {
    hide Zip;
  }

  ghost predicate AllLoose(pool: seq<Shape>, parent: Node, ks: seq<Shape>)
    reads ObjectsOf(pool)
  {
    Within(pool);
    forall i :: 0 <= i < |pool| ==> Loose(pool[i], parent, ks, true)
  }

  /** A container, and the trees at hand. */
  ghost predicate Keeps(parent: Node, ks: seq<Shape>, pool: seq<Shape>)
    reads parent, ObjectsOf(ks), ObjectsOf(pool)
  {
    Holds(parent, ks, true) && AllLoose(pool, parent, ks) && DistinctAll(pool)
  }

  ghost function View(ks: seq<Shape>, pool: seq<Shape>): State
    reads ObjectsOf(ks), ObjectsOf(pool)
  {
    State(Zip(ks, Members(ks)), Zip(pool, Members(pool)))
  }

  ghost function Blocks(ks: seq<Shape>, pool: seq<Shape>): set<object> { ObjectsOf(ks) + ObjectsOf(pool) }

  ghost function NodesIn(os: set<object>): set<Node> { set o | o in os && o is Node :: o as Node }

  /** Putting a tree somewhere; a child that it replaces is freed. */
  method Bring(lib: Library, parent: Node, op: Op, ghost ks: seq<Shape>, ghost s: Shape) returns (ghost ks': seq<Shape>)
    requires Holds(parent, ks, true) && ObjectsOf(ks) <= lib.live
    requires Brings(op) && op.item == s.node && Loose(s, parent, ks, true)
    modifies lib`live, parent`child, NodesOf(ks)`next, NodesOf(ks)`prev, op.item`next, op.item`prev
    ensures Holds(parent, ks', true)
    ensures if HasPlace(op, |ks|) then
              && ks' == Put(ks, op, s) && Members(ks') == Put(old(Members(ks)), op, old(Worth(s)))
              && lib.live == old(lib.live) - (ObjectsOf(ks) + Objects(s) - ObjectsOf(ks'))
              && Objects(s) <= ObjectsOf(ks') <= ObjectsOf(ks) + Objects(s)
            else
              && ks' == ks && Members(ks) == old(Members(ks)) && lib.live == old(lib.live)
              && Loose(s, parent, ks, true) && Worth(s) == old(Worth(s))
  {
    hide Linked, Distinct, DistinctAll, ObjectsOf, Value, Members, InPlace, Segment, Objects, NodesOf, Chained, Worth;
    match op {
      case Add(item) =>
        AddItemToArray(parent, item, ks, s, true);
        ks' := ks + [s];
        ObjectsSplit(ks, [s]);
        One(s);
      case Insert(which, item) =>
        ks' := InsertItemInArray(parent, which, item, ks, s, true);
        var i := if Clamp(which) < |ks| then Clamp(which) else |ks|;
        assert ks == ks[..i] + ks[i..];
        ObjectsSplit(ks[..i], ks[i..]);
        AllOf(ks[..i], s, ks[i..]);
      case Replace(which, item) =>
        Slot(ks, Clamp(which));
        ks' := ReplaceItemInArray(lib, parent, which, item, ks, s);
        if Clamp(which) < |ks| { AllOf(ks[..Clamp(which)], s, ks[Clamp(which) + 1..]); }
    }
  }

  /** Taking a child out, and freeing it or not. */
  method Take(lib: Library, parent: Node, op: Op, ghost ks: seq<Shape>) returns (c: Node?, ghost ks': seq<Shape>)
    requires Holds(parent, ks, true) && ObjectsOf(ks) <= lib.live && !Brings(op)
    modifies lib`live, parent`child, NodesOf(ks)`next, NodesOf(ks)`prev
    ensures Holds(parent, ks', true) && c == if op.Detach? then NodeAt(ks, Clamp(op.which)) else null
    ensures var i := Clamp(op.which);
            if i < |ks| then
              && ks' == Without(ks, i) && Members(ks') == Without(old(Members(ks)), i)
              && ObjectsOf(ks) == ObjectsOf(ks') + Objects(ks[i]) && ObjectsOf(ks') !! Objects(ks[i])
              && (if op.Detach? then
                    && Loose(ks[i], parent, ks', true) && Worth(ks[i]) == old(Members(ks))[i]
                    && lib.live == old(lib.live)
                  else lib.live == old(lib.live) - Objects(ks[i]))
            else ks' == ks && Members(ks) == old(Members(ks)) && lib.live == old(lib.live)
  {
    hide Linked, Distinct, DistinctAll, ObjectsOf, Value, Members, InPlace, Segment, Objects, NodesOf, Chained, Worth;
    var i := Clamp(op.which);
    Slot(ks, i);
    c := null;
    if op.Detach? {
      c, ks' := DetachItemFromArray(parent, op.which, ks, true);
    } else {
      ks' := DeleteItemFromArray(lib, parent, op.which, ks);
    }
    if i < |ks| { ObjectsSplit(ks[..i], ks[i + 1..]); }
  }

  /** One of the trees at hand, apart from the others. */
  lemma PoolApart(pool: seq<Shape>, j: nat, parent: Node, ks: seq<Shape>)
    requires j < |pool| && AllLoose(pool, parent, ks) && DistinctAll(pool)
    ensures var s, rest := pool[j], Without(pool, j);
            && Loose(s, parent, ks, true) && AllLoose(rest, parent, ks) && DistinctAll(rest)
            && Objects(s) !! ObjectsOf(rest) && ObjectsOf(pool) == Objects(s) + ObjectsOf(rest)
            && Members(rest) == Without(Members(pool), j) && Members(pool)[j] == Worth(s)
  {
    hide Linked, Distinct, DistinctAll, Objects, ObjectsOf, Members, Value;
    var a, b := pool[..j], pool[j + 1..];
    assert pool == (a + [pool[j]]) + b;
    Middle(a, pool[j], b);
    assert Members(a) == Members(pool)[..j];
    assert Members(b) == Members(pool)[j + 1..];
    forall i | 0 <= i < |a + b| ensures Loose((a + b)[i], parent, ks, true) {
      assert (a + b)[i] == pool[if i < j then i else i + 1];
    }
  }

  lemma Middle(a: seq<Shape>, s: Shape, b: seq<Shape>)
    requires DistinctAll((a + [s]) + b)
    ensures DistinctAll(a + b) && Objects(s) !! ObjectsOf(a + b)
    ensures ObjectsOf((a + [s]) + b) == Objects(s) + ObjectsOf(a + b)
    ensures Members((a + [s]) + b) == Members(a) + [Worth(s)] + Members(b) && Members(a + b) == Members(a) + Members(b)
  {
    hide Linked, Distinct, DistinctAll, Objects, ObjectsOf, Members, Value;
    DistinctSplit(a + [s], b);
    DistinctSplit(a, [s]);
    DistinctSplit(a, b);
    ObjectsSplit(a + [s], b);
    ObjectsSplit(a, [s]);
    ObjectsSplit(a, b);
    MembersSplit(a + [s], b);
    MembersSplit(a, [s]);
    MembersSplit(a, b);
    One(s);
  }

  /** And back among them. */
  lemma {:induction false} PoolTogether(pool: seq<Shape>, j: nat, parent: Node, ks: seq<Shape>, mp: seq<Member>)
    requires j < |pool| == |mp| && Loose(pool[j], parent, ks, true) && AllLoose(Without(pool, j), parent, ks)
    requires Members(Without(pool, j)) == Without(mp, j) && Worth(pool[j]) == mp[j]
    ensures AllLoose(pool, parent, ks) && Members(pool) == mp
  {
    hide Linked, Distinct, DistinctAll, Objects, ObjectsOf, Members, Value;
    var rest := Without(pool, j);
    forall i | 0 <= i < |pool| ensures Loose(pool[i], parent, ks, true) && Members(pool)[i] == mp[i] {
      if i != j {
        var k := if i < j then i else i - 1;
        assert rest[k] == pool[i] && Without(mp, j)[k] == mp[i];
        assert Members(rest)[k] == Worth(rest[k]);
      }
    }
  }

  /** Nothing but the container's blocks keeps a tree from standing alone. */
  lemma StillLoose(pool: seq<Shape>, parent: Node, ks: seq<Shape>, ks': seq<Shape>)
    requires AllLoose(pool, parent, ks) && ObjectsOf(ks') !! ObjectsOf(pool)
    ensures AllLoose(pool, parent, ks')
  {
    hide Linked, Distinct, Objects, ObjectsOf;
    Within(pool);
  }

  lemma PoolOutside(pool: seq<Shape>, parent: Node, ks: seq<Shape>)
    requires AllLoose(pool, parent, ks)
    ensures ObjectsOf(pool) !! ObjectsOf(ks) && parent !in ObjectsOf(pool)
  {
    hide Linked, Distinct, Objects;
  }

  /** A tree that has been taken out joins those at hand. */
  lemma PoolOn(pool: seq<Shape>, s: Shape, parent: Node, ks: seq<Shape>)
    requires AllLoose(pool, parent, ks) && DistinctAll(pool) && Loose(s, parent, ks, true) && Objects(s) !! ObjectsOf(pool)
    ensures AllLoose(pool + [s], parent, ks) && DistinctAll(pool + [s])
    ensures ObjectsOf(pool + [s]) == ObjectsOf(pool) + Objects(s) && Members(pool + [s]) == Members(pool) + [Worth(s)]
  {
    hide Linked, Distinct, DistinctAll, Objects, ObjectsOf, Members, Value;
    One(s);
    DistinctSplit(pool, [s]);
    ObjectsSplit(pool, [s]);
    MembersSplit(pool, [s]);
  }

  method PerformBring(lib: Library, parent: Node, op: Op, ghost ks: seq<Shape>, ghost pool: seq<Shape>)
    returns (ghost ks': seq<Shape>, ghost pool': seq<Shape>)
    requires Keeps(parent, ks, pool) && Blocks(ks, pool) <= lib.live && Brings(op) && Can(View(ks, pool), op)
    modifies lib`live, parent`child, NodesIn(Blocks(ks, pool))`next, NodesIn(Blocks(ks, pool))`prev
    ensures Keeps(parent, ks', pool') && View(ks', pool') == Applied(old(View(ks, pool)), op)
    ensures Blocks(ks', pool') <= Blocks(ks, pool)
    ensures lib.live == old(lib.live) - (Blocks(ks, pool) - Blocks(ks', pool'))
  {
    hide Linked, Distinct, DistinctAll, ObjectsOf, Value, Members, InPlace, Segment, Objects, Chained, Holds, Loose,
         AllLoose, Put, Without, Zip, IndexOf, Worth;
    ghost var ms, mp := Members(ks), Members(pool);
    ghost var j := IndexOf(Zip(pool, mp), op.item);
    ghost var s, rest := pool[j], Without(pool, j);
    PoolApart(pool, j, parent, ks);
    PoolOutside(rest, parent, ks);
    NodesWithin(ks);
    InNode(s);
    ExistAll(rest);
    ghost var worth, others := Worth(s), Members(rest);
    ks' := Bring(lib, parent, op, ks, s);
    assert Members(rest) == others && AllLoose(rest, parent, ks) && DistinctAll(rest);
    if HasPlace(op, |ks|) {
      pool' := rest;
      StillLoose(rest, parent, ks, ks');
      ZipPut(ks, ms, op, s, worth);
      ZipWithout(pool, mp, j);
    } else {
      pool' := pool;
      PoolTogether(pool, j, parent, ks, mp);
    }
  }

  method PerformTake(lib: Library, parent: Node, op: Op, ghost ks: seq<Shape>, ghost pool: seq<Shape>)
    returns (c: Node?, ghost ks': seq<Shape>, ghost pool': seq<Shape>)
    requires Keeps(parent, ks, pool) && Blocks(ks, pool) <= lib.live && !Brings(op)
    modifies lib`live, parent`child, NodesIn(Blocks(ks, pool))`next, NodesIn(Blocks(ks, pool))`prev
    ensures Keeps(parent, ks', pool') && View(ks', pool') == Applied(old(View(ks, pool)), op)
    ensures Blocks(ks', pool') <= Blocks(ks, pool)
    ensures lib.live == old(lib.live) - (Blocks(ks, pool) - Blocks(ks', pool'))
    ensures c == if op.Detach? then NodeAt(ks, Clamp(op.which)) else null
  {
    hide Linked, Distinct, DistinctAll, ObjectsOf, Value, Members, InPlace, Segment, Objects, Chained, Holds, Loose,
         AllLoose, Put, Without, Zip, IndexOf, Worth;
    ghost var ms, mp := Members(ks), Members(pool);
    ghost var i := Clamp(op.which);
    PoolOutside(pool, parent, ks);
    NodesWithin(ks);
    ExistAll(pool);
    c, ks' := Take(lib, parent, op, ks);
    assert Members(pool) == mp && AllLoose(pool, parent, ks) && DistinctAll(pool);
    pool' := pool;
    if i < |ks| {
      ZipWithout(ks, ms, i);
      StillLoose(pool, parent, ks, ks');
      if op.Detach? {
        pool' := pool + [ks[i]];
        PoolOn(pool, ks[i], parent, ks');
        ZipOn(pool, mp, ks[i], ms[i]);
      }
    }
  }

  /** One operation: the container and the trees at hand are what the operation on sequences makes of
      them, and a block that is in neither any more has been freed. Detaching returns what it took out. */
  method Perform(lib: Library, parent: Node, op: Op, ghost ks: seq<Shape>, ghost pool: seq<Shape>)
    returns (c: Node?, ghost ks': seq<Shape>, ghost pool': seq<Shape>)
    requires Keeps(parent, ks, pool) && Blocks(ks, pool) <= lib.live && Can(View(ks, pool), op)
    modifies lib`live, parent`child, NodesIn(Blocks(ks, pool))`next, NodesIn(Blocks(ks, pool))`prev
    ensures Keeps(parent, ks', pool') && View(ks', pool') == Applied(old(View(ks, pool)), op)
    ensures Blocks(ks', pool') <= Blocks(ks, pool)
    ensures lib.live == old(lib.live) - (Blocks(ks, pool) - Blocks(ks', pool'))
    ensures c == if op.Detach? then NodeAt(ks, Clamp(op.which)) else null
  {
    hide Keeps, View, Blocks, Can, Applied;
    c := null;
    if op.Detach? || op.Delete? {
      c, ks', pool' := PerformTake(lib, parent, op, ks, pool);
    } else {
      ks', pool' := PerformBring(lib, parent, op, ks, pool);
    }
  }

  /** A whole run, in which an item may be any tree at hand, one that has been taken out among them. */
  method PerformAll(lib: Library, parent: Node, ops: seq<Op>, ghost ks: seq<Shape>, ghost pool: seq<Shape>)
    returns (ghost ks': seq<Shape>, ghost pool': seq<Shape>)
    requires Keeps(parent, ks, pool) && Blocks(ks, pool) <= lib.live && CanAll(View(ks, pool), ops)
    modifies lib`live, parent`child, NodesIn(Blocks(ks, pool))`next, NodesIn(Blocks(ks, pool))`prev
    ensures Keeps(parent, ks', pool') && View(ks', pool') == AppliedAll(old(View(ks, pool)), ops)
    ensures Blocks(ks', pool') <= Blocks(ks, pool)
    ensures lib.live == old(lib.live) - (Blocks(ks, pool) - Blocks(ks', pool'))
    decreases |ops|
  {
    hide Keeps, View, Can, Applied, ObjectsOf;
    ks', pool' := ks, pool;
    if ops != [] {
      var c, more, left := Perform(lib, parent, ops[0], ks, pool);
      ks', pool' := PerformAll(lib, parent, ops[1..], more, left);
    }
  }
}
