/** A tree that is there to be read: its pointers are in place, it has a value, and no string that a
    printer would follow is missing. References are read through. */
module Standing {
  import opened CText
  import opened JsonTree
  import opened Nodes
  import opened PrinterSpec

  ghost predicate Stands(s: Shape, j: Json)
    reads s.node, Opt(s.text), ObjectsOf(s.kids)
    decreases s, 1
  {
    && s.node.child == First(s.kids) && s.node.valuestring == s.text
    && match s.node.tag
       case TFalse => j == False
       case TTrue => j == True
       case TNull => j == Null
       case TNumber => j == Num(s.node.valuedouble) && Harmless(s.node.valuedouble, s.node.valueint)
       case TString => s.text != null && j == Str(CStr(s.text[..]))
       case TArray => j.Nest? && j.kind == List && StandsAll(s.kids, j.members, List)
       case TObject => j.Nest? && j.kind == Object && StandsAll(s.kids, j.members, Object)
  }

  ghost predicate StandsAll(ks: seq<Shape>, ms: seq<Member>, kind: Kind)
    reads ObjectsOf(ks)
    decreases ks, 1
  {
    |ks| == |ms| && forall i :: 0 <= i < |ks| ==> StandsAt(ks, i, ms[i], kind)
  }

  /** The i-th child: its text and the link to the next. */
  ghost predicate StandsAt(ks: seq<Shape>, i: nat, m: Member, kind: Kind)
    requires i < |ks|
    reads ObjectsOf(ks)
    decreases ks, 0
  {
    InNode(ks[i]);
    Within(ks);
    && ks[i].node.next == (if i + 1 == |ks| then null else ks[i + 1].node)
    && (kind == Object ==> ks[i].name != null && ks[i].node.name == ks[i].name && m.name == Name(CStr(ks[i].name[..])))
    && Stands(ks[i], m.value)
  }

  lemma Lengths(ks: seq<Shape>, ms: seq<Member>, kind: Kind)
    requires StandsAll(ks, ms, kind)
    ensures |ks| == |ms|
  {
  }

  lemma Child(ks: seq<Shape>, i: nat, ms: seq<Member>, kind: Kind)
    requires i < |ks| && StandsAll(ks, ms, kind)
    ensures |ms| == |ks| && Stands(ks[i], ms[i].value) && StandsAt(ks, i, ms[i], kind)
    ensures ks[i].node.next == if i + 1 == |ks| then null else ks[i + 1].node
    ensures Objects(ks[i]) <= ObjectsOf(ks) && ks[i].node in ObjectsOf(ks) && Opt(ks[i].name) <= ObjectsOf(ks)
    ensures kind == Object ==> ks[i].name != null && ks[i].node.name == ks[i].name && ms[i].name == Name(CStr(ks[i].name[..]))
  {
    hide Stands;
    assert StandsAt(ks, i, ms[i], kind);
    Within(ks);
    InNode(ks[i]);
  }

  /** Counting the children, which both printers begin with. */
  method CountChildren(item: Node, ghost ks: seq<Shape>, ghost ms: seq<Member>, ghost kind: Kind) returns (n: nat)
    requires item.child == First(ks) && StandsAll(ks, ms, kind)
    ensures n == |ks|
  {
    hide Stands, StandsAll;
    ExistAll(ks);
    n := 0;
    var child := item.child;
    while child != null
      invariant n <= |ks| && child == NodeAt(ks, n)
      decreases |ks| - n
    {
      Child(ks, n, ms, kind);
      n := n + 1;
      child := child.next;
    }
  }

  /** The children of objects have names. */
  predicate Named(j: Json)
    decreases j, 0
  {
    j.Nest? ==> NamedAll(j.kind, j.members)
  }

  predicate NamedAll(kind: Kind, ms: seq<Member>)
    decreases ms, 0
  {
    forall i :: 0 <= i < |ms| ==>
      assert ms[i].value < ms[i];
      (kind == Object ==> ms[i].name.Name?) && Named(ms[i].value)
  }

  /** No `valueint` changes what is printed. */
  ghost predicate HarmlessIn(s: Shape)
    reads s.node`tag, s.node`valueint, s.node`valuedouble, ObjectsOf(s.kids)
    decreases s, 1
  {
    (s.node.tag == TNumber ==> Harmless(s.node.valuedouble, s.node.valueint)) && HarmlessInAll(s.kids)
  }

  ghost predicate HarmlessInAll(ks: seq<Shape>)
    reads ObjectsOf(ks)
    decreases ks, 0
  {
    forall i :: 0 <= i < |ks| ==>
      assert ks[i].node in Objects(ks[i]);
      HarmlessIn(ks[i])
  }

  /** Where the cast to `int` is defined it is harmless, and where it is not, anything is. */
  lemma {:induction false} TidyIsHarmless(s: Shape)
    requires Tidy(s)
    ensures HarmlessIn(s)
    decreases s, 1
  {
    TidyAreHarmless(s.kids);
  }

  lemma {:induction false} TidyAreHarmless(ks: seq<Shape>)
    requires TidyAll(ks)
    ensures HarmlessInAll(ks)
    decreases ks, 0
  {
    hide Tidy, HarmlessIn;
    forall i | 0 <= i < |ks| ensures HarmlessIn(ks[i]) { TidyIsHarmless(ks[i]); }
  }

  /** A tree that has its texts and, in its objects, its names stands, references and constant names or not. */
  lemma {:induction false} TreeStands(s: Shape)
    requires Linked(s, false) && HarmlessIn(s) && Spelled(s) && Named(Value(s))
    ensures Stands(s, Value(s))
    decreases s, 1
  {
    if s.node.tag == TArray { ChildrenStand(s.kids, List); }
    if s.node.tag == TObject { ChildrenStand(s.kids, Object); }
    SegmentOf(s);
  }

  lemma SegmentOf(s: Shape)
    requires Linked(s, false)
    ensures Segment(s.kids, false, null, null)
  {
  }

  lemma {:induction false} ChildrenStand(ks: seq<Shape>, kind: Kind)
    requires Segment(ks, false, null, null) && HarmlessInAll(ks) && SpelledAll(ks) && NamedAll(kind, Members(ks))
    ensures StandsAll(ks, Members(ks), kind)
    decreases ks, 0
  {
    hide Stands, Spelled, HarmlessIn, Value, Named;
    forall i | 0 <= i < |ks| ensures StandsAt(ks, i, Members(ks)[i], kind) {
      assert InPlace(ks, i, false, null, null);
      assert Named(Members(ks)[i].value);
      TreeStands(ks[i]);
      NamePlace(ks[i]);
    }
  }

  lemma NamePlace(s: Shape)
    requires Linked(s, false)
    ensures s.node.name == s.name && (s.name != null <==> NameOf(s).Name?)
    ensures s.name != null ==> NameOf(s) == Name(CStr(s.name[..]))
  {
  }
}
