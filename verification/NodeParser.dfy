/** The parser as it runs: it allocates nodes and strings, any of which may be refused, and links
    them as it goes. Whatever happens, everything it allocated hangs off the item it was given. */
module NodeParser {
  import opened CText
  import opened JsonTree
  import opened Nodes
  import opened Siblings
  import ParserSpec
  import StringParser
  import Literal
  import Numerals

  ghost function ShapeOf(item: Node, kids: seq<Shape>): Shape
    reads item
  {
    Shape(item, item.valuestring, item.name, kids)
  }

  /** What parsing a value hangs off an item. */
  ghost function Parts(item: Node, kids: seq<Shape>): set<object>
    reads item
  {
    Opt(item.valuestring) + ObjectsOf(kids)
  }

  ghost predicate Bare(item: Node)
    reads item
  {
    && item.child == null && item.valuestring == null && !item.isReference && !item.nameIsConst
    && item.valueint == 0 && item.tag != TNumber && item.tag != TTrue
  }

  /** A proper tree without flags, finished or not. */
  ghost predicate Grown(s: Shape)
    reads Objects(s)
  {
    Linked(s, true) && Tidy(s) && Distinct(s)
  }

  /** A chain of such trees. */
  ghost predicate GrownAll(ks: seq<Shape>)
    reads ObjectsOf(ks)
  {
    Chained(ks, true) && TidyAll(ks) && DistinctAll(ks)
  }

  predicate FailsAt<T>(r: ParserSpec.Outcome<T>, ep: int) { r.Rejected? && r.ep == ep }

  /** The string parser: fails on a missing quote or a refused block, and then leaves no trace. */
  method ParseString(lib: Library, item: Node, t: seq<byte>, i: nat) returns (end: int)
    requires i <= |t| && !ParserSpec.ParseString(t, i).Malformed?
    requires item.valuestring == null && !lib.denied
    modifies lib, item`valuestring, item`tag
    ensures end >= 0 ==>
              && !lib.denied
              && ParserSpec.ParseString(t, i) == ParserSpec.Parsed(Text(item.valuestring), end)
              && item.valuestring != null && fresh(item.valuestring)
              && item.tag == TString
              && lib.live == old(lib.live) + {item.valuestring}
    ensures end < 0 ==>
              && item.valuestring == null && item.tag == old(item.tag)
              && lib.live == old(lib.live)
              && (lib.denied || FailsAt(ParserSpec.ParseString(t, i), lib.ep))
  {
    hide Literal.Lex, Literal.Denote, Literal.Measure;
    if Peek(t, i) != QUOTE {
      lib.ep := i;
      return -1;
    }
    var len, _ := StringParser.MeasureLiteral(t, i + 1);
    var out := lib.NewBytes(len + 1);
    if out == null {
      return -1;
    }
    var stop, used := StringParser.DecodeLiteral(t, i + 1, out);
    ghost var es := Literal.Lex(t, i + 1).es;
    Literal.DenoteHasNoNul(es);
    CStrOf(out[..], Literal.Denote(es));
    end := stop;
    if Peek(t, end) == QUOTE {
      end := end + 1;
    }
    item.valuestring := out;
    item.tag := TString;
  }

  /** A node with no children. */
  lemma LeafGrown(item: Node)
    requires item.child == null && !item.isReference && !item.nameIsConst && IntAgrees(item)
    requires Opt(item.valuestring) !! Opt(item.name)
    ensures Grown(ShapeOf(item, []))
    ensures (item.tag == TString ==> item.valuestring != null) ==> Spelled(ShapeOf(item, []))
  {
    assert ObjectsOf([]) == {};
  }

  /** A value and the blanks after it, as every child is read. */
  method ParseMember(lib: Library, item: Node, t: seq<byte>, a: nat) returns (end: int, ghost kids: seq<Shape>)
    requires a <= |t| && !ParserSpec.ParseMember(t, a, NoName).Malformed?
    requires Bare(item) && !lib.denied
    modifies lib, item`child, item`tag, item`valuestring, item`valueint, item`valuedouble
    ensures Grown(ShapeOf(item, kids)) && fresh(Parts(item, kids))
    ensures lib.live == old(lib.live) + Parts(item, kids)
    ensures end >= 0 ==>
              && !lib.denied && Spelled(ShapeOf(item, kids))
              && ParserSpec.ParseMember(t, a, NoName) == ParserSpec.Parsed(Member(NoName, Value(ShapeOf(item, kids))), end)
    ensures end < 0 ==> lib.denied || FailsAt(ParserSpec.ParseMember(t, a, NoName), lib.ep)
    decreases |t| - a, 1
  {
    hide ParserSpec.ParseValue, Grown, Spelled, Skip;
    end, kids := ParseValue(lib, item, t, Skip(t, a));
    if end < 0 {
      return;
    }
    end := Skip(t, end);
  }

  /** A key and its colon: the string goes over to the name. */
  method ParseKey(lib: Library, item: Node, t: seq<byte>, a: nat) returns (end: int)
    requires a <= |t| && !ParserSpec.ParseName(t, a).Malformed?
    requires Bare(item) && item.name == null && !lib.denied
    modifies lib, item`tag, item`valuestring, item`name
    ensures Bare(item) && lib.live == old(lib.live) + Opt(item.name) && fresh(Opt(item.name))
    ensures item.tag == TString || (item.tag == old(item.tag) && item.name == null)
    ensures end >= 0 ==>
              !lib.denied && item.name != null && ParserSpec.ParseName(t, a) == ParserSpec.Parsed(Text(item.name), end)
    ensures end < 0 ==> lib.denied || FailsAt(ParserSpec.ParseName(t, a), lib.ep)
  {
    hide Skip, ParserSpec.ParseString;
    end := ParseString(lib, item, t, Skip(t, a));
    if end < 0 {
      return -1;
    }
    end := Skip(t, end);
    item.name := item.valuestring;
    item.valuestring := null;
    if Peek(t, end) != COLON {
      lib.ep := end;
      return -1;
    }
    end := end + 1;
  }

  /** A key, its colon and the value. */
  method ParsePair(lib: Library, item: Node, t: seq<byte>, a: nat) returns (end: int, ghost kids: seq<Shape>)
    requires a <= |t| && !ParserSpec.ParseEntry(t, a, Object).Malformed?
    requires Bare(item) && item.name == null && !lib.denied
    modifies lib, item`child, item`tag, item`valuestring, item`valueint, item`valuedouble, item`name
    ensures Grown(ShapeOf(item, kids)) && fresh(Parts(item, kids) + Opt(item.name))
    ensures lib.live == old(lib.live) + Parts(item, kids) + Opt(item.name)
    ensures end >= 0 ==>
              && !lib.denied && Spelled(ShapeOf(item, kids))
              && ParserSpec.ParseEntry(t, a, Object)
                 == ParserSpec.Parsed(Member(NameOf(ShapeOf(item, kids)), Value(ShapeOf(item, kids))), end)
    ensures end < 0 ==> lib.denied || FailsAt(ParserSpec.ParseEntry(t, a, Object), lib.ep)
    decreases |t| - a, 2
  {
    hide ParserSpec.ParseMember, ParserSpec.ParseName, Grown, Spelled, Value, ObjectsOf;
    NoChildren();
    kids := [];
    end := ParseKey(lib, item, t, a);
    if end < 0 {
      LeafGrown(item);
      return -1, [];
    }
    ghost var name := Text(item.name);
    NameAside(t, end, name);
    end, kids := ParseMember(lib, item, t, end);
    assert Text(item.name) == name;
  }

  /** The name of a member makes no difference to how its value is parsed. */
  lemma NameAside(t: seq<byte>, b: nat, name: seq<byte>)
    requires b <= |t|
    ensures var r, u := ParserSpec.ParseMember(t, b, Name(name)), ParserSpec.ParseMember(t, b, NoName);
            match u
            case Parsed(m, end) => r == ParserSpec.Parsed(Member(Name(name), m.value), end) && m.name == NoName
            case Rejected(ep) => r == ParserSpec.Rejected(ep)
            case Malformed => r.Malformed?
  {
    hide ParserSpec.ParseValue;
  }

  /** A child of either kind of container. */
  method ParseEntry(lib: Library, item: Node, t: seq<byte>, a: nat, kind: Kind) returns (end: int, ghost kids: seq<Shape>)
    requires a <= |t| && !ParserSpec.ParseEntry(t, a, kind).Malformed?
    requires Bare(item) && item.name == null && !lib.denied
    modifies lib, item`child, item`tag, item`valuestring, item`valueint, item`valuedouble, item`name
    ensures Grown(ShapeOf(item, kids)) && fresh(Parts(item, kids) + Opt(item.name))
    ensures lib.live == old(lib.live) + Parts(item, kids) + Opt(item.name)
    ensures end >= 0 ==>
              && !lib.denied && Spelled(ShapeOf(item, kids))
              && ParserSpec.ParseEntry(t, a, kind)
                 == ParserSpec.Parsed(Member(NameOf(ShapeOf(item, kids)), Value(ShapeOf(item, kids))), end)
    ensures end < 0 ==> lib.denied || FailsAt(ParserSpec.ParseEntry(t, a, kind), lib.ep)
    decreases |t| - a, 3
  {
    if kind == List {
      end, kids := ParseMember(lib, item, t, a);
    } else {
      end, kids := ParsePair(lib, item, t, a);
    }
  }

  method ParseValue(lib: Library, item: Node, t: seq<byte>, i: nat) returns (end: int, ghost kids: seq<Shape>)
    requires i <= |t| && !ParserSpec.ParseValue(t, i).Malformed?
    requires Bare(item) && !lib.denied
    modifies lib, item`child, item`tag, item`valuestring, item`valueint, item`valuedouble
    ensures Grown(ShapeOf(item, kids)) && fresh(Parts(item, kids))
    ensures lib.live == old(lib.live) + Parts(item, kids)
    ensures end >= 0 ==>
              && !lib.denied && Spelled(ShapeOf(item, kids))
              && ParserSpec.ParseValue(t, i) == ParserSpec.Parsed(Value(ShapeOf(item, kids)), end)
              && (item.tag == TArray || item.tag == TObject || kids == [])
    ensures end < 0 ==> lib.denied || FailsAt(ParserSpec.ParseValue(t, i), lib.ep)
    decreases |t| - i, 0
  {
    hide ParserSpec.ParseNest, ParserSpec.ParseString, Numerals.Lex, Numerals.Value;
    kids := [];
    if At(t, i, NULL_TEXT) {
      item.tag := TNull;
      LeafGrown(item);
      return i + 4, [];
    }
    if At(t, i, FALSE_TEXT) {
      item.tag := TFalse;
      LeafGrown(item);
      return i + 5, [];
    }
    if At(t, i, TRUE_TEXT) {
      item.tag := TTrue;
      item.valueint := 1;
      LeafGrown(item);
      return i + 4, [];
    }
    if Peek(t, i) == QUOTE {
      end := ParseString(lib, item, t, i);
      LeafGrown(item);
      return end, [];
    }
    if Peek(t, i) == MINUS || IsDigit(Peek(t, i)) {
      var d, e := Numerals.ParseNumber(t, i);
      var undefined: int := *;
      item.valuedouble := d;
      item.valueint := if FitsInt(d) then Trunc(d) else undefined;
      item.tag := TNumber;
      LeafGrown(item);
      return e, [];
    }
    if Peek(t, i) == LBRACKET {
      end, kids := ParseNest(lib, item, t, i, List);
      return;
    }
    if Peek(t, i) == LBRACE {
      end, kids := ParseNest(lib, item, t, i, Object);
      return;
    }
    lib.ep := i;
    LeafGrown(item);
    return -1, [];
  }

  /** A node waiting to be parsed into, behind its elder siblings. */
  ghost predicate Waiting(elder: seq<Shape>, child: Node)
    reads ObjectsOf(elder), child
  {
    && Segment(elder, true, null, child) && TidyAll(elder) && SpelledAll(elder) && DistinctAll(elder)
    && child.prev == LastOr(elder, null) && child.next == null && child !in ObjectsOf(elder)
    && Bare(child) && child.name == null
  }

  /** Once it holds a tree, the chain is one longer. */
  lemma Joined(elder: seq<Shape>, s: Shape)
    requires Segment(elder, true, null, s.node) && TidyAll(elder) && DistinctAll(elder)
    requires s.node.prev == LastOr(elder, null) && s.node.next == null
    requires Grown(s) && ObjectsOf(elder) !! Objects(s)
    ensures GrownAll(elder + [s])
    ensures ObjectsOf(elder + [s]) == ObjectsOf(elder) + Objects(s)
    ensures Members(elder + [s]) == Members(elder) + [Member(NameOf(s), Value(s))]
    ensures SpelledAll(elder) && Spelled(s) ==> SpelledAll(elder + [s])
  {
    hide Linked, Distinct, DistinctAll, ObjectsOf, Value, Members, Tidy, TidyAll, Spelled, SpelledAll, InPlace,
         Segment, Objects;
    One(s);
    SegmentOne(s, true, LastOr(elder, null), null);
    SegmentJoin(elder, [s], true, null, null);
    DistinctSplit(elder, [s]);
    TidySplit(elder, [s]);
    SpelledSplit(elder, [s]);
    ObjectsSplit(elder, [s]);
    MembersSplit(elder, [s]);
  }

  /** Parses a child and adds it to the chain. */
  method ParseChild(lib: Library, child: Node, ghost elder: seq<Shape>, t: seq<byte>, a: nat, kind: Kind)
    returns (end: int, ghost kids: seq<Shape>)
    requires a <= |t| && !ParserSpec.ParseEntry(t, a, kind).Malformed?
    requires Waiting(elder, child) && ObjectsOf(elder) <= lib.live && !lib.denied
    modifies lib, child`child, child`tag, child`valuestring, child`valueint, child`valuedouble, child`name
    ensures GrownAll(kids) && |kids| == |elder| + 1 && kids[|kids| - 1].node == child
    ensures elder != [] ==> kids[0].node == elder[0].node
    ensures forall o :: o in ObjectsOf(kids) && o !in ObjectsOf(elder) && o != child ==> fresh(o)
    ensures ObjectsOf(kids) >= ObjectsOf(elder) + {child}
    ensures lib.live == old(lib.live) + (ObjectsOf(kids) - {child})
    ensures end >= 0 ==>
              && !lib.denied && SpelledAll(kids)
              && ParserSpec.ParseEntry(t, a, kind).Parsed? && ParserSpec.ParseEntry(t, a, kind).end == end
              && Members(kids) == old(Members(elder)) + [ParserSpec.ParseEntry(t, a, kind).value]
    ensures end < 0 ==> lib.denied || FailsAt(ParserSpec.ParseEntry(t, a, kind), lib.ep)
    decreases |t| - a, 4
  {
    hide Linked, Distinct, DistinctAll, ObjectsOf, Value, Members, Tidy, TidyAll, Spelled, SpelledAll, InPlace,
         Segment, Grown,
         ParserSpec.ParseEntry;
    ghost var own;
    end, own := ParseEntry(lib, child, t, a, kind);
    ghost var s := ShapeOf(child, own);
    kids := elder + [s];
    Joined(elder, s);
  }

  /** Allocates a child, hangs it behind the last one and parses into it. */
  method ParseNext(lib: Library, last: Node, ghost elder: seq<Shape>, t: seq<byte>, a: nat, kind: Kind)
    returns (end: int, child: Node, ghost kids: seq<Shape>)
    requires a <= |t| && !ParserSpec.ParseEntry(t, a, kind).Malformed?
    requires GrownAll(elder) && SpelledAll(elder) && elder != [] && elder[|elder| - 1].node == last
    requires ObjectsOf(elder) <= lib.live && !lib.denied
    modifies lib, last`next
    ensures GrownAll(kids) && kids != [] && kids[|kids| - 1].node == child && kids[0].node == elder[0].node
    ensures ObjectsOf(elder) <= ObjectsOf(kids) && forall o :: o in ObjectsOf(kids) && o !in ObjectsOf(elder) ==> fresh(o)
    ensures child == last || fresh(child)
    ensures lib.live == old(lib.live) + ObjectsOf(kids)
    ensures end >= 0 ==>
              && !lib.denied && fresh(child) && SpelledAll(kids)
              && ParserSpec.ParseEntry(t, a, kind).Parsed? && ParserSpec.ParseEntry(t, a, kind).end == end
              && Members(kids) == old(Members(elder)) + [ParserSpec.ParseEntry(t, a, kind).value]
    ensures end < 0 ==> lib.denied || FailsAt(ParserSpec.ParseEntry(t, a, kind), lib.ep)
    decreases |t| - a, 5
  {
    hide Linked, Distinct, DistinctAll, ObjectsOf, Value, Members, Tidy, TidyAll, Spelled, SpelledAll, InPlace,
         Segment, Objects,
         ParserSpec.ParseEntry;
    kids := elder;
    child := last;
    var item := lib.NewItem();
    if item == null {
      return -1, child, kids;
    }
    SuffixObject(child, item, elder, true);
    child := item;
    end, kids := ParseChild(lib, child, elder, t, a, kind);
  }

  /** What is left of a container once some of its children are read and the text goes on at `b`. */
  ghost function Remaining(t: seq<byte>, b: nat, kind: Kind, ms: seq<Member>): ParserSpec.Outcome<seq<Member>>
    requires b <= |t|
  {
    if Peek(t, b) == COMMA then
      match ParserSpec.ParseEntries(t, b + 1, kind)
      case Parsed(rest, end) => ParserSpec.Parsed(ms + rest, end)
      case Rejected(ep) => ParserSpec.Rejected(ep)
      case Malformed => ParserSpec.Malformed
    else if Peek(t, b) == Close(kind) then ParserSpec.Parsed(ms, b + 1)
    else ParserSpec.Rejected(b)
  }

  lemma OneRead(t: seq<byte>, a: nat, kind: Kind)
    requires a <= |t|
    ensures match ParserSpec.ParseEntry(t, a, kind)
            case Parsed(m, b) => ParserSpec.ParseEntries(t, a, kind) == Remaining(t, b, kind, [m])
            case Rejected(ep) => ParserSpec.ParseEntries(t, a, kind) == ParserSpec.Rejected(ep)
            case Malformed => ParserSpec.ParseEntries(t, a, kind) == ParserSpec.Malformed
  {
    hide ParserSpec.ParseEntry;
  }

  lemma OneMoreRead(t: seq<byte>, b: nat, kind: Kind, ms: seq<Member>)
    requires b <= |t| && Peek(t, b) == COMMA
    ensures match ParserSpec.ParseEntry(t, b + 1, kind)
            case Parsed(m, c) => Remaining(t, b, kind, ms) == Remaining(t, c, kind, ms + [m])
            case Rejected(ep) => Remaining(t, b, kind, ms) == ParserSpec.Rejected(ep)
            case Malformed => Remaining(t, b, kind, ms) == ParserSpec.Malformed
  {
    hide ParserSpec.ParseEntry;
    OneRead(t, b + 1, kind);
    var r := ParserSpec.ParseEntry(t, b + 1, kind);
    if r.Parsed? && Peek(t, r.end) == COMMA {
      var rest := ParserSpec.ParseEntries(t, r.end + 1, kind);
      if rest.Parsed? { assert ms + ([r.value] + rest.value) == (ms + [r.value]) + rest.value; }
    }
  }

  /** A container under construction is a tree. */
  lemma NestGrown(item: Node, kids: seq<Shape>)
    requires item.child == First(kids) && item.valuestring == null && !item.isReference && !item.nameIsConst && IntAgrees(item)
    requires GrownAll(kids) && item !in ObjectsOf(kids) && Opt(item.name) !! ObjectsOf(kids)
    ensures Grown(ShapeOf(item, kids))
    ensures item.tag != TString && SpelledAll(kids) ==> Spelled(ShapeOf(item, kids))
  {
  }

  /** The rest of the children, each linked behind the one before it. */
  method ParseSiblings(lib: Library, first: Node, ghost kids0: seq<Shape>, t: seq<byte>, a: nat, kind: Kind)
    returns (end: int, ghost kids: seq<Shape>)
    requires a <= |t| && !Remaining(t, a, kind, Members(kids0)).Malformed?
    requires GrownAll(kids0) && SpelledAll(kids0) && kids0 != [] && kids0[|kids0| - 1].node == first
    requires ObjectsOf(kids0) <= lib.live && !lib.denied
    modifies lib, first`next
    ensures GrownAll(kids) && kids != [] && kids[0].node == kids0[0].node
    ensures forall o :: o in ObjectsOf(kids) && o !in ObjectsOf(kids0) ==> fresh(o)
    ensures ObjectsOf(kids0) <= ObjectsOf(kids)
    ensures lib.live == old(lib.live) + ObjectsOf(kids)
    ensures end >= 0 ==>
              && !lib.denied && SpelledAll(kids)
              && old(Remaining(t, a, kind, Members(kids0))) == ParserSpec.Parsed(Members(kids), end)
    ensures end < 0 ==> lib.denied || FailsAt(old(Remaining(t, a, kind, Members(kids0))), lib.ep)
    decreases |t| - a, 6
  {
    hide Linked, Distinct, DistinctAll, ObjectsOf, Value, Members, Tidy, TidyAll, Spelled, SpelledAll, InPlace,
         Segment, Objects,
         ParserSpec.ParseEntry, GrownAll;
    kids := kids0;
    end := a;
    var child := first;
    ghost var whole := Remaining(t, a, kind, Members(kids0));
    while Peek(t, end) == COMMA
      invariant a <= end <= |t| && Remaining(t, end, kind, Members(kids)) == whole
      invariant GrownAll(kids) && kids != [] && kids[|kids| - 1].node == child && kids[0].node == kids0[0].node
      invariant child == first || fresh(child)
      invariant ObjectsOf(kids0) <= ObjectsOf(kids)
      invariant forall o :: o in ObjectsOf(kids) && o !in ObjectsOf(kids0) ==> fresh(o)
      invariant lib.live == old(lib.live) + ObjectsOf(kids) && !lib.denied && SpelledAll(kids)
      decreases |t| - end
    {
      OneMoreRead(t, end, kind, Members(kids));
      ghost var elder := kids;
      end, child, kids := ParseNext(lib, child, elder, t, end + 1, kind);
      assert forall o :: o in ObjectsOf(kids) && o !in ObjectsOf(elder) ==> fresh(o);
      if end < 0 {
        return;
      }
    }
    if Peek(t, end) == Close(kind) {
      return end + 1, kids;
    }
    lib.ep := end;
    return -1, kids;
  }

  /** The children of a container, up to the closing bracket. */
  method ParseChildren(lib: Library, item: Node, t: seq<byte>, a: nat, kind: Kind)
    returns (end: int, ghost kids: seq<Shape>)
    requires a <= |t| && !ParserSpec.ParseEntries(t, a, kind).Malformed?
    requires item.child == null && !lib.denied
    modifies lib, item`child
    ensures GrownAll(kids) && item.child == First(kids) && fresh(ObjectsOf(kids))
    ensures lib.live == old(lib.live) + ObjectsOf(kids)
    ensures end >= 0 ==>
              && !lib.denied && SpelledAll(kids)
              && ParserSpec.ParseEntries(t, a, kind) == ParserSpec.Parsed(Members(kids), end)
    ensures end < 0 ==> lib.denied || FailsAt(ParserSpec.ParseEntries(t, a, kind), lib.ep)
    decreases |t| - a, 7
  {
    hide Linked, Distinct, DistinctAll, Members, Tidy, TidyAll, Spelled, SpelledAll, InPlace, Segment, Grown, GrownAll,
         ParserSpec.ParseEntry, ParserSpec.ParseEntries, Remaining, Waiting, ObjectsOf;
    NoChildren();
    OneRead(t, a, kind);
    var child := lib.NewItem();
    item.child := child;
    if child == null {
      return -1, [];
    }
    Alone(child);
    end, kids := ParseChild(lib, child, [], t, a, kind);
    if end < 0 {
      return;
    }
    assert [] + [ParserSpec.ParseEntry(t, a, kind).value] == [ParserSpec.ParseEntry(t, a, kind).value];
    end, kids := ParseSiblings(lib, child, kids, t, end, kind);
  }

  method ParseNest(lib: Library, item: Node, t: seq<byte>, i: nat, kind: Kind) returns (end: int, ghost kids: seq<Shape>)
    requires i < |t| && !ParserSpec.ParseNest(t, i, kind).Malformed?
    requires Bare(item) && !lib.denied
    modifies lib, item`child, item`tag
    ensures Grown(ShapeOf(item, kids)) && fresh(ObjectsOf(kids)) && item.valuestring == null
    ensures item.tag == TArray || item.tag == TObject
    ensures lib.live == old(lib.live) + ObjectsOf(kids)
    ensures end >= 0 ==>
              && !lib.denied && Spelled(ShapeOf(item, kids))
              && ParserSpec.ParseNest(t, i, kind) == ParserSpec.Parsed(Value(ShapeOf(item, kids)), end)
    ensures end < 0 ==> lib.denied || FailsAt(ParserSpec.ParseNest(t, i, kind), lib.ep)
    decreases |t| - i - 1, 8
  {
    hide Members, InPlace, Segment, Grown, GrownAll, ParserSpec.ParseEntry, ParserSpec.ParseEntries, ObjectsOf;
    NoChildren();
    item.tag := if kind == List then TArray else TObject;
    var value := Skip(t, i + 1);
    if Peek(t, value) == Close(kind) {
      LeafGrown(item);
      return value + 1, [];
    }
    end, kids := ParseChildren(lib, item, t, value, kind);
    NestGrown(item, kids);
  }

  lemma NoChildren()
    ensures GrownAll([]) && SpelledAll([]) && Members([]) == [] && ObjectsOf([]) == {}
  {
  }

  lemma Alone(child: Node)
    requires child.prev == null && child.next == null && Bare(child) && child.name == null
    ensures Waiting([], child) && ObjectsOf([]) == {}
  {
  }
}
