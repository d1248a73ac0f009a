/** Looking children up by name, ignoring case, and the operations that do so. */
module ObjectOps {
  import opened CText
  import opened JsonTree
  import opened Nodes
  import opened ListOps

  /** Equal bytes, or the capital and the small form of an ASCII letter. */
  predicate SameLetter(a: byte, b: byte) {
    a == b || (65 <= a <= 90 && b == a + 32) || (65 <= b <= 90 && a == b + 32)
  }

  /** Two strings that differ only in the case of ASCII letters. */
  predicate SameName(a: seq<byte>, b: seq<byte>) {
    |a| == |b| && forall k :: 0 <= k < |a| ==> SameLetter(a[k], b[k])
  }

  /** `tolower` */
  function Lower(b: byte): byte { if 65 <= b <= 90 then b + 32 else b }

  /** Folding identifies a capital letter with its small one and nothing else. */
  lemma FoldsLetters()
    ensures forall a: byte, b: byte :: Lower(a) == Lower(b) <==> SameLetter(a, b)
  {
  }

  predicate Matches(name: Name, key: seq<byte>) { name.Name? && SameName(name.s, key) }

  /** The first name that answers to a key; |ns| if none does. */
  function FirstMatch(ns: seq<Name>, key: seq<byte>): (i: nat)
    ensures i <= |ns|
    ensures forall k :: 0 <= k < i ==> !Matches(ns[k], key)
    ensures i < |ns| ==> Matches(ns[i], key)
  {
    if ns == [] || Matches(ns[0], key) then 0 else 1 + FirstMatch(ns[1..], key)
  }

  // ----- the names that a lookup sees

  /** The name in a node, whether the node owns it or not. */
  ghost function ShownName(n: Node): Name
    reads n`name, Opt(n.name)
  {
    if n.name == null then NoName else Name(Text(n.name))
  }

  ghost function NameBlocks(ks: seq<Shape>): set<object>
    reads NodesOf(ks)`name
  {
    set i | 0 <= i < |ks| && (assert ks[i].node in NodesOf(ks); ks[i].node.name != null) :: ks[i].node.name
  }

  ghost function Shown(ks: seq<Shape>): (ns: seq<Name>)
    reads NodesOf(ks)`name, NameBlocks(ks)
    ensures |ns| == |ks| && forall i :: 0 <= i < |ks| ==> ns[i] == ShownName(ks[i].node)
  {
    hide NodesOf, NameBlocks, ShownName;
    if ks == [] then [] else
      NamesWithin(ks);
      [ShownName(ks[0].node)] + Shown(ks[1..])
  }

  lemma NamesWithin(ks: seq<Shape>)
    requires ks != []
    ensures ks[0].node in NodesOf(ks) && NodesOf(ks[1..]) <= NodesOf(ks)
    ensures Opt(ks[0].node.name) <= NameBlocks(ks) && NameBlocks(ks[1..]) <= NameBlocks(ks)
  {
    assert forall i :: 0 <= i < |ks| - 1 ==> ks[1..][i] == ks[i + 1];
    assert ks[0].node in NodesOf(ks);
    if ks[0].node.name != null { assert ks[0].node.name in NameBlocks(ks); }
  }

  function NamesOf(ms: seq<Member>): (ns: seq<Name>)
    ensures |ns| == |ms| && forall i :: 0 <= i < |ms| ==> ns[i] == ms[i].name
  {
    seq(|ms|, i requires 0 <= i < |ms| => ms[i].name)
  }

  /** Where nothing is left out of the shape, they are the names of the members. */
  lemma ShownInFull(ks: seq<Shape>)
    requires Chained(ks, false)
    ensures Shown(ks) == NamesOf(Members(ks))
  {
    hide Members, Shown, NamesOf;
    forall i | 0 <= i < |ks| ensures Shown(ks)[i] == Members(ks)[i].name {
      assert InPlace(ks, i, false, null, null);
      assert Linked(ks[i], false);
    }
  }

  /** `cJSON_strcasecmp` on two strings that are there. */
  method StrCaseCmp(s1: seq<byte>, s2: seq<byte>) returns (r: int)
    requires NUL !in s1 && NUL !in s2
    ensures r == 0 <==> SameName(s1, s2)
  {
    FoldsLetters();
    var i := 0;
    while Lower(Peek(s1, i)) == Lower(Peek(s2, i))
      invariant i <= |s1| && i <= |s2|
      invariant forall k :: 0 <= k < i ==> SameLetter(s1[k], s2[k])
      decreases |s1| - i
    {
      if Peek(s1, i) == NUL {
        return 0;
      }
      i := i + 1;
    }
    r := Lower(Peek(s1, i)) - Lower(Peek(s2, i));
  }

  /** Compares a child's name, which may be missing, with a key. */
  method Differs(c: Node, key: seq<byte>) returns (r: bool)
    requires NUL !in key
    ensures r == !Matches(ShownName(c), key)
  {
    if c.name == null {
      return true;
    }
    CStrHasNoNul(c.name[..]);
    var d := StrCaseCmp(CStr(c.name[..]), key);
    r := d != 0;
  }

  /** The walk that the operations by name share; `i` counts the steps. */
  method Find(parent: Node, key: seq<byte>, ghost ks: seq<Shape>, ghost owned: bool) returns (c: Node?, i: nat)
    requires Holds(parent, ks, owned) && NUL !in key
    ensures i == FirstMatch(Shown(ks), key) && c == NodeAt(ks, i)
  {
    hide FirstMatch, Shown, Linked, Distinct, DistinctAll, Objects, ObjectsOf;
    ExistAll(ks);
    c := parent.child;
    i := 0;
    while c != null
      invariant i <= |ks| && c == NodeAt(ks, i)
      invariant forall k :: 0 <= k < i ==> !Matches(Shown(ks)[k], key)
      decreases |ks| - i
    {
      assert InPlace(ks, i, owned, null, null);
      assert Shown(ks)[i] == ShownName(c);
      var differs := Differs(c, key);
      if !differs {
        break;
      }
      c := c.next;
      i := i + 1;
    }
  }

  /** `cJSON_GetObjectItem` finds the first child whose name matches. */
  method GetObjectItem(parent: Node, key: seq<byte>, ghost ks: seq<Shape>, ghost owned: bool) returns (c: Node?)
    requires Holds(parent, ks, owned) && NUL !in key
    ensures c == NodeAt(ks, FirstMatch(Shown(ks), key))
    ensures !owned ==> c == NodeAt(ks, FirstMatch(NamesOf(Members(ks)), key))
  {
    hide Members, Shown, FirstMatch, NamesOf, Linked, DistinctAll;
    if !owned { ShownInFull(ks); }
    var i;
    c, i := Find(parent, key, ks, owned);
  }

  /** `cJSON_DetachItemFromObject` takes out the first child whose name matches. */
  method DetachItemFromObject(parent: Node, key: seq<byte>, ghost ks: seq<Shape>, ghost owned: bool)
    returns (c: Node?, ghost ks': seq<Shape>)
    requires Holds(parent, ks, owned) && NUL !in key
    modifies parent`child, NodesOf(ks)`next, NodesOf(ks)`prev
    ensures var i := FirstMatch(old(Shown(ks)), key);
            if i < |ks| then
              && c == ks[i].node && ks' == ks[..i] + ks[i + 1..]
              && Holds(parent, ks', owned) && Loose(ks[i], parent, ks', owned)
              && Members(ks') == old(Members(ks))[..i] + old(Members(ks))[i + 1..]
            else c == null && ks' == ks && Holds(parent, ks, owned) && Members(ks) == old(Members(ks))
  {
    hide Members, Linked, Distinct, DistinctAll, InPlace, Segment, Objects, ObjectsOf, Shown, FirstMatch, Value, Holds;
    ExistAll(ks);
    ghost var ms, ns := Members(ks), Shown(ks);
    var i;
    c, i := Find(parent, key, ks, owned);
    assert Shown(ks) == ns && Members(ks) == ms;
    hide Text;
    ks' := ks;
    if c != null {
      c, ks' := DetachItemFromArray(parent, i, ks, owned);
    }
  }

  /** The blocks of a tree after its node has got a new name: a constant one is not the tree's own. */
  ghost function Renamed(s: Shape): Shape
    reads s.node`name, s.node`nameIsConst
  {
    Shape(s.node, s.text, if s.node.nameIsConst then null else s.node.name, s.kids)
  }

  /** A copy of the key becomes the name of a tree; a name that it had is overwritten. */
  method NameTree(lib: Library, item: Node, key: seq<byte>, ghost s: Shape)
    requires s.node == item && Linked(s, true) && Distinct(s) && NUL !in key
    modifies lib`live, lib`denied, item`name
    ensures Linked(Renamed(s), true) && Distinct(Renamed(s)) && Value(Renamed(s)) == old(Value(s))
    ensures lib.live == old(lib.live) + Opt(item.name)
    ensures if item.name == null then lib.denied else fresh(item.name) && ShownName(item) == Name(key)
  {
    hide Distinct, DistinctAll, InPlace, Segment, ObjectsOf;
    Exist(s);
    Facts(s);
    DistinctParts(s);
    ghost var v := Value(s);
    item.name := StrDup(lib, key);
    assert item !in Opt(s.text);
    assert Value(Renamed(s)) == v;
    DistinctWhole(Renamed(s));
  }

  /** Beside a container, which stays as it is. */
  method GiveName(lib: Library, parent: Node, item: Node, key: seq<byte>, ghost ks: seq<Shape>, ghost s: Shape)
    requires Holds(parent, ks, true) && NUL !in key
    requires s.node == item && Loose(s, parent, ks, true)
    modifies lib`live, lib`denied, item`name
    ensures Holds(parent, ks, true) && Members(ks) == old(Members(ks)) && Shown(ks) == old(Shown(ks))
    ensures Loose(Renamed(s), parent, ks, true) && Value(Renamed(s)) == old(Value(s))
    ensures lib.live == old(lib.live) + Opt(item.name)
    ensures if item.name == null then lib.denied else fresh(item.name) && ShownName(item) == Name(key)
  {
    hide Linked, Distinct, DistinctAll, InPlace, Segment, Objects, ObjectsOf, Members, Shown, Value;
    ExistAll(ks);
    Exist(s);
    Facts(s);
    NodesWithin(ks);
    NameTree(lib, item, key, s);
    assert Objects(Renamed(s)) <= Objects(s) + Opt(item.name) by { RenamedBlocks(s); }
  }

  lemma RenamedBlocks(s: Shape)
    ensures Objects(Renamed(s)) <= Objects(s) + Opt(s.node.name)
  {
  }

  lemma DistinctParts(s: Shape)
    requires Distinct(s)
    ensures s.node !in ObjectsOf(s.kids) && DistinctAll(s.kids) && Opt(s.text) !! ObjectsOf(s.kids)
  {
  }

  lemma DistinctWhole(s: Shape)
    requires Opt(s.text) !! Opt(s.name) && s.node !in ObjectsOf(s.kids) && DistinctAll(s.kids)
    requires Opt(s.text) !! ObjectsOf(s.kids) && Opt(s.name) !! ObjectsOf(s.kids)
    ensures Distinct(s)
  {
  }

  /** `cJSON_ReplaceItemInObject` gives the new tree the key as its name and puts it in the place of the
      first child whose name matches, which it frees. Unless the copy of the key is refused, the new
      tree is what looking the key up finds from then on. What nobody owns any more is the name that
      the tree had before, or, if the tree still says that its name is constant, the copy of the key. */
  method ReplaceItemInObject(lib: Library, parent: Node, key: seq<byte>, newitem: Node, ghost ks: seq<Shape>,
                             ghost s: Shape)
    returns (ghost ks': seq<Shape>, ghost leaked: set<object>)
    requires Holds(parent, ks, true) && ObjectsOf(ks) <= lib.live && NUL !in key
    requires s.node == newitem && Loose(s, parent, ks, true) && Objects(s) <= lib.live
    modifies lib`live, lib`denied, newitem`name, parent`child, newitem`next, newitem`prev,
             NodesOf(ks)`next, NodesOf(ks)`prev
    ensures var ms, ns := old(Members(ks)), old(Shown(ks));
            var i := FirstMatch(ns, key);
            if i < |ks| then
              && ks' == ks[i := Renamed(s)] && Holds(parent, ks', true)
              && Members(ks') == ms[i := Member(NameOf(Renamed(s)), old(Value(s)))]
              && Shown(ks') == ns[i := if newitem.name == null then NoName else Name(key)]
              && (newitem.name == null ==> lib.denied)
              && (newitem.name != null ==> FirstMatch(Shown(ks'), key) == i)
              && leaked == (if newitem.nameIsConst then Opt(newitem.name) else Opt(s.name))
              && ObjectsOf(ks') <= lib.live && leaked <= lib.live && leaked !! ObjectsOf(ks')
              && lib.live - ObjectsOf(ks') - leaked == old(lib.live) - ObjectsOf(ks) - Objects(s)
            else
              ks' == ks && Holds(parent, ks, true) && Members(ks) == ms && lib.live == old(lib.live) && leaked == {}
  {
    hide Linked, Distinct, DistinctAll, InPlace, Segment, Objects, ObjectsOf, Members, FirstMatch, Value, NodesOf, Shown,
         Renamed, NameOf;
    ExistAll(ks);
    Exist(s);
    NodesWithin(ks);
    ks', leaked := ks, {};
    InNode(s);
    ghost var v := Value(s);
    var c, i := Find(parent, key, ks, true);
    if c != null {
      assert Value(s) == v;
      ghost var ns := Shown(ks);
      FoundAgain(ns, i, key);
      ks', leaked := ReplaceNamed(lib, parent, i, key, newitem, ks, s);
    }
  }

  method ReplaceNamed(lib: Library, parent: Node, i: nat, key: seq<byte>, newitem: Node, ghost ks: seq<Shape>,
                      ghost s: Shape)
    returns (ghost ks': seq<Shape>, ghost leaked: set<object>)
    requires Holds(parent, ks, true) && ObjectsOf(ks) <= lib.live && NUL !in key && i < |ks|
    requires s.node == newitem && Loose(s, parent, ks, true) && Objects(s) <= lib.live
    modifies lib`live, lib`denied, newitem`name, parent`child, newitem`next, newitem`prev,
             NodesOf(ks)`next, NodesOf(ks)`prev
    ensures ks' == ks[i := Renamed(s)] && Holds(parent, ks', true)
    ensures Members(ks') == old(Members(ks))[i := Member(NameOf(Renamed(s)), old(Value(s)))]
    ensures Shown(ks') == old(Shown(ks))[i := if newitem.name == null then NoName else Name(key)]
    ensures newitem.name == null ==> lib.denied
    ensures leaked == (if newitem.nameIsConst then Opt(newitem.name) else Opt(s.name))
    ensures ObjectsOf(ks') <= lib.live && leaked <= lib.live && leaked !! ObjectsOf(ks')
    ensures lib.live - ObjectsOf(ks') - leaked == old(lib.live) - ObjectsOf(ks) - Objects(s)
  {
    hide Linked, Distinct, DistinctAll, InPlace, Segment, Objects, ObjectsOf, Members, Value, NodesOf, Shown;
    ExistAll(ks);
    Exist(s);
    Facts(s);
    NodesWithin(ks);
    NameIsOwn(s);
    GiveName(lib, parent, newitem, key, ks, s);
    ghost var r, copy := Renamed(s), newitem.name;
    assert Opt(copy) !! old(lib.live);
    leaked := if newitem.nameIsConst then Opt(copy) else Opt(s.name);
    Accounts(ks, i, s, r, copy, leaked, old(lib.live), lib.live - Objects(ks[i]));
    ks' := PutNamed(lib, parent, i, newitem, ks, r);
  }

  /** A tree that has its name takes the place of a child. */
  method PutNamed(lib: Library, parent: Node, i: nat, newitem: Node, ghost ks: seq<Shape>, ghost r: Shape)
    returns (ghost ks': seq<Shape>)
    requires Holds(parent, ks, true) && ObjectsOf(ks) <= lib.live && i < |ks|
    requires r.node == newitem && Loose(r, parent, ks, true)
    modifies lib`live, parent`child, newitem`next, newitem`prev, NodesOf(ks)`next, NodesOf(ks)`prev
    ensures ks' == ks[i := r] && Holds(parent, ks', true)
    ensures Members(ks') == old(Members(ks))[i := old(Worth(r))] && NameOf(r) == old(NameOf(r))
    ensures Shown(ks') == old(Shown(ks))[i := old(ShownName(newitem))] && ShownName(newitem) == old(ShownName(newitem))
    ensures lib.live == old(lib.live) - Objects(ks[i])
  {
    hide Linked, Distinct, DistinctAll, InPlace, Segment, Objects, ObjectsOf, Members, Value, NodesOf, Shown;
    ExistAll(ks);
    Exist(r);
    NodesWithin(ks);
    Facts(r);
    ghost var ms, ns, worth, shown := Members(ks), Shown(ks), Worth(r), ShownName(newitem);
    ks' := ReplaceItemInArray(lib, parent, i, newitem, ks, r);
    assert NameOf(r) == worth.name;
    assert ShownName(newitem) == shown && Shown(ks) == ns;
    Updated(ks, i, r);
    Updated(ms, i, worth);
    ShownAt(ks, i, r);
  }

  lemma ShownAt(ks: seq<Shape>, i: nat, r: Shape)
    requires i < |ks|
    ensures Shown(ks[i := r]) == Shown(ks)[i := ShownName(r.node)]
  {
    hide Shown, ShownName;
  }

  lemma Updated<T>(s: seq<T>, i: nat, x: T)
    requires i < |s|
    ensures s[..i] + [x] + s[i + 1..] == s[i := x]
  {
  }

  /** Where every block ends up; `copy` is the new name. */
  lemma Accounts(ks: seq<Shape>, i: nat, s: Shape, r: Shape, copy: array?<byte>, leaked: set<object>,
                 was: set<object>, live: set<object>)
    requires i < |ks| && DistinctAll(ks) && Distinct(s) && ObjectsOf(ks) !! Objects(s)
    requires ObjectsOf(ks) <= was && Objects(s) <= was && Opt(copy) !! was
    requires live == was + Opt(copy) - Objects(ks[i])
    requires (r == Shape(s.node, s.text, copy, s.kids) && leaked == Opt(s.name))
          || (s.name == null && r == Shape(s.node, s.text, null, s.kids) && leaked == Opt(copy))
    ensures var ks' := ks[i := r];
            && ObjectsOf(ks') <= live && leaked <= live && leaked !! ObjectsOf(ks')
            && live - ObjectsOf(ks') - leaked == was - ObjectsOf(ks) - Objects(s)
  {
    hide ObjectsOf, DistinctAll;
    assert Objects(r) + leaked == Objects(s) + Opt(copy) && Objects(r) !! leaked by { NameApart(s); }
    hide Objects;
    Updated(ks, i, r);
    AllOf(ks[..i], r, ks[i + 1..]);
    Slot(ks, i);
  }

  lemma NameIsOwn(s: Shape)
    requires Linked(s, true)
    ensures s.node.nameIsConst ==> s.name == null
  {
  }

  lemma NameApart(s: Shape)
    requires Distinct(s)
    ensures Opt(s.name) !! {s.node} + Opt(s.text) + ObjectsOf(s.kids)
  {
  }

  lemma FoundAgain(ns: seq<Name>, i: nat, key: seq<byte>)
    requires i < |ns| && FirstMatch(ns, key) == i
    ensures FirstMatch(ns[i := Name(key)], key) == i
  {
    var r := ns[i := Name(key)];
    assert forall k :: 0 <= k < i ==> r[k] == ns[k];
    assert Matches(r[i], key);
  }
}
