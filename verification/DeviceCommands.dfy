/** What the device does with a message from the server: it parses it, looks a few members up, sends what
    it is told to send and answers. */
module DeviceCommands {
  import opened CText
  import opened JsonTree
  import opened Handwritten
  import opened Nodes
  import opened PrinterSpec
  import opened WakeOnLan
  import Grammar
  import Literal
  import NodeParser
  import ParserSpec
  import Parsing = ParseText
  import ClientLists
  import Presence
  import RoundTrip

  // ----- what it should do

  datatype Wanted = AList | AString | ATrue

  predicate HasKind(v: Json, w: Wanted) {
    match w
    case AList => v.Nest? && v.kind == List
    case AString => v.Str?
    case ATrue => v.True?
  }

  predicate Is(m: Member, name: seq<byte>, w: Wanted) { m.name == Name(name) && HasKind(m.value, w) }

  /** The first member of that name and kind; |ms| if there is none. */
  function FirstOf(ms: seq<Member>, name: seq<byte>, w: Wanted): (k: nat)
    ensures k <= |ms| && (k < |ms| ==> Is(ms[k], name, w))
    ensures forall j :: 0 <= j < k ==> !Is(ms[j], name, w)
  {
    if ms == [] || Is(ms[0], name, w) then 0 else 1 + FirstOf(ms[1..], name, w)
  }

  /** The walk to that member compares the name of every child of the kind with `strcmp`, which takes
      no null. */
  predicate Readable(ms: seq<Member>, name: seq<byte>, w: Wanted) {
    forall k :: 0 <= k < FirstOf(ms, name, w) && HasKind(ms[k].value, w) ==> ms[k].name.Name?
  }

  /** A child's `valueint` as a byte: any, if its number does not fit an `int`. */
  predicate ByteOf(v: Json, b: byte) { (v.Num? && !FitsInt(v.d)) || b == IntOf(v) % 256 }

  /** `r` is `room` with the members of a list in it, as many as there is room for. */
  predicate Filled(room: seq<byte>, ms: seq<Member>, r: seq<byte>) {
    |r| == |room| && forall i :: 0 <= i < |r| ==> if i < |ms| then ByteOf(ms[i].value, r[i]) else r[i] == room[i]
  }

  const NO_ADDRESS: seq<byte> := [0, 0, 0, 0, 0, 0]
  const WOL_PORT: nat := 60069
  const SHUTDOWN_PORT: nat := 4003

  function HexDigitUpper(v: nat): byte
    requires v < 16
  {
    if v < 10 then ZERO + v else 55 + v
  }

  function High(b: byte): byte { HexDigitUpper(b / 16) }
  function Low(b: byte): byte { HexDigitUpper(b % 16) }

  /** `%02X-%02X-%02X-%02X-%02X-%02X` */
  function HexGroups(mac: seq<byte>): seq<byte>
    requires |mac| == 6
  {
    [High(mac[0]), Low(mac[0]), DASH, High(mac[1]), Low(mac[1]), DASH, High(mac[2]), Low(mac[2]), DASH,
     High(mac[3]), Low(mac[3]), DASH, High(mac[4]), Low(mac[4]), DASH, High(mac[5]), Low(mac[5])]
  }

  function ShutdownText(mac: seq<byte>): seq<byte>
    requires |mac| == 6
  {
    Ascii("{\"cmd\":\"shutdown\",\"mac\":\"") + (HexGroups(mac) + Ascii("\"}"))
  }

  /** A packet that is broadcast. */
  datatype Datagram = Datagram(port: nat, payload: seq<byte>)

  /** A message is ignored, or taken as the answer to a bind or a beat, or it is an order: then the
      device answers with a status. */
  datatype Reaction = Ignored | Acknowledged | Done(status: bool, sent: seq<Datagram>, restarts: bool)

  /** The address in a message, if there is one. */
  predicate Addressed(ms: seq<Member>, mac: seq<byte>) {
    var k := FirstOf(ms, MAC, AList);
    |mac| == 6 && (k < |ms| ==> Filled(NO_ADDRESS, ms[k].value.members, mac))
  }

  /** Carrying out an order; `hasSocket` is whether a socket can be opened. */
  function Carried(ms: seq<Member>, cmd: seq<byte>, hasSocket: bool, mac: seq<byte>): Reaction
    requires |mac| == 6
  {
    var sends := FirstOf(ms, MAC, AList) < |ms| && hasSocket;
    if cmd == WOL_SEND && sends then Done(true, [Datagram(WOL_PORT, Magic(mac))], false)
    else if cmd == SHUTDOWN_SEND && sends then Done(true, [Datagram(SHUTDOWN_PORT, ShutdownText(mac))], false)
    else if cmd == RESET then Done(true, [], true)
    else Done(false, [], false)
  }

  function MembersOf(j: Json): seq<Member> { if j.Nest? then j.members else [] }

  function ReactionTo(j: Json, hasSocket: bool, mac: seq<byte>): Reaction
    requires |mac| == 6
  {
    var ms := MembersOf(j);
    var k := FirstOf(ms, CMD, AString);
    if FirstOf(ms, ClientLists.STATUS, ATrue) < |ms| then Acknowledged
    else if k < |ms| then Carried(ms, ms[k].value.s, hasSocket, mac)
    else Ignored
  }

  /** With the address that the message carries, if it is an order that needs one. */
  predicate Reacts(j: Json, hasSocket: bool, mac: seq<byte>, r: Reaction) {
    && |mac| == 6 && r == ReactionTo(j, hasSocket, mac)
    && (r.Done? && r.sent != [] ==> Addressed(MembersOf(j), mac))
  }

  /** Every name that the reaction compares is there. */
  predicate SafeOrder(ms: seq<Member>, cmd: seq<byte>) {
    cmd == WOL_SEND || cmd == SHUTDOWN_SEND ==> Readable(ms, MAC, AList)
  }

  predicate Safe(ms: seq<Member>) {
    var k := FirstOf(ms, CMD, AString);
    && Readable(ms, ClientLists.STATUS, ATrue)
    && (FirstOf(ms, ClientLists.STATUS, ATrue) == |ms| ==>
          Readable(ms, CMD, AString) && (k < |ms| ==> SafeOrder(ms, ms[k].value.s)))
  }

  /** A list with something in it that the lookups take for a member. */
  predicate LooksLikeMembers(j: Json) {
    j.Nest? && j.kind == List && exists k :: 0 <= k < |j.members| && (j.members[k].value.True? || j.members[k].value.Str?)
  }

  /** Among the messages that parse, those whose names are safe to compare are exactly the ones that are
      not a list with `true` or a string in it. */
  lemma SafeToRead(t: seq<byte>, requireEnd: bool)
    requires ParserSpec.ParseText(t, requireEnd).Parsed?
    ensures var j := ParserSpec.ParseText(t, requireEnd).value; Safe(MembersOf(j)) <==> !LooksLikeMembers(j)
  {
    hide ParserSpec.ParseText, Ascii;
    RoundTrip.TextIsPrintable(t, requireEnd);
    var j := ParserSpec.ParseText(t, requireEnd).value;
    if j.Nest? {
      NamesByKind(j.kind, j.members);
      var ms := j.members;
      if j.kind == List {
        assert forall name: seq<byte>, w :: FirstOf(ms, name, w) == |ms|;
        assert Readable(ms, ClientLists.STATUS, ATrue) <==> forall k :: 0 <= k < |ms| ==> !ms[k].value.True?;
        assert Readable(ms, CMD, AString) <==> forall k :: 0 <= k < |ms| ==> !ms[k].value.Str?;
      }
    }
  }

  /** In a tree that was parsed, exactly the children of objects have names. */
  lemma {:induction false} NamesByKind(kind: Kind, ms: seq<Member>)
    requires PrintableAll(kind, ms) && ListsUnnamedAll(kind, ms)
    ensures forall k :: 0 <= k < |ms| ==> ms[k].name.Name? == (kind == Object)
    decreases |ms|
  {
    if ms != [] { NamesByKind(kind, ms[1..]); }
  }

  /** `[true]` parses, and the first lookup meets a null name. */
  lemma ListOfTrue()
    ensures var r := ParserSpec.ParseText(Ascii("[true]"), false);
            && r.Parsed? && r.value == Nest(List, [Member(NoName, True)])
            && !Readable(MembersOf(r.value), ClientLists.STATUS, ATrue)
  {
    TrueInBrackets();
    hide ParserSpec.ParseText, Ascii;
    var ms := [Member(NoName, True)];
    assert !Is(ms[0], ClientLists.STATUS, ATrue) && HasKind(ms[0].value, ATrue) && ms[1..] == [];
    assert FirstOf(ms, ClientLists.STATUS, ATrue) == 1;
  }

  lemma TrueInBrackets()
    ensures ParserSpec.ParseText(Ascii("[true]"), false) == ParserSpec.Parsed(Nest(List, [Member(NoName, True)]), 6)
  {
    hide ParserSpec.ParseText, Grammar.WellFormed, Grammar.AllSlots, Grammar.Denote;
    var e := Item(Grammar.CTrue);
    TruthReads(true);
    ItemReads(Grammar.CTrue);
    SoleEntry(List, e);
    MeansPrefix(Grammar.CNest(List, [], [e]));
    hide Grammar.Render, Grammar.RenderEntry;
    assert Grammar.Render(Grammar.CNest(List, [], [e])) == Ascii("[true]");
  }

  // ----- looking members up

  /** The children of a parsed node. */
  ghost predicate Kids(ks: seq<Shape>)
    reads ObjectsOf(ks)
  {
    Chained(ks, false) && TidyAll(ks) && SpelledAll(ks)
  }

  /** What a child's fields say about the member that it stands for. */
  lemma ChildOf(ks: seq<Shape>, k: nat)
    requires k < |ks| && Kids(ks)
    ensures var n, s, v := ks[k].node, ks[k], Value(ks[k]);
            && n.next == NodeAt(ks, k + 1) && n.name == s.name && Members(ks)[k] == Member(NameOf(s), v)
            && ByteOf(v, n.valueint % 256) && n in ObjectsOf(ks) && Objects(s) <= ObjectsOf(ks)
            && (n.tag == TArray <==> v.Nest? && v.kind == List)
            && (n.tag == TString <==> v.Str?) && (n.tag == TTrue <==> v.True?)
            && (n.tag == TArray ==> v.members == Members(s.kids) && n.child == First(s.kids) && Kids(s.kids))
            && (n.tag == TString ==> n.valuestring == s.text && s.text != null && v == Str(CStr(s.text[..])))
            && ObjectsOf(s.kids) <= ObjectsOf(ks) && Opt(s.text) <= ObjectsOf(ks) && Opt(s.name) <= ObjectsOf(ks)
  {
    hide ObjectsOf;
    assert InPlace(ks, k, false, null, null);
    Within(ks);
    InNode(ks[k]);
    assert Linked(ks[k], false) && Tidy(ks[k]) && Spelled(ks[k]);
    assert IntAgrees(ks[k].node) && ks[k].node.name == ks[k].name;
  }

  /** A name that is there is the one that the member has. */
  lemma NameIs(s: Shape)
    ensures s.name != null <==> NameOf(s).Name?
    ensures s.name != null ==> NameOf(s) == Name(CStr(s.name[..]))
  {
  }

  /** `json_get_value_array`: the first list of that name, as bytes. */
  method GetArray(root: Node, name: seq<byte>, buf: array<byte>, ghost ks: seq<Shape>) returns (found: bool)
    requires root.child == First(ks) && Kids(ks) && Readable(Members(ks), name, AList) && buf !in ObjectsOf(ks)
    modifies buf
    ensures Kids(ks) && Members(ks) == old(Members(ks))
    ensures var ms := Members(ks);
            var k := FirstOf(ms, name, AList);
            found == (k < |ms|)
            && if found then Filled(old(buf[..]), ms[k].value.members, buf[..]) else buf[..] == old(buf[..])
  {
    hide ObjectsOf, Members, Value, Kids, Objects, NameOf, FirstOf;
    ExistAll(ks);
    ghost var ms := Members(ks);
    var node := root.child;
    ghost var k := 0;
    while node != null
      invariant 0 <= k <= |ks| && node == NodeAt(ks, k) && Kids(ks) && Members(ks) == ms
      invariant forall j :: 0 <= j < k ==> !Is(ms[j], name, AList)
      invariant buf[..] == old(buf[..])
      decreases |ks| - k
    {
      ChildOf(ks, k);
      NameIs(ks[k]);
      if node.tag == TArray && CStr(node.name[..]) == name {
        FillBytes(node, buf, ks[k].kids);
        assert Kids(ks) && Members(ks) == ms;
        return true;
      }
      node := node.next;
      k := k + 1;
    }
    found := false;
  }

  /** The inner loop: as many values as there is room for. */
  method FillBytes(node: Node, buf: array<byte>, ghost ks: seq<Shape>)
    requires node.child == First(ks) && Kids(ks) && buf !in ObjectsOf(ks)
    modifies buf
    ensures Filled(old(buf[..]), old(Members(ks)), buf[..])
  {
    hide ObjectsOf, Members, Value, Kids, Objects, NameOf;
    ExistAll(ks);
    ghost var ms := Members(ks);
    var item := node.child;
    var i: nat := 0;
    while buf.Length > i && item != null
      invariant i <= buf.Length && i <= |ks| && item == NodeAt(ks, i) && Kids(ks) && Members(ks) == ms
      invariant forall j :: 0 <= j < buf.Length ==> if j < i then ByteOf(ms[j].value, buf[j]) else buf[j] == old(buf[j])
      decreases |ks| - i
    {
      ChildOf(ks, i);
      buf[i] := item.valueint % 256;
      item := item.next;
      i := i + 1;
    }
  }

  /** `json_get_value_string`; the pointer that it hands out is to the item's own string. */
  method GetString(root: Node, name: seq<byte>, ghost ks: seq<Shape>) returns (found: bool, value: array?<byte>)
    requires root.child == First(ks) && Kids(ks) && Readable(Members(ks), name, AString)
    ensures var ms := Members(ks);
            var k := FirstOf(ms, name, AString);
            && found == (k < |ms|)
            && (found ==> value != null && value in ObjectsOf(ks) && CStr(value[..]) == ms[k].value.s)
  {
    hide ObjectsOf, Members, Value, Kids, Objects, NameOf, FirstOf;
    ExistAll(ks);
    ghost var ms := Members(ks);
    var node := root.child;
    ghost var k := 0;
    while node != null
      invariant 0 <= k <= |ks| && node == NodeAt(ks, k) && Kids(ks) && Members(ks) == ms
      invariant forall j :: 0 <= j < k ==> !Is(ms[j], name, AString)
      decreases |ks| - k
    {
      ChildOf(ks, k);
      NameIs(ks[k]);
      if node.tag == TString && CStr(node.name[..]) == name {
        return true, node.valuestring;
      }
      node := node.next;
      k := k + 1;
    }
    return false, null;
  }

  /** `json_get_value_boolean` */
  method GetBoolean(root: Node, name: seq<byte>, ghost ks: seq<Shape>) returns (found: bool)
    requires root.child == First(ks) && Kids(ks) && Readable(Members(ks), name, ATrue)
    ensures found <==> FirstOf(Members(ks), name, ATrue) < |ks|
  {
    hide ObjectsOf, Members, Value, Kids, Objects, NameOf, FirstOf;
    ExistAll(ks);
    ghost var ms := Members(ks);
    var node := root.child;
    ghost var k := 0;
    while node != null
      invariant 0 <= k <= |ks| && node == NodeAt(ks, k) && Kids(ks) && Members(ks) == ms
      invariant forall j :: 0 <= j < k ==> !Is(ms[j], name, ATrue)
      decreases |ks| - k
    {
      ChildOf(ks, k);
      NameIs(ks[k]);
      if node.tag == TTrue && CStr(node.name[..]) == name {
        return true;
      }
      node := node.next;
      k := k + 1;
    }
    found := false;
  }

  // ----- carrying orders out

  /** `wol_send`: what goes out, unless the packet's block is refused or no socket can be hasSocket. */
  method WolSend(lib: Library, mac: array<byte>, hasSocket: bool) returns (ok: bool, sent: seq<Datagram>)
    requires mac.Length == 6
    modifies lib`live, lib`denied
    ensures lib.live == old(lib.live)
    ensures ok ==> hasSocket && lib.denied == old(lib.denied)
    ensures !ok ==> !hasSocket || lib.denied
    ensures sent == if ok then [Datagram(WOL_PORT, Magic(mac[..]))] else []
  {
    hide Magic;
    ok, sent := false, [];
    var packet := lib.NewBytes(PACKET);
    if packet != null {
      if hasSocket {
        FillPacket(packet, mac);
        sent := [Datagram(WOL_PORT, packet[..])];
        ok := true;
      }
      lib.Free(packet);
    }
  }

  /** `shutdown_send`, whose text has a buffer of its own. */
  method ShutdownSend(mac: array<byte>, hasSocket: bool) returns (ok: bool, sent: seq<Datagram>)
    requires mac.Length == 6
    ensures ok == hasSocket && sent == if ok then [Datagram(SHUTDOWN_PORT, ShutdownText(mac[..]))] else []
  {
    ok, sent := false, [];
    if hasSocket {
      sent := [Datagram(SHUTDOWN_PORT, ShutdownText(mac[..]))];
      ok := true;
    }
  }

  /** The branch of an order. */
  method Carry(lib: Library, root: Node, cmd: seq<byte>, hasSocket: bool, ghost ks: seq<Shape>)
    returns (r: Reaction, ghost mac: seq<byte>)
    requires root.child == First(ks) && Kids(ks) && SafeOrder(Members(ks), cmd)
    modifies lib`live, lib`denied
    ensures lib.live == old(lib.live) && |mac| == 6
    ensures cmd == WOL_SEND || cmd == SHUTDOWN_SEND ==> Addressed(old(Members(ks)), mac)
    ensures || r == Carried(old(Members(ks)), cmd, hasSocket, mac)
            || (lib.denied && r == Carried(old(Members(ks)), cmd, false, mac))
  {
    hide Ascii, Objects, ObjectsOf, Members, Value, Kids, Magic, ShutdownText, Readable, FirstOf, Filled;
    PlainNames();
    ExistAll(ks);
    var buf := new byte[6](_ => 0);
    assert buf[..] == NO_ADDRESS;
    var status, sent, restarts, found := false, [], false, false;
    if cmd == WOL_SEND {
      found := GetArray(root, MAC, buf, ks);
      if found {
        status, sent := WolSend(lib, buf, hasSocket);
      }
    } else if cmd == SHUTDOWN_SEND {
      found := GetArray(root, MAC, buf, ks);
      if found {
        status, sent := ShutdownSend(buf, hasSocket);
      }
    } else if cmd == RESET {
      status, restarts := true, true;
    }
    mac := buf[..];
    r := Done(status, sent, restarts);
  }

  /** A parsed message. */
  method Act(lib: Library, root: Node, hasSocket: bool, ghost s: Shape) returns (r: Reaction, ghost mac: seq<byte>)
    requires root == s.node && root.child == First(s.kids) && Kids(s.kids) && Safe(Members(s.kids))
    requires MembersOf(Value(s)) == Members(s.kids)
    modifies lib`live, lib`denied
    ensures lib.live == old(lib.live) && |mac| == 6
    ensures Reacts(old(Value(s)), hasSocket, mac, r) || (lib.denied && Reacts(old(Value(s)), false, mac, r))
  {
    hide Ascii, Objects, ObjectsOf, Members, Value, Kids, FirstOf, Readable, SafeOrder, Addressed, Magic, ShutdownText;
    ghost var kids := s.kids;
    ExistAll(kids);
    ghost var ms := Members(kids);
    mac := NO_ADDRESS;
    var alive := GetBoolean(root, ClientLists.STATUS, kids);
    if alive {
      r := Acknowledged;
      return;
    }
    assert Members(kids) == ms;
    var found, cmd := GetString(root, CMD, kids);
    if !found {
      r := Ignored;
      return;
    }
    assert Members(kids) == ms && Kids(kids);
    r, mac := Carry(lib, root, CStr(cmd[..]), hasSocket, kids);
  }

  /** The shape of a parsed message. */
  lemma MessageKids(s: Shape)
    requires Parsing.Rooted(s) && Spelled(s) && (s.node.tag == TArray || s.node.tag == TObject || s.kids == [])
    ensures s.node.child == First(s.kids) && Kids(s.kids) && MembersOf(Value(s)) == Members(s.kids)
  {
    hide Distinct;
    Parsing.OwnsAll(s);
    assert Linked(s, false) && TidyAll(s.kids) && SpelledAll(s.kids);
  }

  /** Every message that the lookups can read: the device reacts as specified and keeps no memory. Memory
      that is refused makes it ignore the message or fail to send. */
  method Handle(lib: Library, text: seq<byte>, hasSocket: bool) returns (r: Reaction, ghost mac: seq<byte>)
    requires !ParserSpec.ParseText(text, false).Malformed?
    requires ParserSpec.ParseText(text, false).Parsed? ==> !LooksLikeMembers(ParserSpec.ParseText(text, false).value)
    modifies lib
    ensures lib.live == old(lib.live) && |mac| == 6
    ensures ParserSpec.ParseText(text, false).Rejected? ==> r == Ignored
    ensures ParserSpec.ParseText(text, false).Parsed? ==>
              var j := ParserSpec.ParseText(text, false).value;
              Reacts(j, hasSocket, mac, r) || (lib.denied && (r == Ignored || Reacts(j, false, mac, r)))
  {
    hide ParserSpec.ParseText, Parsing.Rooted, Objects, ObjectsOf, Members, Value, Kids, Reacts, Spelled, Safe,
         LooksLikeMembers;
    mac := NO_ADDRESS;
    var root, end, kids := Parsing.ParseWithOpts(lib, text, false);
    if root == null {
      r := Ignored;
      return;
    }
    ghost var s := NodeParser.ShapeOf(root, kids);
    ExistAll(kids);
    MessageKids(s);
    SafeToRead(text, false);
    r, mac := Act(lib, root, hasSocket, s);
    Parsing.DeleteTree(lib, root, s);
  }

  // ----- its answer

  /** `{"cmd":"response","response":{"status":%s,"key":"%s"}}` */
  function AnswerText(status: bool, key: seq<byte>): seq<byte> {
    Ascii("{\"cmd\":\"response\",\"response\":{\"status\":")
    + ((if status then TRUE_TEXT else FALSE_TEXT) + (Ascii(",\"key\":\"") + (key + Ascii("\"}}"))))
  }

  function AnswerTree(status: bool, key: seq<byte>): Json {
    Nest(Object, [Member(Name(Ascii("cmd")), Str(Ascii("response"))),
                  Member(Name(Ascii("response")),
                         Nest(Object, [Member(Name(Ascii("status")), if status then True else False),
                                       Member(Name(Ascii("key")), Str(key))]))])
  }

  lemma AnswerNames()
    ensures Unescaped(CMD) && Unescaped(ClientLists.RESPONSE) && Unescaped(ClientLists.STATUS) && Unescaped(ClientLists.KEY)
  {
  }

  /** The server reads it as a response, whatever the key if it needs no escaping. */
  lemma AnswerReads(status: bool, key: seq<byte>)
    requires Unescaped(key)
    ensures ParserSpec.ParseText(AnswerText(status, key), false).Parsed?
         && ParserSpec.ParseText(AnswerText(status, key), false).value == AnswerTree(status, key)
  {
    hide Grammar.WellFormed, Grammar.AllSlots, Grammar.Render, Grammar.Denote, Object2, Ascii, Unescaped, Pair, Raws,
         ParserSpec.ParseText, AnswerText, InQuotes;
    var truth := if status then Grammar.CTrue else Grammar.CFalse;
    AnswerNames();
    TruthReads(status);
    StringReads(key);
    StringReads(ClientLists.RESPONSE);
    TwoMembers(ClientLists.STATUS, truth, ClientLists.KEY, Grammar.CString(Raws(key)));
    var members := [Pair(ClientLists.STATUS, truth), Pair(ClientLists.KEY, Grammar.CString(Raws(key)))];
    var inner := Grammar.CNest(Object, [], members);
    TwoMembers(CMD, Grammar.CString(Raws(ClientLists.RESPONSE)), ClientLists.RESPONSE, inner);
    AnswerLayout(status, key);
    var order := Pair(CMD, Grammar.CString(Raws(ClientLists.RESPONSE)));
    MeansPrefix(Grammar.CNest(Object, [], [order, Pair(ClientLists.RESPONSE, inner)]));
  }

  lemma AnswerLayout(status: bool, key: seq<byte>)
    ensures AnswerText(status, key)
         == Object2(CMD, InQuotes(ClientLists.RESPONSE), ClientLists.RESPONSE,
                    Object2(ClientLists.STATUS, if status then TRUE_TEXT else FALSE_TEXT, ClientLists.KEY, InQuotes(key)))
  {
    hide Ascii;
    AnswerChunks();
    AnswerRegroup(CMD, ClientLists.RESPONSE, ClientLists.STATUS, if status then TRUE_TEXT else FALSE_TEXT,
                  ClientLists.KEY, key);
  }

  lemma AsciiPlus(a: string, b: string)
    requires forall i :: 0 <= i < |a| ==> a[i] < 128 as char
    requires forall i :: 0 <= i < |b| ==> b[i] < 128 as char
    ensures Ascii(a + b) == Ascii(a) + Ascii(b)
  {
  }

  lemma AnswerChunks()
    ensures Ascii("{\"cmd\":\"response\",\"response\":{\"status\":")
         == [LBRACE, QUOTE] + (CMD + ([QUOTE, COLON, QUOTE] + (ClientLists.RESPONSE + ([QUOTE, COMMA, QUOTE]
            + (ClientLists.RESPONSE + ([QUOTE, COLON, LBRACE, QUOTE] + (ClientLists.STATUS + [QUOTE, COLON])))))))
    ensures Ascii(",\"key\":\"") == [COMMA, QUOTE] + (ClientLists.KEY + [QUOTE, COLON, QUOTE])
    ensures Ascii("\"}}") == [QUOTE, RBRACE, RBRACE]
  {
    hide Ascii;
    FirstChunks();
    SecondChunks();
    ThreeChunks();
    ChunksTogether(CMD, ClientLists.RESPONSE, ClientLists.STATUS);
  }

  lemma ThreeChunks()
    ensures Ascii("{\"cmd\":\"response\",\"response\":{\"status\":")
         == Ascii("{\"cmd\":\"response") + (Ascii("\",\"response\"") + Ascii(":{\"status\":"))
  {
    var a, b, c := "{\"cmd\":\"response", "\",\"response\"", ":{\"status\":";
    assert "{\"cmd\":\"response\",\"response\":{\"status\":" == a + (b + c);
    hide Ascii;
    AsciiPlus(b, c);
    AsciiPlus(a, b + c);
  }

  lemma FirstChunks()
    ensures Ascii("{\"cmd\":\"response") == [LBRACE, QUOTE] + (CMD + ([QUOTE, COLON, QUOTE] + ClientLists.RESPONSE))
    ensures Ascii("\",\"response\"") == [QUOTE, COMMA, QUOTE] + (ClientLists.RESPONSE + [QUOTE])
  {
  }

  lemma SecondChunks()
    ensures Ascii(":{\"status\":") == [COLON, LBRACE, QUOTE] + (ClientLists.STATUS + [QUOTE, COLON])
    ensures Ascii(",\"key\":\"") == [COMMA, QUOTE] + (ClientLists.KEY + [QUOTE, COLON, QUOTE])
    ensures Ascii("\"}}") == [QUOTE, RBRACE, RBRACE]
  {
  }

  lemma ChunksTogether(c: seq<byte>, r: seq<byte>, s: seq<byte>)
    ensures ([LBRACE, QUOTE] + (c + ([QUOTE, COLON, QUOTE] + r)))
            + (([QUOTE, COMMA, QUOTE] + (r + [QUOTE])) + ([COLON, LBRACE, QUOTE] + (s + [QUOTE, COLON])))
         == [LBRACE, QUOTE] + (c + ([QUOTE, COLON, QUOTE] + (r + ([QUOTE, COMMA, QUOTE]
            + (r + ([QUOTE, COLON, LBRACE, QUOTE] + (s + [QUOTE, COLON])))))))
  {
  }

  lemma AnswerRegroup(c: seq<byte>, r: seq<byte>, s: seq<byte>, truth: seq<byte>, k: seq<byte>, key: seq<byte>)
    ensures ([LBRACE, QUOTE] + (c + ([QUOTE, COLON, QUOTE] + (r + ([QUOTE, COMMA, QUOTE]
             + (r + ([QUOTE, COLON, LBRACE, QUOTE] + (s + [QUOTE, COLON]))))))))
            + (truth + (([COMMA, QUOTE] + (k + [QUOTE, COLON, QUOTE])) + (key + [QUOTE, RBRACE, RBRACE])))
         == Object2(c, InQuotes(r), r, Object2(s, truth, k, InQuotes(key)))
  {
    var inner := Object2(s, truth, k, InQuotes(key));
    InnerLayout(s, truth, k, key);
    assert [QUOTE, RBRACE, RBRACE] == [QUOTE, RBRACE] + [RBRACE];
    OuterLayout(c, r, [QUOTE] + (s + [QUOTE, COLON]),
                truth + (([COMMA, QUOTE] + (k + [QUOTE, COLON, QUOTE])) + (key + [QUOTE, RBRACE])));
    assert truth + (([COMMA, QUOTE] + (k + [QUOTE, COLON, QUOTE])) + (key + [QUOTE, RBRACE, RBRACE]))
        == (truth + (([COMMA, QUOTE] + (k + [QUOTE, COLON, QUOTE])) + (key + [QUOTE, RBRACE]))) + [RBRACE];
    assert [QUOTE, COLON, LBRACE, QUOTE] + (s + [QUOTE, COLON]) == [QUOTE, COLON, LBRACE] + ([QUOTE] + (s + [QUOTE, COLON]));
  }

  lemma InnerLayout(s: seq<byte>, truth: seq<byte>, k: seq<byte>, key: seq<byte>)
    ensures [LBRACE] + (([QUOTE] + (s + [QUOTE, COLON]))
            + (truth + (([COMMA, QUOTE] + (k + [QUOTE, COLON, QUOTE])) + (key + [QUOTE, RBRACE]))))
         == Object2(s, truth, k, InQuotes(key))
  {
  }

  lemma OuterLayout(c: seq<byte>, r: seq<byte>, a: seq<byte>, b: seq<byte>)
    ensures ([LBRACE, QUOTE] + (c + ([QUOTE, COLON, QUOTE]
             + (r + ([QUOTE, COMMA, QUOTE] + (r + ([QUOTE, COLON, LBRACE] + a)))))))
            + (b + [RBRACE])
         == Object2(c, InQuotes(r), r, [LBRACE] + (a + b))
  {
  }

  // ----- the server's replies

  /** The device takes the reply to a bind or a beat for a sign that the server has heard it exactly if
      its status is true. */
  lemma ReplyIsTaken(status: bool, hasSocket: bool, mac: seq<byte>, r: Reaction)
    ensures var t := ClientLists.Formatted(status, NULL_TEXT);
            && ParserSpec.ParseText(t, false).Parsed?
            && !LooksLikeMembers(ParserSpec.ParseText(t, false).value)
            && (Reacts(ParserSpec.ParseText(t, false).value, hasSocket, mac, r) ==>
                  r == if status then Acknowledged else Ignored)
  {
    hide ParserSpec.ParseText, Ascii;
    ClientLists.PlainReplyReads(status, false);
    var ms := MembersOf(ClientLists.PlainReplyTree(status));
    ReplyNames();
    assert Is(ms[0], ClientLists.STATUS, ATrue) <==> status;
    assert !Is(ms[1], ClientLists.STATUS, ATrue) && forall k :: 0 <= k < 2 ==> !Is(ms[k], CMD, AString);
  }

  lemma ReplyNames()
    ensures ClientLists.STATUS != ClientLists.RESPONSE
  {
    assert ClientLists.STATUS[0] != ClientLists.RESPONSE[0];
  }

  // ----- from the user to the wire

  predicate WholeAddress(o: Presence.Order) { o.Restart? || |o.mac| == 6 }

  /** What an order makes of a device that can open its socket. */
  function Outcome(o: Presence.Order): Reaction
    requires WholeAddress(o)
  {
    match o
    case SendWol(mac) => Done(true, [Datagram(60069, Magic(mac))], false)
    case SendShutdown(mac) => Done(true, [Datagram(4003, ShutdownText(mac))], false)
    case Restart => Done(true, [], true)
  }

  lemma {:induction false} NumbersAt(bs: seq<byte>, i: nat)
    requires i < |bs|
    ensures |Numbers(bs)| == |bs| && IntOf(Numbers(bs)[i].value) == bs[i]
    decreases bs
  {
    NumbersLength(bs);
    if i > 0 { NumbersAt(bs[1..], i - 1); }
  }

  lemma {:induction false} NumbersLength(bs: seq<byte>)
    ensures |Numbers(bs)| == |bs|
  {
    if bs != [] { NumbersLength(bs[1..]); }
  }

  lemma NumbersFill(mac: seq<byte>, r: seq<byte>)
    requires |mac| == 6
    ensures Filled(NO_ADDRESS, Numbers(mac), r) <==> r == mac
  {
    hide Numbers;
    NumbersLength(mac);
    forall i | 0 <= i < 6 ensures forall b: byte :: ByteOf(Numbers(mac)[i].value, b) <==> b == mac[i] { NumbersAt(mac, i); }
  }

  /** What the specification makes of an order: what it says, and with no other address. */
  lemma OrderOutcome(o: Presence.Order, mac: seq<byte>, r: Reaction)
    requires WholeAddress(o)
    ensures Safe(MembersOf(OrderTree(o))) && !LooksLikeMembers(OrderTree(o))
    ensures Reacts(OrderTree(o), true, mac, r) ==> r == Outcome(o)
  {
    hide Numbers, Ascii, Magic, ShutdownText;
    PlainNames();
    if !o.Restart? { NumbersFill(o.mac, mac); }
    var ms := MembersOf(OrderTree(o));
    assert forall k :: 0 <= k < |ms| ==> !ms[k].value.True?;
    assert Is(ms[0], CMD, AString);
    if !o.Restart? { assert Is(ms[1], MAC, AList) && !Is(ms[0], MAC, AList); }
  }

  /** The device obeys every order that the server sends. */
  method Obey(lib: Library, o: Presence.Order) returns (r: Reaction)
    requires WholeAddress(o)
    modifies lib
    ensures lib.live == old(lib.live) && (r == Outcome(o) || lib.denied)
  {
    hide ParserSpec.ParseText, OrderText, OrderTree, Reacts, Outcome, Safe, LooksLikeMembers;
    OrderReads(o);
    OrderOutcome(o, [], Ignored);
    ghost var mac;
    r, mac := Handle(lib, OrderText(o), true);
    OrderOutcome(o, mac, r);
  }

  /** An address with either separator becomes a magic packet for it. */
  method Wake(lib: Library, address: seq<byte>, sep: byte) returns (r: Reaction)
    requires IsAddress(address, sep) && (sep == COLON || sep == DASH)
    modifies lib
    ensures lib.live == old(lib.live)
    ensures lib.denied || r == Done(true, [Datagram(60069, Magic(AddressBytes(address, sep)))], false)
  {
    hide Magic, IsAddress;
    var m := ReadAddress(address);
    r := Obey(lib, Presence.SendWol(m.bytes));
  }

  /** The address in a shutdown packet is one that the server would read as the same six bytes. */
  lemma ShutdownAddress(mac: seq<byte>)
    requires |mac| == 6
    ensures IsAddress(HexGroups(mac), DASH) && AddressBytes(HexGroups(mac), DASH) == mac
  {
    var t := HexGroups(mac);
    forall k | 0 <= k < 6
      ensures t[3 * k] == High(mac[k]) && t[3 * k + 1] == Low(mac[k]) && (k < 5 ==> t[3 * k + 2] == DASH)
    {
      GroupAt(mac, k);
    }
    hide HexGroups, High, Low, Literal.IsHex, Literal.HexVal;
    forall k | 0 <= k < 6
      ensures Literal.IsHex(t[3 * k]) && Literal.IsHex(t[3 * k + 1])
      ensures 16 * Literal.HexVal(t[3 * k]) + Literal.HexVal(t[3 * k + 1]) == mac[k]
    {
      HexUpper(mac[k]);
    }
    assert IsAddress(t, DASH);
    assert forall k :: 0 <= k < 6 ==> Group(t, DASH, k) == mac[k];
  }

  lemma GroupAt(mac: seq<byte>, k: nat)
    requires |mac| == 6 && k < 6
    ensures |HexGroups(mac)| == 17
    ensures var t := HexGroups(mac);
            t[3 * k] == High(mac[k]) && t[3 * k + 1] == Low(mac[k]) && (k < 5 ==> t[3 * k + 2] == DASH)
  {
    hide High, Low;
  }

  lemma HexUpper(b: byte)
    ensures Literal.IsHex(High(b)) && Literal.IsHex(Low(b)) && 16 * Literal.HexVal(High(b)) + Literal.HexVal(Low(b)) == b
  {
  }
}
