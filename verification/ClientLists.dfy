/** The reply to `client_list`, written slot by slot with format strings: what a JSON parser makes of it. */
module ClientLists {
  import opened CText
  import opened JsonTree
  import opened Grammar
  import opened ParserSpec
  import opened Presence
  import opened Handwritten
  import Numerals
  import Servers

  const STATUS: seq<byte> := Ascii("status")
  const RESPONSE: seq<byte> := Ascii("response")
  const COUNT: seq<byte> := Ascii("count")
  const LIST: seq<byte> := Ascii("list")
  const KEY: seq<byte> := Ascii("key")
  const SSID: seq<byte> := Ascii("ssid")
  const LAN_IP: seq<byte> := Ascii("lan_ip")
  const GLOBAL_IP: seq<byte> := Ascii("global_ip")

  // ----- what it should say

  function ClientTree(c: Client): Json {
    Nest(Object, [Member(Name(KEY), Str(c.key)), Member(Name(SSID), Str(c.ssid)),
                  Member(Name(LAN_IP), Str(c.lanIp)), Member(Name(GLOBAL_IP), Str(c.globalIp))])
  }

  /** The slots to list: enabled and bound, in the order of their descriptors. */
  function Listed(slots: seq<Client>): (r: seq<Client>)
    ensures forall i :: 0 <= i < |r| ==> r[i] in slots && r[i].enable && r[i].esp8266
  {
    if slots == [] then []
    else
      var last := slots[|slots| - 1];
      Listed(slots[..|slots| - 1]) + if last.enable && last.esp8266 then [last] else []
  }

  /** The enabled slots, bound or not. */
  function Count(slots: seq<Client>): nat {
    if slots == [] then 0
    else Count(slots[..|slots| - 1]) + if slots[|slots| - 1].enable then 1 else 0
  }

  function Trees(cs: seq<Client>): seq<Member> {
    if cs == [] then [] else [Member(NoName, ClientTree(cs[0]))] + Trees(cs[1..])
  }

  function ReplyTree(slots: seq<Client>): Json {
    Nest(Object,
         [Member(Name(STATUS), True),
          Member(Name(RESPONSE),
                 Nest(Object, [Member(Name(COUNT), Num(Count(slots) as real)),
                               Member(Name(LIST), Nest(List, Trees(Listed(slots))))]))])
  }

  // ----- what is written

  function ClientText(c: Client): seq<byte> {
    Ascii("{\"key\":\"") + (c.key + (Ascii("\",\"ssid\":\"") + (c.ssid + (Ascii("\",\"lan_ip\":\"")
    + (c.lanIp + (Ascii("\",\"global_ip\":\"") + (c.globalIp + Ascii("\"}"))))))))
  }

  function ClientTexts(cs: seq<Client>): seq<seq<byte>> {
    if cs == [] then [] else [ClientText(cs[0])] + ClientTexts(cs[1..])
  }

  function ListText(slots: seq<Client>): seq<byte> {
    [LBRACKET] + (Joined(ClientTexts(Listed(slots))) + [RBRACKET])
  }

  function ResponseText(slots: seq<Client>): seq<byte> {
    Ascii("{\"count\":") + (Numerals.Decimal(Count(slots)) + (Ascii(",\"list\":") + (ListText(slots) + Ascii("}"))))
  }

  /** The format of every reply: its status, and whatever JSON the response is. */
  function Formatted(status: bool, response: seq<byte>): seq<byte> {
    Ascii("{\"status\":")
    + ((if status then TRUE_TEXT else FALSE_TEXT) + (Ascii(",\"response\":") + (response + Ascii("}"))))
  }

  function ReplyText(slots: seq<Client>): seq<byte> { Formatted(true, ResponseText(slots)) }

  // ----- the tree it is the text of

  function ClientCst(c: Client): Cst {
    CNest(Object, [], [Pair(KEY, CString(Raws(c.key))), Pair(SSID, CString(Raws(c.ssid))),
                       Pair(LAN_IP, CString(Raws(c.lanIp))), Pair(GLOBAL_IP, CString(Raws(c.globalIp)))])
  }

  predicate Quotable(c: Client) { Unescaped(c.key) && Unescaped(c.ssid) && Unescaped(c.lanIp) && Unescaped(c.globalIp) }

  predicate Reads(c: Cst, text: seq<byte>, j: Json) {
    WellFormed(c) && Render(c) == text && Denote(c) == j && c.CNest?
  }

  lemma Entries4(kind: Kind, a: Entry, b: Entry, c: Entry, d: Entry)
    requires WellFormedEntry(kind, a) && WellFormedEntry(kind, b) && WellFormedEntry(kind, c) && WellFormedEntry(kind, d)
    requires EntrySlots(a, Plain) && EntrySlots(b, Plain) && EntrySlots(c, Plain) && EntrySlots(d, Plain)
    ensures var es := [a, b, c, d];
            && Texts(es) == [RenderEntry(a), RenderEntry(b), RenderEntry(c), RenderEntry(d)]
            && WellFormedEntries(kind, es) && AllEntrySlots(es, Plain)
            && DenoteEntries(kind, es)
               == [DenoteEntry(kind, a), DenoteEntry(kind, b), DenoteEntry(kind, c), DenoteEntry(kind, d)]
  {
    hide RenderEntry, WellFormedEntry, DenoteEntry, EntrySlots;
    var es := [a, b, c, d];
    assert es[1..] == [b, c, d] && es[1..][1..] == [c, d];
    Entries2(kind, c, d);
    assert Texts([b, c, d]) == [RenderEntry(b)] + Texts([c, d]);
    assert WellFormedEntries(kind, [b, c, d]);
    assert DenoteEntries(kind, [b, c, d]) == [DenoteEntry(kind, b)] + DenoteEntries(kind, [c, d]);
    assert AllEntrySlots([b, c, d], Plain);
  }

  lemma ClientReads(c: Client)
    requires Quotable(c)
    ensures Reads(ClientCst(c), ClientText(c), ClientTree(c)) && AllSlots(ClientCst(c), Plain)
  {
    hide RenderEntry, WellFormedEntry, DenoteEntry, EntrySlots, Raws, Pair, Texts, Joined, PairText;
    var a, b, d, e := Pair(KEY, CString(Raws(c.key))), Pair(SSID, CString(Raws(c.ssid))),
                      Pair(LAN_IP, CString(Raws(c.lanIp))), Pair(GLOBAL_IP, CString(Raws(c.globalIp)));
    StringPair(KEY, c.key);
    StringPair(SSID, c.ssid);
    StringPair(LAN_IP, c.lanIp);
    StringPair(GLOBAL_IP, c.globalIp);
    Entries4(Object, a, b, d, e);
    NestText(Object, [a, b, d, e]);
    ClientLayout(c);
  }

  /** The format string, taken apart. */
  lemma ClientLayout(c: Client)
    ensures ClientText(c)
         == [LBRACE] + (Joined([PairText(KEY, InQuotes(c.key)), PairText(SSID, InQuotes(c.ssid)),
                                PairText(LAN_IP, InQuotes(c.lanIp)),
                                PairText(GLOBAL_IP, InQuotes(c.globalIp))]) + [RBRACE])
  {
    hide Joined, PairText, InQuotes, Ascii;
    Chunks();
    Layout4(KEY, c.key, SSID, c.ssid, LAN_IP, c.lanIp, GLOBAL_IP, c.globalIp);
  }

  lemma Chunks()
    ensures var open, mid, next := [LBRACE, QUOTE], [QUOTE, COLON, QUOTE], [QUOTE, COMMA, QUOTE];
            && Ascii("{\"key\":\"") == open + (KEY + mid)
            && Ascii("\",\"ssid\":\"") == next + (SSID + mid)
            && Ascii("\",\"lan_ip\":\"") == next + (LAN_IP + mid)
            && Ascii("\",\"global_ip\":\"") == next + (GLOBAL_IP + mid)
            && Ascii("\"}") == [QUOTE, RBRACE]
  {
  }

  lemma Layout4(n1: seq<byte>, v1: seq<byte>, n2: seq<byte>, v2: seq<byte>, n3: seq<byte>, v3: seq<byte>,
                n4: seq<byte>, v4: seq<byte>)
    ensures var open, mid, next := [LBRACE, QUOTE], [QUOTE, COLON, QUOTE], [QUOTE, COMMA, QUOTE];
            (open + (n1 + mid)) + (v1 + ((next + (n2 + mid)) + (v2 + ((next + (n3 + mid))
            + (v3 + ((next + (n4 + mid)) + (v4 + [QUOTE, RBRACE])))))))
            == [LBRACE] + (Joined([PairText(n1, InQuotes(v1)), PairText(n2, InQuotes(v2)), PairText(n3, InQuotes(v3)),
                                   PairText(n4, InQuotes(v4))]) + [RBRACE])
  {
    var p1, p2, p3, p4 := PairText(n1, InQuotes(v1)), PairText(n2, InQuotes(v2)), PairText(n3, InQuotes(v3)),
                          PairText(n4, InQuotes(v4));
    hide PairText, Joined;
    Joined4(p1, p2, p3, p4);
    assert [QUOTE, RBRACE] == [QUOTE] + [RBRACE];
    var r4 := ([COMMA] + p4) + [RBRACE];
    var r3 := ([COMMA] + p3) + r4;
    LayoutNext(n4, v4, [RBRACE]);
    LayoutNext(n3, v3, r4);
    LayoutNext(n2, v2, r3);
    LayoutFirst(n1, v1, ([COMMA] + p2) + r3);
    assert p1 + (([COMMA] + p2) + (([COMMA] + p3) + (([COMMA] + p4) + [RBRACE])))
        == (p1 + ([COMMA] + (p2 + ([COMMA] + (p3 + ([COMMA] + p4)))))) + [RBRACE];
  }

  lemma LayoutNext(n: seq<byte>, v: seq<byte>, r: seq<byte>)
    ensures ([QUOTE, COMMA, QUOTE] + (n + [QUOTE, COLON, QUOTE])) + (v + ([QUOTE] + r))
         == [QUOTE] + (([COMMA] + PairText(n, InQuotes(v))) + r)
  {
  }

  lemma LayoutFirst(n: seq<byte>, v: seq<byte>, r: seq<byte>)
    ensures ([LBRACE, QUOTE] + (n + [QUOTE, COLON, QUOTE])) + (v + ([QUOTE] + r))
         == [LBRACE] + (PairText(n, InQuotes(v)) + r)
  {
  }

  lemma Joined4(a: seq<byte>, b: seq<byte>, c: seq<byte>, d: seq<byte>)
    ensures Joined([a, b, c, d]) == a + ([COMMA] + (b + ([COMMA] + (c + ([COMMA] + d)))))
  {
    assert [a, b, c, d][1..] == [b, c, d] && [b, c, d][1..] == [c, d];
    Joined2(c, d);
    assert Joined([b, c, d]) == b + ([COMMA] + Joined([c, d]));
  }

  function Items(cs: seq<Client>): seq<Entry> {
    if cs == [] then [] else [Item(ClientCst(cs[0]))] + Items(cs[1..])
  }

  lemma {:induction false} ItemsRead(cs: seq<Client>)
    requires AllQuotable(cs)
    ensures WellFormedEntries(List, Items(cs)) && DenoteEntries(List, Items(cs)) == Trees(cs)
    ensures Texts(Items(cs)) == ClientTexts(cs) && AllEntrySlots(Items(cs), Plain)
  {
    hide ClientCst, ClientText, ClientTree, RenderEntry, WellFormedEntry, DenoteEntry, EntrySlots;
    if cs != [] {
      var es := Items(cs);
      ClientReads(cs[0]);
      ItemReads(ClientCst(cs[0]));
      ItemsRead(cs[1..]);
      assert es[0] == Item(ClientCst(cs[0])) && es[1..] == Items(cs[1..]);
    }
  }

  function ResponseCst(slots: seq<Client>): Cst {
    CNest(Object, [], [Pair(COUNT, CNumber(Numerals.IntNumeral(Count(slots)))),
                       Pair(LIST, CNest(List, [], Items(Listed(slots))))])
  }

  function ReplyCst(slots: seq<Client>): Cst {
    CNest(Object, [], [Pair(STATUS, CTrue), Pair(RESPONSE, ResponseCst(slots))])
  }

  predicate AllQuotable(cs: seq<Client>) { forall i :: 0 <= i < |cs| ==> Quotable(cs[i]) }

  lemma ListReads(cs: seq<Client>)
    requires AllQuotable(cs)
    ensures var c := CNest(List, [], Items(cs));
            && WellFormed(c) && AllSlots(c, Plain) && Denote(c) == Nest(List, Trees(cs))
            && Render(c) == [LBRACKET] + (Joined(ClientTexts(cs)) + [RBRACKET])
  {
    hide Items, Texts, RenderEntries, WellFormedEntries, AllEntrySlots, DenoteEntries, Joined;
    ItemsRead(cs);
    NestText(List, Items(cs));
    assert Plain([]);
  }

  lemma PlainNames()
    ensures Unescaped(STATUS) && Unescaped(RESPONSE) && Unescaped(COUNT) && Unescaped(LIST)
  {
  }

  lemma ResponseReads(slots: seq<Client>)
    requires AllQuotable(Listed(slots))
    ensures var c := ResponseCst(slots);
            && WellFormed(c) && AllSlots(c, Plain) && Render(c) == ResponseText(slots)
            && Denote(c) == Nest(Object, [Member(Name(COUNT), Num(Count(slots) as real)),
                                          Member(Name(LIST), Nest(List, Trees(Listed(slots))))])
  {
    hide WellFormed, AllSlots, Render, Denote, Items, Trees, Object2, Joined, Ascii, Unescaped, Listed, Count, Pair,
         Numerals.IntNumeral, Numerals.Decimal, Quotable, ClientTexts;
    PlainNames();
    CountReads(Count(slots));
    ListReads(Listed(slots));
    TwoMembers(COUNT, CNumber(Numerals.IntNumeral(Count(slots))), LIST, CNest(List, [], Items(Listed(slots))));
    ResponseLayout(Numerals.Decimal(Count(slots)), ListText(slots));
  }

  lemma ResponseLayout(n: seq<byte>, list: seq<byte>)
    ensures Ascii("{\"count\":") + (n + (Ascii(",\"list\":") + (list + Ascii("}"))))
         == Object2(COUNT, n, LIST, list)
  {
    assert Ascii("{\"count\":") == [LBRACE, QUOTE] + (COUNT + [QUOTE, COLON]);
    assert Ascii(",\"list\":") == [COMMA, QUOTE] + (LIST + [QUOTE, COLON]);
    assert Ascii("}") == [RBRACE];
    Layout2(COUNT, n, LIST, list);
  }

  lemma ReplyLayout(status: bool, response: seq<byte>)
    ensures Formatted(status, response) == Object2(STATUS, if status then TRUE_TEXT else FALSE_TEXT, RESPONSE, response)
  {
    assert Ascii("{\"status\":") == [LBRACE, QUOTE] + (STATUS + [QUOTE, COLON]);
    assert Ascii(",\"response\":") == [COMMA, QUOTE] + (RESPONSE + [QUOTE, COLON]);
    assert Ascii("}") == [RBRACE];
    Layout2(STATUS, if status then TRUE_TEXT else FALSE_TEXT, RESPONSE, response);
  }

  /** A reply without a list, as to a bind or a beat. */
  function PlainReplyTree(status: bool): Json {
    Nest(Object, [Member(Name(Ascii("status")), if status then True else False), Member(Name(Ascii("response")), Null)])
  }

  lemma PlainReplyReads(status: bool, requireEnd: bool)
    ensures var t := Formatted(status, NULL_TEXT); ParseText(t, requireEnd) == Parsed(PlainReplyTree(status), |t|)
  {
    hide WellFormed, AllSlots, Render, Denote, Object2, ParseText, Ascii, Unescaped, Formatted;
    PlainNames();
    TruthReads(status);
    NullReads();
    var truth := if status then CTrue else CFalse;
    TwoMembers(STATUS, truth, RESPONSE, CNull);
    ReplyLayout(status, NULL_TEXT);
    var c := CNest(Object, [], [Pair(STATUS, truth), Pair(RESPONSE, CNull)]);
    if requireEnd { Means(c); } else { MeansPrefix(c); }
  }

  lemma NullReads()
    ensures WellFormed(CNull) && AllSlots(CNull, Plain) && Render(CNull) == NULL_TEXT && Denote(CNull) == Null
  {
  }

  /** Parsing the reply gives the number of enabled slots, and the bound ones in the order of their
      descriptors with their fields as they stand in the table. */
  lemma ReplyReads(slots: seq<Client>)
    requires AllQuotable(Listed(slots))
    ensures ParseText(ReplyText(slots), true) == Parsed(ReplyTree(slots), |ReplyText(slots)|)
  {
    hide WellFormed, AllSlots, Render, Denote, Object2, ResponseCst, ResponseText, Trees, ParseText, Ascii, Unescaped,
         Formatted;
    PlainNames();
    ResponseReads(slots);
    TruthReads(true);
    TwoMembers(STATUS, CTrue, RESPONSE, ResponseCst(slots));
    ReplyLayout(true, ResponseText(slots));
    Means(ReplyCst(slots));
  }

  /** The text that goes out for a reply. */
  function TextOf(r: Presence.Reply, slots: seq<Client>): seq<byte>
    requires r.Reply?
  {
    Formatted(r.status, if r.listed then ResponseText(slots) else NULL_TEXT)
  }

  /** Whatever the message, unless it is a response: the reply parses to its status and its response. */
  lemma AnyReplyReads(slots: seq<Client>, c: Command)
    requires !c.Response? && (c.ClientList? ==> AllQuotable(Listed(slots)))
    ensures var r := ReplyTo(slots, c);
            ParseText(TextOf(r, slots), true)
            == Parsed(if c.ClientList? then ReplyTree(slots) else PlainReplyTree(Status(slots, c)), |TextOf(r, slots)|)
  {
    hide ParseText, ResponseText, ReplyTree, PlainReplyTree, Formatted;
    if c.ClientList? { ReplyReads(slots); } else { PlainReplyReads(Status(slots, c), true); }
  }

  /** The count in the reply is the number of connected clients. */
  lemma {:induction false} CountIsEnabled(slots: seq<Client>)
    ensures Count(slots) == |Servers.EnabledFds(slots)|
  {
    var fds := Servers.EnabledFds(slots);
    if slots == [] {
      assert fds == {};
    } else {
      var init, n := slots[..|slots| - 1], |slots| - 1;
      CountIsEnabled(init);
      assert n !in Servers.EnabledFds(init);
      assert fds == Servers.EnabledFds(init) + if slots[n].enable then {n} else {};
    }
  }

  // ----- which slots are listed

  /** `idx` are the enabled and bound slots, in the order of their descriptors. */
  ghost predicate Indexes(idx: seq<nat>, slots: seq<Client>) {
    && (forall a, b :: 0 <= a < b < |idx| ==> idx[a] < idx[b])
    && (forall i: nat :: i in idx <==> i < |slots| && slots[i].enable && slots[i].esp8266)
  }

  /** The list has exactly these slots, each once and in this order. */
  lemma {:induction false} ListedSlots(slots: seq<Client>) returns (idx: seq<nat>)
    ensures Indexes(idx, slots) && |idx| == |Listed(slots)|
    ensures forall k :: 0 <= k < |idx| ==> idx[k] < |slots| && Listed(slots)[k] == slots[idx[k]]
  {
    idx := [];
    if slots != [] {
      var n := |slots| - 1;
      var few := ListedSlots(slots[..n]);
      idx := few + if slots[n].enable && slots[n].esp8266 then [n] else [];
      assert Indexes(idx, slots) by { OneSlotMore(few, slots); }
      hide Indexes;
      assert Listed(slots) == Listed(slots[..n]) + if slots[n].enable && slots[n].esp8266 then [slots[n]] else [];
    }
  }

  lemma OneSlotMore(idx: seq<nat>, slots: seq<Client>)
    requires slots != [] && Indexes(idx, slots[..|slots| - 1])
    ensures Indexes(idx + if slots[|slots| - 1].enable && slots[|slots| - 1].esp8266 then [|slots| - 1] else [], slots)
  {
    assert forall k :: 0 <= k < |idx| ==> idx[k] in idx;
  }

  lemma {:induction false} TreesAt(cs: seq<Client>)
    ensures |Trees(cs)| == |cs| && forall k :: 0 <= k < |cs| ==> Trees(cs)[k] == Member(NoName, ClientTree(cs[k]))
  {
    if cs != [] { TreesAt(cs[1..]); }
  }

  /** The member of the list that stands for a slot. */
  ghost predicate Describes(m: Member, c: Client) {
    m == Member(NoName, Nest(Object, [Member(Name(Ascii("key")), Str(c.key)), Member(Name(Ascii("ssid")), Str(c.ssid)),
                                      Member(Name(Ascii("lan_ip")), Str(c.lanIp)),
                                      Member(Name(Ascii("global_ip")), Str(c.globalIp))]))
  }

  /** The tree that the reply parses to: true, how many slots are enabled, and for each enabled and bound
      slot, in the order of their descriptors, one member with the fields of that slot. */
  lemma ReplyListsSlots(slots: seq<Client>) returns (idx: seq<nat>, ms: seq<Member>)
    ensures ReplyTree(slots)
         == Nest(Object, [Member(Name(Ascii("status")), True),
                          Member(Name(Ascii("response")),
                                 Nest(Object, [Member(Name(Ascii("count")), Num(|Servers.EnabledFds(slots)| as real)),
                                               Member(Name(Ascii("list")), Nest(List, ms))]))])
    ensures Indexes(idx, slots) && |ms| == |idx|
    ensures forall k :: 0 <= k < |idx| ==> idx[k] < |slots| && Describes(ms[k], slots[idx[k]])
  {
    hide Listed, Trees, Ascii, Servers.EnabledFds, Indexes;
    CountIsEnabled(slots);
    ms := Trees(Listed(slots));
    TreesAt(Listed(slots));
    idx := ListedSlots(slots);
  }

  // ----- writing it

  lemma {:induction false} TextsOfMore(cs: seq<Client>, c: Client)
    ensures ClientTexts(cs + [c]) == ClientTexts(cs) + [ClientText(c)]
    decreases |cs|
  {
    hide ClientText;
    if cs == [] {
      assert [] + [c] == [c];
    } else {
      assert (cs + [c])[1..] == cs[1..] + [c];
      TextsOfMore(cs[1..], c);
    }
  }

  const BUFFER: nat := 32 * 1024

  /** The fields of a slot are short enough for the buffer of one client. */
  lemma FitsBuffer(c: Client)
    requires Fits(c)
    ensures |ClientText(c)| < BUFFER
  {
  }

  /** The loop over the slots: `str_send` and `count`. */
  method BuildList(clients: array<Client>) returns (count: nat, list: seq<byte>)
    requires AllFit(clients[..])
    ensures count == Count(clients[..])
    ensures list == [LBRACKET] + (Joined(ClientTexts(Listed(clients[..]))) + [RBRACKET])
  {
    hide ClientText, Joined, ClientTexts;
    count, list := 0, [LBRACKET];
    NoneYet();
    for i := 0 to clients.Length
      invariant count == Count(clients[..i])
      invariant list == [LBRACKET] + Joined(ClientTexts(Listed(clients[..i])))
      invariant 1 < |list| <==> Listed(clients[..i]) != []
    {
      assert clients[..i + 1][..i] == clients[..i];
      ghost var cs := Listed(clients[..i]);
      assert Listed(clients[..i + 1]) == cs + if clients[i].enable && clients[i].esp8266 then [clients[i]] else [];
      assert cs + [] == cs;
      if clients[i].enable {
        count := count + 1;
        if clients[i].esp8266 {
          FitsBuffer(clients[i]);
          var buffer := Cut(ClientText(clients[i]), BUFFER);
          TextsOfMore(cs, clients[i]);
          JoinedSnoc(ClientTexts(cs), buffer);
          OneEach(cs);
          ghost var so := Joined(ClientTexts(cs));
          assert ([LBRACKET] + so) + [COMMA] + buffer == [LBRACKET] + (so + ([COMMA] + buffer));
          if 1 < |list| {
            list := list + [COMMA];
          }
          list := list + buffer;
          SomeText(clients[i]);
        }
      }
    }
    assert clients[..clients.Length] == clients[..];
    list := list + [RBRACKET];
  }

  lemma NoneYet()
    ensures Joined(ClientTexts([])) == []
  {
  }

  lemma OneEach(cs: seq<Client>)
    ensures ClientTexts(cs) == [] <==> cs == []
  {
  }

  lemma SomeText(c: Client)
    ensures ClientText(c) != []
  {
  }

  /** The whole reply, which has to fit the buffer that it is formatted into. */
  method Reply(clients: array<Client>) returns (reply: seq<byte>)
    requires AllFit(clients[..]) && AllQuotable(Listed(clients[..])) && |ReplyText(clients[..])| < BUFFER
    ensures ParseText(reply, true) == Parsed(ReplyTree(clients[..]), |reply|)
  {
    hide ClientText, Joined, ClientTexts, ParseText, ReplyTree;
    var count, list := BuildList(clients);
    var head := Ascii("{\"count\":") + (Numerals.Decimal(count) + Ascii(",\"list\":"));
    assert |head| <= |ReplyText(clients[..])|;
    var response := Cut(head, BUFFER) + (list + Ascii("}"));
    assert response == ResponseText(clients[..]);
    reply := Cut(Formatted(true, response), BUFFER);
    ReplyReads(clients[..]);
  }
}
