/** The server's side of waking a machine up, reading the address that a user has typed and writing an
    order for a device with format strings, and the packet that the device fills. */
module WakeOnLan {
  import opened CText
  import opened JsonTree
  import opened Grammar
  import opened ParserSpec
  import opened Handwritten
  import Literal
  import Numerals
  import Presence

  // ----- the server reads the address

  const DASH: byte := MINUS

  /** Six groups of two hexadecimal digits. */
  predicate IsAddress(t: seq<byte>, sep: byte) {
    && |t| == 17
    && (forall k :: 0 <= k < 6 ==> Literal.IsHex(t[3 * k]) && Literal.IsHex(t[3 * k + 1]))
    && (forall k :: 0 <= k < 5 ==> t[3 * k + 2] == sep)
  }

  /** The byte that the k-th group stands for. */
  function Group(t: seq<byte>, sep: byte, k: nat): byte
    requires IsAddress(t, sep) && k < 6
  {
    16 * Literal.HexVal(t[3 * k]) + Literal.HexVal(t[3 * k + 1])
  }

  function AddressBytes(t: seq<byte>, sep: byte): (r: seq<byte>)
    requires IsAddress(t, sep)
    ensures |r| == 6 && forall k :: 0 <= k < 6 ==> r[k] == Group(t, sep, k)
  {
    seq(6, k requires 0 <= k < 6 => Group(t, sep, k))
  }

  /** `sscanf` with six `%02x` and a separator, on texts without blanks, signs and `0x`: how many
      values it reads, and which. */
  method ScanSix(t: seq<byte>, sep: byte) returns (v: seq<nat>)
    ensures |v| <= 6
    ensures IsAddress(t, sep) && Literal.HexVal(sep) < 0 ==> v == AddressBytes(t, sep)
    ensures |t| > 2 && Literal.IsHex(t[0]) && Literal.IsHex(t[1]) && t[2] != sep ==> |v| == 1
  {
    v := [];
    var i: nat := 0;
    while |v| < 6
      invariant |v| <= 6 && i <= |t|
      invariant IsAddress(t, sep) && Literal.HexVal(sep) < 0 ==>
                  && i == (if v == [] then 0 else 3 * |v| - 1)
                  && forall k :: 0 <= k < |v| ==> v[k] == Group(t, sep, k)
      invariant |t| > 2 && Literal.IsHex(t[0]) && Literal.IsHex(t[1]) && t[2] != sep ==> |v| <= 1 && i == 2 * |v|
    {
      if |v| > 0 {
        assert IsAddress(t, sep) ==> t[3 * (|v| - 1) + 2] == sep;
        if Peek(t, i) != sep || i == |t| {
          return;
        }
        i := i + 1;
      }
      var high := Literal.HexVal(Peek(t, i));
      if high < 0 {
        return;
      }
      i := i + 1;
      var value: nat := high;
      if Literal.HexVal(Peek(t, i)) >= 0 {
        value := 16 * value + Literal.HexVal(Peek(t, i));
        i := i + 1;
      }
      v := v + [value];
    }
  }

  /** Either separator will do. */
  method ReadAddress(t: seq<byte>) returns (m: Presence.Mac)
    ensures IsAddress(t, COLON) ==> m == Presence.Mac(AddressBytes(t, COLON))
    ensures IsAddress(t, DASH) ==> m == Presence.Mac(AddressBytes(t, DASH))
    ensures m.Mac? ==> |m.bytes| == 6
  {
    assert IsAddress(t, DASH) ==> Literal.IsHex(t[3 * 0]) && Literal.IsHex(t[3 * 0 + 1]) && t[3 * 0 + 2] == DASH;
    var v := ScanSix(t, COLON);
    if |v| != 6 {
      v := ScanSix(t, DASH);
    }
    if |v| != 6 {
      return Presence.NoMac;
    }
    m := Presence.Mac(seq(6, k requires 0 <= k < |v| => v[k] % 256));
  }

  // ----- the command

  const CMD: seq<byte> := Ascii("cmd")
  const MAC: seq<byte> := Ascii("mac")
  const WOL_SEND: seq<byte> := Ascii("wol_send")
  const SHUTDOWN_SEND: seq<byte> := Ascii("shutdown_send")
  const RESET: seq<byte> := Ascii("reset")

  function Decimals(bs: seq<byte>): seq<seq<byte>> {
    if bs == [] then [] else [Numerals.Decimal(bs[0])] + Decimals(bs[1..])
  }

  /** `{"cmd":"wol_send","mac":[%u,%u,%u,%u,%u,%u]}`, and the same with `shutdown_send` */
  function CommandText(cmd: seq<byte>, mac: seq<byte>): seq<byte> {
    Ascii("{\"cmd\":\"") + (cmd + (Ascii("\",\"mac\":[") + (Joined(Decimals(mac)) + Ascii("]}"))))
  }

  function Numbers(bs: seq<byte>): seq<Member> {
    if bs == [] then [] else [Member(NoName, Num(bs[0] as real))] + Numbers(bs[1..])
  }

  function CommandTree(cmd: seq<byte>, mac: seq<byte>): Json {
    Nest(Object, [Member(Name(Ascii("cmd")), Str(cmd)), Member(Name(Ascii("mac")), Nest(List, Numbers(mac)))])
  }

  /** What the server sends on to a device. */
  function OrderText(o: Presence.Order): seq<byte> {
    match o
    case SendWol(mac) => CommandText(WOL_SEND, mac)
    case SendShutdown(mac) => CommandText(SHUTDOWN_SEND, mac)
    case Restart => Ascii("{\"cmd\":\"reset\"}")
  }

  function OrderTree(o: Presence.Order): Json {
    match o
    case SendWol(mac) => CommandTree(Ascii("wol_send"), mac)
    case SendShutdown(mac) => CommandTree(Ascii("shutdown_send"), mac)
    case Restart => Nest(Object, [Member(Name(Ascii("cmd")), Str(Ascii("reset")))])
  }

  function NumberItems(bs: seq<byte>): seq<Entry> {
    if bs == [] then [] else [Item(CNumber(Numerals.IntNumeral(bs[0])))] + NumberItems(bs[1..])
  }

  lemma {:induction false} NumbersRead(bs: seq<byte>)
    ensures WellFormedEntries(List, NumberItems(bs)) && DenoteEntries(List, NumberItems(bs)) == Numbers(bs)
    ensures Texts(NumberItems(bs)) == Decimals(bs) && AllEntrySlots(NumberItems(bs), Plain)
  {
    hide RenderEntry, WellFormedEntry, DenoteEntry, EntrySlots, Numerals.Value, Numerals.Decimal, Numerals.IntNumeral;
    if bs != [] {
      var c := CNumber(Numerals.IntNumeral(bs[0]));
      CountReads(bs[0]);
      ItemReads(c);
      NumbersRead(bs[1..]);
      assert NumberItems(bs)[0] == Item(c) && NumberItems(bs)[1..] == NumberItems(bs[1..]);
    }
  }

  lemma PlainNames()
    ensures Unescaped(CMD) && Unescaped(MAC) && Unescaped(WOL_SEND) && Unescaped(SHUTDOWN_SEND) && Unescaped(RESET)
    ensures WOL_SEND != SHUTDOWN_SEND && WOL_SEND != RESET && SHUTDOWN_SEND != RESET && CMD != MAC
  {
    assert CMD[0] != MAC[0];
  }

  lemma CommandReads(cmd: seq<byte>, mac: seq<byte>)
    requires Unescaped(cmd)
    ensures ParseText(CommandText(cmd, mac), false).Parsed?
         && ParseText(CommandText(cmd, mac), false).value == CommandTree(cmd, mac)
  {
    hide WellFormed, AllSlots, Render, Denote, Object2, Joined, Ascii, Unescaped, Pair, ParseText, Raws, Numbers,
         NumberItems, Decimals, CommandText;
    var name, list := CString(Raws(cmd)), CNest(List, [], NumberItems(mac));
    PlainNames();
    StringReads(cmd);
    ListOfNumbers(mac);
    TwoMembers(CMD, name, MAC, list);
    CommandLayout(cmd, mac);
    MeansPrefix(CNest(Object, [], [Pair(CMD, name), Pair(MAC, list)]));
  }

  /** What the server writes, a JSON parser reads. */
  lemma OrderReads(o: Presence.Order)
    ensures ParseText(OrderText(o), false).Parsed? && ParseText(OrderText(o), false).value == OrderTree(o)
  {
    hide CommandText, Unescaped, ParseText;
    PlainNames();
    match o
    case SendWol(mac) => CommandReads(WOL_SEND, mac);
    case SendShutdown(mac) => CommandReads(SHUTDOWN_SEND, mac);
    case Restart => ResetReads();
  }

  lemma ResetReads()
    ensures ParseText(OrderText(Presence.Restart), false).Parsed?
    ensures ParseText(OrderText(Presence.Restart), false).value == OrderTree(Presence.Restart)
  {
    hide ParseText, Raws, Unescaped, Ascii, Joined;
    var e := Pair(CMD, CString(Raws(RESET)));
    var c := CNest(Object, [], [e]);
    PlainNames();
    StringPair(CMD, RESET);
    SoleEntry(Object, e);
    ResetLayout();
    MeansPrefix(c);
  }

  lemma ResetLayout()
    ensures Ascii("{\"cmd\":\"reset\"}") == [LBRACE] + (PairText(CMD, InQuotes(RESET)) + [RBRACE])
  {
  }

  lemma ListOfNumbers(bs: seq<byte>)
    ensures var c := CNest(List, [], NumberItems(bs));
            && WellFormed(c) && AllSlots(c, Plain) && Denote(c) == Nest(List, Numbers(bs))
            && Render(c) == [LBRACKET] + (Joined(Decimals(bs)) + [RBRACKET])
  {
    hide NumberItems, Texts, RenderEntries, WellFormedEntries, AllEntrySlots, DenoteEntries, Joined;
    NumbersRead(bs);
    NestText(List, NumberItems(bs));
    assert Plain([]);
  }

  lemma CommandLayout(cmd: seq<byte>, mac: seq<byte>)
    ensures CommandText(cmd, mac)
         == Object2(CMD, InQuotes(cmd), MAC, [LBRACKET] + (Joined(Decimals(mac)) + [RBRACKET]))
  {
    hide Joined, Decimals, Ascii, Object2;
    Chunks();
    var numbers := Joined(Decimals(mac));
    Layout2(CMD, InQuotes(cmd), MAC, [LBRACKET] + (numbers + [RBRACKET]));
    Regroup([LBRACE, QUOTE] + (CMD + [QUOTE, COLON]), cmd, [COMMA, QUOTE] + (MAC + [QUOTE, COLON]), numbers);
  }

  lemma Chunks()
    ensures Ascii("{\"cmd\":\"") == ([LBRACE, QUOTE] + (CMD + [QUOTE, COLON])) + [QUOTE]
    ensures Ascii("\",\"mac\":[") == [QUOTE] + (([COMMA, QUOTE] + (MAC + [QUOTE, COLON])) + [LBRACKET])
    ensures Ascii("]}") == [RBRACKET, RBRACE]
  {
  }

  lemma Regroup(a: seq<byte>, b: seq<byte>, c: seq<byte>, n: seq<byte>)
    ensures (a + [QUOTE]) + (b + (([QUOTE] + (c + [LBRACKET])) + (n + [RBRACKET, RBRACE])))
         == a + (([QUOTE] + (b + [QUOTE])) + (c + (([LBRACKET] + (n + [RBRACKET])) + [RBRACE])))
  {
  }

  // ----- the packet

  const PACKET: nat := 0x6C

  function Repeated(s: seq<byte>, n: nat): seq<byte> { if n == 0 then [] else s + Repeated(s, n - 1) }

  /** The magic packet: six 0xFF, the address sixteen times, and six zeros. */
  function Magic(mac: seq<byte>): seq<byte> {
    Repeated([0xFF], 6) + (Repeated(mac, 16) + Repeated([0], 6))
  }

  lemma {:induction false} RepeatedAt(s: seq<byte>, n: nat, k: nat, j: nat)
    requires k < n && j < |s|
    ensures k * |s| + j < |Repeated(s, n)| && Repeated(s, n)[k * |s| + j] == s[j]
    decreases n
  {
    if k > 0 {
      RepeatedAt(s, n - 1, k - 1, j);
      assert k * |s| == (k - 1) * |s| + |s|;
    }
  }

  lemma {:induction false} RepeatedLength(s: seq<byte>, n: nat)
    ensures |Repeated(s, n)| == n * |s|
  {
    if n > 0 {
      RepeatedLength(s, n - 1);
      assert n * |s| == |s| + (n - 1) * |s|;
    }
  }

  method FillPacket(packet: array<byte>, mac: array<byte>)
    requires mac.Length == 6 && packet.Length == PACKET && packet != mac
    modifies packet
    ensures packet[..] == Magic(mac[..])
  {
    for i := 0 to PACKET
      invariant forall k :: 0 <= k < i ==> packet[k] == 0
    {
      packet[i] := 0;
    }
    packet[0], packet[1], packet[2], packet[3], packet[4], packet[5] := 0xFF, 0xFF, 0xFF, 0xFF, 0xFF, 0xFF;
    for i := 0x6 to 0x66
      invariant forall k :: 0 <= k < 6 ==> packet[k] == 0xFF
      invariant forall k :: 6 <= k < i ==> packet[k] == mac[(k - 6) % 6]
      invariant forall k :: i <= k < PACKET ==> packet[k] == 0
    {
      packet[i] := mac[(i - 0x6) % 0x6];
    }
    MagicAt(mac[..]);
    assert packet[..] == Magic(mac[..]);
  }

  lemma MagicAt(mac: seq<byte>)
    requires |mac| == 6
    ensures |Magic(mac)| == PACKET
    ensures forall k :: 0 <= k < 6 ==> Magic(mac)[k] == 0xFF
    ensures forall k :: 6 <= k < 0x66 ==> Magic(mac)[k] == mac[(k - 6) % 6]
    ensures forall k :: 0x66 <= k < PACKET ==> Magic(mac)[k] == 0
  {
    RepeatedLength([0xFF], 6);
    RepeatedLength(mac, 16);
    RepeatedLength([0], 6);
    forall k | 0 <= k < 6 ensures Repeated([0xFF], 6)[k] == 0xFF && Repeated([0], 6)[k] == 0 {
      RepeatedAt([0xFF], 6, k, 0);
      RepeatedAt([0], 6, k, 0);
    }
    forall k | 0 <= k < 96 ensures Repeated(mac, 16)[k] == mac[k % 6] { RepeatedAt(mac, 16, k / 6, k % 6); }
  }
}
