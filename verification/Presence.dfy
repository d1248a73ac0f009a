/** The server's table of clients as a state machine: what an accepted connection, a closed one, a
    message and a turn of the main loop do to it, and how long a client stays. Times are microseconds
    of the server's clock. */
module Presence {
  import opened CText
  import Epolls

  datatype Client = Client(enable: bool, esp8266: bool, timestamp: int,
                           key: seq<byte>, ssid: seq<byte>, lanIp: seq<byte>, globalIp: seq<byte>)

  /** A message by its `cmd`; a member that is missing reads as an empty string. `Unknown` is any other
      text, `mac` is what `sscanf` makes of an address. */
  datatype Command =
    | Response
    | Bind(key: seq<byte>, ssid: seq<byte>, ip: seq<byte>)
    | ClientList
    | Wol(key: seq<byte>, mac: Mac)
    | Shutdown(key: seq<byte>, mac: Mac)
    | Warn
    | Reset(key: seq<byte>)
    | Beat
    | Unknown

  datatype Mac = NoMac | Mac(bytes: seq<byte>)

  datatype Event =
    | Tick(at: int)
    | Accept(at: int, fd: nat, added: bool, ip: seq<byte>)
    | Hangup(at: int, fd: nat)
    | Message(at: int, fd: nat, command: Command)

  /** `due` is `timestamp_checktimeout`. */
  datatype Table = Table(slots: seq<Client>, due: int)

  const SLOTS: nat := Epolls.LIMIT
  const SECOND: int := 1_000_000
  const LIFETIME: int := 10 * SECOND

  predicate Proper(t: Table, listen: nat) {
    |t.slots| == SLOTS && listen < SLOTS && !t.slots[listen].enable
  }

  predicate Enabled(t: Table, fd: nat) { fd < |t.slots| && t.slots[fd].enable }

  /** A connected device that has bound itself to a key. */
  predicate BoundTo(c: Client, key: seq<byte>) { c.enable && c.esp8266 && c.key == key }

  /** The first slot, from `i` on, of such a device; SLOTS if there is none. */
  function Bound(slots: seq<Client>, key: seq<byte>, i: nat): (r: nat)
    requires i <= |slots|
    ensures i <= r <= |slots|
    ensures r < |slots| ==> BoundTo(slots[r], key)
    ensures forall k :: i <= k < r ==> !BoundTo(slots[k], key)
    decreases |slots| - i
  {
    if i == |slots| || BoundTo(slots[i], key) then i else Bound(slots, key, i + 1)
  }

  predicate Reachable(slots: seq<Client>, key: seq<byte>) { key != [] && Bound(slots, key, 0) < |slots| }

  /** Whether the reply says `true`: the message then also counts as a sign of life. */
  predicate Status(slots: seq<Client>, c: Command) {
    match c
    case Bind(key, ssid, ip) => key != [] && ssid != [] && ip != []
    case ClientList => true
    case Wol(key, mac) => mac.Mac? && Reachable(slots, key)
    case Shutdown(key, mac) => mac.Mac? && Reachable(slots, key)
    case Reset(key) => Reachable(slots, key)
    case Beat => true
    case _ => false
  }

  /** What is sent on to a device. */
  datatype Order = SendWol(mac: seq<byte>) | SendShutdown(mac: seq<byte>) | Restart

  /** An order for the connection `fd`, or a notice about a key for the service on the warning port. */
  datatype Dispatch = Forward(fd: nat, order: Order) | Notice(key: seq<byte>)

  /** What is sent beside the reply to a message from `fd`. */
  function Outgoing(slots: seq<Client>, fd: nat, c: Command, warnPort: nat): seq<Dispatch>
    requires fd < |slots|
  {
    match c
    case Wol(key, mac) => if mac.Mac? && Reachable(slots, key) then [Forward(Bound(slots, key, 0), SendWol(mac.bytes))] else []
    case Shutdown(key, mac) =>
      if mac.Mac? && Reachable(slots, key) then [Forward(Bound(slots, key, 0), SendShutdown(mac.bytes))] else []
    case Reset(key) => if Reachable(slots, key) then [Forward(Bound(slots, key, 0), Restart)] else []
    case Warn => if slots[fd].enable && slots[fd].esp8266 && 0 < warnPort then [Notice(slots[fd].key)] else []
    case _ => []
  }

  /** The reply: none to a response, and otherwise a status, with the list of clients if that was asked for. */
  datatype Reply = NoReply | Reply(status: bool, listed: bool)

  function ReplyTo(slots: seq<Client>, c: Command): Reply {
    if c.Response? then NoReply else Reply(Status(slots, c), c.ClientList?)
  }

  /** An order is answered with true exactly if some connected device has bound itself to its key, which
      is not empty, and its address can be read; and then it is sent on once, to the first such device. */
  lemma OrdersReachTheirDevice(slots: seq<Client>, fd: nat, c: Command, warnPort: nat)
    requires fd < |slots| && (c.Wol? || c.Shutdown? || c.Reset?)
    ensures Status(slots, c) <==>
              c.key != [] && (c.Reset? || c.mac.Mac?) && exists k :: 0 <= k < |slots| && BoundTo(slots[k], c.key)
    ensures Status(slots, c) ==>
              exists k :: 0 <= k < |slots| && BoundTo(slots[k], c.key) && (forall j :: 0 <= j < k ==> !BoundTo(slots[j], c.key))
                && Outgoing(slots, fd, c, warnPort)
                   == [Forward(k, if c.Wol? then SendWol(c.mac.bytes)
                                  else if c.Shutdown? then SendShutdown(c.mac.bytes) else Restart)]
    ensures !Status(slots, c) ==> Outgoing(slots, fd, c, warnPort) == []
  {
    var k := Bound(slots, c.key, 0);
    assert k < |slots| ==> BoundTo(slots[k], c.key);
    assert forall j :: 0 <= j < k ==> !BoundTo(slots[j], c.key);
  }

  /** `snprintf` into a field of `size` bytes. */
  function Cut(s: seq<byte>, size: nat): (r: seq<byte>)
    requires size > 0
    ensures |r| < size && r <= s && (|s| < size ==> r == s)
  {
    if |s| < size then s else s[..size - 1]
  }

  function Told(client: Client, c: Command): Client {
    if c.Bind? && c.key != [] && c.ssid != [] && c.ip != [] then
      client.(esp8266 := true, key := Cut(c.key, 16), ssid := Cut(c.ssid, 32), lanIp := Cut(c.ip, 16))
    else client
  }

  predicate Expired(c: Client, now: int) { c.enable && c.timestamp < now }

  function SweepOne(c: Client, now: int): Client {
    if Expired(c, now) then c.(enable := false, timestamp := 0) else c
  }

  function Sweep(slots: seq<Client>, now: int): (r: seq<Client>)
    ensures |r| == |slots| && forall i :: 0 <= i < |slots| ==> r[i] == SweepOne(slots[i], now)
  {
    seq(|slots|, i requires 0 <= i < |slots| => SweepOne(slots[i], now))
  }

  function NewClient(at: int, ip: seq<byte>): Client {
    Client(true, false, at + LIFETIME, [], [], [], Cut(ip, 16))
  }

  function Put(t: Table, fd: nat, c: Client): Table
    requires fd < |t.slots|
  {
    t.(slots := t.slots[fd := c])
  }

  /** What can happen next: the kernel gives a new connection a descriptor that is not in use, and
      reports events of registered descriptors only. */
  predicate Possible(t: Table, listen: nat, e: Event) {
    match e
    case Tick(_) => true
    case Accept(_, fd, _, _) => fd < |t.slots| && fd != listen && !t.slots[fd].enable
    case Hangup(_, fd) => Enabled(t, fd)
    case Message(_, fd, _) => Enabled(t, fd)
  }

  function Step(t: Table, e: Event): (r: Table)
    requires e.Tick? || e.fd < |t.slots|
    ensures |r.slots| == |t.slots|
  {
    match e
    case Tick(now) => if t.due < now then Table(Sweep(t.slots, now), now + LIFETIME) else t
    case Accept(at, fd, added, ip) => if added then Put(t, fd, NewClient(at, ip)) else t
    case Hangup(_, fd) => Put(t, fd, t.slots[fd].(enable := false))
    case Message(at, fd, c) =>
      var told := Put(t, fd, Told(t.slots[fd], c));
      if Status(told.slots, c) then Put(told, fd, told.slots[fd].(timestamp := at + LIFETIME)) else told
  }

  /** A whole run, every step of which is possible. */
  predicate Runs(t: Table, listen: nat, es: seq<Event>)
    requires Proper(t, listen)
    decreases |es|
  {
    es != [] ==>
      && Possible(t, listen, es[0])
      && Proper(Step(t, es[0]), listen) && Runs(Step(t, es[0]), listen, es[1..])
  }

  function Run(t: Table, listen: nat, es: seq<Event>): (r: Table)
    requires Proper(t, listen) && Runs(t, listen, es)
    ensures Proper(r, listen)
    decreases |es|
  {
    if es == [] then t else Run(Step(t, es[0]), listen, es[1..])
  }

  /** The table stays proper by itself, so `Runs` only asks that each step be possible. */
  lemma StepProper(t: Table, listen: nat, e: Event)
    requires Proper(t, listen) && Possible(t, listen, e)
    ensures Proper(Step(t, e), listen)
  {
  }

  /** A run goes on with one more possible step. */
  lemma {:induction false} RunOn(t: Table, listen: nat, es: seq<Event>, e: Event)
    requires Proper(t, listen) && Runs(t, listen, es) && Possible(Run(t, listen, es), listen, e)
    ensures Runs(t, listen, es + [e]) && Run(t, listen, es + [e]) == Step(Run(t, listen, es), e)
    decreases |es|
  {
    StepProper(Run(t, listen, es), listen, e);
    if es == [] {
      assert ([] + [e])[1..] == [];
    } else {
      assert (es + [e])[1..] == es[1..] + [e];
      RunOn(Step(t, es[0]), listen, es[1..], e);
    }
  }

  /** The table after the first `i` steps of a run. */
  function TableAt(t: Table, listen: nat, es: seq<Event>, i: nat): (r: Table)
    requires Proper(t, listen) && Runs(t, listen, es) && i <= |es|
    ensures Proper(r, listen)
    decreases i
  {
    if i == 0 then t else TableAt(Step(t, es[0]), listen, es[1..], i - 1)
  }

  lemma {:induction false} StepAt(t: Table, listen: nat, es: seq<Event>, i: nat)
    requires Proper(t, listen) && Runs(t, listen, es) && i < |es|
    ensures Possible(TableAt(t, listen, es, i), listen, es[i])
    ensures TableAt(t, listen, es, i + 1) == Step(TableAt(t, listen, es, i), es[i])
    decreases i
  {
    hide Step;
    if i > 0 { StepAt(Step(t, es[0]), listen, es[1..], i - 1); }
  }

  lemma {:induction false} TableAtEnd(t: Table, listen: nat, es: seq<Event>)
    requires Proper(t, listen) && Runs(t, listen, es)
    ensures TableAt(t, listen, es, |es|) == Run(t, listen, es)
    decreases |es|
  {
    hide Step;
    if es != [] { TableAtEnd(Step(t, es[0]), listen, es[1..]); }
  }

  // ----- what arrives, and what happens

  /** What the server finds when it looks: `granted` is whether the kernel takes the descriptor in. */
  datatype Arrival =
    | Connection(at: int, fd: nat, ip: seq<byte>, granted: bool)
    | Closed(at: int, fd: nat)
    | Text(at: int, fd: nat, command: Command)

  datatype Turn = Turn(now: int, arrivals: seq<Arrival>)

  function EventOf(a: Arrival): Event {
    match a
    case Connection(at, fd, ip, granted) => Accept(at, fd, granted, ip)
    case Closed(at, fd) => Hangup(at, fd)
    case Text(at, fd, c) => Message(at, fd, c)
  }

  function EventsOf(arrivals: seq<Arrival>): (es: seq<Event>)
    ensures |es| == |arrivals|
  {
    seq(|arrivals|, i requires 0 <= i < |arrivals| => EventOf(arrivals[i]))
  }

  /** The turns of the main loop, in order: the look at the clock and then each arrival. */
  function Reports(turns: seq<Turn>): seq<Event> {
    if turns == [] then [] else
      Reports(turns[..|turns| - 1]) + [Tick(turns[|turns| - 1].now)] + EventsOf(turns[|turns| - 1].arrivals)
  }

  /** The kernel says nothing about a descriptor that is not registered, and gives a connection one
      that is not in use: what is reported happens if it is possible then. */
  function Happened(t: Table, listen: nat, reports: seq<Event>): (es: seq<Event>)
    requires Proper(t, listen)
    ensures Runs(t, listen, es)
    decreases |reports|
  {
    if reports == [] then []
    else if Possible(t, listen, reports[0]) then
      StepProper(t, listen, reports[0]);
      var rest := Happened(Step(t, reports[0]), listen, reports[1..]);
      assert ([reports[0]] + rest)[1..] == rest;
      [reports[0]] + rest
    else Happened(t, listen, reports[1..])
  }

  /** One report more. */
  lemma {:induction false} HappenedOn(t: Table, listen: nat, reports: seq<Event>, e: Event)
    requires Proper(t, listen)
    ensures var es := Happened(t, listen, reports);
            Happened(t, listen, reports + [e]) == if Possible(Run(t, listen, es), listen, e) then es + [e] else es
    decreases |reports|
  {
    hide Step;
    if reports == [] {
      assert ([] + [e])[1..] == [];
    } else {
      assert (reports + [e])[1..] == reports[1..] + [e] && (reports + [e])[0] == reports[0];
      if Possible(t, listen, reports[0]) {
        StepProper(t, listen, reports[0]);
        HappenedOn(Step(t, reports[0]), listen, reports[1..], e);
        var es := Happened(Step(t, reports[0]), listen, reports[1..]);
        assert ([reports[0]] + es)[1..] == es && [reports[0]] + (es + [e]) == ([reports[0]] + es) + [e];
      } else {
        HappenedOn(t, listen, reports[1..], e);
      }
    }
  }

  // ----- the clock

  predicate InOrder(es: seq<Event>, from: int) {
    && (forall i :: 0 <= i < |es| ==> from <= es[i].at)
    && (forall i, j :: 0 <= i < j < |es| ==> es[i].at <= es[j].at)
  }

  /** The main loop comes round at least every `gap`. */
  predicate TurnsWithin(es: seq<Event>, from: int, gap: int) {
    forall i :: 0 <= i < |es| && es[i].at >= from + gap ==>
      exists k :: 0 <= k <= i && es[k].Tick? && es[k].at > es[i].at - gap
  }

  /** Time does not go back, and nothing is as much as `gap` after the turn it belongs to; `turn` is
      when the present one began. */
  predicate Paced(es: seq<Event>, from: int, turn: int, gap: int) {
    es != [] ==>
      var start := if es[0].Tick? then es[0].at else turn;
      from <= es[0].at < start + gap && Paced(es[1..], es[0].at, start, gap)
  }

  predicate Timely(turns: seq<Turn>, from: int, gap: int) { gap > 0 && Paced(Reports(turns), from, from, gap) }

  lemma {:induction false} PacedSooner(es: seq<Event>, from: int, sooner: int, turn: int, gap: int)
    requires Paced(es, from, turn, gap) && sooner <= from
    ensures Paced(es, sooner, turn, gap)
  {
  }

  /** What happens keeps the pace of what is reported: every turn is possible. */
  lemma {:induction false} HappenedPaced(t: Table, listen: nat, reports: seq<Event>, from: int, turn: int, gap: int)
    requires Proper(t, listen) && Paced(reports, from, turn, gap)
    ensures Paced(Happened(t, listen, reports), from, turn, gap)
    decreases |reports|
  {
    hide Step;
    if reports != [] {
      var start := if reports[0].Tick? then reports[0].at else turn;
      if Possible(t, listen, reports[0]) {
        StepProper(t, listen, reports[0]);
        var es := Happened(Step(t, reports[0]), listen, reports[1..]);
        HappenedPaced(Step(t, reports[0]), listen, reports[1..], reports[0].at, start, gap);
        assert ([reports[0]] + es)[1..] == es;
      } else {
        HappenedPaced(t, listen, reports[1..], reports[0].at, start, gap);
        PacedSooner(Happened(t, listen, reports[1..]), reports[0].at, from, turn, gap);
      }
    }
  }

  lemma {:induction false} PacedAt(es: seq<Event>, from: int, turn: int, gap: int, i: nat) returns (k: nat)
    requires Paced(es, from, turn, gap) && i < |es|
    ensures from <= es[i].at && (i > 0 ==> es[i - 1].at <= es[i].at)
    ensures es[i].at >= turn + gap ==> k <= i && es[k].Tick? && es[k].at > es[i].at - gap
    decreases i
  {
    k := 0;
    if i > 0 {
      var start := if es[0].Tick? then es[0].at else turn;
      var l := PacedAt(es[1..], es[0].at, start, gap, i - 1);
      if es[i].at >= start + gap { k := l + 1; }
    }
  }

  lemma {:induction false} OrderedFrom(es: seq<Event>, i: nat, j: nat)
    requires i <= j < |es| && forall k :: 0 < k < |es| ==> es[k - 1].at <= es[k].at
    ensures es[i].at <= es[j].at
    decreases j
  {
    if i < j { OrderedFrom(es, i, j - 1); }
  }

  lemma PacedIsInOrder(es: seq<Event>, from: int, gap: int)
    requires Paced(es, from, from, gap)
    ensures InOrder(es, from) && TurnsWithin(es, from, gap)
  {
    forall i | 0 <= i < |es|
      ensures from <= es[i].at && (i > 0 ==> es[i - 1].at <= es[i].at)
      ensures es[i].at >= from + gap ==> exists k :: 0 <= k <= i && es[k].Tick? && es[k].at > es[i].at - gap
    {
      var _ := PacedAt(es, from, from, gap, i);
    }
    forall i, j | 0 <= i < j < |es| ensures es[i].at <= es[j].at { OrderedFrom(es, i, j); }
  }

  // ----- how long a client stays

  predicate NoHangup(es: seq<Event>, fd: nat, i: nat, j: nat)
    requires i <= j <= |es|
  {
    forall k :: i <= k < j ==> !(es[k].Hangup? && es[k].fd == fd)
  }

  /** A sign of life: the connection is accepted, or a message is answered with `true`. */
  predicate Refreshes(t: Table, e: Event, fd: nat) {
    match e
    case Accept(_, f, added, _) => f == fd && added
    case Message(_, f, c) => f == fd && f < |t.slots| && Status(Put(t, f, Told(t.slots[f], c)).slots, c)
    case _ => false
  }

  /** No sign of life from step `i` up to step `j`. */
  ghost predicate Silent(t: Table, listen: nat, es: seq<Event>, fd: nat, i: nat, j: nat)
    requires Proper(t, listen) && Runs(t, listen, es) && i <= j <= |es|
  {
    forall k :: i <= k < j ==> !Refreshes(TableAt(t, listen, es, k), es[k], fd)
  }

  /** The client's deadline is at least `LIFETIME` after `T`. */
  predicate AliveSince(t: Table, fd: nat, T: int) { Enabled(t, fd) && t.slots[fd].timestamp >= T + LIFETIME }

  lemma StaysOneStep(t: Table, listen: nat, e: Event, fd: nat, T: int)
    requires Proper(t, listen) && Possible(t, listen, e) && AliveSince(t, fd, T)
    requires T <= e.at <= T + LIFETIME && !(e.Hangup? && e.fd == fd)
    ensures AliveSince(Step(t, e), fd, T)
  {
  }

  /** A client refreshed at `T` or later is still there at `T` + 10 s unless it closes. */
  lemma {:induction false} Stays(t: Table, listen: nat, es: seq<Event>, fd: nat, T: int, i: nat, j: nat)
    requires Proper(t, listen) && Runs(t, listen, es) && i <= j <= |es|
    requires AliveSince(TableAt(t, listen, es, i), fd, T)
    requires (forall k :: i <= k < j ==> T <= es[k].at <= T + LIFETIME) && NoHangup(es, fd, i, j)
    ensures AliveSince(TableAt(t, listen, es, j), fd, T)
    decreases j
  {
    hide AliveSince, Step, Possible;
    if i < j {
      Stays(t, listen, es, fd, T, i, j - 1);
      StepAt(t, listen, es, j - 1);
      StaysOneStep(TableAt(t, listen, es, j - 1), listen, es[j - 1], fd, T);
    }
  }

  lemma RefreshedStep(t: Table, listen: nat, e: Event, fd: nat)
    requires Proper(t, listen) && Possible(t, listen, e) && Refreshes(t, e, fd)
    ensures AliveSince(Step(t, e), fd, e.at)
  {
  }

  /** Whoever gives a sign of life is still there 10 s later unless it closes. */
  ghost predicate RefreshedStay(t: Table, listen: nat, es: seq<Event>)
    requires Proper(t, listen) && Runs(t, listen, es)
  {
    forall fd: nat, i: nat, j: nat | i < j <= |es| && Refreshes(TableAt(t, listen, es, i), es[i], fd)
      && es[j - 1].at <= es[i].at + LIFETIME && NoHangup(es, fd, i, j) ::
      AliveSince(TableAt(t, listen, es, j), fd, es[i].at)
  }

  lemma AllRefreshedStay(t: Table, listen: nat, es: seq<Event>, from: int)
    requires Proper(t, listen) && Runs(t, listen, es) && InOrder(es, from)
    ensures RefreshedStay(t, listen, es)
  {
    hide AliveSince, Step, Possible, Refreshes;
    forall fd: nat, i: nat, j: nat | i < j <= |es| && Refreshes(TableAt(t, listen, es, i), es[i], fd)
      && es[j - 1].at <= es[i].at + LIFETIME && NoHangup(es, fd, i, j)
      ensures AliveSince(TableAt(t, listen, es, j), fd, es[i].at)
    {
      StepAt(t, listen, es, i);
      RefreshedStep(TableAt(t, listen, es, i), listen, es[i], fd);
      Stays(t, listen, es, fd, es[i].at, i + 1, j);
    }
  }

  /** No deadline is more than 10 s away at time `T`, neither a client's nor that of the sweep. */
  predicate Settled(t: Table, T: int) {
    t.due <= T + LIFETIME && forall fd :: 0 <= fd < |t.slots| && t.slots[fd].enable ==> t.slots[fd].timestamp <= T + LIFETIME
  }

  /** The time of the last step before the i-th. */
  function TimeAt(es: seq<Event>, from: int, i: nat): int
    requires i <= |es|
  {
    if i == 0 then from else es[i - 1].at
  }

  lemma {:induction false} SettledAt(t: Table, listen: nat, es: seq<Event>, from: int, i: nat)
    requires Proper(t, listen) && Runs(t, listen, es) && InOrder(es, from) && Settled(t, from) && i <= |es|
    ensures Settled(TableAt(t, listen, es, i), TimeAt(es, from, i))
    decreases i
  {
    if i > 0 {
      SettledAt(t, listen, es, from, i - 1);
      hide Step, Possible;
      StepAt(t, listen, es, i - 1);
      SettledStep(TableAt(t, listen, es, i - 1), listen, es[i - 1], TimeAt(es, from, i - 1));
    }
  }

  lemma SettledStep(t: Table, listen: nat, e: Event, T: int)
    requires Possible(t, listen, e) && Settled(t, T) && T <= e.at
    ensures Settled(Step(t, e), e.at)
  {
  }

  /** Not there, or last refreshed at `T` or before, with a sweep due within 20 s of `T`. */
  predicate FadingSince(t: Table, fd: nat, T: int) {
    !Enabled(t, fd) || (t.slots[fd].timestamp <= T + LIFETIME && t.due <= T + 2 * LIFETIME)
  }

  lemma FadesOneStep(t: Table, listen: nat, e: Event, fd: nat, T: int)
    requires Proper(t, listen) && Possible(t, listen, e) && FadingSince(t, fd, T) && !Refreshes(t, e, fd)
    ensures FadingSince(Step(t, e), fd, T)
    ensures !Enabled(t, fd) || (e.Tick? && e.at > T + 2 * LIFETIME) ==> !Enabled(Step(t, e), fd)
  {
  }

  /** A turn of the main loop later than `T` + 20 s finds the client gone or removes it. */
  lemma {:induction false} Fades(t: Table, listen: nat, es: seq<Event>, fd: nat, T: int, i: nat, j: nat, k: nat)
    requires Proper(t, listen) && Runs(t, listen, es) && i <= j <= |es| && Silent(t, listen, es, fd, i, j)
    requires FadingSince(TableAt(t, listen, es, i), fd, T)
    ensures FadingSince(TableAt(t, listen, es, j), fd, T)
    ensures i <= k < j && es[k].Tick? && es[k].at > T + 2 * LIFETIME ==> !Enabled(TableAt(t, listen, es, j), fd)
    decreases j
  {
    hide FadingSince, Enabled, Step, Possible, Refreshes;
    if i < j {
      Fades(t, listen, es, fd, T, i, j - 1, k);
      StepAt(t, listen, es, j - 1);
      FadesOneStep(TableAt(t, listen, es, j - 1), listen, es[j - 1], fd, T);
    }
  }

  /** A client that gives no sign of life from step `i` on is gone once more than 20 s and the longest
      turn of the main loop have passed. */
  lemma Gone(t: Table, listen: nat, es: seq<Event>, from: int, gap: int, fd: nat, i: nat, j: nat)
    requires Proper(t, listen) && Runs(t, listen, es) && i < j <= |es| && Silent(t, listen, es, fd, i, j)
    requires gap > 0 && InOrder(es, from) && TurnsWithin(es, from, gap) && Settled(t, from)
    requires es[j - 1].at >= TimeAt(es, from, i) + 2 * LIFETIME + gap
    ensures !Enabled(TableAt(t, listen, es, j), fd)
  {
    var T := TimeAt(es, from, i);
    SettledAt(t, listen, es, from, i);
    assert es[j - 1].at >= from + gap;
    assert forall m :: 0 <= m < i ==> es[m].at <= T;
    var k :| 0 <= k <= j - 1 && es[k].Tick? && es[k].at > es[j - 1].at - gap;
    Fades(t, listen, es, fd, T, i, j, k);
  }

  ghost predicate SilentGo(t: Table, listen: nat, es: seq<Event>, from: int, gap: int)
    requires Proper(t, listen) && Runs(t, listen, es)
  {
    forall fd: nat, i: nat, j: nat | i < j <= |es| && Silent(t, listen, es, fd, i, j)
      && es[j - 1].at >= TimeAt(es, from, i) + 2 * LIFETIME + gap ::
      !Enabled(TableAt(t, listen, es, j), fd)
  }

  /** What that means for the table as it is after the run. */
  ghost predicate UpToDate(t: Table, listen: nat, es: seq<Event>, now: Table, from: int, gap: int)
    requires Proper(t, listen) && Runs(t, listen, es)
  {
    forall fd: nat, i: nat | i < |es| ::
      var until := es[|es| - 1].at;
      && (Refreshes(TableAt(t, listen, es, i), es[i], fd) && until <= es[i].at + LIFETIME && NoHangup(es, fd, i, |es|) ==>
            AliveSince(now, fd, es[i].at))
      && (Silent(t, listen, es, fd, i, |es|) && until >= TimeAt(es, from, i) + 2 * LIFETIME + gap ==> !Enabled(now, fd))
  }

  lemma AtTheEnd(t: Table, listen: nat, es: seq<Event>, from: int, gap: int)
    requires Proper(t, listen) && Runs(t, listen, es)
    requires RefreshedStay(t, listen, es) && SilentGo(t, listen, es, from, gap)
    ensures UpToDate(t, listen, es, Run(t, listen, es), from, gap)
  {
    hide Step, Possible, Refreshes, Enabled, AliveSince, Run, Runs, TableAt, Silent, NoHangup;
    TableAtEnd(t, listen, es);
  }

  /** So it is for whatever the turns of the main loop bring, if they are timely: signs of life keep
      a client for 10 s, silence ends it after 20 s and a turn. */
  lemma TurnsKeepAndRemove(t: Table, listen: nat, turns: seq<Turn>, from: int, gap: int)
    requires Proper(t, listen) && Timely(turns, from, gap) && Settled(t, from)
    ensures var es := Happened(t, listen, Reports(turns));
            && RefreshedStay(t, listen, es) && SilentGo(t, listen, es, from, gap)
            && UpToDate(t, listen, es, Run(t, listen, es), from, gap)
  {
    var es := Happened(t, listen, Reports(turns));
    HappenedPaced(t, listen, Reports(turns), from, from, gap);
    PacedIsInOrder(es, from, gap);
    AllRefreshedStay(t, listen, es, from);
    hide Step, Possible, Refreshes, Enabled, Settled, TurnsWithin;
    forall fd: nat, i: nat, j: nat | i < j <= |es| && Silent(t, listen, es, fd, i, j)
      && es[j - 1].at >= TimeAt(es, from, i) + 2 * LIFETIME + gap
      ensures !Enabled(TableAt(t, listen, es, j), fd)
    {
      Gone(t, listen, es, from, gap, fd, i, j);
    }
    AtTheEnd(t, listen, es, from, gap);
  }

  // ----- what the fields of a connected client hold

  /** Each field holds what its buffer has room for. */
  predicate Fits(c: Client) { |c.key| < 16 && |c.ssid| < 32 && |c.lanIp| < 16 && |c.globalIp| < 16 }

  predicate AllFit(slots: seq<Client>) { forall i :: 0 <= i < |slots| && slots[i].enable ==> Fits(slots[i]) }

  lemma FitsStep(t: Table, listen: nat, e: Event)
    requires AllFit(t.slots) && Possible(t, listen, e)
    ensures AllFit(Step(t, e).slots)
  {
  }

  /** So it stays in every run. */
  lemma {:induction false} FitsRun(t: Table, listen: nat, es: seq<Event>)
    requires Proper(t, listen) && Runs(t, listen, es) && AllFit(t.slots)
    ensures AllFit(Run(t, listen, es).slots)
    decreases |es|
  {
    hide Step;
    if es != [] {
      FitsStep(t, listen, es[0]);
      FitsRun(Step(t, es[0]), listen, es[1..]);
    }
  }
}
