/** What the server knows of a connection, over whole runs: the address it came from, the key, network
    and address it bound itself with, and so which orders it gets. */
module Bindings {
  import opened CText
  import opened Presence

  /** The connection is there all along, from after step `i` to before step `j`, and does not bind itself again. */
  ghost predicate StaysBound(t: Table, listen: nat, es: seq<Event>, fd: nat, i: nat, j: nat)
    requires Proper(t, listen) && Runs(t, listen, es) && i < j <= |es|
  {
    && (forall k :: i < k < j ==> !(es[k].Message? && es[k].fd == fd && es[k].command.Bind?))
    && (forall k :: i < k <= j ==> Enabled(TableAt(t, listen, es, k), fd))
  }

  lemma SameStep(t: Table, listen: nat, e: Event, fd: nat)
    requires Possible(t, listen, e) && Enabled(t, fd) && Enabled(Step(t, e), fd)
    requires !(e.Message? && e.fd == fd && e.command.Bind?)
    ensures Step(t, e).slots[fd] == t.slots[fd].(timestamp := Step(t, e).slots[fd].timestamp)
  {
  }

  /** Meanwhile only its deadline moves. */
  lemma {:induction false} OnlyDeadlineMoves(t: Table, listen: nat, es: seq<Event>, fd: nat, i: nat, j: nat)
    requires Proper(t, listen) && Runs(t, listen, es) && i < j <= |es| && StaysBound(t, listen, es, fd, i, j)
    ensures var was, now := TableAt(t, listen, es, i + 1).slots, TableAt(t, listen, es, j).slots;
            fd < |was| && fd < |now| && now[fd] == was[fd].(timestamp := now[fd].timestamp)
    decreases j
  {
    hide Step, Possible;
    if i + 1 < j {
      OnlyDeadlineMoves(t, listen, es, fd, i, j - 1);
      StepAt(t, listen, es, j - 1);
      SameStep(TableAt(t, listen, es, j - 1), listen, es[j - 1], fd);
    }
  }

  /** A bind whose fields are there and fit their buffers. */
  predicate IsBind(e: Event, fd: nat, key: seq<byte>, ssid: seq<byte>, ip: seq<byte>) {
    && e.Message? && e.fd == fd && e.command == Bind(key, ssid, ip)
    && 0 < |key| < 16 && 0 < |ssid| < 32 && 0 < |ip| < 16
  }

  lemma BindStep(t: Table, listen: nat, e: Event, fd: nat, key: seq<byte>, ssid: seq<byte>, ip: seq<byte>)
    requires Possible(t, listen, e) && IsBind(e, fd, key, ssid, ip)
    ensures var c := Step(t, e).slots[fd];
            && BoundTo(c, key) && c.ssid == ssid && c.lanIp == ip && c.globalIp == t.slots[fd].globalIp
            && c.timestamp == e.at + 10_000_000
    ensures forall k :: 0 <= k < |t.slots| && k != fd ==> Step(t, e).slots[k] == t.slots[k]
  {
  }

  /** A connection that binds itself is bound to its key, with the network and address it gave, for as
      long as it is there and does not bind itself again. */
  lemma BindLasts(t: Table, listen: nat, es: seq<Event>, fd: nat, i: nat, j: nat,
                  key: seq<byte>, ssid: seq<byte>, ip: seq<byte>)
    requires Proper(t, listen) && Runs(t, listen, es) && i < j <= |es|
    requires IsBind(es[i], fd, key, ssid, ip) && StaysBound(t, listen, es, fd, i, j)
    ensures fd < |TableAt(t, listen, es, j).slots|
    ensures var c := TableAt(t, listen, es, j).slots[fd]; BoundTo(c, key) && c.ssid == ssid && c.lanIp == ip
  {
    hide Step;
    StepAt(t, listen, es, i);
    BindStep(TableAt(t, listen, es, i), listen, es[i], fd, key, ssid, ip);
    OnlyDeadlineMoves(t, listen, es, fd, i, j);
  }

  /** An order for the device with a key. */
  predicate IsOrder(c: Command, key: seq<byte>, order: Order) {
    match order
    case SendWol(mac) => c == Wol(key, Mac(mac))
    case SendShutdown(mac) => c == Shutdown(key, Mac(mac))
    case Restart => c == Reset(key)
  }

  /** Meanwhile, if no connection with a lower descriptor is bound to the same key, whoever sends an
      order for it is told `true`, and the order goes to this connection and nowhere else. */
  lemma OrdersReachTheBound(t: Table, listen: nat, es: seq<Event>, fd: nat, i: nat, j: nat,
                            key: seq<byte>, ssid: seq<byte>, ip: seq<byte>, c: Command, order: Order,
                            sender: nat, warnPort: nat)
    requires Proper(t, listen) && Runs(t, listen, es) && i < j <= |es|
    requires IsBind(es[i], fd, key, ssid, ip) && StaysBound(t, listen, es, fd, i, j)
    requires forall k :: 0 <= k < fd && k < 1024 ==> !BoundTo(TableAt(t, listen, es, j).slots[k], key)
    requires IsOrder(c, key, order) && sender < 1024
    ensures Status(TableAt(t, listen, es, j).slots, c)
    ensures Outgoing(TableAt(t, listen, es, j).slots, sender, c, warnPort) == [Forward(fd, order)]
  {
    BindLasts(t, listen, es, fd, i, j, key, ssid, ip);
    hide TableAt, Runs, Step, Possible, StaysBound;
    FirstBound(TableAt(t, listen, es, j).slots, key, fd);
  }

  lemma FirstBound(slots: seq<Client>, key: seq<byte>, fd: nat)
    requires fd < |slots| && BoundTo(slots[fd], key) && forall k :: 0 <= k < fd ==> !BoundTo(slots[k], key)
    ensures Bound(slots, key, 0) == fd
  {
    hide BoundTo;
  }

  // ----- accepted connections

  lemma AcceptStep(t: Table, listen: nat, e: Event)
    requires e.Accept? && e.added && Possible(t, listen, e)
    ensures var c := Step(t, e).slots[e.fd];
            && c.enable && !c.esp8266 && c.key == [] && c.ssid == [] && c.lanIp == []
            && (|e.ip| < 16 ==> c.globalIp == e.ip) && c.timestamp == e.at + 10_000_000
    ensures forall k :: 0 <= k < |t.slots| && k != e.fd ==> Step(t, e).slots[k] == t.slots[k]
  {
  }

  lemma AddressStep(t: Table, listen: nat, e: Event, fd: nat)
    requires Possible(t, listen, e) && fd < |t.slots| && !(e.Accept? && e.fd == fd && e.added)
    ensures Step(t, e).slots[fd].globalIp == t.slots[fd].globalIp
  {
  }

  /** An accepted connection is there with the address it came from and nothing else, and the address
      stays until its descriptor is given to another. */
  lemma {:induction false} AcceptedFrom(t: Table, listen: nat, es: seq<Event>, i: nat, j: nat)
    requires Proper(t, listen) && Runs(t, listen, es) && i < j <= |es|
    requires es[i].Accept? && es[i].added && |es[i].ip| < 16
    requires forall k :: i < k < j ==> !(es[k].Accept? && es[k].fd == es[i].fd && es[k].added)
    ensures es[i].fd < 1024 && TableAt(t, listen, es, j).slots[es[i].fd].globalIp == es[i].ip
    ensures j == i + 1 ==>
              TableAt(t, listen, es, j).slots[es[i].fd] == Client(true, false, es[i].at + 10_000_000, [], [], [], es[i].ip)
    decreases j
  {
    StepAt(t, listen, es, j - 1);
    hide Step;
    if j == i + 1 {
      AcceptStep(TableAt(t, listen, es, i), listen, es[i]);
    } else {
      AcceptedFrom(t, listen, es, i, j - 1);
      AddressStep(TableAt(t, listen, es, j - 1), listen, es[j - 1], es[i].fd);
    }
  }

  // ----- clients that go

  /** Whoever closes is gone, and so, at a turn later than the sweep is due, is everyone whose deadline has
      passed; nobody else is, and what is known of them stays. */
  lemma WhoGoes(t: Table, listen: nat, e: Event, fd: nat)
    requires Possible(t, listen, e) && (e.Hangup? || e.Tick?) && fd < |t.slots|
    ensures var was, now := t.slots[fd], Step(t, e).slots[fd];
            && now.enable == (was.enable && !(e.Hangup? && e.fd == fd)
                               && !(e.Tick? && t.due < e.at && was.timestamp < e.at))
            && (now.enable ==> now == was)
    ensures Step(t, e).due == if e.Tick? && t.due < e.at then e.at + 10_000_000 else t.due
  {
  }

  // ----- what is answered with true, beside orders

  /** A bind with nothing missing, a request for the list and a beat are answered with true, a warning and
      an unknown command with false, and a response not at all; a warning is passed on under the key of
      the device that sends it. */
  lemma OtherReplies(slots: seq<Client>, key: seq<byte>, ssid: seq<byte>, ip: seq<byte>, fd: nat, warnPort: nat)
    requires fd < |slots|
    ensures ReplyTo(slots, Bind(key, ssid, ip)) == Reply(|key| > 0 && |ssid| > 0 && |ip| > 0, false)
    ensures ReplyTo(slots, ClientList) == Reply(true, true)
    ensures ReplyTo(slots, Beat) == Reply(true, false)
    ensures ReplyTo(slots, Warn) == ReplyTo(slots, Unknown) == Reply(false, false)
    ensures ReplyTo(slots, Response) == NoReply
    ensures forall c: Command | !c.Wol? && !c.Shutdown? && !c.Reset? && !c.Warn? ::
              Outgoing(slots, fd, c, warnPort) == []
    ensures BoundTo(slots[fd], key) && warnPort > 0 ==> Outgoing(slots, fd, Warn, warnPort) == [Notice(key)]
    ensures !(slots[fd].enable && slots[fd].esp8266) || warnPort == 0 ==> Outgoing(slots, fd, Warn, warnPort) == []
  {
  }
}
