/** The server as it runs: `handle_socket` and the main loop over the table and the epoll object. The
    enabled slots are exactly the registered descriptors other than the listener. */
module Servers {
  import opened CText
  import opened Presence
  import opened Epolls

  ghost function EnabledFds(slots: seq<Client>): set<nat> { set fd: nat | fd < |slots| && slots[fd].enable }

  lemma EnabledPut(slots: seq<Client>, fd: nat, c: Client)
    requires fd < |slots|
    ensures EnabledFds(slots[fd := c]) == if c.enable then EnabledFds(slots) + {fd} else EnabledFds(slots) - {fd}
    ensures fd in EnabledFds(slots) <==> slots[fd].enable
  {
  }

  class Server {
    const epoll: Epoll
    const clients: array<Client>
    const listen: nat
    /** `port_warn`, which the epoll object hands to `handle_socket` */
    const warnPort: nat
    var due: int

    ghost predicate Valid()
      reads this, epoll, clients
    {
      && clients.Length == SLOTS && listen < SLOTS && epoll.Valid() && epoll.listen == listen
      && epoll.registered == {listen} + EnabledFds(clients[..]) && !clients[listen].enable
    }

    ghost function Abstract(): Table
      reads this, clients
    {
      Table(clients[..], due)
    }

    /** The state in which the main loop starts. */
    constructor (epoll: Epoll, clients: array<Client>, listen: nat, warnPort: nat)
      requires clients.Length == SLOTS && listen < SLOTS && epoll.Valid() && epoll.listen == listen
      requires epoll.registered == {listen} && forall i :: 0 <= i < SLOTS ==> !clients[i].enable
      ensures Valid() && this.epoll == epoll && this.clients == clients
      ensures this.listen == listen && this.warnPort == warnPort
      ensures Abstract() == Table(clients[..], 0) && AllFit(clients[..])
      ensures forall from :: from >= 0 ==> Settled(Abstract(), from)
    {
      this.epoll, this.clients, this.listen, this.warnPort, due := epoll, clients, listen, warnPort, 0;
      new;
      assert EnabledFds(clients[..]) == {};
    }

    /** What the counter counts: one for the listener and one for each enabled slot. */
    lemma Counts()
      requires Valid()
      ensures epoll.nums == 1 + |EnabledFds(clients[..])| && epoll.Loop()
    {
      assert listen !in EnabledFds(clients[..]);
      assert |epoll.registered - {listen}| == |epoll.registered| - 1;
      assert epoll.registered - {listen} == EnabledFds(clients[..]);
    }

    /** A new connection, which the kernel may refuse to register. */
    method HandleAccept(now: int, fd: nat, ip: seq<byte>, granted: bool)
      requires Valid() && fd < SLOTS && fd !in epoll.registered
      modifies epoll, clients
      ensures Valid()
      ensures var e := Accept(now, fd, granted, ip);
              Possible(old(Abstract()), listen, e) && Abstract() == Step(old(Abstract()), e)
    {
      hide EnabledFds, Epoll.Valid;
      EnabledPut(clients[..], fd, NewClient(now, ip));
      var ok := epoll.Add(fd, false, granted);
      if ok {
        clients[fd] := NewClient(now, ip);
      }
    }

    /** The peer has closed the connection. */
    method HandleHangup(now: int, fd: nat)
      requires Valid() && fd < SLOTS && clients[fd].enable
      modifies epoll, clients
      ensures Valid()
      ensures var e := Hangup(now, fd);
              Possible(old(Abstract()), listen, e) && Abstract() == Step(old(Abstract()), e)
    {
      hide EnabledFds, Epoll.Valid;
      EnabledPut(clients[..], fd, clients[fd].(enable := false));
      clients[fd] := clients[fd].(enable := false);
      var _ := epoll.Del(fd);
    }

    /** Looks through the slots for the first one that is bound to a key. */
    method Find(key: seq<byte>) returns (i: nat)
      requires Valid()
      ensures i == Bound(clients[..], key, 0)
    {
      i := 0;
      while i < SLOTS
        invariant i <= SLOTS && Bound(clients[..], key, 0) == Bound(clients[..], key, i)
      {
        if clients[i].enable && clients[i].esp8266 {
          if clients[i].key == key {
            break;
          }
        }
        i := i + 1;
      }
    }

    /** What a message does to the table, what is sent on, and what the reply to it says. */
    method Obey(fd: nat, c: Command) returns (reply: Reply, sent: seq<Dispatch>)
      requires Valid() && fd < SLOTS && clients[fd].enable
      modifies clients
      ensures Valid() && clients[..] == old(clients[..])[fd := Told(old(clients[fd]), c)]
      ensures reply == ReplyTo(clients[..], c) && sent == Outgoing(clients[..], fd, c, warnPort)
    {
      hide EnabledFds, Epoll.Valid;
      var status, ignored := false, false;
      sent := [];
      EnabledPut(clients[..], fd, Told(clients[fd], c));
      match c {
        case Response => ignored := true;
        case Bind(key, ssid, ip) =>
          if 0 < |key| && 0 < |ssid| && 0 < |ip| {
            clients[fd] := clients[fd].(esp8266 := true, key := Cut(key, 16), ssid := Cut(ssid, 32), lanIp := Cut(ip, 16));
            status := true;
          }
        case ClientList => status := true;
        case Wol(key, mac) =>
          if mac.Mac? {
            status, sent := SendOn(key, SendWol(mac.bytes));
          }
        case Shutdown(key, mac) =>
          if mac.Mac? {
            status, sent := SendOn(key, SendShutdown(mac.bytes));
          }
        case Warn =>
          if clients[fd].enable && clients[fd].esp8266 {
            if 0 < warnPort {
              sent := [Notice(clients[fd].key)];
            }
          }
        case Reset(key) => status, sent := SendOn(key, Restart);
        case Beat => status := true;
        case Unknown =>
      }
      reply := if ignored then NoReply else Reply(status, c.ClientList?);
    }

    /** Sends an order to the device bound to a key. */
    method SendOn(key: seq<byte>, order: Order) returns (status: bool, sent: seq<Dispatch>)
      requires Valid()
      ensures status == Reachable(clients[..], key)
      ensures sent == if status then [Forward(Bound(clients[..], key, 0), order)] else []
    {
      status, sent := false, [];
      if 0 < |key| {
        var i := Find(key);
        if i < SLOTS {
          status, sent := true, [Forward(i, order)];
        }
      }
    }

    /** Answers a message: only a reply that says `true` moves the deadline. */
    method HandleMessage(now: int, fd: nat, c: Command) returns (reply: Reply, sent: seq<Dispatch>)
      requires Valid() && fd < SLOTS && clients[fd].enable
      modifies clients
      ensures Valid()
      ensures var e := Message(now, fd, c);
              && Possible(old(Abstract()), listen, e) && Abstract() == Step(old(Abstract()), e)
              && (reply.NoReply? <==> c.Response?)
              && (Refreshes(old(Abstract()), e, fd) <==> reply.Reply? && reply.status)
      ensures var slots := old(clients[..])[fd := Told(old(clients[fd]), c)];
              reply == ReplyTo(slots, c) && sent == Outgoing(slots, fd, c, warnPort)
    {
      hide EnabledFds, Epoll.Valid, Told, Outgoing;
      reply, sent := Obey(fd, c);
      EnabledPut(clients[..], fd, clients[fd].(timestamp := now + LIFETIME));
      if reply.Reply? {
        if reply.status {
          clients[fd] := clients[fd].(timestamp := now + LIFETIME);
        }
      }
    }

    method Evict(i: nat)
      requires Valid() && i < SLOTS && clients[i].enable
      modifies epoll, clients
      ensures Valid() && clients[..] == old(clients[..])[i := old(clients[i]).(enable := false, timestamp := 0)]
    {
      hide EnabledFds, Epoll.Valid;
      EnabledPut(clients[..], i, clients[i].(enable := false, timestamp := 0));
      var _ := epoll.Del(i);
      clients[i] := clients[i].(enable := false, timestamp := 0);
    }

    /** The sweep: the first thing a turn of the main loop does. */
    method DoTick(now: int)
      requires Valid()
      modifies this`due, epoll, clients
      ensures Valid() && Abstract() == Step(old(Abstract()), Tick(now))
    {
      hide EnabledFds, Epoll.Valid;
      if due < now {
        due := now + LIFETIME;
        ghost var slots := clients[..];
        for i := 0 to SLOTS
          invariant Valid() && due == now + LIFETIME
          invariant forall k :: 0 <= k < i ==> clients[k] == SweepOne(slots[k], now)
          invariant forall k :: i <= k < SLOTS ==> clients[k] == slots[k]
        {
          if clients[i].enable {
            if clients[i].timestamp < now {
              Evict(i);
            }
          }
        }
        assert clients[..] == Sweep(slots, now);
      }
    }

    /** `handle_socket` for what the kernel reports. */
    method HandleSocket(a: Arrival)
      requires Valid()
      modifies epoll, clients
      ensures Valid()
      ensures var e := EventOf(a);
              Abstract() == if Possible(old(Abstract()), listen, e) then Step(old(Abstract()), e) else old(Abstract())
    {
      hide Step;
      if a.fd < SLOTS {
        if a.Connection? {
          if a.fd != listen && !clients[a.fd].enable {
            assert a.fd !in EnabledFds(clients[..]);
            HandleAccept(a.at, a.fd, a.ip, a.granted);
          }
        } else if clients[a.fd].enable {
          if a.Closed? {
            HandleHangup(a.at, a.fd);
          } else {
            var _, _ := HandleMessage(a.at, a.fd, a.command);
          }
        }
      }
    }

    /** What `wait` reports, one by one; `reports` is what has been reported before. */
    method HandleAll(arrivals: seq<Arrival>, ghost start: Table, ghost reports: seq<Event>)
      requires Valid() && Proper(start, listen) && Abstract() == Run(start, listen, Happened(start, listen, reports))
      modifies epoll, clients
      ensures Valid() && Abstract() == Run(start, listen, Happened(start, listen, reports + EventsOf(arrivals)))
    {
      hide Step, Possible, Run, Runs, Happened;
      assert reports + EventsOf([]) == reports;
      for k := 0 to |arrivals|
        invariant Valid() && Abstract() == Run(start, listen, Happened(start, listen, reports + EventsOf(arrivals[..k])))
      {
        ghost var before := reports + EventsOf(arrivals[..k]);
        OneMore(start, listen, before, EventOf(arrivals[k]));
        assert reports + EventsOf(arrivals[..k + 1]) == before + [EventOf(arrivals[k])];
        HandleSocket(arrivals[k]);
      }
      assert arrivals[..|arrivals|] == arrivals;
    }

    /** The main loop over the turns it makes before `exit_flag` is raised. Whatever arrives, the counter
        never stops it early, and what happens to the table is what has been reported, turn by turn: so
        in timely turns signs of life keep a client and silence ends it. */
    method MainLoop(turns: seq<Turn>) returns (made: nat, ghost es: seq<Event>)
      requires Valid()
      modifies this`due, epoll, clients
      ensures Valid() && made == |turns|
      ensures Proper(old(Abstract()), listen) && es == Happened(old(Abstract()), listen, Reports(turns))
      ensures Abstract() == Run(old(Abstract()), listen, es)
      ensures AllFit(old(Abstract()).slots) ==> AllFit(clients[..])
      ensures forall from, gap | Timely(turns, from, gap) && Settled(old(Abstract()), from) ::
                && RefreshedStay(old(Abstract()), listen, es) && SilentGo(old(Abstract()), listen, es, from, gap)
                && UpToDate(old(Abstract()), listen, es, Abstract(), from, gap)
    {
      hide Step, Possible, Run, Runs, Happened, Timely, Settled, RefreshedStay, SilentGo, UpToDate, AllFit;
      ghost var start := Abstract();
      made := 0;
      Counts();
      NothingYet(start, listen);
      while made < |turns| && epoll.Loop()
        invariant Valid() && epoll.Loop() && made <= |turns|
        invariant Proper(start, listen) && Abstract() == Run(start, listen, Happened(start, listen, Reports(turns[..made])))
      {
        ghost var before := Reports(turns[..made]);
        ghost var tick := Tick(turns[made].now);
        OneMore(start, listen, before, tick);
        DoTick(turns[made].now);
        HandleAll(turns[made].arrivals, start, before + [tick]);
        assert turns[..made + 1][..made] == turns[..made];
        Counts();
        made := made + 1;
      }
      assert turns[..|turns|] == turns;
      es := Happened(start, listen, Reports(turns));
      if AllFit(start.slots) { FitsRun(start, listen, es); }
      forall from, gap | Timely(turns, from, gap) && Settled(start, from)
        ensures RefreshedStay(start, listen, es) && SilentGo(start, listen, es, from, gap)
        ensures UpToDate(start, listen, es, Abstract(), from, gap)
      {
        TurnsKeepAndRemove(start, listen, turns, from, gap);
      }
    }
  }

  lemma NothingYet(t: Table, listen: nat)
    requires Proper(t, listen)
    ensures Run(t, listen, Happened(t, listen, Reports([]))) == t
  {
  }

  /** One report more, and what it does to the table; a look at the clock is always possible. */
  lemma OneMore(t: Table, listen: nat, reports: seq<Event>, e: Event)
    requires Proper(t, listen)
    ensures var now := Run(t, listen, Happened(t, listen, reports));
            && (e.Tick? ==> Possible(now, listen, e))
            && Run(t, listen, Happened(t, listen, reports + [e])) == if Possible(now, listen, e) then Step(now, e) else now
  {
    hide Step, Run, Runs, Happened;
    HappenedOn(t, listen, reports, e);
    var es := Happened(t, listen, reports);
    if Possible(Run(t, listen, es), listen, e) {
      RunOn(t, listen, es, e);
    }
  }
}
