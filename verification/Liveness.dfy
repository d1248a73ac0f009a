/** The device's loop and the server's sweep together: as long as the device turns, the network delivers
    and the replies are read in time, neither side ever gives the other up. What in time means is what
    the two programs' constants leave. For the server it is 10 s less the 6 s period, one second for the
    resolution of the device's clock and one for its receive timeout; for the device it is the seconds
    from one message over a bind and a beat to the next beat. Neither bound can be any larger. */
module Liveness {
  import opened CText
  import opened Presence
  import opened Devices

  /** A message that the device has sent. */
  datatype Sent = Sent(at: int, bind: bool)

  /** Which client the device is, when its clock started, how much longer than its receive timeout a
      turn of its loop may take, how long a message may take until the server has handled it, and how
      long until the device has read the reply. */
  datatype Setting = Setting(fd: nat, listen: nat, boot: int, slack: int, delay: int, reply: int,
                             key: seq<byte>, ssid: seq<byte>, ip: seq<byte>)

  /** `unread` are the messages whose replies the device has not read, the first `handled` of which the
      server has handled; `heard` is when the last handled one was sent, `last` when the last one was,
      and `checked` when the device's loop last came round. */
  datatype World = World(table: Table, link: Link, dropped: bool, now: int, checked: int,
                         heard: int, last: int, unread: seq<Sent>, handled: nat)

  datatype Happening =
    | Loop(at: int)
    | Handle(at: int)
    | Read(at: int)
    | Elsewhere(e: Event)

  function Time(h: Happening): int { if h.Elsewhere? then h.e.at else h.at }

  function Seconds(s: Setting, at: int): nat
    requires s.boot <= at
  {
    (at - s.boot) / SECOND
  }

  predicate Sane(s: Setting) {
    && s.fd < SLOTS && s.listen < SLOTS && s.fd != s.listen && s.slack >= 0 && s.delay >= 0 && s.reply >= 0
    && s.key != [] && s.ssid != [] && s.ip != []
  }

  /** Nothing that has to happen is late at time `at`, and the device's clock has not wrapped. */
  predicate InTime(s: Setting, w: World, at: int) {
    && s.boot <= w.now <= at < s.boot + 0x1_0000_0000
    && at <= w.checked + SECOND + s.slack
    && (forall i :: w.handled <= i < |w.unread| ==> at <= w.unread[i].at + s.delay)
    && (forall i :: 0 <= i < |w.unread| ==> at <= w.unread[i].at + s.reply)
  }

  function CommandOf(s: Setting, m: Sent): Command { if m.bind then Bind(s.key, s.ssid, s.ip) else Beat }

  /** What may happen: on the server, anything that is not from this device. */
  predicate Can(s: Setting, w: World, h: Happening) {
    && |w.table.slots| == SLOTS && InTime(s, w, Time(h))
    && match h
       case Loop(_) => !w.dropped
       case Handle(_) => w.handled < |w.unread|
       case Read(_) => !w.dropped && 0 < w.handled && w.unread != []
       case Elsewhere(e) => (e.Tick? || e.fd != s.fd) && Possible(w.table, s.listen, e)
  }

  function Next(s: Setting, w: World, h: Happening): World
    requires Sane(s) && Can(s, w, h)
  {
    match h
    case Loop(at) =>
      var now := Seconds(s, at);
      var v := w.(link := Checked(w.link, now, true), now := at, checked := at);
      (match Due(w.link, now)
       case Drop => v.(dropped := true)
       case Idle => v
       case SendBind => v.(last := at, unread := w.unread + [Sent(at, true)])
       case SendBeat => v.(last := at, unread := w.unread + [Sent(at, false)]))
    case Handle(at) =>
      var m := w.unread[w.handled];
      w.(table := Step(w.table, Message(at, s.fd, CommandOf(s, m))), now := at, heard := m.at, handled := w.handled + 1)
    case Read(at) => w.(link := Answered(w.link, true), now := at, unread := w.unread[1..], handled := w.handled - 1)
    case Elsewhere(e) => w.(table := Step(w.table, e), now := e.at)
  }

  /** The server has just accepted the device, and the device has just connected. */
  predicate Begins(s: Setting, w: World) {
    && Proper(w.table, s.listen) && Enabled(w.table, s.fd) && w.table.slots[s.fd].timestamp == w.now + LIFETIME
    && s.boot <= w.now
    && w == World(w.table, CONNECTED, false, w.now, w.now, w.now, w.now, [], 0)
  }

  /** So it begins with any connection that the server accepts. */
  lemma Accepted(s: Setting, t: Table, at: int, ip: seq<byte>) returns (w: World)
    requires Sane(s) && Proper(t, s.listen) && !t.slots[s.fd].enable && s.boot <= at
    ensures Begins(s, w) && w.now == at && Possible(t, s.listen, Accept(at, s.fd, true, ip))
    ensures w.table == Step(t, Accept(at, s.fd, true, ip)) && w.table.due == t.due
  {
    w := World(Step(t, Accept(at, s.fd, true, ip)), CONNECTED, false, at, at, at, at, [], 0);
  }

  predicate CanRun(s: Setting, w: World, hs: seq<Happening>)
    requires Sane(s)
    decreases |hs|
  {
    hs != [] ==> Can(s, w, hs[0]) && CanRun(s, Next(s, w, hs[0]), hs[1..])
  }

  function After(s: Setting, w: World, hs: seq<Happening>): World
    requires Sane(s) && CanRun(s, w, hs)
    decreases |hs|
  {
    if hs == [] then w else After(s, Next(s, w, hs[0]), hs[1..])
  }

  /** What the two delays may come to together: two seconds, and a microsecond that the rounding of
      the device's clock leaves over. */
  const MARGIN: int := 2 * SECOND + 1

  /** How long the device may have to wait for a reply. A loop that is never late keeps its messages
      at their distance from each other: then the fourth one is due four seconds later. */
  function PatientFor(s: Setting): int { if s.slack >= 1 then 14 * SECOND else 18 * SECOND }

  /** How long a message may go unhandled: a reply that is in time has been sent by then. */
  function Handling(s: Setting): int { if s.delay <= s.reply then s.delay else s.reply }

  predicate Lenient(s: Setting) { Sane(s) && s.slack + Handling(s) <= MARGIN && s.reply <= PatientFor(s) }

  // ----- the server's side

  /** The longest time between two messages of the device. */
  function Period(s: Setting): int { 8 * SECOND + s.slack - 1 }

  /** The send time before the i-th message that waits to be handled. */
  function Before(w: World, i: nat): int
    requires w.handled <= i <= |w.unread|
  {
    if i == w.handled then w.heard else w.unread[i - 1].at
  }

  /** The i-th message was sent no later than a period after the one before it. */
  predicate InStep(s: Setting, w: World, i: nat)
    requires w.handled <= i < |w.unread|
  {
    Before(w, i) <= w.unread[i].at <= Before(w, i) + Period(s)
  }

  predicate Regular(s: Setting, w: World) {
    && w.handled <= |w.unread|
    && s.boot <= w.heard <= w.last <= w.checked <= w.now
    && w.last == Before(w, |w.unread|)
    && (forall i :: w.handled <= i < |w.unread| ==> InStep(s, w, i))
    && (forall i :: 0 <= i < |w.unread| ==> s.boot <= w.unread[i].at <= w.now)
    && w.link.sendBeat <= Seconds(s, w.last) + BEAT_PERIOD
    && (w.checked == w.last || Seconds(s, w.checked) <= w.link.sendBeat)
  }

  predicate Present(s: Setting, w: World) {
    Proper(w.table, s.listen) && AliveSince(w.table, s.fd, w.heard)
  }

  lemma SecondsBound(s: Setting, a: int, b: int)
    requires s.boot <= a && s.boot <= b && Seconds(s, b) <= Seconds(s, a) + BEAT_PERIOD
    ensures b <= a + 7 * SECOND - 1
  {
  }

  /** Whatever happens, happens before the server's patience with the device ends. */
  lemma BeforeDeadline(s: Setting, w: World, at: int)
    requires Sane(s) && s.slack + Handling(s) <= MARGIN && Regular(s, w) && InTime(s, w, at)
    ensures at <= w.last + Period(s)
    ensures at <= w.heard + LIFETIME
  {
    if w.checked != w.last { SecondsBound(s, w.last, w.checked); }
    assert at <= w.last + Period(s);
    if w.handled < |w.unread| {
      assert InStep(s, w, w.handled);
      assert at <= w.unread[w.handled].at + Handling(s);
    }
  }

  lemma RegularStep(s: Setting, w: World, h: Happening)
    requires Lenient(s) && Regular(s, w) && Patient(s, w) && Punctual(s, w) && Can(s, w, h)
    ensures Regular(s, Next(s, w, h))
  {
    hide Step, Possible, Regular, Spaced, Punctual;
    InTimeOrder(s, w, Time(h));
    match h
    case Loop(at) => RegularLoop(s, w, at);
    case Handle(at) => RegularHandle(s, w, Next(s, w, h));
    case Read(_) => RegularRead(s, w, Next(s, w, h));
    case Elsewhere(_) => RegularSame(s, w, Next(s, w, h));
  }

  lemma RegularHandle(s: Setting, w: World, v: World)
    requires Regular(s, w) && w.handled < |w.unread| && w.now <= v.now
    requires v == w.(table := v.table, now := v.now, heard := w.unread[w.handled].at, handled := w.handled + 1)
    ensures Regular(s, v)
  {
    hide Seconds;
    assert InStep(s, w, w.handled);
    OrderedBefore(s, w, w.handled);
    forall i | v.handled <= i < |v.unread| ensures InStep(s, v, i) { assert InStep(s, w, i); }
  }

  lemma RegularRead(s: Setting, w: World, v: World)
    requires Regular(s, w) && 0 < w.handled && w.unread != [] && w.now <= v.now && v.link.sendBeat == w.link.sendBeat
    requires v == w.(link := v.link, now := v.now, unread := w.unread[1..], handled := w.handled - 1)
    ensures Regular(s, v)
  {
    hide Seconds;
    forall i | 0 <= i < |v.unread| ensures s.boot <= v.unread[i].at <= v.now { assert v.unread[i] == w.unread[i + 1]; }
    forall i | v.handled <= i < |v.unread| ensures InStep(s, v, i) { assert InStep(s, w, i + 1); }
  }

  lemma RegularSame(s: Setting, w: World, v: World)
    requires Regular(s, w) && w.now <= v.now && v == w.(table := v.table, now := v.now)
    ensures Regular(s, v)
  {
    hide Seconds;
    forall i | v.handled <= i < |v.unread| ensures InStep(s, v, i) { assert InStep(s, w, i); }
  }

  lemma InTimeOrder(s: Setting, w: World, at: int)
    requires InTime(s, w, at)
    ensures s.boot <= w.now <= at
  {
  }

  lemma RegularLoop(s: Setting, w: World, at: int)
    requires Lenient(s) && Regular(s, w) && Patient(s, w) && Punctual(s, w) && Can(s, w, Loop(at))
    ensures Regular(s, Next(s, w, Loop(at)))
  {
    hide Spaced, Step, Possible;
    BeforeDeadline(s, w, at);
    NeverGivesUp(s, w, at);
    hide InTime, GivenUp, Seconds, Punctual;
    InTimeOrder(s, w, at);
    var v := Next(s, w, Loop(at));
    forall i | v.handled <= i < |v.unread| ensures InStep(s, v, i) {
      if i < |w.unread| { assert InStep(s, w, i); }
    }
  }

  /** Messages that wait were sent in order. */
  lemma {:induction false} OrderedBefore(s: Setting, w: World, i: nat)
    requires Regular(s, w) && w.handled <= i < |w.unread|
    ensures w.unread[i].at <= w.last
    decreases |w.unread| - i
  {
    if i + 1 < |w.unread| {
      OrderedBefore(s, w, i + 1);
      assert InStep(s, w, i + 1);
    }
  }

  lemma PresentStep(s: Setting, w: World, h: Happening)
    requires Sane(s) && s.slack + Handling(s) <= MARGIN && Regular(s, w) && Present(s, w) && Can(s, w, h)
    ensures Present(s, Next(s, w, h))
  {
    var at := Time(h);
    BeforeDeadline(s, w, at);
    match h
    case Handle(_) => assert w.unread[w.handled].at <= w.now;
    case _ =>
  }

  // ----- the device's side

  /** Beats keep their distance from the message before them, binds from the bind before them; and as a
      beat goes out only while no bind is due, a bind is in a later second than any beat before it. */
  predicate Spaced(s: Setting, w: World) {
    && (forall i :: 0 <= i < |w.unread| ==> s.boot <= w.unread[i].at)
    && (forall i :: 0 < i < |w.unread| ==>
          Seconds(s, w.unread[i].at) >= Seconds(s, w.unread[i - 1].at) + if w.unread[i].bind then 1 else BEAT_PERIOD + 1)
    && (forall i, j :: 0 <= i < j < |w.unread| && w.unread[i].bind && w.unread[j].bind ==>
          Seconds(s, w.unread[j].at) > Seconds(s, w.unread[i].at) + BIND_PERIOD)
    && (forall i :: 0 <= i < |w.unread| && w.unread[i].bind ==>
          w.link.sendBind >= Seconds(s, w.unread[i].at) + BIND_PERIOD)
    && (w.unread != [] ==>
          && s.boot <= w.last && w.unread[|w.unread| - 1].at == w.last
          && w.link.sendBeat == Seconds(s, w.last) + BEAT_PERIOD && w.link.sendBind >= Seconds(s, w.last))
  }

  predicate Patient(s: Setting, w: World) {
    !w.dropped && w.link.lost <= |w.unread| && (w.link.notRecv || w.link.lost == 0) && Spaced(s, w)
  }

  /** A device whose loop is never late beats every seven seconds and binds five seconds after the
      beat before: what is left until the next bind is four seconds and a number of such periods. */
  predicate Punctual(s: Setting, w: World) {
    && (w.link.sendBeat == 0 ==> w.link.sendBind == 0)
    && (s.slack == 0 && w.link.sendBeat > 0 ==>
          && s.boot <= w.checked && Seconds(s, w.checked) <= w.link.sendBind && Seconds(s, w.checked) <= w.link.sendBeat
          && (var left := w.link.sendBind - (w.link.sendBeat - BEAT_PERIOD); left % 7 == 4 && 4 <= left <= BIND_PERIOD)
          && (forall i :: 0 <= i < |w.unread| ==> s.boot <= w.unread[i].at)
          && forall i :: 0 < i < |w.unread| ==>
               Seconds(s, w.unread[i].at) >= Seconds(s, w.unread[i - 1].at) + if w.unread[i].bind then 5 else 7)
  }

  /** When a fourth message is due, the first of the three before it is more than 14 s old, or 18 s if
      the loop is never late. */
  lemma FourthIsLate(s: Setting, w: World, at: int)
    requires Patient(s, w) && Punctual(s, w) && |w.unread| >= PATIENCE && s.slack >= 0
    requires s.boot <= at && Due(w.link, Seconds(s, at)) != Idle && Seconds(s, at) >= Seconds(s, w.last)
    ensures at > w.unread[|w.unread| - 3].at + PatientFor(s)
  {
    var n := |w.unread|;
    var a, b, c := w.unread[n - 3], w.unread[n - 2], w.unread[n - 1];
    assert Seconds(s, b.at) > Seconds(s, a.at) && Seconds(s, c.at) > Seconds(s, b.at);
    if s.slack == 0 {
      assert Seconds(s, b.at) >= Seconds(s, a.at) + if b.bind then 5 else 7;
      assert Seconds(s, c.at) >= Seconds(s, b.at) + if c.bind then 5 else 7;
      assert b.bind && c.bind ==> Seconds(s, c.at) > Seconds(s, b.at) + BIND_PERIOD;
      SecondsApart(s, a.at, at, 18);
    } else {
      SecondsApart(s, a.at, at, 14);
    }
  }

  lemma SecondsApart(s: Setting, a: int, b: int, n: int)
    requires s.boot <= a && s.boot <= b && Seconds(s, b) > Seconds(s, a) + n
    ensures b > a + n * SECOND
  {
  }

  lemma NeverGivesUp(s: Setting, w: World, at: int)
    requires Lenient(s) && Patient(s, w) && Punctual(s, w) && Regular(s, w) && InTime(s, w, at)
    ensures Due(w.link, Seconds(s, at)) != Drop
  {
    hide Punctual;
    if |w.unread| >= PATIENCE && Due(w.link, Seconds(s, at)) != Idle {
      FourthIsLate(s, w, at);
    }
  }

  lemma PunctualStep(s: Setting, w: World, h: Happening)
    requires Lenient(s) && Patient(s, w) && Punctual(s, w) && Regular(s, w) && Can(s, w, h)
    ensures Punctual(s, Next(s, w, h))
  {
    hide Step, Possible, Spaced, Seconds, Regular;
    var v := Next(s, w, h);
    match h
    case Loop(at) =>
      NeverGivesUp(s, w, at);
      assert s.boot <= w.last <= at by { InOrderSoFar(s, w, at); }
      assert s.boot <= w.checked <= at by { CheckedSoFar(s, w, at); }
      hide Punctual;
      PunctualLoop(s, w, v, at);
    case Read(_) =>
      hide Punctual;
      PunctualRead(s, w, v);
    case _ =>
  }

  lemma CheckedSoFar(s: Setting, w: World, at: int)
    requires Regular(s, w) && InTime(s, w, at)
    ensures s.boot <= w.checked <= at
  {
  }

  lemma PunctualRead(s: Setting, w: World, v: World)
    requires Punctual(s, w) && w.unread != [] && v.unread == w.unread[1..] && v.checked == w.checked
    requires v.link.sendBind == w.link.sendBind && v.link.sendBeat == w.link.sendBeat
    ensures Punctual(s, v)
  {
    hide Seconds;
    assert forall i :: 0 <= i < |v.unread| ==> v.unread[i] == w.unread[i + 1];
  }

  lemma PunctualLoop(s: Setting, w: World, v: World, at: int)
    requires Spaced(s, w) && Punctual(s, w) && s.boot <= w.checked <= at <= w.checked + SECOND + s.slack
    requires s.boot <= w.last <= at
    requires var now := Seconds(s, at);
             && Due(w.link, now) != Drop && v.link == Checked(w.link, now, true) && v.checked == at
             && v.unread == w.unread + match Due(w.link, now)
                                       case SendBind => [Sent(at, true)]
                                       case SendBeat => [Sent(at, false)]
                                       case _ => []
    ensures Punctual(s, v)
  {
    var n, now := |w.unread|, Seconds(s, at);
    assert s.slack == 0 ==> now <= Seconds(s, w.checked) + 1;
    assert forall i :: 0 <= i < n ==> v.unread[i] == w.unread[i];
    if n > 0 { assert w.unread[n - 1].at == w.last && w.link.sendBeat == Seconds(s, w.last) + BEAT_PERIOD; }
    hide Seconds;
  }

  /** A message is sent. */
  lemma SpacedSend(s: Setting, w: World, v: World, at: int, bind: bool)
    requires Spaced(s, w) && s.boot <= w.last <= at
    requires var now := Seconds(s, at);
             && v.unread == w.unread + [Sent(at, bind)] && v.last == at
             && v.link.sendBeat == now + BEAT_PERIOD
             && (if bind then w.link.sendBind < now && v.link.sendBind == now + BIND_PERIOD
                 else w.link.sendBeat < now <= w.link.sendBind && v.link.sendBind == w.link.sendBind)
    ensures Spaced(s, v)
  {
    var n := |w.unread|;
    assert v.unread[n] == Sent(at, bind) && forall i :: 0 <= i < n ==> v.unread[i] == w.unread[i];
    assert Seconds(s, at) >= Seconds(s, w.last);
    hide Seconds;
  }

  /** A reply is read. */
  lemma SpacedRead(s: Setting, w: World, v: World)
    requires Spaced(s, w) && w.unread != [] && v.unread == w.unread[1..] && v.last == w.last
    requires v.link.sendBind == w.link.sendBind && v.link.sendBeat == w.link.sendBeat
    ensures Spaced(s, v)
  {
    hide Seconds;
    assert forall i :: 0 <= i < |v.unread| ==> v.unread[i] == w.unread[i + 1];
  }

  lemma PatientStep(s: Setting, w: World, h: Happening)
    requires Lenient(s) && Patient(s, w) && Punctual(s, w) && Regular(s, w) && Can(s, w, h)
    ensures Patient(s, Next(s, w, h))
  {
    hide Step;
    var v := Next(s, w, h);
    match h
    case Loop(at) =>
      hide Spaced, Regular, InTime, Seconds, Possible, Punctual;
      assert s.boot <= w.last <= at by { InOrderSoFar(s, w, at); }
      NeverGivesUp(s, w, at);
      var now := Seconds(s, at);
      if Due(w.link, now) == SendBind {
        SpacedSend(s, w, v, at, true);
      } else if Due(w.link, now) == SendBeat {
        SpacedSend(s, w, v, at, false);
      } else {
        SpacedSame(s, w, v);
      }
    case Read(_) => SpacedRead(s, w, v);
    case _ => SpacedSame(s, w, v);
  }

  lemma InOrderSoFar(s: Setting, w: World, at: int)
    requires Regular(s, w) && InTime(s, w, at)
    ensures s.boot <= w.last <= at
  {
  }

  lemma SpacedSame(s: Setting, w: World, v: World)
    requires Spaced(s, w) && v.unread == w.unread && v.last == w.last && v.link == w.link
    ensures Spaced(s, v)
  {
    hide Seconds;
  }

  // ----- together

  /** In every run in which nothing is late, the server never evicts the device and the device never
      gives the link up. */
  lemma NobodyGivesUp(s: Setting, w: World, hs: seq<Happening>)
    requires Lenient(s) && Begins(s, w) && CanRun(s, w, hs)
    ensures Enabled(After(s, w, hs).table, s.fd) && !After(s, w, hs).dropped
  {
    KeepsUp(s, w, hs);
  }

  lemma {:induction false} KeepsUp(s: Setting, w: World, hs: seq<Happening>)
    requires Lenient(s) && CanRun(s, w, hs)
    requires Regular(s, w) && Present(s, w) && Patient(s, w) && Punctual(s, w)
    ensures var v := After(s, w, hs); Regular(s, v) && Present(s, v) && Patient(s, v)
    decreases |hs|
  {
    hide Regular, Present, Patient, Punctual, Can, Next;
    if hs != [] {
      RegularStep(s, w, hs[0]);
      PresentStep(s, w, hs[0]);
      PatientStep(s, w, hs[0]);
      PunctualStep(s, w, hs[0]);
      KeepsUp(s, Next(s, w, hs[0]), hs[1..]);
    }
  }

  // ----- no margin to spare

  lemma {:induction false} Joined(s: Setting, w: World, a: seq<Happening>, b: seq<Happening>)
    requires Sane(s) && CanRun(s, w, a) && CanRun(s, After(s, w, a), b)
    ensures CanRun(s, w, a + b) && After(s, w, a + b) == After(s, After(s, w, a), b)
    decreases |a|
  {
    hide Can, Next;
    if a == [] {
      assert [] + b == b;
    } else {
      assert (a + b)[1..] == a[1..] + b;
      Joined(s, Next(s, w, a[0]), a[1..], b);
    }
  }

  lemma One(s: Setting, w: World, h: Happening)
    requires Sane(s) && Can(s, w, h)
    ensures CanRun(s, w, [h]) && After(s, w, [h]) == Next(s, w, h)
  {
    hide Can, Next;
    assert [h][1..] == [];
    assert CanRun(s, Next(s, w, h), []);
  }

  function Later(w: World, until: int): World { w.(now := until, checked := until) }

  /** A turn of the device's loop in which nothing is due. */
  lemma IdleTurn(s: Setting, w: World, at: int)
    requires Sane(s) && Can(s, w, Loop(at)) && Seconds(s, at) <= w.link.sendBeat && Seconds(s, at) <= w.link.sendBind
    ensures Next(s, w, Loop(at)) == Later(w, at)
  {
  }

  /** Such turns, a second apart. */
  lemma {:induction false} IdleUntil(s: Setting, w: World, until: int) returns (hs: seq<Happening>)
    requires Sane(s) && |w.table.slots| == SLOTS && !w.dropped && w.checked == w.now
    requires s.boot <= w.now <= until && InTime(s, Later(w, until), until)
    requires Seconds(s, until) <= w.link.sendBeat && Seconds(s, until) <= w.link.sendBind
    ensures CanRun(s, w, hs) && After(s, w, hs) == Later(w, until)
    decreases until - w.now
  {
    var at := if until <= w.now + SECOND then until else w.now + SECOND;
    IdleTurn(s, w, at);
    One(s, w, Loop(at));
    hs := [Loop(at)];
    if at < until {
      var v := Later(w, at);
      assert v.now == at && Later(v, until) == Later(w, until);
      var rest := IdleUntil(s, v, until);
      Joined(s, w, hs, rest);
      hs := hs + rest;
    }
  }

  lemma BindRefreshes(s: Setting, t: Table, at: int)
    requires Sane(s) && Proper(t, s.listen) && Enabled(t, s.fd)
    ensures var u := Step(t, Message(at, s.fd, CommandOf(s, Sent(at, true))));
            && Proper(u, s.listen) && Enabled(u, s.fd) && u.due == t.due && u.slots[s.fd].timestamp == at + LIFETIME
  {
  }

  /** The full second at which the device first comes round: the next one of its clock, but not the
      clock's own beginning, at which nothing is due. */
  function FirstSecond(s: Setting, at: int): nat
    requires s.boot <= at
  {
    if at == s.boot then 1 else (at - s.boot + SECOND - 1) / SECOND
  }

  lemma FirstSecondSoon(s: Setting, at: int)
    requires s.boot <= at
    ensures var S := s.boot + FirstSecond(s, at) * SECOND;
            FirstSecond(s, at) >= 1 && at <= S <= at + SECOND && Seconds(s, S) == FirstSecond(s, at)
  {
  }

  /** Just connected, the device waits for the next full second of its clock, binds and gets its answer
      at once. */
  lemma BoundAtOnce(s: Setting, w: World) returns (hs: seq<Happening>, v: World)
    requires Sane(s) && Begins(s, w) && w.now + SECOND < s.boot + 0x1_0000_0000
    ensures CanRun(s, w, hs) && v == After(s, w, hs)
    ensures var k := FirstSecond(s, w.now);
            var S := s.boot + k * SECOND;
            && v == World(v.table, Link(k + BIND_PERIOD, k + BEAT_PERIOD, false, 0), false, S, S, S, S, [], 0)
            && Proper(v.table, s.listen) && Enabled(v.table, s.fd) && v.table.due == w.table.due
            && v.table.slots[s.fd].timestamp == S + LIFETIME
  {
    FirstSecondSoon(s, w.now);
    var S := s.boot + FirstSecond(s, w.now) * SECOND;
    BindRefreshes(s, w.table, S);
    hide Step, Possible, Seconds, FirstSecond;
    One(s, w, Loop(S));
    var a := Next(s, w, Loop(S));
    assert a.unread == [Sent(S, true)];
    One(s, a, Handle(S));
    var b := Next(s, a, Handle(S));
    One(s, b, Read(S));
    v := Next(s, b, Read(S));
    Joined(s, a, [Handle(S)], [Read(S)]);
    Joined(s, w, [Loop(S)], [Handle(S)] + [Read(S)]);
    hs := [Loop(S)] + ([Handle(S)] + [Read(S)]);
  }

  /** The sweep that comes too early for a device whose next message is still on its way. */
  lemma SweptAway(s: Setting, w: World, at: int)
    requires Sane(s) && Proper(w.table, s.listen) && InTime(s, w, at)
    requires w.table.due < at && w.table.slots[s.fd].timestamp < at
    ensures Can(s, w, Elsewhere(Tick(at))) && !Enabled(Next(s, w, Elsewhere(Tick(at))).table, s.fd)
  {
  }

  /** With any more delay than that, nothing need be late and the server still evicts the device. */
  lemma MarginIsNeeded(s: Setting, w: World) returns (hs: seq<Happening>)
    requires Sane(s) && Begins(s, w)
    requires w.now + 12 * SECOND < s.boot + 0x1_0000_0000 && w.table.due <= w.now + LIFETIME
    requires s.slack + Handling(s) > MARGIN
    ensures CanRun(s, w, hs) && !Enabled(After(s, w, hs).table, s.fd)
  {
    FirstSecondSoon(s, w.now);
    hide Begins, Can, Next;
    var S := s.boot + FirstSecond(s, w.now) * SECOND;
    var sweep := S + LIFETIME + 1;
    hide FirstSecond;
    var before, v := BoundAtOnce(s, w);
    var idle := IdleUntil(s, v, S + 7 * SECOND - 1);
    Joined(s, w, before, idle);
    hs := before + idle;
    var u := Later(v, S + 7 * SECOND - 1);
    if s.slack <= MARGIN {
      var m := S + 8 * SECOND - 1 + s.slack;
      var late := LateBeat(s, u, m, sweep);
      Joined(s, w, hs, late);
      hs := hs + late;
      u := After(s, u, late);
    }
    SweptAway(s, u, sweep);
    One(s, u, Elsewhere(Tick(sweep)));
    Joined(s, w, hs, [Elsewhere(Tick(sweep))]);
    hs := hs + [Elsewhere(Tick(sweep))];
  }

  /** A beat sent at `m` that is not handled before `sweep`. */
  lemma LateBeat(s: Setting, w: World, m: int, sweep: int) returns (hs: seq<Happening>)
    requires Sane(s) && |w.table.slots| == SLOTS && s.boot <= w.now <= m <= sweep < s.boot + 0x1_0000_0000
    requires !w.dropped && w.unread == [] && w.handled == 0 && w.link.lost == 0 && m <= w.checked + SECOND + s.slack
    requires w.link.sendBeat < Seconds(s, m) && Seconds(s, m) + BEAT_PERIOD <= w.link.sendBind
    requires sweep <= m + Handling(s) && sweep <= m + 5 * SECOND
    ensures CanRun(s, w, hs)
    ensures var v := After(s, w, hs); v.table == w.table && InTime(s, v, sweep)
  {
    var a := Next(s, w, Loop(m));
    assert a.unread == [Sent(m, false)] && a.now == m && a.checked == m && a.table == w.table;
    One(s, w, Loop(m));
    var idle := IdleUntil(s, a, sweep);
    Joined(s, w, [Loop(m)], idle);
    hs := [Loop(m)] + idle;
  }

  // ----- no patience to spare

  /** Everything has been answered, and the last message went out on a full second `x`. */
  predicate Resting(s: Setting, w: World, x: nat) {
    && |w.table.slots| == SLOTS && s.boot <= w.now == s.boot + x * SECOND
    && w == World(w.table, Link(w.link.sendBind, x + BEAT_PERIOD, false, 0), false, w.now, w.now, w.now, w.now, [], 0)
  }

  /** A message that is due is sent and handled at once; its reply waits. */
  lemma SendNow(s: Setting, w: World, at: int) returns (hs: seq<Happening>, v: World)
    requires Sane(s) && Can(s, w, Loop(at)) && w.handled == |w.unread|
    requires Due(w.link, Seconds(s, at)).SendBind? || Due(w.link, Seconds(s, at)).SendBeat?
    ensures CanRun(s, w, hs) && v == After(s, w, hs)
    ensures var m := Sent(at, Due(w.link, Seconds(s, at)).SendBind?);
            && |v.table.slots| == SLOTS
            && v == World(v.table, Checked(w.link, Seconds(s, at), true), false, at, at, at, at, w.unread + [m], w.handled + 1)
  {
    hide Step, Possible, Checked, Seconds;
    One(s, w, Loop(at));
    var a := Next(s, w, Loop(at));
    One(s, a, Handle(at));
    v := Next(s, a, Handle(at));
    Joined(s, w, [Loop(at)], [Handle(at)]);
    hs := [Loop(at)] + [Handle(at)];
  }

  /** A beat `gap` seconds after the last message, answered at once. With some slack the device may miss
      the first second in which it could have beaten. */
  lemma BeatAfter(s: Setting, w: World, x: nat, gap: nat) returns (hs: seq<Happening>, v: World)
    requires Sane(s) && Resting(s, w, x) && (gap == 7 || (gap == 8 && s.slack >= 1))
    requires x + gap <= w.link.sendBind && (x + gap) * SECOND < 0x1_0000_0000
    ensures CanRun(s, w, hs) && v == After(s, w, hs)
    ensures Resting(s, v, x + gap) && v.link.sendBind == w.link.sendBind
  {
    hide Step, Possible;
    var until, at := s.boot + (x + 7) * SECOND - 1, s.boot + (x + gap) * SECOND;
    assert Seconds(s, until) == x + 6 && Seconds(s, at) == x + gap;
    var idle := IdleUntil(s, w, until);
    var beat, u := SendNow(s, Later(w, until), at);
    Joined(s, w, idle, beat);
    One(s, u, Read(at));
    v := Next(s, u, Read(at));
    Joined(s, w, idle + beat, [Read(at)]);
    hs := idle + beat + [Read(at)];
  }

  lemma {:induction false} Beats(s: Setting, w: World, x: nat, gap: nat, n: nat) returns (hs: seq<Happening>, v: World)
    requires Sane(s) && Resting(s, w, x) && (gap == 7 || (gap == 8 && s.slack >= 1))
    requires x + n * gap <= w.link.sendBind && (x + n * gap) * SECOND < 0x1_0000_0000
    ensures CanRun(s, w, hs) && v == After(s, w, hs)
    ensures Resting(s, v, x + n * gap) && v.link.sendBind == w.link.sendBind
    decreases n
  {
    if n == 0 {
      hs, v := [], w;
    } else {
      var first, u := BeatAfter(s, w, x, gap);
      var rest;
      assert x + n * gap == x + gap + (n - 1) * gap;
      rest, v := Beats(s, u, x + gap, gap, n - 1);
      hide Resting;
      Joined(s, w, first, rest);
      hs := first + rest;
    }
  }

  /** Nothing is due until the full second `y`; then a message is, which is handled at once. `first` is
      when the oldest message went out whose reply waits. */
  lemma SendAt(s: Setting, w: World, y: nat, first: int) returns (hs: seq<Happening>, v: World)
    requires Sane(s) && |w.table.slots| == SLOTS && !w.dropped && w.checked == w.now && w.handled == |w.unread|
    requires s.boot <= w.now < s.boot + y * SECOND && y * SECOND < 0x1_0000_0000
    requires (forall m :: m in w.unread ==> m.at >= first) && first <= w.now && s.boot + y * SECOND <= first + s.reply
    requires y - 1 <= w.link.sendBeat && y - 1 <= w.link.sendBind && (w.link.sendBeat < y || w.link.sendBind < y)
    requires w.link.lost < PATIENCE
    ensures CanRun(s, w, hs) && v == After(s, w, hs)
    ensures |v.table.slots| == SLOTS && !v.dropped && v.checked == v.now == s.boot + y * SECOND
    ensures v.link == Checked(w.link, y, true) && v.handled == |v.unread|
    ensures forall m :: m in v.unread ==> m.at >= first
  {
    hide Step, Possible;
    var until := s.boot + y * SECOND - 1;
    assert Seconds(s, until) == y - 1 && Seconds(s, until + 1) == y;
    var idle := IdleUntil(s, w, until);
    var send;
    send, v := SendNow(s, Later(w, until), until + 1);
    hide Seconds;
    Joined(s, w, idle, send);
    hs := idle + send;
  }

  /** The fourth message is due at the full second `y`, and the device drops the link. */
  lemma DropAt(s: Setting, w: World, y: nat, first: int) returns (hs: seq<Happening>)
    requires Sane(s) && |w.table.slots| == SLOTS && !w.dropped && w.checked == w.now && w.handled == |w.unread|
    requires s.boot <= w.now < s.boot + y * SECOND && y * SECOND < 0x1_0000_0000
    requires (forall m :: m in w.unread ==> m.at >= first) && first <= w.now && s.boot + y * SECOND <= first + s.reply
    requires y - 1 <= w.link.sendBeat && y - 1 <= w.link.sendBind && w.link.sendBeat < y && GivenUp(w.link)
    ensures CanRun(s, w, hs) && After(s, w, hs).dropped
  {
    hide Step, Possible;
    var until := s.boot + y * SECOND - 1;
    assert Seconds(s, until) == y - 1 && Seconds(s, until + 1) == y;
    var idle := IdleUntil(s, w, until);
    var u := Later(w, until);
    DropsThen(s, u, until + 1);
    hide Seconds;
    One(s, u, Loop(until + 1));
    Joined(s, w, idle, [Loop(until + 1)]);
    hs := idle + [Loop(until + 1)];
  }

  /** A beat at the very end of the first second in which it is due. */
  lemma BeatLateInSecond(s: Setting, w: World, x: nat) returns (hs: seq<Happening>, v: World)
    requires Sane(s) && Resting(s, w, x) && x + 7 <= w.link.sendBind && (x + 8) * SECOND < 0x1_0000_0000
    ensures CanRun(s, w, hs) && v == After(s, w, hs)
    ensures var first := s.boot + (x + 8) * SECOND - 1;
            && |v.table.slots| == SLOTS && !v.dropped && v.checked == v.now == first
            && v.link == Link(w.link.sendBind, x + 13, true, 1) && v.handled == |v.unread|
            && forall m :: m in v.unread ==> m.at >= first
  {
    hide Step, Possible;
    var until, first := s.boot + (x + 7) * SECOND - 1, s.boot + (x + 8) * SECOND - 1;
    assert Seconds(s, until) == x + 6 && Seconds(s, first) == x + 7;
    var idle := IdleUntil(s, w, until);
    var beat;
    beat, v := SendNow(s, Later(w, until), first);
    hide Seconds;
    Joined(s, w, idle, beat);
    hs := idle + beat;
  }

  /** Three messages whose replies wait, and the fourth: at seconds `y1`, `y2` and `y3` after a late beat. */
  lemma FourMessages(s: Setting, w: World, x: nat, y1: nat, y2: nat, y3: nat) returns (hs: seq<Happening>)
    requires Sane(s) && Resting(s, w, x) && x + 8 <= y1 < y2 < y3 && y3 * SECOND < 0x1_0000_0000
    requires (w.link.sendBind == x + 7 && y1 == x + 8 && y2 == x + 15 && y3 == x + 22)
          || (w.link.sendBind == x + 18 && y1 == x + 14 && y2 == x + 19 && y3 == x + 26)
    requires s.reply >= (y3 - (x + 8)) * SECOND + 1
    ensures CanRun(s, w, hs) && After(s, w, hs).dropped
  {
    hide Next, Can;
    var first := s.boot + (x + 8) * SECOND - 1;
    var beat, a := BeatLateInSecond(s, w, x);
    var second, b := SendAt(s, a, y1, first);
    Joined(s, w, beat, second);
    var third, c := SendAt(s, b, y2, first);
    Joined(s, w, beat + second, third);
    var fourth := DropAt(s, c, y3, first);
    Joined(s, w, beat + second + third, fourth);
    hs := beat + second + third + fourth;
  }

  /** With replies any later than that, nothing need be late and the device still drops the link, although
      the server has answered every message at once: a minute after it has bound itself, three messages
      can be on their way within that time, a beat at the end of the last second for it, and around the
      next bind two more. */
  lemma PatienceIsNeeded(s: Setting, w: World) returns (hs: seq<Happening>)
    requires Sane(s) && Begins(s, w) && w.now + 76 * SECOND < s.boot + 0x1_0000_0000
    requires s.reply > PatientFor(s)
    ensures CanRun(s, w, hs) && After(s, w, hs).dropped
  {
    FirstSecondSoon(s, w.now);
    hide Begins, Next, Resting, Can, FirstSecond;
    var k := FirstSecond(s, w.now);
    var bound, u := BoundAtOnce(s, w);
    RestingNow(s, u, k);
    var beats, b, last;
    if s.slack >= 1 {
      var long, a := Beats(s, u, k, 8, 4);
      var short;
      short, b := Beats(s, a, k + 32, 7, 3);
      Joined(s, u, long, short);
      beats := long + short;
      last := FourMessages(s, b, k + 53, k + 61, k + 68, k + 75);
    } else {
      beats, b := Beats(s, u, k, 7, 6);
      last := FourMessages(s, b, k + 42, k + 56, k + 61, k + 68);
    }
    Joined(s, w, bound, beats);
    Joined(s, w, bound + beats, last);
    hs := bound + beats + last;
  }

  lemma RestingNow(s: Setting, w: World, x: nat)
    requires |w.table.slots| == SLOTS && s.boot <= w.now == s.boot + x * SECOND
    requires w == World(w.table, Link(w.link.sendBind, x + BEAT_PERIOD, false, 0), false, w.now, w.now, w.now, w.now, [], 0)
    ensures Resting(s, w, x)
  {
  }

  lemma DropsThen(s: Setting, w: World, at: int)
    requires Sane(s) && Can(s, w, Loop(at)) && w.link.sendBeat < Seconds(s, at) && GivenUp(w.link)
    ensures Next(s, w, Loop(at)).dropped
  {
  }

  // ----- exactly

  /** Neither side gives the other up, whatever happens in time. */
  ghost predicate Lasting(s: Setting, w: World)
    requires Sane(s)
  {
    forall hs | CanRun(s, w, hs) :: Enabled(After(s, w, hs).table, s.fd) && !After(s, w, hs).dropped
  }

  /** The two bounds are exact. */
  lemma LastingIsLenient(s: Setting, w: World)
    requires Sane(s) && Begins(s, w)
    requires w.now + 76 * SECOND < s.boot + 0x1_0000_0000 && w.table.due <= w.now + LIFETIME
    ensures Lasting(s, w) <==> Lenient(s)
  {
    hide Begins, Can, Next;
    if Lenient(s) {
      forall hs | CanRun(s, w, hs) ensures Enabled(After(s, w, hs).table, s.fd) && !After(s, w, hs).dropped {
        NobodyGivesUp(s, w, hs);
      }
    } else if s.reply > PatientFor(s) {
      var hs := PatienceIsNeeded(s, w);
      assert !Lasting(s, w);
    } else {
      var hs := MarginIsNeeded(s, w);
      assert !Lasting(s, w);
    }
  }
}
