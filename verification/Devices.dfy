/** The device's side of the connection: when it binds, when it beats, and when it gives the link up
    because three messages in a row have gone unanswered. Its clock is read in whole seconds. */
module Devices {
  const BIND_PERIOD: nat := 60
  const BEAT_PERIOD: nat := 6
  const PATIENCE: nat := 3

  /** `timestamp_send_bind`, `timestamp_send_beat`, `response_not_recv`, `response_lost_count` */
  datatype Link = Link(sendBind: nat, sendBeat: nat, notRecv: bool, lost: nat)

  datatype Action = Idle | SendBind | SendBeat | Drop

  const CONNECTED: Link := Link(0, 0, false, 0)

  predicate GivenUp(l: Link) { l.notRecv && l.lost >= PATIENCE }

  function Due(l: Link, now: nat): Action {
    if l.sendBind < now then (if GivenUp(l) then Drop else SendBind)
    else if l.sendBeat < now then (if GivenUp(l) then Drop else SendBeat)
    else Idle
  }

  /** The link after a turn; `sent` is whether the message, if one was due, went out. */
  function Checked(l: Link, now: nat, sent: bool): Link {
    match Due(l, now)
    case SendBind => Counted(Link(now + BIND_PERIOD, now + BEAT_PERIOD, l.notRecv, l.lost), sent)
    case SendBeat => Counted(Link(l.sendBind, now + BEAT_PERIOD, l.notRecv, l.lost), sent)
    case _ => l
  }

  /** Only a message that has gone out waits for a reply. */
  function Counted(l: Link, sent: bool): Link {
    if sent then l.(notRecv := true, lost := l.lost + 1) else l
  }

  /** The link after a reply; only `true` as its status counts. */
  function Answered(l: Link, status: bool): Link {
    if status && l.notRecv then l.(notRecv := false, lost := 0) else l
  }

  /** After a message nothing is due for 6 s; then a beat is, and 60 s after a bind another bind. A link that
      has been given up is dropped instead. */
  lemma Periods(l: Link, now: nat, sent: bool, later: nat)
    requires now <= later && (Due(l, now) == SendBind || Due(l, now) == SendBeat)
    ensures var m := Checked(l, now, sent);
            var bindAt := if Due(l, now) == SendBind then now + 60 else l.sendBind;
            Due(m, later) == if later <= now + 6 && later <= bindAt then Idle
                             else if m.notRecv && m.lost >= 3 then Drop
                             else if later > bindAt then SendBind else SendBeat
  {
  }

  /** The third message in a row that goes out without a reply to any is the last: when the next is due the
      link is dropped. A reply of true at any time before takes it back to the beginning. */
  lemma ThreeUnanswered(l: Link, a: nat, b: nat, c: nat, d: nat)
    requires !l.notRecv && l.lost == 0 && Due(l, a) != Idle
    requires var l1 := Checked(l, a, true); Due(l1, b) != Idle
    requires var l2 := Checked(Checked(l, a, true), b, true); Due(l2, c) != Idle
    ensures var l1 := Checked(l, a, true);
            var l2 := Checked(l1, b, true);
            var l3 := Checked(l2, c, true);
            && Due(l, a) != Drop && Due(l1, b) != Drop && Due(l2, c) != Drop
            && (Due(l3, d) == Idle || Due(l3, d) == Drop)
            && (forall m | m in {l1, l2, l3} :: var r := Answered(m, true); !r.notRecv && r.lost == 0)
            && (forall m | m in {l1, l2, l3} :: Answered(m, false) == m)
  {
  }

  class Device {
    var sendBind: nat
    var sendBeat: nat
    var notRecv: bool
    var lost: nat

    ghost function Abstract(): Link
      reads this
    {
      Link(sendBind, sendBeat, notRecv, lost)
    }

    /** Just connected. */
    constructor ()
      ensures Abstract() == CONNECTED
    {
      sendBind, sendBeat, notRecv, lost := 0, 0, false, 0;
    }

    /** The first half of the loop body, up to `recv`; `sent` is whether `send` succeeds. */
    method Check(now: nat, sent: bool) returns (action: Action)
      modifies this
      ensures action == Due(old(Abstract()), now) && Abstract() == Checked(old(Abstract()), now, sent)
    {
      if sendBind < now {
        if notRecv {
          if 3 <= lost {
            return Drop;
          }
        }
        sendBind := now + 60;
        sendBeat := now + 6;
        if sent {
          notRecv := true;
          lost := lost + 1;
        }
        return SendBind;
      } else if sendBeat < now {
        if notRecv {
          if 3 <= lost {
            return Drop;
          }
        }
        sendBeat := now + 6;
        if sent {
          notRecv := true;
          lost := lost + 1;
        }
        return SendBeat;
      }
      return Idle;
    }

    /** What a reply to a bind or a beat does. */
    method Receive(status: bool)
      modifies this
      ensures Abstract() == Answered(old(Abstract()), status)
    {
      if status {
        if notRecv {
          notRecv := false;
          lost := 0;
        }
      }
    }
  }
}
