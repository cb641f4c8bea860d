/** A tab's part in logging out: messages against an unfinished save. */
module Logout {
  import opened Text

  datatype MessageType = Save | Cancel | Complete | Revoked | Preserve | Force

  datatype Message = Message(kind: MessageType, id: string, localLockIncomplete: bool)

  /** An attempt is one object; the serial tells two with the same id apart. */
  datatype Attempt = Attempt(id: string, serial: nat)

  /** The promise of an attempt's save. */
  datatype Outcome = Pending | Saved | Failed

  /** The rest of a `handle` call that waits for a save. */
  datatype Waiter =
    | ToReply(serial: nat, id: string, port: bool)
    | ToLeave(attempt: Attempt, localLockIncomplete: bool)

  datatype Refusal = OpenForRecovery | AnotherLogout | Cancelled | NotSaved

  /** What the other side sees: answers on the port, a rejected `handle`, the
      tab leaving. */
  datatype Effect =
    | Confirmed(id: string)
    | Refused(id: string, why: Refusal)
    | Rejected(id: string, why: Refusal)
    | Left(localLockIncomplete: bool)

  /** The participant, with the saves and waiting calls of the runtime. */
  datatype Tab = Tab(
    attempt: Option<Attempt>,
    revoked: bool,
    preserved: bool,
    frozen: bool,
    saves: seq<Outcome>,
    waiters: seq<Waiter>,
    effects: seq<Effect>)
  {
    predicate Active() {
      revoked || attempt.Some?
    }

    function With(e: Effect): Tab {
      this.(effects := effects + [e])
    }

    function Answer(port: bool, e: Effect): Tab {
      if port then With(e) else this
    }

    function SaveOf(w: Waiter): Outcome {
      var serial := if w.ToReply? then w.serial else w.attempt.serial;
      if serial < |saves| then saves[serial] else Pending
    }
  }

  const UNTOUCHED := Tab(None, false, false, false, [], [], [])

  /** The synchronous part of handling a message. */
  function AfterMessage(t: Tab, m: Message, port: bool): Tab {
    match m.kind
    case Force =>
      t.(revoked := true, frozen := true).With(Left(m.localLockIncomplete)).Answer(port, Confirmed(m.id))
    case Revoked => t.(revoked := true)
    case Preserve => t.(revoked := true, preserved := true, frozen := false)
    case Save =>
      if t.preserved then t.Answer(port, Refused(m.id, OpenForRecovery))
      else if t.attempt.Some? && t.attempt.value.id != m.id then t.Answer(port, Refused(m.id, AnotherLogout))
      else if t.attempt.Some? then t.(waiters := t.waiters + [ToReply(t.attempt.value.serial, m.id, port)])
      else
        t.(attempt := Some(Attempt(m.id, |t.saves|)), frozen := true, saves := t.saves + [Pending],
           waiters := t.waiters + [ToReply(|t.saves|, m.id, port)])
    case Complete =>
      if t.attempt.None? || t.attempt.value.id != m.id then t
      else t.(revoked := true, waiters := t.waiters + [ToLeave(t.attempt.value, m.localLockIncomplete)])
    case Cancel =>
      if t.attempt.None? || t.attempt.value.id != m.id then t
      else if t.revoked then t.(preserved := true, frozen := false)
      else t.(attempt := None, frozen := false)
  }

  /** A call goes on when its save has settled. */
  function AfterWaiting(t: Tab, w: Waiter): Tab {
    match w
    case ToReply(_, id, port) =>
      var current := t.attempt.Some? && t.attempt.value.id == id;
      if t.SaveOf(w).Saved? && current then t.Answer(port, Confirmed(id))
      else
        var why := if t.SaveOf(w).Saved? then Cancelled else NotSaved;
        t.(frozen := t.frozen && !t.revoked).With(if port then Refused(id, why) else Rejected(id, why))
    case ToLeave(attempt, lock) =>
      if !t.SaveOf(w).Saved? then t.(frozen := false)
      else if t.attempt == Some(attempt) && !t.preserved then t.With(Left(lock))
      else t
  }

  function Without(ws: seq<Waiter>, i: nat): seq<Waiter>
    requires i < |ws|
  {
    ws[..i] + ws[i + 1..]
  }

  class LogoutParticipant {
    var attempt: Option<Attempt>
    var revoked: bool
    var preserved: bool
    var frozen: bool
    var saves: seq<Outcome>
    var waiters: seq<Waiter>
    var effects: seq<Effect>

    function State(): Tab
      reads this
    {
      Tab(attempt, revoked, preserved, frozen, saves, waiters, effects)
    }

    constructor ()
      ensures State() == UNTOUCHED
    {
      attempt, revoked, preserved, frozen, saves, waiters, effects := None, false, false, false, [], [], [];
    }

    method Post(port: bool, e: Effect)
      modifies this`effects
      ensures effects == if port then old(effects) + [e] else old(effects)
    {
      if port {
        effects := effects + [e];
      }
    }

    method Leave(localLockIncomplete: bool)
      modifies this`effects
      ensures effects == old(effects) + [Left(localLockIncomplete)]
    {
      effects := effects + [Left(localLockIncomplete)];
    }

    /** Runs up to the first `await`. */
    method Handle(message: Message, port: bool)
      modifies this
      ensures State() == AfterMessage(old(State()), message, port)
    {
      if message.kind == Force {
        revoked := true;
        frozen := true;
        Leave(message.localLockIncomplete);
        Post(port, Confirmed(message.id));
      } else if message.kind == Revoked || message.kind == Preserve {
        revoked := true;
        if message.kind == Preserve {
          preserved := true;
          frozen := false;
        }
      } else if message.kind == Save {
        if preserved {
          Post(port, Refused(message.id, OpenForRecovery));
          return;
        }
        if attempt.Some? && attempt.value.id != message.id {
          Post(port, Refused(message.id, AnotherLogout));
          return;
        }
        if attempt.None? {
          frozen := true;
          attempt := Some(Attempt(message.id, |saves|));
          saves := saves + [Pending];
        }
        waiters := waiters + [ToReply(attempt.value.serial, message.id, port)];
      } else if attempt.Some? && attempt.value.id == message.id {
        if message.kind == Complete {
          revoked := true;
          waiters := waiters + [ToLeave(attempt.value, message.localLockIncomplete)];
        } else {
          if !revoked {
            attempt := None;
          } else {
            preserved := true;
          }
          frozen := false;
        }
      }
    }

    /** The call at `i` goes on behind its `await`. */
    method Resume(i: nat)
      requires i < |waiters| && !State().SaveOf(waiters[i]).Pending?
      modifies this
      ensures var was := old(State());
              State() == AfterWaiting(was.(waiters := Without(was.waiters, i)), old(waiters[i]))
    {
      var w := waiters[i];
      var saved := State().SaveOf(w).Saved?;
      waiters := Without(waiters, i);
      match w {
        case ToReply(_, id, port) =>
          var why := NotSaved;
          if saved {
            if attempt.Some? && attempt.value.id == id {
              Post(port, Confirmed(id));
              return;
            }
            why := Cancelled;
          }
          Post(port, Refused(id, why));
          if revoked {
            frozen := false;
          }
          if !port {
            effects := effects + [Rejected(id, why)];
          }
        case ToLeave(captured, lock) =>
          if saved {
            if attempt == Some(captured) && !preserved {
              Leave(lock);
            }
          } else {
            frozen := false;
          }
      }
    }
  }
}
