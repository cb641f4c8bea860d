/** Safety of logging out, over every order of messages and finished saves. */
module LogoutRuns {
  import opened Text
  import opened Logout

  datatype Event =
    | Arrives(message: Message, port: bool)
    | Settles(serial: nat, ok: bool)
    | Resumes(i: nat)

  /** A save settles once; a call goes on when its save has settled. */
  function Step(t: Tab, e: Event): Tab {
    match e
    case Arrives(m, port) => AfterMessage(t, m, port)
    case Settles(serial, ok) =>
      if serial < |t.saves| && t.saves[serial].Pending?
      then t.(saves := t.saves[serial := if ok then Saved else Failed]) else t
    case Resumes(i) =>
      if i < |t.waiters| && !t.SaveOf(t.waiters[i]).Pending?
      then AfterWaiting(t.(waiters := Without(t.waiters, i)), t.waiters[i]) else t
  }

  /** The tab after a run; the last event last. */
  function Run(events: seq<Event>): Tab
    decreases |events|
  {
    if events == [] then UNTOUCHED
    else Step(Run(events[..|events| - 1]), events[|events| - 1])
  }

  lemma RunMore(events: seq<Event>, e: Event)
    ensures Run(events + [e]) == Step(Run(events), e)
  {
    assert (events + [e])[..|events|] == events;
  }

  /** How often a tab has left. */
  function Departures(effects: seq<Effect>): nat {
    if effects == [] then 0
    else Departures(effects[..|effects| - 1]) + if effects[|effects| - 1].Left? then 1 else 0
  }

  /** A step at which the tab leaves: a force, or a call that goes on from a
      `logout-complete` for the attempt still current, whose save succeeded,
      in an editor that is not preserved. */
  predicate LeavesAt(t: Tab, e: Event) {
    || (e.Arrives? && e.message.kind.Force?)
    || (&& e.Resumes? && e.i < |t.waiters| && t.waiters[e.i].ToLeave?
        && t.attempt == Some(t.waiters[e.i].attempt) && t.SaveOf(t.waiters[e.i]).Saved? && !t.preserved)
  }

  lemma {:induction false} DeparturesMore(effects: seq<Effect>, f: Effect)
    ensures Departures(effects + [f]) == Departures(effects) + if f.Left? then 1 else 0
  {
    assert (effects + [f])[..|effects|] == effects;
  }

  lemma AnswerDeparts(t: Tab, port: bool, f: Effect)
    requires !f.Left?
    ensures Departures(t.Answer(port, f).effects) == Departures(t.effects)
    ensures Departures(t.With(f).effects) == Departures(t.effects)
  {
    DeparturesMore(t.effects, f);
  }

  lemma MessageDeparts(t: Tab, m: Message, port: bool)
    ensures Departures(AfterMessage(t, m, port).effects) == Departures(t.effects) + if m.kind.Force? then 1 else 0
  {
    hide Departures;
    match m.kind
    case Force =>
      DeparturesMore(t.effects, Left(m.localLockIncomplete));
      AnswerDeparts(t.(revoked := true, frozen := true).With(Left(m.localLockIncomplete)), port, Confirmed(m.id));
    case Save =>
      AnswerDeparts(t, port, Refused(m.id, OpenForRecovery));
      AnswerDeparts(t, port, Refused(m.id, AnotherLogout));
    case _ =>
  }

  lemma ReplyDeparts(t: Tab, w: Waiter)
    requires w.ToReply?
    ensures Departures(AfterWaiting(t, w).effects) == Departures(t.effects)
  {
    hide Departures;
    var why := if t.SaveOf(w).Saved? then Cancelled else NotSaved;
    AnswerDeparts(t, w.port, Confirmed(w.id));
    var u := t.(frozen := t.frozen && !t.revoked);
    AnswerDeparts(u, w.port, if w.port then Refused(w.id, why) else Rejected(w.id, why));
  }

  lemma WaitDeparts(t: Tab, w: Waiter)
    requires w.ToLeave?
    ensures Departures(AfterWaiting(t, w).effects) ==
            Departures(t.effects) + if t.SaveOf(w).Saved? && t.attempt == Some(w.attempt) && !t.preserved then 1 else 0
  {
    hide Departures;
    DeparturesMore(t.effects, Left(w.localLockIncomplete));
  }

  /** At no other step does it leave. */
  lemma StepDeparts(t: Tab, e: Event)
    ensures Departures(Step(t, e).effects) == Departures(t.effects) + if LeavesAt(t, e) then 1 else 0
  {
    hide Departures, AfterMessage, AfterWaiting;
    match e
    case Arrives(m, port) => MessageDeparts(t, m, port);
    case Settles(_, _) =>
    case Resumes(i) =>
      if i < |t.waiters| && !t.SaveOf(t.waiters[i]).Pending? {
        var w, u := t.waiters[i], t.(waiters := Without(t.waiters, i));
        if w.ToReply? { ReplyDeparts(u, w); } else { WaitDeparts(u, w); }
      }
  }

  // ----- frozen and preserved -----

  predicate NoForce(events: seq<Event>) {
    forall e <- events :: e.Arrives? ==> !e.message.kind.Force?
  }

  /** A frozen editor is taking part in a logout. */
  lemma {:induction false} FrozenIsActive(events: seq<Event>)
    ensures Run(events).frozen ==> Run(events).Active()
    decreases |events|
  {
    if events != [] { FrozenIsActive(events[..|events| - 1]); }
  }

  /** From when an editor is preserved until a force, it stays preserved, is
      not frozen, and does not leave. */
  lemma {:induction false} PreservedStaysOpen(events: seq<Event>, more: seq<Event>)
    requires Run(events).preserved && !Run(events).frozen && NoForce(more)
    ensures var t := Run(events + more);
            t.preserved && !t.frozen && Departures(t.effects) == Departures(Run(events).effects)
    decreases |more|
  {
    hide Run, AfterMessage, AfterWaiting, Step, Departures;
    if more == [] {
      assert events + more == events;
    } else {
      var init, e := more[..|more| - 1], more[|more| - 1];
      assert e in more && more == init + [e];
      PreservedStaysOpen(events, init);
      assert events + more == events + init + [e];
      RunMore(events + init, e);
      StepPreserved(Run(events + init), e);
      StepDeparts(Run(events + init), e);
    }
  }

  lemma StepPreserved(t: Tab, e: Event)
    requires t.preserved && !t.frozen && !(e.Arrives? && e.message.kind.Force?)
    ensures Step(t, e).preserved && !Step(t, e).frozen
  {
  }

  /** An editor is not frozen at the moment it becomes preserved ... */
  lemma PreservedOpens(t: Tab, e: Event)
    ensures !t.preserved && Step(t, e).preserved ==> !Step(t, e).frozen
  {
  }

  /** ... so without a force no preserved editor is ever frozen. */
  lemma {:induction false} PreservedIsOpen(events: seq<Event>)
    requires NoForce(events)
    ensures Run(events).preserved ==> !Run(events).frozen
    decreases |events|
  {
    hide AfterMessage, AfterWaiting, Step;
    if events != [] {
      var init, e := events[..|events| - 1], events[|events| - 1];
      assert e in events;
      PreservedIsOpen(init);
      if Run(init).preserved {
        StepPreserved(Run(init), e);
      } else {
        PreservedOpens(Run(init), e);
      }
    }
  }

  // ----- leaving -----

  /** The save of the attempt with this serial succeeded in the run. */
  ghost predicate SavedIn(events: seq<Event>, serial: nat) {
    Settles(serial, true) in events
  }

  /** A `logout-save` began the attempt `a` in the run. */
  ghost predicate BegunIn(events: seq<Event>, a: Attempt) {
    exists i | 0 <= i < |events| :: BeginsAt(events, i, a)
  }

  ghost predicate BeginsAt(events: seq<Event>, i: nat, a: Attempt)
    requires i < |events|
  {
    && events[i].Arrives? && events[i].message.kind.Save? && events[i].message.id == a.id
    && Run(events[..i]).attempt.None? && !Run(events[..i]).preserved && |Run(events[..i]).saves| == a.serial
  }

  /** A `logout-complete` for the attempt `a` came while it was current. */
  ghost predicate CompletedIn(events: seq<Event>, a: Attempt) {
    exists i | 0 <= i < |events| :: CompletesAt(events, i, a)
  }

  ghost predicate CompletesAt(events: seq<Event>, i: nat, a: Attempt)
    requires i < |events|
  {
    && events[i].Arrives? && events[i].message.kind.Complete? && events[i].message.id == a.id
    && Run(events[..i]).attempt == Some(a)
  }

  lemma BegunEarlier(events: seq<Event>, e: Event, a: Attempt)
    ensures BegunIn(events, a) ==> BegunIn(events + [e], a)
    ensures CompletedIn(events, a) ==> CompletedIn(events + [e], a)
  {
    hide Run;
    if i :| 0 <= i < |events| && BeginsAt(events, i, a) {
      assert (events + [e])[..i] == events[..i];
      assert BeginsAt(events + [e], i, a);
    }
    if i :| 0 <= i < |events| && CompletesAt(events, i, a) {
      assert (events + [e])[..i] == events[..i];
      assert CompletesAt(events + [e], i, a);
    }
  }

  lemma BegunNow(events: seq<Event>, e: Event, a: Attempt)
    requires e.Arrives? && e.message.id == a.id
    ensures e.message.kind.Save? && Run(events).attempt.None? && !Run(events).preserved &&
            |Run(events).saves| == a.serial
            ==> BegunIn(events + [e], a)
    ensures e.message.kind.Complete? && Run(events).attempt == Some(a) ==> CompletedIn(events + [e], a)
  {
    hide Run;
    var es, n := events + [e], |events|;
    assert es[..n] == events && es[n] == e;
    if e.message.kind.Save? && Run(events).attempt.None? && !Run(events).preserved && |Run(events).saves| == a.serial {
      assert BeginsAt(es, n, a);
    }
    if e.message.kind.Complete? && Run(events).attempt == Some(a) {
      assert CompletesAt(es, n, a);
    }
  }

  /** What an attempt says about the run. */
  ghost predicate Known(events: seq<Event>, t: Tab, a: Attempt) {
    a.serial < |t.saves| && BegunIn(events, a)
  }

  ghost predicate KnownWaiter(events: seq<Event>, t: Tab, w: Waiter) {
    match w
    case ToReply(serial, id, _) => Known(events, t, Attempt(id, serial))
    case ToLeave(a, _) => Known(events, t, a) && CompletedIn(events, a)
  }

  /** What the calls that wait, and the saves, say about it. */
  ghost predicate Traced(events: seq<Event>, t: Tab) {
    && (t.attempt.Some? ==> Known(events, t, t.attempt.value))
    && (forall w <- t.waiters :: KnownWaiter(events, t, w))
    && (forall s: nat | s < |t.saves| :: t.saves[s].Saved? ==> SavedIn(events, s))
  }

  lemma StillKnown(events: seq<Event>, e: Event, t: Tab, t': Tab, w: Waiter)
    requires KnownWaiter(events, t, w) && |t.saves| <= |t'.saves|
    ensures KnownWaiter(events + [e], t', w)
  {
    hide BegunIn, CompletedIn;
    BegunEarlier(events, e, if w.ToReply? then Attempt(w.id, w.serial) else w.attempt);
  }

  /** A step makes at most one waiting call more, for the current attempt. */
  lemma StepWaiters(t: Tab, e: Event, w: Waiter)
    requires w in Step(t, e).waiters && w !in t.waiters
    ensures e.Arrives? && Step(t, e).attempt.Some?
    ensures var a := Step(t, e).attempt.value;
            || (w == ToReply(a.serial, a.id, e.port) && e.message.kind.Save? && e.message.id == a.id)
            || (&& w.ToLeave? && w.attempt == a && t.attempt == Some(a)
                && e.message.kind.Complete? && e.message.id == a.id)
  {
  }

  /** An attempt is begun by a `logout-save`, with a save of its own. */
  lemma StepAttempt(t: Tab, e: Event)
    ensures |t.saves| <= |Step(t, e).saves|
    ensures var a := Step(t, e).attempt;
            a.Some? && a != t.attempt ==>
              e.Arrives? && e.message.kind.Save? && t.attempt.None? && !t.preserved &&
              a.value == Attempt(e.message.id, |t.saves|) && a.value.serial < |Step(t, e).saves|
  {
  }

  lemma StepSaves(t: Tab, e: Event, s: nat)
    requires s < |Step(t, e).saves| && Step(t, e).saves[s].Saved?
    ensures (s < |t.saves| && t.saves[s].Saved?) || e == Settles(s, true)
  {
  }

  lemma {:induction false} RunIsTraced(events: seq<Event>)
    ensures Traced(events, Run(events))
    decreases |events|
  {
    if events != [] {
      var init, e := events[..|events| - 1], events[|events| - 1];
      RunIsTraced(init);
      assert events == init + [e];
      RunMore(init, e);
      hide Run, Step, BegunIn, CompletedIn;
      var t, t' := Run(init), Run(events);
      StepAttempt(t, e);
      if t'.attempt.Some? {
        BegunEarlier(init, e, t'.attempt.value);
        if t'.attempt != t.attempt { BegunNow(init, e, t'.attempt.value); }
      }
      forall w <- t'.waiters ensures KnownWaiter(events, t', w) {
        if w in t.waiters {
          StillKnown(init, e, t, t', w);
        } else {
          StepWaiters(t, e, w);
          BegunNow(init, e, t'.attempt.value);
        }
      }
      forall s: nat | s < |t'.saves| && t'.saves[s].Saved? ensures SavedIn(events, s) {
        StepSaves(t, e, s);
      }
    }
  }

  /** Without a force a tab leaves only when the current attempt was begun by a
      `logout-save`, a `logout-complete` for it came while it was current, its
      save has succeeded, and the editor is not preserved. */
  lemma LeavesOnlyWhenSaved(events: seq<Event>, e: Event)
    requires Departures(Run(events + [e]).effects) != Departures(Run(events).effects)
    ensures var t := Run(events);
            || (e.Arrives? && e.message.kind.Force?)
            || (&& !t.preserved && t.attempt.Some?
                && BegunIn(events, t.attempt.value) && CompletedIn(events, t.attempt.value)
                && SavedIn(events, t.attempt.value.serial))
  {
    RunIsTraced(events);
    RunMore(events, e);
    hide Run, Step, BegunIn, CompletedIn;
    var t := Run(events);
    StepDeparts(t, e);
    if e.Resumes? {
      assert t.waiters[e.i] in t.waiters;
      assert KnownWaiter(events, t, t.waiters[e.i]);
    }
  }

  /** A logout that is saved, completed and not preserved does leave. */
  lemma CompletedLogoutLeaves(t: Tab, m: Message, port: bool)
    requires t.attempt.Some? && m.kind.Complete? && m.id == t.attempt.value.id && !t.preserved
    requires t.attempt.value.serial < |t.saves| && t.saves[t.attempt.value.serial].Saved?
    ensures var t1 := Step(t, Arrives(m, port)); var t2 := Step(t1, Resumes(|t.waiters|));
            Departures(t2.effects) == Departures(t.effects) + 1 && t2.frozen == t.frozen
  {
    StepDeparts(t, Arrives(m, port));
    var t1 := Step(t, Arrives(m, port));
    StepDeparts(t1, Resumes(|t.waiters|));
    hide Departures;
  }

  // ----- what a confirmation means -----

  predicate ConfirmsAt(t: Tab, e: Event) {
    e.Resumes? && e.i < |t.waiters| && t.waiters[e.i].ToReply? && t.waiters[e.i].port &&
    t.SaveOf(t.waiters[e.i]).Saved? &&
    t.attempt.Some? && t.attempt.value.id == t.waiters[e.i].id
  }

  /** No id names two attempts. */
  ghost predicate FreshIds(events: seq<Event>) {
    forall a, b :: BegunIn(events, a) && BegunIn(events, b) && a.id == b.id ==> a == b
  }

  /** A confirmation means that an attempt with its id is saved; with fresh ids
      it is the current one. */
  lemma ConfirmedMeansSaved(events: seq<Event>, e: Event)
    requires ConfirmsAt(Run(events), e)
    ensures var t := Run(events); var w := t.waiters[e.i];
            && SavedIn(events, w.serial) && BegunIn(events, Attempt(w.id, w.serial))
            && (FreshIds(events) ==> t.attempt == Some(Attempt(w.id, w.serial)))
  {
    RunIsTraced(events);
    hide Run, BegunIn, CompletedIn;
    var t := Run(events);
    var w := t.waiters[e.i];
    assert w in t.waiters && KnownWaiter(events, t, w);
    assert Known(events, t, t.attempt.value) && Known(events, t, Attempt(w.id, w.serial));
  }

  /** The attempt `a` is current, and its save is not over. */
  predicate Unsettled(t: Tab, a: Attempt) {
    t.attempt == Some(a) && a.serial < |t.saves| && t.saves[a.serial].Pending?
  }

  /** With `a` current and its save unfinished all along, the events bring a
      confirmation. */
  ghost predicate ConfirmsEarly(t: Tab, a: Attempt, events: seq<Event>)
    decreases |events|
  {
    && Unsettled(t, a) && events != []
    && (ConfirmsAt(t, events[0]) || ConfirmsEarly(Step(t, events[0]), a, events[1..]))
  }

  /** A call of another attempt with the same id waits for an answer, and its
      save has not failed. */
  predicate IsStale(t: Tab, a: Attempt, w: Waiter) {
    w.ToReply? && w.port && w.id == a.id && w.serial != a.serial && !t.SaveOf(w).Failed?
  }

  /** A call that joins the attempt, or begins one, waits for its own save; a save
      that failed stays failed. */
  lemma StepStale(t: Tab, e: Event, a: Attempt, w: Waiter)
    requires Step(t, e).attempt == Some(a) && w in Step(t, e).waiters && IsStale(Step(t, e), a, w)
    requires w in t.waiters ==> w.ToReply? && w.serial < |t.saves|
    ensures w in t.waiters && IsStale(t, a, w)
  {
    if w !in t.waiters { StepWaiters(t, e, w); }
  }

  /** The calls that wait do so for a save that was begun. */
  ghost predicate WaitForSaves(t: Tab) {
    forall w <- t.waiters :: w.ToReply? ==> w.serial < |t.saves|
  }

  lemma StepWaitsForSaves(t: Tab, e: Event)
    requires WaitForSaves(t) && (t.attempt.Some? ==> t.attempt.value.serial < |t.saves|)
    ensures WaitForSaves(Step(t, e))
  {
    var t' := Step(t, e);
    StepAttempt(t, e);
    forall w <- t'.waiters | w.ToReply? ensures w.serial < |t'.saves| {
      if w !in t.waiters { StepWaiters(t, e, w); }
    }
  }

  lemma {:induction false} EarlyNeedsStale(t: Tab, a: Attempt, events: seq<Event>) returns (w: Waiter)
    requires ConfirmsEarly(t, a, events) && WaitForSaves(t)
    ensures w in t.waiters && IsStale(t, a, w)
    decreases |events|
  {
    hide Step, WaitForSaves, IsStale;
    var e := events[0];
    if ConfirmsAt(t, e) {
      w := ConfirmedIsStale(t, a, e);
    } else {
      StepWaitsForSaves(t, e);
      w := EarlyNeedsStale(Step(t, e), a, events[1..]);
      WaitsForSave(t, w);
      IsToReply(Step(t, e), a, w);
      StepStale(t, e, a, w);
    }
  }

  lemma IsToReply(t: Tab, a: Attempt, w: Waiter)
    requires IsStale(t, a, w)
    ensures w.ToReply?
  {
  }

  lemma WaitsForSave(t: Tab, w: Waiter)
    requires WaitForSaves(t)
    ensures w in t.waiters && w.ToReply? ==> w.serial < |t.saves|
  {
  }

  lemma ConfirmedIsStale(t: Tab, a: Attempt, e: Event) returns (w: Waiter)
    requires ConfirmsAt(t, e) && Unsettled(t, a)
    ensures w in t.waiters && IsStale(t, a, w)
  {
    w := t.waiters[e.i];
  }

  lemma StaleConfirms(t: Tab, a: Attempt, w: Waiter) returns (events: seq<Event>)
    requires Unsettled(t, a) && WaitForSaves(t) && w in t.waiters && IsStale(t, a, w)
    ensures ConfirmsEarly(t, a, events)
  {
    var i :| 0 <= i < |t.waiters| && t.waiters[i] == w;
    if t.SaveOf(w).Saved? {
      events := [Resumes(i)];
      assert ConfirmsAt(t, Resumes(i));
    } else {
      events := [Settles(w.serial, true), Resumes(i)];
      var t' := Step(t, events[0]);
      assert ConfirmsAt(t', events[1]) && Unsettled(t', a) && events[1..][0] == events[1];
    }
  }

  /** While the save of the current attempt is not over, a confirmation can come
      early exactly if a call of another attempt with its id still waits, on a
      save that has not failed. A call that joins the attempt is none: it waits
      for the attempt's own save. */
  lemma ConfirmsEarlyIff(events: seq<Event>, a: Attempt)
    requires Unsettled(Run(events), a)
    ensures (exists more :: ConfirmsEarly(Run(events), a, more)) <==>
            (exists w <- Run(events).waiters :: IsStale(Run(events), a, w))
    ensures forall m: Message, port | m.kind.Save? && m.id == a.id && !Run(events).preserved ::
              Step(Run(events), Arrives(m, port)).waiters == Run(events).waiters + [ToReply(a.serial, a.id, port)]
  {
    hide Run;
    RunWaitsForSaves(events);
    hide IsStale, WaitForSaves, ConfirmsEarly;
    var t := Run(events);
    if more :| ConfirmsEarly(t, a, more) {
      var w := EarlyNeedsStale(t, a, more);
    }
    if w :| w in t.waiters && IsStale(t, a, w) {
      var more := StaleConfirms(t, a, w);
    }
  }

  lemma RunWaitsForSaves(events: seq<Event>)
    ensures WaitForSaves(Run(events))
  {
    RunIsTraced(events);
    hide Run, BegunIn, CompletedIn, SavedIn;
    var t := Run(events);
    forall w <- t.waiters | w.ToReply? ensures w.serial < |t.saves| {
      assert KnownWaiter(events, t, w);
    }
  }

  /** With an id used again it does: the call that waited for the cancelled
      attempt confirms the new one, whose save is unfinished. */
  lemma ReusedIdConfirmsEarly()
    ensures exists events, e :: ConfirmsAt(Run(events), e) && Run(events).attempt.Some? &&
                                Run(events).saves == [Saved, Pending] && Run(events).attempt.value.serial == 1
  {
    var save, cancel := Arrives(Message(Save, "a", false), true), Arrives(Message(Cancel, "a", false), true);
    var events := [save, cancel, save, Settles(0, true)];
    assert events[..3] == [save, cancel, save] && [save, cancel, save][..2] == [save, cancel];
    assert [save, cancel][..1] == [save] && [save][..0] == [];
    assert Run([save]) == Step(UNTOUCHED, save);
    assert Run([save, cancel]) == Step(Run([save]), cancel);
    assert Run([save, cancel, save]) == Step(Run([save, cancel]), save);
    var t := Run(events);
    assert t == Step(Run([save, cancel, save]), Settles(0, true));
    assert t.saves == [Saved, Pending];
    assert ConfirmsAt(t, Resumes(0));
  }
}
