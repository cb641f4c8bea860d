/** What each message of a logout does, over every run: what revokes, preserves
    and freezes an editor, what a cancel ends, and that every request with a port
    is answered once. */
module LogoutLaws {
  import opened Sequences
  import opened Text
  import opened Logout
  import opened LogoutRuns

  predicate IsCurrent(t: Tab, id: string) {
    t.attempt.Some? && t.attempt.value.id == id
  }

  /** A call goes on with the outcome of its save. */
  predicate GoesOn(t: Tab, e: Event) {
    e.Resumes? && e.i < |t.waiters| && !t.SaveOf(t.waiters[e.i]).Pending?
  }

  // ----- what holds from some event on -----

  ghost predicate Once(events: seq<Event>, happens: (Tab, Event) -> bool) {
    exists i | 0 <= i < |events| :: happens(Run(events[..i]), events[i])
  }

  lemma OnceMore(events: seq<Event>, e: Event, happens: (Tab, Event) -> bool)
    ensures Once(events + [e], happens) <==> Once(events, happens) || happens(Run(events), e)
  {
    hide Run;
    var es := events + [e];
    assert es[..|events|] == events && es[|events|] == e;
    assert forall i | 0 <= i < |events| :: es[..i] == events[..i] && es[i] == events[i];
    if i :| 0 <= i < |events| && happens(Run(events[..i]), events[i]) {
      assert happens(Run(es[..i]), es[i]);
    }
  }

  predicate Revokes(t: Tab, e: Event) {
    && e.Arrives?
    && (e.message.kind in {Revoked, Preserve, Force} || (e.message.kind.Complete? && IsCurrent(t, e.message.id)))
  }

  predicate Preserves(t: Tab, e: Event) {
    && e.Arrives?
    && (e.message.kind.Preserve? || (e.message.kind.Cancel? && IsCurrent(t, e.message.id) && t.revoked))
  }

  lemma StepFlags(t: Tab, e: Event)
    ensures Step(t, e).revoked <==> t.revoked || Revokes(t, e)
    ensures Step(t, e).preserved <==> t.preserved || Preserves(t, e)
  {
  }

  /** Signing out is final from the first message that says so, a completion of
      the current attempt included. */
  lemma {:induction false} RevokedIff(events: seq<Event>)
    ensures Run(events).revoked <==> Once(events, Revokes)
    decreases |events|
  {
    if events != [] {
      var init, e := events[..|events| - 1], events[|events| - 1];
      assert events == init + [e];
      RevokedIff(init);
      hide Step, Once, Revokes;
      StepFlags(Run(init), e);
      OnceMore(init, e, Revokes);
    }
  }

  /** An editor is preserved exactly from a request for that, or from a cancel of
      the current attempt when signing out is final already. */
  lemma {:induction false} PreservedIff(events: seq<Event>)
    ensures Run(events).preserved <==> Once(events, Preserves)
    decreases |events|
  {
    if events != [] {
      var init, e := events[..|events| - 1], events[|events| - 1];
      assert events == init + [e];
      PreservedIff(init);
      hide Step, Once, Preserves;
      StepFlags(Run(init), e);
      OnceMore(init, e, Preserves);
    }
  }

  // ----- attempts -----

  predicate Begins(t: Tab, e: Event) {
    e.Arrives? && e.message.kind.Save? && !t.preserved && t.attempt.None?
  }

  /** A cancel ends the attempt it names, unless signing out is final. */
  predicate Ends(t: Tab, e: Event) {
    e.Arrives? && e.message.kind.Cancel? && IsCurrent(t, e.message.id) && !t.revoked
  }

  lemma AttemptChanges(t: Tab, e: Event)
    ensures Step(t, e).attempt ==
            if Begins(t, e) then Some(Attempt(e.message.id, |t.saves|)) else if Ends(t, e) then None else t.attempt
    ensures |Step(t, e).saves| == |t.saves| + if Begins(t, e) then 1 else 0
  {
  }

  /** Past attempt `a`: another one, if any, has a later save. */
  predicate IsOver(t: Tab, a: Attempt) {
    a.serial < |t.saves| && (t.attempt.Some? ==> t.attempt.value.serial > a.serial)
  }

  lemma StepKeepsOver(t: Tab, e: Event, a: Attempt)
    requires IsOver(t, a)
    ensures IsOver(Step(t, e), a)
  {
    AttemptChanges(t, e);
    hide Step;
  }

  /** No step of the run without a force makes the tab leave for `a`. */
  ghost predicate NeverLeavesFor(t: Tab, a: Attempt, events: seq<Event>)
    decreases |events|
  {
    events == [] ||
    (!(t.attempt == Some(a) && LeavesAt(t, events[0])) && NeverLeavesFor(Step(t, events[0]), a, events[1..]))
  }

  predicate IsOpen(t: Tab) {
    t.preserved && !t.frozen
  }

  lemma {:induction false} OpenNeverLeaves(t: Tab, a: Attempt, events: seq<Event>)
    requires IsOpen(t) && NoForce(events)
    ensures NeverLeavesFor(t, a, events)
    decreases |events|
  {
    hide Step;
    if events != [] {
      assert events[0] in events;
      StepPreserved(t, events[0]);
      OpenNeverLeaves(Step(t, events[0]), a, events[1..]);
    }
  }

  lemma {:induction false} OverNeverLeaves(t: Tab, a: Attempt, events: seq<Event>)
    requires IsOver(t, a)
    ensures NeverLeavesFor(t, a, events)
    decreases |events|
  {
    hide Step, LeavesAt;
    if events != [] {
      StepKeepsOver(t, events[0], a);
      OverNeverLeaves(Step(t, events[0]), a, events[1..]);
    }
  }

  /** After a cancel of the current attempt no later step but a force makes the
      tab leave for it. Once signing out is final the cancel, like a request to
      preserve, leaves the editor open and preserved; before that it ends the
      attempt. */
  lemma CancelKeepsTab(events: seq<Event>, m: Message, port: bool, more: seq<Event>)
    requires m.kind.Cancel? && IsCurrent(Run(events), m.id) && NoForce(more)
    ensures var t, t' := Run(events), Run(events + [Arrives(m, port)]);
            && NeverLeavesFor(t', t.attempt.value, more)
            && !t'.frozen && t'.effects == t.effects
            && (if t.revoked then t'.preserved && t'.attempt == t.attempt else t'.attempt.None?)
  {
    RunMore(events, Arrives(m, port));
    RunIsTraced(events);
    hide Run, BegunIn;
    var t, t' := Run(events), Step(Run(events), Arrives(m, port));
    if t.revoked {
      OpenNeverLeaves(t', t.attempt.value, more);
    } else {
      OverNeverLeaves(t', t.attempt.value, more);
    }
  }

  // ----- frozen -----

  predicate Freezes(t: Tab, e: Event) {
    Begins(t, e) || (e.Arrives? && e.message.kind.Force?)
  }

  /** What lets the user edit again: a request to preserve, a cancel of the
      current attempt, and once signing out is final a call that goes on without
      its save, or for an attempt that is not current; a completion that goes on
      without its save in any case. */
  predicate Unfreezes(t: Tab, e: Event) {
    || (e.Arrives? && e.message.kind.Preserve?)
    || (e.Arrives? && e.message.kind.Cancel? && IsCurrent(t, e.message.id))
    || (&& GoesOn(t, e)
        && var w := t.waiters[e.i];
           if w.ToLeave? then t.SaveOf(w).Failed?
           else t.revoked && (t.SaveOf(w).Failed? || !IsCurrent(t, w.id)))
  }

  /** An editor is frozen by the begin of an attempt or a force, and only the
      steps above unfreeze it. */
  lemma FrozenIff(t: Tab, e: Event)
    ensures Step(t, e).frozen <==> Freezes(t, e) || (t.frozen && !Unfreezes(t, e))
  {
  }

  // ----- answers -----

  /** What a step shows to the other side. */
  function Shown(t: Tab, e: Event): (r: seq<Effect>)
    requires t.effects <= Step(t, e).effects
  {
    Step(t, e).effects[|t.effects|..]
  }

  /** The effects of a step, listed. */
  function Says(t: Tab, e: Event): seq<Effect> {
    match e
    case Arrives(m, port) =>
      if m.kind.Force? then [Left(m.localLockIncomplete)] + if port then [Confirmed(m.id)] else []
      else if !m.kind.Save? || !port then []
      else if t.preserved then [Refused(m.id, OpenForRecovery)]
      else if t.attempt.Some? && t.attempt.value.id != m.id then [Refused(m.id, AnotherLogout)]
      else []
    case Settles(_, _) => []
    case Resumes(i) =>
      if !GoesOn(t, e) then []
      else match t.waiters[i]
        case ToReply(_, id, port) => Replies(t.SaveOf(t.waiters[i]).Saved?, IsCurrent(t, id), id, port)
        case ToLeave(a, lock) =>
          if t.SaveOf(t.waiters[i]).Saved? && t.attempt == Some(a) && !t.preserved then [Left(lock)] else []
  }

  function Replies(saved: bool, current: bool, id: string, port: bool): seq<Effect> {
    if saved && current then if port then [Confirmed(id)] else []
    else
      var why := if saved then Cancelled else NotSaved;
      [if port then Refused(id, why) else Rejected(id, why)]
  }

  lemma ForceSays(t: Tab, lock: bool, id: string, port: bool)
    ensures t.With(Left(lock)).Answer(port, Confirmed(id)).effects ==
            t.effects + ([Left(lock)] + if port then [Confirmed(id)] else [])
  {
    if port {
      Assoc(t.effects, [Left(lock)], [Confirmed(id)]);
    } else {
      NothingAdded([Left(lock)]);
    }
  }

  lemma MessageSays(t: Tab, m: Message, port: bool)
    ensures AfterMessage(t, m, port).effects == t.effects + Says(t, Arrives(m, port))
  {
    NothingAdded(t.effects);
    if m.kind.Force? {
      ForceSays(t.(revoked := true, frozen := true), m.localLockIncomplete, m.id, port);
    }
  }

  lemma ReplySays(t: Tab, w: Waiter)
    requires w.ToReply?
    ensures AfterWaiting(t, w).effects == t.effects + Replies(t.SaveOf(w).Saved?, IsCurrent(t, w.id), w.id, w.port)
  {
    NothingAdded(t.effects);
  }

  lemma StepSays(t: Tab, e: Event)
    ensures Step(t, e).effects == t.effects + Says(t, e)
  {
    if e.Arrives? {
      MessageSays(t, e.message, e.port);
    } else {
      NothingAdded(t.effects);
      if GoesOn(t, e) && t.waiters[e.i].ToReply? {
        ReplySays(t.(waiters := Without(t.waiters, e.i)), t.waiters[e.i]);
      }
    }
    hide AfterMessage, Replies;
  }

  lemma ShownIs(t: Tab, e: Event)
    ensures t.effects <= Step(t, e).effects && Shown(t, e) == Says(t, e)
  {
    StepSays(t, e);
    hide Step, Says;
    SplitConcat(t.effects, Says(t, e));
  }

  predicate ArrivesWith(e: Event, kind: MessageType, id: string, port: bool) {
    e.Arrives? && e.message.kind == kind && e.message.id == id && e.port == port
  }

  predicate RepliesTo(t: Tab, e: Event, id: string, port: bool) {
    GoesOn(t, e) && t.waiters[e.i].ToReply? && t.waiters[e.i].id == id && t.waiters[e.i].port == port
  }

  /** What each answer means. */
  lemma AnswersMean(t: Tab, e: Event, id: string)
    ensures t.effects <= Step(t, e).effects
    ensures var shown := Shown(t, e);
            && (Confirmed(id) in shown <==>
                  || ArrivesWith(e, Force, id, true)
                  || (RepliesTo(t, e, id, true) && t.SaveOf(t.waiters[e.i]).Saved? && IsCurrent(t, id)))
            && (Refused(id, OpenForRecovery) in shown <==> ArrivesWith(e, Save, id, true) && t.preserved)
            && (Refused(id, AnotherLogout) in shown <==>
                  ArrivesWith(e, Save, id, true) && !t.preserved && t.attempt.Some? && t.attempt.value.id != id)
    ensures forall port :: var shown := Shown(t, e);
              && ((if port then Refused(id, Cancelled) else Rejected(id, Cancelled)) in shown <==>
                    RepliesTo(t, e, id, port) && t.SaveOf(t.waiters[e.i]).Saved? && !IsCurrent(t, id))
              && ((if port then Refused(id, NotSaved) else Rejected(id, NotSaved)) in shown <==>
                    RepliesTo(t, e, id, port) && t.SaveOf(t.waiters[e.i]).Failed?)
  {
    ShownIs(t, e);
    hide Step, Shown;
  }

  /** The flag a tab leaves with is that of the force or the completion. */
  lemma LeavesWithFlag(t: Tab, e: Event, lock: bool)
    ensures t.effects <= Step(t, e).effects
    ensures Left(lock) in Shown(t, e) <==>
            LeavesAt(t, e) && lock == if e.Arrives? then e.message.localLockIncomplete
                                      else t.waiters[e.i].localLockIncomplete
  {
    ShownIs(t, e);
    hide Step, Shown;
  }

  function CountRequests(events: seq<Event>): nat {
    if events == [] then 0
    else CountRequests(events[..|events| - 1]) + if IsRequest(events[|events| - 1]) then 1 else 0
  }

  /** A save or a force with a port to answer on. */
  predicate IsRequest(e: Event) {
    e.Arrives? && e.port && e.message.kind in {Save, Force}
  }

  function CountAnswers(effects: seq<Effect>): nat {
    if effects == [] then 0
    else CountAnswers(effects[..|effects| - 1]) +
         if effects[|effects| - 1].Confirmed? || effects[|effects| - 1].Refused? then 1 else 0
  }

  function CountOwed(waiters: seq<Waiter>): nat {
    if waiters == [] then 0 else (if IsOwed(waiters[0]) then 1 else 0) + CountOwed(waiters[1..])
  }

  predicate IsOwed(w: Waiter) {
    w.ToReply? && w.port
  }

  lemma {:induction false} AnswersMore(effects: seq<Effect>, f: Effect)
    ensures CountAnswers(effects + [f]) == CountAnswers(effects) + if f.Confirmed? || f.Refused? then 1 else 0
  {
    assert (effects + [f])[..|effects|] == effects;
  }

  lemma {:induction false} OwedMore(waiters: seq<Waiter>, w: Waiter)
    ensures CountOwed(waiters + [w]) == CountOwed(waiters) + if IsOwed(w) then 1 else 0
  {
    if waiters == [] {
      assert [w][1..] == [];
      assert waiters + [w] == [w];
    } else {
      assert (waiters + [w])[1..] == waiters[1..] + [w];
      OwedMore(waiters[1..], w);
    }
  }

  lemma {:induction false} OwedLess(waiters: seq<Waiter>, i: nat)
    requires i < |waiters|
    ensures CountOwed(waiters) == CountOwed(Without(waiters, i)) + if IsOwed(waiters[i]) then 1 else 0
  {
    if i == 0 {
      assert Without(waiters, 0) == waiters[1..];
    } else {
      assert Without(waiters, i)[1..] == Without(waiters[1..], i - 1);
      OwedLess(waiters[1..], i - 1);
    }
  }

  function Balance(t: Tab): nat {
    CountAnswers(t.effects) + CountOwed(t.waiters)
  }

  lemma MessageBalance(t: Tab, m: Message, port: bool)
    ensures Balance(AfterMessage(t, m, port)) == Balance(t) + if IsRequest(Arrives(m, port)) then 1 else 0
  {
    hide CountAnswers, CountOwed;
    match m.kind
    case Force =>
      AnswersMore(t.effects, Left(m.localLockIncomplete));
      AnswersMore(t.effects + [Left(m.localLockIncomplete)], Confirmed(m.id));
    case Save =>
      AnswersMore(t.effects, Refused(m.id, OpenForRecovery));
      AnswersMore(t.effects, Refused(m.id, AnotherLogout));
      OwedMore(t.waiters, ToReply(|t.saves|, m.id, port));
      if t.attempt.Some? { OwedMore(t.waiters, ToReply(t.attempt.value.serial, m.id, port)); }
    case Complete =>
      if t.attempt.Some? { OwedMore(t.waiters, ToLeave(t.attempt.value, m.localLockIncomplete)); }
    case _ =>
  }

  lemma ReplyBalance(t: Tab, w: Waiter)
    requires w.ToReply?
    ensures CountAnswers(AfterWaiting(t, w).effects) == CountAnswers(t.effects) + if w.port then 1 else 0
    ensures AfterWaiting(t, w).waiters == t.waiters
  {
    var says := Replies(t.SaveOf(w).Saved?, IsCurrent(t, w.id), w.id, w.port);
    ReplySays(t, w);
    RepliesOnce(t.SaveOf(w).Saved?, IsCurrent(t, w.id), w.id, w.port);
    WaitersStay(t, w);
    hide *;
    NothingAdded(t.effects);
    if says != [] {
      AnswersMore(t.effects, says[0]);
    }
  }

  lemma RepliesOnce(saved: bool, current: bool, id: string, port: bool)
    ensures var says := Replies(saved, current, id, port);
            && (says == [] || says == [says[0]])
            && ((says != [] && (says[0].Confirmed? || says[0].Refused?)) <==> port)
  {
  }

  lemma WaitersStay(t: Tab, w: Waiter)
    requires w.ToReply?
    ensures AfterWaiting(t, w).waiters == t.waiters
  {
  }

  lemma LeaveBalance(t: Tab, w: Waiter)
    requires w.ToLeave?
    ensures CountAnswers(AfterWaiting(t, w).effects) == CountAnswers(t.effects)
    ensures AfterWaiting(t, w).waiters == t.waiters
  {
    AnswersMore(t.effects, Left(w.localLockIncomplete));
    hide CountAnswers;
  }

  lemma WaitingBalance(t: Tab, i: nat)
    requires i < |t.waiters| && !t.SaveOf(t.waiters[i]).Pending?
    ensures Balance(AfterWaiting(t.(waiters := Without(t.waiters, i)), t.waiters[i])) == Balance(t)
  {
    hide CountAnswers, CountOwed, Without, AfterWaiting;
    OwedLess(t.waiters, i);
    var w, u := t.waiters[i], t.(waiters := Without(t.waiters, i));
    if w.ToReply? { ReplyBalance(u, w); } else { LeaveBalance(u, w); }
  }

  lemma StepBalance(t: Tab, e: Event)
    ensures Balance(Step(t, e)) == Balance(t) + if IsRequest(e) then 1 else 0
  {
    hide CountAnswers, CountOwed, AfterMessage, AfterWaiting, Without;
    match e
    case Arrives(m, port) => MessageBalance(t, m, port);
    case Settles(_, _) =>
    case Resumes(i) => if GoesOn(t, e) { WaitingBalance(t, i); }
  }

  /** Over any run each request with a port is answered once, or its call still
      waits. */
  lemma {:induction false} EachRequestAnswered(events: seq<Event>)
    ensures CountAnswers(Run(events).effects) + CountOwed(Run(events).waiters) == CountRequests(events)
    decreases |events|
  {
    if events != [] {
      EachRequestAnswered(events[..|events| - 1]);
      StepBalance(Run(events[..|events| - 1]), events[|events| - 1]);
      hide Step, CountAnswers, CountOwed;
    }
  }
}
