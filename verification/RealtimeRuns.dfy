/** What the event subscriber keeps over every run. */
module RealtimeRuns {
  import opened Sequences
  import opened Text
  import opened RealtimeEvents

  datatype Event =
    | Start(url: string)
    | Stop
    | Online
    | Opened(id: nat, now: int)
    | Received(id: nat, now: int, ev: FsEvent)
    | Pinged(id: nat, now: int)
    | Errored(id: nat, closed: bool)
    | RetryDue
    | FlushDue(timer: nat)
    | FlushDone(i: nat, hooks: Hooks)

  /** A closed stream says nothing, a cleared timer does not fire. A ping is any
      message without an event. */
  function Step(s: Subscriber, e: Event): Subscriber {
    match e
    case Start(url) => AfterStart(s, url)
    case Stop => AfterStop(s)
    case Online => AfterOnline(s)
    case Opened(id, now) => if id in s.live then AfterOpen(s, now) else s
    case Received(id, now, ev) => if id in s.live then AfterMessage(s, now, ev) else s
    case Pinged(id, now) => if id in s.live then Heard(s, now) else s
    case Errored(id, closed) => if id in s.live then AfterError(s, id, closed) else s
    case RetryDue => if s.retryTimer.Some? then AfterRetry(s) else s
    case FlushDue(timer) => if timer in s.armed then AfterFlushStarts(s, timer) else s
    case FlushDone(i, hooks) =>
      if i < |s.running| then AfterFlushEnds(s, i, NoteFails(s.running[i], hooks)) else s
  }

  function Run(s: Subscriber, events: seq<Event>): Subscriber
    decreases |events|
  {
    if events == [] then s else Run(Step(s, events[0]), events[1..])
  }

  // ----- one lifetime, from a start to a stop -----

  /** The flush timer is set exactly while a flush waits or runs, and events
      are pending only then. */
  predicate OneFlight(s: Subscriber) {
    && (s.flushTimer.None? ==> s.armed == {} && s.running == [] && s.pending == [])
    && (s.flushTimer.Some? ==>
          (s.armed == {s.flushTimer.value} && s.running == []) || (s.armed == {} && |s.running| == 1))
  }

  predicate OneStream(s: Subscriber) {
    && (s.retryTimer.None? ==> s.source.Some? && s.live == {s.source.value})
    && (s.retryTimer.Some? ==> s.live == {})
    && s.url.Some? && (s.source.Some? ==> s.source.value < s.sourcesMade)
  }

  predicate InBackoff(s: Subscriber) {
    && MIN_RETRY_MS <= s.retryDelay <= MAX_RETRY_MS
    && (s.retryTimer.Some? ==>
          s.retryTimer.value == UNSUPPORTED_RETRY_MS || MIN_RETRY_MS <= s.retryTimer.value <= MAX_RETRY_MS)
  }

  predicate Alive(s: Subscriber) {
    !s.stopped && OneFlight(s) && OneStream(s) && InBackoff(s)
  }

  /** Nothing under way: a new subscriber, or one stopped at a good moment. */
  predicate Quiet(s: Subscriber) {
    && s.flushTimer.None? && OneFlight(s)
    && s.live == {} && s.retryTimer.None? && MIN_RETRY_MS <= s.retryDelay <= MAX_RETRY_MS
  }

  /** Within a lifetime, and as long as no flush rejects. */
  predicate Within(s: Subscriber, e: Event) {
    !e.Start? && !e.Stop? && (e.FlushDone? && e.i < |s.running| ==> !NoteFails(s.running[e.i], e.hooks))
  }

  predicate AllWithin(s: Subscriber, events: seq<Event>)
    decreases |events|
  {
    events == [] || (Within(s, events[0]) && AllWithin(Step(s, events[0]), events[1..]))
  }

  lemma StepKeepsFlight(s: Subscriber, e: Event)
    requires OneFlight(s) && !s.stopped && Within(s, e)
    ensures OneFlight(Step(s, e)) && !Step(s, e).stopped
  {
    hide NoteFails;
  }

  lemma StepKeepsStream(s: Subscriber, e: Event)
    requires OneStream(s) && InBackoff(s) && !s.stopped && Within(s, e)
    ensures OneStream(Step(s, e)) && InBackoff(Step(s, e))
  {
    hide NoteFails, SetEvent;
  }

  /** From a start of a subscriber with nothing under way, over a whole lifetime:
      events pending mean a flush waits or runs, at most one flush is live, an
      open stream and a retry exclude each other, the backoff stays in its
      bounds. */
  lemma LifetimeKeepsAlive(s: Subscriber, url: string, events: seq<Event>)
    requires Quiet(s) && AllWithin(Step(s, Start(url)), events)
    ensures Alive(Run(Step(s, Start(url)), events))
  {
    AliveLasts(Step(s, Start(url)), events);
  }

  lemma {:induction false} AliveLasts(s: Subscriber, events: seq<Event>)
    requires Alive(s) && AllWithin(s, events)
    ensures Alive(Run(s, events))
    decreases |events|
  {
    hide Step, OneFlight, OneStream, InBackoff, Within;
    if events != [] {
      WithinRuns(s, events[0]);
      StepKeepsFlight(s, events[0]);
      StepKeepsStream(s, events[0]);
      AliveLasts(Step(s, events[0]), events[1..]);
    }
  }

  lemma WithinRuns(s: Subscriber, e: Event)
    requires !s.stopped && Within(s, e)
    ensures !Step(s, e).stopped
  {
    hide NoteFails, SetEvent;
  }

  /** The delay after `k` failures in a row. */
  function Backoff(k: nat): int {
    if k == 0 then MIN_RETRY_MS
    else if Backoff(k - 1) * 2 <= MAX_RETRY_MS then Backoff(k - 1) * 2 else MAX_RETRY_MS
  }

  /** The stream fails and the retry comes due, `k` times. */
  function Failing(s: Subscriber, k: nat): Subscriber
    decreases k
  {
    if k == 0 then s
    else
      var t := Failing(s, k - 1);
      if t.source.None? then t else Step(Step(t, Errored(t.source.value, false)), RetryDue)
  }

  /** Failures in a row wait 1, 2, 4, 8, 16 and then 30 seconds; a connection
      that opens starts over. */
  lemma {:induction false} FailuresBackOff(s: Subscriber, id: nat, now: int, k: nat)
    requires Alive(s) && s.retryTimer.None? && id in s.live
    ensures var t := Failing(Step(s, Opened(id, now)), k);
            && Alive(t) && t.retryTimer.None? && t.everConnected && t.retryDelay == Backoff(k)
            && Step(t, Errored(t.source.value, false)).retryTimer == Some(Backoff(k))
            && Backoff(k) ==
               match k case 0 => 1000 case 1 => 2000 case 2 => 4000 case 3 => 8000 case 4 => 16000 case _ => 30000
    decreases k
  {
    if k > 0 { FailuresBackOff(s, id, now, k - 1); }
  }

  // ----- beyond one lifetime -----

  /** A restart is a new lifetime exactly when nothing was pending or flushing:
      it schedules no flush for what was. */
  lemma RestartIsAliveIff(s: Subscriber, url: string)
    requires Alive(s)
    ensures var t := Step(Step(s, Stop), Start(url));
            && (Alive(t) <==> s.running == [] && s.pending == [])
            && t.armed == {} && t.flushTimer.None? && t.pending == s.pending && t.running == s.running
  {
  }

  /** Otherwise a second flush can start beside the one still running. */
  lemma RestartCanOverlap(s: Subscriber, url: string, now: int, ev: FsEvent)
    requires Alive(s) && |s.running| == 1
    ensures var s' := Step(Step(s, Stop), Start(url));
            var received := Step(s', Received(s'.source.value, now, ev));
            received.flushTimer.Some? && |Step(received, FlushDue(received.flushTimer.value)).running| == 2
  {
    hide SetEvent;
  }

  /** Such a state is reached: an event has arrived and its flush runs. */
  lemma FlushIsReached(now: int, ev: FsEvent)
    ensures var s := Run(NEW, [Start("u"), Received(0, now, ev), FlushDue(0)]);
            Alive(s) && s.running == [[ev]] && s.pending == []
  {
    hide AfterStop, AfterOnline, AfterRetry, AfterOpen, AfterError, AfterFlushEnds, NoteFails;
    var s1 := Step(NEW, Start("u"));
    var s2 := Step(s1, Received(0, now, ev));
    var s3 := Step(s2, FlushDue(0));
    assert s1.live == {0} && s2.pending == [ev] && s2.armed == {0};
    assert s3.armed == {} && s3.running == [[ev]];
    RunOfThree(NEW, Start("u"), Received(0, now, ev), FlushDue(0));
  }

  lemma RunOfThree(s: Subscriber, a: Event, b: Event, c: Event)
    ensures Run(s, [a, b, c]) == Step(Step(Step(s, a), b), c)
  {
    hide Step;
    assert [a, b, c][1..] == [b, c] && [b, c][1..] == [c] && [c][1..] == [];
    assert Run(s, [a, b, c]) == Run(Step(s, a), [b, c]);
    assert Run(Step(s, a), [b, c]) == Run(Step(Step(s, a), b), [c]);
    assert Run(Step(Step(s, a), b), [c]) == Run(Step(Step(Step(s, a), b), c), []);
  }

  /** A stream that is open and not the one the subscriber would close. */
  predicate Unowned(s: Subscriber, id: nat) {
    id in s.live && s.source != Some(id) && id < s.sourcesMade
  }

  lemma StepKeepsUnowned(s: Subscriber, e: Event, id: nat)
    requires Unowned(s, id) && !(e.Errored? && e.id == id)
    ensures Unowned(Step(s, e), id)
  {
    hide NoteFails, SetEvent;
  }

  /** After a second start without a stop the first stream stays open whatever
      happens, stops and starts too, until it fails by itself. */
  lemma SecondStartLeaks(s: Subscriber, url: string, events: seq<Event>)
    requires Alive(s) && s.retryTimer.None? && forall e <- events :: !(e.Errored? && Some(e.id) == s.source)
    ensures s.source.value in Run(Step(s, Start(url)), events).live
  {
    UnownedStays(Step(s, Start(url)), events, s.source.value);
  }

  lemma {:induction false} UnownedStays(s: Subscriber, events: seq<Event>, id: nat)
    requires Unowned(s, id) && forall e <- events :: !(e.Errored? && e.id == id)
    ensures Unowned(Run(s, events), id)
    decreases |events|
  {
    hide Step, Unowned;
    if events != [] {
      assert events[0] in events;
      StepKeepsUnowned(s, events[0], id);
      UnownedStays(Step(s, events[0]), events[1..], id);
    }
  }

  /** Nothing is left to happen but the end of a flush. */
  predicate Silent(s: Subscriber) {
    s.stopped && s.live == {} && s.armed == {} && s.retryTimer.None?
  }

  /** After a stop, whatever happens up to the next start, nothing is opened,
      scheduled or taken. */
  lemma StopSilences(s: Subscriber, events: seq<Event>)
    requires Alive(s) && forall e <- events :: !e.Start?
    ensures var t := Run(Step(s, Stop), events); Silent(t) && t.taken == s.taken
  {
    assert Silent(Step(s, Stop));
    SilenceLasts(Step(s, Stop), events);
  }

  lemma {:induction false} SilenceLasts(s: Subscriber, events: seq<Event>)
    requires Silent(s) && forall e <- events :: !e.Start?
    ensures Silent(Run(s, events)) && Run(s, events).taken == s.taken
    decreases |events|
  {
    if events != [] {
      hide NoteFails;
      assert events[0] in events;
      SilenceLasts(Step(s, events[0]), events[1..]);
    }
  }

  /** The timer of a flush that rejected: set, with nothing behind it. */
  predicate Stuck(s: Subscriber) {
    s.flushTimer.Some? && s.armed == {} && s.running == []
  }

  /** When noting an origin throws, nothing is flushed any more, whatever
      arrives, until the subscriber is stopped; when none does, the lifetime
      goes on. */
  lemma ThrowingNoteStopsFlushing(s: Subscriber, hooks: Hooks, events: seq<Event>)
    requires Alive(s) && |s.running| == 1 && forall e <- events :: !e.Stop?
    ensures var t := Step(s, FlushDone(0, hooks));
            if NoteFails(s.running[0], hooks) then Stuck(Run(t, events)) && Run(t, events).taken == s.taken
            else Alive(t) && !Stuck(t)
  {
    hide NoteFails;
    var t := Step(s, FlushDone(0, hooks));
    if NoteFails(s.running[0], hooks) {
      StuckStays(t, events);
    }
  }

  lemma {:induction false} StuckStays(s: Subscriber, events: seq<Event>)
    requires Stuck(s) && forall e <- events :: !e.Stop?
    ensures Stuck(Run(s, events)) && Run(s, events).taken == s.taken
    decreases |events|
  {
    if events != [] {
      hide NoteFails, SetEvent;
      assert events[0] in events;
      StuckStays(Step(s, events[0]), events[1..]);
    }
  }

  // ----- health -----

  predicate IsUp(reports: seq<Health>) {
    reports != [] && reports[|reports| - 1].Up?
  }

  /** The stream is reported up only while one is open, and reports of that in a
      row are five seconds apart. */
  predicate Honest(s: Subscriber) {
    && (IsUp(s.reports) ==> s.live != {} && s.lastHeartbeatAt == s.reports[|s.reports| - 1].at)
    && forall i | 0 < i < |s.reports| :: s.reports[i - 1].Up? && s.reports[i].Up? ==>
                                           s.reports[i].at - s.reports[i - 1].at >= HEARTBEAT_THROTTLE_MS
  }

  lemma StepIsHonest(s: Subscriber, e: Event)
    requires Honest(s)
    ensures Honest(Step(s, e))
  {
    hide NoteFails, SetEvent;
    if e.Opened? || e.Received? || e.Pinged? {
      HeardIsHonest(s, e);
    } else {
      hide Heard;
    }
  }

  lemma HeardIsHonest(s: Subscriber, e: Event)
    requires Honest(s) && (e.Opened? || e.Received? || e.Pinged?)
    ensures Honest(Step(s, e))
  {
    hide SetEvent, ReportedDown;
  }

  /** So it is over any run, starts and stops included. */
  lemma {:induction false} HealthIsHonest(s: Subscriber, events: seq<Event>)
    requires Honest(s)
    ensures Honest(Run(s, events))
    decreases |events|
  {
    hide Step, Honest;
    if events != [] {
      StepIsHonest(s, events[0]);
      HealthIsHonest(Step(s, events[0]), events[1..]);
    }
  }

  /** From a new subscriber on: while no stream is open, the last report is not
      that one is. */
  lemma NoStreamNotUp(events: seq<Event>)
    ensures Honest(Run(NEW, events))
    ensures Run(NEW, events).live == {} ==> !IsUp(Run(NEW, events).reports)
  {
    HealthIsHonest(NEW, events);
  }

  // ----- no event lost -----

  lemma {:induction false} SetEventHolds(pending: seq<FsEvent>, e: FsEvent)
    ensures e in SetEvent(pending, e)
    ensures forall x <- pending :: x.name != e.name ==> x in SetEvent(pending, e)
    ensures forall x <- SetEvent(pending, e) :: x == e || x in pending
    ensures |SetEvent(pending, e)| == |pending| + if exists x <- pending :: x.name == e.name then 0 else 1
  {
    if pending != [] && pending[0].name != e.name {
      SetEventHolds(pending[1..], e);
      assert pending == [pending[0]] + pending[1..];
    }
  }

  /** In the run another event of its name arrives while `ev` is pending. */
  predicate Replaced(s: Subscriber, events: seq<Event>, ev: FsEvent)
    decreases |events|
  {
    events != [] && ev in s.pending &&
    (Replaces(s, events[0], ev.name) || Replaced(Step(s, events[0]), events[1..], ev))
  }

  predicate Replaces(s: Subscriber, e: Event, name: string) {
    e.Received? && e.id in s.live && e.ev.name == name
  }

  /** The batches whose flush is over, with the answers it got. */
  datatype Finished = Finished(batch: seq<FsEvent>, hooks: Hooks)

  function FinishedIn(s: Subscriber, events: seq<Event>): seq<Finished>
    decreases |events|
  {
    if events == [] then []
    else
      var e := events[0];
      (if e.FlushDone? && e.i < |s.running| then [Finished(s.running[e.i], e.hooks)] else []) +
      FinishedIn(Step(s, events[0]), events[1..])
  }

  /** Where an event is after a run. */
  ghost predicate Accounted(s: Subscriber, events: seq<Event>, ev: FsEvent) {
    || ev in Run(s, events).pending
    || Replaced(s, events, ev)
    || (exists b <- Run(s, events).running :: ev in b)
    || (exists f <- FinishedIn(s, events) :: ev in f.batch)
  }

  /** A pending event stays pending until a newer one of its name replaces it
      or a flush takes it. */
  lemma StepPending(s: Subscriber, e: Event, ev: FsEvent)
    requires ev in s.pending && !Replaces(s, e, ev.name)
    ensures ev in Step(s, e).pending || (exists b <- Step(s, e).running :: ev in b)
  {
    hide NoteFails, SetEvent;
    if e.Received? { SetEventHolds(s.pending, e.ev); }
    if e.FlushDue? && e.timer in s.armed {
      var s' := Step(s, e);
      assert s'.running[|s.running|] == s.pending && s'.running[|s.running|] in s'.running;
    }
  }

  /** A batch stays in flight until its flush is over. */
  lemma StepRunning(s: Subscriber, e: Event, b: seq<FsEvent>)
    requires b in s.running
    ensures b in Step(s, e).running || (e.FlushDone? && e.i < |s.running| && b == s.running[e.i])
  {
    hide NoteFails, SetEvent;
    var k :| 0 <= k < |s.running| && s.running[k] == b;
    if e.FlushDone? && e.i < |s.running| && e.i != k {
      var after := Without(s.running, e.i);
      assert after[if k < e.i then k else k - 1] == b;
    }
  }

  lemma {:induction false} BatchAccounted(s: Subscriber, events: seq<Event>, b: seq<FsEvent>)
    requires b in s.running
    ensures b in Run(s, events).running || (exists f <- FinishedIn(s, events) :: f.batch == b)
    decreases |events|
  {
    if events != [] {
      hide Step;
      StepRunning(s, events[0], b);
      var s' := Step(s, events[0]);
      if b in s'.running {
        BatchAccounted(s', events[1..], b);
      } else {
        assert Finished(b, events[0].hooks) in FinishedIn(s, events);
      }
    }
  }

  /** No event is lost: over any run it is still pending, replaced by a newer
      one of the same name, in flight, or in a flush that is over. */
  lemma {:induction false} NoEventLost(s: Subscriber, events: seq<Event>, ev: FsEvent)
    requires ev in s.pending
    ensures Accounted(s, events, ev)
    decreases |events|
  {
    hide Step, Replaces, Accounted;
    if events == [] {
      AccountedAtOnce(s, events, ev);
    } else if Replaces(s, events[0], ev.name) {
      AccountedAtOnce(s, events, ev);
    } else {
      StepPending(s, events[0], ev);
      var s' := Step(s, events[0]);
      if ev in s'.pending {
        NoEventLost(s', events[1..], ev);
      } else {
        var b :| b in s'.running && ev in b;
        BatchAccounted(s', events[1..], b);
        AccountedInBatch(s', events[1..], b, ev);
      }
      AccountedEarlier(s, events, ev);
    }
  }

  lemma AccountedAtOnce(s: Subscriber, events: seq<Event>, ev: FsEvent)
    requires ev in s.pending && (events == [] || Replaces(s, events[0], ev.name))
    ensures Accounted(s, events, ev)
  {
    hide Step, Replaces;
  }

  lemma AccountedInBatch(s: Subscriber, events: seq<Event>, b: seq<FsEvent>, ev: FsEvent)
    requires ev in b && (b in Run(s, events).running || (exists f <- FinishedIn(s, events) :: f.batch == b))
    ensures Accounted(s, events, ev)
  {
    hide Run, Replaced, FinishedIn;
  }

  lemma AccountedEarlier(s: Subscriber, events: seq<Event>, ev: FsEvent)
    requires events != [] && ev in s.pending && Accounted(Step(s, events[0]), events[1..], ev)
    ensures Accounted(s, events, ev)
  {
    hide Step, Replaces;
    var s' := Step(s, events[0]);
    if f :| f in FinishedIn(s', events[1..]) && ev in f.batch {
      assert f in FinishedIn(s, events);
    }
  }

  /** An event a stream delivers is pending at once. */
  lemma ReceivedIsPending(s: Subscriber, id: nat, now: int, ev: FsEvent)
    requires id in s.live
    ensures ev in Step(s, Received(id, now, ev)).pending
  {
    SetEventHolds(s.pending, ev);
    hide SetEvent;
  }

  function TotalOf(batches: seq<seq<FsEvent>>): nat {
    if batches == [] then 0 else TotalOf(batches[..|batches| - 1]) + |batches[|batches| - 1]|
  }

  /** Nor is one taken twice: what is pending and what was taken, counted, grow
      by one with each event that replaces none. */
  lemma {:induction false} StepConserves(s: Subscriber, e: Event)
    ensures |Step(s, e).pending| + TotalOf(Step(s, e).taken) ==
            |s.pending| + TotalOf(s.taken) +
            if e.Received? && e.id in s.live && !(exists x <- s.pending :: x.name == e.ev.name) then 1 else 0
  {
    if e.Received? {
      SetEventHolds(s.pending, e.ev);
    } else {
      StepTakes(s, e);
    }
    hide NoteFails, SetEvent, AfterStop, AfterOnline, AfterRetry, AfterOpen, AfterError, AfterFlushEnds;
    assert (s.taken + [s.pending])[..|s.taken|] == s.taken;
  }

  /** Only the start of a flush takes what is pending. */
  lemma StepTakes(s: Subscriber, e: Event)
    requires !e.Received?
    ensures if e.FlushDue? && e.timer in s.armed
            then Step(s, e).pending == [] && Step(s, e).taken == s.taken + [s.pending]
            else Step(s, e).pending == s.pending && Step(s, e).taken == s.taken
  {
    hide NoteFails;
  }

  // ----- each name once -----

  /** The keys of a `Map`. */
  predicate Distinct(batch: seq<FsEvent>) {
    forall i, j | 0 <= i < j < |batch| :: batch[i].name != batch[j].name
  }

  /** What is pending, and every batch in flight, names a file once. */
  ghost predicate Keyed(s: Subscriber) {
    Distinct(s.pending) && forall b <- s.running :: Distinct(b)
  }

  lemma {:induction false} SetEventIsDistinct(pending: seq<FsEvent>, e: FsEvent)
    requires Distinct(pending)
    ensures Distinct(SetEvent(pending, e))
    ensures forall x <- SetEvent(pending, e) :: x.name == e.name || x in pending
  {
    if pending != [] && pending[0].name != e.name {
      var rest := SetEvent(pending[1..], e);
      SetEventIsDistinct(pending[1..], e);
      forall x <- rest ensures x.name != pending[0].name {
        if x.name != e.name { assert x in pending[1..]; }
      }
    }
  }

  lemma StepKeepsKeyed(s: Subscriber, e: Event)
    requires Keyed(s)
    ensures Keyed(Step(s, e))
    ensures e.FlushDone? && e.i < |s.running| ==> Distinct(s.running[e.i])
  {
    if e.Received? { SetEventIsDistinct(s.pending, e.ev); }
    hide NoteFails, SetEvent, Distinct;
  }

  lemma {:induction false} RunKeepsKeyed(s: Subscriber, events: seq<Event>)
    requires Keyed(s)
    ensures Keyed(Run(s, events)) && forall f <- FinishedIn(s, events) :: Distinct(f.batch)
    decreases |events|
  {
    hide Step, Keyed, Distinct;
    if events != [] {
      StepKeepsKeyed(s, events[0]);
      RunKeepsKeyed(Step(s, events[0]), events[1..]);
    }
  }

  // ----- every batch handled -----

  /** A file sync that was made and did not fail. */
  predicate Synced(e: FsEvent, calls: seq<Call>, hooks: Hooks) {
    exists i | 0 <= i < |calls| :: calls[i] == SyncFile(e.name, e.lastModified, HashOf(e)) && !hooks.fails(i)
  }

  /** The flush did something that brings the event's file up to date. */
  predicate Handled(e: FsEvent, calls: seq<Call>, hooks: Hooks) {
    RefreshFileList in calls || ProbeFile(e.name) in calls || Synced(e, calls, hooks)
  }

  /** The space sync of a flood fails. */
  predicate SpaceSyncFails(batch: seq<FsEvent>, hooks: Hooks) {
    var n := |NotesOf(Those(batch, Change))|;
    IsFlood(batch) && hooks.active(n) && hooks.fails(n)
  }

  /** How many calls a flush has made when change `k` is due. */
  function Turn(changes: seq<FsEvent>, k: nat, hooks: Hooks): nat
    requires k <= |changes|
  {
    |NotesOf(changes)| + |CallsForFiles(changes[..k], |NotesOf(changes)|, hooks)|
  }

  predicate SyncFailsAt(changes: seq<FsEvent>, k: nat, hooks: Hooks)
    requires k <= |changes|
  {
    hooks.active(Turn(changes, k, hooks)) && hooks.fails(Turn(changes, k, hooks))
  }

  /** The file sync of a change fails, and no deletion brings a list refresh. */
  ghost predicate FileSyncFails(batch: seq<FsEvent>, hooks: Hooks, e: FsEvent) {
    var changes := Those(batch, Change);
    && !IsFlood(batch) && Those(batch, Delete) == []
    && exists k | 0 <= k < |changes| :: changes[k] == e && SyncFailsAt(changes, k, hooks)
  }

  lemma {:induction false} OnlyNotes(changes: seq<FsEvent>)
    ensures forall c <- NotesOf(changes) :: c.NoteOrigin?
  {
    if changes != [] { OnlyNotes(changes[1..]); }
  }

  lemma {:induction false} ThoseAre(batch: seq<FsEvent>, action: Action, e: FsEvent)
    ensures e in Those(batch, action) <==> e in batch && e.action == action
  {
    if batch != [] {
      ThoseAre(batch[1..], action, e);
      assert batch == [batch[0]] + batch[1..];
    }
  }

  lemma {:induction false} ThoseAreDistinct(batch: seq<FsEvent>, action: Action)
    requires Distinct(batch)
    ensures Distinct(Those(batch, action)) && forall x <- Those(batch, action) :: x in batch
  {
    hide Distinct, Those;
    if batch == [] {
      ThoseOfNone(action);
    } else {
      DistinctTail(batch);
      ThoseAreDistinct(batch[1..], action);
      ThoseOfHead(batch, action);
      if batch[0].action == action { DistinctHead(batch[0], Those(batch[1..], action)); }
    }
  }

  lemma ThoseOfNone(action: Action)
    ensures Those([], action) == [] && Distinct([])
  {
  }

  lemma ThoseOfHead(batch: seq<FsEvent>, action: Action)
    requires batch != []
    ensures var rest := Those(batch[1..], action);
            Those(batch, action) == if batch[0].action == action then [batch[0]] + rest else rest
  {
  }

  lemma DistinctTail(batch: seq<FsEvent>)
    requires Distinct(batch) && batch != []
    ensures Distinct(batch[1..]) && forall x <- batch[1..] :: x in batch && x.name != batch[0].name
  {
  }

  lemma DistinctHead(e: FsEvent, rest: seq<FsEvent>)
    requires Distinct(rest) && forall x <- rest :: x.name != e.name
    ensures Distinct([e] + rest)
  {
  }

  /** Calls about other files. */
  predicate AboutOthers(calls: seq<Call>, name: string) {
    forall c <- calls :: c.NoteOrigin? || ((c.ProbeFile? || c.SyncFile?) && c.name != name)
  }

  lemma {:induction false} FilesAboutOthers(changes: seq<FsEvent>, n: nat, hooks: Hooks, name: string)
    requires forall x <- changes :: x.name != name
    ensures AboutOthers(CallsForFiles(changes, n, hooks), name)
  {
    hide HashOf;
    if changes != [] {
      FilesAboutOthers(changes[1..], n + |CallsForFile(changes[0], n, hooks)|, hooks, name);
    }
  }

  lemma FilesCons(changes: seq<FsEvent>, n: nat, hooks: Hooks)
    ensures changes == [] ==> CallsForFiles(changes, n, hooks) == []
    ensures changes != [] ==>
              var first := CallsForFile(changes[0], n, hooks);
              CallsForFiles(changes, n, hooks) == first + CallsForFiles(changes[1..], n + |first|, hooks)
  {
    hide CallsForFile;
  }

  lemma {:induction false} FilesSplit(changes: seq<FsEvent>, k: nat, n: nat, hooks: Hooks)
    requires k < |changes|
    ensures var pre := CallsForFiles(changes[..k], n, hooks);
            var own := CallsForFile(changes[k], n + |pre|, hooks);
            CallsForFiles(changes, n, hooks) == pre + own + CallsForFiles(changes[k + 1..], n + |pre| + |own|, hooks)
  {
    hide *;
    FilesCons(changes, n, hooks);
    FilesCons(changes[..k], n, hooks);
    if k > 0 {
      var first := CallsForFile(changes[0], n, hooks);
      assert changes[..k][1..] == changes[1..][..k - 1] && changes[1..][k..] == changes[k + 1..];
      FilesSplit(changes[1..], k - 1, n + |first|, hooks);
      var pre := CallsForFiles(changes[1..][..k - 1], n + |first|, hooks);
      var own := CallsForFile(changes[k], n + |first| + |pre|, hooks);
      var post := CallsForFiles(changes[k + 1..], n + |first| + |pre| + |own|, hooks);
      Joined(first, pre, own, post);
    } else {
      NothingAdded(CallsForFile(changes[0], n, hooks));
    }
  }

  /** Among calls about other files, those for one change decide. */
  lemma OwnCallsDecide(e: FsEvent, pre: seq<Call>, post: seq<Call>, hooks: Hooks)
    requires AboutOthers(pre, e.name) && AboutOthers(post, e.name)
    ensures Handled(e, pre + CallsForFile(e, |pre|, hooks) + post, hooks) <==>
            !(hooks.active(|pre|) && hooks.fails(|pre|))
  {
    hide HashOf;
    var own := CallsForFile(e, |pre|, hooks);
    var calls := pre + own + post;
    forall i | 0 <= i < |calls| && (i < |pre| || |pre| + |own| <= i)
      ensures calls[i] in pre || calls[i] in post
    {
      assert calls[i] == if i < |pre| then pre[i] else post[i - |pre| - |own|];
    }
    assert calls[|pre|] == own[0];
    if |own| == 2 { assert calls[|pre| + 1] == own[1]; }
  }

  lemma ChangeHandledIff(batch: seq<FsEvent>, hooks: Hooks, k: nat)
    requires Distinct(Those(batch, Change)) && k < |Those(batch, Change)|
    requires !IsFlood(batch) && Those(batch, Delete) == [] && !NoteFails(batch, hooks)
    ensures Handled(Those(batch, Change)[k], CallsOf(batch, hooks), hooks) <==>
            !SyncFailsAt(Those(batch, Change), k, hooks)
  {
    hide *;
    var changes := Those(batch, Change);
    var notes := NotesOf(changes);
    var e := changes[k];
    OthersDiffer(changes, k);
    NotesAboutOthers(changes, e.name);
    FilesSplit(changes, k, |notes|, hooks);
    FilesAboutOthers(changes[..k], |notes|, hooks, e.name);
    var before := CallsForFiles(changes[..k], |notes|, hooks);
    var own := CallsForFile(e, |notes| + |before|, hooks);
    FilesAboutOthers(changes[k + 1..], |notes| + |before| + |own|, hooks, e.name);
    var post := CallsForFiles(changes[k + 1..], |notes| + |before| + |own|, hooks);
    BothAboutOthers(notes, before, e.name);
    OwnCallsDecide(e, notes + before, post, hooks);
    FileCalls(batch, hooks);
    Joined(notes, before, own, post);
    TurnIs(changes, k, hooks);
  }

  lemma Joined(a: seq<Call>, b: seq<Call>, c: seq<Call>, d: seq<Call>)
    ensures a + (b + c + d) == a + b + c + d
  {
  }

  lemma TurnIs(changes: seq<FsEvent>, k: nat, hooks: Hooks)
    requires k <= |changes|
    ensures var n := |NotesOf(changes) + CallsForFiles(changes[..k], |NotesOf(changes)|, hooks)|;
            SyncFailsAt(changes, k, hooks) <==> hooks.active(n) && hooks.fails(n)
  {
  }

  /** The calls for a batch that is no flood and deletes nothing. */
  lemma FileCalls(batch: seq<FsEvent>, hooks: Hooks)
    requires !IsFlood(batch) && Those(batch, Delete) == [] && !NoteFails(batch, hooks)
    ensures var changes := Those(batch, Change);
            CallsOf(batch, hooks) == NotesOf(changes) + CallsForFiles(changes, |NotesOf(changes)|, hooks)
  {
    hide NotesOf, CallsForFiles, Those, IsFlood, NoteFails, NotesMade;
    var changes := Those(batch, Change);
    NothingAdded(NotesOf(changes) + CallsForFiles(changes, |NotesOf(changes)|, hooks));
  }

  lemma OthersDiffer(changes: seq<FsEvent>, k: nat)
    requires Distinct(changes) && k < |changes|
    ensures forall x <- changes[..k] :: x.name != changes[k].name
    ensures forall x <- changes[k + 1..] :: x.name != changes[k].name
  {
  }

  lemma NotesAboutOthers(changes: seq<FsEvent>, name: string)
    ensures AboutOthers(NotesOf(changes), name)
  {
    OnlyNotes(changes);
    hide NotesOf;
  }

  lemma BothAboutOthers(a: seq<Call>, b: seq<Call>, name: string)
    requires AboutOthers(a, name) && AboutOthers(b, name)
    ensures AboutOthers(a + b, name)
  {
  }

  lemma NotesHandleNothing(notes: seq<Call>, e: FsEvent, hooks: Hooks)
    requires forall c <- notes :: c.NoteOrigin?
    ensures !Handled(e, notes, hooks)
  {
    assert forall i | 0 <= i < |notes| :: notes[i] in notes;
  }

  /** A note that fails leaves the whole batch unhandled. */
  lemma FailedNoteHandlesNothing(batch: seq<FsEvent>, hooks: Hooks, e: FsEvent)
    requires NoteFails(batch, hooks)
    ensures !Handled(e, CallsOf(batch, hooks), hooks)
  {
    hide NotesOf, CallsForFiles, Those, NotesMade, NoteFails, Handled;
    var notes := NotesOf(Those(batch, Change));
    OnlyNotes(Those(batch, Change));
    var made := NotesMade(notes, 0, hooks);
    assert forall c <- made :: c in notes;
    NotesHandleNothing(made, e, hooks);
  }

  /** A flood handles all its events, unless its space sync fails. */
  lemma FloodHandledIff(batch: seq<FsEvent>, hooks: Hooks, e: FsEvent)
    requires !NoteFails(batch, hooks) && IsFlood(batch)
    ensures Handled(e, CallsOf(batch, hooks), hooks) <==> !SpaceSyncFails(batch, hooks)
  {
    hide NotesOf, CallsForFiles, Those, NotesMade, NoteFails, IsFlood, Handled;
    var notes := NotesOf(Those(batch, Change));
    OnlyNotes(Those(batch, Change));
    FloodCallsHandleIff(notes, CallsForFlood(|notes|, hooks), e, hooks);
  }

  lemma FloodCallsHandleIff(notes: seq<Call>, calls: seq<Call>, e: FsEvent, hooks: Hooks)
    requires forall c <- notes :: c.NoteOrigin?
    requires calls in {[SyncSpace], [RefreshFileList], [SyncSpace, RefreshFileList]}
    ensures Handled(e, notes + calls, hooks) <==> calls != [SyncSpace]
  {
    assert forall c <- notes + calls :: c in notes || c in calls;
    assert calls[|calls| - 1] in calls;
    forall i | 0 <= i < |notes + calls| ensures !(notes + calls)[i].SyncFile? {
      assert (notes + calls)[i] in notes + calls;
    }
  }

  lemma DeletionHandles(batch: seq<FsEvent>, hooks: Hooks, e: FsEvent)
    requires !NoteFails(batch, hooks) && !IsFlood(batch) && Those(batch, Delete) != []
    ensures Handled(e, CallsOf(batch, hooks), hooks)
  {
    hide NotesOf, CallsForFiles, Those, IsFlood, NoteFails, NotesMade;
    assert CallsOf(batch, hooks)[|CallsOf(batch, hooks)| - 1] == RefreshFileList;
  }

  /** Every event of a batch is handled, exactly unless noting an origin fails,
      the batch is a flood whose space sync fails, or the file sync of the event
      itself fails with no deletion beside it. */
  lemma BatchHandledIff(batch: seq<FsEvent>, hooks: Hooks, e: FsEvent)
    requires Distinct(batch) && e in batch
    ensures Handled(e, CallsOf(batch, hooks), hooks) <==>
            !NoteFails(batch, hooks) && !SpaceSyncFails(batch, hooks) && !FileSyncFails(batch, hooks, e)
  {
    hide NotesOf, CallsForFiles, Those, HashOf, NotesMade, SyncFailsAt, CallsOf, NoteFails, Handled, Distinct, IsFlood;
    if NoteFails(batch, hooks) {
      FailedNoteHandlesNothing(batch, hooks, e);
    } else if IsFlood(batch) {
      FloodHandledIff(batch, hooks, e);
    } else if Those(batch, Delete) != [] {
      DeletionHandles(batch, hooks, e);
    } else {
      var changes := Those(batch, Change);
      ThoseAreDistinct(batch, Change);
      LoneIsChange(batch, e);
      var k :| 0 <= k < |changes| && changes[k] == e;
      ChangeHandledIff(batch, hooks, k);
      OnlyOnce(changes, e, k);
    }
  }

  lemma LoneIsChange(batch: seq<FsEvent>, e: FsEvent)
    requires e in batch && !IsFlood(batch) && Those(batch, Delete) == []
    ensures e in Those(batch, Change)
  {
    ThoseAre(batch, Change, e);
    ThoseAre(batch, Delete, e);
    ThoseAre(batch, Resync, e);
    hide Those;
  }

  lemma OnlyOnce(changes: seq<FsEvent>, e: FsEvent, k: nat)
    requires Distinct(changes) && k < |changes| && changes[k] == e
    ensures forall j | 0 <= j < |changes| && changes[j] == e :: j == k
  {
  }

  /** Such batches: a resync and a change with a failing space sync, a change
      whose origin cannot be noted, a change with a failing file sync. */
  lemma FailingCallsDropEvents()
    ensures var e, f := FsEvent("", Resync, 0, None, None), FsEvent("a.md", Change, 1, None, None);
            var hooks := Hooks(n => true, n => true);
            var calls := CallsOf([e, f], hooks);
            calls == [SyncSpace] && !Handled(e, calls, hooks) && !Handled(f, calls, hooks)
    ensures var g := FsEvent("a.md", Change, 1, None, Some("me"));
            var hooks := Hooks(n => false, n => true);
            var calls := CallsOf([g], hooks);
            calls == [NoteOrigin("a.md", "me")] && !Handled(g, calls, hooks)
    ensures var f := FsEvent("a.md", Change, 1, None, None);
            var hooks := Hooks(n => true, n => true);
            var calls := CallsOf([f], hooks);
            calls == [SyncFile("a.md", 1, None)] && !Handled(f, calls, hooks)
  {
    hide *;
    FloodDropped();
    NoteDropped();
    FileDropped();
  }

  lemma FloodDropped()
    ensures var e, f := FsEvent("", Resync, 0, None, None), FsEvent("a.md", Change, 1, None, None);
            var hooks := Hooks(n => true, n => true);
            var calls := CallsOf([e, f], hooks);
            calls == [SyncSpace] && !Handled(e, calls, hooks) && !Handled(f, calls, hooks)
  {
    var e, f := FsEvent("", Resync, 0, None, None), FsEvent("a.md", Change, 1, None, None);
    assert [e, f][1..] == [f] && [f][1..] == [];
    assert Those([f], Change) == [f] + [] == [f];
    assert Those([e, f], Change) == [] + [f] == [f];
    assert Those([f], Resync) == [];
    assert Those([e, f], Resync) == [e] + [] == [e];
    assert NotesOf([f]) == [];
  }

  lemma NoteDropped()
    ensures var g := FsEvent("a.md", Change, 1, None, Some("me"));
            var hooks := Hooks(n => false, n => true);
            var calls := CallsOf([g], hooks);
            calls == [NoteOrigin("a.md", "me")] && !Handled(g, calls, hooks) && NoteFails([g], hooks)
  {
    var g := FsEvent("a.md", Change, 1, None, Some("me"));
    assert [g][1..] == [];
    assert Those([g], Change) == [g] + [] == [g];
    assert NotesOf([g]) == [NoteOrigin("a.md", "me")] + [] == [NoteOrigin("a.md", "me")];
    assert NoteFails([g], Hooks(n => false, n => true)) by { assert Hooks(n => false, n => true).fails(0); }
  }

  lemma FileDropped()
    ensures var f := FsEvent("a.md", Change, 1, None, None);
            var hooks := Hooks(n => true, n => true);
            var calls := CallsOf([f], hooks);
            calls == [SyncFile("a.md", 1, None)] && !Handled(f, calls, hooks)
  {
    var f := FsEvent("a.md", Change, 1, None, None);
    var hooks := Hooks(n => true, n => true);
    assert [f][1..] == [];
    assert Those([f], Change) == [f] + [] == [f];
    assert Those([f], Resync) == [] && Those([f], Delete) == [];
    assert NotesOf([f]) == [];
    assert CallsForFiles([f], 0, hooks) == [SyncFile("a.md", 1, None)] + [] == [SyncFile("a.md", 1, None)];
  }

  /** Runs of a new subscriber in which a restart lets two flushes overlap, and in
      which a throwing note ends all flushing. */
  lemma FlushingFails()
    ensures var g, hooks := FsEvent("a.md", Change, 1, None, Some("me")), Hooks(n => false, n => true);
            var s := Run(NEW, [Start("u"), Received(0, 9000, g), FlushDue(0)]);
            var again := Step(Step(s, Stop), Start("u"));
            && again.source.Some?
            && (var received := Step(again, Received(again.source.value, 9000, g));
                received.flushTimer.Some? && |Step(received, FlushDue(received.flushTimer.value)).running| == 2)
            && Stuck(Step(s, FlushDone(0, hooks)))
  {
    hide *;
    var g, hooks := FsEvent("a.md", Change, 1, None, Some("me")), Hooks(n => false, n => true);
    var s := Run(NEW, [Start("u"), Received(0, 9000, g), FlushDue(0)]);
    FlushIsReached(9000, g);
    NoteDropped();
    RestartCanOverlap(s, "u", 9000, g);
    RestartConnects(s, "u");
    ThrowingNoteStopsFlushing(s, hooks, []);
    RunNothing(Step(s, FlushDone(0, hooks)));
  }

  lemma RunNothing(s: Subscriber)
    ensures Run(s, []) == s
  {
  }

  lemma RestartConnects(s: Subscriber, url: string)
    ensures Step(Step(s, Stop), Start(url)).source.Some?
  {
  }

  /** What becomes of an event, from any state a new subscriber can be in. */
  lemma EventFate(before: seq<Event>, id: nat, now: int, ev: FsEvent, events: seq<Event>)
    requires id in Run(NEW, before).live
    ensures var s := Step(Run(NEW, before), Received(id, now, ev));
            || ev in Run(s, events).pending
            || Replaced(s, events, ev)
            || (exists b <- Run(s, events).running :: ev in b)
            || (exists f <- FinishedIn(s, events) ::
                  && ev in f.batch
                  && (Handled(ev, CallsOf(f.batch, f.hooks), f.hooks) <==>
                        !NoteFails(f.batch, f.hooks) && !SpaceSyncFails(f.batch, f.hooks) &&
                        !FileSyncFails(f.batch, f.hooks, ev)))
  {
    hide Step, CallsOf, SpaceSyncFails, FileSyncFails, Handled, NoteFails, Distinct;
    var s0 := Run(NEW, before);
    NewIsKeyed();
    RunKeepsKeyed(NEW, before);
    ReceivedIsPending(s0, id, now, ev);
    StepKeepsKeyed(s0, Received(id, now, ev));
    var s := Step(s0, Received(id, now, ev));
    NoEventLost(s, events, ev);
    RunKeepsKeyed(s, events);
    if f :| f in FinishedIn(s, events) && ev in f.batch {
      BatchHandledIff(f.batch, f.hooks, ev);
    }
  }

  lemma NewIsKeyed()
    ensures Keyed(NEW)
  {
  }
}
