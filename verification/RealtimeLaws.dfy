/** Which calls a flush makes, what a pending list keeps, and when the subscriber
    reports, waits and connects. */
module RealtimeLaws {
  import opened Sequences
  import opened Text
  import opened RealtimeEvents
  import opened RealtimeRuns

  // ----- the calls of a flush -----

  /** A resync, or four changes. */
  ghost predicate FloodBatch(batch: seq<FsEvent>) {
    (exists e <- batch :: e.action.Resync?) || |Those(batch, Change)| >= 4
  }

  lemma FloodIff(batch: seq<FsEvent>)
    ensures IsFlood(batch) <==> FloodBatch(batch)
  {
    if Those(batch, Resync) != [] {
      ThoseAre(batch, Resync, Those(batch, Resync)[0]);
    }
    if e :| e in batch && e.action.Resync? {
      ThoseAre(batch, Resync, e);
    }
  }

  lemma {:induction false} NoteIn(changes: seq<FsEvent>, name: string, origin: string)
    ensures NoteOrigin(name, origin) in NotesOf(changes) <==>
            origin != "" && exists e <- changes :: e.name == name && e.origin == Some(origin)
  {
    if changes != [] {
      NoteIn(changes[1..], name, origin);
      assert changes == [changes[0]] + changes[1..];
    }
  }

  /** Events keep their order. */
  lemma {:induction false} ThoseOfBoth(a: seq<FsEvent>, b: seq<FsEvent>, action: Action)
    ensures Those(a + b, action) == Those(a, action) + Those(b, action)
  {
    if a == [] {
      NothingAdded(b);
      NothingAdded(Those(b, action));
    } else {
      ThoseOfBoth(a[1..], b, action);
      assert (a + b)[1..] == a[1..] + b;
      Assoc(if a[0].action == action then [a[0]] else [], Those(a[1..], action), Those(b, action));
    }
  }

  /** Origins are noted in the order of the changes. */
  lemma {:induction false} NotesOfBoth(a: seq<FsEvent>, b: seq<FsEvent>)
    ensures NotesOf(a + b) == NotesOf(a) + NotesOf(b)
  {
    if a == [] {
      NothingAdded(b);
      NothingAdded(NotesOf(b));
    } else {
      NotesOfBoth(a[1..], b);
      assert (a + b)[1..] == a[1..] + b;
      Assoc(if HasOrigin(a[0]) then [NoteOrigin(a[0].name, a[0].origin.value)] else [], NotesOf(a[1..]), NotesOf(b));
    }
  }

  lemma OfOne(e: FsEvent, action: Action)
    ensures Those([e], action) == if e.action == action then [e] else []
    ensures NotesOf([e]) ==
            if e.origin.None? || e.origin == Some("") then [] else [NoteOrigin(e.name, e.origin.value)]
  {
    assert [e][1..] == [];
  }

  /** The hash sent along: a sha256 one, and no other. */
  function Sha256Of(e: FsEvent): Option<string> {
    match e.revision
    case Some(Revision(algorithm, hash)) => if algorithm == "sha256" then Some(hash) else None
    case None => None
  }

  lemma DeletesIn(batch: seq<FsEvent>)
    ensures Those(batch, Delete) != [] <==> exists e <- batch :: e.action.Delete?
  {
    if Those(batch, Delete) != [] {
      ThoseAre(batch, Delete, Those(batch, Delete)[0]);
    }
    if e :| e in batch && e.action.Delete? {
      ThoseAre(batch, Delete, e);
    }
  }

  /** One call after the other: change `k` is due after the calls for the earlier
      ones, its sync comes before its probe, and a refresh last of all. */
  lemma SmallBatchInOrder(batch: seq<FsEvent>, hooks: Hooks, k: nat)
    requires !NoteFails(batch, hooks) && !FloodBatch(batch) && k < |Those(batch, Change)|
    ensures var changes, calls := Those(batch, Change), CallsOf(batch, hooks);
            var e, at, next := changes[k], Turn(changes, k, hooks), Turn(changes, k + 1, hooks);
            && next <= |calls|
            && (if hooks.active(at) then
                  && at < next && calls[at] == SyncFile(e.name, e.lastModified, Sha256Of(e))
                  && (if hooks.fails(at) then next == at + 1
                      else next == at + 2 && calls[at + 1] == ProbeFile(e.name))
                else next == at + 1 && calls[at] == ProbeFile(e.name))
    ensures Turn(Those(batch, Change), 0, hooks) == |NotesOf(Those(batch, Change))|
  {
    hide *;
    FloodIff(batch);
    var changes := Those(batch, Change);
    var n := |NotesOf(changes)|;
    TurnsAre(changes, k, hooks);
    SmallBatchTail(batch, hooks);
    FilesSplit(changes, k, n, hooks);
    var pre := CallsForFiles(changes[..k], n, hooks);
    CallOfOne(changes[k], n + |pre|, hooks);
    assert changes[..0] == [];
    FilesCons(changes[..0], n, hooks);
    TurnsAre(changes, 0, hooks);
  }

  lemma CallOfOne(e: FsEvent, n: nat, hooks: Hooks)
    ensures var own := CallsForFile(e, n, hooks);
            if hooks.active(n) then
              && own != [] && own[0] == SyncFile(e.name, e.lastModified, Sha256Of(e))
              && (if hooks.fails(n) then |own| == 1 else |own| == 2 && own[1] == ProbeFile(e.name))
            else own == [ProbeFile(e.name)]
  {
  }

  lemma TurnsAre(changes: seq<FsEvent>, k: nat, hooks: Hooks)
    requires k < |changes|
    ensures var n := |NotesOf(changes)|;
            var pre := CallsForFiles(changes[..k], n, hooks);
            && Turn(changes, k, hooks) == n + |pre|
            && Turn(changes, k + 1, hooks) == n + |pre| + |CallsForFile(changes[k], n + |pre|, hooks)|
  {
    hide CallsForFile, NotesOf, CallsForFiles;
    var n := |NotesOf(changes)|;
    var pre := CallsForFiles(changes[..k], n, hooks);
    var upTo := changes[..k + 1];
    FilesSplit(upTo, k, n, hooks);
    assert upTo[..k] == changes[..k] && upTo[k + 1..] == [];
    var own := CallsForFile(changes[k], n + |pre|, hooks);
    FilesCons(upTo[k + 1..], n + |pre| + |own|, hooks);
  }

  lemma SmallBatchTail(batch: seq<FsEvent>, hooks: Hooks)
    requires !NoteFails(batch, hooks) && !IsFlood(batch)
    ensures var changes := Those(batch, Change);
            var notes := NotesOf(changes);
            CallsOf(batch, hooks) ==
            notes + CallsForFiles(changes, |notes|, hooks) +
            if exists e <- batch :: e.action.Delete? then [RefreshFileList] else []
  {
    hide NotesOf, CallsForFiles, Those, IsFlood, NoteFails, NotesMade;
    DeletesIn(batch);
  }

  /** So many calls: those for the changes and the refresh a deletion needs. */
  lemma SmallBatchEnds(batch: seq<FsEvent>, hooks: Hooks)
    requires !NoteFails(batch, hooks) && !FloodBatch(batch)
    ensures var changes, calls := Those(batch, Change), CallsOf(batch, hooks);
            var end := Turn(changes, |changes|, hooks);
            if exists e <- batch :: e.action.Delete? then |calls| == end + 1 && calls[end] == RefreshFileList
            else |calls| == end
  {
    hide NotesOf, CallsForFiles, Those, NoteFails, CallsOf;
    FloodIff(batch);
    SmallBatchTail(batch, hooks);
    var changes := Those(batch, Change);
    assert changes[..|changes|] == changes;
  }

  /** At most two calls follow the notes of a flood, the sync before the refresh. */
  lemma FloodInOrder(batch: seq<FsEvent>, hooks: Hooks)
    requires !NoteFails(batch, hooks) && FloodBatch(batch)
    ensures var n, calls := |NotesOf(Those(batch, Change))|, CallsOf(batch, hooks);
            && (!hooks.active(n) ==> calls[n..] == [RefreshFileList])
            && (hooks.active(n) && hooks.fails(n) ==> calls[n..] == [SyncSpace])
            && (hooks.active(n) && !hooks.fails(n) ==> calls[n..] == [SyncSpace, RefreshFileList])
  {
    hide NotesOf, CallsForFiles, Those, NoteFails, NotesMade, IsFlood;
    FloodIff(batch);
    var notes := NotesOf(Those(batch, Change));
    SplitConcat(notes, CallsForFlood(|notes|, hooks));
  }

  /** Origins are noted for the changes that have one, first of all; up to the
      first that fails, if one does. */
  lemma NotesComeFirst(batch: seq<FsEvent>, hooks: Hooks)
    ensures var notes, calls := NotesOf(Those(batch, Change)), CallsOf(batch, hooks);
            && (NoteFails(batch, hooks) <==> exists k | 0 <= k < |notes| :: hooks.fails(k))
            && (!NoteFails(batch, hooks) ==> notes <= calls)
            && (NoteFails(batch, hooks) ==>
                  exists k | 0 <= k < |notes| ::
                    hooks.fails(k) && (forall i | 0 <= i < k :: !hooks.fails(i)) && calls == notes[..k + 1])
    ensures forall name, origin ::
              NoteOrigin(name, origin) in NotesOf(Those(batch, Change)) <==>
              origin != "" && exists e <- batch :: e.action.Change? && e.name == name && e.origin == Some(origin)
  {
    hide NotesOf, CallsForFiles, Those, IsFlood, NotesMade;
    var changes := Those(batch, Change);
    if NoteFails(batch, hooks) {
      var k := FirstFailure(NotesOf(changes), 0, hooks);
    }
    forall name, origin
      ensures NoteOrigin(name, origin) in NotesOf(changes) <==>
              origin != "" && exists e <- batch :: e.action.Change? && e.name == name && e.origin == Some(origin)
    {
      NoteIn(changes, name, origin);
      if e :| e in batch && e.action.Change? && e.name == name && e.origin == Some(origin) {
        ThoseAre(batch, Change, e);
      }
      if e :| e in changes && e.name == name && e.origin == Some(origin) {
        ThoseAre(batch, Change, e);
      }
    }
  }

  lemma {:induction false} FirstFailure(notes: seq<Call>, n: nat, hooks: Hooks) returns (k: nat)
    requires exists i | n <= i < n + |notes| :: hooks.fails(i)
    ensures k < |notes| && hooks.fails(n + k) && (forall i | n <= i < n + k :: !hooks.fails(i))
    ensures NotesMade(notes, n, hooks) == notes[..k + 1]
    decreases |notes|
  {
    if hooks.fails(n) {
      k := 0;
      assert notes[..1] == [notes[0]];
    } else {
      var j := FirstFailure(notes[1..], n + 1, hooks);
      k := j + 1;
      assert notes[..k + 1] == [notes[0]] + notes[1..][..j + 1];
    }
  }

  // ----- the pending list -----

  function NamesOf(events: seq<FsEvent>): (r: seq<string>)
    ensures |r| == |events| && forall i | 0 <= i < |r| :: r[i] == events[i].name
  {
    seq(|events|, i requires 0 <= i < |events| => events[i].name)
  }

  /** A newer event takes the place of the one it replaces; a new name comes
      last. */
  lemma {:induction false} SetKeepsPlaces(pending: seq<FsEvent>, e: FsEvent)
    requires Distinct(pending)
    ensures var r := SetEvent(pending, e);
            && |r| == |pending| + (if e.name in NamesOf(pending) then 0 else 1)
            && (forall i | 0 <= i < |pending| :: r[i] == if pending[i].name == e.name then e else pending[i])
            && (e.name !in NamesOf(pending) ==> r[|pending|] == e)
  {
    if pending == [] {
    } else if pending[0].name == e.name {
      assert NamesOf(pending)[0] == e.name;
      assert forall i | 0 < i < |pending| :: pending[i].name != pending[0].name;
    } else {
      var rest := pending[1..];
      SetKeepsPlaces(rest, e);
      hide NamesOf, Distinct;
      SetLater(pending, e);
      forall i | 0 <= i < |pending|
        ensures SetEvent(pending, e)[i] == if pending[i].name == e.name then e else pending[i]
      {
        if i > 0 {
          assert SetEvent(pending, e)[i] == SetEvent(rest, e)[i - 1] && pending[i] == rest[i - 1];
        }
      }
    }
  }

  lemma SetLater(pending: seq<FsEvent>, e: FsEvent)
    requires pending != [] && pending[0].name != e.name
    ensures e.name in NamesOf(pending) <==> e.name in NamesOf(pending[1..])
  {
    assert NamesOf(pending) == [pending[0].name] + NamesOf(pending[1..]);
  }

  // ----- reports -----

  /** A message, an opening or a ping on an open stream. */
  predicate Hears(s: Subscriber, e: Event) {
    (e.Opened? || e.Received? || e.Pinged?) && e.id in s.live
  }

  /** What the throttle remembers is the time of the last report, if that was up. */
  predicate Remembers(s: Subscriber) {
    s.lastHeartbeatAt == if IsUp(s.reports) then s.reports[|s.reports| - 1].at else 0
  }

  lemma StepRemembers(s: Subscriber, e: Event)
    requires Remembers(s)
    ensures Remembers(Step(s, e))
  {
    hide NoteFails, SetEvent;
  }

  lemma {:induction false} RunRemembers(s: Subscriber, events: seq<Event>)
    requires Remembers(s)
    ensures Remembers(Run(s, events))
    decreases |events|
  {
    hide Step, Remembers;
    if events != [] {
      StepRemembers(s, events[0]);
      RunRemembers(Step(s, events[0]), events[1..]);
    }
  }

  /** The time since which five seconds have to pass: that of the last report, if
      it was up. */
  function LastUp(s: Subscriber): int {
    if IsUp(s.reports) then s.reports[|s.reports| - 1].at else 0
  }

  lemma HeardReports(s: Subscriber, now: int)
    requires Remembers(s)
    ensures Heard(s, now).reports == s.reports + if now - LastUp(s) >= 5000 then [Up(now)] else []
  {
    NothingAdded(s.reports);
  }

  lemma SignReports(s: Subscriber, e: Event)
    requires Remembers(s) && (e.Opened? || e.Received? || e.Pinged?)
    ensures Step(s, e).reports == s.reports + if Hears(s, e) && e.now - LastUp(s) >= 5000 then [Up(e.now)] else []
  {
    hide NoteFails, SetEvent, Remembers, LastUp, Heard;
    NothingAdded(s.reports);
    HeardReports(s, e.now);
    if e.Opened? {
      OpenReports(s, e.now);
    }
  }

  lemma OpenReports(s: Subscriber, now: int)
    ensures AfterOpen(s, now).reports == Heard(s, now).reports
  {
  }

  lemma OtherReports(s: Subscriber, e: Event)
    requires !(e.Opened? || e.Received? || e.Pinged?)
    ensures Step(s, e).reports == s.reports + if e.Stop? || (e.Errored? && e.id in s.live) then [Down] else []
  {
    hide NoteFails, SetEvent, Heard;
    NothingAdded(s.reports);
  }

  lemma StepReports(s: Subscriber, e: Event)
    requires Remembers(s)
    ensures Step(s, e).reports ==
            s.reports +
            if Hears(s, e) && e.now - LastUp(s) >= 5000 then [Up(e.now)]
            else if e.Stop? || (e.Errored? && e.id in s.live) then [Down]
            else []
  {
    hide Step, Remembers, LastUp;
    if e.Opened? || e.Received? || e.Pinged? {
      SignReports(s, e);
    } else {
      OtherReports(s, e);
    }
  }

  /** At every step of every run the subscriber reports exactly this. */
  lemma ReportsMean(events: seq<Event>, e: Event)
    ensures var s := Run(NEW, events);
            Step(s, e).reports ==
            s.reports +
            if Hears(s, e) && e.now - LastUp(s) >= 5000 then [Up(e.now)]
            else if e.Stop? || (e.Errored? && e.id in s.live) then [Down]
            else []
  {
    hide Step, Run, Remembers, LastUp, Hears;
    assert Remembers(NEW) by { NewRemembers(); }
    RunRemembers(NEW, events);
    StepReports(Run(NEW, events), e);
  }

  lemma NewRemembers()
    ensures Remembers(NEW)
  {
  }

  // ----- waiting and connecting -----

  /** Some stream opened in the run. */
  ghost predicate HasOpened(s: Subscriber, events: seq<Event>)
    decreases |events|
  {
    events != [] && ((events[0].Opened? && events[0].id in s.live) || HasOpened(Step(s, events[0]), events[1..]))
  }

  lemma StepConnected(s: Subscriber, e: Event)
    ensures Step(s, e).everConnected <==> s.everConnected || (e.Opened? && e.id in s.live)
  {
    hide NoteFails, SetEvent;
  }

  lemma {:induction false} EverConnected(s: Subscriber, events: seq<Event>)
    ensures Run(s, events).everConnected <==> s.everConnected || HasOpened(s, events)
    decreases |events|
  {
    hide Step;
    if events != [] {
      StepConnected(s, events[0]);
      EverConnected(Step(s, events[0]), events[1..]);
    }
  }

  /** A stream that fails is tried again after a minute if none ever opened and
      the browser gave it up, else after the delay, which doubles up to half a
      minute; once stopped, not at all. */
  lemma FailureWaits(events: seq<Event>, id: nat, closed: bool)
    requires id in Run(NEW, events).live
    ensures var s := Run(NEW, events); var t := Step(s, Errored(id, closed));
            && t.live == s.live - {id}
            && (if s.stopped then t.retryTimer == s.retryTimer && t.retryDelay == s.retryDelay
                else if closed && !HasOpened(NEW, events)
                then t.retryTimer == Some(60000) && t.retryDelay == s.retryDelay
                else t.retryTimer == Some(s.retryDelay) &&
                     t.retryDelay == if s.retryDelay > 15000 then 30000 else 2 * s.retryDelay)
  {
    EverConnected(NEW, events);
    hide Run, HasOpened;
  }

  /** Coming online cuts a wait short, and starts the delays over; so does a retry
      that comes due, without that. Neither does anything else, nor anything once
      stopped. */
  lemma WaitEnds(s: Subscriber)
    requires s.url.Some? && s.url.value != ""
    ensures var t := Step(s, Online);
            if s.stopped || s.retryTimer.None? then t == s
            else
              && t.retryTimer.None? && t.retryDelay == 1000
              && t.source == Some(s.sourcesMade) && t.live == s.live + {s.sourcesMade}
    ensures var t := Step(s, RetryDue);
            if s.retryTimer.None? then t == s
            else
              && t.retryTimer.None? && t.retryDelay == s.retryDelay
              && if s.stopped then t.live == s.live && t.source == s.source
                 else t.source == Some(s.sourcesMade) && t.live == s.live + {s.sourcesMade}
  {
  }

  /** The address started with last. */
  function LastStarted(events: seq<Event>): Option<string> {
    if events == [] then None
    else match events[|events| - 1]
      case Start(url) => Some(url)
      case _ => LastStarted(events[..|events| - 1])
  }

  lemma StepUrl(s: Subscriber, e: Event)
    ensures Step(s, e).url == if e.Start? then Some(e.url) else s.url
    ensures Step(s, e).stopped == if e.Start? then false else e.Stop? || s.stopped
  {
    hide NoteFails, SetEvent;
  }

  lemma {:induction false} RunOneMore(s: Subscriber, events: seq<Event>, e: Event)
    ensures Run(s, events + [e]) == Step(Run(s, events), e)
    decreases |events|
  {
    hide Step;
    if events == [] {
      assert [] + [e] == [e] && [e][1..] == [];
    } else {
      assert (events + [e])[1..] == events[1..] + [e];
      RunOneMore(Step(s, events[0]), events[1..], e);
    }
  }

  /** Over any run the subscriber connects to the address started with last. */
  lemma {:induction false} UrlIsLastStarted(events: seq<Event>)
    ensures Run(NEW, events).url == LastStarted(events)
    decreases |events|
  {
    hide Step;
    if events != [] {
      var init, e := events[..|events| - 1], events[|events| - 1];
      assert events == init + [e];
      UrlIsLastStarted(init);
      RunOneMore(NEW, init, e);
      StepUrl(Run(NEW, init), e);
    }
  }
}
