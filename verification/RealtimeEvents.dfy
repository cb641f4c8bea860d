/** The client's side of the server's event stream: events gathered into
    batches, one flush at a time, and a stream that reconnects. */
module RealtimeEvents {
  import opened Sequences
  import opened Text

  datatype Action = Change | Delete | Resync

  datatype Revision = Revision(algorithm: string, hash: string)

  datatype FsEvent = FsEvent(
    name: string, action: Action, lastModified: int, revision: Option<Revision>, origin: Option<string>)

  // ----- a batch -----

  const BATCH_THRESHOLD := 4

  /** What a flush asks of the rest of the client. */
  datatype Call =
    | NoteOrigin(name: string, origin: string)
    | SyncSpace
    | RefreshFileList
    | SyncFile(name: string, lastModified: int, hash: Option<string>)
    | ProbeFile(name: string)

  /** How the rest answers when a flush has made `n` calls: whether the service
      worker is active, and whether call `n` fails. */
  datatype Hooks = Hooks(active: nat -> bool, fails: nat -> bool)

  function Those(batch: seq<FsEvent>, action: Action): seq<FsEvent> {
    if batch == [] then []
    else (if batch[0].action == action then [batch[0]] else []) + Those(batch[1..], action)
  }

  /** One space sync and one list fetch in place of a call for every event. */
  predicate IsFlood(batch: seq<FsEvent>) {
    Those(batch, Resync) != [] || |Those(batch, Change)| >= BATCH_THRESHOLD
  }

  /** Only a hash the sync engine can compare. */
  function HashOf(e: FsEvent): Option<string> {
    if e.revision.Some? && e.revision.value.algorithm == "sha256" then Some(e.revision.value.hash) else None
  }

  /** An empty origin counts as none. */
  predicate HasOrigin(e: FsEvent) {
    e.origin.Some? && e.origin.value != ""
  }

  function NotesOf(changes: seq<FsEvent>): seq<Call> {
    if changes == [] then []
    else
      (if HasOrigin(changes[0]) then [NoteOrigin(changes[0].name, changes[0].origin.value)] else []) +
      NotesOf(changes[1..])
  }

  function CallsForFile(e: FsEvent, n: nat, hooks: Hooks): seq<Call> {
    if !hooks.active(n) then [ProbeFile(e.name)]
    else if hooks.fails(n) then [SyncFile(e.name, e.lastModified, HashOf(e))]
    else [SyncFile(e.name, e.lastModified, HashOf(e)), ProbeFile(e.name)]
  }

  function CallsForFiles(changes: seq<FsEvent>, n: nat, hooks: Hooks): seq<Call> {
    if changes == [] then []
    else
      var calls := CallsForFile(changes[0], n, hooks);
      calls + CallsForFiles(changes[1..], n + |calls|, hooks)
  }

  function CallsForFlood(n: nat, hooks: Hooks): seq<Call> {
    if !hooks.active(n) then [RefreshFileList]
    else if hooks.fails(n) then [SyncSpace]
    else [SyncSpace, RefreshFileList]
  }

  /** The notes made: up to the first that fails, with it. */
  function NotesMade(notes: seq<Call>, n: nat, hooks: Hooks): (r: seq<Call>)
    ensures r <= notes && ((forall i | n <= i < n + |notes| :: !hooks.fails(i)) ==> r == notes)
  {
    if notes == [] then []
    else if hooks.fails(n) then [notes[0]]
    else [notes[0]] + NotesMade(notes[1..], n + 1, hooks)
  }

  /** Noting some origin fails. */
  predicate NoteFails(batch: seq<FsEvent>, hooks: Hooks) {
    exists i | 0 <= i < |NotesOf(Those(batch, Change))| :: hooks.fails(i)
  }

  /** The calls a flush makes. */
  function CallsOf(batch: seq<FsEvent>, hooks: Hooks): seq<Call> {
    var changes := Those(batch, Change);
    var notes := NotesOf(changes);
    if NoteFails(batch, hooks) then NotesMade(notes, 0, hooks)
    else if IsFlood(batch) then notes + CallsForFlood(|notes|, hooks)
    else
      notes + CallsForFiles(changes, |notes|, hooks) +
      if Those(batch, Delete) == [] then [] else [RefreshFileList]
  }

  /** Makes the calls for a batch; `threw` when the flush itself rejects. */
  method Flush(batch: seq<FsEvent>, hooks: Hooks) returns (calls: seq<Call>, threw: bool)
    ensures threw <==> NoteFails(batch, hooks)
    ensures calls == CallsOf(batch, hooks)
  {
    hide Those, NotesOf, CallsForFiles, NotesMade;
    var resync := Those(batch, Resync) != [];
    var deletes := Those(batch, Delete);
    var changes := Those(batch, Change);
    calls, threw := NoteOrigins(changes, hooks);
    if threw {
      return;
    }
    if resync || |changes| >= BATCH_THRESHOLD {
      var n := |calls|;
      if hooks.active(n) {
        calls := calls + [SyncSpace];
        if hooks.fails(n) {
          return;
        }
      }
      calls := calls + [RefreshFileList];
      return;
    }
    calls := HandleChanges(changes, calls, hooks);
    if deletes != [] {
      calls := calls + [RefreshFileList];
    }
  }

  method NoteOrigins(changes: seq<FsEvent>, hooks: Hooks) returns (calls: seq<Call>, threw: bool)
    ensures threw <==> exists i | 0 <= i < |NotesOf(changes)| :: hooks.fails(i)
    ensures calls == NotesMade(NotesOf(changes), 0, hooks)
  {
    hide NotesOf, NotesMade;
    calls := [];
    ghost var notes := NotesOf(changes);
    assert changes[0..] == changes;
    for i := 0 to |changes|
      invariant calls + NotesOf(changes[i..]) == notes
      invariant calls + NotesMade(NotesOf(changes[i..]), |calls|, hooks) == NotesMade(notes, 0, hooks)
      invariant forall j | 0 <= j < |calls| :: !hooks.fails(j)
    {
      NotesFrom(changes, i);
      if HasOrigin(changes[i]) {
        var n := |calls|;
        var note := NoteOrigin(changes[i].name, changes[i].origin.value);
        ghost var rest := NotesOf(changes[i + 1..]);
        NextNote(note, rest, n, hooks);
        Assoc(calls, [note], rest);
        calls := calls + [note];
        if hooks.fails(n) {
          return calls, true;
        }
        Assoc(calls[..n], [note], NotesMade(rest, n + 1, hooks));
      }
    }
    NoNotes(|calls|, hooks);
    assert changes[|changes|..] == [] && calls + [] == calls;
    return calls, false;
  }

  lemma NoNotes(n: nat, hooks: Hooks)
    ensures NotesOf([]) == [] && NotesMade([], n, hooks) == []
  {
  }

  lemma NotesFrom(changes: seq<FsEvent>, i: nat)
    requires i < |changes|
    ensures NotesOf(changes[i..]) ==
            if HasOrigin(changes[i]) then
              [NoteOrigin(changes[i].name, changes[i].origin.value)] + NotesOf(changes[i + 1..])
            else NotesOf(changes[i + 1..])
  {
    assert changes[i..][1..] == changes[i + 1..];
    assert [] + NotesOf(changes[i + 1..]) == NotesOf(changes[i + 1..]);
  }

  lemma NextNote(note: Call, rest: seq<Call>, n: nat, hooks: Hooks)
    ensures NotesMade([note] + rest, n, hooks) ==
            if hooks.fails(n) then [note] else [note] + NotesMade(rest, n + 1, hooks)
  {
    assert ([note] + rest)[1..] == rest;
  }

  method HandleChanges(changes: seq<FsEvent>, before: seq<Call>, hooks: Hooks) returns (calls: seq<Call>)
    ensures calls == before + CallsForFiles(changes, |before|, hooks)
  {
    calls := before;
    for i := 0 to |changes|
      invariant calls + CallsForFiles(changes[i..], |calls|, hooks) == before + CallsForFiles(changes, |before|, hooks)
    {
      var made := HandleChange(changes[i], |calls|, hooks);
      hide CallsForFile;
      assert changes[i..][1..] == changes[i + 1..];
      Assoc(calls, made, CallsForFiles(changes[i + 1..], |calls| + |made|, hooks));
      calls := calls + made;
    }
    assert calls + [] == calls;
  }

  method HandleChange(ev: FsEvent, n: nat, hooks: Hooks) returns (calls: seq<Call>)
    ensures calls == CallsForFile(ev, n, hooks)
  {
    calls := [];
    if hooks.active(n) {
      calls := [SyncFile(ev.name, ev.lastModified, HashOf(ev))];
      if hooks.fails(n) {
        return;
      }
    }
    calls := calls + [ProbeFile(ev.name)];
  }

  // ----- the subscriber -----

  const MIN_RETRY_MS := 1000
  const MAX_RETRY_MS := 30_000
  const UNSUPPORTED_RETRY_MS := 60_000
  const HEARTBEAT_THROTTLE_MS := 5000

  /** A report of the health of the stream. */
  datatype Health = Up(at: int) | Down

  /** The subscriber, with the timers, streams and flushes of the runtime. */
  datatype Subscriber = Subscriber(
    pending: seq<FsEvent>,
    flushTimer: Option<nat>,
    armed: set<nat>,
    timersMade: nat,
    running: seq<seq<FsEvent>>,
    taken: seq<seq<FsEvent>>,
    url: Option<string>,
    source: Option<nat>,
    live: set<nat>,
    sourcesMade: nat,
    retryTimer: Option<int>,
    retryDelay: int,
    everConnected: bool,
    stopped: bool,
    lastHeartbeatAt: int,
    reports: seq<Health>)

  const NEW := Subscriber([], None, {}, 0, [], [], None, None, {}, 0, None, MIN_RETRY_MS, false, false, 0, [])

  /** `Map.set`: a name keeps its place. */
  function SetEvent(pending: seq<FsEvent>, e: FsEvent): seq<FsEvent> {
    if pending == [] then [e]
    else if pending[0].name == e.name then [e] + pending[1..]
    else [pending[0]] + SetEvent(pending[1..], e)
  }

  function Scheduled(s: Subscriber): Subscriber {
    s.(flushTimer := Some(s.timersMade), armed := s.armed + {s.timersMade}, timersMade := s.timersMade + 1)
  }

  function Connected(s: Subscriber): Subscriber {
    if s.stopped then s
    else s.(source := Some(s.sourcesMade), live := s.live + {s.sourcesMade}, sourcesMade := s.sourcesMade + 1)
  }

  /** A sign of life on a stream, reported once in a while. */
  function Heard(s: Subscriber, now: int): Subscriber {
    if now - s.lastHeartbeatAt < HEARTBEAT_THROTTLE_MS then s
    else s.(lastHeartbeatAt := now, reports := s.reports + [Up(now)])
  }

  function ReportedDown(s: Subscriber): Subscriber {
    s.(lastHeartbeatAt := 0, reports := s.reports + [Down])
  }

  function AfterStart(s: Subscriber, url: string): Subscriber {
    Connected(s.(stopped := false, url := Some(url)))
  }

  function AfterStop(s: Subscriber): Subscriber {
    ReportedDown(
      s.(stopped := true,
         live := if s.source.Some? then s.live - {s.source.value} else s.live,
         source := None,
         retryTimer := None,
         armed := if s.flushTimer.Some? then s.armed - {s.flushTimer.value} else s.armed,
         flushTimer := None))
  }

  function AfterOnline(s: Subscriber): Subscriber {
    if s.stopped || s.url.None? || s.url == Some("") || s.retryTimer.None? then s
    else Connected(s.(retryTimer := None, retryDelay := MIN_RETRY_MS))
  }

  function AfterRetry(s: Subscriber): Subscriber {
    Connected(s.(retryTimer := None))
  }

  function AfterOpen(s: Subscriber, now: int): Subscriber {
    Heard(s.(retryDelay := MIN_RETRY_MS, everConnected := true), now)
  }

  /** The stream `id` fails; `closed` when the browser has given it up. */
  function AfterError(s: Subscriber, id: nat, closed: bool): Subscriber {
    var s' := ReportedDown(s.(live := s.live - {id}));
    if s.stopped then s'
    else if !s.everConnected && closed then s'.(retryTimer := Some(UNSUPPORTED_RETRY_MS))
    else
      s'.(retryTimer := Some(s.retryDelay),
          retryDelay := if s.retryDelay * 2 <= MAX_RETRY_MS then s.retryDelay * 2 else MAX_RETRY_MS)
  }

  function AfterEvent(s: Subscriber, e: FsEvent): Subscriber {
    var s' := s.(pending := SetEvent(s.pending, e));
    if s.flushTimer.Some? then s' else Scheduled(s')
  }

  /** A message with an event in it. */
  function AfterMessage(s: Subscriber, now: int, e: FsEvent): Subscriber {
    AfterEvent(Heard(s, now), e)
  }

  /** A flush takes everything pending. */
  function AfterFlushStarts(s: Subscriber, timer: nat): Subscriber {
    s.(armed := s.armed - {timer}, pending := [], running := s.running + [s.pending], taken := s.taken + [s.pending])
  }

  function Without(running: seq<seq<FsEvent>>, i: nat): seq<seq<FsEvent>>
    requires i < |running|
  {
    running[..i] + running[i + 1..]
  }

  /** The flush at `i` is over; one that rejects never clears the timer. */
  function AfterFlushEnds(s: Subscriber, i: nat, threw: bool): Subscriber
    requires i < |s.running|
  {
    var s' := s.(running := Without(s.running, i));
    if threw then s'
    else if s.pending != [] && !s.stopped then Scheduled(s'.(flushTimer := None))
    else s'.(flushTimer := None)
  }

  class RealtimeEvents {
    var pending: seq<FsEvent>
    var flushTimer: Option<nat>
    var armed: set<nat>
    var timersMade: nat
    var running: seq<seq<FsEvent>>
    var taken: seq<seq<FsEvent>>
    var url: Option<string>
    var source: Option<nat>
    var live: set<nat>
    var sourcesMade: nat
    var retryTimer: Option<int>
    var retryDelay: int
    var everConnected: bool
    var stopped: bool
    var lastHeartbeatAt: int
    var reports: seq<Health>

    function State(): Subscriber
      reads this
    {
      Subscriber(pending, flushTimer, armed, timersMade, running, taken, url, source, live, sourcesMade,
                 retryTimer, retryDelay, everConnected, stopped, lastHeartbeatAt, reports)
    }

    constructor ()
      ensures State() == NEW
    {
      pending, flushTimer, armed, timersMade, running, taken := [], None, {}, 0, [], [];
      url, source, live, sourcesMade := None, None, {}, 0;
      retryTimer, retryDelay, everConnected, stopped := None, MIN_RETRY_MS, false, false;
      lastHeartbeatAt, reports := 0, [];
    }

    method Start(url: string)
      modifies this
      ensures State() == AfterStart(old(State()), url)
    {
      stopped := false;
      this.url := Some(url);
      Connect();
    }

    method Stop()
      modifies this
      ensures State() == AfterStop(old(State()))
    {
      stopped := true;
      if source.Some? {
        live := live - {source.value};
      }
      source := None;
      ClearTimers();
      ReportDown();
    }

    method ClearTimers()
      modifies this`retryTimer, this`flushTimer, this`armed
      ensures retryTimer.None? && flushTimer.None?
      ensures armed == if old(flushTimer).Some? then old(armed) - {old(flushTimer).value} else old(armed)
    {
      if retryTimer.Some? {
        retryTimer := None;
      }
      if flushTimer.Some? {
        armed := armed - {flushTimer.value};
        flushTimer := None;
      }
    }

    method OnReceipt(now: int)
      modifies this`lastHeartbeatAt, this`reports
      ensures State() == Heard(old(State()), now)
    {
      if now - lastHeartbeatAt < HEARTBEAT_THROTTLE_MS {
        return;
      }
      lastHeartbeatAt := now;
      reports := reports + [Up(now)];
    }

    method ReportDown()
      modifies this`lastHeartbeatAt, this`reports
      ensures State() == ReportedDown(old(State()))
    {
      lastHeartbeatAt := 0;
      reports := reports + [Down];
    }

    method OnOnline()
      modifies this
      ensures State() == AfterOnline(old(State()))
    {
      if stopped || url.None? || url == Some("") || retryTimer.None? {
        return;
      }
      retryTimer := None;
      retryDelay := MIN_RETRY_MS;
      Connect();
    }

    /** Replaces a retry that is waiting already. */
    method ScheduleReconnect(delay: int)
      modifies this`retryTimer
      ensures retryTimer == Some(delay)
    {
      retryTimer := Some(delay);
    }

    method OnRetryTimer()
      requires retryTimer.Some?
      modifies this
      ensures State() == AfterRetry(old(State()))
    {
      retryTimer := None;
      Connect();
    }

    method Connect()
      modifies this`source, this`live, this`sourcesMade
      ensures State() == Connected(old(State()))
    {
      if stopped {
        return;
      }
      source := Some(sourcesMade);
      live := live + {sourcesMade};
      sourcesMade := sourcesMade + 1;
    }

    /** The list is fetched again when there was a connection before. */
    method OnOpen(now: int) returns (refresh: bool)
      modifies this
      ensures State() == AfterOpen(old(State()), now) && refresh == old(everConnected)
    {
      retryDelay := MIN_RETRY_MS;
      refresh := everConnected;
      everConnected := true;
      OnReceipt(now);
    }

    method OnMessage(now: int, e: FsEvent)
      modifies this
      ensures State() == AfterMessage(old(State()), now, e)
    {
      OnReceipt(now);
      HandleEvent(e);
    }

    method OnError(id: nat, closed: bool)
      modifies this
      ensures State() == AfterError(old(State()), id, closed)
    {
      var unsupported := !everConnected && closed;
      live := live - {id};
      ReportDown();
      if stopped {
        return;
      }
      if unsupported {
        ScheduleReconnect(UNSUPPORTED_RETRY_MS);
        return;
      }
      ScheduleReconnect(retryDelay);
      retryDelay := if retryDelay * 2 <= MAX_RETRY_MS then retryDelay * 2 else MAX_RETRY_MS;
    }

    method SetFlushTimer()
      modifies this`flushTimer, this`armed, this`timersMade
      ensures State() == Scheduled(old(State()))
    {
      flushTimer := Some(timersMade);
      armed := armed + {timersMade};
      timersMade := timersMade + 1;
    }

    method HandleEvent(e: FsEvent)
      modifies this
      ensures State() == AfterEvent(old(State()), e)
    {
      pending := SetEvent(pending, e);
      if flushTimer.None? {
        SetFlushTimer();
      }
    }

    /** Runs until the flush waits for its calls. */
    method OnFlushTimer(timer: nat) returns (batch: seq<FsEvent>)
      requires timer in armed
      modifies this
      ensures State() == AfterFlushStarts(old(State()), timer) && batch == old(pending)
    {
      armed := armed - {timer};
      batch := pending;
      pending := [];
      running := running + [batch];
      taken := taken + [batch];
    }

    /** The calls of the flush at `i` are made, and `runFlush` goes on. */
    method FinishFlush(i: nat, hooks: Hooks) returns (calls: seq<Call>)
      requires i < |running|
      modifies this
      ensures var was := old(State()); var threw := NoteFails(was.running[i], hooks);
              State() == AfterFlushEnds(was, i, threw) && calls == CallsOf(was.running[i], hooks)
    {
      hide CallsOf, NoteFails, NotesOf, Those;
      var threw;
      calls, threw := Flush(running[i], hooks);
      running := Without(running, i);
      if threw {
        return;
      }
      flushTimer := None;
      if pending != [] && !stopped {
        SetFlushTimer();
      }
    }
  }
}
