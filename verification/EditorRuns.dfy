/** Runs of the editor: what local edits, external updates, retries and own
    writes keep, over any sequence of them. */
module EditorRuns {
  import opened Text
  import opened ChangeSets
  import opened ChangeSetLaws
  import opened LineDiff
  import opened LineDiffLaws
  import opened ExternalMerge
  import opened ContentManager

  datatype Event =
    | Typed(text: string)
    | External(update: Withheld, canDefer: bool)
    | Retry(canDefer: bool)
    | OwnWrite(written: string, modified: Option<int>)

  function Step(diff: Differ, p: Page, e: Event): Page
    requires ValidDiffer(diff)
  {
    match e
    case Typed(text) => p.(doc := text)
    case External(u, canDefer) => AfterExternal(diff, p, u, canDefer)
    case Retry(canDefer) => AfterRetry(diff, p, canDefer)
    case OwnWrite(text, modified) => AfterOwnWrite(p, text, modified)
  }

  function Run(diff: Differ, p: Page, events: seq<Event>): Page
    requires ValidDiffer(diff)
    decreases |events|
  {
    if events == [] then p else Run(diff, Step(diff, p, events[0]), events[1..])
  }

  // ----- one step -----

  /** The update a step tries to take in. */
  function Offered(p: Page, e: Event): Option<Withheld> {
    match e
    case External(u, _) => if IsStale(p, u.modified) then None else Some(u)
    case Retry(_) => p.pending
    case _ => None
  }

  predicate IsWithheld(diff: Differ, p: Page, e: Event)
    requires ValidDiffer(diff)
  {
    Offered(p, e).Some? && MergeInto(diff, p, Offered(p, e).value.text, e.canDefer).deferred
  }

  /** What a step that offers an update does: it is withheld and changes neither
      base nor buffer, or its text becomes the base and the buffer is that text
      already or has the unsaved edits rebased onto it. */
  lemma OfferedUpdate(diff: Differ, p: Page, e: Event, u: Withheld)
    requires ValidDiffer(diff) && Offered(p, e) == Some(u) && !HasConflictMarkers(u.text)
    ensures var p' := Step(diff, p, e);
            if IsWithheld(diff, p, e)
            then p' == p.(pending := if e.Retry? then None else Some(u))
            else
              && p'.base == u.text && p'.modified == u.modified && p'.pending.None?
              && p'.doc == if u.text == p.doc then p.doc else Rebased(diff, p.base, u.text, p.doc)
  {
    hide HasConflictMarkers, ComputeExternal;
    if !IsWithheld(diff, p, e) {
      if u.text == p.doc {
        AdoptsDisk(diff, p.base, u.text, p.doc, e.canDefer);
      } else if p.base == p.doc {
        AdoptsDisk(diff, p.base, u.text, p.doc, e.canDefer);
        RebasedNothing(diff, p.base, u.text);
      } else {
        MergeConverges(diff, p.base, u.text, p.doc, e.canDefer);
      }
    }
  }

  /** No outcome loses an unsaved insertion: the text of each still stands in the
      buffer. */
  lemma NoInsertionLost(diff: Differ, p: Page, e: Event, u: Withheld, site: Site)
    requires ValidDiffer(diff) && Offered(p, e) == Some(u) && !HasConflictMarkers(u.text)
    requires site in Sites(Diffed(diff, p.base, p.doc), 0)
    ensures Contains(Step(diff, p, e).doc, site.ins)
  {
    hide HasConflictMarkers, ComputeExternal, Sites, Contains, Rebased, Diffed, Apply;
    OfferedUpdate(diff, p, e, u);
    DiffedRebuilds(diff, p.base, p.doc);
    InsertedTextSurvives(Diffed(diff, p.base, p.doc), p.base, 0, site);
    if !IsWithheld(diff, p, e) && u.text != p.doc {
      if p.base == p.doc {
        DiffedEqual(diff, p.base);
        EmptyHasNoSites(Diffed(diff, p.base, p.base), 0);
      } else {
        MergeLosesNoInsertion(diff, p.base, u.text, p.doc, e.canDefer, site);
      }
    }
  }

  lemma {:induction false} EmptyHasNoSites(e: Edits, pos: nat)
    requires IsEmpty(e)
    ensures Sites(e, pos) == {}
  {
    if e.Keep? {
      EmptyHasNoSites(e.rest, pos + e.len);
    }
  }

  // ----- runs -----

  /** Texts the disk is known to have held: the first base, texts read, texts written. */
  function DiskTexts(p: Page, events: seq<Event>): set<string> {
    {p.base} + (if p.pending.Some? then {p.pending.value.text} else {}) +
    (set e | e in events && e.External? :: e.update.text) + (set e | e in events && e.OwnWrite? :: e.written)
  }

  /** Over any run the base, and what is withheld, are texts the disk has held. */
  lemma {:induction false} BaseWasOnDisk(diff: Differ, p: Page, events: seq<Event>)
    requires ValidDiffer(diff)
    ensures var p' := Run(diff, p, events);
            && p'.base in DiskTexts(p, events)
            && (p'.pending.Some? ==> p'.pending.value.text in DiskTexts(p, events))
    decreases |events|
  {
    hide ComputeExternal, MergeInto;
    if events != [] {
      var q := Step(diff, p, events[0]);
      BaseWasOnDisk(diff, q, events[1..]);
      TextsFromStep(diff, p, events);
    }
  }

  /** A step brings in no text the disk has not held. */
  lemma TextsFromStep(diff: Differ, p: Page, events: seq<Event>)
    requires ValidDiffer(diff) && events != []
    ensures DiskTexts(Step(diff, p, events[0]), events[1..]) <= DiskTexts(p, events)
  {
    hide ComputeExternal, MergeInto;
    var e := events[0];
    assert e in events && forall d <- events[1..] :: d in events;
    var q := Step(diff, p, e);
    assert q.base in DiskTexts(p, events);
    assert q.pending.Some? ==> q.pending.value.text in DiskTexts(p, events);
  }

  /** The buffer after the local edits of a run. */
  function LastTyped(doc: string, events: seq<Event>): string
    decreases |events|
  {
    if events == [] then doc
    else LastTyped(if events[0].Typed? then events[0].text else doc, events[1..])
  }

  /** Once an update has been applied, delivering it or a stale one again, any
      number of times between local edits and retries, changes nothing: the base
      stays and only the local edits show. */
  lemma {:induction false} RedeliveryChangesNothing(diff: Differ, p: Page, u: Withheld, events: seq<Event>)
    requires ValidDiffer(diff) && p.base == u.text && p.modified == u.modified && p.pending.None?
    requires forall e <- events ::
               e.Typed? || e.Retry? || (e.External? && (e.update == u || IsStale(p, e.update.modified)))
    ensures Run(diff, p, events) == p.(doc := LastTyped(p.doc, events))
    decreases |events|
  {
    hide ComputeExternal;
    if events != [] {
      var e := events[0];
      assert e in events && forall d <- events[1..] :: d in events;
      if e.External? && e.update == u {
        SameDiskChangesNothing(diff, p.base, p.doc, e.canDefer);
        EmptyKeepsAll(MergeInto(diff, p, u.text, e.canDefer).changes, p.doc);
      }
      RedeliveryChangesNothing(diff, Step(diff, p, e), u, events[1..]);
    }
  }

  // ----- times -----

  /** The base has a time, and a withheld update is not older. */
  predicate InTime(p: Page) {
    && p.modified.Some?
    && (p.pending.Some? ==> p.pending.value.modified.Some? && p.modified.value <= p.pending.value.modified.value)
  }

  predicate HasTime(e: Event) {
    match e
    case External(u, _) => u.modified.Some?
    case OwnWrite(_, modified) => modified.Some?
    case _ => true
  }

  /** An own write that is not newer than the update withheld. */
  predicate WriteInTime(p: Page, e: Event)
    requires InTime(p) && HasTime(e)
  {
    e.OwnWrite? ==> p.pending.None? || e.modified.value <= p.pending.value.modified.value
  }

  lemma StepInTime(diff: Differ, p: Page, e: Event)
    requires ValidDiffer(diff) && InTime(p) && HasTime(e)
    ensures InTime(Step(diff, p, e)) <==> WriteInTime(p, e)
    ensures Step(diff, p, e).modified.Some? && p.modified.value <= Step(diff, p, e).modified.value
  {
    hide ComputeExternal, MergeInto;
  }

  /** Each own write of the run comes in time. */
  ghost predicate WritesInTime(diff: Differ, p: Page, events: seq<Event>)
    requires ValidDiffer(diff) && InTime(p) && (forall e <- events :: HasTime(e))
    decreases |events|
  {
    events == [] ||
    (HasTime(events[0]) && WriteInTime(p, events[0]) &&
     (StepInTime(diff, p, events[0]); WritesInTime(diff, Step(diff, p, events[0]), events[1..])))
  }

  /** No withheld update is ever older than the base, all through the run. */
  ghost predicate AlwaysInTime(diff: Differ, p: Page, events: seq<Event>)
    requires ValidDiffer(diff)
    decreases |events|
  {
    InTime(p) && (events == [] || AlwaysInTime(diff, Step(diff, p, events[0]), events[1..]))
  }

  /** That is so exactly if each own write comes in time, and the time of the base
      then never goes back. */
  lemma {:induction false} BaseTimeNeverGoesBack(diff: Differ, p: Page, events: seq<Event>)
    requires ValidDiffer(diff) && InTime(p) && (forall e <- events :: HasTime(e))
    ensures AlwaysInTime(diff, p, events) <==> WritesInTime(diff, p, events)
    ensures AlwaysInTime(diff, p, events) ==>
              Run(diff, p, events).modified.Some? && p.modified.value <= Run(diff, p, events).modified.value
    decreases |events|
  {
    hide Step, InTime, HasTime, WriteInTime;
    if events != [] {
      assert events[0] in events && forall e <- events[1..] :: e in events;
      StepInTime(diff, p, events[0]);
      if WriteInTime(p, events[0]) {
        BaseTimeNeverGoesBack(diff, Step(diff, p, events[0]), events[1..]);
      }
    } else {
      HasATime(p);
    }
  }

  lemma HasATime(p: Page)
    requires InTime(p)
    ensures p.modified.Some?
  {
  }
}
