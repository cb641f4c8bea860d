/** When a disk text counts as conflicted, which step the base of the editor comes
    from, over every run, and what is taken in whole. */
module EditorLaws {
  import opened Sequences
  import opened Text
  import opened ChangeSets
  import opened ChangeSetLaws
  import opened LineDiff
  import opened LineDiffLaws
  import opened ExternalMerge
  import opened ContentManager
  import opened EditorRuns
  import opened ConflictForms
  import MarkerLines
  import ConflictMarkers
  import ConflictHunks
  import ConflictCompleteness

  // ----- texts that hold conflict markers -----

  function LinesOf(text: string): seq<MarkerLines.Line> {
    MarkerLines.ReadLines(SplitLines(text))
  }

  lemma LinesAreRead(text: string)
    ensures ConflictHunks.IsRead(LinesOf(text)) && ConflictMarkers.Texts(LinesOf(text)) == SplitLines(text)
  {
    hide SplitLines, MarkerLines.MatchMarker, MarkerLines.MatchSeparator, MarkerLines.Opens, MarkerLines.Closes;
  }

  /** A text counts as conflicted exactly if the four lines of an SB hunk stand in
      it, at a start line that is not passed over. */
  lemma ConflictedIff(text: string)
    ensures HasConflictMarkers(text) <==> HasSBHunk(LinesOf(text))
  {
    hide ConflictMarkers.Hunks, SplitLines, HasSBHunk, ConflictHunks.IsRead;
    LinesAreRead(text);
    HasSBHunkIff(LinesOf(text));
  }

  /** So it does whenever those lines stand in it and no line in front of them
      starts a conflict. */
  lemma MarkersCount(text: string, s: nat, b: nat, p: nat, e: nat)
    requires SBHunkAt(SplitLines(text), s, b, p, e)
    requires forall l | 0 <= l < s :: !StartsConflict(SplitLines(text)[l])
    ensures HasConflictMarkers(text)
  {
    hide HasConflictMarkers, SplitLines, StartsConflict, SBHunkAt, ConflictHunks.IsRead;
    hide ConflictCompleteness.PassedOver, ConflictMarkers.Mask;
    LinesAreRead(text);
    ConflictedIff(text);
    StartsWithin(SplitLines(text), s, b, p, e);
    FirstIsNotPassedOver(LinesOf(text), s);
  }

  lemma StartsWithin(lines: seq<string>, s: nat, b: nat, p: nat, e: nat)
    requires SBHunkAt(lines, s, b, p, e)
    ensures s < |lines| && "<<<<<<< SB sha256:" <= lines[s]
  {
  }

  /** Offset `i` is the start of a line that starts like an SB hunk. */
  predicate SBStartAt(text: string, i: nat)
    requires i <= |text|
  {
    (i == 0 || text[i - 1] == '\n') && "<<<<<<< SB sha256:" <= text[i..]
  }

  lemma {:induction false} LineStands(text: string, k: nat) returns (i: nat)
    requires k < |SplitLines(text)|
    ensures i <= |text| && (i == 0 || text[i - 1] == '\n') && SplitLines(text)[k] <= text[i..]
    ensures k == 0 <==> i == 0
  {
    i := 0;
    if text != "" {
      var rest := SplitLines(text[1..]);
      if text[0] == '\n' {
        if k > 0 {
          i := LineStands(text[1..], k - 1);
          i := i + 1;
        }
      } else {
        i := LineStands(text[1..], k);
        if k > 0 {
          i := i + 1;
        } else {
          assert text == [text[0]] + text[1..];
        }
      }
    }
  }

  lemma StartStands(text: string, s: nat)
    requires s < |SplitLines(text)| && "<<<<<<< SB sha256:" <= SplitLines(text)[s]
    ensures exists i | 0 <= i <= |text| :: SBStartAt(text, i)
  {
    hide SplitLines;
    var i := LineStands(text, s);
    assert SBStartAt(text, i);
  }

  /** Without such an offset it does not. */
  lemma NoStartNotConflicted(text: string)
    requires forall i | 0 <= i <= |text| :: !SBStartAt(text, i)
    ensures !HasConflictMarkers(text)
  {
    hide HasConflictMarkers, SplitLines, SBHunkAt, ConflictHunks.IsRead, ConflictMarkers.Mask;
    hide ConflictCompleteness.PassedOver;
    ConflictedIff(text);
    LinesAreRead(text);
    if HasSBHunk(LinesOf(text)) {
      var s: nat, b: nat, p: nat, e: nat :| SBHunkAt(SplitLines(text), s, b, p, e);
      StartsWithin(SplitLines(text), s, b, p, e);
      StartStands(text, s);
    }
  }

  /** A disk text without an SB start line never loses an unsaved insertion. */
  lemma UnsavedInsertionStays(diff: Differ, p: Page, e: Event, u: Withheld, site: Site)
    requires ValidDiffer(diff) && Offered(p, e) == Some(u) && site in Sites(Diffed(diff, p.base, p.doc), 0)
    requires forall i | 0 <= i <= |u.text| :: !SBStartAt(u.text, i)
    ensures Contains(Step(diff, p, e).doc, site.ins)
  {
    hide *;
    NoStartNotConflicted(u.text);
    NoInsertionLost(diff, p, e, u, site);
  }

  // ----- updates that are offered -----

  /** The time an update is held against: that of the update withheld, if it has
      one, or else that of the base. */
  predicate IsLate(p: Page, time: Option<int>) {
    && time.Some?
    && (match p.pending
        case Some(Withheld(_, Some(last), _)) => time.value < last
        case _ => p.modified.Some? && time.value < p.modified.value)
  }

  lemma OfferedIff(p: Page, e: Event)
    ensures Offered(p, e) ==
            match e
            case External(u, _) => if IsLate(p, u.modified) then None else Some(u)
            case Retry(_) => p.pending
            case Typed(_) => None
            case OwnWrite(_, _) => None
  {
  }

  /** With withholding off, nothing is withheld. */
  lemma WithheldOnlyIfAsked(diff: Differ, p: Page, e: Event)
    requires ValidDiffer(diff) && IsWithheld(diff, p, e)
    ensures (e.External? || e.Retry?) && e.canDefer
  {
    hide HasConflictMarkers, Diffed, SidesCollide;
  }

  /** A conflicted disk text other than the base is taken in whole. */
  lemma ConflictedIsTakenIn(diff: Differ, p: Page, e: Event, u: Withheld)
    requires ValidDiffer(diff) && Offered(p, e) == Some(u) && HasConflictMarkers(u.text) && u.text != p.base
    ensures Step(diff, p, e) == Page(u.text, u.text, u.modified, None)
  {
    hide HasConflictMarkers, ComputeExternal, Diffed, IsStale;
    DiffedRebuilds(diff, p.base, u.text);
    if IsEmpty(Diffed(diff, p.base, u.text)) {
      EmptyKeepsAll(Diffed(diff, p.base, u.text), p.base);
    }
    AdoptsDisk(diff, p.base, u.text, p.doc, e.canDefer);
  }

  /** So is any, where there are no unsaved edits. */
  lemma UneditedTakesWhole(diff: Differ, p: Page, e: Event, u: Withheld)
    requires ValidDiffer(diff) && Offered(p, e) == Some(u) && p.doc == p.base
    ensures Step(diff, p, e) == Page(u.text, u.text, u.modified, None)
  {
    hide HasConflictMarkers, ComputeExternal, Diffed, IsStale;
    AdoptsDisk(diff, p.base, u.text, p.doc, e.canDefer);
  }

  /** After any run: once the buffer has been written, and that write is not older
      than the base, an update that is not late is taken in whole. */
  lemma UpdateAfterOwnWrite(diff: Differ, start: Page, events: seq<Event>, time: Option<int>, u: Withheld,
                            canDefer: bool)
    requires ValidDiffer(diff)
    requires var p := Run(diff, start, events);
             time.None? || p.modified.None? || time.value >= p.modified.value
    ensures var p := Run(diff, start, events);
            var q := Run(diff, start, events + [OwnWrite(p.doc, time), External(u, canDefer)]);
            q == if IsLate(p.(modified := time), u.modified) then p.(base := p.doc, modified := time)
                 else Page(u.text, u.text, u.modified, None)
  {
    hide HasConflictMarkers, ComputeExternal, Run, Step;
    var p := Run(diff, start, events);
    var own, ext := OwnWrite(p.doc, time), External(u, canDefer);
    var p' := p.(base := p.doc, modified := time);
    RunTwoMore(diff, start, events, own, ext);
    OwnWriteSets(diff, p, p.doc, time);
    OfferedIff(p', ext);
    if IsLate(p', u.modified) {
      LateChangesNothing(diff, p', u, canDefer);
    } else {
      UneditedTakesWhole(diff, p', ext, u);
    }
  }

  lemma OwnWriteSets(diff: Differ, p: Page, text: string, time: Option<int>)
    requires ValidDiffer(diff) && (time.None? || p.modified.None? || time.value >= p.modified.value)
    ensures Step(diff, p, OwnWrite(text, time)) == p.(base := text, modified := time)
  {
  }

  lemma LateChangesNothing(diff: Differ, p: Page, u: Withheld, canDefer: bool)
    requires ValidDiffer(diff) && IsLate(p, u.modified)
    ensures Step(diff, p, External(u, canDefer)) == p
  {
    hide MergeInto;
  }

  lemma {:induction false} RunMore(diff: Differ, p: Page, events: seq<Event>, more: seq<Event>)
    requires ValidDiffer(diff)
    ensures Run(diff, p, events + more) == Run(diff, Run(diff, p, events), more)
    decreases |events|
  {
    hide Step;
    if events == [] {
      NothingAdded(more);
    } else {
      assert (events + more)[1..] == events[1..] + more;
      RunMore(diff, Step(diff, p, events[0]), events[1..], more);
    }
  }

  lemma RunTwoMore(diff: Differ, p: Page, events: seq<Event>, a: Event, b: Event)
    requires ValidDiffer(diff)
    ensures Run(diff, p, events + [a, b]) == Step(diff, Step(diff, Run(diff, p, events), a), b)
  {
    hide Step;
    RunOneMore(diff, p, events, a);
    RunOneMore(diff, p, events + [a], b);
    assert events + [a, b] == events + [a] + [b];
  }

  // ----- where the base comes from -----

  /** The text and time a step makes the base: those of an update taken in, or of
      an own write that is not older. */
  function Adopts(diff: Differ, p: Page, e: Event): Option<(string, Option<int>)>
    requires ValidDiffer(diff)
  {
    match e
    case Typed(_) => None
    case External(u, _) =>
      if IsLate(p, u.modified) || IsWithheld(diff, p, e) then None else Some((u.text, u.modified))
    case Retry(_) =>
      if p.pending.None? || IsWithheld(diff, p, e) then None
      else Some((p.pending.value.text, p.pending.value.modified))
    case OwnWrite(text, time) =>
      if time.Some? && p.modified.Some? && time.value < p.modified.value then None else Some((text, time))
  }

  lemma StepAdopts(diff: Differ, p: Page, e: Event)
    requires ValidDiffer(diff)
    ensures (Step(diff, p, e).base, Step(diff, p, e).modified) ==
            if Adopts(diff, p, e).Some? then Adopts(diff, p, e).value else (p.base, p.modified)
  {
    hide ComputeExternal, MergeInto;
  }

  /** What event `i` of a run adopts. */
  function AdoptedAt(diff: Differ, p: Page, events: seq<Event>, i: nat): Option<(string, Option<int>)>
    requires ValidDiffer(diff) && i < |events|
  {
    Adopts(diff, Run(diff, p, events[..i]), events[i])
  }

  /** Over every run base and time are what the last step that adopted one set; if
      none did, they are those of the beginning. */
  lemma {:induction false} BaseIsLastAdopted(diff: Differ, p: Page, events: seq<Event>)
    requires ValidDiffer(diff)
    ensures var p' := Run(diff, p, events);
            || (&& (p'.base, p'.modified) == (p.base, p.modified)
                && forall i | 0 <= i < |events| :: AdoptedAt(diff, p, events, i).None?)
            || (exists i | 0 <= i < |events| ::
                  && AdoptedAt(diff, p, events, i) == Some((p'.base, p'.modified))
                  && forall j | i < j < |events| :: AdoptedAt(diff, p, events, j).None?)
    decreases |events|
  {
    hide Run, Step, Adopts, AdoptedAt;
    if events == [] {
      RunNone(diff, p);
    } else {
      var n := |events| - 1;
      var init, e := events[..n], events[n];
      BaseIsLastAdopted(diff, p, init);
      assert events == init + [e];
      RunOneMore(diff, p, init, e);
      StepAdopts(diff, Run(diff, p, init), e);
      AdoptedLast(diff, p, init, e);
      forall i | 0 <= i < n ensures AdoptedAt(diff, p, events, i) == AdoptedAt(diff, p, init, i) {
        AdoptedEarlier(diff, p, init, e, i);
      }
    }
  }

  lemma RunNone(diff: Differ, p: Page)
    requires ValidDiffer(diff)
    ensures Run(diff, p, []) == p
  {
  }

  lemma RunOneMore(diff: Differ, p: Page, events: seq<Event>, e: Event)
    requires ValidDiffer(diff)
    ensures Run(diff, p, events + [e]) == Step(diff, Run(diff, p, events), e)
  {
    hide Step;
    RunMore(diff, p, events, [e]);
    assert [e][1..] == [];
  }

  lemma AdoptedLast(diff: Differ, p: Page, init: seq<Event>, e: Event)
    requires ValidDiffer(diff)
    ensures AdoptedAt(diff, p, init + [e], |init|) == Adopts(diff, Run(diff, p, init), e)
  {
    hide Run, Adopts;
    assert (init + [e])[..|init|] == init;
  }

  lemma AdoptedEarlier(diff: Differ, p: Page, init: seq<Event>, e: Event, i: nat)
    requires ValidDiffer(diff) && i < |init|
    ensures AdoptedAt(diff, p, init + [e], i) == AdoptedAt(diff, p, init, i)
  {
    hide Run, Adopts;
    assert (init + [e])[..i] == init[..i];
  }
}
