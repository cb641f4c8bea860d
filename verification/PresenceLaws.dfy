/** What the tracking of external edits keeps in every reachable state, and that
    undoing and redoing an external edit is exact. */
module PresenceLaws {
  import opened Sequences
  import opened Text
  import opened ChangeSets
  import opened ChangeSetLaws
  import opened ChangePositions
  import opened Convergence
  import opened LineSurvival
  import opened ExternalPresence

  // ----- ranges -----

  lemma {:induction false} MappedHunksFit(hunks: seq<PresenceHunk>, e: Edits)
    requires AllFit(hunks, LenBefore(e))
    ensures AllFit(MapHunks(hunks, e), LenAfter(e))
  {
    if hunks != [] {
      assert AllFit(hunks[1..], LenBefore(e));
      MappedHunksFit(hunks[1..], e);
    }
  }

  lemma {:induction false} UnexpiredFit(hunks: seq<PresenceHunk>, now: int, n: nat)
    requires AllFit(hunks, n)
    ensures AllFit(Unexpired(hunks, now), n)
  {
    if hunks != [] {
      assert AllFit(hunks[1..], n);
      UnexpiredFit(hunks[1..], now, n);
    }
  }

  lemma {:induction false} SweptFit(hunks: seq<PresenceHunk>, sweeps: seq<int>, n: nat)
    requires AllFit(hunks, n)
    ensures AllFit(Swept(hunks, sweeps), n)
  {
    if sweeps != [] {
      SweptFit(hunks, sweeps[..|sweeps| - 1], n);
      UnexpiredFit(Swept(hunks, sweeps[..|sweeps| - 1]), sweeps[|sweeps| - 1], n);
    }
  }

  lemma PresenceFits(hunks: seq<PresenceHunk>, tr: Transaction)
    requires AllFit(hunks, LenBefore(tr.changes)) && Normal(tr.changes)
    ensures AllFit(NextPresence(hunks, tr), LenAfter(tr.changes))
  {
    var e := tr.changes;
    MappedHunksFit(hunks, e);
    if !DocChanged(tr) {
      EmptyKeepsLength(e);
    }
    ChangesAreSized(e);
    ChangesInOrder(e);
    var moved := if DocChanged(tr) then MapHunks(hunks, e) else hunks;
    var added := if tr.source.Some? then AddedHunks(IterChanges(e), tr.now, tr.source.value) else [];
    forall i | 0 <= i < |added| ensures HunkFits(added[i], LenAfter(e)) {
      assert IterChanges(e)[i] in IterChanges(e);
    }
    SweptFit(moved + added, tr.expire, LenAfter(e));
  }

  lemma {:induction false} EmptyKeepsLength(e: Edits)
    requires IsEmpty(e)
    ensures LenAfter(e) == LenBefore(e)
  {
    if e.Keep? {
      EmptyKeepsLength(e.rest);
    }
  }

  /** A range no change reaches into still covers its text; typing at either end
      of it stays outside. */
  lemma UntouchedRangeKeepsText(h: PresenceHunk, e: Edits, doc: string)
    requires Fits(e, |doc|) && HunkFits(h, |doc|) && h.from < h.to
    requires forall c <- IterChanges(e) :: c.toA <= h.from || h.to <= c.fromA
    ensures var h' := MapHunk(h, e);
            && h'.from <= h'.to <= |Apply(e, doc)|
            && Apply(e, doc)[h'.from..h'.to] == doc[h.from..h.to]
  {
    KeptText(e, doc, h.from, h.to);
    SectionsClear(e, h.from, h.to);
    KeptAfter(e, h.from, h.to, 0, 0);
    KeptEnd(e, h.from, h.to);
  }

  /** The text a change inserts stands where the list of changes says. */
  lemma {:induction false} InsertedStands(e: Edits, doc: string, posA: nat, posB: nat, pre: string, c: Change)
    requires LenBefore(e) == |doc| && |pre| == posB && c in Changes(e, posA, posB)
    ensures c.fromB <= c.toB <= |pre + Apply(e, doc)| && (pre + Apply(e, doc))[c.fromB..c.toB] == c.ins
  {
    if e.Keep? {
      InsertedStands(e.rest, doc[e.len..], posA + e.len, posB + e.len, pre + doc[..e.len], c);
      Assoc(pre, doc[..e.len], Apply(e.rest, doc[e.len..]));
    } else {
      var tail := Apply(e.rest, doc[e.del..]);
      Assoc(pre, e.ins, tail);
      if c in Changes(e.rest, posA + e.del, posB + |e.ins|) {
        InsertedStands(e.rest, doc[e.del..], posA + e.del, posB + |e.ins|, pre + e.ins, c);
      } else {
        Middle(pre, e.ins, tail);
      }
    }
  }

  lemma Middle(pre: string, s: string, post: string)
    ensures (pre + s + post)[|pre|..|pre| + |s|] == s
  {
  }

  lemma Shortened(s: string, i: nat, j: nat)
    requires i < j <= |s|
    ensures s[i..j - 1] + [s[j - 1]] == s[i..j] && s[i..j][j - 1 - i] == s[j - 1]
  {
  }

  /** A new range covers the inserted text, but for a line break at its end. */
  lemma NewRangeCoversInsertion(e: Edits, doc: string, c: Change, now: int, source: string)
    requires Fits(e, |doc|) && c in IterChanges(e)
    ensures c.toB == c.fromB + |c.ins|
    ensures var h := AddedHunk(c, now, source);
            && h.from <= h.to <= |Apply(e, doc)|
            && (Apply(e, doc)[h.from..h.to] == c.ins || Apply(e, doc)[h.from..h.to] + "\n" == c.ins)
  {
    hide Apply, Changes, Normal, LenBefore;
    ChangesInOrder(e);
    hide InOrder;
    ApplyJoined(e, doc);
    InsertedStands(Joined(e), doc, 0, 0, "", c);
    var out := Apply(e, doc);
    assert "" + out == out;
    if AddedHunk(c, now, source).to < c.toB {
      Shortened(out, c.fromB, c.toB);
    }
  }

  // ----- stacks -----

  predicate Tracked(s: UndoState, n: nat) {
    && StackFits(s.pendingUndo, n) && StackFits(s.pendingRedo, n)
    && |s.pendingUndo| <= MAX_TRACKED_EXTERNAL_EDITS && |s.pendingRedo| <= MAX_TRACKED_EXTERNAL_EDITS
  }

  /** Every tracked inverse still applies after a transaction. */
  lemma UndoStaysTracked(s: UndoState, tr: Transaction, doc: string)
    requires Fits(tr.changes, |doc|) && Tracked(s, |doc|)
    ensures Tracked(NextUndo(s, tr, doc), LenAfter(tr.changes))
  {
    hide Map, Invert, Normal, LenBefore, LenAfter;
    var e := tr.changes;
    if !DocChanged(tr) {
      EmptyKeepsLength(e);
    } else {
      var n, inverse := LenAfter(e), [Invert(e, doc)];
      var undo, redo := MapStack(s.pendingUndo, e), MapStack(s.pendingRedo, e);
      assert StackFits(undo + inverse, n) && StackFits(redo + inverse, n);
      assert StackFits(DropEmpty(undo), n) && StackFits(DropEmpty(redo), n);
      assert StackFits(DropEmpty(undo) + inverse, n);
    }
  }

  // ----- runs -----

  /** The editor as the tracking sees it. */
  datatype Editor = Editor(doc: string, hunks: seq<PresenceHunk>, undo: UndoState)

  ghost predicate Sound(ed: Editor) {
    AllFit(ed.hunks, |ed.doc|) && Tracked(ed.undo, |ed.doc|)
  }

  function Opened(doc: string): Editor {
    Editor(doc, [], UndoState([], [], false))
  }

  function Dispatch(ed: Editor, tr: Transaction): Editor
    requires Sound(ed) && Fits(tr.changes, |ed.doc|)
  {
    Editor(Apply(tr.changes, ed.doc), NextPresence(ed.hunks, tr), NextUndo(ed.undo, tr, ed.doc))
  }

  lemma DispatchIsSound(ed: Editor, tr: Transaction)
    requires Sound(ed) && Fits(tr.changes, |ed.doc|)
    ensures Sound(Dispatch(ed, tr))
  {
    PresenceFits(ed.hunks, tr);
    UndoStaysTracked(ed.undo, tr, ed.doc);
  }

  /** States reachable from an opened document by transactions that fit. */
  ghost predicate Reaches(ed: Editor, trs: seq<Transaction>, ed': Editor)
    decreases |trs|
  {
    if trs == [] then ed' == ed
    else Sound(ed) && Fits(trs[0].changes, |ed.doc|) && Reaches(Dispatch(ed, trs[0]), trs[1..], ed')
  }

  /** In every state reachable from an opened document all ranges lie in it,
      every kept inverse applies to it, and neither stack is longer than its
      limit. */
  lemma ReachableIsSound(doc: string, trs: seq<Transaction>, ed: Editor)
    requires Reaches(Opened(doc), trs, ed)
    ensures Sound(ed)
  {
    SoundLasts(Opened(doc), trs, ed);
  }

  lemma {:induction false} SoundLasts(ed: Editor, trs: seq<Transaction>, ed': Editor)
    requires Sound(ed) && Reaches(ed, trs, ed')
    ensures Sound(ed')
    decreases |trs|
  {
    hide NextPresence, NextUndo;
    if trs != [] {
      DispatchIsSound(ed, trs[0]);
      SoundLasts(Dispatch(ed, trs[0]), trs[1..], ed');
    }
  }

  // ----- undo -----

  /** A user undo or redo of `e`. */
  function UserStep(e: Edits, event: UserEvent, now: int): Transaction {
    Transaction(e, None, now, [], event, true)
  }

  /** Undoing an external edit right away restores the text, is recognised, and
      can be redone: redoing it gives the edited text and the same undo again. */
  lemma UndoRedoRoundTrip(ed: Editor, tr: Transaction, now: int)
    requires Sound(ed) && Fits(tr.changes, |ed.doc|) && DocChanged(tr) && tr.source.Some? && tr.event.Other?
    ensures var ed1 := Dispatch(ed, tr);
            var back := Invert(tr.changes, ed.doc);
            && Sound(ed1) && IsTop(ed1.undo.pendingUndo, back) && Fits(back, |ed1.doc|)
            && var ed2 := Dispatch(ed1, UserStep(back, Undo, now));
               && ed2.doc == ed.doc && ed2.undo.corrected && IsTop(ed2.undo.pendingRedo, tr.changes)
               && Sound(ed2) && Fits(tr.changes, |ed2.doc|)
               && var ed3 := Dispatch(ed2, UserStep(tr.changes, Redo, now));
                  ed3.doc == ed1.doc && ed3.undo.corrected && IsTop(ed3.undo.pendingUndo, back)
  {
    var back := Invert(tr.changes, ed.doc);
    var ed1 := Dispatch(ed, tr);
    DispatchIsSound(ed, tr);
    TopOfCapped(DropEmpty(MapStack(ed.undo.pendingUndo, tr.changes)), back);
    InvertUndoes(tr.changes, ed.doc);
    InverseChanges(tr.changes, ed.doc);
    UndoStep(ed1, back, tr.changes, now);
    var ed2 := Dispatch(ed1, UserStep(back, Undo, now));
    RedoStep(ed2, tr.changes, back, now);
  }

  lemma TopOfCapped(stack: seq<Edits>, e: Edits)
    ensures IsTop(Capped(stack + [e]), e)
  {
  }

  lemma {:induction false} InverseChanges(e: Edits, doc: string)
    requires LenBefore(e) == |doc|
    ensures IsEmpty(Invert(e, doc)) <==> IsEmpty(e)
  {
    if e.Keep? {
      InverseChanges(e.rest, doc[e.len..]);
    }
  }

  lemma UndoStep(ed: Editor, e: Edits, inverse: Edits, now: int)
    requires Sound(ed) && Fits(e, |ed.doc|) && !IsEmpty(e) && IsTop(ed.undo.pendingUndo, e)
    requires inverse == Invert(e, ed.doc)
    ensures var ed' := Dispatch(ed, UserStep(e, Undo, now));
            Sound(ed') && ed'.undo.corrected && IsTop(ed'.undo.pendingRedo, inverse)
  {
    DispatchIsSound(ed, UserStep(e, Undo, now));
    TopOfCapped(MapStack(ed.undo.pendingRedo, e), inverse);
  }

  lemma RedoStep(ed: Editor, e: Edits, inverse: Edits, now: int)
    requires Sound(ed) && Fits(e, |ed.doc|) && !IsEmpty(e) && IsTop(ed.undo.pendingRedo, e)
    requires inverse == Invert(e, ed.doc)
    ensures var ed' := Dispatch(ed, UserStep(e, Redo, now));
            ed'.undo.corrected && IsTop(ed'.undo.pendingUndo, inverse)
  {
    TopOfCapped(MapStack(ed.undo.pendingUndo, e), inverse);
  }

  // ----- undo after local edits -----

  /** Local edits that fit, one after the other, on `doc`. */
  predicate LocalRun(doc: string, edits: seq<Edits>)
    decreases |edits|
  {
    edits == [] || (Fits(edits[0], |doc|) && LocalRun(Apply(edits[0], doc), edits[1..]))
  }

  function AfterRun(doc: string, edits: seq<Edits>): string
    requires LocalRun(doc, edits)
    decreases |edits|
  {
    if edits == [] then doc else AfterRun(Apply(edits[0], doc), edits[1..])
  }

  /** An inverse kept through them. */
  function Carried(back: Edits, doc: string, edits: seq<Edits>): (r: Edits)
    requires Fits(back, |doc|) && LocalRun(doc, edits)
    ensures Fits(r, |AfterRun(doc, edits)|)
    decreases |edits|
  {
    if edits == [] then back else Carried(Map(back, edits[0], false), Apply(edits[0], doc), edits[1..])
  }

  /** What the same edits make of `under`, the text `back` gives. */
  function Replayed(back: Edits, doc: string, edits: seq<Edits>, under: string): string
    requires Fits(back, |doc|) && LenAfter(back) == |under| && LocalRun(doc, edits)
    decreases |edits|
  {
    if edits == [] then under
    else
      MapConverges(back, edits[0], false, doc);
      Replayed(Map(back, edits[0], false), Apply(edits[0], doc), edits[1..], Apply(Map(edits[0], back, true), under))
  }

  lemma {:induction false} CarriedGivesReplayed(back: Edits, doc: string, edits: seq<Edits>)
    requires Fits(back, |doc|) && LocalRun(doc, edits)
    ensures Apply(Carried(back, doc, edits), AfterRun(doc, edits)) == Replayed(back, doc, edits, Apply(back, doc))
    decreases |edits|
  {
    hide Apply, Map, Merged;
    if edits != [] {
      var e := edits[0];
      MapConverges(back, e, false, doc);
      CarriedGivesReplayed(Map(back, e, false), Apply(e, doc), edits[1..]);
    }
  }

  // ----- the same in the tracked stacks -----

  /** A transaction of the user that undoes or redoes no external edit. */
  predicate IsLocal(s: UndoState, tr: Transaction) {
    && tr.source.None?
    && !(tr.event.Undo? && IsTop(s.pendingUndo, tr.changes)) && !(tr.event.Redo? && IsTop(s.pendingRedo, tr.changes))
  }

  ghost predicate LocalTransactions(ed: Editor, trs: seq<Transaction>)
    decreases |trs|
  {
    && Sound(ed)
    && (trs == [] || (Fits(trs[0].changes, |ed.doc|) && IsLocal(ed.undo, trs[0]) &&
                      LocalTransactions(Dispatch(ed, trs[0]), trs[1..])))
  }

  ghost function AfterTransactions(ed: Editor, trs: seq<Transaction>): Editor
    requires LocalTransactions(ed, trs)
    decreases |trs|
  {
    if trs == [] then ed else AfterTransactions(Dispatch(ed, trs[0]), trs[1..])
  }

  function ChangesOf(trs: seq<Transaction>): seq<Edits> {
    if trs == [] then [] else [trs[0].changes] + ChangesOf(trs[1..])
  }

  lemma {:induction false} DropEmptyTop(stack: seq<Edits>, e: Edits)
    requires !IsEmpty(e)
    ensures IsTop(DropEmpty(stack + [e]), e)
  {
    if stack == [] {
      assert [e][1..] == [];
    } else {
      DropEmptyTop(stack[1..], e);
      assert (stack + [e])[1..] == stack[1..] + [e];
    }
  }

  lemma CappedTop(stack: seq<Edits>, e: Edits)
    requires IsTop(stack, e)
    ensures IsTop(Capped(stack), e)
  {
  }

  /** A local transaction moves the newest inverse along, until nothing is left
      to undo. */
  lemma LocalEditCarries(s: UndoState, tr: Transaction, doc: string, back: Edits)
    requires Fits(tr.changes, |doc|) && Tracked(s, |doc|) && IsTop(s.pendingUndo, back) && IsLocal(s, tr)
    ensures Fits(back, |doc|)
    ensures var back' := Map(back, tr.changes, false);
            IsEmpty(back') || IsTop(NextUndo(s, tr, doc).pendingUndo, back')
  {
    hide Map, Invert, Normal, LenBefore, LenAfter, IsEmpty, DropEmpty, Capped;
    var e := tr.changes;
    var back' := Map(back, e, false);
    if !DocChanged(tr) {
      MapOverEmpty(back, e);
    } else if !IsEmpty(back') {
      var moved := MapStack(s.pendingUndo, e);
      var n := |moved| - 1;
      assert moved == moved[..n] + [back'];
      DropEmptyTop(moved[..n], back');
      CappedTop(DropEmpty(moved), back');
    }
  }

  lemma MapOverEmpty(back: Edits, e: Edits)
    requires Normal(back) && Normal(e) && LenBefore(back) == LenBefore(e) && IsEmpty(e)
    ensures Map(back, e, false) == back
  {
    MapOverNothing(back, e, false);
  }

  lemma {:induction false} EmptyStaysEmpty(back: Edits, doc: string, edits: seq<Edits>)
    requires Fits(back, |doc|) && LocalRun(doc, edits) && IsEmpty(back)
    ensures IsEmpty(Carried(back, doc, edits))
    decreases |edits|
  {
    if edits != [] {
      hide IsEmpty, MapSet, Normal, LenBefore, LenAfter;
      MapEmpty(back, true, false, edits[0], false);
      EmptyStaysEmpty(Map(back, edits[0], false), Apply(edits[0], doc), edits[1..]);
    }
  }

  lemma DispatchText(ed: Editor, tr: Transaction)
    requires Sound(ed) && Fits(tr.changes, |ed.doc|)
    ensures Dispatch(ed, tr).doc == Apply(tr.changes, ed.doc)
    ensures Dispatch(ed, tr).undo == NextUndo(ed.undo, tr, ed.doc)
  {
  }

  /** The newest tracked inverse is the carried one, unless nothing is left of
      it. */
  lemma {:induction false} CarriedIsOnTop(ed: Editor, back: Edits, trs: seq<Transaction>)
    requires LocalTransactions(ed, trs) && IsTop(ed.undo.pendingUndo, back)
    ensures Fits(back, |ed.doc|) && LocalRun(ed.doc, ChangesOf(trs))
    ensures var ed', back' := AfterTransactions(ed, trs), Carried(back, ed.doc, ChangesOf(trs));
            && Sound(ed') && ed'.doc == AfterRun(ed.doc, ChangesOf(trs))
            && (IsEmpty(back') || IsTop(ed'.undo.pendingUndo, back'))
    decreases |trs|
  {
    hide Dispatch, IsEmpty, Map, Apply, NextUndo, Normal, LenBefore, LenAfter;
    assert Fits(back, |ed.doc|);
    if trs != [] {
      var tr := trs[0];
      var es, ed1 := ChangesOf(trs), Dispatch(ed, tr);
      assert es[0] == tr.changes && es[1..] == ChangesOf(trs[1..]);
      DispatchText(ed, tr);
      LocalEditCarries(ed.undo, tr, ed.doc, back);
      LocalRuns(ed1, trs[1..]);
      var back1 := Map(back, tr.changes, false);
      if IsEmpty(back1) {
        EmptyStaysEmpty(back1, ed1.doc, ChangesOf(trs[1..]));
      } else {
        CarriedIsOnTop(ed1, back1, trs[1..]);
      }
    }
  }

  lemma {:induction false} LocalRuns(ed: Editor, trs: seq<Transaction>)
    requires LocalTransactions(ed, trs)
    ensures LocalRun(ed.doc, ChangesOf(trs))
    ensures Sound(AfterTransactions(ed, trs)) && AfterTransactions(ed, trs).doc == AfterRun(ed.doc, ChangesOf(trs))
    decreases |trs|
  {
    hide Dispatch, Apply, NextUndo, Normal, LenBefore;
    if trs != [] {
      assert ChangesOf(trs)[1..] == ChangesOf(trs[1..]);
      DispatchText(ed, trs[0]);
      LocalRuns(Dispatch(ed, trs[0]), trs[1..]);
    }
  }

  /** After an external edit and any local transactions, overlapping it or not,
      the newest tracked inverse is the carried one, unless nothing is left of
      it; undoing it is recognised, and leaves what these transactions make of
      the text before the external edit. */
  lemma UndoKeepsLocalEdits(ed: Editor, tr: Transaction, trs: seq<Transaction>, now: int)
    requires Sound(ed) && Fits(tr.changes, |ed.doc|) && DocChanged(tr) && tr.source.Some? && tr.event.Other?
    requires LocalTransactions(Dispatch(ed, tr), trs)
    ensures var doc1, back, es := Apply(tr.changes, ed.doc), Invert(tr.changes, ed.doc), ChangesOf(trs);
            var ed1 := AfterTransactions(Dispatch(ed, tr), trs);
            && Sound(ed1) && LocalRun(doc1, es) && Fits(back, |doc1|)
            && var carried := Carried(back, doc1, es);
               && Fits(carried, |ed1.doc|)
               && Apply(carried, ed1.doc) == Replayed(back, doc1, es, ed.doc)
               && (IsEmpty(carried) ||
                   (&& IsTop(ed1.undo.pendingUndo, carried)
                    && var undone := Dispatch(ed1, UserStep(carried, Undo, now));
                       undone.undo.corrected && undone.doc == Replayed(back, doc1, es, ed.doc)))
  {
    hide Dispatch, Apply, Map, Carried, Replayed, AfterRun, LocalRun, IsEmpty, NextUndo;
    hide LocalTransactions, AfterTransactions;
    var back := Invert(tr.changes, ed.doc);
    var ed0 := Dispatch(ed, tr);
    ExternalOnTop(ed, tr);
    CarriedIsOnTop(ed0, back, trs);
    InvertUndoes(tr.changes, ed.doc);
    CarriedGivesReplayed(back, ed0.doc, ChangesOf(trs));
    var ed1, carried := AfterTransactions(ed0, trs), Carried(back, ed0.doc, ChangesOf(trs));
    DispatchText(ed1, UserStep(carried, Undo, now));
    if !IsEmpty(carried) {
      UndoStep(ed1, carried, Invert(carried, ed1.doc), now);
    }
  }

  lemma ExternalOnTop(ed: Editor, tr: Transaction)
    requires Sound(ed) && Fits(tr.changes, |ed.doc|) && DocChanged(tr) && tr.source.Some? && tr.event.Other?
    ensures Dispatch(ed, tr).doc == Apply(tr.changes, ed.doc)
    ensures IsTop(Dispatch(ed, tr).undo.pendingUndo, Invert(tr.changes, ed.doc))
  {
    hide Apply, Map, Invert, Normal, LenBefore, IsEmpty, DropEmpty, Capped;
    TopOfCapped(DropEmpty(MapStack(ed.undo.pendingUndo, tr.changes)), Invert(tr.changes, ed.doc));
  }
}
