/** One transaction at a time: which ranges are highlighted after it, for how long,
    and which inverses are kept for undo and redo. */
module PresenceForms {
  import opened Sequences
  import opened Text
  import opened ChangeSets
  import opened ChangePositions
  import opened ExternalPresence

  // ----- highlighted ranges -----

  lemma {:induction false} UnexpiredIff(hunks: seq<PresenceHunk>, now: int, h: PresenceHunk)
    ensures h in Unexpired(hunks, now) <==> h in hunks && now - h.time < 5000
  {
    if hunks != [] {
      UnexpiredIff(hunks[1..], now, h);
      assert hunks == [hunks[0]] + hunks[1..];
    }
  }

  /** The range is younger than five seconds at each sweep. */
  predicate IsYoung(h: PresenceHunk, sweeps: seq<int>) {
    forall i | 0 <= i < |sweeps| :: sweeps[i] - h.time < 5000
  }

  /** A range survives the sweeps exactly if it is. */
  lemma {:induction false} SweptIff(hunks: seq<PresenceHunk>, sweeps: seq<int>, h: PresenceHunk)
    ensures h in Swept(hunks, sweeps) <==> h in hunks && IsYoung(h, sweeps)
  {
    if sweeps != [] {
      hide Unexpired, IsYoung;
      var n := |sweeps| - 1;
      SweptIff(hunks, sweeps[..n], h);
      UnexpiredIff(Swept(hunks, sweeps[..n]), sweeps[n], h);
      YoungOnce(h, sweeps);
    }
  }

  lemma YoungOnce(h: PresenceHunk, sweeps: seq<int>)
    requires sweeps != []
    ensures var n := |sweeps| - 1; IsYoung(h, sweeps) <==> IsYoung(h, sweeps[..n]) && sweeps[n] - h.time < 5000
  {
    var n := |sweeps| - 1;
    assert sweeps == sweeps[..n] + [sweeps[n]];
  }

  /** `h` is what a transaction makes of `was`: moved from the right of insertions
      at its start and the left of those at its end, and not turned around. */
  predicate IsMoved(was: PresenceHunk, e: Edits, h: PresenceHunk)
    requires HunkFits(was, LenBefore(e))
  {
    && h.time == was.time && h.source == was.source && h.from <= h.to
    && (if IsEmpty(e) then h.from == was.from && h.to == was.to
        else h.from == MapPos(e, was.from, true) && h.to == MapPos(e, was.to, false))
  }

  /** `h` is the range of the text change `c` inserts, up to the line break at its
      end if there is more than that. */
  predicate IsOfChange(c: Change, tr: Transaction, h: PresenceHunk) {
    && tr.source == Some(h.source) && h.time == tr.now && h.from == c.fromB
    && h.to == c.toB - if |c.ins| >= 2 && c.ins[|c.ins| - 1] == '\n' then 1 else 0
  }

  lemma {:induction false} MovedIff(hunks: seq<PresenceHunk>, e: Edits, h: PresenceHunk)
    requires AllFit(hunks, LenBefore(e)) && !IsEmpty(e)
    ensures h in MapHunks(hunks, e) <==> exists i | 0 <= i < |hunks| :: IsMoved(hunks[i], e, h)
  {
    hide MapPos;
    if hunks != [] {
      var rest := hunks[1..];
      assert AllFit(rest, LenBefore(e));
      MovedIff(rest, e, h);
      forall i | 1 <= i < |hunks| ensures IsMoved(hunks[i], e, h) <==> IsMoved(rest[i - 1], e, h) {
      }
      if i :| 0 <= i < |rest| && IsMoved(rest[i], e, h) {
        assert IsMoved(hunks[i + 1], e, h);
      }
    }
  }

  lemma AddedIff(cs: seq<Change>, tr: Transaction, h: PresenceHunk)
    requires Sized(cs) && tr.source.Some?
    ensures h in AddedHunks(cs, tr.now, tr.source.value) <==> exists c <- cs :: IsOfChange(c, tr, h)
  {
    var added := AddedHunks(cs, tr.now, tr.source.value);
    forall i | 0 <= i < |cs| ensures IsOfChange(cs[i], tr, h) <==> h == added[i] {
    }
    hide IsOfChange, AddedHunk;
    if c :| c in cs && IsOfChange(c, tr, h) {
      var i :| 0 <= i < |cs| && cs[i] == c;
      assert h == added[i];
    }
    if h in added {
      var i :| 0 <= i < |added| && added[i] == h;
      assert IsOfChange(cs[i], tr, h);
    }
  }

  /** After a transaction exactly those ranges are highlighted that it moved along
      or, if it is external, added, and that no sweep it carries finds too was. */
  lemma PresenceIff(hunks: seq<PresenceHunk>, tr: Transaction, h: PresenceHunk)
    requires AllFit(hunks, LenBefore(tr.changes)) && Normal(tr.changes)
    ensures h in NextPresence(hunks, tr) <==>
            && IsYoung(h, tr.expire)
            && (|| (exists i | 0 <= i < |hunks| :: IsMoved(hunks[i], tr.changes, h))
                || (exists c <- IterChanges(tr.changes) :: IsOfChange(c, tr, h)))
  {
    hide Swept, MapHunks, AddedHunks, IterChanges, IsOfChange, MapPos, Sized, IsYoung;
    var moved := if DocChanged(tr) then MapHunks(hunks, tr.changes) else hunks;
    ChangesAreSized(tr.changes);
    var cs := IterChanges(tr.changes);
    var added := if tr.source.Some? then AddedHunks(cs, tr.now, tr.source.value) else [];
    SweptIff(moved + added, tr.expire, h);
    MovedOrKeptIff(hunks, tr, h);
    if tr.source.Some? {
      AddedIff(cs, tr, h);
    } else {
      OnlyOfExternal(tr, h);
    }
  }

  lemma OnlyOfExternal(tr: Transaction, h: PresenceHunk)
    requires tr.source.None?
    ensures forall c: Change :: !IsOfChange(c, tr, h)
  {
  }

  lemma MovedOrKeptIff(hunks: seq<PresenceHunk>, tr: Transaction, h: PresenceHunk)
    requires AllFit(hunks, LenBefore(tr.changes))
    ensures h in (if DocChanged(tr) then MapHunks(hunks, tr.changes) else hunks) <==>
            exists i | 0 <= i < |hunks| :: IsMoved(hunks[i], tr.changes, h)
  {
    hide MapHunks, MapPos;
    if DocChanged(tr) {
      MovedIff(hunks, tr.changes, h);
    } else {
      forall i | 0 <= i < |hunks| ensures IsMoved(hunks[i], tr.changes, h) <==> h == hunks[i] {
      }
    }
  }

  lemma {:induction false} UnexpiredOfBoth(a: seq<PresenceHunk>, b: seq<PresenceHunk>, now: int)
    ensures Unexpired(a + b, now) == Unexpired(a, now) + Unexpired(b, now)
  {
    if a == [] {
      NothingAdded(b);
      NothingAdded(Unexpired(b, now));
    } else {
      UnexpiredOfBoth(a[1..], b, now);
      assert (a + b)[1..] == a[1..] + b;
      Assoc(if now - a[0].time < PRESENCE_TTL_MS then [a[0]] else [], Unexpired(a[1..], now), Unexpired(b, now));
    }
  }

  lemma {:induction false} SweptOfBoth(a: seq<PresenceHunk>, b: seq<PresenceHunk>, sweeps: seq<int>)
    ensures Swept(a + b, sweeps) == Swept(a, sweeps) + Swept(b, sweeps)
  {
    hide Unexpired;
    if sweeps != [] {
      var n := |sweeps| - 1;
      SweptOfBoth(a, b, sweeps[..n]);
      UnexpiredOfBoth(Swept(a, sweeps[..n]), Swept(b, sweeps[..n]), sweeps[n]);
    }
  }

  /** Older ranges come first. */
  lemma OlderComeFirst(hunks: seq<PresenceHunk>, tr: Transaction)
    requires AllFit(hunks, LenBefore(tr.changes)) && Normal(tr.changes)
    ensures NextPresence(hunks, tr) == NextPresence(hunks, tr.(source := None)) + NextPresence([], tr)
  {
    hide Swept, IterChanges, Sized, AddedHunks;
    var moved := if DocChanged(tr) then MapHunks(hunks, tr.changes) else hunks;
    ChangesAreSized(tr.changes);
    var added := if tr.source.Some? then AddedHunks(IterChanges(tr.changes), tr.now, tr.source.value) else [];
    SweptOfBoth(moved, added, tr.expire);
    NothingAdded(moved);
    NothingAdded(added);
  }

  // ----- stacks of inverses -----

  /** Of a stack only the newest hundred entries are kept. */
  lemma NewestAreKept(stack: seq<Edits>)
    ensures |stack| <= 100 ==> Capped(stack) == stack
    ensures |stack| > 100 ==> |Capped(stack)| == 100 && stack[..|stack| - 100] + Capped(stack) == stack
  {
  }

  lemma {:induction false} DropEmptyOfBoth(a: seq<Edits>, b: seq<Edits>)
    ensures DropEmpty(a + b) == DropEmpty(a) + DropEmpty(b)
  {
    hide IsEmpty;
    if a == [] {
      NothingAdded(b);
      NothingAdded(DropEmpty(b));
    } else {
      DropEmptyOfBoth(a[1..], b);
      assert (a + b)[1..] == a[1..] + b;
      Assoc([a[0]], DropEmpty(a[1..]), DropEmpty(b));
    }
  }

  lemma {:induction false} DropEmptyIff(stack: seq<Edits>, x: Edits)
    ensures x in DropEmpty(stack) <==> x in stack && !IsEmpty(x)
  {
    hide IsEmpty;
    if stack != [] {
      DropEmptyIff(stack[1..], x);
      assert stack == [stack[0]] + stack[1..];
    }
  }

  /** The transaction is the undo or the redo of the newest tracked inverse. */
  predicate Recognized(s: UndoState, tr: Transaction) {
    && !IsEmpty(tr.changes)
    && (|| (tr.event.Undo? && s.pendingUndo != [] && s.pendingUndo[|s.pendingUndo| - 1] == tr.changes)
        || (tr.event.Redo? && s.pendingRedo != [] && s.pendingRedo[|s.pendingRedo| - 1] == tr.changes))
  }

  /** The cursor is put back after exactly such a transaction; one that changes no
      text changes no stack. */
  lemma CorrectedIff(s: UndoState, tr: Transaction, doc: string)
    requires Fits(tr.changes, |doc|) && StackFits(s.pendingUndo, |doc|) && StackFits(s.pendingRedo, |doc|)
    ensures NextUndo(s, tr, doc).corrected <==> Recognized(s, tr)
    ensures IsEmpty(tr.changes) ==>
              NextUndo(s, tr, doc).pendingUndo == s.pendingUndo && NextUndo(s, tr, doc).pendingRedo == s.pendingRedo
  {
    hide Map, Invert, IsEmpty, Normal, LenBefore, LenAfter, DropEmpty, Capped;
  }

  /** `now` holds the newest of `before`, all moved over `e`, and `inverse` on top;
      a hundred at most. */
  predicate IsPushed(before: seq<Edits>, e: Edits, inverse: Edits, now: seq<Edits>)
    requires StackFits(before, LenBefore(e)) && Normal(e)
  {
    var dropped := if |before| >= 100 then |before| - 99 else 0;
    && |now| == |before| - dropped + 1 && now[|now| - 1] == inverse
    && forall i | 0 <= i < |now| - 1 :: now[i] == Map(before[dropped + i], e, false)
  }

  /** `now` holds `before` but for its top, all moved over `e`. */
  predicate IsPopped(before: seq<Edits>, e: Edits, now: seq<Edits>)
    requires StackFits(before, LenBefore(e)) && Normal(e)
  {
    |now| + 1 == |before| && forall i | 0 <= i < |now| :: now[i] == Map(before[i], e, false)
  }

  lemma CappedIs(stack: seq<Edits>, dropped: nat)
    requires dropped == if |stack| > 100 then |stack| - 100 else 0
    ensures Capped(stack) == stack[dropped..]
  {
  }

  lemma PushedIs(before: seq<Edits>, e: Edits, inverse: Edits)
    requires StackFits(before, LenBefore(e)) && Normal(e)
    ensures IsPushed(before, e, inverse, Capped(MapStack(before, e) + [inverse]))
  {
    hide *;
    var dropped := if |before| >= 100 then |before| - 99 else 0;
    CappedIs(MapStack(before, e) + [inverse], dropped);
    PushedFrom(before, e, inverse, MapStack(before, e), dropped);
  }

  lemma PushedFrom(before: seq<Edits>, e: Edits, inverse: Edits, moved: seq<Edits>, dropped: nat)
    requires StackFits(before, LenBefore(e)) && Normal(e) && |moved| == |before|
    requires forall i | 0 <= i < |moved| :: moved[i] == Map(before[i], e, false)
    requires dropped == if |before| >= 100 then |before| - 99 else 0
    ensures IsPushed(before, e, inverse, (moved + [inverse])[dropped..])
  {
    NewestPushed(moved, inverse, dropped);
    hide Map, MapStack, Normal, LenBefore, LenAfter, Capped;
  }

  lemma NewestPushed(moved: seq<Edits>, inverse: Edits, dropped: nat)
    requires dropped <= |moved|
    ensures var kept := (moved + [inverse])[dropped..];
            && |kept| == |moved| - dropped + 1 && kept[|kept| - 1] == inverse
            && forall i | 0 <= i < |kept| - 1 :: kept[i] == moved[dropped + i]
  {
  }

  lemma PoppedIs(before: seq<Edits>, e: Edits)
    requires StackFits(before, LenBefore(e)) && Normal(e) && 0 < |before| <= 100
    ensures IsPopped(before, e, Capped(MapStack(Pop(before), e)))
  {
    hide Map, Normal, LenBefore, LenAfter;
  }

  /** An undone edit can be redone, and a redone one undone: its inverse leaves the
      one stack, and the inverse of that goes on top of the other. */
  lemma UndoneIsRedoable(s: UndoState, tr: Transaction, doc: string)
    requires Fits(tr.changes, |doc|) && StackFits(s.pendingUndo, |doc|) && StackFits(s.pendingRedo, |doc|)
    requires |s.pendingUndo| <= 100 && |s.pendingRedo| <= 100 && Recognized(s, tr)
    ensures var r, e := NextUndo(s, tr, doc), tr.changes;
            if tr.event.Undo?
            then IsPopped(s.pendingUndo, e, r.pendingUndo) && IsPushed(s.pendingRedo, e, Invert(e, doc), r.pendingRedo)
            else IsPushed(s.pendingUndo, e, Invert(e, doc), r.pendingUndo) && IsPopped(s.pendingRedo, e, r.pendingRedo)
  {
    hide Map, MapStack, Invert, IsEmpty, Normal, LenBefore, LenAfter, DropEmpty, Capped, IsPopped, IsPushed;
    var e := tr.changes;
    if tr.event.Undo? {
      PoppedIs(s.pendingUndo, e);
      PushedIs(s.pendingRedo, e, Invert(e, doc));
    } else {
      PushedIs(s.pendingUndo, e, Invert(e, doc));
      PoppedIs(s.pendingRedo, e);
    }
  }

  /** `x` is an entry moved over `e` that still changes something. */
  predicate IsCarried(before: seq<Edits>, e: Edits, x: Edits)
    requires StackFits(before, LenBefore(e)) && Normal(e)
  {
    !IsEmpty(x) && exists i | 0 <= i < |before| :: Map(before[i], e, false) == x
  }

  lemma CarriedIff(before: seq<Edits>, e: Edits, x: Edits)
    requires StackFits(before, LenBefore(e)) && Normal(e)
    ensures x in DropEmpty(MapStack(before, e)) <==> IsCarried(before, e, x)
  {
    hide Map, Normal, LenBefore, LenAfter, IsEmpty, DropEmpty;
    DropEmptyIff(MapStack(before, e), x);
  }

  /** Any other change carries the tracked inverses along; an external one adds its
      own on top, and a new edit that history records leaves nothing to redo. */
  lemma OtherEditsCarry(s: UndoState, tr: Transaction, doc: string, x: Edits)
    requires Fits(tr.changes, |doc|) && StackFits(s.pendingUndo, |doc|) && StackFits(s.pendingRedo, |doc|)
    requires |s.pendingUndo| < 100 && |s.pendingRedo| <= 100 && !IsEmpty(tr.changes) && !Recognized(s, tr)
    ensures var r, e := NextUndo(s, tr, doc), tr.changes;
            && (x in r.pendingUndo <==>
                  IsCarried(s.pendingUndo, e, x) || (tr.source.Some? && x == Invert(e, doc)))
            && (tr.source.Some? ==> r.pendingUndo != [] && r.pendingUndo[|r.pendingUndo| - 1] == Invert(e, doc))
            && (x in r.pendingRedo <==> !(tr.event.Other? && tr.kept) && IsCarried(s.pendingRedo, e, x))
  {
    hide Map, Invert, IsEmpty, Normal, LenBefore, LenAfter, DropEmpty, Capped, IsCarried;
    var e := tr.changes;
    var undo, redo := DropEmpty(MapStack(s.pendingUndo, e)), DropEmpty(MapStack(s.pendingRedo, e));
    CarriedIff(s.pendingUndo, e, x);
    CarriedIff(s.pendingRedo, e, x);
    NewestAreKept(undo + [Invert(e, doc)]);
    NewestAreKept(undo);
    NewestAreKept(redo);
    NewestAreKept([]);
  }
}
