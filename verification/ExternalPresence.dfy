/** Tracking of externally applied edits: the highlighted ranges, and the inverse
    changes kept for undo and redo, mapped through every transaction. */
module ExternalPresence {
  import opened Text
  import opened ChangeSets
  import opened ChangePositions

  const PRESENCE_TTL_MS := 5000
  const MAX_TRACKED_EXTERNAL_EDITS := 100

  datatype PresenceHunk = PresenceHunk(from: nat, to: nat, time: int, source: string)

  datatype UserEvent = Undo | Redo | Other

  /** An editor transaction; `source` labels an external change, `now` is the time
      it is handled at, `expire` the times of the presence sweeps it carries, and
      `kept` says that history may record it. */
  datatype Transaction = Transaction(changes: Edits, source: Option<string>, now: int, expire: seq<int>,
                                     event: UserEvent, kept: bool)

  predicate DocChanged(tr: Transaction) {
    !IsEmpty(tr.changes)
  }

  // ----- highlighted ranges -----

  predicate HunkFits(h: PresenceHunk, n: nat) {
    h.from <= h.to <= n
  }

  predicate AllFit(hunks: seq<PresenceHunk>, n: nat) {
    forall i | 0 <= i < |hunks| :: HunkFits(hunks[i], n)
  }

  function MapHunk(h: PresenceHunk, e: Edits): PresenceHunk
    requires HunkFits(h, LenBefore(e))
  {
    h.(from := MapPos(e, h.from, true), to := MapPos(e, h.to, false))
  }

  /** The ranges moved through a change; one that is squeezed shut from both
      sides is dropped. */
  function MapHunks(hunks: seq<PresenceHunk>, e: Edits): seq<PresenceHunk>
    requires AllFit(hunks, LenBefore(e))
  {
    if hunks == [] then []
    else
      var h, rest := MapHunk(hunks[0], e), MapHunks(hunks[1..], e);
      if h.to >= h.from then [h] + rest else rest
  }

  /** The range of one change, without the line break it ends with. */
  function AddedHunk(c: Change, now: int, source: string): PresenceHunk
    requires c.toB == c.fromB + |c.ins|
  {
    var end := if |c.ins| > 1 && c.ins[|c.ins| - 1] == '\n' then c.toB - 1 else c.toB;
    PresenceHunk(c.fromB, end, now, source)
  }

  predicate Sized(cs: seq<Change>) {
    forall i | 0 <= i < |cs| :: cs[i].toB == cs[i].fromB + |cs[i].ins|
  }

  function AddedHunks(cs: seq<Change>, now: int, source: string): (r: seq<PresenceHunk>)
    requires Sized(cs)
    ensures |r| == |cs| && forall i | 0 <= i < |r| :: r[i] == AddedHunk(cs[i], now, source)
  {
    seq(|cs|, i requires 0 <= i < |cs| => AddedHunk(cs[i], now, source))
  }

  function Unexpired(hunks: seq<PresenceHunk>, now: int): seq<PresenceHunk> {
    if hunks == [] then []
    else (if now - hunks[0].time < PRESENCE_TTL_MS then [hunks[0]] else []) + Unexpired(hunks[1..], now)
  }

  function Swept(hunks: seq<PresenceHunk>, sweeps: seq<int>): seq<PresenceHunk> {
    if sweeps == [] then hunks else Unexpired(Swept(hunks, sweeps[..|sweeps| - 1]), sweeps[|sweeps| - 1])
  }

  lemma ChangesAreSized(e: Edits)
    requires Normal(e)
    ensures Sized(IterChanges(e))
  {
    ChangesInOrder(e);
    assert forall i | 0 <= i < |IterChanges(e)| :: IterChanges(e)[i] in IterChanges(e);
  }

  /** The ranges after a transaction. */
  function NextPresence(hunks: seq<PresenceHunk>, tr: Transaction): seq<PresenceHunk>
    requires AllFit(hunks, LenBefore(tr.changes)) && Normal(tr.changes)
  {
    var moved := if DocChanged(tr) then MapHunks(hunks, tr.changes) else hunks;
    var added := if tr.source.Some?
      then (ChangesAreSized(tr.changes); AddedHunks(IterChanges(tr.changes), tr.now, tr.source.value)) else [];
    Swept(moved + added, tr.expire)
  }

  method PushHunks(changes: seq<Change>, now: int, source: string) returns (added: seq<PresenceHunk>)
    requires Sized(changes)
    ensures added == AddedHunks(changes, now, source)
  {
    added := [];
    for i := 0 to |changes|
      invariant |added| == i && forall k | 0 <= k < i :: added[k] == AddedHunks(changes, now, source)[k]
    {
      var c := changes[i];
      var end := if |c.ins| > 1 && c.ins[|c.ins| - 1] == '\n' then c.toB - 1 else c.toB;
      added := added + [PresenceHunk(c.fromB, end, now, source)];
    }
  }

  method UpdatePresence(value: seq<PresenceHunk>, tr: Transaction) returns (hunks: seq<PresenceHunk>)
    requires AllFit(value, LenBefore(tr.changes)) && Normal(tr.changes)
    ensures hunks == NextPresence(value, tr)
  {
    hunks := value;
    if DocChanged(tr) && |hunks| > 0 {
      hunks := MapHunks(hunks, tr.changes);
    }
    assert hunks == if DocChanged(tr) then MapHunks(value, tr.changes) else value;
    if tr.source.Some? {
      ChangesAreSized(tr.changes);
      var added := PushHunks(IterChanges(tr.changes), tr.now, tr.source.value);
      hunks := hunks + added;
    } else {
      assert hunks + [] == hunks;
    }
    ghost var unswept := hunks;
    for i := 0 to |tr.expire|
      invariant hunks == Swept(unswept, tr.expire[..i])
    {
      assert tr.expire[..i + 1][..i] == tr.expire[..i];
      hunks := Unexpired(hunks, tr.expire[i]);
    }
    assert tr.expire[..|tr.expire|] == tr.expire;
  }

  // ----- inverse changes -----

  /** Inverse changes of external edits, and whether the last transaction undid or
      redid one. */
  datatype UndoState = UndoState(pendingUndo: seq<Edits>, pendingRedo: seq<Edits>, corrected: bool)

  predicate StackFits(stack: seq<Edits>, n: nat) {
    forall i | 0 <= i < |stack| :: Fits(stack[i], n)
  }

  function MapStack(stack: seq<Edits>, e: Edits): (r: seq<Edits>)
    requires StackFits(stack, LenBefore(e)) && Normal(e)
    ensures |r| == |stack| && StackFits(r, LenAfter(e)) && forall i | 0 <= i < |r| :: r[i] == Map(stack[i], e, false)
  {
    seq(|stack|, i requires 0 <= i < |stack| => Map(stack[i], e, false))
  }

  function DropEmpty(stack: seq<Edits>): (r: seq<Edits>)
    ensures forall n | StackFits(stack, n) :: StackFits(r, n)
    ensures |r| <= |stack|
  {
    if stack == [] then []
    else
      var rest := DropEmpty(stack[1..]);
      assert forall n | StackFits(stack, n) :: StackFits(stack[1..], n) && Fits(stack[0], n);
      if IsEmpty(stack[0]) then rest else [stack[0]] + rest
  }

  /** The newest entries of a stack. */
  function Capped(stack: seq<Edits>): (r: seq<Edits>)
    ensures |r| <= MAX_TRACKED_EXTERNAL_EDITS
  {
    if |stack| > MAX_TRACKED_EXTERNAL_EDITS then stack[|stack| - MAX_TRACKED_EXTERNAL_EDITS..] else stack
  }

  predicate IsTop(stack: seq<Edits>, e: Edits) {
    stack != [] && stack[|stack| - 1] == e
  }

  function Pop(stack: seq<Edits>): seq<Edits>
    requires stack != []
  {
    stack[..|stack| - 1]
  }

  /** The stacks after a transaction on `doc`. */
  function NextUndo(s: UndoState, tr: Transaction, doc: string): UndoState
    requires Fits(tr.changes, |doc|) && StackFits(s.pendingUndo, |doc|) && StackFits(s.pendingRedo, |doc|)
  {
    var e := tr.changes;
    if !DocChanged(tr) then s.(corrected := false)
    else if tr.event.Undo? && IsTop(s.pendingUndo, e) then
      UndoState(Capped(MapStack(Pop(s.pendingUndo), e)), Capped(MapStack(s.pendingRedo, e) + [Invert(e, doc)]), true)
    else if tr.event.Redo? && IsTop(s.pendingRedo, e) then
      UndoState(Capped(MapStack(s.pendingUndo, e) + [Invert(e, doc)]), Capped(MapStack(Pop(s.pendingRedo), e)), true)
    else
      var undo, redo := DropEmpty(MapStack(s.pendingUndo, e)), DropEmpty(MapStack(s.pendingRedo, e));
      UndoState(Capped(if tr.source.Some? then undo + [Invert(e, doc)] else undo),
                Capped(if tr.event.Other? && tr.kept then [] else redo), false)
  }
}
