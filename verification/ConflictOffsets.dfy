/** Resolving one hunk, seen in the text: where the other hunks are afterwards,
    and that resolving one after the other ends without any. */
module ConflictOffsets {
  import opened Text
  import opened MarkerLines
  import opened ConflictMarkers
  import opened ConflictHunks
  import opened ConflictLocality
  import opened ConflictResolution

  function MoveSection(s: Section, d: int): Section
    requires 0 <= s.from + d && 0 <= s.to + d
  {
    s.(from := s.from + d, to := s.to + d)
  }

  predicate CanMove(c: ConflictHunk, d: int) {
    && 0 <= c.from + d && 0 <= c.to + d && 0 <= c.first.from + d && 0 <= c.first.to + d
    && 0 <= c.second.from + d && 0 <= c.second.to + d
    && (c.base.Some? ==> 0 <= c.base.value.from + d && 0 <= c.base.value.to + d)
  }

  /** The same hunk, `d` characters further on. */
  function MoveLocated(c: ConflictHunk, d: int): ConflictHunk
    requires CanMove(c, d)
  {
    ConflictHunk(c.from + d, c.to + d, c.kind, MoveSection(c.first, d),
                 if c.base.Some? then Some(MoveSection(c.base.value, d)) else None, MoveSection(c.second, d))
  }

  // ----- offsets of the same lines -----

  lemma {:induction false} OffsetsMove(doc: seq<Line>, e: nat, len: nat, doc': seq<Line>, k: int, l: nat)
    requires SameRun(doc, e, len, doc', k) && e <= l <= e + len
    ensures LineFrom(Texts(doc'), l + k) - LineFrom(Texts(doc), l) ==
            LineFrom(Texts(doc'), e + k) - LineFrom(Texts(doc), e)
  {
    if e < l {
      OffsetsMove(doc, e, len, doc', k, l - 1);
      assert doc[l - 1] == doc'[l - 1 + k];
      NextLine(Texts(doc), l - 1);
      NextLine(Texts(doc'), l - 1 + k);
    }
  }

  lemma {:induction false} SectionMoves(doc: seq<Line>, e: nat, len: nat, doc': seq<Line>, k: int, a: nat, b: nat,
                                        m: Marker)
    requires SameRun(doc, e, len, doc', k) && e <= a < b < e + len
    ensures var d, s := LineFrom(Texts(doc'), e + k) - LineFrom(Texts(doc), e), ReadSection(doc, a, b, m);
            0 <= s.from + d && 0 <= s.to + d && ReadSection(doc', a + k, b + k, m) == MoveSection(s, d)
  {
    SectionText(doc, a, b, m);
    SectionText(doc', a + k, b + k, m);
    NextLine(Texts(doc), a);
    NextLine(Texts(doc'), a + k);
    OffsetsMove(doc, e, len, doc', k, a + 1);
    OffsetsMove(doc, e, len, doc', k, b);
    SameTexts(doc, e, len, doc', k, a + 1, b);
  }

  lemma {:induction false} SameTexts(doc: seq<Line>, e: nat, len: nat, doc': seq<Line>, k: int, a: nat, b: nat)
    requires SameRun(doc, e, len, doc', k) && e <= a <= b <= e + len
    ensures Texts(doc)[a..b] == Texts(doc')[a + k..b + k]
  {
    var x, y := Texts(doc)[a..b], Texts(doc')[a + k..b + k];
    forall i | 0 <= i < |x| ensures x[i] == y[i] {
      assert doc[a + i] == doc'[a + i + k];
    }
  }

  lemma {:induction false} EndMoves(doc: seq<Line>, e: nat, len: nat, doc': seq<Line>, k: int, end: nat)
    requires SameRun(doc, e, len, doc', k) && e <= end < e + len
    requires end + 1 < |doc| <==> end + k + 1 < |doc'|
    ensures HunkEnd(doc', end + k) - HunkEnd(doc, end) == LineFrom(Texts(doc'), e + k) - LineFrom(Texts(doc), e)
  {
    HunkEndIs(doc, end);
    HunkEndIs(doc', end + k);
    JoinLength(Texts(doc));
    JoinLength(Texts(doc'));
    OffsetsMove(doc, e, len, doc', k, end + 1);
  }

  /** A hunk whose lines stand elsewhere is the same hunk, moved with them. */
  lemma {:induction false} HunkMoves(doc: seq<Line>, e: nat, len: nat, doc': seq<Line>, k: int, h: Hunk)
    requires SameRun(doc, e, len, doc', k) && InDoc(doc, h) && e <= h.start && h.end < e + len
    requires h.end + 1 < |doc| <==> h.end + k + 1 < |doc'|
    requires Movable([h], k)
    ensures InDoc(doc', MoveHunk(h, k))
    ensures var d := LineFrom(Texts(doc'), e + k) - LineFrom(Texts(doc), e);
            CanMove(Located(doc, h), d) && Located(doc', MoveHunk(h, k)) == MoveLocated(Located(doc, h), d)
  {
    hide ReadSection, HunkEnd, Join, LineFrom, Texts;
    assert doc[h.start] == doc'[h.start + k] && doc[h.end] == doc'[h.end + k];
    EndMoves(doc, e, len, doc', k, h.end);
    OffsetsMove(doc, e, len, doc', k, h.start);
    SectionMoves(doc, e, len, doc', k, h.start, FirstEnd(h), doc[h.start].start.value);
    SectionMoves(doc, e, len, doc', k, h.sep, h.end, doc[h.end].end.value);
    HunkEndIs(doc, h.end);
    HunkEndIs(doc', h.end + k);
    if h.base.Some? {
      assert doc[h.base.value] == doc'[h.base.value + k];
      SectionMoves(doc, e, len, doc', k, h.base.value, h.sep, doc[h.base.value].base.value);
    }
  }

  // ----- the other hunks after resolving one -----

  /** How much longer the text gets. */
  function Growth(doc: seq<Line>, h: Hunk, action: Action): int
    requires InDoc(doc, h) && Allowed(h, action)
  {
    |Terminated(Texts(Chosen(doc, h, action)))| - (HunkEnd(doc, h.end) - LineFrom(Texts(doc), h.start))
  }

  /** The growth is that of the edit. */
  lemma GrowthOfEdit(doc: seq<Line>, h: Hunk, action: Action)
    requires InDoc(doc, h) && Allowed(h, action)
    ensures var e := ResolveHunk(Located(doc, h), action);
            e.Some? && Growth(doc, h, action) == |e.value.insert| - (e.value.to - e.value.from)
  {
    hide Located, ResolveHunk;
    ChosenText(doc, h, action);
  }

  lemma LinesGrow(doc: seq<Line>, h: Hunk, action: Action)
    requires InDoc(doc, h) && Allowed(h, action) && h.end + 1 < |doc|
    ensures ChosenEnd(doc, h, action) <= |Resolved(doc, h, action)|
    ensures LineFrom(Texts(Resolved(doc, h, action)), ChosenEnd(doc, h, action)) - LineFrom(Texts(doc), h.end + 1) ==
            Growth(doc, h, action)
  {
    hide Chosen, Texts, Terminated, HunkEnd, Following, InDoc;
    var doc', chosen, n := Resolved(doc, h, action), Chosen(doc, h, action), ChosenEnd(doc, h, action);
    InDocBounds(doc, h);
    assert doc'[..n] == doc[..h.start] + chosen;
    TextsSlice(doc', 0, n);
    TextsSlice(doc, 0, h.start);
    TextsConcat(doc[..h.start], chosen);
    TerminatedConcat(Texts(doc[..h.start]), Texts(chosen));
    HunkEndIs(doc, h.end);
  }

  lemma OrderedPair(doc: seq<Line>, i: nat, j: nat)
    requires AllSane(doc) && i < j < |Hunks(doc)|
    ensures Hunks(doc)[i].end < Hunks(doc)[j].start
  {
    hide ParseAt;
    HunksAreOrdered(doc, Mask(doc), 0);
  }

  /** An earlier hunk is where it was. */
  lemma EarlierHunkStays(doc: seq<Line>, i: nat, j: nat, h: Hunk, o: Hunk, action: Action)
    requires AllSane(doc) && j < i < |Hunks(doc)| && h == Hunks(doc)[i] && o == Hunks(doc)[j]
    requires InDoc(doc, h) && InDoc(doc, o) && Allowed(h, action)
    ensures InDoc(Resolved(doc, h, action), o)
    ensures Located(Resolved(doc, h, action), o) == Located(doc, o)
  {
    hide *;
    OrderedPair(doc, j, i);
    InDocBounds(doc, h);
    InDocBounds(doc, o);
    ResolvedIsSpliced(doc, h, action);
    var doc' := Resolved(doc, h, action);
    SpliceBounds(doc, doc', h.start, h.end + 1, Kept(h, action), KeptToo(h, action));
    MovableByNothing(o);
    RunBounds(doc, 0, h.start, doc', 0);
    HunkMoves(doc, 0, h.start, doc', 0, o);
    MoveByNothing(Located(doc, o), o, doc, doc');
  }

  lemma RunBounds(doc: seq<Line>, a: nat, len: nat, doc': seq<Line>, k: int)
    requires SameRun(doc, a, len, doc', k)
    ensures a + len <= |doc| && 0 <= a + k && a + len + k <= |doc'|
  {
  }

  lemma MovableByNothing(o: Hunk)
    requires o.start < o.sep < o.end && (o.base.Some? ==> o.start < o.base.value)
    ensures Movable([o], 0)
  {
  }

  lemma MoveByNothing(c: ConflictHunk, o: Hunk, doc: seq<Line>, doc': seq<Line>)
    requires o.start < o.sep < o.end && (o.base.Some? ==> o.start < o.base.value)
    ensures MoveHunk(o, 0) == o && MoveLocated(c, 0) == c
    ensures LineFrom(Texts(doc'), 0) == 0 == LineFrom(Texts(doc), 0)
  {
  }

  /** A later hunk is as much further on as the text has grown. */
  lemma LaterHunkMoves(doc: seq<Line>, h: Hunk, o: Hunk, action: Action)
    requires InDoc(doc, h) && InDoc(doc, o) && h.end < o.start && Allowed(h, action)
    ensures Movable([o], Shift(doc, h, action)) && InDoc(Resolved(doc, h, action), MoveHunk(o, Shift(doc, h, action)))
    ensures CanMove(Located(doc, o), Growth(doc, h, action))
    ensures Located(Resolved(doc, h, action), MoveHunk(o, Shift(doc, h, action))) ==
            MoveLocated(Located(doc, o), Growth(doc, h, action))
  {
    hide Located, Resolved, Chosen, Texts, LineFrom, HunkEnd, Growth, InDoc;
    var e := h.end + 1;
    assert InDoc(doc, o);
    InDocBounds(doc, h);
    InDocBounds(doc, o);
    ResolvedIsSpliced(doc, h, action);
    LinesGrow(doc, h, action);
    HunkMoves(doc, e, |doc| - e, Resolved(doc, h, action), Shift(doc, h, action), o);
  }

  /** Hunk `o` of `doc` is hunk `o'` of `doc'`, `d` characters further on. */
  predicate FoundAgain(doc: seq<Line>, o: Hunk, doc': seq<Line>, o': Hunk, d: int) {
    && InDoc(doc, o) && InDoc(doc', o') && CanMove(Located(doc, o), d)
    && Located(doc', o') == MoveLocated(Located(doc, o), d)
  }

  /** Every other hunk is found again with the same kind and sections: in place
      if it came before, further on by the growth of the text if it came after. */
  lemma ResolveMovesOthers(doc: seq<Line>, i: nat, j: nat, action: Action, h: Hunk, o: Hunk)
    requires IsRead(doc) && i < |Hunks(doc)| && j < |Hunks(doc)| && i != j && h == Hunks(doc)[i] && o == Hunks(doc)[j]
    requires Allowed(h, action) && InDoc(doc, h) && InDoc(doc, o) && FencesSettled(doc, h, action)
    ensures |Hunks(Resolved(doc, h, action))| == |Hunks(doc)| - 1
    ensures FoundAgain(doc, o, Resolved(doc, h, action), Hunks(Resolved(doc, h, action))[if j < i then j else j - 1],
                       if j < i then 0 else Growth(doc, h, action))
  {
    hide Hunks, Located, Resolved, FencesSettled, Shift, ReadLine, Growth, FenceAt, GitFree, InDoc;
    HunkIsClean(doc, i);
    ResolveKeepsOthers(doc, i, action);
    if j < i {
      EarlierHunkStays(doc, i, j, h, o, action);
      InDocBounds(doc, o);
      MoveByNothing(Located(doc, o), o, doc, doc);
    } else {
      OrderedPair(doc, i, j);
      LaterHunkMoves(doc, h, o, action);
    }
  }

  // ----- documents where fences do not matter -----

  predicate NoFences(doc: seq<Line>) {
    forall i | 0 <= i < |doc| :: doc[i].opens.Outside?
  }

  /** No line opens a fence, or none is a git start line. */
  predicate Plain(doc: seq<Line>) {
    NoFences(doc) || GitFree(doc, 0)
  }

  lemma {:induction false} NoFenceOpen(doc: seq<Line>, i: nat)
    requires NoFences(doc) && i <= |doc|
    ensures FenceAt(doc, i).Outside?
  {
    if i > 0 {
      NoFenceOpen(doc, i - 1);
    }
  }

  /** In a plain document every hunk can be resolved on its own, and what is left
      is a plain document again. */
  lemma PlainSettles(doc: seq<Line>, h: Hunk, action: Action)
    requires IsRead(doc) && Plain(doc) && InDoc(doc, h) && Allowed(h, action)
    ensures FencesSettled(doc, h, action)
    ensures IsRead(Resolved(doc, h, action)) && Plain(Resolved(doc, h, action))
  {
    hide ReadLine, Resolved;
    var doc' := Resolved(doc, h, action);
    BlankLineIsPlain();
    forall l | 0 <= l < |doc'| ensures doc'[l] in doc || doc'[l] == ReadLine("") {
      ResolvedFrom(doc, h, action, l);
    }
    BlankReads();
    LinesGrowBound(doc, h, action);
    if NoFences(doc) {
      FenceResolvedIs(doc, h, action);
      NoFenceOpen(doc, h.end + 1);
      NoFenceOpen(doc', ChosenEnd(doc, h, action));
    }
  }

  lemma LinesGrowBound(doc: seq<Line>, h: Hunk, action: Action)
    requires InDoc(doc, h) && Allowed(h, action)
    ensures ChosenEnd(doc, h, action) <= |Resolved(doc, h, action)|
  {
  }

  /** A way to choose the next hunk and how to resolve it. */
  type Chooser = seq<Line> -> (nat, Action)

  ghost predicate Chooses(choose: Chooser) {
    forall doc | IsRead(doc) && Hunks(doc) != [] ::
      choose(doc).0 < |Hunks(doc)| && Allowed(Hunks(doc)[choose(doc).0], choose(doc).1)
  }

  /** Resolving hunks of a plain document in any order, by any allowed actions,
      ends with none left. */
  ghost function ResolveAll(doc: seq<Line>, choose: Chooser): (r: seq<Line>)
    requires IsRead(doc) && Plain(doc) && Chooses(choose)
    ensures IsRead(r) && Hunks(r) == []
    decreases |Hunks(doc)|
  {
    if Hunks(doc) == [] then doc
    else
      var h, action := Hunks(doc)[choose(doc).0], choose(doc).1;
      ResolveKeepsOthers(doc, choose(doc).0, action);
      PlainSettles(doc, h, action);
      ResolveAll(Resolved(doc, h, action), choose)
  }
}
