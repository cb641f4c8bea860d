/** Resolving one conflict hunk: the document it gives, and that it leaves every
    other hunk in place. */
module ConflictResolution {
  import opened Sequences
  import opened Text
  import opened MarkerLines
  import opened ConflictMarkers
  import opened ConflictHunks
  import opened ConflictLocality

  // ----- the resolved document -----

  predicate Allowed(h: Hunk, action: Action) {
    action.TakeBase? ==> h.base.Some?
  }

  datatype Range = Range(from: nat, to: nat)

  /** The lines an action keeps: those of one section, and for both a second. */
  function Kept(h: Hunk, action: Action): Range
    requires Allowed(h, action)
  {
    match action
    case TakeFirst => Range(h.start + 1, FirstEnd(h))
    case TakeSecond => Range(h.sep + 1, h.end)
    case TakeBoth => Range(h.start + 1, FirstEnd(h))
    case TakeBase => Range(h.base.value + 1, h.sep)
  }

  function KeptToo(h: Hunk, action: Action): Range {
    if action.TakeBoth? then Range(h.sep + 1, h.end) else Range(h.end, h.end)
  }

  /** The lines a hunk is replaced with. */
  function Chosen(doc: seq<Line>, h: Hunk, action: Action): seq<Line>
    requires InDoc(doc, h) && Allowed(h, action)
  {
    var p, q := Kept(h, action), KeptToo(h, action);
    doc[p.from..p.to] + doc[q.from..q.to]
  }

  /** What follows the hunk: with no line break after its end line, the replacing
      lines leave an empty last line. */
  function Following(doc: seq<Line>, end: nat): seq<Line>
    requires end < |doc|
  {
    if end + 1 == |doc| then [ReadLine("")] else doc[end + 1..]
  }

  function Resolved(doc: seq<Line>, h: Hunk, action: Action): (r: seq<Line>)
    requires InDoc(doc, h) && Allowed(h, action)
    ensures r != []
  {
    doc[..h.start] + Chosen(doc, h, action) + Following(doc, h.end)
  }

  lemma {:induction false} ResolvedFrom(doc: seq<Line>, h: Hunk, action: Action, l: nat)
    requires InDoc(doc, h) && Allowed(h, action) && l < |Resolved(doc, h, action)|
    ensures Resolved(doc, h, action)[l] in doc || Resolved(doc, h, action)[l] == ReadLine("")
  {
    hide ReadLine;
  }

  lemma BlankReads()
    ensures ReadLine(ReadLine("").text) == ReadLine("")
  {
  }

  lemma {:induction false} TextsConcat(a: seq<Line>, b: seq<Line>)
    ensures Texts(a + b) == Texts(a) + Texts(b)
  {
  }

  lemma {:induction false} TextsSlice(doc: seq<Line>, a: nat, b: nat)
    requires a <= b <= |doc|
    ensures Texts(doc[a..b]) == Texts(doc)[a..b]
  {
  }

  lemma {:induction false} SectionIsLines(doc: seq<Line>, a: nat, b: nat, m: Marker)
    requires a < b < |doc|
    ensures ReadSection(doc, a, b, m).text == Terminated(Texts(doc[a + 1..b]))
  {
    SectionText(doc, a, b, m);
    TextsSlice(doc, a + 1, b);
  }

  lemma {:induction false} TerminatedBoth(a: seq<Line>, b: seq<Line>)
    ensures Terminated(Texts(a + b)) == Terminated(Texts(a)) + Terminated(Texts(b))
  {
    TextsConcat(a, b);
    TerminatedConcat(Texts(a), Texts(b));
  }

  /** The text an action inserts is the chosen lines. */
  lemma ChosenText(doc: seq<Line>, h: Hunk, action: Action)
    requires InDoc(doc, h) && Allowed(h, action)
    ensures ResolveHunk(Located(doc, h), action) ==
            Some(Edit(LineFrom(Texts(doc), h.start), HunkEnd(doc, h.end), Terminated(Texts(Chosen(doc, h, action)))))
  {
    hide Located, LineFrom, HunkEnd, Texts, Terminated, ResolveHunk;
    var p, q := Kept(h, action), KeptToo(h, action);
    TerminatedBoth(doc[p.from..p.to], doc[q.from..q.to]);
    KeptText(doc, h, action);
  }

  /** The text of the lines from `a` up to `b`. */
  function LinesText(doc: seq<Line>, a: nat, b: nat): string
    requires a <= b <= |doc|
  {
    Terminated(Texts(doc[a..b]))
  }

  /** The sections of a hunk, as lines. */
  lemma LocatedLines(doc: seq<Line>, h: Hunk)
    requires InDoc(doc, h)
    ensures var c := Located(doc, h);
            && c.from == LineFrom(Texts(doc), h.start) && c.to == HunkEnd(doc, h.end)
            && c.first.text == LinesText(doc, h.start + 1, FirstEnd(h))
            && c.second.text == LinesText(doc, h.sep + 1, h.end)
            && (c.base.Some? <==> h.base.Some?)
            && (h.base.Some? ==> c.base.value.text == LinesText(doc, h.base.value + 1, h.sep))
  {
    hide ReadSection, LineFrom, HunkEnd, Texts, Terminated;
    SectionIsLines(doc, h.start, FirstEnd(h), doc[h.start].start.value);
    SectionIsLines(doc, h.sep, h.end, doc[h.end].end.value);
    if h.base.Some? {
      SectionIsLines(doc, h.base.value, h.sep, doc[h.base.value].base.value);
    }
  }

  /** The sections an action inserts, as lines. */
  lemma KeptText(doc: seq<Line>, h: Hunk, action: Action)
    requires InDoc(doc, h) && Allowed(h, action)
    ensures ResolveHunk(Located(doc, h), action) ==
            Some(Edit(LineFrom(Texts(doc), h.start), HunkEnd(doc, h.end),
                      LinesText(doc, Kept(h, action).from, Kept(h, action).to) +
                      LinesText(doc, KeptToo(h, action).from, KeptToo(h, action).to)))
  {
    LocatedLines(doc, h);
    NoLines(doc, h.end);
    hide Located, LineFrom, HunkEnd, Texts, LinesText;
    NothingAdded(LinesText(doc, Kept(h, action).from, Kept(h, action).to));
  }

  lemma NoLines(doc: seq<Line>, i: nat)
    requires i <= |doc|
    ensures LinesText(doc, i, i) == ""
  {
  }

  lemma {:induction false} TextBefore(lines: seq<string>, i: nat)
    requires i < |lines|
    ensures LineFrom(lines, i) <= |Join(lines)|
    ensures Join(lines)[..LineFrom(lines, i)] == Terminated(lines[..i])
    ensures Join(lines)[LineFrom(lines, i)..] == Join(lines[i..])
  {
    assert lines == lines[..i] + lines[i..];
    JoinConcat(lines[..i], lines[i..]);
  }

  /** Text after a hunk is that of the lines that follow. */
  lemma {:induction false} TextFollowing(doc: seq<Line>, end: nat)
    requires end < |doc|
    ensures HunkEnd(doc, end) <= |Join(Texts(doc))|
    ensures Join(Texts(doc))[HunkEnd(doc, end)..] == Join(Texts(Following(doc, end)))
  {
    HunkEndIs(doc, end);
    if end + 1 < |doc| {
      TextBefore(Texts(doc), end + 1);
      TextsSlice(doc, end + 1, |doc|);
      assert doc[end + 1..|doc|] == doc[end + 1..];
      assert Texts(doc)[end + 1..|doc|] == Texts(doc)[end + 1..];
    } else {
      assert Texts([ReadLine("")]) == [""];
      assert Join([""]) == "";
    }
  }

  /** Applying the edit to the text gives the text of the resolved document. */
  lemma ResolvedText(doc: seq<Line>, h: Hunk, action: Action)
    requires InDoc(doc, h) && Allowed(h, action)
    ensures ResolveHunk(Located(doc, h), action).Some?
    ensures var e, text := ResolveHunk(Located(doc, h), action).value, Join(Texts(doc));
            && e.from <= e.to <= |text|
            && Join(Texts(Resolved(doc, h, action))) == text[..e.from] + e.insert + text[e.to..]
  {
    var chosen, following := Chosen(doc, h, action), Following(doc, h.end);
    ChosenText(doc, h, action);
    TextBefore(Texts(doc), h.start);
    TextFollowing(doc, h.end);
    EndBeforeStartOf(doc, h);
    TextsConcat(doc[..h.start] + chosen, following);
    TextsConcat(doc[..h.start], chosen);
    TextsSlice(doc, 0, h.start);
    JoinConcat(Texts(doc[..h.start] + chosen), Texts(following));
    TerminatedConcat(Texts(doc[..h.start]), Texts(chosen));
  }

  lemma EndBeforeStartOf(doc: seq<Line>, h: Hunk)
    requires InDoc(doc, h)
    ensures LineFrom(Texts(doc), h.start) <= HunkEnd(doc, h.end)
  {
    HunkTilesText(doc, h);
  }

  // ----- resolving one hunk -----

  /** How many lines further down the lines after the hunk end up. */
  function Shift(doc: seq<Line>, h: Hunk, action: Action): int
    requires InDoc(doc, h) && Allowed(h, action)
  {
    ChosenEnd(doc, h, action) - (h.end + 1)
  }

  function ChosenEnd(doc: seq<Line>, h: Hunk, action: Action): nat
    requires InDoc(doc, h) && Allowed(h, action)
  {
    h.start + |Chosen(doc, h, action)|
  }

  /** The fence after the lines chosen in place of the hunk. */
  function FenceResolved(doc: seq<Line>, h: Hunk, action: Action): Fence
    requires InDoc(doc, h) && Allowed(h, action)
  {
    FenceAfter(FenceAt(doc, h.start), Chosen(doc, h, action))
  }

  /** It is the fence in the resolved document there. */
  lemma FenceResolvedIs(doc: seq<Line>, h: Hunk, action: Action)
    requires InDoc(doc, h) && Allowed(h, action)
    ensures ChosenEnd(doc, h, action) <= |Resolved(doc, h, action)|
    ensures FenceResolved(doc, h, action) == FenceAt(Resolved(doc, h, action), ChosenEnd(doc, h, action))
  {
    hide Chosen, Following, FenceAt, FenceAfter;
    var doc', chosen, n := Resolved(doc, h, action), Chosen(doc, h, action), ChosenEnd(doc, h, action);
    ChosenStands(doc[..h.start], chosen, Following(doc, h.end), doc');
    FenceOfLines(doc', h.start, n);
    FenceOfLines(doc', 0, h.start);
    FenceOfLines(doc, 0, h.start);
    assert doc'[0..h.start] == doc[0..h.start];
    NoFenceAtTop(doc, doc');
  }

  lemma ChosenStands(a: seq<Line>, b: seq<Line>, c: seq<Line>, r: seq<Line>)
    requires r == a + b + c
    ensures |a| + |b| <= |r| && r[..|a|] == a && r[|a|..|a| + |b|] == b
  {
  }

  lemma NoFenceAtTop(doc: seq<Line>, doc': seq<Line>)
    ensures FenceAt(doc, 0) == FenceAt(doc', 0)
  {
  }

  /** The chosen lines leave the fence the hunk left. */
  predicate KeepsFence(doc: seq<Line>, h: Hunk, action: Action)
    requires InDoc(doc, h) && Allowed(h, action)
  {
    FenceResolved(doc, h, action) == FenceAt(doc, h.end + 1)
  }

  /** Resolving cannot turn fences on or off for what follows: the hunk is a git
      hunk, or it leaves the fence it found, or no git start line follows. */
  predicate FencesSettled(doc: seq<Line>, h: Hunk, action: Action)
    requires InDoc(doc, h) && Allowed(h, action)
  {
    h.kind.Git? || KeepsFence(doc, h, action) || GitFree(doc, h.end + 1)
  }

  /** `doc'` is `doc` with lines `p` and then lines `q` in place of those from
      `s` up to `e`. */
  ghost predicate Spliced(doc: seq<Line>, doc': seq<Line>, s: nat, e: nat, p: Range, q: Range) {
    && s <= e <= |doc| && p.from <= p.to <= |doc| && q.from <= q.to <= |doc|
    && SameRun(doc, 0, s, doc', 0)
    && SameRun(doc, p.from, p.to - p.from, doc', s - p.from)
    && SameRun(doc, q.from, q.to - q.from, doc', s + (p.to - p.from) - q.from)
    && var n := s + (p.to - p.from) + (q.to - q.from);
       if e == |doc| then |doc'| == n + 1 && doc'[n].start.None?
       else |doc'| == |doc| + (n - e) && SameRun(doc, e, |doc| - e, doc', n - e)
  }

  function SpliceEnd(s: nat, p: Range, q: Range): nat
    requires p.from <= p.to && q.from <= q.to
  {
    s + (p.to - p.from) + (q.to - q.from)
  }

  /** A piece of `doc` that stands in `doc'` at `at`. */
  lemma {:induction false} RunAt(doc: seq<Line>, from: nat, to: nat, doc': seq<Line>, at: nat)
    requires from <= to <= |doc| && at + (to - from) <= |doc'|
    requires doc'[at..at + (to - from)] == doc[from..to]
    ensures SameRun(doc, from, to - from, doc', at - from)
  {
    forall l | from <= l < to ensures doc[l] == doc'[l + (at - from)] {
      assert doc[l] == doc[from..to][l - from] == doc'[at..at + (to - from)][l - from];
    }
  }

  lemma {:induction false} FourPieces(a: seq<Line>, p: seq<Line>, q: seq<Line>, f: seq<Line>, r: seq<Line>)
    requires r == a + (p + q) + f
    ensures var i, j := |a| + |p|, |a| + |p| + |q|;
            && r[0..|a|] == a && r[|a|..i] == p && r[i..j] == q && r[j..] == f && |r| == j + |f|
  {
  }

  lemma {:induction false} PiecesAt(doc: seq<Line>, s: nat, p: Range, q: Range, f: seq<Line>, doc': seq<Line>)
    requires s <= |doc| && p.from <= p.to <= |doc| && q.from <= q.to <= |doc|
    requires doc' == doc[..s] + (doc[p.from..p.to] + doc[q.from..q.to]) + f
    ensures var i, j := s + (p.to - p.from), SpliceEnd(s, p, q);
            && |doc'| == j + |f| && doc'[0..s] == doc[0..s] && doc'[s..i] == doc[p.from..p.to]
            && doc'[i..j] == doc[q.from..q.to] && doc'[j..] == f
  {
    FourPieces(doc[..s], doc[p.from..p.to], doc[q.from..q.to], f, doc');
  }

  lemma ResolvedRuns(doc: seq<Line>, s: nat, e: nat, p: Range, q: Range, f: seq<Line>, doc': seq<Line>)
    requires s <= e <= |doc| && p.from <= p.to <= |doc| && q.from <= q.to <= |doc|
    requires doc' == doc[..s] + (doc[p.from..p.to] + doc[q.from..q.to]) + f
    requires if e < |doc| then f == doc[e..] else |f| == 1 && f[0].start.None?
    ensures Spliced(doc, doc', s, e, p, q)
  {
    PiecesAt(doc, s, p, q, f, doc');
    SplicedFrom(doc, s, e, p, q, f, doc');
  }

  lemma RunToEnd(doc: seq<Line>, e: nat, doc': seq<Line>, j: nat)
    requires e <= |doc| && j <= |doc'| && doc'[j..] == doc[e..]
    ensures SameRun(doc, e, |doc| - e, doc', j - e)
  {
    assert |doc'[j..]| == |doc[e..]|;
    forall l | e <= l < |doc| ensures doc[l] == doc'[l + (j - e)] {
      assert doc[l] == doc[e..][l - e] == doc'[j..][l - e];
    }
  }

  lemma SplicedFrom(doc: seq<Line>, s: nat, e: nat, p: Range, q: Range, f: seq<Line>, doc': seq<Line>)
    requires s <= e <= |doc| && p.from <= p.to <= |doc| && q.from <= q.to <= |doc|
    requires var i, j := s + (p.to - p.from), SpliceEnd(s, p, q);
             && |doc'| == j + |f| && doc'[0..s] == doc[0..s] && doc'[s..i] == doc[p.from..p.to]
             && doc'[i..j] == doc[q.from..q.to] && doc'[j..] == f
    requires if e < |doc| then f == doc[e..] else |f| == 1 && f[0].start.None?
    ensures Spliced(doc, doc', s, e, p, q)
  {
    hide SameRun;
    var i, j := s + (p.to - p.from), SpliceEnd(s, p, q);
    RunAt(doc, 0, s, doc', 0);
    RunAt(doc, p.from, p.to, doc', s);
    RunAt(doc, q.from, q.to, doc', i);
    if e < |doc| {
      RunToEnd(doc, e, doc', j);
    } else {
      assert doc'[j..][0] == doc'[j];
    }
  }

  lemma ResolvedIsSpliced(doc: seq<Line>, h: Hunk, action: Action)
    requires InDoc(doc, h) && Allowed(h, action)
    ensures Spliced(doc, Resolved(doc, h, action), h.start, h.end + 1, Kept(h, action), KeptToo(h, action))
    ensures ChosenEnd(doc, h, action) == SpliceEnd(h.start, Kept(h, action), KeptToo(h, action))
  {
    hide Spliced, ReadLine;
    BlankLineIsPlain();
    KeptWithin(h, action);
    hide Kept, KeptToo;
    ResolvedRuns(doc, h.start, h.end + 1, Kept(h, action), KeptToo(h, action), Following(doc, h.end),
                 Resolved(doc, h, action));
  }

  lemma KeptWithin(h: Hunk, action: Action)
    requires h.start < h.sep < h.end && (h.base.Some? ==> h.start < h.base.value < h.sep) && Allowed(h, action)
    ensures Kept(h, action).from <= Kept(h, action).to <= h.end
    ensures KeptToo(h, action).from <= KeptToo(h, action).to <= h.end
  {
  }

  /** Lines strictly inside a hunk. */
  predicate InsideHunk(h: Hunk, r: Range) {
    h.start < r.from <= r.to <= h.end
  }

  lemma {:induction false} SBLinesStartNothing(doc: seq<Line>, h: Hunk, doc': seq<Line>, r: Range, k: int)
    requires Clean(doc, Mask(doc), h) && h.kind.SB? && InsideHunk(h, r)
    requires SameRun(doc, r.from, r.to - r.from, doc', k)
    ensures NothingStarts(doc', r.from + k, r.to + k)
  {
    forall l | r.from + k <= l < r.to + k ensures !IsNestedStart(doc'[l], Mask(doc')[l], true) {
      assert !IsNestedStart(doc[l - k], Mask(doc)[l - k], false);
      assert doc[l - k] == doc'[l - k + k];
    }
  }

  lemma InDocBounds(doc: seq<Line>, h: Hunk)
    requires InDoc(doc, h)
    ensures h.start < h.sep < h.end < |doc| && (h.base.Some? ==> h.start < h.base.value < h.sep)
  {
  }

  /** The lines between two neighbouring markers of a hunk, or none. */
  predicate IsSection(h: Hunk, r: Range) {
    && InsideHunk(h, r)
    && (r.from == r.to || (r.from - 1 in {h.start, FirstEnd(h), h.sep} && r.to in {FirstEnd(h), h.sep, h.end}))
  }

  lemma {:induction false} GitLinesStartNothing(doc: seq<Line>, h: Hunk, doc': seq<Line>, r: Range, k: int)
    requires AllSane(doc) && Clean(doc, Mask(doc), h) && h.kind.Git? && IsSection(h, r)
    requires SameRun(doc, r.from, r.to - r.from, doc', k) && FenceAt(doc', r.from + k).Outside?
    ensures NothingStarts(doc', r.from + k, r.to + k) && FenceAt(doc', r.to + k).Outside?
  {
    hide Mask, FenceAt, Scan, IsNestedStart;
    if r.from < r.to {
      var a := r.from - 1;
      assert Sane(doc[a]) && Sane(doc[r.to]);
      assert NoStarts(doc, Mask(doc), true, r.from, r.to);
      GitSection(doc, a, r.to, doc', k);
    }
  }

  lemma ChosenAreSections(h: Hunk, action: Action)
    requires h.start < h.sep < h.end && (h.base.Some? ==> h.start < h.base.value < h.sep) && Allowed(h, action)
    ensures IsSection(h, Kept(h, action)) && IsSection(h, KeptToo(h, action))
  {
  }

  lemma {:induction false} SplicePrefix(doc: seq<Line>, doc': seq<Line>, s: nat)
    requires SameRun(doc, 0, s, doc', 0) && s < |doc|
    ensures SamePrefix(doc, Mask(doc), doc', Mask(doc'), s) && FenceAt(doc', s) == FenceAt(doc, s)
  {
    MaskCopy(doc, 0, s, doc', 0);
    FenceCopy(doc, 0, s, doc', 0, s);
  }

  /** The lines put in place of a hunk start nothing, and those of a git hunk
      leave no fence open. */
  lemma {:induction false} SpliceStartsNothing(doc: seq<Line>, h: Hunk, doc': seq<Line>, p: Range, q: Range)
    requires AllSane(doc) && Clean(doc, Mask(doc), h) && Spliced(doc, doc', h.start, h.end + 1, p, q)
    requires IsSection(h, p) && IsSection(h, q)
    ensures NothingStarts(doc', h.start, SpliceEnd(h.start, p, q))
    ensures h.kind.Git? ==> FenceAt(doc', SpliceEnd(h.start, p, q)) == FenceAt(doc, h.end + 1)
  {
    hide Mask, FenceAt, IsNestedStart, NoStarts;
    var s, k := h.start, h.start - p.from;
    var k' := h.start + (p.to - p.from) - q.from;
    if h.kind.SB? {
      SBLinesStartNothing(doc, h, doc', p, k);
      SBLinesStartNothing(doc, h, doc', q, k');
    } else {
      assert Sane(doc[s]) && Sane(doc[h.end]);
      OutsideAtMarker(doc, s);
      OutsideAtMarker(doc, h.end);
      SplicePrefix(doc, doc', s);
      GitLinesStartNothing(doc, h, doc', p, k);
      GitLinesStartNothing(doc, h, doc', q, k');
    }
  }

  /** The hunks of `doc'` are those of `doc` but for hunk `i`, the later ones `k`
      lines further down. */
  ghost predicate OthersKept(doc: seq<Line>, doc': seq<Line>, i: nat, k: int)
    requires i < |Hunks(doc)|
  {
    && Movable(Hunks(doc)[i + 1..], k)
    && Hunks(doc') == Hunks(doc)[..i] + MoveAll(Hunks(doc)[i + 1..], k)
  }

  lemma {:induction false} SplicePast(doc: seq<Line>, doc': seq<Line>, s: nat, e: nat, p: Range, q: Range)
    requires Spliced(doc, doc', s, e, p, q)
    requires FenceAt(doc', SpliceEnd(s, p, q)) == FenceAt(doc, e) || GitFree(doc, e)
    ensures AreMoved(HunksFrom(doc, Mask(doc), e), HunksFrom(doc', Mask(doc'), SpliceEnd(s, p, q)),
                     SpliceEnd(s, p, q) - e)
  {
    hide Mask, FenceAt, ParseAt;
    var n := SpliceEnd(s, p, q);
    if e == |doc| {
      HunksSkip(doc', Mask(doc'), n, n + 1);
    } else {
      HunksPastLines(doc, doc', e, n - e);
    }
  }

  lemma {:induction false} SpliceKeepsOthers(doc: seq<Line>, i: nat, h: Hunk, doc': seq<Line>, p: Range, q: Range,
                                             n: nat)
    requires AllSane(doc) && i < |Hunks(doc)| && h == Hunks(doc)[i] && Clean(doc, Mask(doc), h)
    requires Spliced(doc, doc', h.start, h.end + 1, p, q) && n == SpliceEnd(h.start, p, q)
    requires IsSection(h, p) && IsSection(h, q)
    requires h.kind.Git? || FenceAt(doc', n) == FenceAt(doc, h.end + 1) || GitFree(doc, h.end + 1)
    ensures OthersKept(doc, doc', i, n - (h.end + 1))
  {
    hide *;
    CleanStart(doc, h);
    HunksAre(doc);
    HunksAre(doc');
    SpliceBounds(doc, doc', h.start, h.end + 1, p, q);
    SpliceStartsNothing(doc, h, doc', p, q);
    SplicePrefix(doc, doc', h.start);
    HunksPrefix(doc, Mask(doc), doc', Mask(doc'), h.start, 0, i);
    SkipNothing(doc', h.start, n);
    SplicePast(doc, doc', h.start, h.end + 1, p, q);
    HunksAtStart(doc, Mask(doc), h.start, i);
    DropOne(Hunks(doc), i);
    OthersAre(doc, doc', i, n - (h.end + 1), HunksFrom(doc', Mask(doc'), n));
  }

  lemma CleanStart(doc: seq<Line>, h: Hunk)
    requires Clean(doc, Mask(doc), h)
    ensures h.start < h.sep < h.end < |doc| && IsNestedStart(doc[h.start], Mask(doc)[h.start], true)
  {
    hide Mask;
  }

  lemma HunksAre(doc: seq<Line>)
    ensures Hunks(doc) == HunksFrom(doc, Mask(doc), 0)
  {
  }

  lemma SpliceBounds(doc: seq<Line>, doc': seq<Line>, s: nat, e: nat, p: Range, q: Range)
    requires Spliced(doc, doc', s, e, p, q)
    ensures s <= e <= |doc| && p.from <= p.to && q.from <= q.to && s <= SpliceEnd(s, p, q) < |doc'|
    ensures SameRun(doc, 0, s, doc', 0)
  {
    hide SameRun;
  }

  lemma SkipNothing(doc: seq<Line>, a: nat, b: nat)
    requires a <= b && NothingStarts(doc, a, b)
    ensures b <= |doc| && HunksFrom(doc, Mask(doc), a) == HunksFrom(doc, Mask(doc), b)
  {
    hide Mask, IsNestedStart;
    HunksSkip(doc, Mask(doc), a, b);
  }

  lemma OthersAre(doc: seq<Line>, doc': seq<Line>, i: nat, k: int, later: seq<Hunk>)
    requires i < |Hunks(doc)| && Hunks(doc') == Hunks(doc)[..i] + later && AreMoved(Hunks(doc)[i + 1..], later, k)
    ensures OthersKept(doc, doc', i, k)
  {
    hide Hunks, Movable, MoveAll;
  }

  lemma DropOne(hs: seq<Hunk>, i: nat)
    requires i < |hs|
    ensures hs[i..][1..] == hs[i + 1..]
  {
  }

  /** Resolving hunk `i` leaves exactly the others, those after it moved with
      their lines. */
  lemma ResolveKeepsOthers(doc: seq<Line>, i: nat, action: Action)
    requires IsRead(doc) && i < |Hunks(doc)| && Allowed(Hunks(doc)[i], action)
    ensures InDoc(doc, Hunks(doc)[i])
    ensures FencesSettled(doc, Hunks(doc)[i], action) ==>
              OthersKept(doc, Resolved(doc, Hunks(doc)[i], action), i, Shift(doc, Hunks(doc)[i], action))
  {
    hide *;
    HunkIsClean(doc, i);
    if FencesSettled(doc, Hunks(doc)[i], action) {
      SettledKeepsOthers(doc, i, Hunks(doc)[i], action);
    }
  }

  lemma HunkIsClean(doc: seq<Line>, i: nat)
    requires IsRead(doc) && i < |Hunks(doc)|
    ensures AllSane(doc) && Clean(doc, Mask(doc), Hunks(doc)[i]) && InDoc(doc, Hunks(doc)[i])
  {
    hide ParseAt, Mask, ReadLine;
    ReadIsSane(doc);
    HunksAreClean(doc, Mask(doc), 0);
  }

  lemma SettledKeepsOthers(doc: seq<Line>, i: nat, h: Hunk, action: Action)
    requires i < |Hunks(doc)| && h == Hunks(doc)[i] && Allowed(h, action) && InDoc(doc, h)
    requires AllSane(doc) && Clean(doc, Mask(doc), h)
    requires FencesSettled(doc, h, action)
    ensures OthersKept(doc, Resolved(doc, h, action), i, Shift(doc, h, action))
  {
    hide Hunks, Mask, FenceAt, Resolved, Chosen, Kept, KeptToo, Spliced, IsSection;
    hide OthersKept, Clean, AllSane, GitFree, SpliceEnd, FenceResolved;
    ResolvedIsSpliced(doc, h, action);
    ChosenAreSections(h, action);
    FenceResolvedIs(doc, h, action);
    SpliceKeepsOthers(doc, i, h, Resolved(doc, h, action), Kept(h, action), KeptToo(h, action),
                      ChosenEnd(doc, h, action));
  }

  /** The list from a hunk's start line on begins with that hunk. */
  lemma HunksAtStart(doc: seq<Line>, mask: seq<bool>, s: nat, i: nat)
    requires |mask| == |doc| && AllSane(doc) && i < |HunksFrom(doc, mask, 0)|
    requires HunksFrom(doc, mask, 0)[i..] == HunksFrom(doc, mask, s)
    requires HunksFrom(doc, mask, 0)[i].start == s < |doc|
    ensures HunksFrom(doc, mask, s)[1..] == HunksFrom(doc, mask, HunksFrom(doc, mask, 0)[i].end + 1)
  {
    hide *;
    var h := HunksFrom(doc, mask, 0)[i];
    assert HunksFrom(doc, mask, s)[0] == h;
    HunksAt(doc, mask, s);
    StepAdvances(doc, mask, s);
    if ParseAt(doc, mask, s).Resume? {
      HunksAreClean(doc, mask, ParseAt(doc, mask, s).line);
      StartsFrom(doc, mask, ParseAt(doc, mask, s).line, HunksFrom(doc, mask, s));
      assert false;
    }
  }
}
