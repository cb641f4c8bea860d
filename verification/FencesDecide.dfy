/** When resolving a hunk keeps the others whatever follows it: exactly when the
    chosen lines leave the fence that the hunk left. */
module FencesDecide {
  import opened Sequences
  import opened Text
  import opened MarkerLines
  import opened ConflictMarkers
  import opened ConflictHunks
  import opened ConflictLocality
  import opened ConflictResolution
  import opened FencesMatter
  import opened ConflictCompleteness

  predicate AreRead(lines: seq<Line>) {
    forall l <- lines :: l == ReadLine(l.text)
  }

  /** The document up to the end of a hunk, and then other lines. */
  function Continued(doc: seq<Line>, h: Hunk, tail: seq<Line>): seq<Line>
    requires h.end < |doc|
  {
    doc[..h.end + 1] + tail
  }

  /** Hunk `i` is `h`, and resolving it keeps the others. */
  ghost predicate Keeps(doc: seq<Line>, i: nat, h: Hunk, action: Action) {
    && i < |Hunks(doc)| && Hunks(doc)[i] == h && InDoc(doc, h) && Allowed(h, action)
    && OthersKept(doc, Resolved(doc, h, action), i, Shift(doc, h, action))
  }

  // ----- the hunk is found in every continuation -----

  /** The lines and the mask up to line `s` are the same. */
  ghost predicate SameUpTo(doc: seq<Line>, mask: seq<bool>, doc': seq<Line>, mask': seq<bool>, s: nat)
    requires |mask| == |doc| && |mask'| == |doc'|
  {
    s <= |doc| && s <= |doc'| && forall l | 0 <= l < s :: doc[l] == doc'[l] && mask[l] == mask'[l]
  }

  lemma {:induction false} ScanUpTo(doc: seq<Line>, mask: seq<bool>, doc': seq<Line>, mask': seq<bool>, s: nat,
                                    from: nat, respect: bool, t: Target)
    requires |mask| == |doc| && |mask'| == |doc'| && SameUpTo(doc, mask, doc', mask', s)
    requires var r := Scan(doc, mask, from, respect, t); r.Hit? && r.line < s
    ensures Scan(doc', mask', from, respect, t) == Scan(doc, mask, from, respect, t)
    decreases |doc| - from
  {
    assert doc[from] == doc'[from];
    if !IsNestedStart(doc[from], mask[from], respect) && ((respect && mask[from]) || !Hits(doc[from], t)) {
      ScanUpTo(doc, mask, doc', mask', s, from + 1, respect, t);
    }
  }

  lemma {:induction false} FinishUpTo(doc: seq<Line>, mask: seq<bool>, doc': seq<Line>, mask': seq<bool>, s: nat,
                                      n: nat, m: Marker, base: Option<nat>, sep: nat)
    requires |mask| == |doc| && |mask'| == |doc'| && SameUpTo(doc, mask, doc', mask', s)
    requires n < sep < s && doc[n].start.Some? && doc'[n].start.Some?
    requires base.Some? ==> n < base.value < sep && doc[base.value].base.Some? && doc'[base.value].base.Some?
    requires var r := FinishHunk(doc, mask, n, m, base, sep); r.Parsed? && r.hunk.end < s
    ensures FinishHunk(doc', mask', n, m, base, sep) == FinishHunk(doc, mask, n, m, base, sep)
  {
    hide Scan;
    ScanUpTo(doc, mask, doc', mask', s, sep + 1, m.kind.Git?, EndTarget(m));
  }

  lemma {:induction false} SeparatorUpTo(doc: seq<Line>, mask: seq<bool>, doc': seq<Line>, mask': seq<bool>, s: nat,
                                         n: nat, m: Marker, base: nat)
    requires |mask| == |doc| && |mask'| == |doc'| && SameUpTo(doc, mask, doc', mask', s)
    requires n < base < s && doc[n].start.Some? && doc[base].base.Some? && doc'[n].start.Some? && doc'[base].base.Some?
    requires var r := FindSeparator(doc, mask, n, m, base); r.Parsed? && r.hunk.end < s
    ensures FindSeparator(doc', mask', n, m, base) == FindSeparator(doc, mask, n, m, base)
  {
    hide Scan;
    var sep := Scan(doc, mask, base + 1, m.kind.Git?, SepTarget(m));
    ScanUpTo(doc, mask, doc', mask', s, base + 1, m.kind.Git?, SepTarget(m));
    FinishUpTo(doc, mask, doc', mask', s, n, m, Some(base), sep.line);
  }

  /** What is parsed depends on the lines up to its end. */
  lemma {:induction false} ParseUpTo(doc: seq<Line>, mask: seq<bool>, doc': seq<Line>, mask': seq<bool>, s: nat,
                                     h: Hunk)
    requires |mask| == |doc| && |mask'| == |doc'| && SameUpTo(doc, mask, doc', mask', s)
    requires h.start <= h.end < s && ParseAt(doc, mask, h.start) == Parsed(h)
    ensures ParseAt(doc', mask', h.start) == Parsed(h)
  {
    hide Scan, FinishHunk, FindSeparator;
    var n := h.start;
    assert doc[n] == doc'[n] && mask[n] == mask'[n];
    var m := doc[n].start.value;
    var base := Scan(doc, mask, n + 1, m.kind.Git?, BaseTarget(m));
    BaseBeforeEnd(doc, mask, n, m);
    ScanUpTo(doc, mask, doc', mask', s, n + 1, m.kind.Git?, BaseTarget(m));
    assert doc[base.line] == doc'[base.line];
    if m.kind.Git? && doc[base.line].separator == Some(m.size) {
      FinishUpTo(doc, mask, doc', mask', s, n, m, None, base.line);
    } else {
      SeparatorUpTo(doc, mask, doc', mask', s, n, m, base.line);
    }
  }

  lemma BaseBeforeEnd(doc: seq<Line>, mask: seq<bool>, n: nat, m: Marker)
    requires |mask| == |doc| && n < |doc| && doc[n].start == Some(m)
    ensures var r := ParseFrom(doc, mask, n, m);
            var base := Scan(doc, mask, n + 1, m.kind.Git?, BaseTarget(m));
            r.Parsed? ==> base.Hit? && base.line < r.hunk.end
  {
    hide Scan;
  }

  lemma ContinuedRun(doc: seq<Line>, h: Hunk, tail: seq<Line>)
    requires IsRead(doc) && h.start < h.end < |doc| && AreRead(tail)
    ensures var doc' := Continued(doc, h, tail);
            && IsRead(doc') && SameRun(doc, 0, h.end + 1, doc', 0)
            && h.end < |doc'| && doc'[h.end + 1..] == tail
  {
    hide ReadLine;
  }

  /** In every continuation the hunk and those before it are found again. */
  lemma ContinuedFinds(doc: seq<Line>, i: nat, h: Hunk, tail: seq<Line>)
    requires IsRead(doc) && i < |Hunks(doc)| && h == Hunks(doc)[i] && AreRead(tail)
    ensures h.start < h.end < |doc|
    ensures var doc' := Continued(doc, h, tail);
            IsRead(doc') && i < |Hunks(doc')| && Hunks(doc')[..i] == Hunks(doc)[..i] && Hunks(doc')[i] == h
  {
    hide *;
    HunkIsClean(doc, i);
    CleanStart(doc, h);
    ContinuedRun(doc, h, tail);
    var doc' := Continued(doc, h, tail);
    var mask, mask' := Mask(doc), Mask(doc');
    NoFenceAtTop(doc, doc');
    MaskCopy(doc, 0, h.end + 1, doc', 0);
    SameBefore(doc, doc', h.end + 1, h.start);
    IsParsed(doc, i, h);
    ParseUpTo(doc, mask, doc', mask', h.end + 1, h);
    HunksAre(doc);
    HunksAre(doc');
    HunksPrefix(doc, mask, doc', mask', h.start, 0, i);
    HunksAt(doc', mask', h.start);
    TakesFirst(Hunks(doc)[..i], h, HunksFrom(doc', mask', h.end + 1), i);
  }

  lemma TakesFirst(front: seq<Hunk>, h: Hunk, later: seq<Hunk>, i: nat)
    requires |front| == i
    ensures var hs := front + ([h] + later); i < |hs| && hs[..i] == front && hs[i] == h
  {
  }

  lemma SameBefore(doc: seq<Line>, doc': seq<Line>, e: nat, s: nat)
    requires SameRun(doc, 0, e, doc', 0) && s < e
    requires forall l | 0 <= l < 0 + e :: Mask(doc)[l] == Mask(doc')[l + 0]
    ensures SameUpTo(doc, Mask(doc), doc', Mask(doc'), e) && SamePrefix(doc, Mask(doc), doc', Mask(doc'), s)
  {
    hide Mask;
  }

  lemma IsParsed(doc: seq<Line>, i: nat, h: Hunk)
    requires i < |Hunks(doc)| && h == Hunks(doc)[i]
    ensures h.start < |doc| && ParseAt(doc, Mask(doc), h.start) == Parsed(h)
  {
    hide *;
    assert h in Hunks(doc);
    HunksAreComplete(doc, h);
  }

  // ----- the fence decides -----

  /** Two documents with the same first lines have the same fence after them. */
  lemma SameFence(doc: seq<Line>, doc': seq<Line>, n: nat)
    requires n <= |doc| && n <= |doc'| && doc[..n] == doc'[..n]
    ensures FenceAt(doc, n) == FenceAt(doc', n)
  {
    forall l | 0 <= l < n ensures doc[l] == doc'[l + 0] {
      assert doc[l] == doc[..n][l] == doc'[..n][l];
    }
    FenceCopy(doc, 0, n, doc', 0, n);
  }

  /** A continuation leaves the hunk, the chosen lines and both fences as they
      were. */
  lemma ContinuedFences(doc: seq<Line>, h: Hunk, action: Action, tail: seq<Line>)
    requires InDoc(doc, h) && Allowed(h, action)
    ensures var doc' := Continued(doc, h, tail);
            && InDoc(doc', h) && ChosenEnd(doc', h, action) == ChosenEnd(doc, h, action)
            && FenceAt(doc', h.end + 1) == FenceAt(doc, h.end + 1)
            && FenceResolved(doc', h, action) == FenceResolved(doc, h, action)
  {
    hide FenceAt, FenceAfter, Following, Kept, KeptToo;
    var doc' := Continued(doc, h, tail);
    KeptWithin(h, action);
    assert forall l | 0 <= l <= h.end :: doc'[l] == doc[l];
    var p, q := Kept(h, action), KeptToo(h, action);
    assert doc'[p.from..p.to] == doc[p.from..p.to] && doc'[q.from..q.to] == doc[q.from..q.to];
    assert doc'[..h.end + 1] == doc[..h.end + 1] && doc'[..h.start] == doc[..h.start];
    SameFence(doc, doc', h.end + 1);
    SameFence(doc, doc', h.start);
  }

  /** Resolving a git hunk keeps the fence. */
  lemma GitKeepsFence(doc: seq<Line>, i: nat, action: Action)
    requires IsRead(doc) && i < |Hunks(doc)| && Hunks(doc)[i].kind.Git? && Allowed(Hunks(doc)[i], action)
    ensures InDoc(doc, Hunks(doc)[i]) && KeepsFence(doc, Hunks(doc)[i], action)
  {
    hide *;
    var h := Hunks(doc)[i];
    HunkIsClean(doc, i);
    InDocBounds(doc, h);
    ResolvedIsSpliced(doc, h, action);
    ChosenAreSections(h, action);
    FencesKept(doc, h, action);
    SpliceStartsNothing(doc, h, Resolved(doc, h, action), Kept(h, action), KeptToo(h, action));
  }

  lemma FencesKept(doc: seq<Line>, h: Hunk, action: Action)
    requires InDoc(doc, h) && Allowed(h, action)
    ensures ChosenEnd(doc, h, action) <= |Resolved(doc, h, action)|
    ensures FenceResolved(doc, h, action) == FenceAt(Resolved(doc, h, action), ChosenEnd(doc, h, action))
    ensures KeepsFence(doc, h, action) <==> FenceResolved(doc, h, action) == FenceAt(doc, h.end + 1)
  {
    FenceResolvedIs(doc, h, action);
    hide FenceAt, FenceResolved, Resolved, ChosenEnd;
  }

  /** How many hunks there are, before and after. */
  lemma CountHunks(doc: seq<Line>, i: nat, h: Hunk, action: Action)
    requires IsRead(doc) && i < |Hunks(doc)| && h == Hunks(doc)[i] && Allowed(h, action) && InDoc(doc, h)
    ensures |Hunks(doc)| == i + 1 + |HunksFrom(doc, Mask(doc), h.end + 1)|
    ensures var doc' := Resolved(doc, h, action);
            |Hunks(doc')| == i + |HunksFrom(doc', Mask(doc'), ChosenEnd(doc, h, action))|
  {
    hide *;
    HunkIsClean(doc, i);
    InDocBounds(doc, h);
    CleanStart(doc, h);
    ResolvedIsSpliced(doc, h, action);
    ChosenAreSections(h, action);
    var doc', p, q := Resolved(doc, h, action), Kept(h, action), KeptToo(h, action);
    HunksAre(doc);
    HunksAre(doc');
    SpliceBounds(doc, doc', h.start, h.end + 1, p, q);
    SpliceStartsNothing(doc, h, doc', p, q);
    SplicePrefix(doc, doc', h.start);
    HunksPrefix(doc, Mask(doc), doc', Mask(doc'), h.start, 0, i);
    SkipNothing(doc', h.start, ChosenEnd(doc, h, action));
    HunksAtStart(doc, Mask(doc), h.start, i);
    DropOne(Hunks(doc), i);
  }

  /** A git hunk of three lines. */
  const MARKS := ["<<<", "===", ">>>"]

  /** Whether a git hunk is found depends on the fence in front of it. */
  lemma MarksCount(doc: seq<Line>, n: nat)
    requires |doc| == n + 3 && doc[n..] == ReadLines(MARKS)
    ensures |HunksFrom(doc, Mask(doc), n)| == if FenceAt(doc, n).Outside? then 1 else 0
  {
    hide MatchMarker, MatchSeparator, RunOf, Opens, Closes, Trimmed, Mask, FenceAt;
    ShortMarkers();
    OnlyMarker("<<<", '<');
    OnlyMarker("===", '=');
    OnlyMarker(">>>", '>');
    assert doc[n] == doc[n..][0] && doc[n + 1] == doc[n..][1] && doc[n + 2] == doc[n..][2];
    hide ReadLine;
    FencesOfMarks(doc, n);
    HunksOfMarks(doc, Mask(doc), n);
  }

  lemma FencesOfMarks(doc: seq<Line>, n: nat)
    requires |doc| == n + 3 && FenceFree(doc[n]) && FenceFree(doc[n + 1]) && FenceFree(doc[n + 2])
    ensures forall i | n <= i < n + 3 :: Mask(doc)[i] == FenceAt(doc, n).Within?
  {
    assert FenceAt(doc, n + 1) == FenceAt(doc, n);
    assert FenceAt(doc, n + 2) == FenceAt(doc, n);
  }

  lemma HunksOfMarks(doc: seq<Line>, mask: seq<bool>, n: nat)
    requires |doc| == n + 3 == |mask| && mask[n] == mask[n + 1] == mask[n + 2]
    requires doc[n].start == Some(Marker(Git, 3, "", Some(""))) && doc[n + 1].separator == Some(3)
    requires doc[n + 1].start.None? && doc[n + 2].start.None? && doc[n + 2].end == Some(Marker(Git, 3, "", Some("")))
    ensures |HunksFrom(doc, mask, n)| == if mask[n] then 0 else 1
  {
    assert HunksFrom(doc, mask, n + 3) == [];
    if mask[n] {
      assert HunksFrom(doc, mask, n + 2) == [];
      assert HunksFrom(doc, mask, n + 1) == [];
    } else {
      assert Scan(doc, mask, n + 1, true, Target(Some(Git), true, None, 3)) == Hit(n + 1);
      assert Scan(doc, mask, n + 2, true, Target(None, false, Some(Git), 3)) == Hit(n + 2);
      assert ParseAt(doc, mask, n) == Parsed(Hunk(Git, n, None, n + 1, n + 2));
    }
  }

  // ----- a continuation that tells two fences apart -----

  function Repeat(c: char, n: nat): string {
    seq(n, i => c)
  }

  /** A fence as a line opens it. */
  predicate IsFence(f: Fence) {
    f.Within? ==> f.mark in {'`', '~'} && f.len >= 3
  }

  lemma OpensFence(text: string)
    ensures IsFence(ReadLine(text).opens)
  {
    hide MatchStart, MatchBase, MatchSeparator, MatchEnd, Closes, Trimmed;
  }

  lemma NextIsFence(f: Fence, line: Line)
    requires IsFence(f) && IsFence(line.opens)
    ensures IsFence(NextFence(f, line))
  {
  }

  lemma LineIsRead(doc: seq<Line>, i: nat)
    requires IsRead(doc) && i < |doc|
    ensures doc[i] == ReadLine(doc[i].text)
  {
    hide ReadLine;
    assert doc[i] in doc;
  }

  lemma {:induction false} FencesAreFences(doc: seq<Line>, i: nat)
    requires IsRead(doc) && i <= |doc|
    ensures IsFence(FenceAt(doc, i))
  {
    hide NextFence, ReadLine, IsRead;
    if i > 0 {
      FencesAreFences(doc, i - 1);
      LineIsRead(doc, i - 1);
      OpensFence(doc[i - 1].text);
      NextIsFence(FenceAt(doc, i - 1), doc[i - 1]);
    }
  }

  /** The line that closes a fence. */
  function Closer(f: Fence): Line
    requires f.Within?
  {
    ReadLine(Repeat(f.mark, f.len))
  }

  lemma CloserReads(f: Fence)
    requires f.Within? && IsFence(f)
    ensures Closer(f).closes == Closer(f).opens == f && Closer(f).start.None?
  {
    var text := Repeat(f.mark, f.len);
    RunAll(text, f.mark);
    NoRun(text, ' ');
    NoRun(text, if f.mark == '`' then '~' else '`');
    OnlyMarker(text, f.mark);
    assert StripTrailingCR(text) == text && Trimmed(text) == text;
    hide MatchMarker, MatchSeparator, RunOf, Trimmed, Repeat;
  }

  /** The fence to close so that one of two different ones is left. */
  function ToClose(f: Fence, g: Fence): Fence {
    if f.Outside? || g.Outside? then Outside
    else if f.mark == g.mark && g.len < f.len then g else f
  }

  /** The lines that follow: a git hunk, with a closing line in front if both
      fences are open. */
  function Telling(f: Fence, g: Fence): seq<Line> {
    var c := ToClose(f, g);
    (if c.Within? then [Closer(c)] else []) + ReadLines(MARKS)
  }

  /** The fence after the closing line. */
  function AfterCloser(f: Fence, c: Fence): Fence {
    if c.Within? then NextFence(f, Closer(c)) else f
  }

  lemma CloserTells(f: Fence, g: Fence)
    requires f != g && IsFence(f) && IsFence(g)
    ensures AfterCloser(f, ToClose(f, g)).Outside? <==> AfterCloser(g, ToClose(f, g)).Within?
  {
    hide Closer;
    var c := ToClose(f, g);
    if c.Within? { CloserReads(c); }
  }

  lemma TellingIsRead(f: Fence, g: Fence)
    ensures AreRead(Telling(f, g)) && Telling(f, g) != []
  {
    hide MatchMarker, MatchSeparator, Opens, Closes;
  }

  /** Behind the fence `x`, the continuation holds a hunk exactly if its closing
      line leaves none open. */
  lemma TellingCount(doc: seq<Line>, n: nat, f: Fence, g: Fence)
    requires n <= |doc| && doc[n..] == Telling(f, g) && IsFence(f) && IsFence(g)
    ensures |HunksFrom(doc, Mask(doc), n)| == if AfterCloser(FenceAt(doc, n), ToClose(f, g)).Outside? then 1 else 0
  {
    hide HunksFrom, Mask, ReadLines, Closer, IsNestedStart;
    var c := ToClose(f, g);
    if c.Within? {
      CloserReads(c);
      assert doc[n] == doc[n..][0] && doc[n + 1..] == doc[n..][1..] == ReadLines(MARKS);
      PassesOverCloser(doc, n);
      MarksCount(doc, n + 1);
    } else {
      assert [] + ReadLines(MARKS) == ReadLines(MARKS);
      MarksCount(doc, n);
    }
  }

  lemma PassesOverCloser(doc: seq<Line>, n: nat)
    requires n < |doc| && doc[n].start.None?
    ensures HunksFrom(doc, Mask(doc), n) == HunksFrom(doc, Mask(doc), n + 1)
  {
    hide Mask, ParseFrom;
  }

  // ----- the theorem -----

  lemma ContinuedResolved(doc: seq<Line>, h: Hunk, action: Action, tail: seq<Line>)
    requires InDoc(doc, h) && InDoc(Continued(doc, h, tail), h) && Allowed(h, action) && tail != []
    ensures var r := Resolved(Continued(doc, h, tail), h, action);
            && ChosenEnd(Continued(doc, h, tail), h, action) <= |r|
            && r[ChosenEnd(Continued(doc, h, tail), h, action)..] == tail
  {
    hide ReadLine, Chosen;
    var doc' := Continued(doc, h, tail);
    assert h.end + 1 < |doc'| && doc'[h.end + 1..] == tail;
    SplitConcat(doc'[..h.start] + Chosen(doc', h, action), tail);
  }

  lemma KeepsCount(doc: seq<Line>, i: nat, h: Hunk, action: Action)
    requires Keeps(doc, i, h, action)
    ensures |Hunks(Resolved(doc, h, action))| == |Hunks(doc)| - 1
  {
    hide Hunks, Resolved, Shift;
  }

  /** With another fence after the chosen lines there is a continuation whose
      other hunks are not kept: one of both documents holds a git hunk more. */
  lemma TellingBreaks(doc: seq<Line>, i: nat, h: Hunk, action: Action)
    requires IsRead(doc) && i < |Hunks(doc)| && h == Hunks(doc)[i] && Allowed(h, action) && InDoc(doc, h)
    requires !KeepsFence(doc, h, action)
    ensures var tail := Telling(FenceAt(doc, h.end + 1), FenceResolved(doc, h, action));
            AreRead(tail) && !Keeps(Continued(doc, h, tail), i, h, action)
  {
    hide *;
    InDocBounds(doc, h);
    FencesKept(doc, h, action);
    ResolvedIsRead(doc, h, action);
    var f, g := FenceAt(doc, h.end + 1), FenceResolved(doc, h, action);
    var tail := Telling(f, g);
    FencesAreFences(doc, h.end + 1);
    FencesAreFences(Resolved(doc, h, action), ChosenEnd(doc, h, action));
    TellingIsRead(f, g);
    CloserTells(f, g);
    ContinuedFinds(doc, i, h, tail);
    ContinuedFences(doc, h, action, tail);
    ContinuedRun(doc, h, tail);
    ContinuedResolved(doc, h, action, tail);
    var doc' := Continued(doc, h, tail);
    FencesKept(doc', h, action);
    CountHunks(doc', i, h, action);
    TellingCount(doc', h.end + 1, f, g);
    TellingCount(Resolved(doc', h, action), ChosenEnd(doc', h, action), f, g);
    if Keeps(doc', i, h, action) {
      KeepsCount(doc', i, h, action);
    }
  }

  /** In every continuation of the document past a hunk the hunk is found, and
      resolving it keeps the others in all of them exactly if the chosen lines
      leave the fence the hunk left, as those of a git hunk do. */
  lemma KeepsOthersIff(doc: seq<Line>, i: nat, h: Hunk, action: Action)
    requires IsRead(doc) && i < |Hunks(doc)| && h == Hunks(doc)[i] && Allowed(h, action)
    ensures InDoc(doc, h) && (h.kind.Git? ==> KeepsFence(doc, h, action))
    ensures KeepsFence(doc, h, action) <==>
            forall tail | AreRead(tail) :: Keeps(Continued(doc, h, tail), i, h, action)
  {
    hide *;
    HunkIsClean(doc, i);
    InDocBounds(doc, h);
    if h.kind.Git? { GitKeepsFence(doc, i, action); }
    if KeepsFence(doc, h, action) {
      forall tail | AreRead(tail) ensures Keeps(Continued(doc, h, tail), i, h, action) {
        ContinuedKeeps(doc, i, h, action, tail);
      }
    } else {
      TellingBreaks(doc, i, h, action);
    }
  }

  lemma FencesAreSettled(doc: seq<Line>, h: Hunk, action: Action)
    requires InDoc(doc, h) && Allowed(h, action) && KeepsFence(doc, h, action)
    ensures FencesSettled(doc, h, action)
  {
    hide KeepsFence, InDoc, GitFree;
  }

  lemma AreKept(doc: seq<Line>, i: nat, h: Hunk, action: Action)
    requires i < |Hunks(doc)| && h == Hunks(doc)[i] && InDoc(doc, h) && Allowed(h, action)
    requires OthersKept(doc, Resolved(doc, h, action), i, Shift(doc, h, action))
    ensures Keeps(doc, i, h, action)
  {
    hide Hunks, Resolved, Shift, InDoc, OthersKept;
  }

  lemma ContinuedKeeps(doc: seq<Line>, i: nat, h: Hunk, action: Action, tail: seq<Line>)
    requires IsRead(doc) && i < |Hunks(doc)| && h == Hunks(doc)[i] && Allowed(h, action) && InDoc(doc, h)
    requires KeepsFence(doc, h, action) && AreRead(tail)
    ensures Keeps(Continued(doc, h, tail), i, h, action)
  {
    hide *;
    InDocBounds(doc, h);
    ContinuedFinds(doc, i, h, tail);
    ContinuedFences(doc, h, action, tail);
    var doc' := Continued(doc, h, tail);
    FencesKept(doc, h, action);
    FencesKept(doc', h, action);
    FencesAreSettled(doc', h, action);
    ResolveKeepsOthers(doc', i, action);
    AreKept(doc', i, h, action);
  }

  lemma ResolvedIsRead(doc: seq<Line>, h: Hunk, action: Action)
    requires IsRead(doc) && InDoc(doc, h) && Allowed(h, action)
    ensures IsRead(Resolved(doc, h, action))
  {
    hide ReadLine, Resolved;
    var doc' := Resolved(doc, h, action);
    BlankReads();
    forall l | 0 <= l < |doc'| ensures doc'[l] in doc || doc'[l] == ReadLine("") {
      ResolvedFrom(doc, h, action, l);
    }
  }

  // ----- a hunk that resolving hides -----

  const HIDING := [SB_START_PREFIX, "```", SB_BASE_PREFIX, "=======", "```", SB_END_PREFIX] + MARKS

  /** The first six lines, as far as the scan reads them. */
  ghost predicate Hiding(doc: seq<Line>) {
    && |doc| == 9 && doc[6..] == ReadLines(MARKS)
    && (forall i | 1 <= i < 6 :: doc[i].start.None?) && (forall i | 0 <= i < 6 :: i !in {1, 4} ==> FenceFree(doc[i]))
    && doc[1].opens == doc[4].opens == doc[4].closes == Within('`', 3)
    && doc[0].start == doc[2].base == doc[5].end == Some(Marker(SB, 7, "", None))
    && doc[1].base.None? && doc[3].separator == Some(7) && doc[4].end.None?
  }

  lemma HidingReads(doc: seq<Line>)
    requires doc == ReadLines(HIDING)
    ensures Hiding(doc)
  {
    hide MatchMarker, MatchSeparator, RunOf, Opens, Closes, Trimmed;
    ShortMarkers();
    CloserReads(Within('`', 3));
    assert Repeat('`', 3) == "```";
    WholePrefix(SB_START_PREFIX, '<');
    WholePrefix(SB_BASE_PREFIX, '|');
    WholePrefix(SB_END_PREFIX, '>');
    OnlyMarker(SB_START_PREFIX, '<');
    OnlyMarker(SB_BASE_PREFIX, '|');
    OnlyMarker("=======", '=');
    OnlyMarker("```", '`');
    OnlyMarker(SB_END_PREFIX, '>');
    assert doc[6..] == ReadLines(MARKS);
  }

  lemma HidingParses(doc: seq<Line>)
    requires Hiding(doc)
    ensures Hunks(doc) != [] && Hunks(doc)[0] == Hunk(SB, 0, Some(2), 3, 5)
    ensures FenceAt(doc, 6).Outside?
  {
    var mask := Mask(doc);
    assert Scan(doc, mask, 2, false, Target(Some(SB), false, None, 7)) == Hit(2);
    assert Scan(doc, mask, 1, false, Target(Some(SB), false, None, 7)) == Hit(2);
    assert Scan(doc, mask, 3, false, Target(None, true, None, 7)) == Hit(3);
    assert Scan(doc, mask, 5, false, Target(None, false, Some(SB), 7)) == Hit(5);
    assert Scan(doc, mask, 4, false, Target(None, false, Some(SB), 7)) == Hit(5);
    assert ParseAt(doc, mask, 0) == Parsed(Hunk(SB, 0, Some(2), 3, 5));
    assert FenceAt(doc, 1).Outside?;
    assert FenceAt(doc, 2) == Within('`', 3);
    assert FenceAt(doc, 3) == Within('`', 3);
    assert FenceAt(doc, 4) == Within('`', 3);
    assert FenceAt(doc, 5).Outside?;
  }

  /** Taking the first side of an SB hunk opens a fence that the hunk closed, and
      the git hunk after it is found no more. */
  lemma ResolvingHidesHunk()
    ensures var doc := ReadLines(HIDING);
            && IsRead(doc) && |Hunks(doc)| == 2 && InDoc(doc, Hunks(doc)[0])
            && Hunks(Resolved(doc, Hunks(doc)[0], TakeFirst)) == []
  {
    hide *;
    var doc := ReadLines(HIDING);
    HidingReads(doc);
    HidingIsRead();
    HidingParses(doc);
    var h := Hunk(SB, 0, Some(2), 3, 5);
    HunkIsClean(doc, 0);
    HidingResolves(doc, h);
    CountHunks(doc, 0, h, TakeFirst);
    MarksCount(doc, 6);
    MarksCount(Resolved(doc, h, TakeFirst), 1);
  }

  lemma HidingResolves(doc: seq<Line>, h: Hunk)
    requires Hiding(doc) && h == Hunk(SB, 0, Some(2), 3, 5) && InDoc(doc, h)
    ensures |doc| == 9 && doc[6..] == ReadLines(MARKS) && Allowed(h, TakeFirst) && ChosenEnd(doc, h, TakeFirst) == 1
    ensures var doc' := Resolved(doc, h, TakeFirst);
            |doc'| == 4 && doc'[1..] == ReadLines(MARKS) && FenceAt(doc', 1).Within?
  {
    hide ReadLine;
    var doc' := Resolved(doc, h, TakeFirst);
    assert doc' == [doc[1]] + doc[6..] && doc'[1..] == doc[6..];
    assert FenceAt(doc', 0).Outside?;
  }

  lemma HidingIsRead()
    ensures IsRead(ReadLines(HIDING))
  {
    hide MatchMarker, MatchSeparator, Opens, Closes;
  }
}
