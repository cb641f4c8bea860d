/** What the hunks found in a document are: ordered, apart, made of exactly the
    text between their markers, and without a further start marker inside. */
module ConflictHunks {
  import opened Sequences
  import opened Text
  import opened MarkerLines
  import opened ConflictMarkers

  /** Every line is classified by its own text. */
  predicate IsRead(doc: seq<Line>) {
    doc != [] && forall l <- doc :: l == ReadLine(l.text)
  }

  predicate AllSane(doc: seq<Line>) {
    forall i | 0 <= i < |doc| :: Sane(doc[i])
  }

  lemma ReadIsSane(doc: seq<Line>)
    requires IsRead(doc)
    ensures AllSane(doc)
  {
    forall i | 0 <= i < |doc| ensures Sane(doc[i]) {
      assert doc[i] in doc;
      LinesAreSane(doc[i].text);
    }
  }

  /** No line from `a` to `b` is a start marker a scan minds. */
  ghost predicate NoStarts(doc: seq<Line>, mask: seq<bool>, respect: bool, a: nat, b: nat)
    requires b < |doc| == |mask|
  {
    forall l | a <= l <= b :: !IsNestedStart(doc[l], mask[l], respect)
  }

  lemma {:induction false} ScanPasses(doc: seq<Line>, mask: seq<bool>, from: nat, respect: bool, t: Target)
    requires |mask| == |doc|
    ensures var r := Scan(doc, mask, from, respect, t);
            r.Hit? ==> NoStarts(doc, mask, respect, from, r.line) && !(respect && mask[r.line])
    decreases |doc| - from
  {
    if from < |doc| && !IsNestedStart(doc[from], mask[from], respect) {
      ScanPasses(doc, mask, from + 1, respect, t);
    }
  }

  predicate Unmasked(mask: seq<bool>, h: Hunk)
    requires h.start < |mask| && FirstEnd(h) < |mask| && h.sep < |mask| && h.end < |mask|
  {
    !mask[h.start] && !mask[FirstEnd(h)] && !mask[h.sep] && !mask[h.end]
  }

  /** The lines of a hunk past its start: no start marker the scan minds, and the
      markers themselves outside of fences where fences count. */
  ghost predicate Clean(doc: seq<Line>, mask: seq<bool>, h: Hunk)
    requires |mask| == |doc|
  {
    && InDoc(doc, h)
    && doc[h.start].start.value.kind == h.kind && IsNestedStart(doc[h.start], mask[h.start], true)
    && NoStarts(doc, mask, h.kind.Git?, h.start + 1, h.end)
    && (h.kind.SB? ==> h.base.Some?)
    && (h.kind.Git? ==> Unmasked(mask, h))
    && doc[h.sep].separator.Some? && doc[h.sep].separator.value >= 3
  }

  lemma {:induction false} FinishedIsClean(doc: seq<Line>, mask: seq<bool>, n: nat, m: Marker, base: Option<nat>,
                                           sep: nat)
    requires |mask| == |doc| && n < sep < |doc| && doc[n].start == Some(m)
    requires base.Some? ==> n < base.value < sep && doc[base.value].base.Some?
    requires IsNestedStart(doc[n], mask[n], true) && NoStarts(doc, mask, m.kind.Git?, n + 1, sep)
    requires m.kind.SB? ==> base.Some?
    requires m.kind.Git? ==> !mask[sep] && (base.Some? ==> !mask[base.value])
    requires doc[sep].separator.Some? && doc[sep].separator.value >= 3
    ensures var r := FinishHunk(doc, mask, n, m, base, sep); r.Parsed? ==> Clean(doc, mask, r.hunk)
  {
    ScanPasses(doc, mask, sep + 1, m.kind.Git?, EndTarget(m));
  }

  lemma {:induction false} ParsedFromIsClean(doc: seq<Line>, mask: seq<bool>, n: nat, m: Marker)
    requires |mask| == |doc| && n < |doc| && doc[n].start == Some(m) && m.size >= 3
    requires IsNestedStart(doc[n], mask[n], true)
    ensures var r := ParseFrom(doc, mask, n, m); r.Parsed? ==> Clean(doc, mask, r.hunk)
  {
    var git := m.kind.Git?;
    var base := Scan(doc, mask, n + 1, git, BaseTarget(m));
    ScanPasses(doc, mask, n + 1, git, BaseTarget(m));
    if base.Hit? {
      if git && doc[base.line].separator == Some(m.size) {
        FinishedIsClean(doc, mask, n, m, None, base.line);
      } else {
        var sep := Scan(doc, mask, base.line + 1, git, SepTarget(m));
        ScanPasses(doc, mask, base.line + 1, git, SepTarget(m));
        if sep.Hit? {
          FinishedIsClean(doc, mask, n, m, Some(base.line), sep.line);
        }
      }
    }
  }

  /** Every hunk from line `n` on is clean and starts there or later. */
  ghost predicate AllClean(doc: seq<Line>, mask: seq<bool>, n: nat, hunks: seq<Hunk>)
    requires |mask| == |doc|
  {
    forall i | 0 <= i < |hunks| :: Clean(doc, mask, hunks[i]) && n <= hunks[i].start
  }

  lemma {:induction false} HunksAreClean(doc: seq<Line>, mask: seq<bool>, n: nat)
    requires |mask| == |doc| && AllSane(doc)
    ensures AllClean(doc, mask, n, HunksFrom(doc, mask, n))
    decreases |doc| - n
  {
    hide *;
    if n < |doc| {
      HunksAt(doc, mask, n);
      ParsedIsClean(doc, mask, n);
      StepAdvances(doc, mask, n);
      var r := ParseAt(doc, mask, n);
      if r.Parsed? {
        HunksAreClean(doc, mask, r.hunk.end + 1);
        FirstIsClean(doc, mask, n, r.hunk, HunksFrom(doc, mask, r.hunk.end + 1));
      } else {
        HunksAreClean(doc, mask, r.line);
        CleanEarlier(doc, mask, n, r.line, HunksFrom(doc, mask, r.line));
      }
    } else {
      NoHunksPast(doc, mask, n);
      NothingUnclean(doc, mask, n);
    }
  }

  lemma NothingUnclean(doc: seq<Line>, mask: seq<bool>, n: nat)
    requires |mask| == |doc|
    ensures AllClean(doc, mask, n, [])
  {
  }

  lemma FirstIsClean(doc: seq<Line>, mask: seq<bool>, n: nat, h: Hunk, later: seq<Hunk>)
    requires |mask| == |doc| && Clean(doc, mask, h) && n == h.start && AllClean(doc, mask, h.end + 1, later)
    ensures AllClean(doc, mask, n, [h] + later)
  {
    assert h.start <= h.end;
    hide Clean;
  }

  lemma CleanEarlier(doc: seq<Line>, mask: seq<bool>, n: nat, m: nat, hunks: seq<Hunk>)
    requires |mask| == |doc| && n <= m && AllClean(doc, mask, m, hunks)
    ensures AllClean(doc, mask, n, hunks)
  {
    hide Clean;
  }

  lemma ParsedIsClean(doc: seq<Line>, mask: seq<bool>, n: nat)
    requires |mask| == |doc| && AllSane(doc) && n < |doc|
    ensures var r := ParseAt(doc, mask, n); r.Parsed? ==> Clean(doc, mask, r.hunk) && r.hunk.start == n
  {
    hide ParseFrom;
    if doc[n].start.Some? && !(doc[n].start.value.kind.Git? && mask[n]) {
      assert Sane(doc[n]);
      ParsedFromIsClean(doc, mask, n, doc[n].start.value);
    }
  }

  predicate InSequence(hunks: seq<Hunk>) {
    forall i, j | 0 <= i < j < |hunks| :: hunks[i].end < hunks[j].start
  }

  /** Hunks come in order and do not overlap. */
  lemma {:induction false} HunksAreOrdered(doc: seq<Line>, mask: seq<bool>, n: nat)
    requires |mask| == |doc| && AllSane(doc)
    ensures InSequence(HunksFrom(doc, mask, n))
    decreases |doc| - n
  {
    hide *;
    if n < |doc| {
      HunksAt(doc, mask, n);
      StepAdvances(doc, mask, n);
      var r := ParseAt(doc, mask, n);
      if r.Parsed? {
        var later := HunksFrom(doc, mask, r.hunk.end + 1);
        HunksAreOrdered(doc, mask, r.hunk.end + 1);
        HunksAreClean(doc, mask, r.hunk.end + 1);
        StartsFrom(doc, mask, r.hunk.end + 1, later);
        FirstInSequence(r.hunk, later);
      } else {
        HunksAreOrdered(doc, mask, r.line);
      }
    } else {
      NoHunksPast(doc, mask, n);
      NoneInSequence();
    }
  }

  lemma StartsFrom(doc: seq<Line>, mask: seq<bool>, n: nat, hunks: seq<Hunk>)
    requires |mask| == |doc| && AllClean(doc, mask, n, hunks)
    ensures forall i | 0 <= i < |hunks| :: n <= hunks[i].start
  {
    hide Clean;
  }

  lemma NoneInSequence()
    ensures InSequence([])
  {
  }

  lemma FirstInSequence(h: Hunk, later: seq<Hunk>)
    requires InSequence(later) && forall i | 0 <= i < |later| :: h.end < later[i].start
    ensures InSequence([h] + later)
  {
  }

  /** No section of an SB hunk holds a start marker of either kind. */
  lemma SBSectionsHaveNoStart(doc: seq<Line>, h: Hunk, l: nat)
    requires IsRead(doc) && h in Hunks(doc) && h.kind.SB? && h.start < l < h.end
    ensures l < |doc| && doc[l].start.None?
  {
    ReadIsSane(doc);
    HunksAreClean(doc, Mask(doc), 0);
    assert Clean(doc, Mask(doc), h);
  }

  // ----- offsets -----

  lemma SectionText(doc: seq<Line>, a: nat, b: nat, m: Marker)
    requires a < b < |doc|
    ensures ReadSection(doc, a, b, m).text == Terminated(Texts(doc)[a + 1..b])
  {
    NextLine(Texts(doc), a);
    LineSlice(Texts(doc), a + 1, b);
  }

  /** The end of a hunk: past the line break, if there is one. */
  lemma HunkEndIs(doc: seq<Line>, end: nat)
    requires end < |doc|
    ensures HunkEnd(doc, end) == if end + 1 < |doc| then LineFrom(Texts(doc), end + 1) else |Join(Texts(doc))|
    ensures LineFrom(Texts(doc), end) < HunkEnd(doc, end) || Texts(doc)[end] == ""
    ensures HunkEnd(doc, end) <= |Join(Texts(doc))|
  {
    NextLine(Texts(doc), end);
    JoinLength(Texts(doc));
    if end + 1 < |doc| {
      LineSlice(Texts(doc), end + 1, |doc| - 1);
    }
  }

  /** Lines `a` to `b` read as line `a`, then the lines between. */
  lemma {:induction false} HeadLine(lines: seq<string>, a: nat, b: nat)
    requires a < b <= |lines|
    ensures Terminated(lines[a..b]) == lines[a] + "\n" + Terminated(lines[a + 1..b])
  {
    assert lines[a..b] == [lines[a]] + lines[a + 1..b];
    TerminatedConcat([lines[a]], lines[a + 1..b]);
    TerminatedOne(lines[a]);
  }

  lemma {:induction false} CutLines(lines: seq<string>, a: nat, b: nat, c: nat)
    requires a <= b <= c <= |lines|
    ensures Terminated(lines[a..c]) == Terminated(lines[a..b]) + Terminated(lines[b..c])
  {
    assert lines[a..c] == lines[a..b] + lines[b..c];
    TerminatedConcat(lines[a..b], lines[b..c]);
  }

  /** A marker line and the section after it, as they stand in the text. */
  function Marked(doc: seq<Line>, at: nat, section: Section): string
    requires at < |doc|
  {
    doc[at].text + "\n" + section.text
  }

  lemma {:induction false} MarkedSlice(doc: seq<Line>, a: nat, b: nat, m: Marker)
    requires a < b < |doc|
    ensures Marked(doc, a, ReadSection(doc, a, b, m)) == Terminated(Texts(doc)[a..b])
  {
    SectionText(doc, a, b, m);
    HeadLine(Texts(doc), a, b);
  }

  /** The text of a hunk from its start line to its end line, piece by piece. */
  function Pieces(doc: seq<Line>, h: Hunk): string
    requires InDoc(doc, h)
  {
    var c := Located(doc, h);
    Marked(doc, h.start, c.first) +
    (if h.base.Some? then Marked(doc, h.base.value, c.base.value) else "") +
    Marked(doc, h.sep, c.second)
  }

  lemma {:induction false} PiecesAreLines(doc: seq<Line>, h: Hunk)
    requires InDoc(doc, h)
    ensures Pieces(doc, h) == Terminated(Texts(doc)[h.start..h.end])
  {
    var ls := Texts(doc);
    MarkedSlice(doc, h.start, FirstEnd(h), doc[h.start].start.value);
    MarkedSlice(doc, h.sep, h.end, doc[h.end].end.value);
    CutLines(ls, h.start, FirstEnd(h), h.sep);
    CutLines(ls, h.start, h.sep, h.end);
    if h.base.Some? {
      MarkedSlice(doc, h.base.value, h.sep, doc[h.base.value].base.value);
    } else {
      assert ls[h.sep..h.sep] == [];
    }
  }

  /** A hunk is exactly its start line, first section, base line and section if
      it has them, separator, second section and end line. */
  lemma HunkTilesText(doc: seq<Line>, h: Hunk)
    requires InDoc(doc, h)
    ensures var c, text := Located(doc, h), Join(Texts(doc));
            && c.from <= c.to <= |text|
            && text[c.from..c.to] == Pieces(doc, h) + doc[h.end].text + if h.end + 1 < |doc| then "\n" else ""
  {
    PiecesAreLines(doc, h);
    HunkEndIs(doc, h.end);
    LinesUpTo(Texts(doc), h.start, h.end);
    hide Pieces, ReadSection, HunkEnd, LineFrom, Texts, Join, Terminated;
    Assoc(Pieces(doc, h), doc[h.end].text, "\n");
    NothingAdded(Pieces(doc, h) + doc[h.end].text);
  }

  /** The text of lines `a` to `b`, with the line break after `b` if there is
      one. */
  lemma {:induction false} LinesUpTo(ls: seq<string>, a: nat, b: nat)
    requires a < b < |ls|
    ensures var end := if b + 1 < |ls| then LineFrom(ls, b + 1) else |Join(ls)|;
            && LineFrom(ls, a) <= end <= |Join(ls)|
            && Join(ls)[LineFrom(ls, a)..end] ==
               Terminated(ls[a..b]) + if b + 1 < |ls| then ls[b] + "\n" else ls[b]
  {
    JoinLength(ls);
    if b + 1 < |ls| {
      LineSlice(ls, a, b + 1);
      CutLines(ls, a, b, b + 1);
      HeadLine(ls, b, b + 1);
      NoneBetween(ls, b + 1);
      hide LineFrom, Join, Terminated;
      NothingAdded(ls[b] + "\n");
    } else {
      LineSlice(ls, a, b);
      LastLineSlice(ls);
      hide LineFrom, Join, Terminated;
      SliceAtEnd(Join(ls), LineFrom(ls, a), LineFrom(ls, b));
    }
  }

  lemma NoneBetween(ls: seq<string>, i: nat)
    requires i <= |ls|
    ensures Terminated(ls[i..i]) == ""
  {
  }

  lemma SliceAtEnd(text: string, i: nat, j: nat)
    requires i <= j <= |text|
    ensures text[i..|text|] == text[i..j] + text[j..]
  {
  }

  lemma {:induction false} LastLineSlice(lines: seq<string>)
    requires lines != []
    ensures LineFrom(lines, |lines| - 1) <= |Join(lines)|
    ensures Join(lines)[LineFrom(lines, |lines| - 1)..] == lines[|lines| - 1]
  {
  }

  /** In the text, too, hunks come in order and apart. */
  lemma LocatedInOrder(doc: seq<Line>, i: nat, j: nat)
    requires IsRead(doc) && i < j < |Hunks(doc)|
    ensures AllInDoc(doc, Hunks(doc))
    ensures Located(doc, Hunks(doc)[i]).to <= Located(doc, Hunks(doc)[j]).from
  {
    HunksInDoc(doc, Mask(doc), 0);
    ReadIsSane(doc);
    HunksAreOrdered(doc, Mask(doc), 0);
    assert Hunks(doc)[i] in Hunks(doc) && Hunks(doc)[j] in Hunks(doc);
    EndBeforeStart(doc, Hunks(doc)[i].end, Hunks(doc)[j].start);
  }

  lemma EndBeforeStart(doc: seq<Line>, end: nat, start: nat)
    requires end < start < |doc|
    ensures HunkEnd(doc, end) <= LineFrom(Texts(doc), start)
  {
    HunkEndIs(doc, end);
    LineSlice(Texts(doc), end + 1, start);
  }
}
