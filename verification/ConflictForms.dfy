/** Masks, hunks and their edits in terms of the lines as they are written. */
module ConflictForms {
  import opened Sequences
  import opened Text
  import opened MarkerLines
  import opened MarkerForms
  import opened ConflictMarkers
  import opened ConflictHunks
  import opened ConflictCompleteness

  // ----- the fence mask -----

  /** The line closes a fence that line `o` opened. */
  predicate ClosesThat(doc: seq<Line>, o: nat, l: nat)
    requires o < |doc| && l < |doc| && doc[o].opens.Within?
  {
    && doc[l].closes.Within? && doc[l].closes.mark == doc[o].opens.mark
    && doc[l].closes.len >= doc[o].opens.len
  }

  /** Line `o` opens a fence, none being open, that no line before `i` closes. */
  predicate OpenSince(doc: seq<Line>, o: nat, i: nat)
    requires o < i <= |doc|
  {
    && doc[o].opens.Within? && FenceAt(doc, o).Outside?
    && forall l | o < l < i :: !ClosesThat(doc, o, l)
  }

  /** Masked lines are those behind an opened fence, up to the line that closes
      it. */
  lemma {:induction false} MaskIff(doc: seq<Line>, i: nat)
    requires i <= |doc|
    ensures FenceAt(doc, i).Within? <==> exists o | 0 <= o < i :: OpenSince(doc, o, i)
    ensures forall o | 0 <= o < i && OpenSince(doc, o, i) :: FenceAt(doc, i) == doc[o].opens
    ensures i < |doc| ==>
              (Mask(doc)[i] <==> exists o | 0 <= o < i :: OpenSince(doc, o, i) && !ClosesThat(doc, o, i))
  {
    hide OpenSince, ClosesThat;
    if i > 0 {
      MaskIff(doc, i - 1);
      OpenLonger(doc, i - 1, i);
    }
    if i < |doc| {
      MaskIs(doc, i);
    }
  }

  lemma OpenOneMore(doc: seq<Line>, o: nat, i: nat)
    requires o <= i < |doc|
    ensures OpenSince(doc, o, i + 1) <==>
            if o == i then doc[o].opens.Within? && FenceAt(doc, o).Outside?
            else OpenSince(doc, o, i) && !ClosesThat(doc, o, i)
  {
    hide FenceAt;
  }

  lemma ClosesOpened(doc: seq<Line>, o: nat, i: nat)
    requires o < i < |doc| && OpenSince(doc, o, i) && FenceAt(doc, i) == doc[o].opens
    ensures FenceAt(doc, i + 1) == if ClosesThat(doc, o, i) then Outside else FenceAt(doc, i)
  {
  }

  lemma OpenLonger(doc: seq<Line>, i: nat, j: nat)
    requires i < |doc| && j == i + 1
    requires FenceAt(doc, i).Within? <==> exists o | 0 <= o < i :: OpenSince(doc, o, i)
    requires forall o | 0 <= o < i && OpenSince(doc, o, i) :: FenceAt(doc, i) == doc[o].opens
    ensures FenceAt(doc, j).Within? <==> exists o | 0 <= o < j :: OpenSince(doc, o, j)
    ensures forall o | 0 <= o < j && OpenSince(doc, o, j) :: FenceAt(doc, j) == doc[o].opens
  {
    hide OpenSince, ClosesThat, FenceAt;
    forall o | 0 <= o < j
      ensures OpenSince(doc, o, j) <==>
              if o == i then doc[o].opens.Within? && FenceAt(doc, o).Outside?
              else OpenSince(doc, o, i) && !ClosesThat(doc, o, i)
    {
      OpenOneMore(doc, o, i);
    }
    forall o | 0 <= o < i && OpenSince(doc, o, i)
      ensures FenceAt(doc, j) == if ClosesThat(doc, o, i) then Outside else doc[o].opens
    {
      ClosesOpened(doc, o, i);
    }
    OpenedNow(doc, i);
    if o :| 0 <= o < i && OpenSince(doc, o, i) && !ClosesThat(doc, o, i) {
      assert OpenSince(doc, o, j);
    }
  }

  lemma OpenedNow(doc: seq<Line>, i: nat)
    requires i < |doc|
    ensures FenceAt(doc, i).Outside? ==> FenceAt(doc, i + 1) == doc[i].opens
  {
  }

  lemma MaskIs(doc: seq<Line>, i: nat)
    requires i < |doc|
    requires FenceAt(doc, i).Within? <==> exists o | 0 <= o < i :: OpenSince(doc, o, i)
    requires forall o | 0 <= o < i && OpenSince(doc, o, i) :: FenceAt(doc, i) == doc[o].opens
    ensures Mask(doc)[i] <==> exists o | 0 <= o < i :: OpenSince(doc, o, i) && !ClosesThat(doc, o, i)
  {
    forall o | 0 <= o < i && OpenSince(doc, o, i)
      ensures ClosesThat(doc, o, i) <==> ClosedBy(FenceAt(doc, i), doc[i])
    {
    }
    hide OpenSince, FenceAt;
  }

  // ----- a hunk as it is written -----

  /** The marker lines of `h` say what the sections of `c` say, all of one size. */
  predicate MarkedAs(doc: seq<Line>, h: Hunk, c: ConflictHunk, size: nat)
    requires InDoc(doc, h)
  {
    && IsMark(doc[h.start].text, "<<<<<<< SB sha256:", '<', Marker(c.kind, size, c.first.hash, c.first.tag))
    && (h.base.Some? <==> c.base.Some?)
    && (h.base.Some? ==>
          IsMark(doc[h.base.value].text, "||||||| SB BASE sha256:", '|',
                 Marker(c.kind, size, c.base.value.hash, c.base.value.tag)))
    && Reads(doc[h.sep].text, Repeated('=', size))
    && IsMark(doc[h.end].text, ">>>>>>> SB sha256:", '>', Marker(c.kind, size, c.second.hash, c.second.tag))
  }

  /** The text of a hunk is its start line, written out of the hash or label of the
      first section, that section, then likewise the base if there is one, the
      separator, the second section and the end line with what that one says. */
  lemma HunkIsWritten(doc: seq<Line>, h: Hunk)
    requires IsRead(doc) && h in Hunks(doc)
    ensures InDoc(doc, h) && exists size :: MarkedAs(doc, h, Located(doc, h), size)
    ensures var c, text := Located(doc, h), Join(Texts(doc));
            && c.from <= c.to <= |text|
            && text[c.from..c.to] ==
               (doc[h.start].text + "\n" + c.first.text) +
               (if h.base.Some? then doc[h.base.value].text + "\n" + c.base.value.text else "") +
               (doc[h.sep].text + "\n" + c.second.text) +
               doc[h.end].text + if h.end + 1 < |doc| then "\n" else ""
  {
    var mask := Mask(doc);
    HunksInDoc(doc, mask, 0);
    var i :| 0 <= i < |Hunks(doc)| && Hunks(doc)[i] == h;
    HunksAreExact(doc, mask, 0, i);
    ReadIsSane(doc);
    HunksAreClean(doc, mask, 0);
    assert Clean(doc, mask, h);
    HunkIsMarked(doc, h);
    HunkTilesText(doc, h);
  }

  lemma HunkIsMarked(doc: seq<Line>, h: Hunk)
    requires IsRead(doc) && Exact(doc, Mask(doc), h)
    ensures exists size :: MarkedAs(doc, h, Located(doc, h), size)
  {
    hide IsMark, Reads, ReadLine, ReadSection, HunkEnd, LineFrom, NoneHit, Mask;
    var m := doc[h.start].start.value;
    assert doc[h.start] in doc && doc[h.sep] in doc && doc[h.end] in doc;
    assert h.base.Some? ==> doc[h.base.value] in doc;
    MarkersIff(doc[h.start].text, m);
    MarkersIff(doc[h.end].text, doc[h.end].end.value);
    SeparatorIff(doc[h.sep].text, SizeOf(m));
    SBSize(doc[h.start].text, m);
    SectionsSay(doc, h);
    if h.base.Some? {
      MarkersIff(doc[h.base.value].text, doc[h.base.value].base.value);
    }
    assert MarkedAs(doc, h, Located(doc, h), SizeOf(m));
  }

  lemma SBSize(line: string, m: Marker)
    requires ReadLine(line).start == Some(m)
    ensures SizeOf(m) == m.size
  {
  }

  lemma SectionsSay(doc: seq<Line>, h: Hunk)
    requires InDoc(doc, h)
    ensures var c := Located(doc, h);
            && c.kind == h.kind && (h.base.Some? <==> c.base.Some?)
            && c.first.hash == doc[h.start].start.value.hash && c.first.tag == doc[h.start].start.value.tag
            && c.second.hash == doc[h.end].end.value.hash && c.second.tag == doc[h.end].end.value.tag
            && (h.base.Some? ==>
                  && c.base.value.hash == doc[h.base.value].base.value.hash
                  && c.base.value.tag == doc[h.base.value].base.value.tag)
  {
    hide LineFrom, LineTo, Join, Texts, HunkEnd;
  }

  /** Where the sections stand: each behind its marker line, up to the next. */
  lemma SectionsStand(doc: seq<Line>, h: Hunk)
    requires InDoc(doc, h)
    ensures var c := Located(doc, h);
            && c.first.from == c.from + |doc[h.start].text| + 1 && c.first.to == c.first.from + |c.first.text|
            && (c.base.Some? ==>
                  && c.base.value.from == c.first.to + |doc[h.base.value].text| + 1
                  && c.base.value.to == c.base.value.from + |c.base.value.text|)
            && c.second.from == (if c.base.Some? then c.base.value.to else c.first.to) + |doc[h.sep].text| + 1
            && c.second.to == c.second.from + |c.second.text|
            && c.to == c.second.to + |doc[h.end].text| + if h.end + 1 < |doc| then 1 else 0
  {
    var ls := Texts(doc);
    SectionStands(doc, h.start, FirstEnd(h), doc[h.start].start.value);
    SectionStands(doc, h.sep, h.end, doc[h.end].end.value);
    if h.base.Some? {
      SectionStands(doc, h.base.value, h.sep, doc[h.base.value].base.value);
    }
    HunkEndIs(doc, h.end);
    NextLine(ls, h.end);
    JoinLength(ls);
    hide ReadSection, HunkEnd, LineFrom, Join;
  }

  lemma SectionStands(doc: seq<Line>, a: nat, b: nat, m: Marker)
    requires a < b < |doc|
    ensures var s := ReadSection(doc, a, b, m);
            && s.from == LineFrom(Texts(doc), a) + |doc[a].text| + 1
            && s.to == LineFrom(Texts(doc), b) == s.from + |s.text|
  {
    NextLine(Texts(doc), a);
    LineSlice(Texts(doc), a + 1, b);
  }

  // ----- resolving -----

  /** Each action puts the lines between two markers in the place of the hunk:
      those up to the base or separator, those behind the separator, both, or
      those of the base, if there is one. */
  lemma ActionsMean(doc: seq<Line>, h: Hunk)
    requires InDoc(doc, h)
    ensures var ls, c := Texts(doc), Located(doc, h);
            var mine := Terminated(ls[h.start + 1..if h.base.Some? then h.base.value else h.sep]);
            var theirs := Terminated(ls[h.sep + 1..h.end]);
            && ResolveHunk(c, TakeFirst) == Some(Edit(c.from, c.to, mine))
            && ResolveHunk(c, TakeSecond) == Some(Edit(c.from, c.to, theirs))
            && ResolveHunk(c, TakeBoth) == Some(Edit(c.from, c.to, mine + theirs))
            && ResolveHunk(c, TakeBase) ==
               if h.base.None? then None
               else Some(Edit(c.from, c.to, Terminated(ls[h.base.value + 1..h.sep])))
  {
    SectionsHold(doc, h);
    hide Located, Texts, Terminated;
  }

  lemma SectionsHold(doc: seq<Line>, h: Hunk)
    requires InDoc(doc, h)
    ensures var ls, c := Texts(doc), Located(doc, h);
            && c.first.text == Terminated(ls[h.start + 1..if h.base.Some? then h.base.value else h.sep])
            && c.second.text == Terminated(ls[h.sep + 1..h.end])
            && (h.base.Some? <==> c.base.Some?)
            && (h.base.Some? ==> c.base.value.text == Terminated(ls[h.base.value + 1..h.sep]))
  {
    SectionText(doc, h.start, FirstEnd(h), doc[h.start].start.value);
    SectionText(doc, h.sep, h.end, doc[h.end].end.value);
    if h.base.Some? {
      SectionText(doc, h.base.value, h.sep, doc[h.base.value].base.value);
    }
    hide ReadSection, HunkEnd, LineFrom, Terminated;
  }

  // ----- SB hunks by their lines -----

  predicate IsGitStart(line: string, n: nat) {
    line == Repeated('<', n) || line == Repeated('<', n) + "\r" || Repeated('<', n) + " " <= line
  }

  /** The line starts a conflict of either kind. */
  predicate StartsConflict(line: string) {
    "<<<<<<< SB sha256:" <= line || exists n | 3 <= n <= 256 :: IsGitStart(line, n)
  }

  /** A start, base, separator and end line, with no further start between them
      and each the first of its kind. */
  predicate SBHunkAt(lines: seq<string>, s: nat, b: nat, p: nat, e: nat) {
    && s < b < p < e < |lines|
    && "<<<<<<< SB sha256:" <= lines[s] && "||||||| SB BASE sha256:" <= lines[b]
    && Reads(lines[p], "=======") && ">>>>>>> SB sha256:" <= lines[e]
    && (forall l | s < l < e :: !StartsConflict(lines[l]))
    && (forall l | s < l < b :: !("||||||| SB BASE sha256:" <= lines[l]))
    && (forall l | b < l < p :: !Reads(lines[l], "======="))
    && (forall l | p < l < e :: !(">>>>>>> SB sha256:" <= lines[l]))
  }

  lemma SBMarksIff(line: string)
    ensures var l := ReadLine(line);
            && (IsMarker(l.start, Some(SB), 7) <==> "<<<<<<< SB sha256:" <= line)
            && (IsMarker(l.base, Some(SB), 7) <==> "||||||| SB BASE sha256:" <= line)
            && (IsMarker(l.end, Some(SB), 7) <==> ">>>>>>> SB sha256:" <= line)
            && (l.start.Some? ==> (l.start.value.kind.SB? <==> "<<<<<<< SB sha256:" <= line))
  {
    hide RunOf, Opens, Closes, MatchSeparator, StripTrailingCR;
    PrefixOfStripped(line, "<<<<<<< SB sha256:");
    PrefixOfStripped(line, "||||||| SB BASE sha256:");
    PrefixOfStripped(line, ">>>>>>> SB sha256:");
  }

  lemma StartIff(line: string)
    ensures ReadLine(line).start.Some? <==> StartsConflict(line)
  {
    hide ReadLine, Reads, StripTrailingCR, Repeated;
    SBMarksIff(line);
    if ReadLine(line).start.Some? && !("<<<<<<< SB sha256:" <= line) {
      var m := ReadLine(line).start.value;
      MarkersIff(line, m);
      MarkIsGitStart(line, m);
    }
    if n :| 3 <= n <= 256 && IsGitStart(line, n) && !("<<<<<<< SB sha256:" <= line) {
      var m := GitStartIsMark(line, n);
      MarkersIff(line, m);
    }
  }

  lemma MarkIsGitStart(line: string, m: Marker)
    requires IsGitMark(line, '<', m)
    ensures IsGitStart(line, m.size)
  {
  }

  lemma GitStartIsMark(line: string, n: nat) returns (m: Marker)
    requires 3 <= n <= 256 && IsGitStart(line, n)
    ensures IsGitMark(line, '<', m)
  {
    var run := Repeated('<', n);
    if run + " " <= line {
      var rest := line[n + 1..];
      assert line == run + " " + rest;
      m := Marker(Git, n, "", Some(StripTrailingCR(rest)));
      if rest != "" && rest[|rest| - 1] == '\r' {
        assert rest == StripTrailingCR(rest) + "\r";
        Assoc(run + " ", StripTrailingCR(rest), "\r");
      } else {
        ReadsStripped(line, run + " " + rest);
      }
    } else {
      m := Marker(Git, n, "", Some(""));
    }
  }

  lemma SevenIff(line: string)
    ensures ReadLine(line).separator == Some(7) <==> Reads(line, "=======")
  {
    hide Reads, ReadLine;
    SeparatorIff(line, 7);
    assert Repeated('=', 7) == "=======";
  }

  lemma {:induction false} ScanHits(doc: seq<Line>, mask: seq<bool>, from: nat, respect: bool, t: Target, l: nat)
    requires |mask| == |doc| && from <= l < |doc| && NoStarts(doc, mask, respect, from, l)
    requires NoneHit(doc, mask, respect, t, from, l) && !(respect && mask[l]) && Hits(doc[l], t)
    ensures Scan(doc, mask, from, respect, t) == Hit(l)
    decreases l - from
  {
    hide Hits;
    if from < l {
      ScanHits(doc, mask, from + 1, respect, t, l);
    }
  }

  /** What the lines of a document are, for a scan that does not respect fences. */
  lemma LinesSay(doc: seq<Line>)
    requires IsRead(doc)
    ensures forall l | 0 <= l < |doc| ::
              var line := Texts(doc)[l];
              && (doc[l].start.Some? <==> StartsConflict(line))
              && (IsMarker(doc[l].start, Some(SB), 7) <==> "<<<<<<< SB sha256:" <= line)
              && (doc[l].start.Some? && doc[l].start.value.kind.SB? ==> "<<<<<<< SB sha256:" <= line)
              && (IsMarker(doc[l].base, Some(SB), 7) <==> "||||||| SB BASE sha256:" <= line)
              && (IsMarker(doc[l].end, Some(SB), 7) <==> ">>>>>>> SB sha256:" <= line)
              && (doc[l].separator == Some(7) <==> Reads(line, "======="))
  {
    hide StartsConflict, IsMarker, Reads, ReadLine;
    forall l | 0 <= l < |doc|
      ensures var line := Texts(doc)[l];
              && (doc[l].start.Some? <==> StartsConflict(line))
              && (IsMarker(doc[l].start, Some(SB), 7) <==> "<<<<<<< SB sha256:" <= line)
              && (doc[l].start.Some? && doc[l].start.value.kind.SB? ==> "<<<<<<< SB sha256:" <= line)
              && (IsMarker(doc[l].base, Some(SB), 7) <==> "||||||| SB BASE sha256:" <= line)
              && (IsMarker(doc[l].end, Some(SB), 7) <==> ">>>>>>> SB sha256:" <= line)
              && (doc[l].separator == Some(7) <==> Reads(line, "======="))
    {
      assert doc[l] in doc;
      SBMarksIff(doc[l].text);
      StartIff(doc[l].text);
      SevenIff(doc[l].text);
    }
  }

  /** The markers of an SB hunk are read at a line exactly if they are written
      there. */
  lemma SBHunkReadIff(doc: seq<Line>, s: nat, b: nat, p: nat, e: nat)
    requires IsRead(doc) && s < |doc|
    ensures ParseAt(doc, Mask(doc), s) == Parsed(Hunk(SB, s, Some(b), p, e)) <==> SBHunkAt(Texts(doc), s, b, p, e)
  {
    hide ParseAt, StartsConflict, Reads, ReadLine;
    LinesSay(doc);
    if ParseAt(doc, Mask(doc), s) == Parsed(Hunk(SB, s, Some(b), p, e)) {
      ReadIsSane(doc);
      ParsedIsClean(doc, Mask(doc), s);
      ParsedIsExact(doc, Mask(doc), s);
      CleanSBIsWritten(doc, s, b, p, e);
    }
    if SBHunkAt(Texts(doc), s, b, p, e) {
      WrittenSBIsRead(doc, s, b, p, e);
    }
  }

  lemma CleanSBIsWritten(doc: seq<Line>, s: nat, b: nat, p: nat, e: nat)
    requires IsRead(doc)
    requires Clean(doc, Mask(doc), Hunk(SB, s, Some(b), p, e)) && Exact(doc, Mask(doc), Hunk(SB, s, Some(b), p, e))
    ensures SBHunkAt(Texts(doc), s, b, p, e)
  {
    hide StartsConflict, Reads, ReadLine, Mask;
    LinesSay(doc);
  }

  lemma EndIsNoStart(line: string)
    requires ">>>>>>> SB sha256:" <= line
    ensures ReadLine(line).start.None?
  {
    hide Opens, Closes, MatchSeparator;
    PrefixOfStripped(line, ">>>>>>> SB sha256:");
    NoRun(StripTrailingCR(line), '<');
  }

  lemma LineIs(doc: seq<Line>, l: nat)
    requires IsRead(doc) && l < |doc|
    ensures doc[l] == ReadLine(Texts(doc)[l])
  {
    assert doc[l] in doc;
  }

  lemma NoStartsInside(doc: seq<Line>, s: nat, b: nat, p: nat, e: nat)
    requires IsRead(doc) && SBHunkAt(Texts(doc), s, b, p, e)
    ensures e < |doc| && NoStarts(doc, Mask(doc), false, s + 1, e)
  {
    hide StartsConflict, Reads, ReadLine, Mask, IsRead;
    forall l | s + 1 <= l <= e ensures doc[l].start.None? {
      LineIs(doc, l);
      StartIff(Texts(doc)[l]);
      if l == e {
        EndIsNoStart(Texts(doc)[l]);
      }
    }
  }

  /** What a line is for the scans that read an SB hunk. */
  lemma LineHits(doc: seq<Line>, l: nat)
    requires IsRead(doc) && l < |doc|
    ensures var line := Texts(doc)[l];
            && (Hits(doc[l], Target(Some(SB), false, None, 7)) <==> "||||||| SB BASE sha256:" <= line)
            && (Hits(doc[l], Target(None, true, None, 7)) <==> Reads(line, "======="))
            && (Hits(doc[l], Target(None, false, Some(SB), 7)) <==> ">>>>>>> SB sha256:" <= line)
            && (IsMarker(doc[l].start, Some(SB), 7) <==> "<<<<<<< SB sha256:" <= line)
  {
    hide Reads, ReadLine, IsRead;
    LineIs(doc, l);
    SBMarksIff(Texts(doc)[l]);
    SevenIff(Texts(doc)[l]);
  }

  /** The three scans that start at an SB start line. */
  lemma ScansAtSB(doc: seq<Line>, mask: seq<bool>, s: nat, b: nat, p: nat, e: nat)
    requires |mask| == |doc| && s < b < p < e < |doc| && IsMarker(doc[s].start, Some(SB), 7)
    requires Scan(doc, mask, s + 1, false, Target(Some(SB), false, None, 7)) == Hit(b)
    requires Scan(doc, mask, b + 1, false, Target(None, true, None, 7)) == Hit(p)
    requires Scan(doc, mask, p + 1, false, Target(None, false, Some(SB), 7)) == Hit(e)
    ensures ParseAt(doc, mask, s) == Parsed(Hunk(SB, s, Some(b), p, e))
  {
    hide Scan;
  }

  lemma ScanTo(doc: seq<Line>, mask: seq<bool>, from: nat, t: Target, l: nat)
    requires |mask| == |doc| && from <= l < |doc| && NoStarts(doc, mask, false, from, l)
    requires (forall q | from <= q < l :: !Hits(doc[q], t)) && Hits(doc[l], t)
    ensures Scan(doc, mask, from, false, t) == Hit(l)
  {
    hide Scan, Hits;
    ScanHits(doc, mask, from, false, t, l);
  }

  lemma BaseIsFirst(lines: seq<string>, s: nat, b: nat, p: nat, e: nat)
    requires SBHunkAt(lines, s, b, p, e)
    ensures s < b < p < e < |lines| && "<<<<<<< SB sha256:" <= lines[s] && "||||||| SB BASE sha256:" <= lines[b]
    ensures forall l | s < l < b :: !("||||||| SB BASE sha256:" <= lines[l])
  {
    hide StartsConflict, Reads;
  }

  lemma NoBaseHits(doc: seq<Line>, s: nat, b: nat)
    requires IsRead(doc) && s < b < |doc| && "<<<<<<< SB sha256:" <= Texts(doc)[s]
    requires "||||||| SB BASE sha256:" <= Texts(doc)[b]
    requires forall l | s < l < b :: !("||||||| SB BASE sha256:" <= Texts(doc)[l])
    ensures forall l | s < l < b :: !Hits(doc[l], Target(Some(SB), false, None, 7))
    ensures IsMarker(doc[s].start, Some(SB), 7) && Hits(doc[b], Target(Some(SB), false, None, 7))
  {
    hide *;
    forall l | s < l < b ensures !Hits(doc[l], Target(Some(SB), false, None, 7)) {
      LineHits(doc, l);
    }
    LineHits(doc, s);
    LineHits(doc, b);
  }

  lemma BaseScan(doc: seq<Line>, s: nat, b: nat, p: nat, e: nat)
    requires IsRead(doc) && SBHunkAt(Texts(doc), s, b, p, e)
    ensures s < b < p < e < |doc| && IsMarker(doc[s].start, Some(SB), 7)
    ensures Scan(doc, Mask(doc), s + 1, false, Target(Some(SB), false, None, 7)) == Hit(b)
  {
    hide *;
    NoStartsInside(doc, s, b, p, e);
    BaseIsFirst(Texts(doc), s, b, p, e);
    NoBaseHits(doc, s, b);
    FewerStarts(doc, Mask(doc), s + 1, b, e);
    ScanTo(doc, Mask(doc), s + 1, Target(Some(SB), false, None, 7), b);
  }

  lemma FewerStarts(doc: seq<Line>, mask: seq<bool>, a: nat, b: nat, c: nat)
    requires |mask| == |doc| && b <= c < |doc| && NoStarts(doc, mask, false, a, c)
    ensures forall d | d >= a :: NoStarts(doc, mask, false, d, b)
  {
    hide IsNestedStart;
  }

  lemma SeparatorIsFirst(lines: seq<string>, s: nat, b: nat, p: nat, e: nat)
    requires SBHunkAt(lines, s, b, p, e)
    ensures s < b < p < e < |lines| && Reads(lines[p], "=======")
    ensures forall l | b < l < p :: !Reads(lines[l], "=======")
  {
    hide StartsConflict, Reads;
  }

  lemma SeparatorScan(doc: seq<Line>, s: nat, b: nat, p: nat, e: nat)
    requires IsRead(doc) && SBHunkAt(Texts(doc), s, b, p, e)
    ensures Scan(doc, Mask(doc), b + 1, false, Target(None, true, None, 7)) == Hit(p)
  {
    hide *;
    NoStartsInside(doc, s, b, p, e);
    SeparatorIsFirst(Texts(doc), s, b, p, e);
    forall q | b < q < p ensures !Hits(doc[q], Target(None, true, None, 7)) {
      LineHits(doc, q);
    }
    LineHits(doc, p);
    FewerStarts(doc, Mask(doc), s + 1, p, e);
    ScanTo(doc, Mask(doc), b + 1, Target(None, true, None, 7), p);
  }

  lemma EndIsFirst(lines: seq<string>, s: nat, b: nat, p: nat, e: nat)
    requires SBHunkAt(lines, s, b, p, e)
    ensures s < b < p < e < |lines| && ">>>>>>> SB sha256:" <= lines[e]
    ensures forall l | p < l < e :: !(">>>>>>> SB sha256:" <= lines[l])
  {
    hide StartsConflict, Reads;
  }

  lemma EndScan(doc: seq<Line>, s: nat, b: nat, p: nat, e: nat)
    requires IsRead(doc) && SBHunkAt(Texts(doc), s, b, p, e)
    ensures Scan(doc, Mask(doc), p + 1, false, Target(None, false, Some(SB), 7)) == Hit(e)
  {
    hide *;
    NoStartsInside(doc, s, b, p, e);
    EndIsFirst(Texts(doc), s, b, p, e);
    forall q | p < q < e ensures !Hits(doc[q], Target(None, false, Some(SB), 7)) {
      LineHits(doc, q);
    }
    LineHits(doc, e);
    FewerStarts(doc, Mask(doc), s + 1, e, e);
    ScanTo(doc, Mask(doc), p + 1, Target(None, false, Some(SB), 7), e);
  }

  lemma WrittenSBIsRead(doc: seq<Line>, s: nat, b: nat, p: nat, e: nat)
    requires IsRead(doc) && SBHunkAt(Texts(doc), s, b, p, e)
    ensures s < |doc| && ParseAt(doc, Mask(doc), s) == Parsed(Hunk(SB, s, Some(b), p, e))
  {
    hide *;
    BaseScan(doc, s, b, p, e);
    SeparatorScan(doc, s, b, p, e);
    EndScan(doc, s, b, p, e);
    ScansAtSB(doc, Mask(doc), s, b, p, e);
  }

  /** An SB hunk is found exactly where the lines of one are written, at a start
      line that is not passed over. */
  lemma SBHunkFoundIff(doc: seq<Line>, s: nat, b: nat, p: nat, e: nat)
    requires IsRead(doc)
    ensures Hunk(SB, s, Some(b), p, e) in Hunks(doc) <==>
            s < |doc| && SBHunkAt(Texts(doc), s, b, p, e) && !PassedOver(doc, Mask(doc), s)
  {
    hide *;
    HunksAreComplete(doc, Hunk(SB, s, Some(b), p, e));
    if s < |doc| {
      SBHunkReadIff(doc, s, b, p, e);
    }
  }

  ghost predicate HasSBHunk(doc: seq<Line>) {
    exists s: nat, b: nat, p: nat, e: nat ::
      s < |doc| && SBHunkAt(Texts(doc), s, b, p, e) && !PassedOver(doc, Mask(doc), s)
  }

  /** A document holds an SB hunk exactly if the lines of one are written in it,
      at a start line that is not passed over. */
  lemma HasSBHunkIff(doc: seq<Line>)
    requires IsRead(doc)
    ensures (exists h <- Hunks(doc) :: h.kind.SB?) <==> HasSBHunk(doc)
  {
    hide Hunks, PassedOver, SBHunkAt, Mask, Texts;
    if h :| h in Hunks(doc) && h.kind.SB? {
      SBHunkIs(doc, h);
      SBHunkFoundIff(doc, h.start, h.base.value, h.sep, h.end);
    }
    if s: nat, b: nat, p: nat, e: nat
      :| s < |doc| && SBHunkAt(Texts(doc), s, b, p, e) && !PassedOver(doc, Mask(doc), s) {
      SBHunkFoundIff(doc, s, b, p, e);
    }
  }

  lemma SBHunkIs(doc: seq<Line>, h: Hunk)
    requires IsRead(doc) && h in Hunks(doc) && h.kind.SB?
    ensures h.start < |doc| && h.base.Some?
  {
    ReadIsSane(doc);
    HunksAreClean(doc, Mask(doc), 0);
    assert Clean(doc, Mask(doc), h);
  }

  /** One that no start line stands in front of is not passed over. */
  lemma FirstIsNotPassedOver(doc: seq<Line>, s: nat)
    requires IsRead(doc) && s < |doc| && forall l | 0 <= l < s :: !StartsConflict(Texts(doc)[l])
    ensures !PassedOver(doc, Mask(doc), s)
  {
    hide StartsConflict, Reads, ReadLine, ParseAt, Mask;
    LinesSay(doc);
  }

  // ----- every hunk that is found -----

  /** The markers of `h` can be read as one hunk: no start marker among them, and
      each of its size and kind the first behind the one before. */
  ghost predicate Readable(doc: seq<Line>, h: Hunk) {
    Clean(doc, Mask(doc), h) && Exact(doc, Mask(doc), h)
  }

  lemma NoBothMarks(line: string, n: nat)
    requires ReadLine(line).base.Some? && n > 0
    ensures ReadLine(line).separator != Some(n)
  {
    hide Opens, Closes;
    var s := StripTrailingCR(line);
    PrefixOfStripped(line, "||||||| SB BASE sha256:");
    if s != "" && s[0] == '|' {
      NoRun(s, '=');
    } else {
      NoRun(s, '|');
    }
  }

  lemma ScanToHit(doc: seq<Line>, mask: seq<bool>, git: bool, from: nat, t: Target, l: nat, e: nat)
    requires |mask| == |doc| && from <= l <= e < |doc| && NoStarts(doc, mask, git, from, e)
    requires NoneHit(doc, mask, git, t, from, l) && Hits(doc[l], t) && (git ==> !mask[l])
    ensures Scan(doc, mask, from, git, t) == Hit(l)
  {
    hide Scan, Hits, NoneHit;
    assert NoStarts(doc, mask, git, from, l);
    ScanHits(doc, mask, from, git, t, l);
  }

  lemma StartsFewer(doc: seq<Line>, mask: seq<bool>, git: bool, a: nat, b: nat, c: nat)
    requires |mask| == |doc| && a <= b && c < |doc| && NoStarts(doc, mask, git, a, c)
    ensures NoStarts(doc, mask, git, b, c)
  {
    hide IsNestedStart;
  }

  lemma FinishReads(doc: seq<Line>, mask: seq<bool>, h: Hunk)
    requires |mask| == |doc| && Clean(doc, mask, h) && Exact(doc, mask, h)
    ensures FinishHunk(doc, mask, h.start, doc[h.start].start.value, h.base, h.sep) == Parsed(h)
  {
    hide Scan, NoneHit, NoStarts;
    var m := doc[h.start].start.value;
    StartsFewer(doc, mask, m.kind.Git?, h.start + 1, h.sep + 1, h.end);
    ScanToHit(doc, mask, m.kind.Git?, h.sep + 1, EndTarget(m), h.end, h.end);
  }

  lemma SeparatorReads(doc: seq<Line>, mask: seq<bool>, h: Hunk)
    requires |mask| == |doc| && Clean(doc, mask, h) && Exact(doc, mask, h) && h.base.Some?
    ensures FindSeparator(doc, mask, h.start, doc[h.start].start.value, h.base.value) == Parsed(h)
  {
    hide Scan, NoneHit, NoStarts, FinishHunk;
    var m := doc[h.start].start.value;
    StartsFewer(doc, mask, m.kind.Git?, h.start + 1, h.base.value + 1, h.end);
    ScanToHit(doc, mask, m.kind.Git?, h.base.value + 1, SepTarget(m), h.sep, h.end);
    FinishReads(doc, mask, h);
  }

  lemma ReadableIsRead(doc: seq<Line>, h: Hunk)
    requires IsRead(doc) && Readable(doc, h)
    ensures h.start < |doc| && ParseAt(doc, Mask(doc), h.start) == Parsed(h)
  {
    hide Scan, NoneHit, NoStarts, FinishHunk, FindSeparator, Mask, ReadLine, IsRead;
    var mask, m := Mask(doc), doc[h.start].start.value;
    assert h.start + 1 <= FirstEnd(h) <= h.end;
    SizeIs(doc, h);
    ScanToHit(doc, mask, m.kind.Git?, h.start + 1, BaseTarget(m), FirstEnd(h), h.end);
    if h.base.Some? {
      LineIs(doc, h.base.value);
      if m.kind.Git? {
        NoBothMarks(Texts(doc)[h.base.value], m.size);
      }
      SeparatorReads(doc, mask, h);
    } else {
      FinishReads(doc, mask, h);
    }
  }

  lemma SizeIs(doc: seq<Line>, h: Hunk)
    requires IsRead(doc) && InDoc(doc, h)
    ensures doc[h.start].start.value.size >= 3
  {
    ReadIsSane(doc);
    assert Sane(doc[h.start]);
  }

  /** Exactly the hunks that can be read are found, where the start line is not
      passed over. */
  lemma FoundIff(doc: seq<Line>, h: Hunk)
    requires IsRead(doc)
    ensures h in Hunks(doc) <==> Readable(doc, h) && !PassedOver(doc, Mask(doc), h.start)
  {
    hide ParseAt, PassedOver, Hunks, IsRead, Clean, Exact, Mask;
    HunksAreComplete(doc, h);
    if Readable(doc, h) {
      ReadableIsRead(doc, h);
    }
    if h.start < |doc| && ParseAt(doc, Mask(doc), h.start) == Parsed(h) {
      ReadIsSane(doc);
      ParsedIsClean(doc, Mask(doc), h.start);
      ParsedIsExact(doc, Mask(doc), h.start);
    }
  }

  // ----- start lines passed over -----

  lemma {:induction false} ScanMeets(doc: seq<Line>, mask: seq<bool>, from: nat, respect: bool, t: Target, l: nat)
    requires |mask| == |doc| && from <= l < |doc| && IsNestedStart(doc[l], mask[l], respect)
    requires forall q | from <= q < l :: !IsNestedStart(doc[q], mask[q], respect)
    ensures var r := Scan(doc, mask, from, respect, t); r == Nested(l) || (r.Hit? && r.line < l)
    decreases l - from
  {
    hide IsNestedStart, Hits;
    if from < l {
      ScanMeets(doc, mask, from + 1, respect, t, l);
    }
  }

  /** Line `l` is the first behind `n` that stops the scan for the hunk that starts
      at `n`. */
  ghost predicate FirstStop(doc: seq<Line>, mask: seq<bool>, n: nat, l: nat)
    requires |mask| == |doc| && n < l < |doc| && doc[n].start.Some?
  {
    var git := doc[n].start.value.kind.Git?;
    IsNestedStart(doc[l], mask[l], git) && forall q | n < q < l :: !IsNestedStart(doc[q], mask[q], git)
  }

  /** The scan gets there unless it finds the hunk whole before. */
  lemma GetsThere(doc: seq<Line>, mask: seq<bool>, n: nat, l: nat)
    requires |mask| == |doc| && n < l < |doc| && IsStart(doc, mask, n) && FirstStop(doc, mask, n, l)
    ensures var r := ParseAt(doc, mask, n); r.Parsed? || r == Resume(l + 1)
  {
    hide Scan, IsNestedStart;
    StartIsTried(doc, mask, n);
    var m := doc[n].start.value;
    var git := m.kind.Git?;
    ScanMeets(doc, mask, n + 1, git, BaseTarget(m), l);
    var base := Scan(doc, mask, n + 1, git, BaseTarget(m));
    if base.Hit? {
      if git && doc[base.line].separator == Some(m.size) {
        ScanMeets(doc, mask, base.line + 1, git, EndTarget(m), l);
      } else {
        ScanMeets(doc, mask, base.line + 1, git, SepTarget(m), l);
        var sep := Scan(doc, mask, base.line + 1, git, SepTarget(m));
        if sep.Hit? {
          ScanMeets(doc, mask, sep.line + 1, git, EndTarget(m), l);
        }
      }
    }
  }

  lemma StartIsTried(doc: seq<Line>, mask: seq<bool>, n: nat)
    requires |mask| == |doc| && n < |doc| && IsStart(doc, mask, n)
    ensures doc[n].start.Some? && ParseAt(doc, mask, n) == ParseFrom(doc, mask, n, doc[n].start.value)
  {
    hide ParseFrom;
  }

  /** A start line stops the scan of the hunk that starts at the one before exactly
      if that hunk cannot be read, and, where fences do not count, no line between
      looks like a start. */
  lemma StopsIff(doc: seq<Line>, p: nat, l: nat)
    requires IsRead(doc) && p < l < |doc| && IsStart(doc, Mask(doc), p) && IsStart(doc, Mask(doc), l)
    requires StartsNone(doc, Mask(doc), p + 1, l)
    ensures ParseAt(doc, Mask(doc), p) == Resume(l + 1) <==>
            && (forall h: Hunk :: h.start == p ==> !Readable(doc, h))
            && (doc[p].start.value.kind.SB? ==> forall q | p < q < l :: doc[q].start.None?)
  {
    hide ParseAt, Mask, IsRead, Clean, Exact;
    var mask := Mask(doc);
    forall h: Hunk | h.start == p && Readable(doc, h) ensures ParseAt(doc, mask, p) == Parsed(h) {
      ReadableIsRead(doc, h);
    }
    StartIsTried(doc, mask, p);
    var l' := FirstStopOf(doc, mask, p, l);
    GetsThere(doc, mask, p, l');
    var r := ParseAt(doc, mask, p);
    if r.Parsed? {
      ReadIsSane(doc);
      ParsedIsClean(doc, mask, p);
      ParsedIsExact(doc, mask, p);
      assert Readable(doc, r.hunk);
    }
  }

  lemma FirstStopOf(doc: seq<Line>, mask: seq<bool>, p: nat, l: nat) returns (l': nat)
    requires |mask| == |doc| && p < l < |doc| && IsStart(doc, mask, p) && IsStart(doc, mask, l)
    requires StartsNone(doc, mask, p + 1, l)
    ensures p < l' <= l && FirstStop(doc, mask, p, l')
    ensures l' == l <==> (doc[p].start.value.kind.SB? ==> forall q | p < q < l :: doc[q].start.None?)
  {
    if doc[p].start.value.kind.Git? {
      l' := l;
      forall q | p < q < l ensures !IsNestedStart(doc[q], mask[q], true) {
        assert !IsStart(doc, mask, q);
      }
    } else {
      l' := p + 1;
      while l' < l && doc[l'].start.None?
        invariant p < l' <= l && forall q | p < q < l' :: doc[q].start.None?
      {
        l' := l' + 1;
      }
    }
  }
}
