/** Resolving a hunk in the text: the editor changes the text and reads it again,
    and finds the resolved document. */
module ConflictTexts {
  import opened Text
  import opened MarkerLines
  import opened ConflictMarkers
  import opened ConflictHunks
  import opened ConflictResolution
  import opened ConflictOffsets
  import opened FencesDecide

  /** The lines of a text, as the scan reads them. */
  function Document(text: string): seq<Line> {
    ReadLines(SplitLines(text))
  }

  /** The text with an edit applied. */
  function Edited(text: string, e: Edit): string
    requires e.from <= e.to <= |text|
  {
    text[..e.from] + e.insert + text[e.to..]
  }

  /** A document, read from its own text, is itself. */
  lemma DocumentOfText(doc: seq<Line>)
    requires IsRead(doc) && IsDoc(Texts(doc))
    ensures Document(Join(Texts(doc))) == doc
  {
    hide ReadLine;
    SplitOfJoin(Texts(doc));
    hide Join, SplitLines;
    forall i | 0 <= i < |doc| ensures doc[i] == ReadLine(doc[i].text) {
      LineIsRead(doc, i);
    }
  }

  /** Any text is read as such a document, and is its text. */
  lemma TextOfDocument(text: string)
    ensures var doc := Document(text); IsRead(doc) && IsDoc(Texts(doc)) && Join(Texts(doc)) == text
  {
    hide MatchStart, MatchBase, MatchSeparator, MatchEnd, Opens, Closes;
    JoinOfSplit(text);
    hide SplitLines, Join;
    assert Texts(Document(text)) == SplitLines(text);
  }

  lemma ResolvedIsDoc(doc: seq<Line>, h: Hunk, action: Action)
    requires IsRead(doc) && IsDoc(Texts(doc)) && InDoc(doc, h) && Allowed(h, action)
    ensures IsDoc(Texts(Resolved(doc, h, action)))
  {
    hide ReadLine, Resolved;
    var doc' := Resolved(doc, h, action);
    BlankReads();
    forall l | 0 <= l < |doc'| ensures '\n' !in doc'[l].text {
      ResolvedFrom(doc, h, action, l);
      if doc'[l] in doc {
        var i :| 0 <= i < |doc| && doc[i] == doc'[l];
        assert Texts(doc)[i] in Texts(doc);
      } else {
        BlankText();
      }
    }
  }

  lemma BlankText()
    ensures ReadLine("").text == ""
  {
  }

  /** Resolving a hunk of a text by its edit gives a text that is read as the
      resolved document. */
  lemma EditedIsResolved(text: string, h: Hunk, action: Action)
    requires InDoc(Document(text), h) && Allowed(h, action)
    ensures var e := ResolveHunk(Located(Document(text), h), action);
            && e.Some? && e.value.from <= e.value.to <= |text|
            && Document(Edited(text, e.value)) == Resolved(Document(text), h, action)
  {
    hide *;
    var doc := Document(text);
    TextOfDocument(text);
    ResolvedText(doc, h, action);
    ResolvedIsRead(doc, h, action);
    ResolvedIsDoc(doc, h, action);
    DocumentOfText(Resolved(doc, h, action));
    EditedIs(text, ResolveHunk(Located(doc, h), action).value);
  }

  lemma EditedIs(text: string, e: Edit)
    requires e.from <= e.to <= |text|
    ensures Edited(text, e) == text[..e.from] + e.insert + text[e.to..]
  {
  }

  /** So the hunks found in the edited text are exactly the others, each with its
      kind and sections, in place or moved by the growth of the text. */
  lemma EditedTextHoldsOthers(text: string, i: nat, action: Action)
    requires i < |Hunks(Document(text))| && Allowed(Hunks(Document(text))[i], action)
    ensures InDoc(Document(text), Hunks(Document(text))[i])
    ensures var doc, h := Document(text), Hunks(Document(text))[i];
            var e := ResolveHunk(Located(doc, h), action);
            && e.Some? && e.value.from <= e.value.to <= |text|
            && (FencesSettled(doc, h, action) ==> HoldsOthers(doc, Document(Edited(text, e.value)), i, e.value))
  {
    hide *;
    var doc := Document(text);
    TextOfDocument(text);
    HunkIsClean(doc, i);
    var h := Hunks(doc)[i];
    EditedIsResolved(text, h, action);
    if FencesSettled(doc, h, action) {
      ResolvedHoldsOthers(doc, i, h, action);
    }
  }

  /** The hunks of `doc'` are those of `doc` but for hunk `i`, those after it
      further on by what the edit adds. */
  ghost predicate HoldsOthers(doc: seq<Line>, doc': seq<Line>, i: nat, e: Edit)
    requires i < |Hunks(doc)|
  {
    && |Hunks(doc')| == |Hunks(doc)| - 1
    && forall j: nat | j < |Hunks(doc)| && j != i ::
         FoundAgain(doc, Hunks(doc)[j], doc', Hunks(doc')[if j < i then j else j - 1],
                    if j < i then 0 else |e.insert| - (e.to - e.from))
  }

  lemma ResolvedHoldsOthers(doc: seq<Line>, i: nat, h: Hunk, action: Action)
    requires IsRead(doc) && i < |Hunks(doc)| && h == Hunks(doc)[i] && Allowed(h, action) && InDoc(doc, h)
    requires FencesSettled(doc, h, action)
    ensures ResolveHunk(Located(doc, h), action).Some?
    ensures HoldsOthers(doc, Resolved(doc, h, action), i, ResolveHunk(Located(doc, h), action).value)
  {
    hide Hunks, Located, Resolved, FencesSettled, IsRead, Growth, InDoc, FoundAgain, ResolveHunk, OthersKept;
    GrowthOfEdit(doc, h, action);
    ResolvedCount(doc, i, h, action);
    forall j: nat | j < |Hunks(doc)| && j != i
      ensures FoundAgain(doc, Hunks(doc)[j], Resolved(doc, h, action),
                         Hunks(Resolved(doc, h, action))[if j < i then j else j - 1],
                         if j < i then 0 else Growth(doc, h, action))
    {
      HunkIsClean(doc, j);
      ResolveMovesOthers(doc, i, j, action, h, Hunks(doc)[j]);
    }
  }

  lemma ResolvedCount(doc: seq<Line>, i: nat, h: Hunk, action: Action)
    requires IsRead(doc) && i < |Hunks(doc)| && h == Hunks(doc)[i] && Allowed(h, action) && InDoc(doc, h)
    requires FencesSettled(doc, h, action)
    ensures |Hunks(Resolved(doc, h, action))| == |Hunks(doc)| - 1
  {
    hide Hunks, Resolved, FencesSettled, IsRead, InDoc, Shift;
    ResolveKeepsOthers(doc, i, action);
  }

  /** Resolving hunks of a text by their edits, reading it again each time, in any
      order and by any allowed actions, ends with none left: in texts without
      fence lines, or without git start lines. */
  ghost function AllResolved(text: string, choose: Chooser): (r: string)
    requires Plain(Document(text)) && Chooses(choose)
    ensures Hunks(Document(r)) == []
    decreases |Hunks(Document(text))|
  {
    var doc := Document(text);
    TextOfDocument(text);
    if Hunks(doc) == [] then text
    else
      var h, action := Hunks(doc)[choose(doc).0], choose(doc).1;
      HunkIsClean(doc, choose(doc).0);
      EditedIsResolved(text, h, action);
      PlainSettles(doc, h, action);
      ResolvedCount(doc, choose(doc).0, h, action);
      AllResolved(Edited(text, ResolveHunk(Located(doc, h), action).value), choose)
  }
}
