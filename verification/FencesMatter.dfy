/** Why resolving an SB hunk asks about fences: a document in which it uncovers
    a git hunk that a fence inside the SB hunk had hidden. */
module FencesMatter {
  import opened Text
  import opened MarkerLines
  import opened ConflictMarkers
  import opened ConflictHunks
  import opened ConflictResolution

  lemma {:induction false} RunAll(s: string, c: char)
    requires forall i | 0 <= i < |s| :: s[i] == c
    ensures RunOf(s, c) == |s|
  {
    if s != "" {
      RunAll(s[1..], c);
    }
  }

  lemma WholePrefix(p: string, c: char)
    requires p != "" && p[|p| - 1] != '\r'
    ensures MatchMarker(p, p, c) == Some(Marker(SB, 7, "", None))
  {
    assert StripTrailingCR(p) == p && p[|p|..] == "";
  }

  lemma NotMarker(text: string, prefix: string, c: char)
    requires text != "" && text[|text| - 1] != '\r' && text[0] != c && prefix != "" && prefix[0] == c
    ensures MatchMarker(text, prefix, c).None?
  {
    assert StripTrailingCR(text) == text;
    NoRun(text, c);
  }

  lemma NoSeparator(text: string)
    requires text != "" && text[|text| - 1] != '\r' && text[0] != '='
    ensures MatchSeparator(text).None?
  {
    assert StripTrailingCR(text) == text;
    NoRun(text, '=');
  }

  lemma TrimmedAlready(text: string)
    requires text != "" && text[|text| - 1] != '\r' && text[0] != ' '
    ensures Trimmed(text) == text
  {
    assert StripTrailingCR(text) == text;
    NoRun(text, ' ');
  }

  lemma NoMarksNoFence(text: string)
    requires RunOf(Trimmed(text), '`') == 0 && RunOf(Trimmed(text), '~') == 0
    ensures FenceFree(ReadLine(text))
  {
    hide RunOf, Trimmed, MatchMarker, MatchSeparator, IsSpace;
  }

  lemma NoFence(text: string)
    requires text != "" && text[|text| - 1] != '\r' && text[0] !in {' ', '`', '~'}
    ensures FenceFree(ReadLine(text))
  {
    hide *;
    TrimmedAlready(text);
    NoRun(text, '`');
    NoRun(text, '~');
    NoMarksNoFence(text);
  }

  /** A line that starts with `c` is no marker of another kind. */
  lemma OnlyMarker(text: string, c: char)
    requires text != "" && text[0] == c && text[|text| - 1] != '\r'
    ensures c != '<' ==> MatchStart(text).None?
    ensures c != '|' ==> MatchBase(text).None?
    ensures c != '>' ==> MatchEnd(text).None?
    ensures c != '=' ==> MatchSeparator(text).None?
    ensures c !in {' ', '`', '~'} ==> FenceFree(ReadLine(text))
  {
    hide MatchMarker, MatchSeparator, ReadLine;
    if c != '<' { NotMarker(text, SB_START_PREFIX, '<'); }
    if c != '|' { NotMarker(text, SB_BASE_PREFIX, '|'); }
    if c != '>' { NotMarker(text, SB_END_PREFIX, '>'); }
    if c != '=' { NoSeparator(text); }
    if c !in {' ', '`', '~'} { NoFence(text); }
  }

  /** A run of one character is a git marker, a separator, or opens a fence. */
  lemma RunIsMarker(text: string, prefix: string, c: char)
    requires 3 <= |text| <= 256 && |text| < |prefix| && c != '\r'
    requires forall i | 0 <= i < |text| :: text[i] == c
    ensures MatchMarker(text, prefix, c) == Some(Marker(Git, |text|, "", Some("")))
    ensures c == '=' ==> MatchSeparator(text) == Some(|text|)
  {
    RunAll(text, c);
    assert StripTrailingCR(text) == text && text[|text|..] == "";
  }

  lemma RunIsFence(text: string)
    requires 3 <= |text| && forall i | 0 <= i < |text| :: text[i] == '`'
    ensures Opens(text) == Within('`', |text|)
  {
    RunAll(text, '`');
    NoRun(text, ' ');
    assert StripTrailingCR(text) == text && Trimmed(text) == text;
  }

  lemma ShortMarkers()
    ensures MatchStart("<<<") == Some(Marker(Git, 3, "", Some("")))
    ensures MatchEnd(">>>") == Some(Marker(Git, 3, "", Some("")))
    ensures MatchSeparator("===") == Some(3) && MatchSeparator("=======") == Some(7)
    ensures Opens("```") == Within('`', 3)
  {
    hide MatchMarker, MatchSeparator, Opens;
    RunIsMarker("<<<", SB_START_PREFIX, '<');
    RunIsMarker(">>>", SB_END_PREFIX, '>');
    RunIsMarker("===", SB_END_PREFIX, '=');
    RunIsMarker("=======", SB_END_PREFIX, '=');
    RunIsFence("```");
  }

  /** The eight lines of the example, as far as the scan reads them. */
  ghost predicate Example(doc: seq<Line>) {
    && |doc| == 8
    && (forall i | 0 <= i < 8 :: i !in {0, 5} ==> doc[i].start.None?)
    && (forall i | 0 <= i < 8 :: i != 3 ==> FenceFree(doc[i]))
    && doc[0].start == Some(Marker(SB, 7, "", None)) && doc[1].base == Some(Marker(SB, 7, "", None))
    && doc[2].separator == Some(7) && doc[3].opens == Within('`', 3) && doc[3].end.None?
    && doc[4].end == Some(Marker(SB, 7, "", None))
    && doc[5].start == Some(Marker(Git, 3, "", Some(""))) && doc[6].separator == Some(3)
    && doc[7].end == Some(Marker(Git, 3, "", Some("")))
    && doc[2].base.None? && doc[2].end.None?
  }

  lemma FencesOfExample(doc: seq<Line>)
    requires Example(doc)
    ensures forall i | 4 <= i <= 8 :: FenceAt(doc, i) == Within('`', 3)
    ensures Mask(doc)[5] && FenceAt(doc, 0).Outside?
  {
    assert FenceAt(doc, 1).Outside?;
    assert FenceAt(doc, 2).Outside?;
    assert FenceAt(doc, 3).Outside?;
    assert FenceAt(doc, 4) == Within('`', 3);
    assert FenceAt(doc, 5) == Within('`', 3);
    assert FenceAt(doc, 6) == Within('`', 3);
    assert FenceAt(doc, 7) == Within('`', 3);
  }

  lemma HunksOfExample(doc: seq<Line>)
    requires Example(doc)
    ensures Hunks(doc) == [Hunk(SB, 0, Some(1), 2, 4)]
  {
    var mask := Mask(doc);
    FencesOfExample(doc);
    assert Scan(doc, mask, 1, false, Target(Some(SB), false, None, 7)) == Hit(1);
    assert Scan(doc, mask, 2, false, Target(None, true, None, 7)) == Hit(2);
    assert Scan(doc, mask, 4, false, Target(None, false, Some(SB), 7)) == Hit(4);
    assert Scan(doc, mask, 3, false, Target(None, false, Some(SB), 7)) == Hit(4);
    assert ParseAt(doc, mask, 0) == Parsed(Hunk(SB, 0, Some(1), 2, 4));
    assert HunksFrom(doc, mask, 8) == [];
    assert HunksFrom(doc, mask, 7) == [];
    assert HunksFrom(doc, mask, 6) == [];
    assert HunksFrom(doc, mask, 5) == [];
  }

  lemma HunksOfRest(rest: seq<Line>)
    requires |rest| == 3 && FenceFree(rest[0]) && FenceFree(rest[1]) && FenceFree(rest[2])
    requires rest[0].start == Some(Marker(Git, 3, "", Some(""))) && rest[1].separator == Some(3) && rest[1].start.None?
    requires rest[2].end == Some(Marker(Git, 3, "", Some(""))) && rest[2].start.None?
    ensures Hunks(rest) == [Hunk(Git, 0, None, 1, 2)]
  {
    var mask := Mask(rest);
    assert FenceAt(rest, 1).Outside?;
    assert FenceAt(rest, 2).Outside?;
    assert !mask[0] && !mask[1] && !mask[2];
    assert Scan(rest, mask, 1, true, Target(Some(Git), true, None, 3)) == Hit(1);
    assert Scan(rest, mask, 2, true, Target(None, false, Some(Git), 3)) == Hit(2);
    assert ParseAt(rest, mask, 0) == Parsed(Hunk(Git, 0, None, 1, 2));
    assert HunksFrom(rest, mask, 3) == [];
  }

  const EXAMPLE :=
    ["<<<<<<< SB sha256:", "||||||| SB BASE sha256:", "=======", "```", ">>>>>>> SB sha256:", "<<<", "===", ">>>"]

  lemma ExampleReads(doc: seq<Line>)
    requires doc == ReadLines(EXAMPLE)
    ensures Example(doc) && IsRead(doc)
  {
    hide MatchMarker, MatchSeparator, RunOf, Opens, Closes, Trimmed;
    ShortMarkers();
    WholePrefix(SB_START_PREFIX, '<');
    WholePrefix(SB_BASE_PREFIX, '|');
    WholePrefix(SB_END_PREFIX, '>');
    OnlyMarker(SB_START_PREFIX, '<');
    OnlyMarker(SB_BASE_PREFIX, '|');
    OnlyMarker("=======", '=');
    OnlyMarker("```", '`');
    OnlyMarker(SB_END_PREFIX, '>');
    OnlyMarker("<<<", '<');
    OnlyMarker("===", '=');
    OnlyMarker(">>>", '>');
  }

  /** The example holds one hunk; resolving it leaves a document with another. */
  lemma ResolvingUncoversHunk()
    ensures var doc := ReadLines(EXAMPLE);
            && IsRead(doc) && |Hunks(doc)| == 1 && InDoc(doc, Hunks(doc)[0])
            && !FencesSettled(doc, Hunks(doc)[0], TakeFirst)
            && |Hunks(Resolved(doc, Hunks(doc)[0], TakeFirst))| == 1
  {
    hide MatchMarker, MatchSeparator, RunOf, Opens, Closes, Trimmed, Mask, ReadLine;
    var doc := ReadLines(EXAMPLE);
    ExampleReads(doc);
    HunksOfExample(doc);
    HunkIsClean(doc, 0);
    var doc' := Resolved(doc, Hunks(doc)[0], TakeFirst);
    assert doc' == doc[5..];
    HunksOfRest(doc');
    ResolveKeepsOthers(doc, 0, TakeFirst);
  }
}
