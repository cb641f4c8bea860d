/** One line of a document as the conflict scanner sees it: the markers it may
    be and the fence it may open or close. */
module MarkerLines {
  import opened Text

  datatype Kind = SB | Git

  datatype Marker = Marker(kind: Kind, size: nat, hash: string, tag: Option<string>)

  const SB_START_PREFIX := "<<<<<<< SB sha256:"
  const SB_BASE_PREFIX := "||||||| SB BASE sha256:"
  const SB_END_PREFIX := ">>>>>>> SB sha256:"

  function StripTrailingCR(text: string): string {
    if text != "" && text[|text| - 1] == '\r' then text[..|text| - 1] else text
  }

  function SplitLabel(rest: string): string {
    if rest != "" && rest[0] == ' ' then rest[1..] else rest
  }

  /** A marker line made of `c`: the exact SB form, or 3 to 256 of them and then
      a space or nothing. */
  function MatchMarker(line: string, prefix: string, c: char): Option<Marker> {
    var stripped := StripTrailingCR(line);
    var n := RunOf(stripped, c);
    if prefix <= stripped then Some(Marker(SB, 7, stripped[|prefix|..], None))
    else if 3 <= n <= 256 && (n == |stripped| || stripped[n] == ' ')
    then Some(Marker(Git, n, "", Some(SplitLabel(stripped[n..]))))
    else None
  }

  function MatchStart(line: string): Option<Marker> {
    MatchMarker(line, SB_START_PREFIX, '<')
  }

  function MatchBase(line: string): Option<Marker> {
    MatchMarker(line, SB_BASE_PREFIX, '|')
  }

  function MatchEnd(line: string): Option<Marker> {
    MatchMarker(line, SB_END_PREFIX, '>')
  }

  /** How long a separator line is. */
  function MatchSeparator(line: string): Option<nat> {
    var s := StripTrailingCR(line);
    if RunOf(s, '=') == |s| then Some(|s|) else None
  }

  // ----- fences -----

  datatype Fence = Outside | Within(mark: char, len: nat)

  /** The line without a trailing carriage return and up to three leading spaces. */
  function Trimmed(line: string): string {
    var s := StripTrailingCR(line);
    var n := RunOf(s, ' ');
    s[if n < 3 then n else 3..]
  }

  /** The fence a line opens: three or more of one mark. */
  function Opens(line: string): Fence {
    var t := Trimmed(line);
    if RunOf(t, '`') >= 3 then Within('`', RunOf(t, '`'))
    else if RunOf(t, '~') >= 3 then Within('~', RunOf(t, '~'))
    else Outside
  }

  /** The fence a line can close: it opens one and has only white space after it. */
  function Closes(line: string): Fence {
    var f := Opens(line);
    if f.Within? && forall i | f.len <= i < |Trimmed(line)| :: IsSpace(Trimmed(line)[i]) then f else Outside
  }

  // ----- classified lines -----

  datatype Line = Line(text: string, start: Option<Marker>, base: Option<Marker>, separator: Option<nat>,
                       end: Option<Marker>, opens: Fence, closes: Fence)

  function ReadLine(text: string): Line {
    Line(text, MatchStart(text), MatchBase(text), MatchSeparator(text), MatchEnd(text), Opens(text), Closes(text))
  }

  function ReadLines(texts: seq<string>): (r: seq<Line>)
    ensures |r| == |texts| && forall i | 0 <= i < |r| :: r[i] == ReadLine(texts[i])
  {
    seq(|texts|, i requires 0 <= i < |texts| => ReadLine(texts[i]))
  }

  /** A marker line, or an empty one, has no fence in it. */
  predicate FenceFree(l: Line) {
    l.opens.Outside? && l.closes.Outside?
  }

  lemma NoRun(s: string, c: char)
    requires s == "" || s[0] != c
    ensures RunOf(s, c) == 0
  {
  }

  /** What the scans rely on: a marker has three characters or more, and a line
      that is one has no fence in it. */
  predicate Sane(l: Line) {
    && (l.start.Some? ==> l.start.value.size >= 3)
    && (l.start.Some? || l.base.Some? || l.end.Some? || (l.separator.Some? && l.separator.value > 0) ==> FenceFree(l))
  }

  lemma LinesAreSane(text: string)
    ensures Sane(ReadLine(text))
  {
    var s := StripTrailingCR(text);
    if s == "" || s[0] in {'<', '|', '=', '>'} {
      NoRun(s, ' ');
      NoRun(s, '`');
      NoRun(s, '~');
      assert Trimmed(text) == s;
    }
  }

  lemma BlankLineIsPlain()
    ensures FenceFree(ReadLine("")) && ReadLine("").start.None?
  {
  }
}
