/** Baked sections by the characters of the text: where each one starts and ends,
    what is escaped and trimmed, and what baking and unbaking write. */
module BakeForms {
  import opened Text
  import opened BakedSections
  import opened Bake
  import opened BakeLaws

  // ----- trimming -----

  predicate OnlySpace(s: string) {
    forall i | 0 <= i < |s| :: IsSpace(s[i])
  }

  predicate HasNoEdgeSpace(s: string) {
    s != "" ==> !IsSpace(s[0]) && !IsSpace(s[|s| - 1])
  }

  /** What is left of `s` without white space at either end. */
  ghost predicate IsTrimmed(s: string, t: string) {
    HasNoEdgeSpace(t) && exists i, j :: 0 <= i <= j <= |s| && OnlySpace(s[..i]) && s[i..j] == t && OnlySpace(s[j..])
  }

  lemma {:induction false} TrimStartCuts(s: string) returns (i: nat)
    ensures i <= |s| && TrimStart(s) == s[i..] && OnlySpace(s[..i])
    ensures TrimStart(s) != "" ==> !IsSpace(TrimStart(s)[0])
  {
    i := 0;
    if s != "" && IsSpace(s[0]) {
      i := TrimStartCuts(s[1..]);
      i := i + 1;
      assert s[..i] == [s[0]] + s[1..][..i - 1];
    }
  }

  lemma {:induction false} TrimEndCuts(s: string) returns (j: nat)
    ensures j <= |s| && TrimEnd(s) == s[..j] && OnlySpace(s[j..])
    ensures TrimEnd(s) != "" ==> !IsSpace(TrimEnd(s)[|TrimEnd(s)| - 1])
  {
    j := |s|;
    if s != "" && IsSpace(s[|s| - 1]) {
      var n := |s| - 1;
      j := TrimEndCuts(s[..n]);
      assert s[..n][..j] == s[..j];
      assert s[j..] == s[..n][j..] + [s[n]];
    }
  }

  lemma TrimCuts(s: string)
    ensures IsTrimmed(s, Trim(s))
  {
    hide IsSpace;
    var i := TrimStartCuts(s);
    var j := TrimEndCuts(s[i..]);
    assert s[i..][..j] == s[i..i + j] && s[i..][j..] == s[i + j..];
    assert 0 <= i <= i + j <= |s| && OnlySpace(s[..i]) && s[i..i + j] == Trim(s) && OnlySpace(s[i + j..]);
  }

  // ----- where sections stand -----

  predicate OccursNot(s: string, p: string, from: nat, to: nat) {
    forall j | from <= j < to :: !Occurs(s, p, j)
  }

  /** An opening marker from `a` to `b`: the start of a comment, white space, and
      anything up to the first end of a comment. */
  predicate Opens(text: string, a: nat, b: nat) {
    && a + 12 <= b <= |text|
    && text[a..a + 8] == "<!--#lua" && IsSpace(text[a + 8])
    && Occurs(text, "-->", b - 3) && OccursNot(text, "-->", a + 9, b - 3)
  }

  predicate Closes(text: string, k: nat) {
    Occurs(text, "<!--/lua-->", k)
  }

  ghost predicate OpensNowhere(text: string, from: nat, to: nat) {
    forall j: nat, b: nat | from <= j < to :: !Opens(text, j, b)
  }

  /** The first section from `p` on: from the first opening marker to the first
      closing marker behind it; its expression is what the former names. */
  ghost predicate IsFirstSection(text: string, p: nat, c: BakedSection) {
    && p <= c.start < c.bodyFrom <= c.bodyTo < c.end <= |text| && c.end == c.bodyTo + 11
    && Opens(text, c.start, c.bodyFrom) && OpensNowhere(text, p, c.start)
    && Closes(text, c.bodyTo) && (forall j | c.bodyFrom <= j < c.bodyTo :: !Closes(text, j))
    && c.start + 9 <= c.bodyFrom - 3 && IsTrimmed(text[c.start + 9..c.bodyFrom - 3], c.expr)
  }

  /** No opening marker from `p` on is closed. */
  ghost predicate NoneClosed(text: string, p: nat) {
    forall a: nat, b: nat, k: nat | p <= a && Opens(text, a, b) && b <= k :: !Closes(text, k)
  }

  /** Where section `i` is looked for. */
  function Onward(p: nat, cs: seq<BakedSection>, i: nat): nat
    requires i <= |cs|
  {
    if i == 0 then p else cs[i - 1].end
  }

  /** The sections follow one another, each the first behind the one before, and
      none is left behind the last. */
  ghost predicate AreSections(text: string, p: nat, cs: seq<BakedSection>) {
    && (forall i | 0 <= i < |cs| :: IsFirstSection(text, Onward(p, cs, i), cs[i]))
    && NoneClosed(text, Onward(p, cs, |cs|))
  }

  lemma FindIff(text: string, from: nat, p: string)
    requires from <= |text| && p != ""
    ensures var r := Find(text[from..], p);
            && (r.Some? ==> Occurs(text, p, from + r.value) && OccursNot(text, p, from, from + r.value))
            && (r.None? ==> OccursNot(text, p, from, |text|))
  {
    hide Find;
    var t := text[from..];
    var r := Find(t, p);
    if r.Some? {
      OccursBehind(text, from, p, from + r.value);
    }
    forall j | from <= j < |text| && Occurs(text, p, j) ensures r.Some? && from + r.value <= j {
      OccursBehind(text, from, p, j);
      FindIsFirst(t, p, j - from);
    }
  }

  lemma OccursBehind(text: string, from: nat, p: string, j: nat)
    requires from <= j && from <= |text|
    ensures Occurs(text, p, j) <==> Occurs(text[from..], p, j - from)
  {
    if j + |p| <= |text| {
      assert text[from..][j - from..j - from + |p|] == text[j..j + |p|];
    }
  }

  lemma OpenAtIff(text: string, a: nat, b: nat)
    requires a <= b <= |text|
    ensures OpenAt(text[a..]) == Some(b - a) <==> Opens(text, a, b)
  {
    hide Find, Occurs, OccursNot;
    var s := text[a..];
    PrefixAt(text, a, "<!--#lua");
    if "<!--#lua" <= s && |s| > 8 && IsSpace(s[8]) {
      assert s[9..] == text[a + 9..] && s[8] == text[a + 8];
      FindIff(text, a + 9, "-->");
      ArrowFits(text, a, b);
    }
  }

  lemma PrefixAt(text: string, a: nat, p: string)
    requires a <= |text|
    ensures p <= text[a..] <==> a + |p| <= |text| && text[a..a + |p|] == p
  {
    if a + |p| <= |text| {
      assert text[a..][..|p|] == text[a..a + |p|];
    }
  }

  lemma ArrowFits(text: string, a: nat, b: nat)
    requires a + 9 <= |text|
    ensures var r := Find(text[a + 9..], "-->");
            && (r.Some? && b == a + 12 + r.value ==> b <= |text|)
            && (a + 12 <= b <= |text| && Occurs(text, "-->", b - 3) && OccursNot(text, "-->", a + 9, b - 3) ==>
                  r == Some(b - a - 12))
  {
    hide Find;
    var r := Find(text[a + 9..], "-->");
    FindIff(text, a + 9, "-->");
    if a + 12 <= b <= |text| && Occurs(text, "-->", b - 3) && OccursNot(text, "-->", a + 9, b - 3) {
      OccursBehind(text, a + 9, "-->", b - 3);
      FindIsFirst(text[a + 9..], "-->", b - 12 - a);
    }
  }

  lemma {:induction false} FindOpenIff(text: string, p: nat)
    requires p <= |text|
    ensures var r := FindOpen(text[p..]);
            if r.Some? then
              var a := p + r.value.at;
              a + r.value.len <= |text| && Opens(text, a, a + r.value.len) && OpensNowhere(text, p, a)
            else OpensNowhere(text, p, |text|)
    decreases |text| - p
  {
    hide OpenAt, Opens;
    if p == |text| {
      OpenNowhere(text[p..]);
    } else {
      OpenStep(text, p);
      forall b: nat ensures Opens(text, p, b) ==> p <= b <= |text| && OpenAt(text[p..]) == Some(b - p) {
        OpensFits(text, p, b);
        if p <= b <= |text| {
          OpenAtIff(text, p, b);
        }
      }
      FindOpenIff(text, p + 1);
      if OpenAt(text[p..]).Some? {
        OpenAtIff(text, p, p + OpenAt(text[p..]).value);
      }
    }
  }

  lemma OpensFits(text: string, a: nat, b: nat)
    ensures Opens(text, a, b) ==> a <= b <= |text|
  {
  }

  /** A marker opened later ends no earlier. */
  lemma LaterEnds(text: string, a: nat, b: nat, a': nat, b': nat)
    requires Opens(text, a, b) && Opens(text, a', b') && a <= a'
    ensures b <= b'
  {
    hide Occurs, IsSpace;
  }

  lemma UnclosedFromFirst(text: string, p: nat, a: nat, b: nat)
    requires Opens(text, a, b) && p <= a && OpensNowhere(text, p, a)
    requires forall k: nat | b <= k :: !Closes(text, k)
    ensures NoneClosed(text, p)
  {
    forall a': nat, b': nat, k: nat | p <= a' && Opens(text, a', b') && b' <= k ensures !Closes(text, k) {
      if a <= a' {
        LaterEnds(text, a, b, a', b');
      }
    }
  }

  lemma NothingOpened(text: string, p: nat)
    requires OpensNowhere(text, p, |text|)
    ensures NoneClosed(text, p)
  {
    hide Closes;
    forall a: nat, b: nat | p <= a && Opens(text, a, b) ensures a < |text| {
      OpensFits(text, a, b);
    }
  }

  lemma CloseIff(text: string, from: nat)
    requires from <= |text|
    ensures var r := Find(text[from..], CLOSE_MARKER);
            && (r.Some? ==> from + r.value + 11 <= |text| && Closes(text, from + r.value))
            && (r.Some? ==> forall j: nat | from <= j < from + r.value :: !Closes(text, j))
            && (r.None? ==> forall j: nat | from <= j :: !Closes(text, j))
  {
    FindIff(text, from, CLOSE_MARKER);
    hide Find;
  }

  lemma AsSection(text: string, p: nat, a: nat, b: nat, k: nat)
    requires Opens(text, a, b) && p <= a && OpensNowhere(text, p, a) && b <= k && k + 11 <= |text|
    requires Closes(text, k) && forall j: nat | b <= j < k :: !Closes(text, j)
    ensures a + 12 <= b && IsFirstSection(text, p, BakedSection(Trim(text[a + 9..b - 3]), a, k + 11, b, k))
  {
    TrimCuts(text[a + 9..b - 3]);
    hide Trim, Closes, OpensNowhere, IsTrimmed;
  }

  lemma SectionFields(text: string, a: nat, b: nat, k: nat)
    requires a + 12 <= b <= |text| && b <= k
    ensures SectionOf(text, Open(a, b - a), k - b, 0) == BakedSection(Trim(text[a + 9..b - 3]), a, k + 11, b, k)
  {
    CloseMarkerLength();
    hide Trim, CLOSE_MARKER;
  }

  lemma FirstSectionIs(text: string, p: nat, o: Open, k: nat)
    requires p <= |text| && FindOpen(text[p..]) == Some(o)
    requires p + o.at + o.len <= |text| && Find(text[p + o.at + o.len..], CLOSE_MARKER) == Some(k)
    ensures o.len >= 12 && p + o.at + o.len + k + 11 <= |text|
    ensures var c := SectionOf(text, Open(p + o.at, o.len), k, 0);
            IsFirstSection(text, p, c) && c.end == p + o.at + o.len + k + 11
  {
    hide *;
    var a, b := p + o.at, p + o.at + o.len;
    FindOpenIff(text, p);
    CloseIff(text, b);
    AsSection(text, p, a, b, b + k);
    SectionFields(text, a, b, b + k);
  }

  lemma {:induction false} ScanReads(text: string, p: nat)
    requires p <= |text|
    ensures AreSections(text, p, Scan(text[p..], p))
    decreases |text| - p
  {
    hide *;
    FindOpenIff(text, p);
    var found := FindOpen(text[p..]);
    if found.None? {
      NothingOpened(text, p);
      NoneFound(text, p);
      NoSections(text, p);
    } else {
      var o := found.value;
      var from := p + o.at + o.len;
      CloseIff(text, from);
      var close := Find(text[from..], CLOSE_MARKER);
      var whole := Open(p + o.at, o.len);
      FoundFrom(text, p);
      OpenBounds(text, p, whole);
      if close.None? {
        UnclosedFromFirst(text, p, p + o.at, from);
        ScanUnclosed(text, p, whole);
        ScanReads(text, from);
        UnclosedHasNone(text, p, from, Scan(text[from..], from));
        NoSections(text, p);
      } else {
        FirstSectionIs(text, p, o, close.value);
        CloseMarkerLength();
        ScanClosed(text, p, whole, from + close.value);
        var c := SectionOf(text, whole, close.value, 0);
        ScanReads(text, c.end);
        SectionsCons(text, p, c, Scan(text[c.end..], c.end));
      }
    }
  }

  lemma FoundFrom(text: string, p: nat)
    requires p <= |text|
    ensures var r := FindOpen(text[p..]);
            OpensFrom(text, p, if r.Some? then Some(Open(p + r.value.at, r.value.len)) else None)
  {
    hide FindOpen;
  }

  lemma NoneFound(text: string, p: nat)
    requires p <= |text| && FindOpen(text[p..]).None?
    ensures Scan(text[p..], p) == []
  {
  }

  lemma NoSections(text: string, p: nat)
    requires NoneClosed(text, p)
    ensures AreSections(text, p, [])
  {
  }

  lemma FirstIfAny(text: string, p: nat, cs: seq<BakedSection>)
    requires AreSections(text, p, cs)
    ensures cs != [] ==>
              && p <= cs[0].start && Opens(text, cs[0].start, cs[0].bodyFrom)
              && cs[0].bodyFrom <= cs[0].bodyTo && Closes(text, cs[0].bodyTo)
  {
    hide Opens, Closes, OpensNowhere, IsTrimmed, NoneClosed;
    if cs != [] {
      assert IsFirstSection(text, Onward(p, cs, 0), cs[0]);
    }
  }

  /** Where no marker is closed there are no sections. */
  lemma UnclosedHasNone(text: string, p: nat, from: nat, cs: seq<BakedSection>)
    requires NoneClosed(text, p) && p <= from && AreSections(text, from, cs)
    ensures cs == []
  {
    hide Opens, Closes, AreSections;
    FirstIfAny(text, from, cs);
  }

  lemma FollowsCons(text: string, p: nat, c: BakedSection, rest: seq<BakedSection>, cs: seq<BakedSection>, i: nat)
    requires cs == [c] + rest && i < |cs| && IsFirstSection(text, p, c)
    requires i > 0 ==> IsFirstSection(text, Onward(c.end, rest, i - 1), rest[i - 1])
    ensures IsFirstSection(text, Onward(p, cs, i), cs[i])
  {
    hide IsFirstSection;
  }

  lemma LastOnward(p: nat, c: BakedSection, rest: seq<BakedSection>, cs: seq<BakedSection>)
    requires cs == [c] + rest
    ensures Onward(p, cs, |cs|) == Onward(c.end, rest, |rest|)
  {
  }

  lemma SectionsCons(text: string, p: nat, c: BakedSection, rest: seq<BakedSection>)
    requires IsFirstSection(text, p, c) && AreSections(text, c.end, rest)
    ensures AreSections(text, p, [c] + rest)
  {
    hide IsFirstSection, NoneClosed, Onward;
    var cs := [c] + rest;
    forall i | 0 <= i < |cs| ensures IsFirstSection(text, Onward(p, cs, i), cs[i]) {
      FollowsCons(text, p, c, rest, cs, i);
    }
    LastOnward(p, c, rest, cs);
  }

  /** The sections found are exactly the sections that stand in the text. */
  lemma SectionsAre(text: string)
    ensures AreSections(text, 0, Scan(text, 0))
  {
    hide *;
    ScanReads(text, 0);
    assert text[0..] == text;
  }

  // ----- bodies -----

  function JoinedBy(pieces: seq<string>, glue: string): string
    requires pieces != []
  {
    if |pieces| == 1 then pieces[0] else pieces[0] + glue + JoinedBy(pieces[1..], glue)
  }

  ghost predicate NoCloseIn(s: string) {
    forall j: nat :: !Closes(s, j)
  }

  /** `escaped` is `markdown` with each closing marker, and nothing else, spaced. */
  ghost predicate IsEscaped(markdown: string, escaped: string) {
    exists pieces: seq<string> ::
      && pieces != [] && (forall p <- pieces :: NoCloseIn(p))
      && markdown == JoinedBy(pieces, "<!--/lua-->") && escaped == JoinedBy(pieces, "<!-- /lua -->")
  }

  lemma {:induction false} EscapedPieces(markdown: string) returns (pieces: seq<string>)
    ensures pieces != [] && (forall p <- pieces :: NoCloseIn(p))
    ensures markdown == JoinedBy(pieces, "<!--/lua-->")
    ensures EscapeBakedBody(markdown) == JoinedBy(pieces, "<!-- /lua -->")
    decreases |markdown|
  {
    hide Find, Closes;
    CloseIff(markdown, 0);
    assert markdown[0..] == markdown;
    var k := Find(markdown, CLOSE_MARKER);
    if k.None? {
      pieces := [markdown];
    } else {
      var head, tail := markdown[..k.value], markdown[k.value + 11..];
      var rest := EscapedPieces(tail);
      pieces := [head] + rest;
      assert pieces[1..] == rest;
      HeadIsFree(markdown, k.value);
      CutAround(markdown, k.value);
      EscapeStep(markdown, k.value);
    }
  }

  lemma HeadIsFree(s: string, k: nat)
    requires k <= |s| && forall j: nat | j < k :: !Closes(s, j)
    ensures NoCloseIn(s[..k])
  {
    forall j: nat ensures !Closes(s[..k], j) {
      if j + 11 <= k {
        assert s[..k][j..j + 11] == s[j..j + 11];
        assert !Closes(s, j);
      }
    }
  }

  lemma CutAround(s: string, k: nat)
    requires Closes(s, k)
    ensures k + 11 <= |s| && s == s[..k] + "<!--/lua-->" + s[k + 11..]
  {
    assert s == s[..k] + s[k..k + 11] + s[k + 11..];
  }

  lemma EscapeStep(s: string, k: nat)
    requires Find(s, CLOSE_MARKER) == Some(k) && k + 11 <= |s|
    ensures EscapeBakedBody(s) == s[..k] + "<!-- /lua -->" + EscapeBakedBody(s[k + 11..])
  {
    CloseMarkerLength();
    hide Find;
  }

  lemma EscapedIs(markdown: string)
    ensures IsEscaped(markdown, EscapeBakedBody(markdown))
  {
    hide EscapeBakedBody, JoinedBy;
    var pieces := EscapedPieces(markdown);
  }

  /** The body written for some markdown: on lines of its own, escaped, and without
      white space around it. */
  lemma NewBodyIs(markdown: string)
    ensures exists escaped, trimmed ::
              && IsEscaped(markdown, escaped) && IsTrimmed(escaped, trimmed)
              && NewBody(markdown) == "\n" + trimmed + "\n"
  {
    hide EscapeBakedBody, Trim, IsEscaped, IsTrimmed;
    var escaped := EscapeBakedBody(markdown);
    EscapedIs(markdown);
    TrimCuts(escaped);
    assert IsTrimmed(escaped, Trim(escaped));
  }

  // ----- baking and unbaking -----

  /** One section more is evaluated as the next, and adds an edit of its body or a
      line that names its expression and the reason. */
  lemma {:induction false} OneSectionMore(cs: seq<BakedSection>, c: BakedSection, n: nat, eval: Evaluator)
    ensures EditsOf(cs + [c], n, eval) ==
            EditsOf(cs, n, eval) +
            match eval(n + |cs|, c.expr)
            case Markdown(markdown) => [BodyEdit(c.bodyFrom, c.bodyTo, NewBody(markdown))]
            case Refused(_) => []
    ensures SkippedOf(cs + [c], n, eval) ==
            SkippedOf(cs, n, eval) +
            match eval(n + |cs|, c.expr)
            case Markdown(_) => []
            case Refused(reason) => ["\"" + c.expr + "\" (" + reason + ")"]
    ensures EditsOf([], n, eval) == [] && SkippedOf([], n, eval) == []
  {
    hide NewBody;
    if cs == [] {
      assert [c][1..] == [] && [] + [c] == [c];
    } else {
      assert (cs + [c])[1..] == cs[1..] + [c];
      OneSectionMore(cs[1..], c, n + 1, eval);
    }
  }

  predicate Holds(c: BakedSection, cursor: nat) {
    c.start <= cursor <= c.end
  }

  /** The first section that holds the cursor, both ends included. */
  lemma {:induction false} SectionAtIff(cs: seq<BakedSection>, cursor: nat)
    ensures SectionAt(cs, cursor).None? ==> forall i | 0 <= i < |cs| :: !Holds(cs[i], cursor)
    ensures SectionAt(cs, cursor).Some? ==>
              exists i | 0 <= i < |cs| ::
                && SectionAt(cs, cursor).value == cs[i] && Holds(cs[i], cursor)
                && forall j | 0 <= j < i :: !Holds(cs[j], cursor)
  {
    if cs != [] && !Holds(cs[0], cursor) {
      SectionAtIff(cs[1..], cursor);
      if SectionAt(cs, cursor).Some? {
        var i :| && 0 <= i < |cs[1..]| && SectionAt(cs[1..], cursor).value == cs[1..][i] && Holds(cs[1..][i], cursor)
                 && forall j | 0 <= j < i :: !Holds(cs[1..][j], cursor);
        assert cs[i + 1] == cs[1..][i];
        forall j | 0 <= j < i + 1 ensures !Holds(cs[j], cursor) {
          if j > 0 {
            assert cs[j] == cs[1..][j - 1];
          }
        }
      } else {
        forall i | 0 <= i < |cs| ensures !Holds(cs[i], cursor) {
          if i > 0 {
            assert cs[i] == cs[1..][i - 1];
          }
        }
      }
    }
  }

  lemma SpliceFits(text: string, e: BodyEdit)
    requires e.from <= e.to <= |text|
    ensures Splice(text, e) == text[..e.from] + e.insert + text[e.to..]
  {
  }

  lemma DirectiveIn(text: string, c: BakedSection)
    requires c.start <= c.end <= |text|
    ensures Splice(text, BodyEdit(c.start, c.end, "${" + c.expr + "}")) ==
            text[..c.start] + ("${" + c.expr + "}") + text[c.end..]
  {
    hide Splice;
    SpliceFits(text, BodyEdit(c.start, c.end, "${" + c.expr + "}"));
  }

  lemma UnbakedFrom(text: string, cursor: nat)
    ensures var r := SectionAt(Scan(text, 0), cursor);
            Unbaked(text, cursor) ==
            if r.None? then None
            else Some(Splice(text, BodyEdit(r.value.start, r.value.end, "${" + r.value.expr + "}")))
  {
    hide Splice, Scan, SectionAt;
  }

  lemma SectionAtIsOne(cs: seq<BakedSection>, cursor: nat)
    ensures SectionAt(cs, cursor).Some? ==> SectionAt(cs, cursor).value in cs
  {
    hide SectionAt, Holds;
    SectionAtIff(cs, cursor);
  }

  /** It is replaced by the directive of its expression; without one, unbaking does
      nothing. */
  lemma UnbakedIs(text: string, cursor: nat)
    ensures match SectionAt(Scan(text, 0), cursor)
            case None => Unbaked(text, cursor).None?
            case Some(c) => c.start <= c.end <= |text| &&
                            Unbaked(text, cursor) == Some(text[..c.start] + ("${" + c.expr + "}") + text[c.end..])
  {
    hide *;
    SectionsAre(text);
    UnbakedFrom(text, cursor);
    var r := SectionAt(Scan(text, 0), cursor);
    SectionAtIsOne(Scan(text, 0), cursor);
    if r.Some? {
      SectionsFit(text, Scan(text, 0), r.value);
      DirectiveIn(text, r.value);
    }
  }

  lemma SectionsFit(text: string, cs: seq<BakedSection>, c: BakedSection)
    requires AreSections(text, 0, cs) && c in cs
    ensures c.start <= c.end <= |text|
  {
    hide Opens, Closes, OpensNowhere, IsTrimmed, NoneClosed;
    var i :| 0 <= i < |cs| && cs[i] == c;
    assert IsFirstSection(text, Onward(0, cs, i), cs[i]);
  }
}
