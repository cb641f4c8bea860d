/** Baked sections of a text: an opening marker with an expression, a rendered
    body, a closing marker. */
module BakedSections {
  import opened Sequences
  import opened Text

  const OPEN_PREFIX := "<!--#lua"
  const OPEN_END := "-->"
  const CLOSE_MARKER := "<!--/lua-->"
  const SPACED_MARKER := "<!-- /lua -->"

  /** First place `p` appears in `s`. */
  function Find(s: string, p: string): (r: Option<nat>)
    ensures r.Some? ==> r.value + |p| <= |s| && s[r.value..r.value + |p|] == p
  {
    if p <= s then Some(0)
    else if s == "" then None
    else
      var r := Find(s[1..], p);
      if r.Some? then Some(r.value + 1) else None
  }

  function TrimStart(s: string): string {
    if s != "" && IsSpace(s[0]) then TrimStart(s[1..]) else s
  }

  function TrimEnd(s: string): string {
    if s != "" && IsSpace(s[|s| - 1]) then TrimEnd(s[..|s| - 1]) else s
  }

  function Trim(s: string): string {
    TrimEnd(TrimStart(s))
  }

  /** Length of the opening marker `s` starts with: the prefix, white space, and
      anything up to the first `-->`. */
  function OpenAt(s: string): (r: Option<nat>)
    ensures r.Some? ==> 12 <= r.value <= |s|
  {
    if OPEN_PREFIX <= s && |s| > 8 && IsSpace(s[8]) then
      var k := Find(s[9..], OPEN_END);
      if k.Some? then Some(12 + k.value) else None
    else None
  }

  datatype Open = Open(at: nat, len: nat)

  /** The first opening marker of `s`. */
  function FindOpen(s: string): (r: Option<Open>)
    ensures r.Some? ==> r.value.len >= 12 && r.value.at + r.value.len <= |s|
  {
    if OpenAt(s).Some? then Some(Open(0, OpenAt(s).value))
    else if s == "" then None
    else
      var r := FindOpen(s[1..]);
      if r.Some? then Some(Open(r.value.at + 1, r.value.len)) else None
  }

  /** The expression an opening marker names. */
  function ExprOf(s: string, o: Open): string
    requires o.len >= 12 && o.at + o.len <= |s|
  {
    Trim(s[o.at + 9..o.at + o.len - 3])
  }

  datatype BakedSection = BakedSection(expr: string, start: nat, end: nat, bodyFrom: nat, bodyTo: nat)

  /** The section `o` opens in a text that starts at `off`, with a body of
      length `k`. */
  function SectionOf(s: string, o: Open, k: nat, off: nat): BakedSection
    requires o.len >= 12 && o.at + o.len <= |s|
  {
    var b := off + o.at + o.len;
    BakedSection(ExprOf(s, o), off + o.at, b + k + |CLOSE_MARKER|, b, b + k)
  }

  /** The sections of `s`, which starts at offset `off`. */
  function Scan(s: string, off: nat): seq<BakedSection>
    decreases |s|
  {
    var o := FindOpen(s);
    if o.None? then []
    else
      var bodyFrom := o.value.at + o.value.len;
      var close := Find(s[bodyFrom..], CLOSE_MARKER);
      if close.None? then Scan(s[bodyFrom..], off + bodyFrom)
      else
        var end := bodyFrom + close.value + |CLOSE_MARKER|;
        [SectionOf(s, o.value, close.value, off)] + Scan(s[end..], off + end)
  }

  /** One step to the right in a search. */
  lemma FindStep(text: string, p: string, i: nat)
    requires i < |text| && !(p <= text[i..])
    ensures var q := Find(text[i + 1..], p);
            Find(text[i..], p) == if q.Some? then Some(q.value + 1) else None
  {
    assert text[i..][1..] == text[i + 1..];
  }

  method IndexOf(text: string, p: string, from: nat) returns (i: int)
    requires from <= |text| && p != ""
    ensures var r := Find(text[from..], p); i == if r.Some? then from + r.value else -1
  {
    hide Find;
    i := from;
    while i < |text|
      invariant from <= i <= |text|
      invariant var r, q := Find(text[from..], p), Find(text[i..], p);
                r == if q.Some? then Some(i - from + q.value) else None
    {
      if p <= text[i..] {
        FindHere(text[i..], p);
        return;
      }
      FindStep(text, p, i);
      i := i + 1;
    }
    FindNothing(text[i..], p);
    return -1;
  }

  lemma FindHere(s: string, p: string)
    requires p <= s
    ensures Find(s, p) == Some(0)
  {
  }

  lemma FindNothing(s: string, p: string)
    requires s == "" && p != ""
    ensures Find(s, p).None?
  {
  }

  /** A match `o` of the opening pattern as a match in the text from `i` on. */
  predicate OpensFrom(text: string, i: nat, o: Option<Open>) {
    i <= |text| &&
    var r := FindOpen(text[i..]);
    o == if r.Some? then Some(Open(i + r.value.at, r.value.len)) else None
  }

  /** The next match of the opening pattern at or after `from`. */
  method ExecOpen(text: string, from: nat) returns (o: Option<Open>)
    requires from <= |text|
    ensures OpensFrom(text, from, o)
  {
    hide FindOpen, OpenAt;
    var i := from;
    while i < |text|
      invariant from <= i <= |text|
      invariant var r, q := FindOpen(text[from..]), FindOpen(text[i..]);
                r == if q.Some? then Some(Open(i - from + q.value.at, q.value.len)) else None
    {
      var len := OpenAt(text[i..]);
      OpenStep(text, i);
      if len.Some? {
        return Some(Open(i, len.value));
      }
      i := i + 1;
    }
    OpenNowhere(text[i..]);
    return None;
  }

  lemma OpenStep(text: string, i: nat)
    requires i < |text|
    ensures var q := FindOpen(text[i + 1..]);
            FindOpen(text[i..]) ==
            if OpenAt(text[i..]).Some? then Some(Open(0, OpenAt(text[i..]).value))
            else if q.Some? then Some(Open(q.value.at + 1, q.value.len))
            else None
  {
    hide OpenAt;
    assert text[i..][1..] == text[i + 1..];
  }

  lemma OpenNowhere(s: string)
    requires s == ""
    ensures FindOpen(s).None?
  {
  }

  /** The first opening marker of a text, closed after `k` characters. */
  lemma {:induction false} ScanFirst(s: string, off: nat, o: Open, k: nat)
    requires FindOpen(s) == Some(o) && o.len >= 12 && o.at + o.len <= |s|
    requires Find(s[o.at + o.len..], CLOSE_MARKER) == Some(k) && o.at + o.len + k + 11 <= |s|
    ensures Scan(s, off) ==
            [SectionOf(s, o, k, off)] + Scan(s[o.at + o.len + k + 11..], off + o.at + o.len + k + 11)
  {
    CloseMarkerLength();
    hide FindOpen, Find, CLOSE_MARKER, ExprOf;
    var end := o.at + o.len + k + |CLOSE_MARKER|;
    assert off + end == off + o.at + o.len + k + 11;
  }

  /** An opening marker with no closing marker after it is passed over. */
  lemma {:induction false} ScanUnclosed(text: string, i: nat, o: Open)
    requires OpensFrom(text, i, Some(o)) && o.at + o.len <= |text| && Find(text[o.at + o.len..], CLOSE_MARKER).None?
    ensures i <= o.at && Scan(text[i..], i) == Scan(text[o.at + o.len..], o.at + o.len)
  {
    hide FindOpen, Find, Trim, CLOSE_MARKER, Scan;
    OpenBounds(text, i, o);
    SliceShift(text, i, o.at + o.len - i, |text| - i);
    ScanOpen(text[i..], i, Open(o.at - i, o.len));
  }

  lemma {:induction false} ScanOpen(s: string, off: nat, o: Open)
    requires FindOpen(s) == Some(o) && o.at + o.len <= |s| && Find(s[o.at + o.len..], CLOSE_MARKER).None?
    ensures Scan(s, off) == Scan(s[o.at + o.len..], off + o.at + o.len)
  {
    hide FindOpen, Find, ExprOf, CLOSE_MARKER;
    assert off + (o.at + o.len) == off + o.at + o.len;
  }

  lemma OpenBounds(text: string, i: nat, o: Open)
    requires OpensFrom(text, i, Some(o))
    ensures i <= o.at && o.len >= 12 && o.at + o.len <= |text|
  {
    hide FindOpen;
  }

  /** One with a closing marker at `bodyTo` is a section. */
  lemma {:induction false} ScanClosed(text: string, i: nat, o: Open, bodyTo: nat)
    requires OpensFrom(text, i, Some(o)) && o.at + o.len <= bodyTo && bodyTo + |CLOSE_MARKER| <= |text|
    requires Find(text[o.at + o.len..], CLOSE_MARKER) == Some(bodyTo - (o.at + o.len))
    ensures i <= o.at && o.len >= 12
    ensures Scan(text[i..], i) ==
            [SectionOf(text, o, bodyTo - o.at - o.len, 0)] +
            Scan(text[bodyTo + |CLOSE_MARKER|..], bodyTo + |CLOSE_MARKER|)
  {
    CloseMarkerLength();
    hide FindOpen, Find, Trim, CLOSE_MARKER, Scan;
    OpenBounds(text, i, o);
    SliceShift(text, i, o.at + o.len - i, |text| - i);
    SliceShift(text, i, o.at + 9 - i, o.at + o.len - 3 - i);
    SliceShift(text, i, bodyTo + 11 - i, |text| - i);
    ScanFirst(text[i..], i, Open(o.at - i, o.len), bodyTo - (o.at + o.len));
  }

  lemma ScanEnds(text: string, i: nat)
    requires OpensFrom(text, i, None)
    ensures Scan(text[i..], i) == []
  {
    hide CLOSE_MARKER;
  }

  lemma CloseMarkerLength()
    ensures |CLOSE_MARKER| == 11 && CLOSE_MARKER != ""
  {
  }

  lemma SliceShift(text: string, i: nat, a: nat, b: nat)
    requires a <= b && i + b <= |text|
    ensures text[i..][a..b] == text[i + a..i + b]
    ensures text[i..][a..] == text[i + a..]
  {
  }

  method FindBakedSections(text: string) returns (sections: seq<BakedSection>)
    ensures sections == Scan(text, 0)
  {
    CloseMarkerLength();
    hide OpensFrom, Scan, FindOpen, Find, CLOSE_MARKER, ExprOf;
    sections := [];
    var lastIndex: nat := 0;
    assert text[0..] == text;
    var m := ExecOpen(text, 0);
    while m.Some?
      invariant lastIndex <= |text| && OpensFrom(text, lastIndex, m)
      invariant sections + Scan(text[lastIndex..], lastIndex) == Scan(text, 0)
      decreases |text| - lastIndex
    {
      OpenBounds(text, lastIndex, m.value);
      var bodyFrom := m.value.at + m.value.len;
      var closeIdx := IndexOf(text, CLOSE_MARKER, bodyFrom);
      if closeIdx == -1 {
        ScanUnclosed(text, lastIndex, m.value);
        lastIndex := bodyFrom;
      } else {
        var end := closeIdx + |CLOSE_MARKER|;
        ScanClosed(text, lastIndex, m.value, closeIdx);
        var section := SectionOf(text, m.value, closeIdx - bodyFrom, 0);
        Assoc(sections, [section], Scan(text[end..], end));
        sections := sections + [section];
        lastIndex := end;
      }
      m := ExecOpen(text, lastIndex);
    }
    ScanEnds(text, lastIndex);
    assert sections + [] == sections;
  }

  /** Any closing marker in a body, pulled apart. */
  function EscapeBakedBody(markdown: string): string
    decreases |markdown|
  {
    var k := Find(markdown, CLOSE_MARKER);
    if k.None? then markdown
    else markdown[..k.value] + SPACED_MARKER + EscapeBakedBody(markdown[k.value + |CLOSE_MARKER|..])
  }
}
