/** Conflict markers in a document: the fence mask, the scans for the markers of
    one hunk, and the scan for all hunks. Lines count from 0. */
module ConflictMarkers {
  import opened Text
  import opened MarkerLines

  // ----- fences -----

  /** Whether `line` closes `fence`: the same mark, at least as often. */
  predicate ClosedBy(fence: Fence, line: Line) {
    fence.Within? && line.closes.Within? && line.closes.mark == fence.mark && line.closes.len >= fence.len
  }

  function NextFence(fence: Fence, line: Line): Fence {
    if fence.Outside? then line.opens else if ClosedBy(fence, line) then Outside else fence
  }

  /** The fence open in front of line `i`. */
  function FenceAt(doc: seq<Line>, i: nat): Fence
    requires i <= |doc|
  {
    if i == 0 then Outside else NextFence(FenceAt(doc, i - 1), doc[i - 1])
  }

  /** The fence that lines leave after `fence`. */
  function FenceAfter(fence: Fence, lines: seq<Line>): Fence {
    if lines == [] then fence
    else NextFence(FenceAfter(fence, lines[..|lines| - 1]), lines[|lines| - 1])
  }

  lemma {:induction false} FenceOfLines(doc: seq<Line>, i: nat, j: nat)
    requires i <= j <= |doc|
    ensures FenceAt(doc, j) == FenceAfter(FenceAt(doc, i), doc[i..j])
  {
    if i < j {
      assert doc[i..j][..j - i - 1] == doc[i..j - 1];
      FenceOfLines(doc, i, j - 1);
    }
  }

  predicate Masked(fence: Fence, line: Line) {
    fence.Within? && !ClosedBy(fence, line)
  }

  function Mask(doc: seq<Line>): (r: seq<bool>)
    ensures |r| == |doc|
  {
    seq(|doc|, i requires 0 <= i < |doc| => Masked(FenceAt(doc, i), doc[i]))
  }

  method ComputeFenceMask(doc: seq<Line>) returns (mask: seq<bool>)
    ensures mask == Mask(doc)
  {
    var marks := new bool[|doc|](_ => false);
    ghost var expected := Mask(doc);
    var fence := Outside;
    for i := 0 to |doc|
      invariant fence == FenceAt(doc, i)
      invariant forall k | 0 <= k < |doc| :: marks[k] == (k < i && expected[k])
    {
      assert expected[i] == Masked(FenceAt(doc, i), doc[i]);
      if fence.Outside? {
        fence := doc[i].opens;
      } else if ClosedBy(fence, doc[i]) {
        fence := Outside;
      } else {
        marks[i] := true;
      }
    }
    mask := marks[..];
  }

  // ----- scanning for one marker -----

  predicate IsNestedStart(line: Line, masked: bool, respectFenceMask: bool) {
    line.start.Some? && !(line.start.value.kind.Git? && respectFenceMask && masked)
  }

  /** What a scan looks for. */
  datatype Target = Target(base: Option<Kind>, separator: bool, end: Option<Kind>, size: nat)

  predicate IsMarker(m: Option<Marker>, kind: Option<Kind>, size: nat) {
    m.Some? && kind == Some(m.value.kind) && m.value.size == size
  }

  predicate Hits(line: Line, t: Target) {
    || (t.separator && line.separator == Some(t.size))
    || IsMarker(line.base, t.base, t.size)
    || IsMarker(line.end, t.end, t.size)
  }

  datatype Scanned = Hit(line: nat) | Nested(line: nat) | Missing

  /** The first line from `from` on that is a start marker or what `t` asks for. */
  function Scan(doc: seq<Line>, mask: seq<bool>, from: nat, respect: bool, t: Target): (r: Scanned)
    requires |mask| == |doc|
    ensures r.Missing? || from <= r.line < |doc|
    ensures r.Hit? ==> Hits(doc[r.line], t)
    decreases |doc| - from
  {
    if from >= |doc| then Missing
    else if IsNestedStart(doc[from], mask[from], respect) then Nested(from)
    else if !(respect && mask[from]) && Hits(doc[from], t) then Hit(from)
    else Scan(doc, mask, from + 1, respect, t)
  }

  method ScanForLine(doc: seq<Line>, mask: seq<bool>, from: nat, respect: bool, wantBaseKind: Option<Kind>,
                     wantSeparator: bool, markerSize: nat) returns (r: Scanned)
    requires |mask| == |doc|
    ensures r == Scan(doc, mask, from, respect, Target(wantBaseKind, wantSeparator, None, markerSize))
  {
    var i := from;
    while i < |doc|
      invariant from <= i
      invariant Scan(doc, mask, i, respect, Target(wantBaseKind, wantSeparator, None, markerSize)) ==
                Scan(doc, mask, from, respect, Target(wantBaseKind, wantSeparator, None, markerSize))
    {
      if IsNestedStart(doc[i], mask[i], respect) {
        return Nested(i);
      }
      if !(respect && mask[i]) {
        if wantSeparator && doc[i].separator == Some(markerSize) {
          return Hit(i);
        }
        if wantBaseKind.Some? {
          var base := doc[i].base;
          if base.Some? && base.value.kind == wantBaseKind.value && base.value.size == markerSize {
            return Hit(i);
          }
        }
      }
      i := i + 1;
    }
    return Missing;
  }

  method ScanForEnd(doc: seq<Line>, mask: seq<bool>, from: nat, respect: bool, wantKind: Kind, markerSize: nat)
    returns (r: Scanned)
    requires |mask| == |doc|
    ensures r == Scan(doc, mask, from, respect, Target(None, false, Some(wantKind), markerSize))
  {
    var i := from;
    while i < |doc|
      invariant from <= i
      invariant Scan(doc, mask, i, respect, Target(None, false, Some(wantKind), markerSize)) ==
                Scan(doc, mask, from, respect, Target(None, false, Some(wantKind), markerSize))
    {
      if IsNestedStart(doc[i], mask[i], respect) {
        return Nested(i);
      }
      if !(respect && mask[i]) {
        var end := doc[i].end;
        if end.Some? && end.value.kind == wantKind && end.value.size == markerSize {
          return Hit(i);
        }
      }
      i := i + 1;
    }
    return Missing;
  }

  // ----- scanning for hunks -----

  /** The marker lines of a hunk. */
  datatype Hunk = Hunk(kind: Kind, start: nat, base: Option<nat>, sep: nat, end: nat)

  /** What a start line leads to: a hunk, or the line to go on from. */
  datatype Attempt = Parsed(hunk: Hunk) | Resume(line: nat)

  predicate InDoc(doc: seq<Line>, h: Hunk) {
    && h.start < h.sep < h.end < |doc| && (h.base.Some? ==> h.start < h.base.value < h.sep)
    && doc[h.start].start.Some? && doc[h.end].end.Some?
    && (h.base.Some? ==> doc[h.base.value].base.Some?)
  }

  predicate Advances(doc: seq<Line>, n: nat, r: Attempt) {
    match r
    case Parsed(h) => h.start == n && InDoc(doc, h)
    case Resume(k) => n < k <= |doc|
  }

  function BaseTarget(m: Marker): Target {
    if m.kind.SB? then Target(Some(SB), false, None, 7) else Target(Some(Git), true, None, m.size)
  }

  function SepTarget(m: Marker): Target {
    Target(None, true, None, if m.kind.SB? then 7 else m.size)
  }

  function EndTarget(m: Marker): Target {
    Target(None, false, Some(m.kind), if m.kind.SB? then 7 else m.size)
  }

  /** Where the scan goes on after one that found no marker. */
  function AfterMiss(r: Scanned, n: nat): nat {
    if r.Nested? then r.line + 1 else n + 1
  }

  function FinishHunk(doc: seq<Line>, mask: seq<bool>, n: nat, m: Marker, base: Option<nat>, sep: nat): (r: Attempt)
    requires |mask| == |doc| && n < sep < |doc| && doc[n].start.Some?
    requires base.Some? ==> n < base.value < sep && doc[base.value].base.Some?
    ensures Advances(doc, n, r)
  {
    var end := Scan(doc, mask, sep + 1, m.kind.Git?, EndTarget(m));
    if end.Hit? then Parsed(Hunk(m.kind, n, base, sep, end.line)) else Resume(AfterMiss(end, n))
  }

  function FindSeparator(doc: seq<Line>, mask: seq<bool>, n: nat, m: Marker, base: nat): (r: Attempt)
    requires |mask| == |doc| && n < base < |doc| && doc[n].start.Some? && doc[base].base.Some?
    ensures Advances(doc, n, r)
  {
    var sep := Scan(doc, mask, base + 1, m.kind.Git?, SepTarget(m));
    if sep.Hit? then FinishHunk(doc, mask, n, m, Some(base), sep.line) else Resume(AfterMiss(sep, n))
  }

  function ParseFrom(doc: seq<Line>, mask: seq<bool>, n: nat, m: Marker): (r: Attempt)
    requires |mask| == |doc| && n < |doc| && doc[n].start.Some?
    ensures Advances(doc, n, r)
  {
    var base := Scan(doc, mask, n + 1, m.kind.Git?, BaseTarget(m));
    if !base.Hit? then Resume(AfterMiss(base, n))
    else if m.kind.Git? && doc[base.line].separator == Some(m.size) then FinishHunk(doc, mask, n, m, None, base.line)
    else FindSeparator(doc, mask, n, m, base.line)
  }

  /** What the scan does at line `n`. */
  function ParseAt(doc: seq<Line>, mask: seq<bool>, n: nat): (r: Attempt)
    requires |mask| == |doc| && n < |doc|
    ensures Advances(doc, n, r)
  {
    var m := doc[n].start;
    if m.None? || (m.value.kind.Git? && mask[n]) then Resume(n + 1) else ParseFrom(doc, mask, n, m.value)
  }

  function HunksFrom(doc: seq<Line>, mask: seq<bool>, n: nat): seq<Hunk>
    requires |mask| == |doc|
    decreases |doc| - n
  {
    if n >= |doc| then []
    else match ParseAt(doc, mask, n)
      case Parsed(h) => [h] + HunksFrom(doc, mask, h.end + 1)
      case Resume(k) => HunksFrom(doc, mask, k)
  }

  function Hunks(doc: seq<Line>): seq<Hunk> {
    HunksFrom(doc, Mask(doc), 0)
  }

  // ----- hunks of the text -----

  datatype Section = Section(from: nat, to: nat, hash: string, tag: Option<string>, text: string)

  datatype ConflictHunk = ConflictHunk(
    from: nat, to: nat, kind: Kind, first: Section, base: Option<Section>, second: Section)

  function Texts(doc: seq<Line>): (r: seq<string>)
    ensures |r| == |doc| && forall i | 0 <= i < |r| :: r[i] == doc[i].text
  {
    seq(|doc|, i requires 0 <= i < |doc| => doc[i].text)
  }

  /** The text between marker lines `a` and `b`. */
  function ReadSection(doc: seq<Line>, a: nat, b: nat, m: Marker): Section
    requires a < b < |doc|
  {
    NextLine(Texts(doc), a);
    LineSlice(Texts(doc), a + 1, b);
    Section(LineTo(Texts(doc), a) + 1, LineFrom(Texts(doc), b), m.hash, m.tag,
            Join(Texts(doc))[LineTo(Texts(doc), a) + 1..LineFrom(Texts(doc), b)])
  }

  /** Line that closes the first section. */
  function FirstEnd(h: Hunk): nat {
    if h.base.Some? then h.base.value else h.sep
  }

  function HunkEnd(doc: seq<Line>, end: nat): nat
    requires end < |doc|
  {
    if LineTo(Texts(doc), end) < |Join(Texts(doc))| then LineTo(Texts(doc), end) + 1 else LineTo(Texts(doc), end)
  }

  /** The hunk with these marker lines, as text. */
  function Located(doc: seq<Line>, h: Hunk): ConflictHunk
    requires InDoc(doc, h)
  {
    ConflictHunk(
      LineFrom(Texts(doc), h.start), HunkEnd(doc, h.end), h.kind,
      ReadSection(doc, h.start, FirstEnd(h), doc[h.start].start.value),
      if h.base.Some?
      then Some(ReadSection(doc, h.base.value, h.sep, doc[h.base.value].base.value)) else None,
      ReadSection(doc, h.sep, h.end, doc[h.end].end.value))
  }

  datatype Action = TakeFirst | TakeSecond | TakeBoth | TakeBase

  datatype Edit = Edit(from: nat, to: nat, insert: string)

  /** The edit that resolves a hunk; none when the base it asks for is missing. */
  function ResolveHunk(hunk: ConflictHunk, action: Action): Option<Edit> {
    match action
    case TakeFirst => Some(Edit(hunk.from, hunk.to, hunk.first.text))
    case TakeSecond => Some(Edit(hunk.from, hunk.to, hunk.second.text))
    case TakeBoth => Some(Edit(hunk.from, hunk.to, hunk.first.text + hunk.second.text))
    case TakeBase => if hunk.base.None? then None else Some(Edit(hunk.from, hunk.to, hunk.base.value.text))
  }

  predicate AllInDoc(doc: seq<Line>, hunks: seq<Hunk>) {
    forall h <- hunks :: InDoc(doc, h)
  }

  function LocatedAll(doc: seq<Line>, hunks: seq<Hunk>): (r: seq<ConflictHunk>)
    requires AllInDoc(doc, hunks)
    ensures |r| == |hunks| && forall i | 0 <= i < |r| :: r[i] == Located(doc, hunks[i])
  {
    seq(|hunks|, i requires 0 <= i < |hunks| => Located(doc, hunks[i]))
  }

  lemma LocatedKinds(doc: seq<Line>, hunks: seq<Hunk>)
    requires AllInDoc(doc, hunks)
    ensures forall i | 0 <= i < |hunks| :: LocatedAll(doc, hunks)[i].kind == hunks[i].kind
  {
    hide ReadSection, LineFrom, HunkEnd;
  }

  lemma {:induction false} HunksInDoc(doc: seq<Line>, mask: seq<bool>, n: nat)
    requires |mask| == |doc|
    ensures AllInDoc(doc, HunksFrom(doc, mask, n))
    decreases |doc| - n
  {
    if n < |doc| {
      match ParseAt(doc, mask, n)
      case Parsed(h) => HunksInDoc(doc, mask, h.end + 1);
      case Resume(k) => HunksInDoc(doc, mask, k);
    }
  }

  /** The scan of one hunk from its start line, as the loop does it. */
  method ParseHunk(doc: seq<Line>, mask: seq<bool>, n: nat, start: Marker) returns (r: Attempt)
    requires |mask| == |doc| && n < |doc| && doc[n].start == Some(start)
    ensures r == ParseFrom(doc, mask, n, start)
  {
    var base: Option<nat>, sep: nat := None, 0;
    if start.kind.SB? {
      var baseResult := ScanForLine(doc, mask, n + 1, false, Some(SB), false, 7);
      if baseResult.Nested? {
        return Resume(baseResult.line + 1);
      }
      if !baseResult.Hit? {
        return Resume(n + 1);
      }
      var sepResult := ScanForLine(doc, mask, baseResult.line + 1, false, None, true, 7);
      if sepResult.Nested? {
        return Resume(sepResult.line + 1);
      }
      if !sepResult.Hit? {
        return Resume(n + 1);
      }
      base, sep := Some(baseResult.line), sepResult.line;
    } else {
      var baseOrSep := ScanForLine(doc, mask, n + 1, true, Some(Git), true, start.size);
      if baseOrSep.Nested? {
        return Resume(baseOrSep.line + 1);
      }
      if baseOrSep.Missing? {
        return Resume(n + 1);
      }
      if doc[baseOrSep.line].separator != Some(start.size) {
        var sepResult := ScanForLine(doc, mask, baseOrSep.line + 1, true, None, true, start.size);
        if sepResult.Nested? {
          return Resume(sepResult.line + 1);
        }
        if !sepResult.Hit? {
          return Resume(n + 1);
        }
        base, sep := Some(baseOrSep.line), sepResult.line;
      } else {
        sep := baseOrSep.line;
      }
    }
    var size := if start.kind.SB? then 7 else start.size;
    var endResult := ScanForEnd(doc, mask, sep + 1, start.kind.Git?, start.kind, size);
    if endResult.Nested? {
      return Resume(endResult.line + 1);
    }
    if !endResult.Hit? {
      return Resume(n + 1);
    }
    return Parsed(Hunk(start.kind, n, base, sep, endResult.line));
  }

  /** What a document from line `n` on holds. */
  lemma HunksAt(doc: seq<Line>, mask: seq<bool>, n: nat)
    requires |mask| == |doc| && n < |doc|
    ensures var r := ParseAt(doc, mask, n);
            HunksFrom(doc, mask, n) ==
            if r.Parsed? then [r.hunk] + HunksFrom(doc, mask, r.hunk.end + 1) else HunksFrom(doc, mask, r.line)
  {
  }

  /** One step of the scan for hunks. */
  lemma HunksStep(doc: seq<Line>, mask: seq<bool>, n: nat, found: seq<Hunk>)
    requires |mask| == |doc| && n < |doc|
    ensures var r := ParseAt(doc, mask, n);
            && (r.Parsed? ==>
                  found + HunksFrom(doc, mask, n) == found + [r.hunk] + HunksFrom(doc, mask, r.hunk.end + 1))
            && (r.Resume? ==> HunksFrom(doc, mask, n) == HunksFrom(doc, mask, r.line))
  {
  }

  /** One round of the loop: a line that starts nothing is passed over. */
  method TryLine(doc: seq<Line>, mask: seq<bool>, n: nat) returns (r: Attempt)
    requires |mask| == |doc| && n < |doc|
    ensures r == ParseAt(doc, mask, n)
  {
    hide ParseFrom;
    var start := doc[n].start;
    if start.None? {
      return Resume(n + 1);
    }
    if start.value.kind.Git? && mask[n] {
      return Resume(n + 1);
    }
    r := ParseHunk(doc, mask, n, start.value);
  }

  lemma HunksStart(doc: seq<Line>)
    ensures [] + HunksFrom(doc, Mask(doc), 0) == Hunks(doc)
  {
  }

  lemma StepAdvances(doc: seq<Line>, mask: seq<bool>, n: nat)
    requires |mask| == |doc| && n < |doc|
    ensures match ParseAt(doc, mask, n)
            case Parsed(h) => n == h.start <= h.end < |doc|
            case Resume(k) => n < k <= |doc|
  {
    hide ParseAt;
  }

  method FindHunks(doc: seq<Line>) returns (found: seq<Hunk>)
    ensures found == Hunks(doc)
  {
    hide *;
    var mask := ComputeFenceMask(doc);
    found := [];
    HunksStart(doc);
    var n := 0;
    while n < |doc|
      invariant found + HunksFrom(doc, mask, n) == Hunks(doc)
    {
      HunksStep(doc, mask, n, found);
      StepAdvances(doc, mask, n);
      var r := TryLine(doc, mask, n);
      match r
      case Parsed(h) =>
        found := found + [h];
        n := h.end + 1;
      case Resume(k) =>
        n := k;
    }
    NoHunksPast(doc, mask, n);
    assert found + [] == found;
  }

  lemma NoHunksPast(doc: seq<Line>, mask: seq<bool>, n: nat)
    requires |mask| == |doc| <= n
    ensures HunksFrom(doc, mask, n) == []
  {
  }

  /** All conflict hunks of a document. */
  method FindConflictHunks(doc: seq<Line>) returns (hunks: seq<ConflictHunk>)
    ensures AllInDoc(doc, Hunks(doc)) && hunks == LocatedAll(doc, Hunks(doc))
  {
    var found := FindHunks(doc);
    HunksInDoc(doc, Mask(doc), 0);
    hunks := LocatedAll(doc, found);
  }
}
