/** Diffs of two texts, slid to line starts and turned into changes. */
module LineDiff {
  import opened Sequences
  import opened ChangeSets

  datatype Op = Equal | Insert | Delete

  datatype Part = Part(op: Op, text: string)

  /** What one part contributes to the old and to the new text. */
  function OldPart(p: Part): string {
    if p.op.Insert? then "" else p.text
  }

  function NewPart(p: Part): string {
    if p.op.Delete? then "" else p.text
  }

  function OldText(parts: seq<Part>): string {
    if parts == [] then "" else OldPart(parts[0]) + OldText(parts[1..])
  }

  function NewText(parts: seq<Part>): string {
    if parts == [] then "" else NewPart(parts[0]) + NewText(parts[1..])
  }

  /** The diff library: any list of parts that rebuilds both texts, without an
      edit between equal texts. */
  type Differ = (string, string) -> seq<Part>

  ghost predicate ValidDiffer(diff: Differ) {
    && (forall a, b :: OldText(diff(a, b)) == a && NewText(diff(a, b)) == b)
    && (forall a, i | 0 <= i < |diff(a, a)| :: diff(a, a)[i].op.Equal?)
  }

  // ----- sliding one edit -----

  predicate AtLineStart(text: string, at: nat)
    requires at <= |text|
  {
    at > 0 && text[at - 1] == '\n'
  }

  /** How many ends of the edit of length `len` at `at` fall on line starts. */
  function Score(text: string, len: nat, at: nat): nat
    requires at + len <= |text|
  {
    (if at == 0 || AtLineStart(text, at) then 1 else 0) +
    (if at + len == |text| || AtLineStart(text, at + len) then 1 else 0)
  }

  function SlideStart(text: string, len: nat, from: nat): (r: nat)
    requires from + len <= |text|
    ensures r <= from
  {
    if from > 0 && text[from - 1] == text[from + len - 1] then SlideStart(text, len, from - 1) else from
  }

  function SlideEnd(text: string, len: nat, at: nat): (r: nat)
    requires at + len <= |text|
    ensures at <= r && r + len <= |text|
    decreases |text| - at
  {
    if at + len >= |text| || text[at] != text[at + len] then at else SlideEnd(text, len, at + 1)
  }

  /** The best position from `at` on, `best` being the best so far. */
  function ScanBest(text: string, len: nat, at: nat, best: nat): (r: nat)
    requires at + len <= |text| && best + len <= |text|
    ensures r + len <= |text|
    decreases |text| - at
  {
    var b := if Score(text, len, at) > Score(text, len, best) then at else best;
    if at + len >= |text| || text[at] != text[at + len] then b else ScanBest(text, len, at + 1, b)
  }

  function BestSlide(left: string, edit: string, right: string): (r: nat)
    ensures r + |edit| <= |left + edit + right|
  {
    var text := left + edit + right;
    ScanBest(text, |edit|, SlideStart(text, |edit|, |left|), |left|)
  }

  method FindBestSlide(left: string, edit: string, right: string) returns (best: nat)
    ensures best == BestSlide(left, edit, right)
  {
    var text, len := left + edit + right, |edit|;
    var from: nat := |left|;
    while from > 0 && text[from - 1] == text[from + len - 1]
      invariant from <= |left|
      invariant SlideStart(text, len, from) == SlideStart(text, len, |left|)
    {
      from := from - 1;
    }
    best := |left|;
    var at := from;
    while true
      invariant at + len <= |text| && best + len <= |text|
      invariant ScanBest(text, len, at, best) == BestSlide(left, edit, right)
      decreases |text| - at
    {
      if Score(text, len, at) > Score(text, len, best) {
        best := at;
      }
      if at + len >= |text| || text[at] != text[at + len] {
        break;
      }
      at := at + 1;
    }
  }

  // ----- aligning a whole diff -----

  /** Position `i` is an edit between two kept parts. */
  predicate Slidable(s: seq<Part>, i: nat) {
    0 < i && i + 1 < |s| && !s[i].op.Equal? && s[i - 1].op.Equal? && s[i + 1].op.Equal?
  }

  /** The edit at `i` moved to offset `best` of the text it and its neighbours form. */
  function MovedTo(s: seq<Part>, i: nat, best: nat): (r: seq<Part>)
    requires Slidable(s, i) && best + |s[i].text| <= |s[i - 1].text + s[i].text + s[i + 1].text|
    ensures |r| == |s|
  {
    var text := s[i - 1].text + s[i].text + s[i + 1].text;
    var end := best + |s[i].text|;
    s[i - 1 := Part(Equal, text[..best])][i := Part(s[i].op, text[best..end])][i + 1 := Part(Equal, text[end..])]
  }

  /** The diff after position `i` of it has been slid. */
  function SlidAt(s: seq<Part>, i: nat): (r: seq<Part>)
    ensures |r| == |s|
  {
    if !Slidable(s, i) then s
    else
      var best := BestSlide(s[i - 1].text, s[i].text, s[i + 1].text);
      if best == |s[i - 1].text| then s else MovedTo(s, i, best)
  }

  function SlidFrom(s: seq<Part>, i: nat): (r: seq<Part>)
    ensures |r| == |s|
    decreases |s| - i
  {
    if i < |s| then SlidFrom(SlidAt(s, i), i + 1) else s
  }

  function NonEmpty(s: seq<Part>): seq<Part> {
    if s == [] then []
    else (if |s[0].text| > 0 then [s[0]] else []) + NonEmpty(s[1..])
  }

  function Framed(raw: seq<Part>): seq<Part> {
    [Part(Equal, "")] + raw + [Part(Equal, "")]
  }

  function Aligned(raw: seq<Part>): seq<Part> {
    NonEmpty(SlidFrom(Framed(raw), 0))
  }

  method AlignToLineStarts(raw: seq<Part>) returns (parts: seq<Part>)
    ensures parts == Aligned(raw)
  {
    var framed := Framed(raw);
    var diffs := new Part[|framed|](i requires 0 <= i < |framed| => framed[i]);
    assert diffs[..] == framed;
    for i := 0 to diffs.Length
      invariant SlidFrom(diffs[..], i) == SlidFrom(framed, 0)
      invariant diffs[0].op.Equal? && diffs[diffs.Length - 1].op.Equal?
    {
      SlideOne(diffs, i);
    }
    parts := [];
    for i := 0 to diffs.Length
      invariant diffs[..] == SlidFrom(framed, 0)
      invariant parts == NonEmpty(diffs[..i])
    {
      assert diffs[..i + 1] == diffs[..i] + [diffs[i]];
      NonEmptyAppend(diffs[..i], diffs[i]);
      if |diffs[i].text| > 0 {
        parts := parts + [diffs[i]];
      }
    }
    assert diffs[..diffs.Length] == diffs[..];
  }

  /** One round of the loop: overwrites the edit and both its neighbours. */
  method SlideOne(diffs: array<Part>, i: nat)
    requires i < diffs.Length && diffs[0].op.Equal? && diffs[diffs.Length - 1].op.Equal?
    modifies diffs
    ensures diffs[..] == SlidAt(old(diffs[..]), i)
    ensures diffs[0].op.Equal? && diffs[diffs.Length - 1].op.Equal?
  {
    hide BestSlide;
    var op, edit := diffs[i].op, diffs[i].text;
    if op.Equal? {
      return;
    }
    var prev, next := diffs[i - 1], diffs[i + 1];
    if !prev.op.Equal? || !next.op.Equal? {
      return;
    }
    var left := prev.text;
    var text := left + edit + next.text;
    var best := FindBestSlide(left, edit, next.text);
    if best == |left| {
      return;
    }
    diffs[i - 1] := Part(Equal, text[..best]);
    diffs[i] := Part(op, text[best..best + |edit|]);
    diffs[i + 1] := Part(Equal, text[best + |edit|..]);
  }

  lemma {:induction false} NonEmptyAppend(s: seq<Part>, p: Part)
    ensures NonEmpty(s + [p]) == NonEmpty(s) + if |p.text| > 0 then [p] else []
  {
    if s == [] {
      assert s + [p] == [p];
    } else {
      assert (s + [p])[1..] == s[1..] + [p];
      NonEmptyAppend(s[1..], p);
      Assoc(if |s[0].text| > 0 then [s[0]] else [], NonEmpty(s[1..]), if |p.text| > 0 then [p] else []);
    }
  }

  // ----- changes -----

  datatype ChangeSpec = InsertAt(from: nat, insert: string) | DeleteRange(from: nat, to: nat)

  function SpecsOf(parts: seq<Part>, start: nat): seq<ChangeSpec> {
    if parts == [] then []
    else
      var p, rest := parts[0], parts[1..];
      match p.op
      case Insert => [InsertAt(start, p.text)] + SpecsOf(rest, start)
      case Equal => SpecsOf(rest, start + |p.text|)
      case Delete => [DeleteRange(start, start + |p.text|)] + SpecsOf(rest, start + |p.text|)
  }

  method DiffAndPrepareChanges(diff: Differ, oldString: string, newString: string) returns (changes: seq<ChangeSpec>)
    ensures changes == SpecsOf(Aligned(diff(oldString, newString)), 0)
  {
    hide Aligned, SpecsOf;
    var diffs := AlignToLineStarts(diff(oldString, newString));
    var startIndex: nat := 0;
    changes := [];
    for i := 0 to |diffs|
      invariant changes + SpecsOf(diffs[i..], startIndex) == SpecsOf(diffs, 0)
    {
      var part := diffs[i];
      NextSpec(diffs, i, startIndex, changes);
      match part.op
      case Insert =>
        changes := changes + [InsertAt(startIndex, part.text)];
      case Equal =>
        startIndex := startIndex + |part.text|;
      case Delete =>
        changes := changes + [DeleteRange(startIndex, startIndex + |part.text|)];
        startIndex := startIndex + |part.text|;
    }
    NoPartsNoSpecs(diffs[|diffs|..], startIndex, changes);
  }

  lemma NoPartsNoSpecs(parts: seq<Part>, start: nat, changes: seq<ChangeSpec>)
    requires parts == []
    ensures changes + SpecsOf(parts, start) == changes
  {
  }

  /** What the part at `i` adds to the list of changes. */
  lemma {:induction false} NextSpec(parts: seq<Part>, i: nat, start: nat, changes: seq<ChangeSpec>)
    requires i < |parts|
    ensures var p, n := parts[i], |parts[i].text|;
            changes + SpecsOf(parts[i..], start) ==
            match p.op
            case Insert => changes + [InsertAt(start, p.text)] + SpecsOf(parts[i + 1..], start)
            case Equal => changes + SpecsOf(parts[i + 1..], start + n)
            case Delete => changes + [DeleteRange(start, start + n)] + SpecsOf(parts[i + 1..], start + n)
  {
    assert parts[i..][0] == parts[i] && parts[i..][1..] == parts[i + 1..];
  }

  function SpecEnd(c: ChangeSpec): nat {
    if c.InsertAt? then c.from else c.to
  }

  predicate Ordered(specs: seq<ChangeSpec>, pos: nat, length: nat) {
    if specs == [] then pos <= length
    else pos <= specs[0].from <= SpecEnd(specs[0]) && Ordered(specs[1..], SpecEnd(specs[0]), length)
  }

  /** `ChangeSet.of` from old offset `pos` on. */
  function Of(specs: seq<ChangeSpec>, pos: nat, length: nat): (r: Edits)
    requires Ordered(specs, pos, length)
    ensures pos <= length && Fits(r, length - pos)
  {
    if specs == [] then KeepThen(length - pos, Done)
    else
      var c, rest := specs[0], Of(specs[1..], SpecEnd(specs[0]), length);
      KeepThen(c.from - pos, ReplaceThen(SpecEnd(c) - c.from, if c.InsertAt? then c.insert else "", rest))
  }
}
