/** What sliding and converting a diff keep, and why a slide is the best one. */
module LineDiffLaws {
  import opened Sequences
  import opened ChangeSets
  import opened ChangeSetLaws
  import opened LineDiff

  // ----- equivalent positions -----

  /** What is left of `text` without the edit of length `len` at `at`. */
  function Rest(text: string, len: nat, at: nat): string
    requires at + len <= |text|
  {
    text[..at] + text[at + len..]
  }

  /** Positions of an edit are equivalent when they leave the same text. */
  predicate Equivalent(text: string, len: nat, p: nat, q: nat)
    requires p + len <= |text| && q + len <= |text|
  {
    Rest(text, len, p) == Rest(text, len, q)
  }

  /** Between equivalent positions the text repeats with period `len`. */
  lemma {:induction false} EquivalentIffPeriodic(text: string, len: nat, p: nat, q: nat)
    requires p <= q && q + len <= |text|
    ensures Equivalent(text, len, p, q) <==> forall r: nat | p <= r < q :: text[r] == text[r + len]
  {
    var x, y := Rest(text, len, p), Rest(text, len, q);
    if x == y {
      forall r: nat | p <= r < q ensures text[r] == text[r + len] {
        assert x[r] == text[r + len] && y[r] == text[r];
      }
    }
    if forall r: nat | p <= r < q :: text[r] == text[r + len] {
      forall r | 0 <= r < |x| ensures x[r] == y[r] {
      }
    }
  }

  lemma {:induction false} SlideStartReach(text: string, len: nat, from: nat)
    requires from + len <= |text|
    ensures var lo := SlideStart(text, len, from);
            && (forall r: nat | lo <= r < from :: text[r] == text[r + len])
            && (lo == 0 || text[lo - 1] != text[lo - 1 + len])
  {
    if from > 0 && text[from - 1] == text[from + len - 1] {
      SlideStartReach(text, len, from - 1);
    }
  }

  lemma {:induction false} SlideEndReach(text: string, len: nat, at: nat)
    requires at + len <= |text|
    ensures var hi := SlideEnd(text, len, at);
            && (forall r: nat | at <= r < hi :: text[r] == text[r + len])
            && (hi + len == |text| || text[hi] != text[hi + len])
    decreases |text| - at
  {
    if !(at + len >= |text| || text[at] != text[at + len]) {
      SlideEndReach(text, len, at + 1);
    }
  }

  lemma EquivalentBelow(text: string, len: nat, from: nat, p: nat)
    requires from + len <= |text| && p <= from
    ensures Equivalent(text, len, p, from) <==> SlideStart(text, len, from) <= p
  {
    SlideStartReach(text, len, from);
    EquivalentIffPeriodic(text, len, p, from);
  }

  lemma EquivalentAbove(text: string, len: nat, from: nat, p: nat)
    requires from <= p && p + len <= |text|
    ensures Equivalent(text, len, p, from) <==> p <= SlideEnd(text, len, from)
  {
    SlideEndReach(text, len, from);
    EquivalentIffPeriodic(text, len, from, p);
  }

  /** A scan that starts below `from`, in its window, ends where one from there does. */
  lemma {:induction false} SlideEndShared(text: string, len: nat, lo: nat, from: nat)
    requires lo <= from && from + len <= |text|
    requires forall r: nat | lo <= r < from :: text[r] == text[r + len]
    ensures SlideEnd(text, len, lo) == SlideEnd(text, len, from)
    decreases from - lo
  {
    if lo < from {
      SlideEndShared(text, len, lo + 1, from);
    }
  }

  /** The scan covers exactly the positions equivalent to the original one. */
  lemma ScanIsExact(text: string, len: nat, from: nat, p: nat)
    requires from + len <= |text| && p + len <= |text|
    ensures Equivalent(text, len, p, from) <==>
            SlideStart(text, len, from) <= p <= SlideEnd(text, len, SlideStart(text, len, from))
  {
    SlideStartReach(text, len, from);
    SlideEndShared(text, len, SlideStart(text, len, from), from);
    if p <= from {
      EquivalentBelow(text, len, from, p);
    } else {
      EquivalentAbove(text, len, from, p);
    }
  }

  /** No position scanned from `at` on, nor `best`, scores above the result, which
      is `best` itself or the first of those that score highest. */
  lemma {:induction false} ScanBestIsFirstBest(text: string, len: nat, at: nat, best: nat)
    requires at + len <= |text| && best + len <= |text|
    ensures var r, hi := ScanBest(text, len, at, best), SlideEnd(text, len, at);
            && Score(text, len, best) <= Score(text, len, r)
            && (forall p: nat | at <= p <= hi && p + len <= |text| :: Score(text, len, p) <= Score(text, len, r))
            && (r == best || (at <= r <= hi && Score(text, len, best) < Score(text, len, r)))
            && (r != best ==>
                  forall p: nat | at <= p < r && p + len <= |text| :: Score(text, len, p) < Score(text, len, r))
    decreases |text| - at
  {
    if !(at + len >= |text| || text[at] != text[at + len]) {
      var b := if Score(text, len, at) > Score(text, len, best) then at else best;
      ScanBestIsFirstBest(text, len, at + 1, b);
    }
  }

  /** The slide keeps the remaining text, no equivalent position scores higher,
      and it moves only for a higher score, to the first position that has it. */
  lemma BestSlideIsBest(left: string, edit: string, right: string)
    ensures var text, len, best := left + edit + right, |edit|, BestSlide(left, edit, right);
            && Rest(text, len, best) == left + right
            && (forall p: nat | p + len <= |text| && Rest(text, len, p) == left + right ::
                  Score(text, len, p) <= Score(text, len, best))
            && (best != |left| ==>
                  && Score(text, len, |left|) < Score(text, len, best)
                  && forall p: nat | p < best && Rest(text, len, p) == left + right ::
                       Score(text, len, p) < Score(text, len, best))
  {
    var text, len, from := left + edit + right, |edit|, |left|;
    assert Rest(text, len, from) == left + right;
    var lo := SlideStart(text, len, from);
    ScanBestIsFirstBest(text, len, lo, from);
    forall p: nat | p + len <= |text|
      ensures Rest(text, len, p) == left + right <==> lo <= p <= SlideEnd(text, len, lo)
    {
      ScanIsExact(text, len, from, p);
    }
  }

  // ----- the texts a diff rebuilds -----

  lemma {:induction false} TextsOfConcat(a: seq<Part>, b: seq<Part>)
    ensures OldText(a + b) == OldText(a) + OldText(b)
    ensures NewText(a + b) == NewText(a) + NewText(b)
  {
    hide *;
    if a == [] {
      NoTexts();
      NothingAdded(b);
      NothingAdded(OldText(b));
      NothingAdded(NewText(b));
    } else {
      assert (a + b)[1..] == a[1..] + b;
      TextsOfHead(a + b);
      TextsOfHead(a);
      TextsOfConcat(a[1..], b);
      Assoc(OldPart(a[0]), OldText(a[1..]), OldText(b));
      Assoc(NewPart(a[0]), NewText(a[1..]), NewText(b));
    }
  }

  lemma NoTexts()
    ensures OldText([]) == "" && NewText([]) == ""
  {
  }

  lemma TextsOfHead(parts: seq<Part>)
    requires parts != []
    ensures OldText(parts) == OldPart(parts[0]) + OldText(parts[1..])
    ensures NewText(parts) == NewPart(parts[0]) + NewText(parts[1..])
  {
    hide OldPart, NewPart;
  }

  lemma {:induction false} TextsOfOne(p: Part)
    ensures OldText([p]) == OldPart(p) && NewText([p]) == NewPart(p)
  {
    assert OldPart(p) + "" == OldPart(p) && NewPart(p) + "" == NewPart(p);
  }

  lemma {:induction false} TextsOfThree(p: Part, q: Part, r: Part)
    ensures OldText([p, q, r]) == OldPart(p) + OldPart(q) + OldPart(r)
    ensures NewText([p, q, r]) == NewPart(p) + NewPart(q) + NewPart(r)
  {
    assert [p, q, r] == [p] + [q] + [r];
    TextsOfConcat([p] + [q], [r]);
    TextsOfConcat([p], [q]);
    TextsOfOne(p);
    TextsOfOne(q);
    TextsOfOne(r);
  }

  lemma {:induction false} SameTextsOfThree(left: string, right: string, op: Op, edit: string, a: string, b: string,
                                            m: string)
    requires !op.Equal? && left + right == a + b && left + edit + right == a + m + b
    ensures SameTexts([Part(Equal, left), Part(op, edit), Part(Equal, right)],
                      [Part(Equal, a), Part(op, m), Part(Equal, b)])
  {
    TextsOfThree(Part(Equal, left), Part(op, edit), Part(Equal, right));
    TextsOfThree(Part(Equal, a), Part(op, m), Part(Equal, b));
    assert left + "" + right == left + right && a + "" + b == a + b;
  }

  /** The three parts a slide writes rebuild both texts. */
  lemma SlideKeepsThree(left: string, op: Op, edit: string, right: string, text: string, best: nat)
    requires !op.Equal? && text == left + edit + right && best == BestSlide(left, edit, right)
    ensures SameTexts([Part(Equal, left), Part(op, edit), Part(Equal, right)],
                      [Part(Equal, text[..best]), Part(op, text[best..best + |edit|]),
                       Part(Equal, text[best + |edit|..])])
  {
    BestSlideIsBest(left, edit, right);
    assert text == text[..best] + text[best..best + |edit|] + text[best + |edit|..];
    SameTextsOfThree(left, right, op, edit, text[..best], text[best + |edit|..], text[best..best + |edit|]);
  }

  predicate SameTexts(s: seq<Part>, t: seq<Part>) {
    OldText(s) == OldText(t) && NewText(s) == NewText(t)
  }

  lemma {:induction false} SameTextsInside(pre: seq<Part>, s: seq<Part>, t: seq<Part>, post: seq<Part>)
    requires SameTexts(s, t)
    ensures SameTexts(pre + s + post, pre + t + post)
  {
    TextsOfConcat(pre + s, post);
    TextsOfConcat(pre, s);
    TextsOfConcat(pre + t, post);
    TextsOfConcat(pre, t);
  }

  lemma {:induction false} SameTextsThree(s: seq<Part>, s': seq<Part>, i: nat)
    requires 0 < i && i + 1 < |s| == |s'|
    requires s'[..i - 1] == s[..i - 1] && s'[i + 2..] == s[i + 2..]
    requires SameTexts(s[i - 1..i + 2], s'[i - 1..i + 2])
    ensures SameTexts(s, s')
  {
    SameTextsInside(s[..i - 1], s[i - 1..i + 2], s'[i - 1..i + 2], s[i + 2..]);
    assert s[..i - 1] + s[i - 1..i + 2] + s[i + 2..] == s;
    assert s[..i - 1] + s'[i - 1..i + 2] + s[i + 2..] == s';
  }

  lemma {:induction false} MovedShape(s: seq<Part>, i: nat, best: nat)
    requires Slidable(s, i) && best + |s[i].text| <= |s[i - 1].text + s[i].text + s[i + 1].text|
    ensures var s', text, end := MovedTo(s, i, best), s[i - 1].text + s[i].text + s[i + 1].text, best + |s[i].text|;
            && s'[..i - 1] == s[..i - 1] && s'[i + 2..] == s[i + 2..]
            && s[i - 1..i + 2] == [Part(Equal, s[i - 1].text), Part(s[i].op, s[i].text), Part(Equal, s[i + 1].text)]
            && s'[i - 1..i + 2] == [Part(Equal, text[..best]), Part(s[i].op, text[best..end]), Part(Equal, text[end..])]
  {
  }

  lemma {:induction false} MovedKeepsTexts(s: seq<Part>, i: nat, best: nat)
    requires Slidable(s, i) && best == BestSlide(s[i - 1].text, s[i].text, s[i + 1].text)
    ensures SameTexts(s, MovedTo(s, i, best))
  {
    hide BestSlide, MovedTo, SameTexts;
    MovedShape(s, i, best);
    SlideKeepsThree(s[i - 1].text, s[i].op, s[i].text, s[i + 1].text, s[i - 1].text + s[i].text + s[i + 1].text, best);
    SameTextsThree(s, MovedTo(s, i, best), i);
  }

  lemma {:induction false} SlidAtKeepsTexts(s: seq<Part>, i: nat)
    ensures SameTexts(s, SlidAt(s, i))
  {
    if SlidAt(s, i) != s {
      MovedKeepsTexts(s, i, BestSlide(s[i - 1].text, s[i].text, s[i + 1].text));
    }
  }

  lemma {:induction false} SlidFromKeepsTexts(s: seq<Part>, i: nat)
    ensures SameTexts(s, SlidFrom(s, i))
    decreases |s| - i
  {
    if i < |s| {
      SlidAtKeepsTexts(s, i);
      SlidFromKeepsTexts(SlidAt(s, i), i + 1);
    }
  }

  lemma {:induction false} NonEmptyKeepsTexts(s: seq<Part>)
    ensures SameTexts(s, NonEmpty(s))
  {
    if s != [] {
      NonEmptyKeepsTexts(s[1..]);
      var kept := if |s[0].text| > 0 then [s[0]] else [];
      TextsOfConcat(kept, NonEmpty(s[1..]));
      assert OldText(kept) == OldPart(s[0]) && NewText(kept) == NewPart(s[0]) by {
        assert OldPart(s[0]) + "" == OldPart(s[0]) && NewPart(s[0]) + "" == NewPart(s[0]);
      }
    }
  }

  /** All slides together keep both texts. */
  lemma AlignedKeepsTexts(raw: seq<Part>)
    ensures SameTexts(raw, Aligned(raw))
  {
    var edge := [Part(Equal, "")];
    TextsOfConcat(edge + raw, edge);
    TextsOfConcat(edge, raw);
    SlidFromKeepsTexts(Framed(raw), 0);
    NonEmptyKeepsTexts(SlidFrom(Framed(raw), 0));
    assert OldText(edge) == "" && NewText(edge) == "";
    assert "" + OldText(raw) + "" == OldText(raw) && "" + NewText(raw) + "" == NewText(raw);
  }

  // ----- from a diff to a change set -----

  lemma {:induction false} SpecsOrdered(parts: seq<Part>, pos: nat, start: nat)
    requires pos <= start
    ensures Ordered(SpecsOf(parts, start), pos, start + |OldText(parts)|)
  {
    if parts != [] {
      var p := parts[0];
      var next := if p.op.Insert? then start else start + |p.text|;
      if p.op.Equal? {
        SpecsOrdered(parts[1..], pos, next);
      } else {
        SpecsOrdered(parts[1..], next, next);
        assert SpecsOf(parts, start)[1..] == SpecsOf(parts[1..], next);
      }
    }
  }

  /** The parts of a diff as one change set. */
  function EditsOf(parts: seq<Part>): (r: Edits)
    ensures LenBefore(r) == |OldText(parts)|
  {
    if parts == [] then Done
    else if parts[0].op.Equal? then KeepThen(|parts[0].text|, EditsOf(parts[1..]))
    else ReplaceThen(|OldPart(parts[0])|, NewPart(parts[0]), EditsOf(parts[1..]))
  }

  lemma {:induction false} EditsOfRebuild(parts: seq<Part>)
    ensures Apply(EditsOf(parts), OldText(parts)) == NewText(parts)
  {
    if parts != [] {
      var p, rest := parts[0], parts[1..];
      var e := EditsOf(rest);
      EditsOfRebuild(rest);
      SplitConcat(OldPart(p), OldText(rest));
      if p.op.Equal? {
        ApplyKeepThen(|p.text|, e, OldText(parts));
      } else {
        ApplyReplaceThen(|OldPart(p)|, NewPart(p), e, OldText(parts));
      }
    }
  }

  lemma {:induction false} KeepThenTwice(n: nat, m: nat, e: Edits)
    ensures KeepThen(n, KeepThen(m, e)) == KeepThen(n + m, e)
  {
  }

  /** `ChangeSet.of` reads the change list as the walk over the parts. */
  lemma {:induction false} SpecsAreEdits(parts: seq<Part>, pos: nat, start: nat, length: nat)
    requires pos <= start && length == start + |OldText(parts)|
    requires Ordered(SpecsOf(parts, start), pos, length)
    ensures Of(SpecsOf(parts, start), pos, length) == KeepThen(start - pos, EditsOf(parts))
    decreases |parts|, 1
  {
    if parts == [] {
    } else if parts[0].op.Equal? {
      EqualSpecIsKept(parts, pos, start, length);
    } else {
      EditSpecIsEdit(parts, pos, start, length);
    }
  }

  lemma {:induction false} EqualSpecIsKept(parts: seq<Part>, pos: nat, start: nat, length: nat)
    requires pos <= start && length == start + |OldText(parts)| && parts != [] && parts[0].op.Equal?
    requires Ordered(SpecsOf(parts, start), pos, length)
    ensures Of(SpecsOf(parts, start), pos, length) == KeepThen(start - pos, EditsOf(parts))
    decreases |parts|, 0
  {
    var n, rest := |parts[0].text|, parts[1..];
    assert SpecsOf(parts, start) == SpecsOf(rest, start + n);
    SpecsAreEdits(rest, pos, start + n, length);
    KeepThenTwice(start - pos, n, EditsOf(rest));
  }

  lemma {:induction false} EditSpecIsEdit(parts: seq<Part>, pos: nat, start: nat, length: nat)
    requires pos <= start && length == start + |OldText(parts)| && parts != [] && !parts[0].op.Equal?
    requires Ordered(SpecsOf(parts, start), pos, length)
    ensures Of(SpecsOf(parts, start), pos, length) == KeepThen(start - pos, EditsOf(parts))
    decreases |parts|, 0
  {
    hide *;
    var p, rest := parts[0], parts[1..];
    var next := start + |OldPart(p)|;
    EditSpec(parts, start);
    EditsOfEdit(parts);
    OfStep(SpecsOf(parts, start), pos, length, SpecsOf(rest, next), next);
    SpecsAreEdits(rest, next, next, length);
    KeepNothing(EditsOf(rest));
  }

  lemma {:induction false} EditsOfEdit(parts: seq<Part>)
    requires parts != [] && !parts[0].op.Equal?
    ensures |OldText(parts)| == |OldPart(parts[0])| + |OldText(parts[1..])|
    ensures EditsOf(parts) == ReplaceThen(|OldPart(parts[0])|, NewPart(parts[0]), EditsOf(parts[1..]))
  {
    hide ReplaceThen;
  }

  lemma {:induction false} OfStep(specs: seq<ChangeSpec>, pos: nat, length: nat, rest: seq<ChangeSpec>, next: nat)
    requires Ordered(specs, pos, length) && specs != [] && rest == specs[1..] && next == SpecEnd(specs[0])
    ensures Ordered(rest, next, length)
    ensures Of(specs, pos, length) ==
            KeepThen(specs[0].from - pos,
                     ReplaceThen(next - specs[0].from, if specs[0].InsertAt? then specs[0].insert else "",
                                 Of(rest, next, length)))
  {
    hide KeepThen, ReplaceThen, Normal, LenBefore;
  }

  lemma {:induction false} EditSpec(parts: seq<Part>, start: nat)
    requires parts != [] && !parts[0].op.Equal?
    ensures var c, specs := parts[0], SpecsOf(parts, start);
            && specs != [] && specs[1..] == SpecsOf(parts[1..], start + |OldPart(c)|)
            && specs[0].from == start && SpecEnd(specs[0]) == start + |OldPart(c)|
            && NewPart(c) == if specs[0].InsertAt? then specs[0].insert else ""
  {
  }

  /** `ChangeSet.of(diffAndPrepareChanges(a, b), a.length)`. */
  function Diffed(diff: Differ, a: string, b: string): (r: Edits)
    requires OldText(diff(a, b)) == a
    ensures Fits(r, |a|)
  {
    AlignedKeepsTexts(diff(a, b));
    SpecsOrdered(Aligned(diff(a, b)), 0, 0);
    Of(SpecsOf(Aligned(diff(a, b)), 0), 0, |a|)
  }

  /** Applied to the old text, the changes give the new one. */
  lemma DiffedRebuilds(diff: Differ, a: string, b: string)
    requires OldText(diff(a, b)) == a && NewText(diff(a, b)) == b
    ensures Apply(Diffed(diff, a, b), a) == b
  {
    var parts := Aligned(diff(a, b));
    AlignedKeepsTexts(diff(a, b));
    hide Aligned, EditsOf, SpecsOf, Of, Apply, OldText, NewText;
    SpecsOrdered(parts, 0, 0);
    SpecsAreEdits(parts, 0, 0, |a|);
    EditsOfRebuild(parts);
    KeepNothing(EditsOf(parts));
  }

  lemma KeepNothing(e: Edits)
    ensures KeepThen(0, e) == e
  {
  }

  // ----- a diff without edits -----

  predicate AllEqual(s: seq<Part>) {
    forall i | 0 <= i < |s| :: s[i].op.Equal?
  }

  lemma {:induction false} SlidAllEqual(s: seq<Part>, i: nat)
    requires AllEqual(s)
    ensures SlidFrom(s, i) == s
    decreases |s| - i
  {
    if i < |s| {
      SlidAllEqual(s, i + 1);
    }
  }

  lemma {:induction false} NonEmptyAllEqual(s: seq<Part>)
    requires AllEqual(s)
    ensures AllEqual(NonEmpty(s))
  {
    if s != [] {
      NonEmptyAllEqual(s[1..]);
    }
  }

  lemma {:induction false} NoSpecs(s: seq<Part>, start: nat)
    requires AllEqual(s)
    ensures SpecsOf(s, start) == []
  {
    if s != [] {
      NoSpecs(s[1..], start + |s[0].text|);
    }
  }

  /** Equal texts give the empty change set. */
  lemma DiffedEqual(diff: Differ, a: string)
    requires ValidDiffer(diff)
    ensures IsEmpty(Diffed(diff, a, a))
  {
    var raw := diff(a, a);
    assert AllEqual(raw);
    assert AllEqual(Framed(raw));
    SlidAllEqual(Framed(raw), 0);
    NonEmptyAllEqual(Framed(raw));
    NoSpecs(Aligned(raw), 0);
  }
}
