/** Slid diffs in terms of line breaks: where an edit is slid to, the rounds that
    slide a whole diff, and the list of changes read off it. */
module SlideForms {
  import opened Sequences
  import opened LineDiff
  import opened LineDiffLaws

  /** How many ends of the stretch of length `len` at `at` are edges of the text or
      stand behind a line break. */
  function EndsAtBreaks(text: string, len: nat, at: nat): nat
    requires at + len <= |text|
  {
    (if at == 0 || text[at - 1] == '\n' then 1 else 0) +
    (if at + len == |text| || (at + len > 0 && text[at + len - 1] == '\n') then 1 else 0)
  }

  lemma ScoreIs(text: string, len: nat, at: nat)
    requires at + len <= |text|
    ensures Score(text, len, at) == EndsAtBreaks(text, len, at)
  {
  }

  /** The edit can stand at `p`: without it, the same text is left. */
  predicate CanStandAt(left: string, edit: string, right: string, p: nat) {
    var text := left + edit + right;
    p + |edit| <= |text| && text[..p] + text[p + |edit|..] == left + right
  }

  /** An edit is slid to a place where it can stand with as many ends at line breaks
      as anywhere; away from its own only for more, and then to the first such. */
  ghost predicate IsBest(left: string, edit: string, right: string, best: nat) {
    var text, len := left + edit + right, |edit|;
    && CanStandAt(left, edit, right, best)
    && (forall p: nat | CanStandAt(left, edit, right, p) ::
          EndsAtBreaks(text, len, p) <= EndsAtBreaks(text, len, best))
    && (best != |left| ==>
          && EndsAtBreaks(text, len, |left|) < EndsAtBreaks(text, len, best)
          && forall p: nat | p < best && CanStandAt(left, edit, right, p) ::
               EndsAtBreaks(text, len, p) < EndsAtBreaks(text, len, best))
  }

  lemma BestSlideIff(left: string, edit: string, right: string, best: nat)
    ensures IsBest(left, edit, right, best) <==> best == BestSlide(left, edit, right)
  {
    var text, len, b := left + edit + right, |edit|, BestSlide(left, edit, right);
    BestSlideIsBest(left, edit, right);
    forall p: nat | p + len <= |text| ensures Score(text, len, p) == EndsAtBreaks(text, len, p) {
      ScoreIs(text, len, p);
    }
    StandsWhereItIs(left, edit, right);
    hide Score, EndsAtBreaks, BestSlide;
    assert IsBest(left, edit, right, b);
    if IsBest(left, edit, right, best) {
      assert CanStandAt(left, edit, right, b) && CanStandAt(left, edit, right, best);
    }
  }

  lemma StandsWhereItIs(left: string, edit: string, right: string)
    ensures CanStandAt(left, edit, right, |left|)
  {
  }

  // ----- a whole diff -----

  /** Round `i`: an edit between two kept parts is slid to its best place in the
      text the three make; any other part stays. */
  ghost predicate IsRound(s: seq<Part>, s': seq<Part>, i: nat) {
    if 0 < i && i + 1 < |s| && s[i].op != Equal && s[i - 1].op == Equal && s[i + 1].op == Equal then
      var left, edit, right := s[i - 1].text, s[i].text, s[i + 1].text;
      var text := left + edit + right;
      exists best: nat ::
        && IsBest(left, edit, right, best) && best + |edit| <= |text|
        && s' == s[..i - 1] +
                 [Part(Equal, text[..best]), Part(s[i].op, text[best..best + |edit|]),
                  Part(Equal, text[best + |edit|..])] + s[i + 2..]
    else s' == s
  }

  /** The three parts at `i` with the edit at `best`. */
  function Written(s: seq<Part>, i: nat, best: nat): seq<Part>
    requires Slidable(s, i) && best + |s[i].text| <= |s[i - 1].text + s[i].text + s[i + 1].text|
  {
    var text, end := s[i - 1].text + s[i].text + s[i + 1].text, best + |s[i].text|;
    s[..i - 1] + [Part(Equal, text[..best]), Part(s[i].op, text[best..end]), Part(Equal, text[end..])] + s[i + 2..]
  }

  lemma WrittenIsRound(s: seq<Part>, i: nat, best: nat)
    requires Slidable(s, i) && best + |s[i].text| <= |s[i - 1].text + s[i].text + s[i + 1].text|
    requires IsBest(s[i - 1].text, s[i].text, s[i + 1].text, best)
    ensures IsRound(s, Written(s, i, best), i)
  {
    hide IsBest;
  }

  lemma OtherIsRound(s: seq<Part>, i: nat)
    requires !Slidable(s, i)
    ensures IsRound(s, s, i) && SlidAt(s, i) == s
  {
    hide IsBest, BestSlide, MovedTo;
  }

  lemma SlidAtIsWritten(s: seq<Part>, i: nat)
    requires Slidable(s, i)
    ensures SlidAt(s, i) == Written(s, i, BestSlide(s[i - 1].text, s[i].text, s[i + 1].text))
  {
    hide BestSlide, MovedTo, Written;
    var best := BestSlide(s[i - 1].text, s[i].text, s[i + 1].text);
    MovedAsWritten(s, i, best);
    if best == |s[i - 1].text| {
      WrittenInPlace(s, i);
    }
  }

  lemma WrittenInPlace(s: seq<Part>, i: nat)
    requires Slidable(s, i)
    ensures Written(s, i, |s[i - 1].text|) == s
  {
    var left, edit, right := s[i - 1].text, s[i].text, s[i + 1].text;
    PartsOfThree(left, edit, right);
    assert s == s[..i - 1] + [s[i - 1], s[i], s[i + 1]] + s[i + 2..];
  }

  lemma SlidAtIsRound(s: seq<Part>, i: nat)
    ensures IsRound(s, SlidAt(s, i), i)
  {
    hide IsRound, SlidAt, BestSlide, IsBest, MovedTo, Written;
    if Slidable(s, i) {
      var best := BestSlide(s[i - 1].text, s[i].text, s[i + 1].text);
      BestSlideIff(s[i - 1].text, s[i].text, s[i + 1].text, best);
      SlidAtIsWritten(s, i);
      WrittenIsRound(s, i, best);
    } else {
      OtherIsRound(s, i);
    }
  }

  lemma PartsOfThree(left: string, edit: string, right: string)
    ensures var text := left + edit + right;
            text[..|left|] == left && text[|left|..|left| + |edit|] == edit && text[|left| + |edit|..] == right
  {
  }

  lemma MovedAsWritten(s: seq<Part>, i: nat, best: nat)
    requires Slidable(s, i) && best + |s[i].text| <= |s[i - 1].text + s[i].text + s[i + 1].text|
    ensures MovedTo(s, i, best) == Written(s, i, best)
  {
  }

  /** One round for every part, in order. */
  ghost predicate AreRounds(states: seq<seq<Part>>, from: nat) {
    forall k | 0 < k < |states| :: IsRound(states[k - 1], states[k], from + k - 1)
  }

  lemma {:induction false} SlidInRounds(s: seq<Part>, i: nat) returns (states: seq<seq<Part>>)
    requires i <= |s|
    ensures |states| == |s| - i + 1 && states[0] == s && states[|s| - i] == SlidFrom(s, i) && AreRounds(states, i)
    decreases |s| - i
  {
    hide SlidAt, IsRound;
    if i == |s| {
      states := [s];
    } else {
      SlidAtIsRound(s, i);
      var rest := SlidInRounds(SlidAt(s, i), i + 1);
      states := [s] + rest;
      forall k | 0 < k < |states| ensures IsRound(states[k - 1], states[k], i + k - 1) {
        if k > 1 {
          assert states[k - 1] == rest[k - 2] && states[k] == rest[k - 1];
        }
      }
    }
  }

  /** A diff is aligned by a round for each of its parts, with an empty kept part
      put at either end; then empty parts are left out. */
  lemma AlignedInRounds(raw: seq<Part>)
    ensures exists states: seq<seq<Part>> ::
              && |states| == |raw| + 3 && states[0] == [Part(Equal, "")] + raw + [Part(Equal, "")]
              && AreRounds(states, 0) && Aligned(raw) == NonEmpty(states[|raw| + 2])
  {
    hide SlidFrom, AreRounds, NonEmpty;
    var framed := Framed(raw);
    var states := SlidInRounds(framed, 0);
    assert Aligned(raw) == NonEmpty(states[|raw| + 2]);
  }

  /** Parts are left out one by one, the empty ones exactly. */
  lemma {:induction false} NonEmptyOfBoth(a: seq<Part>, b: seq<Part>)
    ensures NonEmpty(a + b) == NonEmpty(a) + NonEmpty(b)
  {
    if a == [] {
      NothingAdded(b);
      NothingAdded(NonEmpty(b));
    } else {
      NonEmptyOfBoth(a[1..], b);
      assert (a + b)[1..] == a[1..] + b;
      Assoc(if |a[0].text| > 0 then [a[0]] else [], NonEmpty(a[1..]), NonEmpty(b));
    }
  }

  lemma NonEmptyOfOne(p: Part)
    ensures NonEmpty([p]) == if p.text == "" then [] else [p]
  {
  }

  // ----- the list of changes -----

  /** What stands in the old text of a part. */
  function OldLength(p: Part): nat {
    match p.op
    case Equal => |p.text|
    case Delete => |p.text|
    case Insert => 0
  }

  function OldLengths(parts: seq<Part>): nat {
    if parts == [] then 0 else OldLengths(parts[..|parts| - 1]) + OldLength(parts[|parts| - 1])
  }

  lemma SpecsOfOne(p: Part, start: nat)
    ensures SpecsOf([p], start) ==
            match p.op
            case Equal => []
            case Insert => [InsertAt(start, p.text)]
            case Delete => [DeleteRange(start, start + |p.text|)]
  {
    assert [p][1..] == [];
  }

  lemma SpecsOfHead(parts: seq<Part>, start: nat)
    requires parts != []
    ensures SpecsOf(parts, start) == SpecsOf([parts[0]], start) + SpecsOf(parts[1..], start + |OldPart(parts[0])|)
  {
    var p := parts[0];
    SpecsOfOne(p, start);
    SpecsStep(parts, start);
    hide SpecsOf;
    NothingAdded(SpecsOf(parts[1..], start + |OldPart(p)|));
  }

  lemma SpecsStep(parts: seq<Part>, start: nat)
    requires parts != []
    ensures var p, rest := parts[0], SpecsOf(parts[1..], start + |OldPart(parts[0])|);
            SpecsOf(parts, start) ==
            match p.op
            case Equal => rest
            case Insert => [InsertAt(start, p.text)] + rest
            case Delete => [DeleteRange(start, start + |p.text|)] + rest
  {
  }

  lemma {:induction false} SpecsOfBoth(a: seq<Part>, b: seq<Part>, start: nat)
    ensures SpecsOf(a + b, start) == SpecsOf(a, start) + SpecsOf(b, start + |OldText(a)|)
  {
    if a == [] {
      NothingAdded(b);
      NothingAdded(SpecsOf(b, start));
    } else {
      hide SpecsOf, OldPart;
      var next := start + |OldPart(a[0])|;
      SpecsOfBoth(a[1..], b, next);
      assert (a + b)[1..] == a[1..] + b && (a + b)[0] == a[0];
      SpecsOfHead(a, start);
      SpecsOfHead(a + b, start);
      Assoc(SpecsOf([a[0]], start), SpecsOf(a[1..], next), SpecsOf(b, next + |OldText(a[1..])|));
    }
  }

  lemma {:induction false} OldLengthsAre(parts: seq<Part>)
    ensures OldLengths(parts) == |OldText(parts)|
  {
    if parts != [] {
      var n := |parts| - 1;
      OldLengthsAre(parts[..n]);
      assert parts == parts[..n] + [parts[n]];
      TextsOfConcat(parts[..n], [parts[n]]);
      TextsOfOne(parts[n]);
    }
  }

  /** The changes are listed part by part, each at the offset in the old text that
      the parts before it take up. */
  lemma SpecsInOrder(parts: seq<Part>, p: Part)
    ensures SpecsOf([], 0) == []
    ensures var at := OldLengths(parts);
            SpecsOf(parts + [p], 0) ==
            SpecsOf(parts, 0) +
            match p.op
            case Equal => []
            case Insert => [InsertAt(at, p.text)]
            case Delete => [DeleteRange(at, at + |p.text|)]
  {
    SpecsOfBoth(parts, [p], 0);
    OldLengthsAre(parts);
    assert [p][1..] == [];
  }
}
