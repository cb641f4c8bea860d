/** Which lines the scan for hunks takes for their markers, and which start
    lines it passes over. */
module ConflictCompleteness {
  import opened Text
  import opened MarkerLines
  import opened ConflictMarkers
  import opened FencesMatter

  /** No line from `a` up to `b` that the scan minds is one it looks for. */
  ghost predicate NoneHit(doc: seq<Line>, mask: seq<bool>, respect: bool, t: Target, a: nat, b: nat)
    requires b <= |doc| == |mask|
  {
    forall l | a <= l < b :: (respect && mask[l]) || !Hits(doc[l], t)
  }

  lemma {:induction false} ScanIsFirst(doc: seq<Line>, mask: seq<bool>, from: nat, respect: bool, t: Target)
    requires |mask| == |doc|
    ensures var r := Scan(doc, mask, from, respect, t);
            r.Hit? ==> NoneHit(doc, mask, respect, t, from, r.line)
    decreases |doc| - from
  {
    if from < |doc| {
      ScanIsFirst(doc, mask, from + 1, respect, t);
    }
  }

  function SizeOf(m: Marker): nat {
    if m.kind.SB? then 7 else m.size
  }

  /** The markers of a hunk are of the kind and size of its start line, and each
      is the first of its kind after the one before. */
  ghost predicate Exact(doc: seq<Line>, mask: seq<bool>, h: Hunk)
    requires |mask| == |doc|
  {
    && InDoc(doc, h)
    && var m, git := doc[h.start].start.value, doc[h.start].start.value.kind.Git?;
       && h.kind == m.kind && doc[h.sep].separator == Some(SizeOf(m))
       && IsMarker(doc[h.end].end, Some(m.kind), SizeOf(m))
       && (h.base.Some? ==> IsMarker(doc[h.base.value].base, Some(m.kind), SizeOf(m)))
       && (h.base.None? ==> git)
       && NoneHit(doc, mask, git, BaseTarget(m), h.start + 1, FirstEnd(h))
       && (h.base.Some? ==> NoneHit(doc, mask, git, SepTarget(m), h.base.value + 1, h.sep))
       && NoneHit(doc, mask, git, EndTarget(m), h.sep + 1, h.end)
  }

  lemma {:induction false} FinishedIsExact(doc: seq<Line>, mask: seq<bool>, n: nat, m: Marker, base: Option<nat>,
                                           sep: nat)
    requires |mask| == |doc| && n < sep < |doc| && doc[n].start == Some(m)
    requires base.Some? ==> n < base.value < sep && IsMarker(doc[base.value].base, Some(m.kind), SizeOf(m))
    requires doc[sep].separator == Some(SizeOf(m)) && (base.None? ==> m.kind.Git?)
    requires NoneHit(doc, mask, m.kind.Git?, BaseTarget(m), n + 1, if base.Some? then base.value else sep)
    requires base.Some? ==> NoneHit(doc, mask, m.kind.Git?, SepTarget(m), base.value + 1, sep)
    ensures var r := FinishHunk(doc, mask, n, m, base, sep); r.Parsed? ==> Exact(doc, mask, r.hunk)
  {
    hide Scan, NoneHit;
    ScanIsFirst(doc, mask, sep + 1, m.kind.Git?, EndTarget(m));
  }

  lemma {:induction false} ParsedFromIsExact(doc: seq<Line>, mask: seq<bool>, n: nat, m: Marker)
    requires |mask| == |doc| && n < |doc| && doc[n].start == Some(m)
    ensures var r := ParseFrom(doc, mask, n, m); r.Parsed? ==> Exact(doc, mask, r.hunk)
  {
    hide Scan, NoneHit, FinishHunk, Exact, InDoc;
    var git := m.kind.Git?;
    var base := Scan(doc, mask, n + 1, git, BaseTarget(m));
    ScanIsFirst(doc, mask, n + 1, git, BaseTarget(m));
    if base.Hit? {
      if git && doc[base.line].separator == Some(m.size) {
        FinishedIsExact(doc, mask, n, m, None, base.line);
      } else {
        var sep := Scan(doc, mask, base.line + 1, git, SepTarget(m));
        ScanIsFirst(doc, mask, base.line + 1, git, SepTarget(m));
        if sep.Hit? {
          FinishedIsExact(doc, mask, n, m, Some(base.line), sep.line);
        }
      }
    }
  }

  lemma ParsedIsExact(doc: seq<Line>, mask: seq<bool>, n: nat)
    requires |mask| == |doc| && n < |doc|
    ensures var r := ParseAt(doc, mask, n); r.Parsed? ==> Exact(doc, mask, r.hunk)
  {
    hide ParseFrom, Exact;
    if doc[n].start.Some? {
      ParsedFromIsExact(doc, mask, n, doc[n].start.value);
    }
  }

  /** So are those of every hunk found. */
  lemma {:induction false} HunksAreExact(doc: seq<Line>, mask: seq<bool>, n: nat, i: nat)
    requires |mask| == |doc| && i < |HunksFrom(doc, mask, n)|
    ensures Exact(doc, mask, HunksFrom(doc, mask, n)[i])
    decreases |doc| - n
  {
    hide *;
    if n < |doc| {
      HunksAt(doc, mask, n);
      ParsedIsExact(doc, mask, n);
      StepAdvances(doc, mask, n);
      var r := ParseAt(doc, mask, n);
      if r.Resume? {
        HunksAreExact(doc, mask, r.line, i);
      } else if i > 0 {
        HunksAreExact(doc, mask, r.hunk.end + 1, i - 1);
      }
    } else {
      NoHunksPast(doc, mask, n);
    }
  }

  // ----- start lines passed over -----

  /** A start line the scan for hunks minds. */
  predicate IsStart(doc: seq<Line>, mask: seq<bool>, l: nat)
    requires l < |doc| == |mask|
  {
    IsNestedStart(doc[l], mask[l], true)
  }

  /** The last start line in front of line `l`. */
  function StartBefore(doc: seq<Line>, mask: seq<bool>, l: nat): (r: Option<nat>)
    requires l <= |doc| == |mask|
    ensures r.Some? ==> r.value < l && IsStart(doc, mask, r.value)
    ensures forall q | (if r.Some? then r.value + 1 else 0) <= q < l :: !IsStart(doc, mask, q)
  {
    if l == 0 then None else if IsStart(doc, mask, l - 1) then Some(l - 1) else StartBefore(doc, mask, l - 1)
  }

  /** The start line in front of `l` was not passed over itself, and its scan
      stopped at `l`. */
  predicate PassedOver(doc: seq<Line>, mask: seq<bool>, l: nat)
    requires l < |doc| == |mask|
  {
    var p := StartBefore(doc, mask, l);
    p.Some? && ParseAt(doc, mask, p.value) == Resume(l + 1) && !PassedOver(doc, mask, p.value)
  }

  /** Where the scan goes on. */
  function After(r: Attempt): nat {
    match r
    case Parsed(h) => h.end + 1
    case Resume(k) => k
  }

  /** The scan for hunks from line `n` on comes to line `l`. */
  ghost predicate Reaches(doc: seq<Line>, mask: seq<bool>, n: nat, l: nat)
    requires |mask| == |doc|
    decreases |doc| - n
  {
    n == l || (n < l && n < |doc| && Reaches(doc, mask, After(ParseAt(doc, mask, n)), l))
  }

  lemma {:induction false} ScanStopsAtStart(doc: seq<Line>, mask: seq<bool>, from: nat, respect: bool, t: Target)
    requires |mask| == |doc|
    ensures var r := Scan(doc, mask, from, respect, t);
            && (!r.Missing? ==> forall l | from <= l < r.line :: !IsNestedStart(doc[l], mask[l], respect))
            && (r.Hit? ==> !IsNestedStart(doc[r.line], mask[r.line], respect))
    decreases |doc| - from
  {
    if from < |doc| && !IsNestedStart(doc[from], mask[from], respect) {
      ScanStopsAtStart(doc, mask, from + 1, respect, t);
    }
  }

  /** No start line from `a` up to `b`. */
  ghost predicate StartsNone(doc: seq<Line>, mask: seq<bool>, a: nat, b: nat)
    requires b <= |doc| == |mask|
  {
    forall l | a <= l < b :: !IsStart(doc, mask, l)
  }

  lemma {:induction false} FinishSkipsNone(doc: seq<Line>, mask: seq<bool>, n: nat, m: Marker, base: Option<nat>,
                                           sep: nat)
    requires |mask| == |doc| && n < sep < |doc| && doc[n].start == Some(m)
    requires base.Some? ==> n < base.value < sep && doc[base.value].base.Some?
    requires StartsNone(doc, mask, n + 1, sep + 1)
    ensures var k := After(FinishHunk(doc, mask, n, m, base, sep)); StartsNone(doc, mask, n + 1, k - 1)
    ensures var r := FinishHunk(doc, mask, n, m, base, sep); r.Parsed? ==> StartsNone(doc, mask, n + 1, After(r))
  {
    hide Scan;
    ScanStopsAtStart(doc, mask, sep + 1, m.kind.Git?, EndTarget(m));
  }

  lemma {:induction false} SeparatorSkipsNone(doc: seq<Line>, mask: seq<bool>, n: nat, m: Marker, base: nat)
    requires |mask| == |doc| && n < base < |doc| && doc[n].start == Some(m) && doc[base].base.Some?
    requires StartsNone(doc, mask, n + 1, base + 1)
    ensures var k := After(FindSeparator(doc, mask, n, m, base)); StartsNone(doc, mask, n + 1, k - 1)
    ensures var r := FindSeparator(doc, mask, n, m, base); r.Parsed? ==> StartsNone(doc, mask, n + 1, After(r))
  {
    hide Scan, FinishHunk;
    var sep := Scan(doc, mask, base + 1, m.kind.Git?, SepTarget(m));
    ScanStopsAtStart(doc, mask, base + 1, m.kind.Git?, SepTarget(m));
    if sep.Hit? {
      FinishSkipsNone(doc, mask, n, m, Some(base), sep.line);
    }
  }

  /** No start line is passed over but the one at which the scan of a hunk
      stopped. */
  lemma {:induction false} ParseSkipsNone(doc: seq<Line>, mask: seq<bool>, n: nat)
    requires |mask| == |doc| && n < |doc|
    ensures var k := After(ParseAt(doc, mask, n)); StartsNone(doc, mask, n + 1, k - 1)
    ensures var r := ParseAt(doc, mask, n); r.Parsed? ==> StartsNone(doc, mask, n + 1, After(r))
  {
    if doc[n].start.Some? {
      hide Scan, FinishHunk, FindSeparator;
      var m := doc[n].start.value;
      var base := Scan(doc, mask, n + 1, m.kind.Git?, BaseTarget(m));
      ScanStopsAtStart(doc, mask, n + 1, m.kind.Git?, BaseTarget(m));
      if base.Hit? {
        if m.kind.Git? && doc[base.line].separator == Some(m.size) {
          FinishSkipsNone(doc, mask, n, m, None, base.line);
        } else {
          SeparatorSkipsNone(doc, mask, n, m, base.line);
        }
      }
    }
  }

  lemma ParsedStarts(doc: seq<Line>, mask: seq<bool>, l: nat)
    requires |mask| == |doc| && l < |doc|
    ensures ParseAt(doc, mask, l).Parsed? ==> IsStart(doc, mask, l)
    ensures !IsStart(doc, mask, l) ==> ParseAt(doc, mask, l) == Resume(l + 1)
  {
    hide ParseFrom;
  }

  /** The first start line from `n` on is not passed over. */
  ghost predicate Fresh(doc: seq<Line>, mask: seq<bool>, n: nat)
    requires |mask| == |doc|
  {
    forall q | n <= q < |doc| && (var p := StartBefore(doc, mask, q); p.Some? ==> p.value < n) ::
      !PassedOver(doc, mask, q)
  }

  lemma FreshStart(doc: seq<Line>, mask: seq<bool>, n: nat)
    requires |mask| == |doc| && n < |doc| && Fresh(doc, mask, n)
    ensures !PassedOver(doc, mask, n)
  {
    hide ParseAt, IsStart;
  }

  /** Where the scan goes on, the next start line is not passed over. */
  lemma StaysFresh(doc: seq<Line>, mask: seq<bool>, n: nat)
    requires |mask| == |doc| && n < |doc| && Fresh(doc, mask, n)
    ensures Fresh(doc, mask, After(ParseAt(doc, mask, n)))
  {
    hide ParseAt, IsStart;
    StepAdvances(doc, mask, n);
    ParseSkipsNone(doc, mask, n);
    ParsedStarts(doc, mask, n);
    var k := After(ParseAt(doc, mask, n));
    forall q | k <= q < |doc| && (var p := StartBefore(doc, mask, q); p.Some? ==> p.value < k)
      ensures !PassedOver(doc, mask, q)
    {
      StartBeforeIs(doc, mask, n, k, q);
      if IsStart(doc, mask, n) {
        FreshStart(doc, mask, n);
        if n + 1 < k && IsStart(doc, mask, k - 1) {
          assert PassedOver(doc, mask, k - 1);
        }
      }
    }
  }

  lemma StartBeforeIs(doc: seq<Line>, mask: seq<bool>, n: nat, k: nat, q: nat)
    requires |mask| == |doc| && n < k <= q < |doc| && StartsNone(doc, mask, n + 1, k - 1)
    requires var p := StartBefore(doc, mask, q); p.Some? ==> p.value < k
    ensures IsStart(doc, mask, n) && (n + 1 < k ==> !IsStart(doc, mask, k - 1)) ==> StartBefore(doc, mask, q) == Some(n)
    ensures n + 1 < k && IsStart(doc, mask, k - 1) ==>
              && StartBefore(doc, mask, q) == Some(k - 1)
              && (IsStart(doc, mask, n) ==> StartBefore(doc, mask, k - 1) == Some(n))
  {
    hide IsStart;
  }

  /** The scan comes to a start line exactly if it is not passed over. */
  lemma {:induction false} ReachedIff(doc: seq<Line>, mask: seq<bool>, n: nat, l: nat)
    requires |mask| == |doc| && n <= l < |doc| && IsStart(doc, mask, l) && Fresh(doc, mask, n)
    ensures Reaches(doc, mask, n, l) <==> !PassedOver(doc, mask, l)
    decreases |doc| - n
  {
    hide ParseAt, IsStart, Fresh;
    var p := StartBefore(doc, mask, l);
    if l == n {
      FreshStart(doc, mask, n);
    } else {
      StepAdvances(doc, mask, n);
      ParseSkipsNone(doc, mask, n);
      ParsedStarts(doc, mask, n);
      StaysFresh(doc, mask, n);
      var k := After(ParseAt(doc, mask, n));
      if k <= l {
        ReachedIff(doc, mask, k, l);
      } else {
        NotReached(doc, mask, k, l);
        StoppedAt(doc, mask, n, l);
      }
    }
  }

  lemma NotReached(doc: seq<Line>, mask: seq<bool>, n: nat, l: nat)
    requires |mask| == |doc| && l < n
    ensures !Reaches(doc, mask, n, l)
  {
  }

  lemma StoppedAt(doc: seq<Line>, mask: seq<bool>, n: nat, l: nat)
    requires |mask| == |doc| && n < l < |doc| && IsStart(doc, mask, l) && Fresh(doc, mask, n)
    requires After(ParseAt(doc, mask, n)) > l
    ensures PassedOver(doc, mask, l)
  {
    hide ParseAt, IsStart, Fresh;
    StepAdvances(doc, mask, n);
    ParseSkipsNone(doc, mask, n);
    ParsedStarts(doc, mask, n);
    FreshStart(doc, mask, n);
    assert ParseAt(doc, mask, n) == Resume(l + 1);
    assert StartBefore(doc, mask, l) == Some(n);
  }

  lemma {:induction false} FoundWhereReached(doc: seq<Line>, mask: seq<bool>, n: nat, h: Hunk)
    requires |mask| == |doc|
    ensures h in HunksFrom(doc, mask, n) <==>
            h.start < |doc| && Reaches(doc, mask, n, h.start) && ParseAt(doc, mask, h.start) == Parsed(h)
    decreases |doc| - n
  {
    hide ParseAt, HunksFrom;
    if n < |doc| {
      HunksAt(doc, mask, n);
      StepAdvances(doc, mask, n);
      var k := After(ParseAt(doc, mask, n));
      FoundWhereReached(doc, mask, k, h);
      if h.start < k { NotReached(doc, mask, k, h.start); }
    } else {
      NoHunksPast(doc, mask, n);
    }
  }

  lemma FreshAtFirst(doc: seq<Line>, mask: seq<bool>)
    requires |mask| == |doc|
    ensures Fresh(doc, mask, 0)
  {
    hide ParseAt, IsStart;
  }

  /** Exactly those hunks are found that can be read at a start line which is not
      passed over. */
  lemma HunksAreComplete(doc: seq<Line>, h: Hunk)
    ensures h in Hunks(doc) <==>
            h.start < |doc| && ParseAt(doc, Mask(doc), h.start) == Parsed(h) && !PassedOver(doc, Mask(doc), h.start)
  {
    hide ParseAt, IsStart, Fresh, HunksFrom, Reaches, PassedOver;
    var mask := Mask(doc);
    FoundWhereReached(doc, mask, 0, h);
    FreshAtFirst(doc, mask);
    if h.start < |doc| && ParseAt(doc, mask, h.start) == Parsed(h) {
      ParsedStarts(doc, mask, h.start);
      ReachedIff(doc, mask, 0, h.start);
    }
  }

  const STRAY := ["<<<", "<<<", "===", ">>>"]

  lemma StrayReads(doc: seq<Line>)
    requires doc == ReadLines(STRAY)
    ensures |doc| == 4 && doc[0].start == doc[1].start == Some(Marker(Git, 3, "", Some("")))
    ensures doc[2].start.None? && doc[2].separator == Some(3) && doc[3].start.None?
    ensures doc[3].end == Some(Marker(Git, 3, "", Some("")))
    ensures forall i | 0 <= i < 4 :: FenceFree(doc[i])
  {
    hide MatchMarker, MatchSeparator, RunOf, Opens, Closes, Trimmed;
    ShortMarkers();
    OnlyMarker("<<<", '<');
    OnlyMarker("===", '=');
    OnlyMarker(">>>", '>');
  }

  /** The exception is real: a stray start line in front of a hunk hides it. */
  lemma StrayStartHidesHunk()
    ensures var doc := ReadLines(STRAY); ParseAt(doc, Mask(doc), 1).Parsed? && Hunks(doc) == []
  {
    hide MatchMarker, MatchSeparator, RunOf, Opens, Closes, Trimmed, ReadLine;
    var doc := ReadLines(STRAY);
    StrayReads(doc);
    HunksOfStray(doc);
  }

  lemma HunksOfStray(doc: seq<Line>)
    requires |doc| == 4 && doc[0].start == doc[1].start == Some(Marker(Git, 3, "", Some("")))
    requires doc[2].start.None? && doc[2].separator == Some(3) && doc[3].start.None?
    requires doc[3].end == Some(Marker(Git, 3, "", Some("")))
    requires forall i | 0 <= i < 4 :: FenceFree(doc[i])
    ensures ParseAt(doc, Mask(doc), 1).Parsed? && Hunks(doc) == []
  {
    var mask := Mask(doc);
    assert FenceAt(doc, 1).Outside? && FenceAt(doc, 2).Outside?;
    assert FenceAt(doc, 3).Outside?;
    assert !mask[0] && !mask[1] && !mask[2] && !mask[3];
    assert Scan(doc, mask, 1, true, Target(Some(Git), true, None, 3)) == Nested(1);
    assert Scan(doc, mask, 2, true, Target(Some(Git), true, None, 3)) == Hit(2);
    assert Scan(doc, mask, 3, true, Target(None, false, Some(Git), 3)) == Hit(3);
    assert ParseAt(doc, mask, 0) == Resume(2);
    assert ParseAt(doc, mask, 1) == Parsed(Hunk(Git, 1, None, 2, 3));
    assert HunksFrom(doc, mask, 4) == [];
    assert HunksFrom(doc, mask, 3) == [];
    assert HunksFrom(doc, mask, 2) == [];
  }
}
