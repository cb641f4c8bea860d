/** How far the scan for hunks reaches: lines in front of a start line and lines
    past a hunk are scanned the same whatever stands between. */
module ConflictLocality {
  import opened Text
  import opened MarkerLines
  import opened ConflictMarkers
  import opened ConflictHunks

  // ----- lines in front of a start line decide alone -----

  predicate SamePrefix(doc: seq<Line>, mask: seq<bool>, doc': seq<Line>, mask': seq<bool>, s: nat)
    requires |mask| == |doc| && |mask'| == |doc'|
  {
    s < |doc| && s <= |doc'| && forall l | 0 <= l < s :: doc[l] == doc'[l] && mask[l] == mask'[l]
  }

  /** No scan gets past a start line; up to it, another document with the same
      lines gives the same result. */
  lemma {:induction false} ScanPrefix(doc: seq<Line>, mask: seq<bool>, doc': seq<Line>, mask': seq<bool>, s: nat,
                                      from: nat, respect: bool, t: Target)
    requires |mask| == |doc| && |mask'| == |doc'| && SamePrefix(doc, mask, doc', mask', s)
    requires from <= s && IsNestedStart(doc[s], mask[s], true)
    ensures var r := Scan(doc, mask, from, respect, t);
            r == Nested(s) || (!r.Missing? && r.line < s && r == Scan(doc', mask', from, respect, t))
    decreases s - from
  {
    if from < s {
      assert doc[from] == doc'[from];
      if !IsNestedStart(doc[from], mask[from], respect) {
        ScanPrefix(doc, mask, doc', mask', s, from + 1, respect, t);
      }
    }
  }

  lemma {:induction false} FinishPrefix(doc: seq<Line>, mask: seq<bool>, doc': seq<Line>, mask': seq<bool>, s: nat,
                                        n: nat, m: Marker, base: Option<nat>, sep: nat)
    requires |mask| == |doc| && |mask'| == |doc'| && SamePrefix(doc, mask, doc', mask', s)
    requires IsNestedStart(doc[s], mask[s], true) && n < sep < s
    requires doc[n].start.Some? && (base.Some? ==> n < base.value < sep && doc[base.value].base.Some?)
    requires doc'[n].start.Some? && (base.Some? ==> doc'[base.value].base.Some?)
    ensures var r := FinishHunk(doc, mask, n, m, base, sep);
            r == Resume(s + 1) || (EndsBefore(r, s) && r == FinishHunk(doc', mask', n, m, base, sep))
  {
    ScanPrefix(doc, mask, doc', mask', s, sep + 1, m.kind.Git?, EndTarget(m));
  }

  predicate EndsBefore(r: Attempt, s: nat) {
    match r
    case Parsed(h) => h.end < s
    case Resume(k) => k <= s
  }

  lemma {:induction false} SeparatorPrefix(doc: seq<Line>, mask: seq<bool>, doc': seq<Line>, mask': seq<bool>, s: nat,
                                           n: nat, m: Marker, base: nat)
    requires |mask| == |doc| && |mask'| == |doc'| && SamePrefix(doc, mask, doc', mask', s)
    requires IsNestedStart(doc[s], mask[s], true) && n < base < s
    requires doc[n].start.Some? && doc[base].base.Some? && doc'[n].start.Some? && doc'[base].base.Some?
    ensures var r := FindSeparator(doc, mask, n, m, base);
            r == Resume(s + 1) || (EndsBefore(r, s) && r == FindSeparator(doc', mask', n, m, base))
  {
    var sep := Scan(doc, mask, base + 1, m.kind.Git?, SepTarget(m));
    ScanPrefix(doc, mask, doc', mask', s, base + 1, m.kind.Git?, SepTarget(m));
    if sep.Hit? {
      FinishPrefix(doc, mask, doc', mask', s, n, m, Some(base), sep.line);
    }
  }

  lemma {:induction false} ParseFromPrefix(doc: seq<Line>, mask: seq<bool>, doc': seq<Line>, mask': seq<bool>, s: nat,
                                           n: nat, m: Marker)
    requires |mask| == |doc| && |mask'| == |doc'| && SamePrefix(doc, mask, doc', mask', s)
    requires IsNestedStart(doc[s], mask[s], true) && n < s && doc[n].start.Some? && doc'[n].start.Some?
    ensures var r := ParseFrom(doc, mask, n, m);
            r == Resume(s + 1) || (EndsBefore(r, s) && r == ParseFrom(doc', mask', n, m))
  {
    var base := Scan(doc, mask, n + 1, m.kind.Git?, BaseTarget(m));
    ScanPrefix(doc, mask, doc', mask', s, n + 1, m.kind.Git?, BaseTarget(m));
    if base.Hit? && base.line < s {
      assert doc[base.line] == doc'[base.line];
      if m.kind.Git? && doc[base.line].separator == Some(m.size) {
        FinishPrefix(doc, mask, doc', mask', s, n, m, None, base.line);
      } else {
        SeparatorPrefix(doc, mask, doc', mask', s, n, m, base.line);
      }
    }
  }

  lemma {:induction false} ParsePrefix(doc: seq<Line>, mask: seq<bool>, doc': seq<Line>, mask': seq<bool>, s: nat,
                                       n: nat)
    requires |mask| == |doc| && |mask'| == |doc'| && SamePrefix(doc, mask, doc', mask', s)
    requires IsNestedStart(doc[s], mask[s], true) && n < s
    ensures var r := ParseAt(doc, mask, n);
            r == Resume(s + 1) || (EndsBefore(r, s) && r == ParseAt(doc', mask', n))
  {
    assert doc[n] == doc'[n];
    if doc[n].start.Some? {
      ParseFromPrefix(doc, mask, doc', mask', s, n, doc[n].start.value);
    }
  }

  /** Hunks in front of one that starts at `s` are found in the other document
      too, which is then scanned from `s` on. */
  lemma {:induction false} HunksPrefix(doc: seq<Line>, mask: seq<bool>, doc': seq<Line>, mask': seq<bool>, s: nat,
                                       n: nat, i: nat)
    requires |mask| == |doc| && |mask'| == |doc'| && SamePrefix(doc, mask, doc', mask', s)
    requires IsNestedStart(doc[s], mask[s], true) && AllSane(doc) && n <= s
    requires i < |HunksFrom(doc, mask, n)| && HunksFrom(doc, mask, n)[i].start == s
    ensures HunksFrom(doc', mask', n) == HunksFrom(doc, mask, n)[..i] + HunksFrom(doc', mask', s)
    ensures HunksFrom(doc, mask, n)[i..] == HunksFrom(doc, mask, s)
    decreases s - n
  {
    var hs := HunksFrom(doc, mask, n);
    HunksAreOrdered(doc, mask, n);
    HunksStep(doc, mask, n, []);
    if n == s {
      HunksAreClean(doc, mask, n);
      StartsFrom(doc, mask, n, hs);
      HunksInDoc(doc, mask, n);
      FirstAtStart(hs, i, s);
      assert hs[..0] + HunksFrom(doc', mask', s) == HunksFrom(doc', mask', s);
    } else {
      ParsePrefix(doc, mask, doc', mask', s, n);
      HunksStep(doc', mask', n, []);
      var r := ParseAt(doc, mask, n);
      if r.Parsed? {
        HunksPrefixParsed(doc, mask, doc', mask', s, n, i);
      } else {
        HunksAreClean(doc, mask, r.line);
        HunksPrefix(doc, mask, doc', mask', s, r.line, i);
      }
    }
  }

  lemma FirstAtStart(hs: seq<Hunk>, i: nat, s: nat)
    requires InSequence(hs) && i < |hs| && hs[i].start == s
    requires forall j | 0 <= j < |hs| :: s <= hs[j].start < hs[j].end
    ensures i == 0
  {
    assert s <= hs[0].start < hs[0].end;
  }

  lemma {:induction false} HunksPrefixParsed(doc: seq<Line>, mask: seq<bool>, doc': seq<Line>, mask': seq<bool>,
                                             s: nat, n: nat, i: nat)
    requires |mask| == |doc| && |mask'| == |doc'| && SamePrefix(doc, mask, doc', mask', s)
    requires IsNestedStart(doc[s], mask[s], true) && AllSane(doc) && n < s
    requires i < |HunksFrom(doc, mask, n)| && HunksFrom(doc, mask, n)[i].start == s
    requires ParseAt(doc, mask, n).Parsed? && ParseAt(doc, mask, n) == ParseAt(doc', mask', n)
    requires ParseAt(doc, mask, n).hunk.end < s
    ensures HunksFrom(doc', mask', n) == HunksFrom(doc, mask, n)[..i] + HunksFrom(doc', mask', s)
    ensures HunksFrom(doc, mask, n)[i..] == HunksFrom(doc, mask, s)
    decreases s - n, 0
  {
    hide *;
    PrefixBounds(doc, mask, doc', mask', s);
    StepAdvances(doc, mask, n);
    var h := ParseAt(doc, mask, n).hunk;
    var later := HunksFrom(doc, mask, h.end + 1);
    HunksAt(doc, mask, n);
    HunksAt(doc', mask', n);
    assert HunksFrom(doc, mask, n) == [h] + later;
    assert i > 0 && later[i - 1].start == s;
    HunksPrefix(doc, mask, doc', mask', s, h.end + 1, i - 1);
    SplitPast(h, later, i, HunksFrom(doc', mask', s));
  }

  lemma PrefixBounds(doc: seq<Line>, mask: seq<bool>, doc': seq<Line>, mask': seq<bool>, s: nat)
    requires |mask| == |doc| && |mask'| == |doc'| && SamePrefix(doc, mask, doc', mask', s)
    ensures s < |doc| && s <= |doc'|
  {
  }

  lemma {:induction false} SplitPast(h: Hunk, later: seq<Hunk>, i: nat, rest: seq<Hunk>)
    requires 0 < i <= |later|
    ensures ([h] + later)[..i] + rest == [h] + (later[..i - 1] + rest)
    ensures ([h] + later)[i..] == later[i - 1..]
  {
  }

  // ----- lines after the hunk decide alone -----

  /** From line `n` of `doc` on, `doc'` has the same lines, `k` further down. */
  predicate SameSuffix(doc: seq<Line>, mask: seq<bool>, doc': seq<Line>, mask': seq<bool>, n: nat, k: int)
    requires |mask| == |doc| && |mask'| == |doc'|
  {
    && n <= |doc| && 0 <= n + k && |doc'| == |doc| + k
    && forall l | n <= l < |doc| :: doc[l] == doc'[l + k] && mask[l] == mask'[l + k]
  }

  lemma {:induction false} SameLine(doc: seq<Line>, mask: seq<bool>, doc': seq<Line>, mask': seq<bool>, n: nat,
                                    k: int, l: nat)
    requires |mask| == |doc| && |mask'| == |doc'| && SameSuffix(doc, mask, doc', mask', n, k)
    requires n <= l < |doc|
    ensures doc[l] == doc'[l + k] && mask[l] == mask'[l + k]
  {
  }

  function MoveScanned(r: Scanned, k: int): Scanned
    requires r.Missing? || 0 <= r.line + k
  {
    match r
    case Hit(l) => Hit(l + k)
    case Nested(l) => Nested(l + k)
    case Missing => Missing
  }

  lemma {:induction false} ScanSuffix(doc: seq<Line>, mask: seq<bool>, doc': seq<Line>, mask': seq<bool>, n: nat,
                                      k: int,
                                      from: nat, respect: bool, t: Target)
    requires |mask| == |doc| && |mask'| == |doc'| && SameSuffix(doc, mask, doc', mask', n, k) && n <= from
    ensures Scan(doc', mask', from + k, respect, t) == MoveScanned(Scan(doc, mask, from, respect, t), k)
    decreases |doc| - from
  {
    if from < |doc| {
      SameLine(doc, mask, doc', mask', n, k, from);
      ScanSuffix(doc, mask, doc', mask', n, k, from + 1, respect, t);
    }
  }

  function MoveHunk(h: Hunk, k: int): Hunk
    requires 0 <= h.start + k && h.start < h.sep < h.end && (h.base.Some? ==> h.start < h.base.value)
  {
    Hunk(h.kind, h.start + k, if h.base.Some? then Some(h.base.value + k) else None, h.sep + k, h.end + k)
  }

  predicate Moved(r: Attempt, r': Attempt, k: int) {
    match r
    case Parsed(h) => 0 <= h.start + k && h.start < h.sep < h.end && (h.base.Some? ==> h.start < h.base.value) &&
                      r' == Parsed(MoveHunk(h, k))
    case Resume(l) => 0 <= l + k && r' == Resume(l + k)
  }

  lemma {:induction false} FinishSuffix(doc: seq<Line>, mask: seq<bool>, doc': seq<Line>, mask': seq<bool>, n0: nat,
                                        k: int,
                                        n: nat, m: Marker, base: Option<nat>, sep: nat)
    requires |mask| == |doc| && |mask'| == |doc'| && SameSuffix(doc, mask, doc', mask', n0, k)
    requires n0 <= n < sep < |doc| && doc[n].start.Some?
    requires base.Some? ==> n < base.value < sep && doc[base.value].base.Some?
    requires doc'[n + k].start.Some? && (base.Some? ==> doc'[base.value + k].base.Some?)
    ensures Moved(FinishHunk(doc, mask, n, m, base, sep),
                  FinishHunk(doc', mask', n + k, m, if base.Some? then Some(base.value + k) else None, sep + k), k)
  {
    hide Scan, IsNestedStart;
    ScanSuffix(doc, mask, doc', mask', n0, k, sep + 1, m.kind.Git?, EndTarget(m));
  }

  lemma {:induction false} SeparatorSuffix(doc: seq<Line>, mask: seq<bool>, doc': seq<Line>, mask': seq<bool>,
                                           n0: nat, k: int,
                                           n: nat, m: Marker, base: nat)
    requires |mask| == |doc| && |mask'| == |doc'| && SameSuffix(doc, mask, doc', mask', n0, k)
    requires n0 <= n < base < |doc| && doc[n].start.Some? && doc[base].base.Some?
    requires doc'[n + k].start.Some? && doc'[base + k].base.Some?
    ensures Moved(FindSeparator(doc, mask, n, m, base), FindSeparator(doc', mask', n + k, m, base + k), k)
  {
    hide Scan, FinishHunk, IsNestedStart;
    var sep := Scan(doc, mask, base + 1, m.kind.Git?, SepTarget(m));
    ScanSuffix(doc, mask, doc', mask', n0, k, base + 1, m.kind.Git?, SepTarget(m));
    if sep.Hit? {
      FinishSuffix(doc, mask, doc', mask', n0, k, n, m, Some(base), sep.line);
    }
  }

  lemma {:induction false} ParseFromSuffix(doc: seq<Line>, mask: seq<bool>, doc': seq<Line>, mask': seq<bool>,
                                           n0: nat, k: int,
                                           n: nat, m: Marker)
    requires |mask| == |doc| && |mask'| == |doc'| && SameSuffix(doc, mask, doc', mask', n0, k)
    requires n0 <= n < |doc| && doc[n].start.Some? && doc'[n + k].start.Some?
    ensures Moved(ParseFrom(doc, mask, n, m), ParseFrom(doc', mask', n + k, m), k)
  {
    hide Scan, FinishHunk, FindSeparator, IsNestedStart;
    var base := Scan(doc, mask, n + 1, m.kind.Git?, BaseTarget(m));
    ScanSuffix(doc, mask, doc', mask', n0, k, n + 1, m.kind.Git?, BaseTarget(m));
    if base.Hit? {
      SameLine(doc, mask, doc', mask', n0, k, base.line);
      if m.kind.Git? && doc[base.line].separator == Some(m.size) {
        FinishSuffix(doc, mask, doc', mask', n0, k, n, m, None, base.line);
      } else {
        SeparatorSuffix(doc, mask, doc', mask', n0, k, n, m, base.line);
      }
    }
  }

  lemma {:induction false} ParseSuffix(doc: seq<Line>, mask: seq<bool>, doc': seq<Line>, mask': seq<bool>, n0: nat,
                                       k: int, n: nat)
    requires |mask| == |doc| && |mask'| == |doc'| && SameSuffix(doc, mask, doc', mask', n0, k)
    requires n0 <= n < |doc|
    ensures Moved(ParseAt(doc, mask, n), ParseAt(doc', mask', n + k), k)
  {
    SameLine(doc, mask, doc', mask', n0, k, n);
    if doc[n].start.Some? {
      ParseFromSuffix(doc, mask, doc', mask', n0, k, n, doc[n].start.value);
    }
  }

  predicate Movable(hunks: seq<Hunk>, k: int) {
    forall i | 0 <= i < |hunks| ::
      && 0 <= hunks[i].start + k && hunks[i].start < hunks[i].sep < hunks[i].end
      && (hunks[i].base.Some? ==> hunks[i].start < hunks[i].base.value)
  }

  function MoveAll(hunks: seq<Hunk>, k: int): (r: seq<Hunk>)
    requires Movable(hunks, k)
    ensures |r| == |hunks| && forall i | 0 <= i < |r| :: r[i] == MoveHunk(hunks[i], k)
  {
    seq(|hunks|, i requires 0 <= i < |hunks| => MoveHunk(hunks[i], k))
  }

  /** `hunks'` are `hunks`, `k` lines further down. */
  ghost predicate AreMoved(hunks: seq<Hunk>, hunks': seq<Hunk>, k: int) {
    Movable(hunks, k) && hunks' == MoveAll(hunks, k)
  }

  lemma {:induction false} MoveCons(h: Hunk, h': Hunk, later: seq<Hunk>, later': seq<Hunk>, k: int)
    requires AreMoved(later, later', k) && Moved(Parsed(h), Parsed(h'), k)
    ensures AreMoved([h] + later, [h'] + later', k)
  {
  }

  lemma NothingMoved(k: int)
    ensures AreMoved([], [], k)
  {
  }

  /** The same lines further down hold the same hunks further down. */
  lemma {:induction false} HunksSuffix(doc: seq<Line>, mask: seq<bool>, doc': seq<Line>, mask': seq<bool>, n0: nat,
                                       k: int, n: nat)
    requires |mask| == |doc| && |mask'| == |doc'| && SameSuffix(doc, mask, doc', mask', n0, k) && n0 <= n
    ensures AreMoved(HunksFrom(doc, mask, n), HunksFrom(doc', mask', n + k), k)
    decreases |doc| - n
  {
    hide ParseAt, AreMoved;
    if n >= |doc| {
      NothingMoved(k);
    } else {
      ParseSuffix(doc, mask, doc', mask', n0, k, n);
      HunksAt(doc, mask, n);
      HunksAt(doc', mask', n + k);
      var r, r' := ParseAt(doc, mask, n), ParseAt(doc', mask', n + k);
      if r.Parsed? {
        HunksSuffix(doc, mask, doc', mask', n0, k, r.hunk.end + 1);
        MoveCons(r.hunk, r'.hunk, HunksFrom(doc, mask, r.hunk.end + 1), HunksFrom(doc', mask', r'.hunk.end + 1), k);
      } else {
        HunksSuffix(doc, mask, doc', mask', n0, k, r.line);
      }
    }
  }

  // ----- the lines that replace the hunk hold none -----

  lemma PassesOver(doc: seq<Line>, mask: seq<bool>, n: nat)
    requires |mask| == |doc| && n < |doc| && !IsNestedStart(doc[n], mask[n], true)
    ensures ParseAt(doc, mask, n) == Resume(n + 1)
  {
    hide ParseFrom;
  }

  /** Scanning passes over lines that start nothing. */
  lemma {:induction false} HunksSkip(doc: seq<Line>, mask: seq<bool>, a: nat, b: nat)
    requires |mask| == |doc| && a <= b <= |doc|
    requires forall l | a <= l < b :: !IsNestedStart(doc[l], mask[l], true)
    ensures HunksFrom(doc, mask, a) == HunksFrom(doc, mask, b)
    decreases b - a
  {
    hide *;
    if a < b {
      HunksAt(doc, mask, a);
      PassesOver(doc, mask, a);
      HunksSkip(doc, mask, a + 1, b);
    }
  }

  // ----- fences -----

  /** `len` lines of `doc` from `a` on stand in `doc'`, `k` lines further down. */
  ghost predicate SameRun(doc: seq<Line>, a: nat, len: nat, doc': seq<Line>, k: int) {
    && a + len <= |doc| && 0 <= a + k && a + len + k <= |doc'|
    && forall l | a <= l < a + len :: doc[l] == doc'[l + k]
  }

  /** The same lines after the same fence leave the same fence. */
  lemma {:induction false} FenceCopy(doc: seq<Line>, a: nat, len: nat, doc': seq<Line>, k: int, l: nat)
    requires SameRun(doc, a, len, doc', k) && FenceAt(doc, a) == FenceAt(doc', a + k) && a <= l <= a + len
    ensures FenceAt(doc, l) == FenceAt(doc', l + k)
  {
    if a < l {
      FenceCopy(doc, a, len, doc', k, l - 1);
      assert doc[l - 1] == doc'[l - 1 + k];
    }
  }

  lemma {:induction false} MaskCopy(doc: seq<Line>, a: nat, len: nat, doc': seq<Line>, k: int)
    requires SameRun(doc, a, len, doc', k) && FenceAt(doc, a) == FenceAt(doc', a + k)
    ensures forall l | a <= l < a + len :: Mask(doc)[l] == Mask(doc')[l + k]
  {
    hide Mask, FenceAt;
    forall l | a <= l < a + len ensures Mask(doc)[l] == Mask(doc')[l + k] {
      FenceCopy(doc, a, len, doc', k, l);
      MaskAt(doc, l);
      MaskAt(doc', l + k);
    }
  }

  lemma MaskAt(doc: seq<Line>, l: nat)
    requires l < |doc|
    ensures Mask(doc)[l] == Masked(FenceAt(doc, l), doc[l])
  {
  }

  /** A marker outside of the mask stands outside of all fences. */
  lemma OutsideAtMarker(doc: seq<Line>, l: nat)
    requires l < |doc| && FenceFree(doc[l]) && !Mask(doc)[l]
    ensures FenceAt(doc, l).Outside? && FenceAt(doc, l + 1).Outside?
  {
    MaskAt(doc, l);
  }

  /** Lines between two unmasked markers, put where no fence is open, start
      nothing if they did not before, and leave no fence open. */
  lemma {:induction false} GitSection(doc: seq<Line>, a: nat, b: nat, doc': seq<Line>, k: int)
    requires a < b < |doc| && SameRun(doc, a + 1, b - a - 1, doc', k)
    requires FenceFree(doc[a]) && FenceFree(doc[b]) && !Mask(doc)[a] && !Mask(doc)[b]
    requires NoStarts(doc, Mask(doc), true, a + 1, b)
    requires FenceAt(doc', a + 1 + k).Outside?
    ensures NothingStarts(doc', a + 1 + k, b + k)
    ensures FenceAt(doc', b + k).Outside?
  {
    hide Mask, FenceAt, IsNestedStart;
    OutsideAtMarker(doc, a);
    OutsideAtMarker(doc, b);
    MaskCopy(doc, a + 1, b - a - 1, doc', k);
    FenceCopy(doc, a + 1, b - a - 1, doc', k, b);
    CopiedStartNothing(doc, a + 1, b, doc', k);
  }

  lemma {:induction false} CopiedStartNothing(doc: seq<Line>, a: nat, b: nat, doc': seq<Line>, k: int)
    requires a <= b < |doc| && SameRun(doc, a, b - a, doc', k) && NoStarts(doc, Mask(doc), true, a, b)
    requires forall l | a <= l < b :: Mask(doc)[l] == Mask(doc')[l + k]
    ensures NothingStarts(doc', a + k, b + k)
  {
    hide Mask, IsNestedStart;
    forall l | a + k <= l < b + k ensures !IsNestedStart(doc'[l], Mask(doc')[l], true) {
      var j := l - k;
      assert doc[j] == doc'[j + k] && Mask(doc)[j] == Mask(doc')[j + k];
    }
  }

  /** No line from `a` up to `b` is taken for a start line. */
  ghost predicate NothingStarts(doc: seq<Line>, a: nat, b: nat) {
    b <= |doc| && forall l | a <= l < b :: !IsNestedStart(doc[l], Mask(doc)[l], true)
  }

  // ----- documents without git start lines -----

  predicate GitFree(doc: seq<Line>, n: nat) {
    forall l | n <= l < |doc| :: doc[l].start.Some? ==> doc[l].start.value.kind.SB?
  }

  lemma {:induction false} ScanIgnoresMask(doc: seq<Line>, mask: seq<bool>, mask': seq<bool>, from: nat, t: Target)
    requires |mask| == |doc| == |mask'|
    ensures Scan(doc, mask, from, false, t) == Scan(doc, mask', from, false, t)
    decreases |doc| - from
  {
    if from < |doc| {
      ScanIgnoresMask(doc, mask, mask', from + 1, t);
    }
  }

  lemma {:induction false} ParseIgnoresMask(doc: seq<Line>, mask: seq<bool>, mask': seq<bool>, n: nat)
    requires |mask| == |doc| == |mask'| && n < |doc|
    requires doc[n].start.Some? ==> doc[n].start.value.kind.SB?
    ensures ParseAt(doc, mask, n) == ParseAt(doc, mask', n)
  {
    hide Scan;
    if doc[n].start.Some? {
      var m := doc[n].start.value;
      var base := Scan(doc, mask, n + 1, false, BaseTarget(m));
      ScanIgnoresMask(doc, mask, mask', n + 1, BaseTarget(m));
      if base.Hit? {
        var sep := Scan(doc, mask, base.line + 1, false, SepTarget(m));
        ScanIgnoresMask(doc, mask, mask', base.line + 1, SepTarget(m));
        if sep.Hit? {
          ScanIgnoresMask(doc, mask, mask', sep.line + 1, EndTarget(m));
        }
      }
    }
  }

  /** Without git start lines, fences make no difference. */
  lemma {:induction false} HunksIgnoreMask(doc: seq<Line>, mask: seq<bool>, mask': seq<bool>, n: nat)
    requires |mask| == |doc| == |mask'| && GitFree(doc, n)
    ensures HunksFrom(doc, mask, n) == HunksFrom(doc, mask', n)
    decreases |doc| - n
  {
    if n < |doc| {
      ParseIgnoresMask(doc, mask, mask', n);
      HunksAt(doc, mask, n);
      HunksAt(doc, mask', n);
      var r := ParseAt(doc, mask, n);
      HunksIgnoreMask(doc, mask, mask', if r.Parsed? then r.hunk.end + 1 else r.line);
    }
  }

  // ----- the same lines past a point -----

  /** Lines that end both documents hold the same hunks in both, if they find the
      same fence there or have no git start lines. */
  lemma HunksPastLines(doc: seq<Line>, doc': seq<Line>, e: nat, k: int)
    requires e < |doc| && |doc'| == |doc| + k && SameRun(doc, e, |doc| - e, doc', k)
    requires FenceAt(doc', e + k) == FenceAt(doc, e) || GitFree(doc, e)
    ensures AreMoved(HunksFrom(doc, Mask(doc), e), HunksFrom(doc', Mask(doc'), e + k), k)
  {
    var mask, mask' := Mask(doc), Mask(doc');
    if FenceAt(doc', e + k) == FenceAt(doc, e) {
      MaskCopy(doc, e, |doc| - e, doc', k);
      HunksSuffix(doc, mask, doc', mask', e, k, e);
    } else {
      var other := MaskBack(mask', |doc|, e, k);
      HunksIgnoreMask(doc, mask, other, e);
      HunksSuffix(doc, other, doc', mask', e, k, e);
    }
  }

  function MaskBack(mask': seq<bool>, n: nat, e: nat, k: int): (r: seq<bool>)
    requires e <= n && 0 <= e + k && |mask'| == n + k
    ensures |r| == n && forall l | e <= l < n :: r[l] == mask'[l + k]
  {
    seq(n, l requires 0 <= l < n => l >= e && mask'[l + k])
  }
}
