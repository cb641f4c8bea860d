/** The collision test of the three-way merge: which base lines each side
    rewrites, which chunk of a diff3 merge each edit falls into, and whether
    both sides fall into one. */
module ChunkCollision {
  import opened ChangeSets
  import opened Lines

  /** What one side does to the lines of the base. */
  datatype LineEdits = LineEdits(lines: set<nat>, boundaries: set<nat>)

  predicate EndsLine(s: string) {
    s != "" && s[|s| - 1] == '\n'
  }

  /** The change leaves the line it ends in front of intact. */
  predicate EndsCleanly(base: string, c: Change)
    requires c.toA <= |base|
  {
    IsLineStart(base, c.toA) && (c.ins == "" || EndsLine(c.ins))
  }

  predicate IsBoundary(base: string, c: Change)
    requires c.fromA <= |base|
  {
    c.fromA == c.toA && IsLineStart(base, c.fromA) && EndsLine(c.ins)
  }

  /** Last line a change rewrites. */
  function LastLine(base: string, c: Change): nat
    requires c.fromA <= c.toA <= |base|
  {
    if c.fromA < c.toA && EndsCleanly(base, c) then LineAt(base, c.toA - 1) else LineAt(base, c.toA)
  }

  function Range(lo: nat, hi: nat): (r: set<nat>)
    ensures forall l :: l in r <==> lo <= l < hi
  {
    if lo < hi then Range(lo, hi - 1) + {hi - 1} else {}
  }

  /** Lines a change does not leave byte-identical. */
  function LinesOf(base: string, c: Change): set<nat>
    requires c.fromA <= c.toA <= |base|
  {
    if IsBoundary(base, c) then {}
    else Range(LineAt(base, c.fromA), LastLine(base, c) + 1)
  }

  function BoundariesOf(base: string, c: Change): set<nat>
    requires c.fromA <= c.toA <= |base|
  {
    if IsBoundary(base, c) then {LineAt(base, c.fromA)} else {}
  }

  predicate Inside(base: string, cs: seq<Change>) {
    forall c <- cs :: c.fromA <= c.toA <= |base| && (c.fromA < c.toA || c.ins != "")
  }

  /** All lines and boundaries the changes of one side edit. */
  function Classified(base: string, cs: seq<Change>): LineEdits
    requires Inside(base, cs)
  {
    if cs == [] then LineEdits({}, {})
    else
      var c, earlier := cs[|cs| - 1], Classified(base, cs[..|cs| - 1]);
      LineEdits(earlier.lines + LinesOf(base, c), earlier.boundaries + BoundariesOf(base, c))
  }

  /** `first` to `last` added to a set of lines. */
  method AddLines(before: set<nat>, first: nat, last: nat) returns (lines: set<nat>)
    requires first <= last
    ensures lines == before + Range(first, last + 1)
  {
    lines := before;
    var line := first;
    while line <= last
      invariant first <= line <= last + 1
      invariant lines == before + Range(first, line)
    {
      lines := lines + {line};
      line := line + 1;
    }
  }

  /** One step of the walk over the changes. */
  method ClassifyChange(base: string, starts: seq<nat>, c: Change, edits: LineEdits) returns (r: LineEdits)
    requires starts == Starts(base) && Inside(base, [c])
    ensures r == LineEdits(edits.lines + LinesOf(base, c), edits.boundaries + BoundariesOf(base, c))
  {
    assert c in [c];
    var lines, boundaries := edits.lines, edits.boundaries;
    var first := FindLine(base, starts, c.fromA);
    StartsIndexLines(base, |base|);
    if c.fromA == c.toA {
      if c.fromA in starts && c.ins[|c.ins| - 1] == '\n' {
        boundaries := boundaries + {first};
      } else {
        lines := lines + {first};
      }
      return LineEdits(lines, boundaries);
    }
    var last := FindLine(base, starts, c.toA - 1);
    LineAtMonotone(base, c.fromA, c.toA - 1);
    lines := AddLines(lines, first, last);
    LineStepsByOne(base, c.toA);
    if !(c.toA in starts && (|c.ins| == 0 || c.ins[|c.ins| - 1] == '\n')) {
      var tail := FindLine(base, starts, c.toA);
      lines := lines + {tail};
    }
    return LineEdits(lines, boundaries);
  }

  method ClassifyEdits(base: string, starts: seq<nat>, cs: seq<Change>) returns (edits: LineEdits)
    requires starts == Starts(base) && Inside(base, cs)
    ensures edits == Classified(base, cs)
  {
    edits := LineEdits({}, {});
    for i := 0 to |cs|
      invariant edits == Classified(base, cs[..i])
    {
      assert cs[..i + 1][..i] == cs[..i];
      edits := ClassifyChange(base, starts, cs[i], edits);
    }
    assert cs[..|cs|] == cs;
  }

  lemma LineStepsByOne(base: string, pos: nat)
    requires 0 < pos <= |base|
    ensures LineAt(base, pos - 1) <= LineAt(base, pos) <= LineAt(base, pos - 1) + 1
  {
  }

  // ----- chunks -----

  datatype Chunk = Run(start: nat) | Gap(boundary: nat)

  /** First line of the stretch of rewritten lines `line` is in. */
  function RunStart(line: nat, nonSync: set<nat>): nat {
    if line > 0 && line - 1 in nonSync then RunStart(line - 1, nonSync) else line
  }

  method FindRunStart(line: nat, nonSync: set<nat>) returns (start: nat)
    ensures start == RunStart(line, nonSync)
  {
    start := line;
    while start > 0 && start - 1 in nonSync
      invariant RunStart(start, nonSync) == RunStart(line, nonSync)
    {
      start := start - 1;
    }
  }

  /** An edit of one side: a rewritten line, or an insertion in front of one. */
  datatype Spot = OnLine(line: nat) | InFront(boundary: nat)

  function ChunkOf(spot: Spot, nonSync: set<nat>): Chunk {
    match spot
    case OnLine(l) => Run(RunStart(l, nonSync))
    case InFront(b) =>
      if b > 0 && b - 1 in nonSync then Run(RunStart(b - 1, nonSync))
      else if b in nonSync then Run(RunStart(b, nonSync))
      else Gap(b)
  }

  function Spots(edits: LineEdits): set<Spot> {
    (set l | l in edits.lines :: OnLine(l)) + (set b | b in edits.boundaries :: InFront(b))
  }

  function Claimed(edits: LineEdits, nonSync: set<nat>): set<Chunk> {
    set x | x in Spots(edits) :: ChunkOf(x, nonSync)
  }

  method ClaimedChunks(edits: LineEdits, nonSync: set<nat>) returns (chunks: set<Chunk>)
    ensures chunks == Claimed(edits, nonSync)
  {
    chunks := {};
    var lines, boundaries := edits.lines, edits.boundaries;
    while lines != {}
      invariant lines <= edits.lines
      invariant chunks == set l | l in edits.lines - lines :: ChunkOf(OnLine(l), nonSync)
      decreases lines
    {
      var line :| line in lines;
      var start := FindRunStart(line, nonSync);
      lines := lines - {line};
      assert edits.lines - lines == (edits.lines - lines - {line}) + {line};
      chunks := chunks + {Run(start)};
    }
    ghost var runs := chunks;
    while boundaries != {}
      invariant boundaries <= edits.boundaries
      invariant chunks == runs + set b | b in edits.boundaries - boundaries :: ChunkOf(InFront(b), nonSync)
      decreases boundaries
    {
      var b :| b in boundaries;
      if b > 0 && b - 1 in nonSync {
        var start := FindRunStart(b - 1, nonSync);
        chunks := chunks + {Run(start)};
      } else if b in nonSync {
        var start := FindRunStart(b, nonSync);
        chunks := chunks + {Run(start)};
      } else {
        chunks := chunks + {Gap(b)};
      }
      boundaries := boundaries - {b};
      assert edits.boundaries - boundaries == (edits.boundaries - boundaries - {b}) + {b};
    }
    assert edits.lines - {} == edits.lines && edits.boundaries - {} == edits.boundaries;
    assert Claimed(edits, nonSync) == runs + set b | b in edits.boundaries :: ChunkOf(InFront(b), nonSync) by {
      assert forall l :: l in edits.lines ==> OnLine(l) in Spots(edits);
      assert forall b :: b in edits.boundaries ==> InFront(b) in Spots(edits);
    }
  }

  /** Both sides claim a chunk in common. */
  predicate Collide(base: string, ext: seq<Change>, local: seq<Change>)
    requires Inside(base, ext) && Inside(base, local)
  {
    var e, l := Classified(base, ext), Classified(base, local);
    Claimed(e, e.lines + l.lines) * Claimed(l, e.lines + l.lines) != {}
  }

  method CollidesInSameChunk(base: string, ext: seq<Change>, local: seq<Change>) returns (r: bool)
    requires Inside(base, ext) && Inside(base, local)
    ensures r == Collide(base, ext, local)
  {
    var starts := IndexLines(base);
    var externalEdits := ClassifyEdits(base, starts, ext);
    var localEdits := ClassifyEdits(base, starts, local);
    var nonSync := externalEdits.lines + localEdits.lines;
    var externalChunks := ClaimedChunks(externalEdits, nonSync);
    var localChunks := ClaimedChunks(localEdits, nonSync);
    var left := localChunks;
    while left != {}
      invariant left <= localChunks
      invariant externalChunks * (localChunks - left) == {}
      decreases left
    {
      var chunk :| chunk in left;
      if chunk in externalChunks {
        assert chunk in externalChunks * localChunks;
        return true;
      }
      left := left - {chunk};
    }
    assert localChunks - {} == localChunks;
    return false;
  }
}
