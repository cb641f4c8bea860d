/** What the collision test decides: chunk keys name diff3 chunks, and sides
    that share none are separated by a whole base line. */
module ChunkLaws {
  import opened ChangeSets
  import opened Lines
  import opened ChunkCollision

  /** Order of spots and lines: line `l` at the odd number, the gap in front of
      it at the even one before. */
  function Rank(x: Spot): nat {
    match x
    case OnLine(l) => 2 * l + 1
    case InFront(b) => 2 * b
  }

  predicate SyncSeparates(s: nat, x: Spot, y: Spot, nonSync: set<nat>) {
    s !in nonSync && (Rank(x) < 2 * s + 1 < Rank(y) || Rank(y) < 2 * s + 1 < Rank(x))
  }

  /** One chunk of a diff3 merge holds both spots: no base line that both sides
      leave intact lies between them. */
  ghost predicate SameChunk(x: Spot, y: Spot, nonSync: set<nat>) {
    forall s: nat :: !SyncSeparates(s, x, y, nonSync)
  }

  predicate Known(x: Spot, nonSync: set<nat>) {
    x.OnLine? ==> x.line in nonSync
  }

  lemma {:induction false} RunStartIsFirst(line: nat, nonSync: set<nat>)
    ensures RunStart(line, nonSync) <= line
    ensures forall k: nat | RunStart(line, nonSync) <= k < line :: k in nonSync
    ensures RunStart(line, nonSync) == 0 || RunStart(line, nonSync) - 1 !in nonSync
  {
    if line > 0 && line - 1 in nonSync {
      RunStartIsFirst(line - 1, nonSync);
    }
  }

  lemma {:induction false} RunsJoin(l: nat, m: nat, nonSync: set<nat>)
    requires l <= m && forall k: nat | l <= k < m :: k in nonSync
    ensures RunStart(m, nonSync) == RunStart(l, nonSync)
  {
    if l < m {
      RunsJoin(l, m - 1, nonSync);
    }
  }

  lemma {:induction false} RunKeys(l: nat, m: nat, nonSync: set<nat>)
    requires l < m && l in nonSync && m in nonSync
    ensures RunStart(l, nonSync) == RunStart(m, nonSync) <==> SameChunk(OnLine(l), OnLine(m), nonSync)
  {
    RunStartIsFirst(l, nonSync);
    RunStartIsFirst(m, nonSync);
    if SameChunk(OnLine(l), OnLine(m), nonSync) {
      forall k: nat | l <= k < m ensures k in nonSync {
        assert !SyncSeparates(k, OnLine(l), OnLine(m), nonSync);
      }
      RunsJoin(l, m, nonSync);
    }
  }

  /** An insertion beside a rewritten line joins that line's run. */
  function Anchor(x: Spot, nonSync: set<nat>): Spot {
    if x.OnLine? then x
    else if x.boundary > 0 && x.boundary - 1 in nonSync then OnLine(x.boundary - 1)
    else if x.boundary in nonSync then OnLine(x.boundary)
    else x
  }

  lemma {:induction false} AnchorKeepsChunk(x: Spot, y: Spot, nonSync: set<nat>)
    ensures ChunkOf(Anchor(x, nonSync), nonSync) == ChunkOf(x, nonSync)
    ensures SameChunk(Anchor(x, nonSync), y, nonSync) <==> SameChunk(x, y, nonSync)
  {
    forall s: nat ensures SyncSeparates(s, Anchor(x, nonSync), y, nonSync) <==> SyncSeparates(s, x, y, nonSync) {
    }
  }

  lemma {:induction false} AnchoredKeys(x: Spot, y: Spot, nonSync: set<nat>)
    requires Known(x, nonSync) && Known(y, nonSync)
    requires Anchor(x, nonSync) == x && Anchor(y, nonSync) == y
    ensures ChunkOf(x, nonSync) == ChunkOf(y, nonSync) <==> SameChunk(x, y, nonSync)
  {
    if x.OnLine? && y.OnLine? {
      if x.line < y.line {
        RunKeys(x.line, y.line, nonSync);
      } else if y.line < x.line {
        RunKeys(y.line, x.line, nonSync);
        assert forall s: nat :: SyncSeparates(s, x, y, nonSync) <==> SyncSeparates(s, y, x, nonSync);
      }
    } else if x != y {
      var b, other := if x.InFront? then x.boundary else y.boundary, if x.InFront? then y else x;
      var s := if Rank(other) > 2 * b then b else b - 1;
      assert SyncSeparates(s, x, y, nonSync);
    }
  }

  /** Two edits get one key exactly when one diff3 chunk holds both. */
  lemma KeysNameChunks(x: Spot, y: Spot, nonSync: set<nat>)
    requires Known(x, nonSync) && Known(y, nonSync)
    ensures ChunkOf(x, nonSync) == ChunkOf(y, nonSync) <==> SameChunk(x, y, nonSync)
  {
    var x', y' := Anchor(x, nonSync), Anchor(y, nonSync);
    AnchorKeepsChunk(x, y, nonSync);
    AnchorKeepsChunk(y, x', nonSync);
    AnchoredKeys(x', y', nonSync);
    assert forall s: nat :: SyncSeparates(s, x', y, nonSync) <==> SyncSeparates(s, y, x', nonSync);
    assert forall s: nat :: SyncSeparates(s, x', y', nonSync) <==> SyncSeparates(s, y', x', nonSync);
  }

  function NonSync(base: string, ext: seq<Change>, local: seq<Change>): set<nat>
    requires Inside(base, ext) && Inside(base, local)
  {
    Classified(base, ext).lines + Classified(base, local).lines
  }

  /** The test answers yes exactly when some chunk is edited by both sides. */
  lemma CollideIffSharedChunk(base: string, ext: seq<Change>, local: seq<Change>)
    requires Inside(base, ext) && Inside(base, local)
    ensures Collide(base, ext, local) <==>
            exists x, y :: && x in Spots(Classified(base, ext)) && y in Spots(Classified(base, local))
                           && SameChunk(x, y, NonSync(base, ext, local))
  {
    var e, l, n := Classified(base, ext), Classified(base, local), NonSync(base, ext, local);
    forall x, y | x in Spots(e) && y in Spots(l)
      ensures ChunkOf(x, n) == ChunkOf(y, n) <==> SameChunk(x, y, n)
    {
      KeysNameChunks(x, y, n);
    }
    if Collide(base, ext, local) {
      var k :| k in Claimed(e, n) * Claimed(l, n);
      var x :| x in Spots(e) && ChunkOf(x, n) == k;
      var y :| y in Spots(l) && ChunkOf(y, n) == k;
      assert SameChunk(x, y, n);
    }
    if x, y :| x in Spots(e) && y in Spots(l) && SameChunk(x, y, n) {
      assert ChunkOf(x, n) in Claimed(e, n) && ChunkOf(y, n) in Claimed(l, n);
      assert ChunkOf(x, n) in Claimed(e, n) * Claimed(l, n);
    }
  }

  // ----- separation -----

  /** The first and the last spot of one change. */
  function FirstSpot(base: string, c: Change): Spot
    requires c.fromA <= c.toA <= |base|
  {
    if IsBoundary(base, c) then InFront(LineAt(base, c.fromA)) else OnLine(LineAt(base, c.fromA))
  }

  function LastSpot(base: string, c: Change): Spot
    requires c.fromA <= c.toA <= |base|
  {
    if IsBoundary(base, c) then InFront(LineAt(base, c.fromA)) else OnLine(LastLine(base, c))
  }

  lemma {:induction false} ClassifiedHolds(base: string, cs: seq<Change>, c: Change)
    requires Inside(base, cs) && c in cs
    ensures LinesOf(base, c) <= Classified(base, cs).lines
    ensures BoundariesOf(base, c) <= Classified(base, cs).boundaries
  {
    if c != cs[|cs| - 1] {
      ClassifiedHolds(base, cs[..|cs| - 1], c);
    }
  }

  lemma {:induction false} ClassifiedFrom(base: string, cs: seq<Change>, l: nat)
    requires Inside(base, cs) && l in Classified(base, cs).lines
    ensures exists c :: c in cs && l in LinesOf(base, c)
  {
    var c := cs[|cs| - 1];
    if l in LinesOf(base, c) {
      assert c in cs;
    } else {
      ClassifiedFrom(base, cs[..|cs| - 1], l);
    }
  }

  lemma {:induction false} FirstSpotClaimed(base: string, cs: seq<Change>, c: Change)
    requires Inside(base, cs) && c in cs
    ensures FirstSpot(base, c) in Spots(Classified(base, cs))
  {
    ClassifiedHolds(base, cs, c);
    if !IsBoundary(base, c) {
      FirstBeforeLast(base, c);
      assert LineAt(base, c.fromA) in LinesOf(base, c);
    } else {
      assert LineAt(base, c.fromA) in BoundariesOf(base, c);
    }
  }

  lemma {:induction false} FirstBeforeLast(base: string, c: Change)
    requires c.fromA <= c.toA <= |base|
    ensures !IsBoundary(base, c) ==> LineAt(base, c.fromA) <= LastLine(base, c)
  {
    LineAtMonotone(base, c.fromA, c.toA);
    if c.fromA < c.toA {
      LineAtMonotone(base, c.fromA, c.toA - 1);
    }
  }

  /** Line `s` lies between the end of `c` and the start of `d`, untouched. */
  predicate LineBetween(base: string, s: nat, c: Change, d: Change) {
    s + 1 < |Starts(base)| && c.toA <= Starts(base)[s] < Starts(base)[s + 1] <= d.fromA
  }

  /** A line past the last spot of `c` starts at or after the end of `c`. */
  lemma {:induction false} LineFollows(base: string, c: Change, s: nat)
    requires c.fromA <= c.toA <= |base| && s < |Starts(base)|
    requires Rank(LastSpot(base, c)) < 2 * s + 1
    ensures c.toA <= Starts(base)[s]
  {
    LineBrackets(base, c.toA);
    if c.fromA < c.toA && EndsCleanly(base, c) {
      LineStartOrders(base, c.toA - 1, s);
    } else if IsBoundary(base, c) {
      LineStartOrders(base, c.toA, s);
    } else {
      LineStartOrders(base, c.toA, s);
    }
  }

  /** A line before the first spot of `d` ends at or before the start of `d`. */
  lemma {:induction false} LinePrecedes(base: string, d: Change, s: nat)
    requires d.fromA <= d.toA <= |base|
    requires 2 * s + 1 < Rank(FirstSpot(base, d))
    ensures s + 1 < |Starts(base)| && Starts(base)[s] < Starts(base)[s + 1] <= d.fromA
  {
    LineBrackets(base, d.fromA);
    LineStartOrders(base, d.fromA, s + 1);
    LineStartOrders(base, d.fromA, s);
    LineStartOrders(base, Starts(base)[s], s + 1);
  }

  lemma {:induction false} SyncPastChange(base: string, cs: seq<Change>, c: Change, nonSync: set<nat>, s: nat)
    requires Inside(base, cs) && c in cs && Classified(base, cs).lines <= nonSync && s !in nonSync
    requires Rank(FirstSpot(base, c)) < 2 * s + 1
    ensures Rank(LastSpot(base, c)) < 2 * s + 1
  {
    ClassifiedHolds(base, cs, c);
    FirstBeforeLast(base, c);
  }

  /** Real separation: without a collision, any two changes of the two sides
      have a whole base line between them that neither side rewrites. */
  lemma NoCollisionSeparates(base: string, ext: seq<Change>, local: seq<Change>, c: Change, d: Change)
    requires Inside(base, ext) && Inside(base, local) && !Collide(base, ext, local)
    requires c in ext && d in local
    ensures exists s :: && s !in NonSync(base, ext, local)
                        && (LineBetween(base, s, c, d) || LineBetween(base, s, d, c))
  {
    var n := NonSync(base, ext, local);
    var x, y := FirstSpot(base, c), FirstSpot(base, d);
    FirstSpotClaimed(base, ext, c);
    FirstSpotClaimed(base, local, d);
    CollideIffSharedChunk(base, ext, local);
    assert !SameChunk(x, y, n);
    var s: nat :| SyncSeparates(s, x, y, n);
    if Rank(x) < 2 * s + 1 {
      SyncPastChange(base, ext, c, n, s);
      LinePrecedes(base, d, s);
      LineFollows(base, c, s);
      assert LineBetween(base, s, c, d);
    } else {
      SyncPastChange(base, local, d, n, s);
      LinePrecedes(base, c, s);
      LineFollows(base, d, s);
      assert LineBetween(base, s, d, c);
    }
  }
}
