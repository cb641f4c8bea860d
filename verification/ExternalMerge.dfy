/** The three-way merge of an external change into the open buffer, and what the
    merged text is. */
module ExternalMerge {
  import opened ChangeSets
  import opened ChangeSetLaws
  import opened ChangePositions
  import opened Convergence
  import opened MergeOrder
  import opened LineDiff
  import opened LineDiffLaws
  import opened ChunkCollision
  import opened ChunkLaws
  import opened LineSurvival
  import Text
  import MarkerLines
  import ConflictMarkers

  /** Changes for the buffer; `deferred` when the update was withheld. */
  datatype Merge = Merge(changes: Edits, deferred: bool)

  /** The text holds a conflict hunk in SB's own markers. */
  predicate HasConflictMarkers(text: string) {
    exists h <- ConflictMarkers.Hunks(MarkerLines.ReadLines(Text.SplitLines(text))) :: h.kind.SB?
  }

  method TestConflictMarkers(text: string) returns (r: bool)
    ensures r == HasConflictMarkers(text)
  {
    hide ConflictMarkers.Hunks, ConflictMarkers.Located, ConflictMarkers.LocatedAll;
    hide ConflictMarkers.AllInDoc, MarkerLines.ReadLine;
    var doc := MarkerLines.ReadLines(Text.SplitLines(text));
    var hunks := ConflictMarkers.FindConflictHunks(doc);
    ConflictMarkers.LocatedKinds(doc, ConflictMarkers.Hunks(doc));
    r := false;
    for i := 0 to |hunks|
      invariant r == exists k :: 0 <= k < i && ConflictMarkers.Hunks(doc)[k].kind.SB?
    {
      r := r || hunks[i].kind.SB?;
    }
  }

  /** Both sides edited one chunk of the server's merge. */
  predicate SidesCollide(base: string, external: Edits, local: Edits)
    requires Fits(external, |base|) && Fits(local, |base|)
  {
    ChangesAreInside(base, external);
    ChangesAreInside(base, local);
    Collide(base, IterChanges(external), IterChanges(local))
  }

  function ComputeExternal(diff: Differ, base: string, disk: string, current: string, canDefer: bool): (r: Merge)
    requires ValidDiffer(diff)
    ensures Fits(r.changes, |current|)
    ensures r.deferred ==> IsEmpty(r.changes)
  {
    if disk == current then Merge(Unchanged(|current|), false)
    else
      var external := Diffed(diff, base, disk);
      if current == base then Merge(external, false)
      else if !IsEmpty(external) && HasConflictMarkers(disk) then Merge(Diffed(diff, current, disk), false)
      else
        var local := Diffed(diff, base, current);
        if canDefer && SidesCollide(base, external, local) then Merge(Unchanged(|current|), true)
        else
          DiffedRebuilds(diff, base, current);
          Merge(Map(external, local, true), false)
  }

  /** `ChangeSet.of(diffAndPrepareChanges(a, b), a.length)`. */
  method DiffTexts(diff: Differ, a: string, b: string) returns (e: Edits)
    requires ValidDiffer(diff)
    ensures e == Diffed(diff, a, b)
  {
    var changes := DiffAndPrepareChanges(diff, a, b);
    AlignedKeepsTexts(diff(a, b));
    SpecsOrdered(Aligned(diff(a, b)), 0, 0);
    e := Of(changes, 0, |a|);
  }

  method ComputeExternalChanges(diff: Differ, base: string, disk: string, current: string,
                                canDefer: bool) returns (r: Merge)
    requires ValidDiffer(diff)
    ensures r == ComputeExternal(diff, base, disk, current, canDefer)
  {
    if disk == current {
      return Merge(Unchanged(|current|), false);
    }
    var external := DiffTexts(diff, base, disk);
    if current == base {
      return Merge(external, false);
    }
    if !IsEmpty(external) {
      var markers := TestConflictMarkers(disk);
      if markers {
        var replacement := DiffTexts(diff, current, disk);
        return Merge(replacement, false);
      }
    }
    var local := DiffTexts(diff, base, current);
    if canDefer {
      ChangesAreInside(base, external);
      ChangesAreInside(base, local);
      var collides := CollidesInSameChunk(base, IterChanges(external), IterChanges(local));
      if collides {
        return Merge(Unchanged(|current|), true);
      }
    }
    DiffedRebuilds(diff, base, current);
    return Merge(Map(external, local, true), false);
  }

  // ----- the merged text -----

  /** Sides without a collision share no position. */
  lemma NoCollisionNoneShared(base: string, external: Edits, local: Edits)
    requires Fits(external, |base|) && Fits(local, |base|) && !SidesCollide(base, external, local)
    ensures NoneShared(external, local, 0)
  {
    var ext, loc := IterChanges(external), IterChanges(local);
    ChangesAreInside(base, external);
    ChangesAreInside(base, local);
    forall c, d | c in ext && d in loc ensures c.toA < d.fromA || d.toA < c.fromA {
      NoCollisionSeparates(base, ext, loc, c, d);
    }
    NoneSharedByChanges(external, local);
  }

  /** The unsaved edits as they apply to the text on disk. */
  function Rebased(diff: Differ, base: string, disk: string, current: string): (r: string)
    requires ValidDiffer(diff)
  {
    DiffedRebuilds(diff, base, disk);
    Apply(Map(Diffed(diff, base, current), Diffed(diff, base, disk), false), disk)
  }

  /** A merge proper: none of the earlier branches, and not withheld. */
  predicate Merges(diff: Differ, base: string, disk: string, current: string, canDefer: bool)
    requires ValidDiffer(diff)
  {
    && disk != current && base != current && (IsEmpty(Diffed(diff, base, disk)) || !HasConflictMarkers(disk))
    && !ComputeExternal(diff, base, disk, current, canDefer).deferred
  }

  /** Convergence: a merge gives the local edits rebased onto the disk text,
      whether or not withholding is switched on. */
  lemma MergeConverges(diff: Differ, base: string, disk: string, current: string, canDefer: bool)
    requires ValidDiffer(diff) && Merges(diff, base, disk, current, canDefer)
    ensures Apply(ComputeExternal(diff, base, disk, current, canDefer).changes, current) ==
            Rebased(diff, base, disk, current)
  {
    hide HasConflictMarkers, Diffed, Map, Apply, SidesCollide;
    DiffedRebuilds(diff, base, disk);
    DiffedRebuilds(diff, base, current);
    MapConverges(Diffed(diff, base, disk), Diffed(diff, base, current), true, base);
  }

  /** With withholding on, that is also both edit sets patched into the base at
      once, every replacement of both and no other. */
  lemma MergePatchesBoth(diff: Differ, base: string, disk: string, current: string)
    requires ValidDiffer(diff) && Merges(diff, base, disk, current, true)
    ensures var external, local := Diffed(diff, base, disk), Diffed(diff, base, current);
            && Apart(external, local) && Sites(Both(external, local), 0) == Sites(external, 0) + Sites(local, 0)
            && Apply(ComputeExternal(diff, base, disk, current, true).changes, current) ==
               Apply(Both(external, local), base)
  {
    hide HasConflictMarkers, Diffed, Map, Apply, Sites, Both;
    var external, local := Diffed(diff, base, disk), Diffed(diff, base, current);
    NoCollisionNoneShared(base, external, local);
    DiffedRebuilds(diff, base, current);
    ApartPatchesBoth(external, local, true, base);
  }

  /** Text inserted by either side stands in the merged text. */
  lemma MergeLosesNoInsertion(diff: Differ, base: string, disk: string, current: string, canDefer: bool, site: Site)
    requires ValidDiffer(diff) && Merges(diff, base, disk, current, canDefer)
    requires site in Sites(Diffed(diff, base, disk), 0) + Sites(Diffed(diff, base, current), 0)
    ensures Contains(Apply(ComputeExternal(diff, base, disk, current, canDefer).changes, current), site.ins)
  {
    hide HasConflictMarkers, Diffed, Map, Apply, SidesCollide, Contains, Sites;
    DiffedRebuilds(diff, base, current);
    MapLosesNoInsertion(Diffed(diff, base, disk), Diffed(diff, base, current), true, base, site);
  }

  /** Where each side replaces one stretch and both begin at one place, a merge has
      the text of the disk before that of the buffer, unless it deletes more. */
  lemma DiskTextComesFirst(diff: Differ, base: string, disk: string, current: string, canDefer: bool,
                           i: nat, da: nat, s: string, db: nat, t: string)
    requires ValidDiffer(diff) && Merges(diff, base, disk, current, canDefer)
    requires i + da <= |base| && i + db <= |base| && (da > 0 || s != "") && (db > 0 || t != "")
    requires Diffed(diff, base, disk) == OneSite(|base|, i, da, s)
    requires Diffed(diff, base, current) == OneSite(|base|, i, db, t)
    ensures Apply(ComputeExternal(diff, base, disk, current, canDefer).changes, current) ==
            base[..i] + ((if da <= db then s + t else t + s) + base[i + if da < db then db else da..])
  {
    hide HasConflictMarkers, Diffed, Map, Apply, SidesCollide, OneSite;
    DiffedRebuilds(diff, base, current);
    OrderAtOnePlace(base, i, da, s, db, t, true);
  }

  /** An update is withheld exactly when that is asked for, it would have to be
      merged, and both sides edited one chunk of a diff3 merge. */
  lemma WithheldIffSharedChunk(diff: Differ, base: string, disk: string, current: string, canDefer: bool)
    requires ValidDiffer(diff)
    ensures var external, local := Diffed(diff, base, disk), Diffed(diff, base, current);
            && Inside(base, IterChanges(external)) && Inside(base, IterChanges(local))
            && (ComputeExternal(diff, base, disk, current, canDefer).deferred <==>
                  && canDefer && disk != current && base != current
                  && (IsEmpty(external) || !HasConflictMarkers(disk))
                  && exists x, y :: && x in Spots(Classified(base, IterChanges(external)))
                                    && y in Spots(Classified(base, IterChanges(local)))
                                    && SameChunk(x, y, NonSync(base, IterChanges(external), IterChanges(local))))
  {
    hide HasConflictMarkers, Diffed, SameChunk, Spots, Classified;
    var external, local := Diffed(diff, base, disk), Diffed(diff, base, current);
    ChangesAreInside(base, external);
    ChangesAreInside(base, local);
    CollideIffSharedChunk(base, IterChanges(external), IterChanges(local));
  }

  /** The branches before the merge proper: the buffer ends up with the disk text. */
  lemma AdoptsDisk(diff: Differ, base: string, disk: string, current: string, canDefer: bool)
    requires ValidDiffer(diff)
    requires disk == current || base == current || (!IsEmpty(Diffed(diff, base, disk)) && HasConflictMarkers(disk))
    ensures !ComputeExternal(diff, base, disk, current, canDefer).deferred
    ensures Apply(ComputeExternal(diff, base, disk, current, canDefer).changes, current) == disk
  {
    hide HasConflictMarkers;
    DiffedRebuilds(diff, base, disk);
    DiffedRebuilds(diff, current, disk);
    UnchangedKeeps(current);
  }

  lemma UnchangedKeeps(doc: string)
    ensures Apply(Unchanged(|doc|), doc) == doc
  {
    ApplyKeepThen(|doc|, Done, doc);
    assert doc[..|doc|] + "" == doc;
  }

  /** An update that repeats the base changes nothing. */
  lemma SameDiskChangesNothing(diff: Differ, base: string, current: string, canDefer: bool)
    requires ValidDiffer(diff)
    ensures !ComputeExternal(diff, base, base, current, canDefer).deferred
    ensures IsEmpty(ComputeExternal(diff, base, base, current, canDefer).changes)
  {
    hide HasConflictMarkers, Joined;
    var external, local := Diffed(diff, base, base), Diffed(diff, base, current);
    DiffedEqual(diff, base);
    NoChanges(external, 0, 0);
    ChangesAreInside(base, external);
    ChangesAreInside(base, local);
    assert Claimed(Classified(base, []), Classified(base, IterChanges(local)).lines) == {};
    DiffedRebuilds(diff, base, current);
    MapEmpty(external, true, false, local, true);
  }

  /** Without unsaved edits, rebasing them gives the disk text. */
  lemma RebasedNothing(diff: Differ, base: string, disk: string)
    requires ValidDiffer(diff)
    ensures Rebased(diff, base, disk, base) == disk
  {
    var external, local := Diffed(diff, base, disk), Diffed(diff, base, base);
    DiffedEqual(diff, base);
    DiffedRebuilds(diff, base, disk);
    MapEmpty(local, true, false, external, false);
    EmptyKeepsAll(Map(local, external, false), disk);
  }

  lemma {:induction false} NoChanges(e: Edits, posA: nat, posB: nat)
    requires IsEmpty(e)
    ensures Changes(Joined(e), posA, posB) == []
  {
    if e.Keep? {
      NoChanges(e.rest, posA + e.len, posB + e.len);
    }
  }
}
