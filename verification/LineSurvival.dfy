/** What the classification of edits promises: a base line it does not list is
    still a whole line of the edited text. */
module LineSurvival {
  import opened ChangeSets
  import opened ChangeSetLaws
  import opened ChangePositions
  import opened Lines
  import opened ChunkCollision
  import opened ChunkLaws

  /** Base line `k` stands in the edited text where its start went, unchanged
      and as a line of its own. */
  predicate Survives(base: string, e: Edits, k: nat)
    requires LenBefore(e) == |base| && k < |Starts(base)|
    requires Starts(base)[k] <= LineEnd(base, k) <= |base|
  {
    var s, t, out := Starts(base)[k], LineEnd(base, k), Apply(e, base);
    var p := MapPos(e, s, true);
    && CarriedTo(base, s, t - s, out, p)
    && IsLineStart(out, p)
    && (k + 1 == |Starts(base)| ==> p + (t - s) == |out|)
  }

  /** A pure deletion that ends where a line starts but does not begin there. */
  predicate HalfLineDeletion(base: string, c: Change)
    requires c.fromA <= c.toA <= |base|
  {
    c.ins == "" && IsLineStart(base, c.toA) && !IsLineStart(base, c.fromA)
  }

  lemma ChangesAreInside(base: string, e: Edits)
    requires Fits(e, |base|)
    ensures Inside(base, IterChanges(e))
  {
    ChangesInOrder(e);
  }

  lemma LineBounds(base: string, k: nat)
    requires k < |Starts(base)|
    ensures Starts(base)[k] <= LineEnd(base, k) <= |base|
    ensures k + 1 < |Starts(base)| ==> Starts(base)[k] < LineEnd(base, k)
  {
    LineStartOrders(base, 0, k);
    if k + 1 < |Starts(base)| {
      LineStartOrders(base, 0, k + 1);
      LineStartOrders(base, Starts(base)[k], k + 1);
    }
  }

  /** A change stays clear of a line the classification does not list. */
  lemma {:induction false} ChangeIsClear(base: string, cs: seq<Change>, c: Change, k: nat)
    requires Inside(base, cs) && c in cs
    requires k < |Starts(base)| && k !in Classified(base, cs).lines
    ensures c.toA <= Starts(base)[k] || (k + 1 < |Starts(base)| && LineEnd(base, k) <= c.fromA)
    ensures c.toA == Starts(base)[k] ==> c.ins == "" || EndsLine(c.ins)
  {
    ClassifiedHolds(base, cs, c);
    FirstBeforeLast(base, c);
    LineBrackets(base, c.toA);
    LineBrackets(base, c.fromA);
    LineStartOrders(base, c.toA, k);
    if Rank(LastSpot(base, c)) < 2 * k + 1 {
      LineFollows(base, c, k);
    } else {
      LinePrecedes(base, c, k);
    }
  }

  lemma {:induction false} KeptAfter(e: Edits, x: nat, y: nat, posA: nat, posB: nat)
    requires Normal(e) && x <= y <= LenBefore(e)
    requires forall c <- Changes(e, posA, posB) :: c.toA <= posA + x || posA + y <= c.fromA
    ensures Cuts(e, x) && (x < y ==> After(e, x).Keep? && y - x <= After(e, x).len)
  {
    hide Changes;
    if !e.Done? {
      var a, b := posA + Covers(e), posB + Width(e);
      ChangesOfParts(e, posA, posB);
      if Covers(e) <= x {
        KeptAfter(e.rest, x - Covers(e), y - Covers(e), a, b);
      } else if e.Keep? && e.rest.Replace? {
        ChangesOfParts(e.rest, a, b);
      }
    }
  }

  lemma {:induction false} NothingAfter(e: Edits, x: nat, posA: nat, posB: nat)
    requires Normal(e) && x <= LenBefore(e)
    requires forall c <- Changes(e, posA, posB) :: c.toA <= posA + x
    ensures Cuts(e, x) && IsEmpty(After(e, x))
  {
    hide Changes;
    if !e.Done? {
      var a, b := posA + Covers(e), posB + Width(e);
      ChangesOfParts(e, posA, posB);
      if Covers(e) <= x {
        NothingAfter(e.rest, x - Covers(e), a, b);
      } else if e.rest.Replace? {
        ChangesOfParts(e.rest, a, b);
      }
    }
  }

  lemma {:induction false} KeptFrom(e: Edits, doc: string, x: nat, m: nat)
    requires LenBefore(e) == |doc| && x + m <= |doc| && Cuts(e, x)
    requires m > 0 ==> After(e, x).Keep? && m <= After(e, x).len
    ensures CarriedTo(doc, x, m, Apply(e, doc), MapPos(e, x, true))
  {
    TextAfter(e, doc, x);
    if m > 0 {
      ApplyAdvance(After(e, x), m, doc[x..]);
    }
    PrefixOfTail(Apply(e, doc), MapPos(e, x, true), Apply(After(e, x), doc[x..]), doc, x, m);
  }

  /** The `m` characters of `doc` at `x` stand at `p` in `out`. */
  predicate CarriedTo(doc: string, x: nat, m: nat, out: string, p: nat)
    requires x + m <= |doc|
  {
    p + m <= |out| && out[p..p + m] == doc[x..x + m]
  }

  /** Where no change reaches, no section of one does. */
  lemma SectionsClear(e: Edits, x: nat, y: nat)
    requires forall c <- IterChanges(e) :: c.toA <= x || y <= c.fromA
    ensures forall c <- Changes(e, 0, 0) :: c.toA <= x || y <= c.fromA
  {
    forall c <- Changes(e, 0, 0) ensures c.toA <= x || y <= c.fromA {
      SectionsInChanges(e, 0, 0, c);
    }
  }

  /** Text between positions no change reaches into is carried over whole. */
  lemma {:induction false} KeptText(e: Edits, doc: string, x: nat, y: nat)
    requires Fits(e, |doc|) && x <= y <= |doc|
    requires forall c <- IterChanges(e) :: c.toA <= x || y <= c.fromA
    ensures Cuts(e, x)
    ensures CarriedTo(doc, x, y - x, Apply(e, doc), MapPos(e, x, true))
  {
    SectionsClear(e, x, y);
    KeptAfter(e, x, y, 0, 0);
    KeptFrom(e, doc, x, y - x);
  }

  lemma {:induction false} PrefixOfTail(out: string, p: nat, tail: string, doc: string, x: nat, m: nat)
    requires p <= |out| && out[p..] == tail && x + m <= |doc|
    requires m > 0 ==> m <= |tail| && tail[..m] == doc[x..][..m]
    ensures CarriedTo(doc, x, m, out, p)
  {
    if m > 0 {
      assert out[p..p + m] == out[p..][..m] && doc[x..x + m] == doc[x..][..m];
    }
  }

  lemma {:induction false} LineTextSurvives(base: string, e: Edits, k: nat)
    requires Fits(e, |base|) && Inside(base, IterChanges(e)) && k < |Starts(base)|
    requires k !in Classified(base, IterChanges(e)).lines
    requires Starts(base)[k] <= LineEnd(base, k) <= |base|
    ensures Cuts(e, Starts(base)[k])
    ensures var s, t, out := Starts(base)[k], LineEnd(base, k), Apply(e, base);
            var p := MapPos(e, s, true);
            && CarriedTo(base, s, t - s, out, p)
            && (k + 1 == |Starts(base)| ==> p + (t - s) == |out|)
  {
    var s, t := Starts(base)[k], LineEnd(base, k);
    forall c <- IterChanges(e) ensures c.toA <= s || (k + 1 < |Starts(base)| && t <= c.fromA) {
      ChangeIsClear(base, IterChanges(e), c, k);
    }
    KeptText(e, base, s, t);
    if k + 1 == |Starts(base)| {
      forall c <- Changes(e, 0, 0) ensures c.toA <= s {
        SectionsInChanges(e, 0, 0, c);
      }
      NothingAfter(e, s, 0, 0);
      TextAfter(e, base, s);
      EmptyKeepsAll(After(e, s), base[s..]);
    }
  }

  /** No half-line deletion ends where line `k` starts. */
  ghost predicate CleanStart(base: string, cs: seq<Change>, k: nat)
    requires Inside(base, cs) && k < |Starts(base)|
  {
    forall c <- cs :: c.toA == Starts(base)[k] ==> !HalfLineDeletion(base, c)
  }

  lemma {:induction false} StartAfterChange(base: string, e: Edits, k: nat, ch: Change)
    requires Fits(e, |base|) && Inside(base, IterChanges(e)) && k < |Starts(base)|
    requires Starts(base)[k] <= |base| && Cuts(e, Starts(base)[k]) && IsLineStart(base, Starts(base)[k])
    requires forall c <- IterChanges(e) :: c.toA <= Starts(base)[k] || Starts(base)[k] < c.fromA
    requires ch in IterChanges(e) && ch.toA == Starts(base)[k] && (ch.ins == "" || EndsLine(ch.ins))
    ensures IsLineStart(Apply(e, base), MapPos(e, Starts(base)[k], true)) <==> !HalfLineDeletion(base, ch)
  {
    var s := Starts(base)[k];
    PrecededByChange(e, base, s, ch);
    hide IterChanges, Apply, MapPos, LastOr;
    StartsAfterBreak(Apply(e, base), MapPos(e, s, true));
    BreakUnlessHalf(base, ch);
  }

  /** What stands before the place of a position where change `ch` ends. */
  lemma PrecededByChange(e: Edits, doc: string, s: nat, ch: Change)
    requires Normal(e) && LenBefore(e) == |doc| && s <= |doc| && Cuts(e, s)
    requires forall c <- Changes(Joined(e), 0, 0) :: c.toA <= s || s < c.fromA
    requires ch in Changes(Joined(e), 0, 0) && ch.toA == s
    ensures ch.fromA <= ch.toA
    ensures CharBefore(Apply(e, doc), MapPos(e, s, true), '\n') == LastOr(ch.ins, CharBefore(doc, ch.fromA, '\n'))
  {
    hide *;
    PrecedingIsWritten(e, doc, s, '\n');
    ClearOfChanges(Joined(e), s, 0, 0);
    PrecedingJoined(e, doc, s, '\n');
    JoinedAlternates(e);
    PrecedingChange(Joined(e), doc, s, '\n', 0, 0, ch);
  }

  lemma StartsAfterBreak(text: string, p: nat)
    requires p <= |text|
    ensures IsLineStart(text, p) <==> CharBefore(text, p, '\n') == '\n'
  {
  }

  lemma BreakUnlessHalf(base: string, c: Change)
    requires c.fromA <= c.toA <= |base| && IsLineStart(base, c.toA) && (c.ins == "" || EndsLine(c.ins))
    ensures LastOr(c.ins, CharBefore(base, c.fromA, '\n')) == '\n' <==> !HalfLineDeletion(base, c)
  {
  }

  lemma {:induction false} StartAfterKept(base: string, e: Edits, x: nat)
    requires Fits(e, |base|) && x <= |base| && IsLineStart(base, x)
    requires forall ch <- IterChanges(e) :: ch.toA < x || x < ch.fromA
    ensures IsLineStart(Apply(e, base), MapPos(e, x, true))
  {
    forall c <- Changes(e, 0, 0) ensures c.toA < x || x < c.fromA {
      SectionsInChanges(e, 0, 0, c);
    }
    PrecedingKept(e, base, x, '\n', 0, 0);
    PrecedingIsWritten(e, base, x, '\n');
  }

  /** An unlisted line still starts a line unless a half-line deletion ends at
      its start. */
  lemma {:induction false} LineStartSurvives(base: string, e: Edits, k: nat)
    requires Fits(e, |base|) && Inside(base, IterChanges(e)) && k < |Starts(base)|
    requires k !in Classified(base, IterChanges(e)).lines
    requires Starts(base)[k] <= |base| && Cuts(e, Starts(base)[k])
    ensures IsLineStart(Apply(e, base), MapPos(e, Starts(base)[k], true)) <==> CleanStart(base, IterChanges(e), k)
  {
    var s, cs := Starts(base)[k], IterChanges(e);
    LineBounds(base, k);
    LineStartOrders(base, s, k);
    ChangesInOrder(e);
    forall c <- cs ensures c.toA == s || c.toA < s || s < c.fromA {
      ChangeIsClear(base, cs, c, k);
    }
    if ch :| ch in cs && ch.toA == s {
      ChangeIsClear(base, cs, ch, k);
      StartAfterChange(base, e, k, ch);
      forall c <- cs | c.toA == s ensures c == ch {
        OneEndsThere(cs, c, ch);
      }
    } else {
      StartAfterKept(base, e, s);
    }
  }

  lemma {:induction false} OneEndsThere(cs: seq<Change>, c: Change, d: Change)
    requires c in cs && d in cs && c.toA == d.toA
    requires forall c <- cs :: c.fromA <= c.toA
    requires forall i, j | 0 <= i < j < |cs| :: cs[i].toA < cs[j].fromA
    ensures c == d
  {
    var i :| 0 <= i < |cs| && cs[i] == c;
    var j :| 0 <= j < |cs| && cs[j] == d;
    assert cs[i].fromA <= cs[i].toA && cs[j].fromA <= cs[j].toA;
  }

  lemma {:induction false} LineSurvivesIff(base: string, e: Edits, k: nat)
    requires Fits(e, |base|) && Inside(base, IterChanges(e)) && k < |Starts(base)|
    requires k !in Classified(base, IterChanges(e)).lines
    ensures Starts(base)[k] <= LineEnd(base, k) <= |base|
    ensures Survives(base, e, k) <==> CleanStart(base, IterChanges(e), k)
  {
    LineBounds(base, k);
    LineTextSurvives(base, e, k);
    LineStartSurvives(base, e, k);
  }

  /** Every line the classification leaves out survives. */
  ghost predicate UnlistedSurvive(base: string, e: Edits)
    requires Fits(e, |base|) && Inside(base, IterChanges(e))
  {
    forall k: nat | k < |Starts(base)| && k !in Classified(base, IterChanges(e)).lines ::
      Starts(base)[k] <= LineEnd(base, k) <= |base| && Survives(base, e, k)
  }

  lemma UnlistedSurviveIfListed(base: string, e: Edits)
    requires Fits(e, |base|)
    ensures Inside(base, IterChanges(e))
    ensures UnlistedSurvive(base, e) <==>
            forall c <- IterChanges(e) :: HalfLineDeletion(base, c) ==>
                                            LineAt(base, c.toA) in Classified(base, IterChanges(e)).lines
  {
    ChangesAreInside(base, e);
    var cs := IterChanges(e);
    var lines := Classified(base, cs).lines;
    if UnlistedSurvive(base, e) {
      forall c <- cs | HalfLineDeletion(base, c) ensures LineAt(base, c.toA) in lines {
        var k := LineAt(base, c.toA);
        LineBrackets(base, c.toA);
        if k !in lines {
          LineSurvivesIff(base, e, k);
        }
      }
    } else {
      var k: nat :| && k < |Starts(base)| && k !in lines
                    && !(Starts(base)[k] <= LineEnd(base, k) <= |base| && Survives(base, e, k));
      LineSurvivesIff(base, e, k);
      LineStartOrders(base, 0, k);
    }
  }

  /** Another change begins further on in the line where `c` ends. */
  ghost predicate Followed(base: string, cs: seq<Change>, c: Change)
    requires Inside(base, cs) && c.toA <= |base|
  {
    exists d <- cs :: c.toA < d.fromA && LineAt(base, d.fromA) == LineAt(base, c.toA)
  }

  /** A change that begins inside a line lists it. */
  lemma InsideLineLists(base: string, cs: seq<Change>, c: Change, d: Change)
    requires Inside(base, cs) && d in cs && c.toA < d.fromA && LineAt(base, d.fromA) == LineAt(base, c.toA)
    ensures LineAt(base, c.toA) in Classified(base, cs).lines
  {
    hide Classified;
    LineAtMonotone(base, c.toA, d.fromA);
    FirstBeforeLast(base, d);
    ClassifiedHolds(base, cs, d);
  }

  /** The line after a half-line deletion is listed exactly if another change
      begins in it. */
  lemma ListedIfFollowed(base: string, cs: seq<Change>, c: Change)
    requires Inside(base, cs) && c in cs && HalfLineDeletion(base, c)
    requires forall i, j | 0 <= i < j < |cs| :: cs[i].toA < cs[j].fromA
    ensures LineAt(base, c.toA) in Classified(base, cs).lines <==> Followed(base, cs, c)
  {
    hide Classified;
    var l := LineAt(base, c.toA);
    if l in Classified(base, cs).lines {
      ClassifiedFrom(base, cs, l);
      var d :| d in cs && l in LinesOf(base, d);
      EndsInFront(base, c);
      LastLineReached(base, d);
      if d.toA < c.fromA {
        LineAtMonotone(base, d.toA, c.toA);
      } else {
        InOrderOf(cs, c, d);
        LineAtMonotone(base, c.toA, d.fromA);
      }
    }
    if d :| d in cs && c.toA < d.fromA && LineAt(base, d.fromA) == l {
      InsideLineLists(base, cs, c, d);
    }
  }

  /** A half-line deletion lists lines in front of the one it ends at only. */
  lemma EndsInFront(base: string, c: Change)
    requires c.fromA <= c.toA <= |base| && HalfLineDeletion(base, c)
    ensures LineAt(base, c.toA) !in LinesOf(base, c) && c.fromA < c.toA
  {
    LineAtMonotone(base, c.toA - 1, c.toA);
  }

  lemma InOrderOf(cs: seq<Change>, c: Change, d: Change)
    requires c in cs && d in cs && c != d && !(d.toA < c.fromA)
    requires forall i, j | 0 <= i < j < |cs| :: cs[i].toA < cs[j].fromA
    ensures c.toA < d.fromA
  {
    var i :| 0 <= i < |cs| && cs[i] == c;
    var j :| 0 <= j < |cs| && cs[j] == d;
  }

  /** Soundness of the classification, exactly: all unlisted lines survive if
      and only if after each half-line deletion another change begins further on
      in the line where it ends. */
  lemma UnlistedLinesSurvive(base: string, e: Edits)
    requires Fits(e, |base|)
    ensures Inside(base, IterChanges(e))
    ensures UnlistedSurvive(base, e) <==>
            forall c <- IterChanges(e) :: HalfLineDeletion(base, c) ==> Followed(base, IterChanges(e), c)
  {
    hide UnlistedSurvive, IterChanges, HalfLineDeletion, Followed, Classified;
    UnlistedSurviveIfListed(base, e);
    ChangesInOrder(e);
    var cs := IterChanges(e);
    forall c <- cs | HalfLineDeletion(base, c)
      ensures LineAt(base, c.toA) in Classified(base, cs).lines <==> Followed(base, cs, c)
    {
      ListedIfFollowed(base, cs, c);
    }
  }

  /** Nothing is listed without cause: some change reaches every listed line. */
  lemma ListedLinesAreTouched(base: string, cs: seq<Change>, l: nat)
    requires Inside(base, cs) && l in Classified(base, cs).lines
    ensures l < |Starts(base)| && Starts(base)[l] <= LineEnd(base, l) <= |base|
    ensures exists c :: c in cs && c.fromA <= LineEnd(base, l) && Starts(base)[l] <= c.toA
  {
    ClassifiedFrom(base, cs, l);
    var c :| c in cs && l in LinesOf(base, c);
    hide Classified, Starts, LineEnd;
    LastLineReached(base, c);
    LineBrackets(base, c.toA);
    LineBrackets(base, c.fromA);
    LineBounds(base, l);
    LineReached(base, c, l);
  }

  lemma LastLineReached(base: string, c: Change)
    requires c.fromA <= c.toA <= |base|
    ensures LastLine(base, c) <= LineAt(base, c.toA)
  {
    if c.fromA < c.toA { LineAtMonotone(base, c.toA - 1, c.toA); }
  }

  lemma LineReached(base: string, c: Change, l: nat)
    requires c.fromA <= c.toA <= |base| && LineAt(base, c.fromA) <= l <= LineAt(base, c.toA) && l < |Starts(base)|
    ensures c.fromA <= LineEnd(base, l) && Starts(base)[l] <= c.toA
  {
    LineStartOrders(base, c.toA, l);
    if l + 1 < |Starts(base)| {
      LineStartOrders(base, c.fromA, l + 1);
    }
  }

  const HALF_LINE := Keep(1, Replace(2, "", Keep(3, Done)))

  lemma HalfLineChange()
    ensures Fits(HALF_LINE, |"ab\ncd\n"|) && IterChanges(HALF_LINE) == [Change(1, 3, 1, 1, "")]
  {
    assert Joined(HALF_LINE) == HALF_LINE;
  }

  /** The proviso is needed: deleting `b` and the line break after it from the
      first line of "ab\ncd\n" lists only that line, and the second is gone. */
  lemma HalfLineDeletionJoinsLines()
    ensures var base, e := "ab\ncd\n", HALF_LINE;
            && Fits(e, |base|) && Inside(base, IterChanges(e))
            && Classified(base, IterChanges(e)).lines == {0}
            && !UnlistedSurvive(base, e)
  {
    hide IterChanges, Fits, UnlistedSurvive;
    var base, e := "ab\ncd\n", HALF_LINE;
    var c := Change(1, 3, 1, 1, "");
    HalfLineChange();
    UnlistedLinesSurvive(base, e);
    assert LineAt(base, 1) == 0 && LineAt(base, 2) == 0 && LineAt(base, 3) == 1;
    assert LinesOf(base, c) == {0} by {
      assert LastLine(base, c) == 0;
      assert Range(0, 1) == {0};
    }
    assert IterChanges(e)[..0] == [];
    assert HalfLineDeletion(base, c) && c in IterChanges(e);
  }
}
