/** The collision test in offsets of the base and characters of the changes: what
    a line is, which lines and boundaries one side edits, and when the sides
    collide. */
module ListedLines {
  import opened ChangeSets
  import opened Lines
  import opened ChunkCollision
  import opened ChunkLaws

  // ----- lines -----

  /** How many line breaks stand in front of offset `pos`. */
  function Breaks(base: string, pos: nat): nat
    requires pos <= |base|
  {
    multiset(base[..pos])['\n']
  }

  /** Line `l` of the base runs from `s` to `t`, its break included. */
  predicate IsLine(base: string, l: nat, s: nat, t: nat) {
    && s <= t <= |base| && Breaks(base, s) == l && (s == 0 || base[s - 1] == '\n')
    && (|| (s < t && base[t - 1] == '\n' && '\n' !in base[s..t - 1])
        || (t == |base| && '\n' !in base[s..t]))
  }

  /** A line is numbered by the line breaks in front of it. */
  lemma {:induction false} LineCountsBreaks(base: string, pos: nat)
    requires pos <= |base|
    ensures LineAt(base, pos) == Breaks(base, pos)
  {
    if pos > 0 {
      LineCountsBreaks(base, pos - 1);
      assert base[..pos] == base[..pos - 1] + [base[pos - 1]];
    }
  }

  /** Entry `l` of the line index is where line `l` starts; it has no other. */
  lemma LineOfIndex(base: string, l: nat)
    requires l < |Starts(base)|
    ensures IsLine(base, l, Starts(base)[l], LineEnd(base, l))
  {
    var s, t := Starts(base)[l], LineEnd(base, l);
    LineStartOrders(base, 0, l);
    LineCountsBreaks(base, s);
    if l + 1 < |Starts(base)| {
      LineStartOrders(base, s, l + 1);
      forall i | s <= i < t - 1 ensures base[i] != '\n' {
        NoStartInside(base, l, i + 1);
      }
    } else {
      LineBrackets(base, |base|);
      forall i | s <= i < t ensures base[i] != '\n' {
        LineAtMonotone(base, s, i);
        LineAtMonotone(base, i + 1, |base|);
        LineAtMonotone(base, i, i + 1);
      }
    }
  }

  lemma NoStartInside(base: string, l: nat, x: nat)
    requires l + 1 < |Starts(base)| && Starts(base)[l] < x < Starts(base)[l + 1] && x <= |base|
    ensures base[x - 1] != '\n'
  {
    LineStartOrders(base, x, l + 1);
    LineStartOrders(base, x, l);
    LineAtMonotone(base, Starts(base)[l], x);
  }

  lemma LineShape(base: string, l: nat, s: nat, t: nat)
    requires IsLine(base, l, s, t)
    ensures forall i | s <= i < t - 1 :: base[i] != '\n'
    ensures t < |base| ==> s < t && base[t - 1] == '\n'
  {
    hide Breaks;
    if s < t && '\n' !in base[s..t - 1] {
      forall i | s <= i < t - 1 ensures base[i] != '\n' {
        assert base[i] == base[s..t - 1][i - s];
      }
    } else {
      forall i | s <= i < t ensures base[i] != '\n' {
        assert base[i] == base[s..t][i - s];
      }
    }
  }

  /** ... and it runs up to the next. */
  lemma IndexOfLine(base: string, l: nat, s: nat, t: nat)
    requires IsLine(base, l, s, t)
    ensures l < |Starts(base)| && Starts(base)[l] == s && LineEnd(base, l) == t
    ensures l + 1 < |Starts(base)| <==> '\n' in base[s..t]
  {
    LineCountsBreaks(base, s);
    LineBrackets(base, s);
    LineOfIndex(base, l);
    LineShape(base, l, s, t);
    LineShape(base, l, s, LineEnd(base, l));
    LastLineIff(base, l);
  }

  lemma LastLineIff(base: string, l: nat)
    requires l < |Starts(base)| && IsLine(base, l, Starts(base)[l], LineEnd(base, l))
    ensures l + 1 < |Starts(base)| <==> '\n' in base[Starts(base)[l]..LineEnd(base, l)]
  {
    var s, t := Starts(base)[l], LineEnd(base, l);
    if l + 1 < |Starts(base)| {
      LineStartOrders(base, s, l);
      LineStartOrders(base, s, l + 1);
      assert base[s..t][t - 1 - s] == '\n';
    } else {
      LineBrackets(base, |base|);
      if s < t && base[t - 1] == '\n' {
        LineAtMonotone(base, s, t);
      }
    }
  }

  // ----- what a change does to a line -----

  predicate EndsInBreak(s: string) {
    s != "" && s[|s| - 1] == '\n'
  }

  /** The change deletes a character of the line from `s` to `t`. */
  predicate DeletesIn(c: Change, s: nat, t: nat) {
    c.fromA < c.toA && s < t && c.fromA < t && s < c.toA
  }

  /** It inserts past the start of the line and within it; the last line, which
      has no break, ends where the base does. */
  predicate InsertsWithin(base: string, c: Change, s: nat, t: nat)
    requires s <= t <= |base|
  {
    c.fromA == c.toA && s < c.fromA && (c.fromA < t || (c.fromA == t && '\n' !in base[s..t]))
  }

  /** It ends where the line starts, with text that runs into the line. */
  predicate RunsInto(c: Change, s: nat) {
    c.toA == s && c.ins != "" && !EndsInBreak(c.ins)
  }

  lemma LineAtIff(base: string, x: nat, l: nat)
    requires x <= |base| && l < |Starts(base)|
    ensures LineAt(base, x) == l <==> Starts(base)[l] <= x && (l + 1 < |Starts(base)| ==> x < Starts(base)[l + 1])
  {
    LineStartOrders(base, x, l);
    LineAtMonotone(base, x, |base|);
    if l + 1 < |Starts(base)| {
      LineStartOrders(base, x, l + 1);
    }
  }

  lemma InsertionLists(base: string, c: Change, l: nat, s: nat, t: nat)
    requires c.fromA == c.toA <= |base| && c.ins != "" && IsLine(base, l, s, t)
    ensures l in LinesOf(base, c) <==> InsertsWithin(base, c, s, t) || RunsInto(c, s)
    ensures l in BoundariesOf(base, c) <==> c.fromA == s && EndsInBreak(c.ins)
  {
    IndexOfLine(base, l, s, t);
    LineAtIff(base, c.fromA, l);
    LineStartOrders(base, s, l);
    if s < c.fromA <= t && (c.fromA < t || '\n' !in base[s..t]) {
      InnerIsNoStart(base, l, s, t, c.fromA);
    }
  }

  lemma InnerIsNoStart(base: string, l: nat, s: nat, t: nat, x: nat)
    requires IsLine(base, l, s, t) && s < x <= t && (x < t || '\n' !in base[s..t])
    ensures !IsLineStart(base, x)
  {
    if '\n' !in base[s..t] {
      assert base[s..t][x - 1 - s] == base[x - 1];
    } else {
      assert x < t && base[s..t - 1][x - 1 - s] == base[x - 1];
    }
  }

  /** A deletion reaches the lines it deletes characters of, and the one it ends
      in front of if its text runs into that. */
  lemma DeletionLists(base: string, c: Change, l: nat, s: nat, t: nat)
    requires c.fromA < c.toA <= |base| && IsLine(base, l, s, t)
    ensures l in LinesOf(base, c) <==> DeletesIn(c, s, t) || RunsInto(c, s)
    ensures l !in BoundariesOf(base, c)
  {
    IndexOfLine(base, l, s, t);
    LineStartOrders(base, c.fromA, l);
    LineStartOrders(base, c.toA - 1, l);
    LineStartOrders(base, c.toA, l);
    FirstLineIff(base, c, l, s, t);
    LastLineIs(base, c);
  }

  /** The last line is that of the last character deleted, or that of the end. */
  lemma LastLineIs(base: string, c: Change)
    requires c.fromA < c.toA <= |base|
    ensures LineAt(base, c.fromA) <= LineAt(base, c.toA - 1) <= LineAt(base, c.toA)
    ensures base[c.toA - 1] != '\n' ==> LineAt(base, c.toA) == LineAt(base, c.toA - 1)
    ensures base[c.toA - 1] == '\n' ==> LineAt(base, c.toA) == LineAt(base, c.toA - 1) + 1
  {
    LineAtMonotone(base, c.fromA, c.toA - 1);
  }

  lemma FirstLineIff(base: string, c: Change, l: nat, s: nat, t: nat)
    requires c.fromA < c.toA <= |base| && IsLine(base, l, s, t) && l < |Starts(base)|
    requires Starts(base)[l] == s && LineEnd(base, l) == t
    ensures LineAt(base, c.fromA) <= l <==> c.fromA < t || l + 1 == |Starts(base)|
  {
    if l + 1 < |Starts(base)| {
      LineStartOrders(base, c.fromA, l + 1);
    } else {
      LineBrackets(base, c.fromA);
    }
  }

  // ----- what one side edits -----

  /** The change does not leave the line from `s` to `t` as it is. */
  predicate Disturbs(base: string, c: Change, s: nat, t: nat)
    requires s <= t <= |base|
  {
    DeletesIn(c, s, t) || InsertsWithin(base, c, s, t) || RunsInto(c, s)
  }

  /** It inserts whole lines in front of the line at `s`. */
  predicate InsertsAt(c: Change, s: nat) {
    c.fromA == c.toA == s && EndsInBreak(c.ins)
  }

  lemma ChangeLists(base: string, c: Change, l: nat, s: nat, t: nat)
    requires c.fromA <= c.toA <= |base| && (c.fromA < c.toA || c.ins != "") && IsLine(base, l, s, t)
    ensures l in LinesOf(base, c) <==> Disturbs(base, c, s, t)
    ensures l in BoundariesOf(base, c) <==> InsertsAt(c, s)
  {
    hide LinesOf, BoundariesOf, IsLine;
    if c.fromA == c.toA {
      InsertionLists(base, c, l, s, t);
    } else {
      DeletionLists(base, c, l, s, t);
      NoInsertion(base, c, l, s, t);
    }
  }

  lemma NoInsertion(base: string, c: Change, l: nat, s: nat, t: nat)
    requires c.fromA < c.toA && IsLine(base, l, s, t)
    ensures !InsertsWithin(base, c, s, t)
  {
  }

  lemma {:induction false} BoundariesFrom(base: string, cs: seq<Change>, g: nat)
    requires Inside(base, cs)
    ensures g in Classified(base, cs).boundaries <==> exists c <- cs :: g in BoundariesOf(base, c)
  {
    if cs != [] {
      var init, last := cs[..|cs| - 1], cs[|cs| - 1];
      BoundariesFrom(base, init, g);
      assert cs == init + [last];
    }
  }

  /** A base line is listed exactly if some change deletes a character of it, its
      break included, inserts past its start and within it, or ends at its start
      with text that does not end in a break. */
  lemma ListedIff(base: string, cs: seq<Change>, l: nat, s: nat, t: nat)
    requires Inside(base, cs) && IsLine(base, l, s, t)
    ensures l in Classified(base, cs).lines <==> exists c <- cs :: Disturbs(base, c, s, t)
  {
    assert s <= t <= |base|;
    hide LinesOf, BoundariesOf, Disturbs, IsLine, Classified;
    if l in Classified(base, cs).lines {
      ClassifiedFrom(base, cs, l);
      var c :| c in cs && l in LinesOf(base, c);
      ChangeLists(base, c, l, s, t);
    }
    if c :| c in cs && Disturbs(base, c, s, t) {
      ChangeLists(base, c, l, s, t);
      ClassifiedHolds(base, cs, c);
    }
  }

  /** A boundary is listed exactly if some change inserts there, at the start of a
      line, text that ends in a break, and deletes nothing. */
  lemma BoundaryIff(base: string, cs: seq<Change>, g: nat, s: nat, t: nat)
    requires Inside(base, cs) && IsLine(base, g, s, t)
    ensures g in Classified(base, cs).boundaries <==> exists c <- cs :: InsertsAt(c, s)
  {
    hide LinesOf, BoundariesOf, InsertsAt, IsLine, Classified;
    BoundariesFrom(base, cs, g);
    if c :| c in cs && g in BoundariesOf(base, c) {
      ChangeLists(base, c, g, s, t);
    }
    if c :| c in cs && InsertsAt(c, s) {
      ChangeLists(base, c, g, s, t);
    }
  }

  /** Only lines of the base are listed, and boundaries in front of one. */
  lemma ListedAreLines(base: string, cs: seq<Change>, l: nat)
    requires Inside(base, cs)
    requires l in Classified(base, cs).lines || l in Classified(base, cs).boundaries
    ensures exists s, t :: IsLine(base, l, s, t)
  {
    hide LinesOf, BoundariesOf, IsLine, Classified, Starts, LineEnd;
    BoundariesFrom(base, cs, l);
    if l in Classified(base, cs).lines {
      ClassifiedFrom(base, cs, l);
    }
    var c :| c in cs && (l in LinesOf(base, c) || l in BoundariesOf(base, c));
    WithinIndex(base, c, l);
    LineOfIndex(base, l);
  }

  lemma WithinIndex(base: string, c: Change, l: nat)
    requires c.fromA <= c.toA <= |base| && (l in LinesOf(base, c) || l in BoundariesOf(base, c))
    ensures l < |Starts(base)|
  {
    LineAtMonotone(base, c.fromA, |base|);
    LineAtMonotone(base, c.toA, |base|);
    if c.fromA < c.toA {
      LineAtMonotone(base, c.toA - 1, |base|);
    }
  }

  // ----- when the sides collide -----

  /** Lines stand at the odd numbers, the boundary in front of line `l` at `2 l`. */
  predicate EditedAt(edits: LineEdits, p: nat) {
    if p % 2 == 1 then p / 2 in edits.lines else p / 2 in edits.boundaries
  }

  /** No line that both sides leave as it is stands between `p` and `q`. */
  ghost predicate NoneIntactBetween(e: LineEdits, l: LineEdits, p: nat, q: nat) {
    forall s: nat | p < 2 * s + 1 < q || q < 2 * s + 1 < p :: s in e.lines || s in l.lines
  }

  lemma RankOfSpot(edits: LineEdits, x: Spot)
    ensures x in Spots(edits) <==> EditedAt(edits, Rank(x))
  {
  }

  /** The sides collide exactly if they edit two places with no intact line
      between. */
  lemma CollideIff(base: string, ext: seq<Change>, local: seq<Change>)
    requires Inside(base, ext) && Inside(base, local)
    ensures Collide(base, ext, local) <==>
            var e, l := Classified(base, ext), Classified(base, local);
            exists p: nat, q: nat :: EditedAt(e, p) && EditedAt(l, q) && NoneIntactBetween(e, l, p, q)
  {
    hide Spots, EditedAt, Collide, Classified;
    CollideIffSharedChunk(base, ext, local);
    var e, l := Classified(base, ext), Classified(base, local);
    var n := NonSync(base, ext, local);
    if x, y :| x in Spots(e) && y in Spots(l) && SameChunk(x, y, n) {
      RankOfSpot(e, x);
      RankOfSpot(l, y);
      NoneBetweenIff(e, l, x, y);
    }
    if p: nat, q: nat :| EditedAt(e, p) && EditedAt(l, q) && NoneIntactBetween(e, l, p, q) {
      var x, y := SpotAt(p), SpotAt(q);
      RankOfSpot(e, x);
      RankOfSpot(l, y);
      NoneBetweenIff(e, l, x, y);
    }
  }

  function SpotAt(p: nat): (x: Spot)
    ensures Rank(x) == p
  {
    if p % 2 == 1 then OnLine(p / 2) else InFront(p / 2)
  }

  lemma NoneBetweenIff(e: LineEdits, l: LineEdits, x: Spot, y: Spot)
    ensures NoneIntactBetween(e, l, Rank(x), Rank(y)) <==> SameChunk(x, y, e.lines + l.lines)
  {
    if NoneIntactBetween(e, l, Rank(x), Rank(y)) {
      forall s: nat ensures !SyncSeparates(s, x, y, e.lines + l.lines) {
      }
    }
    if SameChunk(x, y, e.lines + l.lines) {
      forall s: nat | Rank(x) < 2 * s + 1 < Rank(y) || Rank(y) < 2 * s + 1 < Rank(x)
        ensures s in e.lines || s in l.lines
      {
        assert !SyncSeparates(s, x, y, e.lines + l.lines);
      }
    }
  }
}
