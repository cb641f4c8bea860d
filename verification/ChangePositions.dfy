/** How a change set moves positions, and what its list of changes says about
    the text around one position. */
module ChangePositions {
  import opened Sequences
  import opened ChangeSets
  import opened ChangeSetLaws

  // ----- the list of changes -----

  predicate Within(c: Change, loA: nat, hiA: nat, loB: nat, hiB: nat) {
    && loA <= c.fromA <= c.toA <= hiA
    && loB <= c.fromB <= c.toB <= hiB
    && c.toB == c.fromB + |c.ins|
    && (c.fromA < c.toA || c.ins != "")
  }

  /** Every change replaces something within the bounds, and kept text stands
      between any two. */
  ghost predicate InOrder(cs: seq<Change>, loA: nat, hiA: nat, loB: nat, hiB: nat) {
    && (forall c <- cs :: Within(c, loA, hiA, loB, hiB))
    && (forall i, j | 0 <= i < j < |cs| :: cs[i].toA < cs[j].fromA)
  }

  /** Kept and replaced text take turns. */
  predicate Alternates(e: Edits) {
    match e
    case Done => true
    case Keep(n, rest) => n > 0 && !rest.Keep? && Alternates(rest)
    case Replace(d, s, rest) => (d > 0 || s != "") && !rest.Replace? && Alternates(rest)
  }

  lemma {:induction false} JoinedAlternates(e: Edits)
    requires Normal(e)
    ensures Alternates(Joined(e)) && (Joined(e).Keep? <==> e.Keep?)
  {
    if !e.Done? { JoinedAlternates(e.rest); }
  }

  lemma {:induction false} AlternatingInOrder(e: Edits, posA: nat, posB: nat)
    requires Alternates(e)
    ensures InOrder(Changes(e, posA, posB), posA, posA + LenBefore(e), posB, posB + LenAfter(e))
    ensures !e.Replace? ==> forall c <- Changes(e, posA, posB) :: posA < c.fromA
  {
    match e
    case Done =>
    case Keep(n, rest) => AlternatingInOrder(rest, posA + n, posB + n);
    case Replace(d, s, rest) => AlternatingInOrder(rest, posA + d, posB + |s|);
  }

  lemma ChangesInOrder(e: Edits)
    requires Normal(e)
    ensures InOrder(IterChanges(e), 0, LenBefore(e), 0, LenAfter(e))
  {
    JoinedAlternates(e);
    AlternatingInOrder(Joined(e), 0, 0);
  }

  /** A section lies in the change it is reported with. */
  ghost predicate InSome(cs: seq<Change>, from: nat, to: nat) {
    exists c <- cs :: c.fromA <= from && to <= c.toA
  }

  lemma {:induction false} SectionsInChanges(e: Edits, posA: nat, posB: nat, c: Change)
    requires c in Changes(e, posA, posB)
    ensures c.fromA <= c.toA && InSome(Changes(Joined(e), posA, posB), c.fromA, c.toA)
  {
    if e.Keep? {
      SectionsInChanges(e.rest, posA + e.len, posB + e.len, c);
    } else {
      var later := Changes(e.rest, posA + e.del, posB + |e.ins|);
      if c in later {
        SectionsInChanges(e.rest, posA + e.del, posB + |e.ins|, c);
      }
      InFirstOrLater(e, posA, posB, c);
    }
  }

  lemma InFirstOrLater(e: Edits, posA: nat, posB: nat, c: Change)
    requires e.Replace?
    requires (c.fromA == posA && c.toA == posA + e.del) ||
             (c.fromA <= c.toA && InSome(Changes(Joined(e.rest), posA + e.del, posB + |e.ins|), c.fromA, c.toA))
    ensures InSome(Changes(Joined(e), posA, posB), c.fromA, c.toA)
  {
    var r := Joined(e.rest);
    var first := Changes(Joined(e), posA, posB)[0];
    assert first in Changes(Joined(e), posA, posB);
    if !(c.fromA == posA && c.toA == posA + e.del) {
      var d :| d in Changes(r, posA + e.del, posB + |e.ins|) && d.fromA <= c.fromA && c.toA <= d.toA;
      assert d in Changes(Joined(e), posA, posB) || (r.Replace? && d == Changes(r, posA + e.del, posB + |e.ins|)[0]);
    }
  }

  lemma {:induction false} TouchedByChange(e: Edits, posA: nat, posB: nat, g: nat)
    requires Touches(e, posA, g)
    ensures exists c :: c in Changes(e, posA, posB) && c.fromA <= g <= c.toA
  {
    if e.Keep? {
      TouchedByChange(e.rest, posA + e.len, posB + e.len, g);
    } else {
      var c := Change(posA, posA + e.del, posB, posB + |e.ins|, e.ins);
      var later := Changes(e.rest, posA + e.del, posB + |e.ins|);
      assert Changes(e, posA, posB) == [c] + later;
      if Touches(e.rest, posA + e.del, g) {
        TouchedByChange(e.rest, posA + e.del, posB + |e.ins|, g);
      }
      hide Changes, Touches;
      InFront(c, later, g);
    }
  }

  lemma InFront(c: Change, later: seq<Change>, g: nat)
    requires c.fromA <= g <= c.toA || exists d :: d in later && d.fromA <= g <= d.toA
    ensures exists d :: d in [c] + later && d.fromA <= g <= d.toA
  {
    if c.fromA <= g <= c.toA {
      assert c in [c] + later;
    } else {
      var d :| d in later && d.fromA <= g <= d.toA;
      assert d in [c] + later;
    }
  }

  lemma {:induction false} JoinedTouches(e: Edits, pos: nat, g: nat)
    requires Touches(e, pos, g)
    ensures Touches(Joined(e), pos, g)
  {
    if e.Keep? {
      JoinedTouches(e.rest, pos + e.len, g);
    } else if Touches(e.rest, pos + e.del, g) {
      JoinedTouches(e.rest, pos + e.del, g);
    }
  }

  /** Change sets whose changes are strictly apart touch no common position. */
  lemma NoneSharedByChanges(a: Edits, b: Edits)
    requires forall c, d :: c in IterChanges(a) && d in IterChanges(b) ==> c.toA < d.fromA || d.toA < c.fromA
    ensures NoneShared(a, b, 0)
  {
    forall g: nat | Touches(a, 0, g) ensures !Touches(b, 0, g) {
      if Touches(b, 0, g) {
        JoinedTouches(a, 0, g);
        JoinedTouches(b, 0, g);
        TouchedByChange(Joined(a), 0, 0, g);
        TouchedByChange(Joined(b), 0, 0, g);
      }
    }
  }

  /** What the head of a change set writes, in characters. */
  function Width(e: Edits): nat
    requires !e.Done?
  {
    if e.Keep? then e.len else |e.ins|
  }

  /** The sections of the rest are sections of the whole, and so is the head if it
      replaces text. */
  lemma ChangesOfParts(e: Edits, posA: nat, posB: nat)
    requires !e.Done?
    ensures forall c <- Changes(e.rest, posA + Covers(e), posB + Width(e)) :: c in Changes(e, posA, posB)
    ensures e.Replace? ==> Change(posA, posA + e.del, posB, posB + |e.ins|, e.ins) in Changes(e, posA, posB)
  {
  }

  // ----- the text after a position -----

  /** Old position `x` is not strictly inside deleted text. */
  predicate Cuts(e: Edits, x: nat) {
    match e
    case Done => true
    case Keep(n, rest) => x < n || Cuts(rest, x - n)
    case Replace(d, _, rest) => if d <= x then Cuts(rest, x - d) else x == 0
  }

  /** What is left of `e` past old position `x` and any insertion there. */
  function After(e: Edits, x: nat): (r: Edits)
    requires Cuts(e, x) && x <= LenBefore(e)
    ensures LenBefore(r) == LenBefore(e) - x
  {
    match e
    case Done => Done
    case Keep(n, rest) => if x < n then Keep(n - x, rest) else After(rest, x - n)
    case Replace(d, _, rest) => if d <= x then After(rest, x - d) else e
  }

  /** Characters the head of `e` covers, and the text it writes for them. */
  function Covers(e: Edits): nat
    requires !e.Done?
  {
    if e.Keep? then e.len else e.del
  }

  function Writes(e: Edits, doc: string): string
    requires !e.Done? && Covers(e) <= |doc|
  {
    if e.Keep? then doc[..e.len] else e.ins
  }

  lemma {:induction false} TextAfter(e: Edits, doc: string, x: nat)
    requires LenBefore(e) == |doc| && x <= |doc| && Cuts(e, x)
    ensures Apply(e, doc)[MapPos(e, x, true)..] == Apply(After(e, x), doc[x..])
  {
    hide Apply, MapPos, After;
    if !e.Done? && Covers(e) <= x {
      var n := Covers(e);
      TextAfter(e.rest, doc[n..], x - n);
      TextAfterHead(e, doc, x);
    } else {
      TextAfterHere(e, doc, x);
    }
  }

  lemma {:induction false} TextAfterHere(e: Edits, doc: string, x: nat)
    requires LenBefore(e) == |doc| && x <= |doc| && Cuts(e, x) && (e.Done? || Covers(e) > x)
    ensures Apply(e, doc)[MapPos(e, x, true)..] == Apply(After(e, x), doc[x..])
  {
    if e.Keep? {
      ApplyAdvance(e, x, doc);
    } else {
      assert doc[0..] == doc;
    }
  }

  lemma {:induction false} TextAfterHead(e: Edits, doc: string, x: nat)
    requires LenBefore(e) == |doc| && x <= |doc| && Cuts(e, x)
    requires !e.Done? && Covers(e) <= x
    requires Apply(e.rest, doc[Covers(e)..])[MapPos(e.rest, x - Covers(e), true)..] ==
             Apply(After(e.rest, x - Covers(e)), doc[Covers(e)..][x - Covers(e)..])
    ensures Apply(e, doc)[MapPos(e, x, true)..] == Apply(After(e, x), doc[x..])
  {
    var n := Covers(e);
    HeadWrites(e, doc, x);
    AfterHead(e, x);
    hide Apply, MapPos, After, Cuts, Writes, LenBefore;
    Slices(doc, n, x - n);
    DropPast(Writes(e, doc), Apply(e.rest, doc[n..]), MapPos(e.rest, x - n, true));
  }

  lemma {:induction false} AfterHead(e: Edits, x: nat)
    requires Cuts(e, x) && x <= LenBefore(e) && !e.Done? && Covers(e) <= x
    ensures Cuts(e.rest, x - Covers(e)) && x - Covers(e) <= LenBefore(e.rest)
    ensures After(e, x) == After(e.rest, x - Covers(e))
  {
  }

  lemma {:induction false} DropPast(s: string, t: string, n: nat)
    requires n <= |t|
    ensures (s + t)[|s| + n..] == t[n..]
  {
  }

  /** Kept text between `x` and `y` follows `x`, and ends where `y` goes. */
  lemma {:induction false} KeptEnd(e: Edits, x: nat, y: nat)
    requires Normal(e) && x < y <= LenBefore(e) && Cuts(e, x)
    requires After(e, x).Keep? && y - x <= After(e, x).len
    ensures MapPos(e, y, false) == MapPos(e, x, true) + (y - x)
  {
    if Covers(e) <= x {
      KeptEnd(e.rest, x - Covers(e), y - Covers(e));
      hide After, Cuts, LenBefore;
    } else {
      KeptEndHere(e, x, y);
    }
  }

  lemma {:induction false} KeptEndHere(e: Edits, x: nat, y: nat)
    requires Normal(e) && e.Keep? && x < y <= e.len
    ensures MapPos(e, y, false) == MapPos(e, x, true) + (y - x)
  {
  }

  // ----- the text before a position -----

  function LastOr(s: string, c: char): char {
    if s == "" then c else s[|s| - 1]
  }

  function CharBefore(s: string, p: nat, c: char): char
    requires p <= |s|
  {
    if p == 0 then c else s[p - 1]
  }

  /** The character written just before the place of old position `x`; `c` when
      nothing is. */
  function Preceding(e: Edits, doc: string, x: nat, c: char): char
    requires LenBefore(e) == |doc| && x <= |doc|
  {
    if e.Done? then c
    else if Covers(e) <= x then Preceding(e.rest, doc[Covers(e)..], x - Covers(e), LastOr(Writes(e, doc), c))
    else CharBefore(doc, x, c)
  }

  lemma {:induction false} PrecedingIsWritten(e: Edits, doc: string, x: nat, c: char)
    requires LenBefore(e) == |doc| && x <= |doc| && Cuts(e, x)
    ensures Preceding(e, doc, x, c) == CharBefore(Apply(e, doc), MapPos(e, x, true), c)
  {
    hide Apply, MapPos, Writes;
    if !e.Done? && Covers(e) <= x {
      PrecedingIsWritten(e.rest, doc[Covers(e)..], x - Covers(e), LastOr(Writes(e, doc), c));
      PrecedingPastHead(e, doc, x, c);
    } else {
      PrecedingHere(e, doc, x, c);
    }
  }

  lemma {:induction false} PrecedingHere(e: Edits, doc: string, x: nat, c: char)
    requires LenBefore(e) == |doc| && x <= |doc| && Cuts(e, x) && (e.Done? || Covers(e) > x)
    ensures Preceding(e, doc, x, c) == CharBefore(Apply(e, doc), MapPos(e, x, true), c)
  {
    if e.Keep? {
      ApplyAdvance(e, x, doc);
      assert x > 0 ==> Apply(e, doc)[..x][x - 1] == doc[..x][x - 1];
    }
  }

  lemma {:induction false} PrecedingPastHead(e: Edits, doc: string, x: nat, c: char)
    requires LenBefore(e) == |doc| && x <= |doc| && Cuts(e, x) && !e.Done? && Covers(e) <= x
    ensures CharBefore(Apply(e, doc), MapPos(e, x, true), c) ==
            CharBefore(Apply(e.rest, doc[Covers(e)..]), MapPos(e.rest, x - Covers(e), true), LastOr(Writes(e, doc), c))
  {
    HeadWrites(e, doc, x);
    hide Apply, MapPos, Writes, Cuts, LenBefore;
    CharBeforePast(Writes(e, doc), Apply(e.rest, doc[Covers(e)..]), MapPos(e.rest, x - Covers(e), true), c);
  }

  /** The head of a change set writes first, and moves what is behind it by what
      it writes. */
  lemma {:induction false} HeadWrites(e: Edits, doc: string, x: nat)
    requires LenBefore(e) == |doc| && x <= |doc| && !e.Done? && Covers(e) <= x
    ensures LenBefore(e.rest) == |doc| - Covers(e)
    ensures Apply(e, doc) == Writes(e, doc) + Apply(e.rest, doc[Covers(e)..])
    ensures MapPos(e, x, true) == |Writes(e, doc)| + MapPos(e.rest, x - Covers(e), true)
  {
  }

  lemma {:induction false} CharBeforePast(s: string, t: string, p: nat, c: char)
    requires p <= |t|
    ensures CharBefore(s + t, |s| + p, c) == CharBefore(t, p, LastOr(s, c))
  {
  }

  lemma {:induction false} CharBeforeDropped(doc: string, n: nat, p: nat, c: char)
    requires n + p <= |doc|
    ensures CharBefore(doc, n + p, c) == CharBefore(doc[n..], p, CharBefore(doc, n, c))
  {
  }

  /** Before the place of a position where change `ch` ends: the end of the text
      `ch` inserts, or what was in front of a pure deletion. */
  lemma {:induction false} PrecedingChange(e: Edits, doc: string, x: nat, c: char, posA: nat, posB: nat, ch: Change)
    requires Alternates(e) && LenBefore(e) == |doc| && x <= |doc|
    requires ch in Changes(e, posA, posB) && ch.toA == posA + x
    ensures posA <= ch.fromA <= ch.toA
    ensures Preceding(e, doc, x, c) == LastOr(ch.ins, CharBefore(doc, ch.fromA - posA, c))
  {
    hide Alternates, Changes, Preceding, Writes, LenBefore;
    HeadOrLater(e, posA, posB, doc, ch);
    var n, w := Covers(e), Writes(e, doc);
    PrecedingStep(e, doc, x, c);
    if ch in Changes(e.rest, posA + n, posB + |w|) {
      PrecedingChange(e.rest, doc[n..], x - n, LastOr(w, c), posA + n, posB + |w|, ch);
      CharBeforeHead(e, doc, ch.fromA - posA, c);
    } else {
      NothingPrecedes(e.rest, doc[n..], LastOr(w, c));
      WritesOfReplace(e, doc);
    }
  }

  lemma {:induction false} PrecedingStep(e: Edits, doc: string, x: nat, c: char)
    requires LenBefore(e) == |doc| && x <= |doc| && !e.Done?
    ensures Covers(e) <= |doc| && LenBefore(e.rest) == |doc| - Covers(e)
    ensures Covers(e) <= x ==>
              Preceding(e, doc, x, c) == Preceding(e.rest, doc[Covers(e)..], x - Covers(e), LastOr(Writes(e, doc), c))
  {
  }

  lemma WritesOfReplace(e: Edits, doc: string)
    requires e.Replace? && e.del <= |doc|
    ensures Writes(e, doc) == e.ins
  {
  }

  /** Past the head, what precedes is in the rest, or ends what the head keeps. */
  lemma {:induction false} CharBeforeHead(e: Edits, doc: string, p: nat, c: char)
    requires !e.Done? && Covers(e) <= p <= |doc| && (e.Replace? ==> Covers(e) < p)
    ensures CharBefore(doc, p, c) == CharBefore(doc[Covers(e)..], p - Covers(e), LastOr(Writes(e, doc), c))
  {
    CharBeforeDropped(doc, Covers(e), p - Covers(e), c);
  }

  /** A change is made by the head of a change set, or lies behind it. */
  lemma {:induction false} HeadOrLater(e: Edits, posA: nat, posB: nat, doc: string, ch: Change)
    requires Alternates(e) && LenBefore(e) == |doc| && ch in Changes(e, posA, posB)
    ensures !e.Done? && Covers(e) <= |doc| && Alternates(e.rest)
    ensures if ch in Changes(e.rest, posA + Covers(e), posB + |Writes(e, doc)|)
            then posA + Covers(e) <= ch.fromA <= ch.toA && (e.Replace? ==> posA + Covers(e) < ch.fromA)
            else e.Replace? && !e.rest.Replace? && ch.fromA == posA && ch.toA == posA + e.del && ch.ins == e.ins
  {
    AlternatingInOrder(e.rest, posA + Covers(e), posB + |Writes(e, doc)|);
  }

  lemma {:induction false} NothingPrecedes(e: Edits, doc: string, c: char)
    requires Alternates(e) && LenBefore(e) == |doc| && !e.Replace?
    ensures Preceding(e, doc, 0, c) == c
  {
  }

  /** Before the place of a position no change reaches: what was there. */
  lemma {:induction false} PrecedingKept(e: Edits, doc: string, x: nat, c: char, posA: nat, posB: nat)
    requires Normal(e) && LenBefore(e) == |doc| && x <= |doc|
    requires forall ch <- Changes(e, posA, posB) :: ch.toA < posA + x || posA + x < ch.fromA
    ensures Cuts(e, x) && Preceding(e, doc, x, c) == CharBefore(doc, x, c)
  {
    hide Changes, Writes, LastOr;
    if !e.Done? {
      ChangesOfParts(e, posA, posB);
      if Covers(e) <= x {
        var n := Covers(e);
        var w := Writes(e, doc);
        PrecedingKept(e.rest, doc[n..], x - n, LastOr(w, c), posA + n, posB + Width(e));
        KeptBehindHead(e, doc, x, c);
      }
    }
  }

  lemma {:induction false} KeptBehindHead(e: Edits, doc: string, x: nat, c: char)
    requires !e.Done? && Covers(e) <= x <= |doc| && (e.Replace? ==> Covers(e) < x)
    ensures CharBefore(doc[Covers(e)..], x - Covers(e), LastOr(Writes(e, doc), c)) == CharBefore(doc, x, c)
  {
    CharBeforeDropped(doc, Covers(e), x - Covers(e), c);
  }

  // ----- stretches of replaced text read whole -----

  lemma {:induction false} ApplyJoined(e: Edits, doc: string)
    requires LenBefore(e) == |doc|
    ensures Apply(Joined(e), doc) == Apply(e, doc)
  {
    match e
    case Done =>
    case Keep(n, rest) => ApplyJoined(rest, doc[n..]);
    case Replace(d, s, rest) =>
      ApplyJoined(rest, doc[d..]);
      var r := Joined(rest);
      if r.Replace? {
        DropTwice(doc, d, r.del);
        Assoc(s, r.ins, Apply(r.rest, doc[d..][r.del..]));
      }
  }

  /** Position `x` is not in replaced text, nor where a deletion begins. */
  predicate Clear(e: Edits, x: nat) {
    match e
    case Done => true
    case Keep(n, rest) => x < n || Clear(rest, x - n)
    case Replace(d, _, rest) => d <= x && Clear(rest, x - d)
  }

  lemma {:induction false} ClearOfChanges(e: Edits, x: nat, posA: nat, posB: nat)
    requires forall c <- Changes(e, posA, posB) :: c.toA <= posA + x || posA + x < c.fromA
    ensures Clear(e, x)
  {
    if e.Keep? {
      if e.len <= x { ClearOfChanges(e.rest, x - e.len, posA + e.len, posB + e.len); }
    } else if e.Replace? {
      assert Change(posA, posA + e.del, posB, posB + |e.ins|, e.ins) in Changes(e, posA, posB);
      ClearOfChanges(e.rest, x - e.del, posA + e.del, posB + |e.ins|);
    }
  }

  lemma LastOfBoth(s: string, t: string, c: char)
    ensures LastOr(s + t, c) == LastOr(t, LastOr(s, c))
  {
  }

  /** Two sections that replace text, and both as one. */
  lemma PrecedingTwo(d: nat, s: string, r: Edits, doc: string, x: nat, c: char)
    requires d + LenBefore(r) == |doc| && d <= x <= |doc| && (r.Replace? ==> d + r.del <= x)
    ensures Preceding(JoinTwo(d, s, r), doc, x, c) ==
            Preceding(r, doc[d..], x - d, LastOr(s, c))
  {
    if r.Replace? {
      LastOfBoth(s, r.ins, c);
      DropTwice(doc, d, r.del);
    }
  }

  lemma JoinedHead(e: Edits, x: nat)
    requires !e.Done? && Clear(Joined(e), x)
    ensures Joined(e) == if e.Keep? then Keep(e.len, Joined(e.rest)) else JoinTwo(e.del, e.ins, Joined(e.rest))
    ensures e.Keep? ==> x < e.len || Clear(Joined(e.rest), x - e.len)
    ensures e.Replace? ==> e.del <= x && Clear(Joined(e.rest), x - e.del)
    ensures e.Replace? && Joined(e.rest).Replace? ==> e.del + Joined(e.rest).del <= x
  {
  }

  lemma PrecedingInKept(e: Edits, e': Edits, doc: string, x: nat, c: char)
    requires LenBefore(e) == LenBefore(e') == |doc| && x <= |doc| && e.Keep? && e'.Keep? && e.len == e'.len
    requires e.len <= x ==>
               Preceding(e.rest, doc[e.len..], x - e.len, LastOr(Writes(e, doc), c)) ==
               Preceding(e'.rest, doc[e.len..], x - e.len, LastOr(Writes(e, doc), c))
    ensures Preceding(e, doc, x, c) == Preceding(e', doc, x, c)
  {
  }

  /** What precedes such a position is the same. */
  lemma {:induction false} PrecedingJoined(e: Edits, doc: string, x: nat, c: char)
    requires LenBefore(e) == |doc| && x <= |doc| && Clear(Joined(e), x)
    ensures Preceding(e, doc, x, c) == Preceding(Joined(e), doc, x, c)
  {
    hide Joined, Clear, Preceding, Writes;
    if e.Done? {
      JoinedDone();
    } else {
      JoinedHead(e, x);
      PrecedingStep(e, doc, x, c);
      if e.Replace? {
        WritesOfReplace(e, doc);
        PrecedingJoined(e.rest, doc[e.del..], x - e.del, LastOr(e.ins, c));
        PrecedingTwo(e.del, e.ins, Joined(e.rest), doc, x, c);
      } else {
        if e.len <= x { PrecedingJoined(e.rest, doc[e.len..], x - e.len, LastOr(Writes(e, doc), c)); }
        PrecedingInKept(e, Joined(e), doc, x, c);
      }
    }
  }

  lemma JoinedDone()
    ensures Joined(Done) == Done
  {
  }

  /** `y` is where position `x` may go, by change `c`: from inside what it deletes
      to the start or the end of what it inserts, from either end to that side;
      an insertion made at the position itself is on the side asked for. */
  predicate OnItsSide(c: Change, x: nat, after: bool, y: nat) {
    if c.fromA < x < c.toA then y == if after then c.toB else c.fromB
    else if x < c.fromA || (x == c.fromA && (c.fromA < c.toA || !after)) then y <= c.fromB
    else y >= c.toB
  }

  /** Every position goes where every section that replaces text lets it. */
  lemma {:induction false} MapPosSides(e: Edits, posA: nat, posB: nat, x: nat, after: bool, c: Change)
    requires posA <= x <= posA + LenBefore(e) && c in Changes(e, posA, posB)
    ensures OnItsSide(c, x, after, posB + MapPos(e, x - posA, after))
  {
    hide OnItsSide, MapPos;
    match e
    case Keep(n, rest) =>
      LaterChanges(rest, posA + n, posB + n, c);
      if n <= x - posA {
        MapPosSides(rest, posA + n, posB + n, x, after, c);
      }
      KeptSide(e, posA, posB, x, after, c);
    case Replace(d, s, rest) =>
      if c in Changes(rest, posA + d, posB + |s|) {
        LaterChanges(rest, posA + d, posB + |s|, c);
        if x >= posA + d {
          MapPosSides(rest, posA + d, posB + |s|, x, after, c);
          LaterSide(e, posA, posB, x, after, c);
        } else {
          InFrontSide(e, posA, posB, x, after, c);
        }
      } else {
        HeadSide(e, posA, posB, x, after);
      }
  }

  lemma KeptSide(e: Edits, posA: nat, posB: nat, x: nat, after: bool, c: Change)
    requires e.Keep? && posA <= x <= posA + LenBefore(e)
    requires posA + e.len <= c.fromA <= c.toA && posB + e.len <= c.fromB <= c.toB
    requires x >= posA + e.len ==> OnItsSide(c, x, after, posB + e.len + MapPos(e.rest, x - posA - e.len, after))
    ensures OnItsSide(c, x, after, posB + MapPos(e, x - posA, after))
  {
  }

  lemma InFrontSide(e: Edits, posA: nat, posB: nat, x: nat, after: bool, c: Change)
    requires e.Replace? && posA <= x < posA + e.del <= c.fromA <= c.toA && posB + |e.ins| <= c.fromB <= c.toB
    ensures OnItsSide(c, x, after, posB + MapPos(e, x - posA, after))
  {
  }

  lemma HeadSide(e: Edits, posA: nat, posB: nat, x: nat, after: bool)
    requires e.Replace? && posA <= x <= posA + LenBefore(e)
    ensures OnItsSide(Change(posA, posA + e.del, posB, posB + |e.ins|, e.ins), x, after,
                      posB + MapPos(e, x - posA, after))
  {
  }

  /** A section further on. */
  lemma LaterSide(e: Edits, posA: nat, posB: nat, x: nat, after: bool, c: Change)
    requires e.Replace? && posA + e.del <= x <= posA + LenBefore(e)
    requires posA + e.del <= c.fromA <= c.toA && posB + |e.ins| <= c.fromB <= c.toB
    requires OnItsSide(c, x, after, posB + |e.ins| + MapPos(e.rest, x - posA - e.del, after))
    ensures OnItsSide(c, x, after, posB + MapPos(e, x - posA, after))
  {
  }

  lemma {:induction false} LaterChanges(e: Edits, posA: nat, posB: nat, c: Change)
    requires c in Changes(e, posA, posB)
    ensures posA <= c.fromA <= c.toA && posB <= c.fromB <= c.toB
  {
    match e
    case Keep(n, rest) => LaterChanges(rest, posA + n, posB + n, c);
    case Replace(d, s, rest) =>
      if c != Change(posA, posA + d, posB, posB + |s|, s) {
        LaterChanges(rest, posA + d, posB + |s|, c);
      }
  }
}
