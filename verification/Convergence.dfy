/** Mapping one change set over another in every case, overlapping ones too:
    either side may go first. */
module Convergence {
  import opened Sequences
  import opened ChangeSets
  import opened ChangeSetLaws

  // ----- the text both change sets make together -----

  function Head(e: Edits): nat {
    match e
    case Done => 0
    case Keep(n, _) => n
    case Replace(d, _, _) => d
  }

  /** `e` past `m` characters of its head. */
  function Drop(e: Edits, m: nat): (r: Edits)
    requires m <= Head(e)
    ensures LenBefore(r) + m == LenBefore(e)
    ensures m > 0 ==> Size(r) < Size(e)
  {
    match e
    case Done => Done
    case Keep(_, _) => Advance(e, m)
    case Replace(d, s, rest) => Replace(d - m, s, rest)
  }

  /** Of two insertions at one place, whether that of `a` comes first: the one
      that deletes less, and between equals the one `first` names. */
  predicate Leads(a: Edits, b: Edits, placed: bool, first: bool) {
    b.Replace? && !placed ==> Head(a) < Head(b) || (Head(a) == Head(b) && first)
  }

  /** Reads both change sets in step over the document they share: text either
      inserts is written, text both keep is copied, all other text dropped.
      `pa` and `pb`: what the head inserts has been written. A head that is
      written and has nothing left to delete is left first. */
  function Merged(a: Edits, pa: bool, b: Edits, pb: bool, first: bool, doc: string): string
    requires LenBefore(a) == LenBefore(b) == |doc|
    decreases Size(a) + Size(b), (if pa then 0 else 1) + (if pb then 0 else 1)
  {
    if a.Replace? && pa && a.del == 0 then Merged(a.rest, false, b, pb, first, doc)
    else if b.Replace? && pb && b.del == 0 then Merged(a, pa, b.rest, false, first, doc)
    else if a.Replace? && !pa && Leads(a, b, pb, first) then a.ins + Merged(a, true, b, pb, first, doc)
    else if b.Replace? && !pb then b.ins + Merged(a, pa, b, true, first, doc)
    else
      var m := Min(Head(a), Head(b));
      if m == 0 then ""
      else
        (if a.Keep? && b.Keep? then doc[..m] else "") +
        Merged(Drop(a, m), a.Replace? && pa, Drop(b, m), b.Replace? && pb, first, doc[m..])
  }

  /** A change set whose head may have been read in part. */
  predicate Readable(e: Edits) {
    match e
    case Done => true
    case Keep(n, rest) => n > 0 && !rest.Keep? && Normal(rest)
    case Replace(_, _, rest) => Normal(rest)
  }

  /** A head that is written and has nothing left to delete. */
  predicate Spent(e: Edits, placed: bool) {
    e.Replace? && placed && e.del == 0
  }

  lemma NormalIsReadable(e: Edits)
    requires Normal(e)
    ensures Readable(e)
  {
  }

  // ----- steps of the reading -----

  lemma {:induction false} WriteOurs(a: Edits, b: Edits, pb: bool, first: bool, doc: string)
    requires LenBefore(a) == LenBefore(b) == |doc| && a.Replace? && Leads(a, b, pb, first) && !Spent(b, pb)
    ensures Merged(a, false, b, pb, first, doc) == a.ins + Merged(a, true, b, pb, first, doc)
  {
  }

  lemma {:induction false} WriteTheirs(a: Edits, pa: bool, b: Edits, first: bool, doc: string)
    requires LenBefore(a) == LenBefore(b) == |doc| && b.Replace? && !Spent(a, pa)
    requires a.Replace? && !pa ==> !Leads(a, b, false, first)
    ensures Merged(a, pa, b, false, first, doc) == b.ins + Merged(a, pa, b, true, first, doc)
  {
  }

  lemma {:induction false} LeaveOurs(a: Edits, b: Edits, pb: bool, first: bool, doc: string)
    requires LenBefore(a) == LenBefore(b) == |doc| && Spent(a, true)
    ensures Merged(a, true, b, pb, first, doc) == Merged(a.rest, false, b, pb, first, doc)
  {
  }

  lemma {:induction false} LeaveTheirs(a: Edits, pa: bool, b: Edits, first: bool, doc: string)
    requires LenBefore(a) == LenBefore(b) == |doc| && Spent(b, true)
    ensures Merged(a, pa, b, true, first, doc) == Merged(a, pa, b.rest, false, first, doc)
  {
    if Spent(a, pa) {
      LeaveOurs(a, b, true, first, doc);
      LeaveOurs(a, b.rest, false, first, doc);
      LeaveTheirsNext(a.rest, b, first, doc);
    }
  }

  lemma {:induction false} LeaveTheirsNext(a: Edits, b: Edits, first: bool, doc: string)
    requires LenBefore(a) == LenBefore(b) == |doc| && Spent(b, true)
    ensures Merged(a, false, b, true, first, doc) == Merged(a, false, b.rest, false, first, doc)
  {
  }

  /** Both heads read past `m` characters. */
  lemma {:induction false} ReadOn(a: Edits, pa: bool, b: Edits, pb: bool, first: bool, doc: string, m: nat)
    requires LenBefore(a) == LenBefore(b) == |doc| && m == Min(Head(a), Head(b)) > 0
    requires (a.Replace? ==> pa) && (b.Replace? ==> pb)
    ensures Merged(a, pa, b, pb, first, doc) ==
            (if a.Keep? && b.Keep? then doc[..m] else "") +
            Merged(Drop(a, m), a.Replace? && pa, Drop(b, m), b.Replace? && pb, first, doc[m..])
  {
  }

  // ----- the two sides swapped -----

  /** The reading does not depend on which side is called the first. */
  lemma {:induction false} MergedIsSymmetric(a: Edits, pa: bool, b: Edits, pb: bool, first: bool, doc: string)
    requires LenBefore(a) == LenBefore(b) == |doc| && Readable(a) && Readable(b)
    ensures Merged(a, pa, b, pb, first, doc) == Merged(b, pb, a, pa, !first, doc)
    decreases Size(a) + Size(b), (if pa then 0 else 1) + (if pb then 0 else 1)
  {
    hide Merged;
    if Spent(a, pa) {
      LeaveOurs(a, b, pb, first, doc);
      MergedIsSymmetric(a.rest, false, b, pb, first, doc);
      LeaveTheirs(b, pb, a, !first, doc);
    } else if Spent(b, pb) {
      LeaveTheirs(a, pa, b, first, doc);
      MergedIsSymmetric(a, pa, b.rest, false, first, doc);
      LeaveOurs(b, a, pa, !first, doc);
    } else if a.Replace? && !pa && Leads(a, b, pb, first) {
      WriteOurs(a, b, pb, first, doc);
      MergedIsSymmetric(a, true, b, pb, first, doc);
      WriteTheirs(b, pb, a, !first, doc);
    } else if b.Replace? && !pb {
      WriteTheirs(a, pa, b, first, doc);
      MergedIsSymmetric(a, pa, b, true, first, doc);
      WriteOurs(b, a, pa, !first, doc);
    } else {
      SymmetricOn(a, pa, b, pb, first, doc);
    }
  }

  lemma {:induction false} SymmetricOn(a: Edits, pa: bool, b: Edits, pb: bool, first: bool, doc: string)
    requires LenBefore(a) == LenBefore(b) == |doc| && Readable(a) && Readable(b)
    requires (a.Replace? ==> pa && a.del > 0) && (b.Replace? ==> pb && b.del > 0)
    ensures Merged(a, pa, b, pb, first, doc) == Merged(b, pb, a, pa, !first, doc)
    decreases Size(a) + Size(b), (if pa then 0 else 1) + (if pb then 0 else 1), 0
  {
    var m := Min(Head(a), Head(b));
    if m > 0 {
      hide Merged;
      DropIsReadable(a, m);
      DropIsReadable(b, m);
      ReadOn(a, pa, b, pb, first, doc, m);
      ReadOn(b, pb, a, pa, !first, doc, m);
      MergedIsSymmetric(Drop(a, m), a.Replace? && pa, Drop(b, m), b.Replace? && pb, first, doc[m..]);
    }
  }

  lemma DropIsReadable(e: Edits, m: nat)
    requires Readable(e) && m <= Head(e)
    ensures Readable(Drop(e, m))
  {
  }

  // ----- mapping writes that text -----

  /** The states the walk of `MapSet` passes through. */
  predicate OnTheWay(a: Edits, whole: bool, placed: bool, b: Edits) {
    && Normal(a) && Normal(b) && LenBefore(a) == LenBefore(b)
    && (placed ==> a.Replace? && a.del > 0)
  }

  /** The head of `a` has been entered, and what it inserts is still to be
      written: nothing else comes first. */
  predicate Owes(a: Edits, whole: bool, placed: bool) {
    a.Replace? && !placed && !whole
  }

  /** What the walk writes from such a state on. */
  function ToWrite(a: Edits, whole: bool, placed: bool, b: Edits, before: bool, doc: string): string
    requires LenBefore(a) == LenBefore(b) == |doc|
  {
    if Owes(a, whole, placed) then a.ins + Merged(a, true, b, false, before, doc)
    else Merged(a, placed, b, false, before, doc)
  }

  /** Applied after `b`, the mapped `a` gives the text of both. */
  lemma {:induction false} MapSetMerges(a: Edits, whole: bool, placed: bool, b: Edits, before: bool, doc: string)
    requires OnTheWay(a, whole, placed, b) && LenBefore(b) == |doc|
    ensures Apply(MapSet(a, whole, placed, b, before), Apply(b, doc)) == ToWrite(a, whole, placed, b, before, doc)
    decreases Size(a) + Size(b), if placed then 0 else 1, 1
  {
    if a.Keep? && b.Keep? {
      MapKeptMerges(a, b, whole, before, doc);
    } else if b.Replace? && (a.Replace? && !placed ==> whole && !Leads(a, b, false, before)) {
      MapTheirsMerges(a, whole, placed, b, before, doc);
    } else if a.Replace? {
      MapOwnMerges(a, whole, placed, b, before, doc);
      if !placed && whole { WriteOurs(a, b, false, before, doc); }
    }
  }

  lemma NothingOwed(a: Edits, whole: bool, placed: bool, b: Edits, before: bool, doc: string)
    requires LenBefore(a) == LenBefore(b) == |doc| && (placed || whole)
    ensures ToWrite(a, whole, placed, b, before, doc) == Merged(a, placed, b, false, before, doc)
  {
    hide Merged;
  }

  lemma {:induction false} MapKeptMerges(a: Edits, b: Edits, whole: bool, before: bool, doc: string)
    requires Normal(a) && Normal(b) && LenBefore(a) == LenBefore(b) == |doc| && a.Keep? && b.Keep?
    ensures Apply(MapSet(a, whole, false, b, before), Apply(b, doc)) == Merged(a, false, b, false, before, doc)
    decreases Size(a) + Size(b), 1, 0
  {
    var m := Min(a.len, b.len);
    var a', b' := Advance(a, m), Advance(b, m);
    MapSetMerges(a', true, false, b', before, doc[m..]);
    ApplyAdvance(b, m, doc);
    ApplyKeepThen(m, MapSet(a', true, false, b', before), Apply(b, doc));
    hide Apply, Merged, Advance, Normal;
    ReadOn(a, false, b, false, before, doc, m);
  }

  lemma {:induction false} MapTheirsMerges(a: Edits, whole: bool, placed: bool, b: Edits, before: bool, doc: string)
    requires OnTheWay(a, whole, placed, b) && LenBefore(b) == |doc| && b.Replace?
    requires a.Replace? && !placed ==> whole && !Leads(a, b, false, before)
    ensures Apply(MapSet(a, whole, placed, b, before), Apply(b, doc)) == Merged(a, placed, b, false, before, doc)
    decreases Size(a) + Size(b), if placed then 0 else 1, 0
  {
    hide Apply, Merged, MapCovered, MapSet;
    var covered := MapCovered(a, whole, placed, b.del, b.rest, before);
    TheirStep(a, whole, placed, b, before);
    MapCoveredMerges(a, whole, placed, b.del, b.ins, b.rest, before, doc);
    WriteTheirs(a, placed, b, before, doc);
    var tail := Apply(b.rest, doc[b.del..]);
    WritesHead(b, doc);
    SplitConcat(b.ins, tail);
    ApplyKeepThen(|b.ins|, covered, b.ins + tail);
  }

  lemma {:induction false} TheirStep(a: Edits, whole: bool, placed: bool, b: Edits, before: bool)
    requires OnTheWay(a, whole, placed, b) && b.Replace?
    requires a.Replace? && !placed ==> whole && !Leads(a, b, false, before)
    ensures MapSet(a, whole, placed, b, before) ==
            KeepThen(|b.ins|, MapCovered(a, whole, placed, b.del, b.rest, before))
  {
    hide MapCovered;
  }

  lemma WritesHead(b: Edits, doc: string)
    requires LenBefore(b) == |doc| && b.Replace?
    ensures Apply(b, doc) == b.ins + Apply(b.rest, doc[b.del..])
  {
  }

  lemma {:induction false} MapCoveredMerges(a: Edits, whole: bool, placed: bool, len: nat, ins: string, b: Edits,
                                            before: bool, doc: string)
    requires Normal(a) && Normal(b) && LenBefore(a) == len + LenBefore(b) == |doc|
    requires (placed ==> a.Replace? && a.del > 0) && !Owes(a, whole, placed)
    ensures Apply(MapCovered(a, whole, placed, len, b, before), Apply(b, doc[len..])) ==
            Merged(a, placed, Replace(len, ins, b), true, before, doc)
    decreases Size(a) + Size(b), 2
  {
    var over := Replace(len, ins, b);
    if len == 0 {
      assert doc[0..] == doc;
      MapSetMerges(a, whole, placed, b, before, doc);
      LeaveTheirs(a, placed, over, before, doc);
    } else if a.Keep? {
      CoveredKept(a, whole, len, ins, b, before, doc);
    } else if a.Replace? && a.del <= len {
      CoveredHead(a, whole, placed, len, ins, b, before, doc);
    } else if a.Replace? {
      CoveredInPart(a, whole, placed, len, ins, b, before, doc);
    }
  }

  lemma {:induction false} CoveredKept(a: Edits, whole: bool, len: nat, ins: string, b: Edits, before: bool,
                                       doc: string)
    requires Normal(a) && Normal(b) && LenBefore(a) == len + LenBefore(b) == |doc|
    requires a.Keep? && len > 0
    ensures Apply(MapCovered(a, whole, false, len, b, before), Apply(b, doc[len..])) ==
            Merged(a, false, Replace(len, ins, b), true, before, doc)
    decreases Size(a) + Size(b), 1
  {
    hide Apply, Merged, MapCovered, MapSet;
    var m := Min(a.len, len);
    DropTwice(doc, m, len - m);
    CoverKept(a, whole, len, b, before, m);
    MapCoveredMerges(Advance(a, m), true, false, len - m, ins, b, before, doc[m..]);
    ReadOn(a, false, Replace(len, ins, b), true, before, doc, m);
    NothingAdded(Merged(Advance(a, m), false, Replace(len - m, ins, b), true, before, doc[m..]));
  }

  lemma {:induction false} CoverKept(a: Edits, whole: bool, len: nat, b: Edits, before: bool, m: nat)
    requires Normal(a) && Normal(b) && LenBefore(a) == len + LenBefore(b) && a.Keep? && len > 0 && m == Min(a.len, len)
    ensures MapCovered(a, whole, false, len, b, before) == MapCovered(Advance(a, m), true, false, len - m, b, before)
  {
    hide MapSet;
  }

  /** `a`'s head lies within the text the other side deletes. */
  lemma {:induction false} CoveredHead(a: Edits, whole: bool, placed: bool, len: nat, ins: string, b: Edits,
                                       before: bool, doc: string)
    requires Normal(a) && Normal(b) && LenBefore(a) == len + LenBefore(b) == |doc|
    requires a.Replace? && a.del <= len && len > 0
    ensures Apply(MapCovered(a, whole, placed, len, b, before), Apply(b, doc[len..])) ==
            Merged(a, placed, Replace(len, ins, b), true, before, doc)
    decreases Size(a) + Size(b), 1
  {
    hide *;
    var d, over, x := a.del, Replace(len, ins, b), if placed then "" else a.ins;
    HeadWithin(a, len, ins, b);
    var rest := MapCovered(a.rest, true, false, len - d, b, before);
    CoverHead(a, whole, placed, len, b, before);
    MapCoveredMerges(a.rest, true, false, len - d, ins, b, before, doc[d..]);
    DropTwice(doc, d, len - d);
    ReadHead(a, over, before, doc);
    if placed {
      NothingAdded(Merged(a, true, over, true, before, doc));
    } else {
      WriteOver(a, over, before, doc);
    }
    WriteOnly(x, rest, Apply(b, doc[len..]));
  }

  lemma {:induction false} HeadWithin(a: Edits, len: nat, ins: string, b: Edits)
    requires Normal(a) && LenBefore(a) == len + LenBefore(b) && a.Replace? && a.del <= len
    ensures Normal(a.rest) && LenBefore(a.rest) == len - a.del + LenBefore(b) && Size(a.rest) < Size(a)
    ensures LenBefore(Replace(len, ins, b)) == len + LenBefore(b) && !Owes(a.rest, true, false)
  {
  }

  /** What the head of `a` inserts comes before text the other side deletes. */
  lemma WriteOver(a: Edits, over: Edits, before: bool, doc: string)
    requires LenBefore(a) == LenBefore(over) == |doc| && a.Replace? && over.Replace? && over.del > 0
    ensures Merged(a, false, over, true, before, doc) == a.ins + Merged(a, true, over, true, before, doc)
  {
    hide Merged;
    WriteOurs(a, over, true, before, doc);
  }

  lemma {:induction false} CoverHead(a: Edits, whole: bool, placed: bool, len: nat, b: Edits, before: bool)
    requires Normal(a) && Normal(b) && LenBefore(a) == len + LenBefore(b) && a.Replace? && a.del <= len && len > 0
    ensures LenBefore(a.rest) == len - a.del + LenBefore(b)
    ensures MapCovered(a, whole, placed, len, b, before) ==
            ReplaceThen(0, if placed then "" else a.ins, MapCovered(a.rest, true, false, len - a.del, b, before))
    ensures LenBefore(MapCovered(a.rest, true, false, len - a.del, b, before)) == LenAfter(b)
  {
    hide MapSet;
  }

  lemma {:induction false} WriteOnly(x: string, rest: Edits, out: string)
    requires LenBefore(rest) == |out|
    ensures Apply(ReplaceThen(0, x, rest), out) == x + Apply(rest, out)
  {
    ApplyReplaceThen(0, x, rest, out);
    assert out[0..] == out;
  }

  /** A written deletion within one of the other side is passed over. */
  lemma {:induction false} ReadHead(a: Edits, over: Edits, before: bool, doc: string)
    requires Normal(a) && a.Replace? && over.Replace? && LenBefore(a) == LenBefore(over) == |doc| && a.del <= over.del
    ensures Merged(a, true, over, true, before, doc) ==
            Merged(a.rest, false, Replace(over.del - a.del, over.ins, over.rest), true, before, doc[a.del..])
  {
    hide Merged;
    var d := a.del;
    if d == 0 {
      assert doc[0..] == doc;
      LeaveOurs(a, over, true, before, doc);
    } else {
      ReadOn(a, true, over, true, before, doc, d);
      LeaveOurs(Replace(0, a.ins, a.rest), Drop(over, d), true, before, doc[d..]);
    }
  }

  /** It reaches past that text. */
  lemma {:induction false} CoveredInPart(a: Edits, whole: bool, placed: bool, len: nat, ins: string, b: Edits,
                                         before: bool, doc: string)
    requires Normal(a) && Normal(b) && LenBefore(a) == len + LenBefore(b) == |doc|
    requires a.Replace? && 0 < len < a.del
    ensures Apply(MapCovered(a, whole, placed, len, b, before), Apply(b, doc[len..])) ==
            Merged(a, placed, Replace(len, ins, b), true, before, doc)
    decreases Size(a) + Size(b), 1
  {
    hide Apply, Merged, MapCovered, MapSet;
    var a', over := Replace(a.del - len, a.ins, a.rest), Replace(len, ins, b);
    CoverPart(a, whole, placed, len, b, before);
    MapSetMerges(a', false, placed, b, before, doc[len..]);
    if !placed { WriteOurs(a, over, true, before, doc); }
    ReadOn(a, true, over, true, before, doc, len);
    LeaveTheirs(a', true, Replace(0, ins, b), before, doc[len..]);
    NothingAdded(Merged(a', true, Replace(0, ins, b), true, before, doc[len..]));
  }

  lemma {:induction false} CoverPart(a: Edits, whole: bool, placed: bool, len: nat, b: Edits, before: bool)
    requires Normal(a) && Normal(b) && LenBefore(a) == len + LenBefore(b) && a.Replace? && 0 < len < a.del
    ensures LenBefore(a) == len + LenBefore(Replace(a.del - len, a.ins, a.rest))
    ensures MapCovered(a, whole, placed, len, b, before) ==
            MapSet(Replace(a.del - len, a.ins, a.rest), false, placed, b, before)
  {
    hide MapSet;
  }

  predicate ReadsAlike(a: Edits, b: Edits, doc: string, a': Edits, b': Edits, doc': string, first: bool)
    requires LenBefore(a) == LenBefore(b) == |doc| && LenBefore(a') == LenBefore(b') == |doc'|
  {
    Merged(a, true, b, false, first, doc) == Merged(a', true, b', false, first, doc')
  }

  predicate WritesAlike(b: Edits, doc: string, kept: nat, b': Edits, doc': string)
    requires LenBefore(b) == |doc| && LenBefore(b') == |doc'| && kept <= LenAfter(b)
  {
    Apply(b, doc)[kept..] == Apply(b', doc')
  }

  /** The head of `a` with `left` characters still to delete. */
  function Own(a: Edits, left: nat): (r: Edits)
    requires a.Replace?
    ensures r.Replace? && LenBefore(r) == left + LenBefore(a.rest)
  {
    Replace(left, a.ins, a.rest)
  }

  /** After the walk `k` through `b`, what is to be written and read is what
      `k.rest` makes of `doc'`. */
  predicate SkippedTo(a: Edits, left: nat, b: Edits, doc: string, k: Skipped, doc': string, before: bool)
    requires a.Replace? && LenBefore(Own(a, left)) == LenBefore(b) == |doc|
    requires LenBefore(Own(a, k.left)) == LenBefore(k.rest) == |doc'| && k.kept <= LenAfter(b)
  {
    && ReadsAlike(Own(a, left), b, doc, Own(a, k.left), k.rest, doc', before)
    && WritesAlike(b, doc, k.kept, k.rest, doc')
  }

  /** The part of `doc` behind the walk. */
  function Behind(left: nat, b: Edits, doc: string): (doc': string)
    requires left <= LenBefore(b) == |doc|
    ensures |doc'| == LenBefore(Skip(left, b).rest)
  {
    doc[left - Skip(left, b).left..]
  }

  /** A written head of `a` goes on through what `b` keeps and deletes as well. */
  lemma {:induction false} SkipMerges(a: Edits, left: nat, b: Edits, before: bool, doc: string)
    requires a.Replace? && Normal(b) && LenBefore(Own(a, left)) == LenBefore(b) == |doc|
    ensures LenBefore(Own(a, Skip(left, b).left)) == LenBefore(Skip(left, b).rest) && Skip(left, b).kept <= LenAfter(b)
    ensures SkippedTo(a, left, b, doc, Skip(left, b), Behind(left, b, doc), before)
    decreases Size(b)
  {
    hide SkippedTo;
    if left > 0 && b.Keep? {
      SkipKeeps(a, left, b, before, doc, Min(left, b.len));
    } else if left > 0 && b.Replace? && b.ins == "" && b.del < left {
      SkipDeletes(a, left, b, before, doc);
    } else {
      assert doc[0..] == doc;
      SkipStays(a, left, b, before, doc);
    }
  }

  lemma SkipStays(a: Edits, left: nat, b: Edits, before: bool, doc: string)
    requires a.Replace? && LenBefore(Own(a, left)) == LenBefore(b) == |doc|
    ensures SkippedTo(a, left, b, doc, Skipped(0, left, b), doc, before)
  {
    hide Apply, Merged;
    assert Apply(b, doc)[0..] == Apply(b, doc);
  }

  /** The walk from `b` to `b'`, then on from there. */
  lemma SkipJoins(a: Edits, left: nat, b: Edits, doc: string, left': nat, b': Edits, doc': string, kept: nat,
                  k: Skipped, doc'': string, before: bool)
    requires a.Replace? && LenBefore(Own(a, left)) == LenBefore(b) == |doc|
    requires LenBefore(Own(a, left')) == LenBefore(b') == |doc'| && kept + LenAfter(b') == LenAfter(b)
    requires LenBefore(Own(a, k.left)) == LenBefore(k.rest) == |doc''| && k.kept <= LenAfter(b')
    requires SkippedTo(a, left, b, doc, Skipped(kept, left', b'), doc', before)
    requires SkippedTo(a, left', b', doc', k, doc'', before)
    ensures SkippedTo(a, left, b, doc, Skipped(kept + k.kept, k.left, k.rest), doc'', before)
  {
    hide ReadsAlike, WritesAlike, Own, LenBefore, LenAfter;
    ReadsJoin(Own(a, left), b, doc, Own(a, left'), b', doc', Own(a, k.left), k.rest, doc'', before);
    WritesJoin(b, doc, kept, b', doc', k.kept, k.rest, doc'');
  }

  lemma ReadsJoin(a: Edits, b: Edits, doc: string, a': Edits, b': Edits, doc': string,
                  a'': Edits, b'': Edits, doc'': string, first: bool)
    requires LenBefore(a) == LenBefore(b) == |doc| && LenBefore(a') == LenBefore(b') == |doc'|
    requires LenBefore(a'') == LenBefore(b'') == |doc''|
    requires ReadsAlike(a, b, doc, a', b', doc', first) && ReadsAlike(a', b', doc', a'', b'', doc'', first)
    ensures ReadsAlike(a, b, doc, a'', b'', doc'', first)
  {
    hide Merged, LenBefore;
  }

  lemma WritesJoin(b: Edits, doc: string, n: nat, b': Edits, doc': string, m: nat, b'': Edits, doc'': string)
    requires LenBefore(b) == |doc| && LenBefore(b') == |doc'| && LenBefore(b'') == |doc''|
    requires n <= LenAfter(b) && m <= LenAfter(b') && n + LenAfter(b') == LenAfter(b)
    requires WritesAlike(b, doc, n, b', doc') && WritesAlike(b', doc', m, b'', doc'')
    ensures WritesAlike(b, doc, n + m, b'', doc'')
  {
    hide Apply, LenBefore, LenAfter;
    DropTwice(Apply(b, doc), n, m);
  }

  lemma {:induction false} SkipKeeps(a: Edits, left: nat, b: Edits, before: bool, doc: string, p: nat)
    requires a.Replace? && Normal(b) && LenBefore(Own(a, left)) == LenBefore(b) == |doc|
    requires left > 0 && b.Keep? && p == Min(left, b.len)
    ensures LenBefore(Own(a, Skip(left, b).left)) == LenBefore(Skip(left, b).rest) && Skip(left, b).kept <= LenAfter(b)
    ensures SkippedTo(a, left, b, doc, Skip(left, b), Behind(left, b, doc), before)
    decreases Size(b), 0
  {
    hide Apply, Merged, Skip, SkippedTo;
    SkipKept(left, b, p);
    KeptStep(a, left, b, before, doc, p);
    if p == b.len {
      SkipMerges(a, left - p, b.rest, before, doc[p..]);
      var k := Skip(left - p, b.rest);
      DropTwice(doc, p, left - p - k.left);
      SkipJoins(a, left, b, doc, left - p, b.rest, doc[p..], p, k, Behind(left - p, b.rest, doc[p..]), before);
    }
  }

  lemma {:induction false} KeptStep(a: Edits, left: nat, b: Edits, before: bool, doc: string, p: nat)
    requires a.Replace? && LenBefore(Own(a, left)) == LenBefore(b) == |doc|
    requires left > 0 && b.Keep? && p == Min(left, b.len) > 0
    ensures LenBefore(Own(a, left - p)) == LenBefore(Advance(b, p)) && p <= LenAfter(b)
    ensures SkippedTo(a, left, b, doc, Skipped(p, left - p, Advance(b, p)), doc[p..], before)
  {
    hide Apply, Merged;
    ApplyAdvance(b, p, doc);
    ReadOn(Own(a, left), true, b, false, before, doc, p);
    NothingAdded(Merged(Own(a, left - p), true, Advance(b, p), false, before, doc[p..]));
  }

  lemma {:induction false} SkipKept(left: nat, b: Edits, p: nat)
    requires 0 < left <= LenBefore(b) && b.Keep? && p == Min(left, b.len)
    ensures p < b.len ==> Skip(left, b) == Skipped(p, 0, Advance(b, p))
    ensures p == b.len ==> left - p <= LenBefore(b.rest) && Advance(b, p) == b.rest &&
                           var k := Skip(left - p, b.rest);
                           k.kept <= LenAfter(b.rest) && Skip(left, b) == Skipped(p + k.kept, k.left, k.rest)
    ensures LenAfter(b) == b.len + LenAfter(b.rest)
  {
    hide *;
    KeptHead(left, b);
    if p < b.len {
      SkipInside(left, b);
    } else {
      SkipWhole(left, b);
    }
  }

  lemma {:induction false} KeptHead(left: nat, b: Edits)
    requires b.Keep?
    ensures Min(left, b.len) == (if left < b.len then left else b.len) && Advance(b, b.len) == b.rest
    ensures LenAfter(b) == b.len + LenAfter(b.rest)
  {
  }

  lemma {:induction false} SkipInside(left: nat, b: Edits)
    requires 0 < left <= LenBefore(b) && b.Keep? && left < b.len
    ensures Skip(left, b) == Skipped(left, 0, Advance(b, left))
  {
    hide LenAfter, Normal, Size;
  }

  lemma {:induction false} SkipWhole(left: nat, b: Edits)
    requires 0 < left <= LenBefore(b) && b.Keep? && b.len <= left
    ensures left - b.len <= LenBefore(b.rest)
    ensures var k := Skip(left - b.len, b.rest); Skip(left, b) == Skipped(b.len + k.kept, k.left, k.rest)
  {
    hide LenAfter, Normal, Size;
  }

  lemma {:induction false} SkipDeletes(a: Edits, left: nat, b: Edits, before: bool, doc: string)
    requires a.Replace? && Normal(b) && LenBefore(Own(a, left)) == LenBefore(b) == |doc|
    requires b.Replace? && b.ins == "" && b.del < left
    ensures LenBefore(Own(a, Skip(left, b).left)) == LenBefore(Skip(left, b).rest) && Skip(left, b).kept <= LenAfter(b)
    ensures SkippedTo(a, left, b, doc, Skip(left, b), Behind(left, b, doc), before)
    decreases Size(b), 0
  {
    hide Apply, Merged, Skip, SkippedTo;
    var d := b.del;
    SkipDeleted(left, b, doc);
    DeletedStep(a, left, b, before, doc);
    SkipMerges(a, left - d, b.rest, before, doc[d..]);
    var k := Skip(left - d, b.rest);
    DropTwice(doc, d, left - d - k.left);
    SkipJoins(a, left, b, doc, left - d, b.rest, doc[d..], 0, k, Behind(left - d, b.rest, doc[d..]), before);
  }

  lemma {:induction false} DeletedStep(a: Edits, left: nat, b: Edits, before: bool, doc: string)
    requires a.Replace? && Normal(b) && LenBefore(Own(a, left)) == LenBefore(b) == |doc|
    requires b.Replace? && b.ins == "" && b.del < left
    ensures LenBefore(Own(a, left - b.del)) == LenBefore(b.rest)
    ensures SkippedTo(a, left, b, doc, Skipped(0, left - b.del, b.rest), doc[b.del..], before)
  {
    hide Apply, Merged;
    var d, over := b.del, Replace(0, "", b.rest);
    SkipDeleted(left, b, doc);
    assert Apply(b, doc)[0..] == Apply(b, doc);
    WriteTheirs(Own(a, left), true, b, before, doc);
    NothingAdded(Merged(Own(a, left), true, b, true, before, doc));
    ReadOn(Own(a, left), true, b, true, before, doc, d);
    NothingAdded(Merged(Own(a, left - d), true, over, true, before, doc[d..]));
    LeaveTheirs(Own(a, left - d), true, over, before, doc[d..]);
  }

  lemma {:induction false} SkipDeleted(left: nat, b: Edits, doc: string)
    requires LenBefore(b) == |doc| && Normal(b) && b.Replace? && b.ins == "" && b.del < left <= |doc|
    ensures Skip(left, b) == Skip(left - b.del, b.rest) && b.del > 0 && Normal(b.rest)
    ensures Apply(b, doc) == Apply(b.rest, doc[b.del..]) && LenAfter(b) == LenAfter(b.rest)
    ensures Skip(left - b.del, b.rest).kept <= LenAfter(b.rest)
  {
    NothingAdded(Apply(b.rest, doc[b.del..]));
  }

  lemma {:induction false} MapOwnMerges(a: Edits, whole: bool, placed: bool, b: Edits, before: bool, doc: string)
    requires OnTheWay(a, whole, placed, b) && LenBefore(b) == |doc| && a.Replace?
    requires b.Replace? ==> !placed && (whole ==> Leads(a, b, false, before))
    ensures Apply(MapSet(a, whole, placed, b, before), Apply(b, doc)) ==
            (if placed then "" else a.ins) + Merged(a, true, b, false, before, doc)
    decreases Size(a) + Size(b), if placed then 0 else 1, 0
  {
    hide *;
    OwnStep(a, whole, placed, b, before);
    var k, x := Skip(a.del, b), if placed then "" else a.ins;
    SkipMerges(a, a.del, b, before, doc);
    var own, doc' := Own(a, k.left), Behind(a.del, b, doc);
    SkippedReads(a, b, k, before, doc, doc');
    if k.left == 0 {
      MapSetMerges(a.rest, true, false, k.rest, before, doc');
      NothingOwed(a.rest, true, false, k.rest, before, doc');
      LeaveOurs(own, k.rest, false, before, doc');
    } else {
      MapSetMerges(own, whole && k.left == a.del, true, k.rest, before, doc');
      NothingOwed(own, whole && k.left == a.del, true, k.rest, before, doc');
    }
    ApplyReplaceThen(k.kept, x, OwnRest(a, whole, b, before), Apply(b, doc));
  }

  lemma SkippedReads(a: Edits, b: Edits, k: Skipped, before: bool, doc: string, doc': string)
    requires a.Replace? && LenBefore(a) == LenBefore(b) == |doc|
    requires LenBefore(Own(a, k.left)) == LenBefore(k.rest) == |doc'| && k.kept <= LenAfter(b)
    requires LenBefore(Own(a, a.del)) == LenBefore(b) && SkippedTo(a, a.del, b, doc, k, doc', before)
    ensures Merged(a, true, b, false, before, doc) == Merged(Own(a, k.left), true, k.rest, false, before, doc')
    ensures Apply(b, doc)[k.kept..] == Apply(k.rest, doc')
  {
    hide Merged, Apply;
    assert Own(a, a.del) == a;
  }

  /** What is left to map once the head of `a` has been walked. */
  function OwnRest(a: Edits, whole: bool, b: Edits, before: bool): Edits
    requires Normal(a) && Normal(b) && LenBefore(a) == LenBefore(b) && a.Replace?
  {
    var k := Skip(a.del, b);
    if k.left == 0 then MapSet(a.rest, true, false, k.rest, before)
    else MapSet(Replace(k.left, a.ins, a.rest), whole && k.left == a.del, true, k.rest, before)
  }

  lemma {:induction false} OwnStep(a: Edits, whole: bool, placed: bool, b: Edits, before: bool)
    requires OnTheWay(a, whole, placed, b) && a.Replace?
    requires b.Replace? ==> !placed && (whole ==> Leads(a, b, false, before))
    ensures Normal(a) && Normal(b) && LenBefore(a) == LenBefore(b) == LenBefore(Own(a, a.del))
    ensures Normal(a.rest) && a.del <= LenBefore(b)
    ensures var k, own := Skip(a.del, b), Own(a, Skip(a.del, b).left);
            && k.left <= a.del && k.kept + LenBefore(OwnRest(a, whole, b, before)) == LenAfter(b)
            && own.Replace? && own.del == k.left && own.rest == a.rest && Readable(own)
            && MapSet(a, whole, placed, b, before) ==
               ReplaceThen(k.kept, if placed then "" else a.ins, OwnRest(a, whole, b, before))
            && (k.left == 0 ==> OnTheWay(a.rest, true, false, k.rest) &&
                                Size(a.rest) + Size(k.rest) < Size(a) + Size(b) &&
                                OwnRest(a, whole, b, before) == MapSet(a.rest, true, false, k.rest, before))
            && (k.left > 0 ==> OnTheWay(own, whole && k.left == a.del, true, k.rest) &&
                               Size(own) + Size(k.rest) <= Size(a) + Size(b) &&
                               (placed ==> Size(own) + Size(k.rest) < Size(a) + Size(b)) &&
                               OwnRest(a, whole, b, before) ==
                               MapSet(own, whole && k.left == a.del, true, k.rest, before))
  {
    hide Skip;
  }

  /** Convergence in every case: both orders give one text. */
  lemma MapConverges(a: Edits, b: Edits, before: bool, doc: string)
    requires Fits(a, |doc|) && Fits(b, |doc|)
    ensures Apply(Map(a, b, before), Apply(b, doc)) == Apply(Map(b, a, !before), Apply(a, doc))
    ensures Apply(Map(a, b, before), Apply(b, doc)) == Merged(a, false, b, false, before, doc)
  {
    hide Apply, Merged, MapSet;
    NormalIsReadable(a);
    NormalIsReadable(b);
    MapSetMerges(a, true, false, b, before, doc);
    MapSetMerges(b, true, false, a, !before, doc);
    MergedIsSymmetric(a, false, b, false, before, doc);
  }

  // ----- sides that are apart -----

  /** Where the sides are apart, the text of both is that of both change sets
      applied at once. */
  lemma {:induction false} MergedIsBoth(a: Edits, b: Edits, first: bool, doc: string)
    requires Fits(a, |doc|) && Fits(b, |doc|) && Apart(a, b)
    ensures Merged(a, false, b, false, first, doc) == Apply(Both(a, b), doc)
    decreases Size(a) + Size(b)
  {
    hide Merged, Apply, Apart, Both, Advance;
    NormalIsReadable(a);
    NormalIsReadable(b);
    if a.Done? || b.Done? {
      MergedWithNothing(a, b, first, doc);
    } else if a.Keep? && b.Keep? {
      var m := Min(a.len, b.len);
      BothKept(a, b);
      ReadOn(a, false, b, false, first, doc, m);
      MergedIsBoth(Advance(a, m), Advance(b, m), first, doc[m..]);
      ApplyHead(Keep(m, Both(Advance(a, m), Advance(b, m))), doc);
    } else if a.Replace? && b.Keep? {
      BothOurs(a, b);
      ReadOurs(a, b, first, doc);
      MergedIsBoth(a.rest, Advance(b, a.del), first, doc[a.del..]);
      ApplyHead(Replace(a.del, a.ins, Both(a.rest, Advance(b, a.del))), doc);
    } else {
      BothTheirs(a, b);
      MergedIsSymmetric(a, false, b, false, first, doc);
      ReadOurs(b, a, !first, doc);
      MergedIsSymmetric(b.rest, false, Advance(a, b.del), false, !first, doc[b.del..]);
      MergedIsBoth(Advance(a, b.del), b.rest, first, doc[b.del..]);
      ApplyHead(Replace(b.del, b.ins, Both(Advance(a, b.del), b.rest)), doc);
    }
  }

  lemma ApplyHead(e: Edits, doc: string)
    requires LenBefore(e) == |doc| && !e.Done?
    ensures Head(e) <= |doc| && LenBefore(e.rest) == |doc| - Head(e)
    ensures Apply(e, doc) == (if e.Keep? then doc[..e.len] else e.ins) + Apply(e.rest, doc[Head(e)..])
  {
  }

  /** `a` replaces text within what `b` keeps. */
  lemma ReadOurs(a: Edits, b: Edits, first: bool, doc: string)
    requires Normal(a) && Normal(b) && LenBefore(a) == LenBefore(b) == |doc| && a.Replace? && b.Keep? && a.del <= b.len
    ensures LenBefore(a.rest) == LenBefore(Advance(b, a.del)) == |doc[a.del..]|
    ensures Readable(a.rest) && Readable(Advance(b, a.del))
    ensures Merged(a, false, b, false, first, doc) ==
            a.ins + Merged(a.rest, false, Advance(b, a.del), false, first, doc[a.del..])
  {
    hide Merged;
    WriteOurs(a, b, false, first, doc);
    if a.del == 0 {
      assert doc[0..] == doc;
      LeaveOurs(a, b, false, first, doc);
    } else {
      ReadOn(a, true, b, false, first, doc, a.del);
      NothingAdded(Merged(Replace(0, a.ins, a.rest), true, Advance(b, a.del), false, first, doc[a.del..]));
      LeaveOurs(Replace(0, a.ins, a.rest), Advance(b, a.del), false, first, doc[a.del..]);
    }
  }

  lemma MergedWithNothing(a: Edits, b: Edits, first: bool, doc: string)
    requires Fits(a, |doc|) && Fits(b, |doc|) && (a.Done? || b.Done?) && Apart(a, b)
    ensures Merged(a, false, b, false, first, doc) == Apply(Both(a, b), doc)
  {
    BothWithNothing(a, b);
    assert doc == "";
    NormalIsReadable(a);
    NormalIsReadable(b);
    if a.Done? && b.Replace? {
      assert b.rest.Done?;
      WriteTheirs(a, false, b, first, doc);
      LeaveTheirs(a, false, b, first, doc);
    } else if a.Replace? {
      assert a.rest.Done?;
      WriteOurs(a, b, false, first, doc);
      LeaveOurs(a, b, false, first, doc);
    }
  }

  /** Sides that touch no common position: mapped in either order, the text is
      both edit sets patched into the document, every replacement of both and no
      other. */
  lemma ApartPatchesBoth(a: Edits, b: Edits, before: bool, doc: string)
    requires Fits(a, |doc|) && Fits(b, |doc|) && NoneShared(a, b, 0)
    ensures Apart(a, b) && Sites(Both(a, b), 0) == Sites(a, 0) + Sites(b, 0)
    ensures Apply(Map(a, b, before), Apply(b, doc)) == Apply(Both(a, b), doc)
    ensures Apply(Map(b, a, !before), Apply(a, doc)) == Apply(Both(a, b), doc)
  {
    hide Apply, Merged, Map, Both, Sites, Apart;
    ApartIfNothingShared(a, b, 0);
    BothMakesAllReplacements(a, b, 0);
    MapConverges(a, b, before, doc);
    MergedIsBoth(a, b, before, doc);
  }

  // ----- no insertion is lost -----

  /** `e` still has the text `t` to insert. */
  predicate WillWrite(e: Edits, placed: bool, t: string) {
    match e
    case Done => false
    case Keep(_, rest) => WillWrite(rest, false, t)
    case Replace(_, s, rest) => (!placed && s == t) || WillWrite(rest, false, t)
  }

  lemma {:induction false} SitesAreWritten(e: Edits, pos: nat, site: Site)
    requires site in Sites(e, pos)
    ensures WillWrite(e, false, site.ins)
  {
    if e.Keep? {
      SitesAreWritten(e.rest, pos + e.len, site);
    } else if site != Site(pos, e.del, e.ins) {
      SitesAreWritten(e.rest, pos + e.del, site);
    }
  }

  lemma WritesNow(s: string, tail: string, t: string)
    ensures s == t || Contains(tail, t) ==> Contains(s + tail, t)
  {
    if s == t {
      SplitConcat(s, tail);
      assert At(s + tail, t, 0);
    } else if Contains(tail, t) {
      ContainsAfter(s, tail, t);
    }
  }

  /** All text the first side inserts stands in the text of both ... */
  lemma {:induction false} MergedHoldsOurs(a: Edits, pa: bool, b: Edits, pb: bool, first: bool, doc: string, t: string)
    requires LenBefore(a) == LenBefore(b) == |doc| && Readable(a) && Readable(b) && WillWrite(a, pa, t)
    ensures Contains(Merged(a, pa, b, pb, first, doc), t)
    decreases Size(a) + Size(b), (if pa then 0 else 1) + (if pb then 0 else 1)
  {
    hide Merged, Contains;
    if Spent(a, pa) {
      LeaveOurs(a, b, pb, first, doc);
      MergedHoldsOurs(a.rest, false, b, pb, first, doc, t);
    } else if Spent(b, pb) {
      LeaveTheirs(a, pa, b, first, doc);
      MergedHoldsOurs(a, pa, b.rest, false, first, doc, t);
    } else if a.Replace? && !pa && Leads(a, b, pb, first) {
      WriteOurs(a, b, pb, first, doc);
      if a.ins != t { MergedHoldsOurs(a, true, b, pb, first, doc, t); }
      WritesNow(a.ins, Merged(a, true, b, pb, first, doc), t);
    } else if b.Replace? && !pb {
      WriteTheirs(a, pa, b, first, doc);
      MergedHoldsOurs(a, pa, b, true, first, doc, t);
      WritesNow(b.ins, Merged(a, pa, b, true, first, doc), t);
    } else {
      HoldsOn(a, pa, b, pb, first, doc, t);
    }
  }

  lemma {:induction false} HoldsOn(a: Edits, pa: bool, b: Edits, pb: bool, first: bool, doc: string, t: string)
    requires LenBefore(a) == LenBefore(b) == |doc| && Readable(a) && Readable(b) && WillWrite(a, pa, t)
    requires (a.Replace? ==> pa && a.del > 0) && (b.Replace? ==> pb && b.del > 0)
    ensures Contains(Merged(a, pa, b, pb, first, doc), t)
    decreases Size(a) + Size(b), (if pa then 0 else 1) + (if pb then 0 else 1), 0
  {
    hide Merged, Contains;
    var m := Min(Head(a), Head(b));
    DropIsReadable(a, m);
    DropIsReadable(b, m);
    ReadOn(a, pa, b, pb, first, doc, m);
    MergedHoldsOurs(Drop(a, m), a.Replace? && pa, Drop(b, m), b.Replace? && pb, first, doc[m..], t);
    WritesNow(if a.Keep? && b.Keep? then doc[..m] else "",
              Merged(Drop(a, m), a.Replace? && pa, Drop(b, m), b.Replace? && pb, first, doc[m..]), t);
  }

  /** ... and so does all text the other side inserts. */
  lemma MapLosesNoInsertion(a: Edits, b: Edits, before: bool, doc: string, site: Site)
    requires Fits(a, |doc|) && Fits(b, |doc|) && site in Sites(a, 0) + Sites(b, 0)
    ensures Contains(Apply(Map(a, b, before), Apply(b, doc)), site.ins)
  {
    hide Apply, Merged, Contains;
    MapConverges(a, b, before, doc);
    NormalIsReadable(a);
    NormalIsReadable(b);
    if site in Sites(a, 0) {
      SitesAreWritten(a, 0, site);
      MergedHoldsOurs(a, false, b, false, before, doc, site.ins);
    } else {
      SitesAreWritten(b, 0, site);
      MergedIsSymmetric(a, false, b, false, before, doc);
      MergedHoldsOurs(b, false, a, false, !before, doc, site.ins);
    }
  }

  // ----- change sets that change nothing -----

  /** A change set that changes nothing is mapped to one that does not ... */
  lemma {:induction false} MapEmpty(a: Edits, whole: bool, placed: bool, b: Edits, before: bool)
    requires Normal(a) && Normal(b) && LenBefore(a) == LenBefore(b) && IsEmpty(a)
    ensures IsEmpty(MapSet(a, whole, placed, b, before))
    decreases Size(a) + Size(b), 1
  {
    if a.Keep? && b.Keep? {
      MapEmpty(Advance(a, Min(a.len, b.len)), true, false, Advance(b, Min(a.len, b.len)), before);
    } else if b.Replace? {
      CoverEmpty(a, whole, placed, b.del, b.rest, before);
    }
  }

  lemma {:induction false} CoverEmpty(a: Edits, whole: bool, placed: bool, len: nat, b: Edits, before: bool)
    requires Normal(a) && Normal(b) && LenBefore(a) == len + LenBefore(b) && IsEmpty(a)
    ensures IsEmpty(MapCovered(a, whole, placed, len, b, before))
    decreases Size(a) + Size(b), 2
  {
    if len == 0 {
      MapEmpty(a, whole, placed, b, before);
    } else if a.Keep? {
      CoverEmpty(Advance(a, Min(a.len, len)), true, false, len - Min(a.len, len), b, before);
    }
  }

  /** Such a change set is one kept stretch, or none. */
  lemma NothingIsKept(b: Edits, n: nat)
    requires Normal(b) && IsEmpty(b) && 0 < n <= LenBefore(b)
    ensures b.Keep? && b.rest.Done? && n <= b.len && Normal(Advance(b, n)) && IsEmpty(Advance(b, n))
  {
  }

  lemma SkipNothing(n: nat, b: Edits)
    requires Normal(b) && IsEmpty(b) && n <= LenBefore(b)
    ensures var k := Skip(n, b); k.kept == n && k.left == 0 && Normal(k.rest) && IsEmpty(k.rest)
  {
    if n > 0 { NothingIsKept(b, n); }
  }

  lemma {:induction false} KeptOverNothing(a: Edits, b: Edits, before: bool)
    requires Normal(a) && Normal(b) && LenBefore(a) == LenBefore(b) && a.Keep? && b.Keep? && a.len <= b.len
    requires MapSet(a.rest, true, false, Advance(b, a.len), before) == a.rest
    ensures MapSet(a, true, false, b, before) == a
  {
    hide Skip, MapOwn, MapCovered;
  }

  lemma {:induction false} OwnOverNothing(a: Edits, b: Edits, before: bool)
    requires Normal(a) && Normal(b) && LenBefore(a) == LenBefore(b) && a.Replace? && !b.Replace?
    requires var k := Skip(a.del, b);
             k.kept == a.del && k.left == 0 && MapSet(a.rest, true, false, k.rest, before) == a.rest
    ensures MapSet(a, true, false, b, before) == a
  {
    hide Skip, MapCovered;
  }

  /** ... and maps others to themselves. */
  lemma {:induction false} MapOverNothing(a: Edits, b: Edits, before: bool)
    requires Normal(a) && Normal(b) && LenBefore(a) == LenBefore(b) && IsEmpty(b)
    ensures MapSet(a, true, false, b, before) == a
  {
    hide Skip, MapSet;
    if a.Keep? {
      NothingIsKept(b, a.len);
      MapOverNothing(a.rest, Advance(b, a.len), before);
      KeptOverNothing(a, b, before);
    } else if a.Replace? {
      SkipNothing(a.del, b);
      MapOverNothing(a.rest, Skip(a.del, b).rest, before);
      OwnOverNothing(a, b, before);
    } else {
      NothingOverNothing(b, before);
    }
  }

  lemma NothingOverNothing(b: Edits, before: bool)
    requires Normal(b) && IsEmpty(b) && LenBefore(b) == 0
    ensures MapSet(Done, true, false, b, before) == Done
  {
  }
}
