/** Laws of change sets: inverses, and two change sets that touch no common
    position joined into one. */
module ChangeSetLaws {
  import opened Sequences
  import opened ChangeSets

  // ----- inverses -----

  /** Undoing and redoing: the inverse restores the document, and is inverted
      by the change set itself. */
  lemma {:induction false} InvertUndoes(e: Edits, doc: string)
    requires LenBefore(e) == |doc|
    ensures Apply(Invert(e, doc), Apply(e, doc)) == doc
    ensures Invert(Invert(e, doc), Apply(e, doc)) == e
  {
    match e
    case Done =>
    case Keep(n, rest) =>
      InvertUndoes(rest, doc[n..]);
      InvertHead(doc[..n], doc[n..], Apply(rest, doc[n..]), doc, n);
    case Replace(n, s, rest) =>
      InvertUndoes(rest, doc[n..]);
      InvertHead(s, doc[n..], Apply(rest, doc[n..]), doc, n);
  }

  lemma {:induction false} InvertHead(s: string, tail: string, out: string, doc: string, n: nat)
    requires n <= |doc| && tail == doc[n..]
    ensures (s + out)[..|s|] == s && (s + out)[|s|..] == out
    ensures doc[..n] + tail == doc
  {
  }

  lemma {:induction false} Slices(doc: string, n: nat, m: nat)
    requires n + m <= |doc|
    ensures doc[n..][m..] == doc[n + m..]
    ensures doc[..n + m] == doc[..n] + doc[n..][..m]
  {
  }

  lemma {:induction false} ApplyKeepThen(n: nat, rest: Edits, doc: string)
    requires n + LenBefore(rest) == |doc|
    ensures Apply(KeepThen(n, rest), doc) == doc[..n] + Apply(rest, doc[n..])
  {
    if n == 0 {
      assert doc[n..] == doc;
    } else if rest.Keep? {
      Slices(doc, n, rest.len);
      var x, y := doc[n..][..rest.len], Apply(rest.rest, doc[n + rest.len..]);
      Assoc(doc[..n], x, y);
    }
  }

  lemma {:induction false} ApplyReplaceThen(d: nat, s: string, rest: Edits, doc: string)
    requires d + LenBefore(rest) == |doc|
    ensures Apply(ReplaceThen(d, s, rest), doc) == s + Apply(rest, doc[d..])
  {
    if d == 0 && s == "" {
      assert doc[d..] == doc;
    } else if Joins(d, s, rest) {
      Slices(doc, d, rest.del);
      var x := Apply(rest.rest, doc[d + rest.del..]);
      Assoc(s, rest.ins, x);
    }
  }

  lemma {:induction false} EmptyKeepsAll(e: Edits, doc: string)
    requires LenBefore(e) == |doc| && IsEmpty(e)
    ensures Apply(e, doc) == doc
  {
    if e.Keep? {
      EmptyKeepsAll(e.rest, doc[e.len..]);
      assert doc[..e.len] + doc[e.len..] == doc;
    }
  }

  // ----- two change sets over one document -----

  /** Position `g` lies in, or at an end of, something `e` replaces. */
  predicate Touches(e: Edits, pos: nat, g: nat) {
    match e
    case Done => false
    case Keep(n, rest) => Touches(rest, pos + n, g)
    case Replace(d, _, rest) => pos <= g <= pos + d || Touches(rest, pos + d, g)
  }

  ghost predicate NoneShared(a: Edits, b: Edits, pos: nat) {
    forall g: nat :: Touches(a, pos, g) ==> !Touches(b, pos, g)
  }

  /** No text is replaced by one side within, or at an end of, text replaced
      by the other. */
  predicate Apart(a: Edits, b: Edits)
    decreases Size(a) + Size(b)
  {
    if a.Done? || b.Done? then true
    else if a.Keep? && b.Keep? then
      var m := Min(a.len, b.len);
      m > 0 && Apart(Advance(a, m), Advance(b, m))
    else if a.Replace? && b.Keep? then
      a.del <= b.len && (a.del == b.len ==> b.rest.Done?) && Apart(a.rest, Advance(b, a.del))
    else if a.Keep? && b.Replace? then
      b.del <= a.len && (b.del == a.len ==> a.rest.Done?) && Apart(Advance(a, b.del), b.rest)
    else false
  }

  /** Both change sets as one, over the document they share. */
  function Both(a: Edits, b: Edits): (r: Edits)
    requires Apart(a, b)
    requires LenBefore(a) == LenBefore(b)
    ensures LenBefore(r) == LenBefore(a)
    decreases Size(a) + Size(b)
  {
    if a.Done? then b
    else if b.Done? then a
    else if a.Keep? && b.Keep? then
      var m := Min(a.len, b.len);
      Keep(m, Both(Advance(a, m), Advance(b, m)))
    else if a.Replace? then Replace(a.del, a.ins, Both(a.rest, Advance(b, a.del)))
    else Replace(b.del, b.ins, Both(Advance(a, b.del), b.rest))
  }

  datatype Site = Site(pos: nat, del: nat, ins: string)

  /** The replacements `e` makes, by old-document position. */
  function Sites(e: Edits, pos: nat): set<Site> {
    match e
    case Done => {}
    case Keep(n, rest) => Sites(rest, pos + n)
    case Replace(d, s, rest) => {Site(pos, d, s)} + Sites(rest, pos + d)
  }

  lemma {:induction false} ApartIfNothingShared(a: Edits, b: Edits, pos: nat)
    requires Normal(a) && Normal(b) && LenBefore(a) == LenBefore(b)
    requires NoneShared(a, b, pos)
    ensures Apart(a, b)
    decreases Size(a) + Size(b)
  {
    if a.Done? || b.Done? {
    } else if a.Keep? && b.Keep? {
      var m := Min(a.len, b.len);
      NothingSharedLater(a, b, Advance(a, m), Advance(b, m), pos, m);
      ApartIfNothingShared(Advance(a, m), Advance(b, m), pos + m);
    } else if a.Replace? && b.Replace? {
      assert Touches(a, pos, pos) && Touches(b, pos, pos);
    } else if a.Replace? {
      ApartStep(a, b, pos);
      NothingSharedLater(a, b, a.rest, Advance(b, a.del), pos, a.del);
      ApartIfNothingShared(a.rest, Advance(b, a.del), pos + a.del);
    } else {
      assert NoneShared(b, a, pos);
      ApartStep(b, a, pos);
      NothingSharedLater(a, b, Advance(a, b.del), b.rest, pos, b.del);
      ApartIfNothingShared(Advance(a, b.del), b.rest, pos + b.del);
    }
  }

  /** `e'` is `e` past its first `m` characters. */
  predicate Past(e: Edits, e': Edits, m: nat) {
    (e.Keep? && m <= e.len && e' == Advance(e, m)) || (e.Replace? && m == e.del && e' == e.rest)
  }

  lemma {:induction false} TouchesPast(e: Edits, e': Edits, m: nat, pos: nat, g: nat)
    requires Past(e, e', m)
    ensures Touches(e', pos + m, g) ==> Touches(e, pos, g)
  {
  }

  lemma {:induction false} NothingSharedLater(a: Edits, b: Edits, a': Edits, b': Edits, pos: nat, m: nat)
    requires Past(a, a', m) && Past(b, b', m)
    requires NoneShared(a, b, pos)
    ensures NoneShared(a', b', pos + m)
  {
    var pos' := pos + m;
    forall g | Touches(a', pos', g) ensures !Touches(b', pos', g) {
      TouchesPast(a, a', m, pos, g);
      TouchesPast(b, b', m, pos, g);
    }
  }

  /** A replacement next to kept text ends before that text does, or with the document. */
  lemma {:induction false} ApartStep(a: Edits, b: Edits, pos: nat)
    requires Normal(a) && Normal(b) && LenBefore(a) == LenBefore(b)
    requires a.Replace? && b.Keep?
    requires NoneShared(a, b, pos)
    ensures a.del <= b.len && (a.del == b.len ==> b.rest.Done?)
  {
    if b.rest.Replace? {
      assert Touches(b.rest, pos + b.len, pos + b.len);
      assert Touches(b, pos, pos + b.len);
      assert !Touches(a, pos, pos + b.len);
    }
  }

  lemma {:induction false} BothMakesAllReplacements(a: Edits, b: Edits, pos: nat)
    requires Apart(a, b) && LenBefore(a) == LenBefore(b)
    ensures Sites(Both(a, b), pos) == Sites(a, pos) + Sites(b, pos)
    decreases Size(a) + Size(b)
  {
    hide *;
    NoSites(pos);
    if a.Done? || b.Done? {
      BothWithNothing(a, b);
    } else if a.Keep? && b.Keep? {
      var m := Min(a.len, b.len);
      BothKept(a, b);
      BothMakesAllReplacements(Advance(a, m), Advance(b, m), pos + m);
      SitesAdvance(a, m, pos);
      SitesAdvance(b, m, pos);
      SitesKept(m, Both(Advance(a, m), Advance(b, m)), pos);
    } else if a.Replace? && b.Keep? {
      BothOurs(a, b);
      BothMakesAllReplacements(a.rest, Advance(b, a.del), pos + a.del);
      SitesStep(a, b, Both(a.rest, Advance(b, a.del)), pos);
    } else {
      BothTheirs(a, b);
      BothMakesAllReplacements(Advance(a, b.del), b.rest, pos + b.del);
      SitesStep(b, a, Both(Advance(a, b.del), b.rest), pos);
    }
  }

  lemma BothWithNothing(a: Edits, b: Edits)
    requires (a.Done? || b.Done?) && Apart(a, b) && LenBefore(a) == LenBefore(b)
    ensures Both(a, b) == if a.Done? then b else a
  {
  }

  lemma BothKept(a: Edits, b: Edits)
    requires Apart(a, b) && LenBefore(a) == LenBefore(b) && a.Keep? && b.Keep?
    ensures var m := Min(a.len, b.len);
            && 0 < m <= a.len && m <= b.len && Apart(Advance(a, m), Advance(b, m))
            && LenBefore(Advance(a, m)) == LenBefore(Advance(b, m))
            && Size(Advance(a, m)) + Size(Advance(b, m)) < Size(a) + Size(b)
            && Both(a, b) == Keep(m, Both(Advance(a, m), Advance(b, m)))
  {
    hide Advance;
  }

  lemma BothOurs(a: Edits, b: Edits)
    requires Apart(a, b) && LenBefore(a) == LenBefore(b) && a.Replace? && b.Keep?
    ensures var b' := if a.del <= b.len then Advance(b, a.del) else b;
            && a.del <= b.len && Apart(a.rest, b') && LenBefore(a.rest) == LenBefore(b')
            && Size(a.rest) + Size(b') < Size(a) + Size(b)
            && Both(a, b) == Replace(a.del, a.ins, Both(a.rest, b'))
  {
    hide Advance;
  }

  lemma BothTheirs(a: Edits, b: Edits)
    requires Apart(a, b) && LenBefore(a) == LenBefore(b) && !a.Done? && b.Replace?
    ensures a.Keep?
    ensures var a' := if b.del <= a.len then Advance(a, b.del) else a;
            && b.del <= a.len && Apart(a', b.rest) && LenBefore(a') == LenBefore(b.rest)
            && Size(a') + Size(b.rest) < Size(a) + Size(b)
            && Both(a, b) == Replace(b.del, b.ins, Both(a', b.rest))
  {
    hide Advance;
  }

  lemma NoSites(pos: nat)
    ensures Sites(Done, pos) == {}
  {
  }

  lemma SitesKept(n: nat, rest: Edits, pos: nat)
    ensures Sites(Keep(n, rest), pos) == Sites(rest, pos + n)
  {
  }

  lemma {:induction false} SitesStep(e: Edits, other: Edits, both: Edits, pos: nat)
    requires e.Replace? && other.Keep? && e.del <= other.len
    requires Sites(both, pos + e.del) == Sites(e.rest, pos + e.del) + Sites(Advance(other, e.del), pos + e.del)
    ensures Sites(Replace(e.del, e.ins, both), pos) == Sites(e, pos) + Sites(other, pos)
  {
    SitesAdvance(other, e.del, pos);
  }

  lemma {:induction false} SitesAdvance(e: Edits, m: nat, pos: nat)
    requires e.Keep? && m <= e.len
    ensures Sites(Advance(e, m), pos + m) == Sites(e, pos)
  {
  }

  lemma {:induction false} ApplyAdvance(e: Edits, m: nat, doc: string)
    requires LenBefore(e) == |doc| && e.Keep? && m <= e.len
    ensures Apply(e, doc) == doc[..m] + Apply(Advance(e, m), doc[m..])
    ensures Apply(e, doc)[..m] == doc[..m] && Apply(e, doc)[m..] == Apply(Advance(e, m), doc[m..])
  {
    AdvanceWrites(e, m, doc);
    hide Apply, Advance;
    SplitConcat(doc[..m], Apply(Advance(e, m), doc[m..]));
  }

  lemma {:induction false} AdvanceWrites(e: Edits, m: nat, doc: string)
    requires LenBefore(e) == |doc| && e.Keep? && m <= e.len
    ensures Apply(e, doc) == doc[..m] + Apply(Advance(e, m), doc[m..])
  {
    if m < e.len {
      Slices(doc, m, e.len - m);
      Assoc(doc[..m], doc[m..][..e.len - m], Apply(e.rest, doc[e.len..]));
    }
  }

  /** `t` appears in `s`. */
  ghost predicate Contains(s: string, t: string) {
    exists i: nat :: At(s, t, i)
  }

  /** `t` appears in `s` at offset `i`. */
  predicate At(s: string, t: string, i: nat) {
    i + |t| <= |s| && s[i..i + |t|] == t
  }

  lemma {:induction false} InsertedTextSurvives(e: Edits, doc: string, pos: nat, site: Site)
    requires LenBefore(e) == |doc| && site in Sites(e, pos)
    ensures Contains(Apply(e, doc), site.ins)
  {
    if e.Replace? && site == Site(pos, e.del, e.ins) {
      SplitConcat(e.ins, Apply(e.rest, doc[e.del..]));
      assert At(Apply(e, doc), site.ins, 0);
    } else {
      var n := if e.Keep? then e.len else e.del;
      var head := if e.Keep? then doc[..n] else e.ins;
      InsertedTextSurvives(e.rest, doc[n..], pos + n, site);
      ContainsAfter(head, Apply(e.rest, doc[n..]), site.ins);
    }
  }

  lemma ContainsAfter(head: string, s: string, t: string)
    requires Contains(s, t)
    ensures Contains(head + s, t)
  {
    var i: nat :| At(s, t, i);
    assert (head + s)[|head| + i..|head| + i + |t|] == s[i..i + |t|];
    assert At(head + s, t, |head| + i);
  }
}
