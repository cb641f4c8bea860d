/** The order of the texts two change sets insert: single replacements of the two
    sides, at one place and at two, overlapping or not. */
module MergeOrder {
  import opened Sequences
  import opened ChangeSets
  import opened ChangeSetLaws
  import opened Convergence

  /** Replaces `d` characters at `i` in a document of length `n`. */
  function OneSite(n: nat, i: nat, d: nat, s: string): (r: Edits)
    requires i + d <= n && (d > 0 || s != "")
    ensures Fits(r, n)
  {
    KeepThen(i, Replace(d, s, Unchanged(n - i - d)))
  }

  /** Of two replacements at one place, the text of the one that deletes less comes
      first; of two that delete as much, that of the side named `before`. */
  lemma OrderAtOnePlace(doc: string, i: nat, da: nat, s: string, db: nat, t: string, before: bool)
    requires i + da <= |doc| && i + db <= |doc| && (da > 0 || s != "") && (db > 0 || t != "")
    ensures var a, b := OneSite(|doc|, i, da, s), OneSite(|doc|, i, db, t);
            Apply(Map(a, b, before), Apply(b, doc)) ==
            doc[..i] + ((if da < db || (da == db && before) then s + t else t + s) +
                        doc[i + if da < db then db else da..])
  {
    hide *;
    var cut := if da < db then db else da;
    MapConverges(OneSite(|doc|, i, da, s), OneSite(|doc|, i, db, t), before, doc);
    MergedAt(doc, i, da, s, db, t, before, cut);
  }

  lemma MergedAt(doc: string, i: nat, da: nat, s: string, db: nat, t: string, first: bool, cut: nat)
    requires i + da <= |doc| && i + db <= |doc| && (da > 0 || s != "") && (db > 0 || t != "")
    requires cut == if da < db then db else da
    ensures Merged(OneSite(|doc|, i, da, s), false, OneSite(|doc|, i, db, t), false, first, doc) ==
            doc[..i] + ((if da < db || (da == db && first) then s + t else t + s) + doc[i + cut..])
  {
    hide *;
    var rest := doc[i..];
    MergedUpTo(doc, rest, i, da, s, db, t, first);
    MergedHere(rest, da, s, db, t, first, cut);
    DropTwice(doc, i, cut);
  }

  lemma MergedUpTo(doc: string, rest: string, i: nat, da: nat, s: string, db: nat, t: string, first: bool)
    requires i + da <= |doc| && i + db <= |doc| && (da > 0 || s != "") && (db > 0 || t != "") && rest == doc[i..]
    ensures Merged(OneSite(|doc|, i, da, s), false, OneSite(|doc|, i, db, t), false, first, doc) ==
            doc[..i] + Merged(OneSite(|rest|, 0, da, s), false, OneSite(|rest|, 0, db, t), false, first, rest)
  {
    hide Merged;
    var a, b := OneSite(|doc|, i, da, s), OneSite(|doc|, i, db, t);
    if i == 0 {
      assert doc[0..] == doc && doc[..0] == "";
      NothingAdded(Merged(a, false, b, false, first, doc));
    } else {
      ReadOn(a, false, b, false, first, doc, i);
    }
  }

  lemma KeepBoth(doc: string, first: bool)
    ensures Merged(Unchanged(|doc|), false, Unchanged(|doc|), false, first, doc) == doc
  {
    assert doc[..|doc|] + "" == doc;
  }

  /** One side keeps all, the other deletes the first `d` characters. */
  lemma OneDeletes(doc: string, d: nat, t: string, first: bool)
    requires d <= |doc|
    ensures var u, b := Unchanged(|doc|), Replace(d, t, Unchanged(|doc| - d));
            && Merged(u, false, b, true, first, doc) == doc[d..]
            && Merged(b, true, u, false, first, doc) == doc[d..]
  {
    hide Merged;
    var u, b := Unchanged(|doc|), Replace(d, t, Unchanged(|doc| - d));
    if d > 0 {
      ReadOn(u, false, b, true, first, doc, d);
      ReadOn(b, true, u, false, first, doc, d);
      NothingAdded(Merged(Drop(u, d), false, Drop(b, d), true, first, doc[d..]));
      NothingAdded(Merged(Drop(b, d), true, Drop(u, d), false, first, doc[d..]));
    }
    var u', b' := Unchanged(|doc| - d), Replace(0, t, Unchanged(|doc| - d));
    LeaveTheirs(u', false, b', first, doc[d..]);
    LeaveOurs(b', u', false, first, doc[d..]);
    KeepBoth(doc[d..], first);
    assert doc[0..] == doc;
  }

  lemma {:induction false} BothDelete(doc: string, da: nat, s: string, db: nat, t: string, first: bool, cut: nat)
    requires da <= |doc| && db <= |doc| && cut == if da < db then db else da
    ensures Merged(Replace(da, s, Unchanged(|doc| - da)), true, Replace(db, t, Unchanged(|doc| - db)), true, first, doc)
            == doc[cut..]
    decreases da + db
  {
    hide *;
    var a, b := Replace(da, s, Unchanged(|doc| - da)), Replace(db, t, Unchanged(|doc| - db));
    DeletesFit(|doc|, da, s);
    DeletesFit(|doc|, db, t);
    if da == 0 {
      LeaveOurs(a, b, true, first, doc);
      OneDeletes(doc, db, t, first);
    } else if db == 0 {
      LeaveTheirs(a, true, b, first, doc);
      OneDeletes(doc, da, s, first);
    } else {
      var m := if da < db then da else db;
      var rest := doc[m..];
      BothRead(doc, rest, da, s, db, t, first, m);
      BothDelete(rest, da - m, s, db - m, t, first, cut - m);
      DropTwice(doc, m, cut - m);
    }
  }

  lemma BothRead(doc: string, rest: string, da: nat, s: string, db: nat, t: string, first: bool, m: nat)
    requires 0 < da <= |doc| && 0 < db <= |doc| && m == (if da < db then da else db) && rest == doc[m..]
    ensures Merged(Replace(da, s, Unchanged(|doc| - da)), true, Replace(db, t, Unchanged(|doc| - db)), true, first, doc)
            == Merged(Replace(da - m, s, Unchanged(|rest| - (da - m))), true,
                      Replace(db - m, t, Unchanged(|rest| - (db - m))), true, first, rest)
  {
    hide Merged, Unchanged;
    var a, b := Replace(da, s, Unchanged(|doc| - da)), Replace(db, t, Unchanged(|doc| - db));
    DeletesFit(|doc|, da, s);
    DeletesFit(|doc|, db, t);
    ReadOn(a, true, b, true, first, doc, m);
    NothingAdded(Merged(Drop(a, m), true, Drop(b, m), true, first, rest));
  }

  lemma DeletesFit(n: nat, d: nat, s: string)
    requires d <= n
    ensures var e := Replace(d, s, Unchanged(n - d));
            LenBefore(e) == n && Head(e) == d && e.Replace? && (Spent(e, true) <==> d == 0)
  {
  }

  lemma WriteTheirsLast(a: Edits, b: Edits, first: bool, doc: string)
    requires LenBefore(a) == LenBefore(b) == |doc| && a.Replace? && b.Replace? && !a.rest.Replace?
    ensures Merged(a, true, b, false, first, doc) == b.ins + Merged(a, true, b, true, first, doc)
  {
    hide Merged;
    if a.del == 0 {
      LeaveOurs(a, b, false, first, doc);
      WriteTheirs(a.rest, false, b, first, doc);
      LeaveOurs(a, b, true, first, doc);
    } else {
      WriteTheirs(a, true, b, first, doc);
    }
  }

  lemma WriteOursLast(a: Edits, b: Edits, first: bool, doc: string)
    requires LenBefore(a) == LenBefore(b) == |doc| && a.Replace? && b.Replace? && !b.rest.Replace?
    ensures Merged(a, false, b, true, first, doc) == a.ins + Merged(a, true, b, true, first, doc)
  {
    hide Merged;
    if b.del == 0 {
      LeaveTheirs(a, false, b, first, doc);
      WriteOurs(a, b.rest, false, first, doc);
      LeaveTheirs(a, true, b, first, doc);
    } else {
      WriteOurs(a, b, true, first, doc);
    }
  }

  lemma MergedHere(doc: string, da: nat, s: string, db: nat, t: string, first: bool, cut: nat)
    requires da <= |doc| && db <= |doc| && (da > 0 || s != "") && (db > 0 || t != "")
    requires cut == if da < db then db else da
    ensures Merged(OneSite(|doc|, 0, da, s), false, OneSite(|doc|, 0, db, t), false, first, doc) ==
            (if da < db || (da == db && first) then s + t else t + s) + doc[cut..]
  {
    hide Merged;
    var a, b := OneSite(|doc|, 0, da, s), OneSite(|doc|, 0, db, t);
    BothDelete(doc, da, s, db, t, first, cut);
    if da < db || (da == db && first) {
      WriteOurs(a, b, false, first, doc);
      WriteTheirsLast(a, b, first, doc);
      Assoc(s, t, doc[cut..]);
    } else {
      WriteTheirs(a, false, b, first, doc);
      WriteOursLast(a, b, first, doc);
      Assoc(t, s, doc[cut..]);
    }
  }

  // ----- at two places -----

  lemma ApplyOneSite(doc: string, i: nat, d: nat, s: string)
    requires i + d <= |doc| && (d > 0 || s != "")
    ensures Apply(OneSite(|doc|, i, d, s), doc) == doc[..i] + (s + doc[i + d..])
  {
    var rest := doc[i..];
    ApplyKeepThen(i, Replace(d, s, Unchanged(|doc| - i - d)), doc);
    EmptyKeepsAll(Unchanged(|doc| - i - d), rest[d..]);
    DropTwice(doc, i, d);
  }

  /** One side changes nothing. */
  lemma MergedWithUnchanged(b: Edits, first: bool, doc: string)
    requires Fits(b, |doc|)
    ensures Merged(Unchanged(|doc|), false, b, false, first, doc) == Apply(b, doc)
  {
    var u := Unchanged(|doc|);
    MapConverges(u, b, first, doc);
    MapEmpty(u, true, false, b, first);
    EmptyKeepsAll(Map(u, b, first), Apply(b, doc));
  }

  /** Past what the earlier side deletes, if it ends in front of the later. */
  lemma MergedPastOurs(doc: string, rest: string, da: nat, s: string, k: nat, db: nat, t: string, first: bool)
    requires da <= k && k + db <= |doc| && (db > 0 || t != "") && rest == doc[da..]
    ensures Merged(Replace(da, s, Unchanged(|doc| - da)), true, OneSite(|doc|, k, db, t), false, first, doc) ==
            Apply(OneSite(|rest|, k - da, db, t), rest)
  {
    hide Merged, Apply;
    var a, b := Replace(da, s, Unchanged(|doc| - da)), OneSite(|doc|, k, db, t);
    if da > 0 {
      ReadOn(a, true, b, false, first, doc, da);
      NothingAdded(Merged(Drop(a, da), true, Drop(b, da), false, first, rest));
    }
    var a', b' := Replace(0, s, Unchanged(|rest|)), OneSite(|rest|, k - da, db, t);
    assert da == 0 ==> rest == doc;
    LeaveOurs(a', b', false, first, rest);
    MergedWithUnchanged(b', first, rest);
  }

  /** ... and if it reaches past where the later begins. */
  lemma MergedInOurs(doc: string, rest: string, da: nat, s: string, k: nat, db: nat, t: string, first: bool, cut: nat)
    requires 0 < k < da <= |doc| && k + db <= |doc| && (db > 0 || t != "") && rest == doc[k..]
    requires cut == if da < k + db then k + db else da
    ensures Merged(Replace(da, s, Unchanged(|doc| - da)), true, OneSite(|doc|, k, db, t), false, first, doc) ==
            t + doc[cut..]
  {
    hide Merged;
    var a, b := Replace(da, s, Unchanged(|doc| - da)), OneSite(|doc|, k, db, t);
    ReadOn(a, true, b, false, first, doc, k);
    var a', b' := Replace(da - k, s, Unchanged(|rest| - (da - k))), Replace(db, t, Unchanged(|rest| - db));
    NothingAdded(Merged(a', true, b', false, first, rest));
    WriteTheirsLast(a', b', first, rest);
    BothDelete(rest, da - k, s, db, t, first, cut - k);
    DropTwice(doc, k, cut - k);
  }

  /** What both keep between the two replacements. */
  function Between(doc: string, from: nat, to: nat): string
    requires to <= |doc|
  {
    if from < to then doc[from..to] else ""
  }

  lemma MergedFirstThen(doc: string, da: nat, s: string, k: nat, db: nat, t: string, first: bool, cut: nat)
    requires 0 < k && da <= |doc| && k + db <= |doc| && (da > 0 || s != "") && (db > 0 || t != "")
    requires cut == if da < k + db then k + db else da
    ensures Merged(OneSite(|doc|, 0, da, s), false, OneSite(|doc|, k, db, t), false, first, doc) ==
            s + (Between(doc, da, k) + (t + doc[cut..]))
  {
    hide Merged, Apply;
    var a, b := OneSite(|doc|, 0, da, s), OneSite(|doc|, k, db, t);
    WriteOurs(a, b, false, first, doc);
    if da <= k {
      var rest := doc[da..];
      MergedPastOurs(doc, rest, da, s, k, db, t, first);
      ApplyOneSite(rest, k - da, db, t);
      assert rest[..k - da] == Between(doc, da, k);
      DropTwice(doc, da, k - da + db);
    } else {
      MergedInOurs(doc, doc[k..], da, s, k, db, t, first, cut);
      NothingAdded(t + doc[cut..]);
    }
  }

  lemma DropSite(n: nat, i: nat, m: nat, d: nat, s: string)
    requires 0 < m <= i && i + d <= n && (d > 0 || s != "")
    ensures var e := OneSite(n, i, d, s); e.Keep? && Head(e) == i && Drop(e, m) == OneSite(n - m, i - m, d, s)
  {
  }

  lemma MergedFromFirst(doc: string, rest: string, i: nat, da: nat, s: string, j: nat, db: nat, t: string, first: bool)
    requires i < j && i + da <= |doc| && j + db <= |doc| && rest == doc[i..]
    requires (da > 0 || s != "") && (db > 0 || t != "")
    ensures Merged(OneSite(|doc|, i, da, s), false, OneSite(|doc|, j, db, t), false, first, doc) ==
            doc[..i] + Merged(OneSite(|rest|, 0, da, s), false, OneSite(|rest|, j - i, db, t), false, first, rest)
  {
    hide Merged, OneSite;
    var a, b := OneSite(|doc|, i, da, s), OneSite(|doc|, j, db, t);
    if i == 0 {
      assert doc[0..] == doc && doc[..0] == "";
      NothingAdded(Merged(a, false, b, false, first, doc));
    } else {
      DropSite(|doc|, i, i, da, s);
      DropSite(|doc|, j, i, db, t);
      ReadOn(a, false, b, false, first, doc, i);
    }
  }

  lemma MergedTwo(doc: string, i: nat, da: nat, s: string, j: nat, db: nat, t: string, first: bool, cut: nat)
    requires i < j && i + da <= |doc| && j + db <= |doc| && (da > 0 || s != "") && (db > 0 || t != "")
    requires cut == if i + da < j + db then j + db else i + da
    ensures Merged(OneSite(|doc|, i, da, s), false, OneSite(|doc|, j, db, t), false, first, doc) ==
            doc[..i] + (s + (Between(doc, i + da, j) + (t + doc[cut..])))
  {
    hide *;
    var rest, k := doc[i..], j - i;
    MergedFromFirst(doc, rest, i, da, s, j, db, t, first);
    MergedFirstThen(rest, da, s, k, db, t, first, cut - i);
    DropTwice(doc, i, cut - i);
    BetweenShifted(doc, i, da, k);
  }

  /** Of two replacements at two places both texts are written, that of the earlier
      first, what both keep between them, and nothing that either deletes. */
  lemma OrderAtTwoPlaces(doc: string, i: nat, da: nat, s: string, j: nat, db: nat, t: string, before: bool)
    requires i < j && i + da <= |doc| && j + db <= |doc| && (da > 0 || s != "") && (db > 0 || t != "")
    ensures var a, b := OneSite(|doc|, i, da, s), OneSite(|doc|, j, db, t);
            var merged := doc[..i] + (s + (Between(doc, i + da, j) +
                                           (t + doc[if i + da < j + db then j + db else i + da..])));
            Apply(Map(a, b, before), Apply(b, doc)) == merged && Apply(Map(b, a, before), Apply(a, doc)) == merged
  {
    hide *;
    var a, b := OneSite(|doc|, i, da, s), OneSite(|doc|, j, db, t);
    var cut := if i + da < j + db then j + db else i + da;
    MapConverges(a, b, before, doc);
    MergedTwo(doc, i, da, s, j, db, t, before, cut);
    MapConverges(a, b, !before, doc);
    MergedTwo(doc, i, da, s, j, db, t, !before, cut);
  }

  lemma BetweenShifted(doc: string, i: nat, da: nat, k: nat)
    requires i + k <= |doc|
    ensures Between(doc[i..], da, k) == Between(doc, i + da, i + k)
  {
  }
}
