/** Baking changes section bodies and nothing else, and settles at once. */
module BakeLaws {
  import opened Sequences
  import opened Text
  import opened BakedSections
  import opened Bake

  /** `p` stands in `s` at `j`. */
  predicate Occurs(s: string, p: string, j: nat) {
    j + |p| <= |s| && s[j..j + |p|] == p
  }

  lemma {:induction false} FindIsFirst(s: string, p: string, j: nat)
    requires p != "" && Occurs(s, p, j)
    ensures Find(s, p).Some? && Find(s, p).value <= j
  {
    if !(p <= s) {
      assert j > 0;
      assert s[1..][j - 1..j - 1 + |p|] == s[j..j + |p|];
      FindIsFirst(s[1..], p, j - 1);
    }
  }

  lemma {:induction false} FindNowhere(s: string, p: string)
    requires p != "" && forall j: nat :: !Occurs(s, p, j)
    ensures Find(s, p).None?
  {
    assert Find(s, p).Some? ==> Occurs(s, p, Find(s, p).value);
  }

  /** Found first at `k` means found there, and not before. */
  lemma {:induction false} FindExactly(s: string, p: string, k: nat)
    requires p != "" && Occurs(s, p, k) && forall j: nat | j < k :: !Occurs(s, p, j)
    ensures Find(s, p) == Some(k)
  {
    FindIsFirst(s, p, k);
    assert Occurs(s, p, Find(s, p).value);
  }

  predicate Free(s: string) {
    Find(s, CLOSE_MARKER).None?
  }

  /** A `<` can only be the first character of a closing marker. */
  lemma CloseShape()
    ensures |CLOSE_MARKER| == 11 && CLOSE_MARKER[0] == '<' && CLOSE_MARKER[4] == '/' && CLOSE_MARKER[10] == '>'
    ensures forall i | 0 < i < 11 :: CLOSE_MARKER[i] != '<'
    ensures forall i | 0 <= i < 11 :: CLOSE_MARKER[i] != '\n'
  {
  }

  lemma SpacedShape()
    ensures |SPACED_MARKER| == 13 && SPACED_MARKER[0] == '<' && SPACED_MARKER[4] == ' '
    ensures forall i | 0 < i < 13 :: SPACED_MARKER[i] != '<'
  {
  }

  lemma Letter(s: string, p: string, j: nat, i: nat)
    requires Occurs(s, p, j) && i < |p|
    ensures s[j + i] == p[i]
  {
    assert s[j..j + |p|][i] == p[i];
  }

  lemma LetterIf(s: string, p: string, j: nat, i: nat)
    requires i < |p|
    ensures Occurs(s, p, j) ==> j + i < |s| && s[j + i] == p[i]
  {
    if Occurs(s, p, j) { Letter(s, p, j, i); }
  }

  /** Before a `<` no closing marker can straddle the seam. */
  lemma SeamOccurs(a: string, t: string, j: nat)
    requires t != "" && t[0] == '<' && Occurs(a + t, CLOSE_MARKER, j)
    ensures Occurs(a, CLOSE_MARKER, j) || (j >= |a| && Occurs(t, CLOSE_MARKER, j - |a|))
  {
    CloseShape();
    hide CLOSE_MARKER;
    if j + 11 <= |a| {
      assert a[j..j + 11] == (a + t)[j..j + 11];
    } else if j >= |a| {
      assert t[j - |a|..j - |a| + 11] == (a + t)[j..j + 11];
    } else {
      Letter(a + t, CLOSE_MARKER, j, |a| - j);
      assert false;
    }
  }

  lemma FreeHasNone(s: string, j: nat)
    requires Free(s)
    ensures !Occurs(s, CLOSE_MARKER, j)
  {
    CloseShape();
    hide CLOSE_MARKER;
    if Occurs(s, CLOSE_MARKER, j) { FindIsFirst(s, CLOSE_MARKER, j); }
  }

  lemma FreeIf(s: string)
    requires forall j: nat :: !Occurs(s, CLOSE_MARKER, j)
    ensures Free(s)
  {
    CloseShape();
    hide CLOSE_MARKER;
    FindNowhere(s, CLOSE_MARKER);
  }

  lemma FreeSeam(a: string, t: string)
    requires Free(a) && Free(t) && (t != "" ==> t[0] == '<')
    ensures Free(a + t)
  {
    hide Free, CLOSE_MARKER;
    if t == "" {
      assert a + t == a;
    } else {
      forall j: nat ensures !Occurs(a + t, CLOSE_MARKER, j) {
        if Occurs(a + t, CLOSE_MARKER, j) {
          SeamOccurs(a, t, j);
          FreeHasNone(a, j);
          if j >= |a| { FreeHasNone(t, j - |a|); }
        }
      }
      FreeIf(a + t);
    }
  }

  lemma FreeSpaced(e: string)
    requires Free(e)
    ensures Free(SPACED_MARKER + e)
  {
    CloseShape();
    SpacedShape();
    hide Free, CLOSE_MARKER, SPACED_MARKER;
    var s := SPACED_MARKER + e;
    forall j: nat ensures !Occurs(s, CLOSE_MARKER, j) {
      LetterIf(s, CLOSE_MARKER, j, 0);
      LetterIf(s, CLOSE_MARKER, j, 4);
      if j >= 13 && Occurs(s, CLOSE_MARKER, j) {
        assert e[j - 13..j - 13 + 11] == s[j..j + 11];
        FreeHasNone(e, j - 13);
      }
    }
    FreeIf(s);
  }

  lemma FreeSlice(s: string, a: nat, b: nat)
    requires Free(s) && a <= b <= |s|
    ensures Free(s[a..b])
  {
    hide Free, CLOSE_MARKER;
    forall j: nat ensures !Occurs(s[a..b], CLOSE_MARKER, j) {
      if Occurs(s[a..b], CLOSE_MARKER, j) {
        SliceOfSlice(s, a, b, j, j + |CLOSE_MARKER|);
        FreeHasNone(s, a + j);
      }
    }
    FreeIf(s[a..b]);
  }

  lemma FreeBefore(s: string)
    requires Find(s, CLOSE_MARKER).Some?
    ensures Free(s[..Find(s, CLOSE_MARKER).value])
  {
    CloseShape();
    var k := Find(s, CLOSE_MARKER).value;
    hide Free, Find, CLOSE_MARKER;
    forall j: nat ensures !Occurs(s[..k], CLOSE_MARKER, j) {
      if Occurs(s[..k], CLOSE_MARKER, j) {
        assert s[..k][j..j + 11] == s[j..j + 11];
        FindIsFirst(s, CLOSE_MARKER, j);
      }
    }
    FreeIf(s[..k]);
  }

  /** An escaped body holds no closing marker. */
  lemma {:induction false} EscapedIsFree(markdown: string)
    ensures Free(EscapeBakedBody(markdown))
    decreases |markdown|
  {
    CloseShape();
    hide CLOSE_MARKER, SPACED_MARKER;
    var k := Find(markdown, CLOSE_MARKER);
    if k.Some? {
      var e := EscapeBakedBody(markdown[k.value + |CLOSE_MARKER|..]);
      EscapedIsFree(markdown[k.value + |CLOSE_MARKER|..]);
      FreeBefore(markdown);
      FreeSpaced(e);
      SpacedShape();
      FreeSeam(markdown[..k.value], SPACED_MARKER + e);
      Assoc(markdown[..k.value], SPACED_MARKER, e);
    }
  }

  lemma {:induction false} TrimStartIsSlice(s: string) returns (a: nat)
    ensures a <= |s| && TrimStart(s) == s[a..]
    ensures forall i | 0 <= i < a :: IsSpace(s[i])
    ensures a < |s| ==> !IsSpace(s[a])
  {
    hide IsSpace;
    a := 0;
    if s != "" && IsSpace(s[0]) {
      var b := TrimStartIsSlice(s[1..]);
      a := b + 1;
      assert s[1..][b..] == s[a..];
      forall i | 0 <= i < a ensures IsSpace(s[i]) {
        if i > 0 { assert s[i] == s[1..][i - 1]; }
      }
    }
  }

  lemma {:induction false} TrimEndIsSlice(s: string) returns (b: nat)
    ensures b <= |s| && TrimEnd(s) == s[..b]
    ensures forall i | b <= i < |s| :: IsSpace(s[i])
    ensures b > 0 ==> !IsSpace(s[b - 1])
  {
    hide IsSpace;
    b := |s|;
    if s != "" && IsSpace(s[|s| - 1]) {
      b := TrimEndIsSlice(s[..|s| - 1]);
      assert s[..|s| - 1][..b] == s[..b];
    }
  }

  lemma {:induction false} TrimIsSlice(s: string) returns (a: nat, b: nat)
    ensures a <= b <= |s| && Trim(s) == s[a..b]
    ensures forall i | 0 <= i < a || b <= i < |s| :: IsSpace(s[i])
  {
    a := TrimStartIsSlice(s);
    var c := TrimEndIsSlice(s[a..]);
    b := a + c;
    assert s[a..][..c] == s[a..b];
    hide IsSpace, TrimStart, TrimEnd;
    forall i | 0 <= i < a || b <= i < |s| ensures IsSpace(s[i]) {
      if i >= b { assert s[i] == s[a..][i - a]; }
    }
  }

  /** So no evaluation can write a body that ends its section early. */
  lemma NewBodyIsFree(markdown: string)
    ensures Free(NewBody(markdown))
  {
    EscapedIsFree(markdown);
    var e := EscapeBakedBody(markdown);
    var a, b := TrimIsSlice(e);
    FreeSlice(e, a, b);
    CloseShape();
    hide Free, CLOSE_MARKER, Trim, EscapeBakedBody;
    var t, s := Trim(e), NewBody(markdown);
    forall j: nat ensures !Occurs(s, CLOSE_MARKER, j) {
      if Occurs(s, CLOSE_MARKER, j) {
        Letter(s, CLOSE_MARKER, j, 0);
        Letter(s, CLOSE_MARKER, j, 10);
        assert t[j - 1..j - 1 + 11] == s[j..j + 11];
        FreeHasNone(t, j - 1);
      }
    }
    FreeIf(s);
  }

  /** A body without a closing marker ends where its section's marker begins. */
  lemma {:induction false} FindClose(body: string, rest: string)
    requires Free(body)
    ensures Find(body + CLOSE_MARKER + rest, CLOSE_MARKER) == Some(|body|)
  {
    CloseShape();
    hide Free, CLOSE_MARKER, Find;
    var t := CLOSE_MARKER + rest;
    Assoc(body, CLOSE_MARKER, rest);
    forall j: nat | j < |body| ensures !Occurs(body + t, CLOSE_MARKER, j) {
      if Occurs(body + t, CLOSE_MARKER, j) {
        SeamOccurs(body, t, j);
        FreeHasNone(body, j);
      }
    }
    assert (body + t)[|body|..|body| + 11] == CLOSE_MARKER;
    FindExactly(body + t, CLOSE_MARKER, |body|);
  }

  /** Searching sees nothing past what it finds. */
  lemma {:induction false} FindLocal(s: string, p: string, x: string)
    requires Find(s, p).Some?
    ensures Find(s[..Find(s, p).value + |p|] + x, p) == Find(s, p)
  {
    hide Find;
    var b := Find(s, p).value + |p|;
    PrefixLocal(s, p, b, x);
    if !(p <= s) {
      if s == "" {
        FindEmpty(p);
        assert false;
      }
      FindPast(s, p);
      FindLocal(s[1..], p, x);
      TailLocal(s, b, x);
      FindPast(s[..b] + x, p);
    } else {
      FindHere(s, p);
      FindHere(s[..b] + x, p);
    }
  }

  lemma FindEmpty(p: string)
    requires p != ""
    ensures Find("", p).None?
  {
  }

  lemma {:induction false} FindPast(s: string, p: string)
    requires s != "" && !(p <= s)
    ensures var r := Find(s[1..], p); Find(s, p) == if r.Some? then Some(r.value + 1) else None
  {
  }

  lemma PrefixLocal(s: string, p: string, b: nat, x: string)
    requires |p| <= b <= |s|
    ensures p <= s <==> p <= s[..b] + x
  {
    var t := s[..b] + x;
    assert s[..|p|] == t[..|p|];
    if p <= s { assert p == s[..|p|]; }
    if p <= t { assert p == t[..|p|]; }
  }

  lemma TailLocal(s: string, b: nat, x: string)
    requires 1 <= b <= |s|
    ensures (s[..b] + x)[1..] == s[1..][..b - 1] + x
  {
  }

  lemma {:induction false} OpenAtLocal(s: string, x: string)
    requires OpenAt(s).Some?
    ensures OpenAt(s[..OpenAt(s).value] + x) == OpenAt(s)
  {
    hide IsSpace, Find;
    var n := OpenAt(s).value;
    var t := s[..n] + x;
    FindLocal(s[9..], OPEN_END, x);
    assert s[..n][9..] == s[9..][..n - 9];
    assert t[9..] == s[9..][..n - 9] + x;
    assert t[..8] == s[..8];
  }

  lemma {:induction false} FreeOfOpen(s: string, b: nat, x: string)
    requires OpenAt(s).None? && 12 <= b <= |s| && Find(s[9..], OPEN_END).Some?
    ensures OpenAt(s[..b] + x).None?
  {
    hide IsSpace, Find;
    var t := s[..b] + x;
    assert t[..8] == s[..8] && t[8] == s[8];
  }

  /** The opening marker found depends on the text up to its own end only. */
  lemma {:induction false} FindOpenLocal(s: string, x: string)
    requires FindOpen(s).Some?
    ensures var o := FindOpen(s).value;
            FindOpen(s[..o.at + o.len] + x) == Some(o)
  {
    hide OpenAt, ExprOf;
    var o := FindOpen(s).value;
    var b := o.at + o.len;
    if OpenAt(s).Some? {
      OpenAtLocal(s, x);
    } else {
      FindOpenLocal(s[1..], x);
      TailLocal(s, b, x);
      OpenLater(s, x);
    }
  }

  /** Where no marker opens before an opening one, none does after a cut behind
      that one. */
  lemma {:induction false} OpenLater(s: string, x: string)
    requires OpenAt(s).None? && FindOpen(s).Some?
    ensures var o := FindOpen(s).value; OpenAt(s[..o.at + o.len] + x).None?
  {
    var o := FindOpen(s).value;
    var b := o.at + o.len;
    EndsInArrow(s);
    assert s[9..][b - 12..b - 12 + 3] == s[b - 3..b] by { hide *; }
    assert |OPEN_END| == 3 && OPEN_END != "";
    assert Occurs(s[9..], OPEN_END, b - 12);
    FindIsFirst(s[9..], OPEN_END, b - 12);
    FreeOfOpen(s, b, x);
  }

  lemma {:induction false} EndsInArrow(s: string)
    requires FindOpen(s).Some?
    ensures var o := FindOpen(s).value; s[o.at + o.len - 3..o.at + o.len] == OPEN_END
  {
    hide OpenAt, ExprOf, OPEN_END;
    var o := FindOpen(s).value;
    if OpenAt(s).Some? {
      OpenEndsInArrow(s);
    } else {
      EndsInArrow(s[1..]);
      SliceShift(s, 1, o.at - 1 + o.len - 3, o.at - 1 + o.len);
    }
  }

  lemma {:induction false} OpenEndsInArrow(s: string)
    requires OpenAt(s).Some?
    ensures s[OpenAt(s).value - 3..OpenAt(s).value] == OPEN_END
  {
    hide IsSpace, Find;
    SliceShift(s, 9, OpenAt(s).value - 12, OpenAt(s).value - 9);
  }

  /** The text `s` with every body evaluated, in one pass from the front. */
  function BakedText(s: string, n: nat, eval: Evaluator): string
    decreases |s|
  {
    var o := FindOpen(s);
    if o.None? then s
    else
      var bodyFrom := o.value.at + o.value.len;
      var k := Find(s[bodyFrom..], CLOSE_MARKER);
      if k.None? then s
      else
        var end := bodyFrom + k.value + |CLOSE_MARKER|;
        s[..bodyFrom] + BodyOf(ExprOf(s, o.value), s[bodyFrom..bodyFrom + k.value], n, eval) + CLOSE_MARKER +
        BakedText(s[end..], n + 1, eval)
  }

  /** The body a section gets: the new one, or its own when skipped. */
  function BodyOf(expr: string, body: string, n: nat, eval: Evaluator): string {
    match eval(n, expr)
    case Markdown(markdown) => NewBody(markdown)
    case Refused(_) => body
  }

  /** A text whose first section is `s[..at]`, expression and body known. */
  ghost predicate Splits(s: string, o: Open, body: string, rest: string) {
    && FindOpen(s) == Some(o) && o.len >= 12 && o.at + o.len <= |s|
    && Free(body)
    && s == s[..o.at + o.len] + body + CLOSE_MARKER + rest
  }

  /** Where the first section of a text lies, if it has one. */
  lemma {:induction false} Split(s: string) returns (o: Open, body: string, rest: string)
    requires FindOpen(s).Some?
    requires Find(s[FindOpen(s).value.at + FindOpen(s).value.len..], CLOSE_MARKER).Some?
    ensures Splits(s, o, body, rest)
  {
    hide FindOpen, Find, Free, CLOSE_MARKER;
    o := FindOpen(s).value;
    var b := o.at + o.len;
    var k := Find(s[b..], CLOSE_MARKER).value;
    FreeBefore(s[b..]);
    body, rest := s[b..][..k], s[b + k + |CLOSE_MARKER|..];
    SliceOfSlice(s, b, |s|, k, k + |CLOSE_MARKER|);
    assert s == s[..b] + s[b..b + k] + s[b + k..b + k + |CLOSE_MARKER|] + rest;
  }

  lemma SplitSlices(s: string, b: nat, body: string, c: string, rest: string)
    requires b <= |s| && s == s[..b] + body + c + rest
    ensures s[b..] == body + c + rest && s[b..b + |body|] == body
    ensures s[b + |body| + |c|..] == rest && s[b + |body|..b + |body| + |c|] == c
    ensures |rest| + b + |body| + |c| == |s|
  {
  }

  lemma {:induction false} SplitFacts(s: string, o: Open, body: string, rest: string)
    requires Splits(s, o, body, rest)
    ensures FindOpen(s) == Some(o) && o.len >= 12 && |s| == o.at + o.len + |body| + 11 + |rest|
    ensures Find(s[o.at + o.len..], CLOSE_MARKER) == Some(|body|)
    ensures s[o.at + o.len + |body| + 11..] == rest
  {
    CloseShape();
    hide FindOpen, Find, CLOSE_MARKER, Free;
    SplitSlices(s, o.at + o.len, body, CLOSE_MARKER, rest);
    FindClose(body, rest);
  }

  lemma {:induction false} ScanSplit(s: string, o: Open, body: string, rest: string, off: nat)
    requires Splits(s, o, body, rest)
    ensures o.len >= 12 && o.at + o.len <= |s|
    ensures Scan(s, off) == [SectionOf(s, o, |body|, off)] + Scan(rest, off + o.at + o.len + |body| + 11)
  {
    hide *;
    SplitFacts(s, o, body, rest);
    ScanFirst(s, off, o, |body|);
  }

  lemma {:induction false} BakedSplit(s: string, o: Open, body: string, rest: string, n: nat, eval: Evaluator)
    requires Splits(s, o, body, rest)
    ensures o.len >= 12 && o.at + o.len <= |s|
    ensures BakedText(s, n, eval) ==
            s[..o.at + o.len] + BodyOf(ExprOf(s, o), body, n, eval) + CLOSE_MARKER + BakedText(rest, n + 1, eval)
  {
    CloseShape();
    hide Splits, FindOpen, Find, Free, CLOSE_MARKER, ExprOf, BodyOf;
    SplitFacts(s, o, body, rest);
    SplitBody(s, o, body, rest);
  }

  lemma {:induction false} SplitBody(s: string, o: Open, body: string, rest: string)
    requires Splits(s, o, body, rest)
    ensures |body| <= |s| - o.at - o.len && s[o.at + o.len..o.at + o.len + |body|] == body
    ensures s == s[..o.at + o.len] + body + CLOSE_MARKER + rest
  {
    hide FindOpen, Free, CLOSE_MARKER;
    SplitSlices(s, o.at + o.len, body, CLOSE_MARKER, rest);
  }

  /** Without a closing marker there is no section. */
  lemma {:induction false} FreeScan(s: string, off: nat)
    requires Free(s)
    ensures Scan(s, off) == []
    decreases |s|
  {
    hide FindOpen, ExprOf, Find, CLOSE_MARKER;
    var o := FindOpen(s);
    if o.Some? {
      var b := o.value.at + o.value.len;
      FreeSlice(s, b, |s|);
      assert s[b..|s|] == s[b..];
      FreeScan(s[b..], off + b);
    }
  }

  /** The first section of the baked text: same marker and expression. */
  lemma {:induction false} SplitsBaked(s: string, o: Open, body: string, rest: string, body': string, rest': string)
    requires Splits(s, o, body, rest) && Free(body')
    ensures var t := s[..o.at + o.len] + body' + CLOSE_MARKER + rest';
            Splits(t, o, body', rest') && ExprOf(t, o) == ExprOf(s, o) && t[..o.at + o.len] == s[..o.at + o.len]
  {
    hide *;
    SplitFacts(s, o, body, rest);
    var b := o.at + o.len;
    var x := body' + CLOSE_MARKER + rest';
    var t := s[..b] + body' + CLOSE_MARKER + rest';
    Assoc3(s[..b], body', CLOSE_MARKER, rest');
    FindOpenLocal(s, x);
    Take(s, b, x, o.at + 9, b - 3);
    SameExpr(s, t, o);
    SplitsIf(t, o, body', rest');
  }

  lemma SameExpr(s: string, t: string, o: Open)
    requires o.len >= 12 && o.at + o.len <= |s| && o.at + o.len <= |t|
    requires t[o.at + 9..o.at + o.len - 3] == s[o.at + 9..o.at + o.len - 3]
    ensures ExprOf(t, o) == ExprOf(s, o)
  {
    hide Trim;
  }

  lemma SplitsIf(s: string, o: Open, body: string, rest: string)
    requires FindOpen(s) == Some(o) && o.len >= 12 && o.at + o.len <= |s| && Free(body)
    requires s == s[..o.at + o.len] + body + CLOSE_MARKER + rest
    ensures Splits(s, o, body, rest)
  {
    hide FindOpen, Free, CLOSE_MARKER;
  }

  lemma Assoc3(a: string, b: string, c: string, d: string)
    ensures a + b + c + d == a + (b + c + d)
  {
  }

  lemma Take(s: string, b: nat, x: string, i: nat, j: nat)
    requires i <= j <= b <= |s|
    ensures (s[..b] + x)[..b] == s[..b] && (s[..b] + x)[i..j] == s[i..j]
  {
  }

  lemma BodyOfIsFree(expr: string, body: string, n: nat, eval: Evaluator)
    requires Free(body)
    ensures Free(BodyOf(expr, body, n, eval))
  {
    hide Free, NewBody;
    match eval(n, expr)
    case Markdown(markdown) => NewBodyIsFree(markdown);
    case Refused(_) =>
  }

  function ExprsOf(sections: seq<BakedSection>): seq<string> {
    if sections == [] then [] else [sections[0].expr] + ExprsOf(sections[1..])
  }

  /** `text[a..b]`, empty for a range the text does not have. */
  function Cut(text: string, a: nat, b: nat): string {
    if a <= b <= |text| then text[a..b] else ""
  }

  function BodiesOf(text: string, sections: seq<BakedSection>): seq<string> {
    if sections == [] then []
    else [Cut(text, sections[0].bodyFrom, sections[0].bodyTo)] + BodiesOf(text, sections[1..])
  }

  /** The text from `at` on without the bodies: up to the end of each opening
      marker, each closing marker, and what follows the last one. */
  function Outside(text: string, sections: seq<BakedSection>, at: nat): seq<string> {
    if sections == [] then [Cut(text, at, |text|)]
    else
      var s := sections[0];
      [Cut(text, at, s.bodyFrom), Cut(text, s.bodyTo, s.end)] + Outside(text, sections[1..], s.end)
  }

  /** The bodies after a run of evaluations. */
  function Renewed(exprs: seq<string>, bodies: seq<string>, n: nat, eval: Evaluator): seq<string>
    requires |exprs| == |bodies|
  {
    if exprs == [] then []
    else [BodyOf(exprs[0], bodies[0], n, eval)] + Renewed(exprs[1..], bodies[1..], n + 1, eval)
  }

  /** Each section after the one before, its parts in order, inside the text. */
  ghost predicate InOrder(sections: seq<BakedSection>, at: nat, length: nat) {
    if sections == [] then at <= length
    else
      var s := sections[0];
      at <= s.start < s.bodyFrom <= s.bodyTo < s.end && InOrder(sections[1..], s.end, length)
  }

  lemma {:induction false} ListsMatch(text: string, sections: seq<BakedSection>)
    ensures |ExprsOf(sections)| == |BodiesOf(text, sections)| == |sections|
  {
    if sections != [] { ListsMatch(text, sections[1..]); }
  }

  /** Either a text has no section, or it starts with one. */
  lemma {:induction false} NoneOrSplit(s: string) returns (none: bool, o: Open, body: string, rest: string)
    ensures !none ==> Splits(s, o, body, rest) && |rest| < |s|
    ensures none ==> (forall off: nat :: Scan(s, off) == [])
    ensures none ==> (forall n: nat, eval :: BakedText(s, n, eval) == s)
  {
    hide Find, FindOpen, ExprOf, CLOSE_MARKER, BodyOf;
    none := true;
    o, body, rest := Open(0, 0), "", "";
    if FindOpen(s).Some? {
      var b := FindOpen(s).value.at + FindOpen(s).value.len;
      if Find(s[b..], CLOSE_MARKER).Some? {
        o, body, rest := Split(s);
        none := false;
      } else {
        forall off: nat ensures Scan(s, off) == [] {
          FreeScan(s[b..], off + b);
        }
      }
    }
  }

  /** Sections in order, whatever precedes the text. */
  lemma {:induction false} ScanInOrder(s: string, off: nat)
    ensures InOrder(Scan(s, off), off, off + |s|)
    decreases |s|
  {
    hide Scan, Splits, ExprOf;
    var none, o, body, rest := NoneOrSplit(s);
    if !none {
      ScanSplit(s, o, body, rest, off);
      SplitFacts(s, o, body, rest);
      ScanInOrder(rest, off + o.at + o.len + |body| + 11);
    }
  }

  /** Baking keeps the sections and their expressions. */
  lemma {:induction false} BakedExprs(s: string, off: nat, off': nat, n: nat, eval: Evaluator)
    ensures ExprsOf(Scan(BakedText(s, n, eval), off')) == ExprsOf(Scan(s, off))
    decreases |s|
  {
    hide Scan, BakedText, ExprOf, BodyOf, CLOSE_MARKER;
    var none, o, body, rest := NoneOrSplit(s);
    if !none {
      var t, body', rest' := BakedSplits(s, o, body, rest, n, eval);
      ScanSplit(s, o, body, rest, off);
      ScanSplit(t, o, body', rest', off');
      hide Splits;
      BakedExprs(rest, off + o.at + o.len + |body| + 11, off' + o.at + o.len + |body'| + 11, n + 1, eval);
    }
  }

  /** The baked text split like the text it comes from. */
  lemma {:induction false} BakedSplits(s: string, o: Open, body: string, rest: string, n: nat, eval: Evaluator)
      returns (t: string, body': string, rest': string)
    requires Splits(s, o, body, rest)
    ensures t == BakedText(s, n, eval) && rest' == BakedText(rest, n + 1, eval)
    ensures body' == BodyOf(ExprOf(s, o), body, n, eval)
    ensures Splits(t, o, body', rest') && ExprOf(t, o) == ExprOf(s, o) && t[..o.at + o.len] == s[..o.at + o.len]
  {
    hide FindOpen, Free, CLOSE_MARKER, ExprOf, BodyOf, BakedText;
    t, rest', body' := BakedText(s, n, eval), BakedText(rest, n + 1, eval), BodyOf(ExprOf(s, o), body, n, eval);
    BakedSplit(s, o, body, rest, n, eval);
    BodyOfIsFree(ExprOf(s, o), body, n, eval);
    SplitsBaked(s, o, body, rest, body', rest');
  }

  /** The parts of a text whose first section is known. */
  lemma {:induction false} PartsSplit(pre: string, s: string, o: Open, body: string,
                                      rest: string) returns (next: string)
    requires Splits(s, o, body, rest)
    ensures o.at + o.len <= |s|
    ensures pre + s == next + rest && |next| == |pre| + o.at + o.len + |body| + 11
    ensures BodiesOf(pre + s, Scan(s, |pre|)) == [body] + BodiesOf(next + rest, Scan(rest, |next|))
    ensures Outside(pre + s, Scan(s, |pre|), |pre|) ==
            [s[..o.at + o.len], CLOSE_MARKER] + Outside(next + rest, Scan(rest, |next|), |next|)
  {
    CloseShape();
    hide Splits, FindOpen, Free, CLOSE_MARKER, ExprOf, Scan;
    ScanSplit(s, o, body, rest, |pre|);
    SplitBody(s, o, body, rest);
    var b := o.at + o.len;
    next := pre + s[..b] + body + CLOSE_MARKER;
    Behind(pre, s[..b], body, CLOSE_MARKER, rest);
    PartsFirst(pre + s, SectionOf(s, o, |body|, |pre|), Scan(rest, |next|), |pre|);
  }

  lemma {:induction false} PartsFirst(text: string, section: BakedSection, rest: seq<BakedSection>, at: nat)
    ensures BodiesOf(text, [section] + rest) == [Cut(text, section.bodyFrom, section.bodyTo)] + BodiesOf(text, rest)
    ensures Outside(text, [section] + rest, at) ==
            [Cut(text, at, section.bodyFrom), Cut(text, section.bodyTo, section.end)] + Outside(text, rest, section.end)
  {
    hide Cut;
    assert ([section] + rest)[1..] == rest;
  }

  lemma {:induction false} Behind(pre: string, a: string, body: string, c: string, rest: string)
    ensures var t := pre + (a + body + c + rest);
            var i, j, k := |pre| + |a|, |pre| + |a| + |body|, |pre| + |a| + |body| + |c|;
            && t == pre + a + body + c + rest && k <= |t|
            && t[|pre|..i] == a && t[i..j] == body && t[j..k] == c
  {
  }

  lemma {:induction false} LastPart(pre: string, s: string)
    ensures Outside(pre + s, [], |pre|) == [s]
  {
    assert (pre + s)[|pre|..|pre + s|] == s;
  }

  /** Baking keeps every character outside the bodies. */
  lemma {:induction false} BakedOutside(pre: string, s: string, pre': string, n: nat, eval: Evaluator)
    ensures var t := BakedText(s, n, eval);
            Outside(pre' + t, Scan(t, |pre'|), |pre'|) == Outside(pre + s, Scan(s, |pre|), |pre|)
    decreases |s|
  {
    hide Scan, BakedText, ExprOf, BodyOf, CLOSE_MARKER;
    var none, o, body, rest := NoneOrSplit(s);
    if none {
      LastPart(pre, s);
      LastPart(pre', s);
    } else {
      var t, body', rest' := BakedSplits(s, o, body, rest, n, eval);
      hide Outside;
      var next := PartsSplit(pre, s, o, body, rest);
      var next' := PartsSplit(pre', t, o, body', rest');
      BakedOutside(next, rest, next', n + 1, eval);
    }
  }

  /** Baking gives every section the body its expression evaluates to, and
      keeps the body of one it skips. */
  lemma {:induction false} BakedBodies(pre: string, s: string, pre': string, n: nat, eval: Evaluator)
    ensures var t := BakedText(s, n, eval);
            && |ExprsOf(Scan(s, |pre|))| == |BodiesOf(pre + s, Scan(s, |pre|))|
            && BodiesOf(pre' + t, Scan(t, |pre'|)) ==
               Renewed(ExprsOf(Scan(s, |pre|)), BodiesOf(pre + s, Scan(s, |pre|)), n, eval)
    decreases |s|
  {
    hide *;
    ListsMatch(pre + s, Scan(s, |pre|));
    var none, o, body, rest := NoneOrSplit(s);
    if none {
      assert Scan(s, |pre|) == [] && Scan(s, |pre'|) == [];
      NoBodies(pre + s, pre' + s, n, eval);
    } else {
      var t, body', rest' := BakedSplits(s, o, body, rest, n, eval);
      ScanSplit(s, o, body, rest, |pre|);
      var next := PartsSplit(pre, s, o, body, rest);
      var next' := PartsSplit(pre', t, o, body', rest');
      BakedBodies(next, rest, next', n + 1, eval);
      SectionOfIs(s, o, |body|, |pre|);
      ExprsOfMore(SectionOf(s, o, |body|, |pre|), Scan(rest, |next|));
      var es := ExprsOf(Scan(rest, |next|));
      RenewedCons(ExprOf(s, o), es, body, BodiesOf(next + rest, Scan(rest, |next|)), n, eval);
    }
  }

  lemma NoBodies(text: string, text': string, n: nat, eval: Evaluator)
    ensures BodiesOf(text, []) == [] == BodiesOf(text', []) && ExprsOf([]) == [] && Renewed([], [], n, eval) == []
  {
  }

  lemma ExprsOfMore(section: BakedSection, rest: seq<BakedSection>)
    ensures ExprsOf([section] + rest) == [section.expr] + ExprsOf(rest)
  {
  }

  lemma {:induction false} RenewedCons(e: string, es: seq<string>, b: string, bs: seq<string>, n: nat, eval: Evaluator)
    requires |es| == |bs|
    ensures Renewed([e] + es, [b] + bs, n, eval) == [BodyOf(e, b, n, eval)] + Renewed(es, bs, n + 1, eval)
  {
    hide BodyOf;
    assert ([e] + es)[1..] == es && ([b] + bs)[1..] == bs;
  }

  /** With evaluations that stay the same, the second time changes nothing. */
  lemma {:induction false} BakedTwice(s: string, n: nat, eval: Evaluator)
    ensures BakedText(BakedText(s, n, eval), n, eval) == BakedText(s, n, eval)
    decreases |s|
  {
    hide BakedText, ExprOf, NewBody, CLOSE_MARKER, Free, FindOpen;
    var none, o, body, rest := NoneOrSplit(s);
    if !none {
      var t, body', rest' := BakedSplits(s, o, body, rest, n, eval);
      BakedTwice(rest, n + 1, eval);
      BakedSplit(t, o, body', rest', n, eval);
    }
  }

  /** Replacing from the back is the one pass from the front. */
  lemma {:induction false} BackToFront(pre: string, s: string, n: nat, eval: Evaluator)
    ensures ApplyBack(pre + s, EditsOf(Scan(s, |pre|), n, eval)) == pre + BakedText(s, n, eval)
    decreases |s|
  {
    hide *;
    var none, o, body, rest := NoneOrSplit(s);
    if none {
      NoEdits(pre + s, n, eval);
    } else {
      CloseShape();
      ScanSplit(s, o, body, rest, |pre|);
      BakedSplit(s, o, body, rest, n, eval);
      SplitBody(s, o, body, rest);
      var a, body' := s[..o.at + o.len], BodyOf(ExprOf(s, o), body, n, eval);
      var next := pre + a + body + CLOSE_MARKER;
      Behind(pre, a, body, CLOSE_MARKER, rest);
      BackToFront(next, rest, n + 1, eval);
      FirstEdit(pre + s, SectionOf(s, o, |body|, |pre|), Scan(rest, |next|), body, n, eval);
      SectionOfIs(s, o, |body|, |pre|);
      var u := BakedText(rest, n + 1, eval);
      SpliceBody(pre, a, body, body', CLOSE_MARKER, u);
      Behind(pre, a, body, CLOSE_MARKER, u);
    }
  }

  lemma SectionOfIs(s: string, o: Open, k: nat, off: nat)
    requires o.len >= 12 && o.at + o.len <= |s|
    ensures var c := SectionOf(s, o, k, off);
            c.expr == ExprOf(s, o) && c.bodyFrom == off + o.at + o.len && c.bodyTo == off + o.at + o.len + k
  {
    hide ExprOf;
  }

  lemma NoEdits(text: string, n: nat, eval: Evaluator)
    ensures ApplyBack(text, EditsOf([], n, eval)) == text
  {
  }

  /** The edit of the first section comes last; a skipped section has none. */
  lemma {:induction false} FirstEdit(text: string, section: BakedSection, rest: seq<BakedSection>, body: string,
                                     n: nat, eval: Evaluator)
    ensures var body', done := BodyOf(section.expr, body, n, eval), ApplyBack(text, EditsOf(rest, n + 1, eval));
            ApplyBack(text, EditsOf([section] + rest, n, eval)) ==
            Splice(done, BodyEdit(section.bodyFrom, section.bodyTo, body')) ||
            (body' == body && ApplyBack(text, EditsOf([section] + rest, n, eval)) == done)
  {
    hide Splice, NewBody;
    var es := EditsOf(rest, n + 1, eval);
    assert ([section] + rest)[1..] == rest;
    match eval(n, section.expr)
    case Markdown(markdown) =>
      var e := BodyEdit(section.bodyFrom, section.bodyTo, NewBody(markdown));
      assert ([e] + es)[1..] == es;
    case Refused(_) =>
  }

  lemma {:induction false} SpliceBody(pre: string, a: string, body: string, body': string, c: string, u: string)
    ensures var e := BodyEdit(|pre + a|, |pre + a| + |body|, body');
            Splice(pre + a + body + c + u, e) == pre + (a + body' + c + u)
    ensures pre + a + body + c + u == pre + (a + body + c + u)
  {
    Around(pre + a, body, c + u);
    Assoc(pre + a + body, c, u);
    Assoc(pre + a + body', c, u);
    Regroup(pre, a, body', c, u);
    Regroup(pre, a, body, c, u);
  }

  lemma Regroup(pre: string, a: string, b: string, c: string, u: string)
    ensures pre + a + b + c + u == pre + (a + b + c + u)
  {
  }

  lemma Around(p: string, body: string, v: string)
    ensures (p + body + v)[..|p|] == p && (p + body + v)[|p| + |body|..] == v
  {
  }

  /** Baking a text keeps its sections, their expressions and every character
      outside the bodies; each body is the one evaluated, or the old one. */
  lemma RebakingKeepsStructure(text: string, eval: Evaluator)
    ensures var t := Baked(text, eval); var before, after := Scan(text, 0), Scan(t, 0);
            && InOrder(before, 0, |text|) && InOrder(after, 0, |t|)
            && ExprsOf(after) == ExprsOf(before)
            && Outside(t, after, 0) == Outside(text, before, 0)
            && |ExprsOf(before)| == |BodiesOf(text, before)|
            && BodiesOf(t, after) == Renewed(ExprsOf(before), BodiesOf(text, before), 0, eval)
  {
    hide *;
    assert "" + text == text;
    BackToFront("", text, 0, eval);
    BakedIsBakedText(text, eval);
    var t := BakedText(text, 0, eval);
    assert "" + t == t;
    ScanInOrder(text, 0);
    ScanInOrder(t, 0);
    BakedExprs(text, 0, 0, 0, eval);
    BakedOutside("", text, "", 0, eval);
    BakedBodies("", text, "", 0, eval);
  }

  lemma BakedIsBakedText(text: string, eval: Evaluator)
    ensures Baked(text, eval) == BakedText(text, 0, eval)
  {
    assert "" + text == text && "" + BakedText(text, 0, eval) == BakedText(text, 0, eval);
    BackToFront("", text, 0, eval);
  }

  /** With a fixed evaluator, baking twice is baking once. */
  lemma RebakingSettles(text: string, eval: Evaluator)
    ensures Baked(Baked(text, eval), eval) == Baked(text, eval)
  {
    hide *;
    BakedIsBakedText(text, eval);
    BakedIsBakedText(BakedText(text, 0, eval), eval);
    BakedTwice(text, 0, eval);
  }
}
