/** Baking a directive and unbaking the section it became. */
module BakeRoundTrip {
  import opened Sequences
  import opened Text
  import opened BakedSections
  import opened Bake
  import opened BakeLaws

  lemma PrefixShape()
    ensures |OPEN_PREFIX| == 8 && OPEN_PREFIX[0] == '<' && forall i | 0 < i < 8 :: OPEN_PREFIX[i] != '<'
    ensures IsSpace(' ')
  {
  }

  lemma ArrowShape()
    ensures |OPEN_END| == 3 && OPEN_END[0] == '-' && OPEN_END[2] == '>'
    ensures forall i | 0 <= i < 3 :: !IsSpace(OPEN_END[i])
  {
  }

  /** Nothing opens in front of a `<` when nothing could in the text before. */
  lemma {:induction false} OpensBehind(pre: string, s: string)
    requires Find(pre, OPEN_PREFIX).None? && s != "" && s[0] == '<' && FindOpen(s).Some?
    ensures var o := FindOpen(s).value; FindOpen(pre + s) == Some(Open(|pre| + o.at, o.len))
  {
    PrefixShape();
    if pre == "" {
      assert pre + s == s;
    } else {
      assert (pre + s)[1..] == pre[1..] + s;
      assert Find(pre[1..], OPEN_PREFIX).None?;
      OpensBehind(pre[1..], s);
      NotAtSeam(pre, s);
      hide OpenAt, Find, OPEN_PREFIX;
    }
  }

  lemma {:induction false} NotAtSeam(pre: string, s: string)
    requires pre != "" && Find(pre, OPEN_PREFIX).None? && s != "" && s[0] == '<'
    ensures OpenAt(pre + s).None?
  {
    PrefixShape();
    hide Find, OPEN_PREFIX, IsSpace;
    if |pre| < 8 {
      PrefixLetter(pre + s, OPEN_PREFIX, |pre|);
    } else {
      PrefixWithin(pre, s, OPEN_PREFIX);
      FindHereIf(pre, OPEN_PREFIX);
    }
  }

  lemma PrefixLetter(s: string, p: string, i: nat)
    requires i < |p|
    ensures p <= s ==> i < |s| && s[i] == p[i]
  {
  }

  lemma PrefixWithin(s: string, x: string, p: string)
    requires |p| <= |s|
    ensures p <= s + x ==> p <= s
  {
    assert (s + x)[..|p|] == s[..|p|];
  }

  lemma FindHereIf(s: string, p: string)
    ensures p <= s ==> Find(s, p) == Some(0)
  {
  }

  lemma {:induction false} TrimStartPadded(e: string)
    ensures TrimStart(e + " ") == if TrimStart(e) == "" then "" else TrimStart(e) + " "
  {
    PrefixShape();
    hide IsSpace;
    if e == "" {
      assert e + " " == " ";
      assert " "[1..] == "";
    } else if IsSpace(e[0]) {
      assert (e + " ")[1..] == e[1..] + " ";
      TrimStartPadded(e[1..]);
    }
  }

  lemma {:induction false} TrimPadded(e: string)
    ensures Trim(e + " ") == Trim(e)
  {
    PrefixShape();
    TrimStartPadded(e);
    var x := TrimStart(e);
    hide IsSpace, TrimStart;
    if x != "" {
      assert (x + " ")[..|x + " "| - 1] == x;
    }
  }

  /** The padded end of a marker is its first `-->` unless the expression holds
      one itself. */
  lemma ArrowAfter(e: string, rest: string)
    requires Find(e, OPEN_END).None?
    ensures Find(e + " -->" + rest, OPEN_END) == Some(|e| + 1)
  {
    ArrowShape();
    var t := e + " -->" + rest;
    assert t[|e| + 1..|e| + 4] == OPEN_END;
    hide Find, OPEN_END, IsSpace;
    forall j: nat | j < |e| + 1 ensures !Occurs(t, OPEN_END, j) {
      if Occurs(t, OPEN_END, j) {
        if j + 3 <= |e| {
          assert e[j..j + 3] == t[j..j + 3];
          FindIsFirst(e, OPEN_END, j);
        } else {
          Letter(t, OPEN_END, j, |e| - j);
          assert t[|e|] == ' ';
          PrefixShape();
        }
      }
    }
    FindExactly(t, OPEN_END, |e| + 1);
  }

  lemma FindWithin(s: string, p: string)
    requires Find(s, p).Some?
    ensures Find(s, p).value + |p| <= |s|
  {
  }

  lemma CutAnywhere(s: string, t: string, n: nat)
    requires n <= |s|
    ensures s + t == s[..n] + (s[n..] + t)
  {
  }

  lemma ArrowInside(e: string, rest: string)
    requires Find(e, OPEN_END).Some?
    ensures Find(e + rest, OPEN_END) == Find(e, OPEN_END)
  {
    hide *;
    var k := Find(e, OPEN_END).value;
    FindWithin(e, OPEN_END);
    var n := k + |OPEN_END|;
    CutAnywhere(e, rest, n);
    FindLocal(e, OPEN_END, e[n..] + rest);
  }

  /** The marker of a baked directive, and the length of its expression part. */
  function ArrowAt(expr: string): (k: nat)
    ensures Find(expr, OPEN_END).Some? ==> k + 3 <= |expr|
  {
    var k := Find(expr, OPEN_END);
    if k.Some? then k.value else |expr| + 1
  }

  lemma LeadOpens(s: string, k: nat)
    requires OPEN_PREFIX <= s && |s| > 8 && s[8] == ' ' && Find(s[9..], OPEN_END) == Some(k)
    ensures FindOpen(s) == Some(Open(0, 12 + k)) && 12 + k <= |s|
  {
    PrefixShape();
    ArrowShape();
    hide Find, OPEN_PREFIX, OPEN_END, IsSpace;
  }

  lemma Lead(y: string)
    ensures var s := "<!--#lua " + y; OPEN_PREFIX <= s && |s| == 9 + |y| && s[8] == ' ' && s[9..] == y
  {
    var s := "<!--#lua " + y;
    assert s[..8] == OPEN_PREFIX;
  }

  /** The part of the expression its marker holds. */
  function Used(expr: string): string {
    if Find(expr, OPEN_END).Some? then expr[..ArrowAt(expr)] else expr
  }

  lemma MarkerText(expr: string, rest: string)
    ensures var y := expr + " -->" + rest;
            && Find(y, OPEN_END) == Some(ArrowAt(expr)) && ArrowAt(expr) + 3 <= |y|
            && Trim(y[..ArrowAt(expr)]) == Trim(Used(expr))
  {
    ArrowShape();
    var y, k := expr + " -->" + rest, ArrowAt(expr);
    if Find(expr, OPEN_END).Some? {
      ArrowInside(expr, " -->" + rest);
      hide Trim, Find, OPEN_END;
      Assoc(expr, " -->", rest);
      assert y[..k] == expr[..k];
    } else {
      ArrowAfter(expr, rest);
      TrimPadded(expr);
      hide Trim, Find, OPEN_END;
      assert y[..k] == expr + " ";
    }
  }

  lemma LeadShifted(s: string, y: string, k: nat)
    requires |s| == 9 + |y| && s[9..] == y && k + 3 <= |y|
    ensures s[12 + k..] == y[k + 3..] && s[9..9 + k] == y[..k]
  {
  }

  /** The opening marker of a baked directive and the expression it names. */
  lemma OpensReplacement(expr: string, rest: string) returns (s: string, o: Open)
    ensures s == "<!--#lua " + (expr + " -->" + rest) && o == Open(0, 12 + ArrowAt(expr))
    ensures FindOpen(s) == Some(o) && o.len <= |s| && s[o.len..] == AfterMarker(expr, rest)
    ensures ExprOf(s, o) == Trim(Used(expr)) && s[0] == '<'
  {
    PrefixShape();
    hide Trim, Find, IsSpace, AfterMarker, Used, ArrowAt, FindOpen, OPEN_PREFIX, OPEN_END;
    var y, k := expr + " -->" + rest, ArrowAt(expr);
    s, o := "<!--#lua " + y, Open(0, 12 + k);
    Lead(y);
    MarkerText(expr, rest);
    LeadOpens(s, k);
    LeadShifted(s, y, k);
    AfterMarkerIs(expr, rest);
  }

  /** What follows that marker. */
  function AfterMarker(expr: string, rest: string): string {
    if Find(expr, OPEN_END).Some? then expr[ArrowAt(expr) + 3..] + " -->" + rest else rest
  }

  lemma AfterMarkerIs(expr: string, rest: string)
    ensures var y := expr + " -->" + rest; ArrowAt(expr) + 3 <= |y| && y[ArrowAt(expr) + 3..] == AfterMarker(expr, rest)
  {
    ArrowShape();
    hide Find, OPEN_END;
    var y := expr + " -->" + rest;
    if Find(expr, OPEN_END).Some? {
      assert y == expr + (" -->" + rest);
    } else {
      assert |expr| + 4 == |expr + " -->"|;
    }
  }

  /** What a directive is replaced with, read from its marker on. */
  lemma Regrouped(pre: string, expr: string, body: string, post: string)
    ensures var rest := NewBody(body) + CLOSE_MARKER + post;
            pre + BakeReplacement(expr, body) + post == pre + ("<!--#lua " + (expr + " -->" + rest))
  {
    hide NewBody, CLOSE_MARKER;
    var lead, n := "<!--#lua ", NewBody(body);
    Regroup5(pre, lead, expr, " -->", n, CLOSE_MARKER, post);
  }

  lemma Regroup5(pre: string, a: string, b: string, c: string, d: string, e: string, post: string)
    ensures pre + (a + b + c + d + e) + post == pre + (a + (b + c + (d + e + post)))
  {
    assert a + b + c + d + e == a + (b + c + (d + e));
    assert b + c + (d + e) + post == b + c + (d + e + post);
    assert a + (b + c + (d + e)) + post == a + (b + c + (d + e + post));
  }

  lemma LiesInside(x: string, c: string, post: string)
    ensures Occurs(x + c + post, c, |x|)
  {
  }

  lemma SectionBehind(pre: string, s: string, n: nat, c: nat)
    requires Find(pre, OPEN_PREFIX).None? && s != "" && s[0] == '<' && FindOpen(s) == Some(Open(0, n)) && 12 <= n <= |s|
    requires Find(s[n..], CLOSE_MARKER) == Some(c)
    ensures var o := Open(|pre|, n); var end := |pre| + n + c + 11;
            && end <= |pre + s| && SectionOf(pre + s, o, c, 0).expr == ExprOf(s, Open(0, n))
            && Scan(pre + s, 0) == [SectionOf(pre + s, o, c, 0)] + Scan((pre + s)[end..], end)
  {
    hide *;
    ScanBehind(pre, s, n, c);
    SectionOfIs(pre + s, Open(|pre|, n), c, 0);
    ExprShifted(pre, s, n);
  }

  lemma ScanBehind(pre: string, s: string, n: nat, c: nat)
    requires Find(pre, OPEN_PREFIX).None? && s != "" && s[0] == '<' && FindOpen(s) == Some(Open(0, n)) && 12 <= n <= |s|
    requires Find(s[n..], CLOSE_MARKER) == Some(c)
    ensures var o := Open(|pre|, n); var end := |pre| + n + c + 11;
            && |pre| + n <= end <= |pre + s|
            && Scan(pre + s, 0) == [SectionOf(pre + s, o, c, 0)] + Scan((pre + s)[end..], end)
  {
    hide *;
    OpensBehind(pre, s);
    FindFits(s[n..], c);
    Behind(pre, s, n);
    ScanFirst(pre + s, 0, Open(|pre|, n), c);
  }

  lemma Behind(pre: string, s: string, n: nat)
    requires n <= |s|
    ensures (pre + s)[|pre| + n..] == s[n..]
  {
  }

  lemma FindFits(s: string, c: nat)
    requires Find(s, CLOSE_MARKER) == Some(c)
    ensures c + 11 <= |s|
  {
    CloseShape();
    hide CLOSE_MARKER;
  }

  lemma ExprShifted(pre: string, s: string, n: nat)
    requires 12 <= n <= |s|
    ensures ExprOf(pre + s, Open(|pre|, n)) == ExprOf(s, Open(0, n))
  {
    hide Trim;
    Shifted(pre, s, 9, n - 3);
  }

  lemma Shifted(pre: string, s: string, i: nat, j: nat)
    requires i <= j <= |s|
    ensures (pre + s)[|pre| + i..|pre| + j] == s[i..j] && (pre + s)[|pre| + i..] == s[i..]
  {
  }

  /** The first section of a baked directive, `c` the length of its body. */
  lemma FirstSection(pre: string, expr: string, body: string, post: string) returns (text: string, c: nat, end: nat)
    requires Find(pre, OPEN_PREFIX).None?
    ensures text == pre + BakeReplacement(expr, body) + post
    ensures end == |pre| + 12 + ArrowAt(expr) + c + 11 <= |pre| + |BakeReplacement(expr, body)| <= |text|
    ensures var o := Open(|pre|, 12 + ArrowAt(expr));
            && SectionOf(text, o, c, 0).expr == Trim(Used(expr))
            && Scan(text, 0) == [SectionOf(text, o, c, 0)] + Scan(text[end..], end)
    ensures Find(expr, OPEN_END).None? ==> end == |pre| + |BakeReplacement(expr, body)|
  {
    var rest := NewBody(body) + CLOSE_MARKER + post;
    text := pre + BakeReplacement(expr, body) + post;
    hide *;
    Regrouped(pre, expr, body, post);
    var s, o := OpensReplacement(expr, rest);
    c := BodyLength(expr, body, post);
    ReplacementLength(expr, body);
    SectionBehind(pre, s, o.len, c);
    end := |pre| + 12 + ArrowAt(expr) + c + 11;
    ArrowWithin(expr);
  }

  lemma ArrowWithin(expr: string)
    ensures Find(expr, OPEN_END).None? ==> ArrowAt(expr) == |expr| + 1
  {
  }

  lemma ReplacementLength(expr: string, body: string)
    ensures |BakeReplacement(expr, body)| == |expr| + |NewBody(body)| + 24
  {
    CloseShape();
    hide NewBody, CLOSE_MARKER;
  }

  /** The closing marker that ends the section a directive became. */
  lemma BodyLength(expr: string, body: string, post: string) returns (c: nat)
    ensures Find(AfterMarker(expr, NewBody(body) + CLOSE_MARKER + post), CLOSE_MARKER) == Some(c)
    ensures ArrowAt(expr) + 3 + c <= |expr| + 4 + |NewBody(body)|
    ensures Find(expr, OPEN_END).None? ==> c == |NewBody(body)|
  {
    CloseShape();
    NewBodyIsFree(body);
    FindClose(NewBody(body), post);
    hide CLOSE_MARKER, NewBody, Find, OPEN_END;
    if Find(expr, OPEN_END).Some? {
      var x := expr[ArrowAt(expr) + 3..] + " -->" + NewBody(body);
      LiesInside(x, CLOSE_MARKER, post);
      Regroup3(expr[ArrowAt(expr) + 3..] + " -->", NewBody(body), CLOSE_MARKER, post);
      FindIsFirst(x + CLOSE_MARKER + post, CLOSE_MARKER, |x|);
      c := Find(x + CLOSE_MARKER + post, CLOSE_MARKER).value;
    } else {
      c := |NewBody(body)|;
    }
  }

  lemma Regroup3(a: string, b: string, c: string, d: string)
    ensures a + (b + c + d) == a + b + c + d
  {
  }

  /** Trimming leaves an arrow where it is. */
  lemma TrimmedHasArrow(expr: string, k: nat)
    requires Occurs(expr, OPEN_END, k)
    ensures exists j: nat :: Occurs(Trim(expr), OPEN_END, j)
  {
    ArrowShape();
    hide Trim, IsSpace, OPEN_END;
    var a, b := TrimIsSlice(expr);
    Letter(expr, OPEN_END, k, 0);
    Letter(expr, OPEN_END, k, 2);
    SliceOfSlice(expr, a, b, k - a, k - a + 3);
    assert Occurs(Trim(expr), OPEN_END, k - a);
  }

  /** In front of the first arrow there is none. */
  lemma UsedHasNoArrow(expr: string, j: nat)
    requires Find(expr, OPEN_END).Some?
    ensures !Occurs(Trim(Used(expr)), OPEN_END, j)
  {
    ArrowShape();
    hide Trim, IsSpace, OPEN_END, Find;
    var k := ArrowAt(expr);
    var c, d := TrimIsSlice(Used(expr));
    if Occurs(Trim(Used(expr)), OPEN_END, j) {
      assert Used(expr)[c..d] == expr[c..d];
      SliceOfSlice(expr, c, d, j, j + 3);
      FindIsFirst(expr, OPEN_END, c + j);
    }
  }

  lemma TrimKeepsArrow(expr: string)
    requires Find(expr, OPEN_END).Some?
    ensures Trim(Used(expr)) != Trim(expr)
  {
    hide *;
    FoundOccurs(expr, OPEN_END);
    TrimmedHasArrow(expr, Find(expr, OPEN_END).value);
    var j: nat :| Occurs(Trim(expr), OPEN_END, j);
    UsedHasNoArrow(expr, j);
  }

  lemma FoundOccurs(s: string, p: string)
    requires Find(s, p).Some?
    ensures Occurs(s, p, Find(s, p).value)
  {
  }

  /** Sections behind the first start behind it. */
  lemma {:induction false} SectionAtBehind(sections: seq<BakedSection>, at: nat, length: nat, cursor: nat)
    requires InOrder(sections, at, length)
    ensures var r := SectionAt(sections, cursor); r.Some? ==> at <= r.value.start
  {
    if sections != [] && SectionAt(sections, cursor) != Some(sections[0]) {
      SectionAtBehind(sections[1..], sections[0].end, length, cursor);
    }
  }

  /** The replacement starts with `<` and ends with `>`. */
  lemma ReplacementEnds(expr: string, body: string)
    ensures var r := BakeReplacement(expr, body); r != "" && r[0] == '<' && r[|r| - 1] == '>'
  {
    CloseShape();
    hide NewBody, CLOSE_MARKER;
  }

  lemma SpliceIn(pre: string, r: string, post: string, end: nat, insert: string)
    requires |pre| <= end <= |pre| + |r|
    ensures Splice(pre + r + post, BodyEdit(|pre|, end, insert)) == pre + insert + (r[end - |pre|..] + post)
  {
    var text := pre + r + post;
    assert text[..|pre|] == pre;
    assert text[end..] == r[end - |pre|..] + post;
  }

  /** A directive put back short, or followed by the rest of the section, is
      not the directive. */
  lemma DirectivesDiffer(pre: string, a: string, b: string, w: string, post: string)
    requires a != b && (w != "" ==> w[|w| - 1] == '>')
    ensures pre + ("${" + a + "}") + (w + post) != pre + ("${" + b + "}") + post
  {
    var x, y := "${" + a + "}", "${" + b + "}";
    assert x[2..|x| - 1] == a && y[2..|y| - 1] == b && y[|y| - 1] == '}';
    if w == "" {
      assert x + w == x;
    } else {
      assert (x + w)[|x + w| - 1] == '>';
    }
    CancelIf(pre, x, w, y, post);
  }

  lemma CancelIf(pre: string, x: string, w: string, y: string, post: string)
    ensures pre + x + (w + post) == pre + y + post ==> x + w == y
  {
    if pre + x + (w + post) == pre + y + post {
      assert (pre + x + (w + post))[|pre|..|pre| + |y|] == x + w;
      assert (pre + y + post)[|pre|..|pre| + |y|] == y;
    }
  }

  lemma LaterSplice(text: string, e: BodyEdit, i: nat)
    requires i < e.from && i < |text|
    ensures i < |Splice(text, e)| && Splice(text, e)[i] == text[i]
  {
  }

  lemma FirstAt(first: BakedSection, rest: seq<BakedSection>, cursor: nat)
    ensures SectionAt([first] + rest, cursor) ==
            if first.start <= cursor <= first.end then Some(first) else SectionAt(rest, cursor)
  {
    assert ([first] + rest)[1..] == rest;
  }

  lemma StartAndEnd(s: string, o: Open, k: nat)
    requires o.len >= 12 && o.at + o.len <= |s|
    ensures var c := SectionOf(s, o, k, 0); c.start == o.at && c.end == o.at + o.len + k + 11
  {
    CloseShape();
    hide ExprOf, CLOSE_MARKER;
  }

  /** Putting a directive back over `r`, up to `end`. */
  lemma DirectiveBack(pre: string, r: string, expr: string, post: string, end: nat)
    requires r != "" && r[|r| - 1] == '>' && |pre| <= end <= |pre| + |r|
    requires Find(expr, OPEN_END).None? ==> end == |pre| + |r|
    ensures Find(expr, OPEN_END).None? <==>
            Splice(pre + r + post, BodyEdit(|pre|, end, "${" + Trim(Used(expr)) + "}")) ==
            pre + ("${" + Trim(expr) + "}") + post
  {
    hide *;
    SpliceIn(pre, r, post, end, "${" + Trim(Used(expr)) + "}");
    var w := r[end - |pre|..];
    if Find(expr, OPEN_END).Some? {
      TrimKeepsArrow(expr);
      DirectivesDiffer(pre, Trim(Used(expr)), Trim(expr), w, post);
    } else {
      UsedIs(expr);
      assert w + post == post;
    }
  }

  /** Unbaking where a directive was baked gives the directive back, its
      expression trimmed, exactly when that holds no `-->`. */
  lemma BakeUnbake(pre: string, expr: string, body: string, post: string, cursor: nat)
    requires Find(pre, OPEN_PREFIX).None?
    requires |pre| <= cursor <= |pre| + |BakeReplacement(expr, body)|
    ensures Find(expr, OPEN_END).None? <==>
            Unbaked(pre + BakeReplacement(expr, body) + post, cursor) == Some(pre + ("${" + Trim(expr) + "}") + post)
  {
    hide *;
    var r := BakeReplacement(expr, body);
    ReplacementEnds(expr, body);
    var text, c, end := FirstSection(pre, expr, body, post);
    var o := Open(|pre|, 12 + ArrowAt(expr));
    var section := SectionOf(text, o, c, 0);
    StartAndEnd(text, o, c);
    FirstAt(section, Scan(text[end..], end), cursor);
    if cursor <= end {
      UnbakedIs(text, cursor, section);
      DirectiveBack(pre, r, expr, post, end);
    } else {
      UnbakedBehind(pre, r, "${" + Trim(expr) + "}", post, text, cursor, end);
    }
  }

  /** With the cursor behind the first section the directive does not come back. */
  lemma UnbakedBehind(pre: string, r: string, d: string, post: string, text: string, cursor: nat, end: nat)
    requires text == pre + r + post && r != "" && r[0] == '<' && d != "" && d[0] == '$' && |pre| < end <= |text|
    requires SectionAt(Scan(text, 0), cursor) == SectionAt(Scan(text[end..], end), cursor)
    ensures Unbaked(text, cursor) != Some(pre + d + post)
  {
    hide *;
    UnbakedLater(text, cursor, end, |pre|);
    SeamLetters(pre, r, d, post);
  }

  lemma SeamLetters(pre: string, r: string, d: string, post: string)
    requires r != "" && d != ""
    ensures (pre + r + post)[|pre|] == r[0] && (pre + d + post)[|pre|] == d[0]
  {
  }

  lemma UsedIs(expr: string)
    requires Find(expr, OPEN_END).None?
    ensures Used(expr) == expr
  {
  }

  lemma UnbakedIs(text: string, cursor: nat, section: BakedSection)
    requires SectionAt(Scan(text, 0), cursor) == Some(section)
    ensures Unbaked(text, cursor) == Some(Splice(text, BodyEdit(section.start, section.end, "${" + section.expr + "}")))
  {
    hide Scan, Splice;
  }

  lemma UnbakedLater(text: string, cursor: nat, end: nat, i: nat)
    requires i < end <= |text| && SectionAt(Scan(text, 0), cursor) == SectionAt(Scan(text[end..], end), cursor)
    ensures var r := Unbaked(text, cursor); r.Some? ==> i < |r.value| && r.value[i] == text[i]
  {
    hide *;
    var s := SectionAt(Scan(text, 0), cursor);
    if s.Some? {
      ScanInOrder(text[end..], end);
      SectionAtBehind(Scan(text[end..], end), end, |text|, cursor);
      UnbakedIs(text, cursor, s.value);
      LaterSplice(text, BodyEdit(s.value.start, s.value.end, "${" + s.value.expr + "}"), i);
    } else {
      UnbakedNone(text, cursor);
    }
  }

  lemma UnbakedNone(text: string, cursor: nat)
    requires SectionAt(Scan(text, 0), cursor).None?
    ensures Unbaked(text, cursor).None?
  {
    hide Scan, Splice;
  }
}
