/** Text as the client handles it: white space, and documents as lists of lines. */
module Text {
  import opened Sequences

  datatype Option<+T> = None | Some(value: T)

  /** White space of the language: what `\s` matches and `trim` removes. */
  predicate IsSpace(c: char) {
    || c in {' ', '\t', '\n', '\r', '\U{000b}', '\U{000c}', '\U{00a0}', '\U{feff}', '\U{1680}'}
    || c in {'\U{2028}', '\U{2029}', '\U{202f}', '\U{205f}', '\U{3000}'}
    || '\U{2000}' <= c <= '\U{200a}'
  }

  /** How often `c` is repeated at the start of `s`. */
  function RunOf(s: string, c: char): (n: nat)
    ensures n <= |s| && (n < |s| ==> s[n] != c)
    ensures forall i | 0 <= i < n :: s[i] == c
  {
    if s != "" && s[0] == c then 1 + RunOf(s[1..], c) else 0
  }

  /** A document: at least one line, no line break inside a line. */
  predicate IsDoc(lines: seq<string>) {
    lines != [] && forall l <- lines :: '\n' !in l
  }

  /** The lines, each with a line break after it. */
  function Terminated(lines: seq<string>): string {
    if lines == [] then "" else lines[0] + "\n" + Terminated(lines[1..])
  }

  /** The text of a document. */
  function Join(lines: seq<string>): string
    requires lines != []
  {
    Terminated(lines[..|lines| - 1]) + lines[|lines| - 1]
  }

  /** Offset where line `i` starts; past the last line, one beyond the text. */
  function LineFrom(lines: seq<string>, i: nat): nat
    requires i <= |lines|
  {
    |Terminated(lines[..i])|
  }

  function LineTo(lines: seq<string>, i: nat): nat
    requires i < |lines|
  {
    LineFrom(lines, i) + |lines[i]|
  }

  lemma {:induction false} TerminatedConcat(a: seq<string>, b: seq<string>)
    ensures Terminated(a + b) == Terminated(a) + Terminated(b)
  {
    if a == [] {
      assert a + b == b;
    } else {
      assert (a + b)[1..] == a[1..] + b;
      TerminatedConcat(a[1..], b);
      Assoc(a[0] + "\n", Terminated(a[1..]), Terminated(b));
    }
  }

  lemma {:induction false} TerminatedOne(l: string)
    ensures Terminated([l]) == l + "\n"
  {
    assert l + "\n" + "" == l + "\n";
  }

  /** The text of `pre + post`. */
  lemma {:induction false} JoinConcat(pre: seq<string>, post: seq<string>)
    requires post != []
    ensures Join(pre + post) == Terminated(pre) + Join(post)
  {
    var n := |post| - 1;
    assert (pre + post)[..|pre| + n] == pre + post[..n];
    TerminatedConcat(pre, post[..n]);
    Assoc(Terminated(pre), Terminated(post[..n]), post[n]);
  }

  lemma {:induction false} LinesCut(lines: seq<string>, a: nat, b: nat)
    requires a <= b < |lines|
    ensures lines == lines[..a] + lines[a..] && lines[a..] == lines[a..b] + lines[b..]
    ensures lines[..b] == lines[..a] + lines[a..b]
  {
  }

  lemma {:induction false} Between(x: string, y: string, z: string)
    ensures (x + (y + z))[|x|..|x + y|] == y && |x + y| <= |x + (y + z)|
  {
  }

  /** Lines `a` to `b` occupy the text between their offsets. */
  lemma {:induction false} LineSlice(lines: seq<string>, a: nat, b: nat)
    requires a <= b < |lines|
    ensures LineFrom(lines, a) + |Terminated(lines[a..b])| == LineFrom(lines, b) <= |Join(lines)|
    ensures Join(lines)[LineFrom(lines, a)..LineFrom(lines, b)] == Terminated(lines[a..b])
  {
    hide Join, Terminated;
    LinesCut(lines, a, b);
    JoinConcat(lines[..a], lines[a..]);
    JoinConcat(lines[a..b], lines[b..]);
    TerminatedConcat(lines[..a], lines[a..b]);
    Between(Terminated(lines[..a]), Terminated(lines[a..b]), Join(lines[b..]));
  }

  lemma {:induction false} JoinLength(lines: seq<string>)
    requires lines != []
    ensures |Join(lines)| == LineTo(lines, |lines| - 1) && LineFrom(lines, |lines|) == |Join(lines)| + 1
  {
    var n := |lines| - 1;
    assert lines[..n + 1] == lines[..n] + [lines[n]];
    TerminatedConcat(lines[..n], [lines[n]]);
    TerminatedOne(lines[n]);
  }

  lemma {:induction false} NextLine(lines: seq<string>, i: nat)
    requires i < |lines|
    ensures LineFrom(lines, i + 1) == LineTo(lines, i) + 1
  {
    assert lines[..i + 1] == lines[..i] + [lines[i]];
    TerminatedConcat(lines[..i], [lines[i]]);
    TerminatedOne(lines[i]);
  }

  // ----- reading a text as a document -----

  /** `text.split("\n")`. */
  function SplitLines(text: string): (lines: seq<string>)
    ensures lines != []
  {
    if text == "" then [""]
    else
      var rest := SplitLines(text[1..]);
      if text[0] == '\n' then [""] + rest else [[text[0]] + rest[0]] + rest[1..]
  }

  lemma {:induction false} SplitLine(line: string, rest: string)
    requires '\n' !in line
    ensures SplitLines(line + "\n" + rest) == [line] + SplitLines(rest)
    decreases |line|
  {
    var text := line + "\n" + rest;
    if line == "" {
      assert text[1..] == rest;
    } else {
      assert text[1..] == line[1..] + "\n" + rest;
      SplitLine(line[1..], rest);
      assert [text[0]] + line[1..] == line;
    }
  }

  lemma {:induction false} SplitLast(line: string)
    requires '\n' !in line
    ensures SplitLines(line) == [line]
  {
    if line != "" {
      SplitLast(line[1..]);
      assert [line[0]] + line[1..] == line;
      assert line[0] != '\n';
    }
  }

  /** A document is what its text splits into. */
  lemma {:induction false} SplitOfJoin(lines: seq<string>)
    requires IsDoc(lines)
    ensures SplitLines(Join(lines)) == lines
  {
    if |lines| == 1 {
      SplitLast(lines[0]);
      assert Join(lines) == "" + lines[0] == lines[0];
    } else {
      var rest := lines[1..];
      assert lines == [lines[0]] + rest;
      JoinConcat([lines[0]], rest);
      TerminatedOne(lines[0]);
      SplitOfJoin(rest);
      SplitLine(lines[0], Join(rest));
    }
  }

  lemma {:induction false} JoinCons(line: string, rest: seq<string>)
    requires rest != []
    ensures Join([line] + rest) == line + "\n" + Join(rest)
  {
    JoinConcat([line], rest);
    TerminatedOne(line);
  }

  lemma {:induction false} JoinWider(c: char, lines: seq<string>)
    requires lines != []
    ensures Join([[c] + lines[0]] + lines[1..]) == [c] + Join(lines)
  {
    var rest := lines[1..];
    assert lines == [lines[0]] + rest;
    if rest == [] {
      assert Join(lines) == "" + lines[0] && Join([[c] + lines[0]]) == "" + ([c] + lines[0]);
    } else {
      JoinCons(lines[0], rest);
      JoinCons([c] + lines[0], rest);
      assert [c] + lines[0] + "\n" + Join(rest) == [c] + (lines[0] + "\n" + Join(rest));
    }
  }

  /** A text splits into a document, whose text it is. */
  lemma {:induction false} JoinOfSplit(text: string)
    ensures IsDoc(SplitLines(text)) && Join(SplitLines(text)) == text
  {
    if text == "" {
      assert Join([""]) == "";
    } else {
      var rest := SplitLines(text[1..]);
      JoinOfSplit(text[1..]);
      assert text == [text[0]] + text[1..];
      if text[0] == '\n' {
        JoinCons("", rest);
      } else {
        JoinWider(text[0], rest);
      }
    }
  }
}
