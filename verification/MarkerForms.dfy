/** How marker lines, separators and fences are written: what each line of a
    document is taken for, by its characters alone. */
module MarkerForms {
  import opened Sequences
  import opened Text
  import opened MarkerLines

  function Repeated(c: char, n: nat): (s: string)
    ensures |s| == n && forall i | 0 <= i < n :: s[i] == c
  {
    seq(n, _ => c)
  }

  /** The line is `s`, or `s` and a carriage return. */
  predicate Reads(line: string, s: string) {
    line == s + "\r" || (line == s && (s == "" || s[|s| - 1] != '\r'))
  }

  lemma ReadsStripped(line: string, s: string)
    ensures Reads(line, s) <==> s == StripTrailingCR(line)
  {
    if line != "" && line[|line| - 1] == '\r' {
      assert line == line[..|line| - 1] + "\r";
    }
    if line == s + "\r" {
      assert line[..|line| - 1] == s;
    }
  }

  lemma SliceRepeats(s: string, a: nat, b: nat, c: char)
    requires a <= b <= |s|
    ensures s[a..b] == Repeated(c, b - a) <==> forall i | a <= i < b :: s[i] == c
  {
    if s[a..b] == Repeated(c, b - a) {
      forall i | a <= i < b ensures s[i] == c {
        assert s[a..b][i - a] == c;
      }
    }
  }

  lemma RunIs(s: string, c: char, n: nat)
    requires n <= |s|
    ensures RunOf(s, c) == n <==> s[..n] == Repeated(c, n) && (n < |s| ==> s[n] != c)
  {
    SliceRepeats(s, 0, n, c);
    assert s[0..n] == s[..n];
  }

  /** An SB marker: the prefix and the hash. */
  predicate IsSBMark(line: string, prefix: string, m: Marker) {
    m.kind.SB? && m.size == 7 && m.tag.None? && Reads(line, prefix + m.hash)
  }

  /** A git marker: 3 to 256 marks, then nothing, or a space and a label. */
  predicate IsGitMark(line: string, mark: char, m: Marker) {
    && m.kind.Git? && 3 <= m.size <= 256 && m.hash == "" && m.tag.Some?
    && (|| (m.tag == Some("") && Reads(line, Repeated(mark, m.size)))
        || Reads(line, Repeated(mark, m.size) + " " + m.tag.value))
  }

  predicate IsMark(line: string, prefix: string, mark: char, m: Marker) {
    IsSBMark(line, prefix, m) || (!(prefix <= line) && IsGitMark(line, mark, m))
  }

  lemma PrefixOfStripped(line: string, prefix: string)
    requires prefix != "" && prefix[|prefix| - 1] == ':'
    ensures prefix <= line <==> prefix <= StripTrailingCR(line)
  {
  }

  lemma SBMarkIff(line: string, prefix: string, c: char, m: Marker)
    requires prefix != "" && prefix[|prefix| - 1] == ':' && prefix <= line
    ensures MatchMarker(line, prefix, c) == Some(m) <==> IsSBMark(line, prefix, m)
  {
    PrefixOfStripped(line, prefix);
    ReadsStripped(line, prefix + m.hash);
    var s := StripTrailingCR(line);
    assert s == prefix + s[|prefix|..];
    hide RunOf, Reads, StripTrailingCR;
    if s == prefix + m.hash {
      SplitConcat(prefix, m.hash);
    }
  }

  lemma NotSBMark(line: string, prefix: string, m: Marker)
    requires prefix != "" && prefix[|prefix| - 1] == ':' && !(prefix <= line)
    ensures !IsSBMark(line, prefix, m)
  {
    PrefixOfStripped(line, prefix);
    ReadsStripped(line, prefix + m.hash);
  }

  lemma GitMarkIff(line: string, prefix: string, c: char, m: Marker)
    requires prefix != "" && prefix[|prefix| - 1] == ':' && !(prefix <= line) && c != ' '
    ensures MatchMarker(line, prefix, c) == Some(m) <==> IsGitMark(line, c, m)
  {
    PrefixOfStripped(line, prefix);
    var s := StripTrailingCR(line);
    var run := Repeated(c, m.size);
    ReadsStripped(line, run);
    if m.tag.Some? {
      ReadsStripped(line, run + " " + m.tag.value);
      LabelIff(s, c, m.size, m.tag.value);
    }
    hide Reads, StripTrailingCR;
  }

  /** A run of `n`, and behind it nothing or a space and the label. */
  lemma LabelIff(s: string, c: char, n: nat, tag: string)
    requires c != ' '
    ensures (tag == "" && s == Repeated(c, n)) || s == Repeated(c, n) + " " + tag <==>
            RunOf(s, c) == n && (n == |s| || s[n] == ' ') && SplitLabel(s[n..]) == tag
  {
    var run := Repeated(c, n);
    if n <= |s| {
      RunIs(s, c, n);
      assert s == s[..n] + s[n..];
      if s == run + " " + tag {
        assert s[..n] == run && s[n] == ' ' && s[n..] == " " + tag;
      }
      if s[..n] == run && n < |s| && s[n] == ' ' {
        assert s[n..] == " " + s[n..][1..];
        Assoc(run, " ", s[n..][1..]);
      }
    }
  }

  /** What every line is taken for: a marker exactly if it is written as one. */
  lemma MarkersIff(line: string, m: Marker)
    ensures ReadLine(line).start == Some(m) <==> IsMark(line, "<<<<<<< SB sha256:", '<', m)
    ensures ReadLine(line).base == Some(m) <==> IsMark(line, "||||||| SB BASE sha256:", '|', m)
    ensures ReadLine(line).end == Some(m) <==> IsMark(line, ">>>>>>> SB sha256:", '>', m)
  {
    hide MatchMarker, IsSBMark, IsGitMark, MatchSeparator, Opens, Closes;
    MarkIff(line, SB_START_PREFIX, '<', m);
    MarkIff(line, SB_BASE_PREFIX, '|', m);
    MarkIff(line, SB_END_PREFIX, '>', m);
  }

  lemma MarkIff(line: string, prefix: string, c: char, m: Marker)
    requires prefix != "" && prefix[|prefix| - 1] == ':' && c != ' '
    ensures MatchMarker(line, prefix, c) == Some(m) <==> IsMark(line, prefix, c, m)
  {
    hide MatchMarker, IsSBMark, IsGitMark;
    if prefix <= line {
      SBMarkIff(line, prefix, c, m);
    } else {
      NotSBMark(line, prefix, m);
      GitMarkIff(line, prefix, c, m);
    }
  }

  /** A separator of `n`: that many equals signs and nothing else. */
  lemma SeparatorIff(line: string, n: nat)
    ensures ReadLine(line).separator == Some(n) <==> Reads(line, Repeated('=', n))
  {
    hide MatchMarker, Opens, Closes, Reads, StripTrailingCR;
    var s := StripTrailingCR(line);
    ReadsStripped(line, Repeated('=', n));
    RunIs(s, '=', |s|);
    assert s[..|s|] == s;
  }

  /** A run of `n` marks in `s` behind `k` spaces. */
  predicate FenceBehind(s: string, k: nat, mark: char, n: nat) {
    && k + n <= |s| && s[..k] == Repeated(' ', k) && s[k..k + n] == Repeated(mark, n)
    && (k + n < |s| ==> s[k + n] != mark)
  }

  predicate OnlySpaceFrom(s: string, i: nat) {
    forall j | i <= j < |s| :: IsSpace(s[j])
  }

  /** A fence: three or more of one mark behind at most three spaces. */
  lemma FenceIff(line: string, s: string, mark: char, n: nat)
    requires Reads(line, s)
    ensures ReadLine(line).opens == Within(mark, n) <==>
            (mark == '`' || mark == '~') && n >= 3 && exists k | 0 <= k <= 3 :: FenceBehind(s, k, mark, n)
  {
    hide *;
    FencesRead(line);
    forall k | 0 <= k <= 3 && FenceBehind(s, k, mark, n) && (mark == '`' || mark == '~') && n >= 3
      ensures Opens(line) == Within(mark, n)
    {
      BehindOpens(line, s, k, mark, n);
    }
    if Opens(line) == Within(mark, n) {
      var k := OpensBehind(line, s, mark, n);
    }
  }

  lemma FencesRead(line: string)
    ensures ReadLine(line).opens == Opens(line) && ReadLine(line).closes == Closes(line)
  {
    hide MatchMarker, MatchSeparator, Opens, Closes;
  }

  /** It can close one if white space alone follows. */
  lemma ClosingFenceIff(line: string, s: string, mark: char, n: nat)
    requires Reads(line, s)
    ensures ReadLine(line).closes == Within(mark, n) <==>
            && (mark == '`' || mark == '~') && n >= 3
            && exists k | 0 <= k <= 3 :: FenceBehind(s, k, mark, n) && OnlySpaceFrom(s, k + n)
  {
    hide *;
    FencesRead(line);
    ClosesIff(line);
    forall k | 0 <= k <= 3 && FenceBehind(s, k, mark, n) && (mark == '`' || mark == '~') && n >= 3
      ensures Opens(line) == Within(mark, n)
    {
      BehindOpens(line, s, k, mark, n);
    }
    if Opens(line) == Within(mark, n) {
      var k := OpensBehind(line, s, mark, n);
      forall j | 0 <= j <= 3 && FenceBehind(s, j, mark, n) ensures j == k {
        OneIndent(s, j, k, mark, n);
      }
      SpaceBehind(Trimmed(line), s, k, n);
    }
  }

  lemma ClosesIff(line: string)
    ensures Closes(line).Within? ==> Closes(line) == Opens(line)
    ensures Closes(line).Within? <==> Opens(line).Within? && OnlySpaceFrom(Trimmed(line), Opens(line).len)
  {
    hide RunOf, Trimmed;
  }

  lemma OpensIff(line: string, mark: char, n: nat)
    ensures Opens(line) == Within(mark, n) <==>
            (mark == '`' || mark == '~') && n >= 3 && RunOf(Trimmed(line), mark) == n
  {
    var t := Trimmed(line);
    hide Trimmed;
    if t != "" && t[0] != '`' {
      NoRun(t, '`');
    }
    if t != "" && t[0] != '~' {
      NoRun(t, '~');
    }
  }

  lemma OneIndent(s: string, j: nat, k: nat, mark: char, n: nat)
    requires FenceBehind(s, j, mark, n) && FenceBehind(s, k, mark, n) && mark != ' ' && n > 0
    ensures j == k
  {
    SliceRepeats(s, j, j + n, mark);
    SliceRepeats(s, k, k + n, mark);
    assert s[j] == mark && s[k] == mark;
    SliceRepeats(s, 0, j, ' ');
    SliceRepeats(s, 0, k, ' ');
  }

  lemma OpensBehind(line: string, s: string, mark: char, n: nat) returns (k: nat)
    requires Reads(line, s) && Opens(line) == Within(mark, n)
    ensures k <= 3 && FenceBehind(s, k, mark, n) && Trimmed(line) == s[k..]
    ensures (mark == '`' || mark == '~') && n >= 3
  {
    ReadsStripped(line, s);
    OpensIff(line, mark, n);
    var r := RunOf(s, ' ');
    k := if r < 3 then r else 3;
    SliceRepeats(s, 0, k, ' ');
    RunIs(s[k..], mark, n);
    assert s[k..][..n] == s[k..k + n];
  }

  lemma BehindOpens(line: string, s: string, k: nat, mark: char, n: nat)
    requires Reads(line, s) && k <= 3 && n >= 3 && FenceBehind(s, k, mark, n) && (mark == '`' || mark == '~')
    ensures Opens(line) == Within(mark, n)
  {
    ReadsStripped(line, s);
    BehindTrims(s, k, mark, n);
    TrimmedIs(line, s);
    OpensIff(line, mark, n);
  }

  lemma TrimmedIs(line: string, s: string)
    requires s == StripTrailingCR(line)
    ensures var r := RunOf(s, ' '); Trimmed(line) == s[if r < 3 then r else 3..]
  {
  }

  lemma BehindTrims(s: string, k: nat, mark: char, n: nat)
    requires k <= 3 && n >= 3 && FenceBehind(s, k, mark, n) && mark != ' '
    ensures RunOf(s, ' ') == k && RunOf(s[k..], mark) == n
  {
    SliceRepeats(s, k, k + n, mark);
    assert s[k] == mark;
    hide RunOf;
    RunIs(s, ' ', k);
    RunBehind(s, k, mark, n);
  }

  lemma RunBehind(s: string, k: nat, mark: char, n: nat)
    requires k + n <= |s| && s[k..k + n] == Repeated(mark, n) && (k + n < |s| ==> s[k + n] != mark)
    ensures RunOf(s[k..], mark) == n
  {
    RunIs(s[k..], mark, n);
    hide RunOf;
    assert s[k..][..n] == s[k..k + n];
  }

  lemma SpaceBehind(t: string, s: string, k: nat, n: nat)
    requires k + n <= |s| && t == s[k..]
    ensures OnlySpaceFrom(t, n) <==> OnlySpaceFrom(s, k + n)
  {
    hide IsSpace;
    if OnlySpaceFrom(t, n) {
      forall j | k + n <= j < |s| ensures IsSpace(s[j]) {
        assert s[j] == t[j - k];
      }
    }
  }

  /** White space, by code point. */
  lemma SpaceIff(c: char)
    ensures IsSpace(c) <==>
            var p := c as int;
            || 9 <= p <= 13 || p == 32 || p == 160 || p == 0x1680 || 0x2000 <= p <= 0x200a
            || p == 0x2028 || p == 0x2029 || p == 0x202f || p == 0x205f || p == 0x3000 || p == 0xfeff
  {
  }
}
