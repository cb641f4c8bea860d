/** Line numbers of a text: the index the merge builds over the base, and what
    a binary search in it answers. */
module Lines {

  /** Number of the line that holds offset `pos`. */
  function LineAt(base: string, pos: nat): nat
    requires pos <= |base|
  {
    if pos == 0 then 0 else LineAt(base, pos - 1) + if base[pos - 1] == '\n' then 1 else 0
  }

  predicate IsLineStart(base: string, pos: nat)
    requires pos <= |base|
  {
    pos == 0 || base[pos - 1] == '\n'
  }

  /** Offsets up to `n` where a line starts. */
  function StartsUpTo(base: string, n: nat): (r: seq<nat>)
    requires n <= |base|
    ensures |r| == LineAt(base, n) + 1
  {
    if n == 0 then [0]
    else StartsUpTo(base, n - 1) + if base[n - 1] == '\n' then [n] else []
  }

  function Starts(base: string): (r: seq<nat>)
    ensures |r| == LineAt(base, |base|) + 1
  {
    StartsUpTo(base, |base|)
  }

  /** End of line `k`, its line break included. */
  function LineEnd(base: string, k: nat): nat
    requires k < |Starts(base)|
  {
    if k + 1 < |Starts(base)| then Starts(base)[k + 1] else |base|
  }

  lemma {:induction false} LineAtMonotone(base: string, p: nat, q: nat)
    requires p <= q <= |base|
    ensures LineAt(base, p) <= LineAt(base, q)
    ensures p < q && IsLineStart(base, q) ==> LineAt(base, p) < LineAt(base, q)
  {
    if p < q {
      LineAtMonotone(base, p, q - 1);
    }
  }

  lemma {:induction false} StartsIndexLines(base: string, n: nat)
    requires n <= |base|
    ensures forall k | 0 <= k < |StartsUpTo(base, n)| ::
              && StartsUpTo(base, n)[k] <= n && IsLineStart(base, StartsUpTo(base, n)[k])
              && LineAt(base, StartsUpTo(base, n)[k]) == k
    ensures forall x: nat | x <= n && IsLineStart(base, x) :: x in StartsUpTo(base, n)
  {
    if n > 0 {
      StartsIndexLines(base, n - 1);
    }
  }

  /** The index is ordered, and brackets every offset by its line number. */
  lemma LineBrackets(base: string, pos: nat)
    requires pos <= |base|
    ensures var s, k := Starts(base), LineAt(base, pos);
            && k < |s| && s[k] <= pos
            && (k + 1 < |s| ==> pos < s[k + 1])
            && (IsLineStart(base, pos) ==> s[k] == pos)
  {
    var s, k := Starts(base), LineAt(base, pos);
    LineAtMonotone(base, pos, |base|);
    StartsIndexLines(base, |base|);
    if pos < s[k] {
      LineAtMonotone(base, pos, s[k]);
    }
    if k + 1 < |s| && s[k + 1] <= pos {
      LineAtMonotone(base, s[k + 1], pos);
    }
    if IsLineStart(base, pos) {
      assert pos in s;
    }
  }

  /** A line number orders offsets as its start does. */
  lemma LineStartOrders(base: string, pos: nat, k: nat)
    requires pos <= |base| && k < |Starts(base)|
    ensures Starts(base)[k] <= |base| && IsLineStart(base, Starts(base)[k])
    ensures LineAt(base, Starts(base)[k]) == k
    ensures LineAt(base, pos) < k <==> pos < Starts(base)[k]
  {
    StartsIndexLines(base, |base|);
    var x := Starts(base)[k];
    if pos < x {
      LineAtMonotone(base, pos, x);
    } else {
      LineAtMonotone(base, x, pos);
    }
  }

  method IndexOfNewline(base: string, from: nat) returns (i: int)
    ensures i == -1 || (from <= i < |base| && base[i] == '\n')
    ensures forall j | from <= j < (if i == -1 then |base| else i) :: base[j] != '\n'
  {
    i := from;
    while i < |base|
      invariant from <= i
      invariant forall j | from <= j < i && j < |base| :: base[j] != '\n'
    {
      if base[i] == '\n' {
        return;
      }
      i := i + 1;
    }
    i := -1;
  }

  lemma {:induction false} NoBreakNoStart(base: string, p: nat, q: nat)
    requires p <= q <= |base|
    requires forall j | p <= j < q :: base[j] != '\n'
    ensures StartsUpTo(base, q) == StartsUpTo(base, p)
  {
    if p < q {
      NoBreakNoStart(base, p, q - 1);
    }
  }

  /** The line index: one entry for each line, in order. */
  method IndexLines(base: string) returns (starts: seq<nat>)
    ensures starts == Starts(base)
  {
    starts := [0];
    var i := IndexOfNewline(base, 0);
    NoBreakNoStart(base, 0, if i == -1 then |base| else i);
    while i != -1
      invariant i == -1 || (0 <= i < |base| && base[i] == '\n')
      invariant starts == StartsUpTo(base, if i == -1 then |base| else i)
      decreases if i == -1 then 0 else |base| - i
    {
      starts := starts + [i + 1];
      var next := IndexOfNewline(base, i + 1);
      assert starts == StartsUpTo(base, i + 1);
      NoBreakNoStart(base, i + 1, if next == -1 then |base| else next);
      i := next;
    }
  }

  /** Binary search in the line index. */
  method FindLine(ghost base: string, starts: seq<nat>, pos: nat) returns (line: nat)
    requires starts == Starts(base) && pos <= |base|
    ensures line == LineAt(base, pos)
  {
    var low, high := 0, |starts| - 1;
    LineBrackets(base, pos);
    while low < high
      invariant 0 <= low <= LineAt(base, pos) <= high < |starts|
    {
      var mid := (low + high + 1) / 2;
      LineStartOrders(base, pos, mid);
      if starts[mid] <= pos {
        low := mid;
      } else {
        high := mid - 1;
      }
    }
    line := low;
  }
}
