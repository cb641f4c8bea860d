/** Change sets of the editor: a walk over a document that keeps, deletes and
    inserts text, with the operations the client calls on one. */
module ChangeSets {

  /** One change set, section by section, in old-document order. */
  datatype Edits =
    | Done
    | Keep(len: nat, rest: Edits)
    | Replace(del: nat, ins: string, rest: Edits)

  /** What `iterChanges` reports for one stretch of replaced text. */
  datatype Change = Change(fromA: nat, toA: nat, fromB: nat, toB: nat, ins: string)

  function Min(a: nat, b: nat): nat {
    if a < b then a else b
  }

  function LenBefore(e: Edits): nat {
    match e
    case Done => 0
    case Keep(n, rest) => n + LenBefore(rest)
    case Replace(d, _, rest) => d + LenBefore(rest)
  }

  function LenAfter(e: Edits): nat {
    match e
    case Done => 0
    case Keep(n, rest) => n + LenAfter(rest)
    case Replace(_, s, rest) => |s| + LenAfter(rest)
  }

  /** Two sections in a row that both only delete, or both only insert. */
  predicate Joins(d: nat, s: string, rest: Edits) {
    rest.Replace? && ((s == "" && rest.ins == "") || (d == 0 && rest.del == 0))
  }

  /** No section is without effect on the walk, and sections of one kind in a row
      are one. A deletion and an insertion at one place stay two. */
  predicate Normal(e: Edits) {
    match e
    case Done => true
    case Keep(n, rest) => n > 0 && !rest.Keep? && Normal(rest)
    case Replace(d, s, rest) => (d > 0 || s != "") && !Joins(d, s, rest) && Normal(rest)
  }

  /** The change set fits a document of length `n`. */
  predicate Fits(e: Edits, n: nat) {
    Normal(e) && LenBefore(e) == n
  }

  predicate IsEmpty(e: Edits) {
    match e
    case Done => true
    case Keep(_, rest) => IsEmpty(rest)
    case Replace(_, _, _) => false
  }

  /** The change set of length `n` that changes nothing. */
  function Unchanged(n: nat): Edits {
    KeepThen(n, Done)
  }

  /** Sections are joined as they are added. */
  function KeepThen(n: nat, rest: Edits): (r: Edits)
    ensures Normal(rest) ==> Normal(r)
    ensures LenBefore(r) == n + LenBefore(rest) && LenAfter(r) == n + LenAfter(rest)
  {
    if n == 0 then rest
    else if rest.Keep? then Keep(n + rest.len, rest.rest)
    else Keep(n, rest)
  }

  function ReplaceThen(d: nat, s: string, rest: Edits): (r: Edits)
    ensures Normal(rest) ==> Normal(r)
    ensures LenBefore(r) == d + LenBefore(rest) && LenAfter(r) == |s| + LenAfter(rest)
  {
    if d == 0 && s == "" then rest
    else if Joins(d, s, rest) then Replace(d + rest.del, s + rest.ins, rest.rest)
    else Replace(d, s, rest)
  }

  function Apply(e: Edits, doc: string): (r: string)
    requires LenBefore(e) == |doc|
    ensures |r| == LenAfter(e)
  {
    match e
    case Done => ""
    case Keep(n, rest) => doc[..n] + Apply(rest, doc[n..])
    case Replace(d, s, rest) => s + Apply(rest, doc[d..])
  }

  function Invert(e: Edits, doc: string): (r: Edits)
    requires LenBefore(e) == |doc|
    ensures LenBefore(r) == LenAfter(e) && LenAfter(r) == LenBefore(e)
    ensures Normal(e) ==> Normal(r)
  {
    match e
    case Done => Done
    case Keep(n, rest) => Keep(n, Invert(rest, doc[n..]))
    case Replace(d, s, rest) => Replace(|s|, doc[..d], Invert(rest, doc[d..]))
  }

  /** A section that replaces text, joined with another right after it. */
  function JoinTwo(d: nat, s: string, rest: Edits): Edits {
    if rest.Replace? then Replace(d + rest.del, s + rest.ins, rest.rest) else Replace(d, s, rest)
  }

  /** The sections of `e`, with those that replace text in a row as one. */
  function Joined(e: Edits): (r: Edits)
    ensures LenBefore(r) == LenBefore(e) && LenAfter(r) == LenAfter(e)
  {
    match e
    case Done => Done
    case Keep(n, rest) => Keep(n, Joined(rest))
    case Replace(d, s, rest) => JoinTwo(d, s, Joined(rest))
  }

  /** The sections of `e` that replace text, one by one, from offsets `posA` in
      the old and `posB` in the new document. */
  function Changes(e: Edits, posA: nat, posB: nat): seq<Change> {
    match e
    case Done => []
    case Keep(n, rest) => Changes(rest, posA + n, posB + n)
    case Replace(d, s, rest) =>
      [Change(posA, posA + d, posB, posB + |s|, s)] + Changes(rest, posA + d, posB + |s|)
  }

  /** Stretches of replaced text are reported whole. */
  function IterChanges(e: Edits): seq<Change> {
    Changes(Joined(e), 0, 0)
  }

  /** Where position `pos` of the old document goes; `after` tells the side of
      an insertion made exactly there. */
  function MapPos(e: Edits, pos: nat, after: bool): (r: nat)
    requires pos <= LenBefore(e)
    ensures r <= LenAfter(e)
  {
    match e
    case Done => 0
    case Keep(n, rest) => if n > pos then pos else n + MapPos(rest, pos - n, after)
    case Replace(d, s, rest) =>
      if d > pos || (d == 0 && pos == 0 && !after)
      then (if pos == 0 || !after then 0 else |s|)
      else |s| + MapPos(rest, pos - d, after)
  }

  // ----- mapping one change set over another -----

  /** Termination measure of the two walks. */
  function Size(e: Edits): nat {
    match e
    case Done => 0
    case Keep(n, rest) => n + 1 + Size(rest)
    case Replace(d, _, rest) => d + 1 + Size(rest)
  }

  /** Drops `m` kept characters from the head of `e`. */
  function Advance(e: Edits, m: nat): (r: Edits)
    requires e.Keep? && m <= e.len
    ensures LenBefore(r) + m == LenBefore(e)
    ensures Size(r) <= Size(e) && (m > 0 ==> Size(r) < Size(e))
    ensures Normal(e) ==> Normal(r)
  {
    if m == e.len then e.rest else Keep(e.len - m, e.rest)
  }

  datatype Skipped = Skipped(kept: nat, left: nat, rest: Edits)

  /** Follows `left` deleted characters through `b`: counts those `b` keeps,
      drops those `b` deletes as well, and stops at text inserted by `b`. */
  function Skip(left: nat, b: Edits): (r: Skipped)
    requires left <= LenBefore(b)
    ensures r.left <= left && LenBefore(b) - LenBefore(r.rest) == left - r.left
    ensures Size(r.rest) <= Size(b)
    ensures b.Keep? && b.len > 0 && left > 0 ==> r.left < left
    ensures Normal(b) ==> Normal(r.rest)
    ensures r.left > 0 && r.rest.Replace? ==> r.rest.ins != "" || r.rest.del >= r.left
    ensures Normal(b) && r.left > 0 ==> r.rest.Replace?
    ensures r.kept + LenAfter(r.rest) == LenAfter(b)
    decreases Size(b)
  {
    if left == 0 then Skipped(0, 0, b)
    else match b
      case Done => Skipped(0, left, b)
      case Keep(n, rest) =>
        var p := Min(left, n);
        if p < n then Skipped(p, 0, Keep(n - p, rest))
        else var r := Skip(left - p, rest); Skipped(p + r.kept, r.left, r.rest)
      case Replace(d, s, rest) =>
        if s == "" && d < left then Skip(left - d, rest) else Skipped(0, left, b)
  }

  /** `a` as it applies to the document `b` has already been applied to.
      `whole`: the head of `a` has not been entered yet; `placed`: the text the
      head of `a` inserts has been written. */
  function MapSet(a: Edits, whole: bool, placed: bool, b: Edits, before: bool): (r: Edits)
    requires Normal(a) && Normal(b) && LenBefore(a) == LenBefore(b)
    ensures Fits(r, LenAfter(b))
    decreases Size(a) + Size(b), if placed then 0 else 1, 1
  {
    if a.Keep? && b.Keep? then
      var m := Min(a.len, b.len);
      KeepThen(m, MapSet(Advance(a, m), true, false, Advance(b, m), before))
    else if b.Replace? && (!a.Replace? || placed ||
                           (whole && (b.del < a.del || (b.del == a.del && !before)))) then
      KeepThen(|b.ins|, MapCovered(a, whole, placed, b.del, b.rest, before))
    else if a.Replace? then
      MapOwn(a, whole, placed, b, before)
    else
      Done
  }

  /** The head of `a` up to the next text `b` inserts. */
  function MapOwn(a: Edits, whole: bool, placed: bool, b: Edits, before: bool): (r: Edits)
    requires Normal(a) && Normal(b) && LenBefore(a) == LenBefore(b)
    requires a.Replace? && (placed ==> !b.Replace?)
    ensures Fits(r, LenAfter(b))
    decreases Size(a) + Size(b), if placed then 0 else 1, 0
  {
    var k := Skip(a.del, b);
    ReplaceThen(k.kept, if placed then "" else a.ins,
                if k.left == 0 then MapSet(a.rest, true, false, k.rest, before)
                else MapSet(Replace(k.left, a.ins, a.rest), whole && k.left == a.del, true, k.rest, before))
  }

  /** The part of `a` that lies over `len` characters deleted by the other side. */
  function MapCovered(a: Edits, whole: bool, placed: bool, len: nat, b: Edits, before: bool): (r: Edits)
    requires Normal(a) && Normal(b) && LenBefore(a) == len + LenBefore(b)
    ensures Fits(r, LenAfter(b))
    decreases Size(a) + Size(b), 2
  {
    if len == 0 then MapSet(a, whole, placed, b, before)
    else match a
      case Done => Done
      case Keep(n, _) =>
        var p := Min(n, len);
        MapCovered(Advance(a, p), true, false, len - p, b, before)
      case Replace(d, s, rest) =>
        if d <= len
        then ReplaceThen(0, if placed then "" else s, MapCovered(rest, true, false, len - d, b, before))
        else MapSet(Replace(d - len, s, rest), false, placed, b, before)
  }

  /** `a.map(b, before)`. */
  function Map(a: Edits, b: Edits, before: bool): (r: Edits)
    requires Fits(a, LenBefore(b)) && Normal(b)
    ensures Fits(r, LenAfter(b))
  {
    MapSet(a, true, false, b, before)
  }
}
