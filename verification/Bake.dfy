/** Baking the sections of a text: every body evaluated again, the rest kept. */
module Bake {
  import opened Text
  import opened BakedSections

  /** The markdown of an expression, or why it cannot be baked. */
  datatype Rendered = Markdown(markdown: string) | Refused(reason: string)

  /** The first argument tells the evaluations of one run apart. */
  type Evaluator = (nat, string) -> Rendered

  datatype BodyEdit = BodyEdit(from: nat, to: nat, insert: string)

  function NewBody(markdown: string): string {
    "\n" + Trim(EscapeBakedBody(markdown)) + "\n"
  }

  function EditsOf(sections: seq<BakedSection>, n: nat, eval: Evaluator): seq<BodyEdit> {
    if sections == [] then []
    else
      var s, rest := sections[0], EditsOf(sections[1..], n + 1, eval);
      match eval(n, s.expr)
      case Markdown(markdown) => [BodyEdit(s.bodyFrom, s.bodyTo, NewBody(markdown))] + rest
      case Refused(_) => rest
  }

  /** How a section left as it is is reported. */
  function Report(expr: string, reason: string): string {
    "\"" + expr + "\" (" + reason + ")"
  }

  function SkippedOf(sections: seq<BakedSection>, n: nat, eval: Evaluator): seq<string> {
    if sections == [] then []
    else
      var rest := SkippedOf(sections[1..], n + 1, eval);
      match eval(n, sections[0].expr)
      case Markdown(_) => rest
      case Refused(reason) => [Report(sections[0].expr, reason)] + rest
  }

  /** One replacement; an offset past the end is the end, as in `String.slice`. */
  function Splice(text: string, e: BodyEdit): string {
    var from := if e.from <= |text| then e.from else |text|;
    var to := if e.to <= |text| then e.to else |text|;
    text[..from] + e.insert + text[to..]
  }

  /** All of them, last first. */
  function ApplyBack(text: string, es: seq<BodyEdit>): string {
    if es == [] then text else Splice(ApplyBack(text, es[1..]), es[0])
  }

  function Baked(text: string, eval: Evaluator): string {
    ApplyBack(text, EditsOf(Scan(text, 0), 0, eval))
  }

  method ComputeBakeEdits(text: string, eval: Evaluator) returns (edits: seq<BodyEdit>, skipped: seq<string>)
    ensures edits == EditsOf(Scan(text, 0), 0, eval)
    ensures skipped == SkippedOf(Scan(text, 0), 0, eval)
  {
    hide Scan, NewBody;
    var sections := FindBakedSections(text);
    edits, skipped := [], [];
    var n := 0;
    while n < |sections|
      invariant n <= |sections|
      invariant edits + EditsOf(sections[n..], n, eval) == EditsOf(sections, 0, eval)
      invariant skipped + SkippedOf(sections[n..], n, eval) == SkippedOf(sections, 0, eval)
    {
      var section := sections[n];
      assert sections[n..][1..] == sections[n + 1..];
      var result := eval(n, section.expr);
      if result.Refused? {
        skipped := skipped + [Report(section.expr, result.reason)];
      } else {
        edits := edits + [BodyEdit(section.bodyFrom, section.bodyTo, NewBody(result.markdown))];
      }
      n := n + 1;
    }
  }

  method BakeSectionsInText(text: string, eval: Evaluator) returns (out: string)
    ensures out == Baked(text, eval)
  {
    hide Scan, Splice, EditsOf;
    var edits, _ := ComputeBakeEdits(text, eval);
    out := text;
    var i := |edits|;
    while i > 0
      invariant 0 <= i <= |edits|
      invariant out == ApplyBack(text, edits[i..])
    {
      i := i - 1;
      assert edits[i..][1..] == edits[i + 1..];
      out := Splice(out, edits[i]);
    }
    assert edits[0..] == edits;
  }

  /** The section at the cursor. */
  function SectionAt(sections: seq<BakedSection>, cursor: nat): Option<BakedSection> {
    if sections == [] then None
    else if sections[0].start <= cursor <= sections[0].end then Some(sections[0])
    else SectionAt(sections[1..], cursor)
  }

  /** The section at the cursor put back as a live `${...}` directive. */
  function Unbaked(text: string, cursor: nat): Option<string> {
    match SectionAt(Scan(text, 0), cursor)
    case Some(s) => Some(Splice(text, BodyEdit(s.start, s.end, "${" + s.expr + "}")))
    case None => None
  }

  method UnbakeSectionAtCursor(text: string, cursor: nat) returns (r: Option<string>)
    ensures r == Unbaked(text, cursor)
  {
    hide Scan, Splice;
    var sections := FindBakedSections(text);
    var i := 0;
    while i < |sections|
      invariant i <= |sections|
      invariant SectionAt(sections[i..], cursor) == SectionAt(sections, cursor)
    {
      var s := sections[i];
      if s.start <= cursor <= s.end {
        return Some(Splice(text, BodyEdit(s.start, s.end, "${" + s.expr + "}")));
      }
      assert sections[i..][1..] == sections[i + 1..];
      i := i + 1;
    }
    return None;
  }

  /** What the Bake button puts in place of a directive. */
  function BakeReplacement(expr: string, body: string): string {
    "<!--#lua " + expr + " -->" + NewBody(body) + CLOSE_MARKER
  }
}
