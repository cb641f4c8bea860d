/** The base the editor keeps of the text on disk, the buffer, and an update
    withheld from it: what external changes, retries and own writes do to them. */
module ContentManager {
  import opened Text
  import opened ChangeSets
  import opened ChangeSetLaws
  import opened LineDiff
  import opened ExternalMerge

  datatype Withheld = Withheld(text: string, modified: Option<int>, source: string)

  /** The open page: the buffer, the last text known on disk with its time, and
      the update that could not be merged yet. */
  datatype Page = Page(doc: string, base: string, modified: Option<int>, pending: Option<Withheld>)

  /** Time of the newest update seen, applied or withheld. */
  function Seen(p: Page): Option<int> {
    if p.pending.Some? && p.pending.value.modified.Some? then p.pending.value.modified else p.modified
  }

  predicate Older(a: Option<int>, b: Option<int>) {
    a.Some? && b.Some? && a.value < b.value
  }

  predicate IsStale(p: Page, modified: Option<int>) {
    Older(modified, Seen(p))
  }

  function MergeInto(diff: Differ, p: Page, disk: string, canDefer: bool): Merge
    requires ValidDiffer(diff)
  {
    ComputeExternal(diff, p.base, disk, p.doc, canDefer)
  }

  /** The page with an update taken in. */
  function Adopted(diff: Differ, p: Page, disk: string, modified: Option<int>, canDefer: bool): Page
    requires ValidDiffer(diff)
  {
    Page(Apply(MergeInto(diff, p, disk, canDefer).changes, p.doc), disk, modified, None)
  }

  function AfterExternal(diff: Differ, p: Page, u: Withheld, canDefer: bool): Page
    requires ValidDiffer(diff)
  {
    if IsStale(p, u.modified) then p
    else if MergeInto(diff, p, u.text, canDefer).deferred then p.(pending := Some(u))
    else Adopted(diff, p, u.text, u.modified, canDefer)
  }

  function AfterRetry(diff: Differ, p: Page, canDefer: bool): Page
    requires ValidDiffer(diff)
  {
    if p.pending.None? then p
    else
      var u := p.pending.value;
      if MergeInto(diff, p, u.text, canDefer).deferred then p.(pending := None)
      else Adopted(diff, p, u.text, u.modified, canDefer)
  }

  function AfterOwnWrite(p: Page, text: string, modified: Option<int>): Page {
    if Older(modified, p.modified) then p else p.(base := text, modified := modified)
  }

  class ContentManager {
    const diff: Differ
    var doc: string
    var lastKnownDiskText: string
    var lastKnownDiskModified: Option<int>
    var pendingExternal: Option<Withheld>

    constructor (diff: Differ, text: string, modified: Option<int>)
      ensures this.diff == diff && State() == Page(text, text, modified, None)
    {
      this.diff := diff;
      doc, lastKnownDiskText, lastKnownDiskModified, pendingExternal := text, text, modified, None;
    }

    function State(): Page
      reads this
    {
      Page(doc, lastKnownDiskText, lastKnownDiskModified, pendingExternal)
    }

    /** Takes in a text read from disk; says whether the buffer changed. */
    method ApplyExternalPatches(newText: string, modified: Option<int>, source: string,
                                canDefer: bool) returns (applied: bool)
      requires ValidDiffer(diff)
      modifies this
      ensures State() == AfterExternal(diff, old(State()), Withheld(newText, modified, source), canDefer)
      ensures applied <==>
              && !IsStale(old(State()), modified) && !MergeInto(diff, old(State()), newText, canDefer).deferred
              && !IsEmpty(MergeInto(diff, old(State()), newText, canDefer).changes)
    {
      var seenModified := if pendingExternal.Some? && pendingExternal.value.modified.Some?
                          then pendingExternal.value.modified else lastKnownDiskModified;
      if modified.Some? && seenModified.Some? && modified.value < seenModified.value {
        return false;
      }
      var merge := ComputeExternalChanges(diff, lastKnownDiskText, newText, doc, canDefer);
      if merge.deferred {
        pendingExternal := Some(Withheld(newText, modified, source));
        return false;
      }
      pendingExternal := None;
      lastKnownDiskText := newText;
      lastKnownDiskModified := modified;
      if IsEmpty(merge.changes) {
        EmptyKeepsAll(merge.changes, doc);
        return false;
      }
      DispatchExternal(merge.changes);
      return true;
    }

    method DispatchExternal(changes: Edits)
      requires Fits(changes, |doc|)
      modifies this`doc
      ensures doc == Apply(changes, old(doc))
    {
      doc := Apply(changes, doc);
    }

    /** Tries a withheld update again, right before the buffer is written. The
        text the buffer still descends from, when it does not merge. */
    method SettlePendingExternal(canDefer: bool) returns (divergentBase: Option<string>)
      requires ValidDiffer(diff)
      modifies this
      ensures State() == AfterRetry(diff, old(State()), canDefer)
      ensures pendingExternal.None?
      ensures divergentBase.Some? <==>
              && old(pendingExternal).Some?
              && MergeInto(diff, old(State()), old(pendingExternal).value.text, canDefer).deferred
      ensures divergentBase.Some? ==>
                divergentBase.value == lastKnownDiskText == old(lastKnownDiskText) && doc == old(doc)
    {
      if pendingExternal.None? {
        return None;
      }
      var pending := pendingExternal.value;
      pendingExternal := None;
      var base := lastKnownDiskText;
      var merge := ComputeExternalChanges(diff, base, pending.text, doc, canDefer);
      if merge.deferred {
        return Some(base);
      }
      lastKnownDiskText := pending.text;
      lastKnownDiskModified := pending.modified;
      if IsEmpty(merge.changes) {
        EmptyKeepsAll(merge.changes, doc);
      } else {
        DispatchExternal(merge.changes);
      }
      return None;
    }

    method AdoptOwnWriteAsBase(text: string, modified: Option<int>)
      modifies this
      ensures State() == AfterOwnWrite(old(State()), text, modified)
    {
      if modified.Some? && lastKnownDiskModified.Some? && modified.value < lastKnownDiskModified.value {
        return;
      }
      lastKnownDiskText := text;
      lastKnownDiskModified := modified;
    }
  }
}
