# A model of the SilverBullet client's editing pipeline

SilverBullet is a note-taking system whose client keeps an open editor buffer
while the same page changes on disk. This project models the client's code for
that, and four smaller state machines beside it, and proves what the code keeps.

## The pipeline

- `LineDiff`, `LineDiffLaws`, `SlideForms`: a diff is a list of kept, inserted
  and deleted parts. Edits are slid to line starts in place and turned into
  changes.
- `ChangeSets`, `ChangeSetLaws`, `Convergence`, `MergeOrder`, `ChangePositions`:
  the editor's change sets as a walk over a document, section by section, with
  apply, invert, map and the mapping of positions. A deletion and an insertion at
  one place stay two sections, as the library keeps them, and are reported as one
  change.
- `Lines`, `ChunkCollision`, `ChunkLaws`, `ListedLines`, `LineSurvival`: the
  collision test of the three-way merge. Edits are classified by the base lines
  they rewrite, and named by keys that stand for the chunks of a diff3 merge.
- `Text`, `Sequences`, `MarkerLines`, `MarkerForms`, `ConflictMarkers`,
  `ConflictHunks`, `ConflictCompleteness`, `ConflictForms`, `ConflictLocality`,
  `ConflictResolution`, `ConflictOffsets`, `FencesMatter`, `FencesDecide`,
  `ConflictTexts`: the parser of conflict markers, in SilverBullet's own form and
  in git's, the mask of fenced code, and the resolution of one hunk, in the lines
  and in the text.
- `ExternalMerge`, `ContentManager`, `EditorRuns`, `EditorLaws`: the three-way
  merge, the object that holds buffer, base and withheld update, and runs of it.
- `ExternalPresence`, `PresenceLaws`, `PresenceForms`: the highlighted ranges of
  external edits and their inverse changes, moved through every transaction.

The parts chain. Sliding keeps both texts, so a change set applied to the base
gives the disk text; without a collision a whole base line separates any two
changes of the two sides, so mapping one over the other is a plain shift and
the merge patches both edit sets into the base. Mapping converges in every other
case too, overlapping edits and withholding switched off included, and that is
what the invariant over editor runs and undo after local edits need.

## Beside it

- `BakedSections`, `Bake`, `BakeLaws`, `BakeForms`, `BakeRoundTrip`: sections
  `<!--#lua EXPR -->...<!--/lua-->` found, evaluated again, and put back as
  directives.
- `Logout`, `LogoutRuns`, `LogoutLaws`: a tab's part in logging out, messages against a save
  that has not finished. A handler is split at its `await`; a step is a message,
  a finished save, or a waiting call that goes on.
- `RealtimeEvents`, `RealtimeRuns`, `RealtimeLaws`: the subscriber to server events, which
  batches them, runs one flush at a time and reconnects.
- `KvKeys`, `KvStore`: path keys as strings, and a string range in place of a
  prefix filter, under the string order of section 2.4 of Indexed Database
  API 3.0.

Code that changes state is a class or a method with loops, proved equal to a
function of the state before; the laws are lemmas about these functions. What
such a function computes is also stated without it, in characters, offsets, times
and events: those are the modules named `...Forms` and `...Laws`, and
`ListedLines`. The diff library is any function from two texts to parts that rebuild both, with no
edit between equal texts. Timers, saves, network answers and the outcome of
evaluating an expression are inputs or events of a run.

## Where a promise fails

Each of these is proved with an input that shows it, and with the exact
condition under which the code keeps the promise.

- The classification of edits (`client/external_merge.ts:97`) is said to list
  every base line a side did not leave intact. A pure deletion that ends where
  a line starts but begins inside another joins the two and lists only the
  first. Every unlisted line survives if and only if, after each such deletion,
  another change begins further on in the line where it ends: `LineSurvival`.
- A batch of events is to bring every file in it up to date. An event is not
  handled if and only if noting an origin fails, the batch is a flood
  (`client/realtime_events.ts:247-256`) whose space sync fails, or the sync of
  the file fails with no deletion beside it: `RealtimeRuns`.
- One flush at a time is the point of keeping the flush timer set
  (`client/realtime_events.ts:218-221`). A restart begins a new lifetime if and
  only if nothing was pending or being flushed; otherwise two flushes can
  overlap or none is scheduled. A flush whose origin note throws, and no other,
  ends all flushing: `RealtimeRuns`.
- A start line at which the scan of an earlier one stops is passed over, with
  the hunk it may begin. A hunk that can be read is found if and only if its
  start line is not passed over: `ConflictCompleteness`.
- Resolving an SB hunk whose sections open or close a fence can uncover or hide
  git hunks after it. The others are kept, whatever follows the hunk, if and
  only if the chosen lines leave the fence the hunk left: `FencesMatter`,
  `FencesDecide`.
- A confirmed save need not be the save of the current logout attempt when an
  id is used twice. While that save is not over, a confirmation can come early
  if and only if a call of another attempt with its id still waits, on a save
  that has not failed: `LogoutRuns`.
- A key part that starts with U+FFFF can be missed by a prefix query; which keys
  are found is characterised exactly: `KvKeys`.
- A directive comes back from baking if and only if its expression holds no
  `-->`: `BakeRoundTrip`.

The second and third are properties of the class `RealtimeEvents` under the
types of its hooks. The client's own wiring does not trigger them: it passes
`syncSpace` and `syncFile` with a `.catch` on the promise
(`client/client.ts:577`, `client/client.ts:581`), so that neither rejects, its
`noteOrigin` only writes a map (`client/client.ts:559-567`), and it starts the
subscriber once and stops it once (`client/client.ts:598-600`,
`client/client.ts:1484`). The logout item is a property of the participant under
any source of messages: the client draws a fresh random id for each logout
(`client/logout.ts:275`).

The comment on nested start lines (`client/codemirror/conflict_markers.ts:194-199`)
says a git start line is exempt only when the fence mask is not respected. The
code exempts it when the mask is respected and covers the line; the model follows
the code.

## Model

| member | source | states |
|---|---|---|
| LineDiff.FindBestSlide | client/codemirror/cm_util.ts:46-56 | The two nested loops over `from`, `at` and `best` find the slide the laws below are about. |
| LineDiff.SlideOne | client/codemirror/cm_util.ts:36-62 | One round overwrites the edit and both neighbours in the array and nothing else; edits beside another edit stay. |
| LineDiff.AlignToLineStarts | client/codemirror/cm_util.ts:34-64 | The in-place pass over the framed list, then the filter, equals the fold of all slides in order. |
| LineDiff.DiffAndPrepareChanges | client/codemirror/cm_util.ts:4-23 | The pushed changes are those of the aligned parts at their old-text offsets. |
| LineDiffLaws.ScanIsExact | client/codemirror/cm_util.ts:50-56 | The positions scanned for an edit are exactly those that leave the same remaining text. |
| LineDiffLaws.BestSlideIsBest | client/codemirror/cm_util.ts:46-57 | The chosen slide leaves the same remaining text, no equivalent position scores higher, and it moves only for a higher score, to the first position that has it. |
| SlideForms.BestSlideIff | client/codemirror/cm_util.ts:46-57 | A position is the one chosen if and only if the edit can stand there, no place where it can has more of its ends at line breaks or edges of the text, and it is the old one unless more are gained, and then the first with as many. |
| SlideForms.AlignedInRounds | client/codemirror/cm_util.ts:34-64 | A diff is aligned by one round for each part in order, an empty kept part put at either end: a round slides an edit between two kept parts to that position and keeps all else. |
| SlideForms.NonEmptyOfBoth | client/codemirror/cm_util.ts:63 | The filter works part by part, and in order. |
| SlideForms.NonEmptyOfOne | client/codemirror/cm_util.ts:63 | It leaves out exactly the empty parts. |
| LineDiffLaws.MovedKeepsTexts | client/codemirror/cm_util.ts:59-61 | Moving one edit inside a list keeps both texts the list rebuilds. |
| LineDiffLaws.AlignedKeepsTexts | client/codemirror/cm_util.ts:34-64 | All slides together keep both reconstructions, for any list of parts. |
| LineDiffLaws.SpecsAreEdits | client/codemirror/cm_util.ts:10-22 | The list of changes, read as a change set, is the walk over the parts. |
| SlideForms.SpecsInOrder | client/codemirror/cm_util.ts:10-22 | Part by part, each edit is listed at the offset that the kept and deleted text before it takes up. |
| LineDiffLaws.DiffedRebuilds | client/codemirror/cm_util.ts:4-23 | The changes applied to the old text give the new text. |
| LineDiffLaws.DiffedEqual | client/codemirror/cm_util.ts:4-23 | Equal texts give the empty change set. |
| ChangeSetLaws.InvertUndoes | client/codemirror/external_presence.ts:115-120 | The inverse restores the document, and its inverse is the change set itself. |
| ChangeSetLaws.ApartIfNothingShared | client/external_merge.ts:61-76 | Two change sets over one document that touch no common position interleave without overlap. |
| ChangeSetLaws.BothMakesAllReplacements | client/external_merge.ts:56-58 | The joint change set makes every replacement of both sides and no other. |
| Convergence.MapSetMerges | client/external_merge.ts:56-58 | The walk that maps one change set over another, from any state it passes through, writes the text an even-handed reading of both gives. |
| Convergence.MergedIsSymmetric | client/external_merge.ts:56-58 | That reading does not depend on which side is called the first. |
| Convergence.MapConverges | client/external_merge.ts:56-58 | For any two change sets of one document, overlapping or not, mapping either over the other gives one text. |
| Convergence.ApartPatchesBoth | client/external_merge.ts:56-58 | Where the sides touch no common position, mapping in either order gives both edit sets patched into the base, every replacement of both and no other. |
| Convergence.MapLosesNoInsertion | client/external_merge.ts:23-25 | All text either side inserts stands in that text. |
| MergeOrder.OrderAtOnePlace | client/external_merge.ts:56-58 | Of two replacements at one place the text of the one that deletes less comes first, and of two that delete as much that of the side named. |
| MergeOrder.OrderAtTwoPlaces | client/external_merge.ts:56-58 | Of two at two places, overlapping or not, both texts are written, the earlier first, with what both keep between them and nothing that either deletes. |
| ChangeSetLaws.InsertedTextSurvives | client/external_merge.ts:23-25 | Text a change set inserts stands in the text it gives. |
| ChangePositions.ChangesInOrder | client/external_merge.ts:110 | The reported changes, neighbouring sections joined, are ordered, inside both documents, and kept text stands between any two. |
| ChangePositions.SectionsInChanges | client/external_merge.ts:110 | Every section that replaces text lies in a reported change. |
| ChangePositions.TextAfter | client/codemirror/external_presence.ts:60 | What follows a mapped position is what the rest of the change set makes of what followed the position. |
| ChangePositions.MapPosSides | client/codemirror/external_presence.ts:57-62 | A position inside deleted text goes to the start or the end of what replaces it, one at either end stays on its side, and text inserted at it is on the side asked for. |
| Lines.IndexLines | client/external_merge.ts:170-174 | The loop over line breaks finds exactly the offsets at which lines start. |
| Lines.FindLine | client/external_merge.ts:176-185 | The binary search finds the number of line breaks in front of a position. |
| Lines.LineBrackets | client/external_merge.ts:166-188 | A position lies from the start of its line up to the start of the next. |
| ListedLines.LineCountsBreaks | client/external_merge.ts:166-188 | A line is numbered by the line breaks in front of it. |
| ListedLines.IndexOfLine | client/external_merge.ts:166-188 | A stretch of the base that starts behind a break and ends with its first, or with the base, is the line of that number in the index. |
| ChunkCollision.ClassifyEdits | client/external_merge.ts:103-139 | The walk over the changes adds up the lines and boundaries of each; which these are, the next two rows say. |
| ListedLines.ListedIff | client/external_merge.ts:110-137 | A base line is listed if and only if some change deletes a character of it, its break included, inserts past its start and within it, or ends at its start with non-empty text that does not end in a break. |
| ListedLines.BoundaryIff | client/external_merge.ts:111-118 | A boundary is listed if and only if some change deletes nothing and inserts there, at the start of a line, text that ends in a break. |
| ListedLines.ListedAreLines | client/external_merge.ts:103-139 | Nothing is listed that is not a line of the base. |
| ChunkCollision.FindRunStart | client/external_merge.ts:158-164 | The loop down the rewritten lines ends at the start of their run. |
| ChunkCollision.ClaimedChunks | client/external_merge.ts:141-156 | The two loops claim the key of every line and boundary, whatever order the sets are walked in. |
| ChunkCollision.CollidesInSameChunk | client/external_merge.ts:77-94 | The test is true exactly when both sides claim a common key. |
| ChunkLaws.KeysNameChunks | client/external_merge.ts:141-164 | Two edits get equal keys if and only if no base line that both sides leave intact lies between them. |
| ChunkLaws.CollideIffSharedChunk | client/external_merge.ts:61-94 | The test is true if and only if some diff3 chunk is edited by both sides. |
| ListedLines.CollideIff | client/external_merge.ts:61-94 | The sides collide if and only if each lists a line or boundary, and every base line between the two is listed by one of them. |
| ChunkLaws.NoCollisionSeparates | client/external_merge.ts:77-188 | Without a collision a whole, non-empty base line that neither side rewrites lies between any change of one side and any of the other. |
| LineSurvival.UnlistedLinesSurvive | client/external_merge.ts:96-139 | Every line not listed stands in the edited text, unchanged and as a whole line, if and only if after each pure deletion that begins inside a line and ends at the start of another, a further change begins inside the line where it ends. |
| LineSurvival.ListedLinesAreTouched | client/external_merge.ts:110-137 | Some change reaches every listed line. |
| LineSurvival.HalfLineDeletionJoinsLines | client/external_merge.ts:127-136 | The condition is needed: a deletion in `ab`, `cd` that lists only the first line while the second is gone. |
| LineSurvival.KeptText | client/external_merge.ts:96-101 | Text no change reaches into is carried over whole, to where its start is mapped. |
| ConflictMarkers.ComputeFenceMask | client/codemirror/conflict_markers.ts:160-186 | The loop marks exactly the lines strictly inside a fence. |
| ConflictForms.MaskIff | client/codemirror/conflict_markers.ts:160-186 | A line is masked if and only if some line before it opens a fence while none is open and no line from there on, itself included, closes it with at least as many of the same mark. |
| MarkerForms.MarkersIff | client/codemirror/conflict_markers.ts:60-133 | A line is a start, base or end marker with some hash, size and label if and only if it is written as one: the prefix and the hash, or 3 to 256 marks and then nothing, or a space and the label, up to one carriage return. |
| MarkerForms.SeparatorIff | client/codemirror/conflict_markers.ts:138-140 | A separator of some size is that many equals signs, up to a carriage return. |
| MarkerForms.FenceIff | client/codemirror/conflict_markers.ts:166-173 | A line opens a fence if and only if at most three spaces stand before three or more of one mark. |
| MarkerForms.ClosingFenceIff | client/codemirror/conflict_markers.ts:175-180 | It can close one if and only if white space alone follows them. |
| MarkerForms.SpaceIff | client/codemirror/conflict_markers.ts:175 | White space, by code point. |
| ConflictMarkers.ScanForLine | client/codemirror/conflict_markers.ts:230-266 | The loop stops at the first start marker it minds or the first base line or separator asked for. |
| ConflictMarkers.ScanForEnd | client/codemirror/conflict_markers.ts:268-298 | The same for an end line of the wanted kind and size. |
| ConflictMarkers.ParseHunk | client/codemirror/conflict_markers.ts:325-496 | The phases of one hunk, with their early exits and the line each goes on from. |
| ConflictMarkers.FindHunks | client/codemirror/conflict_markers.ts:307-324 | The scan terminates and finds the hunks the recursive reading of the lines finds. |
| ConflictMarkers.FindConflictHunks | client/codemirror/conflict_markers.ts:307-499 | Every hunk found has its marker lines in the document, and its offsets and sections are those of these lines; what these are, the rows on `ConflictForms` say. |
| ConflictHunks.HunksAreClean | client/codemirror/conflict_markers.ts:200-212 | In each hunk no line past the start is a start marker the scan minds, and for git the markers stand outside of fences. |
| ConflictCompleteness.HunksAreExact | client/codemirror/conflict_markers.ts:214-298 | The markers of a hunk are of the kind and size of its start line, and each is the first such line, outside of fences where these count, after the one before. |
| ConflictCompleteness.HunksAreComplete | client/codemirror/conflict_markers.ts:313-496 | A hunk is found if and only if it can be read at its start line and this line is not passed over, that is, the scan of the start line before it did not stop there or was itself passed over. |
| ConflictForms.FoundIff | client/codemirror/conflict_markers.ts:313-496 | A hunk is found if and only if its markers are as the two rows above say and its start line is not passed over. |
| ConflictForms.StopsIff | client/codemirror/conflict_markers.ts:313-496 | A start line stops the scan of the hunk that begins at the one before if and only if no hunk can be read there and, for SB, no fenced start line stands between. |
| ConflictCompleteness.StrayStartHidesHunk | client/codemirror/conflict_markers.ts:410-413 | A stray start line hides the hunk that follows it. |
| ConflictHunks.HunksAreOrdered | client/codemirror/conflict_markers.ts:498 | Hunks come in order and do not overlap. |
| ConflictHunks.SBSectionsHaveNoStart | client/codemirror/conflict_markers.ts:194-199 | No line inside an SB hunk is a start marker of either kind. |
| ConflictHunks.HunkTilesText | client/codemirror/conflict_markers.ts:377-397 | The slice of a hunk is exactly start line, first section, base line and section if any, separator, second section, end line. |
| ConflictForms.HunkIsWritten | client/codemirror/conflict_markers.ts:377-394 | The slice of a hunk is its start line, written out of the hash or label of the first section, that section, the base line with what the base says and its section, a separator, the second section, and the end line with what that says, all markers of one size. |
| ConflictForms.SectionsStand | client/codemirror/conflict_markers.ts:142-150 | Each section starts behind its marker line and ends where the next begins. |
| ConflictHunks.LocatedInOrder | client/codemirror/conflict_markers.ts:468-496 | In the text, too, a hunk ends before the next begins. |
| ConflictLocality.HunksPrefix | client/codemirror/conflict_markers.ts:313-496 | Hunks in front of a start line depend on the lines in front of it alone. |
| ConflictLocality.HunksSuffix | client/codemirror/conflict_markers.ts:313-496 | The same lines with the same mask further down hold the same hunks further down. |
| ConflictLocality.GitSection | client/codemirror/conflict_markers.ts:160-186 | The lines between two unmasked markers, put where no fence is open, start nothing and leave no fence open. |
| ConflictResolution.ResolvedText | client/codemirror/conflict_markers.ts:501-526 | The edit applied to the text gives the text of the resolved lines. |
| ConflictForms.ActionsMean | client/codemirror/conflict_markers.ts:501-526 | The edit of each action puts the lines of the first section, of the second, of both in this order, or of the base if there is one in the place of the hunk. |
| ConflictResolution.ResolveKeepsOthers | client/codemirror/conflict_markers.ts:501-526 | Resolving a hunk by any allowed action leaves exactly the other hunks, those after it moved with their lines, when it is a git hunk, leaves the fence it found, or no git start line follows. |
| FencesDecide.KeepsOthersIff | client/codemirror/conflict_markers.ts:501-526 | In every continuation of the document past a hunk the hunk is found, and resolving it keeps the others in all of them if and only if the chosen lines leave the fence the hunk left, which those of a git hunk always do. |
| ConflictOffsets.ResolveMovesOthers | client/codemirror/conflict_markers.ts:501-526 | Each other hunk is found again with the same kind and sections, in place if before and shifted by the growth of the text if after. |
| ConflictOffsets.GrowthOfEdit | client/codemirror/conflict_markers.ts:525 | That growth is the length of the inserted text less that of the replaced text. |
| ConflictOffsets.PlainSettles | client/codemirror/conflict_markers.ts:501-526 | In a document without fence lines, or without git start lines, every hunk can be resolved on its own, and what is left is such a document. |
| ConflictOffsets.ResolveAll | client/codemirror/conflict_markers.ts:501-526 | Resolving hunks of such a document in any order, by any allowed actions, ends with none left. |
| ConflictTexts.EditedIsResolved | client/codemirror/conflict_markers.ts:501-526 | Applying the edit to the text and reading the text again gives the resolved document. |
| ConflictTexts.EditedTextHoldsOthers | client/codemirror/conflict_markers.ts:307-526 | The hunks found in the edited text are exactly the others, each with its kind and sections, in place or moved by what the edit adds, when the fences after the hunk are settled. |
| ConflictTexts.AllResolved | client/codemirror/conflict_markers.ts:501-526 | Resolving hunks of a text by their edits, reading it again each time, in any order and by any allowed actions, ends with none left, in texts without fence lines or without git start lines. |
| FencesMatter.ResolvingUncoversHunk | client/codemirror/conflict_markers.ts:160-186 | A document with one hunk whose resolution uncovers another. |
| FencesDecide.ResolvingHidesHunk | client/codemirror/conflict_markers.ts:160-186 | A document with two hunks of which resolving the first hides the second. |
| ExternalMerge.ComputeExternalChanges | client/external_merge.ts:27-59 | The chain of early returns, loops and all, computes the merge the laws are about. |
| ExternalMerge.TestConflictMarkers | client/external_merge.ts:194-198 | True exactly when a hunk in SB's markers is found in the text; when that is, the next rows say. |
| EditorLaws.ConflictedIff | client/external_merge.ts:190-198 | The test is true if and only if a line that starts `<<<<<<< SB sha256:` is followed, with no start line of either kind between, by the first that starts `||||||| SB BASE sha256:`, the first separator of seven and the first that starts `>>>>>>> SB sha256:`, and is not passed over. |
| EditorLaws.MarkersCount | client/external_merge.ts:194-198 | So it is whenever such four lines stand in the text and no start line before them. |
| EditorLaws.NoStartNotConflicted | client/external_merge.ts:190-198 | It is false for a text in which no line starts so, git hunks or not. |
| ExternalMerge.MergeConverges | client/external_merge.ts:27-59 | A merge gives the unsaved edits rebased onto the disk text, whether withholding is switched on or off. |
| ExternalMerge.MergePatchesBoth | client/external_merge.ts:50-58 | With withholding on, the merged text is also both edit sets patched into the base at once, every replacement of both and no other. |
| ExternalMerge.DiskTextComesFirst | client/external_merge.ts:56-58 | Where each side replaces one stretch and both begin at one place, the text of the disk comes before that of the buffer unless it deletes more. |
| ExternalMerge.MergeLosesNoInsertion | client/external_merge.ts:23-25 | Text inserted by either side stands in the merged text. |
| ExternalMerge.WithheldIffSharedChunk | client/external_merge.ts:49-55 | An update is withheld if and only if that is asked for, all three texts differ where they must, no markers force adoption, and both sides edited one diff3 chunk. |
| ExternalMerge.AdoptsDisk | client/external_merge.ts:33-48 | In each earlier branch the buffer ends up with the disk text. |
| ExternalMerge.SameDiskChangesNothing | client/external_merge.ts:27-59 | An update that repeats the base is neither withheld nor changes anything. |
| ContentManager.ContentManager.ApplyExternalPatches | client/content_manager.ts:723-766 | The whole new state, and that it answers yes exactly when the buffer was sent changes. |
| ContentManager.ContentManager.DispatchExternal | client/content_manager.ts:768-777 | The buffer alone changes, by the changes given. |
| ContentManager.ContentManager.SettlePendingExternal | client/content_manager.ts:806-830 | A retry clears the withheld update and returns the base exactly when the collision persists, with buffer and base unchanged. |
| ContentManager.ContentManager.AdoptOwnWriteAsBase | client/content_manager.ts:322-332 | An own write older than the base changes nothing; any other gives the base its text and time, and the buffer never changes. |
| EditorRuns.OfferedUpdate | client/content_manager.ts:747-765 | With withholding on or off, a step that offers a marker-free update withholds it, base and buffer unchanged, or makes its text the base and leaves the buffer equal to it or to it with the unsaved edits rebased. |
| EditorLaws.OfferedIff | client/content_manager.ts:731-745 | An update is dropped if and only if it is older than the one withheld, or, if that has no time or there is none, than the base. |
| EditorLaws.WithheldOnlyIfAsked | client/external_merge.ts:49-55 | No step withholds an update with withholding off. |
| EditorLaws.ConflictedIsTakenIn | client/external_merge.ts:44-48 | A conflicted disk text other than the base becomes base and buffer. |
| EditorLaws.UneditedTakesWhole | client/external_merge.ts:38-41 | Without unsaved edits any update offered becomes base and buffer. |
| EditorRuns.NoInsertionLost | client/content_manager.ts:716-718 | No step that offers an update loses unsaved inserted text. |
| EditorLaws.UnsavedInsertionStays | client/external_merge.ts:190-198 | An update in which no line starts like an SB hunk never loses an unsaved insertion. |
| EditorRuns.BaseWasOnDisk | client/content_manager.ts:723-830 | Over any run the base and a withheld text are texts the disk has held. |
| EditorLaws.BaseIsLastAdopted | client/content_manager.ts:317-830 | Over any run text and time of the base are those of the last update taken in or own write not older than the base, and those of the beginning if there was none. |
| EditorLaws.UpdateAfterOwnWrite | client/content_manager.ts:317-332 | After any run, once the buffer has been written and the write is not older than the base, an update that is not dropped as older becomes base and buffer. |
| EditorRuns.RedeliveryChangesNothing | client/content_manager.ts:723-766 | Delivering an applied update or a stale one again, between local edits and retries, leaves base, time and everything but the local edits as they were. |
| EditorRuns.BaseTimeNeverGoesBack | client/content_manager.ts:317-332 | Over any run with all times known, no withheld update is ever older than the base if and only if each own write is at most as new as the update withheld at that moment; the time of the base then never decreases. |
| ExternalPresence.UpdatePresence | client/codemirror/external_presence.ts:53-92 | Ranges are moved, new ones added without their final line break, expired ones dropped, in that order. |
| PresenceLaws.PresenceFits | client/codemirror/external_presence.ts:50-93 | After any transaction every range lies in the new document. |
| PresenceForms.PresenceIff | client/codemirror/external_presence.ts:50-93 | After a transaction a range is there if and only if it is one moved along and not turned around, or that of a change of an external transaction up to its final line break, with its time and source, and it is younger than 5000 ms at each sweep. |
| PresenceForms.SweptIff | client/codemirror/external_presence.ts:85-89 | A range survives sweeps if and only if it is younger than 5000 ms at each of them. |
| PresenceForms.OlderComeFirst | client/codemirror/external_presence.ts:80-82 | New ranges come behind those there were. |
| PresenceLaws.UntouchedRangeKeepsText | client/codemirror/external_presence.ts:56-64 | A range no change reaches into still covers its text, and typing at either end stays outside. |
| PresenceLaws.NewRangeCoversInsertion | client/codemirror/external_presence.ts:70-79 | A new range covers the inserted text but for a line break at its end. |
| PresenceLaws.UndoStaysTracked | client/codemirror/external_presence.ts:132-204 | After any transaction every kept inverse applies to the new document, and neither stack holds more than 100. |
| PresenceForms.CorrectedIff | client/codemirror/external_presence.ts:140-162 | A transaction counts as undo or redo of an external edit if and only if it is a user's undo or redo and its changes are the newest of that stack; one that changes no text leaves both stacks. |
| PresenceForms.UndoneIsRedoable | client/codemirror/external_presence.ts:145-162 | Then its inverse leaves the one stack, the rest is mapped, and its own inverse goes on top of the other, mapped as well, of which the newest 99 stay. |
| PresenceForms.OtherEditsCarry | client/codemirror/external_presence.ts:163-188 | After any other change the stacks hold the entries mapped over it that still change something, with the inverse of an external one on top; after a new edit that history records nothing is left to redo. |
| PresenceForms.NewestAreKept | client/codemirror/external_presence.ts:190-195 | Of a longer stack the newest 100 entries stay. |
| PresenceLaws.ReachableIsSound | client/codemirror/external_presence.ts:45-204 | Both hold in every state reachable from an opened document by transactions. |
| PresenceLaws.UndoRedoRoundTrip | client/codemirror/external_presence.ts:122-162 | Undoing an external edit restores the text and is recognised; redoing it is recognised too and restores the edited text and the same undo. |
| PresenceLaws.UndoKeepsLocalEdits | client/codemirror/external_presence.ts:122-169 | After an external edit and any run of local transactions, overlapping it or not, the newest tracked inverse is the one carried through them, unless nothing is left of it; undoing it is recognised and leaves what these edits, rebased, make of the text before the external one. |
| PresenceLaws.LocalEditCarries | client/codemirror/external_presence.ts:164-204 | A local transaction leaves the newest inverse on top of its stack, mapped through its changes, unless nothing is left of it to undo. |
| BakedSections.FindBakedSections | client/baked_sections/regions.ts:30-51 | The loop over the stateful expression finds the sections of the recursive reading of the text. |
| BakeForms.SectionsAre | client/baked_sections/regions.ts:30-51 | Each section runs from the first opening marker behind the one before to the first closing marker behind that, names the trimmed text of the marker up to its first `-->`, and behind the last no opening marker is closed. |
| BakedSections.IndexOf | client/baked_sections/regions.ts:36 | First occurrence at or after an offset. |
| BakedSections.ExecOpen | client/baked_sections/regions.ts:12-34 | The next opening marker at or after an offset: the prefix, white space, up to the first `-->`. |
| Bake.ComputeBakeEdits | client/baked_sections/bake.ts:19-44 | One edit for each section that can be evaluated, in order; the others are listed as skipped, with expression and reason. |
| BakeForms.OneSectionMore | client/baked_sections/bake.ts:26-42 | Each section in turn is evaluated and adds either an edit from the start to the end of its body or its quoted expression with the reason. |
| BakeForms.NewBodyIs | client/baked_sections/bake.ts:36-41 | The new body is the escaped markdown without white space at its ends, between two line breaks. |
| BakeForms.EscapedIs | client/baked_sections/regions.ts:58-60 | Escaping turns each closing marker into the spaced form and keeps everything else. |
| Bake.BakeSectionsInText | client/baked_sections/bake.ts:53-69 | The backward loop applies all edits, last first. |
| Bake.UnbakeSectionAtCursor | client/baked_sections/bake.ts:111-132 | The first section whose span holds the cursor, both ends included, is replaced by its directive; none otherwise. |
| BakeForms.SectionAtIff | client/baked_sections/bake.ts:117-119 | The section at the cursor is the first whose span holds it, ends included. |
| BakeForms.UnbakedIs | client/baked_sections/bake.ts:126-128 | Its span, and nothing else, becomes `${EXPR}`. |
| BakeLaws.EscapedIsFree | client/baked_sections/regions.ts:53-60 | An escaped body holds no closing marker, not even one formed at a seam. |
| BakeLaws.NewBodyIsFree | client/baked_sections/bake.ts:36-41 | Nor does the body that is written. |
| BakeLaws.FindOpenLocal | client/baked_sections/regions.ts:12-34 | The opening marker found depends on the text up to its own end only. |
| BakeLaws.BackToFront | client/baked_sections/bake.ts:62-67 | Replacing from the back is one pass from the front. |
| BakeLaws.RebakingKeepsStructure | client/baked_sections/bake.ts:46-69 | For any evaluator the result has the same number of sections with the same expressions in order, every character outside of bodies is kept, and each body is the one evaluated or, when skipped, the old one. |
| BakeLaws.RebakingSettles | client/baked_sections/bake.ts:46-69 | With a fixed evaluator, baking twice is baking once. |
| BakeRoundTrip.BakeUnbake | client/codemirror/lua_widget.ts:512-514 | In a text with no earlier marker prefix, baking a directive with any body and unbaking at any cursor inside gives the directive back, expression trimmed, if and only if the expression holds no `-->`. |
| Logout.LogoutParticipant.Handle | client/logout.ts:87-154 | A message up to the first `await`: the whole new state and what is answered. |
| Logout.LogoutParticipant.Resume | client/logout.ts:124-148 | A waiting call that goes on: the whole new state and what is answered. |
| LogoutRuns.StepDeparts | client/logout.ts:87-156 | A tab leaves at a force, or where a completed call finds its own attempt current, saved and not preserved, and at no other step. |
| LogoutRuns.LeavesOnlyWhenSaved | client/logout.ts:139-148 | Over any interleaving, a tab that leaves without a force does so after a save request began the current attempt, a matching completion came while it was current and its save succeeded, and never once preserved. |
| LogoutRuns.CompletedLogoutLeaves | client/logout.ts:139-148 | A saved, completed and not preserved logout does leave. |
| LogoutRuns.FrozenIsActive | client/logout.ts:83-85 | In every reachable state a frozen editor is active. |
| LogoutRuns.PreservedStaysOpen | client/logout.ts:87-156 | From then until a force it stays preserved, unfrozen, and does not leave. |
| LogoutRuns.PreservedIsOpen | client/logout.ts:87-156 | Without a force no preserved editor is ever frozen. |
| LogoutLaws.RevokedIff | client/logout.ts:87-154 | Over any run signing out is final if and only if a force, a revocation, a request to preserve or a completion of the then current attempt has come. |
| LogoutLaws.PreservedIff | client/logout.ts:97-151 | Over any run the editor is preserved if and only if a request for that has come, or a cancel of the then current attempt when signing out was final. |
| LogoutLaws.AttemptChanges | client/logout.ts:102-151 | An attempt begins with a save request while there is none and the editor is not preserved, with a save of its own, and ends with its cancel before signing out is final. |
| LogoutLaws.CancelKeepsTab | client/logout.ts:149-153 | After any run and a cancel of the current attempt, no later step but a force makes the tab leave for it; the editor is unfrozen, and preserved if signing out is final. |
| LogoutLaws.FrozenIff | client/logout.ts:87-153 | A step freezes the editor if it begins an attempt or is a force; which steps unfreeze it, and no others. |
| LogoutLaws.AnswersMean | client/logout.ts:87-138 | Each answer, or rejection without a port, is given in exactly one case. |
| LogoutLaws.LeavesWithFlag | client/logout.ts:87-148 | The tab leaves with the flag of the force or of the completion that makes it leave. |
| LogoutLaws.EachRequestAnswered | client/logout.ts:87-138 | Over any run each save request or force with a port has been answered once, or its call still waits. |
| LogoutRuns.ConfirmedMeansSaved | client/logout.ts:124-128 | A confirmation means that the save its call waited for succeeded, one of an attempt with its id, and the current attempt when no id names two. |
| LogoutRuns.ConfirmsEarlyIff | client/logout.ts:102-128 | While the save of the current attempt is not over, some run that keeps it current and unsaved confirms it if and only if a call of another attempt with the same id waits for an answer, on a save that has not failed; a call that joins the attempt waits for its own save. |
| LogoutRuns.ReusedIdConfirmsEarly | client/logout.ts:124-128 | With an id used again a confirmation can come while the current save is unfinished. |
| RealtimeEvents.Flush | client/realtime_events.ts:235-281 | The calls of a flush in order, for every answer of the hooks, and when it rejects. |
| RealtimeLaws.NotesComeFirst | client/realtime_events.ts:241-245 | First the origins that changes name, up to one that throws if one does. |
| RealtimeLaws.NotesOfBoth | client/realtime_events.ts:241-245 | Origins are noted in the order of the changes. |
| RealtimeLaws.FloodIff | client/realtime_events.ts:238-247 | A flood is a batch with a resync or four changes. |
| RealtimeLaws.ThoseOfBoth | client/realtime_events.ts:236-240 | The changes and deletions of a batch are taken in its order. |
| RealtimeLaws.FloodInOrder | client/realtime_events.ts:247-256 | For a flood a space sync follows if the service worker is active, and a list refresh unless that sync fails. |
| RealtimeLaws.SmallBatchInOrder | client/realtime_events.ts:257-274 | Otherwise each change in turn is synced with its sha256 hash if the service worker is active, and probed unless that sync fails. |
| RealtimeLaws.SmallBatchEnds | client/realtime_events.ts:275-277 | A list refresh comes last if the batch has a deletion, and nothing else. |
| RealtimeEvents.RealtimeEvents.HandleEvent | client/realtime_events.ts:216-225 | An event replaces a pending one of its name in place, and sets the flush timer if it is not set. |
| RealtimeLaws.SetKeepsPlaces | client/realtime_events.ts:216-217 | The others keep their places, and a new name comes last. |
| RealtimeEvents.RealtimeEvents.FinishFlush | client/realtime_events.ts:227-233 | The end of a flush: its calls, the timer cleared or set again, or left alone by a flush that rejects. |
| RealtimeEvents.RealtimeEvents.OnError | client/realtime_events.ts:189-212 | The failed stream is closed and reported down, and one retry set, with the delay for its case. |
| RealtimeEvents.RealtimeEvents.OnOnline | client/realtime_events.ts:145-153 | Only a waiting retry is replaced by a connection. |
| RealtimeEvents.RealtimeEvents.Stop | client/realtime_events.ts:105-119 | The current stream is closed, both timers cleared, and the stream reported down. |
| RealtimeEvents.RealtimeEvents.OnReceipt | client/realtime_events.ts:121-127 | A sign of life is reported at most once per five seconds. |
| RealtimeRuns.NoStreamNotUp | client/realtime_events.ts:60-132 | Over any run, starts and stops included, the last report says up only while some stream is open, and two such reports in a row are five seconds apart. |
| RealtimeLaws.ReportsMean | client/realtime_events.ts:105-212 | At every step of every run: up is reported for a sign of life on an open stream five seconds or more after the last report, if that was up, and down for a stop or a failed stream; nothing else is. |
| RealtimeRuns.LifetimeKeepsAlive | client/realtime_events.ts:98-233 | From a start with nothing under way, over a lifetime without a rejecting flush: pending events mean a flush waits or runs, at most one flush is live, an open stream and a retry exclude each other, delays stay in 1000 to 30000 ms or are 60000. |
| RealtimeRuns.FailuresBackOff | client/realtime_events.ts:167-212 | After a connection opens, failures in a row wait 1, 2, 4, 8, 16 and then 30 seconds each. |
| RealtimeLaws.FailureWaits | client/realtime_events.ts:189-212 | After any run a failed stream is closed and waits a minute if none ever opened and the browser gave it up, else the current delay, which doubles up to half a minute; once stopped nothing is scheduled. |
| RealtimeLaws.WaitEnds | client/realtime_events.ts:145-160 | Coming online ends a wait with a connection and the delay back at a second, a retry that is due without the latter; without a wait, or stopped, nothing is opened. |
| RealtimeLaws.UrlIsLastStarted | client/realtime_events.ts:98-103 | Over any run connections go to the address the subscriber was last started with. |
| RealtimeRuns.NoEventLost | client/realtime_events.ts:215-241 | Over any run a pending event is still pending, was replaced by a newer one of its name while pending, is in a running flush, or in one that is over. |
| RealtimeRuns.StepConserves | client/realtime_events.ts:215-241 | The number of events pending and taken grows by one with each event that replaces none, and never otherwise. |
| RealtimeRuns.BatchHandledIff | client/realtime_events.ts:235-281 | By the calls a flush makes, each event of its batch is probed, synced without a failure or covered by a list refresh, if and only if no origin note fails, the batch is no flood whose space sync fails, and the event is no change whose file sync fails with no deletion in the batch. |
| RealtimeRuns.FailingCallsDropEvents | client/realtime_events.ts:235-281 | An input for each of the three failures, with the calls made and no event handled. |
| RealtimeRuns.EventFate | client/realtime_events.ts:215-281 | Both together, for every event a stream delivers, from any state a new subscriber can be in. |
| RealtimeRuns.RestartIsAliveIff | client/realtime_events.ts:98-119 | A stop and start begins a lifetime if and only if nothing was pending or being flushed, and schedules no flush for what was. |
| RealtimeRuns.RestartCanOverlap | client/realtime_events.ts:98-119 | Otherwise two flushes can run at once. |
| RealtimeRuns.SecondStartLeaks | client/realtime_events.ts:98-119 | After a second start without a stop the first stream stays open over any run, stops and starts included, until it fails by itself. |
| RealtimeRuns.StopSilences | client/realtime_events.ts:105-119 | After a stop of a live subscriber nothing is opened, scheduled or taken until the next start. |
| RealtimeRuns.ThrowingNoteStopsFlushing | client/realtime_events.ts:227-245 | When noting an origin throws, nothing is flushed any more until the subscriber is stopped; when none does, the lifetime goes on. |
| RealtimeRuns.FlushingFails | client/realtime_events.ts:98-245 | A run of a new subscriber with one flush running, after which a restart lets two overlap, and a throwing note ends all flushing. |
| KvKeys.BuildKey | client/data/indexeddb_kv_primitives.ts:108-118 | The string of a key, or none exactly when a part holds the separator. |
| KvKeys.BuiltIff | client/data/indexeddb_kv_primitives.ts:108-118 | A key is refused if and only if a unit 0 is in a part; any other is its parts joined by single units 0. |
| KvKeys.BeforeIff | client/data/indexeddb_kv_primitives.ts:82-87 | One string sorts before another if and only if they agree up to where the first ends or has the smaller code unit. |
| KvKeys.ExtractUndoesBuild | client/data/indexeddb_kv_primitives.ts:108-122 | Reading a key back from its string gives the key if and only if it is not empty; the empty key shares its string with the key of one empty part. |
| KvKeys.BuildUndoesExtract | client/data/indexeddb_kv_primitives.ts:108-122 | Every string is the string of the key read from it. |
| KvKeys.RangeIsPrefixFilter | client/data/indexeddb_kv_primitives.ts:82-87 | A key lies in the range of a prefix if and only if it strictly extends it and its next part does not start with U+FFFF or is that alone, at the end. |
| KvKeys.PlainRangeIsPrefixFilter | client/data/indexeddb_kv_primitives.ts:82-87 | Where no part starts with U+FFFF, the range is the prefix filter. |
| KvKeys.HighPartIsMissed | client/data/indexeddb_kv_primitives.ts:82-87 | Elsewhere a key can be missed. |
| KvStore.IndexedDBKvPrimitives.BatchGet | client/data/indexeddb_kv_primitives.ts:50-55 | The values in the order of the keys, none at all when a key is refused. |
| KvStore.IndexedDBKvPrimitives.BatchSet | client/data/indexeddb_kv_primitives.ts:57-66 | Entries are stored in turn up to the first refused key; the order of rows is kept. |
| KvStore.IndexedDBKvPrimitives.BatchDelete | client/data/indexeddb_kv_primitives.ts:68-74 | The same for deletions. |
| KvStore.IndexedDBKvPrimitives.Clear | client/data/indexeddb_kv_primitives.ts:36-48 | Nothing is left. |
| KvStore.IndexedDBKvPrimitives.Query | client/data/indexeddb_kv_primitives.ts:78-91 | The rows in the range of the prefix, in order, with their keys read back. |
| KvStore.IndexedDBKvPrimitives.CountQuery | client/data/indexeddb_kv_primitives.ts:93-102 | How many a query for the same prefix yields. |
| KvStore.QuerySelects | client/data/indexeddb_kv_primitives.ts:78-91 | A query yields an entry if and only if it is stored and selected by the prefix. |
| KvStore.QueryIsOrdered | client/data/indexeddb_kv_primitives.ts:78-91 | Each once, in key order. |
| KvStore.GetAfterSets | client/data/indexeddb_kv_primitives.ts:57-66 | After storing entries a key has the value of the last entry for it, or the one it had. |
| KvStore.GetAfterDeletes | client/data/indexeddb_kv_primitives.ts:68-74 | Deleted keys are gone and the others keep their values. |
| KvStore.SetsStopAtRefused | client/data/indexeddb_kv_primitives.ts:57-66 | From the first key on with a unit 0 in it nothing is stored. |
| KvStore.DeletesStopAtRefused | client/data/indexeddb_kv_primitives.ts:68-74 | Nor deleted. |

## Left out

- The diff library: any valid list of parts stands for it, and its choice among them is not modelled.
- The server's merge and its word-level refinement: not part of this model; the diff3 rule is stated in its place.
- The map of a selection after an undo or redo: only that the undo was recognised is kept.
- Conversion of carriage returns by the editor, and placing the cursor after an external change.
- Loading another page or a document editor, the save timer, retries of failed writes and notifications.
- Widgets and decorations of conflicts, baked sections and presence.
- ConflictResolution.ResolveKeepsOthers: its condition also allows for what happens to follow in one document, and is sufficient there; what is exact for all that can follow is FencesDecide.KeepsOthersIff.
- Evaluating an expression of a baked section: an unknown function of its position and text, which may refuse.
- The initiating side of a logout, the exact texts of its errors and the addresses it leaves to.
- The listeners for the sync state; a message that does not parse is a sign of life like a ping.
- ContentManager.ContentManager.DispatchExternal: the annotations of the transaction and the move of the cursor are not modelled.
- RealtimeEvents.RealtimeEvents.FinishFlush: the calls of one flush are one step at its end; events that arrive before it are steps of their own.
- The list refresh a stream asks for when it opens again after a gap.
- RealtimeEvents.Flush: a failed probe or list refresh counts as asked for, and the test for an active service worker does not throw.
- Transactions, counters and cursors of the database: a store is a list of rows in key order.
- A key part that is not a string, which the types of the model rule out.
