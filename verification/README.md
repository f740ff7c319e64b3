# Verified model of the collaborative document backend

The backend edits documents that many people and an AI change together. This project
models the path an edit takes and proves what the path promises.

**From operations to text.** The AI proposes inserts, deletes and formats at offsets of a
flat text. `EditDistance`, `Similarity` and `Search` are the measures and searches that
locate them in the live text; `ContentCheck` is the loop that keeps, moves, rejects or
stops. `Targets` says where it takes each operation and when what it keeps is apart,
`Outcomes` what the whole check answers, in terms of the operations and the text alone,
`Recheck` and `Proposals` what happens when it runs a second time. `EditOrder` sorts
the operations, and `Simultaneous` proves that an order from back to front does what all
edits do at once; `PlainEdits` carries this to plain texts, `ParagraphEdits` to paragraph
documents, and `FlatEdits` to the flat text of these. `LoneInsertions` is about lists of
insertions alone, which are not sorted; it measures where they land with `Weights`.

**From text to tree.** `BlockText` prints blocks with blank lines between them and splits
text at blank lines. `OffsetIndex` maps flat offsets to text nodes of a tree.
`BlockDocument` is a document changed in place: a store of text nodes, a fragment of
paragraphs, and the insertion and deletion that find their nodes through the index.
`Paragraphs` says what these do to the list of paragraph texts, and proves that it is
splicing and dropping in the flat text. `Marked` reads a document as one sequence of
symbols in which a separator is not confused with two newlines of a text.

**From edit to socket.** `OperationLog` is one document's log as a machine of small steps:
writers that hold the row lock from acquisition to commit or abort, sequence numbers drawn
under it with gaps, snapshot workers whose two reads and one write are separate steps.
`LogStore` is the tables and transactions, each touching step one of that machine.
`Delivery` adds outbox rows, published frames, subscribed instances and sockets that enter
a room, read, and go live; `Gateway` is one instance with its rooms, and shows that what it
does to a room are moves of that machine. `Outbox` is the worker with failures and crashes,
`Presence` the counted connections, `Roster` the names of those present, `RateLimit` the
limiter of one socket.

A Yjs update is a set of changes; applying updates is the union, so order and repetition do
not matter, which is what the protocol relies on.

## What the code does not promise

- Checking located operations twice moves an insertion placed `after` its anchor when
  another match starts close by, because the second search measures from the end of the
  match. `Recheck.CheckIsFixedPoint` gives the exact condition, and
  `Recheck.CheckMovesOn` an input.
- The content check locates each operation by itself, so two deletions can end up at the
  same range (`Proposals.LocatedRangesMayCoincide`). `Targets.KeptIsApart` says exactly when
  what it keeps is apart; `Proposals.PreviewActsAtOnce` rests on that.
- Editing a paragraph document back to front is not always the simultaneous edit.
  Keeping a character in every paragraph is not enough: an inserted blank line can split
  off a piece that a later deletion empties and prunes. The exact condition is
  `ParagraphEdits.NoHarm`, read off the original text and the list: each deletion either
  leaves text in every paragraph it touches, or happens while there is a single paragraph.
  It is exact for the paragraphs and for the flat text alike.
- A list of insertions alone is applied in list order, and shifts its later offsets when
  offsets increase (`PlainEdits.InsertionsAloneShift`). It acts at once whenever they never
  do (`PlainEdits.FallingInsertionsActAtOnce`), and for inserted text that is foreign to a
  plain text only then (`PlainEdits.InsertionsActAtOnceIfFalling`). In a paragraph document a
  rise may do no harm (`LoneInsertions.RisingMayActAtOnce`);
  `LoneInsertions.LoneInsertionsActAtOnce` gives the exact condition.
- A nested fragment's text is printed but not indexed, so text behind it is misplaced; the index
  agrees with the text exactly if no nested fragment holds text.
- The gateway's comment says that the outbox retries until delivered. The worker gives a row
  up at its attempt limit: a row is published exactly if one of the attempts left succeeds
  (`Outbox.RetriesEnd`, with `Outbox.GivenUpBeforeSuccess` for every limit).
- Recovery at start enqueues rows below that limit only. `Outbox.RecoveryFindsRows` says which
  rows it leaves without a job, and `Outbox.StrandedForGood` that these stay.
- The stored count is not always that of the live connections. A disconnect takes a count
  back only if the join handler has set `presenceCounted`, and the handler does not look whether its
  socket is still open. A socket that closes while its handler waits is counted for good; so
  is one that joins twice, or whose room another teardown has removed. From then on its user
  counts as present and is never announced again (`Presence.LostForGood`).
  `Presence.CountIsLive` gives the exact condition, `Roster.ClosedBeforeCounted` an input.
- The comment on `presenceLeave` says that no identity field can be stranded, and the one
  on `presenceRoster` that the roster is exactly the users present. A user whose first join
  has not written the name yet is present and not in it. `Roster.StrandedExactly` says when a
  user without live connections is in it, for either of two causes: a handler wrote the name
  after the user's last connection had left, or a count was lost.

## Reading guide

Offsets count UTF-16 code units, and a `char` is a unit that is a character by itself. Offsets
are natural numbers where they come from the AI, and integers in `BlockDocument`. The machines'
`Enabled` and `CanMove` predicates are the guards of the code; their `Apply` and `Go`
functions are one atomic step each. A class method of `LogStore`, `Outbox`, `Presence` or
`RateLimit` states which step it is.

## Model

| member | source | states |
|---|---|---|
| `EditDistance.Levenshtein` | src/ai/ai.service.ts:146-161 | the table filled by the nested loops returns the recursive distance of the two strings, whose meaning `ShortestScript` gives |
| `EditDistance.ShortestScript` | src/ai/ai.service.ts:146-161 | that distance is the length of some insert, delete and substitute script between the strings, and of no shorter one |
| `EditDistance.Diagonal` | src/ai/ai.service.ts:154-157 | taking the diagonal on equal last characters loses nothing: it is never more than one above or below a neighbour, so the minimum over all three moves is the diagonal |
| `EditDistance.Symmetric` | src/ai/ai.service.ts:146-161 | the distance is symmetric |
| `EditDistance.ZeroOnlyForEqual` | src/ai/ai.service.ts:146-161 | it is zero exactly for equal strings |
| `EditDistance.Triangle` | src/ai/ai.service.ts:146-161 | the triangle inequality |
| `EditDistance.Bounds` | src/ai/ai.service.ts:146-161 | it lies between the difference of the lengths and the longer length |
| `Similarity.Similarity` | src/ai/ai.service.ts:163-168 | 1 for equal strings; for others, what it leaves of 1, times the longer untrimmed length, is the length of a shortest edit script between the trimmed strings |
| `Similarity.ScoreMeasures` | src/ai/ai.service.ts:163-168 | that is so of the score in which the similarity is specified |
| `Similarity.ScoreInRange` | src/ai/ai.service.ts:163-168 | it always lies in 0 to 1, and is 1 exactly when the trimmed strings are equal |
| `Text.TrimSpec` | src/ai/ai.service.ts:167 | trimming removes white space at both ends, all of it, and nothing else |
| `Text.SpacesAre` | src/ai/ai.service.ts:358-360 | which characters are white space, by code: tab to carriage return, space, no-break space and the others of the class; no letter, digit or punctuation |
| `Text.NormalIdentifies` | src/ai/ai.service.ts:352-360 | mapping white space identifies two texts if and only if they have one length and at every offset the same character, or white space both |
| `Text.SliceSpec` | src/ai/ai.service.ts:225 | a slice has exactly the characters of the text whose offsets lie in the range |
| `Search.FindNearestExactText` | src/ai/ai.service.ts:288-318 | the loop over `bestIndex` returns what `IsFound` says, which is the result of the search function `Find` |
| `Search.FindNearestWhitespaceInsensitiveText` | src/ai/ai.service.ts:320-350 | the loop over `best` returns, of all starts at which every character of the needle stands up to the kind of white space, the leftmost nearest to the hint, and nothing exactly if there is none or the needle is empty |
| `Search.FindIsOptimal` | src/ai/ai.service.ts:288-360 | the result is the leftmost exact occurrence of least distance to the hint among all, overlapping ones included; without one, the same among occurrences up to the kind of white space, told character by character; null exactly if neither kind exists |
| `ContentCheck.CheckContentExistence` | src/ai/ai.service.ts:170-286 | the loop over the operations with its map of moved ranges returns the outcome described by `Check` |
| `ContentCheck.LocateInsert` | src/ai/ai.service.ts:187-223 | where one insertion goes: at its anchor, or with the range moved from its offset |
| `ContentCheck.LocateRange` | src/ai/ai.service.ts:225-248 | where one deletion or formatting goes, and the move it records |
| `ContentCheck.CheckStopsAtFirstAlike` | src/ai/ai.service.ts:249-257 | the check stops exactly at the first operation that cannot be located and reaches the similarity threshold, and reports that operation and both texts |
| `ContentCheck.CheckSplitsItsInput` | src/ai/ai.service.ts:170-286 | otherwise every operation is kept, in order, or rejected under its own index, not both; a kept deletion or formatting points at its expected text up to white space, a kept anchored insertion sits at an edge of a real occurrence |
| `ContentCheck.InsertionsFollowTheirRange` | src/ai/ai.service.ts:214-221 | an insertion without an anchor moves with the nearest range before it in the list that was planned at the same offset, and stays if there is none |
| `Outcomes.CheckIsOutcome` | src/ai/ai.service.ts:170-286 | the whole answer, said of operations, text and threshold alone: the check stops at the first deletion or formatting that is nowhere and whose shortest edit script to what stands there is within the share the threshold allows, and names it and both texts; else it keeps in order what is there, each moved to its target and otherwise the same, and rejects in order what is missing, each under its own index and for its own reason |
| `Outcomes.ReachesIsScore` | src/ai/ai.service.ts:249-251 | of different texts, the score is at or above the threshold if and only if some shortest edit script between them, trimmed, is no longer than one minus the threshold times the longer length |
| `Recheck.CheckIsFixedPoint` | src/ai/ai.service.ts:170-286 | checking the returned operations again on the same text succeeds; it returns the same operations if and only if no other match of an `after` anchor starts within two quote lengths of the one chosen |
| `Recheck.CheckMovesOn` | src/ai/ai.service.ts:197-214 | a concrete text and insertion for which the second check moves the insertion on |
| `Proposals.Chat` | src/ai/ai.service.ts:457-494 | applying immediately: a conflict naming the first operation that stops the check, or else what is there is applied, each at its target, and the rest rejected |
| `Proposals.ChatStopsOrApplies` | src/ai/ai.service.ts:741-747 | it answers with a conflict, and changes nothing, if and only if some operation stops the check |
| `Proposals.ProposeChat` | src/ai/ai.service.ts:498-556 | a list is staged if and only if it is not empty and nothing in it is missing; then moved to its targets, with the flat texts before and after |
| `Proposals.ProposalStagesAll` | src/ai/ai.service.ts:517-526 | the same of the function in which staging is specified |
| `Proposals.AcceptProposal` | src/ai/ai.service.ts:562-638 | if some operation stops the check the author is asked again, with the first such operation, both its texts and the new preview, unless this is the confirmation: then exactly the staged operations are applied and nothing is rejected; otherwise what is there is applied, each at its target, and the rest rejected |
| `Proposals.AcceptAsksOrApplies` | src/ai/ai.service.ts:589-614 | the author is asked again if and only if this is no confirmation and some operation stops the check |
| `Proposals.AcceptingAppliesThePreview` | src/ai/ai.service.ts:498-638 | accepting on an unchanged document never asks again and rejects nothing; it applies the staged operations themselves exactly if all are settled, and then gives the previewed text |
| `Targets.KeptIsApart` | src/ai/ai.service.ts:170-286 | for every list at which the check does not stop: what it keeps is pairwise apart if and only if no two targets overlap, can be carried out at once if and only if the targets also fit the text, and has offsets that never increase if and only if the targets do not. A target is read off the list and the text: a range that quotes its own slice stays, any other goes to the match that no other match beats for its hint, an anchored insertion to an edge of such a match, any other insertion where the nearest earlier range goes that was planned at its offset and is there. What is nowhere has no target |
| `Targets.ListStays` | src/ai/ai.service.ts:187-248 | the check returns the very list it was given if and only if every range and every anchored insertion is already in place |
| `Targets.OwnQuotesStayApart` | src/ai/ai.service.ts:233-236 | operations that fit and are apart, whose ranges quote their own slices and whose anchored insertions are in place, are kept as they are, so their targets are apart |
| `Proposals.KeptActAtOnce` | src/ai/ai.service.ts:457-638 | for every list at which the check does not stop: what applying the kept operations makes of the document, in terms of the targets of the given list. With a range edit it is the simultaneous edit exactly if no deletion does harm, provided targets fit and are apart; with insertions alone it is, if targets also never increase |
| `Proposals.AppliedIsKept` | src/ai/ai.service.ts:457-638 | applying immediately and accepting without being asked again apply just what the check on the live document kept, and answer for every operation |
| `Proposals.PreviewActsAtOnce` | src/ai/ai.service.ts:498-556 | for every staged list with a range edit: its operations can be carried out at once exactly if the targets of the proposed list fit and do not overlap, and then the preview is the flat text with all of them carried out at once, in a paragraph document exactly if no deletion does harm |
| `Proposals.PreviewOfOwnQuotes` | src/ai/ai.service.ts:498-556 | operations that fit, are apart and quote what is there are staged unchanged, with the same statement about their preview |
| `Proposals.PreviewOfInsertions` | src/ai/ai.service.ts:498-556 | for every staged list of insertions alone whose targets fit and never increase along the list: the preview is the flat text with all of them carried out at once |
| `Proposals.LocatedRangesMayCoincide` | src/ai/ai.service.ts:233-248 | a concrete text and two deletions whose targets overlap: both are located at the same range, and applying both deletes what neither quotes |
| `EditOrder.SortIsStable` | src/ai/ai.service.ts:759-776 | sorting with the comparator permutes the list, orders it, and keeps equal operations in list order |
| `EditOrder.SortedIsBackToFront` | src/ai/ai.service.ts:767-775 | the sorted list works from the back of the document to its front, ranges before insertions at one offset |
| `Simultaneous.BackToFrontIsAtOnce` | src/ai/ai.service.ts:759-794 | edits applied in such an order do to a sequence of symbols what all of them do at once to the original |
| `EditOrder.SortActsAtOnce` | src/ai/ai.service.ts:759-794 | so does every list with in-bounds and disjoint ranges and no insertion strictly inside one, once sorted; several insertions at one offset stand in reverse list order |
| `EditOrder.OrderActsAtOnce` | src/ai/ai.service.ts:759-794 | so does every such list with a range edit, in the order in which it is applied |
| `EditOrder.ListOrderDoesNotMatter` | src/ai/ai.service.ts:759-794 | with at most one insertion per offset, every permutation of the list has the same effect |
| `PlainEdits.TextDocument.ApplyInOrder` | src/ai/ai.service.ts:778-794 | the edit loop on a plain text applies the ordered operations one by one |
| `PlainEdits.OrderActsAtOnceOnText` | src/ai/ai.service.ts:759-794 | on a plain text the loop gives exactly the original with every deleted character dropped and every insertion at its original offset |
| `PlainEdits.ListOrderDoesNotMatterOnText` | src/ai/ai.service.ts:759-794 | with at most one insertion per offset, the resulting text does not depend on the order of the list |
| `PlainEdits.FallingInsertionsActAtOnce` | src/ai/ai.service.ts:763 | a list of insertions alone, which keeps list order, acts at once on a plain text if its offsets never increase |
| `PlainEdits.InsertionsActAtOnceIfFalling` | src/ai/ai.service.ts:763 | for insertions of text that shares no character with the original it does so only then: the list acts at once if and only if its offsets never increase |
| `PlainEdits.InsertionsAloneShift` | src/ai/ai.service.ts:763 | a concrete list of two insertions whose offsets increase, and what it makes of a text |
| `ParagraphEdits.OrderActsAtOnceOnParagraphs` | src/ai/ai.service.ts:759-794 | on a paragraph document the loop acts at once if and only if every deletion is harmless, a condition on the original text and the list |
| `FlatEdits.FlatTextActsAtOnce` | src/ai/ai.service.ts:778-794 | on the flat text, too: it is that of the simultaneous edit if and only if every deletion is harmless |
| `ParagraphEdits.FallingInsertionsActAtOnceOnParagraphs` | src/ai/ai.service.ts:763 | insertions alone whose offsets never increase act at once on every paragraph document, the empty one included |
| `LoneInsertions.LoneInsertionsActAtOnce` | src/ai/ai.service.ts:763 | for insertions without a blank line, of characters that the document does not have, on every paragraph document: they act at once if and only if each lands where it lands in the original (nothing was inserted in front of that, or one character was and its offset stands directly behind a separator), and text for the inside of a separator ends up in reverse list order with the text for behind it |
| `LoneInsertions.InOneParagraph` | src/ai/ai.service.ts:763 | in a single paragraph that is so if and only if offsets never increase |
| `LoneInsertions.RisingMayActAtOnce` | src/yjs/yjs.service.ts:143-145 | a concrete document and a list whose offsets increase that acts at once, since the second offset has come to stand inside a separator |
| `ParagraphEdits.KeepingTextIsHarmless` | src/yjs/yjs.service.ts:199-251 | deletions are harmless if every paragraph that loses characters keeps one and no insertion carries a blank line |
| `ParagraphEdits.KeepingTextIsNotEnough` | src/yjs/yjs.service.ts:152-158 | with an insertion that carries a blank line, keeping text is not enough: a concrete document and list |
| `ParagraphEdits.LosingTextMovesInsertions` | src/yjs/yjs.service.ts:241-251 | a paragraph that loses all its text vanishes and what is inserted there lands in its neighbour: a concrete document and list |
| `ParagraphEdits.RunNeverEmpties` | src/yjs/yjs.service.ts:241-251 | no run of insertions and deletions leaves a document that had paragraphs without one |
| `BlockText.SplitUndoesPrint` | src/yjs/yjs.service.ts:465-471 | splitting the printed blocks gives the same blocks if and only if interior blocks are not empty, no block contains a blank line, and no newline touches a separator |
| `BlockText.PrintUndoesSplit` | src/yjs/yjs.service.ts:117-121 | printing the split text gives it with every newline run of two or more collapsed to two, and collapsing is idempotent |
| `BlockText.SplitIsUnique` | src/yjs/yjs.service.ts:117-121 | the split is the only list of such blocks that prints to the collapsed text |
| `BlockText.SplitCounts` | src/yjs/yjs.service.ts:152 | there is one segment more than there are runs of two or more newlines |
| `Marked.LandingIsLeast` | src/yjs/yjs.service.ts:143-145 | the offset an insertion goes to is the least one at or after the requested that belongs to a paragraph, or the end |
| `Marked.PlainOfMark` | src/yjs/yjs.service.ts:465-471 | a document read as symbols, with its separators kept apart from newlines in the text, prints to its flat text |
| `Paragraphs.InsertRefinesSplicing` | src/yjs/yjs.service.ts:127-194 | insertion splices the collapsed text into the flat text at that offset, and adds one paragraph per break |
| `Paragraphs.WriteThenRead` | src/yjs/yjs.service.ts:135-141 | text written into an empty document reads back collapsed |
| `Paragraphs.DeletionClosedForm` | src/yjs/yjs.service.ts:199-251 | a paragraph loses exactly its overlap with the range, counted from the flat offset where it starts; it vanishes exactly if that was all of a text that was not empty; what happens to the others does not depend on it |
| `Paragraphs.DeleteDropsOrShrinks` | src/yjs/yjs.service.ts:199-251 | a deletion drops the characters of its range and no separator, unless it empties one of several paragraphs, and then there are fewer paragraphs |
| `Paragraphs.NothingToDelete` | src/yjs/yjs.service.ts:544-558 | a range that is empty or ends before it starts deletes nothing |
| `BlockDocument.Document.InsertText` | src/yjs/yjs.service.ts:127-160 | in place, through the offset index: the paragraphs become what `Paragraphs.Insert` makes of them, and every child stays a paragraph element with a text node of its own |
| `BlockDocument.Document.InsertBlocks` | src/yjs/yjs.service.ts:167-194 | the block splits at the offset and the segments become paragraphs between its halves |
| `BlockDocument.Document.CreateParagraphs` | src/yjs/yjs.service.ts:107-121 | one new paragraph per segment, each with a text node that is not in the document |
| `BlockDocument.Document.DeleteRange` | src/yjs/yjs.service.ts:206-216 | every text node the range overlaps loses its overlap, and exactly the blocks touched are listed, in order |
| `BlockDocument.Document.DeleteOverlap` | src/yjs/yjs.service.ts:552-557 | the overlap with the range, translated to the coordinates of one text node, is deleted |
| `BlockDocument.Document.PruneEmptyBlocks` | src/yjs/yjs.service.ts:241-251 | exactly the affected blocks that are empty vanish; if these are all, the last one stays |
| `BlockDocument.Document.DeleteText` | src/yjs/yjs.service.ts:199-219 | in place: the paragraphs become what `Paragraphs.Delete` makes of them, and if all are emptied the last remains |
| `BlockDocument.Document.ApplyInOrder` | src/ai/ai.service.ts:778-794 | the edit loop on a paragraph document applies the ordered operations one by one |
| `BlockDocument.Document.ExtractText` | src/yjs/yjs.service.ts:77-90 | the flat text is the printed paragraphs |
| `BlockDocument.InsertAtTarget` | src/yjs/yjs.service.ts:143-150 | inserting at the first block that ends at or behind the offset, or at the last, is insertion counted from the first block |
| `OffsetIndex.LinearizeXmlText` | src/yjs/yjs.service.ts:504-516 | the loop over the children builds the index |
| `OffsetIndex.CollectXmlText` | src/yjs/yjs.service.ts:520-540 | the recursion pushes the spans of one node and returns the offset behind it |
| `OffsetIndex.IndexAgreesWithText` | src/yjs/yjs.service.ts:465-540 | for every tree the spans are in order and disjoint; with two characters per block boundary they cover the printed text if and only if no nested fragment holds text, and then slicing the text at a span gives its node's text |
| `OffsetIndex.NestedFragmentMisaligns` | src/yjs/yjs.service.ts:479-484 | a concrete tree whose nested fragment is printed and not indexed, so that a span reads another node's text |
| `OperationLog.SnapshotPlusDeltaIsFullReplay` | src/snapshots/snapshot.processor.ts:74-120 | in every state of every run, with racing and stale workers and aborted transactions, the latest snapshot joined with the operations above its mark is the join of all committed operations |
| `OperationLog.ReadsApartMakeFullReplay` | src/collaboration/collaboration.gateway.ts:386-393 | the two reads may lie apart: a snapshot read earlier and the operations above its mark read later make up the log as it is then |
| `OperationLog.NothingCommitsBelowAMark` | src/operations/operations.service.ts:35-44 | once a snapshot is stored, nothing commits with a sequence number at or below its mark |
| `OperationLog.ClocksIncrease` | src/collaboration/collaboration.gateway.ts:459-482 | in every run clocks strictly increase along the sequence; a human operation's clock exceeds the received one and every committed one, an AI operation's is the next after the last its transaction read or gave out |
| `OperationLog.StepKeepsInv` | src/operations/operations.service.ts:14-56 | every step of writers, other documents, workers and readers keeps the invariant |
| `OperationLog.BaseAndDelta` | src/operations/operations.service.ts:14-27 | snapshot and the delta query above its mark make up the log |
| `OperationLog.SinceSelects` | src/operations/operations.service.ts:14-27 | the delta query returns exactly the rows above the mark, in order |
| `OperationLog.MaxClockIsMax` | src/operations/operations.service.ts:46-56 | no row has a larger clock, and some row has it; zero if there is no row |
| `LogStore.Tables.AcquireDocumentWriteLock` | src/operations/operations.service.ts:35-44 | taking the row lock |
| `LogStore.Tables.GetMaxClockValue` | src/operations/operations.service.ts:46-56 | the largest clock of the committed rows, that of one of them, or zero |
| `LogStore.Tables.InsertOperation` | src/operations/operations.service.ts:58-87 | a row with the next sequence number, whatever its clock, not visible before commit; clocks above the last one given out keep the log valid |
| `LogStore.Tables.HandleUpdate` | src/collaboration/collaboration.gateway.ts:459-496 | the transaction of a client's update adds one row whose clock is exactly one above the larger of the received and the largest committed clock, or zero if there is none; if it fails it adds nothing, and leaves a gap in the sequence numbers exactly if it failed after the insert |
| `LogStore.Tables.AbortTransaction` | src/collaboration/collaboration.gateway.ts:459-496 | a failed transaction is the abort step of the machine |
| `LogStore.Tables.ApplyOps` | src/ai/ai.service.ts:824-863 | the transaction of an AI batch adds its rows in order; sequence numbers and clocks count up, the clocks from one above the largest committed one |
| `LogStore.Tables.ProcessSnapshot` | src/snapshots/snapshot.processor.ts:71-120 | a job that runs alone adds one snapshot, of the whole log with the number of its last row, or changes nothing if there is no delta |
| `OperationLog.JobIsThreeSteps` | src/snapshots/snapshot.processor.ts:71-120 | in the machine such a job is two reads and one write, after which there is one snapshot more and nothing else has changed |
| `LogStore.Replay` | src/snapshots/snapshot.processor.ts:91-112 | replaying the delta onto the base snapshot gives their join and the mark of the last row |
| `LogStore.Tables.CreateSnapshot` | src/snapshots/snapshots.service.ts:29-46 | the snapshot row, whatever its content and mark, and the document row that refers to it, in one step; a faithful one keeps the log valid |
| `Delivery.NoGapBeforeTheLiveStream` | src/collaboration/collaboration.gateway.ts:258-413 | once every outbox row is published, none given up and no frame under way, each open joined socket holds the join of all committed operations |
| `Delivery.NothingUncommittedIsSent` | src/collaboration/collaboration.gateway.ts:459-514 | no socket is ever sent anything that is not committed |
| `Delivery.MoveKeepsSafe` | src/collaboration/collaboration.gateway.ts:226-612 | every move of writers, outbox worker, instances and sockets keeps the invariant |
| `Delivery.PublishedReaches` | src/collaboration/collaboration.gateway.ts:269-299 | a published update gives every subscribed instance a frame, and once that is relayed each open socket there holds the update and no other socket changes |
| `Delivery.PeersReceive` | src/collaboration/collaboration.gateway.ts:507-514 | what a client sends goes to the open sockets of its instance's room, and not back to it |
| `Delivery.ClosedReceivesNothing` | src/collaboration/collaboration.gateway.ts:280-284 | a socket that has been closed receives nothing more, and can be taken from its room |
| `Gateway.Instance.EnterRoom` | src/collaboration/collaboration.gateway.ts:258-261 | the socket is in the room of the document, which nothing else enters or leaves |
| `Gateway.Instance.Subscribe` | src/collaboration/collaboration.gateway.ts:263-330 | a document is subscribed, whether or not its room is still there, and no other changes |
| `Gateway.Instance.SendInitialState` | src/collaboration/collaboration.gateway.ts:386-413 | the joining socket alone receives the initial state |
| `Gateway.Instance.OnFrame` | src/collaboration/collaboration.gateway.ts:269-299 | an instance skips its own frames; of all others every open socket of the room, and no other, receives what is behind the header |
| `Gateway.Instance.SendToRoom` | src/collaboration/collaboration.gateway.ts:507-514 | every open socket of the room but one receives the update |
| `Gateway.Instance.Leave` | src/collaboration/collaboration.gateway.ts:579-611 | the last socket of a room takes room and subscription with it; without a room nothing changes |
| `Gateway.EntersAsEnter` | src/collaboration/collaboration.gateway.ts:258-261 | whatever the room shows of the delivery machine, entering it with a fresh socket is the move `Enter` |
| `Gateway.SubscribesAsSubscribe` | src/collaboration/collaboration.gateway.ts:263-330 | subscribing is the move `Subscribe` |
| `Gateway.InitialAsSendInitialState` | src/collaboration/collaboration.gateway.ts:386-413 | sending the initial state is the move `SendInitialState` |
| `Gateway.SendsAsSendToPeers` | src/collaboration/collaboration.gateway.ts:507-514 | sending an update to the room, except to its sender if that is still there, is the move `SendToPeers` |
| `Gateway.RelaysAsRelay` | src/collaboration/collaboration.gateway.ts:269-299 | relaying an outbox frame is the move `Relay`: what is behind the header is the published payload |
| `Gateway.LeavesAsDisconnect` | src/collaboration/collaboration.gateway.ts:579-611 | leaving is the move `Disconnect`; the subscription goes exactly when the machine's does |
| `Outbox.NothingIsLost` | src/outbox/outbox.processor.ts:51-102 | in every run, with failures and crashes at any point, each committed operation has a row, or was published as a frame of exactly its payload, or failed up to the limit |
| `Outbox.FramesRelay` | src/outbox/outbox.processor.ts:9-17 | of an outbox frame an instance recovers exactly the payload, if and only if its own identity is not all zeros; its own frames it skips |
| `Outbox.ShortFramesRelay` | src/collaboration/collaboration.gateway.ts:272-284 | of a frame too short for a header nothing is left to relay, and it is no frame of its own |
| `Outbox.OutboxWorker.Process` | src/outbox/outbox.processor.ts:51-102 | one job whose deletion succeeds leaves exactly what `AfterJob` says: the row with one attempt more, or published and gone, or given up and gone; a failing deletion adds an attempt; a row that stays is queued again after a bounded pause |
| `Outbox.OutboxWorker.OnModuleInit` | src/outbox/outbox.processor.ts:39-49 | recovery enqueues the rows below the limit |
| `Outbox.RecoveryFindsRows` | src/outbox/outbox.processor.ts:39-49 | after a crash and recovery in any reachable state, a row has a job if and only if it is below the limit or the queue kept its job, and is stranded otherwise; no row changes |
| `Outbox.StrandedForGood` | src/outbox/outbox.service.ts:37-49 | along every run, a stranded row that is not enqueued anew stays stranded: neither published again nor given up |
| `Outbox.RecoveryStrandsExhaustedRows` | src/outbox/outbox.service.ts:37-49 | a concrete run that strands a row |
| `Outbox.FailureTakesAnAttempt` | src/outbox/outbox.processor.ts:82-89 | in every reachable state a failure of a row below the limit takes one from the attempts left; no other step touches them; a row goes only when published and removed, or given up at the limit |
| `Outbox.AttemptsAreFailures` | src/outbox/outbox.processor.ts:82-89 | in every run a row's attempts are the failures it has had, and a row is given up only after as many as the limit |
| `Outbox.RetriesEnd` | src/outbox/outbox.processor.ts:60-102 | a row is published if and only if one of the first publishing outcomes, as many as it has attempts left, is a success, and given up if and only if there is a job more and none is; until then it waits with one attempt more for each job |
| `Outbox.GivenUpBeforeSuccess` | src/collaboration/collaboration.gateway.ts:500-506 | for every limit, publishing outcomes that end in a success before which the row is given up |
| `Outbox.RetryDelay` | src/outbox/outbox.processor.ts:91-94 | the pause is the capped backoff times a factor between a half and one that a random number gives; it is below five minutes |
| `Outbox.BackoffGrows` | src/outbox/outbox.processor.ts:22-23 | the backoff is two seconds after the first failure, doubles with each, and is five minutes from the ninth on |
| `Presence.PresenceIsCounted` | src/collaboration/collaboration.gateway.ts:352-384 | in every run, however late a handler and whatever a disconnect finds: the stored count is that of the live sockets, which are the open ones that a handler has counted, plus that of the lost counts; users are told to be present and absent in turn, and count as present exactly if they have one or the other |
| `Presence.CountIsLive` | src/collaboration/collaboration.gateway.ts:579-603 | count and live sockets agree if and only if no event before has lost a count: a handler that counts a closed socket or one counted before, or a disconnect of a counted socket that comes before the mark or does not find the room |
| `Presence.LostForGood` | src/collaboration/collaboration.gateway.ts:584-603 | along every run, once a count of a user is lost the user is never again told to be present or absent |
| `Roster.PresenceIsExact` | src/redis/redis.service.ts:194-269 | in every run in which sockets join once and join handlers finish before their socket's disconnect, no count is lost and the roster is exactly the users with a live socket whose name is not still to be written |
| `Roster.RosterIsPresent` | src/redis/redis.service.ts:264-269 | what reading the roster gives in such a run, with no name still to be written: the users of the live sockets |
| `Roster.NamedExactly` | src/redis/redis.service.ts:215-262 | in every run, the roster names a user if and only if the name was written and the last live socket has not left since with no count lost |
| `Roster.StrandedExactly` | src/redis/redis.service.ts:231-235 | in every run, a user without live sockets is in the roster if and only if either no count was lost, and a name was written while the user was absent and not counted since; or one was, and a name was written after which no last socket has left without a lost count |
| `Roster.ClosedBeforeCounted` | src/collaboration/collaboration.gateway.ts:352-384 | a concrete run of the second kind: a socket closes while its join handler is under way, which then counts it and writes the name |
| `Presence.PresenceStore.PresenceJoin` | src/redis/redis.service.ts:194-210 | one more connection, and the resulting count |
| `Presence.PresenceStore.PresenceLeave` | src/redis/redis.service.ts:236-262 | one connection less; at zero both fields vanish and the name is returned |
| `Presence.PresenceStore.SetPresenceIdentity` | src/redis/redis.service.ts:215-229 | the name appears in the roster |
| `Presence.StepKeepsCount` | src/collaboration/collaboration.gateway.ts:352-384 | every event keeps that |
| `Presence.StepKeepsLinked` | src/collaboration/collaboration.gateway.ts:352-384 | every event keeps the live sockets those that are open and counted |
| `Roster.StepKeepsRoster` | src/collaboration/collaboration.gateway.ts:352-384 | every event in time keeps the roster exact |
| `RateLimit.LimiterKeepsItsPromise` | src/collaboration/collaboration.gateway.ts:332-349 | for every trace, updates behind the closing tick included: each window processes its updates up to the limit and sends one warning exactly if it violates the limit; the socket is closed exactly if the last tick has ended the first three violating windows in a row |
| `RateLimit.AuthenticatedSocket.OnUpdate` | src/collaboration/collaboration.gateway.ts:438-452 | one update is counted, and processed, warned of or dropped |
| `RateLimit.AuthenticatedSocket.OnTick` | src/collaboration/collaboration.gateway.ts:334-349 | the window timer resets the count, counts violations in a row, and closes at the third |

## Left out

- The Yjs library: updates are sets of changes and applying them is union; encoding, state
  vectors, `classifyUpdate`, `describeUpdate` and the materialising of types are not part of this
  model. A stored row whose update column is empty is a row with the empty set.
- Characters that take two UTF-16 code units, such as most emoji: the surrogates they are made
  of are not values of `char`, so texts that hold one, and offsets between its halves, are not
  covered.
- Rich text: text nodes are unmarked, so `toString()` is their characters, and a formatting
  changes no text. Lists with formats are covered for plain texts, not for paragraph
  documents, where marks would print as tags.
- ParagraphEdits.OrderActsAtOnceOnParagraphs: lists without formats, for that reason.
- FlatEdits.FlatTextActsAtOnce: lists without formats, for that reason.
- Proposals.KeptActAtOnce: in a paragraph document, nothing about lists that keep a format, for that
  reason.
- Proposals.PreviewActsAtOnce: in a paragraph document, lists without formats, for that reason.
- Proposals.PreviewOfOwnQuotes: the same lists.
- BlockDocument.Document.InsertText: covers fragments whose children are paragraphs with one text
  node, and the empty fragment; nested blocks and the fallback for unexpected structure are
  left out, since nested siblings print without separators.
- BlockDocument.Document.InsertBlocks: the same documents, without that fallback.
- BlockDocument.Document.DeleteRange: the same documents; the block a node belongs to is then the
  paragraph that holds it.
- BlockDocument.Document.DeleteText: the same documents; `topLevelBlock` is then the
  paragraph that holds the node.
- BlockDocument.Document.ApplyInOrder: the same documents, and lists without formats.
- PlainEdits.TextDocument.ApplyInOrder: offsets past the end count as the end; what the library
  does there is not part of this model, and the theorems are about offsets that fit.
- Negative offsets in AI operations, which `validateOperations` lets through.
- Truncation of long texts before the AI sees them; texts are assumed below the limit.
- The nearest-snippet text in log lines and the wording of rejection reasons.
- Floating point: similarity, threshold and delay are real numbers.
- Integer widths of sequence numbers and clocks, which are natural numbers.
- Gateway.Instance.EnterRoom: the permission lookups before it.
- LoneInsertions.LoneInsertionsActAtOnce: insertions with a blank line, and of characters that the
  document has, which may act at once by coincidence; the condition is sufficient for these,
  too, if they carry no blank line (`LoneInsertions.RunLands`, `LoneInsertions.LandedAgrees`).
- Gateway.Instance.Subscribe: a subscription that fails, which closes the socket.
- Gateway.Instance.Leave: the teardown of a room on disconnect is one atomic step, although the
  code awaits in the middle of it; so is `Delivery.Disconnect`.
- LogStore.Tables.CreateSnapshot: the update of the document row is not made to wait for the
  write lock; the machine allows more interleavings than the database.
- Outbox.NothingIsLost: one worker per row at a time, as the queue's job identity gives, and a
  queue that takes the retry of a job under that identity; it may lose any jobs in a crash.
- Outbox.RetriesEnd: about jobs whose deletion of the row succeeds; a failing one adds an
  attempt and is queued again, which `Outbox.OutboxWorker.Process` and
  `Outbox.FailureTakesAnAttempt` cover.
- Presence.PresenceIsCounted: a socket joins one document, if several times; the store answers
  every call, and no key expires; a disconnect's look at the mark and its call of the store are
  one step. Users are told by what the store answers; when the messages
  are sent is not modelled, and the one for a first connection is sent only after the name is
  written.
- Roster.PresenceIsExact: sockets that join once and handlers that finish before their socket's
  disconnect; `Roster.StrandedExactly` is about the others.
- Redis and queue outages other than a failed publish, reconnects of the subscriber,
  expiry times, job scheduling and the snapshot threshold and its lock.
- Model calls, prompts, scope checks and retries on malformed answers; claiming a staged
  proposal with one atomic read-and-delete.
- Authentication, memberships, share links, mail, health, throttling, migrations and seeding.
