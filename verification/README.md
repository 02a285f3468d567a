# NyaTerm: verified models

NyaTerm is a terminal client written in Rust, with Python release tooling. This project models its
hardest self-contained algorithms in Dafny and proves what each of them is for. Nothing here calls the
original program; the source lines named below were modelled by reading them.

| area | modules | main theorems |
|---|---|---|
| Document editing | `Utf8`, `Utf8Scalars`, `Sorting`, `Selections`, `DocumentEdit`, `FoldProjection` | applying edits back to front is the simultaneous splice; cursors stand just past their text; selection normalisation is exact, idempotent and order independent; fold projection tiles both texts and its offset maps invert each other |
| Release promotion | `SemVer`, `ReleaseChannel`, `ChannelRuns` | crash safety of backup, commit and restore over every run; no manifest falls below a release that is not itself undone |
| Activation | `ActivationCodec`, `ActivationLayout`, `ActivationQueue` | the codec, its inverse and its byte layout; counter conservation and closing over every interleaving |
| AI streaming | `ToolProgress`, `ToolRefusals`, `ToolStream`, `StreamEnd`, `GeminiParts`, `Frames`, `FrameFates`, `FrameData`, `DataMembers`, `FrameObserver`, `AnthropicBlocks`, `AnthropicText`, `ResponseItems`, `LineStream` | a concatenating consumer rebuilds every tool call; exactly which snapshots are refused; chunking is invisible; what every streamed block, item and response member holds after any run |
| Cloud storage | `WebDav`, `Strings`, `DigestChallenge`, `PercentCodec` | at most six requests, credentials stay with the origin, nonce counts 1, 2, 3, ..., every response is dealt with; parsers undo printers |
| Smaller cores | `ConnectionSearch`, `CrashReport` | exact reachability on any catalog; the bounded writer refines one-shot truncation |

`Seqs` holds sequence identities used by the proofs, and `Options` the optional value.

## How the models are built

Code that updates state in place is a class or a method with a loop, proved equal to a specification
function; the theorems are then about that function or about all runs of it. Text is a sequence of bytes
that is well-formed UTF-8 (Table 3-7 of the Unicode Standard), and a character boundary is what
`str::is_char_boundary` tests; `Utf8.BoundaryIffCut` shows that this byte test means what it should.
Concurrency (the activation queue) and crashes (the release journal) are state machines over atomic steps.
What comes from outside is an input: network responses, chunks, the JSON reading of a text, and the point
at which a process stops.

Places where the code differs from what its documentation or an obvious claim would say:

- The decoder never looks at the reserved byte 7 (`ActivationCodec.ReservedByteIgnored`), so a decoded frame
  re-encodes to itself if and only if that byte is zero (`ActivationCodec.RequestCanonical`).
- Tool-call slots can collide: after a call with wire index `usize::MAX - 1`, two calls without an index
  both get `usize::MAX` (`ToolProgress.LargeIndexCollides`). `ToolProgress.RunSlots` gives the exact
  condition on a run, and `ToolProgress.NeverCollidesIff` the exact bound on wire indices: collisions are
  ruled out if and only if none exceeds `usize::MAX - 127`.
- The check at the end of a stream passes over fields that are still empty, and calls already streamed are not
  sent again, so a call can end without the arguments of its completed form (`StreamEnd.EmptyArgumentsStay`).
  `StreamEnd.WholeIff` gives the exact condition.
- The comment on redirects says that a request that leaves the origin carries no body. The code drops only
  the credentials. Some server can draw a body away if and only if it is the body of a `GET` or `HEAD` to an
  `http` or `https` URL (`WebDav.BodyLeavesIff`).
- The percent decoder accepts `%+5` (`PercentCodec.PlusIsAccepted`); `PercentCodec.EncodeUndoesDecode` says
  exactly which inputs are re-encoded to themselves.
- Folds that partly overlap can stay partly in view: a fold that starts inside an earlier one and outlasts it
  shows its last byte (`FoldProjection.OverlapLeaksLastByte`, `FoldProjection.OverlapExample`). Two folds are
  hidden whole if and only if they are disjoint or nested (`FoldProjection.PairHiddenIff`); a family is, if and
  only if wherever a taken fold ends inside another fold, some fold starts right there
  (`FoldProjection.HidesAllIff`).

## Model

| member | source | states |
|---|---|---|
| `Utf8.BoundaryIffCut` | crates/nyaterm-core/src/document_edit.rs:134-135 | in valid UTF-8 the byte-level boundary test holds exactly where both halves are valid UTF-8 |
| `Utf8.FloorLoop` | crates/nyaterm-core/src/document_edit.rs:233-239 | the stepping-back loop computes `Floor`, which is a boundary at or below the offset |
| `Utf8.FloorGreatest` | crates/nyaterm-core/src/document_edit.rs:233-239 | no greater boundary lies at or below the offset |
| `Utf8Scalars.ValidIff` | crates/nyaterm-core/src/document_edit.rs:134-135 | a byte sequence is well-formed exactly when it is the encoding of Unicode scalar values, so the text of the model is what a `str` holds |
| `Sorting.SortStable` | crates/nyaterm-core/src/document_edit.rs:128 | the sort keeps tied elements in their original order, for any total preorder |
| `Selections.NormalizeSelections` | crates/nyaterm-core/src/document_edit.rs:174-196 | the in-place merge loop equals its specification, and its result is ordered, non-overlapping, aligned and non-empty for non-empty input |
| `Selections.NormalizedIsCanonical` | crates/nyaterm-core/src/document_edit.rs:174-196 | the normal form is ordered and non-overlapping, carets do not touch what precedes them, every end is a character boundary |
| `Selections.NormalizedMeaning` | crates/nyaterm-core/src/document_edit.rs:181-196 | output and aligned input cover the same bytes and straddle the same positions; a caret survives exactly when no selection reaches it from the left |
| `Selections.NormalizedIdempotent` | crates/nyaterm-core/src/document_edit.rs:174-196 | normalising twice is normalising once |
| `Selections.NormalizedOrderIndependent` | crates/nyaterm-core/src/document_edit.rs:182-196 | the order in which selections are listed does not matter |
| `DocumentEdit.TextDocument.constructor` | crates/nyaterm-core/src/document_edit.rs:95-105 | a new document has one cursor at the greatest boundary not past the given offset and no history |
| `DocumentEdit.TextDocument.Checkpoint` | crates/nyaterm-core/src/document_edit.rs:114-120 | the state is pushed, the oldest of more than 64 is dropped, redo is cleared, nothing else changes |
| `DocumentEdit.HistoryIsLatest` | crates/nyaterm-core/src/document_edit.rs:114-120 | after any number of checkpoints the stack is exactly the latest 64 states in order |
| `DocumentEdit.TextDocument.Validate` | crates/nyaterm-core/src/document_edit.rs:129-140 | the checking loop accepts exactly the lists of in-range, aligned, ordered, non-overlapping ranges |
| `DocumentEdit.Carets` | crates/nyaterm-core/src/document_edit.rs:145-151 | the running signed shift never goes below zero where it is used and gives the cursors of the splice |
| `DocumentEdit.TextDocument.Rewrite` | crates/nyaterm-core/src/document_edit.rs:152-154 | replacing ranges back to front in place equals the simultaneous left-to-right splice of the old text |
| `DocumentEdit.TextDocument.Apply` | crates/nyaterm-core/src/document_edit.rs:127-160 | success exactly for acceptable lists; then text is the splice, cursors are the insertion ends, one undo step; otherwise nothing changes at all |
| `DocumentEdit.CursorMeaning` | crates/nyaterm-core/src/document_edit.rs:145-158 | each cursor is a character boundary of the new text, with its own inserted text just before it and the splice of the later edits after it |
| `DocumentEdit.SpliceLength` | crates/nyaterm-core/src/document_edit.rs:152-154 | length is conserved: old length plus inserted minus removed |
| `DocumentEdit.SpliceValid` | crates/nyaterm-core/src/document_edit.rs:152-154 | the spliced text is valid UTF-8 |
| `DocumentEdit.OrderIndependent` | crates/nyaterm-core/src/document_edit.rs:127-128 | edits of distinct ranges listed in any order are the same transaction |
| `DocumentEdit.CanonicalAccepted` | crates/nyaterm-core/src/document_edit.rs:161-171 | a normalised selection list is always an acceptable and already sorted transaction |
| `DocumentEdit.TextDocument.ReplaceSelections` | crates/nyaterm-core/src/document_edit.rs:161-171 | typing over all selections is never refused, is one undo step, and replaces exactly what is selected, told from the old anchor, head and additional selections |
| `DocumentEdit.TextDocument.Selections` | crates/nyaterm-core/src/document_edit.rs:121-125 | the ranges hold exactly the bytes of the aligned selection between anchor and head and of the aligned additional ones, join no two that no selection joins, and keep a bare caret exactly when no selection reaches it from the left |
| `DocumentEdit.FieldsMeaning` | crates/nyaterm-core/src/document_edit.rs:121-125 | the same, for the normal form of any such list of selections |
| `FoldProjection.Project` | crates/nyaterm-core/src/document_edit.rs:326-355 | the segments tile the source and the display exactly, visible pieces are equal text, hidden ones the placeholder, and the hidden ranges are those of the greedy pass |
| `FoldProjection.HidesAllIff` | crates/nyaterm-core/src/document_edit.rs:326-348 | for every family of folds, the hidden bytes are exactly the folded bytes if and only if some valid fold starts wherever a taken one ends inside another |
| `FoldProjection.PairHiddenIff` | crates/nyaterm-core/src/document_edit.rs:326-333 | two valid folds are hidden whole if and only if they are disjoint or nested |
| `FoldProjection.OverlapLeaksLastByte` | crates/nyaterm-core/src/document_edit.rs:331-333 | the last byte of a fold that starts inside an earlier one and outlasts it stays visible |
| `FoldProjection.OverlapExample` | crates/nyaterm-core/src/document_edit.rs:331-333 | three letters with two such folds, where the pass does not hide every folded byte |
| `FoldProjection.HidesExactlyTheFolds` | crates/nyaterm-core/src/document_edit.rs:326-348 | in particular, for pairwise nested or disjoint folds a byte is hidden if and only if some valid fold contains it |
| `FoldProjection.SourceRoundTrip` | crates/nyaterm-core/src/document_edit.rs:356-371 | source to display to source is the identity on visible offsets and at the end, and the start of the one fold that holds a hidden offset |
| `FoldProjection.DisplayRoundTrip` | crates/nyaterm-core/src/document_edit.rs:356-371 | display to source to display is the identity outside placeholders and rounds down to the placeholder start inside |
| `FoldProjection.OffsetsMonotone` | crates/nyaterm-core/src/document_edit.rs:356-371 | both offset maps are monotone and stay within the texts |
| `FoldProjection.DisplayKeepsBoundaries` | crates/nyaterm-core/src/document_edit.rs:356-363 | a character boundary of the source is shown at one of the display, and a visible offset is a boundary if and only if its display offset is |
| `FoldProjection.SourceKeepsBoundaries` | crates/nyaterm-core/src/document_edit.rs:364-371 | a character boundary of the display stands for one of the source |
| `SemVer.CompareIsKeyOrder` | scripts/release/release_channel.py:21-37 | comparison is the lexicographic order of one integer key per version, and is zero exactly when the versions differ at most in build metadata |
| `SemVer.CompareIsTotalPreorder` | scripts/release/release_channel.py:21-37 | antisymmetric, transitive, and compatible with its zero class (sections 10 and 11 of SemVer 2.0.0) |
| `SemVer.ValueInjective` | scripts/release/release_channel.py:29-36 | numeric identifiers without leading zeros are equal as numbers only if equal as text |
| `SemVer.IdentifierCharIff` | scripts/release/package_native.py:107-113 | the characters that a prerelease identifier may have |
| `ReleaseChannel.Channel.Backup` | scripts/release/release_channel.py:94-112 | writes no channel object; when done the journal records the store exactly and every present object has an intact backup file; refused only for an existing journal, a bad candidate, a downgrade or a different manifest of the same version |
| `ReleaseChannel.Channel.CheckCommit` | scripts/release/release_channel.py:154-164 | the read-only pass accepts exactly when every object holds the candidate, or its backup while the release is a draft |
| `ReleaseChannel.Channel.WriteManifests` | scripts/release/release_channel.py:165-170 | wherever it stops, the store is the old one with a prefix of the manifests written, and the journal's record is unchanged; the journal lists the objects written after what it listed before, and no other name |
| `ReleaseChannel.Channel.Commit` | scripts/release/release_channel.py:140-180 | refused untouched, or a prefix of the writes; the release is public only after all of them |
| `ReleaseChannel.Channel.CheckRestore` | scripts/release/release_channel.py:207-217 | accepts exactly when no stored manifest is newer and every recorded backup file is intact |
| `ReleaseChannel.Channel.Restore` | scripts/release/release_channel.py:204-231 | refused untouched, or a prefix of the backups written; when finished all of them are, the readback comparison cannot fail, and the phase is restored |
| `ChannelRuns.BackupStartsSafe` | scripts/release/release_channel.py:94-112 | a finished backup establishes the safety invariant for the store it saw |
| `ChannelRuns.StepSafe` | scripts/release/release_channel.py:140-231 | one commit or restore, stopped anywhere, keeps the invariant and achieves its purpose when it finishes |
| `ChannelRuns.RunSafe` | scripts/release/release_channel.py:140-231 | the invariant holds in every world of every run |
| `ChannelRuns.PromotionSafety` | scripts/release/release_channel.py:94-231 | from a finished backup, over every run of commits and restores that may stop between any two writes: each object is at its backup (or absence) or the candidate, nothing else is touched, finished commits leave all candidates, finished restores leave exactly the old store and are never refused, commits of a published release change nothing |
| `ChannelRuns.OnlyOlderReplaced` | scripts/release/release_channel.py:101-123 | at every point of a promotion, what differs from the backup is the release itself, and replaced something absent or strictly older |
| `ChannelRuns.RestoreNeverRefused` | scripts/release/release_channel.py:207-217 | in a safe world nothing is newer than the release being undone and no backup is corrupt |
| `ChannelRuns.RestoreSparesNewer` | scripts/release/release_channel.py:205-212 | restoring an older release leaves a newer manifest alone, whatever the journal |
| `ChannelRuns.ChannelNeverDowngrades` | scripts/release/release_channel.py:94-166 | over any sequence of backups, commits and restores in any recovery directories, stopping anywhere, a manifest never falls below a release unless that release or a later one is restored from |
| `ActivationCodec.EncodeActivationRequest` | crates/nyaterm-core/src/activation.rs:190-222 | the buffer-extending encoder equals the layout specification, with its three errors in order |
| `ActivationCodec.Cursor.ReadBytes` | crates/nyaterm-core/src/activation.rs:357-368 | reads exactly the next bytes or reports truncation without moving; the offset never passes the end |
| `ActivationCodec.Cursor.ReadArg` | crates/nyaterm-core/src/activation.rs:237-260 | reads exactly the argument at the offset, with the errors in the source's order |
| `ActivationCodec.DecodeActivationRequest` | crates/nyaterm-core/src/activation.rs:224-264 | the cursor-driven decoder equals the grammar of the format |
| `ActivationCodec.RequestRoundTrip` | crates/nyaterm-core/src/activation.rs:190-264 | decoding undoes encoding for every request that encodes |
| `ActivationCodec.RequestCanonical` | crates/nyaterm-core/src/activation.rs:190-325 | a frame that decodes re-encodes to itself if and only if its byte 7 is zero, and otherwise to itself with that byte cleared |
| `ActivationCodec.ReservedByteIgnored` | crates/nyaterm-core/src/activation.rs:296-325 | changing byte 7 changes neither what a request frame nor what an ACK frame decodes to |
| `ActivationCodec.RequestLengthExact` | crates/nyaterm-core/src/activation.rs:224-325 | every strict prefix of a decodable frame is truncated and every strict extension has trailing data |
| `ActivationCodec.FrameCanonical` | crates/nyaterm-core/src/activation.rs:282-325 | framing a decoded payload again gives the frame with byte 7 cleared |
| `ActivationCodec.AckRoundTrip` | crates/nyaterm-core/src/activation.rs:266-280 | ACKs always encode, round trip, are canonical up to byte 7, and have exact length |
| `ActivationLayout.RequestLayout` | crates/nyaterm-core/src/activation.rs:190-222 | the place, order and byte order of every field of a request frame: header, token, id, count, and each argument right after the one before |
| `ActivationLayout.AckLayout` | crates/nyaterm-core/src/activation.rs:266-271 | the same for an ACK |
| `ActivationLayout.FrameDecodesIff` | crates/nyaterm-core/src/activation.rs:296-325 | exactly the frames that start with the magic, version, kind and their own length, of at most 256 KiB, decode, and the rest is the payload |
| `ActivationQueue.StepKeepsInv` | crates/nyaterm-core/src/activation.rs:415-463 | every atomic step of a sender or the receiver keeps the counter invariant, spurious compare-exchange failures included |
| `ActivationQueue.QueueSafety` | crates/nyaterm-core/src/activation.rs:379-463 | in every reachable state the counter is channel length plus discarded messages plus reservations plus the item in hand, is within capacity and never underflows, and delivered requests are a prefix of accepted ones |
| `ActivationQueue.ResultMeaning` | crates/nyaterm-core/src/activation.rs:415-439 | a caller is told "accepted" exactly when its request enters the channel, "full" only at capacity and "closed" only when closed |
| `ActivationQueue.ClosedForGood` | crates/nyaterm-core/src/activation.rs:441-463 | after a close the queue stays closed and later calls are told so; after the receiver has closed or is gone nothing is accepted, and a sender that holds a place gets "closed" and gives it back |
| `ActivationQueue.OpenUntilClosed` | crates/nyaterm-core/src/activation.rs:441-463 | the flag and the channel are closed exactly when somebody has closed them |
| `ActivationQueue.SoloSend` | crates/nyaterm-core/src/activation.rs:415-439 | a sender running alone is accepted exactly when the queue is open and not full, after any number of spurious failures, and the request is appended |
| `ToolProgress.Progress.Id` | crates/nyaterm-ai-client/src/adapter.rs:291-311 | returns the recorded id, or records the one made from the counter |
| `ToolProgress.SyntheticIff` | crates/nyaterm-ai-client/src/adapter.rs:293-310 | the ids that get a fresh number are those that start with "call#" |
| `ToolProgress.IdsInjective` | crates/nyaterm-ai-client/src/adapter.rs:291-311 | over every run in which the counter hands out no number twice, different raw ids have different domain ids, even when a raw id looks like an issued one; requests that draw no number are unrestricted |
| `ToolProgress.IdsStable` | crates/nyaterm-ai-client/src/adapter.rs:291-311 | an id once given never changes |
| `ToolProgress.Progress.NextSlot` | crates/nyaterm-ai-client/src/adapter.rs:333-339 | the loop finds the greatest used slot plus one, saturating at `usize::MAX` |
| `ToolProgress.Progress.UpdateNormalized` | crates/nyaterm-ai-client/src/adapter.rs:324-381 | a snapshot becomes exactly the missing delta, or a protocol error that leaves the call table unchanged |
| `ToolProgress.Progress.Update` | crates/nyaterm-ai-client/src/adapter.rs:313-320 | the same under the domain id |
| `ToolProgress.StepSlots` | crates/nyaterm-ai-client/src/adapter.rs:324-381 | an update moves no slot, keeps at most 128 calls, and keeps slots distinct if and only if it does not saturate |
| `ToolProgress.RunSlots` | crates/nyaterm-ai-client/src/adapter.rs:324-381 | over every run slots never move, the table stays within 128, and slots are pairwise distinct if and only if no step saturated |
| `ToolProgress.RunHonours` | crates/nyaterm-ai-client/src/adapter.rs:324-381 | over every run no snapshot is ever contradicted: names and wire indices stay, arguments only grow and equal those of the last snapshot |
| `ToolRefusals.RefusedIff` | crates/nyaterm-ai-client/src/adapter.rs:324-372 | after every run the next snapshot is refused exactly when its call would be number 129, it does not go on with the arguments of an earlier one of its call, it has another name, or its index is taken or moved |
| `ToolRefusals.NeverRefused` | crates/nyaterm-ai-client/src/adapter.rs:324-372 | a provider with cumulative snapshots, stable names, indices that stay and differ (or none) and at most 128 calls is never refused |
| `ToolProgress.NeverCollidesIff` | crates/nyaterm-ai-client/src/adapter.rs:333-347 | every run with wire indices up to a bound has distinct slots if and only if the bound is at most `usize::MAX - 127` |
| `ToolProgress.BoundIsTight` | crates/nyaterm-ai-client/src/adapter.rs:333-347 | a run of 128 calls with wire index `usize::MAX - 126` in which two calls share a slot |
| `ToolProgress.SmallIndicesDistinct` | crates/nyaterm-ai-client/src/adapter.rs:333-347 | wire indices up to `usize::MAX - 127` never lead to a collision at any point of a run |
| `ToolProgress.LargeIndexCollides` | crates/nyaterm-ai-client/src/adapter.rs:333-339 | a run with all wire indices below `usize::MAX` in which two calls share a slot |
| `ToolStream.Outbox.SendDelta` | crates/nyaterm-ai-client/src/adapter.rs:218-282 | the draining loops send exactly the specified messages in order, up to the one that the receiver is no longer there for, and report failure exactly then |
| `ToolStream.CuttingIsTransparent` | crates/nyaterm-ai-client/src/adapter.rs:218-282 | for every message and every consumer state, receiving the cut messages equals receiving the uncut one |
| `ToolStream.MessagesBounded` | crates/nyaterm-ai-client/src/adapter.rs:218-282 | every sent message is within the chunk limit, and only the last may say "done" |
| `ToolStream.MessagesInOrder` | crates/nyaterm-ai-client/src/adapter.rs:218-282 | text is sent before reasoning, reasoning before calls, and the end last |
| `ToolStream.NotesKept` | crates/nyaterm-ai-client/src/adapter.rs:218-282 | cutting keeps every signature and the metadata, once each and in order |
| `ToolStream.SignatureSent` | crates/nyaterm-ai-client/src/adapter.rs:324-381 | an accepted snapshot adds its signature to the stream, once, under the slot of its call |
| `ToolStream.CutIsNotDone` | crates/nyaterm-ai-client/src/adapter.rs:218-282 | a receiver that goes away in the middle of a delta has not been told "done" |
| `ToolStream.StreamRebuilds` | crates/nyaterm-ai-client/src/adapter.rs:218-381 | after every run of snapshots, concatenating the sent chunks per index rebuilds each call's id, name and full arguments, and nothing else, if and only if no two calls share a slot |
| `StreamEnd.Validate` | crates/nyaterm-ai-client/src/adapter.rs:383-401 | succeeds exactly when every emitted call is in the completion and agrees with it on its non-empty fields |
| `StreamEnd.EmitMissing` | crates/nyaterm-ai-client/src/adapter.rs:156-180 | emits each completed call not yet streamed, fails exactly for an unnamed call, more than 128 or a receiver that went away, and a consumer that agreed before still agrees |
| `StreamEnd.Finish` | crates/nyaterm-ai-client/src/adapter.rs:153-190 | unless the receiver goes away, success exactly when the emitted calls agree with an acceptable completion; on success streamed calls stay as they were, every other completed call is added with its name and arguments, a consumer that held the table holds it, and the one message that says "done" is the last and brings the metadata; otherwise none is sent |
| `StreamEnd.WholeIff` | crates/nyaterm-ai-client/src/adapter.rs:153-180 | after success every completed call is held with its name and arguments if and only if no field had been streamed as empty that is not empty in the completion |
| `StreamEnd.EmptyArgumentsStay` | crates/nyaterm-ai-client/src/adapter.rs:383-401 | a call whose one snapshot had empty arguments passes the check and is left without the arguments of the completed call |
| `StreamEnd.FilledKeys` | crates/nyaterm-ai-client/src/adapter.rs:156-180 | at the end the emitted ids are exactly the completed ids |
| `GeminiParts.StreamedIsMaximalMerge` | crates/nyaterm-ai-client/src/frames.rs:315-334 | appending part by part equals cutting the whole list into maximal runs and joining each |
| `GeminiParts.SplitInvariant` | crates/nyaterm-ai-client/src/frames.rs:315-334 | splitting an unsigned text part anywhere in the list changes nothing |
| `GeminiParts.StreamedGroups` | crates/nyaterm-ai-client/src/frames.rs:315-334 | neighbouring parts are joined exactly when both are unsigned text with the same other members; every other part is kept as it is, and no text is lost or reordered |
| `GeminiParts.MergeableIff` | crates/nyaterm-ai-client/src/frames.rs:318-327 | the member-by-member test means that all members but the text are equal |
| `FrameObserver.Observer.AppendGeminiPart` | crates/nyaterm-ai-client/src/frames.rs:315-334 | the in-place edit of the entry with the greatest key equals the specification |
| `FrameObserver.Observer.OnFrame` | crates/nyaterm-ai-client/src/frames.rs:55-306 | one frame changes all of the observer's fields, the response data included, exactly as specified, for every protocol and error path, and no index assignment, into the data or into a stored item, meets a value it cannot write into |
| `Frames.ObservedSafety` | crates/nyaterm-ai-client/src/frames.rs:55-306 | over every frame sequence a state that has not failed is within the byte, call and item limits, a finished Anthropic message has no open buffer, Gemini keys are 0 to n-1 and other items are objects |
| `Frames.Absorbing` | crates/nyaterm-ai-client/src/frames.rs:55-66 | a terminal or failed state never changes again |
| `FrameFates.RunFate` | crates/nyaterm-ai-client/src/frames.rs:55-306 | over every run that has not failed: it is finished exactly when a frame ended it, content was generated exactly when a frame read brought some, and every tool call has the index it was given last |
| `FrameFates.FailsIff` | crates/nyaterm-ai-client/src/frames.rs:55-306 | a run fails at a frame exactly when the frame is no JSON object or reports an error, exceeds the byte limit, is wrong about what came before (listed per protocol), or brings too many calls or items |
| `Frames.IndexIff` | crates/nyaterm-ai-client/src/frames.rs:309-313 | an index is a number that a machine word can hold |
| `Frames.EndsWithIff` | crates/nyaterm-ai-client/src/frames.rs:90-91 | the suffix test of the event type |
| `Frames.GeminiItemsAreMaximalMerge` | crates/nyaterm-ai-client/src/frames.rs:173-205 | after any run the stored Gemini items are the maximal merge of all parts taken in, however they were spread over frames |
| `FrameObserver.CopyMembers` | crates/nyaterm-ai-client/src/frames.rs:165-171 | the member-by-member loop is a map union without the skipped names |
| `FrameData.DataSound` | crates/nyaterm-ai-client/src/frames.rs:87-306 | over every run the response data stays an object with the nested shapes that later frames write into |
| `FrameData.DataComplete` | crates/nyaterm-ai-client/src/frames.rs:87-306 | over every run: a finished Anthropic message has its items in order as content, a finished response has its own output or the items, and a Gemini candidate has the items as parts |
| `FrameData.GeminiReply` | crates/nyaterm-ai-client/src/frames.rs:173-205 | in every Gemini run the kept reply is the maximal merge of all parts taken in |
| `DataMembers.DataHoldsLast` | crates/nyaterm-ai-client/src/frames.rs:87-306 | over every run that has not failed, each member of the response, its usage, first choice, delta and candidate is the last value that a frame gave to it |
| `AnthropicBlocks.InputReassembled` | crates/nyaterm-ai-client/src/frames.rs:233-283 | however a block's JSON input is cut into fragments and whatever other frames lie between, the stopped block holds the value of the joined text and no buffer, or the stream has failed |
| `AnthropicBlocks.OnlyMatters` | crates/nyaterm-ai-client/src/frames.rs:233-283 | frames of other blocks and frames without an index leave a block as it would be without them |
| `AnthropicBlocks.BufferIsJoin` | crates/nyaterm-ai-client/src/frames.rs:251-276 | at every point of every run the buffer of a block is the join of its fragments since its last stop |
| `AnthropicBlocks.InputIsHeld` | crates/nyaterm-ai-client/src/frames.rs:233-283 | at every point of every run that has not failed a stored block holds the parsed join of its last stop |
| `AnthropicBlocks.RunIsItsEvents` | crates/nyaterm-ai-client/src/frames.rs:55-306 | an Anthropic run that has not failed is exactly the sequence of the JSON events it looked at |
| `AnthropicBlocks.StreamedInput` | crates/nyaterm-ai-client/src/frames.rs:206-306 | over every run of frames that has not failed a block is stored with the parsed join of its fragments, whatever frames lie between |
| `AnthropicBlocks.StreamedBlocks` | crates/nyaterm-ai-client/src/frames.rs:55-306 | over every such run, for every index: the buffer is the join since the last stop and the stored input the parsed join of the last stop |
| `AnthropicText.StreamedMembers` | crates/nyaterm-ai-client/src/frames.rs:227-288 | over every run that has not failed the stored blocks are those that were started; text, thinking and signature are the started value followed by the join of all later fragments, the input is the parsed join, and every other member is that of the start |
| `ResponseItems.StreamedItems` | crates/nyaterm-ai-client/src/frames.rs:104-126 | the twin for Responses: each item is its last full form, with its arguments followed by the join of the later fragments |
| `LineStream.Complete` | crates/nyaterm-ai-client/src/ollama_compat.rs:134-160 | the loop that extends and drains the pending buffer equals its specification, with every error that a line, a chunk, the limit or the end of the stream leads to |
| `LineStream.OutcomeMeaning` | crates/nyaterm-ai-client/src/ollama_compat.rs:134-160 | with the text cut at its newlines, the outcome is the answer to the first non-blank line (then a last line without newline) that does not let the completion go on, and an interruption if there is none |
| `LineStream.AnswerPosition` | crates/nyaterm-ai-client/src/ollama_compat.rs:143-158 | that answer by position: all earlier lines said "go on", through the states they gave |
| `LineStream.BlankIff` | crates/nyaterm-ai-client/src/ollama_compat.rs:145-147 | a blank line has only spaces, tabs, line feeds, form feeds and carriage returns |
| `LineStream.ChunkingIsTransparent` | crates/nyaterm-ai-client/src/ollama_compat.rs:134-160 | for every line processor and every chunking within the limit, the incremental loop equals draining the whole text at once; a stream that breaks off gives what its complete lines decide, or its error |
| `LineStream.SameBytesSameOutcome` | crates/nyaterm-ai-client/src/ollama_compat.rs:134-160 | two chunkings of the same bytes have the same outcome, also when both break off with the same error |
| `LineStream.OverfullIsRefused` | crates/nyaterm-ai-client/src/ollama_compat.rs:134-160 | a chunk that pushes the pending line past 4 MiB ends the stream with a protocol error unless a line before it decides |
| `WebDav.KeepsCredentialsTransitive` | crates/nyaterm-cloud-storage/src/webdav.rs:358-374 | the credential-keeping relation is transitive |
| `WebDav.KeepsIff` | crates/nyaterm-cloud-storage/src/webdav.rs:353-365 | credentials follow exactly to the same host under the same scheme and port, or from http on port 80 to https on port 443 |
| `WebDav.FollowsIff` | crates/nyaterm-cloud-storage/src/webdav.rs:377-414 | when exactly a redirect is followed |
| `WebDav.InvalidIff` | crates/nyaterm-cloud-storage/src/webdav.rs:377-414 | when exactly a redirect is an error |
| `WebDav.SendWithHeaders` | crates/nyaterm-cloud-storage/src/webdav.rs:79-161 | the loop sends and returns exactly what the turn-by-turn specification says, and terminates |
| `WebDav.CallGuarantees` | crates/nyaterm-cloud-storage/src/webdav.rs:79-161 | every call sends at most six requests, the first to its own URL; writes and credentials go only to URLs related to it, never from https back to http nor to a URL with a user, password or fragment; digest sends sign the current path and query with counts 1, 2, 3, ...; an answer is the reply to the last request |
| `WebDav.CallDealsWithAll` | crates/nyaterm-cloud-storage/src/webdav.rs:93-158 | every request carries exactly the authorization that is due; the first challenge is answered at once with its first Digest if it can be, every redirect that may be followed is, up to four, and any other response ends the call with it |
| `WebDav.SendsBounded` | crates/nyaterm-cloud-storage/src/webdav.rs:79-161 | requests are bounded by redirects left plus the challenge not yet taken |
| `WebDav.CountsInOrder` | crates/nyaterm-cloud-storage/src/webdav.rs:92-117 | from any point of the loop the nonce counts go up by one without reuse |
| `WebDav.AnswerIsLast` | crates/nyaterm-cloud-storage/src/webdav.rs:118-151 | the returned response answers the last request and was not a redirect to follow |
| `WebDav.BodyLeavesIff` | crates/nyaterm-cloud-storage/src/webdav.rs:367-414 | a body can reach a URL that credentials may not follow to if and only if the call is a `GET` or `HEAD` with a body to a web URL |
| `DigestChallenge.ParseQuotedDigestValue` | crates/nyaterm-cloud-storage/src/helpers.rs:290-306 | the character loop equals the recursive unescaping |
| `DigestChallenge.QuotedRoundTrip` | crates/nyaterm-cloud-storage/src/helpers.rs:290-306 | for every value and remainder, parsing the escaped quoted value gives both back |
| `DigestChallenge.EscapeCons` | crates/nyaterm-cloud-storage/src/helpers.rs:356-358 | the two replacements escape each character on its own |
| `DigestChallenge.ParseDigestChallenge` | crates/nyaterm-cloud-storage/src/helpers.rs:261-288 | the loop terminates on every input and equals the parameter-by-parameter specification |
| `DigestChallenge.ChallengeRoundTrip` | crates/nyaterm-cloud-storage/src/helpers.rs:261-306 | parsing a printed list stores it: keys in any case, arbitrary quoted values, bare values, and white space around equals signs and before commas |
| `DigestChallenge.DistinctRoundTrip` | crates/nyaterm-cloud-storage/src/helpers.rs:261-306 | with distinct keys the parsed map is exactly the printed one: every value under its key and no other key |
| `PercentCodec.EncodeComponent` | crates/nyaterm-cloud-storage/src/helpers.rs:150-161 | the loop equals the byte-wise encoding |
| `PercentCodec.UnreservedIff` | crates/nyaterm-cloud-storage/src/helpers.rs:150-161 | the bytes that are not escaped are the unreserved characters of section 2.3 of RFC 3986 |
| `PercentCodec.HexValueIff` | crates/nyaterm-cloud-storage/src/webdav.rs:541-549 | hexadecimal digits in either case |
| `PercentCodec.DecodePathSegment` | crates/nyaterm-cloud-storage/src/webdav.rs:532-557 | the index loop equals the recursive decoding, including its refusals and the UTF-8 check |
| `PercentCodec.ComponentRoundTrip` | crates/nyaterm-cloud-storage/src/helpers.rs:150-161 | decoding undoes encoding for every UTF-8 string (section 2.1 of RFC 3986) |
| `PercentCodec.EncodeUndoesDecode` | crates/nyaterm-cloud-storage/src/webdav.rs:532-557 | encoding undoes decoding exactly on texts of unreserved characters and upper-case escapes of the others whose bytes are UTF-8 |
| `PercentCodec.PlusIsAccepted` | crates/nyaterm-cloud-storage/src/webdav.rs:546 | a plus sign and one hexadecimal digit decode, although no encoding has that form |
| `PercentCodec.PathKeepsSegments` | crates/nyaterm-cloud-storage/src/helpers.rs:143-148 | an encoded path has the same segments, each encoded, and each accepted by the decoder and given back |
| `ConnectionSearch.Scan` | crates/nyaterm-core/src/connection_search.rs:22-31 | the first loop indexes exactly the parent links and lists exactly the name hits |
| `ConnectionSearch.Close` | crates/nyaterm-core/src/connection_search.rs:32-39 | the worklist terminates and collects exactly the reachable ids, cycles, duplicates and missing parents included |
| `ConnectionSearch.New` | crates/nyaterm-core/src/connection_search.rs:18-53 | the included ids are exactly those reachable from a matching group; an empty query leaves every group included |
| `ConnectionSearch.MatchIff` | crates/nyaterm-core/src/connection_search.rs:7-30 | a group matches exactly when the text typed, without white space around it, stands in its name, whatever the case of the letters |
| `Strings.WhitespaceIff` | crates/nyaterm-core/src/connection_search.rs:7-9 | the characters that trimming takes off: the Unicode White_Space property |
| `CrashReport.BoundedWriter.WriteStr` | crates/nyaterm-app/src/crash_report.rs:141-159 | one write changes sink, budget and flags as specified, including failure and truncation |
| `CrashReport.BoundedWriter.Close` | crates/nyaterm-app/src/crash_report.rs:129-137 | the marker is written exactly when something was cut and nothing failed; then the sink is flushed, and its failure reported |
| `CrashReport.ReportIsOneShot` | crates/nyaterm-app/src/crash_report.rs:112-160 | for every sequence of writes the report is the whole text if it fits, otherwise the longest aligned prefix within the budget and the marker; it is valid UTF-8 of at most 256 KiB |
| `CrashReport.FailingSinkKeepsPrefix` | crates/nyaterm-app/src/crash_report.rs:129-159 | over any sink what was written is a prefix of that report, and success is reported exactly when all of it had room and the flush succeeded |

## Left out

- JSON, URL, regular-expression and XML parsing, hashing and signing: values, URL records and contents stand for their results.
- HTTP, sockets, files, time, retries with back-off, cancellation and task timeouts: responses, chunks, snapshots and stopping points are inputs.
- `SearchOptions` and `rectangle_selections` in the document editor: the first is the regular-expression engine, the second would add only easy members.
- `SemVer` grammar parsing: well-formed versions are the domain of the comparison.
- `scripts/release/snapshot_release.py` and packaging scripts: the same recovery idea with many outside effects.
- Command suggestions, language tables, encodings, MAC addresses, terminal and user interface code: tables or easy properties.
- DocumentEdit.Carets: does not model overflow of `isize`, which needs texts of half the address space.
- ToolProgress.IdsInjective: assumes that the process-wide 64-bit counter hands out no number twice; wrap-around after 2^64 ids is not modelled.
- ActivationQueue.QueueSafety: the unbounded channel is one atomic queue; its lock-free internals and weak memory ordering are not modelled.
- ReleaseChannel.Channel.Backup: digests are modelled by the contents they identify, and the journal is replaced atomically.
- `matches_connection` in the connection search: one more substring test on a lower-cased line, an easy member.
- StreamEnd.Finish: starts from the completion with domain ids; the earlier check that the frames were terminal and the renaming of synthetic ids inside the captured content are not part of it.
- ReleaseChannel.Channel.Restore: assumes that the recorded objects have distinct keys, as the fixed target list gives them.
- ReleaseChannel.Channel.Commit: a failing public check, and a release still a draft after publishing, are among the points where the process may stop.
- LineStream.Complete: what a line does to the completion, the deltas it sends included, is a parameter; its error kind is passed on.
- Frames.ObservedSafety: JSON numbers are integers.
