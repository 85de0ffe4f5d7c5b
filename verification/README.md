# Verified model of octo-doc

octo-doc publishes HTML documents under a slug, keeps numbered versions and one draft of each, and lets readers
comment on artifacts and text in them. This project models the parts of it that carry invariants and proves
what those parts promise. `dafny verify dfyconfig.toml` checks everything.

## How the model is laid out

| files | what they model |
|---|---|
| comment_types, event_log, comment_fold, fold_laws, selection, merge_order | a comment as an append-only log: ids, collapsing by id, stable order by version, folding into a snapshot, what decides each part of a snapshot, merging what two writers appended |
| comment_ops, op_laws, comment_runs, reactions | the operations on a slug's list of comments, what each does to the snapshots, runs of them, and what a reaction toggle does |
| reconcile, publish_laws | carrying anchors over to a new version's artifacts, and what a publish makes of all comments |
| legacy, legacy_laws, legacy_versions | migrating flat records into logs |
| fold_state, comment_book | the same operations as the program performs them, in place, each proved to compute the functions above |
| stamp_scan, stamp, stamp_weave, stamp_laws, stamp_twice, stamp_readable, stamp_identity, stamp_machine | finding artifacts in HTML, giving each an identity, splicing it into the open tag, and doing so again |
| keyed_mutex, sluglock, comment_serial | the reclaiming per-slug mutex as a step relation, its map of entries as objects, and comment requests under it |
| advisory_lock | per-slug locks held over pooled database sessions |
| hex_scan, asset_gc, gc_pass | the scan for content addresses, a collection pass interleaved with authors, and a pass undisturbed |
| doc_lifecycle, doc_success, doc_service | versions, draft, metadata and share code over a store that can fail at any call |
| storage_keys, memory_store | the string-keyed store and its prefix scans |
| text_index, text_search, text_choice, overlay_text | the overlay's whitespace-collapsed text index and its search for a saved selection |
| rate_limiter, text_prefix, line_sep | the sweeping rate limiter, and the JSON rewrite for script elements |

A specification function says what an operation means; a method or class with the program's own fields and loops
is proved to compute it; lemmas state what follows.

## What the code does not do

- A parent reaction has an id computed from its kind, emoji and user. A repeated id replaces the earlier entry in
  place, so the toggle works twice and then sticks: `ReactionLaws.ThirdReactIsLost` shows it for every comment, and
  `ReactionLaws.ParentReactFlipsExactly` says exactly when a react takes effect. An emoji that holds a colon can spell
  another pair's id, and then takes that membership over (`ReactionLaws.SharedKeyLoses`). Reply reactions have
  one-shot ids and always flip.
- The comment on DedupEvents promises the same result whatever the write order. `CommentFold.WriteOrderMatters` is a
  pair of edits that reads differently when swapped; `MergeOrder.MergeOrderExact` says exactly when the log
  is read the same in both orders; then every snapshot is the same, too. Some events commute, so snapshots can also
  agree where the reading differs.
- A second stamping changes every document with an artifact whose attributes end in a slash or white space, and only
  those among the documents considered (`StampTwice.StampingTwiceIsStampingOnce`); `StampTwice.SelfClosingChanges` is
  the smallest.
- The embedded JSON is searched for `</script>` in that spelling only. The end tag in capitals, or with white space or
  a slash before `>`, stays and closes the element (`LineSep.ScriptClosedFromInside`, `LineSep.UpperCaseCloses`).
- The rate limiter's bound needs times in order once it sweeps. The time is read before the lock is taken, so calls can be judged out
  of order, and a sweep in between forgets windows (`RateLimiter.ClockBackDoubles`).
- skipRawTextBodyAt asks whether the tag closes itself, but is handed text that ends in `>`, so it never does
  (`StampMachine.NeverSelfCloses`).
- The overlay normalises a saved selection by a wider set of white space than its index, so a selection with, say,
  an em space does not occur in its own document (`TextSearch.SelectionOccurs`). Nor is every selection that occurs
  chosen: the search skips occurrences that overlap an examined one (`TextSearch.OverlappedIsMissed`);
  `TextSearch.SelectionFoundAgain` is the exact condition.
- A removal that stops after the blobs leaves listed versions without blobs (`DocLifecycle.OpKeepsInv`), and a
  collection pass can delete an asset another document began to use after the snapshot (`AssetGc.CrossDocumentRace`),
  as its own comment admits.
- The scan for content addresses misses one at an unaligned place of a run of more than 4096 digits
  (`HexScan.WindowsExactly`), so "referenced" in the collection theorems means found by the scan.
- Prefix scans need slugs without NUL (`MemoryStore.NulSlugsCollide`). The service admits letters, digits, `_` and `-`
  only (`internal/config/config.go:61`), so such a slug is never received.

## Modelling choices

- A pointer into a slice is an index into the list. Where the program mutates a list or a map it is a field.
- An event id is a datatype by its shape. Computed ids keep the text they are computed from; the nonce of a one-shot
  id is a serial number that is never issued twice.
- Clocks, random ids, the content hash, JSON encoding of values and the network are parameters. The stamper's hash
  is any function; where its alphabet matters it returns letters and digits.
- Times and durations are whole numbers. Go's integers are unbounded here except in the store's number printing and
  parsing, which overflow as 64-bit integers do.
- HTML and patterns are matched on characters with ASCII case folding. White space is the set each pattern names. The
  length of a document in bytes is a parameter of the size limit.
- The library's stable sort is an insertion sort; `EventLog.StableOrderUnique` shows that nothing else is possible.
- A store call of a document operation can succeed, be acknowledged without effect, or report an error before or
  after its effect.

## Model

| member | source | states |
|---|---|---|
| EventLog.DedupIdempotent | internal/core/events.go:59-80 | Collapsing a log twice is collapsing it once |
| EventLog.DedupSameLength | internal/core/events.go:126-141 | A collapsed log of the same length is the same log, so compaction may skip the write |
| EventLog.DedupKeepsLast | internal/core/events.go:59-80 | Every repeated id keeps its last payload |
| EventLog.DedupKeepsFirstPosition | internal/core/events.go:59-80 | Every id stays at the place of its first occurrence |
| EventLog.StableOrderUnique | internal/core/fold.go:197-203 | A version-sorted log that keeps each version's own subsequence is the stable sort, so the library sort has no freedom |
| EventLog.CanonicalOrder | internal/core/fold.go:182-203 | Logs whose collapsed forms agree on every version's own subsequence are read in the same order |
| EventLog.AppendOrder | internal/core/events.go:49-54 | A new id at version v: readers below v see the old reading, readers at v see it last, later readers see it between the events up to v and the rest |
| EventLog.ReadersSee | internal/core/fold.go:182-235 | A reader at v sees exactly the collapsed entries with a finite version up to v |
| CommentFold.AppendLaw | internal/core/fold.go:182-235 | Append law: nothing changes below the event's version, at it exactly one step is added, above it the event is folded after everything up to its version and before the rest |
| CommentFold.CanonicalForm | internal/core/events.go:59-80 | Every snapshot depends only on each version's own subsequence of the collapsed log |
| MergeOrder.MergeOrderExact | internal/core/events.go:56-80 | For any log and any two parts appended to it, in either order, ids repeated or not: they read the same if and only if what counts under every id both wrote is the same event, and at every version what one added under new ids begins with what the other added there |
| MergeOrder.MergeOrderIrrelevant | internal/core/events.go:56-58 | Then every snapshot at every version is the same in either order |
| MergeOrder.MergeOrderDistinct | internal/core/events.go:56-58 | Where no id repeats the order does not matter if and only if no version got events from both writers |
| MergeOrder.DedupAppended | internal/core/events.go:59-80 | Collapsing a log with a part appended: its ids keep their places with the part's payloads, the part's new ids follow |
| CommentFold.WriteOrderMatters | internal/core/events.go:56-58 | The promise of independence from write order fails inside one version: a pair of edits that reads differently when swapped |
| CommentFold.CompactionKeepsSnapshots | internal/core/events.go:126-141 | Compaction changes no snapshot at any version |
| CommentFold.SnapshotTidy | internal/core/fold.go:36-268 | In every snapshot of every log: applied exactly when applied_in is set, no user twice under an emoji, no emoji without users, no deleted reply |
| CommentFold.ToggleExact | internal/core/fold.go:36-63 | A reaction edit keeps the table tidy and decides exactly its own membership |
| FoldMachine.ApplyReaction | internal/core/fold.go:36-54 | The in-place edit computes the membership toggle |
| FoldMachine.FoldState.ApplyContentEvent | internal/core/fold.go:65-85 | Content events change the state as the step function says, and whether they applied is reported |
| FoldMachine.FoldState.ApplyStatusEvent | internal/core/fold.go:87-122 | The same for status events; which of them decides is FoldLaws.LastWriterDecides and ReactionsDecided |
| FoldMachine.FoldState.ApplyReplyEvent | internal/core/fold.go:136-180 | The same for replies and their reactions, in place in the reply table |
| FoldMachine.FoldState.ApplyCommentEvent | internal/core/fold.go:182-193 | One event mutates the state to exactly one step |
| FoldMachine.FoldState.Finalize | internal/core/fold.go:237-251 | The snapshot of the state: the verdict's emoji of the agent added, deleted replies dropped, in order |
| FoldMachine.DedupEvents | internal/core/events.go:59-80 | Two passes over maps compute the collapsed log |
| FoldMachine.BackfillEids | internal/core/events.go:37-46 | The loop fills every missing id and reports whether one was missing |
| FoldMachine.Replay | internal/core/fold.go:222-235 | The replay loop reaches the fold of what a reader at that version sees |
| FoldMachine.SnapshotAt | internal/core/fold.go:255-268 | The snapshot, and none for an empty log or a comment created later |
| FoldLaws.SeenExactly | internal/core/fold.go:222-268 | A reader of a version sees the collapsed entries with a real version up to it, in version order, one of no real version all of them; and there is a snapshot for him if and only if the log is not empty and the comment existed then |
| FoldLaws.LastWriterDecides | internal/core/fold.go:65-122 | Of what is seen, the last created or text event decides the text, the last created or anchor event the anchor, the last applied, open or resetting anchor event the status and where it was applied (open where there is none) |
| FoldLaws.ReactionsDecided | internal/core/fold.go:87-134 | A user is listed under an emoji if and only if the last event seen for the two adds it, or he is the agent and the emoji that of the verdict in the last status event, each emoji written out |
| FoldLaws.RepliesRead | internal/core/fold.go:136-251 | The replies listed are those added and not deleted since, in the order of adding; each reads the last events seen that write its author, its text and its reactions |
| FoldLaws.TogglePlaces | internal/core/fold.go:36-54 | A user new under an emoji comes last, removing one closes the gap |
| OpLaws.DeleteCommentMarks | internal/core/ops.go:194-209 | Deleting a comment found by id marks it deleted in every snapshot from the deletion's version on, whatever was deleted before, and changes nothing else in any snapshot of any comment |
| OpLaws.DeleteReplyDrops | internal/core/ops.go:194-209 | Deleting a reply drops every reply of that id from the snapshot at that version and leaves all else, the comment's own deletion mark included; no other comment changes |
| OpLaws.CreateAdds | internal/core/ops.go:107-120 | A created comment stands last and reads the operation's text and anchor from its version on, open, without replies or reactions; before, it is not there |
| OpLaws.ReplyAdds | internal/core/ops.go:122-135 | A reply under an id new to the parent is listed last at its version, with the operation's author and text; all else is as before |
| OpLaws.PatchAnchorMoves | internal/core/ops.go:137-148 | The snapshot at that version has the operation's anchor and, on a reset, is open; all else is as before, and the answer is that snapshot |
| OpLaws.ReactOnReply | internal/core/ops.go:162-192 | A react on a listed reply turns exactly that membership over and changes nothing else |
| OpLaws.ReactOnComment | internal/core/ops.go:162-192 | A react on a comment changes at every version the reactions alone, and there no membership of another key; it answers the reactions that result |
| OpLaws.ReactFlipsExactly | internal/core/ops.go:162-192 | Through the dispatcher, too, it turns its membership over if and only if it takes effect |
| OpLaws.RawEventsAppended | internal/core/ops.go:211-223 | Raw events go to the end of the log, all of them, in order, each with its id filled in as the id rule says |
| OpLaws.DeleteNothing | internal/core/ops.go:194-198 | A deletion of an id that names no comment and no reply answers 404 and changes nothing |
| OpLaws.ReplyToNothing | internal/core/ops.go:122-126 | A reply to an id that names no comment answers 404 and changes nothing |
| OpLaws.PatchNothing | internal/core/ops.go:137-141 | The same for an anchor |
| OpLaws.ReactOnNothing | internal/core/ops.go:162-173 | The same for a react, and for one on a comment that is not there yet at its version |
| OpLaws.WipedOrUnknown | internal/core/ops.go:98-105 | The answers to a wipe, to raw events for an unknown id, and to an unknown operation |
| OpLaws.MigrationNames | internal/core/events.go:85-110 | Where there is a log, migration fills in the missing ids, no one-shot id twice, and changes nothing else |
| OpLaws.SucceedsExactly | internal/core/ops.go:80-253 | An operation succeeds if and only if it finds something to work on, and only a wipe asks to drop the list |
| OpLaws.Stored | internal/service/comment.go:151-169 | What a request leaves stored: nothing after a wipe, the list as it was when there was nothing to work on, else what the operation made of it |
| PublishLaws.PublishJoins | internal/core/ops.go:225-253 | Stored comments keep their places, local ones whose id is new follow, each once and in order, and the answer counts them |
| PublishLaws.PublishMerges | internal/core/ops.go:225-253 | Every comment, stored or local, comes out with its log collapsed, its snapshots below the version as before, and at it the anchor where the artifacts leave it |
| Selection.FoldAgrees | internal/core/fold.go:65-180 | Each part of a snapshot is decided by the events of its own kind alone, for every log |
| CommentBookMachine.CommentBook.ApplyCommentOp | internal/core/ops.go:80-105 | The dispatcher over the list in place does what the operation says, result code included; what that is for the readers is OpLaws and PublishLaws |
| CommentBookMachine.CommentBook.React | internal/core/ops.go:162-192 | React on a comment or a reply: the event appended, the snapshot returned, 404 without a host |
| CommentBookMachine.CommentBook.PublishMerge | internal/core/ops.go:225-253 | Unknown local comments join, anchors are reconciled, logs compacted |
| CommentBookMachine.FindHost | internal/core/ops.go:56-71 | A comment by its id first, else the comment whose log added that reply |
| CommentRuns.DeletedExactly | internal/core/fold.go:65-85 | A snapshot is deleted exactly when the log has a deletion at or below the version |
| CommentRuns.RunRemembers | internal/core/ops.go:80-253 | Over every run of operations short of a wipe, comments stay at their place with their id, and no deletion is forgotten |
| CommentRuns.DeletedNeverReappears | internal/core/ops.go:80-253 | A comment deleted at v is absent or deleted at every w from v on, after any run, and the list reads as if it were not there |
| CommentRuns.ListedAlive | internal/core/fold.go:272-281 | The list of snapshots is that of the comments alive at the version, each once and in their order |
| CommentRuns.ListedWithout | internal/core/fold.go:272-281 | A comment that is not alive contributes nothing to the list of snapshots |
| ReactionLaws.ReplyReactFlips | internal/core/ops.go:150-192 | A react on a visible reply flips exactly that one membership and leaves the rest of the snapshot and every other comment alone |
| ReactionLaws.ParentReactFlipsExactly | internal/core/ops.go:162-192 | A react on a parent turns its membership over if and only if it takes effect: the agent's verdict does not pin it, and no earlier entry that its repeated id overwrites has the opposite reaction of the same version behind it; for every log |
| ReactionLaws.SharedKeyLoses | internal/core/events.go:23-34 | An emoji and a user that spell the same key share the id: a react that adds takes the other membership away at every version, one that removes leaves what the other's own add says |
| ReactionLaws.ThirdReactIsLost | internal/core/events.go:23-34 | The toggle fails: three parent reacts at one version read on, off, off |
| ReactionLaws.MembershipByEntries | internal/core/fold.go:124-134 | Membership under an emoji is decided by the last seen of the two entries with that key |
| ReconcileLaws.NextAnchorSettles | internal/core/reconcile.go:69-98 | What nextAnchor records is bound to an artifact of the version or lost with nothing confident to bind to, and it records nothing only for such an anchor |
| ReconcileLaws.ReconcileExact | internal/core/reconcile.go:108-144 | After a pass at v every comment alive there on an element or lost has its anchor as it was if that names an artifact, else bound to its confident target, else lost; nothing else changed, and all snapshots below v are as before |
| ReconcileLaws.RebindExactly | internal/core/reconcile.go:30-65 | By indices: the identity taken is that of the one artifact that fits tag and heading, or, where none fits both, of the one that fits the tag, and none where there is no such artifact |
| ReconcileLaws.AmbiguousIsNone | internal/core/reconcile.go:50-65 | Two artifacts that fit both, or none that does and not exactly one that fits the tag, give none |
| ReconcileLaws.SelectorAidFirst | internal/core/reconcile.go:14-27 | The identity a selector names is the first it holds in brackets |
| ReconcileLaws.NextAnchorDrifts | internal/core/reconcile.go:69-98 | The anchor recorded, field by field: bound to its confident target, else lost, and nothing for one lost already |
| ReconcileLaws.ReconcileTwice | internal/core/reconcile.go:130-144 | A second pass with the same artifacts changes no comment |
| CommentBookMachine.FindRebindAid | internal/core/reconcile.go:30-65 | The two filter loops take the identity that ReconcileLaws.RebindExactly characterises |
| CommentBookMachine.CommentBook.ReconcileAnchors | internal/core/reconcile.go:130-144 | The loop over the list applies the pass to every comment |
| CommentBookMachine.CommentBook.CompactComments | internal/core/events.go:126-141 | The loop compacts every comment |
| LegacyMigration.EnsureLogIdempotent | internal/core/events.go:85-110 | Migrating twice, at any later clock, changes nothing |
| LegacyMigration.SortedKeysAscend | internal/core/events.go:247-254 | The sorted keys are the keys, ascending, each once |
| LegacyLaws.MigrationKeepsMeaning | internal/core/events.go:145-241 | The latest snapshot of a migrated record has its text, anchor, applied state, users per emoji and replies sorted by version with their reactions |
| LegacyVersions.MigrationAtEveryVersion | internal/core/events.go:145-241 | A migrated record at every version, in its own fields: nothing below its version; then its text, anchor and reactions, applied from the version it was applied in, and its replies up to the version read, ordered by version, each as the record has it |
| LegacyLaws.SortRepliesStable | internal/core/fold.go:197-203 | The replies come by version, each version's in the record's order |
| CommentBookMachine.LegacyToEvents | internal/core/events.go:145-179 | The loops build the migrated log |
| CommentBookMachine.CommentBook.EnsureEventLog | internal/core/events.go:85-110 | Migration or backfill in place, with created fields filled |
| KeyedMutex.MutexSafety | internal/platform/sluglock/sluglock.go:41-75 | In every reachable state: one thread inside per key, one entry per key, waiters equal to the threads between acquire and release, the map exactly the keys in use |
| KeyedMutex.MutexProgress | internal/platform/sluglock/sluglock.go:66-75 | No reachable state is stuck while a call is unfinished |
| KeyedMutex.NoLostUpdate | internal/service/comment.go:141-169 | The stored value of a key is the initial one with the written jobs applied in lock-grant order |
| CommentSerial.CommentsSerialised | internal/service/comment.go:141-169 | Under any schedule and any failing reads and writes, with an encoding that reads back the lists it stores, the stored list of comments is the first one with the requests that wrote served one after the other, in lock-grant order |
| CommentSerial.StoredRoundTripMet | internal/service/comment.go:141-169 | For any requests and any order of grants there is such an encoding |
| Sluglock.AcquireStepCounts | internal/platform/sluglock/sluglock.go:41-51 | The protocol's acquire step is one count more |
| Sluglock.ReleaseStepCounts | internal/platform/sluglock/sluglock.go:55-62 | The protocol's release step is one count less, and the key forgotten at zero |
| Sluglock.Memory.Acquire | internal/platform/sluglock/sluglock.go:41-51 | The entry of the key, new or shared, counted once more |
| Sluglock.Memory.Release | internal/platform/sluglock/sluglock.go:55-62 | Counted once less, and reclaimed exactly by the last |
| HexScan.OnlyAddresses | internal/service/gc.go:214-237 | The scan finds only 64-digit lower-case hex substrings of the text |
| HexScan.AddressFound | internal/service/gc.go:214-237 | It finds every such substring of a run up to 4096 digits, and in longer runs those at multiples of 64 and the last |
| HexScan.WindowsExactly | internal/service/gc.go:214-237 | The scan is exact: what it finds are the addresses at those cuts of their runs, all of them and nothing else |
| HexScan.CleanReferenceFound | internal/service/gc.go:204-213 | An address that stands alone is always found |
| HexScan.References.ScanInto | internal/service/gc.go:214-237 | The nested loops add exactly those windows and keep what was there |
| HexScan.FindRuns | internal/service/gc.go:26 | The matches are the maximal runs of at least 64 digits, in order |
| AssetGc.NothingReferencedIsDeleted | internal/service/gc.go:74-202 | In every interleaving with authors: a deleted asset is registered, past grace by a stamp that parses, and among the windows the scan finds in neither any HTML its slug stores nor any blob the snapshot read |
| AssetGc.ReferencedThroughoutIsKept | internal/service/gc.go:74-202 | An address the scan finds in a blob stored for the whole pass, under a slug with a document or asset row throughout, is never deleted |
| AssetGc.DeletionExactly | internal/service/gc.go:104-143 | In every run, an asset the pass comes to is deleted if and only if its row is past grace by a stamp that parses and the scan finds its address in no HTML its own slug stores at that moment and found it in no blob of the snapshot, whatever other slugs hold |
| AssetGc.CrossDocumentRace | internal/service/gc.go:60-73 | The admitted gap, at every decision to delete: any other slug can publish a reference first, and the asset is deleted all the same |
| AssetGc.OrphanReached | internal/service/gc.go:74-143 | Such a decision is reached from any registry that holds one unreferenced asset past grace |
| GcPass.AssetService.ScanSlugInto | internal/service/gc.go:182-202 | Every version and the draft of the slug are scanned |
| GcPass.AssetService.AllReferencedShas | internal/service/gc.go:152-178 | The union over documents and uncovered asset slugs |
| GcPass.AssetService.GcAsset | internal/service/gc.go:117-143 | Referenced or within grace or unparsed: kept and counted; else deleted, or only noted in a dry run |
| GcPass.AssetService.GcAssets | internal/service/gc.go:74-97 | Undisturbed, the pass deletes exactly the assets whose address no blob of a slug with a document or asset row holds and whose stamp, read by one of two layouts in turn, lies the grace period or more back; it reports each once and accounts for every row |
| StampScan.CloseIsFirstZero | internal/core/stamp.go:198-276 | The close tag found is the first at which opens minus closes over the tokens read is zero; none is found exactly when they never are |
| StampScan.TokensStand | internal/core/stamp.go:198-276 | Each token read is a close tag, open tag or raw-text element standing in the text at its place |
| StampScan.TokensOrdered | internal/core/stamp.go:198-276 | Tokens come in order and do not overlap |
| StampMachine.AttrAwareOpenTagEnd | internal/core/stamp.go:116-134 | The loop finds the first > outside quotes, or reports an unterminated tag |
| StampMachine.SkipRawTextBodyAt | internal/core/stamp.go:137-147 | Past the first close tag of the raw element, or the end of the text, or nowhere when the attributes end in a slash |
| StampMachine.FindCloseEnd | internal/core/stamp.go:198-237 | The loop terminates and returns the end of that close tag, or the end of the open tag |
| StampMachine.NextToken | internal/core/stamp.go:241-276 | The earliest match, with close before open before raw on equal positions |
| StampMachine.Harvest | internal/core/stamp.go:278-297 | The inner HTML of an artifact |
| StampMachine.HarvestStampableTags | internal/core/stamp.go:299-319 | Exactly the terminated stampable tags, each place once |
| StampMachine.HarvestOptInMarkers | internal/core/stamp.go:321-341 | Together with those, exactly the artifacts of the document |
| StampMachine.StampAids | internal/core/stamp.go:353-409 | Every artifact that holds no identity yet is indexed, once, under the hash of its tag, inner HTML and attributes, and its open tag replaced by itself with that identity; the splices by stale offsets, which are one pass from left to right when open tags lie apart |
| StampIdentity.IdentityExact | internal/core/stamp.go:97-111 | The identity is the hash of the tag, of the inner HTML up to the close tag where opens minus closes is zero, and of the attributes as written |
| StampIdentity.OpenExact | internal/core/stamp.go:388-407 | The new open tag is the old one with the identity at its end, and behind it the slash of an element that closes itself |
| StampIdentity.AttributesTellApart | internal/core/stamp.go:97-111 | Artifacts of equal tag and inner HTML but different attributes are indexed under different identities by every hash that separates them |
| StampIdentity.EveryArtifactReads | internal/core/stamp.go:278-297 | Every artifact of a document without identities has such a reading |
| StampIdentity.ArtifactExactly | internal/core/stamp.go:299-342 | An artifact is a terminated open tag of one of twelve names, or of any name with a marker in its attributes |
| StampIdentity.ScanEndExact | internal/core/stamp.go:116-133 | An open tag ends at the first > outside quotes |
| Stamper.SplicingIsMerging | internal/core/stamp.go:385-407 | Replacements that lie apart, spliced last one first, give one left-to-right pass that copies every byte outside them |
| Stamper.SplicingIsRewriting | internal/core/stamp.go:385-407 | So stamping is one left-to-right rewrite when no artifact's open tag begins inside another's |
| StampWeave.ScanWoven | internal/core/stamp.go:116-134 | A tag ends at the same character whatever identities, with or without a slash, are put before >: they leave the quote state as it was |
| StampWeave.CloseWoven | internal/core/stamp.go:198-237 | An element's close tag is found at the same place in the stamped document, where no identity stands inside a close tag |
| StampLaws.StripWoven | internal/core/stamp.go:376-377 | Stripping identities from stamped inner HTML without self-closing artifacts gives back the unstamped one |
| StampLaws.StripInset | internal/core/stamp.go:376-377 | Of attributes with an identity behind them stripping leaves the attributes without the white space at their end, and the slash behind the identity |
| StampTwice.StampingTwiceIsStampingOnce | internal/core/stamp.go:353-409 | For every document with lower-case artifact tags, no identities yet and no artifact's open tag ending inside another open tag or at the end of a close tag: stamping the stamped document changes nothing if and only if no artifact's attributes end in white space or a slash |
| StampTwice.StampedStays | internal/core/stamp.go:385-407 | Both stampings of such a document are the rewrite: the splices of the second stay in range, and return the document under the same condition |
| StampReadable.SeparateIsUntangled | internal/core/stamp.go:116-134 | The documents considered include all in which no artifact's open tag holds a less-than sign and every open tag before it ends before it, whatever close tags there are |
| StampReadable.PageStampedOnce | internal/core/stamp.go:353-409 | One of them: a paragraph, closed, and then an image |
| StampTwice.SelfClosingChanges | internal/core/stamp.go:391-407 | The smallest input that a second stamping changes: one self-closing image |
| DocLifecycle.NothingOverwritten | internal/service/doc.go:409-424 | Without an explicit version the chosen one exceeds every stored one; no operation but Remove changes or drops a stored version |
| DocLifecycle.OpKeepsInv | internal/service/doc.go:92-131 | With any store call failing, an operation keeps the listed versions ascending and backed by blobs if and only if it is not a removal that drops blobs but not the metadata |
| DocLifecycle.RunKeepsInv | internal/service/doc.go:63-375 | The same over every run from nothing whose removals complete |
| DocLifecycle.RunKeepsBlobs | internal/service/doc.go:63-317 | A stored version keeps its bytes over every run without explicit versions and removals, and new ones lie above |
| DocLifecycle.ReturnedVersionsGrow | internal/service/doc.go:409-424 | What a publish or promotion returns exceeds what any earlier one returned, whatever failed between |
| DocLifecycle.ExplicitVersionOverwrites | internal/service/doc.go:409-412 | An explicit version keeps the stored blobs exactly when it is new or carries the same bytes |
| DocLifecycle.PublishedIsListed | internal/service/doc.go:92-131 | A publish that reports success stored its blob and listed its version, with the extra fields and the draft untouched |
| DocSuccess.PublishSucceeds | internal/service/doc.go:63-131 | A publish succeeds if and only if the document is accepted, no call reports an error and the blob is found after the write; its version is the caller's or one past the stored ones; then the stamped text is stored under it, the version listed beside all others, in order, and the title is the one brought, else the stored one, else the slug |
| DocSuccess.PromoteSucceeds | internal/service/doc.go:232-263 | A promotion succeeds if and only if there is a draft, reading and publishing it report no error and the blob was written; the draft and its marker are gone once the clean-up took place |
| DocSuccess.ListedOnce | internal/service/doc.go:426-461 | A successful publish lists its version exactly once |
| DocSuccess.AllDoneSucceeds | internal/service/doc.go:63-263 | When every call is done every accepted document and every draft gets its version |
| DocLifecycle.ShareCodeChanges | internal/service/capability.go:67-133 | The share code changes only by GenerateCode, RevokeCode and Remove, and then as they say |
| DocLifecycle.RunKeepsShareCode | internal/service/doc.go:267-317 | It survives every run of publishes, drafts and promotions |
| DocLifecycle.SortedSorts | internal/service/doc.go:463-469 | The sorted version list is in order and a permutation |
| DocLifecycle.SortVersions | internal/service/doc.go:463-469 | The adjacent swaps in place produce it |
| DocServiceMachine.DocService.ResolveVersion | internal/service/doc.go:409-424 | The loop picks one more than the largest stored version |
| DocServiceMachine.DocService.UpsertMeta | internal/service/doc.go:426-461 | Read-modify-write of the metadata: version added once, title and extra fields carried over |
| DocServiceMachine.DocService.SetDraftMeta | internal/service/doc.go:267-291 | The marker and the title are all that can change: versions, blobs, share code and other fields stay, and reported success means the marker is there unless the store lied |
| DocServiceMachine.DocService.ClearDraft | internal/service/doc.go:294-317 | The marker is all that can change, and goes when success is reported unless the store lied |
| DocServiceMachine.DocService.PublishSection | internal/service/doc.go:92-131 | The publish section call by call: it succeeds exactly when no call reports an error and the blob is found, with the version and the stored state that DocSuccess.SectionSucceeds names |
| DocServiceMachine.DocService.Publish | internal/service/doc.go:63-87 | Empty and oversized documents are refused untouched; else invariant, draft and share code are kept whatever fails, a version comes back exactly when no call reports an error and the blob is found after the write, it is the caller's or one past the stored ones, and its stamped text, list entry and title are stored |
| DocServiceMachine.DocService.SaveDraft | internal/service/doc.go:171-200 | A refused text changes nothing; an accepted one can only become the draft, with blobs, versions and share code untouched and the invariant kept whatever fails; success is reported exactly when no call errs, and means draft, marker and title are there unless the store lied |
| DocServiceMachine.DocService.Promote | internal/service/doc.go:232-263 | A version is returned exactly when there is a draft and neither reading nor publishing it reports an error; it is one past the stored ones, which keep their bytes, and invariant and share code are kept whatever fails |
| DocServiceMachine.DocService.Remove | internal/service/doc.go:352-375 | Blobs and draft go together or not at all, the metadata only when nothing before reported an error; success is reported exactly when no call errs, and means nothing is left unless the store lied; the invariant survives unless the removal stops half-way |
| DocServiceMachine.DocService.GenerateCode | internal/service/capability.go:81-105 | Success is reported exactly when the document exists and no call errs; the share code becomes the new one or stays; blobs, versions, draft and other fields are untouched, the invariant kept |
| DocServiceMachine.DocService.RevokeCode | internal/service/capability.go:108-133 | Success is reported exactly when the document exists and no call errs; the share code is gone or stays, nothing else changes, the invariant is kept |
| AdvisoryLock.OneHolderPerKey | internal/storage/postgres/advisorylock.go:44-68 | At most one task is inside the lock on a key, under either arrangement of the pools |
| AdvisoryLock.RunInv | internal/storage/postgres/advisorylock.go:44-68 | The server's lock table is exactly the tasks inside, and no pool lends more than it has |
| AdvisoryLock.TwoPoolsFinish | internal/storage/postgres/postgres.go:43-50 | With separate pools work is pending if and only if a working step is enabled, and no run is longer than the work there was |
| AdvisoryLock.OnePoolDeadlocks | internal/storage/postgres/postgres.go:43-50 | With one pool of N, for every N, N lock holders can reach a state with no step left |
| TextIndex.NormIsCollapsed | assets/overlay.js:1041-1088 | The projection is the text with white space collapsed and a leading space dropped |
| TextIndex.OriginsIncrease | assets/overlay.js:1057-1087 | The map back increases strictly up to its sentinel, the end of the text |
| TextIndex.PartCollapses | assets/overlay.js:1189-1194 | Every stretch of the projection is what the stretch of text it maps to collapses to |
| TextSearch.HitsComplete | assets/overlay.js:1147-1151 | Unless the budget ran out, every occurrence is examined or overlaps one that is |
| TextSearch.HitsOccur | assets/overlay.js:1147-1151 | Examined hits are occurrences, in order, not overlapping |
| TextSearch.PrefixLenLongest | assets/overlay.js:1208-1213 | The common prefix length is the longest |
| TextSearch.SuffixLenLongest | assets/overlay.js:1202-1207 | The common suffix length is the longest |
| TextSearch.ChoiceUnique | assets/overlay.js:1137-1188 | The rule of the search leaves one choice |
| TextSearch.ChosenOccurs | assets/overlay.js:1137-1188 | What is chosen is an occurrence, and with a context one that agrees in at least four characters on a side |
| TextSearch.SelectionOccurs | assets/overlay.js:1089-1108 | The needle of a selection occurs at the selection's own place if and only if all white space inside it is of the five kinds the projection collapses |
| TextSearch.OnlyHit | assets/overlay.js:1147-1151 | An occurrence is the only one examined if and only if the needle occurs nowhere else but overlapping it from the right |
| TextSearch.SelectionFoundAgain | assets/overlay.js:1137-1188 | A selection is chosen at its own place if and only if its white space is of those kinds, its needle has two characters at least, and without saved context the needle occurs nowhere else, or with one the place is examined and its score beats every other |
| TextSearch.OverlappedIsMissed | assets/overlay.js:1147-1151 | A selection that is never found, whatever context was saved: the second of two overlapping occurrences |
| TextChoice.ChoosesExactly | assets/overlay.js:1137-1188 | What is taken, from the two texts alone: of the occurrences each first behind the one before, at most 65, the only one without a saved context, with one the first that scores best and more than nothing |
| TextChoice.ScoreExactly | assets/overlay.js:1169-1185 | The score is the number of agreeing neighbours, at most 60 on either side, of the sides with at least four |
| TextChoice.SearchWalks | assets/overlay.js:1147-1151 | The hits are each the first occurrence at or behind the end of the one before, at most 65, and fewer only when none is left |
| OverlayText.CollectTextNodes | assets/overlay.js:1041-1088 | The nested loops build the tiling, the projection and the map |
| OverlayText.LocateAt | assets/overlay.js:1110-1120 | The binary search succeeds exactly on the offsets of the text, with a node that holds the offset |
| OverlayText.FindHits | assets/overlay.js:1147-1151 | The hit loop |
| OverlayText.BestHit | assets/overlay.js:1169-1185 | The first hit with the best positive score wins, none when no side reaches four characters |
| OverlayText.Choose | assets/overlay.js:1137-1188 | The decision follows the rule, refusals included |
| OverlayText.FindTextRange | assets/overlay.js:1137-1201 | A chosen hit always gives a range, from and to the places in the flat text where the hit begins and ends, whose text collapses exactly to the needle with no white space at its ends |
| MemoryStore.ParseUndoesPrint | internal/storage/memory/memory.go:399-433 | atoi undoes itoa on every version, and refuses every negative number |
| MemoryStore.DraftIsNoVersion | internal/storage/memory/memory.go:338-340 | The draft key never parses as a version |
| MemoryStore.Itoa | internal/storage/memory/memory.go:399-419 | Digits backwards into a 20-byte buffer, for every 64-bit integer |
| MemoryStore.Atoi | internal/storage/memory/memory.go:421-433 | Digits only, at least one, with 64-bit overflow |
| MemoryStore.ScanExact | internal/storage/memory/memory.go:303-336 | A prefix scan for a NUL-free slug hits exactly that slug's keys |
| MemoryStore.DocKeyInjective | internal/storage/memory/memory.go:271-273 | Different documents have different keys |
| MemoryStore.NulSlugsCollide | internal/storage/memory/memory.go:271-319 | Without NUL-free slugs one slug's scan hits another's draft |
| MemoryStore.Store.Put | internal/storage/memory/memory.go:276-348 | A version or draft is set and no other changes |
| MemoryStore.Store.Get | internal/storage/memory/memory.go:284-356 | A version or draft is found exactly when stored |
| MemoryStore.Store.ListVersions | internal/storage/memory/memory.go:303-317 | Exactly the stored versions of the slug, ascending |
| MemoryStore.Store.DeleteDoc | internal/storage/memory/memory.go:321-336 | All blobs and hashed assets of the slug go, nothing of any other |
| MemoryStore.Store.PutAssetMeta | internal/storage/memory/memory.go:205-214 | The row of the asset carries the new fields and the first creation stamp, and no other row changes |
| MemoryStore.Store.ListAssetMeta | internal/storage/memory/memory.go:229-241 | Exactly the slug's rows with a hash, ordered by hash, each once |
| RateLimiter.Limiter.Allow | internal/transport/httpx/middleware.go:36-60 | The answer, and the record after counting and sweeping |
| RateLimiter.AllowExactly | internal/transport/httpx/middleware.go:36-60 | From the calls alone, times in order: a call is granted if and only if it is among the first max of its key since the one that opened its window, which lasts the window's length from there; a refusal's hint is the smallest whole second past that end |
| RateLimiter.CallersApart | internal/transport/httpx/middleware.go:40 | Callers share a key if and only if they share the address and the first 16 characters of the token |
| RateLimiter.SweepChangesNoAnswer | internal/transport/httpx/middleware.go:52-58 | With times that never go back every answer is that of a limiter that never sweeps |
| RateLimiter.AtMostMaxPerWindow | internal/transport/httpx/middleware.go:36-60 | A key gets at most max grants per window, with times that never go back whatever is swept, and in any order of times as long as no call sweeps |
| RateLimiter.RefusedOnlyWhenFull | internal/transport/httpx/middleware.go:48-51 | With times in order a call is refused if and only if its window has given max grants |
| RateLimiter.ClockBackDoubles | internal/transport/httpx/middleware.go:36-60 | Without times in order the bound fails, for every limit: a run in which a sweep forgets a window and one key gets twice the maximum in it |
| RateLimiter.RetryLandsPastReset | internal/transport/httpx/middleware.go:49-51 | The retry hint lands strictly past the window's end and is the smallest whole second that does |
| RateLimiter.WaitingHelps | internal/transport/httpx/middleware.go:36-60 | With times in order whoever waits as told is granted, whatever other keys did and whatever was swept |
| LineSep.RewriteRestoresSeparators | internal/core/render.go:60-99 | For every document, rewriting the encoding that escapes U+2028 and U+2029 gives the one that leaves them raw; values that spell the escape keep it |
| LineSep.UnescapeLineSep | internal/core/render.go:67-99 | The forward pass with its backslash count computes the rewrite |
| LineSep.ScriptClosedFromInside | internal/core/render.go:41-58 | The result holds an end tag of the script element if and only if the data holds one spelled in any way but the one looked for |
| LineSep.DocumentClosedFromInside | internal/core/render.go:41-58 | The same for every document from the encoder to the page |
| LineSep.UpperCaseCloses | internal/core/render.go:55 | An input: the end tag in capitals as a text value |
| LineSep.MarkersBroken | internal/core/render.go:55-56 | Neither a comment opener nor the end tag as it is usually spelled is left |

## Left out

- HTTP routing, handlers, envelopes, CORS, logging, configuration and the command line: no invariant of their own.
- Credentials and capability resolution (`internal/service/capability.go:41-64`): one comparison per branch.
- StampMachine.StampAids: the index entries have no nearest heading (`internal/core/stamp.go:152-195`), which does not influence the stamped document, and the excerpt counts characters where the program counts UTF-16 units.
- The attribute patterns inside aidFor (`internal/core/stamp.go:97-111`): part of the abstract hash of tag, inner HTML and attributes.
- Non-ASCII case folds of Go's patterns (the Kelvin sign, the long s) and invalid UTF-8.
- OpLaws.ReplyAdds: says nothing of a reply id the parent's log already holds, since the service draws a new one for every reply (`internal/service/comment.go:81-88`); FoldLaws.RepliesRead says what is listed then.
- OpLaws.DeleteReplyDrops: like ReplyAdds and PatchAnchorMoves, speaks of versions up to the operation's own; above it a later event can write the same part, and FoldLaws says which one counts.
- StampIdentity.IdentityExact: speaks of artifacts without earlier identities; what is removed where there are some is the subject of StampLaws.StripWoven and StampLaws.StripInset.
- StampTwice.StampingTwiceIsStampingOnce: says nothing of documents with upper-case artifact names, earlier identities, or artifacts whose open tag ends inside another open tag or at the end of a close tag (`<section </table>`); there the inner HTML that is hashed can differ between the passes, so it depends on the hash.
- A store whose blob deletion stops half-way through a slug's keys is not modelled; each store call is one step.
- GcPass.AssetService.GcAssets: assumes store calls that succeed; failing ones are the Fail step of AssetGc.
- RateLimiter.Judge: computes whole seconds by integer division, not through floating point.
- AdvisoryLock.Do: connection loss and server restarts are not steps.
- OverlayText.FindTextRange: takes the accepted text nodes as given, so the tree walk's filter and DOM ranges are not modelled.
- Sessions, tokens, fork and export text, MIME sniffing: easy or free of invariants.
- Cyrb53 and SHA-256 themselves.
