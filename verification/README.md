# FuseItAll, verified core

FuseItAll moves files, photos, messages, contacts, the clipboard and settings between a Mac and a phone. This
project models, in Dafny, the parts of the Mac backend and the shared core that carry invariants over time, and
proves them. Everything else in the repository (transport, storage, user interface) is left out.

| engine | modules |
|---|---|
| sparse video stream and its interval set | `Intervals`, `PartFile`, `PhotoStream`, `PhotoServe` |
| thumbnail cache | `ThumbCache`, `ThumbRecency` |
| chunk arithmetic, download, upload and resume | `ChunkPlan`, `Download`, `DownloadVerdict`, `Upload`, `BrowserUpload` |
| folder upload: walker, mkdir gates, send slots | `RemotePath`, `CleanPath`, `UploadGate`, `UploadPool`, `UploadOrder`, `UploadFeed`, `UploadCancel` |
| keyset cursors and message paging | `GoText`, `Decimal`, `Base64Url`, `Cursor`, `KeysetWalk`, `Paging` |
| push deduplication and generation-guarded caches | `Dedup`, `SmsPush`, `PushEffect`, `RowMerge`, `MessagesSync`, `Duplicates`, `ContactsSync`, `SyncListing` |
| clipboard clock and large-image reassembly | `ClipStore`, `ClipHub`, `Origin` |
| settings merge | `FilterList`, `Settings` |
| keep-both naming, in Go and TypeScript | `KeepBoth` |

`Options`, `Ints`, `Seqs`, `Sums` and `FiniteSets` hold what several modules share.

Conventions. A Go object whose methods update its fields is a class; each of its methods is proved equal to a pure
function of the old abstract value, and the theorems are about runs of those functions. Regions under a mutex are
atomic steps. Code that runs concurrently without one lock around it (stream writers and readers; walker, dispatcher
and send workers) is a state machine whose runs are all interleavings. A Go string is a sequence of bytes, written
as one `char` per byte. SHA-256 is an arbitrary function parameter; where a result needs that different bytes have
different digests, that is an explicit hypothesis (`Download.CollisionFree`). Integers are unbounded except where a
64-bit limit shows in the behaviour (`Decimal.Parse`, `Decimal.Itoa`).

## What the code does not do

Ten promises, in comments or by intent, are not kept by the code on all inputs. For each, a lemma says exactly when
it is kept; where the failing input is not plain from that, another lemma gives one.

- An invalid folder path does not always make its entries invalid: a file named `..` plus white space, inside a
  folder with an over-long name, is accepted (`RemotePath.DotDotEscapesRefusal`, exactly:
  `RemotePath.RefusalPassesDownExactly`). Its task then waits at a gate that nobody opens, and the upload never ends
  (`UploadPool.DotDotDeadlocks`). Exactly the trees with an accepted file in a refused folder break the gate
  discipline (`UploadGate.FolderGatedExactly`, `UploadGate.DropGatedExactly`), and exactly the drops with such a file
  cannot be finished (`UploadPool.DropFinishesExactly`). The comment at apps/mac/backend/files_parallel.go:93-94 says
  that a missing gate fails open; the code blocks, and a cancel does not help (`UploadPool.WaitsForever`).
- Sanitizing a path twice is not always sanitizing it once: white space is trimmed before the path is cleaned, so a
  last element that cleaning bares can still end in a blank (`CleanPath.SanitizeTwiceDiffers`, exactly:
  `CleanPath.SanitizeIsIdempotentExactly`).
- A chunk can overtake its folder: when the write of a mkdir frame fails, the error is logged or dropped and the gate
  opens all the same (apps/mac/backend/files_parallel.go:213-215 and 239-241), so the file's chunks go out without it
  (`UploadOrder.LostMkdirIsOvertaken`, exactly: `UploadOrder.OrderExactly`).
- The incremental download digest describes the part file only while all chunks of a transfer id announce the same
  totals. A chunk with other totals after a commit passes the check with zeros in the file
  (`Download.MixedTotalsFoolTheDigest`, exactly: `Download.DetachedDigestIsWrong` and `Download.FastPathIsExact`).
- A browser upload that retries a failed slice without a resume in between ends with a wrong digest
  (`Upload.RetryWithoutResetIsWrong`, exactly: `Upload.FinalDigestExactly`).
- Forgetting the phone wipes the message caches without starting a new generation, so a page asked for before it
  can bring rows back (`MessagesSync.ForgetDoesNotGuard`, exactly: `MessagesSync.ThreadsPageExactly`).
- Cached rows can be duplicated. Merging a page into an empty cache keeps the page's own duplicates
  (`RowMerge.MergedIsDistinctExactly`), and a confirmed send is appended without looking
  (`Duplicates.ConfirmedSendIsDoubled`); exactly, over runs: `Duplicates.ThreadsStayDistinctExactly` and
  `Duplicates.MessagesStayDistinctExactly`.
- A late avatar answer is not stopped by the generation guard (`ContactsSync.AvatarPageExactly`).
- A clipboard push dropped as an echo is not absorbed by the clock, so the next local copy can be stamped before it
  (`ClipStore.EchoIsNotAbsorbed`, exactly: `ClipStore.NextLocalExceedsExactly`).
- The TypeScript mirror of the keep-both name drops a leading slash (`KeepBoth.NamesAgreeExactly`).

## Model

| member | source | states |
|---|---|---|
| Intervals.RangeAdd | apps/mac/backend/photos_support.go:169-200 | the one-pass merge equals recursive insertion on every canonical list, which is all that a stream ever holds |
| Intervals.InsertIsUnion | apps/mac/backend/photos_support.go:169-200 | inserting a span denotes exactly the union, for lists in any shape |
| Intervals.AddedIsCanonicalUnion | apps/mac/backend/photos_support.go:169-200 | a canonical set (sorted, gaps between spans) stays canonical and becomes exactly the union |
| Intervals.CanonicalIsUnique | apps/mac/backend/photos_support.go:167-200 | a canonical set is determined by the bytes it denotes |
| Intervals.AddCommutes | apps/mac/backend/photos_support.go:167-200 | two chunks may be recorded in either order with the same result |
| Intervals.RangeBytes | apps/mac/backend/photos_support.go:203-209 | on a canonical set, the sum is the number of distinct bytes received |
| Intervals.RangeCovered | apps/mac/backend/photos_support.go:212-223 | the loop finds an enclosing span exactly when there is one |
| Intervals.CoveredIsExact | apps/mac/backend/photos_support.go:212-223 | on a canonical set, covered means every queried byte has arrived, and conversely |
| PartFile.WriteAt | apps/mac/backend/photos.go:664-690 | a write at an offset: its own bytes, all others kept, a skipped gap reads as zeros, no bytes no change |
| PartFile.WriteKeepsFaithful | apps/mac/backend/photos.go:664-690 | writing source bytes never spoils a right byte and makes its own right |
| PhotoStream.NoHoleIsEverServed | apps/mac/backend/photos_stream.go:358-440 | in every interleaving of writes, recordings, failures and reads, everything a reader delivered is exactly the source's bytes at those offsets |
| PhotoStream.CoveredReadCompletes | apps/mac/backend/photos_stream.go:395-440 | a read whose window was found covered returns all of it, equal to the source, whatever happens in between |
| PhotoStream.NoLostWakeup | apps/mac/backend/photos_stream.go:445-477 | a reader asleep on the current channel is one whose window has really not arrived |
| PhotoStream.RunKeepsInv | apps/mac/backend/photos.go:664-705 | every recorded byte of the part file equals the source byte, in every reachable state |
| PhotoServe.HeldExactly | apps/mac/backend/photos.go:664-705 | after any honest run, a byte is held if and only if some chunk with it arrived, was written out and recorded in that run |
| PhotoServe.DeliveryIsRecorded | apps/mac/backend/photos.go:664-705 | a chunk that arrives undisturbed is recorded, whatever came before |
| PhotoServe.ArrivedReadIsServed | apps/mac/backend/photos_stream.go:367-440 | if every wanted byte was recorded and the transfer is alive, an idle reader gets exactly those bytes of the source, clipped at its end |
| PhotoServe.WaitingReadIsServed | apps/mac/backend/photos_stream.go:395-477 | a reader that asked the phone or fell asleep is served too, once its bytes were recorded |
| PhotoServe.SeekStartsOver | apps/mac/backend/photos_stream.go:376-393 | a seek starts a new delivery at its position |
| PhotoServe.OpensAtStart | apps/mac/backend/photos_stream.go:208-285 | a reader opens at the start with the true size, once a chunk was recorded |
| PhotoServe.CancelEndsTheRead | apps/mac/backend/photos_stream.go:445-477 | a sleeping reader of a cancelled transfer wakes, looks and gives up, nothing delivered |
| PhotoServe.BreakEndsTheRead | apps/mac/backend/photos_stream.go:445-477 | the same after a chunk that could not be written |
| PhotoServe.ReaderMayGiveUp | apps/mac/backend/photos_stream.go:395-477 | a deadline or an unsent request ends the read with nothing delivered |
| ThumbCache.ThumbLru.Get | apps/mac/backend/photos_support.go:102-111 | linked list and map refine the recency list: a hit is found and moved to the front (`ThumbRecency` says what that amounts to) |
| ThumbCache.ThumbLru.Put | apps/mac/backend/photos_support.go:113-127 | the entry goes to the front, and only what exceeds the capacity falls off the back |
| ThumbCache.ThumbLru.AddToHead | apps/mac/backend/photos_support.go:129-139 | the links spell the list with the node in front |
| ThumbCache.ThumbLru.RemoveNode | apps/mac/backend/photos_support.go:141-152 | the links spell the list without the node |
| ThumbCache.ThumbLru.MoveToHead | apps/mac/backend/photos_support.go:154-157 | the node is first, the others keep their order |
| ThumbCache.ThumbLru.RemoveTail | apps/mac/backend/photos_support.go:159-165 | exactly the last entry leaves list and map |
| ThumbCache.CacheIsRecencyPrefix | apps/mac/backend/photos_support.go:102-165 | after any run of Get and Put, the cache is the first `cap` entries of the unbounded recency order |
| ThumbCache.PutEvictsTheLast | apps/mac/backend/photos_support.go:113-127 | Put loses another key only when full and the key is new, and then precisely the least recent one |
| ThumbRecency.HeldInOrderOfUse | apps/mac/backend/photos_support.go:102-165 | after any run, the held entries stand in strictly decreasing order of last use (the last Put or answered Get), each with the value last stored |
| ThumbRecency.HeldExactly | apps/mac/backend/photos_support.go:102-165 | after any run, a key is held if and only if it was stored and fewer than `cap` other keys were used since its own last use |
| ThumbRecency.HitComesFirst | apps/mac/backend/photos_support.go:102-111 | a hit comes first and the others keep their order |
| ChunkPlan.CountCoversFile | packages/core/files.go:84-93 | the chunk count puts the end of the file in the last chunk |
| ChunkPlan.ChunksTileFile | apps/mac/backend/files_parallel.go:509-582 | for any stride, the chunks laid end to end are exactly the file |
| ChunkPlan.ChunksAreDisjoint | apps/mac/backend/files_parallel.go:509-582 | no byte belongs to two chunks |
| ChunkPlan.StrideIsInferred | packages/core/files.go:350-366 | the validator recovers the sender's stride whenever there is more than one chunk |
| ChunkPlan.SentChunksAreAccepted | packages/core/files.go:371-463 | every chunk of every file up to 8 GiB, at either stride, passes the validator |
| ChunkPlan.AcceptedChunkIsInPlace | packages/core/files.go:371-463 | whatever passes lies inside the announced file, at its place in the inferred grid |
| Download.Receiver.IngestChunk | apps/mac/backend/files.go:1201-1417 | one message changes the transfer and the part file as `Ingest` says, with every file-system fault |
| Download.Receiver.HandleChunk | apps/mac/backend/files.go:1253-1417 | staging, digest, verdict and commit of an accepted chunk |
| Download.Receiver.Feed | apps/mac/backend/files.go:1270-1300 | the digest is fed while offsets are contiguous and retired by a gap or repeat |
| Download.Receiver.Commit | apps/mac/backend/files.go:1316-1400 | digest check, size check, rename |
| Download.FastPathIsExact | apps/mac/backend/files.go:1316-1354 | unless detached, the incremental verdict is the verdict of re-reading the file |
| Download.DetachedDigestIsWrong | apps/mac/backend/files.go:1270-1300 | in the detached situation the digest is not the file's, unless the lost bytes were zeros |
| Download.FastPathIsSound | apps/mac/backend/files.go:1270-1354 | over every run of one transfer, with any order, gaps, repeats, contents and faults, fast verdict and re-read verdict agree |
| Download.OnlyDigestIsCommitted | apps/mac/backend/files.go:1201-1417 | over every run, even with altered bytes, only data with the announced digest is committed |
| Download.OnlyTheFileIsCommitted | apps/mac/backend/files.go:1201-1417 | so nothing but the sender's file is ever committed |
| Download.CompleteDeliveryCommits | apps/mac/backend/files.go:1201-1417 | delivered in any order with any repeats, the last chunk after the others, exactly the file is committed |
| Download.MixedTotalsFoolTheDigest | apps/mac/backend/files.go:1253-1300 | why one transfer id must keep its totals: a run that commits zeros under a matching digest |
| DownloadVerdict.LastChunkDecides | apps/mac/backend/files.go:1316-1400 | whatever came before, an accepted last chunk without a fault finishes the transfer and commits the staged file if that has the announced digest and size; otherwise the transfer fails and nothing is committed |
| DownloadVerdict.EarlierChunkIsStaged | apps/mac/backend/files.go:1253-1312 | any other accepted chunk is written at its offset and leaves the transfer running |
| DownloadVerdict.FaultFails | apps/mac/backend/files.go:1253-1400 | faults of opening, writing, syncing the last chunk and renaming fail the transfer, nothing committed |
| DownloadVerdict.FailedIsFinal | apps/mac/backend/files.go:1201-1252 | after a failure nothing that still arrives changes anything |
| Upload.SendFresh | apps/mac/backend/files.go:558-629 | up to the first cancel or failed send, entry j is chunk j of the file: its index, offset, bytes, and on the last one the digest of the file |
| Upload.ResumeChunks | apps/mac/backend/files_resume.go:209-315 | re-reading the confirmed prefix and sending the rest emits exactly the tail of a fresh upload: entry j is chunk `next` + j, whole-file digest included |
| Upload.ResumeUpload | apps/mac/backend/files_resume.go:164-195 | each outcome's exact condition, what was sent and why it stopped, and whether the session survives |
| Upload.PlanIsSuffix | apps/mac/backend/files_resume.go:209-315 | the chunks from `next` on are the suffix of the fresh plan |
| Upload.ResumedUploadCommits | apps/mac/backend/files_resume.go:164-195 | the chunks that got through before, followed by the very chunks that the resumed upload sent, make the receiver commit exactly the file |
| Upload.FreshUploadCommits | apps/mac/backend/files.go:558-629 | the very chunks of a fresh upload that sent all make the receiver commit exactly the file |
| Upload.UploadCommitsNothingElse | apps/mac/backend/files.go:558-629 | in whatever order, number and with whatever faults its chunks are handled, nothing but the file is committed |
| Upload.BrowserSession.SendChunk | apps/mac/backend/files_conflict.go:517-624 | the digest is fed before the send, and a failed send leaves it fed without advancing |
| Upload.BrowserSession.ResumeUpload | apps/mac/backend/files_resume.go:353-385 | the digest starts over at chunk zero, unless the phone has every chunk |
| Upload.BrowserSession.RehashChunk | apps/mac/backend/files_resume.go:390-411 | a confirmed slice feeds the digest and advances |
| Upload.FinalDigestExactly | apps/mac/backend/files_conflict.go:517-624 | over every run, the final chunk's digest is the file's exactly when no send failed since the digest was last started over |
| Upload.SentChunksAreRight | apps/mac/backend/files_conflict.go:517-624 | over every run, each chunk that went out has its place and the file's bytes |
| Upload.RetryWithoutResetIsWrong | apps/mac/backend/files_conflict.go:545-585 | a plain second try of a one-byte file is sent with the digest of the byte twice |
| BrowserUpload.PlainUploadSendsAll | apps/mac/backend/files_conflict.go:517-624 | a session whose chunks all go out sends every chunk of the file, the digest on the last, and is over |
| BrowserUpload.ResumeSendsTheRest | apps/mac/backend/files_resume.go:353-411 | from any state of an open session: resume, hash the confirmed chunks again, send the others; exactly those others go out, with the whole file's digest |
| BrowserUpload.CancelIsFinal | apps/mac/backend/files_conflict.go:517-660 | a cancelled or aborted session sends nothing more, whatever still comes |
| RemotePath.EntryOfRefusedFolder | packages/core/files.go:191-238 | an entry of a refused folder is refused, unless its name trims to `..` |
| RemotePath.DotDotEscapesRefusal | packages/core/files.go:191-238 | such a name is accepted inside a folder whose own name is too long |
| RemotePath.RefusalPassesDownExactly | packages/core/files.go:191-238 | refusal passes down for all folders if and only if the name does not trim to `..` |
| CleanPath.CleanPassesUnchanged | packages/core/files.go:191-238 | a clean path without white space at its ends is accepted as it is |
| CleanPath.SanitizedIsClean | packages/core/files.go:191-238 | whatever is accepted comes out as the root or a clean path, no longer than it was |
| CleanPath.SanitizeIsIdempotentExactly | packages/core/files.go:191-238 | sanitizing a result again changes nothing if and only if it has no white space at its ends |
| CleanPath.SanitizeTwiceDiffers | packages/core/files.go:191-238 | an ordinary name with a blank and `/.` behind it comes out with the blank, and from a second pass without |
| UploadGate.FolderGatedExactly | apps/mac/backend/files_parallel.go:199-258 | for every folder tree, each task is fed after its parent's mkdir if and only if no accepted file lies in a refused folder |
| UploadGate.DropGatedExactly | apps/mac/backend/files_parallel.go:157-195 | the same if and only if for a whole drop of files and folders |
| UploadGate.TameIsSound | apps/mac/backend/files_parallel.go:199-258 | a tree without a file whose name trims to `..` meets that condition |
| UploadGate.UnsoundDropHasOrphan | apps/mac/backend/files_parallel.go:157-258 | a drop that does not meet it feeds a task whose folder is refused |
| UploadPool.NoOvertaking | apps/mac/backend/files_parallel.go:290-332 | whatever is fed and whatever mkdir writes fail, in every reachable state: at most eight sends in flight, and every chunk frame has its folder's mkdir frame before it, unless that write failed |
| UploadPool.DiscoveredGatesAreOpen | apps/mac/backend/files_parallel.go:89-140 | with a gated feed, every discovered task finds its gate open |
| UploadPool.StepsAreFinite | apps/mac/backend/files_parallel.go:290-332 | every effective step uses up work |
| UploadPool.NoDeadlock | apps/mac/backend/files_parallel.go:95-140 | with a gated feed, no reachable unfinished state is stuck, whatever was cancelled or failed, and it can be carried to the end |
| UploadPool.OrphanIsNeverSent | apps/mac/backend/files_parallel.go:128-140 | a task whose folder nobody announces is never sent, so no run without cancels and failures ends |
| UploadPool.DropFinishesExactly | apps/mac/backend/files_parallel.go:268-332 | a drop's upload can be finished without cancels and failures if and only if no accepted file lies in a refused folder |
| UploadPool.WaitsForever | apps/mac/backend/files_parallel.go:128-140 | once a worker stands at a gate that nobody will open, no run at all ends the upload |
| UploadPool.DotDotDeadlocks | apps/mac/backend/files_parallel.go:128-140 | the bad tree reaches an unfinished state that no step can change |
| UploadOrder.FinishedHasSentAll | apps/mac/backend/files_parallel.go:509-582 | no run sends more chunk frames of a path than were fed for it, and a finished run without cancels and failures has sent exactly those |
| UploadOrder.OrderExactly | apps/mac/backend/files_parallel.go:199-245 | with a gated feed, chunks stay behind their folder's mkdir frame in every run if and only if no file with chunks is fed into a folder whose mkdir write fails |
| UploadOrder.DropOrderExactly | apps/mac/backend/files_parallel.go:157-245 | the same for a whole drop |
| UploadOrder.LostMkdirIsOvertaken | apps/mac/backend/files_parallel.go:211-241 | a run in which the mkdir write fails and the chunk goes out alone |
| UploadFeed.FedExactly | apps/mac/backend/files_parallel.go:157-258 | with files given by their place in the tree: a task is fed exactly as often as there are files of that path and size that are accepted and not behind a refused top-level item |
| UploadFeed.MkdirExactly | apps/mac/backend/files_parallel.go:199-258 | a folder is announced exactly as often as there is an accepted one of that path |
| UploadFeed.DropSendsExactly | apps/mac/backend/files_parallel.go:268-332 | a finished run without cancels and failures has sent, for every path, exactly the chunks of the drop's accepted files; no run sends more |
| UploadFeed.DropAnnouncesExactly | apps/mac/backend/files_parallel.go:199-258 | and one mkdir frame for every accepted folder whose frame could be written |
| UploadFeed.DropIsConfirmedExactly | apps/mac/backend/files_parallel.go:290-332 | and has waited for exactly one confirmation per accepted file |
| UploadFeed.OrdinaryItemIsAccepted | apps/mac/backend/files_parallel.go:180-190 | an item with an ordinary name, dropped on a clean folder, is accepted under that name in it |
| UploadFeed.OrdinaryItemInRoot | apps/mac/backend/files_parallel.go:180-190 | and under its bare name in the root |
| UploadCancel.CancelledUploadEnds | apps/mac/backend/files_parallel.go:286-332 | with a gated feed, a cancel in any reachable state lets the upload end without another frame |
| Decimal.Itoa | packages/core/files.go:525-545 | the buffer loop prints the decimal text; the least 64-bit value prints a bare sign |
| Decimal.ParseOfFormat | packages/core/sync_reliability.go:151-161 | parsing undoes printing on every 64-bit integer |
| Decimal.FormatIsInjective | packages/core/files.go:525-545 | different numbers print differently |
| Decimal.FormatByPlaces | packages/core/files.go:525-545 | a digit prints as itself, each further place is appended, a negative number has a minus in front |
| Base64Url.DecodeOfEncode | packages/core/sync_reliability.go:79-147 | unpadded base64url (sections 3.2 and 5 of RFC 4648) decodes to what was encoded, on every byte string |
| Base64Url.SymbolsAreInOrder | packages/core/sync_reliability.go:79-95 | the alphabet of table 2 of RFC 4648 |
| Base64Url.GroupComesFirst | packages/core/sync_reliability.go:79-95 | each three bytes come out as the four base-64 digits of their 24-bit number (section 4 of RFC 4648) |
| Cursor.DecodeOfEncode | packages/core/sync_reliability.go:79-130 | every pair comes back, with a negative id clamped to zero, whenever the cursor fits 256 bytes |
| Cursor.V2DecodesExactly | packages/core/sync_reliability.go:133-147 | a tagged cursor decodes to a pair if and only if, trimmed, it is exactly that pair's encoding |
| Cursor.EncodeIsInjective | packages/core/sync_reliability.go:79-95 | different pairs never share a cursor |
| Cursor.LegacySmsCursor | packages/core/sync_reliability.go:100-130 | an old `date:id` cursor still decodes to its pair |
| Cursor.LegacyDateCursor | packages/core/sync_reliability.go:100-130 | a cursor that is only a date decodes to it |
| Cursor.LegacyKeysetCursor | packages/core/sync_reliability.go:100-130 | an untagged keyset cursor decodes to its pair, unless it reads as tagged |
| Cursor.MessageCursorRoundTrip | packages/core/sync_reliability.go:79-130 | the cursors that message paging emits always fit and decode |
| KeysetWalk.WalkIsComplete | apps/mac/backend/messages.go:256-311 | following a listing's cursors with any limits gathers exactly the list, within as many pages as rows |
| Paging.NewestIsSuffix | apps/mac/backend/db.go:562-637 | the nested descending-limit-ascending select is the tail of the ascending order |
| Paging.LoadBeforeIsSlice | apps/mac/backend/db.go:592-637 | a cursor query returns the rows just before the cursor row |
| Paging.LoadThreadIsSlice | apps/mac/backend/db.go:562-590 | the first query returns the newest rows |
| Paging.MessageStore.List | apps/mac/backend/messages.go:236-311 | the listing call computes `Listed`: limits, cursor checks, cache fill, next cursor; transcripts that are newest parts of their threads stay so |
| Paging.PagingIsComplete | apps/mac/backend/messages.go:256-311 | for every table, cached transcript and page limits: following the cursors delivers the visible thread (the stored rows older than the cached page, then that page), no skip, no repeat, and an end |
| Paging.FittingCacheShowsThread | apps/mac/backend/messages.go:256-275 | with nothing cached, or a newest part of the thread, the visible thread is the whole stored thread sorted by (date, id) |
| Paging.VisibleIsAllExactly | apps/mac/backend/messages.go:266-285 | a stored row is visible if and only if it is older than the oldest cached row or cached itself |
| Paging.VisibleRepeatsNothing | apps/mac/backend/messages.go:266-285 | no row is visible twice unless it is cached twice |
| Dedup.DedupCache.Mark | packages/core/sync_reliability.go:231-250 | a key is accepted exactly when it is not empty and not among the last `cap` accepted; the set is exactly those, in order |
| Dedup.DedupCache.Seen | packages/core/sync_reliability.go:218-226 | seen means among the last `cap` accepted keys |
| Dedup.RepeatsAreFarApart | packages/core/sync_reliability.go:231-250 | two accepts of one key are more than `cap` accepts apart |
| Dedup.RefusedExactly | packages/core/sync_reliability.go:231-250 | a key is refused exactly while fewer than `cap` others were accepted after it |
| SmsPush.PushReceiver.ReceivePush | apps/mac/backend/messages.go:797-858 | one push changes transcripts and thread list as `Receive` says (`PushEffect` says what that shows) |
| SmsPush.KeysAgreeExactly | apps/mac/backend/messages.go:50-58 | exactly when two pushes count as one: same client id, else same message id, else same address, date and body length |
| SmsPush.RedeliveryExactly | apps/mac/backend/messages.go:797-803 | whatever happened since, a redelivered push changes nothing exactly while fewer than 500 others were applied |
| SmsPush.AppliedExactlyOnce | apps/mac/backend/messages.go:797-858 | with at most 500 different dedup keys, any redeliveries leave the caches as if each was applied once, at its first delivery |
| SmsPush.UnreadCountsEachPushOnce | apps/mac/backend/messages.go:823-858 | every unread badge grows by the number of different dedup keys among its thread's first deliveries |
| PushEffect.TranscriptAfterPush | apps/mac/backend/messages.go:805-822 | a push with a new key ends its thread's transcript exactly when that is held, the thread id positive and the message id not listed; no other transcript changes |
| PushEffect.RowAfterPush | apps/mac/backend/messages.go:823-842 | the first row of its thread shows its body, date, one more unread and any contact it names; every other row stays |
| PushEffect.NewRowAfterPush | apps/mac/backend/messages.go:843-857 | a thread without a row gets one in front, with the push's address, body and date |
| PushEffect.EachPushShowsOnce | apps/mac/backend/messages.go:797-858 | under any redeliveries of at most 500 different pushes, a transcript ends as it was, followed by each different push of its thread once |
| RowMerge.MergeRows | apps/mac/backend/messages.go:64-80 | the merge loops append exactly the rows with unseen keys, first occurrences, in order |
| RowMerge.MergedIsDistinctExactly | apps/mac/backend/contacts.go:424-440 | the merged cache is free of duplicate keys if and only if the cache was, and it was non-empty or the page was |
| RowMerge.MergedKeepsAndAdds | apps/mac/backend/messages.go:64-80 | nothing cached is lost, nothing is invented |
| RowMerge.MergedMessagesComeFrom | apps/mac/backend/messages.go:83-114 | a merged transcript is in (date, id) order, keeps what was cached and adds only page rows |
| RowMerge.MergedIsExactlyTheNews | apps/mac/backend/messages.go:64-80 | a merge into a non-empty cache appends exactly the rows without a key or whose key neither the cache nor an earlier row has, in order |
| RowMerge.MergedOfDistinct | apps/mac/backend/contacts.go:424-440 | rows with different keys are all appended |
| MessagesSync.MessagesService.IngestThreadsPage | apps/mac/backend/messages.go:608-662 | a thread page: waiter, error, generation, replace or merge, and whether the waiter is answered |
| MessagesSync.MessagesService.IngestMessagesPage | apps/mac/backend/messages.go:664-712 | the same for a message page, with the thread check |
| MessagesSync.MessagesService.Invalidate | apps/mac/backend/messages.go:867-872 | a new generation with nothing cached |
| MessagesSync.MessagesService.FailPending | apps/mac/backend/sync_reliability.go:117-150 | every SMS waiter is told and none is left |
| MessagesSync.RunKeepsValid | apps/mac/backend/messages.go:185-199 | in every reachable state exactly the live page requests have a meta record |
| MessagesSync.ThreadsPageExactly | apps/mac/backend/messages.go:608-662 | over every run since the request, a page takes effect exactly when its waiter is there and no generation bump came in between |
| MessagesSync.MessagesPageExactly | apps/mac/backend/messages.go:664-712 | the same for message pages, which must also name the requested thread |
| MessagesSync.ForgetDoesNotGuard | apps/mac/backend/service.go:676-684 | after forgetting the phone, a page asked for before still fills the cache |
| MessagesSync.CachedThreadsAreRecent | apps/mac/backend/messages.go:601-872 | over every run, all that a cached thread row shows but its unread state was told since the last bump, by a page asked for since then, a push, a confirmed send or the database |
| MessagesSync.CachedMessagesAreRecent | apps/mac/backend/messages.go:601-872 | the same for every row of every transcript |
| Duplicates.ThreadsStayDistinctExactly | apps/mac/backend/messages.go:60-80 | along a run no thread is cached twice if and only if no event sets rows that repeat an id themselves |
| Duplicates.MessagesStayDistinctExactly | apps/mac/backend/messages.go:478-481 | along a run no message id is in a transcript twice if and only if no event confirms a send already there or sets rows that repeat an id |
| Duplicates.ConfirmedSendIsDoubled | apps/mac/backend/messages.go:478-481 | a confirmed send of a listed message leaves it there twice |
| Duplicates.DistinctSorted | apps/mac/backend/messages.go:83-114 | the sort of a merged transcript neither adds nor removes repeats |
| SyncListing.ListedThreadsAreCached | apps/mac/backend/messages.go:608-662 | fetching a whole listing page by page leaves exactly the rows of its pages, in order, if no thread is listed twice |
| SyncListing.ListedMessagesAreCached | apps/mac/backend/messages.go:664-712 | the same for a transcript, each row once, in order of date from the second page on; nothing else changes |
| SyncListing.ListedContactsAreCached | apps/mac/backend/contacts.go:550-600 | the same for the directory |
| SyncListing.PendingExactly | apps/mac/backend/messages.go:181-600 | over every run, exactly the requests wait that were made and neither finished nor cut off since |
| SyncListing.SentShows | apps/mac/backend/messages.go:466-490 | a confirmed send ends its thread's transcript and shows in its first row; all else stays |
| SyncListing.MarkedReadShows | apps/mac/backend/messages.go:520-540 | a thread marked read has nothing unread in its first row and its transcript; all else stays |
| SyncListing.LoadFillsTheEmpty | apps/mac/backend/messages.go:135-266 | the database fills what is empty, and only that |
| SyncListing.DeletedExactly | apps/mac/backend/contacts.go:394-401 | a deletion takes out exactly the first entry of its contact |
| SyncListing.ForgetEmpties | apps/mac/backend/service.go:675-680 | forgetting the phone empties the directory |
| ContactsSync.ContactsService.IngestListPage | apps/mac/backend/contacts.go:541-600 | a contacts page: waiter, error, generation, filter, replace or merge |
| ContactsSync.ContactsService.Invalidate | apps/mac/backend/contacts.go:696-703 | a new generation with an empty directory |
| ContactsSync.ContactsService.FailPendingLists | apps/mac/backend/sync_reliability.go:75-86 | every listing waiter is told and none is left |
| ContactsSync.Session.OnConnect | apps/mac/backend/service_ws.go:39-47 | both sides start a new generation with nothing cached |
| ContactsSync.Session.OnDisconnect | apps/mac/backend/service_ws.go:207-222 | no sync waiter is left pending, each is told, and no cache changes |
| ContactsSync.RunKeepsValid | apps/mac/backend/contacts.go:176-193 | in every reachable state exactly the live listings have a meta record |
| ContactsSync.ListPageExactly | apps/mac/backend/contacts.go:550-600 | a page takes effect exactly when unfiltered, awaited, and of the current generation |
| ContactsSync.AvatarPageExactly | apps/mac/backend/contacts.go:620-650 | over every run since the request, an avatar answer takes effect exactly when usable and still awaited, generation bumps or not |
| ContactsSync.PatchedExactly | apps/mac/backend/contacts.go:641-649 | it changes the photo of exactly the first entry of its contact |
| ContactsSync.DirectoryIsRecentAndUnfiltered | apps/mac/backend/contacts.go:550-600 | over every run, each directory entry, up to its photo, comes from an unfiltered page asked for since the last bump |
| ContactsSync.PhotosAreRecent | apps/mac/backend/contacts.go:550-650 | and its photo from such a page or from an avatar answer that arrived since the last bump |
| ClipStore.Compare | packages/core/clipboard_sync.go:133-147 | the three-way comparison is the lexicographic order on (L, C) |
| ClipStore.RemoteWins | packages/core/clipboard_sync.go:152-160 | a remote wins exactly when positive and strictly later |
| ClipStore.Next | packages/core/clipboard_sync.go:94-105 | the next stamp is strictly after the stored one and not before the wall clock |
| ClipStore.OnReceive | packages/core/clipboard_sync.go:109-130 | the absorbed stamp is strictly after both clocks |
| ClipStore.NextIsLeast | packages/core/clipboard_sync.go:94-105 | no stamp after the stored one and not before the wall clock is earlier than the next stamp |
| ClipStore.OnReceiveIsLeast | packages/core/clipboard_sync.go:109-130 | nor is any stamp after both clocks earlier than the absorbed one |
| ClipStore.Clipboard.NextStamp | apps/mac/backend/clipboard.go:64-82 | the stamp of a local copy |
| ClipStore.Clipboard.NoteSeen | apps/mac/backend/clipboard.go:86-101 | the window is exactly the last 256 recorded nonces |
| ClipStore.Clipboard.CopyLocal | apps/mac/backend/clipboard.go:157-232 | a local copy is stamped, held and pending, unless insane or already held |
| ClipStore.Clipboard.ReceivePush | apps/mac/backend/clipboard.go:237-290 | a push is adopted exactly when valid, new, winning and no echo |
| ClipStore.Clipboard.TakePending | apps/mac/backend/clipboard.go:295-328 | a pending clip is taken once |
| ClipStore.StampsNeverRegress | apps/mac/backend/clipboard.go:157-290 | over every run, held stamp and clock never regress, the clock is never behind, and a changed clip has a strictly later stamp |
| ClipStore.AdoptedAtMostOnce | apps/mac/backend/clipboard.go:237-290 | adopted stamps strictly grow along a run, so none is adopted twice even when its nonce is forgotten |
| ClipStore.AdoptedIsHeld | apps/mac/backend/clipboard.go:237-290 | an adopted push is held: its content, stamp, hash, side and flag, its nonce recorded, nothing left to send |
| ClipStore.LocalIsHeld | apps/mac/backend/clipboard.go:157-232 | a new local copy is held as the Mac's, still to be sent, under a later stamp |
| ClipStore.PendingExactly | apps/mac/backend/clipboard.go:157-328 | over every run, a clip waits to be sent exactly when it was copied locally and since then neither taken nor replaced from the phone |
| ClipStore.NextLocalExceedsExactly | apps/mac/backend/clipboard.go:64-82 | a local copy is stamped after a push exactly when the clock reached it or the wall clock is past it |
| ClipStore.ReceivedIsAbsorbedExactly | apps/mac/backend/clipboard.go:286-289 | a valid, unrepeated push that is no echo is reached by the clock if and only if its time is positive or the clock was already there |
| ClipStore.EchoIsNotAbsorbed | apps/mac/backend/clipboard.go:257-264 | an echo does not: a run that mints a stamp older than one already seen |
| ClipHub.Hub.Begin | apps/mac/backend/clipboard_chunk.go:40-57 | a manifest opens a session after a sweep; never more than nine sessions |
| ClipHub.Hub.ReceiveManifest | apps/mac/backend/clipboard_transfer.go:216-236 | only a valid manifest sweeps and opens a session |
| ClipHub.Hub.Sweep | apps/mac/backend/clipboard_chunk.go:130-150 | sessions idle for five minutes go, and one oldest beyond eight |
| ClipHub.Hub.Add | apps/mac/backend/clipboard_chunk.go:62-128 | one chunk changes the sessions and yields a push as `AfterAdd` and `PushOf` say |
| ClipHub.Hub.Join | apps/mac/backend/clipboard_chunk.go:93-115 | chunks joined in order, then length, hash and image checks |
| ClipHub.SplitClipBytes | apps/mac/backend/clipboard_chunk.go:163-175 | the pieces are the one-mebibyte chunks of the image |
| ClipHub.DeliveredOnceInAnyOrder | apps/mac/backend/clipboard_chunk.go:62-128 | in any order, with any repeats, mixed with other sessions: exactly one push with the original bytes as soon as all arrived, none before |
| ClipHub.HubRunKeepsInv | apps/mac/backend/clipboard_chunk.go:40-150 | over every run of manifests, sweeps and chunks, at most nine sessions are open, each with an announced manifest |
| ClipHub.PushesMatchManifest | apps/mac/backend/clipboard_chunk.go:40-128 | over every such run, every push was announced by a valid manifest of its session and has its length and hash |
| ClipHub.ImageIsDelivered | apps/mac/backend/clipboard_chunk.go:40-128 | end to end: an image's own manifest opens a session, and its chunks in any order hand the image on exactly once |
| ClipHub.SweptExactly | apps/mac/backend/clipboard_chunk.go:130-150 | an active session is swept only as the single oldest of more than eight; idle ones always |
| ClipHub.MismatchCloses | apps/mac/backend/clipboard_chunk.go:62-80 | a chunk with other totals closes its session, and only that |
| Origin.NormalizeIsIdempotent | packages/core/features.go:241-247 | normalising an origin twice is normalising it once |
| Origin.WordIsLowered | packages/core/features.go:241-247 | in any case, `macos` is the Mac and any other word is itself in lower case |
| FilterList.SanitizeList | packages/core/features.go:348-378 | the loops compute the first hundred different cleaned names, sorted |
| FilterList.InsertionSort | packages/core/features.go:371-376 | the in-place sort equals functional insertion sort |
| FilterList.SanitizedIsCanonical | packages/core/features.go:348-378 | strictly sorted, at most a hundred, only cleaned names, and all of them up to a hundred |
| FilterList.SameAppsSameList | packages/core/features.go:343-378 | lists naming the same apps (at most a hundred) become the same list |
| FilterList.SanitizeIsIdempotent | packages/core/features.go:348-378 | sanitizing twice changes nothing more |
| Settings.SettingsStore.ApplyRemote | apps/mac/backend/settings.go:325-355 | a blob is adopted exactly when valid and winning; left-out switches keep their value |
| Settings.AdoptsExactly | packages/core/features.go:903-913 | winning is having the larger (time, side) key |
| Settings.AdoptedSaysWhatTheBlobSays | apps/mac/backend/settings.go:325-355 | an adopted blob leaves behind its switches, modes, time and side, its muted apps in the muted list and its allowed apps in the allowed list |
| Settings.EndsAtTheLargestKey | apps/mac/backend/settings.go:325-355 | in any order with any repeats, the settings end as the sanitized largest-key blob, or as they were |
| Settings.SettingsConverge | apps/mac/backend/settings.go:325-355 | the same blobs in different orders and multiplicities end in the same settings |
| Settings.TwoOrdersAgreeExactly | apps/mac/backend/settings.go:339-351 | with switches left out, the two orders agree exactly when that makes no difference |
| KeepBoth.KeepBothName | packages/core/files.go:494-522 | the loop ends and returns the path if free, else the first free numbering |
| KeepBoth.KeepBothNameTs | apps/mac/frontend/src/lib/fileConflict.ts:47-65 | the same for the mirror, with its own split |
| KeepBoth.FirstFreeIsSmallest | packages/core/files.go:516-521 | the chosen number's name is free and all smaller ones are taken |
| KeepBoth.ProbesAreBounded | packages/core/files.go:516-521 | no more probes fail than there are other names, by pigeonhole |
| KeepBoth.NumberedStaysInPlace | packages/core/files.go:498-519 | the new name has the same directory and extension |
| KeepBoth.SplitOfName | packages/core/files.go:498-515 | the extension follows the last dot of the file name, unless the name starts with it |
| KeepBoth.NumberGoesBeforeExtension | packages/core/files.go:516-521 | the number goes between stem and extension |
| KeepBoth.NamesAgreeExactly | apps/mac/frontend/src/lib/fileConflict.ts:47-65 | core and mirror pick the same name except exactly for a taken root path with a leading slash and an extension |

## Left out

- TLS, HTTP, WebSocket framing, SQLite, encryption, JSON, AppKit and the Svelte interface: foreign calls or plumbing.
- Retries of one chunk send (three attempts) are one send that succeeds or fails; acknowledgements are counted, but their contents, their time limits and the status records of uploads are not modelled.
- Concurrent handling of two chunks of one download: the socket's read loop handles messages one after another, and so does the model.
- Cancelling or sweeping a running download, and progress events: only the bytes staged and committed are modelled, not the status seen by the user beyond running, done and failed.
- Upload.ResumeUpload: the local file is taken not to change while it is read; a same-size change passes the size check, and then only the digest protects the receiver.
- Upload.BrowserSession.SendChunk: a chunk that fails validation and a chunk that fails to go out are one case, since both leave the digest fed.
- UploadPool.NoDeadlock: gates, channel, semaphore and goroutines are modelled as a state machine on values, not as objects.
- UploadOrder.OrderExactly: mkdir writes fail per folder, so of two announcements of one folder both are written or neither.
- Paging.PagingIsComplete: the cached rows have positive ids and dates, as stored rows do; a cached row without a date ends the paging there.
- PhotoStream.NoHoleIsEverServed: stream transfer and part file are a state machine on values, because writers and readers interleave; validation of photo chunks and the retries of the on-demand pull are left out, so nothing is claimed about the pull's progress.
- MessagesSync.MessagesService.IngestMessagesPage: rows with equal date and id keep one fixed order, where Go's sort leaves it open.
- MessagesSync.CachedThreadsAreRecent: what the database returns is an input; pages are saved there in the background, so a reload after an invalidation may show older rows until the refetch.
- MessagesSync.ForgetDoesNotGuard: forgetting also closes the socket, whose disconnect later fails the waiters; the lemma is about a page handled before that.
- Matching contact names into threads and messages, and the avatar cache: joins and a bound that does not hold for entries loaded from disk.
- Requests that go to the phone when a listing is not answered locally: `Paging` covers the answers from cache and database, with every row decryptable.
- ClipStore.Clipboard.CopyLocal: size, mime and image checks and the content hash are parameters, and clips are canonical (mime and file name normalised) before they reach the store.
- ClipHub.Hub.Add: the image check is a parameter; whether the store later adopts a reassembled image is not modelled, nor is the stamp minted for sending one.
- Origin.NormalizeIsIdempotent: upper case is ASCII only, which decides "mac" as the Go code does.
- FilterList.SanitizeList: trimming and capping one package name is a parameter.
- Settings.SettingsStore.ApplyRemote: canonicalising the four modes is a parameter; local setters, which stamp raw wall time, are not modelled.
- The hybrid clock's counters do not wrap at 64 bits.
- Playback, do-not-disturb, version gate, pairing, discovery, label and mime sanitizers, batch progress: easy to see from one reading.
