# A verified model of bep.rs

bep.rs is a Rust implementation of the Block Exchange Protocol, the protocol that Syncthing peers use
to keep directories equal. This project models its core in Dafny and proves what the design relies on:
that version histories never lose or invent an entry, that gossip ends and converges, that a download
is a faithful copy, and that ids, frames and pending requests are handled without loss.

`dafny verify dfyconfig.toml` checks everything. SHA-256 is a parameter of every result that needs a
hash; that it has no collisions is an explicit hypothesis where a result takes it.

## Layout

| file | what it models |
|---|---|
| `SyncTypes.dfy` | files, blocks, versions, the database as rows, and copies of it that handlers hold |
| `Store.dfy` | the three tables and `update_sync_file`, as a class proved against a function on rows |
| `Blocks.dfy`, `Storage.dfy` | cutting a file into blocks; reading and writing ranges of files |
| `Transfer.dfy`, `Download.dfy` | serving requests, fetching one file, fetching a directory, echoes |
| `IndexMerge.dfy`, `Reindex.dfy` | `handle_index` and `generate_index`, method by method, row by row |
| `Gossip.dfy`, `Termination.dfy` | a network of peers with uninterrupted handlers, downloads answered by anyone or broken off: convergence, termination |
| `Quiet.dfy` | over whole runs, downloads are not taken for edits |
| `Progress.dfy`, `Convergence.dfy`, `Divergence.dfy` | what is never taken back; when peers end up with the same bytes on disk; when they cannot |
| `Interleaving.dfy`, `HandlerSteps.dfy` | the same network where only database calls are atomic |
| `Luhn.dfy`, `Base32.dfy`, `DeviceId.dfy` | device ids as text |
| `Framing.dfy`, `Connection.dfy`, `Delivery.dfy` | the byte stream; the message queue, the writer and the pending requests; from the queue to the other peer's reader |

Code that updates things in place is modelled in place: the database (`BepState`), the storage
(`LocalStorage`), the byte stream (`InputStream`) and the connection (`PeerConnection`) are classes,
loops are loops with invariants, and each method is tied to a function whose properties the lemmas state.

Two granularities are used for the network. In `Gossip` every handler runs without interruption. In
`Interleaving` every database call is one step, because each takes the lock, and handlers work from
copies of any age. The merge, the scan and the download run without interruption are special cases of the second
(`HandlerSteps.HandledIsRun`, `HandlerSteps.ScannedIsRun`, `HandlerSteps.DownloadIsRun`). Both are restricted to
peers that all run this code: other clients number their counters differently.

## What the proofs found

- A file whose length is a whole number of blocks cannot be transferred: its last block is listed with
  size 0 but with the hash of a full block. `Blocks.BlocksTileIff` and `Transfer.HonestFetchIff` give the
  exact condition; `Blocks.ReportedSize` says the reported size is then short by one block.
- A downloaded file is taken for a local edit by the next scan exactly when it has several blocks, or
  when a longer file was there before (`Download.EchoIff`). Neither the comments nor the tests say so. Where
  files fit one block and grow with their histories it never happens, in any run (`Quiet.RunIsClean`).
- At the granularity of the lock a handler that works from an old copy always puts its hash in the row, but
  adds nothing to a history that is as long as its own already (`HandlerSteps.ContentsUntoldIff`). So, beyond conflicts
  that any merge decides by length, an edit can be lost in two ways: a scan stores the new hash without a
  version, exactly when the row's history has grown beyond the copy's (`HandlerSteps.EditRecordedIff`, run: `HandlerSteps.LostEditHappens`); or a merge puts the hash and
  blocks of an entry over an edit recorded since the copy was read, exactly when the row has grown to the entry's length
  (`HandlerSteps.AdoptOverwritesIff`, run: `HandlerSteps.EditIsOverridden`, where no assertion fails and the next
  download overwrites the edit on disk).
- At the same granularity a synced version can go back. `HandlerSteps.SyncedDropsIff` says exactly when, over all steps:
  a mark or an edit from a copy too short to list what was synced, or a merge from a copy read before it was synced.
  Marks and edits then fail an assertion after the row was written (`HandlerSteps.DropIsNoticed`), merges do not.
  The runs: two downloads that overlap (`HandlerSteps.StaleMarkHappens`, `HandlerSteps.StaleDownloadPanics`), a scan and a
  download (`HandlerSteps.ScanThenMarkDrops`), a merge and a download (`HandlerSteps.MergeDropsUnnoticed`).
- And a new file can get two rows, when two handlers that both lack it store it
  (`HandlerSteps.SecondRowIff`, `HandlerSteps.TwoScansTwoRows`). With uninterrupted handlers
  contents change only under a longer history (`IndexMerge.HandledPayload`), no synced version goes back
  (`Progress.NothingIsTakenBack`), and no name ever has two rows.
- `send_index` takes histories from the database and blocks from the disk. Sent while a file is still to
  be downloaded, it pairs the new history with the old blocks, exactly when the blocks on disk are not
  those the row lists (`Convergence.IndexIsTrueIff`). Who adopts that keeps it, and the network can come to
  rest with two peers that agree on every history and hold different bytes (`Divergence.StaleRelaySticksIff`,
  `Divergence.StaleRelayDiverges`). Once histories agree in length nothing repairs it, nor two edits made
  at the same length (`Divergence.FrozenStaysFrozen`).
- The check letters of a device id miss a swap of 'A' and '7', as is known for this Luhn variant, and
  also every swap of the last letter of a group with its own check letter (`DeviceId.SwapAcceptedIff`).
  Characters after the 56th are ignored (`DeviceId.ParsedStartsWithId`).
- A message body of 2^32 bytes or more leaves bytes in the stream that are read as the next frame
  (`Framing.FrameConsumedIff`, and such a body in `Framing.LongBodyIsMisread`).

## Model

| member | source | states |
|---|---|---|
| Store.StoreAppendsOnly | src/bep_state.rs:241-323 | any store, failed assertions included, leaves every stored history a prefix of what it becomes, and the database valid |
| Store.StoreSucceedsIff | src/bep_state.rs:251-279 | the assertions hold exactly when the history given is not empty and no shorter than the stored one |
| Store.StoredHistoryIffExtends | src/bep_state.rs:271-296 | inserting only the missing tail stores the history given exactly when it extends the one stored |
| Store.StoreReadBack | src/bep_state.rs:217-323 | a file whose history extends the stored one, with blocks in offset order, is read back as it was written, and no other row changes |
| Store.NewRowReadBack | src/bep_state.rs:241-323 | so is a new file, in a row at the end |
| Store.StoredBlocks | src/bep_state.rs:298-321 | a file without blocks leaves those stored, one with blocks replaces them |
| Store.AssertedStore | src/bep_state.rs:251-279 | a store whose assertion fails writes name, author, synced version and hash of the row and nothing else; an empty history writes nothing |
| Store.SortedReadBack | src/bep_state.rs:200-215 | reading blocks ordered by offset gives back the stored blocks as a multiset, in order, and unchanged if they were ordered |
| Store.StoreRefines | src/bep_state.rs:241-323 | upsert, tail insertion and block replacement on the three tables do to the rows read back what the store function does |
| Store.BepState.GetSyncFiles | src/bep_state.rs:217-239 | returns the rows, each with its history in insertion order and its blocks by offset |
| Store.BepState.UpdateSyncFile | src/bep_state.rs:241-323 | turns the rows into what storing the file makes of them and reports whether an assertion failed; 64-bit values survive the signed columns |
| Blocks.GenBlocks | src/sync_directory.rs:162-197 | reading block by block gives the list of blocks the file's length and content determine, or fails |
| Blocks.BlocksTileIff | src/sync_directory.rs:141-196 | the blocks of any file that is given blocks lie end to end from 0 and cover it exactly if and only if it is shorter than 2 GiB and not a whole number of blocks; each then carries the hash of its own range, and there are at most 2048 |
| Blocks.BlocksByLength | src/sync_directory.rs:141-196 | by its length in 32 bits a file is cut every 131072 bytes below 262144000, every 262144 below 524288000, every 524288 below 1073741824, every 1048576 below 2147483648, else every 2097152: as many blocks as that takes, offsets, sizes and hashes of all; no blocks exactly for length 0 |
| Blocks.SmallFileCut | src/sync_directory.rs:141-144 | below 250 MiB: (length + 131071) / 131072 blocks, the i-th at 131072 i, all but the last of 131072 bytes |
| Blocks.ReportedSize | src/sync_directory.rs:219-221 | for every file that is given blocks, the sum of sizes: short by one block at a whole number of blocks, and thrown off by a negative last size from 2 GiB on |
| Blocks.ReportedSizeIff | src/sync_directory.rs:219-221 | it is the length of the file, wrapping or not, exactly for files under 2 GiB that are not a whole number of blocks |
| Storage.ReadWritten | src/storage_backend.rs:32-45 | reading the range just written returns the data written |
| Storage.WriteKeepsRest | src/storage_backend.rs:32-37 | a write changes no byte outside its range and never shortens the file |
| Storage.WrittenBytes | src/storage_backend.rs:32-37 | every byte of the file after a write, and its length: a gap before the range is zeros |
| Storage.LocalStorage.WriteBlock | src/storage_backend.rs:32-37 | overwrites the range in the one file and leaves the others as they were |
| Storage.LocalStorage.ReadBlock | src/storage_backend.rs:39-45 | returns exactly the bytes of the range, or an error |
| Transfer.HandleRequest | src/peer_connection/handlers.rs:73-113 | answers without error exactly when the file holds every byte asked for and they have the hash asked for, with an invalid file exactly when they have another, both with those bytes, and with no such file and no bytes otherwise; only a negative size can go unanswered |
| Transfer.HeldBlockAnswer | src/peer_connection/mod.rs:224-234 | asked for a block of which it holds every byte, a peer answers with them, as an invalid file if their hash is not the block's |
| Transfer.GetFile | src/peer_connection/mod.rs:206-317 | the loop over blocks leaves database and disk as the fetch function says, for any answers, stopping at the first refusal |
| Transfer.FetchOkIff | src/peer_connection/mod.rs:218-316 | a fetch succeeds exactly when every block is answered acceptably, and then the row is synced to its newest version; only a negative offset can make it panic, so no store assertion fails |
| Transfer.FetchEndsIff | src/peer_connection/mod.rs:246-315 | a fetch ends with the error that its first unacceptable answer stands for: no such file, a wrong hash or an invalid file, a closed connection, or another, each exactly then; it panics exactly where an acceptable answer belongs to a negative offset |
| Transfer.FetchedIsCopied | src/peer_connection/mod.rs:246-281 | whoever answers, a fetch that succeeds has laid the indexed content over the front of the file, given that hashes do not collide |
| Transfer.HonestFetchIff | src/peer_connection/mod.rs:206-317 | against a peer that still holds the file the fetch succeeds exactly for files under 2 GiB that are not a whole number of blocks, and copies them |
| IndexMerge.HandleIndex | src/peer_connection/handlers.rs:149-253 | the loop, working from its copy of the rows, leaves the database the merge function gives and says whether it changed |
| IndexMerge.HandledRow | src/peer_connection/handlers.rs:160-238 | the whole effect on each name: kept, adopted in full, or entered as new; no assertion or index can fail on an index that peers of this kind send |
| IndexMerge.HandledFields | src/peer_connection/handlers.rs:169-238 | the same field by field: history, hash, author, blocks and synced version of every row an index touches |
| IndexMerge.HandledUpTo | src/peer_connection/handlers.rs:161-236 | any index that names no file twice, well-formed or not, is merged up to the first entry that lacks a history, or blocks it needs, and there the handler panics |
| IndexMerge.HandledLength | src/peer_connection/handlers.rs:169-236 | names are united and each history is as long as the longer of the two |
| IndexMerge.HandledPayload | src/peer_connection/handlers.rs:171-195 | hash and blocks become the sender's exactly where its history is longer or the name is new |
| IndexMerge.HandledChangedIff | src/peer_connection/handlers.rs:161-240 | a download is started exactly when some history offered is longer than the one held |
| IndexMerge.RedeliveryIsNoOp | src/peer_connection/handlers.rs:171-173 | delivering an index again stores nothing and starts nothing |
| IndexMerge.OrderKeepsLengths | src/peer_connection/handlers.rs:160-238 | both orders of two indexes leave histories of equal length |
| IndexMerge.OrderKeepsPayloadIff | src/peer_connection/handlers.rs:160-238 | and the same hash and blocks, unless both offer different ones with histories of one length, longer than the one held |
| IndexMerge.HandledKeepsRows | src/peer_connection/handlers.rs:169-201 | no row is lost or renamed, histories grow at the end only, synced versions stay |
| Reindex.GenerateIndex | src/sync_directory.rs:56-132 | the loop over the directory leaves the database the scan function gives and says whether it broadcasts |
| Reindex.CompHashes | src/sync_directory.rs:41-51 | byte by byte comparison decides equality |
| Reindex.ScannedRow | src/sync_directory.rs:64-121 | the whole effect of a scan on each name, panics included: entries before the first that cannot be recorded are kept, given one more version authored here, or entered with version 0; the others are left |
| Reindex.ScannedFields | src/sync_directory.rs:64-118 | the same field by field: a row is recorded anew exactly when it is synced to its newest version and has another hash, with one version more, authored here and synced; a new file with version 0 |
| Reindex.ScanOkIff | src/sync_directory.rs:64-121 | a scan panics exactly when some file has something to record and cannot be cut into blocks or has exhausted its counter; no store assertion is among the reasons |
| Reindex.BlockedIff | src/sync_directory.rs:80-111 | what cannot be recorded, in numbers: files of length 0 modulo 2^32, and rows whose counter is 2^64 - 1 |
| Reindex.OrdinaryScanIsOk | src/sync_directory.rs:56-132 | so a directory of non-empty files under 4 GiB is scanned to its end |
| Reindex.ScanChangesIff | src/sync_directory.rs:82-129 | a scan broadcasts exactly when something is to be recorded, an unknown file or one that differs from a row that is up to date, and all of it can be; otherwise a settled directory changes nothing |
| Reindex.ScanIsIdempotent | src/sync_directory.rs:56-132 | for every database and directory a second scan of an unchanged directory stores nothing and broadcasts nothing, and panics only if the first did |
| Reindex.ScanKeepsRows | src/sync_directory.rs:95-101 | a scan, even one that panics, loses and renames no row and only appends to histories |
| Download.GetDirectory | src/peer_connection/mod.rs:319-340 | the loop over the index leaves database and disk as the fetch of each wanted row in turn does |
| Download.DirectoryFetched | src/peer_connection/mod.rs:325-338 | when it returns Ok every indexed file is on disk, exactly the wanted rows were rewritten, and each row is synced to its newest version |
| Download.WantedIff | src/peer_connection/mod.rs:325-334 | a file is fetched exactly when it is not on disk or synced to less than the last version of its history; one without a history counts as version 1 |
| Download.FetchedFields | src/peer_connection/mod.rs:325-338 | a file on disk in its newest version is not fetched again; any other row gets exactly its synced version changed |
| Download.DirectoryStopsAtFailure | src/peer_connection/mod.rs:325-337 | a download that fails stops at a file it wanted and leaves rows and files after it as they were |
| Download.DirectoryCopied | src/peer_connection/mod.rs:325-336 | and every wanted file then holds the indexed content laid over what was there, whoever answered |
| Download.NoEcho | src/peer_connection/handlers.rs:186-201 | a clean peer that merges an index of non-empty files under 128 KiB, no shorter than its own, and downloads them has nothing to record at the next scan and is clean again |
| Download.AdoptedHashIff | src/peer_connection/handlers.rs:186-186 | the hash taken from an index entry is that of the file a download leaves exactly when it has one block and nothing longer was there |
| Download.EchoIff | src/sync_directory.rs:82-100 | without those conditions the next scan takes the download for an edit exactly when the file has several blocks or a longer one was there |
| Gossip.IndexCarriesHistories | src/peer_connection/mod.rs:144-191 | an index offers exactly the histories held, and is one the merge accepts |
| Gossip.IndexEntries | src/peer_connection/mod.rs:144-191 | an index is sent exactly if every file known is on disk and can be cut, and lists each in turn with its history and the blocks of what is on disk |
| Gossip.BroadcastIs | src/bep_state.rs:570-580 | a broadcast is one send for each connection of the peer and nothing else |
| Gossip.RunAdds | src/peer_connection/handlers.rs:240-250 | what each task leaves to do: a send its index in flight, a merge a download from the sender exactly when something longer was offered, a download a broadcast exactly if it ended well; a failed task nothing; and which peer it changes |
| Gossip.RunLengths | src/peer_connection/handlers.rs:169-250 | running any task changes lengths at the receiver of an index only, to the maximum, and a growth leaves a download pending |
| Gossip.RunKeepsServed | src/peer_connection/mod.rs:319-340 | the invariant of convergence: across each connection the receiver is as long, or an index that suffices, a broadcast or a download is pending |
| Gossip.ApplyKeepsInv | src/peer_connection/mod.rs:457-477 | edits, new connections and completed tasks keep that invariant on all connections at once |
| Gossip.QuietMeansConverged | src/bep_state.rs:570-580 | after any run without failed tasks, when nothing is pending, peers joined by connections know the same files with histories of equal length |
| Termination.RunDecreases | src/peer_connection/handlers.rs:240-250 | every delivery, send or download lowers one natural number made of room left for growth and weighted pending tasks |
| Termination.GossipTerminates | src/peer_connection/handlers.rs:169-250 | so without edits a run, failed tasks and broken-off downloads included, has no more steps than that number at its start |
| Termination.StateIsBounded | src/peer_connection/handlers.rs:171-185 | the names and the longest history present at the start bound every later state |
| Termination.GossipSettles | src/peer_connection/mod.rs:457-477 | and when nothing can run any more, joined peers agree |
| Termination.RescansChangeNothing | src/sync_directory.rs:82-129 | a run with scans of settled directories in between ends in the same state as without them |
| Termination.RescansFeedNothing | src/sync_directory.rs:82-129 | and no more tasks run in it than the measure at its start |
| Quiet.EmptyPeersAreSized | src/sync_directory.rs:82-129 | peers with empty directories and databases meet the conditions of the results below |
| Quiet.SmallFetchIsAtomic | src/peer_connection/mod.rs:218-316 | a file of one block is fetched as a whole or not at all, whoever answers |
| Quiet.FetchedIsSized | src/peer_connection/mod.rs:319-340 | a download that ends anywhere leaves every row describing its content, and that content on disk once it is synced |
| Quiet.NothingWantedIsLongEnough | src/peer_connection/mod.rs:160-181 | a peer with nothing to download sends files of the size that belongs to their history |
| Quiet.RunIsClean | src/sync_directory.rs:82-100 | after any run, of edits, tasks with any answers and outcomes, and scans, in which files fit one block and grow with their histories, and senders' files have their sizes, every peer is clean: nothing it downloaded counts as an edit |
| Quiet.UnchangedScanIsNothing | src/sync_directory.rs:82-129 | then a scan of a directory as it is changes nothing in the network |
| Quiet.ScansAreSilent | src/sync_directory.rs:82-129 | and once edits stop, peers scan as often as they like: the run ends as without the scans and has no more tasks than the bound read off its first state |
| Progress.NothingIsTakenBack | src/peer_connection/mod.rs:278-280 | with uninterrupted handlers, in runs where tasks may fail, downloads may be answered by anyone or cut short at any block, and scans may panic, no synced version decreases or exceeds the newest version, and histories only grow |
| Convergence.IndexIsTrueIff | src/peer_connection/mod.rs:144-191 | the entries of an index carry the blocks of the content that belongs to their history exactly when every file on disk has the blocks its row lists |
| Convergence.CurrentIffHash | src/sync_directory.rs:82-98 | where a row has the hash of its content, comparing hashes decides that |
| Convergence.NothingWantedIsCurrent | src/peer_connection/mod.rs:160-181 | every file has the blocks its row lists at a peer with nothing left to download |
| Convergence.MergedIsTrue | src/peer_connection/handlers.rs:162-238 | merging such entries keeps every row describing the content of its length of history |
| Convergence.FetchedIsTrueIff | src/peer_connection/mod.rs:319-340 | a download that ends well leaves nothing to download, and leaves those contents on disk exactly when no file there was longer, whoever answered |
| Convergence.ScannedIsTrue | src/sync_directory.rs:64-121 | a scan after edits that agree with the content of each length keeps every row describing its content |
| Convergence.QuietMeansSameFiles | src/peer_connection/mod.rs:319-340 | when nothing is pending, joined peers have identical directories, byte for byte, for files of any number of blocks, given one content per file and length, sends by peers that are current, and downloads over nothing longer |
| Divergence.StaleRelaySticksIff | src/peer_connection/mod.rs:160-181 | what a peer adopts from an index has the true blocks exactly when the sender was current, and a later index of no greater length does not change it |
| Divergence.FrozenStaysFrozen | src/peer_connection/handlers.rs:171-173 | once all histories agree in length and no download is pending, no task changes any peer, whatever their files hold |
| Divergence.FrozenComesToRest | src/peer_connection/handlers.rs:171-173 | and such a network comes to rest as it is |
| Divergence.StaleRelayDiverges | src/peer_connection/mod.rs:144-191 | a run with honest answers, from peers with true rows, in which a merge, a send before the download, and a delivery lead to rest with equal histories and different bytes |
| Interleaving.StepKeepsInv | src/bep_state_reference.rs:65-71 | every database call, from a copy of any age, keeps all histories genuine, a partly executed failing store included |
| Interleaving.ReachableIsGenuine | src/sync_directory.rs:95-112 | in every reachable state each history stored, copied or in flight is non-empty, counts its positions, has each entry from its author's own edit there, and no synced version is unlisted |
| Interleaving.LengthTestIsVersionTest | src/peer_connection/handlers.rs:171-173 | for such histories comparing lengths is comparing newest versions |
| Interleaving.HistoriesOnlyGrow | src/bep_state.rs:271-296 | over any run every stored history stays a prefix of what it becomes |
| Interleaving.SingleWriter | src/peer_connection/handlers.rs:179-201 | a file edited by one peer only has, everywhere and in flight, histories that are prefixes of that peer's |
| Interleaving.AdoptionIsExact | src/bep_state.rs:281-296 | with one writer, inserting the missing tail stores exactly the history adopted, however old the copy |
| HandlerSteps.MergeIterationIsStep | src/peer_connection/handlers.rs:162-237 | each iteration of the merge is one step of the interleaved network or none, whatever happened since its copy was read |
| HandlerSteps.ScanIterationIsStep | src/sync_directory.rs:64-120 | likewise each iteration of a scan, with any entry |
| HandlerSteps.HandledIsRun | src/peer_connection/handlers.rs:160-238 | the uninterrupted merge is one of the interleavings |
| HandlerSteps.ScannedIsRun | src/sync_directory.rs:56-132 | so is the uninterrupted scan |
| HandlerSteps.FetchIsRun | src/peer_connection/mod.rs:218-316 | fetching a file from a copy of any age is one mark for each block accepted |
| HandlerSteps.DownloadIsRun | src/peer_connection/mod.rs:319-340 | so the uninterrupted download, wherever it ends, is reading the rows and then marks only |
| HandlerSteps.ContentsUntoldIff | src/bep_state.rs:241-323 | an edit, an adopted entry or a mark always puts its hash and synced version in the row, adds nothing to the history exactly when that is as long as its own, and leaves its own history exactly when that extends the row's |
| HandlerSteps.EditRecordedIff | src/sync_directory.rs:95-100 | an edit gets its own version exactly when the row's history is no longer than the copy's; otherwise the row takes the new hash and keeps its history |
| HandlerSteps.AdoptOverwritesIff | src/peer_connection/handlers.rs:171-202 | a merge leaves the entry's hash and the copy's synced version; it does so under an unchanged history exactly when the row has grown to the entry's length since the copy was read, and leaves the entry's history exactly when it extends the row's |
| HandlerSteps.SyncedDropsIff | src/bep_state.rs:251-279 | over all steps, a row's synced version goes back exactly by a mark from a copy no longer than what was synced, an edit from a shorter one, or a merge from a copy synced to less |
| HandlerSteps.DropIsNoticed | src/bep_state.rs:261-279 | marks and edits that do so fail the assertion |
| HandlerSteps.MarkDropsSyncedIff | src/peer_connection/mod.rs:278-280 | a download's mark lowers the synced version exactly when its copy is no longer than what the row had synced, and then the assertion fails too late |
| HandlerSteps.SecondRowIff | src/sync_directory.rs:104-118 | a step gives a name a second row exactly when it enters the name as new although a row of it was stored since its copy was read |
| HandlerSteps.TwoScansTwoRows | src/sync_directory.rs:57-118 | two scans that both read their rows before the first stored the file do so, iteration by iteration and in a reachable state |
| HandlerSteps.StoryIsReached | src/peer_connection/handlers.rs:160-238 | every state of a run of two peers is reachable: a file is created and sent, learned of and read; then changed, sent, adopted and downloaded before that copy is used |
| HandlerSteps.StaleMarkHappens | src/bep_state.rs:261-279 | at its end the mark of the first content's download takes the synced version from 1 to 0 |
| HandlerSteps.StaleDownloadPanics | src/peer_connection/mod.rs:246-281 | `get_file` working from that copy, answered acceptably, does so and panics, leaving the row as the mark leaves it |
| HandlerSteps.LostEditHappens | src/sync_directory.rs:95-100 | there a scan working from that copy stores its hash and leaves the history as it was |
| HandlerSteps.EditIsOverridden | src/peer_connection/handlers.rs:160-202 | an edit recorded with its version and synced, between a merge's reading and storing, is left with the entry's hash and blocks and nothing synced, without an assertion |
| HandlerSteps.OverridingMerge | src/peer_connection/handlers.rs:169-202 | the iteration of the merge does just that |
| HandlerSteps.ScanThenMarkDrops | src/peer_connection/mod.rs:278-280 | an edit recorded while a download waits for its answer is enough for its mark to take the synced version from 1 to 0 |
| HandlerSteps.MergeDropsUnnoticed | src/peer_connection/handlers.rs:160-202 | a merge from rows read before a download was marked takes the synced version from 1 to 0, and no assertion fails |
| Luhn.SyncthingLuhn32 | src/device_id.rs:18-36 | the loop gives the letter that brings the weighted sum to a multiple of 32, or panics on a foreign character |
| Luhn.CheckBalances | src/device_id.rs:8-36 | a letter is the check letter exactly when its position in the alphabet, those of the letters at even places, and the doubled ones at odd places make a multiple of 32 |
| Luhn.PlainTextCheck | src/device_id.rs:18-36 | text of 'A' only, of any length, has check letter 'A' |
| Luhn.ChangeDetected | src/device_id.rs:8-36 | changing any one letter of a text of any length changes its check letter |
| Luhn.SwapDetectedIff | src/device_id.rs:18-36 | swapping neighbours changes it except for equal letters and for 'A' with '7' |
| Base32.DecodeEncode | src/device_id.rs:79-91 | every byte string decodes from its base32 encoding (sections 3.5 and 6 of RFC 4648) |
| Base32.EncodeDecode | src/device_id.rs:79-91 | every accepted text is the encoding of what it decodes to |
| Base32.EncodeIsNumber | src/device_id.rs:87-91 | by their positions in the alphabet the letters of an encoding are the bytes as one number, most significant first, shifted by the bits that fill the last letter |
| DeviceId.Luhnify | src/device_id.rs:38-48 | 52 letters become four groups with check letters; other lengths panic |
| DeviceId.Unluhnify | src/device_id.rs:50-60 | returns the letters of the four groups exactly when each carries its check letter |
| DeviceId.Chunkify | src/device_id.rs:62-73 | dashes after every seven characters but the last, a remainder dropped |
| DeviceId.ChunkedAt | src/device_id.rs:62-73 | dashes stand exactly at every eighth place, and the characters, in order, at the others |
| DeviceId.NothingButDashes | src/device_id.rs:75-77 | removing dashes removes them all and nothing else |
| DeviceId.UnluhnifyLuhnify | src/device_id.rs:38-60 | taking the check letters out undoes putting them in |
| DeviceId.LuhnifyUnluhnify | src/device_id.rs:38-60 | and text that passes is what putting them in gives |
| DeviceId.UnchunkChunk | src/device_id.rs:62-77 | removing the dashes undoes putting them in |
| DeviceId.ToString | src/device_id.rs:87-91 | encoding, check letters and dashes in turn give the printed id |
| DeviceId.FromString | src/device_id.rs:79-85 | removing dashes, checking letters and decoding in turn give the id, or panic |
| DeviceId.ParsePrint | src/device_id.rs:79-91 | every 32-byte id survives being printed and parsed |
| DeviceId.ParsedStartsWithId | src/device_id.rs:79-91 | accepted text starts with the 56 characters of the id it gives |
| DeviceId.PrintParseIff | src/device_id.rs:79-91 | printing reproduces accepted characters exactly when there are 56 |
| DeviceId.OneWrongCharacterIsRejected | src/device_id.rs:50-60 | text with the characters of an id but for one is never accepted, however it is dashed |
| DeviceId.SwapPassesIff | src/device_id.rs:50-60 | swapping neighbours in an id passes the check letters exactly for equal characters, 'A' with '7' inside a group, and the last letter of a group with its check letter |
| DeviceId.SwapAcceptedIff | src/device_id.rs:79-85 | an id with two neighbours swapped is accepted, however it is dashed, exactly when the check letters let it through and the last letter still ends in zero bits |
| DeviceId.NoticedSwapIsRejected | src/device_id.rs:50-85 | every other swap is rejected |
| Framing.EncodeForBep | src/peer_connection/items.rs:16-34 | appending lengths, header and body gives the frame of the message |
| Framing.FrameIs | src/peer_connection/items.rs:20-31 | the bytes of a frame for each type, header length, tag and type as numbers, then the body's length, most significant byte first, then the body |
| Framing.HelloFrameIs | src/peer_connection/items.rs:65-82 | a hello is 2E A7 D9 0B, two bytes of length and its body |
| Framing.HeaderReadBack | src/peer_connection/handlers.rs:288-302 | a header of protobuf fields 1 and 2, those that are zero left out, is decoded to its type and compression, their low 32 bits in two's complement |
| Framing.VarintReadBack | src/peer_connection/handlers.rs:291-291 | every number of 64 bits in a header is read back, and nothing after it is touched |
| Framing.VarintRefused | src/peer_connection/handlers.rs:291-291 | and every larger one is refused |
| Framing.UnknownFieldSkipped | src/peer_connection/handlers.rs:291-291 | other fields of a header, of every wire type but groups, are skipped |
| Framing.ReceiveHello | src/peer_connection/items.rs:86-103 | takes magic, length and body from the stream, or the error of the first that is wrong |
| Framing.HelloByPosition | src/peer_connection/items.rs:86-103 | what becomes of any bytes as a hello, by position: what is read, what is left, and the error of the first thing that is wrong |
| Framing.ReceiveMessage | src/peer_connection/items.rs:43-58 | takes length and body, inflates if told to, and decodes |
| Framing.BodyByPosition | src/peer_connection/items.rs:43-58 | the same for any bytes as a body |
| Framing.MessageByPosition | src/peer_connection/handlers.rs:270-386 | and as a message: length, header, compression and type, in that order |
| Framing.ReadCompressed | src/peer_connection/items.rs:53-57 | a frame whose header says LZ4, and whose bytes inflate to an encoding, is read as that message and nothing after it is touched |
| Framing.HandleReading | src/peer_connection/handlers.rs:265-391 | the reading loop hands on the messages of the stream in order until a close, a cancellation, a timeout or the first error |
| Framing.ReadFrame | src/peer_connection/items.rs:16-58 | a frame is read back as its message and nothing after it is touched |
| Framing.FrameLeaves | src/peer_connection/items.rs:28-29 | reading a frame takes its body's length modulo 2^32 and leaves the rest of it |
| Framing.FrameConsumedIff | src/peer_connection/items.rs:28-29 | reading a frame uses it up exactly when its body is shorter than 2^32 bytes |
| Framing.LongBodyIsMisread | src/peer_connection/items.rs:28-29 | of a body of 2^32 zero bytes the reader hears an empty message, and then cluster configurations nobody wrote |
| Framing.FramesArePrefixFree | src/peer_connection/items.rs:16-34 | no frame is a proper prefix of another |
| Framing.FramesInjective | src/peer_connection/items.rs:16-34 | different sequences of messages never have the same bytes |
| Framing.HeardIs | src/peer_connection/handlers.rs:270-282 | a message is heard exactly when no close comes before it and no wait up to it is in vain |
| Framing.ReadFrames | src/peer_connection/handlers.rs:265-391 | the reader hears exactly those messages of what was written, ends for the reason it should, and leaves the rest unread |
| Framing.ConnectionIsDecoded | src/peer_connection/handlers.rs:256-305 | from a hello and frames the reader gets that hello and those messages and uses up every byte |
| Connection.StepKeepsPlaces | src/peer_connection/mod.rs:359-392 | every step of submitters, reader, writer and drain moves listeners but neither copies nor loses one |
| Connection.ListenersAreConserved | src/peer_connection/handlers.rs:121-147 | over all runs each listener is in exactly one of table, queue, writer's hand, told and dropped, so none is told twice |
| Connection.EveryoneHeardInTheEnd | src/peer_connection/handlers.rs:543-549 | once the writer has ended and the table is empty each listener was told once or dropped once, and no caller still waits |
| Connection.AnswerIsFinal | src/peer_connection/mod.rs:388-391 | what a caller gets, a reply or the closed connection, never changes once it is there |
| Connection.ResponseIsAsReceived | src/peer_connection/handlers.rs:130-141 | what a caller is told of a response, id and bytes, is a response that came in after its listener was entered under that id to wait for one |
| Connection.ResponseIsDelivered | src/peer_connection/handlers.rs:130-141 | the first response under a listener's id is what its caller gets, id and bytes, whatever happens later, unless another took over the id, the table was drained, the caller left or the lock was poisoned |
| Connection.EnteredBeforeSent | src/peer_connection/mod.rs:369-379 | a request's listener is in the table before its message is in the queue |
| Connection.FinishedIsAnswered | src/peer_connection/handlers.rs:506-520 | the caller of a message that is finished, if it still waits, gets that it was sent |
| Connection.InHandIsClosed | src/peer_connection/handlers.rs:466-484 | the caller of the message in hand when the writer ends gets a closed connection |
| Connection.LostQueueIsClosed | src/peer_connection/handlers.rs:466-484 | so does the caller of every message queued when the receiver is lost |
| Connection.ReplacedIsClosed | src/peer_connection/mod.rs:369-377 | and a caller whose id another request takes over |
| Connection.RefusedIsClosed | src/peer_connection/mod.rs:379-391 | and one that submits after the writer has ended |
| Connection.AcceptedAsSubmitted | src/peer_connection/mod.rs:348-387 | messages are accepted byte for byte as submitted, in that order, none left out until the writer ends |
| Connection.QueueIsBounded | src/peer_connection/mod.rs:87-87 | at most 100 messages wait |
| Connection.QueueFills | src/peer_connection/mod.rs:87-87 | and any number up to 100 can |
| Connection.ResponsesFindTheirListener | src/peer_connection/handlers.rs:130-141 | a response reaches only a listener entered under its id to wait for a response |
| Connection.SentMeansWritten | src/peer_connection/handlers.rs:486-522 | when a listener is told its message was sent, hello, cluster configuration, every message accepted before and the message itself were written in that order |
| Delivery.SentIsHeard | src/peer_connection/handlers.rs:486-522 | and from those bytes, whatever follows them, the reader at the other end hears hello, configuration, and all those messages, unless one before asks to close or a wait is in vain |
| Connection.ClosingTellsTheQueue | src/peer_connection/handlers.rs:399-409 | when the writer ends by closing, everyone whose message is still queued and who still waits is told so, and the queue is empty |
| Connection.DrainingTellsTheTable | src/peer_connection/handlers.rs:543-549 | draining empties the table, in whatever order; it tells everyone exactly when all of them still wait, and panics otherwise |
| Connection.PoisonedIff | src/peer_connection/handlers.rs:130-141 | the lock of the table is poisoned exactly by sending under it to a listener of another kind or to one whose caller is gone |
| Connection.NeverPoisoned | src/peer_connection/handlers.rs:130-141 | so never while everyone in the table waits for a response and nobody stops waiting |
| Connection.PeerConnection.SubmitMessage | src/peer_connection/mod.rs:348-357 | the message joins the queue, or is dropped when the receiver is gone |
| Connection.PeerConnection.SubmitRequest | src/peer_connection/mod.rs:359-387 | the call, up to its wait, is a run of the steps entering and sending; it panics for no kind of response or a poisoned lock, and otherwise waits as a new listener |
| Connection.PeerConnection.Await | src/peer_connection/mod.rs:388-391 | the wait sees the reply told to that listener, the closed connection if it was dropped, or nothing yet |
| Connection.PeerConnection.HandleResponse | src/peer_connection/handlers.rs:121-147 | removes and tells the listener under the id; says whether it was told, there was none, or an assertion failed under the lock |
| Connection.PeerConnection.CloseReceiver | src/peer_connection/handlers.rs:399-409 | empties the queue, tells each of its listeners that the connection closed, and the writer ends |
| Connection.PeerConnection.HandleMessage | src/peer_connection/handlers.rs:508-522 | a round of the writer is taking the next message and finishing it, or failing in one of two ways |
| Connection.PeerConnection.DrainRequests | src/peer_connection/handlers.rs:543-549 | empties the table and tells everyone in it, in some order, up to the first caller that is gone, where it panics |

## Left out

- Several folders, sharing checks and unknown folders: one shared folder is modelled; each check is one branch.
- Subdirectories, deletions, permissions and modification times: the code does not synchronise them.
- The list of files `generate_index` returns: its database effects and its broadcast are modelled, the list is a copy of rows.
- SQL, the on-disk format and row ids: tables are sequences in insertion order and row ids count from 0.
- Panics are outcomes (`ok` false, `None`, `Asserted`, a failed read): what a panic does to other tasks is modelled for the lock of the request table only.
- Negative offsets and sizes in requests and blocks from other clients: they are errors of the fetch or the read here.
- Input/output errors other than a missing or short file; opening without permission.
- The 64-bit counter overflow in `generate_index` is a panic, as in a build with overflow checks.
- Convergence.QuietMeansSameFiles: leaves out runs with two different edits at one length of history, sends by peers that are not current, and downloads over longer files, because such runs do not converge (`Divergence.FrozenStaysFrozen`, `Divergence.StaleRelayDiverges`, `Convergence.FetchedIsTrueIff`).
- Interleaving: the connection between disk and database is left out at the granularity of the lock; hashes and blocks stored there are arbitrary.
- Protobuf bodies and LZ4: encoders and decoders are parameters, with a round trip as hypothesis. Headers are concrete, read and written, except that unknown fields of protobuf's group types, which are skipped, are refused here.
- When a wait of the reader times out or is cancelled is a parameter; TLS, certificates, peer verification and device discovery.
- That requests are drained on an ordinary shutdown is not claimed: it follows a wait for a task tracker that nothing in the repository closes. What draining does when it runs is proved.
- Why a caller stops waiting before it is told: that it can is a step of its own.
- Random request ids: a second request under a pending id throws the first listener out, and that is modelled.
- The daemon, the server loop, the file watcher, names, addresses and options.
- UTF-8 in device ids: text is a sequence of characters, not bytes; a character outside ASCII among the first 56 is rejected either way.
