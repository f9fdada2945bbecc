# Verified model of the attachment pipeline

This project models, in Dafny, the parts of the attachment tools that move and describe files, and proves what they
promise. The main results are stated over all inputs, all runs or all reachable states.

**Content pipeline.** `Chunks` has the 256 MB chunk geometry, `Scanner` the hashing loop over short reads, `Upload` the
parallel upload as a transition system (check, put, mark, count; tasks, faults, cancellation and cache expiry in any
order), `UploadLaws` what each answer decides and what is never sent again, `Uploader` the orchestrator's methods, each
recording the run of that system it performs, `Download` the offset writes and conflict handling, `DownloadRun` the
parallel download as a transition system, `Pipeline` scan, upload and download together, `RangeRead` the read-only
range read of the mounted file system, `Transfer` the statistics.

**Manifests.** `Manifest` has the v2025-12 entries and validation, `Codec` the canonical encoding with `$N/name`
references and its decoder, `CodecProofs` what survives a round trip, `Merge` the last-writer-wins merges, `Diff` the
comparison with a parent and the diff manifest.

**Paths.** `Paths` has lexical normalisation, containment and manifest paths, all against one meaning: a walk through
the directory tree in which `..` at the top stays there. `Symlinks` has the link checks, `Locations` the storage
profile, `Grouping` and `GroupingLaws` the grouping of asset paths under common roots.

**Agents and outputs.** `UploadAgent` is the on-premises agents' protocol as a transition system (at-least-once
delivery, any number of agents, crashes between any two actions), `AgentProcess` the processing and polling methods as
runs of it, `AgentSources` which local file is served and where it lies. `OutputKeys` formats and parses output
manifest keys, `OutputSelection` keeps the latest sessions, `OutputDiscovery` says what comes of a listing. `Wrappers`,
`Strings` and `Ordering` are shared.

Bytes are sequences, a content hash is an arbitrary function parameter, and where distinct contents must have distinct
hashes a lemma says so. Widths matter where the code relies on them: chunk offsets and range reads stay in `u64`, the
manifest total is taken modulo 2^64, and signed offsets are cast. A request to a service may fail at any time; an
orchestrator or agent that is `reliable` meets no failure, and then its methods promise success.

## Where the code and its promises part

Some natural promises do not hold of the code in full. Each of these is stated with its exact condition unless the
line says otherwise.

- A path that starts with `$` and contains `/` survives encoding only if its parent directory is listed, or its first
  component happens to be the name of the directory it would be read as (`Codec.ReferenceRoundTrip`).
- Fast comparison trusts size and time, so diff then merge may keep an old hash (`Diff.FastModeExactly`,
  `Diff.FastModeMisses`); hash mode never does. Neither mode looks at the executable bit
  (`Diff.ReconstructsFullyExactly`).
- A range read of a chunked file that ends in the last 256 MB before 2^64 wraps and returns the rest of the file
  (`RangeRead.ReadIsRange`). The model takes `u64` arithmetic as wrapping, as in a release build.
- Resolving a symlink target lexically is right exactly from directories that are themselves lexically normal
  (`Symlinks.ResolveRightExactly`, `Symlinks.ChecksRightExactly`).
- A containment root that normalises to nothing, such as `.`, contains every path (`Paths.WithinRootExactly`).
- The most specific location is documented, the longest string is taken (`Locations.MostSpecificExactly`), and with
  ties the hash map's order decides (`Locations.SameMatchExactly`).
- A location that is not spelled as a normal path, such as `/mnt/../srv`, holds nothing: a LOCAL one names no group, a
  SHARED one keeps nothing out (`GroupingLaws.UnderExactly`, `GroupingLaws.NoSharedMembers`).
- The total in an encoding is the recorded one, decoding counts again (`CodecProofs.TotalAgreesExactly`).
- The lenient validated grouping says nothing of inputs that are directories (`GroupingLaws.ClassifiedExactly`).
- Output paths are rewritten with `/` for every backslash, which POSIX names may contain (`GroupingLaws.OutputRoundTrip`).
- A copy made on conflict may take the name of another file of the same download (`DownloadRun.NeverClashesExactly`,
  `DownloadRun.CopyTakesTarget`).
- The agent is to serve its LOCAL locations. It accepts source paths that only begin like one, or that one begins
  with, or that climb out of one (`AgentSources.ServedFromOutsideExactly`, `AgentSources.RootsInsideExactly`), and the
  relative path may be rooted or climb (`AgentSources.FileInsideExactly`); so every regular file of the machine can be
  asked for (`AgentSources.ServesOnlyLocalExactly`).
- Requests may name their own prefix, and then a marker can be where another request's object goes, or be shared by
  requests that look for their objects in different places (`UploadAgent.SafetyExactly`, `UploadAgent.TruthExactly`).
- Symlinks are in manifests, but neither the walk nor the lookup of a comparison sees them: a link that is gone stays in
  the merge, a new or changed one is not recorded (`Diff.LinksReconstructedExactly`).
- A path that overshoots the top more often than its root gets a manifest path that climbs out of a destination
  (`Paths.StaysBelowExactly`).
- Groups with one root and one location name come in hash-map order (`GroupingLaws.ListingUniqueExactly`,
  `GroupingLaws.TiesExactly`, `GroupingLaws.NamesakesTie`).
- A message that is JSON but no object raises where other malformed messages are left in the queue
  (`AgentProcess.Agent.ProcessMessage`).

## Model

| member | source | states |
|---|---|---|
| `Chunks.GenerateChunks` | crates/storage/src/cas.rs:37-62 | Cutting a file by a growing offset gives chunk i at i times the chunk size, one (possibly empty) whole chunk when the size or chunk size is 0, and never leaves u64. |
| `Chunks.DivCeil` | crates/storage/src/cas.rs:72-77 | The chunk count is the least q with q chunks covering the file. |
| `Chunks.ChunkAt` | crates/storage/src/cas.rs:50-58 | A chunk of a non-empty file is non-empty, starts at its multiple and ends at the next one or at the end of the file. |
| `Chunks.ChunksAreContiguous` | crates/storage/src/cas.rs:37-62 | Chunks start at 0, follow each other without gap or overlap, end at the file size, and each has 1 to chunk-size bytes. |
| `Chunks.ChunkOfPosition` | crates/storage/src/cas.rs:37-62 | Every byte position lies in exactly one chunk, the one its quotient names. |
| `Chunks.SumLengthsTotal` | crates/storage/src/cas.rs:37-62 | Chunk lengths add up to the file size, for every size and chunk size. |
| `Chunks.CountsAgree` | crates/storage/src/cas.rs:72-77 | The uploader's count agrees with the scanner's and the validator's exactly on non-empty files. |
| `Chunks.ValidExactlyWhenUploadable` | crates/model/src/v2025_12.rs:282-306 | A chunk list passes validation if and only if the file needs chunking and the uploader would produce that many chunks. |
| `Chunks.ChunkHashesInjective` | crates/filesystem/src/scanner.rs:551-580 | Without hash collisions, equally long files with equal chunk lists are equal. |
| `Scanner.FileReader.Read` | crates/filesystem/src/scanner.rs:562-572 | A read yields the next bytes of the file, any number up to what was asked for, none only at the end. |
| `Scanner.HashChunk` | crates/filesystem/src/scanner.rs:557-578 | However short the reads, one turn hashes exactly the next chunk (or what is left of the file) and leaves the position behind it. |
| `Scanner.ComputeChunkHashes` | crates/filesystem/src/scanner.rs:541-583 | For every schedule of short reads and every actual file length the result is the hash of each recorded chunk range, cut at the end of the file. |
| `Scanner.ScanHashesAt` | crates/filesystem/src/scanner.rs:541-583 | Hash i of a scan is that of the i-th range of the recorded size, cut at the end of the file as it is. |
| `Scanner.ScanIsFaithful` | crates/filesystem/src/scanner.rs:541-583 | If the file has its recorded size, these are the hashes of its chunks. |
| `Scanner.ScanEntryDescribes` | crates/filesystem/src/scanner.rs:431-453 | A scanned entry has the file's size, time and bit; chunk hashes if and only if the content is longer than 256 MB, each that of its piece and together what the hashing loop returns; otherwise the hash of the whole. |
| `Scanner.ScanEntryIsValid` | crates/filesystem/src/scanner.rs:431-453 | Every entry built for a file passes validation, and without collisions no other content gives the same entry. |
| `RangeRead.ReadSingleHash` | crates/vfs-fskit/src/fskit.rs:259-266 | As many of the asked bytes as the object has from the offset on, each byte the object's own at its position; EIO exactly when the object is missing. |
| `RangeRead.ReadPiece` | crates/vfs-fskit/src/fskit.rs:286-296 | One turn of the loop yields the part of the range inside chunk i; only in the last chunk before 2^64 does a step wrap, and then it yields the rest of that chunk. |
| `RangeRead.ReadChunked` | crates/vfs-fskit/src/fskit.rs:269-300 | For every range whose end fits u64 the result is the slice of the concatenated chunks, run on to the end of the file exactly when the range ends in the last chunk before 2^64; EIO if and only if a chunk the range touches is missing. |
| `RangeRead.Read` | crates/vfs-fskit/src/fskit.rs:880-905 | For every signed offset and length and every file size the read returns the range cut at the end of the file, except where a range of a chunked file ends in the last chunk before 2^64; EIO if and only if an object the range touches is missing. |
| `RangeRead.CastReads` | crates/vfs-fskit/src/fskit.rs:893-899 | A non-negative offset or length is taken as it is, a negative one counts down from 2^64. |
| `RangeRead.ReadIsRange` | crates/vfs-fskit/src/fskit.rs:286-296 | A read is the asked slice if and only if it starts past the end, reads one object, reaches the end of the file, or ends before the last chunk that u64 can hold. |
| `RangeRead.SmallFilesReadRight` | crates/vfs-fskit/src/fskit.rs:880-905 | Every read of a file of at most 2^64 - 2^28 bytes is the asked slice. |
| `RangeRead.AdjacentReads` | crates/vfs-fskit/src/fskit.rs:880-905 | What two adjacent reads return concatenates to what the larger read returns, if and only if the first ends at the end of the file, reads one object, or ends before the last chunk that u64 can hold. |
| `RangeRead.EmptyReads` | crates/vfs-fskit/src/fskit.rs:893-900 | A read returns nothing exactly at or past the end, or when nothing is asked for outside the last chunk that u64 can hold. |
| `Upload.EntryBytesIsSize` | crates/storage/src/upload.rs:462-493 | The objects of an entry never exceed its size, and add up to it if and only if it has a hash, at least as many chunk hashes as chunks, or no bytes. |
| `Upload.AllBytesIsSizeSum` | crates/storage/src/upload.rs:443-494 | Over a whole upload the objects never exceed the sum of the entry sizes, and add up to it if and only if they cover every entry. |
| `Upload.AccountingKept` | crates/storage/src/upload.rs:263-291 | Every step of any task keeps: each task has counted exactly the objects behind it, and the shared counters equal the finished tasks. |
| `Upload.BytesConserved` | crates/storage/src/upload.rs:222-291 | In every run the byte counter never exceeds the sum of the entry sizes; when all tasks succeed counter and merged transferred plus skipped bytes are equal, and they are that sum if and only if the objects cover every entry. |
| `Upload.TransferredMeansPut` | crates/storage/src/upload.rs:443-494 | In every run a finished task reports as transferred exactly the objects and bytes it put into the store, and as skipped exactly the rest. |
| `Upload.MergedMeansPut` | crates/storage/src/upload.rs:281-291 | A successful run's merged statistics count one file per entry, and as transferred what all tasks put. |
| `Upload.SafetyKept` | crates/storage/src/upload.rs:303-334 | Every step keeps: the check cache names only correct objects, found objects can be trusted, and each task's objects behind it are stored correctly. |
| `Upload.UploadSafety` | crates/storage/src/upload.rs:208-292 | For every schedule, fault, cancellation and cache expiry: the cache is a subset of the correct keys, and success leaves every referenced hash in the store with its content. |
| `Upload.RunOutcome` | crates/storage/src/upload.rs:281-291 | What a successful run delivers: every byte accounted for once and, from a sound start, every object held. |
| `Upload.UploadedFileHeld` | crates/storage/src/upload.rs:443-494 | After a successful run the store holds every chunk of a properly chunked local file. |
| `Upload.StepsRunOut` | crates/storage/src/upload.rs:232-279 | Every step decreases the remaining work, or leaves it and shrinks the cache: no schedule runs for ever. |
| `Upload.NeverStuck` | crates/storage/src/upload.rs:232-279 | Until it is done or failed, every single task can take a step. |
| `UploadLaws.StartDecides` | crates/storage/src/upload.rs:239-262 | A task starts only while the upload is not told to stop, and only with a hash, or a chunked file that is there. |
| `UploadLaws.StartSucceeds` | crates/storage/src/upload.rs:239-262 | Unless a request fails, a task fails to start exactly when told to stop or with nothing to send. |
| `UploadLaws.CheckDecides` | crates/storage/src/upload.rs:310-315 | The check cache decides the first step: a key it has is skipped, with its size counted as skipped; any other is asked for. |
| `UploadLaws.AskDecides` | crates/storage/src/upload.rs:317-333 | The store's answer decides the next: an object is sent if and only if none is there under its key with its size. |
| `UploadLaws.PutStores` | crates/storage/src/upload.rs:413-439 | A put stores the file, or the chunk's range of it, under the key, and nothing else. |
| `UploadLaws.MarkRecords` | crates/storage/src/upload.rs:324-328 | What was found or put is recorded in the check cache. |
| `UploadLaws.PutMeansMissing` | crates/storage/src/upload.rs:400-440 | In every run, before an object is sent the store was asked for it and did not have it with its size. |
| `UploadLaws.HeldIsNeverSent` | crates/storage/src/upload.rs:303-334 | Whatever the schedule, faults and cache: an object the store has at the start is never sent, for a manifest that is true of the files and without collisions. |
| `UploadLaws.SecondUploadSendsNothing` | crates/storage/src/upload.rs:409-411 | Uploading what is all there: a successful run, in any schedule, leaves the store alone, transfers no file and no byte, and reports all bytes as skipped. |
| `Uploader.UploadOrchestrator.constructor` | crates/storage/src/upload.rs:113-135 | A new orchestrator is in an initial state of the transition system. |
| `Uploader.UploadOrchestrator.CasObjectExists` | crates/storage/src/upload.rs:303-334 | True exactly if the check cache has the key, or the store an object of that key and size, and then it is recorded; performs the check steps of one task and moves nothing else. |
| `Uploader.UploadOrchestrator.PutObject` | crates/storage/src/upload.rs:413-439 | The file or its range is stored under the key and recorded, or the task failed and nothing changed; performs the put and mark steps of one task. |
| `Uploader.UploadOrchestrator.UploadSingleFile` | crates/storage/src/upload.rs:400-440 | Brings its task from the first check to the finish with the statistics it returns, or to failure. |
| `Uploader.UploadOrchestrator.UploadChunkedFile` | crates/storage/src/upload.rs:443-494 | The chunk loop brings its task through all objects with the statistics it returns, or to failure. |
| `Uploader.UploadOrchestrator.UploadEntry` | crates/storage/src/upload.rs:239-275 | One parallel task from start to end: Ok exactly moves the task to done with the returned statistics. |
| `Uploader.UploadOrchestrator.UploadFiles` | crates/storage/src/upload.rs:208-292 | Records a run of the transition system; Ok if and only if all tasks succeeded, then the result is the merged statistics, its bytes equal the total, from a sound start every object is held, and from a store that has all objects nothing is sent. |
| `Download.WriteChunksOverlay` | crates/storage-crt/src/transfer_manager.rs:415-487 | Writing the first n chunks at their offsets without truncation leaves that much of the content, then the old tail. |
| `Download.WriteAtBytes` | crates/storage-crt/src/transfer_manager.rs:415-487 | An offset write, byte by byte: the data at its place, zeros in a gap, the rest as it was. |
| `Download.LocalPathSplits` | crates/storage/src/download.rs:694-699 | Stem and extension make up the name; the extension is empty or a dot and what follows the last one. |
| `Download.CopyPathNames` | crates/storage/src/download.rs:693-719 | A copy stays in the directory and keeps the extension; it is not the file itself and no other copy. |
| `Download.CopyName` | crates/storage/src/download.rs:693-719 | The name of copy k, spelled out for names with and without a dot. |
| `Download.ReassembledExactly` | crates/storage/src/download.rs:454-487 | All chunks over any pre-existing file give the content followed by whatever the old file had beyond it. |
| `Download.SizeCheckExcludesStaleTail` | crates/storage/src/download.rs:611-628 | The size check passes exactly when the file is the content, that is when the old file was not longer. |
| `Download.PutChunksHold` | crates/storage/src/upload.rs:462-490 | Storing each chunk under its hash keeps every chunk retrievable, without collisions. |
| `Download.EndToEnd` | crates/filesystem/src/scanner.rs:541-583 | Scan, upload by ranges, download by offsets: the original bytes plus the old tail, and the original bytes if and only if the size check passes. |
| `Download.Downloader.constructor` | crates/storage/src/download.rs:131-143 | Starts from the given store, local files and options. |
| `Download.Downloader.GetObjectToFile` | crates/storage-crt/src/transfer_manager.rs:352-412 | The file becomes the object; no other file changes. |
| `Download.Downloader.GetObjectToFileOffset` | crates/storage-crt/src/transfer_manager.rs:415-487 | The object is written over the file at the offset, the rest of the file and all others stay. |
| `Download.Downloader.DownloadChunkedFile` | crates/storage/src/download.rs:454-487 | Ok if and only if the zipped objects exist; then the file is the reassembly over the prior file and the statistics count the chunk lengths. |
| `Download.Downloader.GenerateUniqueCopyPath` | crates/storage/src/download.rs:693-719 | The first free of ten thousand candidates, an error exactly when none is free. |
| `Download.Downloader.DownloadOne` | crates/storage/src/download.rs:380-428 | Conflict rules: only the chosen path changes, skipping changes nothing, a copy takes a free name. Succeeds if and only if a copy finds a name, every object is stored, and the size check passes if it is on; then the file is the reassembly, with the size check byte for byte the stored content. |
| `DownloadRun.InvKept` | crates/storage/src/download.rs:245-336 | Every step of any task keeps: each file being written is its first n objects over some earlier content, finished files have the checked size, unchosen paths are unchanged. |
| `DownloadRun.DownloadSafety` | crates/storage/src/download.rs:245-336 | In every interleaving from files on which no two entries would choose the same path, a task that passed the size check left exactly its content, and paths no task chose are as they were. |
| `DownloadRun.NeverClashesExactly` | crates/storage/src/download.rs:391-404 | No interleaving lets two tasks have the same path if and only if no two entries would choose the same path on the files at the start. |
| `DownloadRun.DistinctFromStart` | crates/storage/src/download.rs:245-336 | If the choices differ on the files at the start, the chosen paths differ in every reachable state, although the files change under later choices. |
| `DownloadRun.OwnTargets` | crates/storage/src/download.rs:391-404 | Unless copies are made, a task only ever writes its own target. |
| `DownloadRun.DistinctWithoutCopies` | crates/storage/src/download.rs:391-404 | The condition by conflict mode: when overwriting, that the targets differ; when skipping, that the targets that do not exist yet do. |
| `DownloadRun.CopyTakesTarget` | crates/storage/src/download.rs:391-404 | Whenever the first free copy name of one entry is another entry's target, some interleaving writes both to it. |
| `DownloadRun.ExistingKept` | crates/storage/src/download.rs:391-404 | Unless files are to be overwritten, no run touches a file that was there at the start, whatever skips, copies or fails. |
| `DownloadRun.SkipDecides` | crates/storage/src/download.rs:391-404 | An entry is skipped exactly where skipping is asked for and its target is there; without a conflict, and when overwriting, a task writes its own target. |
| `DownloadRun.AccountingKept` | crates/storage/src/download.rs:311-322 | Every step of any task keeps the shared byte and file counters equal to the merged statistics of the finished tasks. |
| `DownloadRun.TransferredIsSize` | crates/storage/src/download.rs:454-487 | A download never reports more bytes than the entry's size, and reports its size if and only if the entry has a hash, enough chunk hashes, or no bytes. |
| `DownloadRun.BytesConserved` | crates/storage/src/download.rs:276-336 | In every run the counters never exceed the sum of the entry sizes and the number of entries; the count reaches that number if and only if all tasks succeeded, and then the bytes are that sum if and only if the objects cover every downloaded entry. |
| `DownloadRun.StepsRunOut` | crates/storage/src/download.rs:276-336 | Every step decreases the remaining work: no schedule runs for ever. |
| `DownloadRun.AdvancesExactly` | crates/storage/src/download.rs:287-313 | A task can go on if and only if it is not told to stop before it starts, finds a free name for a copy, its next object is there and its entry has objects at all. |
| `Pipeline.UploadHolds` | crates/storage/src/upload.rs:208-292 | After a successful upload the store holds each entry's local file in full. |
| `Pipeline.UploadThenDownload` | crates/storage/src/download.rs:245-336 | Upload under any schedule, then download under any other: if no two entries would choose the same path at the start, a file whose download passed the size check is the uploaded file, byte for byte. |
| `Pipeline.EntriesOfScan` | crates/storage/src/upload.rs:337-369 | Every scanned file is uploaded and downloaded, with the hashes and size it was scanned with. |
| `Pipeline.ScannedIsFaithful` | crates/filesystem/src/scanner.rs:431-453 | The entries scanned from files that have not changed since are true of those files, and properly chunked. |
| `Pipeline.ScanUploadDownload` | crates/storage/src/download.rs:245-336 | Scan, upload under any schedule, download under any other: a file whose download passed the size check is the scanned file, byte for byte. |
| `Manifest.SpecStringRoundTrip` | crates/model/src/version.rs:86-120 | Each specification version is recovered from its string. |
| `Manifest.SumSizesOrderFree` | crates/model/src/v2025_12.rs:400-404 | The counted total depends only on which entries there are. |
| `Manifest.SumSizesAdds` | crates/model/src/v2025_12.rs:400-404 | A live file adds its size to the total; deletions, links and files of unknown size add nothing. |
| `Manifest.LinkValidExactly` | crates/model/src/v2025_12.rs:307-344 | A link entry validates if and only if its target is not absolute in any known notation and, at the top level, does not begin by climbing. |
| `Manifest.EntryValidExactly` | crates/model/src/v2025_12.rs:236-306 | A deletion validates if and only if it has nothing but its path; a file if it has size, time, one kind of hash (or none where allowed), and a chunked one the right number of hashes. |
| `Manifest.ValidExactly` | crates/model/src/v2025_12.rs:451-470 | A manifest validates if and only if its entries do, a snapshot deletes nothing, and a diff names its parent. |
| `Codec.EncodeFileEntry` | crates/model/src/encode.rs:98-130 | Setting the fields one at a time yields the entry the specification describes. |
| `Codec.DropRepeats` | crates/model/src/encode.rs:25-30 | The seen-map loop keeps exactly the first of each run of equal paths. |
| `Codec.EncodeV2025` | crates/model/src/encode.rs:17-82 | Sorting, dropping repeats and encoding against the index yields the specified value tree. |
| `Codec.BuildDirIndex` | crates/model/src/decode.rs:94-109 | The index that grows while being read equals the recursive expansion, with the first error it meets. |
| `Codec.Utf16Injective` | crates/model/src/encode.rs:52-58 | Distinct paths have distinct UTF-16 sort keys, so the file order is total. |
| `Codec.Utf16CharReads` | crates/model/src/encode.rs:52-58 | The units of a character read back as that character: one unit, or a surrogate pair. |
| `Codec.UniqueDirsStrict` | crates/model/src/encode.rs:22-30 | The listed directories are strictly sorted, come from the input, and cover every input path. |
| `Codec.DirIndexLookup` | crates/model/src/encode.rs:33-37 | The index maps exactly the listed paths to their positions. |
| `Codec.ReferenceRoundTrip` | crates/model/src/encode.rs:85-95 | Encoding a path and expanding it gives it back if and only if it does not look like a reference, has its parent listed, or names itself. |
| `Codec.EncodePathShortens` | crates/model/src/encode.rs:85-95 | A path is shortened exactly when its parent is listed, to the parent's position and its own name. |
| `Codec.ExpandExactly` | crates/model/src/decode.rs:112-132 | What a path in an encoding stands for, for every string: itself, or for `$k/name` the name in the k-th directory; each error exactly. |
| `Codec.BuildIndexExactly` | crates/model/src/decode.rs:94-109 | The index is a given list if and only if each entry expands to its element from those before. |
| `Codec.DecodeFileExactly` | crates/model/src/decode.rs:157-212 | A file entry of any input decodes if and only if it has a path and path and target expand; what is missing or of another type reads as absent. |
| `Codec.DecodeExactly` | crates/model/src/decode.rs:40-91 | A value of a given version decodes if and only if the version is known, it has both arrays, its directories expand one from another and its files from them. |
| `Codec.ExpandMonotone` | crates/model/src/decode.rs:112-132 | Growing the index never changes an expansion that succeeded. |
| `Codec.FullIndexAgrees` | crates/model/src/decode.rs:62-69 | For any input on which the index can be built, decoding a directory against the full index gives the path at its position. |
| `CodecProofs.FileRoundTrip` | crates/model/src/decode.rs:157-212 | A file entry decodes to itself if and only if its paths are expressible, it has at most one content field, and a link or deletion carries no metadata. |
| `CodecProofs.EncodedHeader` | crates/model/src/encode.rs:61-82 | The encoding carries the recorded total, the hash algorithm, the version and, on a diff, the parent's hash, and no other field beside the two lists. |
| `CodecProofs.EncodedFields` | crates/model/src/encode.rs:98-130 | Which fields an encoded file has: flags only when set, metadata only if it is no deletion or link. |
| `CodecProofs.EncodedDirFields` | crates/model/src/encode.rs:40-50 | An encoded directory has its path, and a deletion mark exactly when deleted. |
| `CodecProofs.EncodedOrder` | crates/model/src/encode.rs:22-58 | The encoded files are the manifest's in ascending order of UTF-16 units, the directories its distinct ones in ascending order of code points. |
| `CodecProofs.TotalAgreesExactly` | crates/model/src/encode.rs:72 | The total in an encoding is that of the manifest decoded from it if and only if it was the total of the files. |
| `CodecProofs.ReferencesPointBack` | crates/model/src/encode.rs:40-50 | Every reference in the encoded directories points to an earlier entry, its parent. |
| `CodecProofs.EarlierEntriesSuffice` | crates/model/src/decode.rs:97-106 | An expressible directory expands correctly from the entries before it. |
| `CodecProofs.BuildIndexRoundTrip` | crates/model/src/decode.rs:94-109 | The decoder's index equals the encoder's list if and only if every directory path is expressible. |
| `CodecProofs.DirsRoundTrip` | crates/model/src/decode.rs:65-68 | The decoded directories are the encoded ones if and only if the index is right. |
| `CodecProofs.RoundTrip` | crates/model/src/encode.rs:17-130 | For every manifest: decoding its encoding gives its canonical form if and only if it survives (expressible paths, clean entries, true total, parent hash only on diffs). |
| `CodecProofs.ValidManifestRoundTrip` | crates/model/src/v2025_12.rs:451-470 | For a validated manifest it suffices that dollar paths have listed parents, links carry no metadata and a snapshot no parent hash. |
| `CodecProofs.DollarPathFails` | crates/model/src/encode.rs:85-95 | A valid-looking file path that starts with a dollar reference and has no listed parent does not survive. |
| `CodecProofs.EncodeOrderFree` | crates/model/src/encode.rs:22-58 | For distinct paths the encoding ignores the order of directories and files. |
| `CodecProofs.EncodeCanonical` | crates/model/src/encode.rs:22-58 | A manifest and its canonical form encode alike. |
| `CodecProofs.ReencodeStable` | crates/model/src/encode.rs:17-82 | Re-encoding what was decoded reproduces the encoding. |
| `Merge.LastWinsSource` | crates/model/src/merge.rs:134-143 | Every value of the filled map is the last entry with its path. |
| `Merge.LastWinsTarget` | crates/model/src/merge.rs:134-143 | The last entry with a path is the value there. |
| `Merge.LastWinsSplit` | crates/model/src/merge.rs:134-143 | Filling from two lists is filling from the first, overridden by the second. |
| `Merge.IntoValues` | crates/model/src/merge.rs:145-146 | The values come out once each, in some order. |
| `Merge.InsertAll` | crates/model/src/merge.rs:136-141 | Inserting one manifest's entries extends last-writer-wins over the list so far. |
| `Merge.MergeV2025` | crates/model/src/merge.rs:127-154 | Directories and files are last-writer-wins over the list, with the first specification version, a fresh total and no parent hash. |
| `Merge.MergeV2023` | crates/model/src/merge.rs:111-124 | Paths are last-writer-wins over the list. |
| `Merge.MergeManifests` | crates/model/src/merge.rs:44-78 | Nothing for an empty list, the manifest itself for one, an error exactly on mixed versions, else the merge. |
| `Merge.MergeChronologically` | crates/model/src/merge.rs:93-108 | The merge in timestamp order, ties in input order. |
| `Merge.MergeLookup` | crates/model/src/merge.rs:44-78 | Looking up the result is looking up the whole list. |
| `Merge.MergeInPieces` | crates/model/src/merge.rs:44-78 | Merging in pieces fails exactly when merging at once does, and looks up the same. |
| `Merge.LatestWins` | crates/model/src/merge.rs:93-108 | A merged entry, be it a directory, a file or a path of the older format, comes from a manifest with the latest timestamp among those that hold the path. |
| `Merge.LatestEntry` | crates/model/src/merge.rs:93-108 | The same of any part of the manifests: in chronological order the last writer is a latest holder. |
| `Merge.ChronologicalOrderFree` | crates/model/src/merge.rs:93-108 | With distinct timestamps the input order does not matter. |
| `Ordering.FirstDifference` | crates/model/src/encode.rs:52-58 | The comparison behind every sort: the first difference decides, the smaller unit first. |
| `Diff.BuildManifestLookup` | crates/filesystem/src/diff.rs:430-482 | The loop collects, last one winning, the live regular files with size and time that pass the filter. |
| `Diff.OldParentView` | crates/filesystem/src/diff.rs:440-451 | Of a parent of the older format the comparison sees every path within the filter, the last of equals, and no directories. |
| `Diff.NoticedExactly` | crates/filesystem/src/diff.rs:499-534 | A difference is noticed exactly when the size differs, or in fast mode the time by more than a microsecond, or in hash mode the hash. |
| `Diff.Categorise` | crates/filesystem/src/diff.rs:197-258 | Added, modified, unchanged and deleted partition the paths of both sides, each listed once; directories compare as sets. |
| `Diff.DiffDirectory` | crates/filesystem/src/diff.rs:156-297 | Looking the parent up, then comparing: every live file of the filtered parent and every file on disk is in exactly one category. |
| `Diff.HashChanged` | crates/filesystem/src/diff.rs:320-344 | Fails exactly when a changed file is gone, otherwise describes each one afresh. |
| `Diff.MarkDeleted` | crates/filesystem/src/diff.rs:347-349 | One deletion marker per deleted path. |
| `Diff.MarkDirs` | crates/filesystem/src/diff.rs:354-360 | One directory entry per path with the given marker. |
| `Diff.CreateDiffManifest` | crates/filesystem/src/diff.rs:305-368 | Fails exactly when a changed file is gone, and names it; otherwise the diff manifest: relative, a diff, with the hash of the parent's bytes. |
| `Diff.DiffSays` | crates/filesystem/src/diff.rs:305-368 | The diff manifest names its parent, has the total of its files and one entry per reported path. |
| `Diff.DiffIsValid` | crates/filesystem/src/diff.rs:305-368 | It passes validation, even where every entry must have a hash. |
| `Diff.DiffIsDistinct` | crates/filesystem/src/diff.rs:317-349 | It lists no file twice when it comes from a comparison. |
| `Diff.ParentView` | crates/filesystem/src/diff.rs:452-477 | For a valid parent with distinct paths the comparison sees exactly its live files within the filter. |
| `Diff.MergedFileAt` | crates/filesystem/src/diff.rs:305-368 | File by file: the merge has the directory's files within the filter, changed ones described afresh, unchanged ones as in the parent, and the parent outside the filter. |
| `Diff.MergedDirAt` | crates/filesystem/src/diff.rs:351-360 | Directory by directory: live exactly if it is in the directory, the parent outside the filter. |
| `Diff.LinksOfMerge` | crates/filesystem/src/diff.rs:452-456 | A merge has exactly the parent's links, except where the directory now has a regular file. |
| `Diff.LinksReconstructedExactly` | crates/filesystem/src/diff.rs:408-422 | The merge has the directory's links with their targets if and only if these are the parent's links, other than those a regular file has replaced. |
| `Diff.DiffThenMerge` | crates/filesystem/src/diff.rs:305-368 | Diff then merge reconstructs the directory (live files with true sizes and hashes, live directories) if and only if every file that both sides have, and the comparison finds no difference in, still has the content the parent recorded. |
| `Diff.MergedByNotice` | crates/filesystem/src/diff.rs:305-368 | File by file, for every path in the filter: the merge has the parent's entry where the comparison finds no difference, else the file described afresh. |
| `Diff.UntouchedAt` | crates/filesystem/src/diff.rs:198-235 | A file is reported unchanged exactly when both sides have it and the comparison finds no difference. |
| `Diff.UnnoticedExactly` | crates/filesystem/src/diff.rs:499-534 | When no difference is noticed in a live file of both sides, in each mode. |
| `Diff.HashModeReconstructs` | crates/filesystem/src/diff.rs:514-534 | In hash mode diff then merge always reconstructs the directory, if no content hashes to the empty string. |
| `Diff.FastModeExactly` | crates/filesystem/src/diff.rs:499-509 | In fast mode it does if and only if every live parent file that is on disk with its size and within a microsecond of its time still has the recorded content. |
| `Diff.ReconstructsFullyExactly` | crates/filesystem/src/diff.rs:499-534 | In either mode the merge also has every time and executable bit if and only if the files without a noticed difference have the recorded ones; neither mode looks at the bit. |
| `Diff.FastModeMisses` | crates/filesystem/src/diff.rs:499-509 | In fast mode a file rewritten with the same size within a microsecond of its recorded time keeps its old hash. |
| `Diff.OldParentRefused` | crates/model/src/merge.rs:58-71 | Merging a diff over a parent of the older format is refused. |
| `Paths.LexicalNormalize` | crates/common/src/path_utils.rs:40-64 | The push-and-pop loop computes the fold the laws are about. |
| `Paths.NormalizeKeepsMeaning` | crates/common/src/path_utils.rs:40-64 | From every start directory the normalised path leads to the same place and overshoots the top as often. |
| `Paths.NormalizeIsCanonical` | crates/common/src/path_utils.rs:40-64 | The result is determined by the walk alone: root, as many `..` as the walk from the top overshoots, then the place it reaches. |
| `Paths.NormalizedExactly` | crates/common/src/path_utils.rs:40-64 | Results are in normal form (root, `..`s, names), normalising is idempotent, and exactly the normal forms are left alone. |
| `Paths.NormalizeFullyAbstract` | crates/common/src/path_utils.rs:40-64 | Two paths normalise alike if and only if they mean the same from every directory. |
| `Paths.RelativePathsByWalk` | crates/common/src/path_utils.rs:40-64 | For relative paths the places they lead to decide it. |
| `Paths.AbsolutePathsNotByWalk` | crates/common/src/path_utils.rs:40-64 | For absolute paths they do not: the root and its parent lead to the same place but stay different. |
| `Paths.WithinRootExactly` | crates/common/src/path_utils.rs:148-152 | The exact containment condition in terms of walks and overshoots, including roots that normalise to nothing. |
| `Paths.WithinAbsoluteRoot` | crates/common/src/path_utils.rs:148-152 | A path accepted under an absolute root leads below it, from every directory. |
| `Paths.FromPosixPath` | crates/common/src/path_utils.rs:125-136 | The loop pushes the non-empty parts onto the destination. |
| `Paths.PosixRoundTrip` | crates/common/src/path_utils.rs:110-136 | A path below the root, written as a string and put under any destination, is that path there. |
| `Paths.PushAllAppends` | crates/common/src/path_utils.rs:125-136 | No manifest path, not even one with a leading slash, replaces the destination. |
| `Paths.ParseWellFormed` | crates/common/src/path_utils.rs:110-115 | Whatever the string, its components have the root and `.` only in front. |
| `Paths.ParsePosixPath` | crates/common/src/path_utils.rs:110-115 | A path written as a POSIX string reads back as itself. |
| `Paths.ManifestPathRoundTrip` | crates/common/src/path_utils.rs:83-99 | A manifest path exists if and only if the path is within the root, and put back under the root it is the normalised path. |
| `Paths.ToAbsoluteLeads` | crates/common/src/path_utils.rs:17-29 | Made absolute, a path leads where it leads from the current directory; an absolute one is left alone; only a relative one needs that directory. |
| `Paths.ManifestPathInjective` | crates/common/src/path_utils.rs:83-99 | Two paths share a manifest path if and only if they lead to the same place with the same overshoot. |
| `Paths.ManifestPathRelocates` | crates/common/src/path_utils.rs:125-136 | Under another destination a manifest path leads to the same place below it, if it overshoots no more than its root. |
| `Paths.StaysBelowExactly` | crates/common/src/path_utils.rs:125-136 | A manifest path leads to or below every destination if and only if the path overshot the top as often as its root. |
| `Symlinks.LexicalResolve` | crates/filesystem/src/symlink.rs:188-207 | The pop-and-push loop computes the fold the laws are about. |
| `Symlinks.ResolveWalks` | crates/filesystem/src/symlink.rs:188-207 | From a lexically normal absolute directory, resolving finds where any relative target leads. |
| `Symlinks.ResolveMisses` | crates/filesystem/src/symlink.rs:188-207 | If a name of the directory is followed by `..`, some target is resolved to a strictly deeper place than it leads to. |
| `Symlinks.ResolveRightExactly` | crates/filesystem/src/symlink.rs:188-207 | Resolving is right for all relative targets if and only if the directory is lexically normal. |
| `Symlinks.ValidateSymlink` | crates/filesystem/src/symlink.rs:120-176 | Each refusal exactly under its condition, in the order of the checks; otherwise the target and where it resolves. |
| `Symlinks.LooksAbsoluteExactly` | crates/filesystem/src/symlink.rs:127-149 | A target counts as absolute exactly if it begins with a slash or two backslashes, or has a colon in second place. |
| `Symlinks.AcceptedExactly` | crates/filesystem/src/symlink.rs:153-169 | In a directory written without `..`, a relative target passes if and only if the place it leads to is below the root. |
| `Symlinks.ChecksRightExactly` | crates/filesystem/src/symlink.rs:153-169 | The check admits only targets that lead below the root, for all targets and roots, if and only if the directory is lexically normal. |
| `Locations.LocationNamed` | crates/profiles/src/types.rs:50-56 | The last location of a path and kind gives it its name. |
| `Locations.LocationListed` | crates/profiles/src/types.rs:50-56 | Every listed path has such a location. |
| `Locations.LongestIsMaximal` | crates/profiles/src/grouping.rs:321-325 | The match is a location that contains the path, and no containing location has a longer string; none exactly when none contains it. |
| `Locations.LongestIsMostSpecific` | crates/profiles/src/types.rs:88-95 | If every location has a longer string than the locations above it, the longest match lies at or below every location that holds the path, in whatever order the hash map is visited. |
| `Locations.MostSpecificExactly` | crates/profiles/src/grouping.rs:321-325 | The longest match is the most specific one for all paths and visiting orders if and only if every location is outweighed, in bytes, by some string for each location below it. |
| `Locations.SameMatchExactly` | crates/profiles/src/grouping.rs:321-325 | The match never depends on the visiting order if and only if wherever two strings for one path tie, a longer one covers the same paths. |
| `Locations.CanonicalSuffices` | crates/profiles/src/types.rs:88-95 | Locations written without redundant separators or dots meet both conditions. |
| `Locations.LongestNotMostSpecific` | crates/profiles/src/types.rs:88-95 | Written with redundant slashes, a shallower location does win. |
| `Grouping.RootNamed` | crates/profiles/src/grouping.rs:316-353 | A group has a location name exactly when its key is a location. |
| `Grouping.InsertPaths` | crates/profiles/src/grouping.rs:115-170 | One loop extends the grouping by exactly the normalised paths that are not under a SHARED location. |
| `Grouping.Matching` | crates/profiles/src/grouping.rs:371-378 | The count is the longest prefix of one path that is a prefix of the other. |
| `Grouping.CommonPath` | crates/profiles/src/grouping.rs:356-401 | One path is its own common path; several have their longest common prefix, or its parent if it is a file, or nothing. |
| `Grouping.RootGroup` | crates/profiles/src/grouping.rs:173-193 | The group gets the root its members' longest common prefix calls for. |
| `Grouping.GroupAssetPaths` | crates/profiles/src/grouping.rs:99-203 | Groups hold exactly the assets with their key, have the root their members call for, and are listed sorted by root and name. |
| `GroupingLaws.Partition` | crates/profiles/src/grouping.rs:115-170 | In each role the groups hold exactly the assets, and no asset is in two groups. |
| `GroupingLaws.MembersUnderRoot` | crates/profiles/src/grouping.rs:173-193 | Every member lies under its group's root, and under its LOCAL location if it has one. |
| `GroupingLaws.RootIsAbsolute` | crates/profiles/src/grouping.rs:173-193 | The root of absolute members is absolute, as long as the top directory is not a file. |
| `GroupingLaws.RootIsLongest` | crates/profiles/src/grouping.rs:173-193 | No directory common to all members is longer than the root. |
| `GroupingLaws.RootIsNoFile` | crates/profiles/src/grouping.rs:182-191 | The root is no file, where no directory of a member is one. |
| `GroupingLaws.ResultRootIsLongest` | crates/profiles/src/grouping.rs:356-401 | Both for every returned group: the root is common to its members, and no common directory is longer. |
| `GroupingLaws.GroupOfPath` | crates/profiles/src/grouping.rs:316-353 | A path's group is named after a longest LOCAL location that holds it; without one, absolute paths share an unnamed group. |
| `GroupingLaws.ResultMembersExactly` | crates/profiles/src/grouping.rs:115-170 | Exactly the listed paths that are not under a SHARED location are members, in their role, absolute and normalised. |
| `GroupingLaws.UnderExactly` | crates/profiles/src/grouping.rs:305-309 | A normal path is under a location if and only if that is spelled as a normal path and the path is within it. |
| `GroupingLaws.NoSharedMembers` | crates/profiles/src/grouping.rs:119-119 | No member of a returned group lies, by its walk, under a SHARED location spelled as a normal path; one that is not keeps nothing out. |
| `GroupingLaws.GroupInputsScan` | crates/filesystem/src/scanner.rs:287-306 | For normal absolute assets, scanning a group's inputs reports none outside its root, and each gets a manifest path that leads back to it. |
| `GroupingLaws.EntriesFromFileList` | crates/filesystem/src/scanner.rs:278-328 | Fails exactly when a listed file is outside the root or gets no manifest path; otherwise lists the existing files with theirs. |
| `GroupingLaws.ScannedExactly` | crates/filesystem/src/scanner.rs:278-328 | Of the listed files exactly those that exist and are no directories are scanned, in order, with their manifest paths. |
| `GroupingLaws.GroupScanSucceeds` | crates/filesystem/src/scanner.rs:287-306 | For normal absolute assets, the scan of any list of a group's inputs against its root succeeds, and every manifest path leads back to its file. |
| `GroupingLaws.KeptAreNormal` | crates/profiles/src/grouping.rs:299-302 | Every grouped asset is normalised and absolute, if the listed path is absolute or the current directory is known. |
| `GroupingLaws.ResultScans` | crates/filesystem/src/scanner.rs:287-306 | Scanning any inputs of a group that the grouping returned, against its root, reports none outside, and every manifest path leads back to its file; the assets are any that can be made absolute. |
| `GroupingLaws.GroupOutputsKept` | crates/ja-deadline-utils/src/conversion.rs:19-33 | Converting a group for submission drops none of its outputs. |
| `GroupingLaws.ResultOutputsKept` | crates/ja-deadline-utils/src/conversion.rs:19-33 | The same of every group the grouping returned. |
| `GroupingLaws.OutputRoundTrip` | crates/ja-deadline-utils/src/conversion.rs:26-29 | An output comes back from its relative path if and only if that path has no backslash. |
| `GroupingLaws.GroupsDependOnAssets` | crates/profiles/src/grouping.rs:99-203 | The groups depend on the assets alone, not on input order, nor on hash-map order unless two locations tie as longest. |
| `GroupingLaws.PartitionListed` | crates/profiles/src/grouping.rs:99-203 | In the returned list and in each role, every asset is a member of exactly one position, and nothing else is a member. |
| `GroupingLaws.SortedByRootThenName` | crates/profiles/src/grouping.rs:195-202 | The sort compares root paths first and location names second, a missing name before any other. |
| `GroupingLaws.ListingUnique` | crates/profiles/src/grouping.rs:195-202 | Two sorted listings of the same groups are the same list, unless different groups tie in root and name. |
| `GroupingLaws.ListingUniqueExactly` | crates/profiles/src/grouping.rs:195-202 | The list is the same for every hash-map order if and only if no two different groups tie. |
| `GroupingLaws.TiesExactly` | crates/profiles/src/grouping.rs:195-202 | Two groups of absolute assets tie if and only if they have the same root and their keys are two LOCAL locations with one name. |
| `GroupingLaws.DistinctNamesSuffice` | crates/profiles/src/grouping.rs:195-202 | No groups tie when no two LOCAL locations share a name. |
| `GroupingLaws.NamesakesTie` | crates/profiles/src/grouping.rs:173-202 | Two locations with one name do tie: single files directly in the top directory. |
| `GroupingLaws.ResultDependsOnAssets` | crates/profiles/src/grouping.rs:99-203 | The returned list depends on which paths are given in which role, not on their order nor on hash-map order, if no two LOCAL locations tie as longest or share a name. |
| `GroupingLaws.ResultUnlessTied` | crates/profiles/src/grouping.rs:99-203 | For any profile without locations that tie as longest: two results for the same assets are the same list, unless groups tie in root and name. |
| `GroupingLaws.GroupValidated` | crates/profiles/src/grouping.rs:219-296 | Strict validation fails exactly on missing or directory inputs; otherwise the valid inputs, the outputs and the references with the demoted inputs are grouped. |
| `GroupingLaws.ClassifiedExactly` | crates/profiles/src/grouping.rs:238-263 | Exactly where each input ends up; an existing directory is grouped nowhere and, in the lenient mode, not reported. |
| `UploadAgent.CasKeyInjective` | utils/upload_agent.py:274-284 | Hashes without a slash and prefixes are both recovered from the object key. |
| `UploadAgent.KeysDisjoint` | utils/upload_agent.py:274-298 | Under one prefix a marker never overwrites an object. |
| `UploadAgent.KeysCollideAcrossPrefixes` | utils/upload_agent.py:274-298 | Across prefixes the same key can be both: which pairs of prefix, root id and path key coincide. |
| `UploadAgent.MarkerKeyInjective` | utils/upload_agent.py:287-298 | Path keys without a slash and root ids are recovered from the marker key. |
| `UploadAgent.GoesWhereNamed` | utils/upload_agent.py:465-466 | Marker and object go to the bucket and under the prefix the request names, or else the agent's own. |
| `UploadAgent.MarkerSays` | utils/upload_agent.py:364-431 | A marker has the content's hash and size, or the reason of the failure, and the relative path. |
| `UploadAgent.MarkerDecides` | utils/upload_agent.py:468-478 | A request without a required field does nothing; one whose marker is there is done without a look at its file; any other goes on. |
| `UploadAgent.FileDecides` | utils/upload_agent.py:480-516 | A file that can be served is hashed; for one that cannot only a failure marker is written. |
| `UploadAgent.ObjectDecides` | utils/upload_agent.py:342-361 | An object is uploaded if and only if none is under its key; then the completion marker is written and the message deleted. |
| `UploadAgent.NamesSuffice` | utils/upload_agent.py:462-473 | If all requests use one prefix, and root id and path key name one file, then no marker is where an object goes and requests that share a marker ask for the same thing. |
| `UploadAgent.ActKeeps` | utils/upload_agent.py:473-533 | Whatever is sent, every action of an agent keeps the invariant and never removes anything from the store. |
| `UploadAgent.InvKept` | utils/upload_agent.py:437-533 | Whatever is sent, the invariant survives actions, redelivery, crashes and new requests: what was there at the start is untouched, and everything else is the object or marker of a sent request, each marker behind its object. |
| `UploadAgent.AgentSafety` | utils/upload_agent.py:437-533 | In every run of any number of agents, whatever prefixes the requests name: if no marker is where an object goes and requests that share a marker use one prefix, every completed marker of a request names an object that exists and hashes to its key (for digests without a slash, and a store that starts in order for these requests). |
| `UploadAgent.WrittenMarkersBacked` | utils/upload_agent.py:518-531 | If no marker is where an object goes, every completed marker the agents wrote, in any run, has its object under the prefix of a request it was written for. |
| `UploadAgent.SafetyExactly` | utils/upload_agent.py:462-533 | For such digests and stores the agents are safe in all runs with a set of requests if and only if no request's marker is where a served one's object goes, and requests that share a marker, one of them served, use one prefix. |
| `UploadAgent.CollisionUnsafe` | utils/upload_agent.py:466 | A request whose root id ends in "/Data" is not safe beside one that names the prefix its marker spells, for content with the same hash as its path key. |
| `UploadAgent.OnePrefixSuffices` | utils/upload_agent.py:466 | Requests that all use one prefix, such as the agents' own, are safe. |
| `UploadAgent.NothingLost` | utils/upload_agent.py:620-633 | In every run, whatever is sent and whatever crashes, every well-formed request is still queued or has its marker. |
| `UploadAgent.NothingOverwritten` | utils/upload_agent.py:342-361 | What the store had at the start is never written over. |
| `UploadAgent.MarkerStability` | utils/upload_agent.py:473-533 | If no marker is where an object goes and requests that share a marker ask for the same thing, a marker never changes its status, hash or size. |
| `UploadAgent.MarkerTruth` | utils/upload_agent.py:518-531 | Under the same condition every marker written in a run says about its requests what is true of the file, whichever agent wrote it. |
| `UploadAgent.TruthExactly` | utils/upload_agent.py:473-533 | Markers tell the truth in all runs with a set of requests if and only if no marker is where an object goes and requests that share a marker ask for the same thing. |
| `AgentSources.ResolvedByFirstMatch` | utils/upload_agent.py:219-230 | The first LOCAL location that is spelled alike or has the same normal form decides: the source itself, or the location; without a match, the source if it is a directory. |
| `AgentSources.NormPathExactly` | utils/upload_agent.py:225 | Two strings get the same normal form if and only if they begin with the same slashes and lead to the same place from every directory. |
| `AgentSources.RootOfSource` | utils/upload_agent.py:219-230 | A source is accepted exactly if some location matches or it is a directory, and the root it is served from is where the source leads. |
| `AgentSources.ServeExactly` | utils/upload_agent.py:480-516 | What serving comes to: no root, nothing at the path, no regular file there, or its content. |
| `AgentSources.ReachExactly` | utils/upload_agent.py:498-509 | A path leads somewhere exactly if every step is taken in a directory that is there, and then where it walks to. |
| `AgentSources.GuardExactly` | utils/upload_agent.py:222 | Where a source lies against a location, exactly: behind a separator it is inside if it climbs no higher or comes back by the same names, glued to the location's last name only if it climbs and comes back. |
| `AgentSources.ServedFromOutsideExactly` | utils/upload_agent.py:219-230 | The agent serves from a root in none of its LOCAL locations if and only if no location's guard lets the source through, and yet the source is spelled like one at the front, or is a directory. |
| `AgentSources.RootsInsideExactly` | utils/upload_agent.py:208-230 | Every accepted root lies in a LOCAL location if and only if one of them is the top directory, or there is none and no source is a directory. |
| `AgentSources.FileInsideExactly` | utils/upload_agent.py:498 | The served file lies in a LOCAL location if and only if, for some location, a rooted relative path leads there, or one that is not rooted does not climb from the source above the location, or comes down again by the same names. |
| `AgentSources.ServesOnlyLocalExactly` | utils/upload_agent.py:482-516 | Whatever is asked for, what is served lies in a LOCAL location if and only if every regular file of the machine does. |
| `AgentSources.PlainRequestsInside` | utils/upload_agent.py:222-223 | A source written as a location, a separator and more, and a relative path that is not rooted, stay in the location as long as neither climbs. |
| `AgentSources.SiblingServed` | utils/upload_agent.py:222-223 | A sibling whose name only begins like a location's is accepted and lies outside ("/mnt/assets2" beside "/mnt/assets"). |
| `AgentSources.ClimberServed` | utils/upload_agent.py:222-223 | A source that begins with a location and climbs out of it is accepted, and lies outside unless it comes back. |
| `AgentSources.EmptySourceServed` | utils/upload_agent.py:222-223 | The empty source is accepted, and lies in the location only if the agent runs there. |
| `AgentSources.RelativeLeaves` | utils/upload_agent.py:498 | From the location itself, a rooted relative path replaces it, and one that climbs leaves it, unless they lead back. |
| `AgentProcess.Agent.ProcessMessage` | utils/upload_agent.py:437-533 | Performs a run of the transition system; raises on JSON that is no object, is false exactly for any other malformed request, and true means there is a marker, the right one if there was none. |
| `AgentProcess.Agent.ServeFile` | utils/upload_agent.py:480-533 | Without a failed request the store afterwards has the object and marker the request calls for, and nothing else changed. |
| `AgentProcess.Agent.UploadToCas` | utils/upload_agent.py:342-361 | The object is uploaded unless there is one under its key; only a failed request raises. |
| `AgentProcess.Agent.DeleteMessage` | utils/upload_agent.py:626-630 | Only the message goes; if the deletion raises, it stays in the queue with its marker written. |
| `AgentProcess.Agent.PollQueue` | utils/upload_agent.py:595-635 | Without an exception exactly the well-formed messages of the batch are deleted and counted, each with its marker, malformed ones stay; however the loop ends, only well-formed messages are gone, each with its marker. JSON that is no object ends the loop. |
| `AgentProcess.CountIsCardinality` | utils/upload_agent.py:626-631 | The count returned is the number of positions with a well-formed message. |
| `OutputKeys.SplitTaskKey` | crates/storage/src/manifest_storage.rs:491-509 | A formatted task key has the segments of its prefix, then the ids, the session folder and the name. |
| `OutputKeys.FirstTask` | crates/storage/src/manifest_storage.rs:1037-1054 | The leftmost position where the task pattern matches, none exactly when it matches nowhere. |
| `OutputKeys.FirstStep` | crates/storage/src/manifest_storage.rs:1042-1073 | The leftmost position where the step pattern matches, none exactly when it matches nowhere. |
| `OutputKeys.SessionActionFrom` | crates/storage/src/manifest_storage.rs:1046-1061 | The suffix at the first occurrence of the session-action word that something follows. |
| `OutputKeys.SessionFolder` | crates/storage/src/manifest_storage.rs:1057-1061 | A formatted session folder is recognised, and its session action found if and only if the timestamp does not contain the word. |
| `OutputKeys.StepSegmentExactly` | crates/storage/src/manifest_storage.rs:1037-1043 | A step segment has "step-" in it, and something behind that. |
| `OutputKeys.TaskSegmentExactly` | crates/storage/src/manifest_storage.rs:1037-1039 | A task segment begins with "task-" and goes on. |
| `OutputKeys.SessionSegmentExactly` | crates/storage/src/manifest_storage.rs:1037-1043 | A session segment has "_sessionaction-" in it, and something on both sides. |
| `OutputKeys.OutputSegmentExactly` | crates/storage/src/manifest_storage.rs:1037-1043 | An output segment has "_output" in it, and something before that. |
| `OutputKeys.ActionExactly` | crates/storage/src/manifest_storage.rs:1046-1061 | A session action begins at "sessionaction-", and something follows. |
| `OutputKeys.PatternsExactly` | crates/storage/src/manifest_storage.rs:1037-1043 | The patterns are consecutive segments: step, task, session and output, or step, session and output. |
| `OutputKeys.ParseKeyExactly` | crates/storage/src/manifest_storage.rs:1047-1098 | A key is read if and only if one of the patterns matches somewhere, as that of a task if the task pattern does. |
| `OutputKeys.TaskKeyParses` | crates/storage/src/manifest_storage.rs:1035-1070 | A formatted task key parses to its task and session folder, and to its session action if and only if the timestamp is clean; a prefix that looks like a key is read instead. |
| `OutputKeys.StepKeyParses` | crates/storage/src/manifest_storage.rs:1072-1088 | A formatted step key parses to its session folder without a task, and to its session action if and only if the timestamp is clean; a prefix that looks like a task or step key is read instead. |
| `OutputKeys.PlainPrefixIsFree` | crates/storage/src/manifest_storage.rs:1037-1043 | A prefix without the step word cannot be taken for a key. |
| `OutputSelection.GroupManifestsByTask` | crates/storage/src/manifest_storage.rs:1106-1116 | Each task that occurs maps to its entries in listing order. |
| `OutputSelection.LatestIsMaximal` | crates/storage/src/manifest_storage.rs:1149-1153 | The latest entry is one no other entry is newer than. |
| `OutputSelection.SelectLatest` | crates/storage/src/manifest_storage.rs:1133-1166 | Exactly the chosen entries' keys, each as often as listed, in whatever order the groups are visited. |
| `OutputSelection.LatestSessionPerTask` | crates/storage/src/manifest_storage.rs:1133-1166 | Of each task all and only the entries of one session folder are chosen, a folder that holds an entry with maximal modification time. |
| `OutputDiscovery.ReadsExactly` | crates/storage/src/manifest_storage.rs:1002-1098 | Filtering and parsing reads exactly the listed objects whose key ends in "_output" or "_output.json" and parses, each once, in listing order. |
| `OutputDiscovery.ChosenExactly` | crates/storage/src/manifest_storage.rs:1133-1166 | What is chosen of them is stated on the listing: step-level ones, and those in the session of their task's newest, the last of equals. |
| `OutputDiscovery.DiscoverOutputs` | crates/storage/src/manifest_storage.rs:1002-1166 | The keys of exactly the selected objects of the listing, each as often as it is listed. |
| `OutputDiscovery.FormattedListing` | crates/storage/src/manifest_storage.rs:1002-1166 | End to end: a listing of formatted keys comes back as all outputs of steps, and of each task those of the session of its newest output. |

## Left out

- The AWS clients, the asynchronous runtime, retries, the SQLite caches, the Python, WASM and desktop bindings and the command line; of each storage call only its contract is kept.
- JSON text and Unicode normalisation: manifests are value trees and strings are sequences of scalar values.
- XXH128 itself: the hash is a parameter, an incremental hasher hashes what it was fed.
- The v2023-03-03 codec, decoding values that name no specification version, and the check of the hash algorithm; the older format appears only in merging and diffing.
- Glob matching: the diff takes the filter as a predicate on relative paths.
- The `overall_completed` progress counter, whose start value counts skipped files twice; the byte counter is modelled.
- The split into small and large files and the concurrency limit: the transition systems allow every interleaving of one list of entries.
- Collecting transfer entries from manifests of the older format, and symlink entries of a download (`Pipeline` collects the regular files of the newer format).
- Creating directories and symlinks before a download, modification times and permissions after it.
- Progress callbacks other than their request to stop an upload or download.
- The dirty-file, dirty-directory and inode managers of the mounted file system, and its lookup and enumeration.
- Windows prefixes, case folding and long paths, and names that are not valid Unicode.
- Overflow of the `i64` time difference in fast comparison, and of `u64` sums other than the manifest total, chunk offsets and range reads; `usize` is taken as 64 bits wide.
- Diff statistics and the stat cache.
- Timestamps inside markers, extending a message's visibility, and the agents' main loop with its sleeps.
- Symlinks in the agents' file system, and Windows paths: `AgentSources` walks a tree of directories and files.
- Local files that change during an upload, or while the agents serve them.
- Message fields that are not strings, such as numbers or nulls, and bodies nested too deeply for the JSON reader.
- Regular expressions in general: the two key patterns are stated on `/`-separated segments.
- Merge: `Transfer.Merge` adds statistics as values where the code updates the receiver's fields, and leaves out its error list.
- Uploader.UploadOrchestrator.UploadFiles: runs one schedule, task after task; all other schedules are covered by the lemmas about runs of the transition system.
- AgentProcess.Agent.PollQueue: one agent by itself; other agents' steps between its own are covered by the lemmas about runs.
- Download.Downloader.DownloadOne: one file by itself; interleavings are covered by `DownloadRun`.
- Grouping.GroupAssetPaths: a root path is kept as components rather than as a string, and existence of files is a predicate that does not change during the call.
- GroupingLaws.EntriesFromFileList: symlinks among the listed files, which are validated instead of listed when links are not followed, are not distinguished.
- GroupingLaws.GroupValidated: the paths inside the error are kept as components.
- The `operations` module and the relaxed-consistency queue's submitting side.
