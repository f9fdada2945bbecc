/** The whole content pipeline: what was uploaded under any schedule and downloaded under any schedule is the file. */
module Pipeline {
  import opened Wrappers
  import opened Manifest
  import opened Chunks
  import opened Scanner
  import opened Download
  import Upload
  import DownloadRun

  /** The download entry asks for the objects the upload entry stored. */
  predicate SameEntry(u: Upload.UploadEntry, d: DownloadEntry) {
    d.hash == u.hash && d.chunkHashes == u.chunkHashes && d.size == u.size
  }

  /** After a successful upload the store holds the local file's content for the entry. */
  lemma UploadHolds(c: Upload.Config, run: seq<Upload.State>, i: nat, d: DownloadEntry)
    requires Upload.Run(c, run) && Upload.SoundStart(c, run[0]) && CollisionFree(c.h)
    requires Upload.Succeeded(run[|run| - 1]) && i < |c.entries| && SameEntry(c.entries[i], d)
    requires c.entries[i].hash.Some? || Upload.ProperlyChunked(c, c.entries[i])
    ensures c.entries[i].localPath in c.files
    ensures var content := c.files[c.entries[i].localPath];
            |content| == d.size && EntryHeld(run[|run| - 1].store, d, content)
  {
    assert run != [];
    hide Upload.Run, Upload.Succeeded, Upload.SoundStart, HoldsChunks;
    var e, store := c.entries[i], run[|run| - 1].store;
    if e.hash.Some? {
      Upload.UploadSafety(c, run, |run| - 1);
      Upload.SingleJob(e);
      FaithfulEntry(c, run[0], i);
      assert Upload.Correct(c, store, Upload.Jobs(c.entries[i])[0].key);
      assert c.h(store[e.hash.value]) == c.h(c.files[e.localPath]);
    } else {
      Upload.UploadedFileHeld(c, run, |run| - 1, i);
    }
  }

  lemma FaithfulEntry(c: Upload.Config, start: Upload.State, i: nat)
    requires Upload.SoundStart(c, start) && i < |c.entries| && c.entries[i].hash.Some?
    ensures var e := c.entries[i];
      e.localPath in c.files && |c.files[e.localPath]| == e.size && c.h(c.files[e.localPath]) == e.hash.value
  {
    var e := c.entries[i];
    Upload.SingleJob(e);
    assert Upload.FaithfulJob(c, e.localPath, Upload.Jobs(c.entries[i])[0]);
  }

  /** Upload under any schedule, then download under any other: a file whose task ends with the size check passed
      is byte for byte the file that was uploaded. */
  lemma UploadThenDownload(c: Upload.Config, run: seq<Upload.State>, i: nat,
                           d: DownloadRun.Config, later: seq<DownloadRun.State>, j: nat)
    requires Upload.Run(c, run) && Upload.SoundStart(c, run[0]) && CollisionFree(c.h)
    requires Upload.Succeeded(run[|run| - 1]) && i < |c.entries|
    requires c.entries[i].hash.Some? || Upload.ProperlyChunked(c, c.entries[i])
    requires DownloadRun.Run(d, later) && d.store == run[|run| - 1].store && d.verifySize
    requires j < |d.entries| && SameEntry(c.entries[i], d.entries[j])
    requires DownloadRun.ChoicesDistinct(d, later[0].files)
    requires j < |later[|later| - 1].tasks| && later[|later| - 1].tasks[j].Done?
    ensures var s := later[|later| - 1];
      && s.tasks[j].path in s.files && c.entries[i].localPath in c.files
      && s.files[s.tasks[j].path] == c.files[c.entries[i].localPath]
  {
    assert run != [] && later != [];
    hide Upload.Run, Upload.Succeeded, Upload.SoundStart, DownloadRun.Run, DownloadRun.ChoicesDistinct, EntryHeld;
    UploadHolds(c, run, i, d.entries[j]);
    DownloadRun.DownloadSafety(d, later, |later| - 1, j, c.files[c.entries[i].localPath]);
  }

  // ---------------------------------------------------------------- from the scan

  /** `collect_upload_entries`: deletions and links have nothing to upload. */
  function UploadEntries(files: seq<FileEntry>, root: string): seq<Upload.UploadEntry> {
    if files == [] then []
    else
      var f := files[|files| - 1];
      UploadEntries(files[..|files| - 1], root) +
      if f.deleted || f.symlinkTarget.Some? then []
      else [Upload.UploadEntry(root + "/" + f.path, f.hash, f.chunkHashes, f.size.GetOr(0))]
  }

  /** `collect_download_entries`, without the links, which are not downloaded. */
  function DownloadEntries(files: seq<FileEntry>): seq<DownloadEntry> {
    if files == [] then []
    else
      var f := files[|files| - 1];
      DownloadEntries(files[..|files| - 1]) +
      if f.deleted || f.symlinkTarget.Some? then [] else [DownloadEntry(f.hash, f.chunkHashes, f.size.GetOr(0))]
  }

  /** The manifest entries are what the scanner built from these contents. */
  predicate Scanned(files: seq<FileEntry>, contents: seq<Bytes>, h: HashFunction) {
    && |files| == |contents|
    && forall i | 0 <= i < |files| ::
      && |contents[i]| < U64_LIMIT && files[i].mtime.Some?
      && files[i] == ScanEntry(files[i].path, contents[i], files[i].mtime.value, files[i].runnable, h)
  }

  /** Scanned entries are regular files, so uploading and downloading see every one of them. */
  lemma {:induction false} EntriesOfScan(files: seq<FileEntry>, contents: seq<Bytes>, h: HashFunction, root: string)
    requires Scanned(files, contents, h)
    ensures |UploadEntries(files, root)| == |DownloadEntries(files)| == |files|
    ensures forall i | 0 <= i < |files| ::
      && UploadEntries(files, root)[i]
        == Upload.UploadEntry(root + "/" + files[i].path, files[i].hash, files[i].chunkHashes, |contents[i]|)
      && SameEntry(UploadEntries(files, root)[i], DownloadEntries(files)[i])
  {
    hide ChunkHashes;
    if files != [] { EntriesOfScan(files[..|files| - 1], contents[..|files| - 1], h, root); }
  }

  /** An entry scanned from a file that has not changed since is true of it. */
  lemma ScannedJobs(c: Upload.Config, e: Upload.UploadEntry, content: Bytes, n: nat)
    requires e.localPath in c.files && c.files[e.localPath] == content && |content| < U64_LIMIT && e.size == |content|
    requires e.hash == if |content| > CHUNK_SIZE then None else Some(c.h(content))
    requires e.chunkHashes == if |content| > CHUNK_SIZE then Some(ChunkHashes(content, CHUNK_SIZE, c.h)) else None
    requires n < |Upload.Jobs(e)|
    ensures Upload.FaithfulJob(c, e.localPath, Upload.Jobs(e)[n])
    ensures e.hash.Some? || Upload.ProperlyChunked(c, e)
  {
    if e.hash.None? {
      CountsAgree(e.size);
      assert Upload.JobBytes(c, e.localPath, Upload.Jobs(e)[n]).value == Piece(content, CHUNK_SIZE, n);
    }
  }

  /** So a scan of files that have not changed since makes an upload's manifest true of them. */
  lemma {:induction false} ScannedIsFaithful(c: Upload.Config, files: seq<FileEntry>, contents: seq<Bytes>,
                                             root: string)
    requires Scanned(files, contents, c.h) && c.entries == UploadEntries(files, root)
    requires forall i | 0 <= i < |files| ::
               root + "/" + files[i].path in c.files && c.files[root + "/" + files[i].path] == contents[i]
    ensures Upload.Faithful(c) && |c.entries| == |files|
    ensures forall i | 0 <= i < |c.entries| :: c.entries[i].hash.Some? || Upload.ProperlyChunked(c, c.entries[i])
  {
    EntriesOfScan(files, contents, c.h, root);
    hide UploadEntries, DownloadEntries, Upload.FaithfulJob, Upload.ProperlyChunked, Upload.Jobs, ChunkHashes;
    forall i, n | 0 <= i < |c.entries| && 0 <= n < |Upload.Jobs(c.entries[i])|
      ensures Upload.FaithfulJob(c, c.entries[i].localPath, Upload.Jobs(c.entries[i])[n])
    {
      ScannedJobs(c, c.entries[i], contents[i], n);
    }
    forall i | 0 <= i < |c.entries| ensures c.entries[i].hash.Some? || Upload.ProperlyChunked(c, c.entries[i]) {
      HasJob(c.entries[i]);
      if |contents[i]| > CHUNK_SIZE { ScannedJobs(c, c.entries[i], contents[i], 0); }
    }
  }

  lemma HasJob(e: Upload.UploadEntry)
    ensures e.hash.None? && e.chunkHashes.Some? && e.chunkHashes.value != [] ==> |Upload.Jobs(e)| > 0
  {
  }

  /** Scan, upload under any schedule, download under any other: a file whose download ends with the size check passed
      is byte for byte the file that was scanned, if no file changed in between, what the store and the check cache
      already held was right, and no two entries would download to the same path. */
  lemma ScanUploadDownload(files: seq<FileEntry>, contents: seq<Bytes>, root: string,
                           c: Upload.Config, run: seq<Upload.State>,
                           d: DownloadRun.Config, later: seq<DownloadRun.State>, i: nat)
    requires Scanned(files, contents, c.h) && c.entries == UploadEntries(files, root)
             && d.entries == DownloadEntries(files)
    requires forall j | 0 <= j < |files| ::
               root + "/" + files[j].path in c.files && c.files[root + "/" + files[j].path] == contents[j]
    requires Upload.Run(c, run) && Upload.Succeeded(run[|run| - 1]) && CollisionFree(c.h)
    requires Upload.Trusted(c, run[0].store) && forall key | key in run[0].cache :: Upload.Correct(c, run[0].store, key)
    requires DownloadRun.Run(d, later) && d.store == run[|run| - 1].store && d.verifySize
    requires DownloadRun.ChoicesDistinct(d, later[0].files)
    requires i < |files| && i < |later[|later| - 1].tasks| && later[|later| - 1].tasks[i].Done?
    ensures var s := later[|later| - 1]; s.tasks[i].path in s.files && s.files[s.tasks[i].path] == contents[i]
  {
    ScannedIsFaithful(c, files, contents, root);
    EntriesOfScan(files, contents, c.h, root);
    assert run != [] && later != [];
    assert Upload.SoundStart(c, run[0]);
    hide Upload.Run, Upload.Succeeded, Upload.SoundStart, DownloadRun.Run, DownloadRun.ChoicesDistinct, EntryHeld;
    hide Upload.Trusted, Upload.Faithful, UploadEntries, DownloadEntries, Upload.ProperlyChunked;
    UploadThenDownload(c, run, i, d, later, i);
  }
}
