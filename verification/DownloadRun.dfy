/** Downloading the files of a manifest in parallel: every task chooses its path, then writes its objects one
    after another, and the tasks interleave freely. */
module DownloadRun {
  import opened Wrappers
  import opened Strings
  import opened Manifest
  import opened Chunks
  import opened Download
  import Transfer

  datatype Config = Config(entries: seq<DownloadEntry>, targets: seq<LocalPath>, resolution: ConflictResolution,
                           store: map<string, Bytes>, verifySize: bool)

  /** Where a task is; once it has chosen a path it keeps it. */
  datatype Phase =
    | NotStarted
    | Writing(path: string, n: nat)   // the first n objects are written
    | Skipped
    | Done(path: string)
    | Failed
    | FailedAt(path: string)

  /** The local files, the tasks, and the shared counters and flag. */
  datatype State = State(files: map<string, Bytes>, tasks: seq<Phase>,
                         completedBytes: nat, completedCount: nat, cancelled: bool)

  predicate HasPath(p: Phase) { p.Writing? || p.Done? || p.FailedAt? }

  /** How many objects make up an entry. */
  function Parts(e: DownloadEntry): nat {
    if e.hash.Some? then 1
    else if e.chunkHashes.Some? then Min(|ChunkList(e.size, CHUNK_SIZE)|, |e.chunkHashes.value|)
    else 0
  }

  /** The file after object `n` was written to it: a whole object replaces it, a chunk goes to its offset. */
  function WritePart(store: map<string, Bytes>, e: DownloadEntry, n: nat, file: Bytes): Option<Bytes>
    requires n < Parts(e)
  {
    if e.hash.Some? then (if e.hash.value in store then Some(store[e.hash.value]) else None)
    else
      var hash := e.chunkHashes.value[n];
      if hash in store then Some(WriteAt(file, ChunkList(e.size, CHUNK_SIZE)[n].offset, store[hash])) else None
  }

  /** The path a task may choose when it starts. */
  ghost predicate Chooses(c: Config, files: map<string, Bytes>, i: nat, path: string)
    requires i < |c.targets|
  {
    var target := c.targets[i];
    if Render(target) !in files || c.resolution == Overwrite then path == Render(target)
    else c.resolution == CreateCopy && exists k | 1 <= k <= 10000 ::
      (path == CopyPath(target, k) && path !in files && forall j | 1 <= j < k :: CopyPath(target, j) in files)
  }

  /** A skipped file counts at once. */
  ghost predicate SkipStep(c: Config, s: State, s': State, i: nat) {
    && i < |s.tasks| && i < |c.targets| && i < |c.entries| && s.tasks[i].NotStarted? && !s.cancelled
    && Render(c.targets[i]) in s.files && c.resolution == Skip
    && s' == State(s.files, s.tasks[i := Skipped], s.completedBytes + c.entries[i].size, s.completedCount + 1, false)
  }

  ghost predicate StartStep(c: Config, s: State, s': State, i: nat) {
    && i < |s.tasks| && i < |c.targets| && s.tasks[i].NotStarted? && !s.cancelled
    && exists path :: Chooses(c, s.files, i, path) && s' == s.(tasks := s.tasks[i := Writing(path, 0)])
  }

  ghost predicate WriteStep(c: Config, s: State, s': State, i: nat) {
    && i < |s.tasks| && i < |c.entries| && s.tasks[i].Writing? && s.tasks[i].n < Parts(c.entries[i])
    && var path, n := s.tasks[i].path, s.tasks[i].n;
       var written := WritePart(c.store, c.entries[i], n, BytesAt(s.files, path));
       written.Some? && s' == s.(files := s.files[path := written.value], tasks := s.tasks[i := Writing(path, n + 1)])
  }

  /** All objects written; the size check decides. */
  ghost predicate FinishStep(c: Config, s: State, s': State, i: nat) {
    && i < |s.tasks| && i < |c.entries| && s.tasks[i].Writing? && s.tasks[i].n == Parts(c.entries[i])
    && (c.entries[i].hash.Some? || c.entries[i].chunkHashes.Some?)
    && var path := s.tasks[i].path;
       var good := !c.verifySize || (path in s.files && |s.files[path]| == c.entries[i].size);
       s' == if good then State(s.files, s.tasks[i := Done(path)], s.completedBytes + EntrySize(c.entries[i]),
                                s.completedCount + 1, s.cancelled)
             else s.(tasks := s.tasks[i := FailedAt(path)])
  }

  /** A task fails, possibly leaving its own file in any state; or it is told to stop before it starts, by the flag or
      by the progress callback, which sets the flag. */
  ghost predicate FailStep(c: Config, s: State, s': State, i: nat) {
    && i < |s.tasks| && s'.completedBytes == s.completedBytes && s'.completedCount == s.completedCount
    && (|| (s.tasks[i].NotStarted? && s'.files == s.files && s'.tasks == s.tasks[i := Failed]
            && (s.cancelled ==> s'.cancelled))
        || (s.tasks[i].Writing? && SameElsewhere(s.files, s'.files, s.tasks[i].path)
            && s'.tasks == s.tasks[i := FailedAt(s.tasks[i].path)] && s'.cancelled == s.cancelled))
  }

  ghost predicate Next(c: Config, s: State, s': State) {
    || (exists i: nat :: SkipStep(c, s, s', i))
    || (exists i: nat :: StartStep(c, s, s', i))
    || (exists i: nat :: WriteStep(c, s, s', i))
    || (exists i: nat :: FinishStep(c, s, s', i))
    || (exists i: nat :: FailStep(c, s, s', i))
  }

  /** Nothing has started yet. */
  ghost predicate Fresh(c: Config, s: State) {
    && |s.tasks| == |c.entries| == |c.targets| && s.completedBytes == 0 && s.completedCount == 0 && !s.cancelled
    && forall i | 0 <= i < |s.tasks| :: s.tasks[i].NotStarted?
  }

  ghost predicate Run(c: Config, run: seq<State>) {
    && run != [] && Fresh(c, run[0])
    && forall k | 0 <= k < |run| - 1 :: Next(c, run[k], run[k + 1])
  }

  // ---------------------------------------------------------------- no interference

  /** No two tasks have chosen the same path. */
  ghost predicate PathsDistinct(s: State) {
    forall i, j | 0 <= i < j < |s.tasks| && HasPath(s.tasks[i]) && HasPath(s.tasks[j]) ::
        s.tasks[i].path != s.tasks[j].path
  }

  /** The file holds the first `n` objects of `e`, written over some earlier content. */
  ghost predicate Written(store: map<string, Bytes>, e: DownloadEntry, n: nat, file: Bytes) {
    && n <= Parts(e)
    && if e.hash.Some? then n > 0 ==> e.hash.value in store && file == store[e.hash.value]
       else if e.chunkHashes.None? then true
       else
         && AllStored(store, e.chunkHashes.value, n)
         && exists prior :: file == WriteChunks(store, ChunkList(e.size, CHUNK_SIZE), e.chunkHashes.value, n, prior)
  }

  ghost predicate TaskOk(c: Config, files: map<string, Bytes>, e: DownloadEntry, p: Phase) {
    && (p.Writing? ==> Written(c.store, e, p.n, BytesAt(files, p.path)) && (p.n > 0 ==> p.path in files))
    && (p.Done? ==>
          && Written(c.store, e, Parts(e), BytesAt(files, p.path)) && (e.hash.Some? || e.chunkHashes.Some?)
          && (c.verifySize ==> p.path in files && |files[p.path]| == e.size))
  }

  ghost predicate Inv(c: Config, initially: map<string, Bytes>, s: State) {
    && |s.tasks| == |c.entries| == |c.targets|
    && (forall i | 0 <= i < |s.tasks| :: TaskOk(c, s.files, c.entries[i], s.tasks[i]))
    && (forall p | Untouched(s, p) ::
        (p in s.files <==> p in initially) && (p in s.files ==> s.files[p] == initially[p]))
  }

  /** No task has chosen this path. */
  ghost predicate Untouched(s: State, p: string) {
    forall i | 0 <= i < |s.tasks| && HasPath(s.tasks[i]) :: s.tasks[i].path != p
  }

  lemma WrittenMore(store: map<string, Bytes>, e: DownloadEntry, n: nat, file: Bytes)
    requires n < Parts(e) && Written(store, e, n, file) && WritePart(store, e, n, file).Some?
    ensures Written(store, e, n + 1, WritePart(store, e, n, file).value)
  {
    hide WriteAt, ChunkList;
    if e.hash.None? {
      var chunks, hashes := ChunkList(e.size, CHUNK_SIZE), e.chunkHashes.value;
      var prior :| file == WriteChunks(store, chunks, hashes, n, prior);
      assert AllStored(store, hashes, n + 1);
      assert WritePart(store, e, n, file).value == WriteChunks(store, chunks, hashes, n + 1, prior);
    }
  }

  lemma NothingWritten(store: map<string, Bytes>, e: DownloadEntry, file: Bytes)
    ensures Written(store, e, 0, file)
  {
    if e.hash.None? && e.chunkHashes.Some? {
      assert file == WriteChunks(store, ChunkList(e.size, CHUNK_SIZE), e.chunkHashes.value, 0, file);
    }
  }

  /** A task is not disturbed by a write to another path. */
  lemma Undisturbed(c: Config, files: map<string, Bytes>, files': map<string, Bytes>, e: DownloadEntry, p: Phase,
                    path: string)
    requires TaskOk(c, files, e, p) && SameElsewhere(files, files', path) && (HasPath(p) ==> p.path != path)
    ensures TaskOk(c, files', e, p)
  {
    hide Written;
  }

  lemma DistinctBefore(c: Config, s: State, s': State)
    requires Next(c, s, s') && PathsDistinct(s')
    ensures PathsDistinct(s) && |s'.tasks| == |s.tasks|
  {
    PathsKept(c, s, s');
    hide Next;
    forall i, j | 0 <= i < j < |s.tasks| && HasPath(s.tasks[i]) && HasPath(s.tasks[j])
      ensures s.tasks[i].path != s.tasks[j].path
    {
    }
  }

  lemma PathsKept(c: Config, s: State, s': State)
    requires Next(c, s, s')
    ensures |s'.tasks| == |s.tasks|
    ensures forall i | 0 <= i < |s.tasks| && HasPath(s.tasks[i]) ::
              HasPath(s'.tasks[i]) && s'.tasks[i].path == s.tasks[i].path
  {
    hide Parts, Chooses, WritePart, SameElsewhere;
  }

  lemma InvKept(c: Config, initially: map<string, Bytes>, s: State, s': State)
    requires Inv(c, initially, s) && Next(c, s, s') && PathsDistinct(s')
    ensures Inv(c, initially, s')
  {
    assert TasksOk(c, s);
    hide SkipStep, StartStep, WriteStep, FinishStep, FailStep, TaskOk, Untouched;
    if i: nat :| SkipStep(c, s, s', i) {
      SkipKeeps(c, s, s', i);
    } else if i: nat :| StartStep(c, s, s', i) {
      StartKeeps(c, s, s', i);
    } else if i: nat :| WriteStep(c, s, s', i) {
      WriteKeeps(c, s, s', i);
    } else if i: nat :| FinishStep(c, s, s', i) {
      FinishKeeps(c, s, s', i);
    } else {
      var i: nat :| FailStep(c, s, s', i);
      FailKeeps(c, s, s', i);
    }
    assert TasksOk(c, s');
  }

  /** What each step owes the invariant. */
  ghost predicate TasksOk(c: Config, s: State) {
    |s.tasks| == |c.entries| && forall i | 0 <= i < |s.tasks| :: TaskOk(c, s.files, c.entries[i], s.tasks[i])
  }

  lemma SkipKeeps(c: Config, s: State, s': State, i: nat)
    requires TasksOk(c, s) && SkipStep(c, s, s', i)
    ensures TasksOk(c, s') && s'.files == s.files
    ensures forall p | Untouched(s', p) :: Untouched(s, p)
  {
    hide Written;
    assert forall j | 0 <= j < |s.tasks| && j != i :: s'.tasks[j] == s.tasks[j];
  }

  lemma StartKeeps(c: Config, s: State, s': State, i: nat)
    requires TasksOk(c, s) && StartStep(c, s, s', i)
    ensures TasksOk(c, s') && s'.files == s.files
    ensures forall p | Untouched(s', p) :: Untouched(s, p)
  {
    hide Written, Chooses;
    NothingWrittenAt(c, s, i);
    assert forall j | 0 <= j < |s.tasks| && j != i :: s'.tasks[j] == s.tasks[j];
  }

  lemma NothingWrittenAt(c: Config, s: State, i: nat)
    requires i < |c.entries|
    ensures forall path :: TaskOk(c, s.files, c.entries[i], Writing(path, 0))
  {
    hide Written;
    forall path ensures TaskOk(c, s.files, c.entries[i], Writing(path, 0)) {
      NothingWritten(c.store, c.entries[i], BytesAt(s.files, path));
    }
  }

  lemma DistinctPair(s: State, i: nat, j: nat)
    requires PathsDistinct(s) && i < |s.tasks| && j < |s.tasks| && i != j && HasPath(s.tasks[i])
    ensures HasPath(s.tasks[j]) ==> s.tasks[i].path != s.tasks[j].path
  {
    if HasPath(s.tasks[j]) && j < i { assert s.tasks[j].path != s.tasks[i].path; }
  }

  lemma WriteKeeps(c: Config, s: State, s': State, i: nat)
    requires TasksOk(c, s) && WriteStep(c, s, s', i) && PathsDistinct(s')
    ensures TasksOk(c, s')
    ensures forall p | Untouched(s', p) ::
              Untouched(s, p) && (p in s'.files <==> p in s.files) && (p in s.files ==> s'.files[p] == s.files[p])
  {
    hide Written, Parts, WritePart;
    var path, n := s.tasks[i].path, s.tasks[i].n;
    WrittenMore(c.store, c.entries[i], n, BytesAt(s.files, path));
    assert HasPath(s'.tasks[i]) && s'.tasks[i].path == path;
    forall j | 0 <= j < |s.tasks| && j != i
      ensures s'.tasks[j] == s.tasks[j] && TaskOk(c, s'.files, c.entries[j], s'.tasks[j])
    {
      DistinctPair(s', i, j);
      Undisturbed(c, s.files, s'.files, c.entries[j], s.tasks[j], path);
    }
  }

  lemma FinishKeeps(c: Config, s: State, s': State, i: nat)
    requires TasksOk(c, s) && FinishStep(c, s, s', i)
    ensures TasksOk(c, s') && s'.files == s.files
    ensures forall p | Untouched(s', p) :: Untouched(s, p)
  {
    hide Written;
    assert forall j | 0 <= j < |s.tasks| && j != i :: s'.tasks[j] == s.tasks[j];
    assert TaskOk(c, s.files, c.entries[i], s.tasks[i]);
  }

  lemma FailKeeps(c: Config, s: State, s': State, i: nat)
    requires TasksOk(c, s) && FailStep(c, s, s', i) && PathsDistinct(s')
    ensures TasksOk(c, s')
    ensures forall p | Untouched(s', p) ::
              Untouched(s, p) && (p in s'.files <==> p in s.files) && (p in s.files ==> s'.files[p] == s.files[p])
  {
    hide Written;
    if s.tasks[i].Writing? {
      var path := s.tasks[i].path;
      assert HasPath(s'.tasks[i]) && s'.tasks[i].path == path;
      forall j | 0 <= j < |s.tasks| && j != i
        ensures s'.tasks[j] == s.tasks[j] && TaskOk(c, s'.files, c.entries[j], s'.tasks[j])
      {
        DistinctPair(s', i, j);
        Undisturbed(c, s.files, s'.files, c.entries[j], s.tasks[j], path);
      }
    } else {
      assert forall j | 0 <= j < |s.tasks| && j != i :: s'.tasks[j] == s.tasks[j];
    }
  }

  lemma {:induction false} RunInv(c: Config, run: seq<State>, k: nat)
    requires Run(c, run) && k < |run| && PathsDistinct(run[k])
    ensures Inv(c, run[0].files, run[k])
  {
    hide Next;
    if k > 0 {
      DistinctBefore(c, run[k - 1], run[k]);
      RunInv(c, run, k - 1);
      InvKept(c, run[0].files, run[k - 1], run[k]);
    }
  }

  lemma WrittenIsContent(store: map<string, Bytes>, e: DownloadEntry, file: Bytes, content: Bytes)
    requires Written(store, e, Parts(e), file) && EntryHeld(store, e, content) && |file| == |content| == e.size
    ensures file == content
  {
    hide HoldsChunks, ChunkList;
    if e.hash.None? {
      var chunks, hashes := ChunkList(e.size, CHUNK_SIZE), e.chunkHashes.value;
      var prior :| file == WriteChunks(store, chunks, hashes, Parts(e), prior);
      ReassembledExactly(store, hashes, content, prior);
      SizeCheckExcludesStaleTail(content, prior);
    }
  }

  // ---------------------------------------------------------------- which paths the tasks choose

  /** On these files, no path would be chosen by two entries. */
  ghost predicate ChoicesDistinct(c: Config, files: map<string, Bytes>) {
    forall i: nat, j: nat, path | i < j < |c.targets| && Chooses(c, files, i, path) :: !Chooses(c, files, j, path)
  }

  lemma ChoicesApart(c: Config, files: map<string, Bytes>, i: nat, j: nat, path: string)
    requires ChoicesDistinct(c, files) && i < |c.targets| && j < |c.targets| && i != j
    ensures !(Chooses(c, files, i, path) && Chooses(c, files, j, path))
  {
    hide Chooses;
    if j < i && Chooses(c, files, j, path) { assert !Chooses(c, files, i, path); }
  }

  /** An entry chooses at most one path, and a new one unless it overwrites. */
  lemma ChoiceUnique(c: Config, files: map<string, Bytes>, i: nat, path: string, other: string)
    requires i < |c.targets| && Chooses(c, files, i, path)
    ensures Chooses(c, files, i, other) ==> path == other
    ensures c.resolution != Overwrite ==> path !in files
  {
    hide CopyPath, Render;
    var target := c.targets[i];
    if Render(target) in files && c.resolution == CreateCopy && Chooses(c, files, i, other) {
      var k :| 1 <= k <= 10000 && path == CopyPath(target, k) && forall j | 1 <= j < k :: CopyPath(target, j) in files;
      var l :| 1 <= l <= 10000 && other == CopyPath(target, l) && forall j | 1 <= j < l :: CopyPath(target, j) in files;
      assert !(k < l) && !(l < k);
    }
  }

  /** Every task that has a path chose it as it would have at the start, and no other path changed. */
  ghost predicate AsAtStart(c: Config, initially: map<string, Bytes>, s: State) {
    && |s.tasks| == |c.targets|
    && (forall i: nat | i < |s.tasks| && HasPath(s.tasks[i]) :: Chooses(c, initially, i, s.tasks[i].path))
    && (forall p | Untouched(s, p) :: p in s.files <==> p in initially)
  }

  /** A file that appeared belongs to another task; one that was there still is. */
  lemma Appeared(c: Config, initially: map<string, Bytes>, s: State, i: nat, p: string)
    requires AsAtStart(c, initially, s) && c.resolution != Overwrite && ChoicesDistinct(c, initially)
    requires i < |s.tasks| && s.tasks[i].NotStarted?
    ensures p in initially ==> p in s.files
    ensures p in s.files && Chooses(c, initially, i, p) ==> p in initially
  {
    hide Chooses, ChoicesDistinct;
    if !Untouched(s, p) {
      var j: nat :| j < |s.tasks| && HasPath(s.tasks[j]) && s.tasks[j].path == p;
      ChoiceUnique(c, initially, j, p, p);
      ChoicesApart(c, initially, i, j, p);
    }
  }

  /** Of the candidates before `k`, all were taken at the start. */
  lemma {:induction false} CandidatesTaken(c: Config, initially: map<string, Bytes>, s: State, i: nat, k: nat)
    requires AsAtStart(c, initially, s) && c.resolution == CreateCopy && ChoicesDistinct(c, initially)
    requires i < |s.tasks| && s.tasks[i].NotStarted? && Render(c.targets[i]) in initially && 1 <= k <= 10001
    requires forall j | 1 <= j < k :: CopyPath(c.targets[i], j) in s.files
    ensures forall j | 1 <= j < k :: CopyPath(c.targets[i], j) in initially
  {
    TasksMatch(c, initially, s);
    hide CopyPath, Render, AsAtStart, ChoicesDistinct;
    if k > 1 {
      CandidatesTaken(c, initially, s, i, k - 1);
      var candidate := CopyPath(c.targets[i], k - 1);
      if candidate !in initially {
        assert Chooses(c, initially, i, candidate);
        Appeared(c, initially, s, i, candidate);
      }
    }
  }

  /** What a task chooses later is what it would have chosen at the start. */
  lemma ChoiceStable(c: Config, initially: map<string, Bytes>, s: State, i: nat, path: string)
    requires AsAtStart(c, initially, s) && ChoicesDistinct(c, initially)
    requires i < |s.tasks| && s.tasks[i].NotStarted? && Chooses(c, s.files, i, path)
    ensures Chooses(c, initially, i, path)
  {
    TasksMatch(c, initially, s);
    hide CopyPath, Render, AsAtStart, ChoicesDistinct;
    var target := c.targets[i];
    if c.resolution != Overwrite {
      Appeared(c, initially, s, i, Render(target));
      if Render(target) !in initially {
        assert Chooses(c, initially, i, Render(target));
      } else {
        var k :| 1 <= k <= 10000 && path == CopyPath(target, k) && path !in s.files
          && forall j | 1 <= j < k :: CopyPath(target, j) in s.files;
        CandidatesTaken(c, initially, s, i, k);
        Appeared(c, initially, s, i, path);
      }
    }
  }

  lemma TasksMatch(c: Config, initially: map<string, Bytes>, s: State)
    requires AsAtStart(c, initially, s)
    ensures |s.tasks| == |c.targets|
  {
  }

  /** A step changes only paths some task has, and a task that gets a path chooses it then. */
  lemma StepChooses(c: Config, s: State, s': State)
    requires Next(c, s, s') && |s.tasks| == |c.targets|
    ensures forall i: nat | i < |s.tasks| && HasPath(s'.tasks[i]) ::
              || (HasPath(s.tasks[i]) && s.tasks[i].path == s'.tasks[i].path)
              || (s.tasks[i].NotStarted? && Chooses(c, s.files, i, s'.tasks[i].path))
    ensures forall p | Untouched(s', p) :: Untouched(s, p) && (p in s'.files <==> p in s.files)
  {
    hide Chooses, Parts, WritePart;
    PathsKept(c, s, s');
  }

  lemma AsAtStartKept(c: Config, initially: map<string, Bytes>, s: State, s': State)
    requires AsAtStart(c, initially, s) && ChoicesDistinct(c, initially) && Next(c, s, s')
    ensures AsAtStart(c, initially, s')
  {
    hide Chooses, ChoicesDistinct, Next;
    PathsKept(c, s, s');
    StepChooses(c, s, s');
    forall i: nat | i < |s'.tasks| && HasPath(s'.tasks[i]) ensures Chooses(c, initially, i, s'.tasks[i].path) {
      if s.tasks[i].NotStarted? { ChoiceStable(c, initially, s, i, s'.tasks[i].path); }
    }
  }

  lemma {:induction false} RunAsAtStart(c: Config, run: seq<State>, k: nat)
    requires Run(c, run) && k < |run| && ChoicesDistinct(c, run[0].files)
    ensures AsAtStart(c, run[0].files, run[k])
  {
    hide Chooses, ChoicesDistinct, Next;
    if k > 0 {
      RunAsAtStart(c, run, k - 1);
      AsAtStartKept(c, run[0].files, run[k - 1], run[k]);
    }
  }

  /** If the choices differ on the files at the start, no two tasks ever have the same path. */
  lemma DistinctFromStart(c: Config, run: seq<State>, k: nat)
    requires Run(c, run) && k < |run| && ChoicesDistinct(c, run[0].files)
    ensures PathsDistinct(run[k])
  {
    RunAsAtStart(c, run, k);
    hide Chooses, Run, ChoicesDistinct;
    var s := run[k];
    forall i, j | 0 <= i < j < |s.tasks| && HasPath(s.tasks[i]) && HasPath(s.tasks[j])
      ensures s.tasks[i].path != s.tasks[j].path
    {
      ChoicesApart(c, run[0].files, i, j, s.tasks[i].path);
    }
  }

  /** Two tasks that would choose the same path at the start can both start before either writes. */
  lemma ClashReached(c: Config, s: State, i: nat, j: nat, path: string)
    requires Fresh(c, s) && i < j < |c.targets| && Chooses(c, s.files, i, path) && Chooses(c, s.files, j, path)
    ensures exists run :: Run(c, run) && run[0] == s && !PathsDistinct(run[|run| - 1])
  {
    hide Chooses;
    var first := s.(tasks := s.tasks[i := Writing(path, 0)]);
    var second := first.(tasks := first.tasks[j := Writing(path, 0)]);
    assert StartStep(c, s, first, i);
    assert StartStep(c, first, second, j);
    var run := [s, first, second];
    assert Run(c, run);
    assert HasPath(second.tasks[i]) && HasPath(second.tasks[j]) && second.tasks[i].path == second.tasks[j].path;
  }

  /** No interleaving from `s` lets two tasks have the same path. */
  ghost predicate NeverClashes(c: Config, s: State) {
    forall run | Run(c, run) && run[0] == s :: PathsDistinct(run[|run| - 1])
  }

  /** Exactly when: no two entries would choose the same path on the files as they are at the start. */
  lemma NeverClashesExactly(c: Config, s: State)
    requires Fresh(c, s)
    ensures NeverClashes(c, s) <==> ChoicesDistinct(c, s.files)
  {
    hide Chooses, Next, Fresh, PathsDistinct;
    if ChoicesDistinct(c, s.files) {
      forall run | Run(c, run) && run[0] == s ensures PathsDistinct(run[|run| - 1]) {
        DistinctFromStart(c, run, |run| - 1);
      }
    } else {
      var i: nat, j: nat, path :| i < j < |c.targets| && Chooses(c, s.files, i, path) && Chooses(c, s.files, j, path);
      ClashReached(c, s, i, j, path);
      var run :| Run(c, run) && run[0] == s && !PathsDistinct(run[|run| - 1]);
    }
  }

  /** In every interleaving, if no two entries would choose the same path at the start: a task that ends with the
      size check passed left exactly the content the store holds for its entry, whatever was in the way, whatever
      the other tasks did or failed to do; and every path no task chose is as it was. */
  lemma DownloadSafety(c: Config, run: seq<State>, k: nat, i: nat, content: Bytes)
    requires Run(c, run) && k < |run| && ChoicesDistinct(c, run[0].files) && i < |run[k].tasks|
    ensures forall p | Untouched(run[k], p) ::
      (p in run[k].files <==> p in run[0].files) && (p in run[k].files ==> run[k].files[p] == run[0].files[p])
    ensures run[k].tasks[i].Done? && c.verifySize && i < |c.entries| && |content| == c.entries[i].size
              && EntryHeld(c.store, c.entries[i], content) ==>
              run[k].tasks[i].path in run[k].files && run[k].files[run[k].tasks[i].path] == content
  {
    DistinctFromStart(c, run, k);
    RunInv(c, run, k);
    hide Run, ChoicesDistinct;
    if run[k].tasks[i].Done? && c.verifySize && |content| == c.entries[i].size
      && EntryHeld(c.store, c.entries[i], content)
    {
      assert TaskOk(c, run[k].files, c.entries[i], run[k].tasks[i]);
      WrittenIsContent(c.store, c.entries[i], run[k].files[run[k].tasks[i].path], content);
    }
  }

  // ---------------------------------------------------------------- the condition, by conflict mode

  ghost predicate TargetsDistinct(c: Config) {
    forall i, j | 0 <= i < j < |c.targets| :: Render(c.targets[i]) != Render(c.targets[j])
  }

  /** When existing files are overwritten, the condition is that the targets differ; when they are skipped, that the
      targets that do not exist yet differ. */
  lemma DistinctWithoutCopies(c: Config, files: map<string, Bytes>)
    ensures c.resolution == Overwrite ==> (ChoicesDistinct(c, files) <==> TargetsDistinct(c))
    ensures c.resolution == Skip ==> (ChoicesDistinct(c, files) <==>
              forall i, j | 0 <= i < j < |c.targets| && Render(c.targets[i]) !in files ::
                Render(c.targets[i]) != Render(c.targets[j]))
    ensures c.resolution != CreateCopy && TargetsDistinct(c) ==> ChoicesDistinct(c, files)
  {
    hide Render, CopyPath;
    forall i: nat, j: nat | i < j < |c.targets|
      ensures ChoicesDistinct(c, files) && (c.resolution == Overwrite || Render(c.targets[i]) !in files) ==>
                Render(c.targets[i]) != Render(c.targets[j])
    {
      if Render(c.targets[i]) == Render(c.targets[j]) && (c.resolution == Overwrite || Render(c.targets[i]) !in files) {
        assert Chooses(c, files, i, Render(c.targets[i])) && Chooses(c, files, j, Render(c.targets[i]));
      }
    }
  }

  /** With copies distinct targets are not enough: a copy can take the name another file of the manifest is about
      to get, and then some interleaving writes both to it. */
  lemma CopyTakesTarget(c: Config, s: State, i: nat, j: nat)
    requires Fresh(c, s) && c.resolution == CreateCopy && i < |c.targets| && j < |c.targets| && i != j
    requires Render(c.targets[i]) in s.files && Render(c.targets[j]) !in s.files
    requires exists k | 1 <= k <= 10000 ::
      (Render(c.targets[j]) == CopyPath(c.targets[i], k)
       && forall l | 1 <= l < k :: CopyPath(c.targets[i], l) in s.files)
    ensures !ChoicesDistinct(c, s.files) && !NeverClashes(c, s)
  {
    hide CopyPath, Render, Fresh;
    var path := Render(c.targets[j]);
    assert Chooses(c, s.files, i, path) && Chooses(c, s.files, j, path);
    if ChoicesDistinct(c, s.files) { ChoicesApart(c, s.files, i, j, path); }
    NeverClashesExactly(c, s);
  }

  /** Unless copies are made, every task that has a path has its own target. */
  lemma {:induction false} OwnTargets(c: Config, run: seq<State>, k: nat)
    requires Run(c, run) && k < |run| && c.resolution != CreateCopy
    ensures |run[k].tasks| == |c.targets|
    ensures forall i | 0 <= i < |c.targets| && HasPath(run[k].tasks[i]) :: run[k].tasks[i].path == Render(c.targets[i])
  {
    hide Parts, WritePart;
    if k > 0 { OwnTargets(c, run, k - 1); }
  }

  // ---------------------------------------------------------------- what was there

  /** Every file that was there is there as it was, and belongs to no task. */
  ghost predicate LeftAlone(initially: map<string, Bytes>, s: State) {
    && (forall p | p in initially :: p in s.files && s.files[p] == initially[p])
    && (forall i | 0 <= i < |s.tasks| && HasPath(s.tasks[i]) :: s.tasks[i].path !in initially)
  }

  lemma LeftAloneKept(c: Config, initially: map<string, Bytes>, s: State, s': State)
    requires c.resolution != Overwrite && LeftAlone(initially, s) && Next(c, s, s')
    requires |s.tasks| == |c.targets|
    ensures LeftAlone(initially, s')
  {
    StepChooses(c, s, s');
    PathsKept(c, s, s');
    hide Chooses, Parts, WritePart, EntrySize;
    forall i: nat | i < |s'.tasks| && HasPath(s'.tasks[i]) ensures s'.tasks[i].path !in initially {
      if !HasPath(s.tasks[i]) { ChoiceUnique(c, s.files, i, s'.tasks[i].path, ""); }
    }
    assert forall p | p in initially :: p in s'.files && s'.files[p] == s.files[p];
  }

  /** Unless existing files are to be overwritten, no run touches a file that was there at the start: not by skipping,
      not by copying, not by failing. */
  lemma {:induction false} ExistingKept(c: Config, run: seq<State>, k: nat)
    requires Run(c, run) && k < |run| && c.resolution != Overwrite
    ensures |run[k].tasks| == |c.targets| && LeftAlone(run[0].files, run[k])
  {
    hide Next, LeftAlone;
    if k > 0 {
      ExistingKept(c, run, k - 1);
      PathsKept(c, run[k - 1], run[k]);
      LeftAloneKept(c, run[0].files, run[k - 1], run[k]);
    } else {
      NoneStarted(c, run[0]);
    }
  }

  lemma NoneStarted(c: Config, s: State)
    requires Fresh(c, s)
    ensures LeftAlone(s.files, s)
  {
  }

  /** An entry is skipped only where skipping is asked for and its target is there; then no file changes. */
  lemma SkipDecides(c: Config, s: State, s': State, i: nat)
    requires Next(c, s, s') && i < |s.tasks| == |s'.tasks| == |c.entries| == |c.targets|
    requires s.tasks[i].NotStarted? && s'.tasks[i] != s.tasks[i] && (s'.tasks[i].Skipped? || s'.tasks[i].Writing?)
    ensures s'.tasks[i].Skipped? <==> c.resolution == Skip && Render(c.targets[i]) in s.files
    ensures s'.files == s.files && !s.cancelled
    ensures s'.tasks[i].Writing? ==> s'.tasks[i].n == 0
    ensures s'.tasks[i].Writing? && (c.resolution == Overwrite || Render(c.targets[i]) !in s.files) ==>
              s'.tasks[i].path == Render(c.targets[i])
  {
    hide Parts, WritePart, EntrySize, CopyPath, Render;
  }

  // ---------------------------------------------------------------- accounting

  /** The statistics a task has reported. */
  function Stats(e: DownloadEntry, p: Phase): Transfer.TransferStatistics {
    match p
    case Done(_) => Transfer.Uploaded(EntrySize(e))
    case Skipped => Transfer.Skipped(e.size)
    case _ => Transfer.NO_TRANSFER
  }

  function MergedStats(entries: seq<DownloadEntry>, tasks: seq<Phase>): Transfer.TransferStatistics
    requires |entries| == |tasks|
  {
    if tasks == [] then Transfer.NO_TRANSFER
    else
      var n := |tasks| - 1;
      Transfer.Merge(MergedStats(entries[..n], tasks[..n]), Stats(entries[n], tasks[n]))
  }

  /** The shared counters are those of the merged statistics. */
  ghost predicate Accounted(c: Config, s: State) {
    && |s.tasks| == |c.entries|
    && s.completedBytes == Transfer.TotalBytes(MergedStats(c.entries, s.tasks))
    && s.completedCount == MergedStats(c.entries, s.tasks).filesProcessed
  }

  lemma MergeLaws(a: Transfer.TransferStatistics, b: Transfer.TransferStatistics, d: Transfer.TransferStatistics)
    ensures Transfer.Merge(Transfer.Merge(a, b), d) == Transfer.Merge(Transfer.Merge(a, d), b)
    ensures Transfer.Merge(a, Transfer.NO_TRANSFER) == a
    ensures Transfer.TotalBytes(Transfer.Merge(a, b)) == Transfer.TotalBytes(a) + Transfer.TotalBytes(b)
    ensures Transfer.Merge(a, b).filesProcessed == a.filesProcessed + b.filesProcessed
  {
  }

  lemma {:induction false} MergedUpdate(entries: seq<DownloadEntry>, tasks: seq<Phase>, i: nat, p: Phase)
    requires |entries| == |tasks| && i < |tasks| && Stats(entries[i], tasks[i]) == Transfer.NO_TRANSFER
    ensures MergedStats(entries, tasks[i := p]) == Transfer.Merge(MergedStats(entries, tasks), Stats(entries[i], p))
  {
    var n, after := |tasks| - 1, tasks[i := p];
    hide Stats, Transfer.Merge;
    var before := MergedStats(entries[..n], tasks[..n]);
    assert MergedStats(entries, tasks) == Transfer.Merge(before, Stats(entries[n], tasks[n]));
    assert MergedStats(entries, after) ==
           Transfer.Merge(MergedStats(entries[..n], after[..n]), Stats(entries[n], after[n]));
    if i == n {
      assert after[..n] == tasks[..n];
      MergeLaws(before, Stats(entries[i], p), Stats(entries[i], p));
    } else {
      assert after[..n] == tasks[..n][i := p];
      MergedUpdate(entries[..n], tasks[..n], i, p);
      MergeLaws(before, Stats(entries[i], p), Stats(entries[n], tasks[n]));
    }
  }

  predicate Running(p: Phase) { p.NotStarted? || p.Writing? }

  /** A step moves one running task, counts what that task reports, and brings it closer to its end. */
  ghost predicate Moves(c: Config, s: State, s': State, i: nat, p: Phase) {
    && i < |s.tasks| == |c.entries| && Running(s.tasks[i]) && s'.tasks == s.tasks[i := p]
    && s'.completedBytes == s.completedBytes + Transfer.TotalBytes(Stats(c.entries[i], p))
    && s'.completedCount == s.completedCount + Stats(c.entries[i], p).filesProcessed
    && Remaining(c.entries[i], p) < Remaining(c.entries[i], s.tasks[i])
  }

  lemma StatsBytes(e: DownloadEntry, p: Phase)
    ensures Transfer.TotalBytes(Stats(e, p)) == if p.Done? then EntrySize(e) else if p.Skipped? then e.size else 0
    ensures Stats(e, p).filesProcessed == if p.Done? || p.Skipped? then 1 else 0
  {
    hide EntrySize;
  }

  lemma StepMoves(c: Config, s: State, s': State)
    requires Next(c, s, s') && |s.tasks| == |c.entries|
    ensures exists i: nat, p :: Moves(c, s, s', i, p)
  {
    hide SkipStep, StartStep, WriteStep, FinishStep, FailStep, Moves;
    if i: nat :| SkipStep(c, s, s', i) || StartStep(c, s, s', i) {
      var p := StartMoves(c, s, s', i);
    } else if i: nat :| WriteStep(c, s, s', i) {
      var p := WriteMoves(c, s, s', i);
    } else if i: nat :| FinishStep(c, s, s', i) {
      var p := FinishMoves(c, s, s', i);
    } else {
      var i: nat :| FailStep(c, s, s', i);
      var p := FailMoves(c, s, s', i);
    }
  }

  lemma StartMoves(c: Config, s: State, s': State, i: nat) returns (p: Phase)
    requires |s.tasks| == |c.entries| && (SkipStep(c, s, s', i) || StartStep(c, s, s', i))
    ensures Moves(c, s, s', i, p)
  {
    hide Stats, Parts, Chooses, EntrySize;
    p := s'.tasks[i];
    StatsBytes(c.entries[i], p);
  }

  lemma WriteMoves(c: Config, s: State, s': State, i: nat) returns (p: Phase)
    requires |s.tasks| == |c.entries| && WriteStep(c, s, s', i)
    ensures Moves(c, s, s', i, p)
  {
    hide Stats, Parts, WritePart, EntrySize;
    p := Writing(s.tasks[i].path, s.tasks[i].n + 1);
    StatsBytes(c.entries[i], p);
  }

  lemma FinishMoves(c: Config, s: State, s': State, i: nat) returns (p: Phase)
    requires |s.tasks| == |c.entries| && FinishStep(c, s, s', i)
    ensures Moves(c, s, s', i, p)
  {
    hide Stats, Parts, EntrySize;
    p := s'.tasks[i];
    StatsBytes(c.entries[i], p);
  }

  lemma FailMoves(c: Config, s: State, s': State, i: nat) returns (p: Phase)
    requires |s.tasks| == |c.entries| && FailStep(c, s, s', i)
    ensures Moves(c, s, s', i, p)
  {
    hide Stats, Parts, SameElsewhere, EntrySize;
    p := if s.tasks[i].NotStarted? then Failed else FailedAt(s.tasks[i].path);
    StatsBytes(c.entries[i], p);
  }

  lemma RunningStats(e: DownloadEntry, p: Phase)
    requires Running(p)
    ensures Stats(e, p) == Transfer.NO_TRANSFER
  {
    hide EntrySize;
  }

  lemma AccountingKept(c: Config, s: State, s': State)
    requires Accounted(c, s) && Next(c, s, s')
    ensures Accounted(c, s')
  {
    hide Next, Remaining, MergedStats, Stats, Transfer.Merge, Transfer.TotalBytes;
    StepMoves(c, s, s');
    var i: nat, p :| Moves(c, s, s', i, p);
    RunningStats(c.entries[i], s.tasks[i]);
    MergedUpdate(c.entries, s.tasks, i, p);
    MergeLaws(MergedStats(c.entries, s.tasks), Stats(c.entries[i], p), Transfer.NO_TRANSFER);
  }

  lemma {:induction false} RunAccounted(c: Config, run: seq<State>, k: nat)
    requires Run(c, run) && k < |run|
    ensures Accounted(c, run[k])
  {
    hide Next;
    if k > 0 {
      RunAccounted(c, run, k - 1);
      AccountingKept(c, run[k - 1], run[k]);
    } else {
      NothingMerged(c.entries, run[0].tasks);
    }
  }

  lemma {:induction false} NothingMerged(entries: seq<DownloadEntry>, tasks: seq<Phase>)
    requires |entries| == |tasks| && forall i | 0 <= i < |tasks| :: tasks[i].NotStarted?
    ensures MergedStats(entries, tasks) == Transfer.NO_TRANSFER
  {
    hide EntrySize, Transfer.Merge;
    if tasks != [] {
      var n := |tasks| - 1;
      assert tasks[n].NotStarted?;
      NothingMerged(entries[..n], tasks[..n]);
      MergeLaws(Transfer.NO_TRANSFER, Transfer.NO_TRANSFER, Transfer.NO_TRANSFER);
      assert MergedStats(entries, tasks)
          == Transfer.Merge(MergedStats(entries[..n], tasks[..n]), Stats(entries[n], tasks[n]));
    }
  }

  /** The total the orchestrator reports. */
  function SizeSum(entries: seq<DownloadEntry>): nat {
    if entries == [] then 0 else SizeSum(entries[..|entries| - 1]) + entries[|entries| - 1].size
  }

  /** There is an object for every byte of the entry. */
  predicate Covered(e: DownloadEntry) {
    || e.hash.Some?
    || e.size == 0
    || (e.chunkHashes.Some? && |e.chunkHashes.value| >= |ChunkList(e.size, CHUNK_SIZE)|)
  }

  /** A download never reports more than the entry's size, and reports its size exactly when the objects cover it. */
  lemma TransferredIsSize(e: DownloadEntry)
    ensures EntrySize(e) <= e.size
    ensures EntrySize(e) == e.size <==> Covered(e)
  {
    if e.hash.None? && e.chunkHashes.Some? {
      var chunks, n := ChunkList(e.size, CHUNK_SIZE), Parts(e);
      SumLengthsTotal(e.size, CHUNK_SIZE);
      if n == |chunks| {
        assert chunks[..n] == chunks;
      } else if e.size == 0 {
        assert n == 0 && chunks[..0] == [];
      } else {
        ChunksAreContiguous(e.size, CHUNK_SIZE);
        SumLengthsGrows(chunks, n);
      }
    }
  }

  predicate Finished(p: Phase) { p.Done? || p.Skipped? }

  predicate Succeeded(tasks: seq<Phase>) { forall i | 0 <= i < |tasks| :: Finished(tasks[i]) }

  /** Every entry that was downloaded has an object for every byte. */
  predicate AllCovered(entries: seq<DownloadEntry>, tasks: seq<Phase>)
    requires |entries| == |tasks|
  {
    forall i | 0 <= i < |tasks| && tasks[i].Done? :: Covered(entries[i])
  }

  lemma StatsAtMost(e: DownloadEntry, p: Phase)
    ensures var stats := Stats(e, p);
      && Transfer.TotalBytes(stats) <= e.size
      && stats.filesProcessed == stats.filesTransferred + stats.filesSkipped == (if Finished(p) then 1 else 0)
      && (Finished(p) ==> (Transfer.TotalBytes(stats) == e.size <==> (p.Done? ==> Covered(e))))
  {
    hide Stats, EntrySize, Covered, Transfer.TotalBytes;
    StatsBytes(e, p);
    StatsFiles(e, p);
    TransferredIsSize(e);
  }

  lemma StatsFiles(e: DownloadEntry, p: Phase)
    ensures Stats(e, p).filesProcessed == Stats(e, p).filesTransferred + Stats(e, p).filesSkipped
  {
    hide EntrySize;
  }

  lemma {:induction false} MergedAtMost(entries: seq<DownloadEntry>, tasks: seq<Phase>)
    requires |entries| == |tasks|
    ensures var stats := MergedStats(entries, tasks);
      && Transfer.TotalBytes(stats) <= SizeSum(entries)
      && stats.filesProcessed == stats.filesTransferred + stats.filesSkipped <= |tasks|
      && (stats.filesProcessed == |tasks| <==> Succeeded(tasks))
      && (Succeeded(tasks) ==> (Transfer.TotalBytes(stats) == SizeSum(entries) <==> AllCovered(entries, tasks)))
  {
    hide Covered, Stats, Finished, Succeeded, AllCovered, Transfer.Merge, Transfer.TotalBytes;
    if tasks == [] {
      NoneFinished(entries, tasks);
    } else {
      var n := |tasks| - 1;
      var before, one := MergedStats(entries[..n], tasks[..n]), Stats(entries[n], tasks[n]);
      MergedAtMost(entries[..n], tasks[..n]);
      StatsAtMost(entries[n], tasks[n]);
      MergedSnoc(entries, tasks);
      FinishedSnoc(entries, tasks);
      MergeLaws(before, one, Transfer.NO_TRANSFER);
      MergedFiles(before, one);
      hide MergedStats, SizeSum;
    }
  }

  lemma NoneFinished(entries: seq<DownloadEntry>, tasks: seq<Phase>)
    requires |entries| == |tasks| == 0
    ensures Succeeded(tasks) && AllCovered(entries, tasks) && Transfer.TotalBytes(Transfer.NO_TRANSFER) == 0
  {
  }

  lemma FinishedSnoc(entries: seq<DownloadEntry>, tasks: seq<Phase>)
    requires |entries| == |tasks| && tasks != []
    ensures var n := |tasks| - 1;
      && (Succeeded(tasks) <==> Succeeded(tasks[..n]) && Finished(tasks[n]))
      && (AllCovered(entries, tasks) <==>
          AllCovered(entries[..n], tasks[..n]) && (tasks[n].Done? ==> Covered(entries[n])))
  {
    hide Covered, Finished;
    var n := |tasks| - 1;
    assert forall i | 0 <= i < n :: tasks[..n][i] == tasks[i] && entries[..n][i] == entries[i];
  }

  lemma MergedFiles(a: Transfer.TransferStatistics, b: Transfer.TransferStatistics)
    ensures Transfer.Merge(a, b).filesTransferred == a.filesTransferred + b.filesTransferred
    ensures Transfer.Merge(a, b).filesSkipped == a.filesSkipped + b.filesSkipped
  {
  }

  lemma MergedSnoc(entries: seq<DownloadEntry>, tasks: seq<Phase>)
    requires |entries| == |tasks| && tasks != []
    ensures var n := |tasks| - 1;
      && MergedStats(entries, tasks)
         == Transfer.Merge(MergedStats(entries[..n], tasks[..n]), Stats(entries[n], tasks[n]))
      && SizeSum(entries) == SizeSum(entries[..n]) + entries[n].size
  {
    hide Stats, Transfer.Merge;
  }

  /** In every run the shared counters are those of the finished tasks' merged statistics, and never exceed the totals.
      The count is the number of entries exactly when all tasks succeeded; then the bytes are the sum of the entry sizes
      exactly when the objects cover every entry that was downloaded. */
  lemma BytesConserved(c: Config, run: seq<State>, k: nat)
    requires Run(c, run) && k < |run|
    ensures Accounted(c, run[k])
    ensures run[k].completedBytes <= SizeSum(c.entries) && run[k].completedCount <= |c.entries|
    ensures Succeeded(run[k].tasks) <==> run[k].completedCount == |c.entries|
    ensures Succeeded(run[k].tasks) ==>
              (run[k].completedBytes == SizeSum(c.entries) <==> AllCovered(c.entries, run[k].tasks))
  {
    RunAccounted(c, run, k);
    MergedAtMost(c.entries, run[k].tasks);
  }

  // ---------------------------------------------------------------- every run ends

  function Remaining(e: DownloadEntry, p: Phase): nat {
    match p
    case NotStarted => Parts(e) + 2
    case Writing(_, n) => if n <= Parts(e) then Parts(e) - n + 1 else 1
    case _ => 0
  }

  function AllRemaining(entries: seq<DownloadEntry>, tasks: seq<Phase>): nat
    requires |entries| == |tasks|
  {
    Transfer.Sum(seq(|tasks|, i requires 0 <= i < |tasks| => Remaining(entries[i], tasks[i])))
  }

  lemma RemainingUpdate(entries: seq<DownloadEntry>, tasks: seq<Phase>, i: nat, p: Phase)
    requires |entries| == |tasks| && i < |tasks| && Remaining(entries[i], p) < Remaining(entries[i], tasks[i])
    ensures AllRemaining(entries, tasks[i := p]) < AllRemaining(entries, tasks)
  {
    hide Remaining;
    var ns := seq(|tasks|, j requires 0 <= j < |tasks| => Remaining(entries[j], tasks[j]));
    Transfer.SumUpdate(ns, i, Remaining(entries[i], p));
    var after := tasks[i := p];
    assert ns[i := Remaining(entries[i], p)]
        == seq(|after|, j requires 0 <= j < |after| => Remaining(entries[j], after[j]));
  }

  /** Every step brings the download closer to its end: no schedule runs for ever. */
  lemma StepsRunOut(c: Config, s: State, s': State)
    requires Next(c, s, s') && |s.tasks| == |c.entries|
    ensures |s'.tasks| == |c.entries| && AllRemaining(c.entries, s'.tasks) < AllRemaining(c.entries, s.tasks)
  {
    hide Next, Remaining, AllRemaining, Stats, Transfer.TotalBytes;
    StepMoves(c, s, s');
    var i: nat, p :| Moves(c, s, s', i, p);
    RemainingUpdate(c.entries, s.tasks, i, p);
  }

  /** Nothing stands in the way of the task's next action. */
  ghost predicate Unhindered(c: Config, s: State, i: nat)
    requires i < |s.tasks| == |c.entries| == |c.targets|
  {
    var e := c.entries[i];
    match s.tasks[i]
    case NotStarted =>
      !s.cancelled && (Render(c.targets[i]) in s.files && c.resolution == CreateCopy ==>
                         exists k | 1 <= k <= 10000 :: CopyPath(c.targets[i], k) !in s.files)
    case Writing(path, n) =>
      if n < Parts(e) then (if e.hash.Some? then e.hash.value else e.chunkHashes.value[n]) in c.store
      else n == Parts(e) && (e.hash.Some? || e.chunkHashes.Some?)
    case _ => false
  }

  ghost predicate Advances(c: Config, s: State, s': State, i: nat) {
    SkipStep(c, s, s', i) || StartStep(c, s, s', i) || WriteStep(c, s, s', i) || FinishStep(c, s, s', i)
  }

  lemma NextStep(c: Config, s: State, i: nat) returns (s': State)
    requires i < |s.tasks| == |c.entries| == |c.targets| && Unhindered(c, s, i)
    ensures Advances(c, s, s', i)
  {
    hide CopyPath, Render, Parts, EntrySize, ChunkList;
    var e, target := c.entries[i], Render(c.targets[i]);
    match s.tasks[i]
    case NotStarted =>
      if target in s.files && c.resolution == Skip {
        s' := State(s.files, s.tasks[i := Skipped], s.completedBytes + e.size, s.completedCount + 1, false);
      } else {
        var path := Choice(c, s, i);
        s' := s.(tasks := s.tasks[i := Writing(path, 0)]);
        assert StartStep(c, s, s', i);
      }
    case Writing(path, n) =>
      if n < Parts(e) {
        var written := WritePart(c.store, e, n, BytesAt(s.files, path)).value;
        s' := s.(files := s.files[path := written], tasks := s.tasks[i := Writing(path, n + 1)]);
      } else {
        var good := !c.verifySize || (path in s.files && |s.files[path]| == e.size);
        s' := if good then State(s.files, s.tasks[i := Done(path)], s.completedBytes + EntrySize(e),
                                 s.completedCount + 1, s.cancelled)
              else s.(tasks := s.tasks[i := FailedAt(path)]);
        assert FinishStep(c, s, s', i);
      }
  }

  lemma Choice(c: Config, s: State, i: nat) returns (path: string)
    requires i < |s.tasks| == |c.entries| == |c.targets| && Unhindered(c, s, i) && s.tasks[i].NotStarted?
    requires !(Render(c.targets[i]) in s.files && c.resolution == Skip)
    ensures Chooses(c, s.files, i, path)
  {
    hide CopyPath, Render;
    var target := c.targets[i];
    if Render(target) in s.files && c.resolution == CreateCopy {
      var k := FirstFree(s.files, target, 1);
      path := CopyPath(target, k);
    } else {
      path := Render(target);
    }
  }

  lemma {:induction false} FirstFree(files: map<string, Bytes>, target: LocalPath, from: nat) returns (k: nat)
    requires 1 <= from <= 10000 && exists j | from <= j <= 10000 :: CopyPath(target, j) !in files
    ensures from <= k <= 10000 && CopyPath(target, k) !in files
    ensures forall j | from <= j < k :: CopyPath(target, j) in files
    decreases 10000 - from
  {
    hide CopyPath;
    if CopyPath(target, from) in files { k := FirstFree(files, target, from + 1); } else { k := from; }
  }

  /** A task can go on exactly when it is not told to stop before it starts, finds a free name if it needs one for a
      copy, its next object is there, and its entry has objects at all; otherwise a running task can only fail. */
  lemma AdvancesExactly(c: Config, s: State, i: nat)
    requires i < |s.tasks| == |c.entries| == |c.targets|
    ensures (exists s' :: Advances(c, s, s', i)) <==> Unhindered(c, s, i)
  {
    if Unhindered(c, s, i) { var s' := NextStep(c, s, i); }
    hide CopyPath, Render, Parts, EntrySize, ChunkList;
  }
}
