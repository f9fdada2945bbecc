/** Uploading the files of a manifest in parallel: every task checks, puts and marks one object after
    another, and the tasks interleave freely. Safety and accounting over every run. */
module Upload {
  import opened Wrappers
  import opened Manifest
  import opened Chunks
  import opened Transfer

  datatype UploadEntry = UploadEntry(localPath: string, hash: Option<string>, chunkHashes: Option<seq<string>>,
                                     size: U64)

  /** One object to upload: a whole file, or a range of one. */
  datatype Job = Job(key: string, size: nat, offset: nat, whole: bool)

  /** What does not change during an upload: the entries, the local files, the hash, whether a check cache is used. */
  datatype Config = Config(entries: seq<UploadEntry>, files: map<string, Bytes>, h: HashFunction, useCache: bool)

  /** The objects of an entry, in upload order; chunks are zipped with hashes. */
  function Jobs(e: UploadEntry): seq<Job> {
    if e.hash.Some? then [Job(e.hash.value, e.size, 0, true)]
    else if e.chunkHashes.Some? then
      var chunks, hashes := ChunkList(e.size, CHUNK_SIZE), e.chunkHashes.value;
      seq(Min(|chunks|, |hashes|), i requires 0 <= i < Min(|chunks|, |hashes|) =>
        Job(hashes[i], chunks[i].length, chunks[i].offset, false))
    else []
  }

  lemma SingleJob(e: UploadEntry)
    requires e.hash.Some?
    ensures Jobs(e) == [Job(e.hash.value, e.size, 0, true)]
  {
  }

  /** What a put sends; a range put needs the whole range to be there. */
  function JobBytes(c: Config, path: string, job: Job): Option<Bytes> {
    if path !in c.files then None
    else
      var file := c.files[path];
      if job.whole then Some(file)
      else if job.offset + job.size <= |file| then Some(file[job.offset..job.offset + job.size])
      else None
  }

  // ---------------------------------------------------------------- the transition system

  /** Where a task is; `n` is the object being worked on. */
  datatype Phase =
    | NotStarted
    | Checking(n: nat)       // about to ask the check cache
    | Heading(n: nat)        // about to ask the store for the object's size
    | MarkingFound(n: nat)   // found with the right size, about to record that
    | Putting(n: nat)        // about to upload
    | MarkingPut(n: nat)     // uploaded, about to record that
    | Finishing              // about to update the shared counters
    | Done
    | Failed

  datatype Task = Task(phase: Phase, stats: TransferStatistics)

  datatype State = State(
    store: map<string, Bytes>, cache: set<string>,
    completedBytes: nat, completedCount: nat, cancelled: bool, tasks: seq<Task>)

  function InPhase(t: Task, p: Phase): Task { t.(phase := p) }

  function SkipJob(s: TransferStatistics, job: Job): TransferStatistics {
    s.(filesSkipped := s.filesSkipped + 1, bytesSkipped := s.bytesSkipped + job.size)
  }

  function PutJob(s: TransferStatistics, job: Job): TransferStatistics {
    s.(filesTransferred := s.filesTransferred + 1, bytesTransferred := s.bytesTransferred + job.size)
  }

  /** The task after object `n` was dealt with. */
  function NextJob(e: UploadEntry, n: nat, stats: TransferStatistics): Task {
    Task(if n + 1 < |Jobs(e)| then Checking(n + 1) else Finishing, stats)
  }

  /** A chunked upload checks for the file first; a single one only once it must upload. */
  predicate CanStart(c: Config, e: UploadEntry) {
    e.hash.Some? || (e.chunkHashes.Some? && e.localPath in c.files)
  }

  predicate InRange(e: UploadEntry, p: Phase) {
    match p
    case Checking(n) => n < |Jobs(e)|
    case Heading(n) => n < |Jobs(e)|
    case MarkingFound(n) => n < |Jobs(e)|
    case Putting(n) => n < |Jobs(e)|
    case MarkingPut(n) => n < |Jobs(e)|
    case _ => true
  }

  /** Task `t` of entry `e` takes its next action without a fault: the new store, cache and task. */
  function Act(c: Config, e: UploadEntry, cancelled: bool, store: map<string, Bytes>, cache: set<string>, t: Task)
    : (map<string, Bytes>, set<string>, Task)
    requires InRange(e, t.phase)
  {
    var jobs := Jobs(e);
    match t.phase
    case NotStarted =>
      if cancelled || !CanStart(c, e) then (store, cache, InPhase(t, Failed))
      else (store, cache, Task(if jobs == [] then Finishing else Checking(0), NO_TRANSFER))
    case Checking(n) =>
      if c.useCache && jobs[n].key in cache then (store, cache, NextJob(e, n, SkipJob(t.stats, jobs[n])))
      else (store, cache, InPhase(t, Heading(n)))
    case Heading(n) =>
      var found := jobs[n].key in store && |store[jobs[n].key]| == jobs[n].size;
      if !found then (store, cache, InPhase(t, Putting(n)))
      else if c.useCache then (store, cache, InPhase(t, MarkingFound(n)))
      else (store, cache, NextJob(e, n, SkipJob(t.stats, jobs[n])))
    case MarkingFound(n) => (store, cache + {jobs[n].key}, NextJob(e, n, SkipJob(t.stats, jobs[n])))
    case Putting(n) =>
      var bytes := JobBytes(c, e.localPath, jobs[n]);
      if bytes.None? then (store, cache, InPhase(t, Failed))
      else
        (store[jobs[n].key := bytes.value], cache,
         if c.useCache then InPhase(t, MarkingPut(n)) else NextJob(e, n, PutJob(t.stats, jobs[n])))
    case MarkingPut(n) => (store, cache + {jobs[n].key}, NextJob(e, n, PutJob(t.stats, jobs[n])))
    case Finishing => (store, cache, Task(Done, t.stats.(filesProcessed := 1)))
    case Done => (store, cache, t)
    case Failed => (store, cache, t)
  }

  predicate Running(t: Task) { !t.phase.Done? && !t.phase.Failed? }

  /** Task `i` acts; finishing also adds to the shared counters. */
  ghost predicate TaskStep(c: Config, s: State, s': State, i: nat) {
    && i < |s.tasks| == |c.entries| && Running(s.tasks[i]) && InRange(c.entries[i], s.tasks[i].phase)
    && var t := s.tasks[i];
       var next := Act(c, c.entries[i], s.cancelled, s.store, s.cache, t);
       var done := t.phase.Finishing?;
       s' == State(next.0, next.1,
                   s.completedBytes + (if done then TotalBytes(t.stats) else 0),
                   s.completedCount + (if done then 1 else 0),
                   s.cancelled, s.tasks[i := next.2])
  }

  /** A request to the store fails, or the progress callback asks to stop before an upload. */
  ghost predicate FaultStep(c: Config, s: State, s': State, i: nat) {
    && i < |s.tasks| == |c.entries|
    && (s.tasks[i].phase.NotStarted? || s.tasks[i].phase.Heading? || s.tasks[i].phase.Putting?)
    && InRange(c.entries[i], s.tasks[i].phase)
    && (s' == s.(tasks := s.tasks[i := InPhase(s.tasks[i], Failed)]) ||
        (s.tasks[i].phase.NotStarted?
          && s' == s.(cancelled := true, tasks := s.tasks[i := InPhase(s.tasks[i], Failed)])))
  }

  /** The check cache drops an expired record. */
  ghost predicate ExpireStep(s: State, s': State) {
    exists k | k in s.cache :: s' == s.(cache := s.cache - {k})
  }

  ghost predicate Next(c: Config, s: State, s': State) {
    || (exists i: nat :: TaskStep(c, s, s', i))
    || (exists i: nat :: FaultStep(c, s, s', i))
    || ExpireStep(s, s')
  }

  ghost predicate Init(c: Config, s: State) {
    && |s.tasks| == |c.entries|
    && (forall i | 0 <= i < |s.tasks| :: s.tasks[i] == Task(NotStarted, NO_TRANSFER))
    && s.completedBytes == 0 && s.completedCount == 0 && !s.cancelled
  }

  /** A run: any number of steps of any tasks in any order. */
  ghost predicate Run(c: Config, run: seq<State>) {
    run != [] && Init(c, run[0]) && forall k | 0 <= k < |run| - 1 :: Next(c, run[k], run[k + 1])
  }

  /** The results are aggregated into Ok exactly when no task failed. */
  predicate Succeeded(s: State) { forall i | 0 <= i < |s.tasks| :: s.tasks[i].phase.Done? }

  // ---------------------------------------------------------------- accounting

  function JobSizes(jobs: seq<Job>, n: nat): nat
    requires n <= |jobs|
  {
    if n == 0 then 0 else JobSizes(jobs, n - 1) + jobs[n - 1].size
  }

  function EntryBytes(e: UploadEntry): nat { JobSizes(Jobs(e), |Jobs(e)|) }

  lemma {:induction false} ChunkJobSizes(e: UploadEntry, n: nat)
    requires e.hash.None? && e.chunkHashes.Some? && n <= |Jobs(e)|
    ensures JobSizes(Jobs(e), n) == SumLengths(ChunkList(e.size, CHUNK_SIZE)[..n])
  {
    if n > 0 {
      ChunkJobSizes(e, n - 1);
      assert ChunkList(e.size, CHUNK_SIZE)[..n][..n - 1] == ChunkList(e.size, CHUNK_SIZE)[..n - 1];
    }
  }

  /** The objects of an entry cover it: it has a hash, or at least as many chunk hashes as chunks (extra hashes are
      ignored), or it is empty. */
  predicate Covered(e: UploadEntry) {
    || e.hash.Some?
    || e.size == 0
    || (e.chunkHashes.Some? && |e.chunkHashes.value| >= |ChunkList(e.size, CHUNK_SIZE)|)
  }

  /** The objects of an entry never add up to more than its size, and to its size exactly when they cover it. */
  lemma EntryBytesIsSize(e: UploadEntry)
    ensures EntryBytes(e) <= e.size
    ensures EntryBytes(e) == e.size <==> Covered(e)
  {
    if e.hash.Some? {
      assert JobSizes(Jobs(e), 1) == JobSizes(Jobs(e), 0) + e.size;
    } else if e.chunkHashes.Some? {
      var chunks := ChunkList(e.size, CHUNK_SIZE);
      var n := |Jobs(e)|;
      ChunkJobSizes(e, n);
      SumLengthsTotal(e.size, CHUNK_SIZE);
      if e.size > 0 {
        ChunksAreContiguous(e.size, CHUNK_SIZE);
        SumLengthsGrows(chunks, n);
        if n == |chunks| { assert chunks[..n] == chunks; }
      } else if n == 1 {
        assert chunks[..1] == chunks;
      }
    }
  }

  /** How many objects a phase has behind it. */
  function JobsBehind(e: UploadEntry, p: Phase): nat {
    match p
    case Checking(n) => n
    case Heading(n) => n
    case MarkingFound(n) => n
    case Putting(n) => n
    case MarkingPut(n) => n
    case Finishing => |Jobs(e)|
    case Done => |Jobs(e)|
    case _ => 0
  }

  /** A task has accounted for exactly the objects behind it. */
  predicate TaskCounted(e: UploadEntry, t: Task) {
    && InRange(e, t.phase)
    && (!t.phase.Failed? ==> TotalBytes(t.stats) == JobSizes(Jobs(e), JobsBehind(e, t.phase)))
  }

  /** Bytes of finished tasks. */
  function FinishedBytes(tasks: seq<Task>): nat {
    if tasks == [] then 0
    else
      var t := tasks[|tasks| - 1];
      FinishedBytes(tasks[..|tasks| - 1]) + if t.phase.Done? then TotalBytes(t.stats) else 0
  }

  function FinishedCount(tasks: seq<Task>): nat {
    if tasks == [] then 0
    else FinishedCount(tasks[..|tasks| - 1]) + (if tasks[|tasks| - 1].phase.Done? then 1 else 0)
  }

  function AllBytes(entries: seq<UploadEntry>): nat {
    if entries == [] then 0 else AllBytes(entries[..|entries| - 1]) + EntryBytes(entries[|entries| - 1])
  }

  /** The results of all tasks merged into one. */
  function MergedStats(tasks: seq<Task>): TransferStatistics {
    if tasks == [] then NO_TRANSFER else Merge(MergedStats(tasks[..|tasks| - 1]), tasks[|tasks| - 1].stats)
  }

  ghost predicate Accounted(c: Config, s: State) {
    && |s.tasks| == |c.entries|
    && (forall i | 0 <= i < |s.tasks| :: TaskCounted(c.entries[i], s.tasks[i]))
    && s.completedBytes == FinishedBytes(s.tasks)
    && s.completedCount == FinishedCount(s.tasks)
  }

  lemma {:induction false} FinishedUpdate(tasks: seq<Task>, i: nat, t: Task)
    requires i < |tasks| && !tasks[i].phase.Done?
    ensures FinishedBytes(tasks[i := t]) == FinishedBytes(tasks) + (if t.phase.Done? then TotalBytes(t.stats) else 0)
    ensures FinishedCount(tasks[i := t]) == FinishedCount(tasks) + (if t.phase.Done? then 1 else 0)
  {
    var n := |tasks| - 1;
    if i == n {
      assert tasks[i := t][..n] == tasks[..n];
    } else {
      assert tasks[i := t][..n] == tasks[..n][i := t];
      FinishedUpdate(tasks[..n], i, t);
    }
  }

  lemma JobSizesNone(jobs: seq<Job>)
    ensures JobSizes(jobs, 0) == 0
  {
  }

  lemma JobSizesStep(jobs: seq<Job>, n: nat)
    requires n < |jobs|
    ensures JobSizes(jobs, n + 1) == JobSizes(jobs, n) + jobs[n].size
  {
  }

  /** A task that has an object before it counts the same in any phase of that object. */
  lemma StayCounted(e: UploadEntry, t: Task, p: Phase)
    requires TaskCounted(e, t) && !t.phase.Failed? && InRange(e, p) && JobsBehind(e, p) == JobsBehind(e, t.phase)
    ensures TaskCounted(e, InPhase(t, p))
  {
    hide Jobs, JobSizes;
  }

  lemma NextJobCounted(e: UploadEntry, t: Task, n: nat)
    requires TaskCounted(e, t) && !t.phase.Failed? && JobsBehind(e, t.phase) == n < |Jobs(e)|
    ensures var skipped, put := NextJob(e, n, SkipJob(t.stats, Jobs(e)[n])), NextJob(e, n, PutJob(t.stats, Jobs(e)[n]));
      TaskCounted(e, skipped) && Running(skipped) && TaskCounted(e, put) && Running(put)
  {
    hide Jobs, JobSizes;
    JobSizesStep(Jobs(e), n);
  }

  lemma StartCounted(e: UploadEntry)
    ensures TaskCounted(e, Task(if Jobs(e) == [] then Finishing else Checking(0), NO_TRANSFER))
  {
    hide Jobs, JobSizes;
    JobSizesNone(Jobs(e));
  }

  lemma ActCounts(c: Config, e: UploadEntry, cancelled: bool, store: map<string, Bytes>, cache: set<string>, t: Task)
    requires TaskCounted(e, t) && Running(t)
    ensures var t' := Act(c, e, cancelled, store, cache, t).2;
      && TaskCounted(e, t')
      && (t'.phase.Done? <==> t.phase.Finishing?) && (t'.phase.Done? ==> TotalBytes(t'.stats) == TotalBytes(t.stats))
  {
    hide Jobs, JobBytes, JobSizes, NextJob, SkipJob, PutJob, CanStart, TaskCounted;
    assert InRange(e, t.phase) by { CountedInRange(e, t); }
    FailedCounted(e, t);
    var n := JobsBehind(e, t.phase);
    if t.phase.NotStarted? {
      StartCounted(e);
    } else if t.phase.Finishing? {
      FinishedCounted(e, t);
    } else {
      NextJobCounted(e, t, n);
      StayCounted(e, t, Heading(n));
      StayCounted(e, t, MarkingFound(n));
      StayCounted(e, t, Putting(n));
      StayCounted(e, t, MarkingPut(n));
    }
  }

  lemma CountedInRange(e: UploadEntry, t: Task)
    requires TaskCounted(e, t)
    ensures InRange(e, t.phase)
  {
  }

  lemma FinishedCounted(e: UploadEntry, t: Task)
    requires TaskCounted(e, t) && t.phase.Finishing?
    ensures TaskCounted(e, Task(Done, t.stats.(filesProcessed := 1)))
  {
    hide Jobs, JobSizes;
  }

  /** Accounting is kept by every step, whatever the files and the store hold. */
  lemma AccountingKept(c: Config, s: State, s': State)
    requires Accounted(c, s) && Next(c, s, s')
    ensures Accounted(c, s')
  {
    hide Act, FinishedBytes, FinishedCount, TaskCounted, TotalBytes;
    if i: nat :| TaskStep(c, s, s', i) {
      ActCounts(c, c.entries[i], s.cancelled, s.store, s.cache, s.tasks[i]);
      FinishedUpdate(s.tasks, i, s'.tasks[i]);
    } else if i: nat :| FaultStep(c, s, s', i) {
      FailedCounted(c.entries[i], s.tasks[i]);
      FinishedUpdate(s.tasks, i, InPhase(s.tasks[i], Failed));
    }
  }

  lemma FailedCounted(e: UploadEntry, t: Task)
    ensures TaskCounted(e, InPhase(t, Failed))
  {
  }

  lemma {:induction false} NothingFinished(tasks: seq<Task>)
    requires forall i | 0 <= i < |tasks| :: tasks[i] == Task(NotStarted, NO_TRANSFER)
    ensures FinishedBytes(tasks) == 0 && FinishedCount(tasks) == 0
  {
    if tasks != [] { NothingFinished(tasks[..|tasks| - 1]); }
  }

  lemma {:induction false} RunAccounted(c: Config, run: seq<State>, k: nat)
    requires Run(c, run) && k < |run|
    ensures Accounted(c, run[k])
  {
    if k == 0 {
      NothingFinished(run[0].tasks);
    } else {
      RunAccounted(c, run, k - 1);
      AccountingKept(c, run[k - 1], run[k]);
    }
  }

  lemma {:induction false} FinishedAtMost(entries: seq<UploadEntry>, tasks: seq<Task>)
    requires |entries| == |tasks| && forall i | 0 <= i < |tasks| :: TaskCounted(entries[i], tasks[i])
    ensures FinishedBytes(tasks) <= AllBytes(entries) && FinishedCount(tasks) <= |entries|
    ensures (forall i | 0 <= i < |tasks| :: tasks[i].phase.Done?) ==>
              FinishedBytes(tasks) == AllBytes(entries) == TotalBytes(MergedStats(tasks))
                && FinishedCount(tasks) == |entries|
  {
    if tasks != [] {
      FinishedAtMost(entries[..|entries| - 1], tasks[..|tasks| - 1]);
      assert TaskCounted(entries[|entries| - 1], tasks[|tasks| - 1]);
    }
  }

  /** The total the orchestrator reports: the recorded sizes. */
  function SizeSum(entries: seq<UploadEntry>): nat {
    if entries == [] then 0 else SizeSum(entries[..|entries| - 1]) + entries[|entries| - 1].size
  }

  /** The objects of all entries add up to the recorded sizes exactly when they cover every entry. */
  lemma {:induction false} AllBytesIsSizeSum(entries: seq<UploadEntry>)
    ensures AllBytes(entries) <= SizeSum(entries)
    ensures AllBytes(entries) == SizeSum(entries) <==> forall i | 0 <= i < |entries| :: Covered(entries[i])
  {
    hide EntryBytes, Covered;
    if entries != [] {
      var n := |entries| - 1;
      AllBytesIsSizeSum(entries[..n]);
      EntryBytesIsSize(entries[n]);
      assert forall i | 0 <= i < n :: entries[..n][i] == entries[i];
    }
  }

  /** In every run: the shared byte counter never exceeds the sum of the entry sizes (so it cannot overflow when that
      fits). When all tasks succeed every byte of every object is accounted for once, as transferred or as skipped,
      and these bytes are the sum of the entry sizes exactly when the objects cover every entry. */
  lemma BytesConserved(c: Config, run: seq<State>, k: nat)
    requires Run(c, run) && k < |run|
    ensures run[k].completedBytes <= AllBytes(c.entries) <= SizeSum(c.entries) && run[k].completedCount <= |c.entries|
    ensures Succeeded(run[k]) ==>
              && run[k].completedBytes == AllBytes(c.entries) == TotalBytes(MergedStats(run[k].tasks))
              && run[k].completedCount == |c.entries|
              && (TotalBytes(MergedStats(run[k].tasks)) == SizeSum(c.entries) <==>
                  forall i | 0 <= i < |c.entries| :: Covered(c.entries[i]))
  {
    RunAccounted(c, run, k);
    FinishedAtMost(c.entries, run[k].tasks);
    AllBytesIsSizeSum(c.entries);
  }

  // ---------------------------------------------------------------- transferred means put

  /** In this step task `i` put object `n` into the store. */
  predicate Puts(s: State, s': State, i: nat) {
    && i < |s.tasks| && i < |s'.tasks| && s.tasks[i].phase.Putting?
    && s'.tasks[i].phase != s.tasks[i].phase && !s'.tasks[i].phase.Failed?
  }

  function SizeAt(e: UploadEntry, n: nat): nat { if n < |Jobs(e)| then Jobs(e)[n].size else 0 }

  /** How many objects task `i` put in the first `k` steps of a run, and their bytes. */
  function PutCount(run: seq<State>, i: nat, k: nat): nat
    requires k < |run|
  {
    if k == 0 then 0 else PutCount(run, i, k - 1) + if Puts(run[k - 1], run[k], i) then 1 else 0
  }

  function PutBytes(c: Config, run: seq<State>, i: nat, k: nat): nat
    requires k < |run| && i < |c.entries|
  {
    if k == 0 then 0
    else PutBytes(c, run, i, k - 1) +
         if Puts(run[k - 1], run[k], i) then SizeAt(c.entries[i], run[k - 1].tasks[i].phase.n) else 0
  }

  /** The statistics of a task say `count` objects and `bytes` bytes were transferred; an object just put, but not
      yet recorded in the check cache, is still to be added. */
  predicate Transferred(e: UploadEntry, t: Task, count: nat, bytes: nat) {
    t.phase.Failed? ||
    (&& count == t.stats.filesTransferred + (if t.phase.MarkingPut? then 1 else 0)
     && bytes == t.stats.bytesTransferred + (if t.phase.MarkingPut? then SizeAt(e, t.phase.n) else 0)
     && (t.phase.Done? ==> t.stats.filesProcessed == 1))
  }

  lemma ActTransfers(c: Config, e: UploadEntry, cancelled: bool, store: map<string, Bytes>, cache: set<string>, t: Task,
                     count: nat, bytes: nat)
    requires InRange(e, t.phase) && Running(t) && Transferred(e, t, count, bytes)
    requires t.phase.NotStarted? ==> count == 0 && bytes == 0
    ensures var t' := Act(c, e, cancelled, store, cache, t).2;
      if t.phase.Putting? && !t'.phase.Failed?
      then Transferred(e, t', count + 1, bytes + SizeAt(e, t.phase.n)) && t'.phase != t.phase
      else Transferred(e, t', count, bytes)
  {
    hide Jobs, JobBytes, CanStart;
  }

  lemma StepTransfers(c: Config, s: State, s': State, i: nat, count: nat, bytes: nat)
    requires Next(c, s, s') && i < |s.tasks| == |c.entries| && Transferred(c.entries[i], s.tasks[i], count, bytes)
    requires s.tasks[i].phase.NotStarted? ==> count == 0 && bytes == 0
    ensures |s'.tasks| == |s.tasks|
    ensures var put := Puts(s, s', i);
      Transferred(c.entries[i], s'.tasks[i], count + (if put then 1 else 0),
                  bytes + (if put then SizeAt(c.entries[i], s.tasks[i].phase.n) else 0))
    ensures s'.tasks[i].phase.NotStarted? ==> s.tasks[i].phase.NotStarted? && !Puts(s, s', i)
  {
    hide Act, TotalBytes, SizeAt;
    if j: nat :| TaskStep(c, s, s', j) {
      if j == i {
        ActTransfers(c, c.entries[i], s.cancelled, s.store, s.cache, s.tasks[i], count, bytes);
        ActStarts(c, c.entries[i], s.cancelled, s.store, s.cache, s.tasks[i]);
      }
    } else if j: nat :| FaultStep(c, s, s', j) {
    }
  }

  lemma ActStarts(c: Config, e: UploadEntry, cancelled: bool, store: map<string, Bytes>, cache: set<string>, t: Task)
    requires InRange(e, t.phase) && Running(t)
    ensures !Act(c, e, cancelled, store, cache, t).2.phase.NotStarted?
    ensures t.phase.Putting? || !Act(c, e, cancelled, store, cache, t).2.phase.MarkingPut?
  {
    hide Jobs, JobBytes, CanStart;
  }

  lemma {:induction false} RunTransfers(c: Config, run: seq<State>, k: nat, i: nat)
    requires Run(c, run) && k < |run| && i < |c.entries|
    ensures |run[k].tasks| == |c.entries|
    ensures Transferred(c.entries[i], run[k].tasks[i], PutCount(run, i, k), PutBytes(c, run, i, k))
    ensures run[k].tasks[i].phase.NotStarted? ==> PutCount(run, i, k) == 0 && PutBytes(c, run, i, k) == 0
  {
    hide Next, SizeAt, Puts, TaskCounted;
    if k > 0 {
      RunTransfers(c, run, k - 1, i);
      hide Transferred;
      StepTransfers(c, run[k - 1], run[k], i, PutCount(run, i, k - 1), PutBytes(c, run, i, k - 1));
      PutsWhat(run[k - 1], run[k], i);
    }
  }

  lemma PutsWhat(s: State, s': State, i: nat)
    ensures Puts(s, s', i) ==> i < |s.tasks| && s.tasks[i].phase.Putting?
  {
  }

  /** In every run: what a finished task reports as transferred is exactly what it put into the store, and what it
      reports as skipped is exactly the rest. */
  lemma TransferredMeansPut(c: Config, run: seq<State>, k: nat, i: nat)
    requires Run(c, run) && k < |run| && i < |c.entries|
    ensures |run[k].tasks| == |c.entries|
    ensures var t := run[k].tasks[i]; t.phase.Done? ==>
      && t.stats.filesProcessed == 1
      && t.stats.filesTransferred == PutCount(run, i, k)
      && t.stats.bytesTransferred == PutBytes(c, run, i, k)
      && t.stats.bytesSkipped == EntryBytes(c.entries[i]) - PutBytes(c, run, i, k)
  {
    RunTransfers(c, run, k, i);
    RunAccounted(c, run, k);
    hide Run, PutCount, PutBytes, EntryBytes;
    if run[k].tasks[i].phase.Done? { DoneCounted(c, run[k], i); }
  }

  function AllPutCount(run: seq<State>, n: nat, k: nat): nat
    requires k < |run|
  {
    if n == 0 then 0 else AllPutCount(run, n - 1, k) + PutCount(run, n - 1, k)
  }

  function AllPutBytes(c: Config, run: seq<State>, n: nat, k: nat): nat
    requires k < |run| && n <= |c.entries|
  {
    if n == 0 then 0 else AllPutBytes(c, run, n - 1, k) + PutBytes(c, run, n - 1, k)
  }

  /** The merged statistics of a successful run: one file processed per entry, and transferred is what was put. */
  lemma {:induction false} MergedMeansPut(c: Config, run: seq<State>, k: nat, n: nat)
    requires Run(c, run) && k < |run| && Succeeded(run[k]) && n <= |c.entries|
    ensures |run[k].tasks| == |c.entries|
    ensures var stats := MergedStats(run[k].tasks[..n]);
      && stats.filesProcessed == n
      && stats.filesTransferred == AllPutCount(run, n, k)
      && stats.bytesTransferred == AllPutBytes(c, run, n, k)
  {
    RunAccounted(c, run, k);
    hide Run, PutCount, PutBytes;
    if n > 0 {
      TransferredMeansPut(c, run, k, n - 1);
      MergedMeansPut(c, run, k, n - 1);
      assert run[k].tasks[..n][..n - 1] == run[k].tasks[..n - 1];
    }
  }

  lemma DoneCounted(c: Config, s: State, i: nat)
    requires Accounted(c, s) && i < |s.tasks| && s.tasks[i].phase.Done?
    ensures TotalBytes(s.tasks[i].stats) == EntryBytes(c.entries[i])
  {
    assert TaskCounted(c.entries[i], s.tasks[i]);
  }

  // ---------------------------------------------------------------- the store

  /** The object under `k` has the content `k` names. */
  predicate Correct(c: Config, store: map<string, Bytes>, k: string) { k in store && c.h(store[k]) == k }

  /** The manifest is true of the local files: every object to upload has the size and hash recorded for it. */
  ghost predicate Faithful(c: Config) {
    forall i, n | 0 <= i < |c.entries| && 0 <= n < |Jobs(c.entries[i])| ::
        FaithfulJob(c, c.entries[i].localPath, Jobs(c.entries[i])[n])
  }

  predicate FaithfulJob(c: Config, path: string, job: Job) {
    var bytes := JobBytes(c, path, job);
    bytes.Some? && |bytes.value| == job.size && c.h(bytes.value) == job.key
  }

  /** An object already stored under a wanted key with the wanted size is the right one. */
  ghost predicate Trusted(c: Config, store: map<string, Bytes>) {
    forall i, n | 0 <= i < |c.entries| && 0 <= n < |Jobs(c.entries[i])| :: TrustedJob(c, store, Jobs(c.entries[i])[n])
  }

  predicate TrustedJob(c: Config, store: map<string, Bytes>, job: Job) {
    job.key in store && |store[job.key]| == job.size ==> c.h(store[job.key]) == job.key
  }

  /** The first `n` objects of an entry are in the store. */
  predicate FirstStored(c: Config, store: map<string, Bytes>, e: UploadEntry, n: nat) {
    n <= |Jobs(e)| && forall m | 0 <= m < n :: Correct(c, store, Jobs(e)[m].key)
  }

  predicate TaskStored(c: Config, store: map<string, Bytes>, e: UploadEntry, t: Task) {
    && InRange(e, t.phase)
    && FirstStored(c, store, e, JobsBehind(e, t.phase) + if t.phase.MarkingFound? || t.phase.MarkingPut? then 1 else 0)
  }

  ghost predicate Safe(c: Config, s: State) {
    && |s.tasks| == |c.entries|
    && Trusted(c, s.store)
    && (forall k | k in s.cache :: Correct(c, s.store, k))
    && (forall i | 0 <= i < |s.tasks| :: TaskStored(c, s.store, c.entries[i], s.tasks[i]))
  }

  /** The store only gains correct objects. */
  ghost predicate Improves(c: Config, before: map<string, Bytes>, after: map<string, Bytes>) {
    forall k ::
        (k in after ==> (k in before && after[k] == before[k]) || Correct(c, after, k)) && (k in before ==> k in after)
  }

  lemma ActStores(c: Config, e: UploadEntry, cancelled: bool, store: map<string, Bytes>, cache: set<string>, t: Task)
    requires TaskStored(c, store, e, t) && Running(t)
    requires forall n | 0 <= n < |Jobs(e)| ::
               FaithfulJob(c, e.localPath, Jobs(e)[n]) && TrustedJob(c, store, Jobs(e)[n])
    requires forall k | k in cache :: Correct(c, store, k)
    ensures var next := Act(c, e, cancelled, store, cache, t);
      && Improves(c, store, next.0)
      && TaskStored(c, next.0, e, next.2)
      && (forall k | k in next.1 :: Correct(c, next.0, k))
  {
    hide Jobs, JobBytes;
    if t.phase.Putting? {
      assert FaithfulJob(c, e.localPath, Jobs(e)[t.phase.n]);
    } else if t.phase.Heading? {
      assert TrustedJob(c, store, Jobs(e)[t.phase.n]);
    }
  }

  /** Improving the store disturbs no other task. */
  lemma ImproveKeeps(c: Config, before: map<string, Bytes>, after: map<string, Bytes>)
    requires Improves(c, before, after)
    ensures forall k | Correct(c, before, k) :: Correct(c, after, k)
    ensures Trusted(c, before) ==> Trusted(c, after)
    ensures forall e, t | TaskStored(c, before, e, t) :: TaskStored(c, after, e, t)
  {
    hide Jobs;
    if Trusted(c, before) {
      forall i, n | 0 <= i < |c.entries| && 0 <= n < |Jobs(c.entries[i])|
        ensures TrustedJob(c, after, Jobs(c.entries[i])[n])
      {
        assert TrustedJob(c, before, Jobs(c.entries[i])[n]);
      }
    }
  }

  /** Safety is kept by every step. */
  lemma SafetyKept(c: Config, s: State, s': State)
    requires Faithful(c) && Safe(c, s) && Next(c, s, s')
    ensures Safe(c, s')
  {
    hide Act, TaskStored, Jobs, Correct, Trusted, TotalBytes;
    if i: nat :| TaskStep(c, s, s', i) {
      StepPremises(c, s, i);
      ActStores(c, c.entries[i], s.cancelled, s.store, s.cache, s.tasks[i]);
      ImproveKeeps(c, s.store, s'.store);
    } else if i: nat :| FaultStep(c, s, s', i) {
      FailedStored(c, s.store, c.entries[i], s.tasks[i]);
    }
  }

  lemma StepPremises(c: Config, s: State, i: nat)
    requires Faithful(c) && Safe(c, s) && i < |s.tasks|
    ensures forall n | 0 <= n < |Jobs(c.entries[i])| ::
              FaithfulJob(c, c.entries[i].localPath, Jobs(c.entries[i])[n])
                && TrustedJob(c, s.store, Jobs(c.entries[i])[n])
  {
  }

  lemma FailedStored(c: Config, store: map<string, Bytes>, e: UploadEntry, t: Task)
    ensures TaskStored(c, store, e, InPhase(t, Failed))
  {
  }

  /** An upload that may rely on what it finds: the manifest is true of the files, and what the store and
      the check cache already hold is right. */
  ghost predicate SoundStart(c: Config, s: State) {
    Faithful(c) && Trusted(c, s.store) && forall key | key in s.cache :: Correct(c, s.store, key)
  }

  /** Every object any entry refers to is stored with its true content. */
  ghost predicate AllHeld(c: Config, store: map<string, Bytes>) {
    forall i, n | 0 <= i < |c.entries| && 0 <= n < |Jobs(c.entries[i])| :: Correct(c, store, Jobs(c.entries[i])[n].key)
  }

  lemma {:induction false} RunSafe(c: Config, run: seq<State>, k: nat)
    requires Run(c, run) && k < |run| && SoundStart(c, run[0])
    ensures Safe(c, run[k])
  {
    if k > 0 {
      RunSafe(c, run, k - 1);
      SafetyKept(c, run[k - 1], run[k]);
    }
  }

  /** For every schedule, fault and cache expiry: the cache only names correct objects, and when all tasks
      succeed every object any entry refers to is in the store with its true content. */
  lemma UploadSafety(c: Config, run: seq<State>, k: nat)
    requires Run(c, run) && k < |run| && SoundStart(c, run[0])
    ensures forall key | key in run[k].cache :: Correct(c, run[k].store, key)
    ensures Succeeded(run[k]) ==> AllHeld(c, run[k].store)
  {
    RunSafe(c, run, k);
    if Succeeded(run[k]) {
      forall i, n | 0 <= i < |c.entries| && 0 <= n < |Jobs(c.entries[i])|
        ensures Correct(c, run[k].store, Jobs(c.entries[i])[n].key)
      {
        assert TaskStored(c, run[k].store, c.entries[i], run[k].tasks[i]);
        assert run[k].tasks[i].phase.Done?;
      }
    }
  }

  /** What a finished run that succeeded delivers: every byte counted once, every object held. */
  lemma RunOutcome(c: Config, run: seq<State>)
    requires Run(c, run) && Succeeded(run[|run| - 1])
    ensures var s := run[|run| - 1];
      && s.completedBytes == AllBytes(c.entries) == TotalBytes(MergedStats(s.tasks))
      && (SoundStart(c, run[0]) ==> AllHeld(c, s.store))
  {
    BytesConserved(c, run, |run| - 1);
    if SoundStart(c, run[0]) { UploadSafety(c, run, |run| - 1); }
  }

  /** A chunked entry with one hash per chunk, whose file has the recorded size. */
  predicate ProperlyChunked(c: Config, e: UploadEntry) {
    && e.hash.None? && e.chunkHashes.Some? && e.size > 0
    && |e.chunkHashes.value| == |ChunkList(e.size, CHUNK_SIZE)|
    && e.localPath in c.files && |c.files[e.localPath]| == e.size
  }

  /** So without hash collisions a chunked file of the manifest can be reassembled from the store. */
  lemma UploadedFileHeld(c: Config, run: seq<State>, k: nat, i: nat)
    requires Run(c, run) && k < |run| && SoundStart(c, run[0]) && CollisionFree(c.h)
    requires Succeeded(run[k]) && i < |c.entries|
    requires ProperlyChunked(c, c.entries[i])
    ensures HoldsChunks(run[k].store, c.entries[i].chunkHashes.value, c.files[c.entries[i].localPath])
  {
    UploadSafety(c, run, k);
    var e := c.entries[i];
    var content, hashes, store := c.files[e.localPath], e.chunkHashes.value, run[k].store;
    forall n | 0 <= n < |hashes| ensures hashes[n] in store && HoldsChunk(store[hashes[n]], content, n) {
      var job := Jobs(e)[n];
      assert FaithfulJob(c, e.localPath, job);
      assert Correct(c, store, Jobs(c.entries[i])[n].key);
      assert JobBytes(c, e.localPath, job).value == Piece(content, CHUNK_SIZE, n);
      assert c.h(store[hashes[n]]) == c.h(Piece(content, CHUNK_SIZE, n));
    }
  }

  // ---------------------------------------------------------------- every run ends

  function Remaining(e: UploadEntry, t: Task): nat {
    var left := |Jobs(e)| - JobsBehind(e, t.phase);
    match t.phase
    case NotStarted => 5 * |Jobs(e)| + 2
    case Checking(n) => if left < 0 then 0 else 5 * left + 1
    case Heading(n) => if left < 0 then 0 else 5 * left
    case MarkingFound(n) => if left < 1 then 0 else 5 * left - 1
    case Putting(n) => if left < 1 then 0 else 5 * left - 1
    case MarkingPut(n) => if left < 1 then 0 else 5 * left - 2
    case Finishing => 1
    case Done => 0
    case Failed => 0
  }

  function AllRemaining(entries: seq<UploadEntry>, tasks: seq<Task>): nat
    requires |entries| == |tasks|
  {
    Sum(seq(|tasks|, i requires 0 <= i < |tasks| => Remaining(entries[i], tasks[i])))
  }

  lemma RemainingUpdate(entries: seq<UploadEntry>, tasks: seq<Task>, i: nat, t: Task)
    requires |entries| == |tasks| && i < |tasks| && Remaining(entries[i], t) < Remaining(entries[i], tasks[i])
    ensures AllRemaining(entries, tasks[i := t]) < AllRemaining(entries, tasks)
  {
    hide Remaining;
    var ns := seq(|tasks|, j requires 0 <= j < |tasks| => Remaining(entries[j], tasks[j]));
    SumUpdate(ns, i, Remaining(entries[i], t));
    var after := tasks[i := t];
    assert ns[i := Remaining(entries[i], t)]
        == seq(|after|, j requires 0 <= j < |after| => Remaining(entries[j], after[j]));
  }

  /** Every step brings the upload closer to its end, or shrinks the cache: no schedule runs for ever. */
  lemma StepsRunOut(c: Config, s: State, s': State)
    requires Next(c, s, s') && |s.tasks| == |c.entries|
    ensures |s'.tasks| == |c.entries|
    ensures var a, b := AllRemaining(c.entries, s.tasks), AllRemaining(c.entries, s'.tasks);
            b < a || (b == a && |s'.cache| < |s.cache|)
  {
    hide AllRemaining, Jobs, TotalBytes;
    if i: nat :| TaskStep(c, s, s', i) {
      ActReduces(c, c.entries[i], s.cancelled, s.store, s.cache, s.tasks[i]);
      RemainingUpdate(c.entries, s.tasks, i, s'.tasks[i]);
    } else if i: nat :| FaultStep(c, s, s', i) {
      FaultReduces(c.entries[i], s.tasks[i]);
      RemainingUpdate(c.entries, s.tasks, i, InPhase(s.tasks[i], Failed));
    } else {
      var k :| k in s.cache && s' == s.(cache := s.cache - {k});
      assert s.cache == s'.cache + {k};
    }
  }

  lemma ActReduces(c: Config, e: UploadEntry, cancelled: bool, store: map<string, Bytes>, cache: set<string>, t: Task)
    requires InRange(e, t.phase) && Running(t)
    ensures Remaining(e, Act(c, e, cancelled, store, cache, t).2) < Remaining(e, t)
  {
    hide Jobs, JobBytes;
  }

  lemma FaultReduces(e: UploadEntry, t: Task)
    requires InRange(e, t.phase) && (t.phase.NotStarted? || t.phase.Heading? || t.phase.Putting?)
    ensures Remaining(e, InPhase(t, Failed)) < Remaining(e, t)
  {
  }

  /** And until it is done or failed, every task can act. */
  lemma NeverStuck(c: Config, s: State, i: nat)
    requires Accounted(c, s) && i < |s.tasks| && Running(s.tasks[i])
    ensures exists s' :: TaskStep(c, s, s', i)
  {
    var t := s.tasks[i];
    assert TaskCounted(c.entries[i], t);
    var next := Act(c, c.entries[i], s.cancelled, s.store, s.cache, t);
    var done := t.phase.Finishing?;
    var s' := State(next.0, next.1, s.completedBytes + (if done then TotalBytes(t.stats) else 0),
                    s.completedCount + (if done then 1 else 0), s.cancelled, s.tasks[i := next.2]);
    assert TaskStep(c, s, s', i);
  }
}
