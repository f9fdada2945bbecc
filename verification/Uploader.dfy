/** The upload orchestrator's methods. Each one records the run of the transition system it performs,
    so that what is proved of every run holds of the code. */
module Uploader {
  import opened Wrappers
  import opened Manifest
  import opened Chunks
  import opened Transfer
  import opened Upload
  import UploadLaws

  datatype StorageError = Cancelled | RequestFailed | FileNotFound(path: string) | NoContent(path: string)

  class UploadOrchestrator {
    const c: Config
    /** Whether requests to the store always succeed and the progress callback never asks to stop. */
    const reliable: bool
    var store: map<string, Bytes>
    var cache: set<string>
    var cancelled: bool
    ghost var run: seq<State>

    ghost function Now(): State
      reads this
      requires run != []
    {
      run[|run| - 1]
    }

    /** The recorded states form a run of steps. */
    ghost predicate Recorded()
      reads this
    {
      run != [] && |Now().tasks| == |c.entries| && forall k | 0 <= k < |run| - 1 :: Next(c, run[k], run[k + 1])
    }

    /** The fields are those of the last recorded state. */
    ghost predicate Valid()
      reads this
    {
      Recorded() && Now().store == store && Now().cache == cache && Now().cancelled == cancelled
    }

    /** Since `before`, only task `i` moved; it is now `t`. */
    ghost predicate Moved(before: seq<State>, i: nat, t: Task)
      reads this
      requires before != []
    {
      Valid() && before <= run && i < |before[|before| - 1].tasks| && Now().tasks == before[|before| - 1].tasks[i := t]
    }

    /** Since `before`, only task `i` moved, and it failed. */
    ghost predicate FailedSince(before: seq<State>, i: nat)
      reads this
      requires before != []
    {
      && Valid() && before <= run && i < |before[|before| - 1].tasks| && i < |Now().tasks|
      && Now().tasks[i].phase.Failed?
      && Now().tasks == before[|before| - 1].tasks[i := Now().tasks[i]]
    }

    constructor (c: Config, reliable: bool, store: map<string, Bytes>, cache: set<string>)
      ensures Valid() && this.c == c && this.reliable == reliable && this.store == store && this.cache == cache
      ensures !cancelled
      ensures |run| == 1 && Init(c, run[0])
    {
      this.c, this.reliable, this.store, this.cache, this.cancelled := c, reliable, store, cache, false;
      this.run := [State(store, cache, 0, 0, false, seq(|c.entries|, _ => Task(NotStarted, NO_TRANSFER)))];
    }

    /** Record that task `i` acted; the fields were already changed accordingly. */
    ghost method Record(i: nat)
      requires Recorded() && Now().cancelled == cancelled
      requires i < |c.entries| && Running(Now().tasks[i]) && InRange(c.entries[i], Now().tasks[i].phase)
      requires var s := Now(); var next := Act(c, c.entries[i], s.cancelled, s.store, s.cache, s.tasks[i]);
               store == next.0 && cache == next.1
      modifies this`run
      ensures var s := old(Now()); Moved(old(run), i, Act(c, c.entries[i], s.cancelled, s.store, s.cache, s.tasks[i]).2)
    {
      hide Act;
      var s := Now();
      var t := s.tasks[i];
      var next := Act(c, c.entries[i], s.cancelled, s.store, s.cache, t);
      var done := t.phase.Finishing?;
      var s' := State(next.0, next.1, s.completedBytes + (if done then TotalBytes(t.stats) else 0),
                      s.completedCount + (if done then 1 else 0), s.cancelled, s.tasks[i := next.2]);
      assert TaskStep(c, s, s', i);
      run := run + [s'];
    }

    /** Record that task `i` failed, and whether that was a request to stop. */
    ghost method RecordFault(i: nat, stop: bool)
      requires Recorded() && Now().store == store && Now().cache == cache && cancelled == (Now().cancelled || stop)
      requires i < |c.entries| && InRange(c.entries[i], Now().tasks[i].phase)
      requires Now().tasks[i].phase.NotStarted?
               || (!stop && (Now().tasks[i].phase.Heading? || Now().tasks[i].phase.Putting?))
      modifies this`run
      ensures Moved(old(run), i, InPhase(old(Now().tasks[i]), Failed))
    {
      var s := Now();
      var failed := s.tasks[i := InPhase(s.tasks[i], Failed)];
      var s' := if stop then s.(cancelled := true, tasks := failed) else s.(tasks := failed);
      assert FaultStep(c, s, s', i);
      run := run + [s'];
    }

    /** A request may fail, or the callback ask to stop, unless all is reliable. */
    method RequestFails() returns (fails: bool)
      ensures fails ==> !reliable
    {
      fails := *;
      if reliable { fails := false; }
    }

    /** `cas_object_exists` for object `n` of entry `i`: cache first, then the stored size. */
    method CasObjectExists(ghost i: nat, ghost n: nat, job: Job) returns (r: Result<bool, StorageError>)
      requires Valid() && i < |c.entries| && n < |Jobs(c.entries[i])| && job == Jobs(c.entries[i])[n]
      requires Now().tasks[i].phase == Checking(n)
      modifies this
      ensures var t := old(Now().tasks[i]);
        Moved(old(run), i, match r
          case Err(_) => InPhase(t, Failed)
          case Ok(true) => NextJob(c.entries[i], n, SkipJob(t.stats, job))
          case Ok(false) => InPhase(t, Putting(n)))
      ensures r.Ok? ==>
                (r.value <==> (c.useCache && job.key in old(cache))
                              || (job.key in old(store) && |old(store)[job.key]| == job.size))
      ensures (r.Err? ==> !reliable) && cancelled == old(cancelled)
      ensures store == old(store)
      ensures cache == if r == Ok(true) && c.useCache then old(cache) + {job.key} else old(cache)
    {
      hide Jobs, NextJob, SkipJob;
      var known := c.useCache && job.key in cache;
      Record(i);
      if known { return Ok(true); }
      var fails := RequestFails();
      if fails {
        RecordFault(i, false);
        return Err(RequestFailed);
      }
      var found := job.key in store && |store[job.key]| == job.size;
      Record(i);
      if found && c.useCache {
        cache := cache + {job.key};
        Record(i);
      }
      r := Ok(found);
    }

    /** Put object `n` of entry `i` and record it in the check cache. */
    method PutObject(i: nat, ghost n: nat, job: Job) returns (r: Result<(), StorageError>)
      requires Valid() && i < |c.entries| && n < |Jobs(c.entries[i])| && job == Jobs(c.entries[i])[n]
      requires Now().tasks[i].phase == Putting(n)
      modifies this
      ensures var t := old(Now().tasks[i]);
        Moved(old(run), i, if r.Err? then InPhase(t, Failed) else NextJob(c.entries[i], n, PutJob(t.stats, job)))
      ensures r.Err? ==> store == old(store) && cache == old(cache)
      ensures r.Err? && reliable ==> JobBytes(c, c.entries[i].localPath, job).None?
      ensures cancelled == old(cancelled)
      ensures r.Ok? ==>
                var path := c.entries[i].localPath;
                && path in c.files && (job.whole || job.offset + job.size <= |c.files[path]|)
                && store == old(store)[job.key := if job.whole then c.files[path]
                                                  else c.files[path][job.offset..job.offset + job.size]]
                && cache == if c.useCache then old(cache) + {job.key} else old(cache)
    {
      hide Jobs, NextJob, PutJob;
      var fails := RequestFails();
      if fails {
        RecordFault(i, false);
        return Err(RequestFailed);
      }
      var bytes := JobBytes(c, c.entries[i].localPath, job);
      if bytes.None? {
        Record(i);
        return Err(FileNotFound(c.entries[i].localPath));
      }
      store := store[job.key := bytes.value];
      Record(i);
      if c.useCache {
        cache := cache + {job.key};
        Record(i);
      }
      r := Ok(());
    }

    /** Everything the entry may have to send is there. */
    predicate Sendable(e: UploadEntry) {
      && (e.hash.Some? || e.chunkHashes.Some?) && e.localPath in c.files
      && (e.hash.None? ==> |c.files[e.localPath]| >= e.size)
    }

    lemma JobsSendable(e: UploadEntry, n: nat)
      requires Sendable(e) && n < |Jobs(e)|
      ensures JobBytes(c, e.localPath, Jobs(e)[n]).Some?
    {
      if e.hash.None? && e.size > 0 { ChunksAreContiguous(e.size, CHUNK_SIZE); ChunkEnds(e.size, n); }
    }

    /** `upload_single_file`: skip if present, otherwise put the whole file. */
    method UploadSingleFile(i: nat) returns (r: Result<TransferStatistics, StorageError>)
      requires Valid() && i < |c.entries| && c.entries[i].hash.Some?
      requires Now().tasks[i] == Task(Checking(0), NO_TRANSFER)
      modifies this
      ensures r.Err? ==> FailedSince(old(run), i)
      ensures r.Ok? ==> exists stats ::
                Moved(old(run), i, Task(Finishing, stats)) && stats.(filesProcessed := 1) == r.value
      ensures cancelled == old(cancelled) && (reliable && Sendable(c.entries[i]) ==> r.Ok?)
    {
      var e := c.entries[i];
      var job := Job(e.hash.value, e.size, 0, true);
      assert Jobs(e) == [job];
      var exists_ := CasObjectExists(i, 0, job);
      if exists_.Err? { return Err(exists_.error); }
      if exists_.value {
        assert Moved(old(run), i, Task(Finishing, SkipJob(NO_TRANSFER, job)));
        return Ok(Skipped(e.size));
      }
      var put := PutObject(i, 0, job);
      if put.Err? { return Err(put.error); }
      assert Moved(old(run), i, Task(Finishing, PutJob(NO_TRANSFER, job)));
      r := Ok(Uploaded(e.size));
    }

    /** `upload_chunked_file`: each chunk is skipped or put; `stats` adds up as it goes. */
    method UploadChunkedFile(i: nat) returns (r: Result<TransferStatistics, StorageError>)
      requires Valid() && i < |c.entries| && c.entries[i].hash.None? && c.entries[i].chunkHashes.Some?
      requires Now().tasks[i] == Task(if Jobs(c.entries[i]) == [] then Finishing else Checking(0), NO_TRANSFER)
      modifies this
      ensures r.Err? ==> FailedSince(old(run), i)
      ensures r.Ok? ==> exists stats ::
                Moved(old(run), i, Task(Finishing, stats)) && stats.(filesProcessed := 1) == r.value
      ensures cancelled == old(cancelled) && (reliable && Sendable(c.entries[i]) ==> r.Ok?)
    {
      var e := c.entries[i];
      var chunks := GenerateChunks(e.size, CHUNK_SIZE);
      var hashes := e.chunkHashes.value;
      var stats := NO_TRANSFER;
      var count := Min(|chunks|, |hashes|);
      assert |Jobs(e)| == count;
      if Sendable(e) {
        forall n | 0 <= n < count ensures JobBytes(c, e.localPath, Jobs(e)[n]).Some? { JobsSendable(e, n); }
      }
      for n := 0 to count
        invariant Moved(old(run), i, Task(if n < count then Checking(n) else Finishing, stats))
        invariant cancelled == old(cancelled)
      {
        var job := Job(hashes[n], chunks[n].length, chunks[n].offset, false);
        assert Jobs(e)[n] == job;
        hide Jobs, JobBytes, Sendable, SkipJob, PutJob;
        var exists_ := CasObjectExists(i, n, job);
        if exists_.Err? { return Err(exists_.error); }
        if exists_.value {
          stats := SkipJob(stats, job);
          continue;
        }
        var put := PutObject(i, n, job);
        if put.Err? { return Err(put.error); }
        stats := PutJob(stats, job);
      }
      r := Ok(stats.(filesProcessed := 1));
    }

    /** One parallel task from start to finish: cancellation, progress callback, upload, counters. */
    method UploadEntry(i: nat) returns (r: Result<TransferStatistics, StorageError>)
      requires Valid() && i < |c.entries| && Now().tasks[i] == Task(NotStarted, NO_TRANSFER)
      modifies this
      ensures r.Err? ==> FailedSince(old(run), i)
      ensures r.Ok? ==> Moved(old(run), i, Task(Done, r.value))
      ensures reliable && !old(cancelled) && Sendable(c.entries[i]) ==> r.Ok?
      ensures reliable ==> cancelled == old(cancelled)
      ensures old(cancelled) ==> r == Err(Cancelled) && store == old(store) && cache == old(cache)
    {
      hide JobBytes, NextJob, SkipJob, PutJob, Next, Jobs;
      var e := c.entries[i];
      if e.hash.Some? { SingleJob(e); }
      if cancelled {
        Record(i);
        return Err(Cancelled);
      }
      var stopped := RequestFails();
      if stopped {
        cancelled := true;
        RecordFault(i, true);
        return Err(Cancelled);
      }
      if e.hash.None? && e.chunkHashes.None? {
        Record(i);
        return Err(NoContent(e.localPath));
      }
      if e.hash.None? && e.localPath !in c.files {
        Record(i);
        return Err(FileNotFound(e.localPath));
      }
      Record(i);
      if e.hash.Some? {
        r := UploadSingleFile(i);
      } else {
        r := UploadChunkedFile(i);
      }
      if r.Ok? {
        Record(i);
      }
    }

    /** One schedule of `upload_files_parallel`: all tasks run even if some fail, then the results are merged. */
    method UploadFiles() returns (r: Result<TransferStatistics, StorageError>)
      requires Valid() && Run(c, run) && Init(c, Now())
      modifies this
      ensures Valid() && Run(c, run) && old(run) <= run
      ensures r.Ok? <==> Succeeded(Now())
      ensures reliable && !old(cancelled) && (forall e | e in c.entries :: Sendable(e)) ==> r.Ok?
      ensures r.Ok? ==> r.value == MergedStats(Now().tasks) && TotalBytes(r.value) == AllBytes(c.entries)
      ensures r.Ok? && UploadLaws.AllPresent(c, old(run)[0].store) ==>
                store == old(run)[0].store && r.value.filesTransferred == 0 && r.value.bytesTransferred == 0
      ensures r.Ok? && SoundStart(c, old(run)[0]) ==> AllHeld(c, store)
    {
      hide Next, Faithful, Trusted, Correct, Jobs, AllBytes, TotalBytes, Merge, Accounted, SoundStart, AllHeld,
           UploadLaws.AllPresent;
      var stats := NO_TRANSFER;
      var error: Option<StorageError> := None;
      for i := 0 to |c.entries|
        invariant Valid() && old(run) <= run
        invariant forall j | i <= j < |c.entries| :: Now().tasks[j] == Task(NotStarted, NO_TRANSFER)
        invariant error.None? ==>
                    stats == MergedStats(Now().tasks[..i]) && forall j | 0 <= j < i :: Now().tasks[j].phase.Done?
        invariant reliable ==> cancelled == old(cancelled)
        invariant reliable && !old(cancelled) && (forall e | e in c.entries :: Sendable(e)) ==> error.None?
        invariant error.Some? ==> exists j | 0 <= j < i :: Now().tasks[j].phase.Failed?
      {
        ghost var before := Now().tasks;
        var result := UploadEntry(i);
        assert forall j | 0 <= j < |before| && j != i :: Now().tasks[j] == before[j];
        if result.Err? {
          if error.None? { error := Some(result.error); }
          assert Now().tasks[i].phase.Failed?;
        } else {
          stats := Merge(stats, result.value);
          assert Now().tasks[..i + 1][..i] == before[..i];
        }
      }
      assert Now().tasks[..|c.entries|] == Now().tasks;
      assert Run(c, run);
      if error.None? { RunOutcome(c, run); }
      if error.None? && UploadLaws.AllPresent(c, old(run)[0].store) { UploadLaws.SecondUploadSendsNothing(c, run); }
      r := if error.Some? then Err(error.value) else Ok(stats);
    }
  }
}
