/** What an upload sends and what it does not: every answer of the check cache and of the store decides the next step,
    and what the store already has is never sent again. */
module UploadLaws {
  import opened Wrappers
  import opened Manifest
  import opened Chunks
  import opened Transfer
  import opened Upload

  /** The store has an object under the job's key, of the job's size. */
  predicate Present(store: map<string, Bytes>, job: Job) { job.key in store && |store[job.key]| == job.size }

  /** Task `i` moved in this step, and did not fail. */
  ghost predicate Moves(c: Config, s: State, s': State, i: nat) {
    && Next(c, s, s') && i < |s.tasks| == |s'.tasks| == |c.entries|
    && s'.tasks[i] != s.tasks[i] && !s'.tasks[i].phase.Failed?
  }

  /** The object a task is at. */
  ghost predicate At(c: Config, s: State, i: nat, n: nat) { i < |c.entries| == |s.tasks| && n < |Jobs(c.entries[i])| }

  // ---------------------------------------------------------------- single steps

  /** Only an upload that was not told to stop starts, and only with something to send: a hash, or a chunked file that
      is there. */
  lemma StartDecides(c: Config, s: State, s': State, i: nat)
    requires Moves(c, s, s', i) && s.tasks[i].phase.NotStarted?
    ensures var e := c.entries[i];
      !s.cancelled && (e.hash.Some? || (e.chunkHashes.Some? && e.localPath in c.files))
    ensures s'.tasks[i].stats == NO_TRANSFER && (s'.tasks[i].phase == Checking(0) || s'.tasks[i].phase == Finishing)
    ensures s'.store == s.store && s'.cache == s.cache
  {
    hide Jobs, JobBytes, TotalBytes;
  }

  /** And unless a request fails or it is told to stop, it does start. */
  lemma StartSucceeds(c: Config, s: State, s': State, i: nat)
    requires TaskStep(c, s, s', i) && s.tasks[i].phase.NotStarted?
    ensures var e := c.entries[i];
      s'.tasks[i].phase.Failed? <==>
      s.cancelled || !(e.hash.Some? || (e.chunkHashes.Some? && e.localPath in c.files))
  {
    hide Jobs, JobBytes, TotalBytes;
  }

  /** The check cache is believed: a key it has is skipped at once, any other is asked for. */
  lemma CheckDecides(c: Config, s: State, s': State, i: nat, n: nat)
    requires Moves(c, s, s', i) && At(c, s, i, n) && s.tasks[i].phase == Checking(n)
    ensures var job, before, after := Jobs(c.entries[i])[n], s.tasks[i].stats, s'.tasks[i].stats;
      && (s'.tasks[i].phase == Heading(n) <==> !(c.useCache && job.key in s.cache))
      && (s'.tasks[i].phase != Heading(n) ==>
            after == before.(filesSkipped := before.filesSkipped + 1, bytesSkipped := before.bytesSkipped + job.size))
    ensures s'.store == s.store && s'.cache == s.cache
  {
    hide Jobs, JobBytes, TotalBytes;
  }

  /** The store's answer decides: an object is sent exactly if none is there under its key with its size. */
  lemma AskDecides(c: Config, s: State, s': State, i: nat, n: nat)
    requires Moves(c, s, s', i) && At(c, s, i, n) && s.tasks[i].phase == Heading(n)
    ensures s'.tasks[i].phase == Putting(n) <==> !Present(s.store, Jobs(c.entries[i])[n])
    ensures s'.store == s.store && s'.cache == s.cache
  {
    hide Jobs, JobBytes, TotalBytes;
  }

  /** A put stores the file, or the job's range of it, under the job's key, and nothing else. */
  lemma PutStores(c: Config, s: State, s': State, i: nat, n: nat)
    requires Moves(c, s, s', i) && At(c, s, i, n) && s.tasks[i].phase == Putting(n)
    ensures var e, job := c.entries[i], Jobs(c.entries[i])[n];
      && e.localPath in c.files
      && (e.hash.None? ==> job.offset + job.size <= |c.files[e.localPath]|)
      && s'.store == s.store[job.key := if e.hash.Some? then c.files[e.localPath]
                                        else c.files[e.localPath][job.offset..job.offset + job.size]]
    ensures s'.cache == s.cache && (c.useCache ==> s'.tasks[i].phase == MarkingPut(n))
  {
    hide TotalBytes, ChunkList;
  }

  /** What was found or put is recorded. */
  lemma MarkRecords(c: Config, s: State, s': State, i: nat, n: nat)
    requires Moves(c, s, s', i) && At(c, s, i, n)
    requires s.tasks[i].phase == MarkingFound(n) || s.tasks[i].phase == MarkingPut(n)
    ensures s'.cache == s.cache + {Jobs(c.entries[i])[n].key} && s'.store == s.store
  {
    hide Jobs, JobBytes, TotalBytes;
  }

  /** Only a put changes the store. */
  lemma StoreChange(c: Config, s: State, s': State)
    requires Next(c, s, s')
    ensures s'.store == s.store
            || exists i: nat, n: nat :: Moves(c, s, s', i) && At(c, s, i, n) && s.tasks[i].phase == Putting(n)
  {
    hide Jobs, JobBytes, TotalBytes, JobsBehind;
    if s'.store != s.store {
      var i: nat :| TaskStep(c, s, s', i);
      assert s.tasks[i].phase.Putting?;
      assert Moves(c, s, s', i) && At(c, s, i, s.tasks[i].phase.n);
    }
  }

  /** A step that brings a task to a put comes from asking the store. */
  lemma PutComesFromAsking(c: Config, s: State, s': State, i: nat, n: nat)
    requires Next(c, s, s') && i < |s.tasks| == |s'.tasks| == |c.entries| && s'.tasks[i].phase == Putting(n)
    ensures s.tasks[i] == s'.tasks[i] || (Moves(c, s, s', i) && s.tasks[i].phase == Heading(n) && At(c, s, i, n))
  {
    hide Jobs, JobBytes, TotalBytes;
  }

  /** From an empty store and check cache every upload of a manifest that is true of its files starts soundly. */
  lemma EmptyStoreIsSound(c: Config, s: State)
    requires Faithful(c) && s.store == map[] && s.cache == {}
    ensures SoundStart(c, s)
  {
    hide Jobs, Faithful;
  }

  // ---------------------------------------------------------------- runs

  /** At state `j` the task asked for object `n` and it was not there; since then it is about to put it. */
  ghost predicate AskedInVain(c: Config, run: seq<State>, i: nat, n: nat, j: nat, k: nat) {
    && j < k < |run| && At(c, run[j], i, n) && run[j].tasks[i].phase == Heading(n)
    && !Present(run[j].store, Jobs(c.entries[i])[n])
    && forall l | j < l <= k :: i < |run[l].tasks| && run[l].tasks[i].phase == Putting(n)
  }

  /** In every run: before an object is sent the store was asked for it, and did not have it with its size. */
  lemma {:induction false} PutMeansMissing(c: Config, run: seq<State>, k: nat, i: nat, n: nat) returns (j: nat)
    requires Run(c, run) && k < |run| && i < |c.entries| && |run[k].tasks| == |c.entries|
    requires run[k].tasks[i].phase == Putting(n)
    ensures AskedInVain(c, run, i, n, j, k)
  {
    hide Next, Present, Jobs;
    assert k > 0;
    RunAccounted(c, run, k - 1);
    PutComesFromAsking(c, run[k - 1], run[k], i, n);
    if run[k - 1].tasks[i] == run[k].tasks[i] {
      j := PutMeansMissing(c, run, k - 1, i, n);
    } else {
      j := k - 1;
      AskDecides(c, run[j], run[k], i, n);
    }
  }

  /** Without hash collisions, and with a manifest that is true of the files, what is present stays present. */
  lemma StaysPresent(c: Config, s: State, s': State, i: nat, n: nat)
    requires Next(c, s, s') && Faithful(c) && CollisionFree(c.h) && |s.tasks| == |c.entries|
    requires At(c, s, i, n) && Present(s.store, Jobs(c.entries[i])[n])
    ensures Present(s'.store, Jobs(c.entries[i])[n])
  {
    StoreChange(c, s, s');
    hide Next, Jobs, JobBytes;
    if s'.store != s.store {
      var j: nat, m: nat :| Moves(c, s, s', j) && At(c, s, j, m) && s.tasks[j].phase == Putting(m);
      PutSends(c, s, s', j, m);
      var job, other := Jobs(c.entries[i])[n], Jobs(c.entries[j])[m];
      assert FaithfulJob(c, c.entries[i].localPath, job) && FaithfulJob(c, c.entries[j].localPath, other);
      if job.key == other.key {
        var a := JobBytes(c, c.entries[i].localPath, job).value;
        var b := JobBytes(c, c.entries[j].localPath, other).value;
        assert c.h(a) == c.h(b);
      }
    }
  }

  lemma PutSends(c: Config, s: State, s': State, i: nat, n: nat)
    requires Moves(c, s, s', i) && At(c, s, i, n) && s.tasks[i].phase == Putting(n)
    ensures var job := Jobs(c.entries[i])[n]; var bytes := JobBytes(c, c.entries[i].localPath, job);
      bytes.Some? && s'.store == s.store[job.key := bytes.value]
  {
    hide Jobs, TotalBytes;
  }

  /** So, whatever the schedule, the faults and the check cache: an object the store has at the start is never sent. */
  lemma {:induction false} HeldIsNeverSent(c: Config, run: seq<State>, k: nat, i: nat, n: nat)
    requires Run(c, run) && k < |run| && Faithful(c) && CollisionFree(c.h)
    requires At(c, run[0], i, n) && Present(run[0].store, Jobs(c.entries[i])[n])
    ensures At(c, run[k], i, n) && Present(run[k].store, Jobs(c.entries[i])[n])
    ensures run[k].tasks[i].phase != Putting(n)
  {
    hide Next, Present, Jobs, Faithful;
    if k > 0 {
      HeldIsNeverSent(c, run, k - 1, i, n);
      RunAccounted(c, run, k);
      StaysPresent(c, run[k - 1], run[k], i, n);
      if run[k].tasks[i].phase == Putting(n) {
        PutComesFromAsking(c, run[k - 1], run[k], i, n);
        AskDecides(c, run[k - 1], run[k], i, n);
      }
    }
  }

  /** The store has every object of every entry. */
  ghost predicate AllPresent(c: Config, store: map<string, Bytes>) {
    forall i, n | 0 <= i < |c.entries| && 0 <= n < |Jobs(c.entries[i])| :: Present(store, Jobs(c.entries[i])[n])
  }

  ghost predicate NothingSent(c: Config, s: State, store: map<string, Bytes>) {
    && s.store == store && |s.tasks| == |c.entries|
    && forall i: nat, n: nat | i < |s.tasks| :: s.tasks[i].phase != Putting(n)
  }

  lemma {:induction false} NothingSentKept(c: Config, run: seq<State>, k: nat)
    requires Run(c, run) && k < |run| && AllPresent(c, run[0].store)
    ensures NothingSent(c, run[k], run[0].store)
  {
    hide Next, Present, Jobs;
    if k > 0 {
      NothingSentKept(c, run, k - 1);
      RunAccounted(c, run, k);
      StoreChange(c, run[k - 1], run[k]);
      forall i: nat, n: nat | i < |run[k].tasks| ensures run[k].tasks[i].phase != Putting(n) {
        if run[k].tasks[i].phase == Putting(n) {
          PutComesFromAsking(c, run[k - 1], run[k], i, n);
          AskDecides(c, run[k - 1], run[k], i, n);
        }
      }
    }
  }

  lemma {:induction false} NoPutCount(c: Config, run: seq<State>, k: nat, i: nat)
    requires Run(c, run) && k < |run| && AllPresent(c, run[0].store) && i < |c.entries|
    ensures PutCount(run, i, k) == 0 && PutBytes(c, run, i, k) == 0
  {
    hide Next, AllPresent;
    if k > 0 {
      NoPutCount(c, run, k - 1, i);
      NothingSentKept(c, run, k - 1);
      PutsWhat(run[k - 1], run[k], i);
    }
  }

  lemma {:induction false} NoPutsAtAll(c: Config, run: seq<State>, k: nat, n: nat)
    requires Run(c, run) && k < |run| && AllPresent(c, run[0].store) && n <= |c.entries|
    ensures AllPutCount(run, n, k) == 0 && AllPutBytes(c, run, n, k) == 0
  {
    hide Run, AllPresent, PutCount, PutBytes;
    if n > 0 {
      NoPutsAtAll(c, run, k, n - 1);
      NoPutCount(c, run, k, n - 1);
    }
  }

  /** An upload of what is already there, in any schedule: a run that succeeds leaves the store alone, transfers no file
      and no byte, and reports every byte of every object as skipped. */
  lemma SecondUploadSendsNothing(c: Config, run: seq<State>)
    requires Run(c, run) && Succeeded(run[|run| - 1]) && AllPresent(c, run[0].store)
    ensures var s := run[|run| - 1]; var stats := MergedStats(s.tasks);
      && s.store == run[0].store
      && stats.filesProcessed == |c.entries| && stats.filesTransferred == 0
      && stats.bytesTransferred == 0 && stats.bytesSkipped == AllBytes(c.entries)
  {
    var k := |run| - 1;
    hide AllPresent, Present, MergedStats, PutCount, PutBytes;
    NothingSentKept(c, run, k);
    BytesConserved(c, run, k);
    MergedMeansPut(c, run, k, |c.entries|);
    NoPutsAtAll(c, run, k, |c.entries|);
    assert run[k].tasks[..|c.entries|] == run[k].tasks;
  }
}
