/** Which objects of a listing output discovery returns, stated on the listing itself. */
module OutputDiscovery {
  import opened Wrappers
  import opened Strings
  import opened OutputKeys
  import opened OutputSelection

  // ---------------------------------------------------------------- what is read from a listing

  /** The key of an output manifest ends in "_output" or "_output.json". */
  predicate IsOutput(key: string) {
    || (|key| >= 7 && key[|key| - 7..] == "_output")
    || (|key| >= 12 && key[|key| - 12..] == "_output.json")
  }

  /** Object `i` of the listing is an output manifest, and its key says `m`. */
  predicate Says(objects: seq<ObjectInfo>, i: nat, m: Parsed) {
    i < |objects| && IsOutput(objects[i].key) && ParseKey(objects[i]) == Some(m)
  }

  /** Positions in listing order. */
  predicate Increasing(at: seq<nat>) { forall j, k | 0 <= j < k < |at| :: at[j] < at[k] }

  /** `parsed` is what the objects at these positions say, and no other object says anything. */
  ghost predicate ReadFrom(objects: seq<ObjectInfo>, parsed: seq<Parsed>, at: seq<nat>) {
    && |at| == |parsed| && Increasing(at)
    && (forall k | 0 <= k < |at| :: Says(objects, at[k], parsed[k]))
    && (forall i: nat, m | Says(objects, i, m) :: i in at)
  }

  function ParsedOutputs(objects: seq<ObjectInfo>): seq<Parsed> { ParseManifestKeys(FilterOutputs(objects)) }

  lemma ParseMore(objects: seq<ObjectInfo>, last: ObjectInfo)
    ensures ParseManifestKeys(objects + [last]) ==
            ParseManifestKeys(objects) + if ParseKey(last).Some? then [ParseKey(last).value] else []
  {
    hide ParseKey;
    assert (objects + [last])[..|objects|] == objects;
  }

  lemma EndsEither(key: string)
    ensures EndsWith(key, "_output") || EndsWith(key, "_output.json") <==> IsOutput(key)
  {
  }

  /** Filtering and parsing a listing: exactly the output manifests that parse, each once, in listing order. */
  lemma {:induction false} ReadsExactly(objects: seq<ObjectInfo>) returns (at: seq<nat>)
    ensures ReadFrom(objects, ParsedOutputs(objects), at)
  {
    hide ParseKey, IsOutput, EndsWith;
    if objects == [] {
      at := [];
    } else {
      var n := |objects| - 1;
      var init, last := objects[..n], objects[n];
      var before := ReadsExactly(init);
      EndsEither(last.key);
      ParseMore(FilterOutputs(init), last);
      assert FilterOutputs(objects) == FilterOutputs(init) + if IsOutput(last.key) then [last] else [];
      assert FilterOutputs(init) + [] == FilterOutputs(init);
      at := before + if IsOutput(last.key) && ParseKey(last).Some? then [n] else [];
      OneMore(objects, before, at);
    }
  }

  lemma OneMore(objects: seq<ObjectInfo>, before: seq<nat>, at: seq<nat>)
    requires objects != []
    requires var n := |objects| - 1;
      && ReadFrom(objects[..n], ParsedOutputs(objects[..n]), before)
      && (if IsOutput(objects[n].key) && ParseKey(objects[n]).Some?
          then at == before + [n]
               && ParsedOutputs(objects) == ParsedOutputs(objects[..n]) + [ParseKey(objects[n]).value]
          else at == before && ParsedOutputs(objects) == ParsedOutputs(objects[..n]))
    ensures ReadFrom(objects, ParsedOutputs(objects), at)
  {
    hide ParseKey, IsOutput, ParsedOutputs;
    var n := |objects| - 1;
    var parsed, prior := ParsedOutputs(objects), ParsedOutputs(objects[..n]);
    forall k | 0 <= k < |at| ensures Says(objects, at[k], parsed[k]) {
      if k < |before| { assert Says(objects[..n], before[k], prior[k]); }
    }
    forall i: nat, m | Says(objects, i, m) ensures i in at {
      if i < n { assert Says(objects[..n], i, m); }
    }
  }

  // ---------------------------------------------------------------- what is selected

  /** The newest object of its task; of several equally new ones the last in the listing. */
  ghost predicate IsNewest(objects: seq<ObjectInfo>, j: nat, latest: Parsed) {
    && Says(objects, j, latest)
    && forall i: nat, m | Says(objects, i, m) && m.taskId == latest.taskId ::
      m.lastModified < latest.lastModified || (m.lastModified == latest.lastModified && i <= j)
  }

  /** Every step-level output is selected, and of each task those in the session folder of its newest one. */
  ghost predicate Selected(objects: seq<ObjectInfo>, i: nat, m: Parsed) {
    && Says(objects, i, m)
    && (m.taskId.None?
        || exists j: nat, latest ::
          IsNewest(objects, j, latest) && latest.taskId == m.taskId && latest.sessionFolder == m.sessionFolder)
  }

  /** The position in a list of parsed keys of the newest one of a task. */
  lemma {:induction false} LatestAt(parsed: seq<Parsed>, task: Option<string>) returns (j: nat)
    requires OfTask(parsed, task) != []
    ensures j < |parsed| && parsed[j] == Latest(OfTask(parsed, task)) && parsed[j].taskId == task
    ensures forall i | 0 <= i < |parsed| && parsed[i].taskId == task ::
              parsed[i].lastModified < parsed[j].lastModified
              || (parsed[i].lastModified == parsed[j].lastModified && i <= j)
  {
    var n := |parsed| - 1;
    var init, own := OfTask(parsed[..n], task), OfTask(parsed, task);
    assert forall i | 0 <= i < n :: parsed[..n][i] == parsed[i];
    if parsed[n].taskId != task {
      assert own == init;
      j := LatestAt(parsed[..n], task);
    } else if init == [] {
      j := n;
      OfTaskExactly(parsed[..n], task);
      forall i | 0 <= i < n ensures parsed[i].taskId != task { assert parsed[..n][i] in parsed[..n]; }
    } else {
      var before := LatestAt(parsed[..n], task);
      assert own == init + [parsed[n]] && |own| > 1;
      assert own[..|own| - 1] == init && own[|own| - 1] == parsed[n];
      j := if parsed[before].lastModified <= parsed[n].lastModified then n else before;
    }
  }

  /** The newest is the same whether one looks at the listing or at what was read from it. */
  lemma NewestRead(objects: seq<ObjectInfo>, parsed: seq<Parsed>, at: seq<nat>, task: Option<string>) returns (j: nat)
    requires ReadFrom(objects, parsed, at) && OfTask(parsed, task) != []
    ensures j < |at| && parsed[j] == Latest(OfTask(parsed, task)) && parsed[j].taskId == task
    ensures IsNewest(objects, at[j], parsed[j])
  {
    hide Says, OfTask, Latest;
    j := LatestAt(parsed, task);
    forall i: nat, m | Says(objects, i, m) && m.taskId == parsed[j].taskId
      ensures m.lastModified < parsed[j].lastModified
              || (m.lastModified == parsed[j].lastModified && i <= at[j])
    {
      assert i in at;
      var k :| 0 <= k < |at| && at[k] == i;
      SaysOne(objects, i, m, parsed[k]);
    }
  }

  lemma SaysOne(objects: seq<ObjectInfo>, i: nat, m: Parsed, n: Parsed)
    requires Says(objects, i, m) && Says(objects, i, n)
    ensures m == n
  {
  }

  lemma NewestOne(objects: seq<ObjectInfo>, i: nat, m: Parsed, j: nat, n: Parsed)
    requires IsNewest(objects, i, m) && IsNewest(objects, j, n) && m.taskId == n.taskId
    ensures i == j && m == n
  {
    hide Says;
    SaysOne(objects, i, m, if i == j then n else m);
  }

  /** What the grouping and selecting chooses is what is selected of the listing. */
  lemma ChosenExactly(objects: seq<ObjectInfo>, parsed: seq<Parsed>, at: seq<nat>, k: nat)
    requires ReadFrom(objects, parsed, at) && k < |at|
    ensures Chosen(parsed, parsed[k]) <==> Selected(objects, at[k], parsed[k])
  {
    hide Says, IsNewest;
    var task := parsed[k].taskId;
    if task.Some? {
      OfTaskExactly(parsed, task);
      assert parsed[k] in OfTask(parsed, task);
      var j := NewestRead(objects, parsed, at, task);
      hide OfTask, Latest;
      forall i: nat, latest | IsNewest(objects, i, latest) && latest.taskId == task ensures latest == parsed[j] {
        NewestOne(objects, i, latest, at[j], parsed[j]);
      }
    }
  }

  // ---------------------------------------------------------------- the result

  function KeysAt(objects: seq<ObjectInfo>, at: seq<nat>): seq<string>
    requires forall k | 0 <= k < |at| :: at[k] < |objects|
  {
    seq(|at|, k requires 0 <= k < |at| => objects[at[k]].key)
  }

  /** `keys` are the keys of exactly the selected objects, each as often as it is listed. */
  ghost predicate Discovered(objects: seq<ObjectInfo>, keys: seq<string>) {
    exists at: seq<nat> ::
      && Increasing(at)
      && (forall i: nat :: i in at <==> exists m :: Selected(objects, i, m))
      && (forall k | 0 <= k < |at| :: at[k] < |objects|)
      && multiset(keys) == multiset(KeysAt(objects, at))
  }

  /** These positions are, of the first `n`, those of selected objects. */
  ghost predicate ChosenOf(objects: seq<ObjectInfo>, parsed: seq<Parsed>, at: seq<nat>, n: nat, chosen: seq<nat>)
    requires n <= |at| == |parsed|
  {
    && Increasing(chosen)
    && (forall i :: i in chosen <==> exists k :: 0 <= k < n && at[k] == i && Selected(objects, i, parsed[k]))
  }

  lemma ChosenSkip(objects: seq<ObjectInfo>, parsed: seq<Parsed>, at: seq<nat>, n: nat, chosen: seq<nat>)
    requires n < |at| == |parsed| && ChosenOf(objects, parsed, at, n, chosen) && !Selected(objects, at[n], parsed[n])
    ensures ChosenOf(objects, parsed, at, n + 1, chosen)
  {
    hide Selected;
  }

  lemma ChosenTake(objects: seq<ObjectInfo>, parsed: seq<Parsed>, at: seq<nat>, n: nat, chosen: seq<nat>)
    requires n < |at| == |parsed| && Increasing(at) && ChosenOf(objects, parsed, at, n, chosen)
    requires Selected(objects, at[n], parsed[n])
    ensures ChosenOf(objects, parsed, at, n + 1, chosen + [at[n]])
  {
    hide Selected;
    var longer := chosen + [at[n]];
    forall j, k | 0 <= j < k < |longer| ensures longer[j] < longer[k] {
      if k == |chosen| {
        assert chosen[j] in chosen;
        var l :| 0 <= l < n && at[l] == chosen[j];
      }
    }
    forall i ensures i in longer <==> exists k :: 0 <= k < n + 1 && at[k] == i && Selected(objects, i, parsed[k]) {
      assert i in longer <==> i in chosen || i == at[n];
    }
  }

  /** Which of the positions are chosen, and the keys there. */
  lemma {:induction false} ChosenAt(objects: seq<ObjectInfo>, parsed: seq<Parsed>, at: seq<nat>, n: nat)
    returns (chosen: seq<nat>)
    requires ReadFrom(objects, parsed, at) && n <= |at|
    ensures ChosenOf(objects, parsed, at, n, chosen) && forall k | 0 <= k < |chosen| :: chosen[k] < |objects|
    ensures KeysAt(objects, chosen) == ChosenKeys(parsed, parsed[..n])
  {
    hide Says, Chosen, Selected, ChosenOf;
    if n == 0 {
      chosen := [];
      assert ChosenOf(objects, parsed, at, 0, []) by { NoneChosen(objects, parsed, at); }
    } else {
      var before := ChosenAt(objects, parsed, at, n - 1);
      ChosenExactly(objects, parsed, at, n - 1);
      SaysKey(objects, at[n - 1], parsed[n - 1]);
      assert parsed[..n][..n - 1] == parsed[..n - 1];
      if Selected(objects, at[n - 1], parsed[n - 1]) {
        ChosenTake(objects, parsed, at, n - 1, before);
        chosen := before + [at[n - 1]];
        assert KeysAt(objects, chosen) == KeysAt(objects, before) + [parsed[n - 1].key];
      } else {
        ChosenSkip(objects, parsed, at, n - 1, before);
        chosen := before;
      }
    }
  }

  lemma NoneChosen(objects: seq<ObjectInfo>, parsed: seq<Parsed>, at: seq<nat>)
    requires |at| == |parsed|
    ensures ChosenOf(objects, parsed, at, 0, [])
  {
  }

  lemma SaysKey(objects: seq<ObjectInfo>, i: nat, m: Parsed)
    requires Says(objects, i, m)
    ensures i < |objects| && m.key == objects[i].key
  {
  }

  lemma ChosenAreDiscovered(objects: seq<ObjectInfo>, keys: seq<string>)
    requires multiset(keys) == multiset(ChosenKeys(ParsedOutputs(objects), ParsedOutputs(objects)))
    ensures Discovered(objects, keys)
  {
    hide ParsedOutputs, Says, ChosenKeys, IsNewest;
    var parsed := ParsedOutputs(objects);
    var at := ReadsExactly(objects);
    var chosen := ChosenAt(objects, parsed, at, |at|);
    assert parsed[..|at|] == parsed;
    forall i: nat ensures i in chosen <==> exists m :: Selected(objects, i, m) {
      if m :| Selected(objects, i, m) {
        assert Says(objects, i, m) && i in at;
        var k :| 0 <= k < |at| && at[k] == i;
        SaysOne(objects, i, m, parsed[k]);
      }
    }
  }

  /** Output discovery: the keys of exactly the selected objects of the listing. */
  method DiscoverOutputs(objects: seq<ObjectInfo>) returns (keys: seq<string>)
    ensures Discovered(objects, keys)
  {
    hide Discovered;
    var parsed := ParseManifestKeys(FilterOutputs(objects));
    var grouped := GroupManifestsByTask(parsed);
    keys := SelectLatest(parsed, grouped);
    ChosenAreDiscovered(objects, keys);
  }

  // ---------------------------------------------------------------- end to end

  /** An output manifest a session action wrote, for a task or for a whole step. */
  datatype Written = Written(job: string, step: string, task: Option<string>, timestamp: string, action: string,
                             name: string, modified: Option<int>)

  function KeyOf(prefix: string, farm: string, queue: string, w: Written): string {
    if w.task.Some?
    then FormatTaskKey(prefix, farm, queue, w.job, w.step, w.task.value, w.timestamp, w.action, w.name)
    else FormatStepKey(prefix, farm, queue, w.job, w.step, w.timestamp, w.action, w.name)
  }

  function SessionOf(w: Written): string { w.timestamp + "_" + w.action }

  /** Ids of the documented shapes, and a name that is one of an output manifest. */
  predicate IsWritten(farm: string, queue: string, w: Written) {
    && Ids(farm, queue, w.job, w.step, w.timestamp, w.action, w.name) && IsOutput(w.name)
    && (w.task.Some? ==> IsId("task", w.task.value))
  }

  predicate Lists(objects: seq<ObjectInfo>, prefix: string, farm: string, queue: string, written: seq<Written>) {
    && |objects| == |written|
    && forall i | 0 <= i < |objects| ::
      objects[i] == ObjectInfo(KeyOf(prefix, farm, queue, written[i]), written[i].modified)
  }

  /** No output of the task is newer, nor as new and listed later. */
  predicate NewestWritten(written: seq<Written>, j: nat) {
    j < |written| && forall i | 0 <= i < |written| && written[i].task == written[j].task ::
      written[i].modified.GetOr(0) < written[j].modified.GetOr(0)
      || (written[i].modified.GetOr(0) == written[j].modified.GetOr(0) && i <= j)
  }

  ghost predicate Wanted(written: seq<Written>, i: nat) {
    && i < |written|
    && (written[i].task.None?
        || exists j: nat :: NewestWritten(written, j) && j < |written| && written[j].task == written[i].task
                            && SessionOf(written[j]) == SessionOf(written[i]))
  }

  lemma OutputSuffix(front: string, name: string)
    requires IsOutput(name)
    ensures IsOutput(front + name)
  {
    var key := front + name;
    if |name| >= 7 { assert key[|key| - 7..] == name[|name| - 7..]; }
    if |name| >= 12 { assert key[|key| - 12..] == name[|name| - 12..]; }
  }

  /** A formatted key says what it was made of. */
  lemma WrittenSays(objects: seq<ObjectInfo>, prefix: string, farm: string, queue: string, written: seq<Written>,
                    i: nat) returns (m: Parsed)
    requires Lists(objects, prefix, farm, queue, written) && i < |objects| && IsWritten(farm, queue, written[i])
    requires TaskFree(prefix, farm, queue) && StepFree(prefix, farm)
    ensures Says(objects, i, m) && m.taskId == written[i].task && m.sessionFolder == SessionOf(written[i])
    ensures m.lastModified == written[i].modified.GetOr(0) && m.key == objects[i].key
  {
    hide TaskFree, StepFree, IsId, IsOutput, ParseKey, SessionActionFrom, Contains;
    var w, key := written[i], objects[i].key;
    if w.task.Some? {
      TaskKeyParses(prefix, farm, queue, w.job, w.step, w.task.value, w.timestamp, w.action, w.name, w.modified);
      OutputSuffix(FormatTaskPrefix(prefix, farm, queue, w.job, w.step, w.task.value) + w.timestamp + "_" + w.action
                   + "/", w.name);
    } else {
      StepKeyParses(prefix, farm, queue, w.job, w.step, w.timestamp, w.action, w.name, w.modified);
      OutputSuffix(FormatStepPrefix(prefix, farm, queue, w.job, w.step) + w.timestamp + "_" + w.action + "/", w.name);
    }
    m := ParseKey(objects[i]).value;
  }

  ghost predicate SaysSome(objects: seq<ObjectInfo>, j: nat) { exists n :: Says(objects, j, n) }

  /** What each object says is what was written. */
  ghost predicate SaysWritten(objects: seq<ObjectInfo>, written: seq<Written>) {
    && |objects| == |written|
    && (forall j: nat | j < |objects| :: SaysSome(objects, j))
    && (forall j: nat, n | Says(objects, j, n) ::
          j < |written| && n.taskId == written[j].task && n.sessionFolder == SessionOf(written[j])
          && n.lastModified == written[j].modified.GetOr(0))
  }

  lemma ListingSaysWritten(objects: seq<ObjectInfo>, prefix: string, farm: string, queue: string,
                           written: seq<Written>)
    requires Lists(objects, prefix, farm, queue, written)
    requires forall w | w in written :: IsWritten(farm, queue, w)
    requires TaskFree(prefix, farm, queue) && StepFree(prefix, farm)
    ensures SaysWritten(objects, written)
  {
    SameLength(objects, prefix, farm, queue, written);
    hide TaskFree, StepFree, IsWritten, Says, Lists, KeyOf;
    forall j: nat | j < |objects| ensures SaysSome(objects, j) {
      assert written[j] in written;
      var n := WrittenSays(objects, prefix, farm, queue, written, j);
    }
    forall j: nat, n | Says(objects, j, n)
      ensures j < |written| && n.taskId == written[j].task && n.sessionFolder == SessionOf(written[j])
      ensures n.lastModified == written[j].modified.GetOr(0)
    {
      SaysKey(objects, j, n);
      assert written[j] in written;
      var o := WrittenSays(objects, prefix, farm, queue, written, j);
      SaysOne(objects, j, n, o);
    }
  }

  lemma SameLength(objects: seq<ObjectInfo>, prefix: string, farm: string, queue: string, written: seq<Written>)
    requires Lists(objects, prefix, farm, queue, written)
    ensures |objects| == |written|
  {
  }

  lemma NewestAgrees(objects: seq<ObjectInfo>, written: seq<Written>, j: nat, n: Parsed)
    requires SaysWritten(objects, written) && Says(objects, j, n)
    ensures IsNewest(objects, j, n) <==> NewestWritten(written, j)
  {
    hide Says, SessionOf;
    if IsNewest(objects, j, n) {
      forall i | 0 <= i < |written| && written[i].task == written[j].task
        ensures written[i].modified.GetOr(0) < written[j].modified.GetOr(0)
                || (written[i].modified.GetOr(0) == written[j].modified.GetOr(0) && i <= j)
      {
        assert SaysSome(objects, i);
        var m :| Says(objects, i, m);
      }
    }
  }

  lemma WantedExactly(objects: seq<ObjectInfo>, written: seq<Written>, i: nat)
    requires SaysWritten(objects, written) && i < |objects|
    ensures (exists m :: Selected(objects, i, m)) <==> Wanted(written, i)
  {
    hide Says, SessionOf, NewestWritten, IsNewest;
    forall j: nat, n | Says(objects, j, n) ensures IsNewest(objects, j, n) <==> NewestWritten(written, j) {
      NewestAgrees(objects, written, j, n);
    }
    forall j: nat, n | IsNewest(objects, j, n) ensures Says(objects, j, n) { NewestSays(objects, j, n); }
    forall j: nat | NewestWritten(written, j) ensures j < |written| { NewestInRange(written, j); }
    assert SaysSome(objects, i);
    var m :| Says(objects, i, m);
    if Wanted(written, i) && m.taskId.Some? {
      var j: nat :| NewestWritten(written, j) && written[j].task == written[i].task
        && SessionOf(written[j]) == SessionOf(written[i]);
      assert SaysSome(objects, j);
      var n :| Says(objects, j, n);
      assert IsNewest(objects, j, n);
    }
    if Wanted(written, i) { assert Selected(objects, i, m); }
  }

  lemma NewestSays(objects: seq<ObjectInfo>, j: nat, n: Parsed)
    requires IsNewest(objects, j, n)
    ensures Says(objects, j, n)
  {
  }

  lemma NewestInRange(written: seq<Written>, j: nat)
    requires NewestWritten(written, j)
    ensures j < |written|
  {
  }

  /** A listing of formatted keys comes back as all outputs of steps, and of each task those of one session: that of its
      newest output. */
  lemma FormattedListing(objects: seq<ObjectInfo>, prefix: string, farm: string, queue: string, written: seq<Written>,
                         keys: seq<string>) returns (at: seq<nat>)
    requires Lists(objects, prefix, farm, queue, written) && Discovered(objects, keys)
    requires forall w | w in written :: IsWritten(farm, queue, w)
    requires TaskFree(prefix, farm, queue) && StepFree(prefix, farm)
    ensures Increasing(at) && forall i: nat :: i in at <==> Wanted(written, i)
    ensures forall k | 0 <= k < |at| :: at[k] < |objects|
    ensures multiset(keys) == multiset(KeysAt(objects, at))
  {
    hide TaskFree, StepFree, IsWritten, Selected, Lists, Wanted;
    at :| && Increasing(at)
          && (forall i: nat :: i in at <==> exists m :: Selected(objects, i, m))
          && (forall k | 0 <= k < |at| :: at[k] < |objects|)
          && multiset(keys) == multiset(KeysAt(objects, at));
    ListingSaysWritten(objects, prefix, farm, queue, written);
    forall i: nat ensures i in at <==> Wanted(written, i) {
      if i < |objects| { WantedExactly(objects, written, i); } else { NotWanted(written, i); }
    }
  }

  lemma NotWanted(written: seq<Written>, i: nat)
    requires i >= |written|
    ensures !Wanted(written, i)
  {
  }
}
