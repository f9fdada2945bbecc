/** Output manifests in S3: how their keys are formatted, how listing parses them back, and which sessions are kept. */
module OutputKeys {
  import opened Wrappers
  import opened Strings
  import Locations

  // ---------------------------------------------------------------- formatting

  function FormatStepPrefix(prefix: string, farm: string, queue: string, job: string, step: string): string {
    prefix + "/" + farm + "/" + queue + "/" + job + "/" + step + "/"
  }

  function FormatTaskPrefix(prefix: string, farm: string, queue: string, job: string, step: string,
                            task: string): string {
    prefix + "/" + farm + "/" + queue + "/" + job + "/" + step + "/" + task + "/"
  }

  function FormatTaskKey(prefix: string, farm: string, queue: string, job: string, step: string, task: string,
                         timestamp: string, sessionAction: string, name: string): string {
    FormatTaskPrefix(prefix, farm, queue, job, step, task) + timestamp + "_" + sessionAction + "/" + name
  }

  function FormatStepKey(prefix: string, farm: string, queue: string, job: string, step: string,
                         timestamp: string, sessionAction: string, name: string): string {
    FormatStepPrefix(prefix, farm, queue, job, step) + timestamp + "_" + sessionAction + "/" + name
  }

  /** Adding a segment without `/` adds one piece. */
  lemma SplitSegment(s: string, segment: string)
    requires '/' !in segment
    ensures Split(s + "/" + segment, '/') == Split(s, '/') + [segment]
  {
    var parts := Split(s, '/');
    JoinSplit(s, '/');
    hide Split, Join;
    Locations.JoinAppend(parts, [segment]);
    assert Join([segment], '/') == segment by { JoinOne(segment); }
    assert forall p | p in parts + [segment] :: p in parts || p == segment;
    SplitJoin(parts + [segment], '/');
  }

  lemma JoinOne(s: string)
    ensures Join([s], '/') == s
  {
  }

  lemma SplitStepKey(prefix: string, farm: string, queue: string, job: string, step: string, folder: string,
                     name: string)
    requires forall s | s in [farm, queue, job, step, folder, name] :: '/' !in s
    ensures Split(FormatStepPrefix(prefix, farm, queue, job, step) + folder + "/" + name, '/')
         == Split(prefix, '/') + [farm, queue, job, step, folder, name]
  {
    hide Split;
    var ids := [farm, queue, job, step, folder, name];
    assert farm == ids[0] && queue == ids[1] && job == ids[2] && step == ids[3] && folder == ids[4] && name == ids[5];
    var a := prefix + "/" + farm;
    var b := a + "/" + queue;
    var c := b + "/" + job;
    var d := c + "/" + step;
    SplitSegment(prefix, farm);
    SplitSegment(a, queue);
    SplitSegment(b, job);
    SplitSegment(c, step);
    SplitSegment(d, folder);
    SplitSegment(d + "/" + folder, name);
    assert Split(prefix, '/') + [farm] + [queue] + [job] + [step] + [folder] + [name] == Split(prefix, '/') + ids;
  }

  lemma SplitTaskKey(prefix: string, farm: string, queue: string, job: string, step: string, task: string,
                     folder: string, name: string)
    requires forall s | s in [farm, queue, job, step, task, folder, name] :: '/' !in s
    ensures Split(FormatTaskPrefix(prefix, farm, queue, job, step, task) + folder + "/" + name, '/')
         == Split(prefix, '/') + [farm, queue, job, step, task, folder, name]
  {
    hide Split;
    var ids := [farm, queue, job, step, task, folder, name];
    assert task == ids[4] && folder == ids[5] && name == ids[6];
    assert forall s | s in [farm, queue, job, step, task, folder] :: s in ids;
    SplitStepKey(prefix, farm, queue, job, step, task, folder);
    SplitSegment(FormatStepPrefix(prefix, farm, queue, job, step) + task + "/" + folder, name);
    assert FormatTaskPrefix(prefix, farm, queue, job, step, task) + folder + "/" + name
        == FormatStepPrefix(prefix, farm, queue, job, step) + task + "/" + folder + "/" + name;
    assert Split(prefix, '/') + [farm, queue, job, step, task, folder] + [name] == Split(prefix, '/') + ids;
  }

  // ---------------------------------------------------------------- the key patterns, on `/`-separated segments

  predicate OccursAt(s: string, word: string, i: nat) { i + |word| <= |s| && s[i..i + |word|] == word }

  /** `word` occurs in `s` with at least `before` characters before it and `after` behind it. */
  predicate Contains(s: string, word: string, before: nat, after: nat) {
    exists i: nat | before <= i <= |s| :: OccursAt(s, word, i) && i + |word| + after <= |s|
  }

  const STEP := "step-"
  const TASK := "task-"
  const SESSION := "sessionaction-"

  predicate IsStepSegment(s: string) { Contains(s, STEP, 0, 1) }
  predicate IsTaskSegment(s: string) { TASK <= s && |s| > |TASK| }
  predicate IsSessionSegment(s: string) { Contains(s, "_" + SESSION, 1, 1) }
  predicate IsOutputSegment(s: string) { Contains(s, "_output", 1, 0) }

  /** step-…/(task-…)/(…_sessionaction-…)/…_output, from segment `i` on. */
  predicate TaskAt(segments: seq<string>, i: nat) {
    && i + 3 < |segments| && IsStepSegment(segments[i]) && IsTaskSegment(segments[i + 1])
    && IsSessionSegment(segments[i + 2]) && IsOutputSegment(segments[i + 3])
  }

  /** step-…/(…_sessionaction-…)/…_output, from segment `i` on. */
  predicate StepAt(segments: seq<string>, i: nat) {
    && i + 2 < |segments| && IsStepSegment(segments[i])
    && IsSessionSegment(segments[i + 1]) && IsOutputSegment(segments[i + 2])
  }

  /** A search finds the leftmost match. */
  function FirstTask(segments: seq<string>, from: nat): (r: Option<nat>)
    ensures r.Some? ==> from <= r.value && TaskAt(segments, r.value)
    ensures forall i: nat | from <= i < (if r.Some? then r.value else |segments|) :: !TaskAt(segments, i)
    decreases |segments| - from
  {
    if from >= |segments| then None
    else if TaskAt(segments, from) then Some(from)
    else FirstTask(segments, from + 1)
  }

  function FirstStep(segments: seq<string>, from: nat): (r: Option<nat>)
    ensures r.Some? ==> from <= r.value && StepAt(segments, r.value)
    ensures forall i: nat | from <= i < (if r.Some? then r.value else |segments|) :: !StepAt(segments, i)
    decreases |segments| - from
  {
    if from >= |segments| then None
    else if StepAt(segments, from) then Some(from)
    else FirstStep(segments, from + 1)
  }

  /** "sessionaction-" at `j`, with something behind it. */
  predicate ActionAt(folder: string, j: nat) { OccursAt(folder, SESSION, j) && j + |SESSION| < |folder| }

  /** The first session action in a folder name, to the end of the name. */
  function SessionActionFrom(folder: string, i: nat): (r: Option<string>)
    ensures r.None? ==> forall j: nat | i <= j :: !ActionAt(folder, j)
    ensures r.Some? ==> i <= |folder| - |r.value| && ActionAt(folder, |folder| - |r.value|)
                        && r.value == folder[|folder| - |r.value|..]
    ensures r.Some? ==> forall j: nat | i <= j < |folder| - |r.value| :: !ActionAt(folder, j)
    decreases |folder| - i
  {
    if i >= |folder| then None
    else if ActionAt(folder, i) then Some(folder[i..])
    else SessionActionFrom(folder, i + 1)
  }

  datatype ObjectInfo = ObjectInfo(key: string, lastModified: Option<int>)

  datatype ParsedManifestKey = ParsedManifestKey(
    key: string, lastModified: int, taskId: Option<string>, sessionFolder: string, sessionActionId: string)

  function WithSession(object_: ObjectInfo, taskId: Option<string>, folder: string): Option<ParsedManifestKey> {
    var action := SessionActionFrom(folder, 0);
    if action.None? then None
    else Some(ParsedManifestKey(object_.key, object_.lastModified.GetOr(0), taskId, folder, action.value))
  }

  /** One key: the task pattern first, then the step pattern. */
  function ParseKey(object_: ObjectInfo): Option<ParsedManifestKey> {
    var segments := Split(object_.key, '/');
    var task := FirstTask(segments, 0);
    if task.Some? then WithSession(object_, Some(segments[task.value + 1]), segments[task.value + 2])
    else
      var step := FirstStep(segments, 0);
      if step.Some? then WithSession(object_, None, segments[step.value + 1]) else None
  }

  /** `parse_manifest_keys`: what does not parse is left out. */
  function ParseManifestKeys(objects: seq<ObjectInfo>): seq<ParsedManifestKey> {
    if objects == [] then []
    else
      var parsed := ParseKey(objects[|objects| - 1]);
      ParseManifestKeys(objects[..|objects| - 1]) + if parsed.Some? then [parsed.value] else []
  }

  // ---------------------------------------------------------------- parsing what was formatted

  /** An id of the documented shape: its kind, a dash, and something without `/` or `_`. */
  predicate IsId(kind: string, id: string) {
    kind + "-" <= id && |id| > |kind| + 1 && '/' !in id && '_' !in id
  }

  /** The documented shape, put together: kind, dash, and the rest. */
  lemma IdShape(kind: string, rest: string)
    requires '/' !in kind && '_' !in kind
    ensures IsId(kind, kind + "-" + rest) <==> rest != "" && '/' !in rest && '_' !in rest
  {
    var id := kind + "-" + rest;
    assert forall c :: c in id <==> c in kind || c == '-' || c in rest;
  }

  predicate IsSessionAction(id: string) { IsId("sessionaction", id) }

  predicate IsOutputName(name: string) { '/' !in name && IsOutputSegment(name) }

  lemma OccursChar(s: string, word: string, i: nat, k: nat)
    requires OccursAt(s, word, i) && k < |word|
    ensures s[i + k] == word[k]
  {
    assert s[i..i + |word|][k] == s[i + k];
  }

  lemma NoUnderscore(s: string, word: string, before: nat, after: nat)
    requires '_' !in s && |word| > 0 && word[0] == '_'
    ensures !Contains(s, word, before, after)
  {
    forall i: nat | before <= i <= |s| ensures !OccursAt(s, word, i) {
      if OccursAt(s, word, i) { OccursChar(s, word, i, 0); }
    }
  }

  /** What an id can be taken for. */
  lemma IdSegments(kind: string, id: string)
    requires IsId(kind, id)
    ensures !IsSessionSegment(id) && !IsOutputSegment(id)
    ensures kind == "step" ==> IsStepSegment(id)
    ensures kind == "task" ==> IsTaskSegment(id)
    ensures kind in ["farm", "queue", "job", "step"] ==> !IsTaskSegment(id)
  {
    NoUnderscore(id, "_" + SESSION, 1, 1);
    NoUnderscore(id, "_output", 1, 0);
    assert kind + "-" == id[..|kind| + 1];
    if kind == "step" { assert OccursAt(id, STEP, 0); }
    if kind == "task" { assert TASK == id[..5]; }
    if kind in ["farm", "queue", "job", "step"] {
      assert id[0] == kind[0] && TASK[0] == 't' && kind[0] != 't';
    }
  }

  lemma FolderActions(timestamp: string, action: string)
    requires IsSessionAction(action)
    ensures var folder := timestamp + "_" + action;
      && ActionAt(folder, |timestamp| + 1) && folder[|timestamp| + 1..] == action
      && OccursAt(folder, "_" + SESSION, |timestamp|)
  {
    var folder, n := timestamp + "_" + action, |timestamp|;
    assert action[..|SESSION|] == SESSION;
    assert folder[n..n + 1 + |SESSION|] == "_" + SESSION;
    assert folder[n + 1..n + 1 + |SESSION|] == SESSION;
  }

  /** An action found before that one lies in the timestamp: the word has no underscore. */
  lemma ActionBefore(timestamp: string, action: string, j: nat)
    requires j <= |timestamp| && ActionAt(timestamp + "_" + action, j)
    ensures OccursAt(timestamp, SESSION, j)
  {
    var folder, n := timestamp + "_" + action, |timestamp|;
    assert '_' !in SESSION;
    if n < j + |SESSION| { OccursChar(folder, SESSION, j, n - j); }
    assert timestamp[j..j + |SESSION|] == folder[j..j + |SESSION|];
  }

  lemma ActionWithin(timestamp: string, action: string, j: nat)
    requires OccursAt(timestamp, SESSION, j)
    ensures ActionAt(timestamp + "_" + action, j)
  {
    var folder := timestamp + "_" + action;
    assert folder[j..j + |SESSION|] == timestamp[j..j + |SESSION|];
  }

  /** The session folder is recognised, and its session action found exactly when the timestamp does not itself
      contain the word. */
  lemma SessionFolder(timestamp: string, action: string)
    requires timestamp != "" && '/' !in timestamp && IsSessionAction(action)
    ensures var folder := timestamp + "_" + action;
      && IsSessionSegment(folder) && '/' !in folder
      && SessionActionFrom(folder, 0).Some?
      && (SessionActionFrom(folder, 0) == Some(action) <==> !Contains(timestamp, SESSION, 0, 0))
  {
    var folder, n := timestamp + "_" + action, |timestamp|;
    FolderActions(timestamp, action);
    hide OccursAt, ActionAt;
    var found := SessionActionFrom(folder, 0);
    var j := |folder| - |found.value|;
    assert j <= n + 1;
    if j <= n { ActionBefore(timestamp, action, j); }
    if Contains(timestamp, SESSION, 0, 0) {
      var i: nat :| i <= |timestamp| && OccursAt(timestamp, SESSION, i) && i + |SESSION| <= |timestamp|;
      ActionWithin(timestamp, action, i);
      assert j <= i;
    }
  }

  /** Ids of the documented shapes, a proper timestamp, an output name. */
  predicate Ids(farm: string, queue: string, job: string, step: string, timestamp: string, action: string,
                name: string) {
    && IsId("farm", farm) && IsId("queue", queue) && IsId("job", job) && IsId("step", step)
    && timestamp != "" && '/' !in timestamp && IsSessionAction(action) && IsOutputName(name)
  }

  /** Before the step segment, only the prefix can match the task pattern. */
  lemma TaskMatches(pre: seq<string>, farm: string, queue: string, job: string, step: string, rest: seq<string>, i: nat)
    requires IsId("farm", farm) && IsId("queue", queue) && IsId("job", job) && IsId("step", step)
    requires i < |pre| + 3 && |rest| >= 2
    ensures var segments := pre + [farm, queue, job, step] + rest;
            TaskAt(segments, i) <==> TaskAt(pre + [farm, queue], i)
  {
    IdSegments("farm", farm);
    IdSegments("queue", queue);
    IdSegments("job", job);
    IdSegments("step", step);
    hide IsStepSegment, IsTaskSegment, IsSessionSegment, IsOutputSegment, IsId;
    var segments, head := pre + [farm, queue, job, step] + rest, pre + [farm, queue];
    if i + 1 < |pre| {
      assert segments[..|pre| + 2] == head;
      assert segments[i] == head[i] && segments[i + 1] == head[i + 1] && segments[i + 2] == head[i + 2]
             && segments[i + 3] == head[i + 3];
    } else {
      assert segments[i + 1] in [farm, queue, job, step];
    }
  }

  /** And only the prefix can match the step pattern. */
  lemma StepMatches(pre: seq<string>, farm: string, queue: string, job: string, step: string, rest: seq<string>, i: nat)
    requires IsId("farm", farm) && IsId("queue", queue) && IsId("job", job) && IsId("step", step)
    requires i < |pre| + 3 && |rest| >= 2
    ensures var segments := pre + [farm, queue, job, step] + rest;
            StepAt(segments, i) <==> StepAt(pre + [farm], i)
  {
    IdSegments("farm", farm);
    IdSegments("queue", queue);
    IdSegments("job", job);
    IdSegments("step", step);
    hide IsStepSegment, IsTaskSegment, IsSessionSegment, IsOutputSegment, IsId;
    var segments, head := pre + [farm, queue, job, step] + rest, pre + [farm];
    if i + 1 < |pre| {
      assert segments[..|pre| + 1] == head;
      assert segments[i] == head[i] && segments[i + 1] == head[i + 1] && segments[i + 2] == head[i + 2];
    } else {
      assert segments[i + 1] in [farm, queue, job, step];
    }
  }

  lemma FirstTaskIs(segments: seq<string>, i: nat)
    requires TaskAt(segments, i) && forall j: nat | j < i :: !TaskAt(segments, j)
    ensures FirstTask(segments, 0) == Some(i)
  {
    hide TaskAt;
    var first := FirstTask(segments, 0);
    assert i < |segments| by { TaskInRange(segments, i); }
  }

  lemma TaskInRange(segments: seq<string>, i: nat)
    requires TaskAt(segments, i)
    ensures i < |segments|
  {
  }

  lemma FirstStepIs(segments: seq<string>, i: nat)
    requires StepAt(segments, i) && forall j: nat | j < i :: !StepAt(segments, j)
    ensures FirstStep(segments, 0) == Some(i)
  {
    var first := FirstStep(segments, 0);
  }

  /** The prefix, with the ids next to it, cannot itself be taken for an output key. */
  predicate TaskFree(prefix: string, farm: string, queue: string) {
    FirstTask(Split(prefix, '/') + [farm, queue], 0).None?
  }
  predicate StepFree(prefix: string, farm: string) { FirstStep(Split(prefix, '/') + [farm], 0).None? }

  /** A prefix without "step-" cannot. */
  lemma PlainPrefixIsFree(prefix: string, farm: string, queue: string)
    requires IsId("farm", farm) && IsId("queue", queue)
    requires forall s | s in Split(prefix, '/') :: !IsStepSegment(s)
    ensures TaskFree(prefix, farm, queue) && StepFree(prefix, farm)
  {
    hide IsStepSegment, IsTaskSegment, IsSessionSegment, IsOutputSegment, IsId, Split;
    var pre := Split(prefix, '/');
    forall i: nat | i < |pre| ensures !IsStepSegment((pre + [farm, queue])[i]) && !IsStepSegment((pre + [farm])[i]) {
      assert pre[i] in pre;
    }
    assert forall i: nat :: !TaskAt(pre + [farm, queue], i) && !StepAt(pre + [farm], i);
  }

  /** A task-level key read back gives the task and the session folder, and the session action exactly when the
      timestamp does not contain its word; provided the prefix cannot be taken for a key, else what the prefix
      says is read instead. */
  lemma TaskKeyParses(prefix: string, farm: string, queue: string, job: string, step: string, task: string,
                      timestamp: string, action: string, name: string, lastModified: Option<int>)
    requires Ids(farm, queue, job, step, timestamp, action, name) && IsId("task", task)
    ensures var key := FormatTaskKey(prefix, farm, queue, job, step, task, timestamp, action, name);
      var folder := timestamp + "_" + action;
      var parsed, head := ParseKey(ObjectInfo(key, lastModified)), Split(prefix, '/') + [farm, queue];
      if TaskFree(prefix, farm, queue) then
        && parsed.Some?
        && parsed.value.(sessionActionId := action)
           == ParsedManifestKey(key, lastModified.GetOr(0), Some(task), folder, action)
        && (parsed.value.sessionActionId == action <==> !Contains(timestamp, SESSION, 0, 0))
      else
        var i := FirstTask(head, 0).value;
        parsed.Some? && parsed.value.taskId == Some(head[i + 1]) && parsed.value.sessionFolder == head[i + 2]
  {
    hide Split, IsStepSegment, IsTaskSegment, IsSessionSegment, IsOutputSegment, IsId, SessionActionFrom, Contains,
         FormatTaskKey;
    var folder := timestamp + "_" + action;
    SessionFolder(timestamp, action);
    IdSegments("step", step);
    IdSegments("task", task);
    TaskSegments(prefix, farm, queue, job, step, task, timestamp, action, name);
    var pre := Split(prefix, '/');
    FirstTaskOfKey(pre, farm, queue, job, step, [task, folder, name]);
    hide TaskAt, FirstTask;
    var segments, head := pre + [farm, queue, job, step] + [task, folder, name], pre + [farm, queue];
    assert segments[|pre| + 4] == task && segments[|pre| + 5] == folder;
    if !TaskFree(prefix, farm, queue) {
      var i := FirstTask(head, 0).value;
      TaskWithin(head, i);
      SessionSegmentParses(head[i + 2]);
      assert segments[..|pre| + 2] == head;
      assert segments[i + 1] == head[i + 1] && segments[i + 2] == head[i + 2];
    }
  }

  lemma TaskWithin(segments: seq<string>, i: nat)
    requires TaskAt(segments, i)
    ensures i + 3 < |segments| && IsSessionSegment(segments[i + 2])
  {
  }

  lemma StepWithin(segments: seq<string>, i: nat)
    requires StepAt(segments, i)
    ensures i + 2 < |segments| && IsSessionSegment(segments[i + 1])
  {
  }

  /** A segment the patterns take for a session folder has a session action. */
  lemma SessionSegmentParses(folder: string)
    requires IsSessionSegment(folder)
    ensures SessionActionFrom(folder, 0).Some?
  {
    var word := "_" + SESSION;
    var i: nat :| 1 <= i <= |folder| && OccursAt(folder, word, i) && i + |word| + 1 <= |folder|;
    assert folder[i + 1..i + 1 + |SESSION|] == folder[i..i + |word|][1..] == SESSION;
    assert ActionAt(folder, i + 1);
  }

  lemma ContainsExactly(s: string, word: string, before: nat, after: nat)
    ensures Contains(s, word, before, after) <==>
            exists a: string, b: string :: |a| >= before && |b| >= after && s == a + word + b
  {
    if Contains(s, word, before, after) {
      var i: nat :| before <= i <= |s| && OccursAt(s, word, i) && i + |word| + after <= |s|;
      assert s == s[..i] + s[i..i + |word|] + s[i + |word|..];
    }
    if a: string, b: string :| |a| >= before && |b| >= after && s == a + word + b {
      assert s[|a|..|a| + |word|] == word;
      assert OccursAt(s, word, |a|);
    }
  }

  /** "step-" anywhere, and something behind it. */
  lemma StepSegmentExactly(s: string)
    ensures IsStepSegment(s) <==> exists a: string, b: string :: |a| >= 0 && |b| >= 1 && s == a + "step-" + b
  {
    hide Contains;
    ContainsExactly(s, "step-", 0, 1);
  }

  /** "task-" in front, and something behind it. */
  lemma TaskSegmentExactly(s: string)
    ensures IsTaskSegment(s) <==> exists b: string :: |b| >= 1 && s == "task-" + b
  {
    if "task-" <= s { assert s == "task-" + s[5..]; }
  }

  /** "_sessionaction-", and something on both sides. */
  lemma SessionSegmentExactly(s: string)
    ensures IsSessionSegment(s) <==>
            exists a: string, b: string :: |a| >= 1 && |b| >= 1 && s == a + "_sessionaction-" + b
  {
    hide Contains;
    ContainsExactly(s, "_sessionaction-", 1, 1);
    assert "_" + SESSION == "_sessionaction-";
  }

  /** "_output", and something before it. */
  lemma OutputSegmentExactly(s: string)
    ensures IsOutputSegment(s) <==> exists a: string, b: string :: |a| >= 1 && |b| >= 0 && s == a + "_output" + b
  {
    hide Contains;
    ContainsExactly(s, "_output", 1, 0);
  }

  /** A session action begins at "sessionaction-", and something follows. */
  lemma ActionExactly(folder: string, i: nat)
    ensures ActionAt(folder, i) <==>
            i <= |folder| && exists b: string :: |b| >= 1 && folder[i..] == "sessionaction-" + b
  {
    if ActionAt(folder, i) {
      assert folder[i..] == folder[i..i + |SESSION|] + folder[i + |SESSION|..];
    }
    if i <= |folder| {
      if b: string :| |b| >= 1 && folder[i..] == "sessionaction-" + b {
        assert folder[i..][..|SESSION|] == SESSION == folder[i..i + |SESSION|];
      }
    }
  }

  /** The patterns: consecutive segments of a step, for tasks a task, a session and an output. */
  lemma PatternsExactly(segments: seq<string>, i: nat)
    ensures TaskAt(segments, i) <==>
      && i + 3 < |segments| && IsStepSegment(segments[i]) && IsTaskSegment(segments[i + 1])
      && IsSessionSegment(segments[i + 2]) && IsOutputSegment(segments[i + 3])
    ensures StepAt(segments, i) <==>
      && i + 2 < |segments| && IsStepSegment(segments[i])
      && IsSessionSegment(segments[i + 1]) && IsOutputSegment(segments[i + 2])
  {
    hide IsStepSegment, IsTaskSegment, IsSessionSegment, IsOutputSegment;
  }

  /** A key is read exactly if one of the patterns matches somewhere, as that of a task if the task pattern does. */
  lemma ParseKeyExactly(o: ObjectInfo)
    ensures var segments := Split(o.key, '/');
      && (ParseKey(o).Some? <==> exists i: nat :: i < |segments| && (TaskAt(segments, i) || StepAt(segments, i)))
      && (ParseKey(o).Some? ==>
            && ParseKey(o).value.key == o.key && ParseKey(o).value.lastModified == o.lastModified.GetOr(0)
            && (ParseKey(o).value.taskId.Some? <==> exists i: nat :: i < |segments| && TaskAt(segments, i)))
  {
    hide Split, TaskAt, StepAt, SessionActionFrom;
    var segments := Split(o.key, '/');
    forall i: nat | TaskAt(segments, i) ensures i + 3 < |segments| && SessionActionFrom(segments[i + 2], 0).Some? {
      TaskWithin(segments, i);
      SessionSegmentParses(segments[i + 2]);
    }
    forall i: nat | StepAt(segments, i) ensures i + 2 < |segments| && SessionActionFrom(segments[i + 1], 0).Some? {
      StepWithin(segments, i);
      SessionSegmentParses(segments[i + 1]);
    }
  }

  /** The first match is the prefix's own, if it has one, else the step segment's. */
  lemma FirstTaskOfKey(pre: seq<string>, farm: string, queue: string, job: string, step: string, rest: seq<string>)
    requires IsId("farm", farm) && IsId("queue", queue) && IsId("job", job) && IsId("step", step)
    requires |rest| == 3 && IsStepSegment(step) && IsTaskSegment(rest[0]) && IsSessionSegment(rest[1])
             && IsOutputSegment(rest[2])
    ensures var head := FirstTask(pre + [farm, queue], 0);
      FirstTask(pre + [farm, queue, job, step] + rest, 0) == if head.Some? then head else Some(|pre| + 3)
  {
    hide IsStepSegment, IsTaskSegment, IsSessionSegment, IsOutputSegment, IsId;
    var segments, head := pre + [farm, queue, job, step] + rest, pre + [farm, queue];
    forall i: nat | i < |pre| + 3 ensures TaskAt(segments, i) <==> TaskAt(head, i) {
      TaskMatches(pre, farm, queue, job, step, rest, i);
    }
    if FirstTask(head, 0).Some? {
      FirstTaskIs(segments, FirstTask(head, 0).value);
    } else {
      assert TaskAt(segments, |pre| + 3);
      FirstTaskIs(segments, |pre| + 3);
    }
  }

  lemma TaskSegments(prefix: string, farm: string, queue: string, job: string, step: string, task: string,
                     timestamp: string, action: string, name: string)
    requires Ids(farm, queue, job, step, timestamp, action, name) && IsId("task", task)
    ensures var folder := timestamp + "_" + action;
      Split(FormatTaskKey(prefix, farm, queue, job, step, task, timestamp, action, name), '/')
        == Split(prefix, '/') + [farm, queue, job, step] + [task, folder, name]
  {
    hide Split;
    var folder := timestamp + "_" + action;
    SplitTaskKey(prefix, farm, queue, job, step, task, folder, name);
    assert FormatTaskPrefix(prefix, farm, queue, job, step, task) + timestamp + "_" + action
        == FormatTaskPrefix(prefix, farm, queue, job, step, task) + folder;
    assert [farm, queue, job, step] + [task, folder, name] == [farm, queue, job, step, task, folder, name];
  }

  lemma StepSegments(prefix: string, farm: string, queue: string, job: string, step: string,
                     timestamp: string, action: string, name: string)
    requires Ids(farm, queue, job, step, timestamp, action, name)
    ensures var folder := timestamp + "_" + action;
      Split(FormatStepKey(prefix, farm, queue, job, step, timestamp, action, name), '/')
        == Split(prefix, '/') + [farm, queue, job, step] + [folder, name]
  {
    hide Split;
    var folder := timestamp + "_" + action;
    SplitStepKey(prefix, farm, queue, job, step, folder, name);
    assert FormatStepPrefix(prefix, farm, queue, job, step) + timestamp + "_" + action
        == FormatStepPrefix(prefix, farm, queue, job, step) + folder;
    assert [farm, queue, job, step] + [folder, name] == [farm, queue, job, step, folder, name];
  }

  /** A step-level key matches the task pattern only in its prefix. */
  lemma FirstTaskOfStepKey(pre: seq<string>, farm: string, queue: string, job: string, step: string, rest: seq<string>)
    requires IsId("farm", farm) && IsId("queue", queue) && IsId("job", job) && IsId("step", step) && |rest| == 2
    ensures FirstTask(pre + [farm, queue, job, step] + rest, 0) == FirstTask(pre + [farm, queue], 0)
  {
    hide IsStepSegment, IsTaskSegment, IsSessionSegment, IsOutputSegment, IsId;
    var segments, head := pre + [farm, queue, job, step] + rest, pre + [farm, queue];
    forall i: nat | i < |pre| + 3 ensures TaskAt(segments, i) <==> TaskAt(head, i) {
      TaskMatches(pre, farm, queue, job, step, rest, i);
    }
    assert forall i: nat | TaskAt(segments, i) :: i < |pre| + 3;
    if FirstTask(head, 0).Some? { FirstTaskIs(segments, FirstTask(head, 0).value); }
  }

  /** Its first match of the step pattern is the prefix's own, if it has one, else the step segment's. */
  lemma FirstStepOfKey(pre: seq<string>, farm: string, queue: string, job: string, step: string, rest: seq<string>)
    requires IsId("farm", farm) && IsId("queue", queue) && IsId("job", job) && IsId("step", step)
    requires |rest| == 2 && IsStepSegment(step) && IsSessionSegment(rest[0]) && IsOutputSegment(rest[1])
    ensures var head := FirstStep(pre + [farm], 0);
      FirstStep(pre + [farm, queue, job, step] + rest, 0) == if head.Some? then head else Some(|pre| + 3)
  {
    hide IsStepSegment, IsTaskSegment, IsSessionSegment, IsOutputSegment, IsId;
    var segments, head := pre + [farm, queue, job, step] + rest, pre + [farm];
    forall i: nat | i < |pre| + 3 ensures StepAt(segments, i) <==> StepAt(head, i) {
      StepMatches(pre, farm, queue, job, step, rest, i);
    }
    if FirstStep(head, 0).Some? {
      FirstStepIs(segments, FirstStep(head, 0).value);
    } else {
      assert StepAt(segments, |pre| + 3);
      FirstStepIs(segments, |pre| + 3);
    }
  }

  /** A step-level key reads back as one without a task, and its session action exactly when the timestamp does not
      contain the word; provided the prefix cannot be taken for a key, else what the prefix says is read instead, a
      task-level key first. */
  lemma StepKeyParses(prefix: string, farm: string, queue: string, job: string, step: string,
                      timestamp: string, action: string, name: string, lastModified: Option<int>)
    requires Ids(farm, queue, job, step, timestamp, action, name)
    ensures var key := FormatStepKey(prefix, farm, queue, job, step, timestamp, action, name);
      var folder := timestamp + "_" + action;
      var parsed, head := ParseKey(ObjectInfo(key, lastModified)), Split(prefix, '/') + [farm, queue];
      && parsed.Some?
      && if !TaskFree(prefix, farm, queue) then
           var i := FirstTask(head, 0).value;
           parsed.value.taskId == Some(head[i + 1]) && parsed.value.sessionFolder == head[i + 2]
         else if !StepFree(prefix, farm) then
           parsed.value.taskId == None
           && parsed.value.sessionFolder == head[FirstStep(Split(prefix, '/') + [farm], 0).value + 1]
         else
           && parsed.value.(sessionActionId := action)
              == ParsedManifestKey(key, lastModified.GetOr(0), None, folder, action)
           && (parsed.value.sessionActionId == action <==> !Contains(timestamp, SESSION, 0, 0))
  {
    hide Split, IsStepSegment, IsTaskSegment, IsSessionSegment, IsOutputSegment, IsId, SessionActionFrom, Contains,
         FormatStepKey;
    var folder := timestamp + "_" + action;
    SessionFolder(timestamp, action);
    IdSegments("step", step);
    StepSegments(prefix, farm, queue, job, step, timestamp, action, name);
    var pre := Split(prefix, '/');
    FirstTaskOfStepKey(pre, farm, queue, job, step, [folder, name]);
    FirstStepOfKey(pre, farm, queue, job, step, [folder, name]);
    hide TaskAt, FirstTask, StepAt, FirstStep;
    var segments, head := pre + [farm, queue, job, step] + [folder, name], pre + [farm, queue];
    assert segments[|pre| + 4] == folder;
    assert segments[..|pre| + 2] == head;
    if !TaskFree(prefix, farm, queue) {
      var i := FirstTask(head, 0).value;
      TaskWithin(head, i);
      SessionSegmentParses(head[i + 2]);
      assert segments[i + 1] == head[i + 1] && segments[i + 2] == head[i + 2];
    } else if !StepFree(prefix, farm) {
      var j := FirstStep(pre + [farm], 0).value;
      StepWithin(pre + [farm], j);
      SessionSegmentParses((pre + [farm])[j + 1]);
      assert segments[j + 1] == head[j + 1] == (pre + [farm])[j + 1];
    }
  }
}
