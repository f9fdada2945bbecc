/** Which output manifests are kept: all step-level ones, and for each task those of its latest session. */
module OutputSelection {
  import opened Wrappers
  import opened Strings
  import opened OutputKeys

  type Parsed = ParsedManifestKey

  /** The entries of a task, in listing order; of the step level for None. */
  function OfTask(parsed: seq<Parsed>, task: Option<string>): seq<Parsed> {
    if parsed == [] then []
    else
      var last := parsed[|parsed| - 1];
      OfTask(parsed[..|parsed| - 1], task) + if last.taskId == task then [last] else []
  }

  lemma {:induction false} OfTaskExactly(parsed: seq<Parsed>, task: Option<string>)
    ensures forall m :: m in OfTask(parsed, task) <==> m in parsed && m.taskId == task
  {
    if parsed != [] {
      OfTaskExactly(parsed[..|parsed| - 1], task);
      assert parsed == parsed[..|parsed| - 1] + [parsed[|parsed| - 1]];
    }
  }

  lemma {:induction false} NoneOfTask(parsed: seq<Parsed>, task: Option<string>)
    requires task !in TasksOf(parsed)
    ensures OfTask(parsed, task) == []
  {
    if parsed != [] {
      var init, last := parsed[..|parsed| - 1], parsed[|parsed| - 1];
      assert last in parsed && last.taskId in TasksOf(parsed);
      assert TasksOf(init) <= TasksOf(parsed);
      NoneOfTask(init, task);
    }
  }

  function TasksOf(parsed: seq<Parsed>): set<Option<string>> { set m | m in parsed :: m.taskId }

  /** `group_manifests_by_task`. */
  method GroupManifestsByTask(parsed: seq<Parsed>) returns (grouped: map<Option<string>, seq<Parsed>>)
    ensures grouped.Keys == TasksOf(parsed)
    ensures forall task | task in grouped :: grouped[task] == OfTask(parsed, task)
  {
    grouped := map[];
    for i := 0 to |parsed|
      invariant grouped.Keys == TasksOf(parsed[..i])
      invariant forall task | task in grouped :: grouped[task] == OfTask(parsed[..i], task)
    {
      var m := parsed[i];
      assert parsed[..i + 1] == parsed[..i] + [m];
      if m.taskId !in grouped { NoneOfTask(parsed[..i], m.taskId); }
      var list := if m.taskId in grouped then grouped[m.taskId] else [];
      grouped := grouped[m.taskId := list + [m]];
      assert TasksOf(parsed[..i + 1]) == TasksOf(parsed[..i]) + {m.taskId};
    }
    assert parsed[..|parsed|] == parsed;
  }

  /** `max_by_key` on the modification time keeps the last of equals. */
  function Latest(list: seq<Parsed>): Parsed
    requires list != []
  {
    if |list| == 1 then list[0]
    else
      var rest, last := Latest(list[..|list| - 1]), list[|list| - 1];
      if rest.lastModified <= last.lastModified then last else rest
  }

  lemma {:induction false} LatestIsMaximal(list: seq<Parsed>)
    requires list != []
    ensures Latest(list) in list && forall m | m in list :: m.lastModified <= Latest(list).lastModified
  {
    if |list| > 1 {
      LatestIsMaximal(list[..|list| - 1]);
      assert list == list[..|list| - 1] + [list[|list| - 1]];
    }
  }

  /** An entry is kept if it is step-level, or of the same session folder as its task's latest entry. */
  predicate Chosen(parsed: seq<Parsed>, m: Parsed) {
    m.taskId.None?
    || (OfTask(parsed, m.taskId) != [] && m.sessionFolder == Latest(OfTask(parsed, m.taskId)).sessionFolder)
  }

  /** The keys of the chosen entries of `list`. */
  function ChosenKeys(parsed: seq<Parsed>, list: seq<Parsed>): seq<string> {
    if list == [] then []
    else
      var last := list[|list| - 1];
      ChosenKeys(parsed, list[..|list| - 1]) + if Chosen(parsed, last) then [last.key] else []
  }

  /** Of these, the ones of some tasks. */
  function ChosenOf(parsed: seq<Parsed>, list: seq<Parsed>, tasks: set<Option<string>>): seq<string> {
    if list == [] then []
    else
      var last := list[|list| - 1];
      ChosenOf(parsed, list[..|list| - 1], tasks)
      + if last.taskId in tasks && Chosen(parsed, last) then [last.key] else []
  }

  lemma {:induction false} ChosenOfAll(parsed: seq<Parsed>, list: seq<Parsed>, tasks: set<Option<string>>)
    requires forall m | m in list :: m.taskId in tasks
    ensures ChosenOf(parsed, list, tasks) == ChosenKeys(parsed, list)
  {
    hide Chosen;
    if list != [] {
      assert list[|list| - 1] in list;
      ChosenOfAll(parsed, list[..|list| - 1], tasks);
    }
  }

  lemma {:induction false} ChosenOfNone(parsed: seq<Parsed>, list: seq<Parsed>)
    ensures ChosenOf(parsed, list, {}) == []
  {
    if list != [] { ChosenOfNone(parsed, list[..|list| - 1]); }
  }

  lemma {:induction false} ChosenOfAdd(parsed: seq<Parsed>, list: seq<Parsed>, tasks: set<Option<string>>,
                                       task: Option<string>)
    requires task !in tasks
    ensures multiset(ChosenOf(parsed, list, tasks + {task}))
         == multiset(ChosenOf(parsed, list, tasks)) + multiset(ChosenOf(parsed, list, {task}))
  {
    hide Chosen;
    if list != [] { ChosenOfAdd(parsed, list[..|list| - 1], tasks, task); }
  }

  /** The keys of all entries, or of those in one session folder. */
  function FolderKeys(list: seq<Parsed>, folder: Option<string>): seq<string> {
    if list == [] then []
    else
      var last := list[|list| - 1];
      FolderKeys(list[..|list| - 1], folder)
      + if folder.None? || last.sessionFolder == folder.value then [last.key] else []
  }

  /** What is selected for one task, as the loop body computes it. */
  function TaskSelection(task: Option<string>, list: seq<Parsed>): seq<string> {
    if task.None? then FolderKeys(list, None)
    else if list == [] then []
    else FolderKeys(list, Some(Latest(list).sessionFolder))
  }

  lemma {:induction false} FolderKeysAreChosen(parsed: seq<Parsed>, list: seq<Parsed>, task: Option<string>,
                                        folder: Option<string>)
    requires forall m | m in list && m.taskId == task ::
               Chosen(parsed, m) <==> folder.None? || m.sessionFolder == folder.value
    ensures FolderKeys(OfTask(list, task), folder) == ChosenOf(parsed, list, {task})
  {
    hide Chosen;
    if list != [] {
      var init, last := list[..|list| - 1], list[|list| - 1];
      assert last in list;
      FolderKeysAreChosen(parsed, init, task, folder);
      if last.taskId == task {
        var own := OfTask(list, task);
        assert own[..|own| - 1] == OfTask(init, task) && own[|own| - 1] == last;
      } else {
        assert OfTask(list, task) == OfTask(init, task);
      }
    }
  }

  lemma TaskSelectionIsChosen(parsed: seq<Parsed>, task: Option<string>)
    requires task in TasksOf(parsed)
    ensures TaskSelection(task, OfTask(parsed, task)) == ChosenOf(parsed, parsed, {task})
  {
    var list := OfTask(parsed, task);
    OfTaskExactly(parsed, task);
    var some :| some in parsed && some.taskId == task;
    assert some in list;
    FolderKeysAreChosen(parsed, parsed, task, if task.None? then None else Some(Latest(list).sessionFolder));
  }

  /** `select_latest_manifests_per_task`: exactly the keys of the chosen entries, each as often as it was listed,
      in whatever order the groups are visited. */
  method SelectLatest(ghost parsed: seq<Parsed>,
                      grouped: map<Option<string>, seq<Parsed>>) returns (result: seq<string>)
    requires grouped.Keys == TasksOf(parsed)
    requires forall task | task in grouped :: grouped[task] == OfTask(parsed, task)
    ensures multiset(result) == multiset(ChosenKeys(parsed, parsed))
  {
    hide ChosenOf, ChosenKeys, OfTask, TaskSelection;
    result := [];
    var rest := grouped.Keys;
    ghost var visited: set<Option<string>> := {};
    ChosenOfNone(parsed, parsed);
    while rest != {}
      invariant rest <= grouped.Keys && visited == grouped.Keys - rest
      invariant multiset(result) == multiset(ChosenOf(parsed, parsed, visited))
      decreases rest
    {
      var task :| task in rest;
      TaskSelectionIsChosen(parsed, task);
      ChosenOfAdd(parsed, parsed, visited, task);
      result := result + TaskSelection(task, grouped[task]);
      rest := rest - {task};
      visited := visited + {task};
    }
    ChosenOfAll(parsed, parsed, visited);
  }

  /** Every step-level entry is chosen; of each task, all and only the entries of one session folder, which holds
      an entry no other entry of the task is newer than. */
  lemma LatestSessionPerTask(parsed: seq<Parsed>, task: string)
    requires Some(task) in TasksOf(parsed)
    ensures exists latest | latest in parsed ::
      (&& latest.taskId == Some(task)
       && (forall m | m in parsed && m.taskId == Some(task) :: m.lastModified <= latest.lastModified)
       && (forall m | m in parsed && m.taskId == Some(task) ::
           Chosen(parsed, m) <==> m.sessionFolder == latest.sessionFolder))
  {
    var list := OfTask(parsed, Some(task));
    OfTaskExactly(parsed, Some(task));
    var some :| some in parsed && some.taskId == Some(task);
    assert some in list;
    LatestIsMaximal(list);
    var latest := Latest(list);
    assert latest in parsed && latest.taskId == Some(task);
  }

  /** `filter_output_manifest_objects`. */
  function FilterOutputs(objects: seq<ObjectInfo>): seq<ObjectInfo> {
    if objects == [] then []
    else
      var last := objects[|objects| - 1];
      FilterOutputs(objects[..|objects| - 1])
      + if EndsWith(last.key, "_output") || EndsWith(last.key, "_output.json") then [last] else []
  }

  predicate EndsWith(s: string, suffix: string) { |s| >= |suffix| && s[|s| - |suffix|..] == suffix }
}
