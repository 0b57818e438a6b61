/** Lookups and whole-tree operations on the Quest -> Task -> SubTask
    tree that several services share: `find` / `findIndex` by id, and the
    "clone and clear every completion flag" step used whenever a player
    starts from the template. Identity of tasks and subtasks is their
    `id`; lookups return the FIRST match, as `Array.prototype.find` does. */
module QuestTree {
  import opened Wrappers
  import opened Types

  /** `tasks.findIndex(t => t.id === id)`, with `|tasks|` standing for -1. */
  function FindTaskIndex(tasks: seq<Task>, id: string): (i: nat)
    ensures i <= |tasks|
    ensures i < |tasks| ==> tasks[i].id == id
    ensures forall k :: 0 <= k < i ==> tasks[k].id != id
  {
    if tasks == [] then 0
    else if tasks[0].id == id then 0
    else 1 + FindTaskIndex(tasks[1..], id)
  }

  /** `tasks.find(t => t.id === id)`. */
  function FindTask(tasks: seq<Task>, id: string): (r: Option<Task>)
    ensures r.Some? <==> exists k :: 0 <= k < |tasks| && tasks[k].id == id
    ensures r.Some? ==> r.value == tasks[FindTaskIndex(tasks, id)]
  {
    var i := FindTaskIndex(tasks, id);
    if i < |tasks| then Some(tasks[i]) else None
  }

  /** `subTasks.findIndex(st => st.id === id)`, with `|subTasks|` for -1. */
  function FindSubTaskIndex(subTasks: seq<SubTask>, id: string): (j: nat)
    ensures j <= |subTasks|
    ensures j < |subTasks| ==> subTasks[j].id == id
    ensures forall k :: 0 <= k < j ==> subTasks[k].id != id
  {
    if subTasks == [] then 0
    else if subTasks[0].id == id then 0
    else 1 + FindSubTaskIndex(subTasks[1..], id)
  }

  /** `subTasks.find(st => st.id === id)`. */
  function FindSubTask(subTasks: seq<SubTask>, id: string): (r: Option<SubTask>)
    ensures r.Some? <==> exists k :: 0 <= k < |subTasks| && subTasks[k].id == id
    ensures r.Some? ==> r.value == subTasks[FindSubTaskIndex(subTasks, id)]
  {
    var j := FindSubTaskIndex(subTasks, id);
    if j < |subTasks| then Some(subTasks[j]) else None
  }

  function TaskIds(tasks: seq<Task>): (ids: seq<string>)
    ensures |ids| == |tasks| && forall i :: 0 <= i < |tasks| ==> ids[i] == tasks[i].id
  {
    seq(|tasks|, i requires 0 <= i < |tasks| => tasks[i].id)
  }

  /** Task ids are pairwise distinct, and so are the subtask ids inside
      each task: what the editor's timestamp ids are meant to give. */
  predicate UniqueIds(tasks: seq<Task>) {
    && (forall i, j :: 0 <= i < j < |tasks| ==> tasks[i].id != tasks[j].id)
    && (forall i :: 0 <= i < |tasks| ==> UniqueSubTaskIds(tasks[i].subTasks))
  }

  predicate UniqueSubTaskIds(subTasks: seq<SubTask>) {
    forall i, j :: 0 <= i < j < |subTasks| ==> subTasks[i].id != subTasks[j].id
  }

  /** `a` and `b` agree on everything except possibly the completion flag. */
  predicate SameSubTaskContent(a: SubTask, b: SubTask) {
    a.(isCompleted := b.isCompleted) == b
  }

  /** `a` and `b` agree on everything except completion flags, at any depth. */
  predicate SameTaskContent(a: Task, b: Task) {
    && a.(isCompleted := b.isCompleted, subTasks := b.subTasks) == b
    && |a.subTasks| == |b.subTasks|
    && forall j :: 0 <= j < |a.subTasks| ==> SameSubTaskContent(a.subTasks[j], b.subTasks[j])
  }

  predicate SameContent(ts: seq<Task>, us: seq<Task>) {
    |ts| == |us| && forall i :: 0 <= i < |ts| ==> SameTaskContent(ts[i], us[i])
  }

  predicate NoSubTaskProgress(subTasks: seq<SubTask>) {
    forall j :: 0 <= j < |subTasks| ==> !subTasks[j].isCompleted
  }

  predicate NoTaskProgress(t: Task) {
    !t.isCompleted && NoSubTaskProgress(t.subTasks)
  }

  predicate NoProgress(tasks: seq<Task>) {
    forall i :: 0 <= i < |tasks| ==> NoTaskProgress(tasks[i])
  }

  /** A deep clone of `t` with every completion flag forced to false. */
  function ClearTask(t: Task): (r: Task)
    ensures SameTaskContent(t, r) && NoTaskProgress(r)
  {
    t.(isCompleted := false,
       subTasks := seq(|t.subTasks|, j requires 0 <= j < |t.subTasks| => t.subTasks[j].(isCompleted := false)))
  }

  function ClearTasks(tasks: seq<Task>): (r: seq<Task>)
    ensures SameContent(tasks, r) && NoProgress(r)
  {
    seq(|tasks|, i requires 0 <= i < |tasks| => ClearTask(tasks[i]))
  }

  /** The template with all progress removed: same id, title, description,
      task and subtask order and content, every flag false. */
  function ClearProgress(q: Quest): (r: Quest)
    ensures r.(tasks := q.tasks) == q
    ensures SameContent(q.tasks, r.tasks) && NoProgress(r.tasks)
    ensures TaskIds(r.tasks) == TaskIds(q.tasks)
  {
    q.(tasks := ClearTasks(q.tasks))
  }

  /** Content and "no progress" pin the cleared copy down completely. */
  lemma ClearedCopyUnique(ts: seq<Task>, us: seq<Task>)
    requires SameContent(ts, us) && NoProgress(us)
    ensures us == ClearTasks(ts)
  {
    var cs := ClearTasks(ts);
    forall i | 0 <= i < |us| ensures us[i] == cs[i] {
      assert us[i].subTasks == cs[i].subTasks by {
        forall j | 0 <= j < |us[i].subTasks| ensures us[i].subTasks[j] == cs[i].subTasks[j] {
          assert SameSubTaskContent(ts[i].subTasks[j], us[i].subTasks[j]);
          assert SameSubTaskContent(ts[i].subTasks[j], cs[i].subTasks[j]);
        }
      }
    }
  }
}
