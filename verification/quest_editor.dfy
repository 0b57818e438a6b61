/** The administrator's template editor (`components/MasterQuestManager.tsx`):
    list edits and field edits on the quest being edited, then "Save &
    Propagate". The editor works on its own copy of the template, so
    every edit is a function from quest to quest; the clock reading that
    names new tasks and subtasks is the parameter `now`. */
module QuestEditor {
  import opened Wrappers
  import opened Types
  import opened Text
  import opened Storage
  import opened QuestTree
  import MasterTemplate
  import Propagation
  import QuestService
  import UserService

  // ---------------------------------------------------------------- removing by position

  /** `xs.filter((_, k) => k !== i)`. */
  function Without<T>(xs: seq<T>, i: int): (r: seq<T>)
    ensures 0 <= i < |xs| ==> r == xs[..i] + xs[i + 1..]
    ensures !(0 <= i < |xs|) ==> r == xs
  {
    if xs == [] then []
    else
      var rest := Without(xs[1..], i - 1);
      if i == 0 then
        assert xs[1..] == xs[..0] + xs[1..];
        rest
      else
        assert 0 < i < |xs| ==> xs[..i] == [xs[0]] + xs[1..][..i - 1] && xs[i + 1..] == xs[1..][i..];
        [xs[0]] + rest
  }

  // ---------------------------------------------------------------- tasks

  /** The task `addTask` creates at clock reading `now`. */
  function NewTask(now: nat): (t: Task)
    ensures t.id == "task-" + NatToDecimal(now)
    ensures t.title == "New Task" && t.riddle == "" && !t.isCompleted
    ensures t.subTasks == [] && t.completionLocation == NoLocation
  {
    Task("task-" + NatToDecimal(now), "New Task", "", false, [], NoLocation)
  }

  /** `addTask`: one new task at the end; the others stay. */
  function AddTask(q: Quest, now: nat): (r: Quest)
    ensures r.(tasks := q.tasks) == q
    ensures |r.tasks| == |q.tasks| + 1 && r.tasks[..|q.tasks|] == q.tasks
    ensures r.tasks[|q.tasks|] == NewTask(now)
  {
    var tasks := q.tasks + [NewTask(now)];
    assert tasks[..|q.tasks|] == q.tasks;
    q.(tasks := tasks)
  }

  /** `removeTask`: the task at `i` goes and the others keep their order;
      an index outside the list removes nothing. */
  function RemoveTask(q: Quest, i: int): (r: Quest)
    ensures r.(tasks := q.tasks) == q
    ensures 0 <= i < |q.tasks| ==> r.tasks == q.tasks[..i] + q.tasks[i + 1..]
    ensures !(0 <= i < |q.tasks|) ==> r == q
  {
    q.(tasks := Without(q.tasks, i))
  }

  /** Removing the task just added gives the quest back. */
  lemma AddThenRemoveTask(q: Quest, now: nat)
    ensures RemoveTask(AddTask(q, now), |q.tasks|) == q
  {
    var added := AddTask(q, now).tasks;
    assert added[..|q.tasks|] + added[|q.tasks| + 1..] == q.tasks;
  }

  // ---------------------------------------------------------------- subtasks

  /** The subtask `addSubtask` creates for task `taskId` at clock
      reading `now`. */
  function NewSubtask(taskId: string, now: nat): (st: SubTask)
    ensures st.id == "subtask-" + taskId + "-" + NatToDecimal(now)
    ensures st.description == "New sub-task" && st.kind == Checkbox
    ensures st.riddleAnswer.None? && !st.isCompleted
  {
    SubTask("subtask-" + taskId + "-" + NatToDecimal(now), "New sub-task", Checkbox, None, false)
  }

  /** Replaces the subtask list of task `i`, nothing else. */
  function WithSubTasks(q: Quest, i: nat, subTasks: seq<SubTask>): (r: Quest)
    requires i < |q.tasks|
    ensures r.(tasks := q.tasks) == q && |r.tasks| == |q.tasks|
    ensures r.tasks[i] == q.tasks[i].(subTasks := subTasks)
    ensures forall k :: 0 <= k < |q.tasks| && k != i ==> r.tasks[k] == q.tasks[k]
  {
    q.(tasks := q.tasks[i := q.tasks[i].(subTasks := subTasks)])
  }

  /** `addSubtask(i)`: one new checkbox subtask at the end of task `i`. The
      source reads `quest.tasks[i].id` first, so `i` must name a task. */
  function AddSubtask(q: Quest, i: nat, now: nat): (r: Quest)
    requires i < |q.tasks|
    ensures r.(tasks := q.tasks) == q && |r.tasks| == |q.tasks|
    ensures forall k :: 0 <= k < |q.tasks| && k != i ==> r.tasks[k] == q.tasks[k]
    ensures r.tasks[i].(subTasks := q.tasks[i].subTasks) == q.tasks[i]
    ensures |r.tasks[i].subTasks| == |q.tasks[i].subTasks| + 1
    ensures r.tasks[i].subTasks[..|q.tasks[i].subTasks|] == q.tasks[i].subTasks
    ensures r.tasks[i].subTasks[|q.tasks[i].subTasks|] == NewSubtask(q.tasks[i].id, now)
  {
    var subs := q.tasks[i].subTasks + [NewSubtask(q.tasks[i].id, now)];
    assert subs[..|q.tasks[i].subTasks|] == q.tasks[i].subTasks;
    WithSubTasks(q, i, subs)
  }

  /** `removeSubtask(i, j)`: the subtask at `j` of task `i` goes; an index
      `j` outside the list removes nothing. */
  function RemoveSubtask(q: Quest, i: nat, j: int): (r: Quest)
    requires i < |q.tasks|
    ensures r.(tasks := q.tasks) == q && |r.tasks| == |q.tasks|
    ensures forall k :: 0 <= k < |q.tasks| && k != i ==> r.tasks[k] == q.tasks[k]
    ensures r.tasks[i].(subTasks := q.tasks[i].subTasks) == q.tasks[i]
    ensures 0 <= j < |q.tasks[i].subTasks| ==>
      r.tasks[i].subTasks == q.tasks[i].subTasks[..j] + q.tasks[i].subTasks[j + 1..]
    ensures !(0 <= j < |q.tasks[i].subTasks|) ==> r == q
  {
    WithSubTasks(q, i, Without(q.tasks[i].subTasks, j))
  }

  /** Removing the subtask just added gives the quest back. */
  lemma AddThenRemoveSubtask(q: Quest, i: nat, now: nat)
    requires i < |q.tasks|
    ensures RemoveSubtask(AddSubtask(q, i, now), i, |q.tasks[i].subTasks|) == q
  {
    var subs := AddSubtask(q, i, now).tasks[i].subTasks;
    var n := |q.tasks[i].subTasks|;
    assert subs[..n] + subs[n + 1..] == q.tasks[i].subTasks;
  }

  // ---------------------------------------------------------------- field edits

  datatype QuestField = QuestTitle | QuestDescription
  datatype TaskField = TaskTitle | TaskRiddle

  /** What the subtask row can change: its text, its kind (the select
      offers exactly the four kinds) and, for a riddle, its answer. */
  datatype SubTaskEdit = EditDescription(text: string) | EditKind(kind: SubTaskKind) | EditAnswer(answer: string)

  /** `handleFieldChange`. */
  function SetQuestField(q: Quest, f: QuestField, v: string): (r: Quest)
    ensures r.id == q.id && r.tasks == q.tasks
    ensures r.title == (if f == QuestTitle then v else q.title)
    ensures r.description == (if f == QuestDescription then v else q.description)
  {
    match f
    case QuestTitle => q.(title := v)
    case QuestDescription => q.(description := v)
  }

  /** `handleTaskChange`: one field of task `i`. The editor only offers
      rows that exist, so `i` names a task. */
  function SetTaskField(q: Quest, i: nat, f: TaskField, v: string): (r: Quest)
    requires i < |q.tasks|
    ensures r.(tasks := q.tasks) == q && |r.tasks| == |q.tasks|
    ensures forall k :: 0 <= k < |q.tasks| && k != i ==> r.tasks[k] == q.tasks[k]
    ensures r.tasks[i].(title := q.tasks[i].title, riddle := q.tasks[i].riddle) == q.tasks[i]
    ensures r.tasks[i].title == (if f == TaskTitle then v else q.tasks[i].title)
    ensures r.tasks[i].riddle == (if f == TaskRiddle then v else q.tasks[i].riddle)
  {
    var t := q.tasks[i];
    var t' := match f
      case TaskTitle => t.(title := v)
      case TaskRiddle => t.(riddle := v);
    q.(tasks := q.tasks[i := t'])
  }

  function ApplyEdit(st: SubTask, e: SubTaskEdit): (r: SubTask)
    ensures r.id == st.id && r.isCompleted == st.isCompleted
    ensures r.description == (if e.EditDescription? then e.text else st.description)
    ensures r.kind == (if e.EditKind? then e.kind else st.kind)
    ensures r.riddleAnswer == (if e.EditAnswer? then Some(e.answer) else st.riddleAnswer)
  {
    match e
    case EditDescription(text) => st.(description := text)
    case EditKind(kind) => st.(kind := kind)
    case EditAnswer(answer) => st.(riddleAnswer := Some(answer))
  }

  /** `handleSubtaskChange`: one field of subtask `j` of task `i`. */
  function SetSubTaskField(q: Quest, i: nat, j: nat, e: SubTaskEdit): (r: Quest)
    requires i < |q.tasks| && j < |q.tasks[i].subTasks|
    ensures r.(tasks := q.tasks) == q && |r.tasks| == |q.tasks|
    ensures forall k :: 0 <= k < |q.tasks| && k != i ==> r.tasks[k] == q.tasks[k]
    ensures r.tasks[i].(subTasks := q.tasks[i].subTasks) == q.tasks[i]
    ensures |r.tasks[i].subTasks| == |q.tasks[i].subTasks|
    ensures forall k :: 0 <= k < |q.tasks[i].subTasks| && k != j ==> r.tasks[i].subTasks[k] == q.tasks[i].subTasks[k]
    ensures r.tasks[i].subTasks[j] == ApplyEdit(q.tasks[i].subTasks[j], e)
  {
    var subs := q.tasks[i].subTasks;
    WithSubTasks(q, i, subs[j := ApplyEdit(subs[j], e)])
  }

  /** An edit that writes back what is already there changes nothing, and
      of two edits of the same field only the second counts. */
  lemma TaskFieldLaws(q: Quest, i: nat, f: TaskField, v: string, w: string)
    requires i < |q.tasks|
    ensures SetTaskField(q, i, f, if f == TaskTitle then q.tasks[i].title else q.tasks[i].riddle) == q
    ensures SetTaskField(SetTaskField(q, i, f, v), i, f, w) == SetTaskField(q, i, f, w)
  {
  }

  lemma SubTaskFieldLastWins(q: Quest, i: nat, j: nat, a: string, b: string)
    requires i < |q.tasks| && j < |q.tasks[i].subTasks|
    ensures SetSubTaskField(SetSubTaskField(q, i, j, EditDescription(a)), i, j, EditDescription(b))
      == SetSubTaskField(q, i, j, EditDescription(b))
    ensures SetSubTaskField(SetSubTaskField(q, i, j, EditAnswer(a)), i, j, EditAnswer(b))
      == SetSubTaskField(q, i, j, EditAnswer(b))
  {
    var subs := q.tasks[i].subTasks;
    var x := subs[j];
    assert subs[j := ApplyEdit(x, EditDescription(a))][j := ApplyEdit(ApplyEdit(x, EditDescription(a)), EditDescription(b))]
      == subs[j := ApplyEdit(x, EditDescription(b))];
    assert subs[j := ApplyEdit(x, EditAnswer(a))][j := ApplyEdit(ApplyEdit(x, EditAnswer(a)), EditAnswer(b))]
      == subs[j := ApplyEdit(x, EditAnswer(b))];
  }

  /** No edit in the editor changes any completion flag, so the editor
      never hands progress of its own to the propagation. */
  lemma EditsKeepFlags(q: Quest, i: nat, j: nat, e: SubTaskEdit, f: TaskField, v: string)
    requires i < |q.tasks| && j < |q.tasks[i].subTasks|
    ensures forall k :: 0 <= k < |q.tasks| ==>
      SetTaskField(q, i, f, v).tasks[k].isCompleted == q.tasks[k].isCompleted
      && SetTaskField(q, i, f, v).tasks[k].subTasks == q.tasks[k].subTasks
    ensures forall k :: 0 <= k < |q.tasks| ==>
      SetSubTaskField(q, i, j, e).tasks[k].isCompleted == q.tasks[k].isCompleted
    ensures SetSubTaskField(q, i, j, e).tasks[i].subTasks[j].isCompleted == q.tasks[i].subTasks[j].isCompleted
  {
  }

  // ---------------------------------------------------------------- load, save, cancel

  /** The editor screen: the store and the quest it displays. */
  datatype Manager = Manager(store: Store, shown: Quest)

  /** `loadQuest`: the template, seeded first if the store has none. */
  function LoadManager(s: Store): (m: Manager)
    ensures m.store.master == Some(m.shown)
    ensures m.store == s.(master := m.store.master)
    ensures s.master.Some? ==> m.store == s && m.shown == s.master.value
    ensures s.master.None? ==> m.shown == MasterTemplate.DefaultMasterQuest
  {
    var (s1, q) := MasterTemplate.InitializeMasterQuest(s);
    Manager(s1, q)
  }

  /** `handleSave`: the edited quest is stored and propagated, then shown. */
  function HandleSave(s: Store, q: Quest): (m: Manager)
    ensures m.shown == q && m.store.master == Some(q)
    ensures m.store == s.(master := Some(q), questStates := m.store.questStates)
  {
    Manager(Propagation.UpdateMasterQuestAndPropagate(s, q), q)
  }

  /** `handleCancel`: the stored template, read back. */
  function HandleCancel(s: Store): Option<Quest> {
    s.master
  }

  /** After a save, loading the editor again or discarding changes shows
      exactly the saved quest. */
  lemma SaveThenReload(s: Store, q: Quest)
    ensures LoadManager(HandleSave(s, q).store) == HandleSave(s, q)
    ensures HandleCancel(HandleSave(s, q).store) == Some(q)
  {
  }

  /** After a save every player in the directory holds the saved quest's
      title, description and task ids in order, and a cursor the player's
      screen can render. A name listed twice is written twice, and the
      last write decides. */
  lemma SavedQuestReachesPlayers(s: Store, q: Quest)
    ensures var s' := HandleSave(s, q).store;
      var users := UserService.GetUsers(s);
      forall i :: 0 <= i < |users| && users[i].role != Admin ==>
        && QuestService.GetQuestState(s', users[i].username).Some?
        && var st := QuestService.GetQuestState(s', users[i].username).value;
        && st.quest.title == q.title && st.quest.description == q.description
        && TaskIds(st.quest.tasks) == TaskIds(q.tasks)
        && 0 <= st.currentTaskIndex <= |st.quest.tasks|
  {
    var s' := HandleSave(s, q).store;
    var users := UserService.GetUsers(s);
    forall i | 0 <= i < |users| && users[i].role != Admin
      ensures QuestService.GetQuestState(s', users[i].username).Some?
      ensures var st := QuestService.GetQuestState(s', users[i].username).value;
        && st.quest.title == q.title && st.quest.description == q.description
        && TaskIds(st.quest.tasks) == TaskIds(q.tasks)
        && 0 <= st.currentTaskIndex <= |st.quest.tasks|
    {
      var last := LastWriteTo(s, q, i);
      PropagatedCarriesTemplate(q, last);
    }
  }

  /** The state a listed player ends with is the template propagated onto
      what the previous writes left. */
  lemma LastWriteTo(s: Store, q: Quest, i: nat) returns (last: Option<QuestState>)
    requires i < |UserService.GetUsers(s)| && UserService.GetUsers(s)[i].role != Admin
    ensures QuestService.GetQuestState(HandleSave(s, q).store, UserService.GetUsers(s)[i].username)
      == Some(Propagation.Propagated(q, last))
  {
    var users := UserService.GetUsers(s);
    var name := users[i].username;
    var prev := QuestService.GetQuestState(s, name);
    var k := Propagation.PlayerEntries(users, name);
    Propagation.PlayerEntriesPositive(users, i);
    var s' := Propagation.UpdateMasterQuestAndPropagate(s, q);
    assert HandleSave(s, q).store == s';
    assert QuestService.GetQuestState(s', name) == Propagation.PropagatedTimes(q, prev, k);
    Propagation.PropagatedTimesLast(q, prev, k);
    last := Propagation.PropagatedTimes(q, prev, k - 1);
  }

  /** Whatever a player held before, the propagated state carries the
      template's title, description and task ids, with a renderable
      cursor. */
  lemma PropagatedCarriesTemplate(q: Quest, prev: Option<QuestState>)
    ensures var st := Propagation.Propagated(q, prev);
      && st.quest.title == q.title && st.quest.description == q.description
      && TaskIds(st.quest.tasks) == TaskIds(q.tasks)
      && 0 <= st.currentTaskIndex <= |st.quest.tasks|
  {
  }
}
