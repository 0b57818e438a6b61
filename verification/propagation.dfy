/** Template propagation (`updateMasterQuestAndPropagate` in
    `services/masterQuestService.ts`): the edited master quest is stored,
    then merged into the quest state of every non-administrator in the
    directory, in directory order.

    Merge rules, per player with a stored state:
    - the synced task list is the master's task list, in master order;
    - a task found (by id, first match) in the old list keeps its own
      completion flag, and each of its subtasks keeps the flag of the first
      old subtask with the same id, or starts incomplete;
    - a task not found starts with every flag false;
    - every other field comes from the master;
    - quest title and description are replaced; quest id and
      notifications stay;
    - the cursor is kept when it indexes the synced list, and otherwise
      moves to the first incomplete task (or past the end). */
module Propagation {
  import opened Wrappers
  import opened Types
  import opened Storage
  import opened QuestTree
  import QuestService
  import UserService
  import MasterTemplate

  // ---------------------------------------------------------------- progress carried over

  /** The flag the old list holds for task `tid` (first match), if any. */
  function TaskFlag(oldTasks: seq<Task>, tid: string): bool {
    match FindTask(oldTasks, tid)
    case Some(t) => t.isCompleted
    case None => false
  }

  /** The flag the old list holds for subtask `sid` of task `tid` (first
      matches), if any. */
  function SubTaskFlag(oldTasks: seq<Task>, tid: string, sid: string): bool {
    match FindTask(oldTasks, tid)
    case Some(t) =>
      (match FindSubTask(t.subTasks, sid)
       case Some(st) => st.isCompleted
       case None => false)
    case None => false
  }

  // ---------------------------------------------------------------- merge, as the source writes it

  function SyncSubTask(ms: SubTask, oldTask: Task): SubTask {
    var prev := FindSubTask(oldTask.subTasks, ms.id);
    ms.(isCompleted := if prev.Some? then prev.value.isCompleted else false)
  }

  function SyncTask(mt: Task, oldTasks: seq<Task>): Task {
    match FindTask(oldTasks, mt.id)
    case Some(ot) =>
      mt.(subTasks := seq(|mt.subTasks|, j requires 0 <= j < |mt.subTasks| => SyncSubTask(mt.subTasks[j], ot)),
          isCompleted := ot.isCompleted)
    case None => ClearTask(mt)
  }

  /** The synced task list: the master's content and order, with the
      player's progress looked up by id. */
  function SyncTasks(master: seq<Task>, oldTasks: seq<Task>): (r: seq<Task>)
    ensures SameContent(master, r)
    ensures TaskIds(r) == TaskIds(master)
    ensures forall i :: 0 <= i < |r| ==> r[i].isCompleted == TaskFlag(oldTasks, master[i].id)
    ensures forall i, j :: 0 <= i < |r| && 0 <= j < |r[i].subTasks| ==>
      r[i].subTasks[j].isCompleted == SubTaskFlag(oldTasks, master[i].id, master[i].subTasks[j].id)
  {
    seq(|master|, i requires 0 <= i < |master| => SyncTask(master[i], oldTasks))
  }

  // ---------------------------------------------------------------- cursor

  /** `tasks.findIndex(t => !t.isCompleted)`, with `|tasks|` for -1. */
  function FirstIncomplete(tasks: seq<Task>): (k: nat)
    ensures k <= |tasks|
    ensures k < |tasks| ==> !tasks[k].isCompleted
    ensures forall i :: 0 <= i < k ==> tasks[i].isCompleted
  {
    if tasks == [] then 0
    else if !tasks[0].isCompleted then 0
    else 1 + FirstIncomplete(tasks[1..])
  }

  /** The test of lines 142-143. `tasksAtCheck` is what
      `oldUserQuest.tasks` denotes when it runs. A negative cursor
      indexes nothing, `?.id` is undefined, and no task matches. */
  predicate CurrentTaskStillExists(c: int, synced: seq<Task>, tasksAtCheck: seq<Task>) {
    c < |synced| && 0 <= c && FindTask(tasksAtCheck, synced[c].id).Some?
  }

  /** Lines 137-149 as written. */
  function CursorAsWritten(c: int, synced: seq<Task>, tasksAtCheck: seq<Task>): int {
    var newIndex := FirstIncomplete(synced);
    if !CurrentTaskStillExists(c, synced, tasksAtCheck) then newIndex
    else if c >= |synced| then newIndex
    else c
  }

  /** `oldUserQuest` is the very object whose `tasks` line 134 overwrote,
      so the existence test compares the synced list with itself: the
      cursor is kept exactly when it indexes the synced list, and the
      second branch can never be taken. */
  lemma CursorReduces(c: int, synced: seq<Task>)
    ensures CurrentTaskStillExists(c, synced, synced) <==> 0 <= c < |synced|
    ensures CurrentTaskStillExists(c, synced, synced) ==> !(c >= |synced|)
    ensures CursorAsWritten(c, synced, synced) == if 0 <= c < |synced| then c else FirstIncomplete(synced)
  {
    if 0 <= c < |synced| {
      assert FindTask(synced, synced[c].id).Some?;
    }
  }

  // ---------------------------------------------------------------- one player

  /** A player without a state receives the template with every flag
      cleared, cursor 0 and no `notifications` field. */
  function FreshState(master: Quest): (st: QuestState)
    ensures st.quest.(tasks := master.tasks) == master
    ensures SameContent(master.tasks, st.quest.tasks) && NoProgress(st.quest.tasks)
    ensures TaskIds(st.quest.tasks) == TaskIds(master.tasks)
    ensures st.currentTaskIndex == 0 && st.notifications.None?
  {
    QuestState(ClearProgress(master), 0, None)
  }

  /** Lines 103-149 on one stored state. */
  function SyncState(master: Quest, st: QuestState): (r: QuestState)
    ensures r.quest.id == st.quest.id && r.notifications == st.notifications
    ensures r.quest.title == master.title && r.quest.description == master.description
    ensures r.quest.tasks == SyncTasks(master.tasks, st.quest.tasks)
    ensures 0 <= st.currentTaskIndex < |r.quest.tasks| ==> r.currentTaskIndex == st.currentTaskIndex
    ensures !(0 <= st.currentTaskIndex < |r.quest.tasks|) ==> r.currentTaskIndex == FirstIncomplete(r.quest.tasks)
    ensures 0 <= r.currentTaskIndex <= |r.quest.tasks|
  {
    var synced := SyncTasks(master.tasks, st.quest.tasks);
    var quest := st.quest.(title := master.title, description := master.description, tasks := synced);
    CursorReduces(st.currentTaskIndex, synced);
    QuestState(quest, CursorAsWritten(st.currentTaskIndex, synced, quest.tasks), st.notifications)
  }

  /** What a player's state becomes. */
  function Propagated(master: Quest, prev: Option<QuestState>): QuestState {
    match prev
    case None => FreshState(master)
    case Some(st) => SyncState(master, st)
  }

  function PropagateToUser(s: Store, master: Quest, u: User): (s': Store)
    ensures s' == s.(questStates := s'.questStates)
    ensures u.role == Admin ==> s' == s
    ensures u.role != Admin ==>
      QuestService.GetQuestState(s', u.username) == Some(Propagated(master, QuestService.GetQuestState(s, u.username)))
    ensures forall v :: v != u.username ==> QuestService.GetQuestState(s', v) == QuestService.GetQuestState(s, v)
  {
    if u.role == Admin then s
    else QuestService.SaveQuestState(s, u.username, Propagated(master, QuestService.GetQuestState(s, u.username)))
  }

  // ---------------------------------------------------------------- every player

  predicate HasPlayerNamed(users: seq<User>, name: string) {
    exists i :: 0 <= i < |users| && users[i].username == name && users[i].role != Admin
  }

  /** How many non-administrator entries of the directory carry `name`:
      how many times the loop writes that player's key. */
  function PlayerEntries(users: seq<User>, name: string): nat {
    if users == [] then 0
    else (if users[0].username == name && users[0].role != Admin then 1 else 0) + PlayerEntries(users[1..], name)
  }

  /** `f` applied `n` times to `x`. */
  function Iterate<T>(f: T -> T, x: T, n: nat): T {
    if n == 0 then x else f(Iterate(f, x, n - 1))
  }

  lemma {:induction false} IterateShift<T>(f: T -> T, x: T, n: nat)
    ensures Iterate(f, f(x), n) == Iterate(f, x, n + 1)
  {
    if n > 0 {
      IterateShift(f, x, n - 1);
    }
  }

  /** One write of the loop to a player's key. */
  function PropagateStep(master: Quest): Option<QuestState> -> Option<QuestState> {
    prev => Some(Propagated(master, prev))
  }

  /** A state after `n` propagations of the same template in a row. */
  function PropagatedTimes(master: Quest, prev: Option<QuestState>, n: nat): Option<QuestState> {
    Iterate(PropagateStep(master), prev, n)
  }

  /** The last of `n` propagations in a row is a propagation. */
  lemma PropagatedTimesLast(master: Quest, prev: Option<QuestState>, n: nat)
    requires n >= 1
    ensures PropagatedTimes(master, prev, n) == Some(Propagated(master, PropagatedTimes(master, prev, n - 1)))
  {
  }

  /** One turn of the loop: the first entry's write, then the writes of the
      rest, add up to the writes of the whole directory. */
  lemma CountStep(s: Store, s1: Store, s2: Store, master: Quest, users: seq<User>)
    requires users != [] && s1 == PropagateToUser(s, master, users[0])
    requires forall v ::
      (QuestService.GetQuestState(s2, v)
         == PropagatedTimes(master, QuestService.GetQuestState(s1, v), PlayerEntries(users[1..], v)))
    ensures forall v ::
      (QuestService.GetQuestState(s2, v)
         == PropagatedTimes(master, QuestService.GetQuestState(s, v), PlayerEntries(users, v)))
  {
    forall v ensures QuestService.GetQuestState(s2, v)
      == PropagatedTimes(master, QuestService.GetQuestState(s, v), PlayerEntries(users, v))
    {
      if users[0].username == v && users[0].role != Admin {
        IterateShift(PropagateStep(master), QuestService.GetQuestState(s, v), PlayerEntries(users[1..], v));
      }
    }
  }

  /** A player of the rest of the directory is a player of the whole; with
      distinct names, the first user's name is not among the rest. */
  lemma TailPlayers(users: seq<User>)
    requires users != []
    ensures forall v :: HasPlayerNamed(users[1..], v) ==> HasPlayerNamed(users, v)
    ensures UserService.DistinctNames(users) ==>
      UserService.DistinctNames(users[1..]) && !HasPlayerNamed(users[1..], users[0].username)
  {
    forall v | HasPlayerNamed(users[1..], v) ensures HasPlayerNamed(users, v) {
      var i :| 0 <= i < |users[1..]| && users[1..][i].username == v && users[1..][i].role != Admin;
      assert users[i + 1] == users[1..][i];
    }
    if UserService.DistinctNames(users) {
      forall k | 0 <= k < |users[1..]| ensures users[1..][k].username != users[0].username {
        assert users[1..][k] == users[k + 1];
      }
    }
  }

  /** The loop over the directory, one user after the other. */
  function PropagateToUsers(s: Store, master: Quest, users: seq<User>): (s': Store)
    ensures s' == s.(questStates := s'.questStates)
    ensures forall v :: !HasPlayerNamed(users, v) ==>
      QuestService.GetQuestState(s', v) == QuestService.GetQuestState(s, v)
    ensures UserService.DistinctNames(users) ==>
      forall i :: 0 <= i < |users| && users[i].role != Admin ==>
        QuestService.GetQuestState(s', users[i].username)
          == Some(Propagated(master, QuestService.GetQuestState(s, users[i].username)))
    ensures forall v ::
      (QuestService.GetQuestState(s', v)
         == PropagatedTimes(master, QuestService.GetQuestState(s, v), PlayerEntries(users, v)))
    decreases |users|
  {
    if users == [] then s
    else
      var s1 := PropagateToUser(s, master, users[0]);
      var s2 := PropagateToUsers(s1, master, users[1..]);
      TailPlayers(users);
      CountStep(s, s1, s2, master, users);
      assert UserService.DistinctNames(users) ==>
        forall i :: 0 <= i < |users| && users[i].role != Admin ==>
          QuestService.GetQuestState(s2, users[i].username)
            == Some(Propagated(master, QuestService.GetQuestState(s, users[i].username))) by {
        if UserService.DistinctNames(users) {
          forall i | 0 <= i < |users| && users[i].role != Admin
            ensures QuestService.GetQuestState(s2, users[i].username)
                 == Some(Propagated(master, QuestService.GetQuestState(s, users[i].username)))
          {
            if i > 0 {
              assert users[1..][i - 1] == users[i];
            }
          }
        }
      }
      s2
  }

  /** `updateMasterQuestAndPropagate`: the template is saved first, then
      every non-administrator in the directory, archived or not, is
      brought in line with it. Nothing but the template key and the
      quest-state keys is written, and administrators' keys are not
      touched. */
  function UpdateMasterQuestAndPropagate(s: Store, master: Quest): (s': Store)
    ensures s'.master == Some(master)
    ensures s' == s.(master := Some(master), questStates := s'.questStates)
    ensures forall v :: !HasPlayerNamed(UserService.GetUsers(s), v) ==>
      QuestService.GetQuestState(s', v) == QuestService.GetQuestState(s, v)
    ensures UserService.DistinctNames(UserService.GetUsers(s)) ==>
      var users := UserService.GetUsers(s);
      forall i :: 0 <= i < |users| && users[i].role != Admin ==>
        QuestService.GetQuestState(s', users[i].username)
          == Some(Propagated(master, QuestService.GetQuestState(s, users[i].username)))
    ensures forall v ::
      (QuestService.GetQuestState(s', v)
         == PropagatedTimes(master, QuestService.GetQuestState(s, v), PlayerEntries(UserService.GetUsers(s), v)))
    ensures UniqueIds(master.tasks) ==>
      var users := UserService.GetUsers(s);
      forall i :: 0 <= i < |users| && users[i].role != Admin ==>
        QuestService.GetQuestState(s', users[i].username)
          == Some(Propagated(master, QuestService.GetQuestState(s, users[i].username)))
  {
    var s1 := MasterTemplate.SaveMasterQuest(s, master);
    assert forall v :: QuestService.GetQuestState(s1, v) == QuestService.GetQuestState(s, v);
    var users := UserService.GetUsers(s);
    var s' := PropagateToUsers(s1, master, users);
    if UniqueIds(master.tasks) then
      PlayersPropagatedOnce(master, users, s, s');
      PlayersCounted(users);
      s'
    else s'
  }

  /** The per-player result of the loop, once repeated writes are known to
      change nothing. */
  lemma PlayersPropagatedOnce(master: Quest, users: seq<User>, before: Store, after: Store)
    requires UniqueIds(master.tasks)
    requires forall v ::
      (QuestService.GetQuestState(after, v)
         == PropagatedTimes(master, QuestService.GetQuestState(before, v), PlayerEntries(users, v)))
    ensures forall v :: PlayerEntries(users, v) >= 1 ==>
      QuestService.GetQuestState(after, v) == Some(Propagated(master, QuestService.GetQuestState(before, v)))
  {
    forall v | PlayerEntries(users, v) >= 1
      ensures QuestService.GetQuestState(after, v) == Some(Propagated(master, QuestService.GetQuestState(before, v)))
    {
      RepeatedPropagationIsOnce(master, QuestService.GetQuestState(before, v), PlayerEntries(users, v));
    }
  }

  /** Every player listed in the directory is written at least once. */
  lemma PlayersCounted(users: seq<User>)
    ensures forall i :: 0 <= i < |users| && users[i].role != Admin ==> PlayerEntries(users, users[i].username) >= 1
  {
    forall i | 0 <= i < |users| && users[i].role != Admin
      ensures PlayerEntries(users, users[i].username) >= 1
    {
      PlayerEntriesPositive(users, i);
    }
  }

  /** A player listed in the directory is written at least once. */
  lemma {:induction false} PlayerEntriesPositive(users: seq<User>, i: nat)
    requires i < |users| && users[i].role != Admin
    ensures PlayerEntries(users, users[i].username) >= 1
  {
    if i > 0 {
      assert users[1..][i - 1] == users[i];
      PlayerEntriesPositive(users[1..], i - 1);
    }
  }

  /** With distinct template ids, propagating the same template several
      times in a row is the same as propagating it once: a name listed
      more than once ends up as if listed once. */
  lemma {:induction false} RepeatedPropagationIsOnce(master: Quest, prev: Option<QuestState>, n: nat)
    requires UniqueIds(master.tasks) && n >= 1
    ensures PropagatedTimes(master, prev, n) == Some(Propagated(master, prev))
  {
    if n > 1 {
      RepeatedPropagationIsOnce(master, prev, n - 1);
      PropagatedIsFixpoint(master, prev);
    }
  }

  // ---------------------------------------------------------------- properties

  /** A task or subtask the player already had keeps its flag: stated
      against positions in an old list whose ids are distinct. */
  lemma {:induction false} ProgressCarriedOver(master: seq<Task>, oldTasks: seq<Task>, i: nat, k: nat)
    requires UniqueIds(oldTasks)
    requires i < |master| && k < |oldTasks| && oldTasks[k].id == master[i].id
    ensures SyncTasks(master, oldTasks)[i].isCompleted == oldTasks[k].isCompleted
    ensures forall j, l ::
      (0 <= j < |master[i].subTasks| && 0 <= l < |oldTasks[k].subTasks|
       && oldTasks[k].subTasks[l].id == master[i].subTasks[j].id) ==>
        SyncTasks(master, oldTasks)[i].subTasks[j].isCompleted == oldTasks[k].subTasks[l].isCompleted
  {
    var r := SyncTasks(master, oldTasks);
    assert FindTaskIndex(oldTasks, master[i].id) == k;
    forall j, l | 0 <= j < |master[i].subTasks| && 0 <= l < |oldTasks[k].subTasks|
      && oldTasks[k].subTasks[l].id == master[i].subTasks[j].id
      ensures r[i].subTasks[j].isCompleted == oldTasks[k].subTasks[l].isCompleted
    {
      assert FindSubTaskIndex(oldTasks[k].subTasks, master[i].subTasks[j].id) == l;
    }
  }

  /** Content the player never had starts incomplete. */
  lemma NewContentStartsClean(master: seq<Task>, oldTasks: seq<Task>, i: nat)
    requires i < |master|
    ensures (forall k :: 0 <= k < |oldTasks| ==> oldTasks[k].id != master[i].id) ==>
      NoTaskProgress(SyncTasks(master, oldTasks)[i])
    ensures forall k, j ::
      (0 <= k < |oldTasks| && oldTasks[k].id == master[i].id
       && 0 <= j < |master[i].subTasks|
       && (forall l :: 0 <= l < |oldTasks[k].subTasks| ==> oldTasks[k].subTasks[l].id != master[i].subTasks[j].id)
       && (forall m :: 0 <= m < k ==> oldTasks[m].id != master[i].id)) ==>
        !SyncTasks(master, oldTasks)[i].subTasks[j].isCompleted
  {
    var r := SyncTasks(master, oldTasks);
    forall k, j | 0 <= k < |oldTasks| && oldTasks[k].id == master[i].id
      && 0 <= j < |master[i].subTasks|
      && (forall l :: 0 <= l < |oldTasks[k].subTasks| ==> oldTasks[k].subTasks[l].id != master[i].subTasks[j].id)
      && (forall m :: 0 <= m < k ==> oldTasks[m].id != master[i].id)
      ensures !r[i].subTasks[j].isCompleted
    {
      assert FindTaskIndex(oldTasks, master[i].id) == k;
    }
  }

  /** A task the template no longer lists does not survive the merge. */
  lemma DroppedTasksRemoved(master: seq<Task>, oldTasks: seq<Task>, id: string)
    requires forall i :: 0 <= i < |master| ==> master[i].id != id
    ensures forall i :: 0 <= i < |SyncTasks(master, oldTasks)| ==> SyncTasks(master, oldTasks)[i].id != id
  {
  }

  /** Merging a template into a copy that already has that template's
      content changes nothing: every flag is found again at its own
      position. */
  lemma {:induction false} ResyncIsIdentity(master: seq<Task>, tasks: seq<Task>)
    requires UniqueIds(master) && SameContent(master, tasks)
    ensures SyncTasks(master, tasks) == tasks
  {
    var r := SyncTasks(master, tasks);
    forall i | 0 <= i < |tasks| ensures r[i] == tasks[i] {
      ResyncTask(master, tasks, i);
    }
  }

  /** One task of the copy, merged again, is itself. */
  lemma ResyncTask(master: seq<Task>, tasks: seq<Task>, i: nat)
    requires UniqueIds(master) && SameContent(master, tasks) && i < |tasks|
    ensures SyncTask(master[i], tasks) == tasks[i]
  {
    var r := SyncTask(master[i], tasks);
    assert SameTaskContent(master[i], tasks[i]);
    assert FindTaskIndex(tasks, master[i].id) == i by {
      forall m | 0 <= m < i ensures tasks[m].id != master[i].id {
        assert SameTaskContent(master[m], tasks[m]);
      }
    }
    var subs := tasks[i].subTasks;
    forall j | 0 <= j < |subs| ensures r.subTasks[j] == subs[j] {
      assert SameSubTaskContent(master[i].subTasks[j], subs[j]);
      assert FindSubTaskIndex(subs, master[i].subTasks[j].id) == j by {
        forall m | 0 <= m < j ensures subs[m].id != master[i].subTasks[j].id {
          assert SameSubTaskContent(master[i].subTasks[m], subs[m]);
        }
      }
    }
  }

  /** A state the propagation produced is left alone by the next
      propagation of the same template. */
  lemma PropagatedIsFixpoint(master: Quest, prev: Option<QuestState>)
    requires UniqueIds(master.tasks)
    ensures SyncState(master, Propagated(master, prev)) == Propagated(master, prev)
  {
    var st := Propagated(master, prev);
    ResyncIsIdentity(master.tasks, st.quest.tasks);
    if prev.None? {
      assert st.quest.(tasks := master.tasks) == master;
    }
  }

  /** Saving the same template twice in a row is the same as saving it once,
      as far as every player's state goes. */
  lemma RepropagateIsNoOp(s: Store, master: Quest)
    requires UniqueIds(master.tasks)
    ensures var s1 := UpdateMasterQuestAndPropagate(s, master);
      var s2 := UpdateMasterQuestAndPropagate(s1, master);
      && s2 == s1.(questStates := s2.questStates)
      && forall v :: QuestService.GetQuestState(s2, v) == QuestService.GetQuestState(s1, v)
  {
    var s1 := UpdateMasterQuestAndPropagate(s, master);
    var s2 := UpdateMasterQuestAndPropagate(s1, master);
    var users := UserService.GetUsers(s);
    assert UserService.GetUsers(s1) == users;
    forall v ensures QuestService.GetQuestState(s2, v) == QuestService.GetQuestState(s1, v) {
      if HasPlayerNamed(users, v) {
        var i :| 0 <= i < |users| && users[i].username == v && users[i].role != Admin;
        PropagatedIsFixpoint(master, QuestService.GetQuestState(s, v));
      }
    }
  }

  /** A completed task pushed forward by an insertion: the template gains
      `T0` at the front and `s5` inside `T2`, and a player stands on `T2`
      (index 1) with `T1` complete. The cursor is kept at index 1 because
      it is still in range, and index 1 now holds the completed `T1`,
      although `T2` at index 2 is still open. So the cursor can rest on a
      completed task while an incomplete one exists. */
  lemma FrontInsertionKeepsCursorOnCompletedTask()
    ensures var r := SyncState(Quest("q", "", "", ExampleMaster), QuestState(Quest("q", "", "", ExampleOld), 1, Some([])));
      && r.quest.tasks == ExampleSynced
      && r.currentTaskIndex == 1
      && r.quest.tasks[1].isCompleted
      && !r.quest.tasks[2].isCompleted
  {
    ExampleSync();
  }

  function BlankSub(id: string): SubTask {
    SubTask(id, "", Checkbox, None, false)
  }

  const ExampleT0 := Task("T0", "", "", false, [], NoLocation)
  const ExampleT1 := Task("T1", "", "", false, [BlankSub("s1"), BlankSub("s2")], NoLocation)
  const ExampleT2 := Task("T2", "", "", false, [BlankSub("s3"), BlankSub("s4")], NoLocation)
  /** `T2` with `s5` added. */
  const ExampleT2New := ExampleT2.(subTasks := ExampleT2.subTasks + [BlankSub("s5")])
  /** `T1` as the player finished it. */
  const ExampleDone1 := ExampleT1.(isCompleted := true,
    subTasks := [BlankSub("s1").(isCompleted := true), BlankSub("s2").(isCompleted := true)])
  const ExampleOld := [ExampleDone1, ExampleT2]
  const ExampleMaster := [ExampleT0, ExampleT1, ExampleT2New]
  const ExampleSynced := [ExampleT0, ExampleDone1, ExampleT2New]

  /** The merge keeps `T1`'s flags, adds `T0` blank and `s5` unticked. */
  lemma ExampleSync()
    ensures SyncTasks(ExampleMaster, ExampleOld) == ExampleSynced
  {
    var r := SyncTasks(ExampleMaster, ExampleOld);
    assert FindTask(ExampleOld, "T0") == None;
    assert FindTask(ExampleOld, "T1") == Some(ExampleDone1);
    assert "T1" != "T2" by { assert "T1"[1] != "T2"[1]; }
    assert ExampleOld[1..] == [ExampleT2];
    assert FindTaskIndex(ExampleOld, "T2") == 1;
    assert r[0] == ExampleT0;
    assert r[1] == ExampleDone1;
    assert r[2] == ExampleT2New;
  }
}
