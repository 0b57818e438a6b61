/** Changes to a player's progress that both the player's screen
    (`pages/TreasureHuntGame.tsx`) and the administrator's
    (`pages/AdminDashboard.tsx`) make to a quest state: setting a
    subtask's flag, completing the first matching subtask, and keeping
    the notification list. None of them touches the quest's content. */
module Progress {
  import opened Wrappers
  import opened Types
  import opened QuestTree
  import Propagation

  /** `before` and `after` have the same content and `after` has every
      flag `before` has, and perhaps more: progress only grew. */
  predicate Progressed(before: seq<Task>, after: seq<Task>) {
    && SameContent(before, after)
    && (forall i :: 0 <= i < |before| && before[i].isCompleted ==> after[i].isCompleted)
    && (forall i, j :: 0 <= i < |before| && 0 <= j < |before[i].subTasks| && before[i].subTasks[j].isCompleted ==>
          after[i].subTasks[j].isCompleted)
  }

  /** Content equal position by position means equal ids, and so the same
      first-match lookups. */
  lemma SameContentSameLookups(ts: seq<Task>, us: seq<Task>, tid: string, sid: string)
    requires SameContent(ts, us)
    ensures FindTaskIndex(us, tid) == FindTaskIndex(ts, tid)
    ensures FindTaskIndex(ts, tid) < |ts| ==>
      FindSubTaskIndex(us[FindTaskIndex(ts, tid)].subTasks, sid) == FindSubTaskIndex(ts[FindTaskIndex(ts, tid)].subTasks, sid)
  {
    var i, k := FindTaskIndex(ts, tid), FindTaskIndex(us, tid);
    assert forall m :: 0 <= m < |ts| ==> us[m].id == ts[m].id;
    if i < |ts| {
      var a, b := ts[i].subTasks, us[i].subTasks;
      assert SameTaskContent(ts[i], us[i]);
      assert forall m :: 0 <= m < |a| ==> b[m].id == a[m].id;
    }
  }

  // ---------------------------------------------------------------- setting a subtask flag by id

  /** The nested `map` both screens use: every subtask `sid` of every
      task `tid` takes the flag `flag`; nothing else changes. */
  function SetSubTaskFlag(tasks: seq<Task>, tid: string, sid: string, flag: bool): (r: seq<Task>)
    ensures SameContent(tasks, r)
    ensures forall i :: 0 <= i < |r| ==> r[i].isCompleted == tasks[i].isCompleted
    ensures forall i, j :: 0 <= i < |r| && 0 <= j < |r[i].subTasks| ==>
      r[i].subTasks[j].isCompleted
        == if tasks[i].id == tid && tasks[i].subTasks[j].id == sid then flag else tasks[i].subTasks[j].isCompleted
  {
    seq(|tasks|, i requires 0 <= i < |tasks| => SetInTask(tasks[i], tid, sid, flag))
  }

  function SetInTask(t: Task, tid: string, sid: string, flag: bool): (r: Task)
    ensures SameTaskContent(t, r) && r.isCompleted == t.isCompleted
    ensures forall j :: 0 <= j < |r.subTasks| ==>
      r.subTasks[j].isCompleted == if t.id == tid && t.subTasks[j].id == sid then flag else t.subTasks[j].isCompleted
  {
    if t.id != tid then t
    else
      t.(subTasks := seq(|t.subTasks|, j requires 0 <= j < |t.subTasks| =>
        if t.subTasks[j].id == sid then t.subTasks[j].(isCompleted := flag) else t.subTasks[j]))
  }

  /** Content together with every flag pins a task list down. */
  lemma {:induction false} ContentAndFlagsDetermine(ts: seq<Task>, a: seq<Task>, b: seq<Task>)
    requires SameContent(ts, a) && SameContent(ts, b)
    requires forall i :: 0 <= i < |a| ==> a[i].isCompleted == b[i].isCompleted
    requires forall i, j :: 0 <= i < |a| && 0 <= j < |a[i].subTasks| ==>
      a[i].subTasks[j].isCompleted == b[i].subTasks[j].isCompleted
    ensures a == b
  {
    forall i | 0 <= i < |a| ensures a[i] == b[i] {
      assert SameTaskContent(ts[i], a[i]) && SameTaskContent(ts[i], b[i]);
      forall j | 0 <= j < |a[i].subTasks| ensures a[i].subTasks[j] == b[i].subTasks[j] {
        assert SameSubTaskContent(ts[i].subTasks[j], a[i].subTasks[j]);
        assert SameSubTaskContent(ts[i].subTasks[j], b[i].subTasks[j]);
      }
      assert a[i].subTasks == b[i].subTasks;
    }
  }

  /** After the change, looking the subtask up by id (first matches)
      reads the flag just set, provided the subtask exists. */
  lemma SetSubTaskFlagReadBack(tasks: seq<Task>, tid: string, sid: string, flag: bool)
    requires FindTaskIndex(tasks, tid) < |tasks|
    requires FindSubTaskIndex(tasks[FindTaskIndex(tasks, tid)].subTasks, sid) < |tasks[FindTaskIndex(tasks, tid)].subTasks|
    ensures Propagation.SubTaskFlag(SetSubTaskFlag(tasks, tid, sid, flag), tid, sid) == flag
  {
    var r := SetSubTaskFlag(tasks, tid, sid, flag);
    SameContentSameLookups(tasks, r, tid, sid);
  }

  /** Setting the same subtask twice keeps only the second flag: a
      checkbox ticked and unticked is back where it started. */
  lemma SetSubTaskFlagLastWins(tasks: seq<Task>, tid: string, sid: string, a: bool, b: bool)
    ensures SetSubTaskFlag(SetSubTaskFlag(tasks, tid, sid, a), tid, sid, b) == SetSubTaskFlag(tasks, tid, sid, b)
  {
    var once := SetSubTaskFlag(tasks, tid, sid, a);
    var twice := SetSubTaskFlag(once, tid, sid, b);
    var direct := SetSubTaskFlag(tasks, tid, sid, b);
    assert SameContent(tasks, twice) by {
      forall i | 0 <= i < |tasks| ensures SameTaskContent(tasks[i], twice[i]) {
        assert SameTaskContent(tasks[i], once[i]) && SameTaskContent(once[i], twice[i]);
        forall j | 0 <= j < |tasks[i].subTasks|
          ensures SameSubTaskContent(tasks[i].subTasks[j], twice[i].subTasks[j])
        {
          assert SameSubTaskContent(tasks[i].subTasks[j], once[i].subTasks[j]);
          assert SameSubTaskContent(once[i].subTasks[j], twice[i].subTasks[j]);
        }
      }
    }
    ContentAndFlagsDetermine(tasks, twice, direct);
  }

  /** Setting a flag to true only adds progress. */
  lemma SetTrueProgresses(tasks: seq<Task>, tid: string, sid: string)
    ensures Progressed(tasks, SetSubTaskFlag(tasks, tid, sid, true))
  {
  }

  // ---------------------------------------------------------------- completing the first match

  /** The approval step: the first task `tid` and, in it, the first
      subtask `sid` are looked up; an incomplete subtask found there is
      completed, and `changed` reports whether that happened. */
  function CompleteFirstMatch(tasks: seq<Task>, tid: string, sid: string): (r: (seq<Task>, bool))
    ensures Progressed(tasks, r.0)
    ensures forall i :: 0 <= i < |tasks| ==> r.0[i].isCompleted == tasks[i].isCompleted
    ensures !r.1 ==> r.0 == tasks
    ensures r.1 <==>
      var i := FindTaskIndex(tasks, tid);
      && i < |tasks|
      && FindSubTaskIndex(tasks[i].subTasks, sid) < |tasks[i].subTasks|
      && !tasks[i].subTasks[FindSubTaskIndex(tasks[i].subTasks, sid)].isCompleted
    ensures forall i, j ::
      (0 <= i < |tasks| && 0 <= j < |tasks[i].subTasks| && r.0[i].subTasks[j].isCompleted != tasks[i].subTasks[j].isCompleted) ==>
      i == FindTaskIndex(tasks, tid) && j == FindSubTaskIndex(tasks[i].subTasks, sid)
  {
    var i := FindTaskIndex(tasks, tid);
    if i == |tasks| then (tasks, false)
    else
      var t := tasks[i];
      var j := FindSubTaskIndex(t.subTasks, sid);
      if j == |t.subTasks| || t.subTasks[j].isCompleted then (tasks, false)
      else
        var t' := t.(subTasks := t.subTasks[j := t.subTasks[j].(isCompleted := true)]);
        assert SameTaskContent(t, t');
        (tasks[i := t'], true)
  }

  /** Once the subtask exists, it is complete after the step, whether or
      not the step had anything to do. */
  lemma CompleteFirstMatchReadBack(tasks: seq<Task>, tid: string, sid: string)
    requires FindTaskIndex(tasks, tid) < |tasks|
    requires FindSubTaskIndex(tasks[FindTaskIndex(tasks, tid)].subTasks, sid) < |tasks[FindTaskIndex(tasks, tid)].subTasks|
    ensures Propagation.SubTaskFlag(CompleteFirstMatch(tasks, tid, sid).0, tid, sid)
  {
    SameContentSameLookups(tasks, CompleteFirstMatch(tasks, tid, sid).0, tid, sid);
  }

  /** A second approval of the same subtask has nothing left to do. */
  lemma CompleteFirstMatchIdempotent(tasks: seq<Task>, tid: string, sid: string)
    ensures var once := CompleteFirstMatch(tasks, tid, sid).0;
      CompleteFirstMatch(once, tid, sid) == (once, false)
  {
    var once := CompleteFirstMatch(tasks, tid, sid).0;
    SameContentSameLookups(tasks, once, tid, sid);
  }

  // ---------------------------------------------------------------- notifications

  /** `notifications ?? []`. */
  function Notifications(st: QuestState): seq<UnlockNotification> {
    st.notifications.GetOr([])
  }

  /** `notifications.filter(n => n.id !== id)`. */
  function RemoveNotification(ns: seq<UnlockNotification>, id: string): (r: seq<UnlockNotification>)
    ensures |r| <= |ns|
    ensures forall k :: 0 <= k < |r| ==> r[k].id != id && r[k] in ns
  {
    if ns == [] then []
    else if ns[0].id == id then RemoveNotification(ns[1..], id)
    else [ns[0]] + RemoveNotification(ns[1..], id)
  }

  /** Every notification with another id stays, as often as it was
      there; none with the id does. */
  lemma {:induction false} RemoveNotificationCounts(ns: seq<UnlockNotification>, id: string, n: UnlockNotification)
    ensures multiset(RemoveNotification(ns, id))[n] == if n.id == id then 0 else multiset(ns)[n]
  {
    if ns != [] {
      RemoveNotificationCounts(ns[1..], id, n);
      assert ns == [ns[0]] + ns[1..];
    }
  }

  /** The filter works piece by piece, so the kept notifications keep
      their order. */
  lemma {:induction false} RemoveNotificationAppend(a: seq<UnlockNotification>, b: seq<UnlockNotification>, id: string)
    ensures RemoveNotification(a + b, id) == RemoveNotification(a, id) + RemoveNotification(b, id)
  {
    if a != [] {
      assert (a + b)[1..] == a[1..] + b;
      RemoveNotificationAppend(a[1..], b, id);
    } else {
      assert a + b == b;
    }
  }

  /** A list without the id is left as it is. */
  lemma {:induction false} RemoveAbsentNotification(ns: seq<UnlockNotification>, id: string)
    requires forall k :: 0 <= k < |ns| ==> ns[k].id != id
    ensures RemoveNotification(ns, id) == ns
  {
    if ns != [] {
      RemoveAbsentNotification(ns[1..], id);
      assert ns == [ns[0]] + ns[1..];
    }
  }
}
