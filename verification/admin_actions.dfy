/** What the administrator dashboard (`pages/AdminDashboard.tsx`) does to
    a player's stored quest state: move the cursor, complete a subtask,
    and settle an unlock request. Every handler reads the state fresh from
    the store and does nothing to it when the player has none. The clock
    reading that names a notification is the parameter `now`. */
module AdminActions {
  import opened Wrappers
  import opened Types
  import opened Text
  import opened Storage
  import opened QuestTree
  import opened QuestService
  import UnlockRequestService
  import Progress
  import TaskCard
  import Propagation

  // ---------------------------------------------------------------- unlocking directly

  /** `handleUnlockTask`: the cursor is set to `taskIndex`, unchecked;
      nothing else in the store changes. */
  function HandleUnlockTask(s: Store, username: string, taskIndex: int): (s': Store)
    ensures GetQuestState(s, username).None? ==> s' == s
    ensures GetQuestState(s, username).Some? ==>
      var st := GetQuestState(s, username).value;
      && GetQuestState(s', username).Some?
      && GetQuestState(s', username).value.currentTaskIndex == taskIndex
      && GetQuestState(s', username).value.quest == st.quest
      && GetQuestState(s', username).value.notifications == st.notifications
    ensures forall v :: v != username ==> GetQuestState(s', v) == GetQuestState(s, v)
    ensures s' == s.(questStates := s'.questStates)
  {
    match GetQuestState(s, username)
    case None => s
    case Some(st) => SaveQuestState(s, username, st.(currentTaskIndex := taskIndex))
  }

  /** Unlocking the task the player is already on stores the same state. */
  lemma UnlockCurrentTaskKeepsState(s: Store, username: string)
    requires GetQuestState(s, username).Some?
    ensures var s' := HandleUnlockTask(s, username, GetQuestState(s, username).value.currentTaskIndex);
      GetQuestState(s', username) == GetQuestState(s, username)
  {
  }

  /** Of two unlocks in a row, only the second counts. */
  lemma UnlockTaskLastWins(s: Store, username: string, a: int, b: int)
    ensures HandleUnlockTask(HandleUnlockTask(s, username, a), username, b) == HandleUnlockTask(s, username, b)
  {
    if GetQuestState(s, username).Some? {
      assert HandleUnlockTask(HandleUnlockTask(s, username, a), username, b).questStates
        == HandleUnlockTask(s, username, b).questStates;
    }
  }

  /** `handleUnlockSubtask`: every subtask `subtaskId` of every task
      `taskId` is marked complete; task flags, the cursor, the
      notifications and the quest's own fields stay. */
  function HandleUnlockSubtask(s: Store, username: string, taskId: string, subtaskId: string): (s': Store)
    ensures GetQuestState(s, username).None? ==> s' == s
    ensures GetQuestState(s, username).Some? ==>
      var st := GetQuestState(s, username).value;
      && GetQuestState(s', username).Some?
      && var st' := GetQuestState(s', username).value;
      && st'.currentTaskIndex == st.currentTaskIndex
      && st'.notifications == st.notifications
      && st'.quest.(tasks := st.quest.tasks) == st.quest
      && Progress.Progressed(st.quest.tasks, st'.quest.tasks)
      && (forall i :: 0 <= i < |st.quest.tasks| ==> st'.quest.tasks[i].isCompleted == st.quest.tasks[i].isCompleted)
      && (forall i, j :: 0 <= i < |st.quest.tasks| && 0 <= j < |st.quest.tasks[i].subTasks| ==>
            st'.quest.tasks[i].subTasks[j].isCompleted
              == (st.quest.tasks[i].subTasks[j].isCompleted
                  || (st.quest.tasks[i].id == taskId && st.quest.tasks[i].subTasks[j].id == subtaskId)))
    ensures forall v :: v != username ==> GetQuestState(s', v) == GetQuestState(s, v)
    ensures s' == s.(questStates := s'.questStates)
  {
    match GetQuestState(s, username)
    case None => s
    case Some(st) =>
      var tasks := Progress.SetSubTaskFlag(st.quest.tasks, taskId, subtaskId, true);
      SaveQuestState(s, username, st.(quest := st.quest.(tasks := tasks)))
  }

  /** After the unlock, looking the subtask up reads it as complete. */
  lemma UnlockSubtaskReadBack(s: Store, username: string, taskId: string, subtaskId: string)
    requires GetQuestState(s, username).Some?
    requires var ts := GetQuestState(s, username).value.quest.tasks;
      FindTaskIndex(ts, taskId) < |ts|
      && FindSubTaskIndex(ts[FindTaskIndex(ts, taskId)].subTasks, subtaskId) < |ts[FindTaskIndex(ts, taskId)].subTasks|
    ensures var s' := HandleUnlockSubtask(s, username, taskId, subtaskId);
      Propagation.SubTaskFlag(GetQuestState(s', username).value.quest.tasks, taskId, subtaskId)
  {
    var ts := GetQuestState(s, username).value.quest.tasks;
    Progress.SetSubTaskFlagReadBack(ts, taskId, subtaskId, true);
  }

  /** Unlocking the same subtask again stores the same state. */
  lemma UnlockSubtaskIdempotent(s: Store, username: string, taskId: string, subtaskId: string)
    ensures var s' := HandleUnlockSubtask(s, username, taskId, subtaskId);
      GetQuestState(HandleUnlockSubtask(s', username, taskId, subtaskId), username) == GetQuestState(s', username)
  {
    if GetQuestState(s, username).Some? {
      Progress.SetSubTaskFlagLastWins(GetQuestState(s, username).value.quest.tasks, taskId, subtaskId, true, true);
    }
  }

  // ---------------------------------------------------------------- notifications

  const ApprovePrefix: string := "notif-approve-"
  const RejectPrefix: string := "notif-reject-"
  const ApproveMessage: string :=
    "This task has been manually unlocked for you by a Game Administrator based on your request."
  const RejectMessage: string :=
    "Your unlock request has been reviewed. Please study the task requirements again and re-attempt."

  /** The subtask a request names, when `request.subtaskId` is truthy: a
      missing or empty id names none. */
  function NamedSubtask(req: UnlockRequest): (r: Option<string>)
    ensures r.Some? <==> req.subtaskId.Some? && req.subtaskId.value != ""
    ensures r.Some? ==> r.value == req.subtaskId.value
  {
    if req.subtaskId.Some? && req.subtaskId.value != "" then req.subtaskId else None
  }

  /** The notification a decision posts at clock reading `now`. */
  function Notice(approved: bool, subtaskId: string, now: nat): (n: UnlockNotification)
    ensures var p := if approved then ApprovePrefix else RejectPrefix;
      && |p| < |n.id| && n.id[..|p|] == p
      && AllDigits(n.id[|p|..]) && DigitsValue(n.id[|p|..]) == now
    ensures n.subtaskId == subtaskId
    ensures n.kind == (if approved then UnlockApproved else UnlockRejected)
    ensures n.message == (if approved then ApproveMessage else RejectMessage)
  {
    if approved then UnlockNotification(ApprovePrefix + NatToDecimal(now), subtaskId, ApproveMessage, UnlockApproved)
    else UnlockNotification(RejectPrefix + NatToDecimal(now), subtaskId, RejectMessage, UnlockRejected)
  }

  /** `if (!state.notifications) state.notifications = []; push(n)`. */
  function PostNotice(st: QuestState, n: UnlockNotification): (r: QuestState)
    ensures r.notifications.Some? && r.notifications.value == Progress.Notifications(st) + [n]
    ensures r.quest == st.quest && r.currentTaskIndex == st.currentTaskIndex
  {
    st.(notifications := Some(Progress.Notifications(st) + [n]))
  }

  // ---------------------------------------------------------------- approving a request

  /** Steps 1 and 2 of `handleApproveRequest` on the player's state: the
      updated state and `wasUpdated`. Step 1 completes the named subtask
      when it exists and is incomplete; step 2 posts the approval whenever
      a subtask is named, so the state is written exactly when one is. */
  function ApproveState(st: QuestState, req: UnlockRequest, now: nat): (r: (QuestState, bool))
    ensures r.1 <==> NamedSubtask(req).Some?
    ensures r.0.quest.(tasks := st.quest.tasks) == st.quest && r.0.currentTaskIndex == st.currentTaskIndex
    ensures Progress.Progressed(st.quest.tasks, r.0.quest.tasks)
    ensures forall i :: 0 <= i < |st.quest.tasks| ==> r.0.quest.tasks[i].isCompleted == st.quest.tasks[i].isCompleted
    ensures NamedSubtask(req).None? ==> r.0 == st
    ensures NamedSubtask(req).Some? ==>
      && r.0.notifications == Some(Progress.Notifications(st) + [Notice(true, NamedSubtask(req).value, now)])
      && r.0.quest.tasks == Progress.CompleteFirstMatch(st.quest.tasks, req.taskId, NamedSubtask(req).value).0
  {
    match NamedSubtask(req)
    case None => (st, false)
    case Some(sid) =>
      var (tasks, changed) := Progress.CompleteFirstMatch(st.quest.tasks, req.taskId, sid);
      var st1 := st.(quest := st.quest.(tasks := tasks));
      // step 2 sets `wasUpdated` whatever step 1 found
      (PostNotice(st1, Notice(true, sid, now)), true)
  }

  /** `handleApproveRequest`: without a stored state nothing happens, not
      even to the request; otherwise the state is written when a subtask
      is named and the request is marked approved. */
  function HandleApproveRequest(s: Store, req: UnlockRequest, now: nat): (s': Store)
    ensures GetQuestState(s, req.userId).None? ==> s' == s
    ensures GetQuestState(s, req.userId).Some? ==>
      s'.unlockRequests == UnlockRequestService.UpdateRequestStatus(s, req.id, Approved).unlockRequests
    ensures GetQuestState(s, req.userId).Some? && NamedSubtask(req).None? ==>
      GetQuestState(s', req.userId) == GetQuestState(s, req.userId)
    ensures GetQuestState(s, req.userId).Some? ==>
      GetQuestState(s', req.userId) == Some(ApproveState(GetQuestState(s, req.userId).value, req, now).0)
    ensures forall v :: v != req.userId ==> GetQuestState(s', v) == GetQuestState(s, v)
    ensures s' == s.(questStates := s'.questStates, unlockRequests := s'.unlockRequests)
  {
    match GetQuestState(s, req.userId)
    case None => s
    case Some(st) =>
      var (st', wasUpdated) := ApproveState(st, req, now);
      var s1 := if wasUpdated then SaveQuestState(s, req.userId, st') else s;
      UnlockRequestService.UpdateRequestStatus(s1, req.id, Approved)
  }

  /** The player's state is rewritten exactly when the request names a
      subtask, whether or not that subtask was found. */
  lemma ApproveChangesStateIffSubtaskNamed(s: Store, req: UnlockRequest, now: nat)
    requires GetQuestState(s, req.userId).Some?
    ensures GetQuestState(HandleApproveRequest(s, req, now), req.userId) != GetQuestState(s, req.userId)
      <==> NamedSubtask(req).Some?
  {
    var st := GetQuestState(s, req.userId).value;
    if NamedSubtask(req).Some? {
      var st' := ApproveState(st, req, now).0;
      assert |st'.notifications.value| == |Progress.Notifications(st)| + 1;
    }
  }

  /** An approval completes the named subtask whenever it exists. */
  lemma ApprovalCompletesSubtask(s: Store, req: UnlockRequest, now: nat)
    requires GetQuestState(s, req.userId).Some? && NamedSubtask(req).Some?
    requires var ts := GetQuestState(s, req.userId).value.quest.tasks;
      FindTaskIndex(ts, req.taskId) < |ts|
      && FindSubTaskIndex(ts[FindTaskIndex(ts, req.taskId)].subTasks, req.subtaskId.value)
         < |ts[FindTaskIndex(ts, req.taskId)].subTasks|
    ensures var st' := GetQuestState(HandleApproveRequest(s, req, now), req.userId).value;
      Propagation.SubTaskFlag(st'.quest.tasks, req.taskId, req.subtaskId.value)
  {
    var ts := GetQuestState(s, req.userId).value.quest.tasks;
    Progress.CompleteFirstMatchReadBack(ts, req.taskId, req.subtaskId.value);
  }

  /** The player's card shows the approval under the subtask unless an
      older notification about the same subtask is still there. */
  lemma ApprovalNoticeShown(s: Store, req: UnlockRequest, now: nat)
    requires GetQuestState(s, req.userId).Some? && NamedSubtask(req).Some?
    ensures var st := GetQuestState(s, req.userId).value;
      var st' := GetQuestState(HandleApproveRequest(s, req, now), req.userId).value;
      var sid := req.subtaskId.value;
      var earlier := TaskCard.NotificationFor(Some(Progress.Notifications(st)), sid);
      TaskCard.NotificationFor(st'.notifications, sid)
        == if earlier.Some? then earlier else Some(Notice(true, sid, now))
  {
    var st := GetQuestState(s, req.userId).value;
    TaskCard.AppendedNotificationShown(Progress.Notifications(st), Notice(true, req.subtaskId.value, now));
  }

  /** A second approval of the same request leaves the tasks as the first
      one left them. */
  lemma ApproveTwiceSameTasks(s: Store, req: UnlockRequest, now: nat, later: nat)
    requires GetQuestState(s, req.userId).Some?
    ensures var s1 := HandleApproveRequest(s, req, now);
      var s2 := HandleApproveRequest(s1, req, later);
      GetQuestState(s2, req.userId).value.quest == GetQuestState(s1, req.userId).value.quest
  {
    var st := GetQuestState(s, req.userId).value;
    if NamedSubtask(req).Some? {
      Progress.CompleteFirstMatchIdempotent(st.quest.tasks, req.taskId, req.subtaskId.value);
    }
  }

  /** A stored request settled by an approval reads back as approved. */
  lemma ApprovalMarksRequest(s: Store, req: UnlockRequest, now: nat)
    requires GetQuestState(s, req.userId).Some?
    requires UnlockRequestService.HasRequest(s.unlockRequests, req.id)
    ensures var rs := UnlockRequestService.GetUnlockRequests(HandleApproveRequest(s, req, now));
      var i := UnlockRequestService.FindRequestIndex(rs, req.id);
      i < |rs| && rs[i].status == Approved
  {
    var st := GetQuestState(s, req.userId).value;
    var s1 := if NamedSubtask(req).Some? then SaveQuestState(s, req.userId, ApproveState(st, req, now).0) else s;
    assert s1.unlockRequests == s.unlockRequests;
    UnlockRequestService.UpdateThenGet(s1, req.id, Approved);
  }

  // ---------------------------------------------------------------- rejecting a request

  /** The player's state after `handleRejectRequest`: the rejection is
      posted when a subtask is named; progress is never touched. */
  function RejectState(st: QuestState, req: UnlockRequest, now: nat): (r: QuestState)
    ensures r.quest == st.quest && r.currentTaskIndex == st.currentTaskIndex
    ensures NamedSubtask(req).None? ==> r == st
    ensures NamedSubtask(req).Some? ==>
      r.notifications == Some(Progress.Notifications(st) + [Notice(false, NamedSubtask(req).value, now)])
  {
    match NamedSubtask(req)
    case None => st
    case Some(sid) => PostNotice(st, Notice(false, sid, now))
  }

  /** `handleRejectRequest`. */
  function HandleRejectRequest(s: Store, req: UnlockRequest, now: nat): (s': Store)
    ensures GetQuestState(s, req.userId).None? ==> s' == s
    ensures GetQuestState(s, req.userId).Some? ==>
      s'.unlockRequests == UnlockRequestService.UpdateRequestStatus(s, req.id, Rejected).unlockRequests
    ensures GetQuestState(s, req.userId).Some? ==>
      GetQuestState(s', req.userId) == Some(RejectState(GetQuestState(s, req.userId).value, req, now))
    ensures forall v :: v != req.userId ==> GetQuestState(s', v) == GetQuestState(s, v)
    ensures s' == s.(questStates := s'.questStates, unlockRequests := s'.unlockRequests)
  {
    match GetQuestState(s, req.userId)
    case None => s
    case Some(st) =>
      var s1 := if NamedSubtask(req).Some? then SaveQuestState(s, req.userId, RejectState(st, req, now)) else s;
      UnlockRequestService.UpdateRequestStatus(s1, req.id, Rejected)
  }

  /** A rejection leaves the player's quest and cursor exactly as they
      were, and shows the rejection unless an older notification about
      the subtask is still there. */
  lemma RejectKeepsProgress(s: Store, req: UnlockRequest, now: nat)
    requires GetQuestState(s, req.userId).Some?
    ensures var st := GetQuestState(s, req.userId).value;
      var st' := GetQuestState(HandleRejectRequest(s, req, now), req.userId).value;
      && st'.quest == st.quest && st'.currentTaskIndex == st.currentTaskIndex
      && (NamedSubtask(req).Some? ==>
            var earlier := TaskCard.NotificationFor(Some(Progress.Notifications(st)), req.subtaskId.value);
            TaskCard.NotificationFor(st'.notifications, req.subtaskId.value)
              == if earlier.Some? then earlier else Some(Notice(false, req.subtaskId.value, now)))
  {
    var st := GetQuestState(s, req.userId).value;
    if NamedSubtask(req).Some? {
      TaskCard.AppendedNotificationShown(Progress.Notifications(st), Notice(false, req.subtaskId.value, now));
    }
  }
}
