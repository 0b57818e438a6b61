/** The player's screen (`pages/TreasureHuntGame.tsx`): the state it
    shows, loaded from the store and written back after every change, and
    the handlers the task card calls. A `Session` holds what the page
    keeps in memory next to the store; the signed-in user comes from the
    authentication context. Sounds, the map, the SOS and unlock-request
    dialogs are left out; the geolocation reading and the clock are
    parameters. */
module TreasureHuntGame {
  import opened Wrappers
  import opened Types
  import opened Text
  import opened Storage
  import opened QuestTree
  import opened QuestService
  import AssetService
  import Progress
  import TaskCard
  import Propagation
  import AdminActions

  datatype Session = Session(
    store: Store,
    user: Option<User>,
    /** `questState`: what the page shows. */
    state: Option<QuestState>,
    /** `assets`: the photos drawn on the player's map. */
    assets: seq<UserAsset>)

  /** What the page shows is what the store holds for the player. */
  predicate InSync(sess: Session) {
    sess.user.Some? && sess.state.Some? ==> GetQuestState(sess.store, sess.user.value.username) == sess.state
  }

  // ---------------------------------------------------------------- loading and saving

  /** `loadQuest`: the stored state, or a fresh one created (and stored)
      when the player has none, together with the player's assets. */
  function LoadQuest(sess: Session): (r: Session)
    ensures sess.user.None? ==> r == sess
    ensures sess.user.Some? ==>
      var u := sess.user.value.username;
      && r.user == sess.user && r.state.Some? && InSync(r)
      && r.assets == AssetService.GetUserAssets(r.store, u)
      && (GetQuestState(sess.store, u).Some? ==> r.store == sess.store)
      && (GetQuestState(sess.store, u).None? ==>
            && r.state.value.currentTaskIndex == 0 && NoProgress(r.state.value.quest.tasks)
            && r.store.master == Some(TemplateAfterCreate(sess.store))
            && FreshFrom(r.state.value, TemplateAfterCreate(sess.store)))
    ensures forall v :: sess.user.Some? && v != sess.user.value.username ==>
      GetQuestState(r.store, v) == GetQuestState(sess.store, v)
  {
    match sess.user
    case None => sess
    case Some(user) =>
      match GetQuestState(sess.store, user.username)
      case Some(st) => sess.(state := Some(st), assets := AssetService.GetUserAssets(sess.store, user.username))
      case None =>
        var (s1, st) := CreateNewQuestState(sess.store, user.username);
        sess.(store := s1, state := Some(st), assets := AssetService.GetUserAssets(s1, user.username))
  }

  /** Loading again changes nothing: the first load stored what it
      shows. */
  lemma LoadQuestIdempotent(sess: Session)
    ensures LoadQuest(LoadQuest(sess)) == LoadQuest(sess)
  {
  }

  /** `Partial<QuestState>`: the fields a handler sets; `None` leaves a
      field as it was. */
  datatype QuestPatch = QuestPatch(
    quest: Option<Quest>,
    currentTaskIndex: Option<int>,
    notifications: Option<seq<UnlockNotification>>)

  /** `{ ...prevState, ...newState }`. */
  function Merge(st: QuestState, patch: QuestPatch): (r: QuestState)
    ensures r.quest == patch.quest.GetOr(st.quest)
    ensures r.currentTaskIndex == patch.currentTaskIndex.GetOr(st.currentTaskIndex)
    ensures r.notifications == if patch.notifications.Some? then patch.notifications else st.notifications
  {
    QuestState(
      patch.quest.GetOr(st.quest),
      patch.currentTaskIndex.GetOr(st.currentTaskIndex),
      if patch.notifications.Some? then patch.notifications else st.notifications)
  }

  /** An empty patch changes nothing, and a later patch wins field by
      field. */
  lemma MergeLaws(st: QuestState, p: QuestPatch, q: QuestPatch)
    ensures Merge(st, QuestPatch(None, None, None)) == st
    ensures Merge(Merge(st, p), q) == Merge(st, QuestPatch(
      if q.quest.Some? then q.quest else p.quest,
      if q.currentTaskIndex.Some? then q.currentTaskIndex else p.currentTaskIndex,
      if q.notifications.Some? then q.notifications else p.notifications))
  {
  }

  /** `updateQuestState`: the patch is merged into the shown state and the
      result is both shown and stored. Without a user or a shown state
      nothing happens. */
  function UpdateQuestState(sess: Session, patch: QuestPatch): (r: Session)
    ensures sess.user.None? || sess.state.None? ==> r == sess
    ensures sess.user.Some? && sess.state.Some? ==>
      && r.state == Some(Merge(sess.state.value, patch))
      && InSync(r)
    ensures r.user == sess.user && r.assets == sess.assets
    ensures r.store == sess.store.(questStates := r.store.questStates)
    ensures forall v :: sess.user.Some? && v != sess.user.value.username ==>
      GetQuestState(r.store, v) == GetQuestState(sess.store, v)
  {
    if sess.user.None? || sess.state.None? then sess
    else
      var updated := Merge(sess.state.value, patch);
      sess.(store := SaveQuestState(sess.store, sess.user.value.username, updated), state := Some(updated))
  }

  // ---------------------------------------------------------------- completing a subtask

  /** What a subtask control reports: a checkbox or riddle reports a
      boolean, the "Skip" button `'skipped'`, the camera and the
      screenshot upload an image with an optional position. */
  datatype SubtaskData = Flag(b: bool) | Skipped | Captured(imageDataUrl: string, location: Option<GeoReading>)

  /** `data !== false`. */
  function CompletesSubtask(data: SubtaskData): bool {
    data != Flag(false)
  }

  /** The asset `handleCompleteSubtask` saves for a captured image at
      clock reading `now`: only latitude and longitude of the reading are
      kept. */
  function NewAsset(username: string, taskId: string, subtaskId: string, url: string,
                    location: Option<GeoReading>, now: nat): (a: UserAsset)
    ensures a.id == "asset-" + username + "-" + subtaskId + "-" + NatToDecimal(now)
    ensures a.userId == username && a.taskId == taskId && a.subtaskId == subtaskId
    ensures a.timestamp == now && a.imageDataUrl == url
    ensures a.location.Some? <==> location.Some?
    ensures location.Some? ==>
      a.location.value == Coordinates(location.value.latitude, location.value.longitude)
  {
    UserAsset("asset-" + username + "-" + subtaskId + "-" + NatToDecimal(now), username, taskId, subtaskId,
              now, url, if location.Some? then Some(Coordinates(location.value.latitude, location.value.longitude)) else None)
  }

  /** `data && typeof data === 'object' && data.imageDataUrl`. */
  predicate SavesAsset(data: SubtaskData) {
    data.Captured? && data.imageDataUrl != ""
  }

  /** `handleCompleteSubtask`: a captured image is saved as an asset (and
      drawn on the map when it has a position); then every subtask
      `subtaskId` of every task `taskId` takes the flag `data !== false`,
      so `false` un-completes it. Nothing else in the quest changes. */
  function HandleCompleteSubtask(sess: Session, taskId: string, subtaskId: string, data: SubtaskData, now: nat): (r: Session)
    ensures sess.state.None? || sess.user.None? ==> r == sess
    ensures sess.state.Some? && sess.user.Some? ==>
      var st := sess.state.value;
      var u := sess.user.value.username;
      && r.state.Some?
      && var st' := r.state.value;
      && st'.currentTaskIndex == st.currentTaskIndex && st'.notifications == st.notifications
      && st'.quest.(tasks := st.quest.tasks) == st.quest
      && SameContent(st.quest.tasks, st'.quest.tasks)
      && (forall i :: 0 <= i < |st.quest.tasks| ==> st'.quest.tasks[i].isCompleted == st.quest.tasks[i].isCompleted)
      && (forall i, j :: 0 <= i < |st.quest.tasks| && 0 <= j < |st.quest.tasks[i].subTasks| ==>
            st'.quest.tasks[i].subTasks[j].isCompleted
              == if st.quest.tasks[i].id == taskId && st.quest.tasks[i].subTasks[j].id == subtaskId
                 then CompletesSubtask(data) else st.quest.tasks[i].subTasks[j].isCompleted)
      && (SavesAsset(data) ==>
            r.store.assets == sess.store.assets + [NewAsset(u, taskId, subtaskId, data.imageDataUrl, data.location, now)])
      && (!SavesAsset(data) ==> r.store.assets == sess.store.assets)
      && (SavesAsset(data) && data.location.Some? ==>
            r.assets == sess.assets + [NewAsset(u, taskId, subtaskId, data.imageDataUrl, data.location, now)])
      && (!(SavesAsset(data) && data.location.Some?) ==> r.assets == sess.assets)
    ensures InSync(sess) ==> InSync(r)
    ensures r.user == sess.user
  {
    if sess.state.None? || sess.user.None? then sess
    else
      var st := sess.state.value;
      var u := sess.user.value.username;
      var sess1 :=
        if SavesAsset(data) then
          var a := NewAsset(u, taskId, subtaskId, data.imageDataUrl, data.location, now);
          sess.(store := AssetService.SaveUserAsset(sess.store, a),
                assets := if a.location.Some? then sess.assets + [a] else sess.assets)
        else sess;
      var tasks := Progress.SetSubTaskFlag(st.quest.tasks, taskId, subtaskId, CompletesSubtask(data));
      UpdateQuestState(sess1, QuestPatch(Some(st.quest.(tasks := tasks)), None, None))
  }

  /** A wrong riddle answer un-completes the subtask, even one the player
      or an administrator had completed before. */
  lemma WrongAnswerClearsSubtask(sess: Session, taskId: string, subtaskId: string, input: string, now: nat)
    requires sess.state.Some? && sess.user.Some?
    requires var ts := sess.state.value.quest.tasks;
      FindTaskIndex(ts, taskId) < |ts|
      && FindSubTaskIndex(ts[FindTaskIndex(ts, taskId)].subTasks, subtaskId) < |ts[FindTaskIndex(ts, taskId)].subTasks|
    requires var ts := sess.state.value.quest.tasks;
      var t := ts[FindTaskIndex(ts, taskId)];
      !TaskCard.RiddleIsCorrect(input, t.subTasks[FindSubTaskIndex(t.subTasks, subtaskId)].riddleAnswer)
    ensures var ts := sess.state.value.quest.tasks;
      var t := ts[FindTaskIndex(ts, taskId)];
      var data := Flag(TaskCard.RiddleIsCorrect(input, t.subTasks[FindSubTaskIndex(t.subTasks, subtaskId)].riddleAnswer));
      !Propagation.SubTaskFlag(HandleCompleteSubtask(sess, taskId, subtaskId, data, now).state.value.quest.tasks, taskId, subtaskId)
  {
    var ts := sess.state.value.quest.tasks;
    var i := FindTaskIndex(ts, taskId);
    var j := FindSubTaskIndex(ts[i].subTasks, subtaskId);
    var after := HandleCompleteSubtask(sess, taskId, subtaskId, Flag(false), now).state.value.quest.tasks;
    Progress.SameContentSameLookups(ts, after, taskId, subtaskId);
    assert !after[i].subTasks[j].isCompleted;
  }

  // ---------------------------------------------------------------- completing a task

  /** `completionLocation` as `completeTaskWithLocation` sets it: the
      reading's position, or null when geolocation failed. */
  function CompletionAt(reading: Option<GeoReading>): (l: CompletionLocation)
    ensures l.LocatedAt? <==> reading.Some?
    ensures reading.Some? ==> l.coords == Coordinates(reading.value.latitude, reading.value.longitude)
  {
    if reading.Some? then LocatedAt(Coordinates(reading.value.latitude, reading.value.longitude)) else NullLocation
  }

  /** `handleCompleteTask`: the task at the cursor is marked complete with
      the position (the card's gate on the subtasks is not checked again),
      and the cursor moves one on. A cursor outside the list marks
      nothing but still moves. */
  function HandleCompleteTask(sess: Session, reading: Option<GeoReading>): (r: Session)
    ensures sess.state.None? || sess.user.None? ==> r == sess
    ensures sess.state.Some? && sess.user.Some? ==>
      var st := sess.state.value;
      var c := st.currentTaskIndex;
      && r.state.Some?
      && var st' := r.state.value;
      && st'.currentTaskIndex == c + 1
      && st'.notifications == st.notifications
      && st'.quest.(tasks := st.quest.tasks) == st.quest
      && |st'.quest.tasks| == |st.quest.tasks|
      && (forall i :: 0 <= i < |st.quest.tasks| && i != c ==> st'.quest.tasks[i] == st.quest.tasks[i])
      && (0 <= c < |st.quest.tasks| ==>
            st'.quest.tasks[c] == st.quest.tasks[c].(isCompleted := true, completionLocation := CompletionAt(reading)))
    ensures InSync(sess) ==> InSync(r)
    ensures r.user == sess.user && r.assets == sess.assets
  {
    if sess.state.None? || sess.user.None? then sess
    else
      var st := sess.state.value;
      var c := st.currentTaskIndex;
      var tasks := seq(|st.quest.tasks|, i requires 0 <= i < |st.quest.tasks| =>
        if i == c then st.quest.tasks[i].(isCompleted := true, completionLocation := CompletionAt(reading))
        else st.quest.tasks[i]);
      UpdateQuestState(sess, QuestPatch(Some(st.quest.(tasks := tasks)), Some(c + 1), None))
  }

  // ---------------------------------------------------------------- notifications

  /** `handleDismissNotification`: the notifications with that id are
      dropped, the rest keep their order; a missing list becomes `[]`. */
  function HandleDismissNotification(sess: Session, id: string): (r: Session)
    ensures sess.state.None? || sess.user.None? ==> r == sess
    ensures sess.state.Some? && sess.user.Some? ==>
      var st := sess.state.value;
      && r.state.Some?
      && r.state.value.quest == st.quest && r.state.value.currentTaskIndex == st.currentTaskIndex
      && r.state.value.notifications == Some(Progress.RemoveNotification(Progress.Notifications(st), id))
      && (forall n :: multiset(r.state.value.notifications.value)[n]
            == if n.id == id then 0 else multiset(Progress.Notifications(st))[n])
    ensures InSync(sess) ==> InSync(r)
    ensures r.user == sess.user && r.assets == sess.assets && r.store.assets == sess.store.assets
  {
    if sess.state.None? || sess.user.None? then sess
    else
      var ns := Progress.Notifications(sess.state.value);
      forall n ensures multiset(Progress.RemoveNotification(ns, id))[n] == if n.id == id then 0 else multiset(ns)[n] {
        Progress.RemoveNotificationCounts(ns, id, n);
      }
      UpdateQuestState(sess, QuestPatch(None, None, Some(Progress.RemoveNotification(ns, id))))
  }

  /** A dismissed notification is not shown under any subtask afterwards. */
  lemma DismissedNeverShown(sess: Session, id: string, subtaskId: string)
    requires sess.state.Some? && sess.user.Some?
    ensures var shown := TaskCard.NotificationFor(HandleDismissNotification(sess, id).state.value.notifications, subtaskId);
      shown.None? || shown.value.id != id
  {
  }

  // ---------------------------------------------------------------- the view

  datatype View =
    | Completion
    | Card(task: Task)
      /** A negative cursor: `tasks[currentTaskIndex]` is undefined, and
          the card, reading the task's fields, fails while rendering
          (`components/TaskCard.tsx`:62). No screen is produced. */
    | NoTask

  /** The branch of `renderContent` taken for a shown state: the completion
      screen once the cursor has passed the last task, the card for the
      task at the cursor otherwise. */
  function CurrentView(st: QuestState): (v: View)
    ensures v == Completion <==> st.currentTaskIndex >= |st.quest.tasks|
    ensures v.Card? <==> 0 <= st.currentTaskIndex < |st.quest.tasks|
    ensures v.Card? ==> v.task == st.quest.tasks[st.currentTaskIndex]
  {
    if st.currentTaskIndex >= |st.quest.tasks| then Completion
    else if st.currentTaskIndex < 0 then NoTask
    else Card(st.quest.tasks[st.currentTaskIndex])
  }

  /** After an administrator moves a player's cursor to a task, a fresh
      load of the player's screen shows that task. */
  lemma UnlockedTaskShown(sess: Session, i: int)
    requires sess.user.Some?
    requires var st := GetQuestState(sess.store, sess.user.value.username);
      st.Some? && 0 <= i < |st.value.quest.tasks|
    ensures var u := sess.user.value.username;
      var loaded := LoadQuest(sess.(store := AdminActions.HandleUnlockTask(sess.store, u, i)));
      CurrentView(loaded.state.value) == Card(GetQuestState(sess.store, u).value.quest.tasks[i])
  {
  }

  /** The task at the cursor is completed even when the card would have
      kept its button disabled: the gate lives only in the card. */
  lemma CompletionIgnoresGate(sess: Session, reading: Option<GeoReading>)
    requires sess.state.Some? && sess.user.Some?
    requires var st := sess.state.value; 0 <= st.currentTaskIndex < |st.quest.tasks|
    ensures var st := sess.state.value;
      var st' := HandleCompleteTask(sess, reading).state.value;
      && st'.quest.tasks[st.currentTaskIndex].isCompleted
      && st'.quest.tasks[st.currentTaskIndex].subTasks == st.quest.tasks[st.currentTaskIndex].subTasks
      && TaskCard.CompleteTaskEnabled(st'.quest.tasks[st.currentTaskIndex])
           == TaskCard.CompleteTaskEnabled(st.quest.tasks[st.currentTaskIndex])
  {
  }

  /** Completing the last task leads to the completion screen; completing
      an earlier one shows the next task. */
  lemma CompletingAdvancesView(sess: Session, reading: Option<GeoReading>)
    requires sess.state.Some? && sess.user.Some?
    requires var st := sess.state.value; 0 <= st.currentTaskIndex < |st.quest.tasks|
    ensures var st := sess.state.value;
      var st' := HandleCompleteTask(sess, reading).state.value;
      CurrentView(st') == if st.currentTaskIndex + 1 == |st.quest.tasks| then Completion
                          else Card(st.quest.tasks[st.currentTaskIndex + 1])
  {
  }

  /** A state that went through propagation always has something to show:
      the cursor is never negative afterwards. */
  lemma PropagatedStateRenders(master: Quest, prev: Option<QuestState>)
    ensures CurrentView(Propagation.Propagated(master, prev)) != NoTask
  {
  }
}
