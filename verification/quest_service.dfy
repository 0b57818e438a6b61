/** Per-user quest state persistence (`services/questService.ts`). Each
    player's state lives under the key `treasure-quest-state-<username>`. */
module QuestService {
  import opened Wrappers
  import opened Types
  import opened Storage
  import opened QuestTree
  import MasterTemplate
  import ActivityService

  function GetQuestState(s: Store, username: string): Option<QuestState> {
    var key := QuestStateKey(username);
    if key in s.questStates then Some(s.questStates[key]) else None
  }

  /** Writes one player's state; nobody else's state and no other key
      changes. */
  function SaveQuestState(s: Store, username: string, st: QuestState): (s': Store)
    ensures GetQuestState(s', username) == Some(st)
    ensures forall v :: v != username ==> GetQuestState(s', v) == GetQuestState(s, v)
    ensures s' == s.(questStates := s'.questStates)
  {
    var s' := s.(questStates := s.questStates[QuestStateKey(username) := st]);
    forall v | v != username ensures GetQuestState(s', v) == GetQuestState(s, v) {
      if QuestStateKey(v) == QuestStateKey(username) {
        PrefixedKeyInjective(QuestStatePrefix, v, username);
      }
    }
    s'
  }

  /** `st` is a new session on the template `master`: the same quest with
      the same tasks in the same order, nothing done, the cursor on the
      first task and no notifications. */
  predicate FreshFrom(st: QuestState, master: Quest) {
    && st.quest.(tasks := master.tasks) == master
    && SameContent(master.tasks, st.quest.tasks) && NoProgress(st.quest.tasks)
    && st.currentTaskIndex == 0 && st.notifications == Some([])
  }

  /** The template a new session starts from: the stored one, or the
      default that `initializeMasterQuest` seeds. */
  function TemplateAfterCreate(s: Store): Quest {
    s.master.GetOr(MasterTemplate.DefaultMasterQuest)
  }

  /** A new session for `username`: the template (seeded if missing) with
      every flag cleared, cursor 0 and an empty notification list, stored
      and returned. */
  function CreateNewQuestState(s: Store, username: string): (r: (Store, QuestState))
    ensures r.0.master.Some?
    ensures s.master.Some? ==> r.0.master == s.master
    ensures s.master.None? ==> r.0.master == Some(MasterTemplate.DefaultMasterQuest)
    ensures r.1.quest.(tasks := r.0.master.value.tasks) == r.0.master.value
    ensures SameContent(r.0.master.value.tasks, r.1.quest.tasks) && NoProgress(r.1.quest.tasks)
    ensures r.1.currentTaskIndex == 0 && r.1.notifications == Some([])
    ensures r.0.master == Some(TemplateAfterCreate(s)) && FreshFrom(r.1, TemplateAfterCreate(s))
    ensures GetQuestState(r.0, username) == Some(r.1)
    ensures forall v :: v != username ==> GetQuestState(r.0, v) == GetQuestState(s, v)
    ensures r.0 == s.(master := r.0.master, questStates := r.0.questStates)
  {
    var (s1, master) := MasterTemplate.InitializeMasterQuest(s);
    var st := QuestState(ClearProgress(master), 0, Some([]));
    (SaveQuestState(s1, username, st), st)
  }

  /** Deletes the player's state and, with it, their activity record. */
  function ResetQuestState(s: Store, username: string): (s': Store)
    ensures GetQuestState(s', username) == None
    ensures forall v :: v != username ==> GetQuestState(s', v) == GetQuestState(s, v)
    ensures ActivityKey(username) !in s'.activity
    ensures forall k :: k != ActivityKey(username) ==>
      (k in s'.activity <==> k in s.activity) && (k in s.activity ==> s'.activity[k] == s.activity[k])
    ensures s' == s.(questStates := s'.questStates, activity := s'.activity)
  {
    var s1 := s.(questStates := s.questStates - {QuestStateKey(username)});
    forall v | v != username ensures GetQuestState(s1, v) == GetQuestState(s, v) {
      if QuestStateKey(v) == QuestStateKey(username) {
        PrefixedKeyInjective(QuestStatePrefix, v, username);
      }
    }
    ActivityService.ResetActivityData(s1, username)
  }

  /** The state read back is the state saved; a name never saved reads as
      absent. */
  lemma SaveThenGet(s: Store, username: string, st: QuestState)
    ensures GetQuestState(SaveQuestState(s, username, st), username) == Some(st)
    ensures GetQuestState(EmptyStore, username) == None
  {
  }

  /** A new session copies the template's ids, order and content exactly. */
  lemma CreatePreservesTemplate(s: Store, username: string)
    ensures var r := CreateNewQuestState(s, username);
      && TaskIds(r.1.quest.tasks) == TaskIds(r.0.master.value.tasks)
      && r.1.quest.tasks == ClearTasks(r.0.master.value.tasks)
  {
    var r := CreateNewQuestState(s, username);
    ClearedCopyUnique(r.0.master.value.tasks, r.1.quest.tasks);
  }
}
