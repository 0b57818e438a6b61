/** The master quest template: the single canonical quest the
    administrator edits (`services/masterQuestService.ts`, first half).
    The propagation half of that file is the module `Propagation`. */
module MasterTemplate {
  import opened Wrappers
  import opened Types
  import opened Storage
  import opened QuestTree

  /** Seeded on first use so that the editor is never empty. */
  const DefaultMasterQuest: Quest := Quest(
    "master-quest-static-default",
    "The Silent Forest's Secret",
    "A mysterious silence has fallen over the once-lively forest. Uncover the secrets hidden within its ancient heart. This is a default quest template for the administrator to edit.",
    [ Task(
        "task-default-1",
        "The Whispering Leaves",
        "I speak without a mouth and hear without ears. I have no body, but I come alive with wind. What am I?",
        false,
        [ SubTask("subtask-default-1-1", "Find a tree with whispering leaves and mark it as found.", Checkbox, None, false),
          SubTask("subtask-default-1-2", "Solve the riddle of the wind.", RiddleKind, Some("An echo"), false) ],
        NoLocation),
      Task(
        "task-default-2",
        "The Sunken Stone",
        "Find a stone that weeps by the river's edge, marked with the symbol of a crescent moon.",
        false,
        [ SubTask("subtask-default-2-1", "Take a photo of the crescent moon symbol on the stone.", Photo, None, false),
          SubTask("subtask-default-2-2", "Confirm you have found the sunken stone.", Checkbox, None, false) ],
        NoLocation) ])

  function SaveMasterQuest(s: Store, q: Quest): Store {
    s.(master := Some(q))
  }

  /** Returns the stored template, seeding the default first when there is
      none. */
  function InitializeMasterQuest(s: Store): (r: (Store, Quest))
    ensures r.0.master == Some(r.1)
    ensures r.0 == s.(master := r.0.master)
    ensures s.master.Some? ==> r.0 == s && r.1 == s.master.value
    ensures s.master.None? ==> r.1 == DefaultMasterQuest
  {
    match s.master
    case Some(q) => (s, q)
    case None => (SaveMasterQuest(s, DefaultMasterQuest), DefaultMasterQuest)
  }

  /** A second initialisation finds the template the first one left. */
  lemma InitializeIdempotent(s: Store)
    ensures InitializeMasterQuest(InitializeMasterQuest(s).0) == InitializeMasterQuest(s)
  {
  }

  /** The seeded template has distinct task ids and distinct subtask ids. */
  lemma DefaultHasUniqueIds()
    ensures UniqueIds(DefaultMasterQuest.tasks)
  {
    var ts := DefaultMasterQuest.tasks;
    assert ts[0].id[13] != ts[1].id[13];
    assert ts[0].subTasks[0].id[18] != ts[0].subTasks[1].id[18];
    assert ts[1].subTasks[0].id[18] != ts[1].subTasks[1].id[18];
  }
}
