/** The rules the task card (`components/TaskCard.tsx`) applies on the
    player's screen: the riddle check and its submit button, the gate on
    "Complete Task", the Help button and the notification shown under a
    subtask. */
module TaskCard {
  import opened Wrappers
  import opened Types
  import opened Text
  import opened QuestTree
  import Progress

  // ---------------------------------------------------------------- the riddle

  /** `checkAnswer`: the player's input, trimmed and lower-cased, against
      the stored answer lower-cased but not trimmed; a subtask without an
      answer accepts nothing. An accepted answer therefore never has
      whitespace at either end. */
  function RiddleIsCorrect(input: string, answer: Option<string>): (r: bool)
    ensures r ==> answer.Some? && Trimmed(answer.value)
  {
    var given := ToLower(Trim(input));
    LowerTrimmed(Trim(input));
    if answer.None? then false
    else
      LowerTrimmed(answer.value);
      given == ToLower(answer.value)
  }

  /** A subtask whose answer is missing can never be solved. */
  lemma MissingAnswerNeverCorrect(input: string)
    ensures !RiddleIsCorrect(input, None)
  {
  }

  /** An answer stored with whitespace around it is refused whatever the
      player types, because only the input is trimmed. */
  lemma PaddedAnswerNeverCorrect(input: string, answer: string)
    requires !Trimmed(answer)
    ensures !RiddleIsCorrect(input, Some(answer))
  {
  }

  /** Whitespace around the player's input and the case of its letters do
      not matter. */
  lemma InputNormalised(input: string, answer: Option<string>)
    ensures RiddleIsCorrect(Trim(input), answer) == RiddleIsCorrect(input, answer)
    ensures RiddleIsCorrect(ToLower(input), answer) == RiddleIsCorrect(input, answer)
  {
    TrimIdempotent(input);
    TrimLower(input);
    LowerIdempotent(Trim(input));
  }

  /** Typing the stored answer back is accepted exactly when the stored
      answer has no surrounding whitespace. */
  lemma StoredAnswerAccepted(answer: string)
    ensures RiddleIsCorrect(answer, Some(answer)) <==> Trimmed(answer)
  {
    if Trimmed(answer) {
      var trimmed := Trim(answer);
      assert trimmed == answer;
      assert ToLower(trimmed) == ToLower(answer);
    }
  }

  /** `disabled={isCorrect || !answer}`: only the empty string keeps the
      button disabled before the answer is found. */
  function SubmitEnabled(isCorrect: bool, input: string): (r: bool)
    ensures r ==> |input| > 0
    ensures isCorrect ==> !r
    ensures r <==> !isCorrect && |input| > 0
  {
    !isCorrect && input != ""
  }

  /** A non-empty input of nothing but whitespace can be submitted, and is
      accepted only when the stored answer is the empty string. */
  lemma BlankInputSubmittable(input: string, answer: string)
    requires |input| > 0 && AllWhitespace(input)
    ensures SubmitEnabled(false, input)
    ensures RiddleIsCorrect(input, Some(answer)) <==> answer == ""
  {
  }

  // ---------------------------------------------------------------- the completion gate

  /** `task.subTasks.every(st => st.isCompleted)`, true for a task without
      subtasks. */
  function AllSubtasksCompleted(subTasks: seq<SubTask>): (r: bool)
    ensures r <==> forall j :: 0 <= j < |subTasks| ==> subTasks[j].isCompleted
  {
    subTasks == [] || (subTasks[0].isCompleted && AllSubtasksCompleted(subTasks[1..]))
  }

  /** The "Complete Task" button is enabled. */
  predicate CompleteTaskEnabled(t: Task) {
    AllSubtasksCompleted(t.subTasks)
  }

  /** The Help button is rendered for a subtask. */
  predicate HelpVisible(st: SubTask) {
    !st.isCompleted
  }

  /** The task can be completed exactly when no subtask still offers Help;
      a task without subtasks can always be completed. */
  lemma CompleteIffNoHelp(t: Task)
    ensures CompleteTaskEnabled(t) <==> forall j :: 0 <= j < |t.subTasks| ==> !HelpVisible(t.subTasks[j])
    ensures t.subTasks == [] ==> CompleteTaskEnabled(t)
  {
  }

  /** Progress never closes the gate again. */
  lemma GateStaysOpen(before: seq<Task>, after: seq<Task>, i: nat)
    requires Progress.Progressed(before, after) && i < |before|
    requires CompleteTaskEnabled(before[i])
    ensures CompleteTaskEnabled(after[i])
  {
    assert SameTaskContent(before[i], after[i]);
  }

  /** Unticking a subtask of a task closes that task's gate. */
  lemma UntickClosesGate(tasks: seq<Task>, i: nat, j: nat)
    requires i < |tasks| && j < |tasks[i].subTasks|
    ensures var r := Progress.SetSubTaskFlag(tasks, tasks[i].id, tasks[i].subTasks[j].id, false);
      !CompleteTaskEnabled(r[i])
  {
    var r := Progress.SetSubTaskFlag(tasks, tasks[i].id, tasks[i].subTasks[j].id, false);
    assert !r[i].subTasks[j].isCompleted;
  }

  // ---------------------------------------------------------------- notifications

  /** `notifications?.find(n => n.subtaskId === subtask.id)`: the first
      notification about the subtask, if any. */
  function NotificationFor(ns: Option<seq<UnlockNotification>>, sid: string): (r: Option<UnlockNotification>)
    ensures r.None? <==> ns.None? || forall k :: 0 <= k < |ns.value| ==> ns.value[k].subtaskId != sid
    ensures r.Some? ==> r.value.subtaskId == sid && exists k ::
      (0 <= k < |ns.value| && ns.value[k] == r.value && forall m :: 0 <= m < k ==> ns.value[m].subtaskId != sid)
  {
    if ns.None? then None else FirstAbout(ns.value, sid)
  }

  function FirstAbout(ns: seq<UnlockNotification>, sid: string): (r: Option<UnlockNotification>)
    ensures r.None? <==> forall k :: 0 <= k < |ns| ==> ns[k].subtaskId != sid
    ensures r.Some? ==> r.value.subtaskId == sid && exists k ::
      (0 <= k < |ns| && ns[k] == r.value && forall m :: 0 <= m < k ==> ns[m].subtaskId != sid)
  {
    if ns == [] then None
    else if ns[0].subtaskId == sid then Some(ns[0])
    else
      var r := FirstAbout(ns[1..], sid);
      if r.Some? then
        var k :| 0 <= k < |ns[1..]| && ns[1..][k] == r.value && forall m :: 0 <= m < k ==> ns[1..][m].subtaskId != sid;
        assert ns[k + 1] == r.value;
        r
      else
        r
  }

  /** A notification appended behind the existing ones is shown only when
      none about the same subtask was there before. */
  lemma {:induction false} AppendedNotificationShown(ns: seq<UnlockNotification>, n: UnlockNotification)
    ensures NotificationFor(Some(ns + [n]), n.subtaskId)
      == if NotificationFor(Some(ns), n.subtaskId).Some? then NotificationFor(Some(ns), n.subtaskId) else Some(n)
  {
    if ns != [] {
      assert (ns + [n])[1..] == ns[1..] + [n];
      AppendedNotificationShown(ns[1..], n);
    }
  }
}
