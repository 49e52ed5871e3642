/** The edit-task dialog: the form it opens with and the update body it sends. */
module EditTaskModal {
  import opened Wrappers
  import opened Seqs
  import opened Store
  import opened Tasks

  /** The dialog's state; empty strings stand for "no value", and a `None`
      assignee for the `null` of the "unassigned" choice. */
  datatype Form = Form(
    title: string,
    description: string,
    status: Option<Status>,
    assigneeId: Option<int>,
    projectId: int,
    deadline: string)

  /** The form a task opens with: missing text becomes `""`, a falsy assignee `null`. */
  function InitForm(t: Task): (f: Form)
    ensures f.title == t.title && f.projectId == t.projectId && f.status == Some(t.status)
    ensures f.assigneeId.None? <==> !TruthyId(t.assigneeId)
    ensures TruthyId(t.assigneeId) ==> f.assigneeId == t.assigneeId
    ensures f.description == "" <==> !TruthyText(t.description)
    ensures TruthyText(t.description) ==> f.description == t.description.value
    ensures f.deadline == "" <==> !TruthyText(t.deadline)
    ensures TruthyText(t.deadline) ==> f.deadline == t.deadline.value
  {
    Form(t.title, t.description.GetOr(""), Some(t.status), IdOrAbsent(t.assigneeId),
         t.projectId, t.deadline.GetOr(""))
  }

  /** `submitEditTask`'s body: title and project as they are, a falsy status as
      PENDING, empty text as absent, and a `null` assignee as absent, which the
      server reads as "keep". */
  function Payload(f: Form): (p: TaskPatch)
    ensures p.title == Some(f.title) && p.projectId == Some(f.projectId)
    ensures p.status == Some(f.status.GetOr(Pending))
    ensures f.description == "" <==> p.description.None?
    ensures f.description != "" ==> p.description == Some(f.description)
    ensures f.deadline == "" <==> p.deadline.None?
    ensures f.deadline != "" ==> p.deadline == Some(f.deadline)
    ensures f.assigneeId.None? <==> p.assignee == Keep
    ensures f.assigneeId.Some? ==> p.assignee == AssignTo(f.assigneeId.value)
    ensures !p.assignee.Clear?
  {
    TaskPatch(
      Some(f.title),
      if f.description != "" then Some(f.description) else None,
      Some(f.status.GetOr(Pending)),
      if f.deadline != "" then Some(f.deadline) else None,
      Some(f.projectId),
      match f.assigneeId
      case None => Keep
      case Some(x) => AssignTo(x))
  }

  /** Whatever the form holds, saving it never leaves an assigned task unassigned. */
  lemma EditNeverClearsAssignee(s: Store, id: int, f: Form)
    requires Update(s, id, Payload(f)).Ok?
    ensures var i := TaskIndex(s.tasks, id).value;
            s.tasks[i].assigneeId.Some? ==> Update(s, id, Payload(f)).value.tasks[i].assigneeId.Some?
  {
  }

  /** Saving a form exactly as it opened changes nothing and notifies nobody. */
  lemma SaveUnchangedFormIsNoOp(s: Store, t: Task)
    requires Wf(s) && t in s.tasks
    ensures Update(s, t.id, Payload(InitForm(t))) == Ok(s)
  {
    var j :| 0 <= j < |s.tasks| && s.tasks[j] == t;
    var i := TaskIndex(s.tasks, t.id).value;
    IncreasingUnique(s.tasks, TaskId, i, j);
    var p := Payload(InitForm(t));
    assert ApplyPatch(t, p) == t;
    assert AssigneeNotice(t.assigneeId, p.assignee) == [];
    assert s.tasks[i := t] == s.tasks;
  }
}
