/** The task service: creation and edits of single tasks, status changes, and
    the notifications those writes trigger. */
module Tasks {
  import opened Wrappers
  import opened Seqs
  import opened Store
  import opened Notifications

  /** The body of `POST /tasks`. */
  datatype NewTask = NewTask(
    title: string,
    description: Option<string>,
    status: Option<Status>,
    deadline: Option<string>,
    projectId: int,
    assigneeId: Option<int>)

  /** The `assigneeId` of an update body: absent, an explicit `null`, or an id. */
  datatype AssigneePatch = Keep | Clear | AssignTo(id: int)

  /** The body of `PUT /tasks/:id` (`UpdateTaskDto`); `None` is an absent field. */
  datatype TaskPatch = TaskPatch(
    title: Option<string>,
    description: Option<string>,
    status: Option<Status>,
    deadline: Option<string>,
    projectId: Option<int>,
    assignee: AssigneePatch)

  /** The row `createTask` inserts under the given id. */
  function NewRow(id: int, data: NewTask): Task
  {
    Task(id, data.title, TextOrAbsent(data.description), data.status.GetOr(Pending),
         TextOrAbsent(data.deadline), data.projectId, IdOrAbsent(data.assigneeId))
  }

  /** `createTask`: the new row gets the supplied status or PENDING, and the
      supplied assignee is told, iff the assignee id is truthy. */
  function CreateTask(s: Store, data: NewTask): (s': Store)
    ensures |s'.tasks| == |s.tasks| + 1 && s'.tasks[..|s.tasks|] == s.tasks
    ensures var t := s'.tasks[|s.tasks|];
      && t.id == s.nextId
      && t.title == data.title
      && t.projectId == data.projectId
      && (data.status.None? ==> t.status == Pending)
      && (data.status.Some? ==> t.status == data.status.value)
      && (TruthyId(data.assigneeId) ==> t.assigneeId == data.assigneeId)
      && (!TruthyId(data.assigneeId) ==> t.assigneeId == None)
      && (!TruthyText(data.description) ==> t.description == None)
      && (TruthyText(data.description) ==> t.description == data.description)
      && (!TruthyText(data.deadline) ==> t.deadline == None)
      && (TruthyText(data.deadline) ==> t.deadline == data.deadline)
    ensures OnlyAppended(s.(tasks := s'.tasks), s')
    ensures Announces(Emitted(s, s'), if TruthyId(data.assigneeId) then [data.assigneeId.value] else [],
                      Assigned(data.title), Some(s.nextId), Some(data.projectId))
  {
    var t := NewRow(s.nextId, data);
    var s1 := s.(tasks := s.tasks + [t], nextId := s.nextId + 1);
    assert s1.tasks[..|s.tasks|] == s.tasks;
    if TruthyId(data.assigneeId) then
      NotifyAssigneeTaskAssigned(s1, t.id, t.projectId, t.title, data.assigneeId.value)
    else s1
  }

  /** Prisma's `update` with `{ ...data, deadline: data.deadline ? .. : undefined }`:
      absent fields keep their stored value, an empty deadline counts as absent,
      an explicit `null` assignee clears it, and the id never changes. */
  function ApplyPatch(t: Task, p: TaskPatch): (r: Task)
    ensures r.id == t.id
    ensures p.title.None? ==> r.title == t.title
    ensures p.title.Some? ==> r.title == p.title.value
    ensures p.description.None? ==> r.description == t.description
    ensures p.description.Some? ==> r.description == p.description
    ensures p.status.None? ==> r.status == t.status
    ensures p.status.Some? ==> r.status == p.status.value
    ensures !TruthyText(p.deadline) ==> r.deadline == t.deadline
    ensures TruthyText(p.deadline) ==> r.deadline == p.deadline
    ensures p.projectId.None? ==> r.projectId == t.projectId
    ensures p.projectId.Some? ==> r.projectId == p.projectId.value
    ensures p.assignee.Keep? ==> r.assigneeId == t.assigneeId
    ensures p.assignee.Clear? ==> r.assigneeId == None
    ensures p.assignee.AssignTo? ==> r.assigneeId == Some(p.assignee.id)
  {
    Task(
      t.id,
      p.title.GetOr(t.title),
      if p.description.Some? then p.description else t.description,
      p.status.GetOr(t.status),
      if TruthyText(p.deadline) then p.deadline else t.deadline,
      p.projectId.GetOr(t.projectId),
      match p.assignee
      case Keep => t.assigneeId
      case Clear => None
      case AssignTo(x) => Some(x))
  }

  /** Whom `update` notifies: the new assignee, iff the body's `assigneeId` is
      truthy and differs from the stored one; never the previous assignee. */
  function AssigneeNotice(previous: Option<int>, p: AssigneePatch): (r: seq<int>)
    ensures |r| <= 1
    ensures |r| == 1 <==> p.AssignTo? && p.id != 0 && previous != Some(p.id)
    ensures |r| == 1 ==> r[0] == p.id && previous != Some(r[0])
  {
    match p
    case AssignTo(x) => if x != 0 && previous != Some(x) then [x] else []
    case _ => []
  }

  /** `update`: a missing id throws before any write; otherwise the one row is
      patched and the new assignee, if any, is told. */
  function Update(s: Store, id: int, patch: TaskPatch): (r: Result<Store, Error>)
    ensures r.Err? <==> forall i :: 0 <= i < |s.tasks| ==> s.tasks[i].id != id
    ensures r.Err? ==> r.error == NotFound
    ensures r.Ok? ==> TaskIndex(s.tasks, id).Some?
    ensures r.Ok? ==>
              var i := TaskIndex(s.tasks, id).value;
              r.value.tasks == s.tasks[i := ApplyPatch(s.tasks[i], patch)]
    ensures r.Ok? ==> OnlyAppended(s.(tasks := r.value.tasks), r.value)
    ensures r.Ok? ==>
              var before := s.tasks[TaskIndex(s.tasks, id).value];
              var after := ApplyPatch(before, patch);
              Announces(Emitted(s, r.value), AssigneeNotice(before.assigneeId, patch.assignee),
                        Assigned(after.title), Some(after.id), Some(after.projectId))
  {
    match TaskIndex(s.tasks, id)
    case None => Err(NotFound)
    case Some(i) =>
      var before := s.tasks[i];
      var after := ApplyPatch(before, patch);
      var s1 := s.(tasks := s.tasks[i := after]);
      var notice := AssigneeNotice(before.assigneeId, patch.assignee);
      if |notice| == 1 then
        Ok(NotifyAssigneeTaskAssigned(s1, after.id, after.projectId, after.title, notice[0]))
      else Ok(s1)
  }

  /** Reassigning notifies exactly once, to the new assignee; keeping, clearing or
      leaving out the assignee notifies nobody. */
  lemma {:induction false} UpdateNotifiesOnlyNewAssignee(s: Store, id: int, patch: TaskPatch)
    requires Update(s, id, patch).Ok?
    ensures var before := s.tasks[TaskIndex(s.tasks, id).value];
            var ns := Emitted(s, Update(s, id, patch).value);
            && (|ns| == 1 <==> patch.assignee.AssignTo? && patch.assignee.id != 0
                                && before.assigneeId != Some(patch.assignee.id))
            && (|ns| != 1 ==> |ns| == 0)
            && forall k :: 0 <= k < |ns| ==>
                 ns[k].userId == patch.assignee.id && Some(ns[k].userId) != before.assigneeId
  {
    var before := s.tasks[TaskIndex(s.tasks, id).value];
    var notice := AssigneeNotice(before.assigneeId, patch.assignee);
    var ns := Emitted(s, Update(s, id, patch).value);
    assert |ns| == |notice|;
    forall k | 0 <= k < |ns|
      ensures ns[k].userId == patch.assignee.id && Some(ns[k].userId) != before.assigneeId
    {
      assert ns[k].userId == notice[k];
    }
  }

  /** `Object.values(TaskStatus).includes(status)`. */
  function ParseStatus(name: string): (r: Option<Status>)
    ensures r.Some? <==> name == "PENDING" || name == "IN_PROGRESS" || name == "DONE"
    ensures r.Some? ==> StatusName(r.value) == name
  {
    if name == "PENDING" then Some(Pending)
    else if name == "IN_PROGRESS" then Some(InProgress)
    else if name == "DONE" then Some(Done)
    else None
  }

  /** Every status survives the trip through its wire name. */
  lemma ParseStatusName(st: Status)
    ensures ParseStatus(StatusName(st)) == Some(st)
  {
  }

  /** `updateTaskStatus`: an unknown status fails before anything else, and so
      does a missing task; a known status on a stored task always succeeds, sets
      that task's status, then every admin (and nobody else) is told. */
  function UpdateTaskStatus(s: Store, taskId: int, status: string): (r: Result<Store, Error>)
    ensures ParseStatus(status).None? ==> r == Err(InvalidStatus)
    ensures ParseStatus(status).Some? && TaskIndex(s.tasks, taskId).None? ==> r == Err(NotFound)
    ensures r.Ok? ==> ParseStatus(status).Some? && TaskIndex(s.tasks, taskId).Some?
    ensures r.Err? <==> ParseStatus(status).None? || forall i :: 0 <= i < |s.tasks| ==> s.tasks[i].id != taskId
    ensures r.Ok? ==>
              var i := TaskIndex(s.tasks, taskId).value;
              r.value.tasks == s.tasks[i := s.tasks[i].(status := ParseStatus(status).value)]
    ensures r.Ok? ==> OnlyAppended(s.(tasks := r.value.tasks), r.value)
    ensures r.Ok? ==>
              var t := s.tasks[TaskIndex(s.tasks, taskId).value];
              Announces(Emitted(s, r.value), AdminIds(s.users), StatusChanged(t.title, ParseStatus(status).value),
                        Some(taskId), Some(t.projectId))
  {
    match ParseStatus(status)
    case None => Err(InvalidStatus)
    case Some(st) =>
      match TaskIndex(s.tasks, taskId)
      case None => Err(NotFound)
      case Some(i) =>
        var t := s.tasks[i].(status := st);
        var s1 := s.(tasks := s.tasks[i := t]);
        Ok(NotifyAdminsForTaskStatusChange(s1, t.id, t.projectId, t.title, st))
  }

  /** `getTaskById`. */
  function GetTaskById(s: Store, id: int): (r: Result<Task, Error>)
    ensures r.Err? <==> forall i :: 0 <= i < |s.tasks| ==> s.tasks[i].id != id
    ensures r.Err? ==> r.error == NotFound
    ensures r.Ok? ==> r.value in s.tasks && r.value.id == id
  {
    match TaskIndex(s.tasks, id)
    case None => Err(NotFound)
    case Some(i) => Ok(s.tasks[i])
  }

  /** `deleteTask`: a missing id throws; otherwise one row goes and nothing else changes. */
  function DeleteTask(s: Store, id: int): (r: Result<Store, Error>)
    ensures r.Err? <==> forall i :: 0 <= i < |s.tasks| ==> s.tasks[i].id != id
    ensures r.Ok? ==> r.value == s.(tasks := r.value.tasks)
    ensures r.Ok? ==> |r.value.tasks| == |s.tasks| - 1
    ensures r.Ok? ==> forall t :: t in r.value.tasks ==> t in s.tasks
  {
    match TaskIndex(s.tasks, id)
    case None => Err(NotFound)
    case Some(i) =>
      var rest := s.tasks[..i] + s.tasks[i + 1..];
      assert forall t :: t in rest ==> t in s.tasks[..i] || t in s.tasks[i + 1..];
      Ok(s.(tasks := rest))
  }

  /** With unique ids, deleting removes exactly the tasks carrying that id. */
  lemma DeleteTaskRemovesExactlyIt(s: Store, id: int)
    requires Wf(s)
    requires DeleteTask(s, id).Ok?
    ensures forall t :: t in s.tasks ==> (t in DeleteTask(s, id).value.tasks <==> t.id != id)
  {
    var i := TaskIndex(s.tasks, id).value;
    var rest := DeleteTask(s, id).value.tasks;
    assert rest == s.tasks[..i] + s.tasks[i + 1..];
    forall k | 0 <= k < |rest|
      ensures rest[k].id != id
    {
      var j := if k < i then k else k + 1;
      assert rest[k] == s.tasks[j] && j != i;
    }
    forall j | 0 <= j < |s.tasks| && s.tasks[j].id != id
      ensures s.tasks[j] in rest
    {
      if j < i {
        assert rest[j] == s.tasks[j];
      } else {
        assert rest[j - 1] == s.tasks[j];
      }
    }
  }

  /** Creating a task keeps the store well formed. */
  lemma CreateTaskKeepsWf(s: Store, data: NewTask)
    requires Wf(s)
    ensures Wf(CreateTask(s, data))
  {
    var t := NewRow(s.nextId, data);
    var s1 := s.(tasks := s.tasks + [t], nextId := s.nextId + 1);
    AddTaskKeepsWf(s, t);
    if TruthyId(data.assigneeId) {
      CreateNotificationsKeepsWf(s1, [data.assigneeId.value], Assigned(t.title), Some(t.id), Some(t.projectId));
      assert CreateTask(s, data) == CreateNotificationsForUsers(s1, [data.assigneeId.value], Assigned(t.title), Some(t.id), Some(t.projectId));
    } else {
      assert CreateTask(s, data) == s1;
    }
  }

  /** Patching a task keeps the store well formed. */
  lemma UpdateKeepsWf(s: Store, id: int, patch: TaskPatch)
    requires Wf(s)
    requires Update(s, id, patch).Ok?
    ensures Wf(Update(s, id, patch).value)
  {
    var i := TaskIndex(s.tasks, id).value;
    var after := ApplyPatch(s.tasks[i], patch);
    KeyedSameKeys(s.tasks, s.tasks[i := after], TaskId, s.nextId, s.nextId);
    var s1 := s.(tasks := s.tasks[i := after]);
    var notice := AssigneeNotice(s.tasks[i].assigneeId, patch.assignee);
    if |notice| == 1 {
      CreateNotificationsKeepsWf(s1, [notice[0]], Assigned(after.title), Some(after.id), Some(after.projectId));
    }
  }

  /** Changing a task's status keeps the store well formed. */
  lemma UpdateTaskStatusKeepsWf(s: Store, id: int, status: string)
    requires Wf(s)
    requires UpdateTaskStatus(s, id, status).Ok?
    ensures Wf(UpdateTaskStatus(s, id, status).value)
  {
    var i := TaskIndex(s.tasks, id).value;
    var st := ParseStatus(status).value;
    var changed := s.tasks[i].(status := st);
    KeyedSameKeys(s.tasks, s.tasks[i := changed], TaskId, s.nextId, s.nextId);
    var s1 := s.(tasks := s.tasks[i := changed]);
    CreateNotificationsKeepsWf(s1, AdminIds(s1.users), StatusChanged(changed.title, st),
                               Some(changed.id), Some(changed.projectId));
  }

  /** Deleting a task keeps the store well formed. */
  lemma DeleteTaskKeepsWf(s: Store, id: int)
    requires Wf(s)
    requires DeleteTask(s, id).Ok?
    ensures Wf(DeleteTask(s, id).value)
  {
    KeyedRemoveAt(s.tasks, TaskIndex(s.tasks, id).value, TaskId, s.nextId);
  }
}
