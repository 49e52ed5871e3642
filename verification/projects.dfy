/** The project service: projects with nested task writes, the per-role listing,
    finishing (which tells the assignees) and deletion. */
module Projects {
  import opened Wrappers
  import opened Seqs
  import opened Store
  import opened Notifications

  /** One element of a nested `tasks.create` list. */
  datatype TaskSpec = TaskSpec(
    title: string,
    description: Option<string>,
    status: Option<Status>,
    deadline: Option<string>,
    assigneeId: Option<int>)

  /** One element of the nested `tasks.update` list of `updateProject`. */
  datatype TaskEdit = TaskEdit(id: int, spec: TaskSpec)

  /** The nested `tasks` object of `updateProject`; an absent list is the empty one.
      The three lists are applied in the order delete, create, update. */
  datatype Delta = Delta(delete: seq<int>, create: seq<TaskSpec>, update: seq<TaskEdit>)

  /** The body of `POST /projects`; its tasks are handed to the database as sent. */
  datatype NewProject = NewProject(
    name: string,
    description: Option<string>,
    deadline: Option<string>,
    tasks: seq<TaskSpec>)

  /** The body of `PUT /projects/:id`. */
  datatype ProjectPatch = ProjectPatch(
    name: Option<string>,
    description: Option<string>,
    deadline: Option<string>,
    tasks: Delta)

  /** A project together with its tasks (`include: { tasks: .. }`). */
  datatype Listed = Listed(project: Project, tasks: seq<Task>)

  function ListedId(v: Listed): int { v.project.id }

  /** A nested create of `createProject`: only the column default fills in the status. */
  function RawTask(spec: TaskSpec, id: int, projectId: int): (t: Task)
    ensures t.id == id && t.projectId == projectId && t.title == spec.title
    ensures t.description == spec.description && t.deadline == spec.deadline && t.assigneeId == spec.assigneeId
    ensures spec.status.None? ==> t.status == Pending
    ensures spec.status.Some? ==> t.status == spec.status.value
  {
    Task(id, spec.title, spec.description, spec.status.GetOr(Pending), spec.deadline, projectId, spec.assigneeId)
  }

  /** `createProject`: one project row and its nested tasks; nobody is notified,
      whoever the nested tasks are assigned to. */
  function CreateProject(s: Store, data: NewProject): (s': Store)
    ensures |s'.projects| == |s.projects| + 1 && s'.projects[..|s.projects|] == s.projects
    ensures var p := s'.projects[|s.projects|];
      && p.id == s.nextId && p.name == data.name && p.description == data.description && !p.finished
      && (!TruthyText(data.deadline) ==> p.deadline == None)
      && (TruthyText(data.deadline) ==> p.deadline == data.deadline)
    ensures |s'.tasks| == |s.tasks| + |data.tasks| && s'.tasks[..|s.tasks|] == s.tasks
    ensures forall k :: 0 <= k < |data.tasks| ==>
              s'.tasks[|s.tasks| + k] == RawTask(data.tasks[k], s.nextId + 1 + k, s.nextId)
    ensures s'.users == s.users && s'.reports == s.reports && s'.notifications == s.notifications
  {
    var p := Project(s.nextId, data.name, data.description, TextOrAbsent(data.deadline), false, s.nextId);
    var rows := seq(|data.tasks|, k requires 0 <= k < |data.tasks| => RawTask(data.tasks[k], s.nextId + 1 + k, s.nextId));
    assert (s.projects + [p])[..|s.projects|] == s.projects;
    assert (s.tasks + rows)[..|s.tasks|] == s.tasks;
    s.(projects := s.projects + [p], tasks := s.tasks + rows, nextId := s.nextId + 1 + |data.tasks|)
  }

  lemma CreateProjectKeepsWf(s: Store, data: NewProject)
    requires Wf(s)
    ensures Wf(CreateProject(s, data))
  {
    var s' := CreateProject(s, data);
    var p := s'.projects[|s.projects|];
    var rows := s'.tasks[|s.tasks|..];
    assert s'.projects == s.projects + [p];
    assert s'.tasks == s.tasks + rows;
    forall k | 0 <= k < |rows|
      ensures rows[k].id == s.nextId + 1 + k
    {
      assert rows[k] == s'.tasks[|s.tasks| + k];
    }
    KeyedAppend(s.projects, [p], ProjectId, s.nextId, s'.nextId);
    StampedAppend(s.projects, [p], ProjectId, ProjectStamp, s.nextId);
    KeyedAppend(s.tasks, rows, TaskId, s.nextId, s'.nextId);
    KeyedRaise(s.users, UserId, s.nextId, s'.nextId);
    KeyedRaise(s.reports, ReportId, s.nextId, s'.nextId);
    KeyedRaise(s.notifications, NotificationId, s.nextId, s'.nextId);
  }

  /** The tasks a nested `deleteMany` of these ids keeps. */
  function Survives(projectId: int, ids: seq<int>): Task -> bool
  {
    (t: Task) => !(t.projectId == projectId && t.id in ids)
  }

  /** Nested `deleteMany`: drops exactly the listed ids that belong to this project. */
  function DeleteNested(tasks: seq<Task>, projectId: int, ids: seq<int>): (r: seq<Task>)
    ensures forall t :: t in r ==> t in tasks && !(t.projectId == projectId && t.id in ids)
    ensures forall t :: t in tasks && !(t.projectId == projectId && t.id in ids) ==> t in r
  {
    Filter(tasks, Survives(projectId, ids))
  }

  /** A nested create of `updateProject`: falsy description, deadline and assignee
      are dropped, a missing status becomes PENDING, and the row joins the project. */
  function CreatedTask(spec: TaskSpec, id: int, projectId: int): (t: Task)
    ensures t.id == id && t.projectId == projectId && t.title == spec.title
    ensures spec.status.None? ==> t.status == Pending
    ensures spec.status.Some? ==> t.status == spec.status.value
    ensures TruthyId(spec.assigneeId) ==> t.assigneeId == spec.assigneeId
    ensures !TruthyId(spec.assigneeId) ==> t.assigneeId == None
    ensures TruthyText(spec.description) ==> t.description == spec.description
    ensures !TruthyText(spec.description) ==> t.description == None
    ensures TruthyText(spec.deadline) ==> t.deadline == spec.deadline
    ensures !TruthyText(spec.deadline) ==> t.deadline == None
  {
    Task(id, spec.title, TextOrAbsent(spec.description), spec.status.GetOr(Pending),
         TextOrAbsent(spec.deadline), projectId, IdOrAbsent(spec.assigneeId))
  }

  /** The rows nested `create` appends, with consecutive fresh ids from `next`. */
  function CreatedRows(specs: seq<TaskSpec>, projectId: int, next: int): (r: seq<Task>)
    ensures |r| == |specs|
    ensures forall k :: 0 <= k < |r| ==> r[k] == CreatedTask(specs[k], next + k, projectId)
  {
    seq(|specs|, k requires 0 <= k < |specs| => CreatedTask(specs[k], next + k, projectId))
  }

  /** A nested update: title always, status reset to PENDING when absent, while a
      falsy description, deadline or assignee leaves the stored value. */
  function EditTask(t: Task, spec: TaskSpec): (r: Task)
    ensures r.id == t.id && r.projectId == t.projectId && r.title == spec.title
    ensures r.status == if spec.status.Some? then spec.status.value else Pending
    ensures TruthyText(spec.description) ==> r.description == spec.description
    ensures !TruthyText(spec.description) ==> r.description == t.description
    ensures TruthyText(spec.deadline) ==> r.deadline == spec.deadline
    ensures !TruthyText(spec.deadline) ==> r.deadline == t.deadline
    ensures !TruthyId(spec.assigneeId) ==> r.assigneeId == t.assigneeId
    ensures TruthyId(spec.assigneeId) ==> r.assigneeId == spec.assigneeId
  {
    t.(title := spec.title,
       description := if TruthyText(spec.description) then spec.description else t.description,
       status := spec.status.GetOr(Pending),
       deadline := if TruthyText(spec.deadline) then spec.deadline else t.deadline,
       assigneeId := if TruthyId(spec.assigneeId) then spec.assigneeId else t.assigneeId)
  }

  /** The project owns a task with this id. */
  predicate Owns(tasks: seq<Task>, projectId: int, id: int)
  {
    exists j :: 0 <= j < |tasks| && tasks[j].id == id && tasks[j].projectId == projectId
  }

  /** Rewriting one row without changing its id or project keeps ownership. */
  lemma OwnsKept(tasks: seq<Task>, j: nat, t: Task, projectId: int)
    requires j < |tasks| && t.id == tasks[j].id && t.projectId == tasks[j].projectId
    ensures forall x :: Owns(tasks[j := t], projectId, x) <==> Owns(tasks, projectId, x)
  {
    var tasks' := tasks[j := t];
    forall x | Owns(tasks, projectId, x)
      ensures Owns(tasks', projectId, x)
    {
      var k :| 0 <= k < |tasks| && tasks[k].id == x && tasks[k].projectId == projectId;
      assert tasks'[k].id == x && tasks'[k].projectId == projectId;
    }
  }

  /** No two rows share an id. */
  ghost predicate UniqueIds(tasks: seq<Task>)
  {
    forall a, b :: 0 <= a < b < |tasks| ==> tasks[a].id != tasks[b].id
  }

  /** A task after the nested updates, run in order: every edit that names it
      within this project rewrites it, and the others pass it by. */
  function EditsApplied(t: Task, projectId: int, edits: seq<TaskEdit>): (r: Task)
    ensures r.id == t.id && r.projectId == t.projectId
    decreases |edits|
  {
    if |edits| == 0 then t
    else
      var t' := if edits[0].id == t.id && t.projectId == projectId then EditTask(t, edits[0].spec) else t;
      EditsApplied(t', projectId, edits[1..])
  }

  /** A task no edit names, or of another project, comes through unchanged. */
  lemma {:induction false} EditsAppliedUnnamed(t: Task, projectId: int, edits: seq<TaskEdit>)
    requires t.projectId != projectId || forall k :: 0 <= k < |edits| ==> edits[k].id != t.id
    ensures EditsApplied(t, projectId, edits) == t
    decreases |edits|
  {
    if |edits| > 0 {
      assert forall k :: 0 <= k < |edits| - 1 ==> edits[1..][k] == edits[k + 1];
      EditsAppliedUnnamed(t, projectId, edits[1..]);
    }
  }

  /** A task of the project named by exactly one edit ends up as that edit of it. */
  lemma {:induction false} EditsAppliedOnce(t: Task, projectId: int, edits: seq<TaskEdit>, k: nat)
    requires t.projectId == projectId && k < |edits| && edits[k].id == t.id
    requires forall m :: 0 <= m < |edits| && m != k ==> edits[m].id != t.id
    ensures EditsApplied(t, projectId, edits) == EditTask(t, edits[k].spec)
    decreases |edits|
  {
    assert forall m :: 0 <= m < |edits| - 1 ==> edits[1..][m] == edits[m + 1];
    if k == 0 {
      EditsAppliedUnnamed(EditTask(t, edits[0].spec), projectId, edits[1..]);
    } else {
      EditsAppliedOnce(t, projectId, edits[1..], k - 1);
    }
  }

  /** Applying the first edit to the one row it finds agrees, row by row, with
      applying it to every row that matches it, when ids are unique. */
  lemma EditStep(tasks: seq<Task>, projectId: int, edits: seq<TaskEdit>, j: nat)
    requires |edits| > 0 && j < |tasks|
    requires tasks[j].id == edits[0].id && tasks[j].projectId == projectId
    ensures UniqueIds(tasks) ==>
              var tasks' := tasks[j := EditTask(tasks[j], edits[0].spec)];
              && UniqueIds(tasks')
              && forall m :: 0 <= m < |tasks| ==>
                   EditsApplied(tasks'[m], projectId, edits[1..]) == EditsApplied(tasks[m], projectId, edits)
  {
    var tasks' := tasks[j := EditTask(tasks[j], edits[0].spec)];
    forall m | 0 <= m < |tasks| && UniqueIds(tasks)
      ensures EditsApplied(tasks'[m], projectId, edits[1..]) == EditsApplied(tasks[m], projectId, edits)
    {
      if m != j {
        assert tasks[m].id != tasks[j].id by {
          if m < j { assert tasks[m].id != tasks[j].id; } else { assert tasks[j].id != tasks[m].id; }
        }
      }
    }
  }

  /** The row a nested update looks for: this id, within this project. */
  function Names(id: int, projectId: int): Task -> bool
  {
    (t: Task) => t.id == id && t.projectId == projectId
  }

  /** What a successful nested update leaves: the same number of rows, no row
      with a new id or project, and only rows of this project that some edit
      names changed. */
  ghost predicate EditFrame(tasks: seq<Task>, out: seq<Task>, projectId: int, edits: seq<TaskEdit>)
  {
    && |out| == |tasks|
    && (forall j :: 0 <= j < |tasks| ==> out[j].id == tasks[j].id && out[j].projectId == tasks[j].projectId)
    && (forall j :: 0 <= j < |tasks| ==>
          || out[j] == tasks[j]
          || (tasks[j].projectId == projectId && exists k :: 0 <= k < |edits| && edits[k].id == tasks[j].id))
  }

  /** The frame of the remaining edits, taken from the table after the first
      edit, is a frame of all the edits from the table before it. */
  lemma FrameStep(tasks: seq<Task>, projectId: int, edits: seq<TaskEdit>, j: nat, out: seq<Task>)
    requires |edits| > 0 && j < |tasks|
    requires tasks[j].id == edits[0].id && tasks[j].projectId == projectId
    requires EditFrame(tasks[j := EditTask(tasks[j], edits[0].spec)], out, projectId, edits[1..])
    ensures EditFrame(tasks, out, projectId, edits)
  {
    var tasks' := tasks[j := EditTask(tasks[j], edits[0].spec)];
    forall m | 0 <= m < |tasks|
      ensures || out[m] == tasks[m]
              || (tasks[m].projectId == projectId && exists k :: 0 <= k < |edits| && edits[k].id == tasks[m].id)
    {
      if m == j {
        assert edits[0].id == tasks[m].id;
      } else if out[m] != tasks[m] {
        assert tasks'[m] == tasks[m];
        var k :| 0 <= k < |edits[1..]| && edits[1..][k].id == tasks'[m].id;
        assert edits[k + 1].id == tasks[m].id;
      }
    }
  }

  /** After the first edit finds its row, some edit names an id the project
      does not own exactly when some remaining edit does. */
  lemma OwnedStep(tasks: seq<Task>, projectId: int, edits: seq<TaskEdit>, j: nat)
    requires |edits| > 0 && j < |tasks|
    requires tasks[j].id == edits[0].id && tasks[j].projectId == projectId
    ensures var tasks' := tasks[j := EditTask(tasks[j], edits[0].spec)];
            (exists k :: 0 <= k < |edits| && !Owns(tasks, projectId, edits[k].id)) <==>
            (exists k :: 0 <= k < |edits[1..]| && !Owns(tasks', projectId, edits[1..][k].id))
  {
    var tasks' := tasks[j := EditTask(tasks[j], edits[0].spec)];
    OwnsKept(tasks, j, EditTask(tasks[j], edits[0].spec), projectId);
    assert Owns(tasks, projectId, edits[0].id);
    if k :| 0 <= k < |edits| && !Owns(tasks, projectId, edits[k].id) {
      assert k > 0 && edits[1..][k - 1] == edits[k];
    }
  }

  /** Nested `update`, one edit after another: an id the project does not own
      fails the whole write; otherwise the table keeps its shape and only the
      named rows of this project change (`EditFrame`). */
  function EditNested(tasks: seq<Task>, projectId: int, edits: seq<TaskEdit>): (r: Result<seq<Task>, Error>)
    ensures r.Err? <==> exists k :: 0 <= k < |edits| && !Owns(tasks, projectId, edits[k].id)
    ensures r.Err? ==> r.error == NotFound
    ensures r.Ok? ==> EditFrame(tasks, r.value, projectId, edits)
    decreases |edits|
  {
    if |edits| == 0 then Ok(tasks)
    else
      var e := edits[0];
      match FindIndex(tasks, Names(e.id, projectId))
      case None =>
        assert !Owns(tasks, projectId, edits[0].id);
        Err(NotFound)
      case Some(j) =>
        var tasks' := tasks[j := EditTask(tasks[j], e.spec)];
        var r := EditNested(tasks', projectId, edits[1..]);
        OwnedStep(tasks, projectId, edits, j);
        assert r.Ok? ==> EditFrame(tasks, r.value, projectId, edits) by {
          if r.Ok? { FrameStep(tasks, projectId, edits, j, r.value); }
        }
        r
  }

  /** With unique ids, the one-row-at-a-time nested update leaves every row
      exactly as the edits naming it, in order, make it. */
  lemma {:induction false} EditNestedRows(tasks: seq<Task>, projectId: int, edits: seq<TaskEdit>)
    requires UniqueIds(tasks)
    requires EditNested(tasks, projectId, edits).Ok?
    ensures forall j :: 0 <= j < |tasks| ==>
              EditNested(tasks, projectId, edits).value[j] == EditsApplied(tasks[j], projectId, edits)
    decreases |edits|
  {
    if |edits| > 0 {
      var e := edits[0];
      var j := FindIndex(tasks, Names(e.id, projectId)).value;
      var tasks' := tasks[j := EditTask(tasks[j], e.spec)];
      assert EditNested(tasks, projectId, edits) == EditNested(tasks', projectId, edits[1..]);
      EditStep(tasks, projectId, edits, j);
      EditNestedRows(tasks', projectId, edits[1..]);
    }
  }

  /** The task table once the nested deletes and creates are done, before the updates. */
  function Staged(s: Store, projectId: int, delta: Delta): seq<Task>
  {
    DeleteNested(s.tasks, projectId, delta.delete) + CreatedRows(delta.create, projectId, s.nextId)
  }

  /** The staged table keeps the ids well formed: the kept rows are below the
      counter, the created ones take the next ids in order. */
  lemma StagedKeyed(s: Store, projectId: int, delta: Delta)
    requires Keyed(s.tasks, TaskId, s.nextId) && 1 <= s.nextId
    ensures Keyed(Staged(s, projectId, delta), TaskId, s.nextId + |delta.create|)
    ensures UniqueIds(Staged(s, projectId, delta))
  {
    var kept := DeleteNested(s.tasks, projectId, delta.delete);
    var created := CreatedRows(delta.create, projectId, s.nextId);
    KeyedFilter(s.tasks, Survives(projectId, delta.delete), TaskId, s.nextId);
    KeyedAppend(kept, created, TaskId, s.nextId, s.nextId + |delta.create|);
    var staged := Staged(s, projectId, delta);
    forall a, b | 0 <= a < b < |staged|
      ensures staged[a].id != staged[b].id
    {
      assert TaskId(staged[a]) < TaskId(staged[b]);
    }
  }

  /** The project row after `updateProject`: an absent name, a falsy description
      or a falsy deadline keeps the stored value. */
  function PatchProject(p: Project, patch: ProjectPatch): (r: Project)
    ensures r.id == p.id && r.finished == p.finished && r.createdAt == p.createdAt
    ensures patch.name.None? ==> r.name == p.name
    ensures patch.name.Some? ==> r.name == patch.name.value
    ensures TruthyText(patch.description) ==> r.description == patch.description
    ensures !TruthyText(patch.description) ==> r.description == p.description
    ensures TruthyText(patch.deadline) ==> r.deadline == patch.deadline
    ensures !TruthyText(patch.deadline) ==> r.deadline == p.deadline
  {
    p.(name := patch.name.GetOr(p.name),
       description := if TruthyText(patch.description) then patch.description else p.description,
       deadline := if TruthyText(patch.deadline) then patch.deadline else p.deadline)
  }

  /** `updateProject`: a missing project, or a nested update naming a task the
      project does not own once the deletes are done, aborts the whole write.
      Otherwise the project row is patched, other projects' tasks are untouched,
      listed tasks of this project are gone, and nobody is notified. */
  function UpdateProject(s: Store, id: int, patch: ProjectPatch): (r: Result<Store, Error>)
    ensures ProjectIndex(s.projects, id).None? ==> r == Err(NotFound)
    ensures ProjectIndex(s.projects, id).Some? ==>
              (r.Err? <==> exists k :: 0 <= k < |patch.tasks.update| &&
                             !Owns(Staged(s, id, patch.tasks), id, patch.tasks.update[k].id))
    ensures r.Err? ==> r.error == NotFound
    ensures r.Ok? ==> ProjectIndex(s.projects, id).Some?
    ensures r.Ok? ==>
              var i := ProjectIndex(s.projects, id).value;
              r.value.projects == s.projects[i := PatchProject(s.projects[i], patch)]
    ensures r.Ok? ==> r.value.users == s.users && r.value.reports == s.reports
                      && r.value.notifications == s.notifications
    ensures r.Ok? ==> forall t :: t in s.tasks && t.projectId != id ==> t in r.value.tasks
    ensures r.Ok? ==> forall t :: t in r.value.tasks && t.projectId != id ==> t in s.tasks
    ensures r.Ok? ==> forall t :: t in r.value.tasks && t.projectId == id && t.id < s.nextId ==>
              t.id !in patch.tasks.delete
    ensures r.Ok? && Keyed(s.tasks, TaskId, s.nextId) && 1 <= s.nextId ==>
              var staged := Staged(s, id, patch.tasks);
              && |r.value.tasks| == |staged|
              && forall j :: 0 <= j < |staged| ==>
                   r.value.tasks[j] == EditsApplied(staged[j], id, patch.tasks.update)
  {
    match ProjectIndex(s.projects, id)
    case None => Err(NotFound)
    case Some(i) =>
      match EditNested(Staged(s, id, patch.tasks), id, patch.tasks.update)
      case Err(e) => Err(e)
      case Ok(tasks') =>
        EditedTasks(s, id, patch.tasks, tasks');
        assert Keyed(s.tasks, TaskId, s.nextId) && 1 <= s.nextId ==>
                 && |tasks'| == |Staged(s, id, patch.tasks)|
                 && forall j :: 0 <= j < |tasks'| ==>
                      tasks'[j] == EditsApplied(Staged(s, id, patch.tasks)[j], id, patch.tasks.update) by {
          if Keyed(s.tasks, TaskId, s.nextId) && 1 <= s.nextId {
            EditedRows(s, id, patch.tasks, tasks');
          }
        }
        Ok(s.(projects := s.projects[i := PatchProject(s.projects[i], patch)],
              tasks := tasks',
              nextId := s.nextId + |patch.tasks.create|))
  }

  /** What the nested writes of `updateProject` leave in the task table: other
      projects' tasks as they were, and no deleted id of this project. */
  lemma EditedTasks(s: Store, id: int, delta: Delta, tasks': seq<Task>)
    requires EditNested(Staged(s, id, delta), id, delta.update) == Ok(tasks')
    ensures forall t :: t in s.tasks && t.projectId != id ==> t in tasks'
    ensures forall t :: t in tasks' && t.projectId != id ==> t in s.tasks
    ensures forall t :: t in tasks' && t.projectId == id && t.id < s.nextId ==> t.id !in delta.delete
  {
    forall t | t in s.tasks && t.projectId != id
      ensures t in tasks'
    {
      OtherProjectKept(s, id, delta, tasks', t);
    }
    forall t | t in tasks'
      ensures t.projectId != id ==> t in s.tasks
      ensures t.projectId == id && t.id < s.nextId ==> t.id !in delta.delete
    {
      var j :| 0 <= j < |tasks'| && tasks'[j] == t;
      EditedRowFrom(s, id, delta, tasks', j);
    }
  }

  /** A task of another project survives the nested writes unchanged. */
  lemma OtherProjectKept(s: Store, id: int, delta: Delta, tasks': seq<Task>, t: Task)
    requires EditNested(Staged(s, id, delta), id, delta.update) == Ok(tasks')
    requires t in s.tasks && t.projectId != id
    ensures t in tasks'
  {
    var kept := DeleteNested(s.tasks, id, delta.delete);
    assert t in kept;
    var j :| 0 <= j < |kept| && kept[j] == t;
    assert Staged(s, id, delta)[j] == t;
    assert tasks'[j] == t;
  }

  /** A staged row is a stored task of another project, or a kept or created
      row of this one whose id, if it predates the call, was not deleted. */
  lemma StagedRowFrom(s: Store, id: int, delta: Delta, j: nat)
    requires j < |Staged(s, id, delta)|
    ensures var t := Staged(s, id, delta)[j];
            && (t.projectId != id ==> t in s.tasks)
            && (t.projectId == id && t.id < s.nextId ==> t.id !in delta.delete)
  {
    var kept := DeleteNested(s.tasks, id, delta.delete);
    var created := CreatedRows(delta.create, id, s.nextId);
    if j < |kept| {
      assert Staged(s, id, delta)[j] == kept[j] && kept[j] in kept;
    } else {
      assert Staged(s, id, delta)[j] == created[j - |kept|];
    }
  }

  /** A row after the nested writes either comes unchanged from another
      project's stored task, or belongs to this project and, if its id predates
      the call, was not deleted. */
  lemma EditedRowFrom(s: Store, id: int, delta: Delta, tasks': seq<Task>, j: nat)
    requires EditNested(Staged(s, id, delta), id, delta.update) == Ok(tasks')
    requires j < |tasks'|
    ensures tasks'[j].projectId != id ==> tasks'[j] in s.tasks
    ensures tasks'[j].projectId == id && tasks'[j].id < s.nextId ==> tasks'[j].id !in delta.delete
  {
    var staged := Staged(s, id, delta);
    assert EditFrame(staged, tasks', id, delta.update);
    StagedRowFrom(s, id, delta, j);
    assert tasks'[j].id == staged[j].id && tasks'[j].projectId == staged[j].projectId;
    assert tasks'[j].projectId != id ==> tasks'[j] == staged[j];
  }

  /** With well-formed ids, the nested writes edit each staged row as the
      updates naming it say. */
  lemma EditedRows(s: Store, id: int, delta: Delta, tasks': seq<Task>)
    requires Keyed(s.tasks, TaskId, s.nextId) && 1 <= s.nextId
    requires EditNested(Staged(s, id, delta), id, delta.update) == Ok(tasks')
    ensures |tasks'| == |Staged(s, id, delta)|
    ensures forall j :: 0 <= j < |tasks'| ==> tasks'[j] == EditsApplied(Staged(s, id, delta)[j], id, delta.update)
  {
    StagedKeyed(s, id, delta);
    EditNestedRows(Staged(s, id, delta), id, delta.update);
  }

  lemma UpdateProjectKeepsWf(s: Store, id: int, patch: ProjectPatch)
    requires Wf(s)
    requires UpdateProject(s, id, patch).Ok?
    ensures Wf(UpdateProject(s, id, patch).value)
  {
    var s' := UpdateProject(s, id, patch).value;
    var i := ProjectIndex(s.projects, id).value;
    KeyedSameKeys(s.projects, s'.projects, ProjectId, s.nextId, s'.nextId);
    StampedSameStamps(s.projects, s'.projects, ProjectId, ProjectStamp);
    StagedKeyed(s, id, patch.tasks);
    KeyedSameKeys(Staged(s, id, patch.tasks), s'.tasks, TaskId, s'.nextId, s'.nextId);
    KeyedRaise(s.users, UserId, s.nextId, s'.nextId);
    KeyedRaise(s.reports, ReportId, s.nextId, s'.nextId);
    KeyedRaise(s.notifications, NotificationId, s.nextId, s'.nextId);
  }

  /** A form opened on this project deletes a task or updates it, never both,
      so the nested update cannot fail when it only names the project's tasks. */
  lemma {:induction false} UpdateProjectSucceeds(s: Store, id: int, patch: ProjectPatch)
    requires ProjectIndex(s.projects, id).Some?
    requires forall k :: 0 <= k < |patch.tasks.update| ==>
               Owns(s.tasks, id, patch.tasks.update[k].id) && patch.tasks.update[k].id !in patch.tasks.delete
    ensures UpdateProject(s, id, patch).Ok?
  {
    var kept := DeleteNested(s.tasks, id, patch.tasks.delete);
    var before := kept + CreatedRows(patch.tasks.create, id, s.nextId);
    forall k | 0 <= k < |patch.tasks.update|
      ensures Owns(before, id, patch.tasks.update[k].id)
    {
      var x := patch.tasks.update[k].id;
      var j :| 0 <= j < |s.tasks| && s.tasks[j].id == x && s.tasks[j].projectId == id;
      var t := s.tasks[j];
      assert t in kept;
      var m :| 0 <= m < |kept| && kept[m] == t;
      assert before[m] == t;
    }
  }

  /** The staged row at `j` as the update leaves it. */
  lemma UpdatedRow(s: Store, id: int, patch: ProjectPatch, j: nat)
    requires Wf(s)
    requires UpdateProject(s, id, patch).Ok?
    requires j < |Staged(s, id, patch.tasks)|
    ensures j < |UpdateProject(s, id, patch).value.tasks|
    ensures UpdateProject(s, id, patch).value.tasks[j]
            == EditsApplied(Staged(s, id, patch.tasks)[j], id, patch.tasks.update)
  {
  }

  /** A task of the project that is neither deleted nor named by an update is kept as it was. */
  lemma UpdateProjectKeepsUnnamed(s: Store, id: int, patch: ProjectPatch, t: Task)
    requires Wf(s)
    requires UpdateProject(s, id, patch).Ok?
    requires t in s.tasks && t.projectId == id && t.id !in patch.tasks.delete
    requires forall m :: 0 <= m < |patch.tasks.update| ==> patch.tasks.update[m].id != t.id
    ensures t in UpdateProject(s, id, patch).value.tasks
  {
    var kept := DeleteNested(s.tasks, id, patch.tasks.delete);
    assert t in kept;
    var j :| 0 <= j < |kept| && kept[j] == t;
    assert Staged(s, id, patch.tasks)[j] == t;
    UpdatedRow(s, id, patch, j);
    EditsAppliedUnnamed(t, id, patch.tasks.update);
  }

  /** A task named by exactly one update becomes that edit of its previous value. */
  lemma UpdateProjectAppliesEdit(s: Store, id: int, patch: ProjectPatch, t: Task, k: nat)
    requires Wf(s)
    requires UpdateProject(s, id, patch).Ok?
    requires t in s.tasks && t.projectId == id && t.id !in patch.tasks.delete
    requires k < |patch.tasks.update| && patch.tasks.update[k].id == t.id
    requires forall m :: 0 <= m < |patch.tasks.update| && m != k ==> patch.tasks.update[m].id != t.id
    ensures EditTask(t, patch.tasks.update[k].spec) in UpdateProject(s, id, patch).value.tasks
  {
    var kept := DeleteNested(s.tasks, id, patch.tasks.delete);
    assert t in kept;
    var j :| 0 <= j < |kept| && kept[j] == t;
    assert Staged(s, id, patch.tasks)[j] == t;
    UpdatedRow(s, id, patch, j);
    EditsAppliedOnce(t, id, patch.tasks.update, k);
  }

  /** A created task that no update names is stored as created, under the k-th fresh id. */
  lemma UpdateProjectStoresCreated(s: Store, id: int, patch: ProjectPatch, k: nat)
    requires Wf(s)
    requires UpdateProject(s, id, patch).Ok?
    requires k < |patch.tasks.create|
    requires forall m :: 0 <= m < |patch.tasks.update| ==> patch.tasks.update[m].id != s.nextId + k
    ensures CreatedTask(patch.tasks.create[k], s.nextId + k, id) in UpdateProject(s, id, patch).value.tasks
  {
    var kept := DeleteNested(s.tasks, id, patch.tasks.delete);
    var t := CreatedTask(patch.tasks.create[k], s.nextId + k, id);
    assert Staged(s, id, patch.tasks)[|kept| + k] == t;
    UpdatedRow(s, id, patch, |kept| + k);
    EditsAppliedUnnamed(t, id, patch.tasks.update);
  }

  /** `getProjects`: every project with its tasks. */
  function GetProjects(s: Store): (r: seq<Listed>)
    ensures |r| == |s.projects|
    ensures forall k :: 0 <= k < |r| ==> r[k].project in s.projects
    ensures forall p :: p in s.projects ==> exists k :: 0 <= k < |r| && r[k].project == p
    ensures forall k :: 0 <= k < |r| ==>
              forall t :: t in r[k].tasks <==> t in s.tasks && t.projectId == r[k].project.id
  {
    var ps := Reverse(s.projects);
    var r := seq(|ps|, k requires 0 <= k < |ps| => Listed(ps[k], TasksOf(s.tasks, ps[k].id)));
    assert forall p :: p in s.projects ==> exists k :: 0 <= k < |r| && r[k].project == p by {
      forall p | p in s.projects
        ensures exists k :: 0 <= k < |r| && r[k].project == p
      {
        var k :| 0 <= k < |ps| && ps[k] == p;
        assert r[k].project == p;
      }
    }
    r
  }

  /** The listing is ordered by id, descending. */
  lemma GetProjectsByIdDescending(s: Store)
    requires Wf(s)
    ensures Decreasing(GetProjects(s), ListedId)
  {
    var r := GetProjects(s);
    ReverseOrders(s.projects, ProjectId);
    forall i, j | 0 <= i < j < |r|
      ensures ListedId(r[i]) > ListedId(r[j])
    {
      assert r[i].project == Reverse(s.projects)[i] && r[j].project == Reverse(s.projects)[j];
    }
  }

  /** The user has at least one task of the project. */
  predicate HasTaskFor(tasks: seq<Task>, projectId: int, userId: int)
  {
    exists j :: 0 <= j < |tasks| && tasks[j].projectId == projectId && tasks[j].assigneeId == Some(userId)
  }

  /** `getProjectsForUser`: every project for an admin; for a member exactly the
      projects holding a task assigned to them. */
  function GetProjectsForUser(s: Store, userId: int, role: Role): (r: seq<Project>)
    ensures forall p :: p in r ==> p in s.projects && (role == Admin || HasTaskFor(s.tasks, p.id, userId))
    ensures forall p :: p in s.projects && (role == Admin || HasTaskFor(s.tasks, p.id, userId)) ==> p in r
  {
    if role == Admin then Reverse(s.projects)
    else Reverse(Filter(s.projects, (p: Project) => HasTaskFor(s.tasks, p.id, userId)))
  }

  /** The listing is ordered newest first (`orderBy: { createdAt: 'desc' }`), ties by id. */
  lemma GetProjectsForUserNewestFirst(s: Store, userId: int, role: Role)
    requires Wf(s)
    ensures NonIncreasing(GetProjectsForUser(s, userId, role), ProjectStamp)
    ensures Decreasing(GetProjectsForUser(s, userId, role), ProjectId)
  {
    if role == Admin {
      ReverseOrders(s.projects, ProjectId);
      ReverseOrders(s.projects, ProjectStamp);
    } else {
      var p := (p: Project) => HasTaskFor(s.tasks, p.id, userId);
      FilterIncreasing(s.projects, p, ProjectId);
      FilterNonDecreasing(s.projects, p, ProjectStamp);
      ReverseOrders(Filter(s.projects, p), ProjectId);
      ReverseOrders(Filter(s.projects, p), ProjectStamp);
    }
  }

  /** `finishProject`: a missing project throws; otherwise it is marked finished,
      whatever it was before, and each distinct assignee of its tasks is told. */
  function FinishProject(s: Store, id: int): (r: Result<Store, Error>)
    ensures r.Err? <==> forall i :: 0 <= i < |s.projects| ==> s.projects[i].id != id
    ensures r.Err? ==> r.error == NotFound
    ensures r.Ok? ==> ProjectIndex(s.projects, id).Some?
    ensures r.Ok? ==>
              var i := ProjectIndex(s.projects, id).value;
              r.value.projects == s.projects[i := s.projects[i].(finished := true)]
    ensures r.Ok? ==> OnlyAppended(s.(projects := r.value.projects), r.value)
    ensures r.Ok? ==>
              var p := s.projects[ProjectIndex(s.projects, id).value];
              Announces(Emitted(s, r.value), FinishRecipients(s.tasks, id), ProjectFinished(p.name), None, Some(id))
  {
    match ProjectIndex(s.projects, id)
    case None => Err(NotFound)
    case Some(i) =>
      var p := s.projects[i].(finished := true);
      var s1 := s.(projects := s.projects[i := p]);
      assert s1.projects[i].id == id;
      Ok(NotifyProjectFinished(s1, id, p.name))
  }

  /** Finishing an already finished project changes no row but notifies the
      same assignees a second time. */
  lemma {:induction false} FinishProjectTwice(s: Store, id: int)
    requires FinishProject(s, id).Ok?
    ensures var s1 := FinishProject(s, id).value;
      && FinishProject(s1, id).Ok?
      && FinishProject(s1, id).value.projects == s1.projects
      && FinishProject(s1, id).value.tasks == s1.tasks
      && Announces(Emitted(s1, FinishProject(s1, id).value), FinishRecipients(s.tasks, id),
                   ProjectFinished(s.projects[ProjectIndex(s.projects, id).value].name), None, Some(id))
  {
    var s1 := FinishProject(s, id).value;
    var i := ProjectIndex(s.projects, id).value;
    assert s1.projects[i].id == id;
    assert forall j :: 0 <= j < i ==> s1.projects[j].id != id by {
      forall j | 0 <= j < i
        ensures s1.projects[j].id != id
      {
        assert s1.projects[j] == s.projects[j];
      }
    }
    assert ProjectIndex(s1.projects, id) == Some(i);
    assert s1.projects[i := s1.projects[i].(finished := true)] == s1.projects;
  }

  lemma FinishProjectKeepsWf(s: Store, id: int)
    requires Wf(s)
    requires FinishProject(s, id).Ok?
    ensures Wf(FinishProject(s, id).value)
  {
    var i := ProjectIndex(s.projects, id).value;
    var s1 := s.(projects := s.projects[i := s.projects[i].(finished := true)]);
    KeyedSameKeys(s.projects, s1.projects, ProjectId, s.nextId, s.nextId);
    StampedSameStamps(s.projects, s1.projects, ProjectId, ProjectStamp);
    assert Wf(s1);
    var recipients := FinishRecipients(s.tasks, id);
    if |recipients| > 0 {
      CreateNotificationsKeepsWf(s1, recipients, ProjectFinished(s1.projects[i].name), None, Some(id));
    }
  }

  /** The tasks a project's deletion keeps. */
  function OutsideProject(id: int): Task -> bool
  {
    (t: Task) => t.projectId != id
  }

  /** `deleteProject`: a missing project throws; otherwise the row goes and its
      tasks go with it (the relation cascades), and nothing else changes. */
  function DeleteProject(s: Store, id: int): (r: Result<Store, Error>)
    ensures r.Err? <==> forall i :: 0 <= i < |s.projects| ==> s.projects[i].id != id
    ensures r.Err? ==> r.error == NotFound
    ensures r.Ok? ==> |r.value.projects| == |s.projects| - 1
    ensures r.Ok? ==> forall p :: p in r.value.projects ==> p in s.projects
    ensures r.Ok? ==> forall t :: t in r.value.tasks <==> t in s.tasks && t.projectId != id
    ensures r.Ok? ==> r.value.users == s.users && r.value.reports == s.reports
                      && r.value.notifications == s.notifications && r.value.nextId == s.nextId
  {
    match ProjectIndex(s.projects, id)
    case None => Err(NotFound)
    case Some(i) =>
      var rest := s.projects[..i] + s.projects[i + 1..];
      assert forall p :: p in rest ==> p in s.projects[..i] || p in s.projects[i + 1..];
      Ok(s.(projects := rest, tasks := Filter(s.tasks, OutsideProject(id))))
  }

  /** With unique ids, deleting removes exactly the project carrying that id. */
  lemma DeleteProjectRemovesExactlyIt(s: Store, id: int)
    requires Wf(s)
    requires DeleteProject(s, id).Ok?
    ensures forall p :: p in s.projects ==> (p in DeleteProject(s, id).value.projects <==> p.id != id)
  {
    var i := ProjectIndex(s.projects, id).value;
    var rest := DeleteProject(s, id).value.projects;
    assert rest == s.projects[..i] + s.projects[i + 1..];
    forall k | 0 <= k < |rest|
      ensures rest[k].id != id
    {
      var j := if k < i then k else k + 1;
      assert rest[k] == s.projects[j] && j != i;
    }
    forall j | 0 <= j < |s.projects| && s.projects[j].id != id
      ensures s.projects[j] in rest
    {
      if j < i {
        assert rest[j] == s.projects[j];
      } else {
        assert rest[j - 1] == s.projects[j];
      }
    }
  }

  lemma DeleteProjectKeepsWf(s: Store, id: int)
    requires Wf(s)
    requires DeleteProject(s, id).Ok?
    ensures Wf(DeleteProject(s, id).value)
  {
    var i := ProjectIndex(s.projects, id).value;
    assert DeleteProject(s, id).value
           == s.(projects := s.projects[..i] + s.projects[i + 1..], tasks := Filter(s.tasks, OutsideProject(id)));
    KeyedRemoveAt(s.projects, i, ProjectId, s.nextId);
    StampedRemoveAt(s.projects, i, ProjectId, ProjectStamp);
    KeyedFilter(s.tasks, OutsideProject(id), TaskId, s.nextId);
  }
}
