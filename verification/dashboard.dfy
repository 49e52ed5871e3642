/** The dashboard page: the figures on the project cards and summary tiles, the
    edit-project form and the payload it submits, and the finish button. */
module Dashboard {
  import opened Wrappers
  import opened Seqs
  import opened Store
  import opened Projects
  import opened Badges

  function IsDone(t: Task): bool { t.status == Done }
  function IsInProgress(t: Task): bool { t.status == InProgress }
  function IsPending(t: Task): bool { t.status == Pending }

  /** Scaling by a non-negative factor keeps the order. */
  lemma MulMonotone(a: int, b: int, m: int)
    requires a <= b && 0 <= m
    ensures a * m <= b * m
  {
    assert b * m - a * m == (b - a) * m;
  }

  /** A positive factor can be cancelled from a strict inequality. */
  lemma MulCancel(a: int, b: int, m: int)
    requires m > 0 && a * m < b * m
    ensures a < b
  {
    if a >= b {
      MulMonotone(b, a, m);
    }
  }

  /** The quotient brackets the dividend. */
  lemma DivBrackets(x: int, m: int)
    requires m > 0
    ensures (x / m) * m <= x < (x / m + 1) * m
  {
    assert x == (x / m) * m + x % m;
  }

  /** `x / m` is `q` when `q·m <= x < (q+1)·m`. */
  lemma DivBetween(x: int, m: int, q: int)
    requires m > 0 && q * m <= x < (q + 1) * m
    ensures x / m == q
  {
    var d := x / m;
    DivBrackets(x, m);
    if d > q {
      MulMonotone(q + 1, d, m);
    } else if d < q {
      MulMonotone(d + 1, q, m);
    }
  }

  /** `calculateCompletion` as written: `Math.round(done / total * 100)`, with
      rounding half up done in integers; 0 for an empty list. */
  function CompletionAsWritten(tasks: seq<Task>): (r: int)
    ensures |tasks| == 0 ==> r == 0
    ensures 0 <= r <= 100
    ensures |tasks| > 0 ==>
              r * (2 * |tasks|) <= 200 * Count(tasks, IsDone) + |tasks| < (r + 1) * (2 * |tasks|)
  {
    var n := |tasks|;
    if n == 0 then 0
    else
      var d := Count(tasks, IsDone);
      var x := 200 * d + n;
      var r := x / (2 * n);
      DivBrackets(x, 2 * n);
      assert 0 <= r <= 100 by {
        if r > 100 {
          MulMonotone(101, r, 2 * n);
        }
        if r < 0 {
          MulMonotone(r + 1, 0, 2 * n);
        }
      }
      r
  }

  /** The rounding is exact while there are fewer than 200 tasks: the figure is
      100 exactly when every task is DONE. */
  lemma CompletionAsWrittenExactBelow200(tasks: seq<Task>)
    requires 0 < |tasks| < 200
    ensures CompletionAsWritten(tasks) == 100 <==> forall k :: 0 <= k < |tasks| ==> tasks[k].status == Done
  {
    var n := |tasks|;
    var d := Count(tasks, IsDone);
    CountAll(tasks, IsDone);
    if d < n {
      var r := CompletionAsWritten(tasks);
      assert 200 * d + n < 100 * (2 * n);
      if r >= 100 {
        MulMonotone(100, r, 2 * n);
      }
    } else {
      DivBetween(200 * d + n, 2 * n, 100);
    }
  }

  /** `n - 1` DONE tasks followed by one PENDING task. */
  function AllButOneDone(n: nat): (tasks: seq<Task>)
    requires n >= 1
    ensures |tasks| == n && tasks[n - 1].status == Pending
    ensures Count(tasks, IsDone) == n - 1
  {
    var done := seq(n - 1, k => Task(k + 1, "t", None, Done, None, 1, None));
    var last := Task(n, "t", None, Pending, None, 1, None);
    FilterAppend(done, [last], IsDone);
    FilterAllKept(done, IsDone);
    FilterNoneKept([last], IsDone);
    done + [last]
  }

  /** From 200 tasks on, one task short of done already rounds to 100%. */
  lemma CompletionAsWrittenRoundsUp(n: nat)
    requires n >= 200
    ensures CompletionAsWritten(AllButOneDone(n)) == 100
    ensures AllButOneDone(n)[n - 1].status != Done
  {
    var x := 200 * (n - 1) + n;
    assert 100 * (2 * n) <= x < 101 * (2 * n);
    DivBetween(x, 2 * n, 100);
  }

  /** The completion figure with the rounding capped below 100 until every task is
      DONE: 0 for an empty list, otherwise within one point of the exact ratio. */
  function Completion(tasks: seq<Task>): (r: int)
    ensures |tasks| == 0 ==> r == 0
    ensures 0 <= r <= 100
    ensures r == 100 <==> |tasks| > 0 && forall k :: 0 <= k < |tasks| ==> tasks[k].status == Done
    ensures r == CompletionAsWritten(tasks) || (r == 99 && CompletionAsWritten(tasks) == 100)
  {
    var c := CompletionAsWritten(tasks);
    CountAll(tasks, IsDone);
    if |tasks| > 0 && Count(tasks, IsDone) == |tasks| then
      DivBetween(200 * |tasks| + |tasks|, 2 * |tasks|, 100);
      c
    else if c == 100 then 99
    else c
  }

  /** The name of a task's assignee (`t.assignee?.name`), when the user exists. */
  function AssigneeName(t: Task, users: seq<User>): Option<string>
  {
    match t.assigneeId
    case None => None
    case Some(x) =>
      match UserIndex(users, x)
      case None => None
      case Some(i) => Some(users[i].name)
  }

  /** The non-empty assignee names of `tasks`, in order, repeats included. */
  function MemberNames(tasks: seq<Task>, users: seq<User>): (r: seq<string>)
    ensures |r| <= |tasks|
    ensures forall x :: x in r <==> x != "" && exists k :: 0 <= k < |tasks| && AssigneeName(tasks[k], users) == Some(x)
  {
    if |tasks| == 0 then []
    else
      var rest := MemberNames(tasks[1..], users);
      assert forall k :: 1 <= k < |tasks| ==> tasks[k] == tasks[1..][k - 1];
      var here := AssigneeName(tasks[0], users);
      (if here.Some? && here.value != "" then [here.value] else []) + rest
  }

  /** `uniqueMembers`: each non-empty assignee name once, never more names than tasks. */
  function UniqueMembers(tasks: seq<Task>, users: seq<User>): (r: seq<string>)
    ensures Distinct(r)
    ensures |r| <= |tasks|
    ensures forall x :: x in r <==> x != "" && exists k :: 0 <= k < |tasks| && AssigneeName(tasks[k], users) == Some(x)
  {
    var names := MemberNames(tasks, users);
    var r := Dedup(names);
    assert forall x :: x in r <==> x in names;
    r
  }

  /** Every task DONE rounds to exactly 100, whatever the count. */
  lemma AllDoneIsHundred(tasks: seq<Task>)
    requires |tasks| > 0 && forall k :: 0 <= k < |tasks| ==> tasks[k].status == Done
    ensures CompletionAsWritten(tasks) == 100
  {
    CountAll(tasks, IsDone);
    DivBetween(200 * |tasks| + |tasks|, 2 * |tasks|, 100);
  }

  /** When the rounded figure is 100: always once every task is DONE, and below
      200 tasks only then. */
  lemma HundredWhen(tasks: seq<Task>)
    ensures CompletionAsWritten(tasks) == 100 ==> |tasks| > 0
    ensures |tasks| > 0 && (forall k :: 0 <= k < |tasks| ==> tasks[k].status == Done) ==> CompletionAsWritten(tasks) == 100
    ensures |tasks| < 200 ==>
              (CompletionAsWritten(tasks) == 100 <==> |tasks| > 0 && forall k :: 0 <= k < |tasks| ==> tasks[k].status == Done)
  {
    if |tasks| > 0 && forall k :: 0 <= k < |tasks| ==> tasks[k].status == Done {
      AllDoneIsHundred(tasks);
    } else if 0 < |tasks| < 200 {
      CompletionAsWrittenExactBelow200(tasks);
    }
  }

  /** A project counts as completed when its figure, as the page rounds it, is
      100: always when every task is DONE, and below 200 tasks only then. */
  function IsCompletedProject(v: Listed): (r: bool)
    ensures r ==> |v.tasks| > 0
    ensures |v.tasks| > 0 && (forall k :: 0 <= k < |v.tasks| ==> v.tasks[k].status == Done) ==> r
    ensures |v.tasks| < 200 ==> (r <==> |v.tasks| > 0 && forall k :: 0 <= k < |v.tasks| ==> v.tasks[k].status == Done)
  {
    HundredWhen(v.tasks);
    CompletionAsWritten(v.tasks) == 100
  }

  /** With some but not all of fewer than 200 tasks DONE, the rounded figure
      is strictly between 0 and 100. */
  lemma StrictlyBetweenBelow200(tasks: seq<Task>)
    requires |tasks| < 200 && 0 < Count(tasks, IsDone) < |tasks|
    ensures 0 < CompletionAsWritten(tasks) < 100
  {
    var n := |tasks|;
    var d := Count(tasks, IsDone);
    var r := CompletionAsWritten(tasks);
    assert 1 * (2 * n) < (r + 1) * (2 * n);
    MulCancel(1, r + 1, 2 * n);
    assert r * (2 * n) < 100 * (2 * n);
    MulCancel(r, 100, 2 * n);
  }

  /** A project counts as in progress when its rounded figure is strictly
      between 0 and 100: then some but not all of its tasks are DONE, and below
      200 tasks exactly then. */
  function IsInProgressProject(v: Listed): (r: bool)
    ensures r ==> 0 < Count(v.tasks, IsDone) < |v.tasks|
    ensures |v.tasks| < 200 ==> (r <==> 0 < Count(v.tasks, IsDone) < |v.tasks|)
  {
    var c := CompletionAsWritten(v.tasks);
    assert |v.tasks| < 200 && 0 < Count(v.tasks, IsDone) < |v.tasks| ==> 0 < c < 100 by {
      if |v.tasks| < 200 && 0 < Count(v.tasks, IsDone) < |v.tasks| {
        StrictlyBetweenBelow200(v.tasks);
      }
    }
    if 0 < c < 100 then
      var n := |v.tasks|;
      var d := Count(v.tasks, IsDone);
      assert 0 < d by {
        if d == 0 {
          MulMonotone(1, c, 2 * n);
        }
      }
      assert d < n by {
        CountAll(v.tasks, IsDone);
        if d == n {
          AllDoneIsHundred(v.tasks);
        }
      }
      true
    else
      false
  }

  /** The project has tasks and every one is DONE. */
  predicate AllDone(v: Listed)
  {
    |v.tasks| > 0 && forall k :: 0 <= k < |v.tasks| ==> v.tasks[k].status == Done
  }

  predicate HasTasks(v: Listed) { |v.tasks| > 0 }

  /** Some but not all of the project's tasks are DONE. */
  predicate PartlyDone(v: Listed)
  {
    0 < Count(v.tasks, IsDone) < |v.tasks|
  }

  /** Partly done with fewer than 200 tasks, where the rounding is exact. */
  predicate PartlyDoneUnder200(v: Listed)
  {
    |v.tasks| < 200 && PartlyDone(v)
  }

  /** The "Projects Completed" tile: every project whose tasks are all DONE is
      counted, and only projects with tasks are. */
  function CompletedProjects(ps: seq<Listed>): (n: nat)
    ensures n <= |ps|
    ensures Count(ps, AllDone) <= n <= Count(ps, HasTasks)
    ensures (forall k :: 0 <= k < |ps| ==> |ps[k].tasks| > 0 && forall j :: 0 <= j < |ps[k].tasks| ==> ps[k].tasks[j].status == Done)
            ==> n == |ps|
  {
    CountAll(ps, IsCompletedProject);
    CountMonotone(ps, AllDone, IsCompletedProject);
    CountMonotone(ps, IsCompletedProject, HasTasks);
    Count(ps, IsCompletedProject)
  }

  /** The "Projects In Progress" tile: every partly done project of fewer than
      200 tasks is counted, and only partly done projects are. */
  function InProgressProjects(ps: seq<Listed>): (n: nat)
    ensures n <= |ps|
    ensures Count(ps, PartlyDoneUnder200) <= n <= Count(ps, PartlyDone)
    ensures (forall k :: 0 <= k < |ps| ==> Count(ps[k].tasks, IsDone) == 0) ==> n == 0
  {
    assert (forall k :: 0 <= k < |ps| ==> Count(ps[k].tasks, IsDone) == 0) ==> Count(ps, IsInProgressProject) == 0 by {
      if forall k :: 0 <= k < |ps| ==> Count(ps[k].tasks, IsDone) == 0 {
        FilterNoneKept(ps, IsInProgressProject);
      }
    }
    CountMonotone(ps, PartlyDoneUnder200, IsInProgressProject);
    CountMonotone(ps, IsInProgressProject, PartlyDone);
    Count(ps, IsInProgressProject)
  }

  /** No project is in both buckets, so the two tiles never exceed the project count. */
  lemma ProjectBucketsDisjoint(ps: seq<Listed>)
    ensures CompletedProjects(ps) + InProgressProjects(ps) <= |ps|
  {
    CountDisjoint(ps, IsCompletedProject, IsInProgressProject);
  }

  /** The tasks assigned to the signed-in user (`t.assigneeId === user?.id`);
      before the user is known, none. */
  function UserTasks(tasks: seq<Task>, viewer: Option<User>): (r: seq<Task>)
    ensures viewer.None? ==> r == []
    ensures forall k :: 0 <= k < |r| ==> r[k] in tasks && r[k].assigneeId == Some(viewer.value.id)
    ensures viewer.Some? ==> forall t :: t in tasks && t.assigneeId == Some(viewer.value.id) ==> t in r
  {
    match viewer
    case None => []
    case Some(u) => Filter(tasks, (t: Task) => t.assigneeId == Some(u.id))
  }

  /** The three personal tiles. */
  datatype Tally = Tally(pending: nat, inProgress: nat, done: nat)

  /** The personal tiles split the user's tasks exactly. */
  function PersonalTally(tasks: seq<Task>, viewer: Option<User>): (r: Tally)
    ensures r.pending + r.inProgress + r.done == |UserTasks(tasks, viewer)|
    ensures r.pending == Count(UserTasks(tasks, viewer), IsPending)
    ensures r.inProgress == Count(UserTasks(tasks, viewer), IsInProgress)
    ensures r.done == Count(UserTasks(tasks, viewer), IsDone)
  {
    var mine := UserTasks(tasks, viewer);
    CountPartition3(mine, IsPending, IsInProgress, IsDone);
    Tally(Count(mine, IsPending), Count(mine, IsInProgress), Count(mine, IsDone))
  }

  /** The "Mark as Complete" button as the page decides it: an admin, an
      unfinished project, and a rounded figure of 100. It always shows when every
      task is DONE, and below 200 tasks only then. */
  function CanMarkComplete(viewer: Option<User>, v: Listed): (r: bool)
    ensures r ==> viewer.Some? && viewer.value.role == Admin && !v.project.finished && |v.tasks| > 0
    ensures && viewer.Some? && viewer.value.role == Admin && !v.project.finished
            && |v.tasks| > 0 && (forall k :: 0 <= k < |v.tasks| ==> v.tasks[k].status == Done)
            ==> r
    ensures |v.tasks| < 200 ==>
              (r <==> && viewer.Some? && viewer.value.role == Admin && !v.project.finished
                      && |v.tasks| > 0 && forall k :: 0 <= k < |v.tasks| ==> v.tasks[k].status == Done)
  {
    viewer.Some? && viewer.value.role == Admin && !v.project.finished && IsCompletedProject(v)
  }

  /** The button as written is offered on a project that still has an open task. */
  lemma CanMarkCompleteWithOpenTask(n: nat, admin: User, p: Project)
    requires n >= 200 && admin.role == Admin && !p.finished
    ensures CanMarkComplete(Some(admin), Listed(p, AllButOneDone(n)))
    ensures AllButOneDone(n)[n - 1].status != Done
  {
    CompletionAsWrittenRoundsUp(n);
  }

  /** The button as intended: an admin, an unfinished project, and every one of
      its tasks DONE. */
  function CanMarkCompleteCorrected(viewer: Option<User>, v: Listed): (r: bool)
    ensures r <==> && viewer.Some? && viewer.value.role == Admin && !v.project.finished
                   && |v.tasks| > 0 && forall k :: 0 <= k < |v.tasks| ==> v.tasks[k].status == Done
    ensures r ==> CanMarkComplete(viewer, v)
  {
    viewer.Some? && viewer.value.role == Admin && !v.project.finished && Completion(v.tasks) == 100
  }

  /** `getProjectDeadlineColor`: a past deadline is gray. */
  function ProjectDeadlineColor(daysLeft: int): (c: Colour)
    ensures daysLeft < 0 <==> ClassName(c) == "bg-gray-700"
    ensures daysLeft > 7 <==> c == Green
    ensures 3 < daysLeft <= 7 <==> c == Yellow
    ensures 0 <= daysLeft <= 3 <==> c == Red
  {
    ByDaysLeft(daysLeft, Gray)
  }

  // ---------- The edit-project form ----------

  /** One task row of the form; rows of existing tasks carry the task's id. */
  datatype EditRow = EditRow(
    id: Option<int>,
    title: string,
    description: string,
    assigneeId: Option<int>,
    status: Option<Status>,
    deadline: Option<string>)

  /** What `updateEditTaskRow` may change: every field but the id. */
  datatype RowFields = RowFields(
    title: string,
    description: string,
    assigneeId: Option<int>,
    status: Option<Status>,
    deadline: Option<string>)

  datatype EditForm = EditForm(name: string, description: string, deadline: string, rows: seq<EditRow>)

  /** The open form together with the ids of existing tasks removed from it. */
  datatype EditSession = EditSession(form: EditForm, deleted: seq<int>)

  /** The row `openEditModal` builds for an existing task. */
  function RowOf(t: Task): (row: EditRow)
    ensures row.id == Some(t.id) && row.title == t.title && row.status == Some(t.status)
    ensures row.assigneeId == t.assigneeId
    ensures row.description == "" <==> !TruthyText(t.description)
    ensures TruthyText(t.description) ==> row.description == t.description.value
    ensures row.deadline.Some? <==> TruthyText(t.deadline)
    ensures TruthyText(t.deadline) ==> row.deadline == t.deadline
  {
    EditRow(Some(t.id), t.title, t.description.GetOr(""), t.assigneeId, Some(t.status),
            if TruthyText(t.deadline) then t.deadline else None)
  }

  /** `openEditModal`: one row per existing task, and nothing deleted yet. */
  function OpenEditModal(v: Listed): (e: EditSession)
    ensures e.deleted == []
    ensures e.form.name == v.project.name
    ensures e.form.description == "" <==> !TruthyText(v.project.description)
    ensures TruthyText(v.project.description) ==> e.form.description == v.project.description.value
    ensures e.form.deadline == "" <==> !TruthyText(v.project.deadline)
    ensures TruthyText(v.project.deadline) ==> e.form.deadline == v.project.deadline.value
    ensures |e.form.rows| == |v.tasks|
    ensures forall k :: 0 <= k < |v.tasks| ==> e.form.rows[k] == RowOf(v.tasks[k])
    ensures forall k :: 0 <= k < |v.tasks| ==> e.form.rows[k].id == Some(v.tasks[k].id)
  {
    var p := v.project;
    EditSession(
      EditForm(p.name, p.description.GetOr(""), if TruthyText(p.deadline) then p.deadline.value else "",
               seq(|v.tasks|, k requires 0 <= k < |v.tasks| => RowOf(v.tasks[k]))),
      [])
  }

  /** `addEditTaskRow`: a blank PENDING row without an id. */
  function AddEditTaskRow(e: EditSession): (e': EditSession)
    ensures e'.deleted == e.deleted
    ensures |e'.form.rows| == |e.form.rows| + 1 && e'.form.rows[..|e.form.rows|] == e.form.rows
    ensures var row := e'.form.rows[|e.form.rows|];
            && row.id == None && row.title == "" && row.description == ""
            && row.assigneeId == None && row.status == Some(Pending) && row.deadline == None
    ensures e'.form.name == e.form.name && e'.form.description == e.form.description
            && e'.form.deadline == e.form.deadline
  {
    var rows := e.form.rows + [EditRow(None, "", "", None, Some(Pending), None)];
    assert rows[..|e.form.rows|] == e.form.rows;
    e.(form := e.form.(rows := rows))
  }

  /** `removeEditTaskRow`: exactly that row leaves the form, and its id is
      recorded for deletion iff it has one. */
  function RemoveEditTaskRow(e: EditSession, index: nat): (e': EditSession)
    requires index < |e.form.rows|
    ensures e'.form == e.form.(rows := e.form.rows[..index] + e.form.rows[index + 1..])
    ensures TruthyId(e.form.rows[index].id) ==> e'.deleted == e.deleted + [e.form.rows[index].id.value]
    ensures !TruthyId(e.form.rows[index].id) ==> e'.deleted == e.deleted
  {
    var row := e.form.rows[index];
    EditSession(e.form.(rows := e.form.rows[..index] + e.form.rows[index + 1..]),
                if TruthyId(row.id) then e.deleted + [row.id.value] else e.deleted)
  }

  /** `updateEditTaskRow`: the row takes the given fields, its id and the other
      rows do not change. A partial patch `{ ...row, ...patch }` is the full set
      of fields with the unpatched ones copied from the row. */
  function UpdateEditTaskRow(e: EditSession, index: nat, f: RowFields): (e': EditSession)
    requires index < |e.form.rows|
    ensures e'.deleted == e.deleted && |e'.form.rows| == |e.form.rows|
    ensures e'.form.name == e.form.name && e'.form.description == e.form.description
            && e'.form.deadline == e.form.deadline
    ensures var row := e'.form.rows[index];
            && row.title == f.title && row.description == f.description && row.assigneeId == f.assigneeId
            && row.status == f.status && row.deadline == f.deadline
    ensures forall k :: 0 <= k < |e.form.rows| ==> e'.form.rows[k].id == e.form.rows[k].id
    ensures forall k :: 0 <= k < |e.form.rows| && k != index ==> e'.form.rows[k] == e.form.rows[k]
  {
    var row := EditRow(e.form.rows[index].id, f.title, f.description, f.assigneeId, f.status, f.deadline);
    e.(form := e.form.(rows := e.form.rows[index := row]))
  }

  /** The normalised task a row submits: empty text and a falsy assignee become
      absent, a falsy status becomes PENDING. */
  function RowSpec(row: EditRow): (spec: TaskSpec)
    ensures spec.title == row.title
    ensures row.status.None? ==> spec.status == Some(Pending)
    ensures row.status.Some? ==> spec.status == row.status
    ensures row.description == "" <==> spec.description.None?
    ensures row.description != "" ==> spec.description == Some(row.description)
    ensures TruthyText(row.deadline) ==> spec.deadline == row.deadline
    ensures !TruthyText(row.deadline) ==> spec.deadline == None
    ensures TruthyId(row.assigneeId) ==> spec.assigneeId == row.assigneeId
    ensures !TruthyId(row.assigneeId) ==> spec.assigneeId == None
  {
    TaskSpec(row.title, if row.description != "" then Some(row.description) else None,
             Some(row.status.GetOr(Pending)), TextOrAbsent(row.deadline), IdOrAbsent(row.assigneeId))
  }

  function HasId(row: EditRow): bool { TruthyId(row.id) }

  function LacksId(row: EditRow): bool { !TruthyId(row.id) }

  /** The nested update a row of an existing task submits. */
  function EditOf(row: EditRow): (r: TaskEdit)
    ensures r.spec == RowSpec(row)
    ensures row.id.Some? ==> r.id == row.id.value
  {
    TaskEdit(row.id.GetOr(0), RowSpec(row))
  }

  /** `x` is what some id-less row of `rows` submits as a create. */
  ghost predicate CreatedFrom(rows: seq<EditRow>, x: TaskSpec)
  {
    exists j :: 0 <= j < |rows| && !TruthyId(rows[j].id) && x == RowSpec(rows[j])
  }

  /** `x` is what some row of `rows` with an id submits as an update. */
  ghost predicate UpdatedFrom(rows: seq<EditRow>, x: TaskEdit)
  {
    exists j :: 0 <= j < |rows| && TruthyId(rows[j].id) && x == EditOf(rows[j])
  }

  /** What a row of the tail submits, a row of the whole list submits too. */
  lemma FromTail(rows: seq<EditRow>, c: TaskSpec, u: TaskEdit)
    requires |rows| > 0
    ensures CreatedFrom(rows[1..], c) ==> CreatedFrom(rows, c)
    ensures UpdatedFrom(rows[1..], u) ==> UpdatedFrom(rows, u)
  {
    var tail := rows[1..];
    if CreatedFrom(tail, c) {
      var j :| 0 <= j < |tail| && !TruthyId(tail[j].id) && c == RowSpec(tail[j]);
      assert rows[j + 1] == tail[j];
    }
    if UpdatedFrom(tail, u) {
      var j :| 0 <= j < |tail| && TruthyId(tail[j].id) && u == EditOf(tail[j]);
      assert rows[j + 1] == tail[j];
    }
  }

  /** The two `filter`/`map` passes of `submitEditProject`, done in one pass:
      the id-less rows, in order, become the creates, the rows with an id, in
      order, become the updates, and each row lands in exactly one list. */
  function SplitRows(rows: seq<EditRow>): (r: (seq<TaskSpec>, seq<TaskEdit>))
    ensures r.0 == Map(Filter(rows, LacksId), RowSpec)
    ensures r.1 == Map(Filter(rows, HasId), EditOf)
    ensures |r.0| + |r.1| == |rows|
    ensures forall k :: 0 <= k < |r.0| ==> CreatedFrom(rows, r.0[k])
    ensures forall k :: 0 <= k < |r.1| ==> UpdatedFrom(rows, r.1[k])
    decreases |rows|
  {
    if |rows| == 0 then ([], [])
    else
      var rest := SplitRows(rows[1..]);
      var c := rest.0;
      var u := rest.1;
      assert forall k :: 0 <= k < |c| ==> CreatedFrom(rows, c[k]) by {
        forall k | 0 <= k < |c| ensures CreatedFrom(rows, c[k]) {
          FromTail(rows, c[k], EditOf(rows[0]));
        }
      }
      assert forall k :: 0 <= k < |u| ==> UpdatedFrom(rows, u[k]) by {
        forall k | 0 <= k < |u| ensures UpdatedFrom(rows, u[k]) {
          FromTail(rows, RowSpec(rows[0]), u[k]);
        }
      }
      if TruthyId(rows[0].id) then
        assert UpdatedFrom(rows, EditOf(rows[0]));
        assert Filter(rows, HasId) == [rows[0]] + Filter(rows[1..], HasId);
        MapPrepend(rows[0], Filter(rows[1..], HasId), EditOf);
        (c, [EditOf(rows[0])] + u)
      else
        assert CreatedFrom(rows, RowSpec(rows[0]));
        assert Filter(rows, LacksId) == [rows[0]] + Filter(rows[1..], LacksId);
        MapPrepend(rows[0], Filter(rows[1..], LacksId), RowSpec);
        ([RowSpec(rows[0])] + c, u)
  }

  /** `submitEditProject`: rows without an id are created, rows with one are
      updated, and every removed id is deleted. */
  function SubmitEditProject(e: EditSession): (patch: ProjectPatch)
    ensures patch.name == Some(e.form.name)
    ensures e.form.description == "" <==> patch.description.None?
    ensures e.form.description != "" ==> patch.description == Some(e.form.description)
    ensures e.form.deadline == "" <==> patch.deadline.None?
    ensures e.form.deadline != "" ==> patch.deadline == Some(e.form.deadline)
    ensures patch.tasks.delete == e.deleted
    ensures patch.tasks.create == Map(Filter(e.form.rows, LacksId), RowSpec)
    ensures patch.tasks.update == Map(Filter(e.form.rows, HasId), EditOf)
    ensures |patch.tasks.create| + |patch.tasks.update| == |e.form.rows|
    ensures forall k :: 0 <= k < |patch.tasks.create| ==> CreatedFrom(e.form.rows, patch.tasks.create[k])
    ensures forall k :: 0 <= k < |patch.tasks.update| ==> UpdatedFrom(e.form.rows, patch.tasks.update[k])
  {
    var split := SplitRows(e.form.rows);
    ProjectPatch(Some(e.form.name), if e.form.description != "" then Some(e.form.description) else None,
                 if e.form.deadline != "" then Some(e.form.deadline) else None,
                 Delta(e.deleted, split.0, split.1))
  }

  /** The form still matches the store: every row id is a task of the project,
      appears on one row only, and is not also queued for deletion. */
  ghost predicate Consistent(s: Store, projectId: int, e: EditSession)
  {
    && (forall k :: 0 <= k < |e.form.rows| && TruthyId(e.form.rows[k].id) ==>
          Owns(s.tasks, projectId, e.form.rows[k].id.value) && e.form.rows[k].id.value !in e.deleted)
    && (forall i, j :: 0 <= i < j < |e.form.rows| && TruthyId(e.form.rows[i].id) ==>
          e.form.rows[i].id != e.form.rows[j].id)
  }

  /** A form opened on a listed project of a well-formed store is consistent. */
  lemma OpenEditModalConsistent(s: Store, projectId: int)
    requires Wf(s)
    requires ProjectIndex(s.projects, projectId).Some?
    ensures var v := Listed(s.projects[ProjectIndex(s.projects, projectId).value], TasksOf(s.tasks, projectId));
            Consistent(s, projectId, OpenEditModal(v))
  {
    var own := TasksOf(s.tasks, projectId);
    var v := Listed(s.projects[ProjectIndex(s.projects, projectId).value], own);
    var e := OpenEditModal(v);
    FilterIncreasing(s.tasks, (t: Task) => t.projectId == projectId, TaskId);
    forall k | 0 <= k < |e.form.rows| && TruthyId(e.form.rows[k].id)
      ensures Owns(s.tasks, projectId, e.form.rows[k].id.value)
    {
      var j :| 0 <= j < |s.tasks| && s.tasks[j] == own[k];
    }
    forall i, j | 0 <= i < j < |e.form.rows| && TruthyId(e.form.rows[i].id)
      ensures e.form.rows[i].id != e.form.rows[j].id
    {
      assert TaskId(own[i]) < TaskId(own[j]);
    }
  }

  /** Adding a blank row keeps the form consistent. */
  lemma AddKeepsConsistent(s: Store, projectId: int, e: EditSession)
    requires Consistent(s, projectId, e)
    ensures Consistent(s, projectId, AddEditTaskRow(e))
  {
    var rows := e.form.rows;
    var added := AddEditTaskRow(e).form.rows;
    assert forall k :: 0 <= k < |rows| ==> added[k] == rows[k];
  }

  /** Removing a row keeps the form consistent: the removed id, if any, is
      now marked deleted and no longer shown. */
  lemma RemoveKeepsConsistent(s: Store, projectId: int, e: EditSession, index: nat)
    requires Consistent(s, projectId, e)
    requires index < |e.form.rows|
    ensures Consistent(s, projectId, RemoveEditTaskRow(e, index))
  {
    var rows := e.form.rows;
    var r := RemoveEditTaskRow(e, index);
    var rest := r.form.rows;
    assert forall k :: 0 <= k < |rest| ==> rest[k] == if k < index then rows[k] else rows[k + 1];
    forall k | 0 <= k < |rest| && TruthyId(rest[k].id)
      ensures rest[k].id.value !in r.deleted
    {
      var m := if k < index then k else k + 1;
      assert rest[k] == rows[m] && m != index;
    }
    forall i, j | 0 <= i < j < |rest| && TruthyId(rest[i].id)
      ensures rest[i].id != rest[j].id
    {
      var i' := if i < index then i else i + 1;
      var j' := if j < index then j else j + 1;
      assert rest[i] == rows[i'] && rest[j] == rows[j'] && i' < j';
    }
  }

  /** Adding, removing and changing rows keep the form consistent. */
  lemma EditActionsKeepConsistent(s: Store, projectId: int, e: EditSession, index: nat, f: RowFields)
    requires Consistent(s, projectId, e)
    ensures Consistent(s, projectId, AddEditTaskRow(e))
    ensures index < |e.form.rows| ==> Consistent(s, projectId, RemoveEditTaskRow(e, index))
    ensures index < |e.form.rows| ==> Consistent(s, projectId, UpdateEditTaskRow(e, index, f))
  {
    AddKeepsConsistent(s, projectId, e);
    if index < |e.form.rows| {
      RemoveKeepsConsistent(s, projectId, e, index);
    }
  }

  /** One user action on the open form. */
  datatype EditAction = Add | Remove(index: nat) | Change(index: nat, fields: RowFields)

  /** The form after a run of actions; an action on a row that is not there does nothing. */
  function Replay(e: EditSession, actions: seq<EditAction>): EditSession
    decreases |actions|
  {
    if |actions| == 0 then e
    else
      var e' := match actions[0]
        case Add => AddEditTaskRow(e)
        case Remove(i) => if i < |e.form.rows| then RemoveEditTaskRow(e, i) else e
        case Change(i, f) => if i < |e.form.rows| then UpdateEditTaskRow(e, i, f) else e;
      Replay(e', actions[1..])
  }

  /** Any run of actions keeps the form consistent. */
  lemma {:induction false} ReplayKeepsConsistent(s: Store, projectId: int, e: EditSession, actions: seq<EditAction>)
    requires Consistent(s, projectId, e)
    ensures Consistent(s, projectId, Replay(e, actions))
    decreases |actions|
  {
    if |actions| > 0 {
      match actions[0]
      case Add =>
        EditActionsKeepConsistent(s, projectId, e, 0, RowFields("", "", None, None, None));
        ReplayKeepsConsistent(s, projectId, AddEditTaskRow(e), actions[1..]);
      case Remove(i) =>
        EditActionsKeepConsistent(s, projectId, e, i, RowFields("", "", None, None, None));
        var e' := if i < |e.form.rows| then RemoveEditTaskRow(e, i) else e;
        ReplayKeepsConsistent(s, projectId, e', actions[1..]);
      case Change(i, f) =>
        EditActionsKeepConsistent(s, projectId, e, i, f);
        var e' := if i < |e.form.rows| then UpdateEditTaskRow(e, i, f) else e;
        ReplayKeepsConsistent(s, projectId, e', actions[1..]);
    }
  }

  /** A consistent form submits a delta the server applies without error: it
      never asks to update a task it also deletes. */
  lemma SubmitConsistentSucceeds(s: Store, projectId: int, e: EditSession)
    requires ProjectIndex(s.projects, projectId).Some?
    requires Consistent(s, projectId, e)
    ensures UpdateProject(s, projectId, SubmitEditProject(e)).Ok?
  {
    var patch := SubmitEditProject(e);
    forall k | 0 <= k < |patch.tasks.update|
      ensures Owns(s.tasks, projectId, patch.tasks.update[k].id) && patch.tasks.update[k].id !in patch.tasks.delete
    {
      assert UpdatedFrom(e.form.rows, patch.tasks.update[k]);
      var j :| 0 <= j < |e.form.rows| && TruthyId(e.form.rows[j].id) && patch.tasks.update[k] == EditOf(e.form.rows[j]);
      assert patch.tasks.update[k].id == e.form.rows[j].id.value;
    }
    UpdateProjectSucceeds(s, projectId, patch);
  }

  /** Opening the form on a project, editing it in any way and saving, with no
      other write in between, never fails. */
  lemma EditSessionSucceeds(s: Store, projectId: int, actions: seq<EditAction>)
    requires Wf(s)
    requires ProjectIndex(s.projects, projectId).Some?
    ensures var v := Listed(s.projects[ProjectIndex(s.projects, projectId).value], TasksOf(s.tasks, projectId));
            UpdateProject(s, projectId, SubmitEditProject(Replay(OpenEditModal(v), actions))).Ok?
  {
    var v := Listed(s.projects[ProjectIndex(s.projects, projectId).value], TasksOf(s.tasks, projectId));
    OpenEditModalConsistent(s, projectId);
    ReplayKeepsConsistent(s, projectId, OpenEditModal(v), actions);
    SubmitConsistentSucceeds(s, projectId, Replay(OpenEditModal(v), actions));
  }
}
