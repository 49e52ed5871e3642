/** The five tables the services read and write, as one immutable value.
    The relational database is replaced by sequences kept in insertion order and
    a single id counter; `createdAt` stamps come from the same counter, so a
    larger stamp means a later write. */
module Store {
  import opened Wrappers
  import opened Seqs

  datatype Role = Admin | Member

  datatype Status = Pending | InProgress | Done

  datatype User = User(id: int, name: string, role: Role)

  datatype Project = Project(
    id: int,
    name: string,
    description: Option<string>,
    deadline: Option<string>,
    finished: bool,
    createdAt: int)

  /** Deadlines are opaque date strings; `""` counts as missing, as in JavaScript. */
  datatype Task = Task(
    id: int,
    title: string,
    description: Option<string>,
    status: Status,
    deadline: Option<string>,
    projectId: int,
    assigneeId: Option<int>)

  datatype Report = Report(
    id: int,
    taskId: int,
    userId: int,
    message: string,
    seen: bool,
    createdAt: int)

  /** The five message templates of the notification service, by the event they report. */
  datatype Message =
    | Assigned(taskTitle: string)
    | NewReport(taskTitle: string)
    | StatusChanged(taskTitle: string, status: Status)
    | AssigneeStatusChanged(taskTitle: string, status: Status)
    | ProjectFinished(projectName: string)

  datatype Notification = Notification(
    id: int,
    userId: int,
    message: Message,
    taskId: Option<int>,
    projectId: Option<int>,
    read: bool,
    createdAt: int)

  datatype Store = Store(
    users: seq<User>,
    projects: seq<Project>,
    tasks: seq<Task>,
    reports: seq<Report>,
    notifications: seq<Notification>,
    nextId: int)

  /** What the services throw: a missing row (Prisma's record-not-found, or an
      explicit `NotFoundException`) and the status check of `updateTaskStatus`. */
  datatype Error = NotFound | InvalidStatus

  /** The enum's wire name. */
  function StatusName(st: Status): string
  {
    match st
    case Pending => "PENDING"
    case InProgress => "IN_PROGRESS"
    case Done => "DONE"
  }

  /** The text a notification row stores for each template. */
  function Render(m: Message): string
  {
    match m
    case Assigned(t) => "You have been assigned task \"" + t + "\""
    case NewReport(t) => "New report on task \"" + t + "\""
    case StatusChanged(t, st) => "Task \"" + t + "\" status changed to " + StatusName(st)
    case AssigneeStatusChanged(t, st) =>
      "The task addigned to you status changed from \"" + t + "\" to  " + StatusName(st)
    case ProjectFinished(n) => "Project \"" + n + "\" has been marked as finished"
  }

  // JavaScript truthiness of optional ids and strings.

  predicate TruthyId(x: Option<int>)
  {
    x.Some? && x.value != 0
  }

  predicate TruthyText(x: Option<string>)
  {
    x.Some? && x.value != ""
  }

  /** `x || undefined` on an optional id. */
  function IdOrAbsent(x: Option<int>): Option<int>
  {
    if TruthyId(x) then x else None
  }

  /** `x || undefined` on an optional string. */
  function TextOrAbsent(x: Option<string>): Option<string>
  {
    if TruthyText(x) then x else None
  }

  // Keys of each table, as functions so that the generic ordering lemmas apply.

  function UserId(u: User): int { u.id }
  function ProjectId(p: Project): int { p.id }
  function ProjectStamp(p: Project): int { p.createdAt }
  function TaskId(t: Task): int { t.id }
  function ReportId(r: Report): int { r.id }
  function ReportStamp(r: Report): int { r.createdAt }
  function NotificationId(n: Notification): int { n.id }
  function NotificationStamp(n: Notification): int { n.createdAt }

  /** Ids are positive, strictly increasing in insertion order, and below the counter. */
  ghost predicate Keyed<T>(rows: seq<T>, key: T -> int, next: int)
  {
    && Increasing(rows, key)
    && forall i :: 0 <= i < |rows| ==> 1 <= key(rows[i]) < next
  }

  /** Stamps never decrease in insertion order and never exceed the row's own id. */
  ghost predicate Stamped<T>(rows: seq<T>, key: T -> int, stamp: T -> int)
  {
    && NonDecreasing(rows, stamp)
    && forall i :: 0 <= i < |rows| ==> stamp(rows[i]) <= key(rows[i])
  }

  /** The invariant the database's autoincrement ids and `now()` defaults maintain. */
  ghost predicate Wf(s: Store)
  {
    && 1 <= s.nextId
    && Keyed(s.users, UserId, s.nextId)
    && Keyed(s.projects, ProjectId, s.nextId)
    && Stamped(s.projects, ProjectId, ProjectStamp)
    && Keyed(s.tasks, TaskId, s.nextId)
    && Keyed(s.reports, ReportId, s.nextId)
    && Stamped(s.reports, ReportId, ReportStamp)
    && Keyed(s.notifications, NotificationId, s.nextId)
    && Stamped(s.notifications, NotificationId, NotificationStamp)
  }

  lemma KeyedAppend<T>(rows: seq<T>, extra: seq<T>, key: T -> int, next: int, next': int)
    requires Keyed(rows, key, next) && Increasing(extra, key) && 1 <= next <= next'
    requires forall i :: 0 <= i < |extra| ==> next <= key(extra[i]) < next'
    ensures Keyed(rows + extra, key, next')
  {
    var all := rows + extra;
    forall i, j | 0 <= i < j < |all|
      ensures key(all[i]) < key(all[j])
    {
      if j < |rows| {
      } else if i < |rows| {
        assert all[j] == extra[j - |rows|];
      } else {
        assert all[i] == extra[i - |rows|] && all[j] == extra[j - |rows|];
      }
    }
    forall i | 0 <= i < |all|
      ensures 1 <= key(all[i]) < next'
    {
      if i >= |rows| {
        assert all[i] == extra[i - |rows|];
      } else {
        assert all[i] == rows[i];
      }
    }
  }

  lemma StampedAppend<T>(rows: seq<T>, extra: seq<T>, key: T -> int, stamp: T -> int, next: int)
    requires Stamped(rows, key, stamp)
    requires forall i :: 0 <= i < |rows| ==> key(rows[i]) < next
    requires forall i :: 0 <= i < |extra| ==> stamp(extra[i]) == next <= key(extra[i])
    ensures Stamped(rows + extra, key, stamp)
  {
    var all := rows + extra;
    forall i, j | 0 <= i < j < |all|
      ensures stamp(all[i]) <= stamp(all[j])
    {
      if j < |rows| {
      } else if i < |rows| {
        assert all[j] == extra[j - |rows|];
      } else {
        assert all[i] == extra[i - |rows|] && all[j] == extra[j - |rows|];
      }
    }
  }

  /** Rewriting rows in place without touching their ids keeps the ids well formed. */
  lemma KeyedSameKeys<T>(rows: seq<T>, rows': seq<T>, key: T -> int, next: int, next': int)
    requires Keyed(rows, key, next) && next <= next'
    requires |rows'| == |rows|
    requires forall i :: 0 <= i < |rows| ==> key(rows'[i]) == key(rows[i])
    ensures Keyed(rows', key, next')
  {
  }

  lemma StampedSameStamps<T>(rows: seq<T>, rows': seq<T>, key: T -> int, stamp: T -> int)
    requires Stamped(rows, key, stamp)
    requires |rows'| == |rows|
    requires forall i :: 0 <= i < |rows| ==> key(rows'[i]) == key(rows[i]) && stamp(rows'[i]) == stamp(rows[i])
    ensures Stamped(rows', key, stamp)
  {
  }

  /** Deleting rows keeps the ids well formed. */
  lemma KeyedFilter<T>(rows: seq<T>, p: T -> bool, key: T -> int, next: int)
    requires Keyed(rows, key, next)
    ensures Keyed(Filter(rows, p), key, next)
  {
    FilterIncreasing(rows, p, key);
    var r := Filter(rows, p);
    forall i | 0 <= i < |r|
      ensures 1 <= key(r[i]) < next
    {
      var j :| 0 <= j < |rows| && rows[j] == r[i];
    }
  }

  lemma StampedFilter<T>(rows: seq<T>, p: T -> bool, key: T -> int, stamp: T -> int)
    requires Stamped(rows, key, stamp)
    ensures Stamped(Filter(rows, p), key, stamp)
  {
    FilterNonDecreasing(rows, p, stamp);
    var r := Filter(rows, p);
    forall i | 0 <= i < |r|
      ensures stamp(r[i]) <= key(r[i])
    {
      var j :| 0 <= j < |rows| && rows[j] == r[i];
    }
  }

  /** Deleting the row at one position keeps the ids well formed. */
  lemma KeyedRemoveAt<T>(rows: seq<T>, i: nat, key: T -> int, next: int)
    requires Keyed(rows, key, next) && i < |rows|
    ensures Keyed(rows[..i] + rows[i + 1..], key, next)
  {
    var rest := rows[..i] + rows[i + 1..];
    assert forall k :: 0 <= k < |rest| ==> rest[k] == if k < i then rows[k] else rows[k + 1];
  }

  /** Deleting the row at one position keeps the stamps ordered. */
  lemma StampedRemoveAt<T>(rows: seq<T>, i: nat, key: T -> int, stamp: T -> int)
    requires Stamped(rows, key, stamp) && i < |rows|
    ensures Stamped(rows[..i] + rows[i + 1..], key, stamp)
  {
    var rest := rows[..i] + rows[i + 1..];
    assert forall k :: 0 <= k < |rest| ==> rest[k] == if k < i then rows[k] else rows[k + 1];
  }

  /** Raising the counter keeps the ids below it. */
  lemma KeyedRaise<T>(rows: seq<T>, key: T -> int, next: int, next': int)
    requires Keyed(rows, key, next) && next <= next'
    ensures Keyed(rows, key, next')
  {
  }

  /** Inserting a task under the next id keeps the store well formed. */
  lemma AddTaskKeepsWf(s: Store, t: Task)
    requires Wf(s) && t.id == s.nextId
    ensures Wf(s.(tasks := s.tasks + [t], nextId := s.nextId + 1))
  {
    var next := s.nextId + 1;
    KeyedAppend(s.tasks, [t], TaskId, s.nextId, next);
    KeyedRaise(s.users, UserId, s.nextId, next);
    KeyedRaise(s.projects, ProjectId, s.nextId, next);
    KeyedRaise(s.reports, ReportId, s.nextId, next);
    KeyedRaise(s.notifications, NotificationId, s.nextId, next);
  }

  /** Inserting a report under the next id, stamped now, keeps the store well formed. */
  lemma AddReportKeepsWf(s: Store, x: Report)
    requires Wf(s) && x.id == s.nextId && x.createdAt == s.nextId
    ensures Wf(s.(reports := s.reports + [x], nextId := s.nextId + 1))
  {
    var next := s.nextId + 1;
    KeyedAppend(s.reports, [x], ReportId, s.nextId, next);
    StampedAppend(s.reports, [x], ReportId, ReportStamp, s.nextId);
    KeyedRaise(s.users, UserId, s.nextId, next);
    KeyedRaise(s.projects, ProjectId, s.nextId, next);
    KeyedRaise(s.tasks, TaskId, s.nextId, next);
    KeyedRaise(s.notifications, NotificationId, s.nextId, next);
  }

  // Lookups by primary key (`findUnique({ where: { id } })`).

  function UserIndex(users: seq<User>, id: int): (r: Option<nat>)
    ensures r.Some? ==> r.value < |users| && users[r.value].id == id
    ensures r.Some? ==> forall j :: 0 <= j < r.value ==> users[j].id != id
    ensures r.None? ==> forall i :: 0 <= i < |users| ==> users[i].id != id
  {
    FindIndex(users, (u: User) => u.id == id)
  }

  function ProjectIndex(projects: seq<Project>, id: int): (r: Option<nat>)
    ensures r.Some? ==> r.value < |projects| && projects[r.value].id == id
    ensures r.Some? ==> forall j :: 0 <= j < r.value ==> projects[j].id != id
    ensures r.None? ==> forall i :: 0 <= i < |projects| ==> projects[i].id != id
  {
    FindIndex(projects, (p: Project) => p.id == id)
  }

  function TaskIndex(tasks: seq<Task>, id: int): (r: Option<nat>)
    ensures r.Some? ==> r.value < |tasks| && tasks[r.value].id == id
    ensures r.Some? ==> forall j :: 0 <= j < r.value ==> tasks[j].id != id
    ensures r.None? ==> forall i :: 0 <= i < |tasks| ==> tasks[i].id != id
  {
    FindIndex(tasks, (t: Task) => t.id == id)
  }

  function ReportIndex(reports: seq<Report>, id: int): (r: Option<nat>)
    ensures r.Some? ==> r.value < |reports| && reports[r.value].id == id
    ensures r.Some? ==> forall j :: 0 <= j < r.value ==> reports[j].id != id
    ensures r.None? ==> forall i :: 0 <= i < |reports| ==> reports[i].id != id
  {
    FindIndex(reports, (x: Report) => x.id == id)
  }

  function NotificationIndex(ns: seq<Notification>, id: int): (r: Option<nat>)
    ensures r.Some? ==> r.value < |ns| && ns[r.value].id == id
    ensures r.Some? ==> forall j :: 0 <= j < r.value ==> ns[j].id != id
    ensures r.None? ==> forall i :: 0 <= i < |ns| ==> ns[i].id != id
  {
    FindIndex(ns, (n: Notification) => n.id == id)
  }

  /** `x` is the id of an ADMIN user. */
  ghost predicate IsAdmin(users: seq<User>, x: int)
  {
    exists i :: 0 <= i < |users| && users[i].role == Admin && users[i].id == x
  }

  /** The ids of the ADMIN users, in table order (`user.findMany({ where: { role: 'ADMIN' } })`). */
  function AdminIds(users: seq<User>): (r: seq<int>)
    ensures |r| <= |users|
    ensures forall i :: 0 <= i < |users| && users[i].role == Admin ==> users[i].id in r
    ensures forall x :: x in r ==> IsAdmin(users, x)
  {
    if |users| == 0 then []
    else
      var rest := AdminIds(users[1..]);
      assert forall i :: 1 <= i < |users| ==> users[i] == users[1..][i - 1];
      (if users[0].role == Admin then [users[0].id] else []) + rest
  }

  /** With unique user ids every admin is listed exactly once. */
  lemma {:induction false} AdminIdsDistinct(users: seq<User>)
    requires Increasing(users, UserId)
    ensures Distinct(AdminIds(users))
    ensures forall x :: x in AdminIds(users) ==> users[0].id <= x
  {
    if |users| > 0 {
      var tail := users[1..];
      assert Increasing(tail, UserId) by {
        forall i, j | 0 <= i < j < |tail|
          ensures UserId(tail[i]) < UserId(tail[j])
        {
          assert tail[i] == users[i + 1] && tail[j] == users[j + 1];
        }
      }
      AdminIdsDistinct(tail);
      var rest := AdminIds(tail);
      forall x | x in rest
        ensures users[0].id < x
      {
        assert IsAdmin(tail, x);
        var i :| 0 <= i < |tail| && tail[i].role == Admin && tail[i].id == x;
        assert tail[i] == users[i + 1];
        assert UserId(users[0]) < UserId(users[i + 1]);
      }
      var head := if users[0].role == Admin then [users[0].id] else [];
      assert AdminIds(users) == head + rest;
      forall i, j | 0 <= i < j < |head + rest|
        ensures (head + rest)[i] != (head + rest)[j]
      {
        if i < |head| {
          assert (head + rest)[j] == rest[j - |head|];
          assert rest[j - |head|] in rest;
        } else {
          assert (head + rest)[i] == rest[i - |head|] && (head + rest)[j] == rest[j - |head|];
        }
      }
    }
  }

  /** The tasks of one project (`include: { tasks: true }`), in table order. */
  function TasksOf(tasks: seq<Task>, projectId: int): (r: seq<Task>)
    ensures forall i :: 0 <= i < |r| ==> r[i] in tasks && r[i].projectId == projectId
    ensures forall t :: t in tasks && t.projectId == projectId ==> t in r
  {
    Filter(tasks, (t: Task) => t.projectId == projectId)
  }
}
