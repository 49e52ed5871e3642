/** The notification service: per-user queries, read flags, and the fan-out
    helpers the task, report and project services call after their writes. */
module Notifications {
  import opened Wrappers
  import opened Seqs
  import opened Store

  /** `s'` differs from `s` only by notifications appended at the end. */
  ghost predicate OnlyAppended(s: Store, s': Store)
  {
    && s'.users == s.users
    && s'.projects == s.projects
    && s'.tasks == s.tasks
    && s'.reports == s.reports
    && |s.notifications| <= |s'.notifications|
    && s'.notifications[..|s.notifications|] == s.notifications
    && s.nextId <= s'.nextId
  }

  /** The notifications `s'` holds beyond those of `s`. */
  function Emitted(s: Store, s': Store): seq<Notification>
    requires |s.notifications| <= |s'.notifications|
  {
    s'.notifications[|s.notifications|..]
  }

  /** One unread notification per element of `recipients`, in the same order,
      all carrying the same message and the same task and project references. */
  ghost predicate Announces(ns: seq<Notification>, recipients: seq<int>, m: Message,
                            taskId: Option<int>, projectId: Option<int>)
  {
    && |ns| == |recipients|
    && forall k :: 0 <= k < |ns| ==>
         && ns[k].userId == recipients[k]
         && ns[k].message == m
         && ns[k].taskId == taskId
         && ns[k].projectId == projectId
         && !ns[k].read
  }

  /** `createNotificationsForUsers`: one row per element of `userIds`, duplicates
      included; an empty list writes nothing. */
  function CreateNotificationsForUsers(s: Store, userIds: seq<int>, m: Message,
                                       taskId: Option<int>, projectId: Option<int>): (s': Store)
    ensures OnlyAppended(s, s')
    ensures Announces(Emitted(s, s'), userIds, m, taskId, projectId)
    ensures |userIds| == 0 ==> s' == s
  {
    if |userIds| == 0 then s
    else
      var rows := seq(|userIds|, k requires 0 <= k < |userIds| =>
        Notification(s.nextId + k, userIds[k], m, taskId, projectId, false, s.nextId));
      assert (s.notifications + rows)[..|s.notifications|] == s.notifications;
      assert (s.notifications + rows)[|s.notifications|..] == rows;
      s.(notifications := s.notifications + rows, nextId := s.nextId + |userIds|)
  }

  /** The appended rows get fresh increasing ids and the current stamp. */
  lemma CreateNotificationsKeepsWf(s: Store, userIds: seq<int>, m: Message,
                                   taskId: Option<int>, projectId: Option<int>)
    requires Wf(s)
    ensures Wf(CreateNotificationsForUsers(s, userIds, m, taskId, projectId))
  {
    var s' := CreateNotificationsForUsers(s, userIds, m, taskId, projectId);
    if |userIds| > 0 {
      var rows := Emitted(s, s');
      assert s'.notifications == s.notifications + rows;
      forall k | 0 <= k < |rows|
        ensures rows[k].id == s.nextId + k && rows[k].createdAt == s.nextId
      {
      }
      KeyedAppend(s.notifications, rows, NotificationId, s.nextId, s'.nextId);
      StampedAppend(s.notifications, rows, NotificationId, NotificationStamp, s.nextId);
      KeyedRaise(s.users, UserId, s.nextId, s'.nextId);
      KeyedRaise(s.projects, ProjectId, s.nextId, s'.nextId);
      KeyedRaise(s.tasks, TaskId, s.nextId, s'.nextId);
      KeyedRaise(s.reports, ReportId, s.nextId, s'.nextId);
    }
  }

  /** `createNotification`: a single row. */
  function CreateNotification(s: Store, userId: int, m: Message,
                              taskId: Option<int>, projectId: Option<int>): (s': Store)
    ensures OnlyAppended(s, s')
    ensures Announces(Emitted(s, s'), [userId], m, taskId, projectId)
  {
    CreateNotificationsForUsers(s, [userId], m, taskId, projectId)
  }

  /** `getUserNotifications`: a falsy user id yields nothing rather than the
      whole table; otherwise exactly that user's notifications. */
  function GetUserNotifications(s: Store, userId: int): (r: seq<Notification>)
    ensures userId == 0 ==> r == []
    ensures forall i :: 0 <= i < |r| ==> r[i] in s.notifications && r[i].userId == userId
    ensures userId != 0 ==> forall n :: n in s.notifications && n.userId == userId ==> n in r
  {
    if userId == 0 then []
    else Reverse(Filter(s.notifications, (n: Notification) => n.userId == userId))
  }

  /** The listing is ordered newest first (`orderBy: { createdAt: 'desc' }`), ties by id. */
  lemma GetUserNotificationsNewestFirst(s: Store, userId: int)
    requires Wf(s)
    ensures NonIncreasing(GetUserNotifications(s, userId), NotificationStamp)
    ensures Decreasing(GetUserNotifications(s, userId), NotificationId)
  {
    if userId != 0 {
      var p := (n: Notification) => n.userId == userId;
      FilterIncreasing(s.notifications, p, NotificationId);
      FilterNonDecreasing(s.notifications, p, NotificationStamp);
      ReverseOrders(Filter(s.notifications, p), NotificationId);
      ReverseOrders(Filter(s.notifications, p), NotificationStamp);
    }
  }

  /** `markAsRead`: a missing id throws; otherwise only the `read` flag of the
      row with that id changes. */
  function MarkAsRead(s: Store, id: int): (r: Result<Store, Error>)
    ensures r.Err? <==> forall i :: 0 <= i < |s.notifications| ==> s.notifications[i].id != id
    ensures r.Ok? ==> r.value == s.(notifications := r.value.notifications)
    ensures r.Ok? ==> |r.value.notifications| == |s.notifications|
    ensures r.Ok? ==> forall i :: 0 <= i < |s.notifications| ==>
              || r.value.notifications[i] == s.notifications[i]
              || (s.notifications[i].id == id && r.value.notifications[i] == s.notifications[i].(read := true))
    ensures r.Ok? ==> exists i :: 0 <= i < |s.notifications| && s.notifications[i].id == id && r.value.notifications[i].read
  {
    match NotificationIndex(s.notifications, id)
    case None => Err(NotFound)
    case Some(i) => Ok(s.(notifications := s.notifications[i := s.notifications[i].(read := true)]))
  }

  /** With unique ids, exactly the one row carrying `id` becomes read; marking it
      again changes nothing. */
  lemma {:induction false} MarkAsReadExactlyOne(s: Store, id: int)
    requires Wf(s)
    requires MarkAsRead(s, id).Ok?
    ensures var ns' := MarkAsRead(s, id).value.notifications;
      forall i :: 0 <= i < |s.notifications| && s.notifications[i].id == id ==> ns'[i].read
    ensures MarkAsRead(MarkAsRead(s, id).value, id) == MarkAsRead(s, id)
  {
    var i :| NotificationIndex(s.notifications, id) == Some(i);
    forall j | 0 <= j < |s.notifications| && s.notifications[j].id == id
      ensures j == i
    {
      IncreasingUnique(s.notifications, NotificationId, i, j);
    }
    var s1 := MarkAsRead(s, id).value;
    assert NotificationIndex(s1.notifications, id) == Some(i);
    assert s1.notifications[i := s1.notifications[i].(read := true)] == s1.notifications;
  }

  /** `markAllAsRead`: every notification of `userId` ends up read; every other
      user's notifications are untouched. */
  function MarkAllAsRead(s: Store, userId: int): (s': Store)
    ensures s' == s.(notifications := s'.notifications)
    ensures |s'.notifications| == |s.notifications|
    ensures forall i :: 0 <= i < |s.notifications| && s.notifications[i].userId == userId ==>
              s'.notifications[i] == s.notifications[i].(read := true)
    ensures forall i :: 0 <= i < |s.notifications| && s.notifications[i].userId != userId ==>
              s'.notifications[i] == s.notifications[i]
  {
    var ns := s.notifications;
    s.(notifications := seq(|ns|, i requires 0 <= i < |ns| =>
      if ns[i].userId == userId && !ns[i].read then ns[i].(read := true) else ns[i]))
  }

  /** Marking all read twice is the same as once. */
  lemma MarkAllAsReadIdempotent(s: Store, userId: int)
    ensures MarkAllAsRead(MarkAllAsRead(s, userId), userId) == MarkAllAsRead(s, userId)
  {
  }

  /** Helper 1: every admin hears about a new report, once each. */
  function NotifyAdminsForReport(s: Store, taskId: int, projectId: int, taskTitle: string): (s': Store)
    ensures OnlyAppended(s, s')
    ensures Announces(Emitted(s, s'), AdminIds(s.users), NewReport(taskTitle), Some(taskId), Some(projectId))
  {
    CreateNotificationsForUsers(s, AdminIds(s.users), NewReport(taskTitle), Some(taskId), Some(projectId))
  }

  /** Helper 2: the assignee hears about a status change (no service calls it). */
  function NotifyAssigneeStatusChange(s: Store, taskId: int, projectId: int, taskTitle: string,
                                      assigneeId: int, newStatus: Status): (s': Store)
    ensures OnlyAppended(s, s')
    ensures Announces(Emitted(s, s'), [assigneeId], AssigneeStatusChanged(taskTitle, newStatus),
                      Some(taskId), Some(projectId))
  {
    CreateNotification(s, assigneeId, AssigneeStatusChanged(taskTitle, newStatus), Some(taskId), Some(projectId))
  }

  /** Helper 3: the assignee hears that a task was assigned to them. */
  function NotifyAssigneeTaskAssigned(s: Store, taskId: int, projectId: int, taskTitle: string,
                                      assigneeId: int): (s': Store)
    ensures OnlyAppended(s, s')
    ensures Announces(Emitted(s, s'), [assigneeId], Assigned(taskTitle), Some(taskId), Some(projectId))
  {
    CreateNotification(s, assigneeId, Assigned(taskTitle), Some(taskId), Some(projectId))
  }

  /** The truthy assignee ids of `tasks`, in order, repeats included
      (`tasks.map(t => t.assigneeId).filter(Boolean)`). */
  function TruthyAssignees(tasks: seq<Task>): (r: seq<int>)
    ensures forall x :: x in r <==> x != 0 && exists i :: 0 <= i < |tasks| && tasks[i].assigneeId == Some(x)
  {
    if |tasks| == 0 then []
    else
      var rest := TruthyAssignees(tasks[1..]);
      assert forall i :: 1 <= i < |tasks| ==> tasks[i] == tasks[1..][i - 1];
      (if TruthyId(tasks[0].assigneeId) then [tasks[0].assigneeId.value] else []) + rest
  }

  /** Who hears that a project finished: each distinct truthy assignee of its tasks. */
  function FinishRecipients(tasks: seq<Task>, projectId: int): (r: seq<int>)
    ensures Distinct(r)
    ensures forall x :: x in r <==>
              x != 0 && exists t :: t in tasks && t.projectId == projectId && t.assigneeId == Some(x)
  {
    var own := TasksOf(tasks, projectId);
    var r := Dedup(TruthyAssignees(own));
    assert forall x :: x in r <==> x in TruthyAssignees(own);
    r
  }

  /** Helper 4: each distinct assignee of the project's tasks hears, once, that it
      finished; a missing project, or one without assignees, notifies nobody. */
  function NotifyProjectFinished(s: Store, projectId: int, projectName: string): (s': Store)
    ensures OnlyAppended(s, s')
    ensures ProjectIndex(s.projects, projectId).None? ==> s' == s
    ensures ProjectIndex(s.projects, projectId).Some? ==>
              Announces(Emitted(s, s'), FinishRecipients(s.tasks, projectId), ProjectFinished(projectName),
                        None, Some(projectId))
    ensures ProjectIndex(s.projects, projectId).None? || |FinishRecipients(s.tasks, projectId)| == 0 ==>
              Emitted(s, s') == []
  {
    match ProjectIndex(s.projects, projectId)
    case None => s
    case Some(_) =>
      var userIds := FinishRecipients(s.tasks, projectId);
      if |userIds| > 0 then
        CreateNotificationsForUsers(s, userIds, ProjectFinished(projectName), None, Some(projectId))
      else s
  }

  /** The unnumbered admin fan-out: every admin hears about a status change; with no admins nothing is written. */
  function NotifyAdminsForTaskStatusChange(s: Store, taskId: int, projectId: int, taskTitle: string,
                                           newStatus: Status): (s': Store)
    ensures OnlyAppended(s, s')
    ensures Announces(Emitted(s, s'), AdminIds(s.users), StatusChanged(taskTitle, newStatus),
                      Some(taskId), Some(projectId))
  {
    var admins := AdminIds(s.users);
    if |admins| == 0 then s
    else CreateNotificationsForUsers(s, admins, StatusChanged(taskTitle, newStatus), Some(taskId), Some(projectId))
  }

  /** An admin fan-out reaches every admin exactly once, and nobody else. */
  lemma AdminFanOutOncePerAdmin(s: Store, ns: seq<Notification>, m: Message,
                                taskId: Option<int>, projectId: Option<int>)
    requires Wf(s)
    requires Announces(ns, AdminIds(s.users), m, taskId, projectId)
    ensures forall k :: 0 <= k < |ns| ==> IsAdmin(s.users, ns[k].userId)
    ensures forall i :: 0 <= i < |s.users| && s.users[i].role == Admin ==>
              exists k :: 0 <= k < |ns| && ns[k].userId == s.users[i].id
    ensures forall k, l :: 0 <= k < l < |ns| ==> ns[k].userId != ns[l].userId
  {
    var admins := AdminIds(s.users);
    if |s.users| > 0 {
      AdminIdsDistinct(s.users);
    }
    forall k | 0 <= k < |ns|
      ensures IsAdmin(s.users, ns[k].userId)
    {
      assert ns[k].userId == admins[k];
    }
    forall i | 0 <= i < |s.users| && s.users[i].role == Admin
      ensures exists k :: 0 <= k < |ns| && ns[k].userId == s.users[i].id
    {
      var k :| 0 <= k < |admins| && admins[k] == s.users[i].id;
      assert ns[k].userId == s.users[i].id;
    }
  }
}
