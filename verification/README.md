# Task Management System — workflow core in Dafny

This project models the workflow core of a small task-management system. Admins
create projects with tasks, assign tasks to members, and mark projects finished.
Members move their tasks through PENDING → IN_PROGRESS → DONE and file reports on
them. Every assignment, report, status change and project completion fans out into
in-app notifications.

The five database tables (users, projects, tasks, task reports, notifications) are
one immutable `Store` value. Each table is a sequence in insertion order. One
counter hands out every id and also serves as the `createdAt` stamp, so a larger
stamp always means a later write. `Store.Wf` is the invariant the services rely on:
ids strictly increase within each table and lie below the counter, and stamps
never decrease and never exceed the row's id.

Modules:

- `Store` — the entities, JavaScript truthiness (`0` and `""` count as absent),
  lookups by id, and the well-formedness invariant.
- `Notifications` — the notification service. `Notifications.Announces` says
  exactly which rows a fan-out appends. `Notifications.OnlyAppended` says that
  nothing else changed.
- `Tasks` — the task service: create, update with assignee-change notice, status
  change with admin notice, lookup and delete.
- `TaskReports` — the report service: create with admin notice, list newest
  first, mark seen.
- `Projects` — the project service: create with raw nested tasks, update with a
  nested delete/create/update delta, both listings, finish with fan-out to
  assignees, delete with cascade.
- `Dashboard` — the dashboard page: completion percentage, member list, project
  tiles, personal tiles, the "Mark as Complete" guard, and the edit-project form.
  The form part covers opening, row add/remove/edit, and the submitted delta.
- `TasksSection` — the task list: role and filter-bar filtering, the unseen-report
  badge, the deadline badge and label, marking reports seen when an admin opens a
  task, and the status dropdown guard.
- `EditTaskModal` — the edit-task dialog: the initial form and the update body it
  sends.
- `Badges` — the day-count thresholds shared by the two deadline colourings.
- `Seqs`, `Wrappers` — generic sequence facts and `Option`/`Result`.

A service call that can fail returns `Result<Store, Error>`. `NotFound` stands for
Prisma's "record not found" and for the services' own not-found errors.
`InvalidStatus` stands for the status check of `updateTaskStatus`.

## Model

| member | source | states |
|---|---|---|
| `Store.AdminIds` | server/src/notification/notifications.service.ts:78-82 | holds exactly the ids of the ADMIN users |
| `Store.AdminIdsDistinct` | server/src/notification/notifications.service.ts:78-82 | with unique user ids no admin is listed twice |
| `Store.TasksOf` | server/src/projects/projects.service.ts:31-35 | exactly the tasks of one project |
| `Notifications.CreateNotificationsForUsers` | server/src/notification/notifications.service.ts:55-68 | appends one unread notification per listed user, in list order, with the same message and links; nothing else changes; an empty list changes nothing |
| `Notifications.CreateNotificationsKeepsWf` | server/src/notification/notifications.service.ts:55-68 | a batch insert keeps ids increasing and stamps ordered |
| `Notifications.CreateNotification` | server/src/notification/notifications.service.ts:38-52 | appends exactly one notification, for the given user, and changes nothing else |
| `Notifications.GetUserNotifications` | server/src/notification/notifications.service.ts:9-19 | a falsy user id gives no notifications; otherwise the result holds exactly that user's notifications |
| `Notifications.GetUserNotificationsNewestFirst` | server/src/notification/notifications.service.ts:15-18 | on a well-formed store the list is ordered by `createdAt` descending |
| `Notifications.MarkAsRead` | server/src/notification/notifications.service.ts:22-27 | a missing id is an error; otherwise only `read` flags change, and the notification with that id becomes read |
| `Notifications.MarkAsReadExactlyOne` | server/src/notification/notifications.service.ts:22-27 | with unique ids, exactly the one notification changes, and repeating the call changes nothing more |
| `Notifications.MarkAllAsRead` | server/src/notification/notifications.service.ts:30-35 | every notification of the user becomes read; other users' notifications and all other fields are untouched |
| `Notifications.MarkAllAsReadIdempotent` | server/src/notification/notifications.service.ts:30-35 | marking everything read twice equals marking it once |
| `Notifications.NotifyAdminsForReport` | server/src/notification/notifications.service.ts:73-87 | announces the new-report message to exactly the admins, each once, linked to task and project |
| `Notifications.NotifyAssigneeStatusChange` | server/src/notification/notifications.service.ts:90-103 | announces the status-change message to the given assignee only |
| `Notifications.NotifyAssigneeTaskAssigned` | server/src/notification/notifications.service.ts:106-118 | announces the assignment message to the given assignee only |
| `Notifications.TruthyAssignees` | server/src/notification/notifications.service.ts:129-133 | holds exactly the non-zero assignee ids present among the tasks |
| `Notifications.FinishRecipients` | server/src/notification/notifications.service.ts:129-133 | each truthy assignee of the project's tasks appears exactly once, and nobody else appears |
| `Notifications.NotifyProjectFinished` | server/src/notification/notifications.service.ts:121-143 | a missing project or one without assignees adds nothing; otherwise each distinct assignee gets one project-finished notice linked only to the project |
| `Notifications.NotifyAdminsForTaskStatusChange` | server/src/notification/notifications.service.ts:145-162 | announces the status change to exactly the admins; with no admins nothing is added |
| `Notifications.AdminFanOutOncePerAdmin` | server/src/notification/notifications.service.ts:151-161 | an admin fan-out reaches every admin exactly once and reaches no one else |
| `Tasks.CreateTask` | server/src/tasks/tasks.service.ts:13-36 | appends one task: status defaults to PENDING; a truthy description, deadline or assignee is stored as sent and a falsy one as absent; the assignee is notified exactly when truthy |
| `Tasks.CreateTaskKeepsWf` | server/src/tasks/tasks.service.ts:13-36 | creating a task keeps the store well formed |
| `Tasks.ApplyPatch` | server/src/tasks/tasks.service.ts:63-69 | every field the body sends is written, except that a falsy deadline keeps the old one; absent fields keep their value; an explicit `null` assignee clears it; the id never changes |
| `Tasks.AssigneeNotice` | server/src/tasks/tasks.service.ts:71-91 | a notice goes out exactly when a truthy assignee is sent that differs from the previous one |
| `Tasks.Update` | server/src/tasks/tasks.service.ts:46-94 | a missing id fails with no change; otherwise only that task is replaced by the patched task, and only a new truthy assignee is notified, with the updated title and project |
| `Tasks.UpdateNotifiesOnlyNewAssignee` | server/src/tasks/tasks.service.ts:75-85 | every notification an update emits goes to the newly sent assignee, never to the previous one |
| `Tasks.UpdateKeepsWf` | server/src/tasks/tasks.service.ts:46-94 | a successful update keeps the store well formed |
| `Tasks.ParseStatus` | server/src/tasks/tasks.service.ts:124-126 | accepts exactly the three enum names, and returns the status with that name |
| `Tasks.ParseStatusName` | server/src/tasks/tasks.service.ts:124-126 | every status parses back from its own name |
| `Tasks.UpdateTaskStatus` | server/src/tasks/tasks.service.ts:123-143 | an unknown status fails before the lookup; a missing task fails next; the call fails exactly in those two cases, and otherwise only that task's status changes and every admin is told the new status |
| `Tasks.UpdateTaskStatusKeepsWf` | server/src/tasks/tasks.service.ts:123-143 | a successful status change keeps the store well formed |
| `Tasks.GetTaskById` | server/src/tasks/tasks.service.ts:105-116 | fails with not-found exactly when no task has the id; otherwise returns a stored task with that id |
| `Tasks.DeleteTask` | server/src/tasks/tasks.service.ts:118-122 | fails exactly when the id is missing; otherwise removes one task and touches no other table |
| `Tasks.DeleteTaskRemovesExactlyIt` | server/src/tasks/tasks.service.ts:118-122 | with unique ids, a task survives the delete exactly when its id differs |
| `Tasks.DeleteTaskKeepsWf` | server/src/tasks/tasks.service.ts:118-122 | deleting keeps the store well formed |
| `TaskReports.CreateReport` | server/src/tasks/task-reports.service.ts:12-28 | a missing task fails; otherwise one unseen report is appended, and the admins are told with the task's title and project |
| `TaskReports.CreateReportKeepsWf` | server/src/tasks/task-reports.service.ts:12-28 | filing a report keeps the store well formed |
| `TaskReports.GetReportsByTask` | server/src/tasks/task-reports.service.ts:39-51 | holds exactly the reports of the task |
| `TaskReports.GetReportsByTaskNewestFirst` | server/src/tasks/task-reports.service.ts:47-49 | on a well-formed store the reports come newest first |
| `TaskReports.MarkAsSeen` | server/src/tasks/task-reports.service.ts:52-57 | a missing id fails; otherwise only `seen` flags change, and the report with that id becomes seen |
| `TaskReports.MarkAsSeenExactlyOne` | server/src/tasks/task-reports.service.ts:52-57 | with unique ids, exactly one report changes; repeating the call is a no-op; the store stays well formed |
| `Projects.RawTask` | server/src/projects/projects.service.ts:19 | a nested task of `createProject` is stored with its fields as sent, and PENDING when it carries no status |
| `Projects.CreateProject` | server/src/projects/projects.service.ts:13-27 | appends one unfinished project with the sent name and description, a truthy deadline as sent and a falsy one absent, and its nested tasks linked to it; notifies nobody |
| `Projects.CreateProjectKeepsWf` | server/src/projects/projects.service.ts:13-27 | creating a project keeps the store well formed |
| `Projects.DeleteNested` | server/src/projects/projects.service.ts:49-51 | removes exactly this project's tasks whose id is listed; other projects' tasks are immune |
| `Projects.CreatedTask` | server/src/projects/projects.service.ts:54-62 | a created row defaults status to PENDING; a truthy description, deadline or assignee is stored as sent, a falsy one as absent |
| `Projects.CreatedRows` | server/src/projects/projects.service.ts:54-62 | one new task per spec, in order, with consecutive fresh ids |
| `Projects.EditTask` | server/src/projects/projects.service.ts:66-75 | a nested update sets the title, resets a missing status to PENDING, writes a truthy description, deadline or assignee and keeps the stored value for a falsy one |
| `Projects.OwnsKept` | server/src/projects/projects.service.ts:66-67 | editing a task in place does not change which ids the project owns |
| `Projects.EditNested` | server/src/projects/projects.service.ts:65-76 | fails exactly when some listed id is not a task of this project; otherwise every row keeps id and project, only rows of this project named by an edit change |
| `Projects.EditNestedRows` | server/src/projects/projects.service.ts:64-76 | with unique ids, each row after the nested updates is exactly what the edits naming it, in order, make of it |
| `Projects.PatchProject` | server/src/projects/projects.service.ts:42-45 | the name is overwritten when sent; a truthy description or deadline is written and a falsy one keeps the old value |
| `Projects.UpdateProject` | server/src/projects/projects.service.ts:39-85 | a missing project fails; the call fails exactly when a nested update names a task the project does not own after the deletes and creates; otherwise the project row is patched, other tables and projects are untouched, no deleted id of this project remains, and with well-formed ids the task table is the staged table with each row edited as the updates naming it say |
| `Projects.EditsAppliedUnnamed` | server/src/projects/projects.service.ts:64-76 | a task no update names, or of another project, comes through the nested updates unchanged |
| `Projects.EditsAppliedOnce` | server/src/projects/projects.service.ts:64-76 | a task of the project named by exactly one update ends up as that edit of it |
| `Projects.EditedTasks` | server/src/projects/projects.service.ts:47-76 | the nested writes keep other projects' tasks exactly, add none to them, and leave no deleted id of this project among the ids that predate the call |
| `Projects.EditedRows` | server/src/projects/projects.service.ts:47-76 | with well-formed ids, the nested writes keep the staged table's length and edit each staged row as the updates naming it say |
| `Projects.UpdateProjectKeepsUnnamed` | server/src/projects/projects.service.ts:39-85 | a task of the project that is neither deleted nor named by an update is still stored, unchanged |
| `Projects.UpdateProjectAppliesEdit` | server/src/projects/projects.service.ts:39-85 | a task named by exactly one update is stored as that edit of its previous value |
| `Projects.UpdateProjectStoresCreated` | server/src/projects/projects.service.ts:39-85 | each created task that no update names is stored as created, under its fresh id |
| `Projects.UpdateProjectKeepsWf` | server/src/projects/projects.service.ts:39-85 | a successful update keeps the store well formed |
| `Projects.UpdateProjectSucceeds` | server/src/projects/projects.service.ts:39-85 | an update whose nested ids are all owned and not deleted always succeeds |
| `Projects.GetProjects` | server/src/projects/projects.service.ts:29-38 | lists every project exactly once, each with exactly its own tasks |
| `Projects.GetProjectsByIdDescending` | server/src/projects/projects.service.ts:36 | the listing is ordered by id descending |
| `Projects.GetProjectsForUser` | server/src/projects/projects.service.ts:92-110 | an admin sees every project; a member sees exactly the projects where they have a task |
| `Projects.GetProjectsForUserNewestFirst` | server/src/projects/projects.service.ts:95-108 | both listings are ordered by `createdAt` descending |
| `Projects.FinishProject` | server/src/projects/projects.service.ts:111-125 | a missing project fails; otherwise only its `finished` flag is set, and its distinct assignees are told |
| `Projects.FinishProjectTwice` | server/src/projects/projects.service.ts:111-125 | finishing again succeeds, changes no project or task, and notifies the same people again |
| `Projects.FinishProjectKeepsWf` | server/src/projects/projects.service.ts:111-125 | finishing keeps the store well formed |
| `Projects.DeleteProject` | server/src/projects/projects.service.ts:87-91 | a missing project fails; otherwise one project goes, and its tasks go with it, and nothing else does |
| `Projects.DeleteProjectRemovesExactlyIt` | server/src/projects/projects.service.ts:87-91 | with unique ids, a project survives exactly when its id differs |
| `Projects.DeleteProjectKeepsWf` | server/src/projects/projects.service.ts:87-91 | deleting a project keeps the store well formed |
| `Badges.ByDaysLeft` | client/src/components/TasksSection.tsx:121-126 | more than 7 days is green, 4 to 7 yellow, 0 to 3 red, a past deadline the overdue colour, each threshold both ways |
| `Badges.ByDaysLeftMonotone` | client/src/pages/Dashboard.tsx:447-452 | more days left never gives a more alarming colour |
| `Dashboard.CompletionAsWritten` | client/src/pages/Dashboard.tsx:198-202 | 0 for no tasks, otherwise the done ratio as a percentage rounded half up, within 0..100 |
| `Dashboard.CompletionAsWrittenExactBelow200` | client/src/pages/Dashboard.tsx:198-202 | below 200 tasks the rounded figure reaches 100 only when every task is done |
| `Dashboard.CompletionAsWrittenRoundsUp` | client/src/pages/Dashboard.tsx:198-202 | from 200 tasks on, one unfinished task still shows 100% |
| `Dashboard.Completion` | client/src/pages/Dashboard.tsx:198-202 | 100 exactly when there are tasks and all are DONE; otherwise the rounded figure, capped at 99 |
| `Dashboard.AllDoneIsHundred` | client/src/pages/Dashboard.tsx:198-202 | a non-empty list of DONE tasks rounds to exactly 100, however long |
| `Dashboard.HundredWhen` | client/src/pages/Dashboard.tsx:198-202 | the rounded figure is 100 only for a non-empty list, always when all tasks are DONE, and below 200 tasks exactly then |
| `Dashboard.MemberNames` | client/src/pages/Dashboard.tsx:204-207 | the non-empty assignee names, at most one per task |
| `Dashboard.UniqueMembers` | client/src/pages/Dashboard.tsx:204-207 | each non-empty assignee name exactly once, and no other name |
| `Dashboard.IsCompletedProject` | client/src/pages/Dashboard.tsx:209-211 | a project counts as completed only if it has tasks; always when all are DONE; below 200 tasks exactly then |
| `Dashboard.StrictlyBetweenBelow200` | client/src/pages/Dashboard.tsx:198-202 | with fewer than 200 tasks, some but not all DONE, the rounded figure lies strictly between 0 and 100 |
| `Dashboard.IsInProgressProject` | client/src/pages/Dashboard.tsx:213-216 | a project counted in progress has some DONE tasks and some not DONE; below 200 tasks, every such project is counted |
| `Dashboard.CompletedProjects` | client/src/pages/Dashboard.tsx:209-211 | the tile counts at least every project whose tasks are all DONE and at most the projects that have tasks; with every project all DONE it counts them all |
| `Dashboard.InProgressProjects` | client/src/pages/Dashboard.tsx:213-216 | the tile counts at least every partly done project of fewer than 200 tasks and at most the partly done projects; it is zero when no project has a DONE task |
| `Dashboard.ProjectBucketsDisjoint` | client/src/pages/Dashboard.tsx:209-216 | the completed and in-progress tiles, computed from the rounded figure as the page does, together never count more projects than exist |
| `Dashboard.UserTasks` | client/src/pages/Dashboard.tsx:218 | exactly the tasks assigned to the signed-in user; none before the user is known |
| `Dashboard.PersonalTally` | client/src/pages/Dashboard.tsx:220-224 | the pending, in-progress and done tiles count the user's tasks of each status, and add up to the user's task count |
| `Dashboard.CanMarkComplete` | client/src/pages/Dashboard.tsx:788-790 | the button as the page decides it: only for an admin on an unfinished project with tasks; always when every task is DONE; below 200 tasks exactly then |
| `Dashboard.CanMarkCompleteWithOpenTask` | client/src/pages/Dashboard.tsx:788-790 | from 200 tasks on, an admin is offered the button on an unfinished project whose last task is still PENDING |
| `Dashboard.CanMarkCompleteCorrected` | client/src/pages/Dashboard.tsx:788-790 | the intended button: exactly for an admin, on an unfinished project, whose tasks are all DONE; it only ever shows where the page's button shows |
| `Dashboard.ProjectDeadlineColor` | client/src/pages/Dashboard.tsx:447-452 | the project thresholds, with a past deadline gray |
| `Dashboard.RowOf` | client/src/pages/Dashboard.tsx:299-307 | an existing task's row keeps its id, title, status and assignee; a truthy description or deadline is carried over and a falsy one becomes empty |
| `Dashboard.RowSpec` | client/src/pages/Dashboard.tsx:358-374 | a submitted row sends its title, its status or PENDING when missing, a non-empty description and truthy deadline and assignee as they are, and empty or falsy ones as absent |
| `Dashboard.OpenEditModal` | client/src/pages/Dashboard.tsx:289-311 | the form carries the project's name, its truthy description and deadline (empty otherwise), one row per task built from that task, in order, and an empty delete list |
| `Dashboard.AddEditTaskRow` | client/src/pages/Dashboard.tsx:313-321 | appends one blank, id-less, unassigned PENDING row without deadline and leaves the rest of the form alone |
| `Dashboard.RemoveEditTaskRow` | client/src/pages/Dashboard.tsx:323-335 | drops the row at the index; its id joins the delete list exactly when it is truthy |
| `Dashboard.UpdateEditTaskRow` | client/src/pages/Dashboard.tsx:337-343 | the row at the index takes exactly the given fields and keeps its id; the other rows and the form header do not change |
| `Dashboard.SplitRows` | client/src/pages/Dashboard.tsx:356-374 | the creates are the id-less rows, in order, normalised; the updates are the rows with an id, in order, each under its id; every row lands in exactly one list |
| `Dashboard.SubmitEditProject` | client/src/pages/Dashboard.tsx:345-392 | sends the name, a non-empty description or deadline (absent when empty), the deleted ids, the id-less rows in order as creates and the rows with an id in order as updates |
| `Dashboard.OpenEditModalConsistent` | client/src/pages/Dashboard.tsx:289-311 | a freshly opened form agrees with the stored project |
| `Dashboard.EditActionsKeepConsistent` | client/src/pages/Dashboard.tsx:313-343 | adding, removing and editing rows keep the form in agreement with the store |
| `Dashboard.ReplayKeepsConsistent` | client/src/pages/Dashboard.tsx:313-343 | any sequence of row actions keeps that agreement |
| `Dashboard.SubmitConsistentSucceeds` | client/src/pages/Dashboard.tsx:345-392 | submitting a form that agrees with the store never makes the project update fail |
| `Dashboard.EditSessionSucceeds` | client/src/pages/Dashboard.tsx:289-392 | open the dialog, edit rows in any way, submit: the server update succeeds |
| `TasksSection.FilteredTasks` | client/src/components/TasksSection.tsx:62-74 | a member sees only their own tasks; the result is exactly the visible tasks that pass all three filter choices |
| `TasksSection.FilteredTasksKeepsOrder` | client/src/components/TasksSection.tsx:62-74 | filtering keeps the tasks in their original order |
| `TasksSection.UnseenCount` | client/src/components/TasksSection.tsx:235-238 | never more than the reports; zero exactly when every report is seen |
| `TasksSection.DeadlineColor` | client/src/components/TasksSection.tsx:121-126 | the task thresholds, with a past deadline neutral |
| `TasksSection.DaysUntil` | client/src/components/TasksSection.tsx:114-119 | the day count is the ceiling of the time to the deadline in days: it is at most 0 exactly when the deadline is not after now |
| `TasksSection.DaysLeft` | client/src/components/TasksSection.tsx:230 | a day count exists exactly when the task has a deadline, and then it is the ceiling of the days until the deadline |
| `TasksSection.DeadlineLabelFromClock` | client/src/components/TasksSection.tsx:255-264 | on an open task the badge reads "Deadline Passed" exactly when the deadline is not after now, and otherwise gives the days left |
| `TasksSection.DeadlineBadge` | client/src/components/TasksSection.tsx:239-244 | a DONE task is green whatever the deadline; otherwise the threshold colour, or none without a deadline |
| `TasksSection.DeadlineLabel` | client/src/components/TasksSection.tsx:259-263 | DONE shows "Completed on schedule"; a positive count shows the days; zero or less shows "Deadline Passed" |
| `TasksSection.UnseenCached` | client/src/components/TasksSection.tsx:146-147 | exactly the unseen reports cached for the task: each one, no other, in cache order and as many as there are unseen |
| `TasksSection.OpenTaskDetail` | client/src/components/TasksSection.tsx:142-160 | non-admins change nothing; only `seen` flags of listed reports change; if no call fails, each one is seen; with an up-to-date cache no call fails and the task has no unseen report left |
| `TasksSection.ReportOfTaskSeen` | client/src/components/TasksSection.tsx:146-152 | a report of the task that was unseen is seen after its id has been marked |
| `TasksSection.AllReportsOfTaskSeen` | client/src/components/TasksSection.tsx:146-152 | after all cached unseen ids are marked, every report of the task, listed afresh, is seen |
| `TasksSection.StatusDropdownShown` | client/src/components/TasksSection.tsx:292-294 | shown only to a member for a task not DONE, and always shown then unless its project is finished |
| `TasksSection.DropdownHiddenWhenProjectFinished` | client/src/components/TasksSection.tsx:246 | with unique project ids, a finished project's tasks never offer the dropdown |
| `EditTaskModal.InitForm` | client/src/components/EditTaskModal.tsx:32-39 | the form opens with the task's title, status, project, truthy description and deadline (empty otherwise) and truthy assignee (unassigned otherwise) |
| `EditTaskModal.Payload` | client/src/components/EditTaskModal.tsx:49-58 | sends title and project, a missing status as PENDING, non-empty text as is and empty text as absent, a chosen assignee as that id, and never clears the assignee |
| `EditTaskModal.EditNeverClearsAssignee` | client/src/components/EditTaskModal.tsx:53 | saving the dialog never unassigns an assigned task |
| `EditTaskModal.SaveUnchangedFormIsNoOp` | client/src/components/EditTaskModal.tsx:32-58 | saving the form as it opened changes nothing and notifies nobody |

## Left out

- Transport, auth and framework: controllers, guards, JWT, modules and dependency
  injection are not modelled. Route parameters reach the services as integers.
  The services are modelled on the values they receive.
- The users service, login and registration are not part of this model.
- Concurrency: every `async` call is one atomic step on the store. Interleaved
  requests are not modelled.
- Dates: deadlines are opaque strings. `new Date(...)`, `toISOString()` and
  `split("T")` are treated as the identity. For the task badges, the deadline's
  and the clock's instants in milliseconds are inputs; `Math.ceil` of their
  difference over a day is computed exactly. The dashboard's day count is an input.
- Floating point: `Math.round((done / n) * 100)` is computed exactly in integers as
  `(200·done + n) div 2n`. Float rounding at exact halves is not modelled.
- Foreign keys: the database would reject a task whose project or assignee does
  not exist. The model only checks the ids the services themselves check.
- `Projects.DeleteProject` and `Tasks.DeleteTask` rest on an assumption about the
  database schema, which is not part of this model: deleting a project also
  deletes its tasks, and reports and notifications that point at a deleted task
  or project stay. Were the relations not to cascade, the database would reject
  such a delete instead.
- `Projects.RawTask` and `Projects.CreateProject`: a nested create without a status
  is stored as PENDING. That rests on an assumption about the database schema,
  which is not part of this model: the status column defaults to PENDING.
- `Notifications.NotifyAdminsForReport` and `Notifications.NotifyAdminsForTaskStatusChange`:
  the admins are notified in the order of
  the user table. `user.findMany` has no `orderBy`, so the database promises no
  order; the model fixes one. Who is notified, and how often, does not depend on it.
- Error types: `update` throws a plain `Error` on a missing task, and Prisma throws
  its own error on a missing row. Both are `NotFound`.
- The nested task delta of `updateProject` is applied as delete, then create, then
  update. The model fixes that order for Prisma's nested writes.
- `getTasks` and `getReports` are the unfiltered task list and the same report
  query as `getReportsByTask`. They are covered by the store and by
  `TaskReports.GetReportsByTask`.
- The joined `assignee`, `project` and `user` objects of query results are not
  modelled. The dashboard reads assignee names by looking up `assigneeId`.
- Notification texts are kept as structured `Message` values. `Store.Render`
  gives the wording; typos in the templates are kept.
- `TasksSection.OpenTaskDetail`: the refresh of the report cache after the loop,
  `fetchAllReports`, is left to the caller. The cache is an input.
- `TasksSection.OpenTaskDetail`: the `try`/`catch` stops at the first failing call.
  The model reports the failure but does not say which id failed.
- `Dashboard.RemoveEditTaskRow`: the model requires a valid row index. The source
  reads `.id` of a missing row at any other index, which throws.
- `Projects.EditNested`: a nested update always carries a title in the model. The
  source would write `undefined`, which leaves the title unchanged.
- Other UI concerns are not modelled: rendering, modals' open/closed state,
  alerts, the create-project and create-task forms, the notification bell and
  `getStatusColor` styling.

## Findings

| source | as written | input that shows it | evidently intended | confidence | as-written member | corrected member |
|---|---|---|---|---|---|---|
| client/src/pages/Dashboard.tsx:198-202 | `Math.round` of the done ratio reaches 100 while a task is still open | a project of 400 tasks, 399 DONE and 1 PENDING, shows 100% | 100% only when every task is DONE | not executed | `Dashboard.CompletionAsWrittenRoundsUp` | `Dashboard.Completion` |
| client/src/pages/Dashboard.tsx:788-790 | the finish button shows when the rounded figure is 100 | an admin viewing an unfinished project of 400 tasks, 399 DONE, is offered "Mark as Complete" | the button only when every task is DONE | not executed | `Dashboard.CanMarkCompleteWithOpenTask` | `Dashboard.CanMarkCompleteCorrected` |

`Dashboard.AllButOneDone` builds the input of both rows: `n - 1` DONE tasks
followed by one PENDING task.

The page's tiles (`Dashboard.CompletedProjects`, `Dashboard.InProgressProjects`)
and its button (`Dashboard.CanMarkComplete`) are modelled as written, on the
rounded figure; the same 400-task project is counted as completed there. The
corrected figure and button are separate members, and the corrected button only
ever shows where the page's does.
