/** The task list: the role and filter-bar pipeline, the report badge, the
    deadline badge, opening a task (which marks its reports seen), and the
    status dropdown. */
module TasksSection {
  import opened Wrappers
  import opened Seqs
  import opened Store
  import opened TaskReports
  import opened Badges

  /** A filter-bar choice: "ALL" or one value. */
  datatype Selection<T> = All | Only(value: T)

  predicate IsMemberViewer(viewer: Option<User>)
  {
    viewer.Some? && viewer.value.role == Member
  }

  predicate IsAdminViewer(viewer: Option<User>)
  {
    viewer.Some? && viewer.value.role == Admin
  }

  /** The first filter: a member sees only their own tasks, anyone else all of them. */
  predicate VisibleTo(viewer: Option<User>, t: Task)
  {
    IsMemberViewer(viewer) ==> t.assigneeId == Some(viewer.value.id)
  }

  /** The second filter: project, user and status, each either "ALL" or equal. */
  predicate MatchesBar(project: Selection<int>, user: Selection<int>, status: Selection<Status>, t: Task)
  {
    && (project.All? || t.projectId == project.value)
    && (user.All? || t.assigneeId == Some(user.value))
    && (status.All? || t.status == status.value)
  }

  /** `filteredTasks`: the tasks passing both filters. */
  function FilteredTasks(tasks: seq<Task>, viewer: Option<User>,
                         project: Selection<int>, user: Selection<int>, status: Selection<Status>): (r: seq<Task>)
    ensures forall t :: t in r ==> t in tasks && VisibleTo(viewer, t) && MatchesBar(project, user, status, t)
    ensures forall t :: t in tasks && VisibleTo(viewer, t) && MatchesBar(project, user, status, t) ==> t in r
    ensures IsMemberViewer(viewer) ==> forall k :: 0 <= k < |r| ==> r[k].assigneeId == Some(viewer.value.id)
  {
    var visible := Filter(tasks, (t: Task) => VisibleTo(viewer, t));
    Filter(visible, (t: Task) => MatchesBar(project, user, status, t))
  }

  /** The list keeps the tasks' own order: it only drops tasks. */
  lemma FilteredTasksKeepsOrder(tasks: seq<Task>, viewer: Option<User>,
                                project: Selection<int>, user: Selection<int>, status: Selection<Status>)
    ensures IsSubseq(FilteredTasks(tasks, viewer, project, user, status), tasks)
  {
    var p := (t: Task) => VisibleTo(viewer, t);
    var q := (t: Task) => MatchesBar(project, user, status, t);
    var both := (t: Task) => VisibleTo(viewer, t) && MatchesBar(project, user, status, t);
    FilterFilter(tasks, p, q, both);
    FilterIsSubseq(tasks, both);
  }

  /** The client's report cache, per task id (`taskReports[task.id] || []`). */
  function CachedReports(cache: map<int, seq<Report>>, taskId: int): seq<Report>
  {
    if taskId in cache then cache[taskId] else []
  }

  function IsUnseen(r: Report): bool { !r.seen }

  /** The unseen reports, which decide the report badge's colour: never more
      than the reports there are, and zero exactly when all are seen. */
  function UnseenCount(reports: seq<Report>): (n: nat)
    ensures n <= |reports|
    ensures n == 0 <==> forall k :: 0 <= k < |reports| ==> reports[k].seen
  {
    var unseen := Filter(reports, IsUnseen);
    assert |unseen| > 0 ==> !unseen[0].seen;
    assert forall k :: 0 <= k < |reports| ==> reports[k] in reports;
    |unseen|
  }

  /** `getDeadlineColor`: a past deadline is neutral. */
  function DeadlineColor(daysLeft: int): (c: Colour)
    ensures daysLeft < 0 <==> ClassName(c) == "bg-neutral-700"
    ensures daysLeft > 7 <==> c == Green
    ensures 3 < daysLeft <= 7 <==> c == Yellow
    ensures 0 <= daysLeft <= 3 <==> c == Red
  {
    ByDaysLeft(daysLeft, Neutral)
  }

  /** Milliseconds in a day (`1000 * 60 * 60 * 24`). */
  const DayMs: int := 1000 * 60 * 60 * 24

  /** `getDaysLeft`: `Math.ceil` of the time from now to the deadline, in days.
      Both instants are given in milliseconds. */
  function DaysUntil(deadlineMs: int, nowMs: int): (d: int)
    ensures (d - 1) * DayMs < deadlineMs - nowMs <= d * DayMs
    ensures d <= 0 <==> deadlineMs <= nowMs
  {
    var diff := deadlineMs - nowMs;
    var q := (-diff) / DayMs;
    assert -diff == q * DayMs + (-diff) % DayMs;
    -q
  }

  /** The days-left figure of a card: only for a task with a deadline, and then
      the ceiling of the days until it. */
  function DaysLeft(t: Task, deadlineMs: int, nowMs: int): (r: Option<int>)
    ensures r.Some? <==> TruthyText(t.deadline)
    ensures r.Some? ==> (r.value - 1) * DayMs < deadlineMs - nowMs <= r.value * DayMs
  {
    if TruthyText(t.deadline) then Some(DaysUntil(deadlineMs, nowMs)) else None
  }

  /** `deadlineBadgeColor`: green for a DONE task whatever the days left,
      otherwise the threshold colour; no colour without a deadline. */
  function DeadlineBadge(t: Task, daysLeft: Option<int>): (c: Option<Colour>)
    ensures t.status == Done ==> c == Some(Green)
    ensures t.status != Done && daysLeft.Some? ==> c == Some(DeadlineColor(daysLeft.value))
    ensures t.status != Done && daysLeft.None? ==> c == None
  {
    if t.status == Done then Some(Green)
    else if daysLeft.Some? then Some(DeadlineColor(daysLeft.value))
    else None
  }

  /** The badge text. */
  datatype BadgeLabel = CompletedOnSchedule | DaysToGo(days: int) | DeadlinePassed

  function DeadlineLabel(t: Task, daysLeft: int): (l: BadgeLabel)
    ensures t.status == Done <==> l == CompletedOnSchedule
    ensures l.DaysToGo? ==> l.days == daysLeft && daysLeft > 0
    ensures l == DeadlinePassed <==> t.status != Done && daysLeft <= 0
  {
    if t.status == Done then CompletedOnSchedule
    else if daysLeft > 0 then DaysToGo(daysLeft)
    else DeadlinePassed
  }

  /** On an open task the badge reads "Deadline Passed" exactly when the
      deadline is not after now, and otherwise counts the days left. */
  lemma DeadlineLabelFromClock(t: Task, deadlineMs: int, nowMs: int)
    requires t.status != Done
    ensures DeadlineLabel(t, DaysUntil(deadlineMs, nowMs)) == DeadlinePassed <==> deadlineMs <= nowMs
    ensures deadlineMs > nowMs ==>
              DeadlineLabel(t, DaysUntil(deadlineMs, nowMs)) == DaysToGo(DaysUntil(deadlineMs, nowMs))
  {
  }

  /** The cached reports of the task that the card shows as unseen. */
  function UnseenCached(cache: map<int, seq<Report>>, taskId: int): (r: seq<Report>)
    ensures forall k :: 0 <= k < |r| ==> !r[k].seen && r[k] in CachedReports(cache, taskId)
    ensures forall x :: x in CachedReports(cache, taskId) && !x.seen ==> x in r
    ensures IsSubseq(r, CachedReports(cache, taskId))
    ensures |r| == UnseenCount(CachedReports(cache, taskId))
  {
    FilterIsSubseq(CachedReports(cache, taskId), IsUnseen);
    Filter(CachedReports(cache, taskId), IsUnseen)
  }

  /** The task has a report row with this id, and it is seen. */
  ghost predicate SeenRow(reports: seq<Report>, id: int)
  {
    exists i :: 0 <= i < |reports| && reports[i].id == id && reports[i].seen
  }

  /** After the first `k` requests of the loop: only `seen` flags of the first
      `k` listed reports have been set, and each of those reports is seen. */
  ghost predicate MarkedSoFar(s: Store, s': Store, unseen: seq<Report>, k: nat)
  {
    && k <= |unseen|
    && s' == s.(reports := s'.reports) && |s'.reports| == |s.reports|
    && (forall i :: 0 <= i < |s.reports| ==> s'.reports[i].id == s.reports[i].id)
    && (forall i :: 0 <= i < |s.reports| ==>
          || s'.reports[i] == s.reports[i]
          || (s'.reports[i] == s.reports[i].(seen := true)
              && exists j :: 0 <= j < k && unseen[j].id == s.reports[i].id))
    && (forall j :: 0 <= j < k ==> SeenRow(s'.reports, unseen[j].id))
  }

  /** One successful request of the loop extends what has been marked by one report. */
  lemma MarkStep(s: Store, cur: Store, next: Store, unseen: seq<Report>, k: nat)
    requires MarkedSoFar(s, cur, unseen, k) && k < |unseen|
    requires MarkAsSeen(cur, unseen[k].id) == Ok(next)
    ensures MarkedSoFar(s, next, unseen, k + 1)
  {
    var id := unseen[k].id;
    assert SeenRow(next.reports, id);
    forall j | 0 <= j < k
      ensures SeenRow(next.reports, unseen[j].id)
    {
      var i :| 0 <= i < |cur.reports| && cur.reports[i].id == unseen[j].id && cur.reports[i].seen;
      assert next.reports[i].id == unseen[j].id && next.reports[i].seen;
    }
    forall i | 0 <= i < |s.reports|
      ensures || next.reports[i] == s.reports[i]
              || (next.reports[i] == s.reports[i].(seen := true)
                  && exists j :: 0 <= j < k + 1 && unseen[j].id == s.reports[i].id)
    {
      if next.reports[i] != cur.reports[i] {
        assert next.reports[i] == cur.reports[i].(seen := true) && cur.reports[i].id == id;
        assert unseen[k].id == s.reports[i].id;
      }
    }
  }

  /** A report listed from a fresh cache is a stored row. */
  lemma FreshCachedStored(s: Store, cache: map<int, seq<Report>>, taskId: int, x: Report)
    requires CachedReports(cache, taskId) == GetReportsByTask(s, taskId)
    requires x in UnseenCached(cache, taskId)
    ensures exists i :: 0 <= i < |s.reports| && s.reports[i].id == x.id
  {
    assert x in s.reports;
    var i :| 0 <= i < |s.reports| && s.reports[i] == x;
  }

  /** `handleOpenTaskDetail`: an admin marks each cached unseen report of the task
      seen, one request after another, and the first failing request ends the
      loop; anyone else marks nothing. Only `seen` flags of those reports change.
      When the cache was fresh, no request fails and, once refetched, the task
      has no unseen report left. */
  method OpenTaskDetail(s: Store, viewer: Option<User>, task: Task, cache: map<int, seq<Report>>)
    returns (s': Store, failed: bool)
    ensures !IsAdminViewer(viewer) ==> s' == s && !failed
    ensures s' == s.(reports := s'.reports) && |s'.reports| == |s.reports|
    ensures forall i :: 0 <= i < |s.reports| ==>
              || s'.reports[i] == s.reports[i]
              || (IsAdminViewer(viewer) && s'.reports[i] == s.reports[i].(seen := true)
                  && exists k :: 0 <= k < |UnseenCached(cache, task.id)| && UnseenCached(cache, task.id)[k].id == s.reports[i].id)
    ensures IsAdminViewer(viewer) && !failed ==>
              forall k :: 0 <= k < |UnseenCached(cache, task.id)| ==> SeenRow(s'.reports, UnseenCached(cache, task.id)[k].id)
    ensures failed ==>
              exists k :: 0 <= k < |UnseenCached(cache, task.id)| &&
                forall i :: 0 <= i < |s.reports| ==> s.reports[i].id != UnseenCached(cache, task.id)[k].id
    ensures IsAdminViewer(viewer) && Wf(s) && CachedReports(cache, task.id) == GetReportsByTask(s, task.id) ==>
              !failed && UnseenCount(GetReportsByTask(s', task.id)) == 0
  {
    s', failed := s, false;
    if !IsAdminViewer(viewer) {
      return;
    }
    var unseen := UnseenCached(cache, task.id);
    var k := 0;
    while k < |unseen|
      invariant MarkedSoFar(s, s', unseen, k)
      invariant !failed
    {
      match MarkAsSeen(s', unseen[k].id) {
        case Err(_) =>
          assert !(Wf(s) && CachedReports(cache, task.id) == GetReportsByTask(s, task.id)) by {
            if Wf(s) && CachedReports(cache, task.id) == GetReportsByTask(s, task.id) {
              FreshCachedStored(s, cache, task.id, unseen[k]);
            }
          }
          failed := true;
          return;
        case Ok(next) =>
          MarkStep(s, s', next, unseen, k);
          s' := next;
      }
      k := k + 1;
    }
    if Wf(s) && CachedReports(cache, task.id) == GetReportsByTask(s, task.id) {
      AllReportsOfTaskSeen(s, s', task.id, unseen);
      NoneUnseen(GetReportsByTask(s', task.id));
    }
  }

  /** An unseen report of the task is on the list a fresh cache gives. */
  lemma UnseenOfTaskListed(s: Store, taskId: int, unseen: seq<Report>, x: Report)
    requires unseen == Filter(GetReportsByTask(s, taskId), IsUnseen)
    requires x in s.reports && x.taskId == taskId && !x.seen
    ensures x in unseen
  {
    assert x in GetReportsByTask(s, taskId);
    assert IsUnseen(x);
  }

  /** One report of the task after the loop: if it was unseen it was in the
      fresh list, so the loop marked it, and with unique ids the marked row is
      this one. */
  lemma ReportOfTaskSeen(s: Store, s': Store, taskId: int, unseen: seq<Report>, y: Report)
    requires Increasing(s.reports, ReportId)
    requires unseen == Filter(GetReportsByTask(s, taskId), IsUnseen)
    requires MarkedSoFar(s, s', unseen, |unseen|)
    requires y in s'.reports && y.taskId == taskId
    ensures y.seen
  {
    var i :| 0 <= i < |s'.reports| && s'.reports[i] == y;
    var x := s.reports[i];
    if !x.seen {
      UnseenOfTaskListed(s, taskId, unseen, x);
      var j :| 0 <= j < |unseen| && unseen[j] == x;
      var i' :| 0 <= i' < |s'.reports| && s'.reports[i'].id == x.id && s'.reports[i'].seen;
      IncreasingUnique(s.reports, ReportId, i, i');
    }
  }

  lemma NoneUnseen(reports: seq<Report>)
    requires forall y :: y in reports ==> y.seen
    ensures UnseenCount(reports) == 0
  {
    assert forall k :: 0 <= k < |reports| ==> reports[k] in reports;
  }

  /** After every unseen report of the task, fetched fresh, has been marked, no
      report of the task is unseen. */
  lemma AllReportsOfTaskSeen(s: Store, s': Store, taskId: int, unseen: seq<Report>)
    requires Increasing(s.reports, ReportId)
    requires unseen == Filter(GetReportsByTask(s, taskId), IsUnseen)
    requires MarkedSoFar(s, s', unseen, |unseen|)
    ensures forall y :: y in GetReportsByTask(s', taskId) ==> y.seen
  {
    forall y | y in GetReportsByTask(s', taskId)
      ensures y.seen
    {
      assert y in s'.reports && y.taskId == taskId;
      ReportOfTaskSeen(s, s', taskId, unseen, y);
    }
  }

  /** The status dropdown: a member, a task not DONE, in a project not known to be
      finished (the project is looked up in the loaded list; a missing one counts
      as unfinished). */
  function StatusDropdownShown(viewer: Option<User>, t: Task, projects: seq<Project>): (r: bool)
    ensures r ==> IsMemberViewer(viewer) && t.status != Done
    ensures (&& IsMemberViewer(viewer) && t.status != Done
             && forall i :: 0 <= i < |projects| && projects[i].id == t.projectId ==> !projects[i].finished)
            ==> r
  {
    var finished := match ProjectIndex(projects, t.projectId)
      case None => false
      case Some(i) => projects[i].finished;
    IsMemberViewer(viewer) && !finished && t.status != Done
  }

  /** With unique project ids, a task of a finished project never offers the dropdown. */
  lemma DropdownHiddenWhenProjectFinished(viewer: Option<User>, t: Task, projects: seq<Project>, i: nat)
    requires Increasing(projects, ProjectId)
    requires i < |projects| && projects[i].id == t.projectId && projects[i].finished
    ensures !StatusDropdownShown(viewer, t, projects)
  {
    match ProjectIndex(projects, t.projectId) {
      case None =>
      case Some(j) =>
        IncreasingUnique(projects, ProjectId, i, j);
    }
  }
}
