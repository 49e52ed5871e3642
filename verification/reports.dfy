/** The task-report service: members file progress reports on tasks, admins are
    told, and the client marks reports seen. */
module TaskReports {
  import opened Wrappers
  import opened Seqs
  import opened Store
  import opened Notifications

  /** `createReport`: a missing task throws before anything is written; otherwise
      one unseen report is appended and every admin is told about it. */
  function CreateReport(s: Store, taskId: int, userId: int, message: string): (r: Result<Store, Error>)
    ensures r.Err? <==> forall i :: 0 <= i < |s.tasks| ==> s.tasks[i].id != taskId
    ensures r.Err? ==> r.error == NotFound
    ensures r.Ok? ==> |r.value.reports| == |s.reports| + 1 && r.value.reports[..|s.reports|] == s.reports
    ensures r.Ok? ==>
              var x := r.value.reports[|s.reports|];
              x.id == s.nextId && x.taskId == taskId && x.userId == userId && x.message == message && !x.seen
    ensures r.Ok? ==> OnlyAppended(s.(reports := r.value.reports), r.value)
    ensures r.Ok? ==>
              var t := s.tasks[TaskIndex(s.tasks, taskId).value];
              Announces(Emitted(s, r.value), AdminIds(s.users), NewReport(t.title), Some(taskId), Some(t.projectId))
  {
    match TaskIndex(s.tasks, taskId)
    case None => Err(NotFound)
    case Some(i) =>
      var t := s.tasks[i];
      var s1 := s.(reports := s.reports + [Report(s.nextId, taskId, userId, message, false, s.nextId)],
                   nextId := s.nextId + 1);
      assert s1.reports[..|s.reports|] == s.reports;
      Ok(NotifyAdminsForReport(s1, taskId, t.projectId, t.title))
  }

  lemma CreateReportKeepsWf(s: Store, taskId: int, userId: int, message: string)
    requires Wf(s)
    requires CreateReport(s, taskId, userId, message).Ok?
    ensures Wf(CreateReport(s, taskId, userId, message).value)
  {
    var t := s.tasks[TaskIndex(s.tasks, taskId).value];
    var x := Report(s.nextId, taskId, userId, message, false, s.nextId);
    var s1 := s.(reports := s.reports + [x], nextId := s.nextId + 1);
    AddReportKeepsWf(s, x);
    assert CreateReport(s, taskId, userId, message).value
           == CreateNotificationsForUsers(s1, AdminIds(s1.users), NewReport(t.title), Some(taskId), Some(t.projectId));
    CreateNotificationsKeepsWf(s1, AdminIds(s1.users), NewReport(t.title), Some(taskId), Some(t.projectId));
  }

  /** `getReportsByTask` (and its twin `getReports`): exactly the reports of one task. */
  function GetReportsByTask(s: Store, taskId: int): (r: seq<Report>)
    ensures forall i :: 0 <= i < |r| ==> r[i] in s.reports && r[i].taskId == taskId
    ensures forall x :: x in s.reports && x.taskId == taskId ==> x in r
  {
    Reverse(Filter(s.reports, (x: Report) => x.taskId == taskId))
  }

  /** The listing is ordered newest first (`orderBy: { createdAt: 'desc' }`), ties by id. */
  lemma GetReportsByTaskNewestFirst(s: Store, taskId: int)
    requires Wf(s)
    ensures NonIncreasing(GetReportsByTask(s, taskId), ReportStamp)
    ensures Decreasing(GetReportsByTask(s, taskId), ReportId)
  {
    var p := (x: Report) => x.taskId == taskId;
    FilterIncreasing(s.reports, p, ReportId);
    FilterNonDecreasing(s.reports, p, ReportStamp);
    ReverseOrders(Filter(s.reports, p), ReportId);
    ReverseOrders(Filter(s.reports, p), ReportStamp);
  }

  /** `markAsSeen`: a missing id throws; otherwise only the `seen` flag of the row
      with that id changes, and nobody is notified. */
  function MarkAsSeen(s: Store, id: int): (r: Result<Store, Error>)
    ensures r.Err? <==> forall i :: 0 <= i < |s.reports| ==> s.reports[i].id != id
    ensures r.Ok? ==> r.value == s.(reports := r.value.reports)
    ensures r.Ok? ==> |r.value.reports| == |s.reports|
    ensures r.Ok? ==> forall i :: 0 <= i < |s.reports| ==>
              || r.value.reports[i] == s.reports[i]
              || (s.reports[i].id == id && r.value.reports[i] == s.reports[i].(seen := true))
    ensures r.Ok? ==> exists i :: 0 <= i < |s.reports| && s.reports[i].id == id && r.value.reports[i].seen
  {
    match ReportIndex(s.reports, id)
    case None => Err(NotFound)
    case Some(i) => Ok(s.(reports := s.reports[i := s.reports[i].(seen := true)]))
  }

  /** With unique ids exactly the one report becomes seen; marking it again
      changes nothing, and the store stays well formed. */
  lemma {:induction false} MarkAsSeenExactlyOne(s: Store, id: int)
    requires Wf(s)
    requires MarkAsSeen(s, id).Ok?
    ensures var rs := MarkAsSeen(s, id).value.reports;
      forall i :: 0 <= i < |s.reports| && s.reports[i].id == id ==> rs[i].seen
    ensures MarkAsSeen(MarkAsSeen(s, id).value, id) == MarkAsSeen(s, id)
    ensures Wf(MarkAsSeen(s, id).value)
  {
    var i :| ReportIndex(s.reports, id) == Some(i);
    forall j | 0 <= j < |s.reports| && s.reports[j].id == id
      ensures j == i
    {
      IncreasingUnique(s.reports, ReportId, i, j);
    }
    var s1 := MarkAsSeen(s, id).value;
    assert ReportIndex(s1.reports, id) == Some(i);
    assert s1.reports[i := s1.reports[i].(seen := true)] == s1.reports;
    KeyedSameKeys(s.reports, s1.reports, ReportId, s.nextId, s.nextId);
    StampedSameStamps(s.reports, s1.reports, ReportId, ReportStamp);
  }
}
