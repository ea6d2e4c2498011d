/** What deletes leave behind for later ingests, and what one app's operations leave alone in the
    others. */
module Isolation {
  import opened Options
  import opened TimeText
  import opened Tables
  import opened TableLaws
  import opened IssueQuery
  import opened Analytics

  // ---------- what an app sees ----------

  ghost function IssuesSeen(db: Db, app: int): map<int, IssueRow> {
    map i | i in db.issues && db.issues[i].appId == app :: db.issues[i]
  }

  ghost function ReportsSeen(db: Db, app: int): map<string, ReportRow> {
    map id | id in db.reports && db.reports[id].appId == app :: db.reports[id]
  }

  ghost predicate SameRows(db: Db, db': Db, app: int) {
    IssuesSeen(db', app) == IssuesSeen(db, app) && ReportsSeen(db', app) == ReportsSeen(db, app)
  }

  /** The app has the same issues and reports in both states, and keeps its row if it had one. */
  ghost predicate SameView(db: Db, db': Db, app: int) {
    && SameRows(db, db', app)
    && (app in db.apps ==> app in db'.apps && db'.apps[app] == db.apps[app])
  }

  /** The app an operation is for; creating one is for none of those there are. */
  predicate Targets(op: Op, app: int) {
    match op
    case CreateApp(_, _, _) => false
    case RotateKey(a, _) => a == app
    case DeleteApp(a) => a == app
    case IngestOp(r) => r.appId == app
    case SetStatus(a, _, _) => a == app
    case DeleteIssue(a, _) => a == app
    case DeleteReport(a, _) => a == app
  }

  ghost predicate NoneTargets(ops: seq<Op>, app: int) {
    forall k :: 0 <= k < |ops| ==> !Targets(ops[k], app)
  }

  // ---------- one step for another app ----------

  lemma StepLeavesOthers(db: Db, op: Op, app: int)
    requires Inv(db) && !Targets(op, app)
    ensures SameView(db, After(db, op), app)
  {
    hide Inv, FmtTime, Ingest, AfterCreateApp, AfterRotateKey, AfterDeleteApp, AfterSetStatus, AfterDeleteIssue;
    hide AfterDeleteReport, SameView;
    match op
    case CreateApp(name, keyHash, at) => CreateLeavesOthers(db, name, keyHash, at, app);
    case RotateKey(a, keyHash) => RotateLeavesOthers(db, a, keyHash, app);
    case DeleteApp(a) => DeleteAppLeavesOthers(db, a, app);
    case IngestOp(r) => IngestLeavesOthers(db, r, app);
    case SetStatus(a, issue, status) => StatusLeavesOthers(db, a, issue, status, app);
    case DeleteIssue(a, issue) => DeleteIssueLeavesOthers(db, a, issue, app);
    case DeleteReport(a, id) => DeleteReportLeavesOthers(db, a, id, app);
  }

  lemma CreateLeavesOthers(db: Db, name: string, keyHash: string, at: Instant, app: int)
    ensures SameView(db, AfterCreateApp(db, name, keyHash, at), app)
  {
    hide FmtTime;
  }

  lemma RotateLeavesOthers(db: Db, a: int, keyHash: string, app: int)
    requires a != app
    ensures SameView(db, AfterRotateKey(db, a, keyHash), app)
  {}

  lemma DeleteAppLeavesOthers(db: Db, a: int, app: int)
    requires Inv(db) && a != app
    ensures SameView(db, AfterDeleteApp(db, a), app)
  {
    hide Inv, AfterDeleteApp;
    DeleteAppIsExact(db, a);
  }

  lemma IngestLeavesOthers(db: Db, r: Incoming, app: int)
    requires Inv(db) && r.appId != app
    ensures SameView(db, Ingest(db, r).0, app)
  {
    hide Inv, FmtTime, Ingest;
    IngestKeeps(db, r);
    var (db', out) := Ingest(db, r);
    if out.Inserted? {
      IngestEffect(db, r);
      IngestAdds(db, r);
      if FindIssue(db, r.appId, r.hash).None? {
        NewIssueStartsEmpty(db, r);
      }
      OtherIssueLeft(db, db', r, out.issueId, app);
    }
  }

  /** An upsert for one app touches no issue of another. */
  lemma OtherIssueLeft(db: Db, db': Db, r: Incoming, i: int, app: int)
    requires r.appId != app && Inv(db)
    requires i in db'.issues && db'.issues[i].appId == r.appId && db'.issues == db.issues[i := db'.issues[i]]
    requires i in db.issues ==> db.issues[i].appId == r.appId
    requires db'.apps == db.apps && r.id !in db.reports && db'.reports == db.reports[r.id := NewReport(r, i)]
    ensures SameView(db, db', app)
  {
    hide Inv, FmtTime;
  }

  lemma StatusLeavesOthers(db: Db, a: int, issue: int, status: string, app: int)
    requires a != app
    ensures SameView(db, AfterSetStatus(db, a, issue, status), app)
  {}

  lemma DeleteIssueLeavesOthers(db: Db, a: int, issue: int, app: int)
    requires Inv(db) && a != app
    ensures SameView(db, AfterDeleteIssue(db, a, issue), app)
  {
    hide IsStamp, AppsOk, IssuesOk;
    assert forall id :: id in db.reports ==> Filed(db, db.reports[id]);
  }

  lemma DeleteReportLeavesOthers(db: Db, a: int, id: string, app: int)
    requires a != app
    ensures SameView(db, AfterDeleteReport(db, a, id), app)
  {}

  lemma {:induction false} RunLeavesOthers(db: Db, ops: seq<Op>, app: int)
    requires Inv(db) && NoneTargets(ops, app)
    ensures Inv(Run(db, ops)) && SameView(db, Run(db, ops), app)
  {
    hide Inv, After, Targets, IssuesSeen, ReportsSeen;
    if ops != [] {
      var front, last := ops[..|ops| - 1], ops[|ops| - 1];
      RunLeavesOthers(db, front, app);
      StepKeeps(Run(db, front), last);
      StepLeavesOthers(Run(db, front), last, app);
    }
  }

  // ---------- the pages of the other apps ----------

  /** Whatever is done for other apps, any number of deletes and ingests included, an app's numbers
      and every list of its issues under any filter stay as they were. */
  lemma OthersSeeNoChange(db: Db, ops: seq<Op>, f: Filter, cs: seq<Clause>, args: seq<Arg>)
    requires Inv(db) && f.appId != 0 && NoneTargets(ops, f.appId)
    requires |args| == AllHoles(cs) && forall row :: Eval(cs, args, row) <==> Wanted(f, row)
    ensures var db' := Run(db, ops);
            AppStats(db', f.appId) == AppStats(db, f.appId) &&
            (forall dim :: Breakdown(db', f.appId, dim) == Breakdown(db, f.appId, dim)) &&
            (forall day: nat :: OnDay(db', OfApp(f.appId), day) == OnDay(db, OfApp(f.appId), day)) &&
            ListIssues(db', cs, args) == ListIssues(db, cs, args)
  {
    hide Inv, Run, SameRows, AppStats, ListIssues, Eval, Wanted, Breakdown, OnDay;
    var db' := Run(db, ops);
    RunLeavesOthers(db, ops, f.appId);
    SameStats(db, db', f.appId);
    SameCharts(db, db', f.appId);
    SameList(db, db', f, cs, args);
  }

  lemma SameStats(db: Db, db': Db, app: int)
    requires SameRows(db, db', app)
    ensures AppStats(db', app) == AppStats(db, app)
  {
    SeenReports(db, db', app);
    assert ReportsOf(db', app) == ReportsOf(db, app);
    SameInstallations(db, db', app, ReportsOf(db, app));
    forall i: int, status
      ensures i in IssuesWith(db', app, status) <==> i in IssuesWith(db, app, status)
    {
      assert i in IssuesSeen(db', app) <==> i in IssuesSeen(db, app);
    }
    assert IssuesWith(db', app, OPEN) == IssuesWith(db, app, OPEN);
    assert IssuesWith(db', app, RESOLVED) == IssuesWith(db, app, RESOLVED);
  }

  lemma SameCharts(db: Db, db': Db, app: int)
    requires SameRows(db, db', app)
    ensures forall dim :: Breakdown(db', app, dim) == Breakdown(db, app, dim)
    ensures forall day: nat :: OnDay(db', OfApp(app), day) == OnDay(db, OfApp(app), day)
  {
    hide SameRows, DimensionOf, ParseTime, DayOf, Fiber;
    SeenReports(db, db', app);
    assert ReportsOf(db', app) == ReportsOf(db, app);
    forall dim
      ensures Labels(db', app, dim) == Labels(db, app, dim)
    {
    }
    forall day: nat
      ensures OnDay(db', OfApp(app), day) == OnDay(db, OfApp(app), day)
    {
      forall id
        ensures id in OnDay(db', OfApp(app), day) <==> id in OnDay(db, OfApp(app), day)
      {
        assert id in ReportsOf(db', app) <==> id in ReportsOf(db, app);
      }
    }
  }

  lemma SeenReports(db: Db, db': Db, app: int)
    requires SameRows(db, db', app)
    ensures forall id :: id in ReportsOf(db', app) <==> id in ReportsOf(db, app)
    ensures forall id :: id in ReportsOf(db, app) ==> db'.reports[id] == db.reports[id]
  {
    assert forall id :: id in ReportsOf(db, app) <==> id in ReportsSeen(db, app);
    assert forall id :: id in ReportsOf(db', app) <==> id in ReportsSeen(db', app);
    assert forall id :: id in ReportsSeen(db, app) ==> ReportsSeen(db, app)[id] == ReportsSeen(db', app)[id];
  }

  lemma SameInstallations(db: Db, db': Db, app: int, ids: set<string>)
    requires SameRows(db, db', app) && ids <= ReportsOf(db, app)
    ensures Installations(db', ids) == Installations(db, ids)
  {
    SeenReports(db, db', app);
    assert forall id :: id in ids ==> id in db.reports && id in db'.reports && db'.reports[id] == db.reports[id];
  }

  lemma SameList(db: Db, db': Db, f: Filter, cs: seq<Clause>, args: seq<Arg>)
    requires Inv(db) && Inv(db') && f.appId != 0 && SameRows(db, db', f.appId)
    requires |args| == AllHoles(cs) && forall row :: Eval(cs, args, row) <==> Wanted(f, row)
    ensures ListIssues(db', cs, args) == ListIssues(db, cs, args)
  {
    hide Inv, SameRows, ListIssues, Eval, Wanted, WantedReports, Installations;
    ListIsWanted(db, f, cs, args);
    ListIsWanted(db', f, cs, args);
    forall i: int
      ensures WantedReports(db', f, i) == WantedReports(db, f, i) && (i in WantedIssues(db', f) <==> i in WantedIssues(db, f))
      ensures Installations(db', WantedReports(db, f, i)) == Installations(db, WantedReports(db, f, i))
    {
      SameWanted(db, db', f, i);
    }
    var list, list' := ListIssues(db, cs, args), ListIssues(db', cs, args);
    assert WantedIssues(db', f) == WantedIssues(db, f);
    assert list'.counts == list.counts;
    assert list'.installs == list.installs;
  }

  lemma SameWanted(db: Db, db': Db, f: Filter, i: int)
    requires Inv(db) && Inv(db') && f.appId != 0 && SameRows(db, db', f.appId)
    ensures WantedReports(db', f, i) == WantedReports(db, f, i)
    ensures i in WantedIssues(db', f) <==> i in WantedIssues(db, f)
    ensures Installations(db', WantedReports(db, f, i)) == Installations(db, WantedReports(db, f, i))
  {
    hide Inv, IssuesSeen, ReportsSeen, Wanted, WantedReports, Installations;
    WantedCarry(db, db', f, i);
    WantedCarry(db', db, f, i);
    WantedAreOwn(db, f, i);
    SameInstallations(db, db', f.appId, WantedReports(db, f, i));
    WantedIsIssue(db, f, i);
    WantedIsIssue(db', f, i);
  }

  lemma WantedIsIssue(db: Db, f: Filter, i: int)
    ensures i in WantedIssues(db, f) <==> WantedReports(db, f, i) != {}
  {
    hide Wanted;
    if i !in db.issues {
      assert WantedReports(db, f, i) == {};
    }
  }

  /** A filter that names an app wants that app's reports only. */
  lemma WantedAreOwn(db: Db, f: Filter, i: int)
    requires Inv(db) && f.appId != 0
    ensures WantedReports(db, f, i) <= ReportsOf(db, f.appId)
    ensures WantedReports(db, f, i) != {} ==> i in IssuesSeen(db, f.appId)
  {
    hide IsStamp, AppsOk, IssuesOk, Condition;
    forall id | id in WantedReports(db, f, i)
      ensures id in ReportsOf(db, f.appId) && i in IssuesSeen(db, f.appId)
    {
      assert Filed(db, db.reports[id]);
      assert Condition(f, JoinRow(db.issues[i], db.reports[id]), 0);
      FirstCondition(f, JoinRow(db.issues[i], db.reports[id]));
    }
  }

  lemma FirstCondition(f: Filter, row: JoinRow)
    requires f.appId != 0 && Condition(f, row, 0)
    ensures row.issue.appId == f.appId
  {
    hide FmtTime, TextAtMost;
  }

  lemma WantedCarry(db: Db, db': Db, f: Filter, i: int)
    requires Inv(db) && f.appId != 0 && SameRows(db, db', f.appId)
    ensures WantedReports(db, f, i) <= WantedReports(db', f, i)
  {
    hide Inv, Wanted, IssuesSeen, ReportsSeen;
    WantedAreOwn(db, f, i);
    forall id | id in WantedReports(db, f, i)
      ensures id in WantedReports(db', f, i)
    {
      assert id in ReportsSeen(db, f.appId) && ReportsSeen(db, f.appId)[id] == db.reports[id] by {
        SeenReport(db, f.appId, id);
      }
      SeenReport(db', f.appId, id);
      SeenIssue(db, f.appId, i);
      SeenIssue(db', f.appId, i);
    }
  }

  lemma SeenReport(db: Db, app: int, id: string)
    ensures id in ReportsSeen(db, app) <==> id in ReportsOf(db, app)
    ensures id in ReportsSeen(db, app) ==> id in db.reports && ReportsSeen(db, app)[id] == db.reports[id]
  {}

  lemma SeenIssue(db: Db, app: int, i: int)
    ensures i in IssuesSeen(db, app) ==> i in db.issues && IssuesSeen(db, app)[i] == db.issues[i]
  {}

  // ---------- after a delete ----------

  predicate Brings(op: Op, id: string) {
    op.IngestOp? && op.r.id == id
  }

  /** A report that is not stored stays away until it is sent again. */
  lemma {:induction false} AbsentStaysAbsent(db: Db, ops: seq<Op>, id: string)
    requires Inv(db) && id !in db.reports && forall k :: 0 <= k < |ops| ==> !Brings(ops[k], id)
    ensures Inv(Run(db, ops)) && id !in Run(db, ops).reports
  {
    hide Inv, After;
    if ops != [] {
      var front, last := ops[..|ops| - 1], ops[|ops| - 1];
      AbsentStaysAbsent(db, front, id);
      StepKeeps(Run(db, front), last);
      StepBringsNothing(Run(db, front), last, id);
    }
  }

  lemma StepBringsNothing(db: Db, op: Op, id: string)
    requires Inv(db) && id !in db.reports && !Brings(op, id)
    ensures id !in After(db, op).reports
  {
    hide Inv, FmtTime, Ingest;
    if op.IngestOp? {
      IngestAdds(db, op.r);
    }
  }

  predicate Reopens(op: Op, app: int, hash: string) {
    op.IngestOp? && op.r.appId == app && op.r.hash == hash
  }

  ghost predicate NoIssueFor(db: Db, app: int, hash: string) {
    forall i :: !IsIssueFor(db, i, app, hash)
  }

  lemma {:induction false} NoIssueUntilReopened(db: Db, ops: seq<Op>, app: int, hash: string)
    requires Inv(db) && NoIssueFor(db, app, hash) && forall k :: 0 <= k < |ops| ==> !Reopens(ops[k], app, hash)
    ensures Inv(Run(db, ops)) && NoIssueFor(Run(db, ops), app, hash)
  {
    hide Inv, After, NoIssueFor;
    if ops != [] {
      var front, last := ops[..|ops| - 1], ops[|ops| - 1];
      NoIssueUntilReopened(db, front, app, hash);
      StepKeeps(Run(db, front), last);
      StepOpensNothing(Run(db, front), last, app, hash);
    }
  }

  lemma StepOpensNothing(db: Db, op: Op, app: int, hash: string)
    requires Inv(db) && NoIssueFor(db, app, hash) && !Reopens(op, app, hash)
    ensures NoIssueFor(After(db, op), app, hash)
  {
    hide Inv, FmtTime, Ingest;
    var db' := After(db, op);
    if op.IngestOp? {
      IngestKeeps(db, op.r);
      if Ingest(db, op.r).1.Inserted? {
        IngestEffect(db, op.r);
      }
    }
    forall i
      ensures !IsIssueFor(db', i, app, hash)
    {
      assert !IsIssueFor(db, i, app, hash);
    }
  }

  lemma DeletedKeyIsFree(db: Db, app: int, issue: int)
    requires Inv(db) && OwnsIssue(db, app, issue)
    ensures NoIssueFor(AfterDeleteIssue(db, app, issue), app, db.issues[issue].hash)
    ensures forall id :: id in db.reports && db.reports[id].issueId == issue ==>
              id !in AfterDeleteIssue(db, app, issue).reports
  {
    hide IsStamp, AppsOk, ReportsOk;
    var hash := db.issues[issue].hash;
    var db' := AfterDeleteIssue(db, app, issue);
    forall i
      ensures !IsIssueFor(db', i, app, hash)
    {
      assert IsIssueFor(db', i, app, hash) ==> i in db.issues && SameKey(db.issues[i], db.issues[issue]);
    }
  }

  /** After an issue is deleted, and whatever happens before its stack hash comes back, the next
      accepted report of that hash opens an issue that is new in every column and holds that report
      alone; and of the deleted reports none is stored, under any issue, unless it was sent again. */
  lemma DeletedIssueStartsOver(db: Db, app: int, issue: int, ops: seq<Op>, r: Incoming)
    requires Inv(db) && OwnsIssue(db, app, issue)
    requires r.appId == app && r.hash == db.issues[issue].hash
    requires forall k :: 0 <= k < |ops| ==> !Reopens(ops[k], app, r.hash)
    ensures var mid := Run(AfterDeleteIssue(db, app, issue), ops);
            var (end, out) := Ingest(mid, r);
            var now := FmtTime(r.receivedAt);
            (out.Inserted? <==> app in mid.apps && r.id !in mid.reports) &&
            (out.Inserted? ==>
               out.issueId !in mid.issues &&
               IsIssueFor(end, out.issueId, app, r.hash) &&
               end.issues[out.issueId] == IssueRow(app, r.hash, r.title, OPEN, now, now) &&
               forall id :: id in end.reports && end.reports[id].issueId == out.issueId <==> id == r.id) &&
            (forall id :: id in db.reports && db.reports[id].issueId == issue && id != r.id &&
                          (forall k :: 0 <= k < |ops| ==> !Brings(ops[k], id)) ==>
               id !in end.reports)
  {
    hide Inv, FmtTime, Ingest, Run, After, WithoutIssues;
    var start := AfterDeleteIssue(db, app, issue);
    var mid := Run(start, ops);
    WithoutIssuesKeeps(db, {issue});
    DeletedKeyIsFree(db, app, issue);
    NoIssueUntilReopened(start, ops, app, r.hash);
    IngestKeeps(mid, r);
    IngestAdds(mid, r);
    if Ingest(mid, r).1.Inserted? {
      NewIssueStartsEmpty(mid, r);
      IngestEffect(mid, r);
    }
    forall id | id in db.reports && db.reports[id].issueId == issue && id != r.id &&
                (forall k :: 0 <= k < |ops| ==> !Brings(ops[k], id))
      ensures id !in Ingest(mid, r).0.reports
    {
      AbsentStaysAbsent(start, ops, id);
    }
  }
}
