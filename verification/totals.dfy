/** The issue list's total against the status counts, over whole runs. */
module Totals {
  import opened Options
  import opened TimeText
  import opened Tables
  import opened TableLaws
  import opened Sets
  import opened IssueQuery
  import opened Analytics

  // ---------- the two numbers ----------

  /** The total of an app's unfiltered issue list. */
  ghost function AppTotal(db: Db, app: int): nat {
    ListIssues(db, [Always, Equals(IssueApp)], [Number(app)]).total
  }

  ghost predicate TotalsAgree(db: Db) {
    forall app: int :: app != 0 ==> AppTotal(db, app) == AppStats(db, app).openIssues + AppStats(db, app).resolvedIssues
  }

  ghost predicate HasReport(db: Db, i: int) {
    exists id :: id in db.reports && db.reports[id].issueId == i
  }

  ghost predicate AllHaveReports(db: Db) {
    forall i :: i in db.issues ==> HasReport(db, i)
  }

  lemma AppClause(app: int, row: JoinRow)
    ensures Eval([Always, Equals(IssueApp)], [Number(app)], row) <==> row.issue.appId == app
  {
    var cs, args := [Always, Equals(IssueApp)], [Number(app)];
    assert cs[1..] == [Equals(IssueApp)] && cs[1..][1..] == [];
    assert args[0..] == args && args[..1] == args && args[1..] == [];
    assert Eval(cs, args, row) <==> Eval([Equals(IssueApp)], args, row);
    assert Eval([], [], row);
  }

  lemma AppTotalIsWanted(db: Db, app: int)
    requires Inv(db) && app != 0
    ensures AppTotal(db, app) == |WantedIssues(db, OneApp(app))|
  {
    hide Wanted, IsStamp, ListIssues, WantedReports, WantedIssues, Inv;
    var cs, args := [Always, Equals(IssueApp)], [Number(app)];
    forall row
      ensures Eval(cs, args, row) <==> Wanted(OneApp(app), row)
    {
      AppClause(app, row);
      OneAppWants(app, row);
    }
    ListIsWanted(db, OneApp(app), cs, args);
  }

  lemma AgreeMeansAllHaveReports(db: Db)
    requires Inv(db)
    ensures TotalsAgree(db) <==> AllHaveReports(db)
  {
    hide AppTotal, AppStats, WantedIssues, IsStamp, AppsOk, ReportsOk;
    forall app: int | app != 0
      ensures AppTotal(db, app) == AppStats(db, app).openIssues + AppStats(db, app).resolvedIssues <==>
              forall i :: i in IssuesOf(db, app) ==> HasReport(db, i)
    {
      AppTotalIsWanted(db, app);
      IssueTotals(db, app);
    }
    if TotalsAgree(db) {
      forall i | i in db.issues
        ensures HasReport(db, i)
      {
        var app := db.issues[i].appId;
        assert app >= 1 by {
          AppsArePositive(db);
        }
        assert i in IssuesOf(db, app);
      }
    }
  }

  lemma AppsArePositive(db: Db)
    requires Inv(db)
    ensures forall a :: a in db.apps ==> a >= 1
  {
    hide IsStamp, IssuesOk, ReportsOk;
  }

  // ---------- one step ----------

  /** The step deletes the only report of an issue. */
  ghost predicate TakesLastReport(db: Db, op: Op) {
    op.DeleteReport? && OwnsReport(db, op.app, op.id) &&
    forall k :: k in db.reports && db.reports[k].issueId == db.reports[op.id].issueId ==> k == op.id
  }

  /** Only such a step leaves an issue without reports. */
  lemma StepLeavesReports(db: Db, op: Op)
    requires Inv(db) && AllHaveReports(db)
    ensures AllHaveReports(After(db, op)) <==> !TakesLastReport(db, op)
  {
    hide Inv, Ingest, AfterDeleteApp, AfterDeleteIssue, AfterDeleteReport, HasReport, FmtTime;
    match op
    case CreateApp(name, keyHash, at) => SameReports(db, AfterCreateApp(db, name, keyHash, at));
    case RotateKey(app, keyHash) => SameReports(db, AfterRotateKey(db, app, keyHash));
    case DeleteApp(app) => DeleteAppLeavesReports(db, app);
    case IngestOp(r) => IngestLeavesReports(db, r);
    case SetStatus(app, issue, status) => SameReports(db, AfterSetStatus(db, app, issue, status));
    case DeleteIssue(app, issue) => DeleteIssueLeavesReports(db, app, issue);
    case DeleteReport(app, id) => DeleteReportLeavesReports(db, app, id);
  }

  lemma SameReports(db: Db, db': Db)
    requires AllHaveReports(db) && db'.issues.Keys == db.issues.Keys && db'.reports == db.reports
    ensures AllHaveReports(db')
  {
    assert forall i :: i in db'.issues ==> i in db.issues.Keys && HasReport(db, i);
  }

  lemma DeleteAppLeavesReports(db: Db, app: int)
    requires Inv(db) && AllHaveReports(db)
    ensures AllHaveReports(AfterDeleteApp(db, app))
  {
    hide IsStamp, AppsOk, IssuesOk, AfterDeleteApp;
    DeleteAppIsExact(db, app);
    var db' := AfterDeleteApp(db, app);
    forall i | i in db'.issues
      ensures HasReport(db', i)
    {
      assert HasReport(db, i);
      var id :| id in db.reports && db.reports[id].issueId == i;
      assert Filed(db, db.reports[id]);
      assert id in db'.reports && db'.reports[id].issueId == i;
    }
  }

  lemma IngestLeavesReports(db: Db, r: Incoming)
    requires Inv(db) && AllHaveReports(db)
    ensures AllHaveReports(Ingest(db, r).0)
  {
    hide Inv, Ingest, FmtTime;
    IngestKeeps(db, r);
    var (db', out) := Ingest(db, r);
    if out.Inserted? {
      IngestEffect(db, r);
      IngestAdds(db, r);
      forall i | i in db'.issues
        ensures HasReport(db', i)
      {
        if i == out.issueId {
          assert r.id in db'.reports && db'.reports[r.id].issueId == i;
        } else {
          assert HasReport(db, i);
          var id :| id in db.reports && db.reports[id].issueId == i;
          assert id in db'.reports && db'.reports[id].issueId == i;
        }
      }
    }
  }

  lemma DeleteIssueLeavesReports(db: Db, app: int, issue: int)
    requires AllHaveReports(db)
    ensures AllHaveReports(AfterDeleteIssue(db, app, issue))
  {
    var db' := AfterDeleteIssue(db, app, issue);
    forall i | i in db'.issues
      ensures HasReport(db', i)
    {
      assert HasReport(db, i);
      var id :| id in db.reports && db.reports[id].issueId == i;
      assert id in db'.reports && db'.reports[id].issueId == i;
    }
  }

  lemma DeleteReportLeavesReports(db: Db, app: int, id: string)
    requires Inv(db) && AllHaveReports(db)
    ensures AllHaveReports(AfterDeleteReport(db, app, id)) <==> !TakesLastReport(db, DeleteReport(app, id))
  {
    hide IsStamp, AppsOk, IssuesOk;
    var db' := AfterDeleteReport(db, app, id);
    if TakesLastReport(db, DeleteReport(app, id)) {
      var i := db.reports[id].issueId;
      assert Filed(db, db.reports[id]);
      assert i in db'.issues && !HasReport(db', i);
    } else {
      forall i | i in db'.issues
        ensures HasReport(db', i)
      {
        assert HasReport(db, i);
        var k :| k in db.reports && db.reports[k].issueId == i;
        if k == id && OwnsReport(db, app, id) {
          var other :| other in db.reports && db.reports[other].issueId == i && other != id;
          assert other in db'.reports && db'.reports[other].issueId == i;
        } else {
          assert k in db'.reports && db'.reports[k].issueId == i;
        }
      }
    }
  }

  // ---------- runs ----------

  ghost predicate KeepsLastReports(ops: seq<Op>) {
    forall n :: 0 <= n < |ops| ==> !TakesLastReport(Run(EMPTY, ops[..n]), ops[n])
  }

  /** The total of every app's issue list equals its open plus resolved issues in every state of a
      run, if and only if no step of the run deletes the only report of an issue. */
  lemma {:induction false} TotalsAgreeExactly(ops: seq<Op>)
    ensures (forall n :: 0 <= n <= |ops| ==> TotalsAgree(Run(EMPTY, ops[..n]))) <==> KeepsLastReports(ops)
  {
    hide TotalsAgree, AllHaveReports, TakesLastReport, After, Inv;
    if ops == [] {
      StartsAgreed(ops);
    } else {
      var front, last := ops[..|ops| - 1], ops[|ops| - 1];
      var db := Run(EMPTY, front);
      assert forall n :: 0 <= n <= |front| ==> front[..n] == ops[..n];
      assert front[..|front|] == front && ops[..|ops|] == ops;
      TotalsAgreeExactly(front);
      ReachableStatesAreSound(front);
      ReachableStatesAreSound(ops);
      AgreeMeansAllHaveReports(db);
      AgreeMeansAllHaveReports(Run(EMPTY, ops));
      if TotalsAgree(db) {
        StepLeavesReports(db, last);
      }
      OneMoreState(front, last, ops);
    }
  }

  lemma StartsAgreed(ops: seq<Op>)
    requires ops == []
    ensures forall n :: 0 <= n <= |ops| ==> TotalsAgree(Run(EMPTY, ops[..n]))
  {
    hide TotalsAgree;
    assert Inv(EMPTY);
    assert AllHaveReports(EMPTY);
    AgreeMeansAllHaveReports(EMPTY);
    assert forall n :: 0 <= n <= |ops| ==> ops[..n] == [];
  }

  /** A run is its beginning and its last step. */
  lemma OneMoreState(front: seq<Op>, last: Op, ops: seq<Op>)
    requires ops == front + [last]
    ensures (forall n :: 0 <= n <= |ops| ==> TotalsAgree(Run(EMPTY, ops[..n]))) <==>
            (forall n :: 0 <= n <= |front| ==> TotalsAgree(Run(EMPTY, front[..n]))) && TotalsAgree(Run(EMPTY, ops))
    ensures KeepsLastReports(ops) <==> KeepsLastReports(front) && !TakesLastReport(Run(EMPTY, front), last)
  {
    hide TotalsAgree, TakesLastReport, Run;
    assert forall n :: 0 <= n <= |front| ==> front[..n] == ops[..n];
    assert front[..|front|] == front && ops[..|ops|] == ops;
  }

  /** Delete the only report of a new app's only issue: the list is empty, and one issue is counted
      as open. */
  lemma DisagreeAfterLastReport(t: Instant, d: Details)
    ensures var db := Run(EMPTY, [CreateApp("a", "k", t), IngestOp(Incoming("x", 1, "h", "", d, t)), DeleteReport(1, "x")]);
            AppTotal(db, 1) == 0 && AppStats(db, 1).openIssues == 1
  {
    hide FmtTime, AppTotal, Run, After, WantedIssues, Installations, Wanted, Inv;
    var create, ingest, delete := CreateApp("a", "k", t), IngestOp(Incoming("x", 1, "h", "", d, t)), DeleteReport(1, "x");
    var ops := [create, ingest, delete];
    assert ops == [create] + [ingest] + [delete] && [] + [create] == [create];
    RunSnoc(EMPTY, [], create);
    RunSnoc(EMPTY, [create], ingest);
    RunSnoc(EMPTY, [create] + [ingest], delete);
    RunNothing(EMPTY);
    ThreeSteps(t, d);
    var db := Run(EMPTY, ops);
    ReachableStatesAreSound(ops);
    AppTotalIsWanted(db, 1);
    NothingListed(db, 1);
    assert IssuesWith(db, 1, OPEN) == {1};
  }

  lemma RunNothing(db: Db)
    ensures Run(db, []) == db
  {}

  lemma ThreeSteps(t: Instant, d: Details)
    ensures var stamp := FmtTime(t);
            After(After(After(EMPTY, CreateApp("a", "k", t)), IngestOp(Incoming("x", 1, "h", "", d, t))), DeleteReport(1, "x")) ==
            Db(map[1 := AppRow("a", "k", stamp)], map[1 := IssueRow(1, "h", "", OPEN, stamp, stamp)], map[])
  {
    hide FmtTime;
    var stamp := FmtTime(t);
    var db1 := After(EMPTY, CreateApp("a", "k", t));
    assert EMPTY.apps.Keys == {} && NextId(EMPTY.apps.Keys) == 1;
    assert db1 == Db(map[1 := AppRow("a", "k", stamp)], map[], map[]);
    var r := Incoming("x", 1, "h", "", d, t);
    assert db1.issues.Keys == {} && NextId(db1.issues.Keys) == 1;
    assert FindIssue(db1, 1, "h").None?;
    var db2 := After(db1, IngestOp(r));
    assert db2 == Db(db1.apps, map[1 := IssueRow(1, "h", "", OPEN, stamp, stamp)], map["x" := NewReport(r, 1)]);
    assert OwnsReport(db2, 1, "x");
    assert db2.reports - {"x"} == map[];
  }

  lemma NothingListed(db: Db, app: int)
    requires db.reports == map[]
    ensures WantedIssues(db, OneApp(app)) == {}
  {
    hide Wanted;
    forall i: int
      ensures WantedReports(db, OneApp(app), i) == {}
    {
    }
  }
}
