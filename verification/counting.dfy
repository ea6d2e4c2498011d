/** What single operations do to the numbers on the dashboards, and how those numbers agree with
    the issue list under its filters. */
module Counting {
  import opened Options
  import opened TimeText
  import opened Tables
  import opened TableLaws
  import opened Sets
  import opened IssueQuery
  import opened Analytics

  // ---------- an accepted report, column by column ----------

  /** An accepted report is stored with its own columns, and its receipt time reads back as the
      second it was received in. */
  lemma IngestStoresColumns(db: Db, r: Incoming)
    requires Inv(db) && Ingest(db, r).1.Inserted?
    ensures var (db', out) := Ingest(db, r);
            r.id !in db.reports && db'.reports.Keys == db.reports.Keys + {r.id} &&
            (forall id :: id in db.reports ==> db'.reports[id] == db.reports[id]) &&
            db'.reports[r.id].appId == r.appId && db'.reports[r.id].issueId == out.issueId &&
            db'.reports[r.id].hash == r.hash && db'.reports[r.id].details == r.details &&
            ParseTime(db'.reports[r.id].receivedAt) == FloorSecond(r.receivedAt) * SECOND
  {
    hide Inv, FmtTime, ParseTime, FloorSecond, Ingest;
    IngestAdds(db, r);
    StoredTimeReadsBack(r.receivedAt);
  }

  // ---------- where it shows ----------

  lemma OnDayAt(db: Db, s: Scope, day: nat, id: string)
    ensures id in OnDay(db, s, day) <==>
            id in db.reports && InScope(db.reports[id], s) && DayOf(ParseTime(db.reports[id].receivedAt)) == day
  {
    hide ParseTime, DayOf, InScope;
  }

  lemma ScopesOf(row: ReportRow, s: Scope)
    ensures InScope(row, s) <==> s == All || s == OfApp(row.appId) || s == OfIssue(row.issueId)
  {}

  lemma DayOfSecond(t: Instant)
    ensures DayOf(FloorSecond(t) * SECOND) == DayOf(t)
  {}

  /** The chart of a scope gains exactly the new report on exactly its day: that of everything, of
      its app, and of its issue. */
  lemma IngestShowsOnItsDay(db: Db, r: Incoming, s: Scope, day: nat)
    requires Inv(db) && Ingest(db, r).1.Inserted?
    ensures var (db', out) := Ingest(db, r);
            var shown := day == DayOf(r.receivedAt) && (s == All || s == OfApp(r.appId) || s == OfIssue(out.issueId));
            OnDay(db', s, day) == (if shown then OnDay(db, s, day) + {r.id} else OnDay(db, s, day)) &&
            |OnDay(db', s, day)| == |OnDay(db, s, day)| + if shown then 1 else 0
  {
    hide Inv, ParseTime, Ingest, OnDay, InScope, DayOf, FloorSecond;
    IngestStoresColumns(db, r);
    var (db', out) := Ingest(db, r);
    DayOfSecond(r.receivedAt);
    ScopesOf(db'.reports[r.id], s);
    var shown := day == DayOf(r.receivedAt) && (s == All || s == OfApp(r.appId) || s == OfIssue(out.issueId));
    var new' := if shown then OnDay(db, s, day) + {r.id} else OnDay(db, s, day);
    forall id
      ensures id in OnDay(db', s, day) <==> id in new'
    {
      OnDayAt(db, s, day, id);
      OnDayAt(db', s, day, id);
    }
    assert OnDay(db', s, day) == new';
    OnDayAt(db, s, day, r.id);
  }

  /** One more under v, everything else the same. */
  predicate GainsOne(before: map<string, nat>, after: map<string, nat>, v: string) {
    after == before[v := 1 + if v in before then before[v] else 0]
  }

  ghost function Groups(m: map<string, string>): map<string, nat> {
    map v | v in m.Values :: |Fiber(m, v)|
  }

  lemma ValuesGain(m: map<string, string>, id: string, v: string)
    requires id !in m
    ensures m[id := v].Values == m.Values + {v}
  {
    var m' := m[id := v];
    assert m'[id] == v;
    forall x | x in m.Values
      ensures x in m'.Values
    {
      var k :| k in m && m[k] == x;
      assert m'[k] == x;
    }
  }

  lemma FiberGain(m: map<string, string>, id: string, v: string, x: string)
    requires id !in m
    ensures |Fiber(m[id := v], x)| == |Fiber(m, x)| + if x == v then 1 else 0
    ensures x !in m.Values ==> |Fiber(m, x)| == 0
  {
    assert Fiber(m[id := v], x) == if x == v then Fiber(m, x) + {id} else Fiber(m, x);
    if x !in m.Values {
      assert forall k :: k in m ==> m[k] in m.Values;
      assert Fiber(m, x) == {};
    }
  }

  lemma GroupsGain(m: map<string, string>, id: string, v: string)
    requires id !in m
    ensures GainsOne(Groups(m), Groups(m[id := v]), v)
  {
    hide Fiber;
    ValuesGain(m, id, v);
    forall x
      ensures |Fiber(m[id := v], x)| == |Fiber(m, x)| + if x == v then 1 else 0
      ensures x !in m.Values ==> |Fiber(m, x)| == 0
    {
      FiberGain(m, id, v, x);
    }
  }

  lemma LabelsGain(db: Db, r: Incoming, dim: Dimension)
    requires Inv(db) && Ingest(db, r).1.Inserted?
    ensures GainsOne(Breakdown(db, r.appId, dim), Breakdown(Ingest(db, r).0, r.appId, dim), DimensionOf(r.details, dim))
  {
    hide Inv, ParseTime, FloorSecond, Ingest, DimensionOf;
    IngestStoresColumns(db, r);
    var db' := Ingest(db, r).0;
    assert ReportsOf(db', r.appId) == ReportsOf(db, r.appId) + {r.id};
    var m := Labels(db, r.appId, dim);
    assert Labels(db', r.appId, dim) == m[r.id := DimensionOf(r.details, dim)];
    GroupsGain(m, r.id, DimensionOf(r.details, dim));
  }

  /** Every breakdown of the report's app gains one under the report's own value of that column,
      and nothing else. */
  lemma IngestShowsInBreakdowns(db: Db, r: Incoming)
    requires Inv(db) && Ingest(db, r).1.Inserted?
    ensures var (db', app) := (Ingest(db, r).0, r.appId);
            GainsOne(Breakdown(db, app, ByVersion), Breakdown(db', app, ByVersion), r.details.appVersion) &&
            GainsOne(Breakdown(db, app, ByAndroid), Breakdown(db', app, ByAndroid), r.details.androidVersion) &&
            GainsOne(Breakdown(db, app, ByModel), Breakdown(db', app, ByModel), r.details.phoneModel) &&
            GainsOne(Breakdown(db, app, ByBrand), Breakdown(db', app, ByBrand), r.details.brand)
  {
    hide Inv, Ingest, Breakdown, GainsOne;
    LabelsGain(db, r, ByVersion);
    LabelsGain(db, r, ByAndroid);
    LabelsGain(db, r, ByModel);
    LabelsGain(db, r, ByBrand);
  }

  /** The app's report count goes up by one, and its installation count exactly when no report of
      the app came from that installation before. */
  lemma IngestShowsInStats(db: Db, r: Incoming)
    requires Inv(db) && Ingest(db, r).1.Inserted?
    ensures var (before, after) := (AppStats(db, r.appId), AppStats(Ingest(db, r).0, r.appId));
            after.reports == before.reports + 1 &&
            after.installs == before.installs +
              if exists id :: id in db.reports && db.reports[id].appId == r.appId &&
                              db.reports[id].details.installation == r.details.installation
              then 0 else 1
  {
    hide Inv, ParseTime, FloorSecond, Ingest, IssuesWith, Installations;
    IngestStoresColumns(db, r);
    var db' := Ingest(db, r).0;
    var a := ReportsOf(db, r.appId);
    assert ReportsOf(db', r.appId) == a + {r.id};
    assert r.id !in a;
    hide ReportsOf;
    InstallationsGain(db, db', a, r.id);
    AppInstallation(db, r.appId, r.details.installation);
  }

  lemma AppInstallation(db: Db, app: int, x: string)
    ensures x in Installations(db, ReportsOf(db, app)) <==>
            exists id :: id in db.reports && db.reports[id].appId == app && db.reports[id].details.installation == x
  {
    hide Installations;
    InstallationIn(db, ReportsOf(db, app), x);
    forall id | id in db.reports && db.reports[id].appId == app && db.reports[id].details.installation == x
      ensures id in ReportsOf(db, app)
    {
    }
  }

  lemma InstallationIn(db: Db, ids: set<string>, x: string)
    ensures x in Installations(db, ids) <==> exists id :: id in ids && id in db.reports && db.reports[id].details.installation == x
  {
    forall id | id in ids && id in db.reports && db.reports[id].details.installation == x
      ensures x in Installations(db, ids)
    {
    }
  }

  /** One more report adds its installation, if that was not there. */
  lemma InstallationsGain(db: Db, db': Db, ids: set<string>, new': string)
    requires new' in db'.reports
    requires forall id :: id in ids ==> id in db.reports && id in db'.reports && db'.reports[id] == db.reports[id]
    ensures var x := db'.reports[new'].details.installation;
            |Installations(db', ids + {new'})| == |Installations(db, ids)| + if x in Installations(db, ids) then 0 else 1
  {
    hide Installations;
    var x := db'.reports[new'].details.installation;
    forall y
      ensures y in Installations(db', ids + {new'}) <==> y == x || y in Installations(db, ids)
    {
      InstallationIn(db', ids + {new'}, y);
      InstallationIn(db, ids, y);
      if y in Installations(db, ids) {
        var id :| id in ids && id in db.reports && db.reports[id].details.installation == y;
        assert id in ids + {new'};
      }
      assert new' in ids + {new'};
    }
    assert Installations(db', ids + {new'}) == Installations(db, ids) + {x};
    AddOne(Installations(db, ids), x);
  }

  /** Resolving an open issue moves exactly one from open to resolved, reopening moves it back, and
      setting the status it has changes neither count. */
  lemma StatusMoves(db: Db, app: int, issue: int)
    requires OwnsIssue(db, app, issue) && (db.issues[issue].status == "open" || db.issues[issue].status == "resolved")
    ensures var (was, now) := (AppStats(db, app), AppStats(AfterSetStatus(db, app, issue, "resolved"), app));
            var moved := if db.issues[issue].status == "open" then 1 else 0;
            now.openIssues == was.openIssues - moved && now.resolvedIssues == was.resolvedIssues + moved
    ensures var (was, now) := (AppStats(db, app), AppStats(AfterSetStatus(db, app, issue, "open"), app));
            var moved := if db.issues[issue].status == "resolved" then 1 else 0;
            now.openIssues == was.openIssues + moved && now.resolvedIssues == was.resolvedIssues - moved
  {
    hide Installations, IssuesWith, AfterSetStatus;
    assert "open"[0] != "resolved"[0];
    StatusTaken(db, app, issue, "resolved", "open");
    StatusTaken(db, app, issue, "open", "resolved");
  }

  lemma AddOne<T>(s: set<T>, x: T)
    ensures |s + {x}| == |s| + (if x in s then 0 else 1) && |s - {x}| == |s| - if x in s then 1 else 0
  {
    if x in s {
      assert s + {x} == s;
    } else {
      assert s - {x} == s;
    }
  }

  lemma StatusTaken(db: Db, app: int, issue: int, status: string, other: string)
    requires OwnsIssue(db, app, issue) && (status == OPEN || status == RESOLVED) && other != status
    ensures var db' := AfterSetStatus(db, app, issue, status);
            |IssuesWith(db', app, status)| == |IssuesWith(db, app, status)| + (if db.issues[issue].status == status then 0 else 1) &&
            |IssuesWith(db', app, other)| == |IssuesWith(db, app, other)| - if db.issues[issue].status == other then 1 else 0
  {
    hide AfterSetStatus, IssuesWith;
    StatusSets(db, app, issue, status);
    AddOne(IssuesWith(db, app, status), issue);
    AddOne(IssuesWith(db, app, other), issue);
    StatusOf(db, app, issue, status);
    StatusOf(db, app, issue, other);
  }

  lemma StatusOf(db: Db, app: int, issue: int, status: string)
    requires OwnsIssue(db, app, issue)
    ensures issue in IssuesWith(db, app, status) <==> db.issues[issue].status == status
  {}

  lemma StatusSets(db: Db, app: int, issue: int, status: string)
    requires OwnsIssue(db, app, issue) && (status == OPEN || status == RESOLVED)
    ensures var db' := AfterSetStatus(db, app, issue, status);
            IssuesWith(db', app, status) == IssuesWith(db, app, status) + {issue} &&
            forall other :: other != status ==> IssuesWith(db', app, other) == IssuesWith(db, app, other) - {issue}
  {
    var db' := AfterSetStatus(db, app, issue, status);
    assert db'.issues == db.issues[issue := db.issues[issue].(status := status)];
    hide AfterSetStatus;
    assert IssuesWith(db', app, status) == IssuesWith(db, app, status) + {issue};
    forall other | other != status
      ensures IssuesWith(db', app, other) == IssuesWith(db, app, other) - {issue}
    {
    }
  }

  // ---------- the list against the dashboards ----------

  /** Every report that meets the filter together with its issue. */
  ghost function AllWanted(db: Db, f: Filter): set<string> {
    set id | id in db.reports && db.reports[id].issueId in db.issues &&
             Wanted(f, JoinRow(db.issues[db.reports[id].issueId], db.reports[id]))
  }

  ghost function WantedIds(db: Db, f: Filter): map<string, int> {
    map id | id in AllWanted(db, f) && id in db.reports :: db.reports[id].issueId
  }

  lemma WantedGroup(db: Db, f: Filter, i: int)
    requires i in db.issues
    ensures Fiber(WantedIds(db, f), i) == WantedReports(db, f, i)
  {
    hide Wanted;
  }

  lemma WantedAreListed(db: Db, f: Filter)
    ensures InKeys(WantedIds(db, f), WantedIssues(db, f)) == AllWanted(db, f)
  {
    hide Wanted;
    forall id | id in AllWanted(db, f)
      ensures db.reports[id].issueId in WantedIssues(db, f)
    {
      assert id in WantedReports(db, f, db.reports[id].issueId);
    }
  }

  /** Under any filter, the report counts of the listed issues add up to the number of reports that
      meet it: none is counted twice or lost. */
  lemma FilteredCountsAddUp(db: Db, f: Filter, cs: seq<Clause>, args: seq<Arg>)
    requires Inv(db) && |args| == AllHoles(cs)
    requires forall row :: Eval(cs, args, row) <==> Wanted(f, row)
    ensures SumValues(ListIssues(db, cs, args).counts) == |AllWanted(db, f)|
  {
    hide Eval, Wanted, Inv, SumValues, WantedReports, ListIssues, Fiber, InKeys, AllWanted, WantedIds;
    var list := ListIssues(db, cs, args);
    ListIsWanted(db, f, cs, args);
    forall i | i in list.counts
      ensures list.counts[i] == |Fiber(WantedIds(db, f), i)|
    {
      WantedGroup(db, f, i);
    }
    SumOfGroupSizes(WantedIds(db, f), list.counts);
    WantedAreListed(db, f);
  }

  /** The list filter that asks for one app and one value of a column that has a filter. */
  function ColumnFilter(app: int, dim: Dimension, v: string): Filter
    requires dim != ByBrand
  {
    match dim
    case ByVersion => OneApp(app).(appVersion := v)
    case ByAndroid => OneApp(app).(androidVersion := v)
    case ByModel => OneApp(app).(device := v)
  }

  lemma ColumnWants(app: int, dim: Dimension, v: string, row: JoinRow)
    requires app != 0 && dim != ByBrand && v != ""
    ensures Wanted(ColumnFilter(app, dim, v), row) <==> row.issue.appId == app && DimensionOf(row.report.details, dim) == v
  {
    hide FmtTime, TextAtMost;
    var f := ColumnFilter(app, dim, v);
    var k := match dim case ByVersion => 2 case ByAndroid => 3 case ByModel => 4;
    assert Condition(f, row, 0) <==> row.issue.appId == app;
    assert Condition(f, row, k) <==> DimensionOf(row.report.details, dim) == v;
    assert forall j: nat :: j != 0 && j != k ==> Condition(f, row, j);
  }

  /** The bar of a breakdown and the issue list filtered for it agree: the counts of the issues
      listed for a version, an Android version or a device add up to the number the breakdown shows
      for it, and nothing is listed for a value it does not show. */
  lemma BreakdownAgreesWithList(db: Db, app: int, dim: Dimension, v: string, cs: seq<Clause>, args: seq<Arg>)
    requires Inv(db) && app != 0 && dim != ByBrand && v != "" && |args| == AllHoles(cs)
    requires forall row :: Eval(cs, args, row) <==> Wanted(ColumnFilter(app, dim, v), row)
    ensures SumValues(ListIssues(db, cs, args).counts) ==
            if v in Breakdown(db, app, dim) then Breakdown(db, app, dim)[v] else 0
  {
    hide Eval, Wanted, SumValues, ListIssues, ColumnFilter, DimensionOf, IsStamp, AppsOk, IssuesOk;
    FilteredCountsAddUp(db, ColumnFilter(app, dim, v), cs, args);
    var m := Labels(db, app, dim);
    forall id
      ensures id in AllWanted(db, ColumnFilter(app, dim, v)) <==> id in Fiber(m, v)
    {
      if id in db.reports {
        assert Filed(db, db.reports[id]);
        ColumnWants(app, dim, v, JoinRow(db.issues[db.reports[id].issueId], db.reports[id]));
      }
    }
    assert AllWanted(db, ColumnFilter(app, dim, v)) == Fiber(m, v);
    if v !in Breakdown(db, app, dim) {
      assert forall id :: id in m ==> m[id] in m.Values;
      assert Fiber(m, v) == {};
    }
  }

  function StatusFilter(app: int, status: string): Filter {
    OneApp(app).(status := status)
  }

  lemma StatusWants(app: int, status: string, row: JoinRow)
    requires app != 0 && status != ""
    ensures Wanted(StatusFilter(app, status), row) <==> row.issue.appId == app && row.issue.status == status
  {
    hide FmtTime, TextAtMost;
    var f := StatusFilter(app, status);
    assert Condition(f, row, 0) <==> row.issue.appId == app;
    assert Condition(f, row, 1) <==> row.issue.status == status;
    assert forall j: nat :: j != 0 && j != 1 ==> Condition(f, row, j);
  }

  lemma StatusReports(db: Db, app: int, status: string, i: int)
    requires app != 0 && status != "" && i in db.issues
    ensures WantedReports(db, StatusFilter(app, status), i) ==
            if db.issues[i].appId == app && db.issues[i].status == status
            then set id | id in db.reports && db.reports[id].issueId == i else {}
  {
    hide Wanted, StatusFilter;
    forall id | id in db.reports && db.reports[id].issueId == i
      ensures Wanted(StatusFilter(app, status), JoinRow(db.issues[i], db.reports[id])) <==>
              db.issues[i].appId == app && db.issues[i].status == status
    {
      StatusWants(app, status, JoinRow(db.issues[i], db.reports[id]));
    }
  }

  lemma StatusListed(db: Db, app: int, status: string, i: int)
    requires app != 0 && status != "" && i in db.issues
    ensures i in WantedIssues(db, StatusFilter(app, status)) <==>
            db.issues[i].appId == app && db.issues[i].status == status &&
            exists id :: id in db.reports && db.reports[id].issueId == i
  {
    hide Wanted, StatusFilter, WantedReports;
    StatusReports(db, app, status, i);
    var filed := set id | id in db.reports && db.reports[id].issueId == i;
    if forall id :: id !in filed {
      assert filed == {};
    }
    if exists id :: id in db.reports && db.reports[id].issueId == i {
      var id :| id in db.reports && db.reports[id].issueId == i;
      assert id in filed;
    }
  }

  lemma StatusTotal(db: Db, app: int, status: string)
    requires Inv(db) && app != 0 && status != ""
    ensures |WantedIssues(db, StatusFilter(app, status))| == |IssuesWith(db, app, status)| <==>
            forall i :: i in db.issues && db.issues[i].appId == app && db.issues[i].status == status ==>
              exists id :: id in db.reports && db.reports[id].issueId == i
    ensures |WantedIssues(db, StatusFilter(app, status))| <= |IssuesWith(db, app, status)|
  {
    hide Inv, WantedReports, StatusFilter;
    var shown, all := WantedIssues(db, StatusFilter(app, status)), IssuesWith(db, app, status);
    forall i | i in db.issues
      ensures i in shown <==> i in all && exists id :: id in db.reports && db.reports[id].issueId == i
    {
      StatusListed(db, app, status, i);
    }
    SubsetSize(shown, all);
  }

  /** The total of the list filtered for open issues is the dashboard's count of open issues, and
      the same for resolved ones, exactly when every issue of that status has a report. */
  lemma StatusTotalsAgree(db: Db, app: int, cs: seq<Clause>, args: seq<Arg>, status: string)
    requires Inv(db) && app != 0 && |args| == AllHoles(cs) && (status == "open" || status == "resolved")
    requires forall row :: Eval(cs, args, row) <==> Wanted(StatusFilter(app, status), row)
    ensures ListIssues(db, cs, args).total ==
            (if status == "open" then AppStats(db, app).openIssues else AppStats(db, app).resolvedIssues) <==>
            forall i :: i in db.issues && db.issues[i].appId == app && db.issues[i].status == status ==>
              exists id :: id in db.reports && db.reports[id].issueId == i
  {
    hide Eval, Wanted, Inv, ListIssues, WantedIssues, IssuesWith, Installations, StatusFilter;
    ListIsWanted(db, StatusFilter(app, status), cs, args);
    StatusTotal(db, app, status);
  }
}
