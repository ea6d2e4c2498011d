/** The store as an object over the three tables. Each method is one locked use of the single
    database connection. */
module StoreObject {
  import opened Options
  import opened TimeText
  import opened Tables
  import opened Sets
  import opened TableLaws

  datatype Result = Ok | NotFound | Invalid

  class Store {
    var apps: map<int, AppRow>
    var issues: map<int, IssueRow>
    var reports: map<string, ReportRow>
    ghost var history: seq<Op>

    ghost function Contents(): Db
      reads this
    {
      Db(apps, issues, reports)
    }

    /** The tables are what the recorded operations leave, and sound. */
    ghost predicate Valid()
      reads this
    {
      Contents() == Run(EMPTY, history) && Inv(Contents())
    }

    constructor ()
      ensures Valid() && history == []
    {
      apps, issues, reports, history := map[], map[], map[], [];
    }

    ghost method Record(op: Op)
      requires Contents() == After(Run(EMPTY, history), op) && Inv(Contents())
      modifies this`history
      ensures Valid() && history == old(history) + [op]
    {
      hide After, Inv;
      history := history + [op];
      assert history[..|history| - 1] == old(history);
    }

    /** The engine's choice of a fresh row id. */
    method FreshId(keys: set<int>) returns (id: int)
      ensures id == NextId(keys)
    {
      if keys == {} {
        return 1;
      }
      InhabitedInts(keys);
      assert exists k :: k in keys;
      var m :| m in keys;
      var todo := keys - {m};
      while todo != {}
        invariant todo <= keys && m in keys && m !in todo
        invariant forall k :: k in keys && k !in todo ==> k <= m
      {
        InhabitedInts(todo);
        assert exists k :: k in todo;
        var k :| k in todo;
        todo := todo - {k};
        if k > m {
          m := k;
        }
      }
      return m + 1;
    }

    method CreateApp(name: string, keyHash: string, at: Instant) returns (r: Option<int>)
      requires Valid()
      modifies this
      ensures Valid() && history == old(history) + [Op.CreateApp(name, keyHash, at)]
      ensures r.None? <==> exists a :: a in old(apps) && old(apps)[a].name == name
      ensures r.None? ==> apps == old(apps)
      ensures issues == old(issues) && reports == old(reports)
      ensures r.Some? ==> r.value !in old(apps) && apps == old(apps)[r.value := AppRow(name, keyHash, FmtTime(at))]
    {
      hide FmtTime, Inv, NextId;
      CreateAppKeeps(Contents(), name, keyHash, at);
      if exists a :: a in apps && apps[a].name == name {
        r := None;
      } else {
        var id := FreshId(apps.Keys);
        apps := apps[id := AppRow(name, keyHash, FmtTime(at))];
        r := Some(id);
      }
      Record(Op.CreateApp(name, keyHash, at));
    }

    method RotateAppKey(app: int, keyHash: string) returns (r: Result)
      requires Valid()
      modifies this
      ensures Valid() && history == old(history) + [RotateKey(app, keyHash)]
      ensures r == if app in old(apps) then Ok else NotFound
      ensures r.Ok? ==> apps == old(apps)[app := old(apps)[app].(keyHash := keyHash)]
      ensures issues == old(issues) && reports == old(reports) && (r.NotFound? ==> apps == old(apps))
    {
      hide Inv;
      RotateKeyKeeps(Contents(), app, keyHash);
      if app in apps {
        apps := apps[app := apps[app].(keyHash := keyHash)];
        r := Ok;
      } else {
        r := NotFound;
      }
      Record(RotateKey(app, keyHash));
    }

    /** The foreign keys' ON DELETE CASCADE, from issues to their reports. */
    method DeleteIssueRows(gone: set<int>)
      requires gone <= issues.Keys
      modifies this`issues, this`reports
      ensures Contents() == WithoutIssues(old(Contents()), gone)
    {
      issues := issues - gone;
      reports := map id | id in reports && reports[id].issueId !in gone :: reports[id];
    }

    method DeleteApp(app: int)
      requires Valid()
      modifies this
      ensures Valid() && history == old(history) + [Op.DeleteApp(app)]
      ensures apps == old(apps) - {app}
      ensures issues == map i | i in old(issues) && old(issues)[i].appId != app :: old(issues)[i]
      ensures reports == map id | id in old(reports) && old(reports)[id].appId != app :: old(reports)[id]
    {
      hide Inv, WithoutIssues;
      DeleteAppKeeps(Contents(), app);
      DeleteAppIsExact(Contents(), app);
      WithoutIssuesOf(Contents(), app);
      DeleteIssueRows(set i | i in issues && issues[i].appId == app);
      apps := apps - {app};
      reports := map id | id in reports && reports[id].appId != app :: reports[id];
      Record(Op.DeleteApp(app));
    }

    /** Begin, duplicate check, upsert, insert, commit; a return before the commit rolls back. */
    method IngestReport(r: Incoming) returns (out: Outcome)
      requires Valid()
      modifies this
      ensures Valid() && history == old(history) + [IngestOp(r)]
      ensures out == Ingest(old(Contents()), r).1
      ensures !out.Inserted? ==> Contents() == old(Contents())
      ensures out.Duplicate? <==> r.id in old(reports)
      ensures out.Failed? <==> r.id !in old(reports) && r.appId !in old(apps)
      ensures out.Inserted? ==>
                reports == old(reports)[r.id := ReportRow(r.appId, out.issueId, r.hash, r.details, FmtTime(r.receivedAt))]
      ensures out.Inserted? ==> IsIssueFor(Contents(), out.issueId, r.appId, r.hash) && issues[out.issueId].status == OPEN
    {
      hide FmtTime, Inv, NextId, Upsert;
      IngestKeeps(Contents(), r);
      IngestAdds(Contents(), r);
      if Ingest(Contents(), r).1.Inserted? {
        IngestEffect(Contents(), r);
      }
      if r.id in reports {
        Record(IngestOp(r));
        return Duplicate;
      }
      var txIssues, ok, issueId := UpsertIssue(r);
      if !ok {
        Record(IngestOp(r));
        return Failed;
      }
      UpsertKeeps(Contents(), r);
      InsertKeeps(Upsert(Contents(), r).value.0, r, issueId);
      issues := txIssues;
      reports := reports[r.id := ReportRow(r.appId, issueId, r.hash, r.details, FmtTime(r.receivedAt))];
      Record(IngestOp(r));
      return Inserted(issueId);
    }

    /** The upsert inside the transaction: the issues table it would leave. */
    method UpsertIssue(r: Incoming) returns (txIssues: map<int, IssueRow>, ok: bool, issueId: int)
      requires Valid()
      ensures ok == Upsert(Contents(), r).Some?
      ensures ok ==> Upsert(Contents(), r) == Some((Contents().(issues := txIssues), issueId))
    {
      hide FmtTime, NextId, ReportsOk, AppsOk;
      var now := FmtTime(r.receivedAt);
      if i :| i in issues && issues[i].appId == r.appId && issues[i].hash == r.hash {
        assert IsIssueFor(Contents(), i, r.appId, r.hash);
        assert FindIssue(Contents(), r.appId, r.hash).Some?;
        assert SameKey(issues[i], issues[FindIssue(Contents(), r.appId, r.hash).value]);
        return issues[i := issues[i].(title := r.title, lastSeen := now, status := OPEN)], true, i;
      }
      assert FindIssue(Contents(), r.appId, r.hash).None?;
      if r.appId !in apps {
        return issues, false, 0;
      }
      issueId := FreshId(issues.Keys);
      return issues[issueId := IssueRow(r.appId, r.hash, r.title, OPEN, now, now)], true, issueId;
    }

    method SetIssueStatus(app: int, issue: int, status: string) returns (r: Result)
      requires Valid()
      modifies this
      ensures Valid() && history == old(history) + [SetStatus(app, issue, status)]
      ensures r.Invalid? <==> status != OPEN && status != RESOLVED
      ensures r.Ok? <==> !r.Invalid? && OwnsIssue(old(Contents()), app, issue)
      ensures r.Ok? ==> issues == old(issues)[issue := old(issues)[issue].(status := status)]
      ensures r.Ok? ==> apps == old(apps) && reports == old(reports)
      ensures !r.Ok? ==> Contents() == old(Contents())
    {
      hide Inv;
      SetStatusKeeps(Contents(), app, issue, status);
      if status != "open" && status != "resolved" {
        r := Invalid;
      } else if issue in issues && issues[issue].appId == app {
        issues := issues[issue := issues[issue].(status := status)];
        r := Ok;
      } else {
        r := NotFound;
      }
      Record(SetStatus(app, issue, status));
    }

    method DeleteIssue(app: int, issue: int) returns (r: Result)
      requires Valid()
      modifies this
      ensures Valid() && history == old(history) + [Op.DeleteIssue(app, issue)]
      ensures r == if OwnsIssue(old(Contents()), app, issue) then Ok else NotFound
      ensures r.Ok? ==> issues == old(issues) - {issue} && apps == old(apps)
      ensures r.Ok? ==> reports == map id | id in old(reports) && old(reports)[id].issueId != issue :: old(reports)[id]
      ensures !r.Ok? ==> Contents() == old(Contents())
    {
      hide Inv;
      WithoutIssuesKeeps(Contents(), {issue});
      if issue in issues && issues[issue].appId == app {
        DeleteIssueRows({issue});
        r := Ok;
      } else {
        r := NotFound;
      }
      Record(Op.DeleteIssue(app, issue));
    }

    method DeleteReport(app: int, id: string) returns (r: Result)
      requires Valid()
      modifies this
      ensures Valid() && history == old(history) + [Op.DeleteReport(app, id)]
      ensures r == if OwnsReport(old(Contents()), app, id) then Ok else NotFound
      ensures r.Ok? ==> reports == old(reports) - {id} && issues == old(issues) && apps == old(apps)
      ensures !r.Ok? ==> Contents() == old(Contents())
    {
      hide Inv;
      DeleteReportKeeps(Contents(), app, id);
      if id in reports && reports[id].appId == app {
        reports := reports - {id};
        r := Ok;
      } else {
        r := NotFound;
      }
      Record(Op.DeleteReport(app, id));
    }
  }
}
