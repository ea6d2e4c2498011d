/** What every reachable state of the tables satisfies. */
module TableLaws {
  import opened Options
  import opened TimeText
  import opened Tables

  // ---------- every operation keeps the invariant ----------

  lemma UpsertShape(db: Db, r: Incoming)
    requires Inv(db) && Upsert(db, r).Some?
    ensures var (mid, i) := Upsert(db, r).value;
            mid.reports == db.reports && mid.apps == db.apps && r.appId in db.apps && i >= 1 &&
            mid.issues.Keys == db.issues.Keys + {i} &&
            (forall j :: j in db.issues && j != i ==> mid.issues[j] == db.issues[j]) &&
            mid.issues[i].appId == r.appId && mid.issues[i].hash == r.hash && mid.issues[i].status == OPEN &&
            (forall j :: j != i ==> !IsIssueFor(db, j, r.appId, r.hash)) &&
            (i in db.issues ==> SameKey(db.issues[i], mid.issues[i]))
  {
    hide FmtTime, IsStamp, ReportsOk, AppsOk;
    match FindIssue(db, r.appId, r.hash)
    case Some(i) =>
      assert IsIssueFor(db, i, r.appId, r.hash);
      assert forall j :: IsIssueFor(db, j, r.appId, r.hash) ==> SameKey(db.issues[i], db.issues[j]);
    case None =>
  }

  lemma UpsertKeeps(db: Db, r: Incoming)
    requires Inv(db) && Upsert(db, r).Some?
    ensures var (mid, i) := Upsert(db, r).value;
            Inv(mid) && IsIssueFor(mid, i, r.appId, r.hash) && r.appId in mid.apps
    ensures Upsert(db, r).value.0.reports == db.reports && Upsert(db, r).value.0.apps == db.apps
  {
    hide FmtTime, IsStamp, Upsert, ReportsOk;
    UpsertShape(db, r);
    var (mid, i) := Upsert(db, r).value;
    ReportsCarry(db, mid);
    forall j, k | j in mid.issues && k in mid.issues && SameKey(mid.issues[j], mid.issues[k])
      ensures j == k
    {
      assert j != i ==> !IsIssueFor(db, j, r.appId, r.hash);
      assert k != i ==> !IsIssueFor(db, k, r.appId, r.hash);
    }
  }

  lemma InsertKeeps(db: Db, r: Incoming, i: int)
    requires Inv(db) && IsIssueFor(db, i, r.appId, r.hash) && r.appId in db.apps && r.id !in db.reports
    ensures InsertReport(db, r, i).Some? && Inv(InsertReport(db, r, i).value)
  {
    hide FmtTime;
    var db' := InsertReport(db, r, i).value;
    assert IsStamp(FmtTime(r.receivedAt));
    forall id | id in db'.reports
      ensures Filed(db', db'.reports[id]) && IsStamp(db'.reports[id].receivedAt)
    {
      assert id != r.id ==> Filed(db, db.reports[id]);
    }
  }

  /** An ingest fails only for an unknown app; otherwise it files the report. */
  lemma IngestKeeps(db: Db, r: Incoming)
    requires Inv(db)
    ensures Inv(Ingest(db, r).0)
    ensures Ingest(db, r).1.Duplicate? <==> r.id in db.reports
    ensures Ingest(db, r).1.Failed? <==> r.id !in db.reports && r.appId !in db.apps
    ensures !Ingest(db, r).1.Inserted? ==> Ingest(db, r).0 == db
  {
    hide FmtTime, IsStamp, Upsert, InsertReport, Inv;
    if r.id !in db.reports {
      UpsertFails(db, r);
      if Upsert(db, r).Some? {
        UpsertKeeps(db, r);
        var (mid, i) := Upsert(db, r).value;
        InsertKeeps(mid, r, i);
      }
    }
  }

  lemma UpsertFails(db: Db, r: Incoming)
    requires Inv(db)
    ensures Upsert(db, r).None? <==> r.appId !in db.apps
  {
    hide FmtTime;
  }

  /** Reports stay filed when no app and no issue key in use goes away. */
  lemma ReportsCarry(db: Db, db': Db)
    requires ReportsOk(db) && db'.reports == db.reports
    requires forall a :: a in db.apps ==> a in db'.apps
    requires forall i :: i in db.issues ==> i in db'.issues && SameKey(db.issues[i], db'.issues[i])
    ensures ReportsOk(db')
  {
    hide IsStamp;
    assert forall id :: id in db.reports ==> Filed(db, db.reports[id]) && Filed(db', db.reports[id]);
  }

  lemma CreateAppKeeps(db: Db, name: string, keyHash: string, at: Instant)
    requires Inv(db)
    ensures Inv(AfterCreateApp(db, name, keyHash, at))
  {
    hide FmtTime, IsStamp, ReportsOk, NextId;
    var db' := AfterCreateApp(db, name, keyHash, at);
    ReportsCarry(db, db');
    forall a, b | a in db'.apps && b in db'.apps && db'.apps[a].name == db'.apps[b].name
      ensures a == b
    {
      assert a in db.apps || b in db.apps || a == b;
    }
  }

  lemma RotateKeyKeeps(db: Db, app: int, keyHash: string)
    requires Inv(db)
    ensures Inv(AfterRotateKey(db, app, keyHash))
  {
    hide IsStamp, ReportsOk;
    ReportsCarry(db, AfterRotateKey(db, app, keyHash));
  }

  lemma SetStatusKeeps(db: Db, app: int, issue: int, status: string)
    requires Inv(db)
    ensures Inv(AfterSetStatus(db, app, issue, status))
  {
    hide IsStamp, ReportsOk;
    var db' := AfterSetStatus(db, app, issue, status);
    assert forall i :: i in db'.issues ==> i in db.issues && SameKey(db.issues[i], db'.issues[i]);
    ReportsCarry(db, db');
    forall i, j | i in db'.issues && j in db'.issues && SameKey(db'.issues[i], db'.issues[j])
      ensures i == j
    {
      assert SameKey(db.issues[i], db.issues[j]);
    }
  }

  /** The cascade leaves no report without its issue. */
  lemma WithoutIssuesKeeps(db: Db, gone: set<int>)
    requires Inv(db)
    ensures Inv(WithoutIssues(db, gone))
  {
    hide IsStamp;
    var db' := WithoutIssues(db, gone);
    assert forall i :: i in db'.issues ==> i in db.issues && db'.issues[i] == db.issues[i];
    assert forall id :: id in db'.reports ==> Filed(db, db.reports[id]) && Filed(db', db'.reports[id]);
  }

  lemma DeleteAppKeeps(db: Db, app: int)
    requires Inv(db)
    ensures Inv(AfterDeleteApp(db, app))
  {
    hide IsStamp, WithoutIssues;
    var rest := WithoutIssues(db, IssuesOf(db, app));
    WithoutIssuesKeeps(db, IssuesOf(db, app));
    WithoutIssuesOf(db, app);
    WithoutAppRow(rest, app);
  }

  lemma WithoutIssuesOf(db: Db, app: int)
    ensures var rest := WithoutIssues(db, IssuesOf(db, app));
            rest.apps == db.apps && forall i :: i in rest.issues ==> rest.issues[i].appId != app
  {}

  /** Once no issue refers to an app, its row can go with its reports. */
  lemma WithoutAppRow(db: Db, app: int)
    requires Inv(db) && forall i :: i in db.issues ==> db.issues[i].appId != app
    ensures Inv(Db(db.apps - {app}, db.issues, map id | id in db.reports && db.reports[id].appId != app :: db.reports[id]))
  {
    hide IsStamp;
    var db' := Db(db.apps - {app}, db.issues, map id | id in db.reports && db.reports[id].appId != app :: db.reports[id]);
    assert forall id :: id in db'.reports ==> Filed(db, db.reports[id]) && Filed(db', db'.reports[id]);
  }

  lemma DeleteReportKeeps(db: Db, app: int, id: string)
    requires Inv(db)
    ensures Inv(AfterDeleteReport(db, app, id))
  {
    hide IsStamp;
    var db' := AfterDeleteReport(db, app, id);
    assert forall k :: k in db'.reports ==> Filed(db, db.reports[k]) && Filed(db', db'.reports[k]);
  }

  lemma StepKeeps(db: Db, op: Op)
    requires Inv(db)
    ensures Inv(After(db, op))
  {
    hide Inv, Ingest, AfterCreateApp, AfterRotateKey, AfterDeleteApp, AfterSetStatus, WithoutIssues, AfterDeleteReport;
    match op
    case CreateApp(name, keyHash, at) => CreateAppKeeps(db, name, keyHash, at);
    case RotateKey(app, keyHash) => RotateKeyKeeps(db, app, keyHash);
    case DeleteApp(app) => DeleteAppKeeps(db, app);
    case IngestOp(r) => IngestKeeps(db, r);
    case SetStatus(app, issue, status) => SetStatusKeeps(db, app, issue, status);
    case DeleteIssue(app, issue) => WithoutIssuesKeeps(db, {issue});
    case DeleteReport(app, id) => DeleteReportKeeps(db, app, id);
  }

  lemma RunSnoc(db: Db, ops: seq<Op>, op: Op)
    ensures Run(db, ops + [op]) == After(Run(db, ops), op)
  {
    hide After;
    assert (ops + [op])[..|ops|] == ops;
  }

  /** Every state reachable from the empty database satisfies the invariant, through any number
      of cascading deletes and reused ids. */
  lemma {:induction false} ReachableStatesAreSound(ops: seq<Op>)
    ensures Inv(Run(EMPTY, ops))
  {
    hide After;
    if ops != [] {
      ReachableStatesAreSound(ops[..|ops| - 1]);
      StepKeeps(Run(EMPTY, ops[..|ops| - 1]), ops[|ops| - 1]);
    }
  }

  // ---------- reused ids ----------

  /** An ingest that opens a new issue finds its id free of reports, reused or not: afterwards the
      issue holds the new report alone, and everything else is as before. */
  lemma NewIssueStartsEmpty(db: Db, r: Incoming)
    requires Inv(db) && Ingest(db, r).1.Inserted? && FindIssue(db, r.appId, r.hash).None?
    ensures var (db', out) := Ingest(db, r);
            out.issueId !in db.issues &&
            (forall id :: id in db'.reports && db'.reports[id].issueId == out.issueId <==> id == r.id) &&
            (forall id :: id in db.reports ==> id in db'.reports && db'.reports[id] == db.reports[id]) &&
            (forall i :: i in db.issues ==> i in db'.issues && db'.issues[i] == db.issues[i])
  {
    hide FmtTime, IsStamp;
    var (db', out) := Ingest(db, r);
    assert out.issueId == NextId(db.issues.Keys);
    assert forall id :: id in db.reports ==> Filed(db, db.reports[id]);
  }

  /** Deleting the newest of consecutively numbered issues frees its id for the next new one. */
  lemma FreedIdIsReused(db: Db, app: int, m: int, r: Incoming)
    requires Inv(db) && OwnsIssue(db, app, m) && (forall i :: i in db.issues ==> i <= m)
    requires m - 1 in db.issues || m == 1
    requires r.appId in db.apps && r.id !in db.reports && FindIssue(AfterDeleteIssue(db, app, m), r.appId, r.hash).None?
    ensures Ingest(AfterDeleteIssue(db, app, m), r).1 == Inserted(m)
  {
    hide FmtTime, IsStamp;
    var db1 := AfterDeleteIssue(db, app, m);
    assert db1.issues.Keys == db.issues.Keys - {m};
    if m - 1 in db.issues {
      assert m - 1 in db1.issues.Keys;
    } else {
      assert forall i :: i in db.issues ==> i == m;
      assert db1.issues.Keys == {};
    }
    assert NextId(db1.issues.Keys) == m;
  }

  // ---------- what single operations do ----------

  /** An accepted report is stored under an issue of its app and hash, which is open afterwards
      with the report's title and time; a known issue keeps its id and first-seen time; no other
      issue and no other report changes. */
  lemma IngestEffect(db: Db, r: Incoming)
    requires Inv(db) && Ingest(db, r).1.Inserted?
    ensures var (db', out) := Ingest(db, r);
            var i, now := out.issueId, FmtTime(r.receivedAt);
            db'.reports == db.reports[r.id := ReportRow(r.appId, i, r.hash, r.details, now)] &&
            i in db'.issues && db'.issues == db.issues[i := db'.issues[i]] &&
            db'.issues[i].(firstSeen := now) == IssueRow(r.appId, r.hash, r.title, OPEN, now, now) &&
            (forall j :: IsIssueFor(db, j, r.appId, r.hash) ==> i == j && db'.issues[i].firstSeen == db.issues[i].firstSeen) &&
            ((forall j :: !IsIssueFor(db, j, r.appId, r.hash)) ==> db'.issues[i].firstSeen == now)
  {
    hide FmtTime, IsStamp, ReportsOk, AppsOk;
    match FindIssue(db, r.appId, r.hash)
    case Some(i) =>
      assert IsIssueFor(db, i, r.appId, r.hash);
      assert forall j :: IsIssueFor(db, j, r.appId, r.hash) ==> SameKey(db.issues[i], db.issues[j]);
    case None =>
  }

  /** Deleting an app removes exactly its own rows from all three tables. */
  lemma DeleteAppIsExact(db: Db, app: int)
    requires Inv(db)
    ensures var db' := AfterDeleteApp(db, app);
            db'.apps == db.apps - {app} &&
            db'.issues == (map i | i in db.issues && db.issues[i].appId != app :: db.issues[i]) &&
            db'.reports == (map id | id in db.reports && db.reports[id].appId != app :: db.reports[id])
  {
    hide IsStamp, AppsOk, IssuesOk;
    assert forall id :: id in db.reports ==> Filed(db, db.reports[id]);
    assert forall id :: id in db.reports ==>
        (db.reports[id].appId == app <==> db.reports[id].issueId in IssuesOf(db, app));
  }

  /** Without the cascade a freed id would adopt strangers: drop the only issue's row alone, let
      an ingest of another hash reuse its id, and the old report sits under the wrong issue. */
  lemma CascadeIsNeeded(t: Instant, d: Details)
    ensures var app := AppRow("app", "key", FmtTime(t));
            var old' := ReportRow(1, 1, "a", d, FmtTime(t));
            var db := Db(map[1 := app], map[1 := IssueRow(1, "a", "", OPEN, FmtTime(t), FmtTime(t))], map["x" := old']);
            var r := Incoming("y", 1, "b", "", d, t);
            Inv(db) && !Inv(Ingest(db.(issues := map[]), r).0) && Inv(Ingest(AfterDeleteIssue(db, 1, 1), r).0)
  {
    hide FmtTime;
    var app := AppRow("app", "key", FmtTime(t));
    var old' := ReportRow(1, 1, "a", d, FmtTime(t));
    var db := Db(map[1 := app], map[1 := IssueRow(1, "a", "", OPEN, FmtTime(t), FmtTime(t))], map["x" := old']);
    var r := Incoming("y", 1, "b", "", d, t);
    assert IsStamp(FmtTime(t));
    assert Inv(db);
    WithoutIssuesKeeps(db, {1});
    IngestKeeps(AfterDeleteIssue(db, 1, 1), r);
    var bare := db.(issues := map[]);
    var after := Ingest(bare, r).0;
    assert bare.issues.Keys == {};
    assert "x" != "y" by {
      assert "x"[0] != "y"[0];
    }
    assert NextId(bare.issues.Keys) == 1;
    assert FindIssue(bare, 1, "b").None?;
    assert "a"[0] != "b"[0];
    assert "x" in after.reports && !Filed(after, after.reports["x"]);
  }

  // ---------- grouping ----------

  /** Two stored reports share an issue exactly when they share app and stack hash. */
  lemma SameIssueIsSameHash(db: Db, a: string, b: string)
    requires Inv(db) && a in db.reports && b in db.reports
    ensures db.reports[a].issueId == db.reports[b].issueId <==>
            db.reports[a].appId == db.reports[b].appId && db.reports[a].hash == db.reports[b].hash
  {
    hide IsStamp;
    assert Filed(db, db.reports[a]) && Filed(db, db.reports[b]);
    assert SameKey(db.issues[db.reports[a].issueId], db.issues[db.reports[b].issueId]) ==>
        db.reports[a].issueId == db.reports[b].issueId;
  }

  ghost function IngestAll(db: Db, rs: seq<Incoming>): Db {
    if rs == [] then db else Ingest(IngestAll(db, rs[..|rs| - 1]), rs[|rs| - 1]).0
  }

  predicate DistinctIds(rs: seq<Incoming>) {
    forall i, j :: 0 <= i < j < |rs| ==> rs[i].id != rs[j].id
  }

  /** Report rows without the issue they happened to be filed under. */
  predicate SamePayload(row: ReportRow, r: Incoming) {
    row == ReportRow(r.appId, row.issueId, r.hash, r.details, FmtTime(r.receivedAt))
  }

  /** What a batch of distinct reports leaves behind, with no mention of its order. */
  ghost predicate Absorbed(db: Db, rs: set<Incoming>, db': Db) {
    && Inv(db') && db'.apps == db.apps
    && (forall id :: id in db.reports ==> id in db'.reports && db'.reports[id] == db.reports[id])
    && (forall r :: r in rs && r.id !in db.reports ==>
          (r.id in db'.reports <==> r.appId in db.apps) &&
          (r.id in db'.reports ==> SamePayload(db'.reports[r.id], r)))
    && (forall id :: id in db'.reports && id !in db.reports ==> exists r :: r in rs && r.id == id)
  }

  function Elements(rs: seq<Incoming>): set<Incoming> {
    set i | 0 <= i < |rs| :: rs[i]
  }

  lemma InElements(rs: seq<Incoming>)
    ensures forall k :: 0 <= k < |rs| ==> rs[k] in Elements(rs)
  {}

  lemma AbsorbOne(db: Db, rs: set<Incoming>, mid: Db, r: Incoming)
    requires Absorbed(db, rs, mid)
    requires forall q :: q in rs ==> q.id != r.id
    ensures Absorbed(db, rs + {r}, Ingest(mid, r).0)
  {
    hide FmtTime, IsStamp, Inv, Filed, NewReport, SamePayload, Ingest;
    IngestKeeps(mid, r);
    IngestAdds(mid, r);
    AbsorbedIds(db, rs, mid, r);
  }

  lemma AbsorbedIds(db: Db, rs: set<Incoming>, mid: Db, r: Incoming)
    requires Absorbed(db, rs, mid)
    ensures forall id :: id in mid.reports && id !in db.reports ==> exists q :: q in rs + {r} && q.id == id
    ensures r.id !in db.reports ==> exists q :: q in rs + {r} && q.id == r.id
  {
    hide Inv, SamePayload;
    assert r in rs + {r};
    forall id | id in mid.reports && id !in db.reports
      ensures exists q :: q in rs + {r} && q.id == id
    {
      var q :| q in rs && q.id == id;
      assert q in rs + {r};
    }
  }

  lemma IngestAdds(db: Db, r: Incoming)
    requires Inv(db)
    ensures var (db', out) := Ingest(db, r);
            db'.apps == db.apps &&
            (!out.Inserted? ==> db'.reports == db.reports) &&
            (out.Inserted? ==>
               r.id !in db.reports && r.id in db'.reports &&
               db'.reports == db.reports[r.id := ReportRow(r.appId, out.issueId, r.hash, r.details, FmtTime(r.receivedAt))] &&
               SamePayload(db'.reports[r.id], r))
  {
    hide FmtTime, IsStamp;
  }

  lemma {:induction false} BatchAbsorbed(db: Db, rs: seq<Incoming>)
    requires Inv(db) && DistinctIds(rs)
    ensures Absorbed(db, Elements(rs), IngestAll(db, rs))
  {
    hide Inv, Ingest, FmtTime;
    if rs != [] {
      var front, last := rs[..|rs| - 1], rs[|rs| - 1];
      BatchAbsorbed(db, front);
      AbsorbOne(db, Elements(front), IngestAll(db, front), last);
      assert Elements(rs) == Elements(front) + {last};
    }
  }

  /** Ingesting the same distinct reports in any two orders stores the same reports, each new one
      with its own columns, and groups them into issues the same way. */
  lemma OrderDoesNotMatter(db: Db, rs: seq<Incoming>, qs: seq<Incoming>)
    requires Inv(db) && DistinctIds(rs) && DistinctIds(qs) && Elements(rs) == Elements(qs)
    ensures var d, e := IngestAll(db, rs), IngestAll(db, qs);
            d.reports.Keys == e.reports.Keys &&
            (forall k :: 0 <= k < |rs| && rs[k].id !in db.reports ==>
               (rs[k].id in d.reports <==> rs[k].appId in db.apps) &&
               (rs[k].id in d.reports ==> SamePayload(d.reports[rs[k].id], rs[k]))) &&
            (forall id :: id in d.reports ==> d.reports[id].(issueId := 0) == e.reports[id].(issueId := 0)) &&
            (forall a, b :: a in d.reports && b in d.reports ==>
               (d.reports[a].issueId == d.reports[b].issueId <==> e.reports[a].issueId == e.reports[b].issueId))
  {
    hide Inv, FmtTime, IngestAll, Elements;
    var d, e := IngestAll(db, rs), IngestAll(db, qs);
    BatchAbsorbed(db, rs);
    BatchAbsorbed(db, qs);
    AbsorbedAgree(db, Elements(rs), d, e);
    AbsorbedAgree(db, Elements(rs), e, d);
    InElements(rs);
    forall a, b | a in d.reports && b in d.reports
      ensures d.reports[a].issueId == d.reports[b].issueId <==> e.reports[a].issueId == e.reports[b].issueId
    {
      SameIssueIsSameHash(d, a, b);
      SameIssueIsSameHash(e, a, b);
      assert d.reports[a].(issueId := 0) == e.reports[a].(issueId := 0);
      assert d.reports[b].(issueId := 0) == e.reports[b].(issueId := 0);
    }
  }

  lemma AbsorbedAgree(db: Db, rs: set<Incoming>, d: Db, e: Db)
    requires Absorbed(db, rs, d) && Absorbed(db, rs, e)
    ensures forall id :: id in d.reports ==> id in e.reports && d.reports[id].(issueId := 0) == e.reports[id].(issueId := 0)
  {
    hide Inv, FmtTime;
    forall id | id in d.reports
      ensures id in e.reports && d.reports[id].(issueId := 0) == e.reports[id].(issueId := 0)
    {
      if id !in db.reports {
        var r :| r in rs && r.id == id;
        assert SamePayload(d.reports[id], r) && SamePayload(e.reports[id], r);
      }
    }
  }
}
