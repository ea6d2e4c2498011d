/** The three report tables as maps, their declared constraints, and every store operation as
    one step on them. */
module Tables {
  import opened Options
  import opened TimeText
  import opened Sets

  datatype AppRow = AppRow(name: string, keyHash: string, createdAt: string)

  datatype IssueRow = IssueRow(appId: int, hash: string, title: string, status: string, firstSeen: string, lastSeen: string)

  /** The report columns that filters and aggregates read, and the remaining ones. */
  datatype Details = Details(installation: string, appVersion: string, androidVersion: string,
                             brand: string, phoneModel: string, stackTrace: string, others: seq<string>)

  datatype ReportRow = ReportRow(appId: int, issueId: int, hash: string, details: Details, receivedAt: string)

  datatype Db = Db(apps: map<int, AppRow>, issues: map<int, IssueRow>, reports: map<string, ReportRow>)

  const EMPTY := Db(map[], map[], map[])
  const OPEN := "open"
  const RESOLVED := "resolved"

  /** A report as the ingest handler hands it over. */
  datatype Incoming = Incoming(id: string, appId: int, hash: string, title: string, details: Details, receivedAt: Instant)

  // ---------- invariant ----------

  ghost predicate IsStamp(s: string) {
    exists t: Instant :: s == FmtTime(t)
  }

  ghost predicate AppsOk(db: Db) {
    && (forall a :: a in db.apps ==> a >= 1)
    && (forall a, b :: a in db.apps && b in db.apps && db.apps[a].name == db.apps[b].name ==> a == b)
  }

  predicate SameKey(a: IssueRow, b: IssueRow) {
    a.appId == b.appId && a.hash == b.hash
  }

  ghost predicate IssuesOk(db: Db) {
    && (forall i :: i in db.issues ==>
          i >= 1 && db.issues[i].appId in db.apps &&
          (db.issues[i].status == OPEN || db.issues[i].status == RESOLVED))
    && (forall i, j :: i in db.issues && j in db.issues && SameKey(db.issues[i], db.issues[j]) ==> i == j)
  }

  /** A report belongs to an issue of the same app and the same stack hash. */
  ghost predicate Filed(db: Db, r: ReportRow) {
    r.appId in db.apps && r.issueId in db.issues &&
    db.issues[r.issueId].appId == r.appId && db.issues[r.issueId].hash == r.hash
  }

  ghost predicate ReportsOk(db: Db) {
    forall id :: id in db.reports ==> Filed(db, db.reports[id]) && IsStamp(db.reports[id].receivedAt)
  }

  ghost predicate Inv(db: Db) {
    AppsOk(db) && IssuesOk(db) && ReportsOk(db)
  }

  // ---------- row ids without AUTOINCREMENT ----------

  ghost function Largest(keys: set<int>): (m: int)
    requires keys != {}
    ensures m in keys && forall k :: k in keys ==> k <= m
    decreases |keys|
  {
    InhabitedInts(keys);
    assert exists k :: k in keys;
    var k :| k in keys;
    var rest := keys - {k};
    if rest == {} then
      assert forall j :: j in keys ==> j in rest || j == k;
      k
    else
      var m := Largest(rest);
      assert forall j :: j in keys ==> j in rest || j == k;
      if k > m then k else m
  }

  /** One more than the largest id in use; a freed largest id is handed out again. */
  ghost function NextId(keys: set<int>): (id: int)
    ensures id !in keys && forall k :: k in keys ==> k < id
    ensures if keys == {} then id == 1 else id - 1 in keys
    ensures (forall k :: k in keys ==> k >= 1) ==> id >= 1
  {
    if keys == {} then 1 else Largest(keys) + 1
  }

  // ---------- the steps of an ingest transaction ----------

  predicate IsIssueFor(db: Db, i: int, appId: int, hash: string) {
    i in db.issues && db.issues[i].appId == appId && db.issues[i].hash == hash
  }

  /** The issue the upsert conflicts with. */
  ghost function FindIssue(db: Db, appId: int, hash: string): (r: Option<int>)
    ensures r.Some? ==> IsIssueFor(db, r.value, appId, hash)
    ensures r.None? ==> forall i :: !IsIssueFor(db, i, appId, hash)
  {
    if exists i :: IsIssueFor(db, i, appId, hash) then
      var i :| IsIssueFor(db, i, appId, hash);
      Some(i)
    else None
  }

  /** INSERT ... ON CONFLICT DO UPDATE ... RETURNING id; None where the foreign key fails. */
  ghost function Upsert(db: Db, r: Incoming): Option<(Db, int)> {
    var now := FmtTime(r.receivedAt);
    match FindIssue(db, r.appId, r.hash)
    case Some(i) =>
      Some((db.(issues := db.issues[i := db.issues[i].(title := r.title, lastSeen := now, status := OPEN)]), i))
    case None =>
      if r.appId !in db.apps then None else
        var i := NextId(db.issues.Keys);
        Some((db.(issues := db.issues[i := IssueRow(r.appId, r.hash, r.title, OPEN, now, now)]), i))
  }

  function NewReport(r: Incoming, issueId: int): ReportRow {
    ReportRow(r.appId, issueId, r.hash, r.details, FmtTime(r.receivedAt))
  }

  /** INSERT OR IGNORE; None where it fails or the row is ignored. */
  function InsertReport(db: Db, r: Incoming, issueId: int): Option<Db> {
    if r.id in db.reports || r.appId !in db.apps || issueId !in db.issues then None
    else Some(db.(reports := db.reports[r.id := NewReport(r, issueId)]))
  }

  datatype Outcome = Inserted(issueId: int) | Duplicate | Failed

  /** A whole ingest as one step: the tables after it, and what the caller is told. */
  ghost function Ingest(db: Db, r: Incoming): (Db, Outcome) {
    if r.id in db.reports then (db, Duplicate) else
      match Upsert(db, r)
      case None => (db, Failed)
      case Some((mid, i)) =>
        match InsertReport(mid, r, i)
        case None => (db, Failed)
        case Some(done) => (done, Inserted(i))
  }

  // ---------- the other operations ----------

  predicate NameTaken(db: Db, name: string) {
    exists a :: a in db.apps && db.apps[a].name == name
  }

  ghost function AfterCreateApp(db: Db, name: string, keyHash: string, at: Instant): Db {
    if NameTaken(db, name) then db
    else db.(apps := db.apps[NextId(db.apps.Keys) := AppRow(name, keyHash, FmtTime(at))])
  }

  function AfterRotateKey(db: Db, app: int, keyHash: string): Db {
    if app in db.apps then db.(apps := db.apps[app := db.apps[app].(keyHash := keyHash)]) else db
  }

  /** Deleting issues takes their reports with them. */
  function WithoutIssues(db: Db, gone: set<int>): Db {
    db.(issues := db.issues - gone,
        reports := map id | id in db.reports && db.reports[id].issueId !in gone :: db.reports[id])
  }

  function IssuesOf(db: Db, app: int): set<int> {
    set i | i in db.issues && db.issues[i].appId == app
  }

  /** Deleting an app takes its issues, their reports, and its own reports with it. */
  function AfterDeleteApp(db: Db, app: int): Db {
    var rest := WithoutIssues(db, IssuesOf(db, app));
    Db(db.apps - {app}, rest.issues, map id | id in rest.reports && rest.reports[id].appId != app :: rest.reports[id])
  }

  predicate OwnsIssue(db: Db, app: int, issue: int) {
    issue in db.issues && db.issues[issue].appId == app
  }

  predicate OwnsReport(db: Db, app: int, id: string) {
    id in db.reports && db.reports[id].appId == app
  }

  function AfterSetStatus(db: Db, app: int, issue: int, status: string): Db {
    if (status == OPEN || status == RESOLVED) && OwnsIssue(db, app, issue) then
      db.(issues := db.issues[issue := db.issues[issue].(status := status)])
    else db
  }

  function AfterDeleteIssue(db: Db, app: int, issue: int): Db {
    if OwnsIssue(db, app, issue) then WithoutIssues(db, {issue}) else db
  }

  function AfterDeleteReport(db: Db, app: int, id: string): Db {
    if OwnsReport(db, app, id) then db.(reports := db.reports - {id}) else db
  }

  datatype Op =
    | CreateApp(name: string, keyHash: string, at: Instant)
    | RotateKey(app: int, keyHash: string)
    | DeleteApp(app: int)
    | IngestOp(r: Incoming)
    | SetStatus(app: int, issue: int, status: string)
    | DeleteIssue(app: int, issue: int)
    | DeleteReport(app: int, id: string)

  ghost function After(db: Db, op: Op): Db {
    match op
    case CreateApp(name, keyHash, at) => AfterCreateApp(db, name, keyHash, at)
    case RotateKey(app, keyHash) => AfterRotateKey(db, app, keyHash)
    case DeleteApp(app) => AfterDeleteApp(db, app)
    case IngestOp(r) => Ingest(db, r).0
    case SetStatus(app, issue, status) => AfterSetStatus(db, app, issue, status)
    case DeleteIssue(app, issue) => AfterDeleteIssue(db, app, issue)
    case DeleteReport(app, id) => AfterDeleteReport(db, app, id)
  }

  /** The tables after a run of operations. */
  ghost function Run(db: Db, ops: seq<Op>): Db {
    if ops == [] then db else After(Run(db, ops[..|ops| - 1]), ops[|ops| - 1])
  }
}
