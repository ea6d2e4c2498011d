/** Counts shown on the dashboards, and their agreement with the tables and with each other. */
module Analytics {
  import opened Options
  import opened CivilTime
  import opened TimeText
  import opened Tables
  import opened Sets
  import opened IssueQuery

  // ---------- counting by groups ----------

  /** The keys that m sends to k. */
  ghost function Fiber<K>(m: map<string, K>, k: K): set<string> {
    set id | id in m && m[id] == k
  }

  ghost function InKeys<K>(m: map<string, K>, keys: set<K>): set<string> {
    set id | id in m && m[id] in keys
  }

  // ---------- the aggregates ----------

  ghost function ReportsOf(db: Db, app: int): set<string> {
    set id | id in db.reports && db.reports[id].appId == app
  }

  ghost function IssuesWith(db: Db, app: int, status: string): set<int> {
    set i | i in db.issues && db.issues[i].appId == app && db.issues[i].status == status
  }

  datatype Stats = Stats(reports: nat, openIssues: nat, resolvedIssues: nat, installs: nat)

  ghost function AppStats(db: Db, app: int): Stats {
    Stats(|ReportsOf(db, app)|, |IssuesWith(db, app, OPEN)|, |IssuesWith(db, app, RESOLVED)|,
          |Installations(db, ReportsOf(db, app))|)
  }

  /** The columns the breakdown may group by. */
  datatype Dimension = ByVersion | ByAndroid | ByModel | ByBrand

  function DimensionOf(d: Details, dim: Dimension): string {
    match dim
    case ByVersion => d.appVersion
    case ByAndroid => d.androidVersion
    case ByModel => d.phoneModel
    case ByBrand => d.brand
  }

  /** The grouped rows of the unlimited breakdown: value -> count. */
  ghost function Labels(db: Db, app: int, dim: Dimension): map<string, string> {
    map id | id in ReportsOf(db, app) :: DimensionOf(db.reports[id].details, dim)
  }

  ghost function Breakdown(db: Db, app: int, dim: Dimension): map<string, nat> {
    var m := Labels(db, app, dim);
    map v | v in m.Values :: |Fiber(m, v)|
  }

  ghost function SumValues<K>(counts: map<K, nat>): nat
    decreases |counts|
  {
    if counts.Keys == {} then 0 else
      Inhabited(counts.Keys);
      assert exists k :: k in counts.Keys;
      var k :| k in counts;
      assert (counts - {k}).Keys == counts.Keys - {k};
      counts[k] + SumValues(counts - {k})
  }

  lemma SplitOff<K>(m: map<string, K>, keys: set<K>, k: K)
    requires k in keys
    ensures |InKeys(m, keys)| == |Fiber(m, k)| + |InKeys(m, keys - {k})|
  {
    assert InKeys(m, keys) == Fiber(m, k) + InKeys(m, keys - {k});
    assert Fiber(m, k) !! InKeys(m, keys - {k});
  }

  /** Group sizes add up to the number of rows grouped. */
  lemma {:induction false} SumOfGroupSizes<K>(m: map<string, K>, counts: map<K, nat>)
    requires forall k :: k in counts ==> counts[k] == |Fiber(m, k)|
    ensures SumValues(counts) == |InKeys(m, counts.Keys)|
    decreases |counts|
  {
    if counts.Keys == {} {
      assert InKeys(m, counts.Keys) == {};
    } else {
      hide Fiber, InKeys;
      Inhabited(counts.Keys);
      assert exists k :: k in counts.Keys;
      var k :| k in counts && SumValues(counts) == counts[k] + SumValues(counts - {k});
      assert (counts - {k}).Keys == counts.Keys - {k};
      SumOfGroupSizes(m, counts - {k});
      SplitOff(m, counts.Keys, k);
    }
  }

  /** The unlimited breakdown by any column adds up to the app's report count. */
  lemma BreakdownAddsUp(db: Db, app: int, dim: Dimension)
    ensures SumValues(Breakdown(db, app, dim)) == AppStats(db, app).reports
  {
    var m := Labels(db, app, dim);
    var counts := Breakdown(db, app, dim);
    SumOfGroupSizes(m, counts);
    forall id | id in ReportsOf(db, app)
      ensures id in InKeys(m, counts.Keys)
    {
      assert m[id] in m.Values;
    }
    assert InKeys(m, counts.Keys) == ReportsOf(db, app);
  }

  /** The filter that asks for one app and nothing else. */
  function OneApp(app: int): Filter {
    NO_FILTER.(appId := app)
  }

  lemma OneAppWants(app: int, row: JoinRow)
    requires app != 0
    ensures Wanted(OneApp(app), row) <==> row.issue.appId == app
  {
    hide FmtTime, TextAtMost;
    assert Condition(OneApp(app), row, 0) <==> row.issue.appId == app;
    assert forall k: nat :: k != 0 ==> Condition(OneApp(app), row, k);
  }

  lemma OneAppReports(db: Db, app: int, i: int)
    requires Inv(db) && app != 0 && i in db.issues
    ensures WantedReports(db, OneApp(app), i) ==
            if db.issues[i].appId == app then set id | id in db.reports && db.reports[id].issueId == i else {}
  {
    hide Wanted, IsStamp;
    forall id | id in db.reports && db.reports[id].issueId == i
      ensures Wanted(OneApp(app), JoinRow(db.issues[i], db.reports[id])) <==> db.issues[i].appId == app
    {
      OneAppWants(app, JoinRow(db.issues[i], db.reports[id]));
    }
  }

  /** In every sound state, the report counts of an app's unfiltered issue list add up to its
      report count. */
  lemma IssueCountsAddUp(db: Db, app: int, cs: seq<Clause>, args: seq<Arg>)
    requires Inv(db) && app != 0 && |args| == AllHoles(cs)
    requires forall row :: Eval(cs, args, row) <==> Wanted(OneApp(app), row)
    ensures SumValues(ListIssues(db, cs, args).counts) == AppStats(db, app).reports
  {
    hide Eval, Wanted, IsStamp, Installations, SumValues, WantedReports, ListIssues, Fiber, InKeys, Inv, WantedIssues;
    var list := ListIssues(db, cs, args);
    var m := IssueIds(db, app);
    ListIsWanted(db, OneApp(app), cs, args);
    forall i | i in list.counts
      ensures list.counts[i] == |Fiber(m, i)|
    {
      ListedIsFiber(db, app, i);
    }
    SumOfGroupSizes(m, list.counts);
    AllListed(db, app);
  }

  ghost function IssueIds(db: Db, app: int): map<string, int> {
    map id | id in ReportsOf(db, app) :: db.reports[id].issueId
  }

  lemma AllListed(db: Db, app: int)
    requires Inv(db) && app != 0
    ensures InKeys(IssueIds(db, app), WantedIssues(db, OneApp(app))) == ReportsOf(db, app)
  {
    hide WantedIssues, Inv;
    forall id | id in ReportsOf(db, app)
      ensures id in InKeys(IssueIds(db, app), WantedIssues(db, OneApp(app)))
    {
      ReportIsListed(db, app, id);
    }
  }

  lemma ListedIsFiber(db: Db, app: int, i: int)
    requires Inv(db) && app != 0 && i in WantedIssues(db, OneApp(app))
    ensures Fiber(IssueIds(db, app), i) == WantedReports(db, OneApp(app), i)
  {
    hide Wanted, IsStamp, WantedReports;
    OneAppReports(db, app, i);
    assert forall id :: id in db.reports ==> Filed(db, db.reports[id]);
  }

  lemma ReportIsListed(db: Db, app: int, id: string)
    requires Inv(db) && app != 0 && id in ReportsOf(db, app)
    ensures db.reports[id].issueId in WantedIssues(db, OneApp(app))
  {
    hide Wanted, IsStamp, WantedReports;
    assert Filed(db, db.reports[id]);
    OneAppReports(db, app, db.reports[id].issueId);
    assert id in WantedReports(db, OneApp(app), db.reports[id].issueId);
  }

  /** Every issue of an app is open or resolved, so the two counts add up to all of them; and the
      unfiltered list, which shows only issues with reports, reaches that total exactly when no
      issue of the app has lost its last report. */
  lemma IssueTotals(db: Db, app: int)
    requires Inv(db) && app != 0
    ensures AppStats(db, app).openIssues + AppStats(db, app).resolvedIssues == |IssuesOf(db, app)|
    ensures |WantedIssues(db, OneApp(app))| <= |IssuesOf(db, app)|
    ensures |WantedIssues(db, OneApp(app))| == |IssuesOf(db, app)| <==>
            forall i :: i in IssuesOf(db, app) ==> exists id :: id in db.reports && db.reports[id].issueId == i
  {
    hide Wanted, IsStamp, WantedReports, Installations;
    OpenOrResolved(db, app);
    var shown, all := WantedIssues(db, OneApp(app)), IssuesOf(db, app);
    forall i | i in db.issues
      ensures i in shown <==> i in all && exists id :: id in db.reports && db.reports[id].issueId == i
    {
      ShownHasReport(db, app, i);
    }
    SubsetSize(shown, all);
  }

  lemma OpenOrResolved(db: Db, app: int)
    requires Inv(db)
    ensures |IssuesWith(db, app, OPEN)| + |IssuesWith(db, app, RESOLVED)| == |IssuesOf(db, app)|
  {
    hide IsStamp;
    var open, resolved, all := IssuesWith(db, app, OPEN), IssuesWith(db, app, RESOLVED), IssuesOf(db, app);
    assert OPEN[0] == 'o' && RESOLVED[0] == 'r';
    assert open !! resolved;
    forall i
      ensures i in all <==> i in open + resolved
    {
    }
    assert all == open + resolved;
  }

  lemma ShownHasReport(db: Db, app: int, i: int)
    requires Inv(db) && app != 0 && i in db.issues
    ensures i in WantedIssues(db, OneApp(app)) <==>
            db.issues[i].appId == app && exists id :: id in db.reports && db.reports[id].issueId == i
  {
    hide Wanted, IsStamp, WantedReports;
    OneAppReports(db, app, i);
    var filed := set id | id in db.reports && db.reports[id].issueId == i;
    if forall id :: id !in filed {
      assert filed == {};
    }
    if exists id :: id in db.reports && db.reports[id].issueId == i {
      var id :| id in db.reports && db.reports[id].issueId == i;
      assert id in filed;
    }
  }

  lemma SubsetSize(a: set<int>, b: set<int>)
    requires a <= b
    ensures |a| <= |b|
    ensures |a| == |b| <==> a == b
  {
    assert b == a + (b - a);
    if |b - a| == 0 {
      assert b - a == {};
    }
  }

  /** The latest stored text names the latest time: nothing in the app was received after it. */
  lemma LatestTextIsLatestTime(db: Db, app: int, last: string)
    requires Inv(db) && last in ReportsOf(db, app)
    requires forall id :: id in ReportsOf(db, app) ==> TextAtMost(db.reports[id].receivedAt, db.reports[last].receivedAt)
    ensures forall id :: id in ReportsOf(db, app) ==>
              ParseTime(db.reports[id].receivedAt) <= ParseTime(db.reports[last].receivedAt)
  {
    hide FmtTime, TextAtMost, ParseTime, FloorSecond;
    assert IsStamp(db.reports[last].receivedAt);
    var t: Instant :| db.reports[last].receivedAt == FmtTime(t);
    StoredTimeReadsBack(t);
    forall id | id in ReportsOf(db, app)
      ensures ParseTime(db.reports[id].receivedAt) <= ParseTime(db.reports[last].receivedAt)
    {
      assert IsStamp(db.reports[id].receivedAt);
      var u: Instant :| db.reports[id].receivedAt == FmtTime(u);
      StoredTimeReadsBack(u);
      TextOrderIsTimeOrder(u, t);
    }
  }

  // ---------- reports per day ----------

  /** Which reports a chart counts: those of one app, of one issue, or all. */
  datatype Scope = OfApp(id: int) | OfIssue(id: int) | All

  predicate InScope(r: ReportRow, s: Scope) {
    match s
    case OfApp(id) => r.appId == id
    case OfIssue(id) => r.issueId == id
    case All => true
  }

  /** The chart's column and id; id 0 means everything. */
  function ScopeFor(byApp: bool, id: int): (s: Scope)
    ensures forall r :: InScope(r, s) <==> id == 0 || id == if byApp then r.appId else r.issueId
  {
    if id == 0 then All else if byApp then OfApp(id) else OfIssue(id)
  }

  /** The reports received on one UTC day. */
  ghost function OnDay(db: Db, s: Scope, day: nat): set<string> {
    set id | id in db.reports && InScope(db.reports[id], s) && DayOf(ParseTime(db.reports[id].receivedAt)) == day
  }

  /** The reports one row of the grouped query counts: same first ten characters, not before the
      cutoff text. */
  ghost function WithLabel(db: Db, s: Scope, cutoff: string, tag: string): set<string> {
    set id | id in db.reports && InScope(db.reports[id], s) && TextAtMost(cutoff, db.reports[id].receivedAt) &&
             |db.reports[id].receivedAt| >= 10 && db.reports[id].receivedAt[..10] == tag
  }

  /** The rows of SELECT substr(received_at, 1, 10), COUNT(*) ... GROUP BY 1. */
  ghost predicate IsGrouping(db: Db, s: Scope, cutoff: string, rows: seq<(string, nat)>) {
    && (forall i :: 0 <= i < |rows| ==> rows[i].1 == |WithLabel(db, s, cutoff, rows[i].0)|)
    && (forall i, j :: 0 <= i < j < |rows| ==> rows[i].0 != rows[j].0)
    && (forall tag :: WithLabel(db, s, cutoff, tag) != {} ==> exists i :: 0 <= i < |rows| && rows[i].0 == tag)
  }

  lemma LabelIsDay(db: Db, s: Scope, first: nat, day: nat)
    requires Inv(db) && first <= day < DAY_COUNT
    ensures WithLabel(db, s, FmtTime(Midnight(first)), DayText(day)) == OnDay(db, s, day)
  {
    hide FmtTime, TextAtMost, ParseTime, DayText, DayOf, FloorSecond;
    forall id | id in db.reports
      ensures id in WithLabel(db, s, FmtTime(Midnight(first)), DayText(day)) <==> id in OnDay(db, s, day)
    {
      assert IsStamp(db.reports[id].receivedAt);
      var t: Instant :| db.reports[id].receivedAt == FmtTime(t);
      StampDay(t, first, day);
    }
  }

  lemma StampDay(t: Instant, first: nat, day: nat)
    requires first <= day < DAY_COUNT
    ensures TextAtMost(FmtTime(Midnight(first)), FmtTime(t)) && FmtTime(t)[..10] == DayText(day) <==>
            DayOf(ParseTime(FmtTime(t))) == day
  {
    hide FmtTime, TextAtMost, DayText, ParseTime;
    StoredTimeReadsBack(t);
    StoredTimeDay(t);
    DayTextOrder(DayOf(t), day);
    DayRangeByText(t, first, 0);
    assert DayOf(FloorSecond(t) * SECOND) == DayOf(t);
  }

  datatype Count = Count(tag: string, count: nat)

  /** days entries with ascending labels, ending today: each day's label with exactly that day's
      number of reports, zero where there is none. */
  method PerDay(ghost db: Db, ghost byApp: bool, ghost id: int, rows: seq<(string, nat)>, now: Instant, days: nat)
    returns (out: seq<Count>)
    requires Inv(db) && days >= 1 && DayOf(now) >= days - 1
    requires IsGrouping(db, ScopeFor(byApp, id), FmtTime(Midnight(DayOf(now) - (days - 1))), rows)
    ensures |out| == days
    ensures forall i, j :: 0 <= i < j < days ==> TextLess(out[i].tag, out[j].tag)
    ensures forall i :: 0 <= i < days ==>
              var day := DayOf(now) - (days - 1) + i;
              out[i] == Count(DayText(day), |OnDay(db, ScopeFor(byApp, id), day)|)
  {
    hide FmtTime, DayText, DayOf, WithLabel, OnDay, Inv, Midnight, TextLess;
    var first := DayOf(now) - (days - 1);
    ghost var s := ScopeFor(byApp, id);
    ghost var cutoff := FmtTime(Midnight(first));
    var byDay: map<string, nat> := map[];
    for i := 0 to |rows|
      invariant forall k :: 0 <= k < i ==> rows[k].0 in byDay && byDay[rows[k].0] == rows[k].1
      invariant forall tag :: tag in byDay ==> exists k :: 0 <= k < i && rows[k].0 == tag
    {
      byDay := byDay[rows[i].0 := rows[i].1];
    }
    out := [];
    for i := 0 to days
      invariant |out| == i
      invariant forall k :: 0 <= k < i ==> out[k] == Count(DayText(first + k), |OnDay(db, s, first + k)|)
    {
      var tag := DayText(first + i);
      var n := if tag in byDay then byDay[tag] else 0;
      LabelIsDay(db, s, first, first + i);
      RowForLabel(db, s, cutoff, rows, tag);
      out := out + [Count(tag, n)];
    }
    LabelsAscend(out, first);
  }

  /** A label without a row counts nothing. */
  lemma RowForLabel(db: Db, s: Scope, cutoff: string, rows: seq<(string, nat)>, tag: string)
    requires IsGrouping(db, s, cutoff, rows)
    ensures (forall i :: 0 <= i < |rows| ==> rows[i].0 != tag) ==> |WithLabel(db, s, cutoff, tag)| == 0
  {
    hide WithLabel;
  }

  /** Consecutive days have ascending labels. */
  lemma LabelsAscend(out: seq<Count>, first: nat)
    requires first + |out| <= DAY_COUNT
    requires forall i :: 0 <= i < |out| ==> out[i].tag == DayText(first + i)
    ensures forall i, j :: 0 <= i < j < |out| ==> TextLess(out[i].tag, out[j].tag)
  {
    hide DayText, TextLess;
    forall i, j | 0 <= i < j < |out|
      ensures TextLess(out[i].tag, out[j].tag)
    {
      DayTextOrder(first + i, first + j);
    }
  }

  /** A chart that reaches back to the first report counts every report received up to its last
      day exactly once. */
  lemma {:induction false} ChartAddsUp(db: Db, s: Scope, first: nat, n: nat)
    requires first + n <= DAY_COUNT
    ensures SumDays(db, s, first, n) == |Between(db, s, first, first + n)|
  {
    hide Between, OnDay;
    if n == 0 {
      NothingBetween(db, s, first);
    } else {
      ChartAddsUp(db, s, first, n - 1);
      OneMoreDay(db, s, first, first + n - 1);
    }
  }

  lemma NothingBetween(db: Db, s: Scope, first: nat)
    ensures |Between(db, s, first, first)| == 0
  {
    hide ParseTime, DayOf, InScope;
    assert Between(db, s, first, first) == {};
  }

  lemma OneMoreDay(db: Db, s: Scope, first: nat, day: nat)
    requires first <= day
    ensures |Between(db, s, first, day + 1)| == |Between(db, s, first, day)| + |OnDay(db, s, day)|
  {
    hide ParseTime, DayOf, InScope;
    var all, old', new' := Between(db, s, first, day + 1), Between(db, s, first, day), OnDay(db, s, day);
    forall id
      ensures id in all <==> id in old' || id in new'
    {
    }
    assert all == old' + new';
    assert old' !! new';
  }

  ghost function SumDays(db: Db, s: Scope, first: nat, n: nat): nat {
    if n == 0 then 0 else SumDays(db, s, first, n - 1) + |OnDay(db, s, first + n - 1)|
  }

  ghost function Between(db: Db, s: Scope, first: nat, end: nat): set<string> {
    set id | id in db.reports && InScope(db.reports[id], s) && first <= DayOf(ParseTime(db.reports[id].receivedAt)) < end
  }
}
