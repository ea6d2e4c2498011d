/** The issue list: conditions and arguments collected side by side, bound to each other by
    position, and evaluated over the join of issues and reports. */
module IssueQuery {
  import opened Options
  import opened CivilTime
  import opened TimeText
  import opened Tables
  import opened Like
  import opened Paging

  datatype Filter = Filter(appId: int, status: string, search: string, appVersion: string,
                           androidVersion: string, device: string, from: Instant, to: Instant)

  datatype Arg = Number(n: int) | Text(s: string)

  datatype Column = IssueApp | IssueStatus | AppVersion | AndroidVersion | PhoneModel | ReceivedAt

  /** One conjunct of the WHERE clause; every question mark in it takes the next argument. */
  datatype Clause =
    | Always                    // 1=1
    | Equals(col: Column)       // col = ?
    | AtLeast(col: Column)      // col >= ?
    | AtMost(col: Column)       // col <= ?
    | TitleOrTraceLike          // (title LIKE ? ESCAPE '\' OR stack_trace LIKE ? ESCAPE '\')

  /** One row of issues JOIN reports JOIN apps. */
  datatype JoinRow = JoinRow(issue: IssueRow, report: ReportRow)

  // ---------- what a bound query means ----------

  function Holes(c: Clause): nat {
    match c
    case Always => 0
    case TitleOrTraceLike => 2
    case _ => 1
  }

  function AllHoles(cs: seq<Clause>): nat {
    if cs == [] then 0 else Holes(cs[0]) + AllHoles(cs[1..])
  }

  function ValueOf(row: JoinRow, col: Column): Arg {
    match col
    case IssueApp => Number(row.issue.appId)
    case IssueStatus => Text(row.issue.status)
    case AppVersion => Text(row.report.details.appVersion)
    case AndroidVersion => Text(row.report.details.androidVersion)
    case PhoneModel => Text(row.report.details.phoneModel)
    case ReceivedAt => Text(row.report.receivedAt)
  }

  predicate ArgAtMost(a: Arg, b: Arg) {
    match (a, b)
    case (Number(m), Number(n)) => m <= n
    case (Text(s), Text(t)) => TextAtMost(s, t)
    case (Number(_), Text(_)) => true   // numbers sort before text
    case (Text(_), Number(_)) => false
  }

  predicate LikeArg(t: string, pattern: Arg) {
    pattern.Text? && Matches(pattern.s, t)
  }

  predicate Holds(c: Clause, args: seq<Arg>, row: JoinRow)
    requires |args| == Holes(c)
  {
    match c
    case Always => true
    case Equals(col) => ValueOf(row, col) == args[0]
    case AtLeast(col) => ArgAtMost(args[0], ValueOf(row, col))
    case AtMost(col) => ArgAtMost(ValueOf(row, col), args[0])
    case TitleOrTraceLike => LikeArg(row.issue.title, args[0]) || LikeArg(row.report.details.stackTrace, args[1])
  }

  /** The conjunction, its question marks filled from args left to right. */
  predicate Eval(cs: seq<Clause>, args: seq<Arg>, row: JoinRow)
    requires |args| == AllHoles(cs)
  {
    if cs == [] then true else
      var n := Holes(cs[0]);
      Holds(cs[0], args[..n], row) && Eval(cs[1..], args[n..], row)
  }

  lemma {:induction false} EvalSnoc(cs: seq<Clause>, args: seq<Arg>, c: Clause, more: seq<Arg>, row: JoinRow)
    requires |args| == AllHoles(cs) && |more| == Holes(c)
    ensures |args + more| == AllHoles(cs + [c])
    ensures Eval(cs + [c], args + more, row) <==> Eval(cs, args, row) && Holds(c, more, row)
  {
    hide Holds;
    if cs == [] {
      assert [c][1..] == [] && args + more == more;
      assert more[..Holes(c)] == more && more[Holes(c)..] == [];
      assert cs + [c] == [c];
    } else {
      var n := Holes(cs[0]);
      assert (cs + [c])[1..] == cs[1..] + [c];
      assert (args + more)[..n] == args[..n] && (args + more)[n..] == args[n..] + more;
      EvalSnoc(cs[1..], args[n..], c, more, row);
    }
  }

  // ---------- what the caller asked for ----------

  ghost predicate WantedText(search: string, row: JoinRow) {
    Occurs(search, row.issue.title) || Occurs(search, row.report.details.stackTrace)
  }

  const FROM: nat := 5
  const TO: nat := 6
  const CONDITIONS: nat := 8

  /** The k-th of the eight optional conditions; an empty field asks for nothing. */
  ghost predicate Condition(f: Filter, row: JoinRow, k: nat) {
    match k
    case 0 => f.appId != 0 ==> row.issue.appId == f.appId
    case 1 => f.status != "" ==> row.issue.status == f.status
    case 2 => f.appVersion != "" ==> row.report.details.appVersion == f.appVersion
    case 3 => f.androidVersion != "" ==> row.report.details.androidVersion == f.androidVersion
    case 4 => f.device != "" ==> row.report.details.phoneModel == f.device
    case 5 => f.from != ZERO_TIME ==> TextAtMost(FmtTime(f.from), row.report.receivedAt)
    case 6 => f.to != ZERO_TIME ==> TextAtMost(row.report.receivedAt, FmtTime(f.to))
    case 7 => f.search != "" ==> WantedText(f.search, row)
    case _ => true
  }

  ghost predicate WantedFirst(f: Filter, row: JoinRow, n: nat) {
    forall k: nat :: k < n ==> Condition(f, row, k)
  }

  /** Issue and report meet every condition together. */
  ghost predicate Wanted(f: Filter, row: JoinRow) {
    WantedFirst(f, row, CONDITIONS)
  }

  /** The clauses and arguments so far mean the first n conditions. */
  ghost predicate Means(cs: seq<Clause>, args: seq<Arg>, f: Filter, n: nat) {
    |args| == AllHoles(cs) && forall row :: Eval(cs, args, row) <==> WantedFirst(f, row, n)
  }

  lemma WantedNext(f: Filter, row: JoinRow, n: nat)
    ensures WantedFirst(f, row, n + 1) <==> WantedFirst(f, row, n) && Condition(f, row, n)
  {
    hide Condition;
    if WantedFirst(f, row, n) && Condition(f, row, n) {
      forall k: nat | k < n + 1
        ensures Condition(f, row, k)
      {
        assert k < n || k == n;
      }
    }
  }

  lemma AddClause(cs: seq<Clause>, args: seq<Arg>, f: Filter, n: nat, c: Clause, more: seq<Arg>)
    requires Means(cs, args, f, n) && |more| == Holes(c)
    requires forall row :: Condition(f, row, n) <==> Holds(c, more, row)
    ensures Means(cs + [c], args + more, f, n + 1)
  {
    hide Eval, Holds, WantedFirst, Condition;
    AllHolesSnoc(cs, c);
    forall row
      ensures Eval(cs + [c], args + more, row) <==> WantedFirst(f, row, n + 1)
    {
      EvalSnoc(cs, args, c, more, row);
      WantedNext(f, row, n);
      assert Condition(f, row, n) <==> Holds(c, more, row);
    }
  }

  lemma {:induction false} AllHolesSnoc(cs: seq<Clause>, c: Clause)
    ensures AllHoles(cs + [c]) == AllHoles(cs) + Holes(c)
  {
    if cs == [] {
      assert [c][1..] == [] && cs + [c] == [c];
    } else {
      assert (cs + [c])[1..] == cs[1..] + [c];
      AllHolesSnoc(cs[1..], c);
    }
  }

  lemma SkipClause(cs: seq<Clause>, args: seq<Arg>, f: Filter, n: nat)
    requires Means(cs, args, f, n) && forall row :: Condition(f, row, n)
    ensures Means(cs, args, f, n + 1)
  {
    hide Eval, WantedFirst, Condition;
    forall row
      ensures Eval(cs, args, row) <==> WantedFirst(f, row, n + 1)
    {
      WantedNext(f, row, n);
      assert Condition(f, row, n);
    }
  }

  lemma SearchClause(f: Filter, row: JoinRow)
    requires f.search != ""
    ensures var pat := Text("%" + EscapeLike(f.search) + "%");
            Condition(f, row, 7) <==> Holds(TitleOrTraceLike, [pat, pat], row)
  {
    hide Matches, Occurs, EscapeLike;
    SearchMeansSubstring(f.search, row.issue.title);
    SearchMeansSubstring(f.search, row.report.details.stackTrace);
  }

  lemma StartMeans(f: Filter)
    ensures Means([Always], [], f, 0)
  {
    assert [Always][1..] == [];
  }

  /** Grows the clauses and the arguments together; what they mean, bound by position, is the
      filter. */
  method IssueWhere(f: Filter) returns (where: seq<Clause>, args: seq<Arg>)
    ensures |args| == AllHoles(where)
    ensures forall row :: Eval(where, args, row) <==> Wanted(f, row)
  {
    hide Eval, WantedFirst, FmtTime, TextAtMost, WantedText, EscapeLike;
    where, args := [Always], [];
    StartMeans(f);
    where, args := ExactClauses(f, where, args);
    where, args := RangeClauses(f, where, args);
    if f.search != "" {
      var pat := "%" + EscapeLike(f.search) + "%";
      forall row
        ensures Condition(f, row, 7) <==> Holds(TitleOrTraceLike, [Text(pat), Text(pat)], row)
      {
        SearchClause(f, row);
      }
      AddClause(where, args, f, 7, TitleOrTraceLike, [Text(pat), Text(pat)]);
      where, args := where + [TitleOrTraceLike], args + [Text(pat), Text(pat)];
    } else {
      SkipClause(where, args, f, 7);
    }
  }

  /** The five equality conditions. */
  method ExactClauses(f: Filter, where0: seq<Clause>, args0: seq<Arg>) returns (where: seq<Clause>, args: seq<Arg>)
    requires Means(where0, args0, f, 0)
    ensures Means(where, args, f, 5)
  {
    hide Means, Eval, WantedFirst, FmtTime, TextAtMost, WantedText;
    where, args := where0, args0;
    if f.appId != 0 {
      AddClause(where, args, f, 0, Equals(IssueApp), [Number(f.appId)]);
      where, args := where + [Equals(IssueApp)], args + [Number(f.appId)];
    } else {
      SkipClause(where, args, f, 0);
    }
    if f.status != "" {
      AddClause(where, args, f, 1, Equals(IssueStatus), [Text(f.status)]);
      where, args := where + [Equals(IssueStatus)], args + [Text(f.status)];
    } else {
      SkipClause(where, args, f, 1);
    }
    if f.appVersion != "" {
      AddClause(where, args, f, 2, Equals(AppVersion), [Text(f.appVersion)]);
      where, args := where + [Equals(AppVersion)], args + [Text(f.appVersion)];
    } else {
      SkipClause(where, args, f, 2);
    }
    if f.androidVersion != "" {
      AddClause(where, args, f, 3, Equals(AndroidVersion), [Text(f.androidVersion)]);
      where, args := where + [Equals(AndroidVersion)], args + [Text(f.androidVersion)];
    } else {
      SkipClause(where, args, f, 3);
    }
    if f.device != "" {
      AddClause(where, args, f, 4, Equals(PhoneModel), [Text(f.device)]);
      where, args := where + [Equals(PhoneModel)], args + [Text(f.device)];
    } else {
      SkipClause(where, args, f, 4);
    }
  }

  /** The two time bounds. */
  method RangeClauses(f: Filter, where0: seq<Clause>, args0: seq<Arg>) returns (where: seq<Clause>, args: seq<Arg>)
    requires Means(where0, args0, f, FROM)
    ensures Means(where, args, f, TO + 1)
  {
    hide Means, Eval, WantedFirst, FmtTime, TextAtMost, WantedText;
    where, args := where0, args0;
    if f.from != ZERO_TIME {
      AddClause(where, args, f, FROM, AtLeast(ReceivedAt), [Text(FmtTime(f.from))]);
      where, args := where + [AtLeast(ReceivedAt)], args + [Text(FmtTime(f.from))];
    } else {
      SkipClause(where, args, f, FROM);
    }
    if f.to != ZERO_TIME {
      AddClause(where, args, f, TO, AtMost(ReceivedAt), [Text(FmtTime(f.to))]);
      where, args := where + [AtMost(ReceivedAt)], args + [Text(FmtTime(f.to))];
    } else {
      SkipClause(where, args, f, TO);
    }
  }

  // ---------- the list ----------

  /** One report of one issue, joined. */
  ghost predicate Joined(db: Db, i: int, id: string) {
    i in db.issues && id in db.reports && db.reports[id].issueId == i && db.issues[i].appId in db.apps
  }

  ghost function RowOf(db: Db, i: int, id: string): JoinRow
    requires Joined(db, i, id)
  {
    JoinRow(db.issues[i], db.reports[id])
  }

  /** The reports of issue i that survive the WHERE clause: its group. */
  ghost function Group(db: Db, cs: seq<Clause>, args: seq<Arg>, i: int): set<string>
    requires |args| == AllHoles(cs)
  {
    set id | id in db.reports && Joined(db, i, id) && Eval(cs, args, RowOf(db, i, id))
  }

  /** GROUP BY i.id: the issues with a non-empty group. */
  ghost function Groups(db: Db, cs: seq<Clause>, args: seq<Arg>): set<int>
    requires |args| == AllHoles(cs)
  {
    set i | i in db.issues && Group(db, cs, args, i) != {}
  }

  /** What the page shows: the total, and for each issue its report and installation counts. */
  datatype IssueList = IssueList(total: nat, counts: map<int, nat>, installs: map<int, nat>)

  ghost function ListIssues(db: Db, cs: seq<Clause>, args: seq<Arg>): IssueList
    requires |args| == AllHoles(cs)
  {
    var shown := Groups(db, cs, args);
    IssueList(|shown|,
              map i | i in shown :: |Group(db, cs, args, i)|,
              map i | i in shown :: |Installations(db, Group(db, cs, args, i))|)
  }

  /** The reports of issue i that meet every condition of the filter at once. */
  ghost function WantedReports(db: Db, f: Filter, i: int): set<string> {
    set id | id in db.reports && i in db.issues && db.reports[id].issueId == i &&
             Wanted(f, JoinRow(db.issues[i], db.reports[id]))
  }

  ghost function WantedIssues(db: Db, f: Filter): set<int> {
    set i | i in db.issues && WantedReports(db, f, i) != {}
  }

  ghost function Installations(db: Db, ids: set<string>): set<string> {
    set id | id in ids && id in db.reports :: db.reports[id].details.installation
  }

  lemma ListIsWanted(db: Db, f: Filter, cs: seq<Clause>, args: seq<Arg>)
    requires Inv(db) && |args| == AllHoles(cs)
    requires forall row :: Eval(cs, args, row) <==> Wanted(f, row)
    ensures var list := ListIssues(db, cs, args);
            list.total == |WantedIssues(db, f)| &&
            list.counts.Keys == WantedIssues(db, f) == list.installs.Keys &&
            forall i :: i in WantedIssues(db, f) ==>
              list.counts[i] == |WantedReports(db, f, i)| > 0 &&
              list.installs[i] == |Installations(db, WantedReports(db, f, i))|
  {
    hide Eval, Wanted, IsStamp, Installations;
    forall i: int
      ensures Group(db, cs, args, i) == WantedReports(db, f, i)
    {
      GroupIsWanted(db, f, cs, args, i);
    }
    assert Groups(db, cs, args) == WantedIssues(db, f);
    forall i | i in WantedIssues(db, f)
      ensures |WantedReports(db, f, i)| > 0
    {
      NonEmptySize(WantedReports(db, f, i));
    }
  }

  /** An issue is listed exactly when a single report of it meets all conditions together; the
      total counts exactly those issues, each count exactly those reports, and each installation
      count their distinct installation ids. */
  lemma ListMeansFilter(db: Db, f: Filter, cs: seq<Clause>, args: seq<Arg>)
    requires Inv(db) && |args| == AllHoles(cs)
    requires forall row :: Eval(cs, args, row) <==> Wanted(f, row)
    ensures var list := ListIssues(db, cs, args);
            list.total == |WantedIssues(db, f)| &&
            list.counts.Keys == WantedIssues(db, f) == list.installs.Keys &&
            forall i :: i in WantedIssues(db, f) ==>
              list.counts[i] == |WantedReports(db, f, i)| > 0 &&
              list.installs[i] == |set id | id in WantedReports(db, f, i) && id in db.reports :: db.reports[id].details.installation|
  {
    hide Eval, Wanted, Inv, Installations, ListIssues, WantedReports, WantedIssues;
    ListIsWanted(db, f, cs, args);
    forall i | i in WantedIssues(db, f)
      ensures |Installations(db, WantedReports(db, f, i))| ==
              |set id | id in WantedReports(db, f, i) && id in db.reports :: db.reports[id].details.installation|
    {
      InstallationsAre(db, WantedReports(db, f, i));
    }
  }

  lemma InstallationsAre(db: Db, ids: set<string>)
    ensures Installations(db, ids) == set id | id in ids && id in db.reports :: db.reports[id].details.installation
  {}

  lemma NonEmptySize(s: set<string>)
    requires s != {}
    ensures |s| > 0
  {}

  lemma GroupIsWanted(db: Db, f: Filter, cs: seq<Clause>, args: seq<Arg>, i: int)
    requires Inv(db) && |args| == AllHoles(cs)
    requires forall row :: Eval(cs, args, row) <==> Wanted(f, row)
    ensures Group(db, cs, args, i) == WantedReports(db, f, i)
  {
    hide Eval, Wanted, IsStamp;
    forall id | id in db.reports
      ensures id in Group(db, cs, args, i) <==> id in WantedReports(db, f, i)
    {
      if i in db.issues {
        assert Eval(cs, args, JoinRow(db.issues[i], db.reports[id])) <==> Wanted(f, JoinRow(db.issues[i], db.reports[id]));
      }
    }
  }

  // ---------- LIMIT and OFFSET take the last two question marks ----------

  /** The arguments of the second query. */
  function PagedArgs(args: seq<Arg>, page: int, perPage: int): seq<Arg> {
    var n := ClampPerPage(perPage);
    args + [Number(n), Number((ClampPage(page) - 1) * n)]
  }

  /** The second query, all its question marks bound left to right: the conditions take theirs,
      LIMIT and OFFSET the next two. rows is the order the engine gives the groups. */
  function PagedQuery(cs: seq<Clause>, all: seq<Arg>, rows: seq<int>): seq<int> {
    var k := AllHoles(cs);
    if |all| == k + 2 && all[k].Number? && all[k].n >= 0 && all[k + 1].Number? && all[k + 1].n >= 0 then
      Limit(rows, all[k].n, all[k + 1].n)
    else []
  }

  /** rows lists every group once. */
  ghost predicate OrdersGroups(db: Db, cs: seq<Clause>, args: seq<Arg>, rows: seq<int>)
    requires |args| == AllHoles(cs)
  {
    |rows| == |Groups(db, cs, args)| && forall i :: i in rows <==> i in Groups(db, cs, args)
  }

  /** Appending limit and offset shifts no condition's argument, and whatever order the engine
      keeps, the pages up to the last one show every listed issue once, as many as the total. */
  lemma IssuePagesPartition(db: Db, cs: seq<Clause>, args: seq<Arg>, rows: seq<int>, page: int, perPage: int)
    requires |args| == AllHoles(cs) && OrdersGroups(db, cs, args, rows)
    ensures PagedArgs(args, page, perPage)[..AllHoles(cs)] == args
    ensures PagedQuery(cs, PagedArgs(args, page, perPage), rows) == Page(rows, ClampPage(page), ClampPerPage(perPage))
    ensures var n := ClampPerPage(perPage);
            Pages(rows, PageCount(ListIssues(db, cs, args).total, n), n) == rows
  {
    hide Groups, Page, PageCount;
    PagesPartition(rows, ClampPerPage(perPage));
    OffsetIsPage(rows, ClampPage(page), ClampPerPage(perPage));
  }

  lemma OffsetIsPage(rows: seq<int>, page: nat, n: nat)
    requires page >= 1
    ensures (page - 1) * n >= 0 && Limit(rows, n, (page - 1) * n) == Page(rows, page, n)
  {}

  // ---------- the date range ----------

  const NO_FILTER := Filter(0, "", "", "", "", "", ZERO_TIME, ZERO_TIME)

  /** The filter the page builds from two days; None leaves that side open. */
  function DayFilter(f: Filter, from: Option<nat>, to: Option<nat>): Filter
    requires (from.Some? ==> from.value < DAY_COUNT) && (to.Some? ==> to.value < DAY_COUNT)
  {
    f.(from := if from.Some? then Midnight(from.value) else ZERO_TIME,
       to := if to.Some? then EndOfDay(to.value) else ZERO_TIME)
  }

  /** The day whose midnight is Go's zero time, which means "no filter". */
  const ZERO_DAY: nat := 366

  predicate InDays(day: nat, from: Option<nat>, to: Option<nat>) {
    (from.Some? ==> from.value <= day) && (to.Some? ==> day <= to.value)
  }

  /** The range as the code takes it: a start at the zero day is no start. */
  function Honoured(from: Option<nat>): Option<nat> {
    if from == Some(ZERO_DAY) then None else from
  }

  /** A report stored at t passes both time conditions exactly when its UTC day lies in the
      inclusive range that is honoured. */
  lemma DateRangeMeansDays(f: Filter, from: Option<nat>, to: Option<nat>, row: JoinRow, t: Instant)
    requires (from.Some? ==> from.value < DAY_COUNT) && (to.Some? ==> to.value < DAY_COUNT)
    requires row.report.receivedAt == FmtTime(t)
    ensures Condition(DayFilter(f, from, to), row, FROM) && Condition(DayFilter(f, from, to), row, TO) <==>
            InDays(DayOf(t), Honoured(from), to)
  {
    hide FmtTime, TextAtMost;
    if from.Some? {
      DayRangeByText(t, from.value, 0);
      assert Midnight(from.value) == ZERO_TIME <==> from.value == ZERO_DAY;
    }
    if to.Some? {
      DayRangeByText(t, 0, to.value);
      assert EndOfDay(to.value) != ZERO_TIME;
    }
  }

  /** Whether a range is honoured on a report received at t. */
  ghost predicate RangeExactAt(from: Option<nat>, to: Option<nat>, row: JoinRow, t: Instant)
    requires (from.Some? ==> from.value < DAY_COUNT) && (to.Some? ==> to.value < DAY_COUNT)
  {
    row.report.receivedAt == FmtTime(t) ==>
      (Condition(DayFilter(NO_FILTER, from, to), row, FROM) && Condition(DayFilter(NO_FILTER, from, to), row, TO) <==>
       InDays(DayOf(t), from, to))
  }

  /** A range is exact on every report received since year 1, whatever its days; and on all reports
      there could be, an open-ended one is exact if and only if it does not start at the zero day,
      where a report of the year 0000 tells the difference. */
  lemma DateRangeIsExact(from: Option<nat>, to: Option<nat>, issue: IssueRow, report: ReportRow)
    requires (from.Some? ==> from.value < DAY_COUNT) && (to.Some? ==> to.value < DAY_COUNT)
    ensures forall t: Instant :: t >= ZERO_TIME ==>
              RangeExactAt(from, to, JoinRow(issue, report.(receivedAt := FmtTime(t))), t)
    ensures (forall t: Instant :: RangeExactAt(from, None, JoinRow(issue, report.(receivedAt := FmtTime(t))), t)) <==>
            from != Some(ZERO_DAY)
  {
    hide FmtTime, Condition;
    forall t: Instant
      ensures t >= ZERO_TIME || from != Some(ZERO_DAY) ==>
                RangeExactAt(from, to, JoinRow(issue, report.(receivedAt := FmtTime(t))), t) &&
                RangeExactAt(from, None, JoinRow(issue, report.(receivedAt := FmtTime(t))), t)
    {
      var row := JoinRow(issue, report.(receivedAt := FmtTime(t)));
      DateRangeMeansDays(NO_FILTER, from, to, row, t);
      DateRangeMeansDays(NO_FILTER, from, None, row, t);
      assert t >= ZERO_TIME ==> DayOf(t) >= ZERO_DAY;
    }
    if from == Some(ZERO_DAY) {
      var early: Instant := 0;
      var row := JoinRow(issue, report.(receivedAt := FmtTime(early)));
      DateRangeMeansDays(NO_FILTER, from, None, row, early);
      assert DayOf(early) == 0;
      assert !RangeExactAt(from, None, row, early);
    }
  }

  /** The reports of issue i received within the range that meet the other conditions of f. */
  ghost function WantedInDays(db: Db, f: Filter, from: Option<nat>, to: Option<nat>, i: int): set<string> {
    set id | id in db.reports && i in db.issues && db.reports[id].issueId == i &&
             InDays(DayOf(ParseTime(db.reports[id].receivedAt)), from, to) &&
             Wanted(f.(from := ZERO_TIME, to := ZERO_TIME), JoinRow(db.issues[i], db.reports[id]))
  }

  /** From two days to the page: an issue is listed exactly when one single report of it was
      received on a UTC day of the range and meets all other conditions, and its count is of
      exactly those reports. */
  lemma ListInDayRange(db: Db, f: Filter, from: Option<nat>, to: Option<nat>, cs: seq<Clause>, args: seq<Arg>)
    requires (from.Some? ==> from.value < DAY_COUNT) && (to.Some? ==> to.value < DAY_COUNT)
    requires Inv(db) && |args| == AllHoles(cs)
    requires forall row :: Eval(cs, args, row) <==> Wanted(DayFilter(f, from, to), row)
    ensures var list := ListIssues(db, cs, args);
            (forall i :: i in list.counts <==> i in db.issues && WantedInDays(db, f, Honoured(from), to, i) != {}) &&
            forall i :: i in list.counts ==> list.counts[i] == |WantedInDays(db, f, Honoured(from), to, i)|
  {
    hide Eval, Wanted, Inv, ListIssues, WantedReports, WantedInDays;
    ListIsWanted(db, DayFilter(f, from, to), cs, args);
    forall i: int
      ensures WantedReports(db, DayFilter(f, from, to), i) == WantedInDays(db, f, Honoured(from), to, i)
    {
      DayReports(db, f, from, to, i);
    }
  }

  lemma DayReports(db: Db, f: Filter, from: Option<nat>, to: Option<nat>, i: int)
    requires (from.Some? ==> from.value < DAY_COUNT) && (to.Some? ==> to.value < DAY_COUNT)
    requires Inv(db)
    ensures WantedReports(db, DayFilter(f, from, to), i) == WantedInDays(db, f, Honoured(from), to, i)
  {
    hide Wanted, FmtTime, ParseTime, DayOf, DayFilter, InDays, AppsOk, IssuesOk;
    var a, b := WantedReports(db, DayFilter(f, from, to), i), WantedInDays(db, f, Honoured(from), to, i);
    forall id | id in db.reports && i in db.issues && db.reports[id].issueId == i
      ensures id in a <==> id in b
    {
      assert IsStamp(db.reports[id].receivedAt);
      var t: Instant :| db.reports[id].receivedAt == FmtTime(t);
      SplitOffDays(f, from, to, JoinRow(db.issues[i], db.reports[id]), t);
    }
    assert forall id :: id in a <==> id in b;
  }

  /** The conditions with a day range are the range and the conditions without. */
  lemma SplitOffDays(f: Filter, from: Option<nat>, to: Option<nat>, row: JoinRow, t: Instant)
    requires (from.Some? ==> from.value < DAY_COUNT) && (to.Some? ==> to.value < DAY_COUNT)
    requires row.report.receivedAt == FmtTime(t)
    ensures Wanted(DayFilter(f, from, to), row) <==>
            InDays(DayOf(ParseTime(row.report.receivedAt)), Honoured(from), to) &&
            Wanted(f.(from := ZERO_TIME, to := ZERO_TIME), row)
  {
    hide FmtTime, TextAtMost, WantedText, InDays, ParseTime, Midnight, EndOfDay;
    DateRangeMeansDays(f, from, to, row, t);
    StoredTimeReadsBack(t);
    assert DayOf(FloorSecond(t) * SECOND) == DayOf(t);
    var g, h := DayFilter(f, from, to), f.(from := ZERO_TIME, to := ZERO_TIME);
    forall k: nat | k < CONDITIONS && k != FROM && k != TO
      ensures Condition(g, row, k) <==> Condition(h, row, k)
    {
    }
    assert Condition(h, row, FROM) && Condition(h, row, TO);
  }
}
