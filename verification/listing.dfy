/** ORDER BY received_at DESC, id DESC with LIMIT and OFFSET over one issue's reports. */
module Listing {
  import opened TimeText
  import opened Tables
  import opened Sets
  import opened Paging
  import opened IssueQuery
  import opened Analytics

  /** Report a is listed ahead of report b. */
  predicate Ahead(db: Db, a: string, b: string) {
    a in db.reports && b in db.reports &&
    var x, y := db.reports[a].receivedAt, db.reports[b].receivedAt;
    TextLess(y, x) || (x == y && TextLess(b, a))
  }

  lemma {:induction false} TextLessTransitive(a: string, b: string, c: string)
    requires TextLess(a, b) && TextLess(b, c)
    ensures TextLess(a, c)
  {
    if a != "" && a[0] == b[0] == c[0] {
      TextLessTransitive(a[1..], b[1..], c[1..]);
    }
  }

  lemma AheadIsTotal(db: Db, a: string, b: string)
    requires a in db.reports && b in db.reports
    ensures a != b ==> Ahead(db, a, b) || Ahead(db, b, a)
    ensures !(Ahead(db, a, b) && Ahead(db, b, a))
  {
    hide TextLess;
    TextTotal(a, b);
    TextTotal(db.reports[a].receivedAt, db.reports[b].receivedAt);
  }

  lemma AheadIsTransitive(db: Db, a: string, b: string, c: string)
    requires Ahead(db, a, b) && Ahead(db, b, c)
    ensures Ahead(db, a, c)
  {
    hide TextLess;
    var x, y, z := db.reports[a].receivedAt, db.reports[b].receivedAt, db.reports[c].receivedAt;
    if TextLess(y, x) && TextLess(z, y) {
      TextLessTransitive(z, y, x);
    }
    if TextLess(b, a) && TextLess(c, b) {
      TextLessTransitive(c, b, a);
    }
  }

  /** The row listed first among ids. */
  ghost function First(db: Db, ids: set<string>): (f: string)
    requires ids != {} && ids <= db.reports.Keys
    ensures f in ids && forall x :: x in ids && x != f ==> Ahead(db, f, x)
    decreases |ids|
  {
    Inhabited(ids);
    assert exists x :: x in ids;
    var a :| a in ids;
    var rest := ids - {a};
    assert forall x :: x in ids ==> x in rest || x == a;
    if rest == {} then a else
      var b := First(db, rest);
      AheadIsTotal(db, a, b);
      if Ahead(db, a, b) then
        assert forall x :: x in rest && x != b ==> Ahead(db, a, x) by {
          forall x | x in rest && x != b
            ensures Ahead(db, a, x)
          {
            AheadIsTransitive(db, a, b, x);
          }
        }
        a
      else b
  }

  ghost function Ordered(db: Db, ids: set<string>): seq<string>
    requires ids <= db.reports.Keys
    decreases |ids|
  {
    if ids == {} then [] else
      var f := First(db, ids);
      [f] + Ordered(db, ids - {f})
  }

  ghost predicate Sorted(db: Db, rows: seq<string>) {
    forall i, j :: 0 <= i < j < |rows| ==> Ahead(db, rows[i], rows[j])
  }

  ghost predicate Covers(rows: seq<string>, ids: set<string>) {
    forall x :: x in rows <==> x in ids
  }

  /** Sorted, complete and without repetition. */
  ghost predicate IsListing(db: Db, ids: set<string>, rows: seq<string>) {
    |rows| == |ids| && Covers(rows, ids) && Sorted(db, rows)
  }

  lemma PutFirst(db: Db, ids: set<string>, f: string, rest: seq<string>)
    requires f in ids && (forall x :: x in ids && x != f ==> Ahead(db, f, x))
    requires IsListing(db, ids - {f}, rest)
    ensures IsListing(db, ids, [f] + rest)
  {
    hide Ahead;
    var rows := [f] + rest;
    assert forall x :: x in rows <==> x == f || x in rest;
    forall i, j | 0 <= i < j < |rows|
      ensures Ahead(db, rows[i], rows[j])
    {
      assert rows[j] == rest[j - 1];
      if i == 0 {
        assert rest[j - 1] in rest;
      } else {
        assert rows[i] == rest[i - 1];
      }
    }
  }

  lemma {:induction false} OrderedIsListing(db: Db, ids: set<string>)
    requires ids <= db.reports.Keys
    ensures IsListing(db, ids, Ordered(db, ids))
    decreases |ids|
  {
    hide Ahead, IsListing;
    if ids == {} {
      NothingIsListed(db);
    } else {
      var f := First(db, ids);
      OrderedIsListing(db, ids - {f});
      PutFirst(db, ids, f, Ordered(db, ids - {f}));
    }
  }

  lemma NothingIsListed(db: Db)
    ensures IsListing(db, {}, [])
  {}

  lemma NoRepeat(db: Db, rows: seq<string>)
    requires Sorted(db, rows)
    ensures forall i, j :: 0 <= i < j < |rows| ==> rows[i] != rows[j]
  {
    hide Ahead;
    forall i, j | 0 <= i < j < |rows|
      ensures rows[i] != rows[j]
    {
      AheadInReports(db, rows[i], rows[j]);
    }
  }

  lemma AheadInReports(db: Db, a: string, b: string)
    requires Ahead(db, a, b)
    ensures a != b
  {
    hide TextLess;
    TextTotal(a, a);
    TextTotal(db.reports[a].receivedAt, db.reports[a].receivedAt);
  }

  lemma FirstIsFirst(db: Db, ids: set<string>, rows: seq<string>)
    requires ids != {} && ids <= db.reports.Keys && IsListing(db, ids, rows)
    ensures rows != [] && rows[0] == First(db, ids)
  {
    hide Ahead;
    var f := First(db, ids);
    assert f in rows;
    var k :| 0 <= k < |rows| && rows[k] == f;
    assert rows[0] in rows;
    if k > 0 {
      AheadIsTotal(db, rows[0], f);
    }
  }

  lemma DropFirst(db: Db, ids: set<string>, rows: seq<string>)
    requires rows != [] && IsListing(db, ids, rows)
    ensures IsListing(db, ids - {rows[0]}, rows[1..])
  {
    hide Ahead;
    var rest := rows[1..];
    NoRepeat(db, rows);
    assert forall k :: 0 <= k < |rest| ==> rest[k] == rows[k + 1];
    hide Sorted;
    assert rows == [rows[0]] + rest;
    assert forall x :: x in rows <==> x == rows[0] || x in rest;
    assert rows[0] !in rest;
  }

  /** The order leaves no choice: there is only one listing. */
  lemma {:induction false} ListingIsUnique(db: Db, ids: set<string>, rows: seq<string>)
    requires ids <= db.reports.Keys && IsListing(db, ids, rows)
    ensures rows == Ordered(db, ids)
    decreases |ids|
  {
    hide Ahead, Covers, Sorted, IsListing, Ordered;
    ListingLength(db, ids, rows);
    OrderedStep(db, ids);
    if ids != {} {
      FirstIsFirst(db, ids, rows);
      DropFirst(db, ids, rows);
      var rest := rows[1..];
      ListingIsUnique(db, ids - {rows[0]}, rest);
      assert rows == [rows[0]] + rest;
    }
  }

  lemma OrderedStep(db: Db, ids: set<string>)
    requires ids <= db.reports.Keys
    ensures Ordered(db, ids) == if ids == {} then [] else [First(db, ids)] + Ordered(db, ids - {First(db, ids)})
  {}

  /** Earlier rows were received no earlier in time; rows of the same second go by id. */
  lemma NewestFirst(db: Db, ids: set<string>, rows: seq<string>, i: nat, j: nat)
    requires Inv(db) && IsListing(db, ids, rows) && i < j < |rows|
    ensures rows[i] in db.reports && rows[j] in db.reports
    ensures var t, u := ParseTime(db.reports[rows[i]].receivedAt), ParseTime(db.reports[rows[j]].receivedAt);
            t >= u && (t == u ==> TextLess(rows[j], rows[i]))
  {
    hide FmtTime, ParseTime, TextLess, FloorSecond, Covers;
    assert Ahead(db, rows[i], rows[j]);
    var x, y := db.reports[rows[i]].receivedAt, db.reports[rows[j]].receivedAt;
    assert IsStamp(x) && IsStamp(y);
    var t: Instant :| x == FmtTime(t);
    var u: Instant :| y == FmtTime(u);
    StoredTimeReadsBack(t);
    StoredTimeReadsBack(u);
    TextOrderIsTimeOrder(u, t);
  }

  /** The rows of one issue within one app. */
  function IssueReports(db: Db, app: int, issue: int): (ids: set<string>)
    ensures ids <= db.reports.Keys
  {
    set id | id in db.reports && db.reports[id].appId == app && db.reports[id].issueId == issue
  }

  /** One page of an issue's reports, and their total. */
  ghost function ListIssueReports(db: Db, app: int, issue: int, page: int, perPage: int): (seq<string>, nat) {
    var ids := IssueReports(db, app, issue);
    (Page(Ordered(db, ids), ClampPage(page), ClampPerPage(perPage)), |ids|)
  }

  /** Pages 1..n as a visitor going through them sees them. */
  ghost function Browse(db: Db, app: int, issue: int, n: nat, perPage: int): seq<string> {
    if n == 0 then [] else
      Browse(db, app, issue, n - 1, perPage) + ListIssueReports(db, app, issue, n, perPage).0
  }

  /** How many pages of reports an issue has. */
  ghost function LastPage(db: Db, app: int, issue: int, perPage: int): nat {
    PageCount(ListIssueReports(db, app, issue, 1, perPage).1, ClampPerPage(perPage))
  }

  /** Everything the pages of an issue show, first to last. */
  ghost function AllPages(db: Db, app: int, issue: int, perPage: int): seq<string> {
    Browse(db, app, issue, LastPage(db, app, issue, perPage), perPage)
  }

  /** Going through the pages shows exactly the reports stored for that issue and that app, each
      once, newest first, for any page size, as many as every page's total says; the page after the
      last is empty. */
  lemma BrowsingShowsEachReportOnce(db: Db, app: int, issue: int, page: int, perPage: int)
    ensures var rows := AllPages(db, app, issue, perPage);
            (forall id :: id in rows <==> id in db.reports && db.reports[id].appId == app && db.reports[id].issueId == issue) &&
            (forall i, j :: 0 <= i < j < |rows| ==> rows[i] != rows[j]) &&
            Sorted(db, rows) &&
            ListIssueReports(db, app, issue, page, perPage).1 == |rows| &&
            ListIssueReports(db, app, issue, LastPage(db, app, issue, perPage) + 1, perPage).0 == []
  {
    hide Ahead, Sorted, Browse, IsListing;
    BrowsingIsListing(db, app, issue, perPage);
    IsListingMeans(db, IssueReports(db, app, issue), AllPages(db, app, issue, perPage));
    NoRepeat(db, AllPages(db, app, issue, perPage));
  }

  lemma IsListingMeans(db: Db, ids: set<string>, rows: seq<string>)
    requires IsListing(db, ids, rows)
    ensures |rows| == |ids| && Sorted(db, rows) && forall x :: x in rows <==> x in ids
  {
    hide Sorted;
  }

  /** In every sound state, what the pages of an issue total is the report count the app's
      unfiltered issue list shows beside it, none when it is not listed; and each report of the app
      is on the pages of exactly one issue, one of the app's own. */
  lemma PagesAgreeWithList(db: Db, app: int, issue: int, perPage: int, cs: seq<Clause>, args: seq<Arg>)
    requires Inv(db) && app != 0 && |args| == AllHoles(cs)
    requires forall row :: Eval(cs, args, row) <==> Wanted(OneApp(app), row)
    ensures var counts := ListIssues(db, cs, args).counts;
            |AllPages(db, app, issue, perPage)| == if issue in counts then counts[issue] else 0
    ensures forall id :: id in db.reports && db.reports[id].appId == app ==>
              OwnsIssue(db, app, db.reports[id].issueId) &&
              forall i :: id in AllPages(db, app, i, perPage) <==> i == db.reports[id].issueId
  {
    hide Eval, Wanted, ListIssues, WantedReports, AllPages, Sorted, IsStamp, AppsOk, IssuesOk, Ordered;
    ListIsWanted(db, OneApp(app), cs, args);
    BrowsingShowsEachReportOnce(db, app, issue, 1, perPage);
    ShownIsWanted(db, app, issue);
    forall id | id in db.reports && db.reports[id].appId == app
      ensures OwnsIssue(db, app, db.reports[id].issueId)
      ensures forall i :: id in AllPages(db, app, i, perPage) <==> i == db.reports[id].issueId
    {
      assert Filed(db, db.reports[id]);
      forall i
        ensures id in AllPages(db, app, i, perPage) <==> i == db.reports[id].issueId
      {
        BrowsingShowsEachReportOnce(db, app, i, 1, perPage);
      }
    }
  }

  lemma ShownIsWanted(db: Db, app: int, issue: int)
    requires Inv(db) && app != 0
    ensures issue in WantedIssues(db, OneApp(app)) ==> IssueReports(db, app, issue) == WantedReports(db, OneApp(app), issue)
    ensures issue !in WantedIssues(db, OneApp(app)) ==> |IssueReports(db, app, issue)| == 0
  {
    hide Wanted, IsStamp, WantedReports;
    assert forall id :: id in db.reports ==> Filed(db, db.reports[id]);
    if issue in db.issues {
      OneAppReports(db, app, issue);
    }
    if issue in WantedIssues(db, OneApp(app)) {
      assert IssueReports(db, app, issue) == WantedReports(db, OneApp(app), issue);
    } else {
      assert IssueReports(db, app, issue) == {};
    }
  }

  lemma BrowsingIsListing(db: Db, app: int, issue: int, perPage: int)
    ensures var ids := IssueReports(db, app, issue);
            var pages := PageCount(|ids|, ClampPerPage(perPage));
            IsListing(db, ids, Browse(db, app, issue, pages, perPage)) &&
            ListIssueReports(db, app, issue, pages + 1, perPage).0 == []
  {
    hide IsListing;
    var ids := IssueReports(db, app, issue);
    var rows, per := Ordered(db, ids), ClampPerPage(perPage);
    var pages := PageCount(|ids|, per);
    OrderedIsListing(db, ids);
    ListingLength(db, ids, rows);
    BrowseIsPages(db, app, issue, pages, perPage);
    PagesPartition(rows, per);
    PageHasRows(rows, pages + 1, per);
  }

  /** Every page number linked below an issue's reports leads to reports whenever it has any,
      whatever page the visitor asked for. */
  lemma LinkedReportPagesHaveRows(db: Db, app: int, issue: int, perPage: nat, page: nat, linked: int)
    requires 1 <= perPage <= 100 && page >= 1 && linked != 0
    requires linked in PageNums(ListIssueReports(db, app, issue, page, perPage).1, perPage, page)
    ensures ListIssueReports(db, app, issue, linked, perPage).0 != [] <==>
            ListIssueReports(db, app, issue, page, perPage).1 > 0
  {
    hide PageNums, Page, IsListing;
    var ids := IssueReports(db, app, issue);
    var rows := Ordered(db, ids);
    OrderedIsListing(db, ids);
    ListingLength(db, ids, rows);
    LinkedPagesHaveRows(rows, perPage, page, linked);
  }

  lemma ListingLength(db: Db, ids: set<string>, rows: seq<string>)
    requires IsListing(db, ids, rows)
    ensures |rows| == |ids|
  {}

  lemma {:induction false} BrowseIsPages(db: Db, app: int, issue: int, n: nat, perPage: int)
    ensures Browse(db, app, issue, n, perPage) ==
            Pages(Ordered(db, IssueReports(db, app, issue)), n, ClampPerPage(perPage))
  {
    if n > 0 {
      BrowseIsPages(db, app, issue, n - 1, perPage);
    }
  }
}
