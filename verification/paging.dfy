/** Page numbers with gaps, and the pages they link to. */
module Paging {

  // ---------- the numbers shown ----------

  function Min(a: int, b: int): int {
    if a < b then a else b
  }

  function Max(a: int, b: int): int {
    if a > b then a else b
  }

  /** ceil(total / perPage), at least 1 */
  function PageCount(total: nat, perPage: nat): (n: nat)
    requires perPage >= 1
    ensures n >= 1
  {
    Max(1, (total + perPage - 1) / perPage)
  }

  /** The pages spelled out: the ends and two on either side of the current one. */
  predicate Shows(pages: int, page: int, i: int) {
    1 <= i <= pages && (i == 1 || i == pages || page - 2 <= i <= page + 2)
  }

  function Range(a: int, b: int): (s: seq<int>)
    ensures |s| == if a <= b then b - a else 0
    ensures forall k :: 0 <= k < |s| ==> s[k] == a + k
    decreases b - a
  {
    if a >= b then [] else Range(a, b - 1) + [b - 1]
  }

  function EveryPage(pages: int): seq<int> {
    Range(1, pages + 1)
  }

  /** What has been collected after the pages 1..i: each page shown, one zero for each stretch
      that is not. */
  function Collected(pages: int, page: int, i: nat): seq<int> {
    if i == 0 then [] else
      var out := Collected(pages, page, i - 1);
      if Shows(pages, page, i) then out + [i]
      else if |out| == 0 || out[|out| - 1] != 0 then out + [0]
      else out
  }

  function PageNums(total: nat, perPage: nat, page: nat): seq<int>
    requires perPage >= 1
  {
    var pages := PageCount(total, perPage);
    if pages <= 9 then EveryPage(pages) else Collected(pages, Min(page, pages), pages)
  }

  method PageNumbers(total: nat, perPage: nat, page: nat) returns (out: seq<int>)
    requires perPage >= 1 && page >= 1
    ensures out == PageNums(total, perPage, page)
  {
    var pages := (total + perPage - 1) / perPage;
    if pages < 1 {
      pages := 1;
    }
    var current := page;
    if current > pages {
      current := pages;
    }
    out := [];
    if pages <= 9 {
      for i := 1 to pages + 1
        invariant out == Range(1, i)
      {
        out := out + [i];
      }
      return;
    }
    var shown := map[1 := true, pages := true];
    for i := current - 2 to current + 3
      invariant forall k :: k in shown ==> 1 <= k <= pages
      invariant forall k :: 1 <= k <= pages ==>
                              (k in shown <==> k == 1 || k == pages || current - 2 <= k < i)
    {
      if 1 <= i <= pages {
        shown := shown[i := true];
      }
    }
    for i := 1 to pages + 1
      invariant out == Collected(pages, current, i - 1)
    {
      if i !in shown {
        if |out| == 0 || out[|out| - 1] != 0 {
          out := out + [0];
        }
        continue;
      }
      out := out + [i];
    }
  }

  // ---------- what the list promises ----------

  ghost predicate Increasing(s: seq<int>) {
    forall j, k :: 0 <= j < k < |s| && s[j] != 0 && s[k] != 0 ==> s[j] < s[k]
  }

  /** Pages listed side by side are consecutive, and gaps never are. */
  ghost predicate NothingSkipped(s: seq<int>) {
    forall j, k :: 0 <= j < k < |s| && k == j + 1 ==>
      (s[j] != 0 || s[k] != 0) && (s[j] != 0 && s[k] != 0 ==> s[k] == s[j] + 1)
  }

  /** A zero stands between two pages that have others between them. */
  ghost predicate GapsHonest(s: seq<int>) {
    forall j, m, k :: 0 <= j < m < k < |s| && m == j + 1 && k == j + 2 && s[m] == 0 ==> s[j] + 1 < s[k]
  }

  ghost predicate ListsOnly(s: seq<int>, pages: int, page: int, i: int) {
    forall k :: 0 <= k < |s| && s[k] != 0 ==> s[k] <= i && Shows(pages, page, s[k])
  }

  ghost predicate ListsAll(s: seq<int>, pages: int, page: int, i: int) {
    forall j :: j <= i && Shows(pages, page, j) ==> j in s
  }

  /** The last entry is page i, or a zero that covers it. */
  predicate EndsAt(s: seq<int>, i: int) {
    s != [] &&
    var last := s[|s| - 1];
    if last != 0 then last == i else |s| >= 2 && s[|s| - 2] != 0 && s[|s| - 2] < i
  }

  function LengthBound(pages: int, page: int, i: int): int {
    var lo, hi := Max(2, page - 2), Min(pages - 1, page + 2);
    if i < lo then Min(i, 2)
    else if i <= hi then i - lo + 3
    else hi - lo + 4 + if i == pages then 1 else 0
  }

  ghost predicate Sound(s: seq<int>, pages: int, page: int, i: int) {
    EndsAt(s, i) && s[0] == 1 && Increasing(s) && NothingSkipped(s) && GapsHonest(s) &&
    ListsOnly(s, pages, page, i) && ListsAll(s, pages, page, i) && |s| <= LengthBound(pages, page, i)
  }

  lemma SnocIncreasing(s: seq<int>, x: int)
    requires Increasing(s) && (x != 0 ==> forall k :: 0 <= k < |s| && s[k] != 0 ==> s[k] < x)
    ensures Increasing(s + [x])
  {
    assert forall k :: 0 <= k < |s| ==> (s + [x])[k] == s[k];
  }

  lemma SnocNothingSkipped(s: seq<int>, x: int)
    requires NothingSkipped(s) && s != []
    requires var last := s[|s| - 1]; (last != 0 || x != 0) && (last != 0 && x != 0 ==> x == last + 1)
    ensures NothingSkipped(s + [x])
  {
    assert forall k :: 0 <= k < |s| ==> (s + [x])[k] == s[k];
  }

  lemma SnocGapsHonest(s: seq<int>, x: int)
    requires GapsHonest(s) && (|s| >= 2 && s[|s| - 1] == 0 ==> s[|s| - 2] + 1 < x)
    ensures GapsHonest(s + [x])
  {
    assert forall k :: 0 <= k < |s| ==> (s + [x])[k] == s[k];
  }

  lemma SnocLists(s: seq<int>, x: int, pages: int, page: int, i: int)
    requires ListsOnly(s, pages, page, i - 1) && ListsAll(s, pages, page, i - 1)
    requires if Shows(pages, page, i) then x == i else x == 0
    ensures ListsOnly(s + [x], pages, page, i) && ListsAll(s + [x], pages, page, i)
  {
    var t := s + [x];
    assert forall k :: 0 <= k < |s| ==> t[k] == s[k];
    assert t[|s|] == x;
    forall j | j <= i && Shows(pages, page, j)
      ensures j in t
    {
      if j < i {
        assert j in s;
      }
    }
  }

  lemma ShownStep(s: seq<int>, pages: int, page: int, i: int)
    requires pages > 9 && 1 <= page <= pages && 1 < i <= pages
    requires Sound(s, pages, page, i - 1) && Shows(pages, page, i)
    ensures Sound(s + [i], pages, page, i)
  {
    SnocLists(s, i, pages, page, i);
    LengthStep(s, pages, page, i);
    assert forall k :: 0 <= k < |s| && s[k] != 0 ==> s[k] < i;
    hide Increasing, NothingSkipped, GapsHonest, ListsOnly, ListsAll, LengthBound, Shows;
    SnocIncreasing(s, i);
    SnocNothingSkipped(s, i);
    SnocGapsHonest(s, i);
  }

  /** Two pages shown around one that is not lie on its two sides of the block. */
  lemma LengthStep(s: seq<int>, pages: int, page: int, i: int)
    requires pages > 9 && 1 <= page <= pages && 1 < i <= pages
    requires Sound(s, pages, page, i - 1) && Shows(pages, page, i)
    ensures |s| + 1 <= LengthBound(pages, page, i)
  {
    hide Increasing, NothingSkipped, GapsHonest, ListsOnly, ListsAll;
  }

  lemma HiddenStep(s: seq<int>, pages: int, page: int, i: int)
    requires pages > 9 && 1 <= page <= pages && 1 < i < pages
    requires Sound(s, pages, page, i - 1) && !Shows(pages, page, i) && s[|s| - 1] != 0
    ensures Sound(s + [0], pages, page, i)
  {
    SnocLists(s, 0, pages, page, i);
    HiddenLength(s, pages, page, i);
    hide Increasing, NothingSkipped, GapsHonest, ListsOnly, ListsAll, LengthBound, Shows;
    SnocIncreasing(s, 0);
    SnocNothingSkipped(s, 0);
    SnocGapsHonest(s, 0);
  }

  lemma HiddenLength(s: seq<int>, pages: int, page: int, i: int)
    requires pages > 9 && 1 <= page <= pages && 1 < i < pages
    requires Sound(s, pages, page, i - 1) && !Shows(pages, page, i) && s[|s| - 1] != 0
    ensures |s| + 1 <= LengthBound(pages, page, i)
  {
    hide Increasing, NothingSkipped, GapsHonest, ListsAll;
    assert Shows(pages, page, s[|s| - 1]);
  }

  lemma {:induction false} CollectedIsSound(pages: int, page: int, i: nat)
    requires pages > 9 && 1 <= page <= pages && 1 <= i <= pages
    ensures Sound(Collected(pages, page, i), pages, page, i)
  {
    if i == 1 {
      assert Collected(pages, page, 0) == [];
    } else {
      CollectedIsSound(pages, page, i - 1);
      hide LengthBound;
      var s := Collected(pages, page, i - 1);
      if Shows(pages, page, i) {
        ShownStep(s, pages, page, i);
      } else if s[|s| - 1] != 0 {
        HiddenStep(s, pages, page, i);
      } else {
        StillHidden(s, pages, page, i);
      }
    }
  }

  lemma StillHidden(s: seq<int>, pages: int, page: int, i: int)
    requires pages > 9 && 1 <= page <= pages && 1 < i < pages
    requires Sound(s, pages, page, i - 1) && !Shows(pages, page, i) && s[|s| - 1] == 0
    ensures Sound(s, pages, page, i)
  {}

  /** For every total, page size and page: at most nine entries, from 1 to the last page, pages
      strictly increasing with nothing skipped silently, every zero an honest gap, and each
      existing page within two of the clamped current one present. */
  lemma PageNumsLaws(total: nat, perPage: nat, page: nat)
    requires perPage >= 1 && page >= 1
    ensures var s, pages := PageNums(total, perPage, page), PageCount(total, perPage);
            1 <= |s| <= 9 && s[0] == 1 && s[|s| - 1] == pages &&
            Increasing(s) && NothingSkipped(s) && GapsHonest(s)
    ensures forall i :: i in PageNums(total, perPage, page) && i != 0 ==> 1 <= i <= PageCount(total, perPage)
    ensures forall i :: 1 <= i <= PageCount(total, perPage) && Near(i, Min(page, PageCount(total, perPage))) ==>
              i in PageNums(total, perPage, page)
  {
    var s, pages := PageNums(total, perPage, page), PageCount(total, perPage);
    if pages <= 9 {
      EveryPageLaws(pages);
    } else {
      hide Collected, GapsHonest, Increasing, NothingSkipped;
      CollectedIsSound(pages, Min(page, pages), pages);
      LastIsPages(s, pages, Min(page, pages));
    }
  }

  lemma EveryPageLaws(pages: int)
    requires pages >= 1
    ensures var s := EveryPage(pages);
            |s| == pages && s[0] == 1 && s[|s| - 1] == pages && Increasing(s) && NothingSkipped(s) && GapsHonest(s)
    ensures forall i :: i in EveryPage(pages) <==> 1 <= i <= pages
  {
    var s := EveryPage(pages);
    forall i | 1 <= i <= pages
      ensures i in s
    {
      assert s[i - 1] == i;
    }
  }

  predicate Near(i: int, page: int) {
    page - 2 <= i <= page + 2
  }

  lemma LastIsPages(s: seq<int>, pages: int, page: int)
    requires pages > 9 && 1 <= page <= pages && Sound(s, pages, page, pages)
    ensures s[|s| - 1] == pages && GapsHonest(s)
  {
    assert Shows(pages, page, pages);
    assert pages in s;
  }

  // ---------- LIMIT and OFFSET ----------

  function ClampPerPage(perPage: int): (n: nat)
    ensures 1 <= n <= 100 && (1 <= perPage <= 100 ==> n == perPage)
    ensures (perPage < 1 ==> n == 25) && (perPage > 100 ==> n == 100)
  {
    if perPage < 1 then 25 else if perPage > 100 then 100 else perPage
  }

  function ClampPage(page: int): (n: nat)
    ensures n >= 1 && (page >= 1 ==> n == page) && (page < 1 ==> n == 1)
  {
    if page < 1 then 1 else page
  }

  function Limit<T>(rows: seq<T>, limit: nat, offset: nat): seq<T> {
    if offset >= |rows| then [] else rows[offset..Min(offset + limit, |rows|)]
  }

  /** One page of rows. */
  function Page<T>(rows: seq<T>, page: nat, perPage: nat): seq<T>
    requires page >= 1
  {
    Limit(rows, perPage, (page - 1) * perPage)
  }

  /** Pages 1..n one after another. */
  function Pages<T>(rows: seq<T>, n: nat, perPage: nat): seq<T> {
    if n == 0 then [] else Pages(rows, n - 1, perPage) + Page(rows, n, perPage)
  }

  lemma {:induction false} PagesArePrefix<T>(rows: seq<T>, n: nat, perPage: nat)
    ensures Pages(rows, n, perPage) == rows[..Min(n * perPage, |rows|)]
  {
    if n > 0 {
      PagesArePrefix(rows, n - 1, perPage);
      var a := (n - 1) * perPage;
      assert n * perPage == a + perPage;
      PrefixGrows(rows, a, perPage);
    }
  }

  lemma PrefixGrows<T>(rows: seq<T>, a: nat, n: nat)
    ensures rows[..Min(a, |rows|)] + Limit(rows, n, a) == rows[..Min(a + n, |rows|)]
  {}

  lemma PageCountCovers(total: nat, perPage: nat)
    requires perPage >= 1
    ensures PageCount(total, perPage) * perPage >= total
    ensures total > 0 ==> (PageCount(total, perPage) - 1) * perPage < total
  {
    var a := total + perPage - 1;
    var q := a / perPage;
    assert a == q * perPage + a % perPage;
    if total > 0 {
      assert q >= 1;
    }
  }

  /** The pages up to the last one, put together, are all rows in order, each once. */
  lemma PagesPartition<T>(rows: seq<T>, perPage: nat)
    requires perPage >= 1
    ensures Pages(rows, PageCount(|rows|, perPage), perPage) == rows
  {
    PagesArePrefix(rows, PageCount(|rows|, perPage), perPage);
    PageCountCovers(|rows|, perPage);
  }

  /** Every page before the last is full, and none holds more. */
  lemma PagesAreFull<T>(rows: seq<T>, page: nat, perPage: nat)
    requires perPage >= 1 && page >= 1
    ensures |Page(rows, page, perPage)| <= perPage
    ensures page < PageCount(|rows|, perPage) ==> |Page(rows, page, perPage)| == perPage
  {
    PageCountCovers(|rows|, perPage);
    var pages := PageCount(|rows|, perPage);
    hide PageCount;
    assert page * perPage == (page - 1) * perPage + perPage;
    if page < pages {
      ProductMonotone(page, pages - 1, perPage);
      SomeRows(|rows|, page, perPage);
    }
  }

  lemma SomeRows(total: nat, page: nat, perPage: nat)
    requires perPage >= 1 && 1 <= page < PageCount(total, perPage)
    ensures total > 0
  {}

  /** A page has rows exactly when it is numbered up to the page count and there is any row. */
  lemma PageHasRows<T>(rows: seq<T>, page: nat, perPage: nat)
    requires perPage >= 1 && page >= 1
    ensures Page(rows, page, perPage) != [] <==> rows != [] && page <= PageCount(|rows|, perPage)
  {
    PageCountCovers(|rows|, perPage);
    var pages := PageCount(|rows|, perPage);
    if page <= pages {
      ProductMonotone(page - 1, pages - 1, perPage);
    } else {
      ProductMonotone(pages, page - 1, perPage);
    }
  }

  lemma ProductMonotone(a: int, b: int, n: nat)
    requires a <= b
    ensures a * n <= b * n
  {
    assert (b - a) * n >= 0;
  }

  /** At one shared page size, every page number that is linked leads to rows, whatever page the
      visitor asked for; and the page after the last linked one is empty. */
  lemma LinkedPagesHaveRows<T>(rows: seq<T>, perPage: nat, page: nat, linked: int)
    requires perPage >= 1 && page >= 1 && linked != 0
    requires linked in PageNums(|rows|, perPage, page)
    ensures linked >= 1 && (Page(rows, linked, perPage) != [] <==> rows != [])
    ensures Page(rows, PageCount(|rows|, perPage) + 1, perPage) == []
  {
    hide PageNums, PageCount, Page, Increasing, NothingSkipped, GapsHonest;
    PageNumsLaws(|rows|, perPage, page);
    PageHasRows(rows, linked, perPage);
    PageHasRows(rows, PageCount(|rows|, perPage) + 1, perPage);
  }
}
