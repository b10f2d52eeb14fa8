/** The page arithmetic the list endpoints share: `skip = (page - 1) * limit`,
    `totalPages = Math.ceil(total / limit)` and the next/previous flags, in the
    two spellings the controllers use. */
module Paging {
  import opened Collections

  /** `Math.ceil(n / d)` for a positive divisor. */
  function CeilDiv(n: nat, d: nat): (r: nat)
    requires d > 0
    ensures r * d >= n
    ensures r > 0 ==> (r - 1) * d < n
  {
    (n + d - 1) / d
  }

  /** The number of documents passed over before a page. */
  function Skip(page: nat, limit: nat): (r: nat)
    requires page >= 1
    ensures page == 1 ==> r == 0
  {
    (page - 1) * limit
  }

  datatype PageInfo = PageInfo(currentPage: nat, totalPages: nat, total: nat, hasNext: bool, hasPrev: bool)

  /** The tweet and community controllers: `hasNextPage = page * limit < total`. */
  function CountPageInfo(page: nat, limit: nat, total: nat): (p: PageInfo)
    requires page >= 1 && limit >= 1
    ensures p.totalPages == CeilDiv(total, limit) && p.total == total && p.currentPage == page
    ensures p.hasPrev <==> page > 1
  {
    PageInfo(page, CeilDiv(total, limit), total, page * limit < total, page > 1)
  }

  /** The retweet controller: `hasNext = pageNum < totalPages`. */
  function PagesPageInfo(page: nat, limit: nat, total: nat): (p: PageInfo)
    requires page >= 1 && limit >= 1
    ensures p.totalPages == CeilDiv(total, limit) && p.total == total && p.currentPage == page
    ensures p.hasPrev <==> page > 1
  {
    var pages := CeilDiv(total, limit);
    PageInfo(page, pages, total, page < pages, page > 1)
  }

  /** The two spellings of `hasNext` agree: a later page exists exactly when
      the documents go on past this one. */
  lemma {:induction false} PageInfoStylesAgree(page: nat, limit: nat, total: nat)
    requires page >= 1 && limit >= 1
    ensures CountPageInfo(page, limit, total) == PagesPageInfo(page, limit, total)
  {
    var pages := CeilDiv(total, limit);
    if page < pages {
      assert page <= pages - 1;
      assert page * limit <= (pages - 1) * limit by {
        MulMono(page, pages - 1, limit);
      }
    } else {
      assert pages * limit <= page * limit by {
        MulMono(pages, page, limit);
      }
    }
  }

  lemma MulMono(a: nat, b: nat, k: nat)
    requires a <= b
    ensures a * k <= b * k
  {
  }

  /** `$skip` then `$limit` on an ordered list of documents. */
  function PageSlice<T>(s: seq<T>, page: nat, limit: nat): (r: seq<T>)
    requires page >= 1 && limit >= 1
    ensures |r| <= limit
    ensures Skip(page, limit) < |s| ==> |r| > 0
    ensures |r| == 0 || Skip(page, limit) + |r| <= |s|
    ensures |r| < limit ==> Skip(page, limit) + |r| >= |s|
    ensures forall i :: 0 <= i < |r| ==> r[i] == s[Skip(page, limit) + i]
  {
    var from := Skip(page, limit);
    if from >= |s| then []
    else if from + limit >= |s| then s[from..]
    else s[from..from + limit]
  }

  /** The flag matches the data: there is a next page exactly when documents
      remain after the ones this page returns. */
  lemma {:induction false} HasNextIffMoreRemain<T>(s: seq<T>, page: nat, limit: nat)
    requires page >= 1 && limit >= 1
    ensures CountPageInfo(page, limit, |s|).hasNext <==> Skip(page, limit) + |PageSlice(s, page, limit)| < |s|
  {
    var from := Skip(page, limit);
    assert from + limit == page * limit;
  }

  /** Pages do not overlap and leave no gap: page n + 1 starts where page n
      stops when page n is full. */
  lemma {:induction false} PagesTile<T>(s: seq<T>, page: nat, limit: nat)
    requires page >= 1 && limit >= 1
    requires |PageSlice(s, page, limit)| == limit
    ensures Skip(page + 1, limit) == Skip(page, limit) + |PageSlice(s, page, limit)|
  {
    assert Skip(page + 1, limit) == page * limit;
  }

  /** The page that holds position j: the one whose documents start at or
      before j and stop after it. */
  function PageOf(j: nat, limit: nat): (page: nat)
    requires limit >= 1
    ensures page >= 1
    ensures Skip(page, limit) <= j < Skip(page, limit) + limit
  {
    var q := j / limit;
    assert q * limit + j % limit == j;
    assert (q + 1) * limit == q * limit + limit;
    q + 1
  }

  /** Every element is reached: the element at position j is on the page
      `PageOf(j, limit)`. */
  lemma EveryElementOnItsPage<T>(s: seq<T>, j: nat, limit: nat)
    requires j < |s| && limit >= 1
    ensures j - Skip(PageOf(j, limit), limit) < |PageSlice(s, PageOf(j, limit), limit)|
    ensures PageSlice(s, PageOf(j, limit), limit)[j - Skip(PageOf(j, limit), limit)] == s[j]
    ensures s[j] in PageSlice(s, PageOf(j, limit), limit)
  {
  }

  /** Every element of a list is on some page. */
  lemma OnSomePage<T>(s: seq<T>, x: T, limit: nat) returns (page: nat)
    requires x in s && limit >= 1
    ensures page >= 1 && x in PageSlice(s, page, limit)
  {
    var j :| 0 <= j < |s| && s[j] == x;
    EveryElementOnItsPage(s, j, limit);
    page := PageOf(j, limit);
  }

  /** A page of a sorted list is sorted and holds elements of the list. */
  lemma PageSliceSorted<T(!new)>(s: seq<T>, page: nat, limit: nat, le: (T, T) -> bool)
    requires page >= 1 && limit >= 1
    requires SortedBy(s, le)
    ensures SortedBy(PageSlice(s, page, limit), le)
    ensures forall x :: x in PageSlice(s, page, limit) ==> x in s
  {
    var slice := PageSlice(s, page, limit);
    forall i, j | 0 <= i < j < |slice| ensures le(slice[i], slice[j]) {
      assert slice[i] == s[Skip(page, limit) + i] && slice[j] == s[Skip(page, limit) + j];
    }
    forall x | x in slice ensures x in s {
      var k :| 0 <= k < |slice| && slice[k] == x;
      assert x == s[Skip(page, limit) + k];
    }
  }

  /** What holds of every element holds of every element of a page. */
  lemma PageSliceAll<T>(s: seq<T>, page: nat, limit: nat, p: T -> bool)
    requires page >= 1 && limit >= 1
    requires forall i :: 0 <= i < |s| ==> p(s[i])
    ensures forall i :: 0 <= i < |PageSlice(s, page, limit)| ==> p(PageSlice(s, page, limit)[i])
  {
  }
}
