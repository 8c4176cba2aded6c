/** The two list handlers, `getApproveLists` and `getApproveListsByUserId`:
    the `where` filter built from the query, counting, newest-first ordering
    and the page window. */
module Listing {
  import opened Outcomes
  import opened Records
  import opened Text
  import opened Selection
  import opened Ordering
  import opened Pagination

  /** The query string of `GET /api/approve-lists`, with `page` and `size`
      already read as integers and the two id filters already read as the
      integer column values they are compared with. */
  datatype ListQuery = ListQuery(
    page: Option<int>,
    size: Option<int>,
    userId: Option<string>,
    statusApproveId: Option<int>,
    configId: Option<int>,
    search: Option<string>)

  /** The `where` object handed to the store: each present member is one
      condition, and `search` stands for the three-way `OR` of `contains`
      conditions on title, detail and url. */
  datatype Where = Where(
    userId: Option<Id>,
    statusApproveId: Option<int>,
    configId: Option<int>,
    search: Option<string>)

  /** The `where` object the handler builds: a member is set only when its
      query parameter is truthy. */
  function BuildWhere(q: ListQuery): Where {
    Where(
      if TruthyParam(q.userId) then q.userId else None,
      q.statusApproveId,
      q.configId,
      if TruthyParam(q.search) then q.search else None)
  }

  /** How the store evaluates a `where` object against one row: all present
      conditions must hold. */
  predicate Satisfies(r: ApproveList, w: Where) {
    && (w.userId.Some? ==> r.userId == w.userId)
    && (w.statusApproveId.Some? ==> r.statusApproveId == w.statusApproveId)
    && (w.configId.Some? ==> r.configId == w.configId)
    && (w.search.Some? ==>
          || Contains(r.title, w.search.value)
          || Contains(r.detail, w.search.value)
          || Contains(r.url, w.search.value))
  }

  /** The filter the list endpoint promises, stated on the query alone:
      each supplied parameter must agree with the row, and a supplied search
      term must occur in the title, the detail or the url. */
  ghost predicate MatchesQuery(r: ApproveList, q: ListQuery) {
    && (TruthyParam(q.userId) ==> r.userId == Some(q.userId.value))
    && (q.statusApproveId.Some? ==> r.statusApproveId == Some(q.statusApproveId.value))
    && (q.configId.Some? ==> r.configId == Some(q.configId.value))
    && (TruthyParam(q.search) ==>
          || Occurs(r.title, q.search.value)
          || Occurs(r.detail, q.search.value)
          || Occurs(r.url, q.search.value))
  }

  /** The built filter accepts a row exactly when the row matches the query. */
  lemma FilterMeaning(r: ApproveList, q: ListQuery)
    ensures Satisfies(r, BuildWhere(q)) <==> MatchesQuery(r, q)
  {
  }

  /** A query with no filter parameters keeps every row. */
  lemma NoParametersNoConstraint(r: ApproveList, page: Option<int>, size: Option<int>)
    ensures Satisfies(r, BuildWhere(ListQuery(page, size, None, None, None, None)))
  {
  }

  /** An empty `userId` is falsy and filters nothing, whatever the other
      parameters are. */
  lemma EmptyUserIdIgnored(r: ApproveList, q: ListQuery)
    requires q.userId == Some("")
    ensures Satisfies(r, BuildWhere(q)) <==> Satisfies(r, BuildWhere(q.(userId := None)))
  {
  }

  /** An empty `search` is falsy and filters nothing, whatever the other
      parameters are. */
  lemma EmptySearchIgnored(r: ApproveList, q: ListQuery)
    requires q.search == Some("")
    ensures Satisfies(r, BuildWhere(q)) <==> Satisfies(r, BuildWhere(q.(search := None)))
  {
  }

  /** The rows the `where` object selects, in storage order. */
  function Matching(s: Store, q: ListQuery): (m: seq<ApproveList>)
    ensures forall x :: x in m <==> x in s && MatchesQuery(x, q)
    ensures forall x :: multiset(m)[x] == if MatchesQuery(x, q) then multiset(s)[x] else 0
  {
    assert forall x :: Satisfies(x, BuildWhere(q)) <==> MatchesQuery(x, q) by {
      forall x ensures Satisfies(x, BuildWhere(q)) <==> MatchesQuery(x, q) {
        FilterMeaning(x, q);
      }
    }
    Select(s, (x: ApproveList) => Satisfies(x, BuildWhere(q)))
  }

  /** The `pagination` object and the `data` rows of a list response. */
  datatype ListPage = ListPage(
    data: seq<ApproveList>,
    page: int,
    size: int,
    total: nat,
    totalPages: nat,
    hasNext: bool,
    hasPrev: bool)

  /** What a list response holds for the selected rows `matching` on page
      `page` of `size` rows: the rows ordered newest first, the first `skip`
      dropped and at most `size` kept; `total` counts every selected row,
      `totalPages` is its ceiling, `hasNext` says a later page exists (so rows
      remain after this one) and `hasPrev` that this is not the first page. */
  ghost predicate IsPage(p: ListPage, matching: seq<ApproveList>, page: int, size: int)
    requires page >= 1 && size >= 1
  {
    && p.page == page && p.size == size
    && p.total == |matching|
    && p.totalPages == TotalPages(p.total, size)
    && p.data == Window(SortNewestFirst(matching), Skip(page, size), size)
    && |p.data| <= size
    && NewestFirst(p.data)
    && (forall x :: x in p.data ==> x in matching)
    && (p.hasNext <==> page < p.totalPages)
    && (p.hasNext <==> Skip(page, size) + |p.data| < p.total)
    && (p.hasPrev <==> page > 1)
  }

  /** `count` plus `findMany` with `skip`, `take` and newest-first order over
      the selected rows. A page below 1 gives a negative `skip`, which the
      store rejects, and the catch block answers 500. */
  function Paginate(matching: seq<ApproveList>, page: int, size: int): (r: Result<ListPage>)
    requires size >= 1
    ensures r.Ok? <==> page >= 1
    ensures r.Err? ==> r.failure == Internal
    ensures r.Ok? ==> IsPage(r.value, matching, page, size)
  {
    if page < 1 then Err(Internal)
    else
      var ordered := SortNewestFirst(matching);
      var skip := Skip(page, size);
      var data := Window(ordered, skip, size);
      var total := |matching|;
      HasNextMeansMoreRows(ordered, page, size);
      HasNextIff(page, total, size);
      WindowOfNewestFirst(ordered, skip, size);
      assert forall x :: x in ordered ==> x in matching by {
        forall x | x in ordered ensures x in matching {
          assert x in multiset(ordered);
        }
      }
      Ok(ListPage(data, page, size, total, TotalPages(total, size),
                  HasNext(page, total, size), HasPrev(page)))
  }

  /** `GET /api/approve-lists`: the filtered rows, newest first, one page. */
  function GetApproveLists(s: Store, q: ListQuery): (r: Result<ListPage>)
    requires q.size.None? || q.size.value >= 1
    ensures r.Ok? <==> q.page.GetOr(DefaultPage) >= 1
    ensures r.Err? ==> r.failure == Internal
    ensures r.Ok? ==>
      && IsPage(r.value, Matching(s, q), q.page.GetOr(DefaultPage), q.size.GetOr(DefaultSize))
      && forall x :: x in r.value.data ==> x in s && MatchesQuery(x, q)
  {
    Paginate(Matching(s, q), q.page.GetOr(DefaultPage), q.size.GetOr(DefaultSize))
  }

  /** The rows `where: { userId }` selects, in storage order. */
  function RowsOfUser(s: Store, userId: Id): (m: seq<ApproveList>)
    ensures forall x :: x in m <==> x in s && x.userId == Some(userId)
    ensures forall x :: multiset(m)[x] == if x.userId == Some(userId) then multiset(s)[x] else 0
  {
    Select(s, (x: ApproveList) => x.userId == Some(userId))
  }

  /** `GET /api/approve-lists/user/:userId`: the same paging over the rows
      of one user; the route parameter is used as given. */
  function GetApproveListsByUserId(s: Store, userId: Id, page: Option<int>, size: Option<int>)
    : (r: Result<ListPage>)
    requires size.None? || size.value >= 1
    ensures r.Ok? <==> page.GetOr(DefaultPage) >= 1
    ensures r.Err? ==> r.failure == Internal
    ensures r.Ok? ==>
      && IsPage(r.value, RowsOfUser(s, userId), page.GetOr(DefaultPage), size.GetOr(DefaultSize))
      && forall x :: x in r.value.data ==> x in s && x.userId == Some(userId)
  {
    Paginate(RowsOfUser(s, userId),
             page.GetOr(DefaultPage), size.GetOr(DefaultSize))
  }

  /** For a non-empty user id, the per-user endpoint answers exactly what
      the general list endpoint answers when filtered on that user. */
  lemma ByUserAgreesWithList(s: Store, userId: Id, page: Option<int>, size: Option<int>)
    requires userId != ""
    requires size.None? || size.value >= 1
    ensures GetApproveListsByUserId(s, userId, page, size)
         == GetApproveLists(s, ListQuery(page, size, Some(userId), None, None, None))
  {
    var q := ListQuery(page, size, Some(userId), None, None, None);
    SelectSameCondition(s, (x: ApproveList) => x.userId == Some(userId),
                           (x: ApproveList) => Satisfies(x, BuildWhere(q)));
  }

  /** With neither `page` nor `size` given, the response is the first page
      of ten: the ten newest matching rows, or all of them when fewer. */
  lemma DefaultsShowNewestTen(s: Store, q: ListQuery)
    requires q.page.None? && q.size.None?
    ensures var r := GetApproveLists(s, q);
            var ordered := SortNewestFirst(Matching(s, q));
            && r.Ok?
            && r.value.page == 1 && r.value.size == 10
            && |r.value.data| == (if |ordered| < 10 then |ordered| else 10)
            && r.value.data == ordered[..|r.value.data|]
            && (r.value.hasNext <==> |ordered| > 10)
            && !r.value.hasPrev
  {
  }

  /** Row `i` of the newest-first ordering is on page `i / size + 1`, a
      page that exists. */
  lemma PageShowsRow(matching: seq<ApproveList>, size: int, i: int)
    requires size >= 1 && 0 <= i < |matching|
    ensures var page := i / size + 1;
            var r := Paginate(matching, page, size);
            && r.Ok? && page <= r.value.totalPages
            && SortNewestFirst(matching)[i] in r.value.data
  {
    var ordered := SortNewestFirst(matching);
    assert |ordered| == |multiset(ordered)| == |multiset(matching)| == |matching|;
    PageOfRow(ordered, size, i);
    var page := i / size + 1;
    var w := Window(ordered, Skip(page, size), size);
    assert w[i % size] == ordered[i];
  }

  /** Every row that matches the query is shown on some page that exists,
      so walking pages 1 to `totalPages` lists every match. */
  lemma EveryMatchIsListed(s: Store, q: ListQuery, x: ApproveList)
    requires q.size.None? || q.size.value >= 1
    requires x in s && MatchesQuery(x, q)
    ensures exists page ::
              var r := GetApproveLists(s, q.(page := Some(page)));
              && 1 <= page
              && r.Ok? && page <= r.value.totalPages && x in r.value.data
  {
    var size := q.size.GetOr(DefaultSize);
    var matching := Matching(s, q);
    var ordered := SortNewestFirst(matching);
    assert x in multiset(matching);
    assert x in multiset(ordered);
    var i :| 0 <= i < |ordered| && ordered[i] == x;
    assert |ordered| == |multiset(ordered)| == |matching|;
    PageShowsRow(matching, size, i);
    var page := i / size + 1;
    assert Matching(s, q.(page := Some(page))) == matching;
    assert GetApproveLists(s, q.(page := Some(page))) == Paginate(matching, page, size);
  }
}
