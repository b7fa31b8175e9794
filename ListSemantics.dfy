/**
 * What the fetch and count statements of `getArticles` return, over the table's rows
 * given in the order that the fetch's ORDER BY puts them. How the store sorts by a
 * client-named column and how it evaluates LIKE are left abstract.
 */
module ListSemantics {
  import opened Sql
  import opened Articles
  import opened ListQuery

  /** The store's `title LIKE pattern` test. */
  type Like = (Option<string>, string) -> bool

  /**
   * Whether a row satisfies `WHERE 1=1 AND title LIKE ? ...`: the clause holds one
   * `title LIKE ?` conjunct per bound pattern (see ListQuery.PlaceholdersMatchParams).
   */
  predicate Satisfies(params: seq<Value>, a: Article, like: Like)
  {
    forall i :: 0 <= i < |params| ==> params[i].Text? && like(a.fields.title, params[i].s)
  }

  /** The rows that satisfy the WHERE clause, in their original order. */
  function Matching(rows: seq<Article>, params: seq<Value>, like: Like): (r: seq<Article>)
    ensures |r| <= |rows|
    ensures forall a :: a in r ==> a in rows && Satisfies(params, a, like)
    ensures forall a :: a in rows && Satisfies(params, a, like) ==> a in r
  {
    if rows == [] then []
    else
      var last := rows[|rows| - 1];
      Matching(rows[..|rows| - 1], params, like) + (if Satisfies(params, last, like) then [last] else [])
  }

  /** SQLite's `LIMIT limit OFFSET offset`: a negative limit sets no bound, a negative offset counts as zero. */
  function Window(rows: seq<Article>, limit: int, offset: int): seq<Article>
  {
    var start := if offset < 0 then 0 else if offset > |rows| then |rows| else offset;
    var end := if limit < 0 || limit > |rows| - start then |rows| else start + limit;
    rows[start..end]
  }

  /** The rows the fetch statement returns. */
  function RunFetch(st: Statement, sorted: seq<Article>, like: Like): seq<Article>
    requires st.Fetch?
  {
    Window(Matching(sorted, st.where.params, like), st.limit, st.offset)
  }

  /** The `total` the count statement returns. */
  function RunCount(st: Statement, sorted: seq<Article>, like: Like): nat
    requires st.Count?
  {
    |Matching(sorted, st.where.params, like)|
  }

  /** The `{ items, total }` object `getArticles` resolves to. */
  datatype Listing = Listing(items: seq<Article>, total: nat)

  function ListArticles(q: Query, sorted: seq<Article>, like: Like): Listing
  {
    Listing(RunFetch(FetchStatement(q), sorted, like), RunCount(CountStatement(q), sorted, like))
  }

  /** The title filter's meaning, stated on the request directly. */
  predicate MatchesRequest(filters: map<string, string>, a: Article, like: Like)
  {
    match TitleFilter(filters)
    case None => true
    case Some(t) => like(a.fields.title, "%" + t + "%")
  }

  /** The WHERE clause and its parameters select exactly the rows the title filter asks for. */
  lemma WhereMeansTitleFilter(filters: map<string, string>, a: Article, like: Like)
    ensures Satisfies(WherePredicate(filters).params, a, like) <==> MatchesRequest(filters, a, like)
  {
    var w := WherePredicate(filters);
    if TitleFilter(filters).Some? {
      assert |w.params| == 1;
      assert Satisfies(w.params, a, like) <==> w.params[0].Text? && like(a.fields.title, w.params[0].s);
    }
  }

  /** Without a title filter every row matches. */
  lemma {:induction false} EmptyPredicateMatchesAll(rows: seq<Article>, like: Like)
    ensures Matching(rows, [], like) == rows
  {
    if rows != [] {
      var init, last := rows[..|rows| - 1], rows[|rows| - 1];
      EmptyPredicateMatchesAll(init, like);
      assert Satisfies([], last, like);
      assert Matching(rows, [], like) == Matching(init, [], like) + [last];
      assert init + [last] == rows;
    }
  }

  /** Position `k` of a window is position `start + k` of the rows. */
  lemma WindowAt(rows: seq<Article>, limit: int, offset: int, k: int)
    requires 0 <= offset && 0 <= k < |Window(rows, limit, offset)|
    ensures offset + k < |rows| && Window(rows, limit, offset)[k] == rows[offset + k]
  {
  }

  /** A window holds at most `limit` rows (for a non-negative limit), and exactly that many when enough rows follow. */
  lemma WindowSize(rows: seq<Article>, limit: int, offset: int)
    ensures limit >= 0 ==> |Window(rows, limit, offset)| <= limit
    ensures 0 <= offset && 0 <= limit && offset + limit <= |rows| ==> |Window(rows, limit, offset)| == limit
    ensures limit < 0 && offset <= 0 ==> Window(rows, limit, offset) == rows
    ensures offset >= |rows| ==> Window(rows, limit, offset) == []
  {
  }

  /** The concatenation of pages 1 to `k` of size `limit`. */
  function PagesThrough(rows: seq<Article>, limit: int, k: nat): seq<Article>
  {
    if k == 0 then [] else PagesThrough(rows, limit, k - 1) + Window(rows, limit, Offset(k, limit))
  }

  /** A window that starts inside the rows is the slice from `offset`, cut at `limit` rows or at the end. */
  lemma WindowSlice(rows: seq<Article>, limit: int, offset: int)
    requires 0 <= offset <= |rows| && 0 <= limit
    ensures offset + limit <= |rows| ==> Window(rows, limit, offset) == rows[offset..offset + limit]
    ensures offset + limit > |rows| ==> Window(rows, limit, offset) == rows[offset..]
  {
  }

  lemma NextPageStart(limit: int, k: nat)
    requires k > 0
    ensures Offset(k, limit) == (k - 1) * limit
    ensures k * limit == (k - 1) * limit + limit
    ensures limit > 0 ==> (k - 1) * limit >= 0
  {
  }

  /** Pages 1, 2, ..., k of a positive `limit` tile the matching rows: no row is skipped or repeated. */
  lemma {:induction false} PagesTile(rows: seq<Article>, limit: int, k: nat)
    requires limit > 0
    ensures k * limit <= |rows| ==> PagesThrough(rows, limit, k) == rows[..k * limit]
    ensures k * limit > |rows| ==> PagesThrough(rows, limit, k) == rows
  {
    if k > 0 {
      PagesTile(rows, limit, k - 1);
      NextPageStart(limit, k);
      var start := (k - 1) * limit;
      var end := k * limit;
      var before := PagesThrough(rows, limit, k - 1);
      var page := Window(rows, limit, start);
      assert PagesThrough(rows, limit, k) == before + page;
      if start <= |rows| {
        assert before == rows[..start];
        WindowSlice(rows, limit, start);
        if end <= |rows| {
          assert page == rows[start..end];
          assert rows[..start] + rows[start..end] == rows[..end];
        } else {
          assert page == rows[start..];
          assert rows[..start] + rows[start..] == rows;
        }
      } else {
        assert before == rows;
        assert page == [];
      }
    }
  }

  /**
   * The result of `getArticles`: `total` counts every matching row whatever the page,
   * and `items` are the matching rows from position `offset` on, at most `limit` of them.
   */
  lemma ListingMeaning(q: Query, sorted: seq<Article>, like: Like)
    ensures var m := Matching(sorted, WherePredicate(q.filters).params, like);
            var r := ListArticles(q, sorted, like);
            && r.total == |m|
            && (LimitOf(q) >= 0 ==> |r.items| <= LimitOf(q))
            && |r.items| <= r.total
            && (forall a :: a in r.items ==> a in sorted && MatchesRequest(q.filters, a, like))
            && (forall k :: 0 <= k < |r.items| && 0 <= Offset(PageOf(q), LimitOf(q)) ==>
                 Offset(PageOf(q), LimitOf(q)) + k < |m| && r.items[k] == m[Offset(PageOf(q), LimitOf(q)) + k])
  ensures var m := Matching(sorted, WherePredicate(q.filters).params, like);
          var o, l := Offset(PageOf(q), LimitOf(q)), LimitOf(q);
          0 <= o && 0 <= l ==>
            ListArticles(q, sorted, like).items ==
              if o >= |m| then [] else if o + l <= |m| then m[o..o + l] else m[o..]
  {
    ListingIsWindow(q, sorted, like);
    WindowListing(sorted, q.filters, like, LimitOf(q), Offset(PageOf(q), LimitOf(q)));
  }

  /** ListingMeaning for a given limit and offset, with the window of the matching rows as the items. */
  lemma WindowListing(sorted: seq<Article>, filters: map<string, string>, like: Like, limit: int, offset: int)
    ensures var m := Matching(sorted, WherePredicate(filters).params, like);
            var items := Window(m, limit, offset);
            && (limit >= 0 ==> |items| <= limit)
            && |items| <= |m|
            && (forall a :: a in items ==> a in sorted && MatchesRequest(filters, a, like))
            && (forall k :: 0 <= k < |items| && 0 <= offset ==> offset + k < |m| && items[k] == m[offset + k])
            && (0 <= offset && 0 <= limit ==>
                  items == if offset >= |m| then [] else if offset + limit <= |m| then m[offset..offset + limit] else m[offset..])
  {
    var m := Matching(sorted, WherePredicate(filters).params, like);
    WindowFacts(m, limit, offset);
    MatchingMeetsRequest(sorted, filters, like);
  }

  /** Every row the WHERE clause selects comes from the table and meets the title filter. */
  lemma MatchingMeetsRequest(sorted: seq<Article>, filters: map<string, string>, like: Like)
    ensures forall a :: a in Matching(sorted, WherePredicate(filters).params, like) ==>
              a in sorted && MatchesRequest(filters, a, like)
  {
    forall a | a in Matching(sorted, WherePredicate(filters).params, like)
      ensures a in sorted && MatchesRequest(filters, a, like)
    {
      WhereMeansTitleFilter(filters, a, like);
    }
  }

  /** What LIMIT and OFFSET select, gathered: a bounded, in-order run of the rows from `offset` on. */
  lemma WindowFacts(rows: seq<Article>, limit: int, offset: int)
    ensures var w := Window(rows, limit, offset);
            && (limit >= 0 ==> |w| <= limit)
            && |w| <= |rows|
            && (forall a :: a in w ==> a in rows)
            && (forall k :: 0 <= k < |w| && 0 <= offset ==> offset + k < |rows| && w[k] == rows[offset + k])
            && (0 <= offset && 0 <= limit ==>
                  w == if offset >= |rows| then [] else if offset + limit <= |rows| then rows[offset..offset + limit] else rows[offset..])
  {
    WindowSize(rows, limit, offset);
    WindowWithin(rows, limit, offset);
    forall k | 0 <= k < |Window(rows, limit, offset)| && 0 <= offset
      ensures offset + k < |rows| && Window(rows, limit, offset)[k] == rows[offset + k]
    {
      WindowAt(rows, limit, offset, k);
    }
    if 0 <= offset && 0 <= limit {
      WindowExact(rows, limit, offset);
    }
  }

  /** The listing is the count of the matching rows and the window of them that LIMIT and OFFSET select. */
  lemma ListingIsWindow(q: Query, sorted: seq<Article>, like: Like)
    ensures var m := Matching(sorted, WherePredicate(q.filters).params, like);
            ListArticles(q, sorted, like) == Listing(Window(m, LimitOf(q), Offset(PageOf(q), LimitOf(q))), |m|)
  {
  }

  /** For a non-negative offset and limit, the window is the slice from `offset` of at most `limit` rows. */
  lemma WindowExact(rows: seq<Article>, limit: int, offset: int)
    requires 0 <= offset && 0 <= limit
    ensures Window(rows, limit, offset) ==
              if offset >= |rows| then [] else if offset + limit <= |rows| then rows[offset..offset + limit] else rows[offset..]
  {
    if offset < |rows| {
      WindowSlice(rows, limit, offset);
    }
  }

  /** A window holds rows of its input only, and no more of them than there are. */
  lemma WindowWithin(rows: seq<Article>, limit: int, offset: int)
    ensures |Window(rows, limit, offset)| <= |rows|
    ensures forall a :: a in Window(rows, limit, offset) ==> a in rows
  {
  }

  /** With page 1, or no page given, the items are the first `limit` matching rows. */
  lemma FirstPageIsPrefix(q: Query, sorted: seq<Article>, like: Like)
    requires PageOf(q) == 1 && LimitOf(q) >= 0
    ensures var m := Matching(sorted, WherePredicate(q.filters).params, like);
            ListArticles(q, sorted, like).items ==
              if LimitOf(q) <= |m| then m[..LimitOf(q)] else m
  {
    OffsetStepsByLimit(1, LimitOf(q));
  }

  /** `sorted` holds each row of the table exactly once, as
   *  the table's rows under the fetch's ORDER BY. */
  ghost predicate Enumerates(sorted: seq<Article>, rows: map<int, Fields>)
  {
    && (forall i :: 0 <= i < |sorted| ==> sorted[i].id in rows && rows[sorted[i].id] == sorted[i].fields)
    && (forall i, j :: 0 <= i < j < |sorted| ==> sorted[i].id != sorted[j].id)
    && (forall id :: id in rows ==> exists i :: 0 <= i < |sorted| && sorted[i].id == id)
  }

  /** The ids of the table rows that satisfy the predicate. */
  ghost function MatchingIds(rows: map<int, Fields>, params: seq<Value>, like: Like): set<int>
  {
    set id | id in rows && Satisfies(params, Article(id, rows[id]), like)
  }

  /**
   * `page` is not validated: a page below 1 gives a negative offset, which SQLite treats
   * as zero, so such a request returns the first page again.
   */
  lemma NonPositivePageIsFirstPage(q: Query, sorted: seq<Article>, like: Like)
    requires PageOf(q) <= 1 && LimitOf(q) >= 0
    ensures ListArticles(q, sorted, like) == ListArticles(q.(page := Some(1)), sorted, like)
  {
    NonPositivePageOffset(PageOf(q), LimitOf(q));
  }

  lemma NonPositivePageOffset(page: int, limit: int)
    requires page <= 1 && limit >= 0
    ensures Offset(page, limit) <= 0 && Offset(1, limit) == 0
  {
    assert Offset(page, limit) == -((1 - page) * limit);
    assert (1 - page) * limit >= 0;
  }

  /** Dropping the last row of a listing gives a listing of the table without that row. */
  lemma EnumeratesInit(sorted: seq<Article>, rows: map<int, Fields>)
    requires Enumerates(sorted, rows) && sorted != []
    ensures Enumerates(sorted[..|sorted| - 1], rows - {sorted[|sorted| - 1].id})
  {
    var n := |sorted|;
    var init := sorted[..n - 1];
    var rest := rows - {sorted[n - 1].id};
    forall id | id in rest ensures exists i :: 0 <= i < |init| && init[i].id == id {
      var i :| 0 <= i < n && sorted[i].id == id;
      assert init[i].id == id;
    }
    forall i | 0 <= i < |init| ensures init[i].id in rest && rest[init[i].id] == init[i].fields {
      assert sorted[i].id != sorted[n - 1].id;
    }
  }

  /** The matching ids of a table are those of the table without one row, plus that row's id if it matches. */
  lemma MatchingIdsSplit(rows: map<int, Fields>, a: Article, params: seq<Value>, like: Like)
    requires a.id in rows && rows[a.id] == a.fields
    ensures MatchingIds(rows, params, like) ==
            MatchingIds(rows - {a.id}, params, like) + (if Satisfies(params, a, like) then {a.id} else {})
  {
    assert a == Article(a.id, rows[a.id]);
  }

  /** Over a listing of the whole table, the count statement's total is the number of matching table rows. */
  lemma {:induction false} TotalCountsTableRows(sorted: seq<Article>, rows: map<int, Fields>, params: seq<Value>, like: Like)
    requires Enumerates(sorted, rows)
    ensures |Matching(sorted, params, like)| == |MatchingIds(rows, params, like)|
    decreases |sorted|
  {
    if sorted == [] {
      forall id | id in rows ensures false {
        assert false;
      }
    } else {
      var last := sorted[|sorted| - 1];
      EnumeratesInit(sorted, rows);
      TotalCountsTableRows(sorted[..|sorted| - 1], rows - {last.id}, params, like);
      MatchingIdsSplit(rows, last, params, like);
      assert last.id !in MatchingIds(rows - {last.id}, params, like);
    }
  }

  /**
   * Two requests with the same title filter report the same total, whatever their page,
   * limit or sort, over any two orderings of the same table.
   */
  lemma TotalIgnoresPagingAndSort(q1: Query, q2: Query, rows: map<int, Fields>,
                                  sorted1: seq<Article>, sorted2: seq<Article>, like: Like)
    requires TitleFilter(q1.filters) == TitleFilter(q2.filters)
    requires Enumerates(sorted1, rows) && Enumerates(sorted2, rows)
    ensures ListArticles(q1, sorted1, like).total == ListArticles(q2, sorted2, like).total
  {
    var p := WherePredicate(q1.filters).params;
    assert WherePredicate(q2.filters).params == p;
    TotalCountsTableRows(sorted1, rows, p, like);
    TotalCountsTableRows(sorted2, rows, p, like);
  }
}
