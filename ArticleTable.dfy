/**
 * The `articles` table behind the module-level `db` handle, and the
 * single-statement operations over it.
 */
module ArticleTable {
  import opened Sql
  import opened Articles
  import opened ListQuery
  import opened ListSemantics

  class Table {
    /** The rows, keyed by `mettingroom_id`. */
    var rows: map<int, Fields>
    /** AUTOINCREMENT's counter: the id the next INSERT receives, above every id issued so far. */
    var nextId: int

    ghost predicate Valid()
      reads this
    {
      1 <= nextId && forall id :: id in rows ==> 1 <= id < nextId
    }

    /** An empty table whose first INSERT receives id 1. */
    constructor ()
      ensures Valid() && rows == map[] && nextId == 1
    {
      rows := map[];
      nextId := 1;
    }

    /** `getArticleById`: the row under `id`, as `SELECT *` returns it, or nothing. */
    function GetArticleById(id: int): (r: Option<Article>)
      reads this
      ensures r.Some? <==> id in rows
      ensures r.Some? ==> r.value.id == id && r.value.fields == rows[id]
    {
      if id in rows then Some(Article(id, rows[id])) else None
    }

    /**
     * `createArticle`: inserts the five fields under a fresh id and returns it (`lastID`).
     * AUTOINCREMENT hands out `nextId`, which was never issued before, so it is neither a
     * present row nor a deleted one; on a table that never held a row it is 1.
     */
    method CreateArticle(data: Fields) returns (id: int)
      requires Valid()
      modifies this
      ensures Valid()
      ensures id == old(nextId) && id !in old(rows)
      ensures rows == old(rows)[id := data] && nextId == id + 1
      ensures GetArticleById(id) == Some(Article(id, data))
      ensures forall other :: other != id ==> GetArticleById(other) == old(GetArticleById(other))
    {
      id := nextId;
      rows := rows[id := data];
      nextId := nextId + 1;
    }

    /**
     * `updateArticle`: rewrites all five columns of row `id` from `data`, so a field
     * `data` lacks becomes NULL. No other row changes; `{id}` is returned even when no
     * row has that id, and then nothing changes.
     */
    method UpdateArticle(id: int, data: Fields) returns (result: int)
      requires Valid()
      modifies this
      ensures Valid()
      ensures result == id
      ensures rows == if id in old(rows) then old(rows)[id := data] else old(rows)
      ensures nextId == old(nextId)
      ensures old(GetArticleById(id)).Some? ==> GetArticleById(id) == Some(Article(id, data))
      ensures forall other :: other != id ==> GetArticleById(other) == old(GetArticleById(other))
    {
      if id in rows {
        rows := rows[id := data];
      }
      result := id;
    }

    /**
     * `updatePv`: `pageviews = pageviews + pv` on row `id`. A NULL count, or an absent
     * `pv`, leaves NULL. No other field or row changes; a missing id changes nothing.
     */
    method UpdatePv(id: int, pv: Option<int>) returns (result: int)
      requires Valid()
      modifies this
      ensures Valid()
      ensures result == id
      ensures rows == if id in old(rows)
                      then old(rows)[id := old(rows)[id].(pageviews := NullableAdd(old(rows)[id].pageviews, pv))]
                      else old(rows)
      ensures nextId == old(nextId)
      ensures forall other :: other != id ==> GetArticleById(other) == old(GetArticleById(other))
    {
      if id in rows {
        var row := rows[id];
        rows := rows[id := row.(pageviews := NullableAdd(row.pageviews, pv))];
      }
      result := id;
    }

    /** `deleteArticle`: removes row `id` only; `{id}` is returned whether or not it existed. */
    method DeleteArticle(id: int) returns (result: int)
      requires Valid()
      modifies this
      ensures Valid()
      ensures result == id
      ensures rows == old(rows) - {id}
      ensures nextId == old(nextId)
      ensures GetArticleById(id) == None
      ensures forall other :: other != id ==> GetArticleById(other) == old(GetArticleById(other))
    {
      rows := rows - {id};
      result := id;
    }

    /**
     * `getArticles`: builds the fetch and count statements and runs both. `sorted` is the
     * table's rows in the order the fetch's ORDER BY gives them.
     */
    method GetArticles(q: Query, sorted: seq<Article>, like: Like) returns (items: seq<Article>, total: nat)
      requires Enumerates(sorted, rows)
      ensures Listing(items, total) == ListArticles(q, sorted, like)
      ensures total == |MatchingIds(rows, WherePredicate(q.filters).params, like)|
      ensures LimitOf(q) >= 0 ==> |items| <= LimitOf(q)
    {
      var fetch, count := BuildStatements(q);
      items := RunFetch(fetch, sorted, like);
      total := RunCount(count, sorted, like);
      TotalCountsTableRows(sorted, rows, count.where.params, like);
      WindowSize(Matching(sorted, fetch.where.params, like), fetch.limit, fetch.offset);
    }
  }

  /** A table of one row is enumerated by that row alone. */
  lemma EnumeratesSingleRow(id: int, f: Fields)
    ensures Enumerates([Article(id, f)], map[id := f])
  {
    forall k | k in map[id := f] ensures exists i :: 0 <= i < 1 && [Article(id, f)][i].id == k {
      assert [Article(id, f)][0].id == k;
    }
  }

  /** Listing `title = "A"` over a table whose one row is titled `"A"` finds that row. */
  lemma ScenarioListing(row: Article, like: Like)
    requires like(Some("A"), "%A%") && row.fields.title == Some("A")
    ensures ListArticles(Query(None, None, None, map["title" := "A"]), [row], like) == Listing([row], 1)
  {
    var q := Query(None, None, None, map["title" := "A"]);
    assert TitleFilter(q.filters) == Some("A");
    assert "%" + "A" + "%" == "%A%";
    WhereMeansTitleFilter(q.filters, row, like);
    assert Matching([row], WherePredicate(q.filters).params, like) == [row];
  }

  /**
   * Create `{title: "A", pageviews: 0}` in an empty table, count 5 views, list with
   * `title = "A"`: one row is found, it has id 1, and it carries 5 views.
   */
  method CreateCountList(like: Like) returns (items: seq<Article>, total: nat)
    requires like(Some("A"), "%A%")
    ensures total == 1 && |items| == 1
    ensures items[0].id == 1
    ensures items[0].fields.title == Some("A") && items[0].fields.pageviews == Some(5)
  {
    var t := new Table();
    var id := t.CreateArticle(Fields(Some("A"), None, None, None, Some(0)));
    var _ := t.UpdatePv(id, Some(5));
    var row := Article(id, t.rows[id]);
    assert row.fields == Fields(Some("A"), None, None, None, Some(5));
    assert t.rows == map[id := row.fields];
    EnumeratesSingleRow(id, row.fields);
    ScenarioListing(row, like);
    items, total := t.GetArticles(Query(None, None, None, map["title" := "A"]), [row], like);
  }

  /**
   * A client counting one view delta after another (`updatePv` per element of `ds`):
   * the row's count ends where `AddAll` says, so at the start plus the sum of the
   * deltas, or NULL when it started NULL (see Sql.AddAllIsSum). Nothing else changes.
   */
  method CountViews(t: Table, id: int, ds: seq<int>)
    requires t.Valid() && id in t.rows
    modifies t
    ensures t.Valid() && t.nextId == old(t.nextId)
    ensures t.rows == old(t.rows)[id := old(t.rows)[id].(pageviews := AddAll(old(t.rows)[id].pageviews, ds))]
  {
    var i := 0;
    while i < |ds|
      invariant 0 <= i <= |ds|
      invariant t.Valid() && t.nextId == old(t.nextId)
      invariant t.rows == old(t.rows)[id := old(t.rows)[id].(pageviews := AddAll(old(t.rows)[id].pageviews, ds[..i]))]
    {
      var _ := t.UpdatePv(id, Some(ds[i]));
      assert ds[..i + 1][..i] == ds[..i];
      i := i + 1;
    }
    assert ds[..i] == ds;
  }

  /** An article created without `pageviews` stores NULL there, and counting views keeps it NULL. */
  method CountViewsOnNullPageviews(title: string, pv: int) returns (views: Option<int>)
    ensures views == None
  {
    var t := new Table();
    var id := t.CreateArticle(Fields(Some(title), None, None, None, None));
    var _ := t.UpdatePv(id, Some(pv));
    var row := t.GetArticleById(id);
    views := row.value.fields.pageviews;
  }

  /** A deleted id is not handed out again by the next insert. */
  method DeleteThenCreate(first: Fields, second: Fields) returns (deleted: int, created: int)
    ensures deleted != created
  {
    var t := new Table();
    deleted := t.CreateArticle(first);
    var _ := t.DeleteArticle(deleted);
    created := t.CreateArticle(second);
  }
}
