# Article store of the admin dashboard backend, in Dafny

This project models the data layer of a small REST backend for an admin dashboard,
`src/backends/dbService.js`. The layer has two parts:

- **List-query construction (`getArticles`).** It fills in the defaults for `page`, `limit` and `sort`. It computes the offset and
  takes the sort direction and field from `sort`. It builds a `WHERE 1=1 [AND title LIKE ?]` predicate with
  its parameter list. It then issues two statements: a fetch of one page (the predicate's parameters followed
  by `limit, offset`) and a count over the same predicate.
- **The `articles` table's single-statement operations.** These are `getArticleById`, `createArticle`,
  `updateArticle`, `updatePv` and `deleteArticle`. Each one is one SELECT, INSERT, UPDATE or DELETE. The
  SELECT, UPDATEs and DELETE pick their row by the `mettingroom_id` column; the INSERT names no id and
  takes the one AUTOINCREMENT hands out.

Modules:

- `Sql` (Sql.dfy) defines nullable values (`Option`, where `None` is SQL NULL or JavaScript
  `undefined`) and bound values. It also has `?` counting and SQL's NULL-propagating `+`.
- `Articles` (Articles.dfy) defines a row: the id and the five columns `title`, `timestamp`, `author`,
  `isused` and `pageviews`.
- `ListQuery` (ListQuery.dfy) models the statement construction in `getArticles`. The defaults, the offset, the
  direction and the `/^\+|-/` sign stripping are functions. The WHERE clause is built by a method, with `+=`
  and `push` as `getArticles` does. The statements are values with their SQL text and their bound arguments.
- `ListSemantics` (ListSemantics.dfy) gives the meaning of the two statements. Its input is the table's rows
  in the order the fetch's ORDER BY gives them. The fetch returns the matching rows, then at most `limit`
  of them from position `offset`, following SQLite's LIMIT/OFFSET rules: a negative limit sets no bound, and a
  negative offset counts as zero. The count returns the number of matching rows. The store's LIKE test is a
  parameter.
- `ArticleTable` (ArticleTable.dfy) holds the class `Table`. It has a map from id to row and the
  AUTOINCREMENT counter `nextId`. The four writes are methods with `modifies this`; the lookups only read
  the table (`GetArticleById` is a `reads this` function, `GetArticles` a method that changes nothing).

Behaviour of `dbService.js` worth knowing:

- The sort field is not taken from an allow-list. It is interpolated into ORDER BY unchecked (`PlaceholderBalance`).
- Pagination bounds are not validated: a page below 1 with a non-negative limit returns page 1 again
  (`NonPositivePageIsFirstPage`). With a negative limit it does not: page 0 with limit -1 has offset 1 and
  skips the first matching row, while page 1 with limit -1 returns them all.
- An omitted field is stored as NULL. It does not get the column default: an explicit NULL in an INSERT
  overrides DEFAULT, so `pageviews` can be NULL, and a NULL count stays NULL when views are added.
- `updatePv` accepts a negative delta, so the view count can go down. The model does not claim that it never
  decreases.
- `updateArticle` and `updatePv` return `{id}` even when no row has that id. No NotFound is raised.

## Model

| member | source | states |
|---|---|---|
| ListQuery.DefaultRequest | src/backends/dbService.js:56-59 | with no `page`, `limit` or `sort`, the fetch reads 20 rows from offset 0, ascending by `mettingroom_id` |
| ListQuery.OffsetStepsByLimit | src/backends/dbService.js:57 | page 1 starts at offset 0; each next page starts `limit` rows further on; the offset is non-negative for page >= 1 and limit >= 0 |
| ListQuery.Order | src/backends/dbService.js:58 | the direction is `"DESC"` exactly when `sort` has prefix `-`, and `"ASC"` otherwise |
| ListQuery.FirstSign | src/backends/dbService.js:59 | finds the leftmost position where `/^\+|-/` matches (a `+` only at position 0, a `-` anywhere); none exactly when no position matches |
| ListQuery.OrderByLeadingPlus | src/backends/dbService.js:59 | a leading `+` is removed, whatever follows |
| ListQuery.OrderByFirstDash | src/backends/dbService.js:59 | without a leading `+`, the first `-` anywhere is removed and the rest is kept |
| ListQuery.OrderByUnsigned | src/backends/dbService.js:59 | a `sort` with no leading `+` and no `-` is used unchanged |
| ListQuery.OrderByRemovesAtMostOne | src/backends/dbService.js:59 | the field is `sort` itself, or `sort` with exactly one position removed |
| ListQuery.SortRoundTrip | src/backends/dbService.js:58-59 | a field without sign characters, encoded as `"-" + field` or as `field`, comes back with its direction DESC or ASC |
| ListQuery.OrderByInnerDash | src/backends/dbService.js:59 | `"a-b"` becomes `"ab"`: the pattern's `-` branch is not anchored |
| ListQuery.OrderByOnlyFirstDash | src/backends/dbService.js:58-59 | `"-a-b"` orders DESC by `"a-b"`: only the first match is removed |
| ListQuery.OrderByPlusThenDash | src/backends/dbService.js:58-59 | `"+-a"` orders ASC by `"-a"` |
| ListQuery.DefaultSortAscending | src/backends/dbService.js:56-59 | the default `sort` `"mettingroom_id"` gives ascending order on that column, unchanged |
| ListQuery.BuildWhere | src/backends/dbService.js:62-68 | the clause and parameters built step by step are exactly the predicate for the filters |
| ListQuery.TitleConditionIff | src/backends/dbService.js:62-68 | `" AND title LIKE ?"` is appended, and the parameters are `["%" + title + "%"]`, exactly when `filters.title` is present and non-empty; otherwise the clause is `"WHERE 1=1"` and no parameter is bound |
| ListQuery.PlaceholdersMatchParams | src/backends/dbService.js:62-68 | the clause has exactly as many `?` as there are parameters |
| ListQuery.OnlyTitleMatters | src/backends/dbService.js:56-68 | adding, changing or removing a filter key other than `title` leaves the predicate unchanged |
| ListQuery.BuildStatements | src/backends/dbService.js:55-79 | the built fetch and count statements are the ones the request defines |
| ListQuery.FetchAndCountShareWhere | src/backends/dbService.js:71-79 | fetch and count use the same WHERE clause; the fetch binds the count's parameters followed by `limit, offset` |
| ListQuery.PlaceholderBalance | src/backends/dbService.js:71-79 | the count's text has one `?` per argument; the fetch's has one per argument plus every `?` of the ORDER BY field, which goes in unchecked |
| ListQuery.OrderByKeepsQuestionMarks | src/backends/dbService.js:59 | stripping the sign never removes a `?`: the ORDER BY field has exactly the `?` characters of the client's `sort` |
| ListQuery.PageOf | src/backends/dbService.js:56 | no contract of its own: `page`, or 1 when absent; characterised by DefaultRequest |
| ListQuery.LimitOf | src/backends/dbService.js:56 | no contract of its own: `limit`, or 20 when absent; characterised by DefaultRequest |
| ListQuery.SortOf | src/backends/dbService.js:56 | no contract of its own: `sort`, or `"mettingroom_id"` when absent; characterised by DefaultRequest and DefaultSortAscending |
| ListQuery.Offset | src/backends/dbService.js:57 | no contract of its own; characterised by OffsetStepsByLimit and NonPositivePageIsFirstPage |
| ListQuery.OrderBy | src/backends/dbService.js:59 | no contract of its own: the sign-stripping `replace` on `sort`; characterised by OrderByLeadingPlus, OrderByFirstDash, OrderByUnsigned and OrderByRemovesAtMostOne |
| ListQuery.TitleFilter | src/backends/dbService.js:62 | no contract of its own: the `if (filters.title)` test; characterised by TitleConditionIff |
| ListQuery.WherePredicate | src/backends/dbService.js:62-68 | no contract of its own; characterised by TitleConditionIff, PlaceholdersMatchParams, OnlyTitleMatters and WhereMeansTitleFilter |
| ListQuery.FetchText | src/backends/dbService.js:71-75 | no contract of its own: the fetch's SQL text; characterised by PlaceholderBalance |
| ListQuery.CountText | src/backends/dbService.js:79 | no contract of its own: the count's SQL text; characterised by PlaceholderBalance |
| ListQuery.Args | src/backends/dbService.js:76-79 | no contract of its own: the values bound, in order; characterised by FetchAndCountShareWhere and PlaceholderBalance |
| ListQuery.FetchStatement | src/backends/dbService.js:56-76 | no contract of its own; characterised by DefaultRequest, FetchAndCountShareWhere and PlaceholderBalance |
| ListQuery.CountStatement | src/backends/dbService.js:62-79 | no contract of its own; characterised by FetchAndCountShareWhere and PlaceholderBalance |
| ListSemantics.Window | src/backends/dbService.js:75-76 | no contract of its own: SQLite's LIMIT/OFFSET; characterised by WindowSize, WindowExact and PagesTile |
| ListSemantics.RunFetch | src/backends/dbService.js:71-77 | no contract of its own; characterised by ListingMeaning |
| ListSemantics.RunCount | src/backends/dbService.js:79-81 | no contract of its own; characterised by ListingMeaning and TotalCountsTableRows |
| ListSemantics.ListArticles | src/backends/dbService.js:71-82 | no contract of its own; characterised by ListingMeaning, PagesTile, TotalIgnoresPagingAndSort and Table.GetArticles |
| ListSemantics.WindowExact | src/backends/dbService.js:75-76 | for a non-negative offset and limit, LIMIT/OFFSET select the rows from `offset` on, `limit` of them or as many as remain |
| ListSemantics.Matching | src/backends/dbService.js:71-79 | the matching rows are drawn from the table rows and satisfy the predicate, and every satisfying row is among them |
| ListSemantics.WhereMeansTitleFilter | src/backends/dbService.js:62-68 | a row satisfies the built predicate exactly when the title filter is absent or its title is LIKE `%title%` |
| ListSemantics.EmptyPredicateMatchesAll | src/backends/dbService.js:62-63 | without a title filter every row matches, in order |
| ListSemantics.WindowSize | src/backends/dbService.js:75-76 | LIMIT/OFFSET return at most `limit` rows for a non-negative limit, and exactly `limit` when enough rows follow; a negative limit with a non-positive offset returns all rows; an offset at or past the end returns none |
| ListSemantics.PagesTile | src/backends/dbService.js:57-76 | for a positive limit, pages 1..k joined together are the first k*limit matching rows: over one fixed order of the rows, no row is skipped or repeated |
| ListSemantics.ListingMeaning | src/backends/dbService.js:71-82 | `total` is the number of matching rows; `items` holds at most `limit` rows, no more than `total`; each item comes from the table and meets the title filter; item k is matching row `offset + k`; for a non-negative offset and limit the items are exactly the matching rows from `offset` on, `limit` of them or as many as remain, and none when `offset` is past the end |
| ListSemantics.NonPositivePageIsFirstPage | src/backends/dbService.js:56-57 | `page` is not validated: a page of 1 or below, with a non-negative limit, returns exactly the first page |
| ListSemantics.ListingIsWindow | src/backends/dbService.js:71-82 | the listing's items are the LIMIT/OFFSET window of the matching rows and its total is their number |
| ListSemantics.FirstPageIsPrefix | src/backends/dbService.js:56-76 | on page 1 the items are the first `limit` matching rows |
| ListSemantics.TotalCountsTableRows | src/backends/dbService.js:79-81 | over any listing of the whole table, `total` is the number of table rows that satisfy the predicate |
| ListSemantics.TotalIgnoresPagingAndSort | src/backends/dbService.js:56-79 | requests with the same title filter get the same total, whatever their page, limit or sort |
| ArticleTable.Table.constructor | src/backends/dbService.js:6 | an empty table whose first insert receives id 1 |
| ArticleTable.Table.GetArticleById | src/backends/dbService.js:85-87 | returns a row exactly when `id` is present, and it is that id with its stored columns |
| ArticleTable.Table.CreateArticle | src/backends/dbService.js:89-96 | the returned id is the counter's value, so 1 on a table that never held a row, and was never issued before; the five given fields are stored under it and read back by `GetArticleById`; every other row is unchanged |
| ArticleTable.Table.UpdateArticle | src/backends/dbService.js:98-106 | row `id` is replaced by all five given fields, so absent ones become NULL; every other row is unchanged; returns `id` even when no row has it, and then no row changes |
| ArticleTable.Table.UpdatePv | src/backends/dbService.js:108-111 | row `id`'s `pageviews` becomes its old value plus `pv`, NULL if either is NULL; no other field or row changes; returns `id`; a missing id changes nothing |
| ArticleTable.Table.DeleteArticle | src/backends/dbService.js:113-116 | removes row `id` and no other; returns `id`; a missing id changes nothing |
| ArticleTable.Table.GetArticles | src/backends/dbService.js:55-83 | the result is the listing the two statements define; `total` is the number of matching table rows; at most `limit` items |
| ArticleTable.ScenarioListing | src/backends/dbService.js:55-82 | listing with `title = "A"` over a one-row table whose title is `"A"` returns that row with total 1 |
| ArticleTable.CreateCountList | src/backends/dbService.js:89-116 | create `{title: "A", pageviews: 0}` in an empty table, add 5 views, list by title `"A"`: total 1, one item, with id 1 and 5 views |
| ArticleTable.CountViews | src/backends/dbService.js:108-111 | `updatePv` applied once per delta leaves the row's `pageviews` at `AddAll` of its old value, so the old value plus the deltas' sum, or NULL; nothing else changes |
| ArticleTable.CountViewsOnNullPageviews | src/backends/dbService.js:89-111 | an article created without `pageviews` keeps NULL views after `updatePv` |
| ArticleTable.DeleteThenCreate | src/backends/dbService.js:89-116 | the id of a deleted row is not handed out again by the next insert |
| Sql.NullableAdd | src/backends/dbService.js:109 | SQL `pageviews + ?`: NULL if either side is NULL, the sum otherwise |
| Sql.AddAllIsSum | src/backends/dbService.js:109 | counting views with deltas d1..dn ends at the start plus their sum; a NULL start stays NULL |

## Left out

- `initDb`: the schema DDL is not modelled. The `meetings` DDL is malformed: a comma is missing after `end_time` and there is a trailing comma. The created `meetingroom` table is not the `articles` table that is queried. Its constraints (`title NOT NULL`) and defaults are therefore not applied; the model does not reject a NULL title.
- AUTOINCREMENT: the model assumes it for `articles`, because the table is keyed by `mettingroom_id` as in the `meetingroom` DDL. Overflow of the 64-bit rowid is not modelled.
- `createUser`: its bcrypt hashing is a foreign call. Its INSERT also leaves out the NOT NULL `token` column, which is a store-level failure.
- `getUserByUsername`, `getUserToken`, `getUserInfoByToken`: these are single-SELECT lookups over the `users` table. `getUserToken` passes a callback to a promise-based wrapper and reads `row.token` before checking `row`. What happens then depends on library behaviour that is not visible here.
- SQL evaluation: LIKE matching (`like` is a parameter) and sorting by a client-named column (the rows come in already ordered) are not modelled. Neither are SQL errors: for example, an empty or unknown `sort` column is an error, and so is a bare `?` in `sort` (one outside a quoted SQL literal), which unbalances the placeholders. The model builds those statements; it does not raise the store's error.
- JavaScript coercion: `page`, `limit`, `pv` and `id` arrive from the client and are modelled as integers. `page` and `limit` come from the query string as strings; `updateArticle`'s `id` is `req.body.id` from the JSON body (`src/backends/server.js`), so it can be any JSON type, and SQLite's comparison of such a value with the integer key is not modelled. A repeated query key (an array value) is not modelled. Record fields are typed as strings or integers; other JSON types are not modelled.
- 64-bit overflow in `pageviews + pv` is not modelled. SQLite would switch to floating point there.
- `offset` is computed as `(page - 1) * limit` in JavaScript numbers, which are doubles and exact only below 2^53; the model computes it on unbounded integers.
- ListSemantics.PagesTile: pages are cut from one fixed order of the matching rows, given as `sorted`. Requests for different pages are separate queries; SQLite fixes that order when the sort column is unique, as the default `mettingroom_id` is, but not among rows that tie on a client-named, non-unique column, where a row could appear on two pages or on none.
- The Express routing and response envelopes (`src/backends/server.js`, `NewBranch/vue-element-admin/src/backends/server.js`) and the HTTP client (`src/api/table.js`) are not part of this model.
- async/await and the shared connection: interleaving between the fetch and the count of one listing, and between concurrent requests, is not modelled. Each operation is one atomic step.
- `console.log` output is left out.
