/**
 * How `getArticles` turns a list request into two SQL statements: a fetch of one
 * page of rows and a count of all matching rows, sharing one WHERE clause.
 */
module ListQuery {
  import opened Sql

  /**
   * The request: `page`, `limit` and `sort` are optional (absent means JavaScript
   * `undefined`, which selects the destructuring default); every other key is a filter.
   */
  datatype Query = Query(page: Option<int>, limit: Option<int>, sort: Option<string>, filters: map<string, string>)

  const DefaultPage: int := 1
  const DefaultLimit: int := 20
  const DefaultSort: string := "mettingroom_id"

  function PageOf(q: Query): int
  {
    match q.page
    case Some(p) => p
    case None => DefaultPage
  }

  function LimitOf(q: Query): int
  {
    match q.limit
    case Some(l) => l
    case None => DefaultLimit
  }

  function SortOf(q: Query): string
  {
    match q.sort
    case Some(s) => s
    case None => DefaultSort
  }

  /** Number of rows skipped before the requested page. */
  function Offset(page: int, limit: int): int
  {
    (page - 1) * limit
  }

  /** The first page starts at row 0, and each next page starts where the previous one ends. */
  lemma OffsetStepsByLimit(page: int, limit: int)
    ensures Offset(1, limit) == 0
    ensures Offset(page + 1, limit) == Offset(page, limit) + limit
    ensures page >= 1 && limit >= 0 ==> Offset(page, limit) >= 0
  {
    assert Offset(page + 1, limit) == page * limit;
    assert Offset(page, limit) == page * limit - limit;
  }

  /** The sort direction: descending exactly when `sort` starts with `-`. */
  function Order(sort: string): (r: string)
    ensures r == "DESC" || r == "ASC"
    ensures r == "DESC" <==> "-" <= sort
  {
    if |sort| > 0 && sort[0] == '-' then "DESC" else "ASC"
  }

  /** Whether `/^\+|-/` matches at position `k`: the `^\+` branch only at the start, the `-` branch anywhere. */
  predicate SignAt(s: string, k: nat)
    requires k < |s|
  {
    (k == 0 && s[k] == '+') || s[k] == '-'
  }

  /** The leftmost position at or after `k` where `/^\+|-/` matches, as a left-to-right regex search finds it. */
  function FirstSign(s: string, k: nat): (r: Option<nat>)
    requires k <= |s|
    decreases |s| - k
    ensures r.Some? ==> k <= r.value < |s| && SignAt(s, r.value)
    ensures r.Some? ==> forall j :: k <= j < r.value ==> !SignAt(s, j)
    ensures r.None? <==> forall j :: k <= j < |s| ==> !SignAt(s, j)
  {
    if k == |s| then None
    else if SignAt(s, k) then Some(k)
    else FirstSign(s, k + 1)
  }

  /** `sort.replace(/^\+|-/, '')`: without the `g` flag only the first match is removed. */
  function OrderBy(sort: string): string
  {
    match FirstSign(sort, 0)
    case None => sort
    case Some(i) => sort[..i] + sort[i + 1..]
  }

  /** A leading `+` is removed, whatever follows. */
  lemma OrderByLeadingPlus(field: string)
    ensures OrderBy("+" + field) == field
  {
    var s := "+" + field;
    assert SignAt(s, 0);
    assert s[1..] == field;
  }

  /** Otherwise the first `-` anywhere is removed, and only that one. */
  lemma OrderByFirstDash(sort: string, i: nat)
    requires !("+" <= sort)
    requires i < |sort| && sort[i] == '-'
    requires forall j :: 0 <= j < i ==> sort[j] != '-'
    ensures OrderBy(sort) == sort[..i] + sort[i + 1..]
  {
    assert SignAt(sort, i);
    assert forall j :: 0 <= j < i ==> !SignAt(sort, j) by {
      forall j | 0 <= j < i ensures !SignAt(sort, j) {
        if j == 0 {
          assert sort[..1] == [sort[0]];
        }
      }
    }
  }

  /** With no leading `+` and no `-` at all, `sort` is used unchanged. */
  lemma OrderByUnsigned(sort: string)
    requires !("+" <= sort) && '-' !in sort
    ensures OrderBy(sort) == sort
  {
    forall j | 0 <= j < |sort| ensures !SignAt(sort, j) {
      assert sort[j] in sort;
    }
  }

  /** At most one character is ever removed: the result is `sort`, or `sort` without one position. */
  lemma OrderByRemovesAtMostOne(sort: string)
    ensures OrderBy(sort) == sort
         || exists i :: 0 <= i < |sort| && OrderBy(sort) == sort[..i] + sort[i + 1..]
  {
  }

  /** Stripping the sign removes a `+` or a `-`, never a `?`: the ORDER BY field holds every `?` of `sort`. */
  lemma OrderByKeepsQuestionMarks(s: string)
    ensures Occurrences('?', OrderBy(s)) == Occurrences('?', s)
  {
    match FirstSign(s, 0)
    case None =>
    case Some(i) =>
      var before, sign, after := s[..i], [s[i]], s[i + 1..];
      assert s == before + sign + after;
      OccurrencesNone('?', sign);
      OccurrencesAppend('?', before, sign);
      OccurrencesAppend('?', before + sign, after);
      OccurrencesAppend('?', before, after);
  }

  /** How a client encodes a field and a direction in `sort`. */
  function SortParam(field: string, descending: bool): string
  {
    if descending then "-" + field else field
  }

  /** A field name with no sign characters comes back out of `sort` with its direction. */
  lemma SortRoundTrip(field: string, descending: bool)
    requires !("+" <= field) && '-' !in field
    ensures OrderBy(SortParam(field, descending)) == field
    ensures Order(SortParam(field, descending)) == (if descending then "DESC" else "ASC")
  {
    var s := SortParam(field, descending);
    if descending {
      assert s[0] == '-';
      OrderByFirstDash(s, 0);
      assert s[1..] == field;
    } else {
      OrderByUnsigned(field);
      if |field| > 0 {
        assert field[0] in field;
      }
    }
  }

  /** The quirk of the pattern: an inner `-` is removed from a name that has no leading sign. */
  lemma OrderByInnerDash()
    ensures OrderBy("a-b") == "ab"
  {
    assert "a-b"[0] == 'a';
    OrderByFirstDash("a-b", 1);
    assert "a-b"[..1] + "a-b"[2..] == "ab";
  }

  /** Only the first `-` is removed: `"-a-b"` orders descending by `"a-b"`. */
  lemma OrderByOnlyFirstDash()
    ensures OrderBy("-a-b") == "a-b" && Order("-a-b") == "DESC"
  {
    assert "-a-b"[0] == '-';
    OrderByFirstDash("-a-b", 0);
    assert "-a-b"[1..] == "a-b";
  }

  /** After a leading `+` a `-` survives: `"+-a"` orders ascending by `"-a"`. */
  lemma OrderByPlusThenDash()
    ensures OrderBy("+-a") == "-a" && Order("+-a") == "ASC"
  {
    OrderByLeadingPlus("-a");
    assert "+" + "-a" == "+-a";
  }

  /** The default `sort` orders ascending by the id column. */
  lemma DefaultSortAscending()
    ensures Order(DefaultSort) == "ASC"
    ensures OrderBy(DefaultSort) == DefaultSort
  {
    assert DefaultSort[0] == 'm';
    assert '-' !in DefaultSort;
    OrderByUnsigned(DefaultSort);
  }

  const BaseClause: string := "WHERE 1=1"
  const TitleCondition: string := " AND title LIKE ?"

  /** The title filter as `if (filters.title)` sees it: present and a non-empty (truthy) string. */
  function TitleFilter(filters: map<string, string>): Option<string>
  {
    if "title" in filters && filters["title"] != "" then Some(filters["title"]) else None
  }

  /** A WHERE clause together with the values bound to its placeholders. */
  datatype Predicate = Predicate(clause: string, params: seq<Value>)

  /** The predicate `getArticles` builds for the given filters. */
  function WherePredicate(filters: map<string, string>): Predicate
  {
    match TitleFilter(filters)
    case None => Predicate(BaseClause, [])
    case Some(t) => Predicate(BaseClause + TitleCondition, [Text("%" + t + "%")])
  }

  /** Builds the clause with `+=` and the parameters with `push`, as `getArticles` does. */
  method BuildWhere(filters: map<string, string>) returns (whereClause: string, params: seq<Value>)
    ensures Predicate(whereClause, params) == WherePredicate(filters)
  {
    whereClause := BaseClause;
    params := [];
    if "title" in filters && filters["title"] != "" {
      whereClause := whereClause + TitleCondition;
      params := params + [Text("%" + filters["title"] + "%")];
    }
  }

  /** The title condition is appended, with its one `%title%` parameter, exactly when the title filter is truthy. */
  lemma TitleConditionIff(filters: map<string, string>)
    ensures WherePredicate(filters).clause == BaseClause + TitleCondition <==> TitleFilter(filters).Some?
    ensures WherePredicate(filters).clause == BaseClause <==> TitleFilter(filters).None?
    ensures WherePredicate(filters).params == [] <==> TitleFilter(filters).None?
    ensures TitleFilter(filters).Some? <==> "title" in filters && filters["title"] != ""
    ensures TitleFilter(filters).Some? ==>
              WherePredicate(filters).params == [Text("%" + filters["title"] + "%")]
  {
    assert |BaseClause + TitleCondition| != |BaseClause|;
  }

  /** The clause has exactly one `?` per bound parameter. */
  lemma PlaceholdersMatchParams(filters: map<string, string>)
    ensures Occurrences('?', WherePredicate(filters).clause) == |WherePredicate(filters).params|
  {
    BaseAndConditionPlaceholders();
    OccurrencesAppend('?', BaseClause, TitleCondition);
  }

  lemma BaseAndConditionPlaceholders()
    ensures Occurrences('?', BaseClause) == 0
    ensures Occurrences('?', TitleCondition) == 1
  {
    OccurrencesNone('?', BaseClause);
    var cond := " AND title LIKE ";
    assert TitleCondition == cond + "?";
    OccurrencesNone('?', cond);
    QuestionMarkOnce();
    OccurrencesAppend('?', cond, "?");
  }

  /** Filter keys other than `title` never affect the predicate, whether added, changed or removed. */
  lemma OnlyTitleMatters(filters: map<string, string>, key: string, v: string)
    requires key != "title"
    ensures WherePredicate(filters[key := v]) == WherePredicate(filters)
    ensures WherePredicate(filters - {key}) == WherePredicate(filters)
  {
  }

  /** The two statements `getArticles` issues. */
  datatype Statement =
    | Fetch(where: Predicate, orderBy: string, order: string, limit: int, offset: int)
    | Count(where: Predicate)

  /** The fetch's SQL text, with the whitespace of the template literal in `getArticles`; `column` and `ord` are interpolated. */
  function FetchText(clause: string, column: string, ord: string): string
  {
    "\n        SELECT * FROM articles \n        " + clause + " \n        ORDER BY " + column + " " + ord
    + " \n        LIMIT ? OFFSET ?"
  }

  function CountText(clause: string): string
  {
    "SELECT COUNT(*) as total FROM articles " + clause
  }

  function SqlText(st: Statement): string
  {
    match st
    case Fetch(w, column, ord, _, _) => FetchText(w.clause, column, ord)
    case Count(w) => CountText(w.clause)
  }

  /** The values bound to the statement's placeholders, in order. */
  function Args(st: Statement): seq<Value>
  {
    match st
    case Fetch(w, _, _, l, o) => w.params + [Int(l), Int(o)]
    case Count(w) => w.params
  }

  function FetchStatement(q: Query): Statement
  {
    Fetch(WherePredicate(q.filters), OrderBy(SortOf(q)), Order(SortOf(q)),
          LimitOf(q), Offset(PageOf(q), LimitOf(q)))
  }

  function CountStatement(q: Query): Statement
  {
    Count(WherePredicate(q.filters))
  }

  /** The statement-building part of `getArticles`. */
  method BuildStatements(q: Query) returns (fetch: Statement, count: Statement)
    ensures fetch == FetchStatement(q) && count == CountStatement(q)
  {
    var page := if q.page.Some? then q.page.value else DefaultPage;
    var limit := if q.limit.Some? then q.limit.value else DefaultLimit;
    var sort := if q.sort.Some? then q.sort.value else DefaultSort;
    var offset := (page - 1) * limit;
    var order := if |sort| > 0 && sort[0] == '-' then "DESC" else "ASC";
    var orderBy := OrderBy(sort);
    assert page == PageOf(q) && limit == LimitOf(q) && sort == SortOf(q);
    assert offset == Offset(page, limit) && order == Order(sort);
    var whereClause, params := BuildWhere(q.filters);
    fetch := Fetch(Predicate(whereClause, params), orderBy, order, limit, offset);
    count := Count(Predicate(whereClause, params));
  }

  /** The fetch binds the count's parameters followed by `limit, offset`, over the same WHERE clause. */
  lemma FetchAndCountShareWhere(q: Query)
    ensures FetchStatement(q).where == CountStatement(q).where
    ensures Args(FetchStatement(q)) ==
            Args(CountStatement(q)) + [Int(LimitOf(q)), Int(Offset(PageOf(q), LimitOf(q)))]
    ensures Args(CountStatement(q)) == WherePredicate(q.filters).params
  {
  }

  /** With nothing given, the fetch reads the first 20 rows in ascending id order. */
  lemma DefaultRequest(filters: map<string, string>)
    ensures FetchStatement(Query(None, None, None, filters)) ==
            Fetch(WherePredicate(filters), "mettingroom_id", "ASC", 20, 0)
  {
    DefaultSortAscending();
  }

  /**
   * The count has one placeholder per argument. The fetch has one per argument plus
   * every `?` of the client's `sort`, which is interpolated into ORDER BY unchecked.
   */
  lemma {:induction false} PlaceholderBalance(q: Query)
    ensures Occurrences('?', SqlText(CountStatement(q))) == |Args(CountStatement(q))|
    ensures Occurrences('?', SqlText(FetchStatement(q))) ==
            |Args(FetchStatement(q))| + Occurrences('?', OrderBy(SortOf(q)))
  {
    var w := WherePredicate(q.filters);
    var column := OrderBy(SortOf(q));
    var ord := Order(SortOf(q));
    PlaceholdersMatchParams(q.filters);
    CountTextPlaceholders(w.clause);
    FetchTextPlaceholders(w.clause, column, ord);
  }

  lemma QuestionMarkOnce()
    ensures Occurrences('?', "?") == 1
  {
    assert "?"[..0] == [];
  }

  lemma CountTextPlaceholders(clause: string)
    ensures Occurrences('?', CountText(clause)) == Occurrences('?', clause)
  {
    var head := "SELECT COUNT(*) as total FROM articles ";
    OccurrencesNone('?', head);
    OccurrencesAppend('?', head, clause);
  }

  lemma FetchTextPlaceholders(clause: string, column: string, ord: string)
    requires ord == "ASC" || ord == "DESC"
    ensures Occurrences('?', FetchText(clause, column, ord)) ==
            Occurrences('?', clause) + Occurrences('?', column) + 2
  {
    var p1 := "\n        SELECT * FROM articles \n        ";
    var p2 := " \n        ORDER BY ";
    var p3 := " ";
    var p4 := " \n        LIMIT ";
    var p5 := " OFFSET ";
    var tail := " \n        LIMIT ? OFFSET ?";
    OccurrencesNone('?', p1);
    OccurrencesNone('?', p2);
    OccurrencesNone('?', p3);
    OccurrencesNone('?', p4);
    OccurrencesNone('?', p5);
    OccurrencesNone('?', ord);
    QuestionMarkOnce();
    assert tail == p4 + "?" + p5 + "?";
    OccurrencesAppend('?', p4, "?");
    OccurrencesAppend('?', p4 + "?", p5);
    OccurrencesAppend('?', p4 + "?" + p5, "?");
    OccurrencesAppend('?', p1, clause);
    OccurrencesAppend('?', p1 + clause, p2);
    OccurrencesAppend('?', p1 + clause + p2, column);
    OccurrencesAppend('?', p1 + clause + p2 + column, p3);
    OccurrencesAppend('?', p1 + clause + p2 + column + p3, ord);
    OccurrencesAppend('?', p1 + clause + p2 + column + p3 + ord, tail);
  }
}
