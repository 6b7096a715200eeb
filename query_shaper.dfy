/** Query shaping for the two listing endpoints: the sort-field whitelists,
    the sort direction, and the page window of the article listing. */
module QueryShaper {
  import opened Common

  /** JavaScript truthiness of a query value. */
  predicate Truthy(p: Param) {
    match p
    case Absent => false
    case Text(s) => s != ""
    case Number(n) => n != 0
  }

  /** JavaScript's `a || b`: `a` when it is truthy, `b` otherwise. */
  function JsOr(a: Param, b: Param): Param {
    if Truthy(a) then a else b
  }

  /** The article `getSortBy`: `title` and `category` are kept, any other
      value (absent included) sorts by `createdAt`. */
  function ArticleSortBy(p: Param): (r: string)
    ensures r == "title" || r == "category" || r == "createdAt"
    ensures r != "createdAt" ==> p == Text(r)
    ensures p == Text("title") || p == Text("category") ==> r == p.s
  {
    if p != Text("title") && p != Text("category") then "createdAt" else p.s
  }

  /** `getOrderBy` of both controllers: `order === ('desc' || -1)`. The
      parenthesised `||` evaluates to `'desc'`, so only that string sorts
      descending; the number -1 and everything else sort ascending. */
  function OrderBy(p: Param): (r: int)
    ensures r == -1 || r == 1
    ensures r == -1 <==> p == Text("desc")
  {
    if p == JsOr(Text("desc"), Number(-1)) then -1 else 1
  }

  const MaxPage := 10
  const MaxLimit := 10

  /** `getPage`: an integer in [1, 10] is kept, anything else gives 1. */
  function Page(p: Option<int>): (r: int)
    ensures 1 <= r <= MaxPage
    ensures p.Some? && 1 <= p.value <= MaxPage ==> r == p.value
    ensures !(p.Some? && 1 <= p.value <= MaxPage) ==> r == 1
  {
    if p.Some? && p.value > 0 && p.value <= MaxPage then p.value else 1
  }

  /** `getLimit`: an integer in [1, 10] is kept, anything else gives 10. */
  function Limit(p: Option<int>): (r: int)
    ensures 1 <= r <= MaxLimit
    ensures p.Some? && 1 <= p.value <= MaxLimit ==> r == p.value
    ensures !(p.Some? && 1 <= p.value <= MaxLimit) ==> r == MaxLimit
  {
    if p.Some? && p.value > 0 && p.value <= MaxLimit then p.value else MaxLimit
  }

  /** `skipCount` of `getArticles`. */
  function Skip(page: int, limit: int): int {
    (page - 1) * limit
  }

  /** Whatever the query asks, the window starts within the first 90
      records and ends within the first 100: no listing scans further. */
  lemma SkipBounds(page: Option<int>, limit: Option<int>)
    ensures 0 <= Skip(Page(page), Limit(limit)) <= 90
    ensures Skip(Page(page), Limit(limit)) + Limit(limit) <= MaxPage * MaxLimit
  {
    WindowBelow(Page(page), Limit(limit));
  }

  /** The window of a clamped page and limit, over plain integers. */
  lemma WindowBelow(p: int, l: int)
    requires 1 <= p <= MaxPage && 1 <= l <= MaxLimit
    ensures 0 <= Skip(p, l) <= 90 && Skip(p, l) + l <= MaxPage * MaxLimit
  {
    var k: nat := p - 1;
    assert Skip(p, l) == k * l;
    ScaleBelow(k, l, MaxLimit);
    ScaleBelow(MaxLimit, k, MaxPage - 1);
    assert k * MaxLimit == MaxLimit * k;
    ScaleBelow(p, l, MaxLimit);
    ScaleBelow(MaxLimit, p, MaxPage);
    assert k * l + l == p * l;
    assert p * MaxLimit == MaxLimit * p;
  }

  /** Multiplying by a non-negative factor keeps an inequality. */
  lemma ScaleBelow(k: nat, a: int, b: int)
    requires a <= b
    ensures k * a <= k * b
  {
  }

  /** Two requests with the same limit get windows that share no position
      exactly when their pages differ: paging never shows a record twice. */
  lemma PagesDisjoint(page1: Option<int>, page2: Option<int>, limit: Option<int>)
    ensures var l := Limit(limit);
      var s1, s2 := Skip(Page(page1), l), Skip(Page(page2), l);
      Page(page1) != Page(page2) <==> s1 + l <= s2 || s2 + l <= s1
  {
    var p1, p2, l := Page(page1), Page(page2), Limit(limit);
    if p1 < p2 {
      SkipStep(p1, p2, l);
    } else if p2 < p1 {
      SkipStep(p2, p1, l);
    }
  }

  /** A later page starts at or after the end of an earlier one. */
  lemma SkipStep(p: int, q: int, l: int)
    requires p < q && 1 <= l
    ensures Skip(p, l) + l <= Skip(q, l)
  {
    var d := q - p;
    assert (q - 1) * l == (p - 1) * l + d * l;
    ScaleBelow(l, 1, d);
    assert d * l == l * d;
  }

  /** `.skip(skipCount).limit(limit)` applied to the sorted result: the
      records at positions `skip`, `skip + 1`, … up to `limit` of them. */
  function Window<T>(sorted: seq<T>, skip: nat, limit: nat): (r: seq<T>)
    ensures |r| == if skip >= |sorted| then 0 else if |sorted| - skip < limit then |sorted| - skip else limit
    ensures forall i :: 0 <= i < |r| ==> r[i] == sorted[skip + i]
  {
    if skip >= |sorted| then []
    else if |sorted| - skip < limit then sorted[skip..]
    else sorted[skip..skip + limit]
  }

  /** The shaped listing request of `getArticles`. */
  datatype Plan = Plan(sortBy: string, order: int, skip: nat, limit: nat)

  function ArticlePlan(sortBy: Param, orderBy: Param, page: Option<int>, limit: Option<int>): (r: Plan)
    ensures r.sortBy in {"title", "category", "createdAt"}
    ensures r.order in {-1, 1}
    ensures 1 <= r.limit <= MaxLimit && r.skip + r.limit <= MaxPage * MaxLimit
    ensures r.sortBy == ArticleSortBy(sortBy) && r.order == OrderBy(orderBy)
    ensures r.limit == Limit(limit) && r.skip == (Page(page) - 1) * r.limit
  {
    SkipBounds(page, limit);
    var p, l := Page(page), Limit(limit);
    Plan(ArticleSortBy(sortBy), OrderBy(orderBy), Skip(p, l), l)
  }

  /** Every path of the user schema, `timestamps` and `_id` included
      (`versionKey: false` leaves out `__v`). */
  const UserPaths: seq<string> :=
    ["firstName", "lastName", "fullName", "email", "role", "age", "numberOfArticles",
     "createdAt", "updatedAt", "_id"]

  /** The user `getSortBy`: a schema path is kept, anything else (absent
      included) sorts by `createdAt`. */
  function UserSortBy(p: Param): (r: string)
    ensures r in UserPaths
    ensures p.Text? && p.s in UserPaths ==> r == p.s
    ensures r != "createdAt" ==> p == Text(r)
  {
    if p.Text? && p.s in UserPaths then p.s else "createdAt"
  }
}
