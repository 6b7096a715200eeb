/** The three mutating handlers of `src/controllers/article.controller.js`:
    the checks each performs before it touches the store, in the order it
    performs them, and the store calls that follow. `validateById` is a
    parameter: its source is not part of this model. */
module ArticleController {
  import opened Common
  import A = ArticleSchema
  import opened Store
  import ArticleHooks
  import Q = QueryShaper

  const OwnerRequired := "Owner is required"
  const InvalidOwner := "Invalid owner id"
  const InvalidArticle := "Invalid article id"
  const ArticleNotFound := "Article not found"
  const PermissionDenied := "Permission denied"

  /** `!ownerId`: an absent owner and the empty string are both falsy. */
  predicate Missing(v: Option<string>) {
    v.None? || v.value == ""
  }

  /** `createArticle`: the owner must be given and well formed, then the
      new article is saved under the id the store hands out. */
  method CreateArticle(db: Database, owner: Option<string>, f: A.Fields, newId: Id,
                       validate: string -> bool, now: Time) returns (r: Reply<A.Article>)
    requires db.Valid()
    modifies db
    ensures db.Valid()
    ensures Missing(owner) ==> r == Refused(BadRequest, OwnerRequired) && unchanged(db)
    ensures !Missing(owner) && !validate(owner.value) ==> r == Refused(BadRequest, InvalidOwner) && unchanged(db)
    ensures !Missing(owner) && validate(owner.value) ==>
      var a, o := A.New(f, owner.value, now), owner.value;
      && (A.Errors(a) != [] ==> r == Failed(Invalid(A.Errors(a))) && unchanged(db))
      && (A.Errors(a) == [] && o !in old(db.users) ==>
            r == Failed(Thrown(ArticleHooks.MissingOwner)) && unchanged(db))
      && (A.Errors(a) == [] && o in old(db.users) && newId in old(db.articles) ==>
            && r == Failed(Server(11000, DuplicateKey))
            && db.users == old(db.users)[o := Bump(old(db.users)[o], 1, now)]
            && db.articles == old(db.articles) && db.order == old(db.order))
    ensures r.Success? <==>
      && !Missing(owner) && validate(owner.value)
      && A.Errors(A.New(f, owner.value, now)) == []
      && owner.value in old(db.users) && newId !in old(db.articles)
    ensures r.Success? ==>
      && r.value == A.New(f, owner.value, now)
      && db.users == old(db.users)[owner.value := Bump(old(db.users)[owner.value], 1, now)]
      && db.articles == old(db.articles)[newId := r.value]
      && db.order == old(db.order) + [newId]
    ensures old(db.OwnersExist()) ==> db.OwnersExist()
    ensures old(db.CountsHold() && db.OwnersExist()) && r.Success? ==> db.CountsHold()
  {
    if Missing(owner) {
      return Refused(BadRequest, OwnerRequired);
    }
    if !validate(owner.value) {
      return Refused(BadRequest, InvalidOwner);
    }
    var article := A.New(f, owner.value, now);
    var saved := ArticleHooks.Save(db, newId, article, now);
    match saved
    case Done(a) => r := Success(a);
    case Threw(failure) => r := Failed(failure);
  }

  /** `getArticles`: the query is shaped into a plan, the store sorts its
      articles by the plan's key and direction (`sort` stands for that
      sort, whose order is not modelled), and `.skip(skip).limit(limit)`
      picks the page. At most ten records come back, each from the sorted
      list at its position in the page. */
  function GetArticles(sort: (string, int) -> seq<A.Article>, sortBy: Param, orderBy: Param,
                       page: Option<int>, limit: Option<int>): (r: seq<A.Article>)
    ensures var sorted, skip := sort(Q.ArticleSortBy(sortBy), Q.OrderBy(orderBy)), Q.Skip(Q.Page(page), Q.Limit(limit));
      && |r| <= Q.Limit(limit) <= Q.MaxLimit
      && 0 <= skip && (|sorted| >= skip + Q.Limit(limit) ==> |r| == Q.Limit(limit))
      && |r| == (if |sorted| <= skip then 0 else if |sorted| - skip < Q.Limit(limit) then |sorted| - skip else Q.Limit(limit))
      && forall i :: 0 <= i < |r| ==> skip + i < |sorted| && r[i] == sorted[skip + i]
  {
    var plan := Q.ArticlePlan(sortBy, orderBy, page, limit);
    Q.Window(sort(plan.sortBy, plan.order), plan.skip, plan.limit)
  }

  /** `updateArticleById`: a well-formed id, a stored article and a caller
      who owns it, in that order; then the update with validators. */
  method UpdateArticleById(db: Database, id: Id, f: A.Fields, caller: Id,
                           validate: string -> bool, now: Time) returns (r: Reply<A.Article>)
    requires db.Valid()
    modifies db
    ensures db.Valid()
    ensures db.users == old(db.users) && db.order == old(db.order)
    ensures !validate(id) ==> r == Refused(BadRequest, InvalidArticle) && unchanged(db)
    ensures validate(id) && id !in old(db.articles) ==> r == Refused(NotFound, ArticleNotFound) && unchanged(db)
    ensures validate(id) && id in old(db.articles) && old(db.articles)[id].owner != caller ==>
      r == Refused(Forbidden, PermissionDenied) && unchanged(db)
    ensures validate(id) && id in old(db.articles) && old(db.articles)[id].owner == caller && A.UpdateErrors(f) != [] ==>
      r == Failed(Invalid(A.UpdateErrors(f))) && unchanged(db)
    ensures r.Success? <==>
      validate(id) && id in old(db.articles) && old(db.articles)[id].owner == caller && A.UpdateErrors(f) == []
    ensures r.Success? ==>
      && r.value == A.Edit(old(db.articles)[id], f, now)
      && r.value.owner == caller
      && db.articles == old(db.articles)[id := r.value]
    ensures !r.Success? ==> unchanged(db)
    ensures old(db.CountsHold() && db.OwnersExist()) ==> db.CountsHold() && db.OwnersExist()
  {
    if !validate(id) {
      return Refused(BadRequest, InvalidArticle);
    }
    if id !in db.articles {
      return Refused(NotFound, ArticleNotFound);
    }
    if db.articles[id].owner != caller {
      return Refused(Forbidden, PermissionDenied);
    }
    var updated := ArticleHooks.FindByIdAndUpdate(db, id, f, now);
    match updated
    case Done(a) => r := Success(a);
    case Threw(failure) => r := Failed(failure);
  }

  /** `deleteArticleById`: a well-formed id and a stored article; then the
      body's fields are written with validators, and the article is
      deleted. The reply is the article as that update left it. There is
      no owner check. The source deletes through the query
      `Article.deleteOne({_id})` while its decrement hook is registered
      for documents only; the decrement is modelled as intended, and
      `ArticleHooks.QueryDeleteOne` shows what skipping it does. */
  method DeleteArticleById(db: Database, id: Id, f: A.Fields,
                           validate: string -> bool, now: Time) returns (r: Reply<A.Article>)
    requires db.Valid()
    modifies db
    ensures db.Valid()
    ensures !validate(id) ==> r == Refused(BadRequest, InvalidArticle) && unchanged(db)
    ensures validate(id) && id !in old(db.articles) ==> r == Refused(NotFound, ArticleNotFound) && unchanged(db)
    ensures validate(id) && id in old(db.articles) && A.UpdateErrors(f) != [] ==>
      r == Failed(Invalid(A.UpdateErrors(f))) && unchanged(db)
    ensures validate(id) && id in old(db.articles) && A.UpdateErrors(f) == []
            && old(db.articles)[id].owner !in old(db.users) ==>
      && r == Failed(TypeFault(ArticleHooks.NullOwner))
      && db.users == old(db.users) && db.order == old(db.order)
      && db.articles == old(db.articles)[id := A.Edit(old(db.articles)[id], f, now)]
    ensures r.Success? <==>
      && validate(id) && id in old(db.articles) && A.UpdateErrors(f) == []
      && old(db.articles)[id].owner in old(db.users)
    ensures r.Success? ==>
      var o := old(db.articles)[id].owner;
      && r.value == A.Edit(old(db.articles)[id], f, now)
      && id !in db.articles
      && db.articles == old(db.articles) - {id}
      && db.order == Retain(old(db.order), db.articles.Keys)
      && db.users == old(db.users)[o := Bump(old(db.users)[o], -1, now)]
    ensures old(db.CountsHold() && db.OwnersExist()) ==> db.CountsHold() && db.OwnersExist()
  {
    if !validate(id) {
      return Refused(BadRequest, InvalidArticle);
    }
    if id !in db.articles {
      return Refused(NotFound, ArticleNotFound);
    }
    ghost var articles0 := db.articles;
    var updated := ArticleHooks.FindByIdAndUpdate(db, id, f, now);
    if updated.Threw? {
      return Failed(updated.failure);
    }
    assert db.articles - {id} == articles0 - {id};
    assert db.articles[id].owner == articles0[id].owner;
    var deleted := ArticleHooks.DeleteOne(db, id, now);
    match deleted
    case Done(_) => r := Success(updated.value);
    case Threw(failure) => r := Failed(failure);
  }
}
