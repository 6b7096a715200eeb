/** The store-facing half of `src/models/article.model.js`: `article.save()`
    with its `pre('save')` owner check and count increment, the document
    `deleteOne` with its `pre('deleteOne')` count decrement, and
    `findByIdAndUpdate` with its `pre('findOneAndUpdate')` stamp. Each hook
    acts on the document it is about (the source's arrow functions would
    bind `this` to the module instead). */
module ArticleHooks {
  import opened Common
  import A = ArticleSchema
  import opened Store

  const MissingOwner := "owner doesn't exist"
  const NullOwner := "Cannot read properties of null (reading 'numberOfArticles')"

  /** `article.save()` on a new article with id `id`: validation, then the
      `pre('save')` hook (look the owner up, raise its count, save it),
      then the insert. The owner is updated before the insert, so an insert
      that fails leaves the owner's count one too high. */
  method Save(db: Database, id: Id, a: A.Article, now: Time) returns (r: Attempt<A.Article>)
    requires db.Valid()
    modifies db
    ensures db.Valid()
    ensures A.Errors(a) != [] ==> r == Threw(Invalid(A.Errors(a))) && unchanged(db)
    ensures A.Errors(a) == [] && a.owner !in old(db.users) ==> r == Threw(Thrown(MissingOwner)) && unchanged(db)
    ensures A.Errors(a) == [] && a.owner in old(db.users) ==>
      && db.users == old(db.users)[a.owner := Bump(old(db.users)[a.owner], 1, now)]
      && (id in old(db.articles) ==>
            r == Threw(Server(11000, DuplicateKey)) && db.articles == old(db.articles) && db.order == old(db.order))
      && (id !in old(db.articles) ==>
            r == Done(a) && db.articles == old(db.articles)[id := a] && db.order == old(db.order) + [id])
    ensures old(db.OwnersExist()) ==> db.OwnersExist()
    ensures old(db.CountsHold() && db.OwnersExist()) && r.Done? ==> db.CountsHold()
  {
    var errors := A.Errors(a);
    if errors != [] {
      return Threw(Invalid(errors));
    }
    if a.owner !in db.users {
      return Threw(Thrown(MissingOwner));
    }
    ghost var users0, articles0 := db.users, db.articles;
    BumpKeepsSchema(db.users[a.owner], 1, now);
    db.PutUser(a.owner, Bump(db.users[a.owner], 1, now));
    if id in db.articles {
      return Threw(Server(11000, DuplicateKey));
    }
    if CountsMatch(users0, articles0) && NoOrphans(users0, articles0) {
      CreatePreserves(users0, articles0, id, a, now);
    }
    db.InsertArticle(id, a);
    r := Done(a);
  }

  /** `findByIdAndUpdate(id, fields, {runValidators: true, new: true})` on a
      stored article: the update validators check the given fields, the
      `pre('findOneAndUpdate')` hook stamps `updatedAt`, and the updated
      document is returned. */
  method FindByIdAndUpdate(db: Database, id: Id, f: A.Fields, now: Time) returns (r: Attempt<A.Article>)
    requires db.Valid() && id in db.articles
    modifies db
    ensures db.Valid()
    ensures db.users == old(db.users) && db.order == old(db.order)
    ensures A.UpdateErrors(f) != [] ==> r == Threw(Invalid(A.UpdateErrors(f))) && unchanged(db)
    ensures A.UpdateErrors(f) == [] ==>
      r == Done(A.Edit(old(db.articles)[id], f, now)) && db.articles == old(db.articles)[id := r.value]
    ensures old(db.CountsHold() && db.OwnersExist()) ==> db.CountsHold() && db.OwnersExist()
  {
    var errors := A.UpdateErrors(f);
    if errors != [] {
      return Threw(Invalid(errors));
    }
    var current := db.articles[id];
    var updated := A.Edit(current, f, now);
    A.EditKeepsSchema(current, f, now);
    if db.CountsHold() && db.OwnersExist() {
      EditPreserves(db.users, db.articles, id, updated);
    }
    db.ReplaceArticle(id, updated);
    r := Done(updated);
  }

  /** `article.deleteOne()` with its `pre('deleteOne')` hook: the owner's
      count is lowered by one and saved, then the article is removed. The
      hook has no null check, so a missing owner is a TypeError and the
      article stays. */
  method DeleteOne(db: Database, id: Id, now: Time) returns (r: Attempt<A.Article>)
    requires db.Valid() && id in db.articles
    modifies db
    ensures db.Valid()
    ensures r.Threw? <==> old(db.articles)[id].owner !in old(db.users)
    ensures r.Threw? ==> r == Threw(TypeFault(NullOwner)) && unchanged(db)
    ensures r.Done? ==> r.value == old(db.articles)[id]
    ensures r.Done? ==> var o := r.value.owner; db.users == old(db.users)[o := Bump(old(db.users)[o], -1, now)]
    ensures r.Done? ==> db.articles == old(db.articles) - {id} && db.order == Retain(old(db.order), db.articles.Keys)
    ensures old(db.CountsHold() && db.OwnersExist()) ==> db.CountsHold() && db.OwnersExist()
  {
    var article := db.articles[id];
    var o := article.owner;
    if o !in db.users {
      return Threw(TypeFault(NullOwner));
    }
    if db.CountsHold() && db.OwnersExist() {
      DeletePreserves(db.users, db.articles, id, now);
    }
    BumpKeepsSchema(db.users[o], -1, now);
    db.PutUser(o, Bump(db.users[o], -1, now));
    db.KeepArticles(db.articles - {id});
    r := Done(article);
  }

  /** `Article.deleteOne({_id: id})` as the source's delete handler issues
      it: a query, and the decrement hook is registered for documents only,
      so the article goes and its owner keeps the old count. From a
      consistent store with the owner present, the counts are wrong
      afterwards. */
  method QueryDeleteOne(db: Database, id: Id)
    requires db.Valid() && id in db.articles
    modifies db
    ensures db.Valid()
    ensures db.users == old(db.users)
    ensures db.articles == old(db.articles) - {id} && db.order == Retain(old(db.order), db.articles.Keys)
    ensures old(db.CountsHold()) && old(db.articles)[id].owner in old(db.users) ==> !db.CountsHold()
  {
    if db.CountsHold() && db.articles[id].owner in db.users {
      RemoveWithoutLowerBreaks(db.users, db.articles, id);
    }
    db.KeepArticles(db.articles - {id});
  }
}
