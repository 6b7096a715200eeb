/** The store-facing half of `src/models/user.model.js`: `user.save()` with
    its `pre('validate')`, `pre('save')` and `post('save')` hooks, and
    `User.deleteOne` with its `pre('deleteOne')` cascade over the user's
    articles. Each hook acts on the document or query it is about (the
    source's arrow functions would bind `this` to the module instead). */
module UserHooks {
  import opened Common
  import U = UserSchema
  import opened Store

  /** The stored version a save compares against: none for a new document. */
  function Before(users: Users, id: Id, isNew: bool): (b: Option<U.User>)
    requires !isNew ==> id in users
    ensures b.None? <==> isNew
    ensures b.Some? ==> b.value == users[id]
  {
    if isNew then None else Some(users[id])
  }

  /** The document `save` writes: the age clamp, then the `pre('save')`
      stamp and `fullName` derivation. */
  function Saved(users: Users, id: Id, doc: U.User, isNew: bool, now: Time): (u: U.User)
    requires !isNew ==> id in users
    ensures u.updatedAt == now
    ensures u.(fullName := doc.fullName, updatedAt := doc.updatedAt, age := doc.age) == doc
    ensures (doc.age.Some? && doc.age.value < 0 ==> u.age == Some(1))
    ensures !(doc.age.Some? && doc.age.value < 0) ==> u.age == doc.age
    ensures U.NamesModified(Before(users, id, isNew), doc) ==>
      u.fullName == Some(U.Show(doc.firstName) + " " + U.Show(doc.lastName))
    ensures !U.NamesModified(Before(users, id, isNew), doc) ==> u.fullName == doc.fullName
  {
    var clamped := U.ClampAge(doc);
    U.PreSave(clamped, U.NamesModified(Before(users, id, isNew), clamped), now)
  }

  /** `user.save()` of `doc` under `id`; `isNew` tells an insert from an
      update of the stored document. The clamp runs before validation,
      validation before `pre('save')`; an insert under an id already in use
      is the store's duplicate key error, which `post('save')` renames. */
  method Save(db: Database, id: Id, doc: U.User, isNew: bool, now: Time) returns (r: Attempt<U.User>)
    requires db.Valid() && (!isNew ==> id in db.users)
    modifies db
    ensures db.Valid()
    ensures db.articles == old(db.articles) && db.order == old(db.order)
    ensures var e := U.Errors(U.ClampAge(doc));
      && (e != [] ==> r == Threw(Invalid(e)) && unchanged(db))
      && (e == [] && isNew && id in old(db.users) ==> r == Threw(Thrown(U.DuplicateEmail)) && unchanged(db))
      && (e == [] && !(isNew && id in old(db.users)) ==>
            && r == Done(Saved(old(db.users), id, doc, isNew, now))
            && db.users == old(db.users)[id := r.value])
    ensures old(db.OwnersExist()) ==> db.OwnersExist()
    ensures old(db.CountsHold() && db.OwnersExist()) && r.Done? ==>
      (db.CountsHold() <==> r.value.numberOfArticles == if isNew then 0 else old(db.users)[id].numberOfArticles)
  {
    var clamped := U.ClampAge(doc);
    var errors := U.Errors(clamped);
    if errors != [] {
      return Threw(U.MapSaveError(Invalid(errors)));
    }
    if isNew && id in db.users {
      return Threw(U.MapSaveError(Server(11000, DuplicateKey)));
    }
    var saved := Saved(db.users, id, doc, isNew, now);
    U.PreSaveKeepsErrors(clamped, U.NamesModified(Before(db.users, id, isNew), clamped), now);
    if CountsMatch(db.users, db.articles) && NoOrphans(db.users, db.articles) {
      if isNew {
        InsertUserPreserves(db.users, db.articles, id, saved);
      } else {
        ReplaceUserPreserves(db.users, db.articles, id, saved);
      }
    }
    db.PutUser(id, saved);
    r := Done(saved);
  }

  /** `User.deleteOne({_id: id})`: the `pre('deleteOne')` hook removes every
      article the user owns, then the user goes. No count is touched, so
      nothing else changes and the invariants hold afterwards. */
  method DeleteOne(db: Database, id: Id)
    requires db.Valid()
    modifies db
    ensures db.Valid()
    ensures db.users == old(db.users) - {id}
    ensures db.articles == RemoveOwned(old(db.articles), id)
    ensures db.order == Retain(old(db.order), db.articles.Keys)
    ensures OwnedBy(db.articles, id) == {}
    ensures old(db.CountsHold() && db.OwnersExist()) ==> db.CountsHold() && db.OwnersExist()
  {
    if db.CountsHold() && db.OwnersExist() {
      CascadePreserves(db.users, db.articles, id);
    }
    db.KeepArticles(RemoveOwned(db.articles, id));
    db.RemoveUser(id);
  }
}
