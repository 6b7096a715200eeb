/** The handlers of `src/controllers/user.controller.js`: the listing with
    its existence filter and projection, the user-with-articles join, and
    the create, update and delete handlers with the checks they perform
    before touching the store. `validateById` is a parameter: its source is
    not part of this model. */
module UserController {
  import opened Common
  import Text
  import U = UserSchema
  import A = ArticleSchema
  import opened Store
  import Q = QueryShaper
  import UserHooks

  const InvalidUser := "Invalid user id"
  const UserNotFound := "User not found"

  // ---------------------------------------------------------------- getUsers

  /** `{[path]: {$exists: true}}`: whether the document holds a value at a
      schema path. `numberOfArticles` has a default and the two stamps and
      `_id` are always written, so only the other paths can be missing. */
  function HasPath(u: U.User, path: string): (b: bool)
    ensures !b ==> path in ["firstName", "lastName", "fullName", "email", "role", "age"]
    ensures U.Satisfies(u) && !b ==> path in ["fullName", "role", "age"]
    ensures path !in ["firstName", "lastName", "fullName", "email", "role", "age"] ==> b
    ensures path == "firstName" ==> (b <==> u.firstName.Some?)
    ensures path == "lastName" ==> (b <==> u.lastName.Some?)
    ensures path == "fullName" ==> (b <==> u.fullName.Some?)
    ensures path == "email" ==> (b <==> u.email.Some?)
    ensures path == "role" ==> (b <==> u.role.Some?)
    ensures path == "age" ==> (b <==> u.age.Some?)
  {
    if path == "firstName" then u.firstName.Some?
    else if path == "lastName" then u.lastName.Some?
    else if path == "fullName" then u.fullName.Some?
    else if path == "email" then u.email.Some?
    else if path == "role" then u.role.Some?
    else if path == "age" then u.age.Some?
    else true
  }

  /** One entry of the listing: the projection `{_id, fullName, email, age}`. */
  datatype UserRow = UserRow(id: Id, fullName: Option<string>, email: Option<string>, age: Option<int>)

  /** The listing `getUsers` asks for: the sort key and direction handed to
      the store's sort, and the selected rows by id. */
  datatype Listing = Listing(sortBy: string, order: int, rows: map<Id, UserRow>)

  function Row(id: Id, u: U.User): (r: UserRow)
    ensures r.id == id && r.fullName == u.fullName && r.email == u.email && r.age == u.age
  {
    UserRow(id, u.fullName, u.email, u.age)
  }

  /** `getUsers`: sorting by `createdAt` selects every user, any other sort
      key selects exactly the users that hold a value there; each selected
      user is reduced to its row. */
  function ListUsers(users: Users, sortBy: Param, orderBy: Param): (r: Listing)
    ensures r.sortBy == Q.UserSortBy(sortBy) && r.order == Q.OrderBy(orderBy)
    ensures r.sortBy == "createdAt" ==> r.rows.Keys == users.Keys
    ensures forall id :: id in r.rows <==> id in users && (r.sortBy == "createdAt" || HasPath(users[id], r.sortBy))
    ensures forall id | id in r.rows :: r.rows[id] == Row(id, users[id])
  {
    var key := Q.UserSortBy(sortBy);
    Listing(key, Q.OrderBy(orderBy),
      map id | id in users && (key == "createdAt" || HasPath(users[id], key)) :: Row(id, users[id]))
  }

  /** Over validated users the filter only drops anything for the three
      paths the schema leaves optional. */
  lemma ListDropsOnlyOnOptionalPaths(users: Users, sortBy: Param, orderBy: Param)
    requires UsersValid(users)
    ensures Q.UserSortBy(sortBy) !in {"fullName", "role", "age"} ==>
      ListUsers(users, sortBy, orderBy).rows.Keys == users.Keys
  {
    var r := ListUsers(users, sortBy, orderBy);
    if r.sortBy !in {"fullName", "role", "age"} {
      forall id | id in users ensures id in r.rows {
        assert U.Satisfies(users[id]);
      }
    }
  }

  // ------------------------------------------------- getUserByIdWithArticles

  /** `{title, subtitle, createdAt}` of one joined article. */
  datatype Summary = Summary(title: Option<string>, subtitle: Option<string>, createdAt: Time)

  /** The joined record: the user's projected fields and its articles. */
  datatype UserView = UserView(
    id: Id,
    fullName: Option<string>,
    email: Option<string>,
    age: Option<int>,
    numberOfArticles: int,
    articles: seq<Summary>)

  function Summarize(a: A.Article): (s: Summary)
    ensures s.title == a.title && s.subtitle == a.subtitle && s.createdAt == a.createdAt
  {
    Summary(a.title, a.subtitle, a.createdAt)
  }

  /** The ids `$lookup` finds for `u`: the articles referencing it, in the
      collection's natural order. */
  function Joined(order: seq<Id>, articles: Articles, u: Id): (r: seq<Id>)
    ensures forall x :: x in r <==> x in order && x in articles && articles[x].owner == u
  {
    Retain(order, OwnedBy(articles, u))
  }

  /** `getUserByIdWithArticles`. */
  function UserWithArticles(users: Users, articles: Articles, order: seq<Id>, id: Id,
                            validate: string -> bool): (r: Reply<UserView>)
    ensures !validate(id) ==> r == Refused(BadRequest, InvalidUser)
    ensures validate(id) && id !in users ==> r == Refused(NotFound, UserNotFound)
    ensures r.Success? <==> validate(id) && id in users
    ensures r.Success? ==>
      var u, v := users[id], r.value;
      && v.id == id && v.fullName == u.fullName && v.email == u.email && v.age == u.age
      && v.numberOfArticles == u.numberOfArticles
      && |v.articles| == |Joined(order, articles, id)|
      && forall i :: 0 <= i < |v.articles| ==> v.articles[i] == Summarize(articles[Joined(order, articles, id)[i]])
  {
    if !validate(id) then Refused(BadRequest, InvalidUser)
    else if id !in users then Refused(NotFound, UserNotFound)
    else
      var u := users[id];
      var ids := Joined(order, articles, id);
      Success(UserView(id, u.fullName, u.email, u.age, u.numberOfArticles,
        seq(|ids|, i requires 0 <= i < |ids| => Summarize(articles[ids[i]]))))
  }

  /** Over a store whose order lists its articles, the join lists every
      article of the user exactly once and nothing else. */
  lemma JoinedIsOwned(order: seq<Id>, articles: Articles, u: Id)
    requires Lists(order, articles)
    ensures Elements(Joined(order, articles, u)) == OwnedBy(articles, u)
    ensures Distinct(Joined(order, articles, u))
  {
    assert forall x :: x in order <==> x in articles by {
      forall x ensures x in order <==> x in Elements(order) {
      }
    }
  }

  /** When the counts are right, the joined list is as long as the user's
      `numberOfArticles`; a user that owns nothing gets an empty list. */
  lemma ViewMatchesCount(users: Users, articles: Articles, order: seq<Id>, id: Id, validate: string -> bool)
    requires Lists(order, articles) && CountsMatch(users, articles)
    requires validate(id) && id in users
    ensures var v := UserWithArticles(users, articles, order, id, validate).value;
      |v.articles| == v.numberOfArticles
    ensures OwnedBy(articles, id) == {} ==> UserWithArticles(users, articles, order, id, validate).value.articles == []
  {
    RetainLength(order, OwnedBy(articles, id));
    assert OwnedBy(articles, id) * Elements(order) == OwnedBy(articles, id);
  }

  // ---------------------------------------------------------- updateUserById

  /** The schema paths a request body can write. */
  datatype Path = FirstName | LastName | FullName | Email | Role | Age | NumberOfArticles | CreatedAt | UpdatedAt

  /** One `key: value` entry of the request body, typed by its path. */
  datatype Update =
    | SetFirstName(firstName: Option<string>)
    | SetLastName(lastName: Option<string>)
    | SetFullName(fullName: Option<string>)
    | SetEmail(email: Option<string>)
    | SetRole(role: Option<string>)
    | SetAge(age: Option<int>)
    | SetNumberOfArticles(count: int)
    | SetCreatedAt(createdAt: Time)
    | SetUpdatedAt(updatedAt: Time)
  {
    function Target(): Path {
      match this
      case SetFirstName(_) => FirstName
      case SetLastName(_) => LastName
      case SetFullName(_) => FullName
      case SetEmail(_) => Email
      case SetRole(_) => Role
      case SetAge(_) => Age
      case SetNumberOfArticles(_) => NumberOfArticles
      case SetCreatedAt(_) => CreatedAt
      case SetUpdatedAt(_) => UpdatedAt
    }
  }

  /** The value a document holds at a path, as the entry that would write it. */
  function Get(u: U.User, p: Path): (r: Update)
    ensures r.Target() == p
  {
    match p
    case FirstName => SetFirstName(u.firstName)
    case LastName => SetLastName(u.lastName)
    case FullName => SetFullName(u.fullName)
    case Email => SetEmail(u.email)
    case Role => SetRole(u.role)
    case Age => SetAge(u.age)
    case NumberOfArticles => SetNumberOfArticles(u.numberOfArticles)
    case CreatedAt => SetCreatedAt(u.createdAt)
    case UpdatedAt => SetUpdatedAt(u.updatedAt)
  }

  /** Two documents that agree on every path are the same document. */
  lemma GetDetermines(u: U.User, v: U.User)
    requires forall p :: Get(u, p) == Get(v, p)
    ensures u == v
  {
    assert Get(u, FirstName) == Get(v, FirstName);
    assert Get(u, LastName) == Get(v, LastName);
    assert Get(u, FullName) == Get(v, FullName);
    assert Get(u, Email) == Get(v, Email);
    assert Get(u, Role) == Get(v, Role);
    assert Get(u, Age) == Get(v, Age);
    assert Get(u, NumberOfArticles) == Get(v, NumberOfArticles);
    assert Get(u, CreatedAt) == Get(v, CreatedAt);
    assert Get(u, UpdatedAt) == Get(v, UpdatedAt);
  }

  /** The entry as the path's setter stores it: names trimmed, email
      lowercased. */
  function Normal(x: Update): (r: Update)
    ensures r.Target() == x.Target()
  {
    match x
    case SetFirstName(v) => SetFirstName(Text.TrimValue(v))
    case SetLastName(v) => SetLastName(Text.TrimValue(v))
    case SetEmail(v) => SetEmail(U.LowerEmail(v))
    case _ => x
  }

  /** `user[key] = value` on a stored document. `createdAt` is immutable, so
      writing it is ignored. */
  function Assign(u: U.User, x: Update): (r: U.User)
    ensures forall p :: Get(r, p) == if p == x.Target() && p != CreatedAt then Normal(x) else Get(u, p)
  {
    match x
    case SetFirstName(v) => u.(firstName := Text.TrimValue(v))
    case SetLastName(v) => u.(lastName := Text.TrimValue(v))
    case SetFullName(v) => u.(fullName := v)
    case SetEmail(v) => u.(email := U.LowerEmail(v))
    case SetRole(v) => u.(role := v)
    case SetAge(v) => u.(age := v)
    case SetNumberOfArticles(n) => u.(numberOfArticles := n)
    case SetCreatedAt(_) => u
    case SetUpdatedAt(t) => u.(updatedAt := t)
  }

  /** The entries of `body` applied one after the other. */
  function Apply(doc: U.User, body: seq<Update>): (r: U.User)
    ensures r.createdAt == doc.createdAt
    ensures forall p :: (forall i :: 0 <= i < |body| ==> body[i].Target() != p) ==> Get(r, p) == Get(doc, p)
    decreases |body|
  {
    if body == [] then doc else Assign(Apply(doc, body[..|body| - 1]), body[|body| - 1])
  }

  /** The last entry of `body` for path `p`: with repeated keys, the one
      that wins. */
  function Lookup(body: seq<Update>, p: Path): (r: Option<Update>)
    ensures r.Some? ==> r.value in body && r.value.Target() == p
    ensures r.None? <==> forall i :: 0 <= i < |body| ==> body[i].Target() != p
    ensures r.Some? ==> exists k :: LastFor(body, p, k) && body[k] == r.value
    decreases |body|
  {
    if body == [] then None
    else if body[|body| - 1].Target() == p then
      assert LastFor(body, p, |body| - 1);
      Some(body[|body| - 1])
    else
      var r := Lookup(body[..|body| - 1], p);
      if r.Some? then
        var k :| LastFor(body[..|body| - 1], p, k) && body[..|body| - 1][k] == r.value;
        LastForExtends(body, p, k);
        r
      else r
  }

  /** The last entry for `p` stays last when an entry for another path
      follows it. */
  lemma LastForExtends(body: seq<Update>, p: Path, k: int)
    requires body != [] && body[|body| - 1].Target() != p
    requires LastFor(body[..|body| - 1], p, k)
    ensures LastFor(body, p, k) && body[k] == body[..|body| - 1][k]
  {
  }

  /** Entry `k` of `body` writes `p` and no later entry does. */
  predicate LastFor(body: seq<Update>, p: Path, k: int) {
    0 <= k < |body| && body[k].Target() == p && forall j :: k < j < |body| ==> body[j].Target() != p
  }

  /** What the body should leave at a path: the setter's value of the last
      entry for it, or the stored value when there is none (and always for
      the immutable `createdAt`). */
  function Expected(doc: U.User, body: seq<Update>, p: Path): Update {
    if p != CreatedAt && Lookup(body, p).Some? then Normal(Lookup(body, p).value) else Get(doc, p)
  }

  /** Applying the entries in turn leaves at every path what `Expected`
      says. */
  lemma {:induction false} ApplyByPath(doc: U.User, body: seq<Update>, p: Path)
    ensures Get(Apply(doc, body), p) == Expected(doc, body, p)
    decreases |body|
  {
    if body != [] {
      ApplyByPath(doc, body[..|body| - 1], p);
    }
  }

  /** `for (const key in dataFromBody) user[key] = dataFromBody[key]`. */
  method ApplyBody(doc: U.User, body: seq<Update>) returns (d: U.User)
    ensures d == Apply(doc, body)
    ensures forall p :: Get(d, p) == Expected(doc, body, p)
  {
    d := doc;
    var i := 0;
    while i < |body|
      invariant 0 <= i <= |body|
      invariant d == Apply(doc, body[..i])
    {
      assert body[..i + 1][..i] == body[..i];
      d := Assign(d, body[i]);
      i := i + 1;
    }
    assert body[..|body|] == body;
    forall p ensures Get(d, p) == Expected(doc, body, p) {
      ApplyByPath(doc, body, p);
    }
  }

  /** The last `numberOfArticles` the body gives, if any. */
  function CountGiven(body: seq<Update>): (r: Option<int>)
    ensures r.None? <==> Lookup(body, NumberOfArticles).None?
    ensures r.Some? ==> Lookup(body, NumberOfArticles) == Some(SetNumberOfArticles(r.value))
  {
    match Lookup(body, NumberOfArticles)
    case Some(SetNumberOfArticles(n)) => Some(n)
    case _ => None
  }

  /** The count a body leaves: the last `numberOfArticles` it gives, or the
      stored one. */
  lemma NumberOfArticlesAfter(doc: U.User, body: seq<Update>)
    ensures Apply(doc, body).numberOfArticles ==
      if CountGiven(body).Some? then CountGiven(body).value else doc.numberOfArticles
  {
    ApplyByPath(doc, body, NumberOfArticles);
  }

  /** What an accepted update stores: every path the hooks leave alone holds
      what the body says; `age` is the body's age after the clamp, and
      `updatedAt` is the save's stamp whatever the body gave. */
  lemma SavedUpdateByPath(users: Users, id: Id, body: seq<Update>, now: Time, p: Path)
    requires id in users
    ensures var u := UserHooks.Saved(users, id, Apply(users[id], body), false, now);
      && (p != FullName && p != Age && p != UpdatedAt ==> Get(u, p) == Expected(users[id], body, p))
      && (p == Age ==> u.age == U.ClampAge(Apply(users[id], body)).age)
      && u.updatedAt == now
  {
    ApplyByPath(users[id], body, p);
  }

  // ------------------------------------------------------ the three handlers

  /** `createUser`: a new document from the body's six fields, saved under
      the id the store hands out. */
  method CreateUser(db: Database, input: U.UserInput, newId: Id, now: Time) returns (r: Reply<U.User>)
    requires db.Valid()
    modifies db
    ensures db.Valid()
    ensures db.articles == old(db.articles) && db.order == old(db.order)
    ensures var e := U.Errors(U.ClampAge(U.New(input, now)));
      && (e != [] ==> r == Failed(Invalid(e)) && unchanged(db))
      && (e == [] && newId in old(db.users) ==> r == Failed(Thrown(U.DuplicateEmail)) && unchanged(db))
      && (r.Success? <==> e == [] && newId !in old(db.users))
    ensures r.Success? ==>
      && r.value == UserHooks.Saved(old(db.users), newId, U.New(input, now), true, now)
      && db.users == old(db.users)[newId := r.value]
      && r.value.fullName == Some(r.value.firstName.value + " " + r.value.lastName.value)
    ensures old(db.OwnersExist()) ==> db.OwnersExist()
    ensures old(db.CountsHold() && db.OwnersExist()) && r.Success? ==>
      (db.CountsHold() <==> input.numberOfArticles == None || input.numberOfArticles == Some(0))
  {
    var doc := U.New(input, now);
    var saved := UserHooks.Save(db, newId, doc, true, now);
    match saved
    case Threw(failure) => r := Failed(failure);
    case Done(u) =>
      U.FullNameOfValid(U.ClampAge(doc), now);
      r := Success(u);
  }

  /** `updateUserById`: a well-formed id and a stored user, then every
      body entry is written into the document and the document is saved. */
  method UpdateUserById(db: Database, id: Id, body: seq<Update>, validate: string -> bool, now: Time)
    returns (r: Reply<U.User>)
    requires db.Valid()
    modifies db
    ensures db.Valid()
    ensures db.articles == old(db.articles) && db.order == old(db.order)
    ensures !validate(id) ==> r == Refused(BadRequest, InvalidUser) && unchanged(db)
    ensures validate(id) && id !in old(db.users) ==> r == Refused(NotFound, UserNotFound) && unchanged(db)
    ensures validate(id) && id in old(db.users) ==>
      var d := Apply(old(db.users)[id], body);
      var e := U.Errors(U.ClampAge(d));
      && (e != [] ==> r == Failed(Invalid(e)) && unchanged(db))
      && (e == [] ==>
            && r == Success(UserHooks.Saved(old(db.users), id, d, false, now))
            && db.users == old(db.users)[id := r.value])
    ensures old(db.OwnersExist()) ==> db.OwnersExist()
    ensures old(db.CountsHold() && db.OwnersExist()) && r.Success? ==>
      var given := CountGiven(body);
      (db.CountsHold() <==> given.None? || given.value == old(db.users)[id].numberOfArticles)
  {
    if !validate(id) {
      return Refused(BadRequest, InvalidUser);
    }
    if id !in db.users {
      return Refused(NotFound, UserNotFound);
    }
    var doc := ApplyBody(db.users[id], body);
    NumberOfArticlesAfter(db.users[id], body);
    var saved := UserHooks.Save(db, id, doc, false, now);
    match saved
    case Threw(failure) => r := Failed(failure);
    case Done(u) => r := Success(u);
  }

  /** `deleteUserById`: a well-formed id and a stored user, then the user
      and, through the cascade, every article it owns are deleted. The
      reply is the user as it was before. */
  method DeleteUserById(db: Database, id: Id, validate: string -> bool) returns (r: Reply<U.User>)
    requires db.Valid()
    modifies db
    ensures db.Valid()
    ensures !validate(id) ==> r == Refused(BadRequest, InvalidUser) && unchanged(db)
    ensures validate(id) && id !in old(db.users) ==> r == Refused(NotFound, UserNotFound) && unchanged(db)
    ensures r.Success? <==> validate(id) && id in old(db.users)
    ensures r.Success? ==>
      && r.value == old(db.users)[id]
      && db.users == old(db.users) - {id}
      && db.articles == RemoveOwned(old(db.articles), id)
      && db.order == Retain(old(db.order), db.articles.Keys)
      && OwnedBy(db.articles, id) == {}
    ensures old(db.CountsHold() && db.OwnersExist()) ==> db.CountsHold() && db.OwnersExist()
  {
    if !validate(id) {
      return Refused(BadRequest, InvalidUser);
    }
    if id !in db.users {
      return Refused(NotFound, UserNotFound);
    }
    var user := db.users[id];
    UserHooks.DeleteOne(db, id);
    r := Success(user);
  }
}
