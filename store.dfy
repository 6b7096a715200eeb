/** The document store behind the two models: the `users` and `articles`
    collections as maps from id to document, plus the natural order of the
    articles collection (the order `$lookup` returns them in). The module
    also states the owner/article invariants and proves how each kind of
    store change affects them. */
module Store {
  import opened Common
  import U = UserSchema
  import A = ArticleSchema

  /** The message of the store's MongoServerError for a duplicate key. */
  const DuplicateKey := "E11000 duplicate key error"

  type Users = map<Id, U.User>
  type Articles = map<Id, A.Article>

  /** The ids of the articles whose `owner` is `u`. */
  function OwnedBy(articles: Articles, u: Id): (r: set<Id>)
    ensures forall a :: a in r <==> a in articles && articles[a].owner == u
  {
    set a | a in articles && articles[a].owner == u
  }

  /** How many articles reference `u`. */
  function Count(articles: Articles, u: Id): nat {
    |OwnedBy(articles, u)|
  }

  /** The denormalised count invariant: every user's `numberOfArticles` is
      the number of articles that reference it. */
  predicate CountsMatch(users: Users, articles: Articles) {
    forall u | u in users :: users[u].numberOfArticles == Count(articles, u)
  }

  /** Every article references an existing user. */
  predicate NoOrphans(users: Users, articles: Articles) {
    forall a | a in articles :: articles[a].owner in users
  }

  predicate Distinct(s: seq<Id>) {
    forall i, j | 0 <= i < j < |s| :: s[i] != s[j]
  }

  function Elements(s: seq<Id>): set<Id> {
    set x | x in s
  }

  /** The elements of `s` that are in `keep`, in the order of `s`. */
  function Retain(s: seq<Id>, keep: set<Id>): (r: seq<Id>)
    ensures |r| <= |s|
    ensures forall x :: x in r <==> x in s && x in keep
    ensures Distinct(s) ==> Distinct(r)
  {
    if s == [] then []
    else if s[0] in keep then [s[0]] + Retain(s[1..], keep)
    else Retain(s[1..], keep)
  }

  /** Retaining distributes over concatenation, so it never reorders. */
  lemma {:induction false} RetainAppend(a: seq<Id>, b: seq<Id>, keep: set<Id>)
    ensures Retain(a + b, keep) == Retain(a, keep) + Retain(b, keep)
  {
    if a == [] {
      assert a + b == b;
    } else {
      assert (a + b)[0] == a[0];
      assert (a + b)[1..] == a[1..] + b;
      RetainAppend(a[1..], b, keep);
    }
  }

  /** From a sequence without repetitions, `Retain` keeps one entry per
      element of `keep` that the sequence holds. */
  lemma {:induction false} RetainLength(s: seq<Id>, keep: set<Id>)
    requires Distinct(s)
    ensures |Retain(s, keep)| == |keep * Elements(s)|
  {
    if s == [] {
      assert keep * Elements(s) == {};
    } else {
      var t := s[1..];
      assert Distinct(t) by {
        forall i, j | 0 <= i < j < |t| ensures t[i] != t[j] {
          assert t[i] == s[i + 1] && t[j] == s[j + 1];
        }
      }
      assert s[0] !in Elements(t) by {
        forall i | 0 <= i < |t| ensures t[i] != s[0] {
          assert t[i] == s[i + 1];
        }
      }
      assert Elements(s) == {s[0]} + Elements(t) by {
        assert s == [s[0]] + t;
      }
      RetainLength(t, keep);
      if s[0] in keep {
        assert keep * Elements(s) == {s[0]} + keep * Elements(t);
      } else {
        assert keep * Elements(s) == keep * Elements(t);
      }
    }
  }

  /** `Article.deleteMany({owner: u})`. */
  function RemoveOwned(articles: Articles, u: Id): (r: Articles)
    ensures forall a :: a in r <==> a in articles && articles[a].owner != u
    ensures forall a :: a in r ==> r[a] == articles[a]
  {
    map a | a in articles && articles[a].owner != u :: articles[a]
  }

  /** `owner.numberOfArticles += delta; await owner.save()`: the count
      moves by `delta`, the save stamps `updatedAt`, nothing else changes. */
  function Bump(u: U.User, delta: int, now: Time): (r: U.User)
    ensures r.numberOfArticles == u.numberOfArticles + delta && r.updatedAt == now
  {
    u.(numberOfArticles := u.numberOfArticles + delta, updatedAt := now)
  }

  /** The owner's save runs the user's `pre('save')` hook with neither name
      modified, which is exactly `Bump`. */
  lemma BumpIsSave(u: U.User, delta: int, now: Time)
    ensures Bump(u, delta, now) == U.PreSave(u.(numberOfArticles := u.numberOfArticles + delta), false, now)
  {
  }

  lemma CountInsert(articles: Articles, k: Id, a: A.Article, u: Id)
    requires k !in articles
    ensures Count(articles[k := a], u) == Count(articles, u) + (if a.owner == u then 1 else 0)
  {
    if a.owner == u {
      assert OwnedBy(articles[k := a], u) == OwnedBy(articles, u) + {k};
    } else {
      assert OwnedBy(articles[k := a], u) == OwnedBy(articles, u);
    }
  }

  lemma CountRemove(articles: Articles, k: Id, u: Id)
    requires k in articles
    ensures Count(articles - {k}, u) == Count(articles, u) - (if articles[k].owner == u then 1 else 0)
  {
    if articles[k].owner == u {
      assert OwnedBy(articles, u) == OwnedBy(articles - {k}, u) + {k};
    } else {
      assert OwnedBy(articles - {k}, u) == OwnedBy(articles, u);
    }
  }

  lemma CountReplace(articles: Articles, k: Id, a: A.Article, u: Id)
    requires k in articles && articles[k].owner == a.owner
    ensures Count(articles[k := a], u) == Count(articles, u)
  {
    assert OwnedBy(articles[k := a], u) == OwnedBy(articles, u);
  }

  /** After the cascade, `v` owns nothing and everybody else keeps their
      articles. */
  lemma CountCascade(articles: Articles, v: Id, u: Id)
    ensures Count(RemoveOwned(articles, v), u) == if u == v then 0 else Count(articles, u)
  {
    if u == v {
      assert OwnedBy(RemoveOwned(articles, v), u) == {};
    } else {
      assert OwnedBy(RemoveOwned(articles, v), u) == OwnedBy(articles, u);
    }
  }

  /** A successful article save (owner raised by one, then the insert)
      keeps both invariants. */
  lemma CreatePreserves(users: Users, articles: Articles, k: Id, a: A.Article, now: Time)
    requires CountsMatch(users, articles) && NoOrphans(users, articles)
    requires a.owner in users && k !in articles
    ensures CountsMatch(users[a.owner := Bump(users[a.owner], 1, now)], articles[k := a])
    ensures NoOrphans(users[a.owner := Bump(users[a.owner], 1, now)], articles[k := a])
  {
    var users' := users[a.owner := Bump(users[a.owner], 1, now)];
    forall u | u in users' ensures users'[u].numberOfArticles == Count(articles[k := a], u) {
      CountInsert(articles, k, a, u);
    }
  }

  /** The window the source leaves open: once the owner's count is raised,
      an insert that then fails leaves the counts wrong. */
  lemma RaiseWithoutInsertBreaks(users: Users, articles: Articles, owner: Id, now: Time)
    requires CountsMatch(users, articles) && owner in users
    ensures !CountsMatch(users[owner := Bump(users[owner], 1, now)], articles)
  {
    var users' := users[owner := Bump(users[owner], 1, now)];
    assert users'[owner].numberOfArticles == Count(articles, owner) + 1;
  }

  /** Deleting an article without lowering its owner's count breaks the
      count invariant. */
  lemma RemoveWithoutLowerBreaks(users: Users, articles: Articles, k: Id)
    requires CountsMatch(users, articles) && k in articles && articles[k].owner in users
    ensures !CountsMatch(users, articles - {k})
  {
    var o := articles[k].owner;
    CountRemove(articles, k, o);
    assert users[o].numberOfArticles == Count(articles - {k}, o) + 1;
  }

  /** Deleting an article after lowering its owner's count by one keeps
      both invariants. */
  lemma DeletePreserves(users: Users, articles: Articles, k: Id, now: Time)
    requires CountsMatch(users, articles) && NoOrphans(users, articles) && k in articles
    ensures var o := articles[k].owner;
            CountsMatch(users[o := Bump(users[o], -1, now)], articles - {k})
    ensures var o := articles[k].owner;
            NoOrphans(users[o := Bump(users[o], -1, now)], articles - {k})
  {
    var o := articles[k].owner;
    var users' := users[o := Bump(users[o], -1, now)];
    forall u | u in users' ensures users'[u].numberOfArticles == Count(articles - {k}, u) {
      CountRemove(articles, k, u);
    }
  }

  /** Rewriting an article without touching its owner keeps both invariants. */
  lemma EditPreserves(users: Users, articles: Articles, k: Id, a: A.Article)
    requires CountsMatch(users, articles) && NoOrphans(users, articles)
    requires k in articles && articles[k].owner == a.owner
    ensures CountsMatch(users, articles[k := a]) && NoOrphans(users, articles[k := a])
  {
    forall u | u in users ensures users[u].numberOfArticles == Count(articles[k := a], u) {
      CountReplace(articles, k, a, u);
    }
  }

  /** Deleting a user together with every article it owns keeps both
      invariants, and no article of that user survives. */
  lemma CascadePreserves(users: Users, articles: Articles, v: Id)
    requires CountsMatch(users, articles) && NoOrphans(users, articles)
    ensures CountsMatch(users - {v}, RemoveOwned(articles, v))
    ensures NoOrphans(users - {v}, RemoveOwned(articles, v))
    ensures OwnedBy(RemoveOwned(articles, v), v) == {}
  {
    forall u | u in users - {v} ensures (users - {v})[u].numberOfArticles == Count(RemoveOwned(articles, v), u) {
      CountCascade(articles, v, u);
    }
  }

  /** Inserting a user keeps the counts right exactly when it starts with
      `numberOfArticles` 0: nothing can reference an id not yet in use. */
  lemma InsertUserPreserves(users: Users, articles: Articles, id: Id, u: U.User)
    requires CountsMatch(users, articles) && NoOrphans(users, articles) && id !in users
    ensures CountsMatch(users[id := u], articles) <==> u.numberOfArticles == 0
    ensures NoOrphans(users[id := u], articles)
  {
    assert OwnedBy(articles, id) == {};
    assert Count(articles, id) == 0;
    assert (users[id := u])[id] == u;
  }

  /** Rewriting a user keeps the counts right exactly when its
      `numberOfArticles` is left as it was. */
  lemma ReplaceUserPreserves(users: Users, articles: Articles, id: Id, u: U.User)
    requires CountsMatch(users, articles) && id in users
    ensures CountsMatch(users[id := u], articles) <==> u.numberOfArticles == users[id].numberOfArticles
  {
  }

  /** Every stored user passed its schema's validation. */
  predicate UsersValid(users: Users) {
    forall id | id in users :: U.Satisfies(users[id])
  }

  /** Raising or lowering the count touches no validated path. */
  lemma BumpKeepsSchema(u: U.User, delta: int, now: Time)
    ensures U.Satisfies(Bump(u, delta, now)) == U.Satisfies(u)
  {
  }

  /** Every stored article passed its schema's validation. */
  predicate ArticlesValid(articles: Articles) {
    forall id | id in articles :: A.Satisfies(articles[id])
  }

  /** Storing a valid article keeps the collection valid. */
  lemma ArticlesValidStore(articles: Articles, id: Id, a: A.Article)
    requires ArticlesValid(articles) && A.Satisfies(a)
    ensures ArticlesValid(articles[id := a])
  {
  }

  /** Keeping part of the collection keeps it valid. */
  lemma ArticlesValidRestrict(articles: Articles, kept: Articles)
    requires ArticlesValid(articles)
    requires forall k | k in kept :: k in articles && kept[k] == articles[k]
    ensures ArticlesValid(kept)
  {
  }

  /** `order` lists exactly the stored articles, each once. */
  predicate Lists(order: seq<Id>, articles: Articles) {
    Distinct(order) && Elements(order) == articles.Keys
  }

  /** An insert appends the new id. */
  lemma ListsInsert(order: seq<Id>, articles: Articles, id: Id, a: A.Article)
    requires Lists(order, articles) && id !in articles
    ensures Lists(order + [id], articles[id := a])
  {
    assert Elements(order + [id]) == Elements(order) + {id};
  }

  /** Removing documents drops their ids and keeps the rest in order. */
  lemma ListsRestrict(order: seq<Id>, articles: Articles, kept: Articles)
    requires Lists(order, articles) && kept.Keys <= articles.Keys
    ensures Lists(Retain(order, kept.Keys), kept)
  {
  }

  /** The two collections. */
  class Database {
    var users: Users
    var articles: Articles
    /** The ids of `articles` in insertion order. */
    var order: seq<Id>

    /** What the store itself guarantees: `order` lists each article once,
        and every stored document passed its schema's validation. */
    ghost predicate Valid()
      reads this
    {
      && Lists(order, articles)
      && UsersValid(users)
      && ArticlesValid(articles)
    }

    ghost predicate CountsHold()
      reads this
    {
      CountsMatch(users, articles)
    }

    ghost predicate OwnersExist()
      reads this
    {
      NoOrphans(users, articles)
    }

    /** Writing a user document under its id. */
    method PutUser(id: Id, u: U.User)
      requires Valid() && U.Satisfies(u)
      modifies this
      ensures Valid()
      ensures users == old(users)[id := u] && articles == old(articles) && order == old(order)
    {
      users := users[id := u];
    }

    /** Inserting a validated article under a fresh id, last in the natural order. */
    method InsertArticle(id: Id, a: A.Article)
      requires Valid() && id !in articles && A.Satisfies(a)
      modifies this
      ensures Valid()
      ensures users == old(users) && articles == old(articles)[id := a] && order == old(order) + [id]
    {
      ListsInsert(order, articles, id, a);
      ArticlesValidStore(articles, id, a);
      articles := articles[id := a];
      order := order + [id];
    }

    /** Overwriting a stored article in place. */
    method ReplaceArticle(id: Id, a: A.Article)
      requires Valid() && id in articles && A.Satisfies(a)
      modifies this
      ensures Valid()
      ensures users == old(users) && articles == old(articles)[id := a] && order == old(order)
    {
      ArticlesValidStore(articles, id, a);
      assert articles[id := a].Keys == articles.Keys;
      articles := articles[id := a];
    }

    /** Deleting articles: `kept` is what stays, in its old order. */
    method KeepArticles(kept: Articles)
      requires Valid()
      requires forall k | k in kept :: k in articles && kept[k] == articles[k]
      modifies this
      ensures Valid()
      ensures users == old(users) && articles == kept && order == Retain(old(order), kept.Keys)
    {
      ListsRestrict(order, articles, kept);
      ArticlesValidRestrict(articles, kept);
      articles := kept;
      order := Retain(order, kept.Keys);
    }

    /** Deleting a user document. */
    method RemoveUser(id: Id)
      requires Valid()
      modifies this
      ensures Valid()
      ensures users == old(users) - {id} && articles == old(articles) && order == old(order)
    {
      users := users - {id};
    }

    /** Two empty collections. */
    constructor ()
      ensures users == map[] && articles == map[] && order == []
      ensures Valid() && CountsHold() && OwnersExist()
    {
      users, articles, order := map[], map[], [];
    }
  }
}
