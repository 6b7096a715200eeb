# Users and articles: the owner/article consistency layer

This project models the core of an Express + Mongoose backend with two
collections: users and articles. Every article has one `owner`, a user id.
Every user caches `numberOfArticles`, the number of articles that
reference it. The model covers four parts:

- **Query shaping.** The sort-field whitelists, the sort direction, the
  page and limit clamps, and the skip offset of the two listing handlers
  (module `QueryShaper`).
- **Schemas.** The fields of both schemas, their `trim` and `lowercase`
  setters, and the `required`, `minlength`/`maxlength`, `enum`, `match`
  and `min`/`max` validators (modules `Validators`, `UserSchema`,
  `ArticleSchema`). The hand-written email matcher is in `Text`. The user
  hooks that only compute are here too: the `pre('validate')` age clamp,
  the `pre('save')` `fullName` derivation and the `post('save')` mapping
  of a duplicate key to a domain message.
- **Consistency.** The hooks that touch the store (modules `ArticleHooks`
  and `UserHooks`), over an abstract store (`Store.Database`: two maps
  from id to document, plus the natural order of the articles). Saving an
  article checks that its owner exists and raises the owner's count.
  Deleting an article through the document-level hook lowers it; the
  delete handler as written deletes through a query, which runs no hook
  and leaves the count alone (see "## Findings"). Deleting a user deletes
  every article it owns. The store keeps three invariants, all proved: each stored document
  passed its schema, `order` lists every article once, and, as far as
  the handlers allow it, every count equals the number of articles that
  reference the user.
- **Handlers.** The checks each handler makes, in the source's order,
  before it touches the store (modules `ArticleController` and
  `UserController`). This includes the user-with-articles join and the
  field-copy loop of the user update.

The model has no clock, no id generator and no id-format check. The
current time (`now`), the id the store hands out for a new document
(`newId`), the caller's id (`caller`, the source's `req.user.id`), and
`validateById` (a predicate `validate`) are all parameters. Results that
the source sends with an HTTP status are `Reply` values. `Outcome` names
the status family: Ok, BadRequest, NotFound, Forbidden or Error.

The count invariant (`Store.CountsMatch`) holds in the source only up to
three breaches:

- A user can be created with a `numberOfArticles` other than 0.
- An update can write `numberOfArticles`.
- `deleteArticleById` deletes through the query `Article.deleteOne({_id})`,
  while the only hook that lowers the count is registered for documents
  only. Every successful delete therefore leaves the owner's count one too
  high (see "## Findings").

For the first two, `UserController.CreateUser`, `UserController.UpdateUserById`
and `UserHooks.Save` state the invariant as an if-and-only-if on what the
client sent. For the third, `ArticleController.DeleteArticleById` models the
intended document-level decrement and preserves the invariant in every case.
The handler as written, modelled by `ArticleHooks.QueryDeleteOne`, does not
preserve it (`Store.RemoveWithoutLowerBreaks`). `updateArticleById` and
`DeleteUserById` preserve it in every case. `createArticle` preserves it
when it succeeds. Its other failures leave the store as it was, except a
duplicate-id failure, which leaves the owner's count one too high (see
"Count before insert" below).

Behaviours of the code that a reader might not expect:

- **Age 0.** The `pre('validate')` clamp tests `age < 0`, so age 0 is not
  clamped. The `min: 1` validator then refuses it.
- **Minimum first name length.** `firstName` needs at least 4 characters.
  A user named "Ann" is therefore refused, not created.
- **Count before insert.** The article `pre('save')` hook raises the
  owner's count before the insert. An insert that fails after that, on a
  duplicate id, leaves the count one too high
  (`Store.RaiseWithoutInsertBreaks`).
- **Missing owner on delete.** Through the document-level hook, deleting
  an article whose owner is gone fails with a TypeError, after the
  handler's update has been written, and the article stays. The handler as
  written deletes through the query, which runs no hook: there the article
  goes whatever its owner, and no count changes (see "## Findings").
- **No permission check on delete.** `deleteArticleById` does not check
  ownership. It also applies the body's fields, with validators, to the
  article before it deletes it, and replies with that updated record.
- **Email uniqueness.** The schema declares no unique index on `email`,
  so the store enforces only unique ids. The duplicate-key message can
  come only from an insert under an id already in use.
- **Client-written count.** Clients can write `numberOfArticles` through
  `createUser` and `updateUserById`.

The hooks are written as arrow functions. An arrow function's `this`
would not be the document, so the hooks as written could not read the
document. Every hook is modelled acting on the document or query it is
about.

## Model

| member | source | states |
|---|---|---|
| QueryShaper.ArticleSortBy | src/controllers/article.controller.js:127-133 | `title` and `category` are kept; every other value, absent included, gives `createdAt` |
| QueryShaper.OrderBy | src/controllers/article.controller.js:135-137 | the direction is -1 exactly when the value is the string `desc` (`('desc' \|\| -1)` is `'desc'`); the number -1 and everything else give 1 |
| QueryShaper.Page | src/controllers/article.controller.js:139-145 | a page in 1..10 is kept, anything else gives 1; the result is always in 1..10 |
| QueryShaper.Limit | src/controllers/article.controller.js:147-153 | a limit in 1..10 is kept, anything else gives 10; the result is always in 1..10 |
| QueryShaper.SkipBounds | src/controllers/article.controller.js:32 | for the clamped values, the skip offset is in 0..90 and the window ends within the first 100 records |
| QueryShaper.PagesDisjoint | src/controllers/article.controller.js:28-32 | with the same limit, two requests' windows share no position exactly when their clamped pages differ |
| QueryShaper.Window | src/controllers/article.controller.js:34-38 | skip-then-limit returns the records at `skip`, `skip + 1`, …, at most `limit` of them |
| QueryShaper.ArticlePlan | src/controllers/article.controller.js:26-32 | the listing request sorts by the whitelisted key of `sortBy` in the direction of `orderBy`, takes the clamped limit and skips `(page - 1) * limit` records for the clamped page; the key is one of three, the direction ±1, the limit in 1..10 and the window within the first 100 records |
| QueryShaper.UserSortBy | src/controllers/user.controller.js:124-128 | a schema path (the ten declared paths, `_id` and the two stamps included) is kept; anything else gives `createdAt` |
| Text.Trim | src/models/user.model.js:15 | the result is a contiguous part of the input with only white space before and after it, has no white space at either end, and is empty exactly when the input is all white space |
| Text.TrimValue | src/models/article.model.js:16 | the setter keeps a path without a value without one and trims a given string |
| Text.TrimIdempotent | src/models/article.model.js:16 | trimming twice is trimming once |
| Text.Lower | src/models/user.model.js:29 | same length; upper-case ASCII letters become lower-case; every other character is unchanged |
| Text.LowerIdempotent | src/models/user.model.js:29 | lowercasing twice is lowercasing once |
| Text.EmailFromParts | src/models/user.model.js:28 | every `local@label.….tld` built from `[\w-]` labels, with a 2–4 character last label, matches the email pattern |
| Text.EmailParts | src/models/user.model.js:28 | every matching string splits into exactly those parts |
| Text.LowerFixed | src/models/user.model.js:29 | a string without upper-case ASCII letters is left as it is by lowercasing |
| Text.MatchesEmail | src/models/user.model.js:28 | a matching address is at least 6 characters long, holds only `[\w-]` characters, dots and `@`, and contains exactly one `@` (there is one, and every `@` is at the first one's position) |
| Scenarios.ThreeLetterNameRefused | src/models/user.model.js:10-16 | signing up with the three-letter first name "Ann" is refused with exactly one error, `minlength` on `firstName` |
| Scenarios.FourLetterNameAccepted | src/models/user.model.js:9-32 | signing up as "Anna Lee" with address `ann@x.com` and age 30 passes every schema validator |
| Scenarios.FourLetterNameStored | src/models/user.model.js:40-66 | the saved "Anna Lee" carries `fullName` "Anna Lee", the lowercased address and no articles |
| Scenarios.NullSubtitleClears | src/models/article.model.js:18-21 | an update body `{"subtitle": null}` passes the validators, clears the stored subtitle and keeps the title |
| Scenarios.NullTitleRefused | src/models/article.model.js:11-16 | an update body `{"title": null}` is refused with exactly one error, `required` on `title` |
| Validators.RequiredString | src/models/user.model.js:10-23 | a required String with length bounds reports at most one error, for its own path; no error exactly when a non-empty value within the bounds is present; a missing or empty value is reported as `required`, a short one as `minlength`, a long one as `maxlength` |
| Validators.OptionalMinLength | src/models/article.model.js:18-21 | an absent value passes; a present one needs the minimum length, and a short one is reported as `minlength` |
| Validators.Enum | src/models/user.model.js:31-34 | no error exactly when the value is absent (if optional) or one of the values; a missing required value is reported as `required`, an unlisted value as `enum` |
| Validators.Range | src/models/user.model.js:35-39 | no error exactly when the value is absent or within min..max; a value below is reported as `min`, one above as `max` |
| Validators.RequiredMatch | src/models/user.model.js:25-30 | no error exactly when a non-empty value is present and matches; a missing or empty value is reported as `required`, a non-matching one as `match` |
| UserSchema.New | src/models/user.model.js:40-52 | a new user has trimmed names and a lowercased email; `numberOfArticles` is the given value or 0; both stamps are the current time |
| UserSchema.Errors | src/models/user.model.js:9-56 | validation reports nothing exactly when the user satisfies every constraint of the schema |
| UserSchema.ClampAge | src/models/user.model.js:69-74 | a negative age becomes 1; any other age, 0 included, and a missing one are kept; no other path changes |
| UserSchema.ClampedAge | src/models/user.model.js:69-74 | a negative age becomes 1; age 0 is refused; an accepted age lies in 1..99 |
| UserSchema.AcceptsNew | src/models/user.model.js:5-43 | a new user is accepted exactly when its trimmed names, lowercased email, role and age meet the constraints (a negative age counts as accepted) |
| UserSchema.PreSave | src/models/user.model.js:58-67 | `updatedAt` is stamped; when a name changed, `fullName` is both names joined by a space; otherwise `fullName` stays; nothing else changes |
| UserSchema.NamesModified | src/models/user.model.js:61 | a new document always counts as modified; when neither name is modified, the name the hook would derive is the stored one |
| UserSchema.FullNameOfValid | src/models/user.model.js:61-65 | for a valid user, the derived `fullName` is exactly `firstName + " " + lastName` |
| UserSchema.PreSaveKeepsErrors | src/models/user.model.js:58-67 | the `pre('save')` hook changes nothing the validators look at |
| UserSchema.MapSaveError | src/models/user.model.js:76-82 | a MongoServerError with code 11000 becomes the domain message; every other error passes through unchanged |
| UserSchema.MapSaveErrorExactly | src/models/user.model.js:76-82 | the domain message comes only from a duplicate key or from itself; mapping twice is mapping once |
| ArticleSchema.New | src/controllers/article.controller.js:14-15 | a new article has the trimmed title, the other three fields as given (no value for a left-out or `null` field) and the given owner; both stamps are the current time |
| ArticleSchema.Errors | src/models/article.model.js:10-37 | validation reports nothing exactly when the article satisfies every constraint of the schema |
| ArticleSchema.AcceptsNew | src/models/article.model.js:10-37 | a new article is accepted exactly when its trimmed title is 5..400 characters, a given subtitle has at least 5, the description has 5..5000 and the category is one of the three |
| ArticleSchema.UpdateErrors | src/controllers/article.controller.js:89-93 | the update validators pass exactly when every field the body gives meets its constraint; left-out fields are not checked; `null` fails `title`, `description` and `category` and passes `subtitle` |
| ArticleSchema.Updated | src/controllers/article.controller.js:87-93 | a left-out field keeps the stored value, `null` clears it, a value replaces it |
| ArticleSchema.Edit | src/models/article.model.js:74-77 | the update writes each field the body gives (`null` clears it, the title through its setter), keeps the left-out ones, stamps `updatedAt`, and never writes `owner` or `createdAt` |
| ArticleSchema.EditKeepsSchema | src/models/article.model.js:74-77 | an update that passes its validators keeps a valid article valid |
| Store.Retain | src/controllers/user.controller.js:31-36 | keeps exactly the elements in the set, in input order; from a sequence without repetitions it produces none; it is never longer than the input |
| Store.RetainAppend | src/controllers/user.controller.js:31-36 | keeping a subset distributes over concatenation, so relative order is unchanged |
| Store.RetainLength | src/controllers/user.controller.js:31-36 | from a sequence without repetitions, the kept part has one entry per element of the set that the sequence holds |
| Store.RemoveOwned | src/models/user.model.js:87 | `deleteMany({owner})` keeps exactly the articles of other owners, unchanged |
| Store.Bump | src/models/article.model.js:60-61 | the owner's count moves by exactly the given amount and `updatedAt` is stamped |
| Store.BumpIsSave | src/models/article.model.js:60-61 | the owner's save is the user `pre('save')` with no name modified |
| Store.BumpKeepsSchema | src/models/article.model.js:60-61 | changing the count keeps a valid owner valid, so the owner's re-validation cannot fail |
| Store.CountInsert | src/models/article.model.js:52-63 | an insert adds one to its owner's article count and changes no other user's count |
| Store.CountRemove | src/models/article.model.js:65-72 | a removal takes one from its owner's article count and changes no other user's count |
| Store.CreatePreserves | src/models/article.model.js:52-63 | raising the owner's count and then inserting keeps the count invariant and leaves no orphans |
| Store.RaiseWithoutInsertBreaks | src/models/article.model.js:60-61 | raising the owner's count without inserting breaks the count invariant |
| Store.DeletePreserves | src/models/article.model.js:65-72 | lowering the owner's count and then removing the article keeps both invariants |
| Store.RemoveWithoutLowerBreaks | src/controllers/article.controller.js:120 | removing an article without lowering its owner's count breaks the count invariant |
| Store.EditPreserves | src/models/article.model.js:74-77 | an update that keeps the owner keeps both invariants |
| Store.CascadePreserves | src/models/user.model.js:84-92 | deleting a user with all its articles keeps both invariants and leaves nothing owned by it |
| Store.InsertUserPreserves | src/controllers/user.controller.js:69-72 | inserting a user keeps the counts right exactly when it starts at 0 |
| Store.ReplaceUserPreserves | src/controllers/user.controller.js:92-98 | rewriting a user keeps the counts right exactly when its count is unchanged |
| Store.Database.PutUser | src/models/user.model.js:58-67 | a user write changes that user only, and only a valid user is stored |
| Store.Database.InsertArticle | src/models/article.model.js:52-63 | an insert adds the article and appends its id to the natural order |
| Store.Database.ReplaceArticle | src/models/article.model.js:74-77 | a replacement changes that article only and keeps the order |
| Store.Database.KeepArticles | src/models/user.model.js:84-92 | a deletion keeps the rest of the articles in their old order |
| Store.Database.RemoveUser | src/controllers/user.controller.js:117 | deleting a user changes the users collection only |
| ArticleHooks.Save | src/models/article.model.js:52-63 | validation errors and a missing owner ("owner doesn't exist") change nothing; otherwise the owner's count rises by exactly 1 before the insert; a duplicate id then fails with code 11000; a successful save keeps the count invariant |
| ArticleHooks.FindByIdAndUpdate | src/models/article.model.js:74-77 | failing update validators change nothing; otherwise the stored article becomes the edited one, and the counts, users and order stay as they were |
| ArticleHooks.DeleteOne | src/models/article.model.js:65-72 | a missing owner is a TypeError with no change; otherwise the owner's count falls by exactly 1, the article goes, and both invariants are kept |
| ArticleHooks.QueryDeleteOne | src/controllers/article.controller.js:120 | the query delete as written removes the article and leaves every count alone, so a consistent store becomes inconsistent |
| UserHooks.Save | src/models/user.model.js:58-82 | clamp, then validation, then a duplicate-id check that ends in the domain message, then the stamped document is written; articles never change; on success the counts stay right exactly when the count was not changed |
| UserHooks.Saved | src/models/user.model.js:58-74 | the written document has `updatedAt` stamped, a negative age set to 1, `fullName` rebuilt as first, space, last when a name was modified and kept otherwise, and every other path as given |
| UserHooks.DeleteOne | src/models/user.model.js:84-92 | the user and exactly its articles are deleted; the order keeps the survivors; both invariants are kept |
| ArticleController.CreateArticle | src/controllers/article.controller.js:4-22 | a missing owner and then a malformed owner id give 400s with no change; then a validation error, then a missing owner document ("owner doesn't exist") fail with no change; a used id fails with code 11000 after the owner's count has risen; success exactly otherwise, with the count raised by 1 and the article appended |
| ArticleController.GetArticles | src/controllers/article.controller.js:24-47 | the listing returns exactly the records left after skipping, up to the clamped limit (never more than 10): none when the skip passes the end, the remaining ones on a short last page, a full page otherwise; record i of the page is record skip + i of the list sorted by the whitelisted key and direction |
| ArticleController.UpdateArticleById | src/controllers/article.controller.js:72-98 | a bad id (400), then a missing article (404), then a caller who is not the owner (403), each with no change; then failing update validators reply with exactly their errors and change nothing; on success only the four fields and `updatedAt` change and the owner stays |
| ArticleController.DeleteArticleById | src/controllers/article.controller.js:100-125 | 400 and 404 change nothing; failing update validators change nothing; when the owner is gone the update stays written, the article stays and the reply is a TypeError; on success the article is gone, the remaining articles keep their order, the reply is the record the prior update produced, and its owner's count is one lower |
| UserController.ListUsers | src/controllers/user.controller.js:3-14 | sorting by `createdAt` selects every user; any other key selects exactly the users holding a value there; each row carries only the id, `fullName`, `email` and `age` |
| UserController.HasPath | src/controllers/user.controller.js:7 | each of `firstName`, `lastName`, `fullName`, `email`, `role` and `age` exists exactly when the user holds a value there, and every other path always exists; on a valid user only `fullName`, `role` and `age` can be missing |
| UserController.ListDropsOnlyOnOptionalPaths | src/controllers/user.controller.js:7 | over validated users, the filter drops users only for `fullName`, `role` or `age` |
| UserController.Joined | src/controllers/user.controller.js:30-36 | the joined ids are exactly the articles with that owner, in the collection's order |
| UserController.UserWithArticles | src/controllers/user.controller.js:23-65 | a bad id gives 400 and a missing user 404; otherwise the user's fields plus one `{title, subtitle, createdAt}` per joined article, in order |
| UserController.JoinedIsOwned | src/controllers/user.controller.js:30-55 | over a consistent store, the join lists each of the user's articles exactly once and nothing else |
| UserController.ViewMatchesCount | src/controllers/user.controller.js:30-55 | when the counts are right, the joined list is as long as `numberOfArticles`, and it is empty for a user that owns nothing |
| UserController.Assign | src/controllers/user.controller.js:94-96 | writing one key changes that path only, through its setter; writing the immutable `createdAt` changes nothing |
| UserController.Apply | src/controllers/user.controller.js:94-96 | applying the body keeps `createdAt`, and every path no body entry names keeps its stored value |
| UserController.GetDetermines | src/controllers/user.controller.js:94-96 | two documents that agree on every path are equal |
| UserController.Lookup | src/controllers/user.controller.js:92 | the entry that wins for a path is the body's last entry for it, and there is none exactly when no entry names the path |
| UserController.ApplyByPath | src/controllers/user.controller.js:92-96 | after the copy loop, every path holds the last value the body gave it, or its old value when the body gave none |
| UserController.ApplyBody | src/controllers/user.controller.js:92-96 | the loop computes `Apply`, so every path ends with the last value the body gave it (through its setter) or its old value |
| UserController.CountGiven | src/controllers/user.controller.js:92-96 | the count a body gives is the one of its last `numberOfArticles` entry, and there is none exactly when no entry names that path |
| UserController.NumberOfArticlesAfter | src/controllers/user.controller.js:92-96 | the count after the copy is the last one the body gave, or the stored one |
| UserController.SavedUpdateByPath | src/controllers/user.controller.js:92-98 | an accepted update stores what the body says for every path the hooks do not own; `age` is clamped and `updatedAt` is the save's stamp |
| UserController.CreateUser | src/controllers/user.controller.js:67-77 | validation failure and a used id change nothing; success exactly otherwise, with `fullName` set to both names; the counts stay right exactly when the client sent no count or 0 |
| UserController.UpdateUserById | src/controllers/user.controller.js:79-103 | 400 and 404 change nothing, then the copied document is validated and saved; the counts stay right exactly when the body sets no new count |
| UserController.DeleteUserById | src/controllers/user.controller.js:105-122 | 400 and 404 change nothing; otherwise the reply is the record before deletion, the user and exactly its articles are gone, the surviving articles keep their order, and the invariants are kept |

## Left out

- HTTP glue is not modelled: response statuses beyond the outcome family, JSON serialisation, `next(err)`, and the `console.log` in the article listing.
- The store's sort order, `populate`, `.lean()` and the `$lookup` engine are not modelled. Listings return the sort key and direction with the selected rows. The join follows the collection's natural order, which is `order`.
- `getArticleById` is left out: it does nothing beyond the store's read and `populate`. `ArticleController.GetArticles` returns whole articles: the projection that drops `createdAt`/`updatedAt` and the `populate` of the owner are not modelled, and the sort is a parameter `sort`. Mongoose sorts before it skips, whatever the order of the chained calls, and the model follows that.
- JavaScript coercion in `getPage`/`getLimit` is not modelled: a string compared with a number, and `parseInt` of a fraction. Query values are modelled as optional integers.
- Mongoose casting of body values is not modelled: for example, a string given for `age`. Ids are plain strings.
- Body keys outside the schema, and a body that writes `_id`, are not modelled. `updateUserById`'s body is a sequence of typed entries. With repeated keys, the last one wins, as in JSON parsing.
- UserController.CreateUser: a `null` given for `numberOfArticles` is modelled as absent, so the default 0 is stored. Mongoose applies a default only to `undefined`, so the source stores `null`, and the reply and the joined view then show `numberOfArticles: null`, which is not a count of 0. The contract's "no count or 0" condition for the count invariant therefore covers only a left-out count, not a `null` one. The same holds for a `null` count written through `updateUserById`.
- UserController.ListUsers: a user document does not tell a path stored as `null` from a path that is missing, so a user whose `fullName`, `role` or `age` was written as `null` (by `createUser` or `updateUserById`) is dropped by the `$exists` filter, which in the source lists it. `UserController.HasPath` reads `null` as missing. Validation is unaffected: every user validator treats `null` as no value. Article update bodies do tell `null` from a left-out field (`Common.Given`).
- UserSchema.ClampAge: `age` is a Number path and accepts fractions; the model's ages are integers. So it does not capture that -0.5 is clamped to 1, that 0.5 passes the `< 0` clamp and is refused by `min: 1`, or that 98.5 is accepted.
- UserSchema.Errors: when a Number path holds a non-number, Mongoose raises a cast error; values here are always well-typed, so no cast error is modelled.
- Text.Lower: only A–Z are lowercased. The `lowercase: true` setter calls `toLowerCase`, which also maps non-ASCII letters; for example it maps U+212A KELVIN SIGN to `k`. So `Text.LowerFixed`'s premise (no A–Z) does not make a non-ASCII string a fixed point in the source. An address such as `\u212A@x.com` becomes `k@x.com` and matches the pattern in the source, while the model refuses it.
- Validators.RequiredString: lengths count Unicode characters, while JavaScript's `length`, which `minlength`/`maxlength` read, counts UTF-16 code units; a name with characters outside the Basic Multilingual Plane is measured shorter here than in the source.
- Stored user documents are complete, so the partial `select` in `updateUserById` is not modelled. Validation of the full document gives the same errors as validation of the selected and modified paths, because the stored document already satisfies its schema. The reply is therefore the full document, not the projected one.
- Store.Bump: the owner's `save()` inside the article hooks runs the user's age clamp and validation; it is modelled without that step. `Store.BumpIsSave` shows it is the user `pre('save')` hook, and `Store.BumpKeepsSchema` shows validation could not fail on a stored owner.
- Concurrent requests and the lack of atomicity across documents are not modelled. Each handler is a sequence of steps on one store.
- The email pattern is a hand-written matcher for `^[\w-]+@([\w-]+\.)+[\w-]{2,4}$`, not a general regular-expression engine.
- `src/validators/objectIdValidator.js` is not part of this model. `validateById` is a parameter, and an id that passes it is used as a store key.
- Authentication is not modelled. The handler receives `req.user.id` as `caller`; a missing `req.user` is outside the model.

## Findings

| source | as written | input that shows it | evidently intended | confidence | as-written member | corrected member |
|---|---|---|---|---|---|---|
| src/controllers/article.controller.js:120 | `Article.deleteOne({_id})` is a query, but the decrement hook at src/models/article.model.js:65 is registered for documents only, so the owner's count is never lowered | a consistent store with one article owned by a stored user; deleting that article leaves the user's `numberOfArticles` at 1 with no article | deleting an article lowers its owner's count by one | not executed; follows from Mongoose's documented middleware registration | ArticleHooks.QueryDeleteOne, Store.RemoveWithoutLowerBreaks | ArticleHooks.DeleteOne, Store.DeletePreserves |
