/** The article schema of `src/models/article.model.js`: the fields, the
    `trim` setter of `title`, the validators, and the effect of
    `findByIdAndUpdate` with `runValidators` and the `pre('findOneAndUpdate')`
    hook. The hooks that touch the store are in module ArticleHooks. */
module ArticleSchema {
  import opened Common
  import Text
  import opened Validators

  const Categories: seq<string> := ["sport", "games", "history"]

  /** An article document. `owner` is always set: the only constructor call,
      in `createArticle`, runs after the controller has refused a missing
      owner, so the `required` check of `owner` cannot fail. */
  datatype Article = Article(
    title: Option<string>,
    subtitle: Option<string>,
    description: Option<string>,
    owner: Id,
    category: Option<string>,
    createdAt: Time,
    updatedAt: Time)

  /** The four fields the article handlers copy from the request body. A
      new article gets no value for a left-out or `null` field; an update
      leaves a left-out field alone (the destructured `undefined` is dropped
      from `$set`) and clears a `null` one. */
  datatype Fields = Fields(
    title: Given<string>,
    subtitle: Given<string>,
    description: Given<string>,
    category: Given<string>)

  /** `new Article({title, subtitle, description, owner, category})`. */
  function New(f: Fields, owner: Id, now: Time): (a: Article)
    ensures a.owner == owner && a.createdAt == now && a.updatedAt == now
    ensures a.title == Text.TrimValue(f.title.Stored())
    ensures a.subtitle == f.subtitle.Stored() && a.description == f.description.Stored()
    ensures a.category == f.category.Stored()
  {
    Article(Text.TrimValue(f.title.Stored()), f.subtitle.Stored(), f.description.Stored(), owner,
            f.category.Stored(), now, now)
  }

  function TitleErrors(v: Option<string>): seq<FieldError> {
    RequiredString("title", v, 5, 400)
  }

  function SubtitleErrors(v: Option<string>): seq<FieldError> {
    OptionalMinLength("subtitle", v, 5)
  }

  function DescriptionErrors(v: Option<string>): seq<FieldError> {
    RequiredString("description", v, 5, 5000)
  }

  function CategoryErrors(v: Option<string>): seq<FieldError> {
    Enum("category", v, Categories, true)
  }

  /** What the schema demands of an article, one condition per path. */
  predicate Satisfies(a: Article) {
    && a.title.Some? && 5 <= |a.title.value| <= 400
    && (a.subtitle.Some? ==> |a.subtitle.value| >= 5)
    && a.description.Some? && 5 <= |a.description.value| <= 5000
    && a.category.Some? && a.category.value in Categories
  }

  /** Validation on `save`: every path, in path order. */
  function Errors(a: Article): (e: seq<FieldError>)
    ensures e == [] <==> Satisfies(a)
  {
    TitleErrors(a.title) + SubtitleErrors(a.subtitle) + DescriptionErrors(a.description)
    + CategoryErrors(a.category)
  }

  /** A new article passes validation exactly when its title, once
      trimmed, is 5..400 characters, a given subtitle has at least 5, the
      description 5..5000 and the category is one of the three. */
  lemma AcceptsNew(f: Fields, owner: Id, now: Time)
    ensures Errors(New(f, owner, now)) == [] <==>
      && f.title.Value? && 5 <= |Text.Trim(f.title.value)| <= 400
      && (f.subtitle.Value? ==> |f.subtitle.value| >= 5)
      && f.description.Value? && 5 <= |f.description.value| <= 5000
      && f.category.Value? && f.category.value in Categories
  {
  }

  /** Update validators (`runValidators: true`): only the paths the update
      sets are checked, after the `title` setter. A `null` fails `required`
      and `enum` and passes `minlength`. */
  function UpdateErrors(f: Fields): (e: seq<FieldError>)
    ensures e == [] <==>
      && (!f.title.Omitted? ==> f.title.Value? && 5 <= |Text.Trim(f.title.value)| <= 400)
      && (f.subtitle.Value? ==> |f.subtitle.value| >= 5)
      && (!f.description.Omitted? ==> f.description.Value? && 5 <= |f.description.value| <= 5000)
      && (!f.category.Omitted? ==> f.category.Value? && f.category.value in Categories)
  {
    (if f.title.Omitted? then [] else TitleErrors(Text.TrimValue(f.title.Stored())))
    + (if f.subtitle.Omitted? then [] else SubtitleErrors(f.subtitle.Stored()))
    + (if f.description.Omitted? then [] else DescriptionErrors(f.description.Stored()))
    + (if f.category.Omitted? then [] else CategoryErrors(f.category.Stored()))
  }

  /** What a path holds after the update: its old value when the field is
      left out, otherwise what the field stores. */
  function Updated(before: Option<string>, g: Given<string>): (r: Option<string>)
    ensures g.Omitted? ==> r == before
    ensures g.Null? ==> r == None
    ensures g.Value? ==> r == Some(g.value)
  {
    if g.Omitted? then before else g.Stored()
  }

  /** The document `findByIdAndUpdate(id, fields, {new: true})` returns:
      each given field overwrites its path (a `null` clears it), the others
      keep their values, the `pre('findOneAndUpdate')` hook stamps
      `updatedAt`; `owner` and the immutable `createdAt` are never written. */
  function Edit(a: Article, f: Fields, now: Time): (r: Article)
    ensures r.owner == a.owner && r.createdAt == a.createdAt && r.updatedAt == now
    ensures r.title == (if f.title.Omitted? then a.title else Text.TrimValue(f.title.Stored()))
    ensures r.subtitle == Updated(a.subtitle, f.subtitle)
    ensures r.description == Updated(a.description, f.description)
    ensures r.category == Updated(a.category, f.category)
  {
    Article(
      if f.title.Omitted? then a.title else Text.TrimValue(f.title.Stored()),
      Updated(a.subtitle, f.subtitle),
      Updated(a.description, f.description),
      a.owner,
      Updated(a.category, f.category),
      a.createdAt,
      now)
  }

  /** An update that passes its validators keeps a valid article valid. */
  lemma EditKeepsSchema(a: Article, f: Fields, now: Time)
    requires Satisfies(a) && UpdateErrors(f) == []
    ensures Satisfies(Edit(a, f, now))
  {
  }
}
