/** The user schema of `src/models/user.model.js`: the fields, their setters
    and validators, the `pre('validate')` age clamp, the `pre('save')`
    `fullName` derivation and the `post('save')` duplicate-key mapping. The
    hooks that touch the store are in module UserHooks. */
module UserSchema {
  import opened Common
  import Text
  import opened Validators

  const Roles: seq<string> := ["admin", "writer", "guest"]

  /** A user document. Optional values are the paths a document may lack. */
  datatype User = User(
    firstName: Option<string>,
    lastName: Option<string>,
    fullName: Option<string>,
    email: Option<string>,
    role: Option<string>,
    age: Option<int>,
    numberOfArticles: int,
    createdAt: Time,
    updatedAt: Time)

  /** The fields `createUser` copies from the request body. */
  datatype UserInput = UserInput(
    firstName: Option<string>,
    lastName: Option<string>,
    email: Option<string>,
    role: Option<string>,
    age: Option<int>,
    numberOfArticles: Option<int>)

  /** The `lowercase: true` setter of `email`. */
  function LowerEmail(v: Option<string>): (r: Option<string>)
    ensures r.Some? <==> v.Some?
    ensures r.Some? ==> r.value == Text.Lower(v.value)
  {
    match v
    case None => None
    case Some(s) => Some(Text.Lower(s))
  }

  /** `new User({...})`: the setters normalise the given values and the
      defaults fill `numberOfArticles`, `createdAt` and `updatedAt`. */
  function New(input: UserInput, now: Time): (u: User)
    ensures u.firstName == Text.TrimValue(input.firstName) && u.lastName == Text.TrimValue(input.lastName)
    ensures u.email == LowerEmail(input.email)
    ensures u.role == input.role && u.age == input.age && u.fullName == None
    ensures input.numberOfArticles.None? ==> u.numberOfArticles == 0
    ensures input.numberOfArticles.Some? ==> u.numberOfArticles == input.numberOfArticles.value
    ensures u.createdAt == now && u.updatedAt == now
  {
    User(
      Text.TrimValue(input.firstName), Text.TrimValue(input.lastName), None,
      LowerEmail(input.email), input.role, input.age,
      match input.numberOfArticles case Some(n) => n case None => 0,
      now, now)
  }

  /** What the schema demands of a user, written as one condition per path. */
  predicate Satisfies(u: User) {
    && u.firstName.Some? && 4 <= |u.firstName.value| <= 50
    && u.lastName.Some? && 3 <= |u.lastName.value| <= 60
    && u.email.Some? && Text.MatchesEmail(u.email.value)
    && (u.role.Some? ==> u.role.value in Roles)
    && (u.age.Some? ==> 1 <= u.age.value <= 99)
  }

  /** The schema's validation: one error per failing path, in path order. */
  function Errors(u: User): (e: seq<FieldError>)
    ensures e == [] <==> Satisfies(u)
  {
    RequiredString("firstName", u.firstName, 4, 50)
    + RequiredString("lastName", u.lastName, 3, 60)
    + RequiredMatch("email", u.email, Text.MatchesEmail)
    + Enum("role", u.role, Roles, false)
    + Range("age", u.age, 1, 99)
  }

  /** The `pre('validate')` hook: a negative age becomes 1. */
  function ClampAge(u: User): (r: User)
    ensures u.age.Some? && u.age.value < 0 ==> r.age == Some(1)
    ensures !(u.age.Some? && u.age.value < 0) ==> r.age == u.age
    ensures r.(age := u.age) == u
  {
    if u.age.Some? && u.age.value < 0 then u.(age := Some(1)) else u
  }

  /** After the clamp, an accepted user's age, when it has one, lies in
      1..99; a negative age is accepted as 1, while age 0 escapes the clamp
      (the test is `< 0`) and is rejected by `min: 1`. */
  lemma ClampedAge(u: User)
    ensures Errors(ClampAge(u)) == [] && ClampAge(u).age.Some? ==> 1 <= ClampAge(u).age.value <= 99
    ensures u.age == Some(0) ==> Errors(ClampAge(u)) != []
    ensures u.age.Some? && u.age.value < 0 ==> ClampAge(u).age == Some(1)
  {
  }

  /** A new user passes validation exactly when its submitted values,
      after the setters, meet every constraint; a negative age is never
      the reason for a refusal. */
  lemma AcceptsNew(input: UserInput, now: Time)
    ensures Errors(ClampAge(New(input, now))) == [] <==>
      && input.firstName.Some? && 4 <= |Text.Trim(input.firstName.value)| <= 50
      && input.lastName.Some? && 3 <= |Text.Trim(input.lastName.value)| <= 60
      && input.email.Some? && Text.MatchesEmail(Text.Lower(input.email.value))
      && (input.role.Some? ==> input.role.value in Roles)
      && (input.age.Some? ==> input.age.value < 0 || 1 <= input.age.value <= 99)
  {
  }

  /** JavaScript's rendering of a value inside a template literal. */
  function Show(v: Option<string>): string {
    match v
    case Some(s) => s
    case None => "undefined"
  }

  /** `isModified('firstName') || isModified('lastName')`: a new document
      counts every path it was given as modified, a stored one only the
      paths whose value changed. */
  function NamesModified(before: Option<User>, after: User): (b: bool)
    ensures before.None? ==> b
    ensures !b ==> Show(before.value.firstName) + " " + Show(before.value.lastName)
                   == Show(after.firstName) + " " + Show(after.lastName)
  {
    before.None?
    || before.value.firstName != after.firstName
    || before.value.lastName != after.lastName
  }

  /** The `pre('save')` hook: stamps `updatedAt` and, when a name changed,
      derives `fullName` as the two names joined by one space. */
  function PreSave(u: User, namesModified: bool, now: Time): (r: User)
    ensures r.updatedAt == now
    ensures namesModified ==> r.fullName == Some(Show(u.firstName) + " " + Show(u.lastName))
    ensures !namesModified ==> r.fullName == u.fullName
    ensures r.(fullName := u.fullName, updatedAt := u.updatedAt) == u
  {
    var stamped := u.(updatedAt := now);
    if namesModified then stamped.(fullName := Some(Show(u.firstName) + " " + Show(u.lastName)))
    else stamped
  }

  /** A validated user always has both names, so the derived name is
      exactly `firstName + " " + lastName` and never holds "undefined". */
  lemma FullNameOfValid(u: User, now: Time)
    requires Satisfies(u)
    ensures PreSave(u, true, now).fullName == Some(u.firstName.value + " " + u.lastName.value)
  {
  }

  /** The message the `post('save')` hook puts in place of a duplicate key. */
  const DuplicateEmail := "A user with this email already exists"

  /** The `post('save')` error hook: a MongoServerError with code 11000 is
      replaced by a plain error with the domain message; any other error
      goes on unchanged. */
  function MapSaveError(f: Failure): (r: Failure)
    ensures f.Name() == "MongoServerError" && f.Code() == Some(11000) ==> r == Thrown(DuplicateEmail)
    ensures !(f.Name() == "MongoServerError" && f.Code() == Some(11000)) ==> r == f
  {
    match f
    case Server(code, _) => if code == 11000 then Thrown(DuplicateEmail) else f
    case _ => f
  }

  /** Only a duplicate key gets the domain message from outside: a failure
      mapping to that message either was the duplicate key or already
      carried it; and mapping twice is mapping once. */
  lemma MapSaveErrorExactly(f: Failure)
    ensures MapSaveError(f) == Thrown(DuplicateEmail) <==> f == Thrown(DuplicateEmail) || (f.Server? && f.code == 11000)
    ensures MapSaveError(MapSaveError(f)) == MapSaveError(f)
  {
  }

  /** Saving never changes what the validators look at, so a stored user's
      validity survives a save that only stamps it. */
  lemma PreSaveKeepsErrors(u: User, namesModified: bool, now: Time)
    ensures Errors(PreSave(u, namesModified, now)) == Errors(u)
  {
  }
}
