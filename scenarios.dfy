/** Concrete requests worked through the schemas and the save hooks: a
    first name of three characters is refused by `minlength: 4`, one of
    four is accepted with its derived `fullName` and a zero count, and an
    article update with an explicit `null` clears an optional path but is
    refused on a required one. */
module Scenarios {
  import opened Common
  import Text
  import U = UserSchema
  import A = ArticleSchema
  import Store
  import UserHooks

  function SignUp(firstName: string): U.UserInput {
    U.UserInput(Some(firstName), Some("Lee"), Some("ann@x.com"), None, Some(30), None)
  }

  lemma AddressMatches()
    ensures Text.MatchesEmail("ann@x.com")
  {
    Text.EmailFromParts("ann", ["x"], "com");
    assert "ann" + "@" + Text.Dotted(["x"]) + "com" == "ann@x.com";
  }

  /** The `trim` setter leaves the sample names as they are. */
  lemma ShortNameTrimmed()
    ensures Text.Trim("Ann") == "Ann"
  {
    Text.TrimmedIsFixed("Ann");
  }

  lemma NameTrimmed()
    ensures Text.Trim("Anna") == "Anna"
  {
    Text.TrimmedIsFixed("Anna");
  }

  lemma LastNameTrimmed()
    ensures Text.Trim("Lee") == "Lee"
  {
    Text.TrimmedIsFixed("Lee");
  }

  /** The `lowercase` setter leaves the sample address as it is. */
  lemma AddressLowered()
    ensures Text.Lower("ann@x.com") == "ann@x.com"
  {
    Text.LowerFixed("ann@x.com");
  }

  /** "Ann" is one character short: the only error is the first name's
      minimum length. */
  lemma ThreeLetterNameRefused(now: Time)
    ensures U.Errors(U.ClampAge(U.New(SignUp("Ann"), now))) == [FieldError("firstName", MinLength)]
  {
    ShortNameTrimmed();
    LastNameTrimmed();
    AddressLowered();
    AddressMatches();
  }

  /** "Anna Lee" passes validation. */
  lemma FourLetterNameAccepted(now: Time)
    ensures U.Errors(U.ClampAge(U.New(SignUp("Anna"), now))) == []
  {
    NameTrimmed();
    LastNameTrimmed();
    AddressLowered();
    AddressMatches();
  }

  /** The saved "Anna Lee" has `fullName` "Anna Lee", the lowercased
      address and no articles. */
  lemma FourLetterNameStored(users: Store.Users, id: Id, now: Time)
    ensures var u := UserHooks.Saved(users, id, U.New(SignUp("Anna"), now), true, now);
      u.fullName == Some("Anna Lee") && u.numberOfArticles == 0 && u.email == Some("ann@x.com")
  {
    NameTrimmed();
    LastNameTrimmed();
    AddressLowered();
    assert "Anna" + " " + "Lee" == "Anna Lee";
  }

  /** `{"subtitle": null}` passes the update validators and clears the
      stored subtitle; a left-out field would have kept it. */
  lemma NullSubtitleClears(a: A.Article, now: Time)
    ensures var f := A.Fields(Omitted, Null, Omitted, Omitted);
      A.UpdateErrors(f) == [] && A.Edit(a, f, now).subtitle == None && A.Edit(a, f, now).title == a.title
  {
  }

  /** `{"title": null}` is refused by `required`, with exactly one error. */
  lemma NullTitleRefused()
    ensures A.UpdateErrors(A.Fields(Null, Omitted, Omitted, Omitted)) == [FieldError("title", Required)]
  {
  }
}
