/** The built-in Mongoose validators the two schemas declare, one path at a
    time. Each returns the error of the first validator of the path that
    fails (Mongoose stops at it), or nothing. Validators other than
    `required` are skipped for an absent value. */
module Validators {
  import opened Common

  /** A String path with `required: true`, `minlength` and `maxlength`. The
      `required` check of a String also refuses the empty string. */
  function RequiredString(path: string, v: Option<string>, min: nat, max: nat): (e: seq<FieldError>)
    requires 0 < min
    ensures |e| <= 1 && forall x :: x in e ==> x.path == path
    ensures e == [] <==> v.Some? && min <= |v.value| <= max
    ensures v.None? || v.value == "" ==> e == [FieldError(path, Required)]
    ensures v.Some? && 0 < |v.value| < min ==> e == [FieldError(path, MinLength)]
    ensures v.Some? && min <= |v.value| && |v.value| > max ==> e == [FieldError(path, MaxLength)]
  {
    if v.None? || v.value == "" then [FieldError(path, Required)]
    else if |v.value| < min then [FieldError(path, MinLength)]
    else if |v.value| > max then [FieldError(path, MaxLength)]
    else []
  }

  /** An optional String path with `minlength` only. */
  function OptionalMinLength(path: string, v: Option<string>, min: nat): (e: seq<FieldError>)
    ensures |e| <= 1 && forall x :: x in e ==> x.path == path
    ensures e == [] <==> (v.Some? ==> |v.value| >= min)
    ensures e != [] ==> e == [FieldError(path, MinLength)]
  {
    if v.Some? && |v.value| < min then [FieldError(path, MinLength)] else []
  }

  /** A String path with `enum`, optionally `required`. */
  function Enum(path: string, v: Option<string>, values: seq<string>, required: bool): (e: seq<FieldError>)
    requires "" !in values
    ensures |e| <= 1 && forall x :: x in e ==> x.path == path
    ensures e == [] <==> if required then v.Some? && v.value in values else (v.Some? ==> v.value in values)
    ensures required && (v.None? || v.value == "") ==> e == [FieldError(path, Required)]
    ensures v.Some? && v.value != "" && v.value !in values ==> e == [FieldError(path, Enumeration)]
    ensures !required && v.Some? && v.value !in values ==> e == [FieldError(path, Enumeration)]
  {
    if required && (v.None? || v.value == "") then [FieldError(path, Required)]
    else if v.Some? && v.value !in values then [FieldError(path, Enumeration)]
    else []
  }

  /** A Number path with `min` and `max`. */
  function Range(path: string, v: Option<int>, min: int, max: int): (e: seq<FieldError>)
    ensures |e| <= 1 && forall x :: x in e ==> x.path == path
    ensures e == [] <==> (v.Some? ==> min <= v.value <= max)
    ensures v.Some? && v.value < min ==> e == [FieldError(path, Minimum)]
    ensures v.Some? && min <= v.value && v.value > max ==> e == [FieldError(path, Maximum)]
  {
    if v.Some? && v.value < min then [FieldError(path, Minimum)]
    else if v.Some? && v.value > max then [FieldError(path, Maximum)]
    else []
  }

  /** A String path with `required: true` and `match: pattern`. */
  function RequiredMatch(path: string, v: Option<string>, pattern: string -> bool): (e: seq<FieldError>)
    ensures |e| <= 1 && forall x :: x in e ==> x.path == path
    ensures e == [] <==> v.Some? && v.value != "" && pattern(v.value)
    ensures v.None? || v.value == "" ==> e == [FieldError(path, Required)]
    ensures v.Some? && v.value != "" && !pattern(v.value) ==> e == [FieldError(path, Pattern)]
  {
    if v.None? || v.value == "" then [FieldError(path, Required)]
    else if !pattern(v.value) then [FieldError(path, Pattern)]
    else []
  }
}
