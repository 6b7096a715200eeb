/** Values shared by the schemas, the store and the controllers of the
    users/articles backend. */
module Common {

  datatype Option<+T> = None | Some(value: T)

  /** A field of a JSON request body: left out (`undefined` once
      destructured), an explicit `null`, or a value. */
  datatype Given<T> = Omitted | Null | Value(value: T)
  {
    /** What the path holds once the field is written: `null` and a left-out
        field both leave it without a value. */
    function Stored(): (r: Option<T>)
      ensures r.Some? <==> Value?
      ensures Value? ==> r == Some(value)
    {
      if Value? then Some(value) else None
    }
  }

  /** A record identity as the store hands it out (the hex form of an ObjectId). */
  type Id = string

  /** An instant on an abstract clock. The wall clock is an input of every
      operation that stamps a record. */
  type Time = int

  /** A value read from the request's query string. */
  datatype Param = Absent | Text(s: string) | Number(n: int)

  /** The schema validator that rejected a path. */
  datatype Rule = Required | MinLength | MaxLength | Enumeration | Pattern | Minimum | Maximum

  /** One entry of a Mongoose ValidationError. */
  datatype FieldError = FieldError(path: string, rule: Rule)

  /** What a failing store call or a throwing hook passes to `next(err)`. */
  datatype Failure =
    | Invalid(errors: seq<FieldError>)    // ValidationError raised by `save` or an update with runValidators
    | Thrown(message: string)             // `new Error(message)` thrown by a hook
    | TypeFault(message: string)          // a TypeError, such as reading a field of null
    | Server(code: int, message: string)  // MongoServerError raised by the store
  {
    /** The JavaScript `error.name` of the failure. */
    function Name(): string {
      match this
      case Invalid(_) => "ValidationError"
      case Thrown(_) => "Error"
      case TypeFault(_) => "TypeError"
      case Server(_, _) => "MongoServerError"
    }

    /** The JavaScript `error.code`, present only on server errors. */
    function Code(): Option<int> {
      if Server? then Some(code) else None
    }
  }

  /** What a store call or a model hook produces: a value, or the failure
      it throws. */
  datatype Attempt<T> = Done(value: T) | Threw(failure: Failure)

  /** The controller outcomes, one per HTTP status family the handlers use. */
  datatype Outcome = Ok | BadRequest | NotFound | Forbidden | Error

  /** What a handler sends: the record on success, `{error: message}` with a
      4xx status, or the failure handed to the error middleware. */
  datatype Reply<T> =
    | Success(value: T)
    | Refused(outcome: Outcome, message: string)
    | Failed(failure: Failure)
  {
    function Status(): Outcome {
      match this
      case Success(_) => Ok
      case Refused(o, _) => o
      case Failed(_) => Error
    }
  }
}
