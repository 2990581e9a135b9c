/**
 * The application-wide exception handlers: each turns one kind of exception
 * into an `ApiError` body with a matching HTTP status. The time stamp of the
 * body is the caller's clock reading, and the request description is given as
 * a string.
 */
module ErrorHandling {
  import opened Wrappers
  import opened Http
  import opened JavaTime

  /** `ApiError`: status, message (Java `null` as `None`), path, time stamp and field errors. */
  datatype ApiError = ApiError(
    status: int,
    message: Option<string>,
    path: string,
    timestamp: Instant,
    errors: map<string, string>)

  /** A `FieldError` of a failed binding: the field name and its optional default message. */
  datatype FieldError = FieldError(field: string, defaultMessage: Option<string>)

  const VALIDATION_FAILED_MESSAGE: string := "Validation failed"
  const INVALID_VALUE_MESSAGE: string := "Invalid value"
  const UNEXPECTED_ERROR_MESSAGE: string := "An unexpected error occurred"

  /** The message a field error reports: its default message, or "Invalid value" when it has none. */
  function FieldMessage(error: FieldError): string
  {
    match error.defaultMessage
    case Some(message) => message
    case None => INVALID_VALUE_MESSAGE
  }

  /** The names of the fields that some error in `errors` is about. */
  function Fields(errors: seq<FieldError>): set<string>
  {
    set k | 0 <= k < |errors| :: errors[k].field
  }

  /** The error at index `k` is the first one about its field. */
  predicate FirstAbout(errors: seq<FieldError>, k: int)
  {
    0 <= k < |errors| && forall j :: 0 <= j < k ==> errors[j].field != errors[k].field
  }

  /** The fields of a non-empty error list: the first error's field and those of the rest. */
  lemma FieldsCons(errors: seq<FieldError>)
    requires errors != []
    ensures Fields(errors) == {errors[0].field} + Fields(errors[1..])
  {
    forall f | f in Fields(errors) ensures f in {errors[0].field} + Fields(errors[1..]) {
      var k :| 0 <= k < |errors| && errors[k].field == f;
      if k > 0 { assert errors[1..][k - 1].field == f; }
    }
    forall f | f in Fields(errors[1..]) ensures f in Fields(errors) {
      var k :| 0 <= k < |errors[1..]| && errors[1..][k].field == f;
      assert errors[k + 1].field == f;
    }
  }

  /**
   * One step of the `toMap` collector with the merge function `(existing,
   * replacement) -> existing`: a field already present keeps its message.
   */
  function Merge(acc: map<string, string>, e: FieldError): map<string, string>
  {
    if e.field in acc then acc else acc[e.field := FieldMessage(e)]
  }

  /**
   * The collector run over `errors` in order from the map `acc`. The keys are
   * those of `acc` plus the fields of the errors; a field already present keeps
   * its message, and a new field gets the message of the first error about it.
   */
  function CollectInto(acc: map<string, string>, errors: seq<FieldError>): (r: map<string, string>)
    ensures r.Keys == acc.Keys + Fields(errors)
    ensures forall f :: f in acc ==> r[f] == acc[f]
    ensures forall k :: FirstAbout(errors, k) && errors[k].field !in acc ==>
      r[errors[k].field] == FieldMessage(errors[k])
    decreases |errors|
  {
    if errors == [] then acc
    else
      var r := CollectInto(Merge(acc, errors[0]), errors[1..]);
      CollectStep(acc, errors, r);
      r
  }

  /** What collecting the rest of the errors after the first step gives holds of the whole list. */
  lemma CollectStep(acc: map<string, string>, errors: seq<FieldError>, r: map<string, string>)
    requires errors != []
    requires r.Keys == Merge(acc, errors[0]).Keys + Fields(errors[1..])
    requires forall f :: f in Merge(acc, errors[0]) ==> r[f] == Merge(acc, errors[0])[f]
    requires forall k :: FirstAbout(errors[1..], k) && errors[1..][k].field !in Merge(acc, errors[0]) ==>
      r[errors[1..][k].field] == FieldMessage(errors[1..][k])
    ensures r.Keys == acc.Keys + Fields(errors)
    ensures forall f :: f in acc ==> r[f] == acc[f]
    ensures forall k :: FirstAbout(errors, k) && errors[k].field !in acc ==>
      r[errors[k].field] == FieldMessage(errors[k])
  {
    FieldsCons(errors);
    forall k | FirstAbout(errors, k) && errors[k].field !in acc
      ensures r[errors[k].field] == FieldMessage(errors[k])
    {
      if k > 0 {
        assert errors[1..][k - 1] == errors[k];
        assert FirstAbout(errors[1..], k - 1);
      }
    }
  }

  /**
   * The field-error map of a validation failure, collected from an empty map:
   * its keys are the fields of the errors, and each field maps to the message
   * of the first error about it.
   */
  function CollectFieldErrors(errors: seq<FieldError>): (r: map<string, string>)
    ensures r.Keys == Fields(errors)
    ensures forall k :: FirstAbout(errors, k) ==>
      errors[k].field in r && r[errors[k].field] == FieldMessage(errors[k])
  {
    CollectInto(map[], errors)
  }

  /** A later error about a field that already has a message changes nothing. */
  lemma {:induction false} LaterDuplicateIgnored(errors: seq<FieldError>, e: FieldError)
    requires e.field in Fields(errors)
    ensures CollectFieldErrors(errors + [e]) == CollectFieldErrors(errors)
  {
    CollectIntoAppend(map[], errors, e);
  }

  /** Folding over `errors + [e]` is folding over `errors` and then over `e`. */
  lemma {:induction false} CollectIntoAppend(acc: map<string, string>, errors: seq<FieldError>, e: FieldError)
    ensures CollectInto(acc, errors + [e]) == Merge(CollectInto(acc, errors), e)
    decreases |errors|
  {
    if errors == [] {
      assert errors + [e] == [e];
      assert [e][1..] == [];
    } else {
      assert (errors + [e])[0] == errors[0];
      assert (errors + [e])[1..] == errors[1..] + [e];
      CollectIntoAppend(Merge(acc, errors[0]), errors[1..], e);
    }
  }

  /**
   * `handleValidationException`: 400, "Validation failed", the request
   * description as path and the field-error map; the body's status is the
   * response's status.
   */
  function HandleValidationException(fieldErrors: seq<FieldError>, requestDescription: string, now: Instant): (r: ResponseEntity<ApiError>)
    ensures r.status == BAD_REQUEST && r.body.status == r.status
    ensures r.body.message == Some(VALIDATION_FAILED_MESSAGE)
    ensures r.body.path == requestDescription && r.body.timestamp == now
    ensures r.body.errors.Keys == Fields(fieldErrors)
    ensures forall k :: FirstAbout(fieldErrors, k) ==>
      fieldErrors[k].field in r.body.errors && r.body.errors[fieldErrors[k].field] == FieldMessage(fieldErrors[k])
  {
    var error := ApiError(BAD_REQUEST, Some(VALIDATION_FAILED_MESSAGE), requestDescription, now, CollectFieldErrors(fieldErrors));
    ResponseEntity(BAD_REQUEST, error)
  }

  /**
   * `handleRuntimeException`: 500 with a fixed message and no field errors;
   * the exception's own message is ignored.
   */
  function HandleRuntimeException(exceptionMessage: Option<string>, requestDescription: string, now: Instant): (r: ResponseEntity<ApiError>)
    ensures r.status == INTERNAL_SERVER_ERROR && r.body.status == r.status
    ensures r.body.message == Some(UNEXPECTED_ERROR_MESSAGE)
    ensures r.body.path == requestDescription && r.body.timestamp == now
    ensures r.body.errors == map[]
  {
    ResponseEntity(INTERNAL_SERVER_ERROR,
      ApiError(INTERNAL_SERVER_ERROR, Some(UNEXPECTED_ERROR_MESSAGE), requestDescription, now, map[]))
  }

  /**
   * `handleIllegalArgumentException`: 400 carrying the exception's message
   * (possibly `null`) and no field errors.
   */
  function HandleIllegalArgumentException(exceptionMessage: Option<string>, requestDescription: string, now: Instant): (r: ResponseEntity<ApiError>)
    ensures r.status == BAD_REQUEST && r.body.status == r.status
    ensures r.body.message == exceptionMessage
    ensures r.body.path == requestDescription && r.body.timestamp == now
    ensures r.body.errors == map[]
  {
    ResponseEntity(BAD_REQUEST, ApiError(BAD_REQUEST, exceptionMessage, requestDescription, now, map[]))
  }

  /** The body of a runtime fault is the same whatever the exception's message: no detail leaks. */
  lemma RuntimeFaultHidesDetail(m1: Option<string>, m2: Option<string>, requestDescription: string, now: Instant)
    ensures HandleRuntimeException(m1, requestDescription, now) == HandleRuntimeException(m2, requestDescription, now)
    ensures m1.Some? && m1 != Some(UNEXPECTED_ERROR_MESSAGE) ==> HandleRuntimeException(m1, requestDescription, now).body.message != m1
  {
  }

  /** Field errors `[a: null, a: "x", b: "y"]` collect into `{a: "Invalid value", b: "y"}`. */
  lemma FieldErrorExample(errors: seq<FieldError>)
    requires errors == [FieldError("a", None), FieldError("a", Some("x")), FieldError("b", Some("y"))]
    ensures CollectFieldErrors(errors) == map["a" := INVALID_VALUE_MESSAGE, "b" := "y"]
  {
    assert "a" != "b";
    assert errors[0].field == "a" && errors[2].field == "b";
    assert Fields(errors) == {"a", "b"};
  }
}
