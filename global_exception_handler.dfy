/** `GlobalExceptionHandler`: each exception kind becomes an HTTP status and
    an `ApiErrorResponse` body. The message source is a function from a key
    and its arguments to the resolved text for the request's locale, `None`
    where it has no message (`NoSuchMessageException`, which the handler
    lets escape: the `Failure` of a handler names the missing key). */
module ExceptionHandling {
  import opened Wrappers
  import opened Framework
  import opened Exceptions
  import opened ApiErrors
  import StudentControllerPaging

  type MessageSource = (string, seq<string>) -> Option<string>

  /** A `ResponseEntity<ApiErrorResponse>`. */
  datatype ResponseEntity = ResponseEntity(status: HttpStatus, body: ApiErrorResponse)

  const GenericValidationKey: string := "error.validation.generic"
  const SortInvalidKey: string := "error.sort.invalid"

  /** `getMessage(code, args, locale)`: `NoSuchMessageException` when absent. */
  function GetMessage(ms: MessageSource, key: string, args: seq<string>): (r: Result<string, string>)
    ensures r.Success? <==> ms(key, args).Some?
    ensures r.Success? ==> r.value == ms(key, args).value
    ensures r.Failure? ==> r.error == key
  {
    match ms(key, args)
    case Some(text) => Success(text)
    case None => Failure(key)
  }

  /** `getMessage(code, args, defaultMessage, locale)`. */
  function GetMessageOrDefault(ms: MessageSource, key: string, args: seq<string>, default: string): (r: string)
    ensures ms(key, args).Some? ==> r == ms(key, args).value
    ensures ms(key, args).None? ==> r == default
  {
    ms(key, args).GetOr(default)
  }

  /** `buildResponse`: numeric status, reason phrase, message, path and the
      field errors, stamped with the current time. */
  function BuildResponse(status: HttpStatus, message: string, path: string, fieldErrors: seq<FieldValidationError>, now: int): (r: ApiErrorResponse)
    ensures r.status == status.Value() && r.error == status.ReasonPhrase()
    ensures r.message == message && r.path == path && r.errors == fieldErrors && r.timestamp == now
  {
    NewApiErrorResponse(None, status.Value(), status.ReasonPhrase(), message, path, Some(fieldErrors), now)
  }

  /** `toFieldValidationError`: field, default message and rejected value. */
  function ToFieldValidationError(e: BindingFieldError): (r: FieldValidationError)
    ensures r.field == e.field && r.message == e.defaultMessage && r.rejectedValue == e.rejectedValue
  {
    FieldValidationError(e.field, e.defaultMessage, e.rejectedValue)
  }

  /** The stream `map` over the binding result's field errors. */
  function ToFieldValidationErrors(es: seq<BindingFieldError>): (r: seq<FieldValidationError>)
    ensures |r| == |es|
    ensures forall i :: 0 <= i < |es| ==>
      r[i].field == es[i].field && r[i].message == es[i].defaultMessage && r[i].rejectedValue == es[i].rejectedValue
  {
    if es == [] then [] else [ToFieldValidationError(es[0])] + ToFieldValidationErrors(es[1..])
  }

  /** HTTP status and body with the same status, as every handler answers. */
  function Respond(status: HttpStatus, message: string, path: string, fieldErrors: seq<FieldValidationError>, now: int): (r: ResponseEntity)
    ensures r.status == status && r.body.status == r.status.Value() && r.body.error == r.status.ReasonPhrase()
    ensures r.body.message == message && r.body.path == path && r.body.errors == fieldErrors && r.body.timestamp == now
  {
    ResponseEntity(status, BuildResponse(status, message, path, fieldErrors, now))
  }

  /** `handleMethodArgumentNotValid`: 400, the generic validation message and
      one field error per binding error, in order. */
  function HandleMethodArgumentNotValid(fieldErrors: seq<BindingFieldError>, path: string, ms: MessageSource, now: int): (r: Result<ResponseEntity, string>)
    ensures r.Failure? <==> ms(GenericValidationKey, []).None?
    ensures r.Failure? ==> r.error == GenericValidationKey
    ensures r.Success? ==>
      && r.value.status == BadRequest
      && r.value.body.message == ms(GenericValidationKey, []).value
      && |r.value.body.errors| == |fieldErrors|
      && forall i :: 0 <= i < |fieldErrors| ==>
           r.value.body.errors[i] == FieldValidationError(fieldErrors[i].field, fieldErrors[i].defaultMessage, fieldErrors[i].rejectedValue)
  {
    var errors := ToFieldValidationErrors(fieldErrors);
    match GetMessage(ms, GenericValidationKey, [])
    case Success(message) => Success(Respond(BadRequest, message, path, errors, now))
    case Failure(key) => Failure(key)
  }

  /** `handleInvalidStudentData`: 400 with exactly one field error, for the
      exception's field and rejected value, whose message is the body's. */
  function HandleInvalidStudentData(field: string, rejectedValue: JValue, messageKey: string, path: string, ms: MessageSource, now: int): (r: Result<ResponseEntity, string>)
    ensures r.Failure? <==> ms(messageKey, []).None?
    ensures r.Failure? ==> r.error == messageKey
    ensures r.Success? ==>
      && r.value.status == BadRequest
      && r.value.body.message == ms(messageKey, []).value
      && r.value.body.errors == [FieldValidationError(field, r.value.body.message, rejectedValue)]
  {
    match GetMessage(ms, messageKey, [])
    case Success(message) =>
      Success(Respond(BadRequest, message, path, [FieldValidationError(field, message, rejectedValue)], now))
    case Failure(key) => Failure(key)
  }

  /** `handleResourceNotFound`: 404, the not-found message resolved with the
      exception's arguments, no field errors. */
  function HandleResourceNotFound(resourceName: string, fieldName: string, fieldValue: JValue, path: string, ms: MessageSource, now: int): (r: Result<ResponseEntity, string>)
    ensures var args := NotFoundMessageArgs(resourceName, fieldName, fieldValue);
      && (r.Failure? <==> ms(NotFoundMessageKey, args).None?)
      && (r.Failure? ==> r.error == NotFoundMessageKey)
      && (r.Success? ==>
            r.value.status == NotFound && r.value.body.message == ms(NotFoundMessageKey, args).value && r.value.body.errors == [])
  {
    match GetMessage(ms, NotFoundMessageKey, NotFoundMessageArgs(resourceName, fieldName, fieldValue))
    case Success(message) => Success(Respond(NotFound, message, path, [], now))
    case Failure(key) => Failure(key)
  }

  /** `handleResponseStatus`: the exception's own status; a `null` reason
      gives the status text ("400 BAD_REQUEST"), otherwise the reason is a
      key whose lookup falls back to the key itself, so it never fails.
      `HttpStatus.valueOf(status.value())` is the status itself, see
      `Framework.StatusOfValue`. */
  function HandleResponseStatus(status: HttpStatus, reason: Option<string>, path: string, ms: MessageSource, now: int): (r: ResponseEntity)
    ensures r.status == status && r.body.errors == []
    ensures reason.None? ==> r.body.message == status.ToString()
    ensures reason.Some? && ms(reason.value, []).Some? ==> r.body.message == ms(reason.value, []).value
    ensures reason.Some? && ms(reason.value, []).None? ==> r.body.message == reason.value
  {
    var message := if reason.None? then status.ToString() else GetMessageOrDefault(ms, reason.value, [], reason.value);
    Respond(status, message, path, [], now)
  }

  /** `handlePropertyReference`: 400, "error.sort.invalid" resolved with the
      unknown property as its only argument, no field errors. */
  function HandlePropertyReference(propertyName: string, path: string, ms: MessageSource, now: int): (r: Result<ResponseEntity, string>)
    ensures r.Failure? <==> ms(SortInvalidKey, [propertyName]).None?
    ensures r.Failure? ==> r.error == SortInvalidKey
    ensures r.Success? ==>
      r.value.status == BadRequest && r.value.body.message == ms(SortInvalidKey, [propertyName]).value && r.value.body.errors == []
  {
    match GetMessage(ms, SortInvalidKey, [propertyName])
    case Success(message) => Success(Respond(BadRequest, message, path, [], now))
    case Failure(key) => Failure(key)
  }

  /** The `@ExceptionHandler` dispatch on the exception's class. */
  function Handle(ex: AppException, path: string, ms: MessageSource, now: int): Result<ResponseEntity, string>
  {
    match ex
    case MethodArgumentNotValid(errors) => HandleMethodArgumentNotValid(errors, path, ms, now)
    case InvalidStudentData(field, value, key) => HandleInvalidStudentData(field, value, key, path, ms, now)
    case ResourceNotFound(resource, field, value) => HandleResourceNotFound(resource, field, value, path, ms, now)
    case ResponseStatus(status, reason) => Success(HandleResponseStatus(status, reason, path, ms, now))
    case PropertyReference(property) => HandlePropertyReference(property, path, ms, now)
  }

  /** The status each kind of exception is answered with. */
  function StatusFor(ex: AppException): HttpStatus
  {
    match ex
    case ResourceNotFound(_, _, _) => NotFound
    case ResponseStatus(status, _) => status
    case _ => BadRequest
  }

  /** Every body carries the numeric code and reason phrase of the HTTP
      status it is sent with, the request path and the current time, and
      that status is the one for the exception's kind. */
  lemma ResponsesAreWellFormed(ex: AppException, path: string, ms: MessageSource, now: int)
    requires Handle(ex, path, ms, now).Success?
    ensures var e := Handle(ex, path, ms, now).value;
      && e.status == StatusFor(ex)
      && e.body.status == e.status.Value()
      && e.body.error == e.status.ReasonPhrase()
      && e.body.path == path
      && e.body.timestamp == now
  {
  }

  /** Only a missing message can make a handler fail, and it names that key;
      a `ResponseStatusException` is always answered. */
  lemma HandlerFailsOnlyOnMissingMessage(ex: AppException, path: string, ms: MessageSource, now: int)
    requires Handle(ex, path, ms, now).Failure?
    ensures !ex.ResponseStatus?
    ensures var key := Handle(ex, path, ms, now).error;
      key == GenericValidationKey || key == NotFoundMessageKey || key == SortInvalidKey
      || (ex.InvalidStudentData? && key == ex.messageKey)
  {
  }

  /** A thrown `ResourceNotFoundException` is answered 404 with the message
      its own key and argument array resolve to, and no field errors. */
  lemma ThrownNotFoundAnswered(ex: ResourceNotFoundException, path: string, ms: MessageSource, now: int)
    requires ex.Valid()
    ensures var r := Handle(ex.Kind(), path, ms, now);
      && (r.Failure? <==> ms(ex.messageKey, ex.messageArgs[..]).None?)
      && (r.Success? ==>
            && r.value.status == NotFound && r.value.body.status == 404 && r.value.body.error == "Not Found"
            && r.value.body.message == ms(ex.messageKey, ex.messageArgs[..]).value
            && r.value.body.errors == [] && r.value.body.path == path)
  {
  }

  /** A page request the controller rejects is answered 400 "Bad Request"
      with the page-size message, and no field errors. */
  lemma RejectedPageRequestIsBadRequest(pageable: Pageable, sizeParam: StudentControllerPaging.SizeParameter, path: string, ms: MessageSource, now: int)
    requires StudentControllerPaging.SanitizePageable(pageable, sizeParam).Failure?
    ensures var ex := StudentControllerPaging.SanitizePageable(pageable, sizeParam).error;
      var r := Handle(ex, path, ms, now);
      && r.Success?
      && r.value.status == BadRequest
      && r.value.body.status == 400 && r.value.body.error == "Bad Request"
      && r.value.body.errors == [] && "errors" !in JsonFields(r.value.body)
      && r.value.body.message == GetMessageOrDefault(ms, ex.reason.value, [], ex.reason.value)
  {
    StudentControllerPaging.SanitizeFailsWithBadRequest(pageable, sizeParam);
  }

  /** A missing student, id 9999, requested at /api/v1/students/9999: 404
      "Not Found" with the path, the not-found message for "Student", "id",
      "9999", and no `errors` member in the JSON. */
  lemma MissingStudentResponse(ms: MessageSource, now: int)
    requires ms(NotFoundMessageKey, ["Student", "id", "9999"]).Some?
    ensures var r := Handle(ResourceNotFound("Student", "id", JLong(9999)), "/api/v1/students/9999", ms, now);
      && r.Success?
      && r.value.status == NotFound
      && r.value.body.status == 404 && r.value.body.error == "Not Found"
      && r.value.body.path == "/api/v1/students/9999"
      && r.value.body.message == ms(NotFoundMessageKey, ["Student", "id", "9999"]).value
      && "errors" !in JsonFields(r.value.body)
  {
    JavaText.LongToString9999();
  }
}
