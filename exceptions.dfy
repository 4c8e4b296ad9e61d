/** The exceptions that reach the global exception handler, as one datatype
    of error kinds, and `ResourceNotFoundException` itself: its message, its
    message key and arguments, and its defensive-copy getter. */
module Exceptions {
  import opened Wrappers
  import opened Framework

  /** A `FieldError` of a failed bean validation. */
  datatype BindingFieldError = BindingFieldError(field: string, defaultMessage: string, rejectedValue: JValue)

  /** The five kinds of exception the handler maps to a response. */
  datatype AppException =
    /** Bean validation of the request body failed: `MethodArgumentNotValidException`. */
    | MethodArgumentNotValid(fieldErrors: seq<BindingFieldError>)
    /** The service rejected a payload: `InvalidStudentDataException`, whose
        message is a message key. */
    | InvalidStudentData(field: string, rejectedValue: JValue, messageKey: string)
    /** A lookup by some field found nothing: `ResourceNotFoundException`. */
    | ResourceNotFound(resourceName: string, fieldName: string, fieldValue: JValue)
    /** `ResponseStatusException` with a status and a reason that may be
        `null`; the controller uses the reason as a message key. */
    | ResponseStatus(status: HttpStatus, reason: Option<string>)
    /** A sort named an unknown property: `PropertyReferenceException`. */
    | PropertyReference(propertyName: string)

  /** The message key every `ResourceNotFoundException` carries. */
  const NotFoundMessageKey: string := "error.resource.not-found"

  /** The exception message: `String.format("%s not found with %s: %s", ...)`,
      where `%s` renders the value as `String.valueOf` does. */
  function NotFoundMessage(resourceName: string, fieldName: string, fieldValue: JValue): string
  {
    resourceName + " not found with " + fieldName + ": " + ValueOf(fieldValue)
  }

  /** The message arguments, in order: resource, field, rendered value. */
  function NotFoundMessageArgs(resourceName: string, fieldName: string, fieldValue: JValue): (args: seq<string>)
    ensures |args| == 3
    ensures args[0] == resourceName && args[1] == fieldName && args[2] == ValueOf(fieldValue)
  {
    [resourceName, fieldName, ValueOf(fieldValue)]
  }

  /** The message of the exception the service throws for a missing student
      is the text the API shows for it. */
  lemma StudentNotFoundMessage()
    ensures NotFoundMessage("Student", "id", JLong(9999)) == "Student not found with id: 9999"
  {
    JavaText.LongToString9999();
  }

  /** The exception object: final fields set once by the constructor, and an
      argument array that only copies ever leave. */
  class ResourceNotFoundException {
    const resourceName: string
    const fieldName: string
    const fieldValue: JValue
    const message: string
    const messageKey: string
    const messageArgs: array<string>

    /** The key is the not-found key, and the private argument array still
        holds what the constructor put in it. */
    ghost predicate Valid()
      reads messageArgs
    {
      && messageKey == NotFoundMessageKey
      && messageArgs[..] == NotFoundMessageArgs(resourceName, fieldName, fieldValue)
    }

    constructor (resourceName: string, fieldName: string, fieldValue: JValue)
      ensures Valid() && fresh(messageArgs)
      ensures this.resourceName == resourceName && this.fieldName == fieldName && this.fieldValue == fieldValue
      ensures message == NotFoundMessage(resourceName, fieldName, fieldValue)
      ensures messageKey == NotFoundMessageKey
    {
      this.resourceName := resourceName;
      this.fieldName := fieldName;
      this.fieldValue := fieldValue;
      this.message := NotFoundMessage(resourceName, fieldName, fieldValue);
      this.messageKey := NotFoundMessageKey;
      var args := new string[3];
      args[0], args[1], args[2] := resourceName, fieldName, ValueOf(fieldValue);
      this.messageArgs := args;
    }

    /** `getMessageArgs()`: a fresh copy (`clone()`) of the arguments. */
    method GetMessageArgs() returns (args: array<string>)
      requires Valid()
      ensures fresh(args)
      ensures args[..] == NotFoundMessageArgs(resourceName, fieldName, fieldValue)
    {
      args := new string[messageArgs.Length](i requires 0 <= i < messageArgs.Length reads messageArgs => messageArgs[i]);
    }

    /** The exception as the kind the handler dispatches on. */
    function Kind(): AppException
    {
      ResourceNotFound(resourceName, fieldName, fieldValue)
    }
  }

  /** A caller that overwrites the array it got does not change what the next
      caller gets. */
  method ArgsSurviveCallerMutation(ex: ResourceNotFoundException) returns (first: array<string>, second: array<string>)
    requires ex.Valid()
    ensures first != second && first.Length == 3 && first[0] == "overwritten"
    ensures second[..] == NotFoundMessageArgs(ex.resourceName, ex.fieldName, ex.fieldValue)
  {
    first := ex.GetMessageArgs();
    first[0] := "overwritten";
    second := ex.GetMessageArgs();
  }
}
