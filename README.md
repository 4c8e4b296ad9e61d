# Student management core, modelled in Dafny

This project models the server-side core of a Spring Boot student
management application and proves properties of that model. The core has
five parts:

- **The persistence-backed student service.** It validates a payload field by field. It stops at the first broken
  rule and reports that field, the rejected value and a message key. An
  accepted payload has its text fields trimmed and is saved: a create
  always gets a freshly generated identifier, and an update keeps the
  identifier of the row it overwrites. The model has a mutable `Student`
  entity, a repository (a map of rows plus the last generated identifier)
  and the service, all as classes. Validation is a pure function over a
  snapshot of the payload.
- **The listing endpoint's page-request sanitiser.** It clamps a negative
  page number to 0, caps the page size at 100, rejects a size below one or
  a size that is not an integer with a 400 and a message key, and returns
  the request itself when nothing needed adjusting.
- **Error shaping.** Every exception kind becomes an HTTP status plus an
  `ApiErrorResponse` body carrying the numeric status, the reason phrase,
  a message resolved from a message source, the request path and the field
  errors. `ResourceNotFoundException` is modelled as a class with its own
  message, message key, argument array and defensive-copy getter.
- **The page envelope.** It copies a page's content and metadata and
  flattens each sort order to names. The integration tests' page
  arithmetic (page count, first/last) is proved for a page cut out of an
  ordered result, the way Spring Data's `PageImpl` reports it.
- **The in-memory student store.** A map from id to student plus an id
  counter, seeded with three students. Its invariant says every key maps
  to the student with that id and no key exceeds the counter, so a create
  never overwrites and a deleted id is never reused.

Java's text semantics are written out where the behaviour depends on them.
`StringUtils.hasText` looks for a character that is not
`Character.isWhitespace`, whereas `String.trim` strips every character up
to U+0020. The regex `\s` is the six ASCII spaces. `String.valueOf` of a
`Long` is its decimal text. Because `hasText` and `trim` disagree on
characters such as U+0001, the model proves that a first name made only of
such characters passes validation and is stored as the empty string
(`StudentValidation.ControlCharacterNameAccepted`,
`PersistenceService.StoredFirstNameMayBeEmpty`).

Modules, one per file: `Wrappers` (Option, Result, Outcome), `JavaText`,
`Framework` (object values, `HttpStatus`, sorting, `Pageable`, `Page`),
`Exceptions`, `StudentValidation`, `PersistenceService`,
`StudentControllerPaging`, `ApiErrors`, `ExceptionHandling`,
`PageResponses` and `InMemoryStudents`.

## Model

| member | source | states |
|---|---|---|
| JavaText.HasText | src/main/java/com/example/studentmanagement/service/StudentService.java:68-79 | hasText fails exactly for null and for a string whose every character is Java whitespace, the empty string included |
| JavaText.Trim | src/main/java/com/example/studentmanagement/service/StudentService.java:82 | the trimmed string has no character up to U+0020 at either end and is no longer than its input |
| JavaText.TrimIsInfix | src/main/java/com/example/studentmanagement/service/StudentService.java:94-96 | trim removes exactly a prefix and a suffix of characters up to U+0020 and keeps the middle |
| JavaText.TrimEmptyIff | src/main/java/com/example/studentmanagement/service/StudentService.java:82 | trim gives "" exactly when every character is at most U+0020 |
| JavaText.TrimIdempotent | src/main/java/com/example/studentmanagement/service/StudentService.java:94-96 | trimming a trimmed string changes nothing |
| JavaText.TrimOfPrintable | src/main/java/com/example/studentmanagement/service/StudentService.java:94-96 | trim leaves an already trimmed string as it is |
| JavaText.HasTextButTrimsEmptyIff | src/main/java/com/example/studentmanagement/service/StudentService.java:68-69 | a string passes hasText yet trims to "" exactly when all its characters are at most U+0020 and one of them is not Java whitespace |
| JavaText.HasTextTrimsNonEmpty | src/main/java/com/example/studentmanagement/service/StudentService.java:68-69 | without such gap characters, a string that passes hasText trims to a non-empty string |
| JavaText.NatToDecimal | src/main/java/com/example/studentmanagement/exception/ResourceNotFoundException.java:17 | the decimal text of a number is a non-empty digit string without a leading zero |
| JavaText.DecimalRoundTrip | src/main/java/com/example/studentmanagement/exception/ResourceNotFoundException.java:17 | reading the decimal text back gives the number |
| JavaText.LongToString9999 | src/main/java/com/example/studentmanagement/exception/ResourceNotFoundException.java:17 | String.valueOf of the long 9999 is "9999" |
| JavaText.LongRoundTrip | src/main/java/com/example/studentmanagement/exception/ResourceNotFoundException.java:17 | the model's decimal reader (an optional minus sign and digits; no leading plus sign, no 64-bit range check) gives back the Long.toString rendering of every integer, negative values included |
| Framework.ValueOf | src/main/java/com/example/studentmanagement/exception/ResourceNotFoundException.java:17 | String.valueOf renders null as "null", a string as itself, and a Long as text that reads back as that number |
| Framework.FromString | src/main/java/com/example/studentmanagement/service/StudentService.java:69 | a null string becomes the null rejected value, any other the string value |
| Framework.StatusOf | src/main/java/com/example/studentmanagement/exception/GlobalExceptionHandler.java:97 | HttpStatus.valueOf yields a constant whose code is the one asked for |
| Framework.StatusOfValue | src/main/java/com/example/studentmanagement/exception/GlobalExceptionHandler.java:97 | valueOf of a status's own code is that status |
| Framework.PageOf | src/test/java/com/example/studentmanagement/controller/StudentControllerIntegrationTest.java:83-93 | a page holds up to size elements, exactly those at offset number*size onward, in order; first iff number is 0; last iff no later page exists |
| Framework.TotalPagesIsCeiling | src/test/java/com/example/studentmanagement/controller/StudentControllerIntegrationTest.java:182-192 | the page count is the least number of pages of the given size that hold every element |
| Framework.PageNonEmptyIff | src/test/java/com/example/studentmanagement/controller/StudentControllerIntegrationTest.java:101-109 | a page has content exactly when its number is below the page count |
| Framework.ElementOnItsPage | src/test/java/com/example/studentmanagement/controller/StudentControllerIntegrationTest.java:182-192 | element k is entry k mod size of page k div size, and that page exists |
| Exceptions.NotFoundMessageArgs | src/main/java/com/example/studentmanagement/exception/ResourceNotFoundException.java:17 | the message arguments are resource name, field name and the value's text, in that order |
| Exceptions.StudentNotFoundMessage | src/main/java/com/example/studentmanagement/exception/ResourceNotFoundException.java:12 | the message for a missing student 9999 is "Student not found with id: 9999" |
| Exceptions.ResourceNotFoundException.constructor | src/main/java/com/example/studentmanagement/exception/ResourceNotFoundException.java:11-18 | the fields are set as given, the message is the formatted text, the key is "error.resource.not-found" and the argument array holds the three arguments |
| Exceptions.ResourceNotFoundException.GetMessageArgs | src/main/java/com/example/studentmanagement/exception/ResourceNotFoundException.java:36-38 | the getter returns a fresh array holding the arguments |
| Exceptions.ArgsSurviveCallerMutation | src/main/java/com/example/studentmanagement/exception/ResourceNotFoundException.java:36-38 | overwriting the returned array does not change what the next call returns |
| StudentValidation.MatchesEmailPattern | src/main/java/com/example/studentmanagement/service/StudentService.java:83 | a matching e-mail has at least five characters, the shortest form being x@y.z |
| StudentValidation.MatchesEmailPatternIff | src/main/java/com/example/studentmanagement/service/StudentService.java:17 | the direct check accepts exactly the strings local@domain.tld whose three parts are non-empty and contain neither '@' nor whitespace |
| StudentValidation.ValidateStudent | src/main/java/com/example/studentmanagement/service/StudentService.java:62-90 | validation passes exactly when the payload is present and acceptable; every rejection is the invalid-student-data kind |
| StudentValidation.ValidateReportsFirstViolation | src/main/java/com/example/studentmanagement/service/StudentService.java:62-90 | the short-circuit validator reports the first violation of the accumulate-all list and passes iff that list is empty |
| StudentValidation.RejectionNamesFirstBrokenField | src/main/java/com/example/studentmanagement/service/StudentService.java:67-89 | first broken rule in order first name, last name, e-mail presence, e-mail format, birth date decides field, rejected value (the trimmed e-mail for the format rule) and key |
| StudentValidation.AcceptedEmailInLanguage | src/main/java/com/example/studentmanagement/service/StudentService.java:82-85 | an accepted payload's trimmed e-mail has the form local@domain.tld |
| StudentValidation.ControlCharacterNameAccepted | src/main/java/com/example/studentmanagement/service/StudentService.java:68 | a first name of one control character passes validation although it trims to "" |
| PersistenceService.Snapshot | src/main/java/com/example/studentmanagement/service/StudentService.java:63 | there is no payload exactly when the reference is null |
| PersistenceService.TrimmedData | src/main/java/com/example/studentmanagement/service/StudentService.java:94-96 | the three text fields come out present and trimmed; the date of birth is kept |
| PersistenceService.AcceptedPayloadStoredForm | src/main/java/com/example/studentmanagement/service/StudentService.java:49-52 | trimming an accepted payload gives a row with every field present, trimmed text and a pattern-matching e-mail |
| PersistenceService.StoredFirstNameMayBeEmpty | src/main/java/com/example/studentmanagement/service/StudentService.java:94 | an accepted payload can be stored with an empty first name |
| PersistenceService.Student.constructor | src/main/java/com/example/studentmanagement/service/StudentService.java:5 | the entity holds the given identifier and fields |
| PersistenceService.StudentRepository.constructor | src/main/java/com/example/studentmanagement/service/StudentService.java:19 | an empty repository that has generated no identifier |
| PersistenceService.StudentRepository.FindById | src/main/java/com/example/studentmanagement/service/StudentService.java:34 | a fresh entity loaded from the row exactly when the row exists |
| PersistenceService.StudentRepository.Save | src/main/java/com/example/studentmanagement/service/StudentService.java:41 | an entity without identifier is inserted under a new one set on that same entity; one with an identifier overwrites its row and a fresh copy comes back |
| PersistenceService.StudentRepository.DeleteById | src/main/java/com/example/studentmanagement/service/StudentService.java:59 | only that row goes and the identifier counter stays |
| PersistenceService.StudentService.constructor | src/main/java/com/example/studentmanagement/service/StudentService.java:21-23 | the service keeps the repository it is given |
| PersistenceService.StudentService.GetStudentById | src/main/java/com/example/studentmanagement/service/StudentService.java:33-36 | not-found for "Student", "id", the id exactly when no row exists; otherwise that row under that id |
| PersistenceService.StudentService.CreateStudent | src/main/java/com/example/studentmanagement/service/StudentService.java:38-42 | a rejected payload changes neither store nor payload; an accepted one gets the next identifier, is trimmed in place, stored and returned; rows stay in stored form |
| PersistenceService.StudentService.ResetIdentifier | src/main/java/com/example/studentmanagement/service/StudentService.java:92-97 | the identifier is cleared and the three text fields are trimmed in place |
| PersistenceService.StudentService.UpdateStudent | src/main/java/com/example/studentmanagement/service/StudentService.java:44-55 | not-found before validation; any failure writes nothing; success overwrites only that row with the trimmed values and keeps its identifier |
| PersistenceService.StudentService.DeleteStudent | src/main/java/com/example/studentmanagement/service/StudentService.java:57-60 | not-found and nothing removed for an absent id; otherwise exactly that row is removed |
| PersistenceService.CreateThenGet | src/main/java/com/example/studentmanagement/service/StudentService.java:33-42 | a created student reads back trimmed under the new identifier |
| PersistenceService.UpdateThenGet | src/main/java/com/example/studentmanagement/service/StudentService.java:33-55 | an updated student reads back with the trimmed new values under the same identifier |
| PersistenceService.DeleteThenGet | src/main/java/com/example/studentmanagement/service/StudentService.java:33-36 | after a delete, reading the id is not-found |
| StudentControllerPaging.SanitizePageable | src/main/java/com/example/studentmanagement/controller/StudentController.java:80-108 | a raw size below one or not an integer, or a resolved size below one, is a 400 with the matching key; otherwise the page is max(page, 0), the size capped at 100, the sort kept, and an unadjusted request comes back as it was |
| StudentControllerPaging.SanitizeIdempotent | src/main/java/com/example/studentmanagement/controller/StudentController.java:80-108 | sanitising a sanitised request changes nothing |
| StudentControllerPaging.SanitizeFailsWithBadRequest | src/main/java/com/example/studentmanagement/controller/StudentController.java:88-97 | every rejection is a 400 whose reason is one of the two page-size keys |
| StudentControllerPaging.DefaultRequestPassesUnchanged | src/main/java/com/example/studentmanagement/controller/StudentController.java:40-45 | the default request (page 0, size 20, ascending by id) passes unchanged |
| StudentControllerPaging.SizeExamples | src/test/java/com/example/studentmanagement/controller/StudentControllerIntegrationTest.java:229-248 | size 200 gives a page of 100 and size -5 is rejected as a size below one |
| ApiErrors.NewApiErrorResponse | src/main/java/com/example/studentmanagement/exception/ApiErrorResponse.java:18-21 | a null timestamp becomes now and a given one is kept; a null list becomes empty and a given one is kept in order; the other components are stored as given |
| ApiErrors.NormalisationIdempotent | src/main/java/com/example/studentmanagement/exception/ApiErrorResponse.java:18-21 | rebuilding a body from its own components gives the same body whatever the clock says |
| ApiErrors.JsonFields | src/main/java/com/example/studentmanagement/exception/ApiErrorResponse.java:7-15 | every component is written, except errors, which is written exactly when non-empty |
| ExceptionHandling.GetMessage | src/main/java/com/example/studentmanagement/exception/GlobalExceptionHandler.java:37-41 | a lookup gives the resolved text, or fails naming the missing key |
| ExceptionHandling.GetMessageOrDefault | src/main/java/com/example/studentmanagement/exception/GlobalExceptionHandler.java:95 | a lookup with a default gives the resolved text, or the default |
| ExceptionHandling.BuildResponse | src/main/java/com/example/studentmanagement/exception/GlobalExceptionHandler.java:117-131 | the body carries the numeric status, reason phrase, message, path and field errors, stamped now |
| ExceptionHandling.ToFieldValidationError | src/main/java/com/example/studentmanagement/exception/GlobalExceptionHandler.java:133-140 | field, default message and rejected value are copied |
| ExceptionHandling.ToFieldValidationErrors | src/main/java/com/example/studentmanagement/exception/GlobalExceptionHandler.java:31-35 | one field error per binding error, in order, each a copy |
| ExceptionHandling.Respond | src/main/java/com/example/studentmanagement/exception/GlobalExceptionHandler.java:43-45 | the HTTP status and the body's status are the same, with its reason phrase, the message, path, field errors and the current time |
| ExceptionHandling.HandleMethodArgumentNotValid | src/main/java/com/example/studentmanagement/exception/GlobalExceptionHandler.java:26-46 | 400 with the generic validation message and one field error per binding error in order; fails only when the generic message is missing |
| ExceptionHandling.HandleInvalidStudentData | src/main/java/com/example/studentmanagement/exception/GlobalExceptionHandler.java:48-69 | 400 with exactly one field error for the exception's field and rejected value, whose message is the body's message |
| ExceptionHandling.HandleResourceNotFound | src/main/java/com/example/studentmanagement/exception/GlobalExceptionHandler.java:71-84 | 404 with the not-found message resolved with the exception's arguments and no field errors |
| ExceptionHandling.HandleResponseStatus | src/main/java/com/example/studentmanagement/exception/GlobalExceptionHandler.java:86-100 | the exception's status; a null reason gives the status text, otherwise the reason's lookup falling back to the reason itself; never fails |
| ExceptionHandling.HandlePropertyReference | src/main/java/com/example/studentmanagement/exception/GlobalExceptionHandler.java:102-115 | 400 with "error.sort.invalid" resolved with the property name as only argument and no field errors |
| ExceptionHandling.ResponsesAreWellFormed | src/main/java/com/example/studentmanagement/exception/GlobalExceptionHandler.java:117-131 | every answer's HTTP status is the one for its exception kind and its body carries that status's code and reason phrase, the path and the current time |
| ExceptionHandling.HandlerFailsOnlyOnMissingMessage | src/main/java/com/example/studentmanagement/exception/GlobalExceptionHandler.java:26-115 | a handler fails only for a missing message, naming its key, and a response-status exception is always answered |
| ExceptionHandling.ThrownNotFoundAnswered | src/main/java/com/example/studentmanagement/exception/GlobalExceptionHandler.java:71-84 | a constructed not-found exception is answered 404 "Not Found" with the message its own key and argument array resolve to, failing only when that message is missing |
| ExceptionHandling.RejectedPageRequestIsBadRequest | src/main/java/com/example/studentmanagement/controller/StudentController.java:88-97 | a page request the controller rejects is answered 400 "Bad Request" with the page-size message and no errors member |
| ExceptionHandling.MissingStudentResponse | src/test/java/com/example/studentmanagement/controller/StudentControllerIntegrationTest.java:148-161 | a missing student 9999 is answered 404 "Not Found" at its path with the not-found message for its arguments and no errors member |
| PageResponses.SortDescriptorFrom | src/main/java/com/example/studentmanagement/controller/dto/PageResponse.java:55-62 | property, direction name, case flag and null-handling name of the order |
| PageResponses.SortDescriptorsFrom | src/main/java/com/example/studentmanagement/controller/dto/PageResponse.java:32-34 | one descriptor per sort order, in order |
| PageResponses.DirectionNamed | src/main/java/com/example/studentmanagement/controller/dto/PageResponse.java:58 | a name maps back only to the direction with that name |
| PageResponses.NullHandlingNamed | src/main/java/com/example/studentmanagement/controller/dto/PageResponse.java:60 | a name maps back only to the null handling with that name |
| PageResponses.SortDescriptorRoundTrip | src/main/java/com/example/studentmanagement/controller/dto/PageResponse.java:55-62 | the order can be read back from its descriptor |
| PageResponses.SortDescriptorsRoundTrip | src/main/java/com/example/studentmanagement/controller/dto/PageResponse.java:32-34 | reading all descriptors back gives the page's sort in order |
| PageResponses.MetadataFrom | src/main/java/com/example/studentmanagement/controller/dto/PageResponse.java:31-46 | number, size, totals, flags and element count are copied verbatim, and the sort is the descriptor list of the page's orders, so one descriptor per order in order with its names |
| PageResponses.From | src/main/java/com/example/studentmanagement/controller/dto/PageResponse.java:13-18 | the content is the page's content in order and the metadata is the page's |
| PageResponses.ThreeStudentsTwoPerPage | src/test/java/com/example/studentmanagement/controller/StudentControllerIntegrationTest.java:83-96 | 3 students, size 2, page 0: two items, 2 pages, first, not last, first sort order "lastName" "ASC" |
| PageResponses.NoStudents | src/test/java/com/example/studentmanagement/controller/StudentControllerIntegrationTest.java:101-109 | no students: no content, 0 pages, first and last |
| PageResponses.DefaultPageHoldsAll | src/test/java/com/example/studentmanagement/controller/StudentControllerIntegrationTest.java:113-130 | up to 20 students under the default request: all on one page that is first and last |
| PageResponses.TwelveStudentsSecondPage | src/test/java/com/example/studentmanagement/controller/StudentControllerIntegrationTest.java:182-192 | 12 students, size 5, page 1: 3 pages, neither first nor last, content starts at the sixth |
| InMemoryStudents.MinExists | src/main/java/com/example/studentmanagement/student/StudentService.java:31 | a non-empty key set has a least key, the next one findAll emits |
| InMemoryStudents.MaxKey | src/main/java/com/example/studentmanagement/student/StudentService.java:26 | the largest key, or 0 for no keys |
| InMemoryStudents.StudentStore.constructor | src/main/java/com/example/studentmanagement/student/StudentService.java:18-19 | an empty map and the counter at 0 |
| InMemoryStudents.StudentStore.SeedInitialData | src/main/java/com/example/studentmanagement/student/StudentService.java:22-27 | Alice, Bob and Charlie under 1, 2, 3; the counter is the largest key |
| InMemoryStudents.StudentStore.FindAll | src/main/java/com/example/studentmanagement/student/StudentService.java:29-33 | every stored student exactly once, strictly ascending by id |
| InMemoryStudents.StudentStore.FindById | src/main/java/com/example/studentmanagement/student/StudentService.java:35-37 | a student exactly when the key is present, and it is the stored one |
| InMemoryStudents.StudentStore.Create | src/main/java/com/example/studentmanagement/student/StudentService.java:39-44 | id is the old counter plus one, a key that was free; the request's fields stored under it and returned |
| InMemoryStudents.StudentStore.Update | src/main/java/com/example/studentmanagement/student/StudentService.java:46-53 | "Student not found" and no change for an absent id; otherwise only that entry replaced, keeping its id |
| InMemoryStudents.StudentStore.Delete | src/main/java/com/example/studentmanagement/student/StudentService.java:55-59 | "Student not found" and no change for an absent id; otherwise only that entry removed, counter untouched |
| InMemoryStudents.StartedStore | src/main/java/com/example/studentmanagement/student/StudentService.java:21-27 | the started store holds ids 1, 2, 3 with the counter at 3 |
| InMemoryStudents.DeleteThenCreate | src/main/java/com/example/studentmanagement/student/StudentService.java:39-59 | after a successful delete, the next create never gets the deleted id |

Definitions without a contract of their own, whose meaning the rows above
state: `Exceptions.NotFoundMessage` (the `String.format` of
`ResourceNotFoundException.java` line 12, pinned by
`Exceptions.StudentNotFoundMessage`), `Exceptions.ResourceNotFoundException.Kind`
(used by `ExceptionHandling.ThrownNotFoundAnswered`), `ExceptionHandling.Handle`
and `ExceptionHandling.StatusFor` (the `@ExceptionHandler` dispatch, stated
by `ExceptionHandling.ResponsesAreWellFormed`,
`ExceptionHandling.HandlerFailsOnlyOnMissingMessage` and the per-kind
handler rows), and `PageResponses.Envelope` (`PageResponse.from` of the
page a request selects, as in `StudentController.java` lines 48-50, stated by
the `PageResponses` scenario rows).

## Left out

- The React frontend, and the HTTP handler methods of both controllers, including all of `student/StudentController.java`: they route requests to the service and pick 200/201/204/404.
- Bean validation of request bodies (`@Valid`, `StudentRequest`'s annotations, the entity's "must be a past date" rule): the binding errors it produces are an input to `ExceptionHandling.HandleMethodArgumentNotValid`.
- The source files of the entity and the repository (`model/Student.java`, `repository/StudentRepository.java`) are not available. `PersistenceService.Student` and `PersistenceService.StudentRepository` model them from the service's use: the entity's fields (identifier, first name, last name, e-mail, date of birth) and its setters, and the repository's `findById`, `save` and `deleteById` with JPA semantics.
- `InvalidStudentDataException`: modelled as the `InvalidStudentData` error kind whose message is the message key, with no message arguments. The handler calls `getMessageKey`/`getMessageArgs`, which that class does not declare, so the model takes the key the service passes it.
- Spring Data itself: the ordering of rows, multi-key sorting, detecting an unknown sort property (modelled only as the `PropertyReference` kind the handler receives), and database identity generation, which is modelled as a counter.
- `getAllStudents` and `getStudents` only delegate to the repository; the page they return is modelled by `Framework.PageOf` over an already ordered result.
- `Integer.parseInt` of the size parameter: it comes already parsed as absent, not an integer, or an integer.
- `MessageSource`, `Locale` and `Instant.now()`: the message source for the request's locale is a function parameter, and the clock is a `now` parameter.
- `ConcurrentHashMap` and `AtomicLong`: the store is modelled sequentially.
- `Long`, `int` and the id counter are unbounded integers; overflow is not modelled.
- `HttpStatus`: only the six constants the application produces are modelled.
- PersistenceService.StudentRepository.Save: requires an entity whose identifier is absent or has a row; merging an entity whose identifier has no row is not modelled.
- `null` is modelled for the payload and its fields and for the exception reason; other references are taken as non-null.
- Strings are sequences of Dafny characters, not UTF-16 code units; trimming, whitespace and the e-mail pattern are stated character by character.
