/** The listing endpoint's paging rules: the `@PageableDefault` request and
    `sanitizePageable`, which clamps the page number, rejects bad sizes and
    caps the size, keeping the sort. */
module StudentControllerPaging {
  import opened Wrappers
  import opened Framework
  import opened Exceptions

  const DefaultPageSize: int := 20
  const MaxPageSize: int := 100

  const PageSizeNegativeKey: string := "error.page.size.negative"
  const PageSizeInvalidKey: string := "error.page.size.invalid"

  /** `@PageableDefault(page = 0, size = 20, sort = "id", direction = ASC)` */
  const DefaultPageable: Pageable := PageRequest(0, DefaultPageSize, [SortBy(Asc, "id")])

  /** The raw `size` query parameter after `Integer.parseInt`: absent, not a
      32-bit integer, or the integer it denotes. */
  datatype SizeParameter = Absent | NotAnInteger | Integer(value: int)

  function Max(a: int, b: int): int
  {
    if a >= b then a else b
  }

  /** The 400 error `sanitizePageable` throws, with a message key as reason. */
  function BadPageRequest(key: string): AppException
  {
    ResponseStatus(BadRequest, Some(key))
  }

  /** `sanitizePageable`: rejects a raw size below 1 or one that is not an
      integer, then a resolved size below 1; caps the size at 100 and clamps
      the page number at 0 without error; the original request comes back
      when nothing was adjusted. */
  function SanitizePageable(pageable: Pageable, sizeParam: SizeParameter): (r: Result<Pageable, AppException>)
    ensures sizeParam.Integer? && sizeParam.value < 1 ==> r == Failure(BadPageRequest(PageSizeNegativeKey))
    ensures sizeParam.NotAnInteger? ==> r == Failure(BadPageRequest(PageSizeInvalidKey))
    ensures !sizeParam.NotAnInteger? && !(sizeParam.Integer? && sizeParam.value < 1) && pageable.pageSize < 1 ==>
      r == Failure(BadPageRequest(PageSizeNegativeKey))
    ensures r.Success? <==>
      !sizeParam.NotAnInteger? && !(sizeParam.Integer? && sizeParam.value < 1) && pageable.pageSize >= 1
    ensures r.Success? ==>
      && r.value.pageNumber == Max(pageable.pageNumber, 0)
      && 1 <= r.value.pageSize <= MaxPageSize
      && (r.value.pageSize == pageable.pageSize || (pageable.pageSize > MaxPageSize && r.value.pageSize == MaxPageSize))
      && r.value.sort == pageable.sort
    ensures r.Success? && pageable.pageNumber >= 0 && pageable.pageSize <= MaxPageSize ==> r.value == pageable
  {
    var page := Max(pageable.pageNumber, 0);
    var size := pageable.pageSize;
    if sizeParam.Integer? && sizeParam.value < 1 then
      Failure(BadPageRequest(PageSizeNegativeKey))
    else if sizeParam.NotAnInteger? then
      Failure(BadPageRequest(PageSizeInvalidKey))
    else if size < 1 then
      Failure(BadPageRequest(PageSizeNegativeKey))
    else
      var size := if size > MaxPageSize then MaxPageSize else size;
      if page != pageable.pageNumber || size != pageable.pageSize then
        Success(PageRequest(page, size, pageable.sort))
      else
        Success(pageable)
  }

  /** Sanitizing is idempotent: a sanitized request passes unchanged. */
  lemma SanitizeIdempotent(pageable: Pageable, sizeParam: SizeParameter)
    requires SanitizePageable(pageable, sizeParam).Success?
    ensures var once := SanitizePageable(pageable, sizeParam).value;
      SanitizePageable(once, Absent) == Success(once)
  {
  }

  /** Every failure is a 400 `ResponseStatusException` whose reason is one of
      the two page-size keys. */
  lemma SanitizeFailsWithBadRequest(pageable: Pageable, sizeParam: SizeParameter)
    requires SanitizePageable(pageable, sizeParam).Failure?
    ensures var e := SanitizePageable(pageable, sizeParam).error;
      e.ResponseStatus? && e.status == BadRequest && e.reason.Some?
      && (e.reason.value == PageSizeNegativeKey || e.reason.value == PageSizeInvalidKey)
  {
  }

  /** With no parameters: page 0, 20 per page, ascending by id. */
  lemma DefaultRequestPassesUnchanged()
    ensures SanitizePageable(DefaultPageable, Absent) == Success(DefaultPageable)
    ensures DefaultPageable.pageNumber == 0 && DefaultPageable.pageSize == 20
    ensures DefaultPageable.sort == [Order("id", Asc, false, Native)]
  {
  }

  /** `size=200` gives a page of 100 and no error; `size=-5` is rejected as a
      size below one whatever the resolved request says. */
  lemma SizeExamples(pageable: Pageable)
    ensures pageable.pageNumber == 0 && pageable.pageSize == 200 ==>
      SanitizePageable(pageable, Integer(200)) == Success(PageRequest(0, 100, pageable.sort))
    ensures SanitizePageable(pageable, Integer(-5)) == Failure(BadPageRequest(PageSizeNegativeKey))
  {
  }
}
