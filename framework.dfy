/** The framework value types the core exchanges with Spring: Java object
    values, `LocalDate`, `HttpStatus`, `Sort.Order`, `Pageable` and `Page`,
    with the page arithmetic of Spring Data's `PageImpl` for a page cut out
    of an already ordered result. */
module Framework {
  import opened Wrappers
  import opened JavaText

  /** A `LocalDate`, as parsed by the JSON layer. */
  datatype Date = Date(year: int, month: int, day: int)

  /** A Java `Object` as far as this core looks at it: `null`, a `String`, a
      `Long`, or any other object, known only through its `toString()`. */
  datatype JValue = JNull | JString(s: string) | JLong(n: int) | JOther(text: string)

  /** `String.valueOf(Object)`: "null" for `null`, otherwise `toString()`. */
  function ValueOf(v: JValue): (r: string)
    ensures v.JNull? ==> r == "null"
    ensures v.JString? ==> r == v.s
    ensures v.JLong? ==> ParseLong(r) == Some(v.n)
  {
    match v
    case JNull => "null"
    case JString(s) => s
    case JLong(n) => LongRoundTrip(n); LongToString(n)
    case JOther(text) => text
  }

  /** The string value of a field that may be `null`. */
  function FromString(s: Option<string>): (v: JValue)
    ensures s.None? <==> v == JNull
    ensures s.Some? ==> v == JString(s.value)
  {
    match s
    case None => JNull
    case Some(t) => JString(t)
  }

  /** The constants of Spring's `HttpStatus` that this application produces. */
  datatype HttpStatus = Ok | Created | NoContent | BadRequest | NotFound | InternalServerError {
    /** `value()` */
    function Value(): int
    {
      match this
      case Ok => 200
      case Created => 201
      case NoContent => 204
      case BadRequest => 400
      case NotFound => 404
      case InternalServerError => 500
    }

    /** `getReasonPhrase()` */
    function ReasonPhrase(): string
    {
      match this
      case Ok => "OK"
      case Created => "Created"
      case NoContent => "No Content"
      case BadRequest => "Bad Request"
      case NotFound => "Not Found"
      case InternalServerError => "Internal Server Error"
    }

    /** `name()`, the enum constant's identifier. */
    function Name(): string
    {
      match this
      case Ok => "OK"
      case Created => "CREATED"
      case NoContent => "NO_CONTENT"
      case BadRequest => "BAD_REQUEST"
      case NotFound => "NOT_FOUND"
      case InternalServerError => "INTERNAL_SERVER_ERROR"
    }

    /** `toString()`: the numeric code, a space, and the constant's name. */
    function ToString(): string
    {
      LongToString(Value()) + " " + Name()
    }
  }

  /** `HttpStatus.valueOf(int)`; `None` stands for the
      `IllegalArgumentException` it throws for a code without a constant. */
  function StatusOf(code: int): (r: Option<HttpStatus>)
    ensures r.Some? ==> r.value.Value() == code
  {
    if code == 200 then Some(Ok)
    else if code == 201 then Some(Created)
    else if code == 204 then Some(NoContent)
    else if code == 400 then Some(BadRequest)
    else if code == 404 then Some(NotFound)
    else if code == 500 then Some(InternalServerError)
    else None
  }

  /** Looking a status up by its own code gives the same constant back, so
      no two constants share a code. */
  lemma StatusOfValue(s: HttpStatus)
    ensures StatusOf(s.Value()) == Some(s)
  {
  }

  /** `Sort.Direction` */
  datatype Direction = Asc | Desc {
    function Name(): string
    {
      match this
      case Asc => "ASC"
      case Desc => "DESC"
    }
  }

  /** `Sort.NullHandling` */
  datatype NullHandling = Native | NullsFirst | NullsLast {
    function Name(): string
    {
      match this
      case Native => "NATIVE"
      case NullsFirst => "NULLS_FIRST"
      case NullsLast => "NULLS_LAST"
    }
  }

  /** `Sort.Order` */
  datatype Order = Order(property: string, direction: Direction, ignoreCase: bool, nullHandling: NullHandling)

  /** `Sort.by(direction, property)` for one property: case-sensitive, native
      null handling. */
  function SortBy(direction: Direction, property: string): Order
  {
    Order(property, direction, false, Native)
  }

  /** A `Pageable`, i.e. a `PageRequest`: page number, page size and the sort
      as a list of orders. */
  datatype Pageable = PageRequest(pageNumber: int, pageSize: int, sort: seq<Order>)

  /** What a `Page` reports through its getters. */
  datatype Page<T> = Page(
    content: seq<T>,
    number: int,
    size: int,
    totalElements: int,
    totalPages: int,
    first: bool,
    last: bool,
    numberOfElements: int,
    sort: seq<Order>)

  function Min(a: int, b: int): int
  {
    if a <= b then a else b
  }

  /** The index in the whole result of the first element of a page. */
  function Offset(pageable: Pageable): int
  {
    pageable.pageNumber * pageable.pageSize
  }

  /** The page `pageable` selects from the whole ordered result `all`,
      as a `PageImpl` reports it: `getTotalPages()` is the ceiling of
      total / size, `isFirst()` is "no previous page" and `isLast()` is
      "no next page". */
  function PageOf<T>(all: seq<T>, pageable: Pageable): (p: Page<T>)
    requires pageable.pageNumber >= 0 && pageable.pageSize >= 1
    ensures p.number == pageable.pageNumber && p.size == pageable.pageSize
    ensures p.sort == pageable.sort && p.totalElements == |all|
    ensures p.numberOfElements == |p.content| <= p.size
    ensures forall i :: 0 <= i < |p.content| ==> Offset(pageable) + i < |all| && p.content[i] == all[Offset(pageable) + i]
    ensures p.first <==> p.number == 0
    ensures p.last <==> p.number >= p.totalPages - 1
  {
    var number := pageable.pageNumber;
    var size := pageable.pageSize;
    var offset := Offset(pageable);
    var content := if offset < |all| then all[offset..Min(offset + size, |all|)] else [];
    var totalPages := (|all| + size - 1) / size;
    Page(content, number, size, |all|, totalPages, !(number > 0), !(number + 1 < totalPages), |content|, pageable.sort)
  }

  /** The page count is the least number of pages of `size` that hold every
      element. */
  lemma TotalPagesIsCeiling<T>(all: seq<T>, pageable: Pageable)
    requires pageable.pageNumber >= 0 && pageable.pageSize >= 1
    ensures var p := PageOf(all, pageable);
      && p.totalPages >= 0
      && p.totalPages * p.size >= |all|
      && (p.totalPages == 0 || (p.totalPages - 1) * p.size < |all|)
  {
    var size := pageable.pageSize;
    var t := (|all| + size - 1) / size;
    var m := (|all| + size - 1) % size;
    assert |all| + size - 1 == t * size + m && 0 <= m < size;
  }

  /** A page has content exactly when its number is below the page count. */
  lemma {:induction false} PageNonEmptyIff<T>(all: seq<T>, pageable: Pageable)
    requires pageable.pageNumber >= 0 && pageable.pageSize >= 1
    ensures var p := PageOf(all, pageable);
      p.content != [] <==> p.number < p.totalPages
  {
    TotalPagesIsCeiling(all, pageable);
    var p := PageOf(all, pageable);
    var n, size := p.number, p.size;
    if n < p.totalPages {
      assert n <= p.totalPages - 1;
      MulMonotone(n, p.totalPages - 1, size);
    } else {
      MulMonotone(p.totalPages, n, size);
    }
  }

  lemma MulMonotone(a: int, b: int, c: nat)
    requires a <= b
    ensures a * c <= b * c
  {
  }

  /** Every element of the result lies on exactly one page: element `k` is
      entry `k % size` of page `k / size`, and that page exists. */
  lemma ElementOnItsPage<T>(all: seq<T>, size: int, sort: seq<Order>, k: int)
    requires size >= 1 && 0 <= k < |all|
    ensures var p := PageOf(all, PageRequest(k / size, size, sort));
      && k / size < p.totalPages
      && k % size < |p.content|
      && p.content[k % size] == all[k]
  {
    var pageable := PageRequest(k / size, size, sort);
    var p := PageOf(all, pageable);
    assert Offset(pageable) + k % size == k;
    PageNonEmptyIff(all, pageable);
  }
}
