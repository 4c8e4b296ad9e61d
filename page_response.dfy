/** `PageResponse`: the JSON envelope of a page of students, a copy of the
    page's content and metadata with each sort order flattened to names. */
module PageResponses {
  import opened Wrappers
  import opened Framework

  /** A sort order as the client sees it: enum constants by name. */
  datatype SortDescriptor = SortDescriptor(property: string, direction: string, ignoreCase: bool, nullHandling: string)

  datatype PageMetadata = PageMetadata(
    number: int,
    size: int,
    totalElements: int,
    totalPages: int,
    first: bool,
    last: bool,
    numberOfElements: int,
    sort: seq<SortDescriptor>)

  datatype PageResponse<T> = PageResponse(content: seq<T>, page: PageMetadata)

  /** `SortDescriptor.from`: property, direction name, case flag and
      null-handling name of the order. */
  function SortDescriptorFrom(order: Order): (d: SortDescriptor)
    ensures d.property == order.property && d.ignoreCase == order.ignoreCase
    ensures d.direction == order.direction.Name() && d.nullHandling == order.nullHandling.Name()
  {
    SortDescriptor(order.property, order.direction.Name(), order.ignoreCase, order.nullHandling.Name())
  }

  /** The stream `map` of `SortDescriptor.from` over the page's sort. */
  function SortDescriptorsFrom(orders: seq<Order>): (ds: seq<SortDescriptor>)
    ensures |ds| == |orders|
    ensures forall i :: 0 <= i < |orders| ==>
      ds[i].property == orders[i].property && ds[i].ignoreCase == orders[i].ignoreCase
      && ds[i].direction == orders[i].direction.Name() && ds[i].nullHandling == orders[i].nullHandling.Name()
  {
    if orders == [] then [] else [SortDescriptorFrom(orders[0])] + SortDescriptorsFrom(orders[1..])
  }

  /** `Sort.Direction.valueOf`, the inverse of `name()`. */
  function DirectionNamed(name: string): (d: Option<Direction>)
    ensures d.Some? ==> d.value.Name() == name
  {
    if name == "ASC" then Some(Asc) else if name == "DESC" then Some(Desc) else None
  }

  /** `Sort.NullHandling.valueOf`, the inverse of `name()`. */
  function NullHandlingNamed(name: string): (h: Option<NullHandling>)
    ensures h.Some? ==> h.value.Name() == name
  {
    if name == "NATIVE" then Some(Native)
    else if name == "NULLS_FIRST" then Some(NullsFirst)
    else if name == "NULLS_LAST" then Some(NullsLast)
    else None
  }

  /** The order a descriptor stands for, when its names are enum constants. */
  function OrderOf(d: SortDescriptor): Option<Order>
  {
    match (DirectionNamed(d.direction), NullHandlingNamed(d.nullHandling))
    case (Some(direction), Some(handling)) => Some(Order(d.property, direction, d.ignoreCase, handling))
    case _ => None
  }

  /** A descriptor loses nothing: the order can be read back from it. */
  lemma SortDescriptorRoundTrip(order: Order)
    ensures OrderOf(SortDescriptorFrom(order)) == Some(order)
  {
  }

  /** Reading the descriptors back gives the page's sort, in order. */
  lemma {:induction false} SortDescriptorsRoundTrip(orders: seq<Order>)
    ensures forall i :: 0 <= i < |orders| ==> OrderOf(SortDescriptorsFrom(orders)[i]) == Some(orders[i])
  {
    forall i | 0 <= i < |orders|
      ensures OrderOf(SortDescriptorsFrom(orders)[i]) == Some(orders[i])
    {
      SortDescriptorRoundTrip(orders[i]);
    }
  }

  /** `PageMetadata.from`: the page's numbers and flags verbatim. */
  function MetadataFrom<T>(page: Page<T>): (m: PageMetadata)
    ensures m.number == page.number && m.size == page.size && m.totalElements == page.totalElements
    ensures m.totalPages == page.totalPages && m.first == page.first && m.last == page.last
    ensures m.numberOfElements == page.numberOfElements
    ensures m.sort == SortDescriptorsFrom(page.sort)
  {
    PageMetadata(page.number, page.size, page.totalElements, page.totalPages, page.first, page.last,
      page.numberOfElements, SortDescriptorsFrom(page.sort))
  }

  /** `PageResponse.from`: the content element for element, in order, and
      the metadata. */
  function From<T>(page: Page<T>): (r: PageResponse<T>)
    ensures r.content == page.content
    ensures r.page == MetadataFrom(page)
  {
    PageResponse(page.content, MetadataFrom(page))
  }

  /** The envelope of the page a request selects. */
  function Envelope<T>(all: seq<T>, pageable: Pageable): PageResponse<T>
    requires pageable.pageNumber >= 0 && pageable.pageSize >= 1
  {
    From(PageOf(all, pageable))
  }

  /** Three students, `page=0&size=2`, two sort orders: two items, two
      pages, first but not last, and both orders described. */
  lemma ThreeStudentsTwoPerPage<T>(all: seq<T>, sort: seq<Order>)
    requires |all| == 3 && |sort| == 2 && sort[0] == SortBy(Asc, "lastName")
    ensures var r := Envelope(all, PageRequest(0, 2, sort));
      && r.content == all[..2]
      && r.page.number == 0 && r.page.size == 2 && r.page.totalElements == 3
      && r.page.totalPages == 2 && r.page.first && !r.page.last && r.page.numberOfElements == 2
      && |r.page.sort| == 2 && r.page.sort[0].property == "lastName" && r.page.sort[0].direction == "ASC"
  {
  }

  /** No students, the default request: no content, no pages, and the one
      empty page is both first and last. */
  lemma NoStudents<T>(all: seq<T>, sort: seq<Order>)
    requires all == []
    ensures var r := Envelope(all, PageRequest(0, 20, sort));
      && r.content == [] && r.page.totalElements == 0 && r.page.totalPages == 0
      && r.page.numberOfElements == 0 && r.page.first && r.page.last
  {
  }

  /** Up to twenty students under the default request fit one page. */
  lemma DefaultPageHoldsAll<T>(all: seq<T>, sort: seq<Order>)
    requires 1 <= |all| <= 20
    ensures var r := Envelope(all, PageRequest(0, 20, sort));
      && r.content == all && r.page.size == 20 && r.page.number == 0
      && r.page.totalPages == 1 && r.page.first && r.page.last
  {
  }

  /** Twelve students, `page=1&size=5`: three pages, neither first nor last,
      and the page starts at the sixth student. */
  lemma TwelveStudentsSecondPage<T>(all: seq<T>, sort: seq<Order>)
    requires |all| == 12
    ensures var r := Envelope(all, PageRequest(1, 5, sort));
      && r.page.number == 1 && r.page.size == 5 && r.page.totalElements == 12
      && r.page.totalPages == 3 && !r.page.first && !r.page.last
      && r.content == all[5..10]
  {
  }
}
