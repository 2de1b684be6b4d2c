/** Pages of a result and the links between them, on one snapshot of the rows. */
module Pagination {
  import opened Wrappers

  const DEFAULT_PAGE_SIZE: nat := 10
  const MAX_PAGE_SIZE: nat := 100

  datatype Pagination = Pagination(limit: nat, offset: nat)

  /** The query parameters of a link. */
  datatype Link = Link(limit: nat, offset: nat)

  /** The constructor: a missing or zero limit is the default, a large one is capped. */
  function Create(limit: Option<nat>, offset: Option<nat>): (p: Pagination)
    ensures 1 <= p.limit <= MAX_PAGE_SIZE
  {
    Pagination(
      if limit.Some? && limit.value != 0 then
        if limit.value < MAX_PAGE_SIZE then limit.value else MAX_PAGE_SIZE
      else DEFAULT_PAGE_SIZE,
      if offset.Some? then offset.value else 0)
  }

  function GetNextPage(p: Pagination, count: nat): Option<Link> {
    if p.offset + p.limit < count then Some(Link(p.limit, p.offset + p.limit)) else None
  }

  function GetPreviousPage(p: Pagination): Option<Link> {
    if p.offset > 0 then Some(Link(p.limit, if p.offset >= p.limit then p.offset - p.limit else 0)) else None
  }

  /** The request that following a link makes. */
  function Visit(link: Link): Pagination {
    Create(Some(link.limit), Some(link.offset))
  }

  /** `OFFSET ... LIMIT ...`. */
  function GetPage<T>(p: Pagination, rows: seq<T>): seq<T> {
    if p.offset >= |rows| then []
    else if p.offset + p.limit >= |rows| then rows[p.offset..]
    else rows[p.offset..p.offset + p.limit]
  }

  /** The page and all pages reached from it by following next links. */
  function Follow<T>(p: Pagination, rows: seq<T>): seq<seq<T>>
    requires 1 <= p.limit <= MAX_PAGE_SIZE
    decreases |rows| - p.offset
  {
    match GetNextPage(p, |rows|)
    case None => [GetPage(p, rows)]
    case Some(link) => [GetPage(p, rows)] + Follow(Visit(link), rows)
  }

  function Flatten<T>(pages: seq<seq<T>>): seq<T> {
    if pages == [] then [] else pages[0] + Flatten(pages[1..])
  }

  /** `pages` is `count / limit` rounded up; an empty result still has one page. */
  predicate IsPageCount(pages: nat, count: nat, limit: nat) {
    && pages >= 1 && count <= pages * limit
    && (pages > 1 ==> (pages - 1) * limit < count)
  }

  lemma OnePageMore(pages: nat, count: nat, limit: nat)
    requires IsPageCount(pages, count, limit) && count > 0
    ensures IsPageCount(pages + 1, count + limit, limit)
  {
  }

  lemma {:induction false} FollowFrom<T>(p: Pagination, rows: seq<T>)
    requires 1 <= p.limit <= MAX_PAGE_SIZE && p.offset <= |rows|
    ensures Flatten(Follow(p, rows)) == rows[p.offset..]
    ensures IsPageCount(|Follow(p, rows)|, |rows| - p.offset, p.limit)
    decreases |rows| - p.offset
  {
    var page := GetPage(p, rows);
    if p.offset + p.limit < |rows| {
      var next := Visit(Link(p.limit, p.offset + p.limit));
      FollowFrom(next, rows);
      OnePageMore(|Follow(next, rows)|, |rows| - next.offset, p.limit);
      assert Follow(p, rows)[1..] == Follow(next, rows);
      assert page + rows[p.offset + p.limit..] == rows[p.offset..];
    } else {
      assert Flatten([page]) == page + Flatten([]);
    }
  }

  /** From the first page, next links lead through every row exactly once and in order, in as many
      pages as the rows need. */
  lemma PagingIsComplete<T>(limit: Option<nat>, rows: seq<T>)
    ensures var p := Create(limit, Some(0));
            Flatten(Follow(p, rows)) == rows && IsPageCount(|Follow(p, rows)|, |rows|, p.limit)
  {
    FollowFrom(Create(limit, Some(0)), rows);
    assert rows[0..] == rows;
  }

  /** A request within the limits is taken as it is; none and zero mean the defaults 10 and 0; more than
      100 means 100. */
  lemma CreateContent(limit: nat, offset: nat)
    ensures 1 <= limit <= 100 ==> Create(Some(limit), Some(offset)) == Pagination(limit, offset)
    ensures limit > 100 ==> Create(Some(limit), Some(offset)) == Pagination(100, offset)
    ensures Create(None, Some(offset)) == Create(Some(0), Some(offset)) == Pagination(10, offset)
    ensures Create(None, None) == Create(Some(0), None) == Pagination(10, 0)
    ensures Create(Some(limit), None) == Create(Some(limit), Some(0))
  {
  }

  /** A row is on the page exactly if its index is within the limit from the offset, and the rows keep
      their order. */
  lemma PageContent<T>(p: Pagination, rows: seq<T>)
    ensures var page := GetPage(p, rows);
            && |page| == (if p.offset >= |rows| then 0
                          else if |rows| - p.offset < p.limit then |rows| - p.offset else p.limit)
            && forall i | 0 <= i < |page| :: page[i] == rows[p.offset + i]
  {
  }

  /** There is a next link exactly if rows lie past the page, and it leads to the first of them; a
      previous one exactly if rows may lie before it, and it leads a page back or to the start. */
  lemma LinksIff(p: Pagination, count: nat)
    ensures GetNextPage(p, count) == None <==> count <= p.offset + p.limit
    ensures GetNextPage(p, count).Some? ==> GetNextPage(p, count).value == Link(p.limit, p.offset + p.limit)
    ensures GetPreviousPage(p) == None <==> p.offset == 0
    ensures GetPreviousPage(p).Some? ==>
              var link := GetPreviousPage(p).value;
              link.limit == p.limit && (link.offset + p.limit == p.offset || (link.offset == 0 && p.offset < p.limit))
  {
  }

  /** The previous link of a next page leads back, from any page. */
  lemma PreviousUndoesNext(limit: Option<nat>, offset: Option<nat>, count: nat)
    ensures var p := Create(limit, offset);
            GetNextPage(p, count).Some? ==>
              GetPreviousPage(Visit(GetNextPage(p, count).value)) == Some(Link(p.limit, p.offset))
  {
  }

  /** The next link of a previous page leads back exactly if the page was a full step from the start
      and not past the end. */
  lemma NextUndoesPreviousIff(limit: Option<nat>, offset: Option<nat>, count: nat)
    requires Create(limit, offset).offset > 0
    ensures var p := Create(limit, offset);
            GetNextPage(Visit(GetPreviousPage(p).value), count) == Some(Link(p.limit, p.offset))
            <==> p.limit <= p.offset < count
  {
  }
}
