/** Offset pages: one row more than asked for tells whether another page follows. */
module Pagination {
  import opened Wrappers

  const DEFAULT_PER_PAGE: int := 20
  const MAX_PER_PAGE: int := 100

  /** `raw` is what Integer(raw, exception: false) gives. */
  function NormalizePage(raw: Option<int>): (page: int)
    ensures page >= 1
    ensures raw.Some? && raw.value >= 1 ==> page == raw.value
  {
    if raw.None? || raw.value < 1 then 1 else raw.value
  }

  function NormalizePerPage(raw: Option<int>): (per: int)
    ensures 1 <= per <= MAX_PER_PAGE
    ensures raw.Some? && 1 <= raw.value <= MAX_PER_PAGE ==> per == raw.value
  {
    if raw.None? || raw.value < 1 then DEFAULT_PER_PAGE
    else if raw.value > MAX_PER_PAGE then MAX_PER_PAGE else raw.value
  }

  /** A link carries the page and page size its query string names. */
  datatype Link = Link(page: int, perPage: int)

  datatype Meta = Meta(page: int, perPage: int, hasMore: bool, next: Option<Link>, prev: Option<Link>)

  /** offset(...).limit(...), or slice on an array, which is nil past the end. */
  function Slice<T>(scope: seq<T>, offset: int, limit: int): seq<T>
    requires offset >= 0 && limit >= 0
  {
    if offset > |scope| then []
    else if offset + limit > |scope| then scope[offset..]
    else scope[offset..offset + limit]
  }

  function Paginate<T>(
    scope: seq<T>, rawPage: Option<int>, rawPerPage: Option<int>, randomOrder: bool
  ): (seq<T>, Meta) {
    var page := NormalizePage(rawPage);
    var per := NormalizePerPage(rawPerPage);
    MulNonNegative(page - 1, per);
    var rows := Slice(scope, (page - 1) * per, per + 1);
    var overflow := |rows| > per;
    var records := if overflow then rows[..per] else rows;
    var hasMore := randomOrder || overflow;
    (records, Meta(page, per, hasMore,
                   if hasMore then Some(Link(page + 1, per)) else None,
                   if page > 1 then Some(Link(page - 1, per)) else None))
  }

  lemma MulNonNegative(a: int, b: int)
    requires a >= 0 && b >= 0
    ensures a * b >= 0
  {
  }

  function Follow<T>(scope: seq<T>, link: Link): (seq<T>, Meta) {
    Paginate(scope, Some(link.page), Some(link.perPage), false)
  }

  /** What one page holds, and when another follows. */
  lemma PageContents<T>(scope: seq<T>, rawPage: Option<int>, rawPerPage: Option<int>)
    ensures var (records, meta) := Paginate(scope, rawPage, rawPerPage, false);
            var offset := (meta.page - 1) * meta.perPage;
            && offset >= 0
            && (meta.hasMore <==> offset + meta.perPage < |scope|)
            && records == (if offset > |scope| then []
                else if meta.hasMore then scope[offset..offset + meta.perPage] else scope[offset..])
            && (meta.next.Some? <==> meta.hasMore)
            && (meta.next.Some? ==> meta.next.value == Link(meta.page + 1, meta.perPage))
            && (meta.prev.Some? <==> meta.page > 1)
  {
    var per := NormalizePerPage(rawPerPage);
    var offset := (NormalizePage(rawPage) - 1) * per;
    MulNonNegative(NormalizePage(rawPage) - 1, per);
    if offset + per < |scope| {
      assert scope[offset..offset + per + 1][..per] == scope[offset..offset + per];
    }
  }

  /** A request without a usable page is for the first one, without a usable size for pages of twenty, and
      a size over a hundred for a hundred; in random order another page always follows. */
  lemma PageAskedFor<T>(scope: seq<T>, rawPage: Option<int>, rawPerPage: Option<int>, randomOrder: bool)
    ensures var meta := Paginate(scope, rawPage, rawPerPage, randomOrder).1;
            && (rawPage == None ==> meta.page == 1)
            && (rawPage.Some? ==> meta.page == if rawPage.value >= 1 then rawPage.value else 1)
            && (rawPerPage == None ==> meta.perPage == 20)
            && (rawPerPage.Some? && rawPerPage.value < 1 ==> meta.perPage == 20)
            && (rawPerPage.Some? && 1 <= rawPerPage.value <= 100 ==> meta.perPage == rawPerPage.value)
            && (rawPerPage.Some? && rawPerPage.value > 100 ==> meta.perPage == 100)
            && (randomOrder ==> meta.hasMore && meta.next == Some(Link(meta.page + 1, meta.perPage)))
    ensures Paginate(scope, rawPage, rawPerPage, randomOrder).0 == Paginate(scope, rawPage, rawPerPage, false).0
  {
    hide Slice;
  }

  predicate ValidLink(link: Link) {
    link.page >= 1 && 1 <= link.perPage <= MAX_PER_PAGE
  }

  function Offset(link: Link): (offset: int)
    requires ValidLink(link)
    ensures offset >= 0
  {
    MulNonNegative(link.page - 1, link.perPage);
    (link.page - 1) * link.perPage
  }

  /** Following a link: its records, and the link after it. */
  lemma FollowLink<T>(scope: seq<T>, link: Link)
    requires ValidLink(link)
    ensures var (records, meta) := Follow(scope, link); var offset := Offset(link);
            && (meta.next == if offset + link.perPage < |scope| then Some(Link(link.page + 1, link.perPage)) else None)
            && (meta.prev == if link.page > 1 then Some(Link(link.page - 1, link.perPage)) else None)
            && records == (if offset > |scope| then []
                else if meta.next.Some? then scope[offset..offset + link.perPage] else scope[offset..])
    ensures Offset(Link(link.page + 1, link.perPage)) == Offset(link) + link.perPage
  {
    PageContents(scope, Some(link.page), Some(link.perPage));
  }

  /** The pages from a link on, following next until there is none. */
  function Pages<T>(scope: seq<T>, link: Link): seq<seq<T>>
    requires ValidLink(link)
    decreases |scope| - Offset(link)
  {
    var (records, meta) := Follow(scope, link);
    FollowLink(scope, link);
    if meta.next.Some? then [records] + Pages(scope, meta.next.value) else [records]
  }

  function Concat<T>(pages: seq<seq<T>>): seq<T> {
    if pages == [] then [] else pages[0] + Concat(pages[1..])
  }

  /** Following next from any page within the list gives the rest of the list, page by page:
      every page but the last is full, and the last is not empty unless nothing was left. */
  lemma {:induction false} PagesAreRest<T>(scope: seq<T>, link: Link)
    requires ValidLink(link) && Offset(link) <= |scope|
    ensures var pages := Pages(scope, link);
            && pages != []
            && Concat(pages) == scope[Offset(link)..]
            && (forall i | 0 <= i < |pages| - 1 :: |pages[i]| == link.perPage)
            && (Offset(link) < |scope| ==> pages[|pages| - 1] != [])
    decreases |scope| - Offset(link)
  {
    hide Follow, Offset;
    var (records, meta) := Follow(scope, link);
    var offset := Offset(link);
    FollowLink(scope, link);
    var pages := Pages(scope, link);
    if meta.next.Some? {
      var rest := Pages(scope, meta.next.value);
      PagesAreRest(scope, meta.next.value);
      assert pages == [records] + rest;
      assert pages[1..] == rest && pages[|pages| - 1] == rest[|rest| - 1];
      assert scope[offset..] == scope[offset..offset + link.perPage] + scope[offset + link.perPage..];
    } else {
      assert pages == [records];
      assert Concat(pages) == records + Concat(pages[1..]);
    }
  }

  /** Walking the pages from the first request on concatenates to the whole list, whatever page
      size was asked for, and only an empty list has an empty last page. */
  lemma PagesAreWhole<T>(scope: seq<T>, rawPerPage: Option<int>)
    ensures var pages := Pages(scope, Link(1, NormalizePerPage(rawPerPage)));
            && Concat(pages) == scope
            && (pages[|pages| - 1] == [] <==> scope == [])
  {
    var per := NormalizePerPage(rawPerPage);
    var pages := Pages(scope, Link(1, per));
    PagesAreRest(scope, Link(1, per));
    FollowLink(scope, Link(1, per));
  }

  /** The previous link undoes the next link. */
  lemma PrevUndoesNext<T>(scope: seq<T>, link: Link)
    requires ValidLink(link)
    requires Follow(scope, link).1.next.Some?
    ensures Follow(scope, Follow(scope, link).1.next.value).1.prev == Some(link)
  {
  }
}
