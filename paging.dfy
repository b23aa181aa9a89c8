/** Pagination of the events list page: the `page` query parameter, the
    page count and the slice of events shown. */
module Paging {
  import opened Strconv
  import opened Events
  import opened Results

  const PerPage: int := 20

  /** `page, _ := strconv.Atoi(q); if page < 1 { page = 1 }`. */
  function ParsePage(q: string): (page: int)
    ensures 1 <= page <= MaxInt64
    ensures page == 1 <== Atoi(q).1 == Some(ErrSyntax)
    ensures page == Atoi(q).0 <== Atoi(q).0 >= 1
    ensures page == 1 <== Atoi(q).0 < 1
  {
    var (n, _) := Atoi(q);
    if n < 1 then 1 else n
  }

  /** A page number written out in decimal is read back as itself. */
  lemma ParsePageOfNumeral(page: int)
    requires 1 <= page <= MaxInt64
    ensures ParsePage(FormatInt(page)) == page
  {
    ParseFormatInt(page);
  }

  /** `(totalItems + perPage - 1) / perPage`. */
  function TotalPages(total: nat): (pages: nat)
    ensures pages * PerPage >= total
    ensures pages == 0 || (pages - 1) * PerPage < total
  {
    (total + PerPage - 1) / PerPage
  }

  /** The events shown on a page, with the start index computed without
      overflow: the 20 events from index (page-1)*20 on, or none when that
      index is past the end. */
  function Paginate(events: seq<Event>, page: int): (shown: seq<Event>)
    requires page >= 1
    ensures |shown| <= PerPage
    ensures shown != [] <==> page <= TotalPages(|events|)
    ensures shown != [] ==> ((page - 1) * PerPage + |shown| <= |events|
      && shown == events[(page - 1) * PerPage..(page - 1) * PerPage + |shown|])
  {
    var start := (page - 1) * PerPage;
    var end := if start + PerPage > |events| then |events| else start + PerPage;
    if start < |events| then events[start..end] else []
  }

  /** The first `k` pages, one after another. */
  function FirstPages(events: seq<Event>, k: nat): seq<Event> {
    if k == 0 then [] else FirstPages(events, k - 1) + Paginate(events, k)
  }

  /** The first k pages are the first min(20k, n) events. */
  lemma {:induction false} FirstPagesIsPrefix(events: seq<Event>, k: nat)
    ensures FirstPages(events, k) ==
      events[..if k * PerPage < |events| then k * PerPage else |events|]
  {
    if k > 0 {
      FirstPagesIsPrefix(events, k - 1);
    }
  }

  /** Paging through pages 1..TotalPages shows every event exactly once,
      in order. */
  lemma PagesCoverEvents(events: seq<Event>)
    ensures FirstPages(events, TotalPages(|events|)) == events
  {
    FirstPagesIsPrefix(events, TotalPages(|events|));
  }

  /** The arithmetic as written, in int64: `start := (page-1)*perPage` and
      `end := start + perPage` wrap around, `end` is capped at the total,
      and `events[start:end]` is taken when `start < totalItems`. A slice
      with bounds outside 0 <= start <= end <= len panics; that is None. */
  function PaginateAsWritten(events: seq<Event>, page: int): (shown: Option<seq<Event>>)
    requires 1 <= page <= MaxInt64
    ensures shown.Some? ==> |shown.value| <= PerPage
  {
    var total := |events|;
    var start := Wrap64(Wrap64(page - 1) * PerPage);
    var end0 := Wrap64(start + PerPage);
    var end := if end0 > total then total else end0;
    if start < total then
      if 0 <= start <= end then Some(events[start..end]) else None
    else Some([])
  }

  /** Whenever page*20 fits in an int64 the code as written shows exactly
      the corrected page. */
  lemma PaginateAsWrittenAgrees(events: seq<Event>, page: int)
    requires 1 <= page && page * PerPage <= MaxInt64
    ensures PaginateAsWritten(events, page) == Some(Paginate(events, page))
  {
  }

  /** `?page=9223372036854775807`: the start index wraps to -40, which is
      below every total, and slicing from -40 panics, whatever the list. */
  lemma PaginateAsWrittenPanics(events: seq<Event>)
    ensures ParsePage(FormatInt(MaxInt64)) == MaxInt64
    ensures PaginateAsWritten(events, ParsePage(FormatInt(MaxInt64))).None?
  {
    ParsePageOfNumeral(MaxInt64);
    LastPageStartWraps();
  }

  /** The int64 arithmetic for page 2^63-1: start is -40 and end is -20. */
  lemma LastPageStartWraps()
    ensures Wrap64(Wrap64(MaxInt64 - 1) * PerPage) == -40
    ensures Wrap64(-40 + PerPage) == -20
  {
    assert (MaxInt64 - 1) * PerPage - MinInt64 == 0x8000_0000_0000_0000 - 40 + 10 * 0x1_0000_0000_0000_0000;
  }

  /** `?page=4611686018427387905` (2^62 + 1): (page-1)*20 = 5 * 2^64 wraps
      to 0, so the code as written silently shows the first page where
      the list has no such page. */
  lemma PaginateAsWrittenWrapsToFirstPage(events: seq<Event>)
    ensures ParsePage(FormatInt(0x4000_0000_0000_0001)) == 0x4000_0000_0000_0001
    ensures PaginateAsWritten(events, 0x4000_0000_0000_0001) ==
      Some(events[..if |events| < PerPage then |events| else PerPage])
    ensures |events| <= MaxInt64 ==> Paginate(events, 0x4000_0000_0000_0001) == []
  {
    ParsePageOfNumeral(0x4000_0000_0000_0001);
    FirstPageStartWraps();
    StartWrappedToZero(events, 0x4000_0000_0000_0001);
    if |events| <= MaxInt64 {
      PastLastPage(events, 0x4000_0000_0000_0001);
    }
  }

  /** A page whose int64 start index wraps to 0 shows the first page. */
  lemma StartWrappedToZero(events: seq<Event>, page: int)
    requires 1 <= page <= MaxInt64
    requires Wrap64(Wrap64(page - 1) * PerPage) == 0
    ensures PaginateAsWritten(events, page) ==
      Some(events[..if |events| < PerPage then |events| else PerPage])
  {
    assert Wrap64(0 + PerPage) == PerPage;
  }

  /** No list that fits in an int64 has 2^62 + 1 pages. */
  lemma PastLastPage(events: seq<Event>, page: int)
    requires |events| <= MaxInt64 && page == 0x4000_0000_0000_0001
    ensures Paginate(events, page) == []
  {
    assert TotalPages(|events|) <= (MaxInt64 + PerPage - 1) / PerPage < page;
  }

  /** The int64 arithmetic for page 2^62+1: start is 0 and end is 20. */
  lemma FirstPageStartWraps()
    ensures Wrap64(Wrap64(0x4000_0000_0000_0000) * PerPage) == 0
    ensures Wrap64(0 + PerPage) == PerPage
  {
    assert 0x4000_0000_0000_0000 * PerPage - MinInt64 == 0x8000_0000_0000_0000 + 5 * 0x1_0000_0000_0000_0000;
  }
}
