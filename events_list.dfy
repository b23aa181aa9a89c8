/** HandleEventsList: choosing the query, the case-insensitive source
    filter and the page shown. */
module EventsList {
  import opened Text
  import opened Results
  import opened Events
  import opened Paging
  import opened Strconv

  /** The database query the handler runs. */
  datatype Query = ByTag(tag: string) | ByDate(date: string)

  /** A non-empty tag wins over a non-empty date; with neither, the query
      by the empty tag is run, which the handler means as "all events". */
  function ChooseQuery(tag: string, date: string): (q: Query)
    ensures q.ByDate? <==> tag == "" && date != ""
    ensures q.ByTag? ==> q.tag == tag
    ensures q.ByDate? ==> q.date == date
  {
    if tag != "" then ByTag(tag)
    else if date != "" then ByDate(date)
    else ByTag("")
  }

  /** The event's lower-cased source contains the lower-cased filter. */
  predicate SourceMatches(e: Event, source: string) {
    Contains(ToLower(e.source), ToLower(source))
  }

  /** The events kept by the source filter, in their original order. */
  function FilterSource(events: seq<Event>, source: string): seq<Event> {
    if events == [] then []
    else
      var init := FilterSource(events[..|events| - 1], source);
      if SourceMatches(events[|events| - 1], source) then init + [events[|events| - 1]] else init
  }

  /** Exactly the matching events are kept. */
  lemma {:induction false} FilterSourceMembers(events: seq<Event>, source: string)
    ensures forall e :: e in FilterSource(events, source) <==> e in events && SourceMatches(e, source)
  {
    if events != [] {
      var init := events[..|events| - 1];
      FilterSourceMembers(init, source);
      assert events == init + [events[|events| - 1]];
    }
  }

  /** Filtering a concatenation filters each half: the kept events keep
      their relative order. */
  lemma {:induction false} FilterSourceAppend(xs: seq<Event>, ys: seq<Event>, source: string)
    ensures FilterSource(xs + ys, source) == FilterSource(xs, source) + FilterSource(ys, source)
    decreases |ys|
  {
    if ys == [] {
      assert xs + ys == xs;
    } else {
      var init := ys[..|ys| - 1];
      FilterSourceAppend(xs, init, source);
      assert (xs + ys)[..|xs + ys| - 1] == xs + init;
    }
  }

  /** Every event's source contains the empty string, so an empty filter
      keeps the whole list. */
  lemma {:induction false} FilterSourceEmpty(events: seq<Event>)
    ensures FilterSource(events, "") == events
  {
    if events != [] {
      FilterSourceEmpty(events[..|events| - 1]);
      assert OccursAt(ToLower(events[|events| - 1].source), "", 0);
    }
  }

  /** Filtering twice by the same source changes nothing more. */
  lemma {:induction false} FilterSourceIdempotent(events: seq<Event>, source: string)
    ensures FilterSource(FilterSource(events, source), source) == FilterSource(events, source)
  {
    if events != [] {
      var init := events[..|events| - 1];
      var last := events[|events| - 1];
      FilterSourceIdempotent(init, source);
      if SourceMatches(last, source) {
        FilterSourceAppend(FilterSource(init, source), [last], source);
        assert FilterSource([last], source) == [last] by {
          assert [last][..0] == [];
        }
      }
    }
  }

  /** The filter loop: append every event whose source matches. */
  method FilterBySource(events: seq<Event>, source: string) returns (filtered: seq<Event>)
    ensures filtered == FilterSource(events, source)
  {
    filtered := [];
    var lowered := ToLower(source);
    for i := 0 to |events|
      invariant filtered == FilterSource(events[..i], source)
    {
      assert events[..i + 1][..i] == events[..i];
      if Contains(ToLower(events[i].source), lowered) {
        filtered := filtered + [events[i]];
      }
    }
    assert events[..|events|] == events;
  }

  /** The data the events page is rendered with. */
  datatype ListPage = ListPage(events: seq<Event>, currentPage: int, totalPages: int,
                               totalItems: int, itemsPerPage: int)

  /** How a request for the events page ends: the page is rendered, the
      query failed with a status, or slicing the list panicked. */
  datatype ListOutcome = Listed(page: ListPage) | Failed(status: int) | Panicked

  /** HandleEventsList with the page arithmetic as written, in int64;
      `fetch` stands for the database query, None being a query error. */
  method HandleEventsList(tag: string, date: string, source: string, pageParam: string,
                          fetch: Query -> Option<seq<Event>>)
    returns (r: ListOutcome)
    ensures fetch(ChooseQuery(tag, date)).None? <==> r == Failed(StatusInternalServerError)
    ensures r.Panicked? <==> (fetch(ChooseQuery(tag, date)).Some? &&
      PaginateAsWritten(FilterSource(fetch(ChooseQuery(tag, date)).value, source), ParsePage(pageParam)).None?)
    ensures r.Listed? <==> (fetch(ChooseQuery(tag, date)).Some? &&
      PaginateAsWritten(FilterSource(fetch(ChooseQuery(tag, date)).value, source), ParsePage(pageParam)).Some?)
    ensures r.Listed? ==>
      var listed := FilterSource(fetch(ChooseQuery(tag, date)).value, source);
      && Some(r.page.events) == PaginateAsWritten(listed, ParsePage(pageParam))
      && (ParsePage(pageParam) * PerPage <= MaxInt64 ==> r.page.events == Paginate(listed, ParsePage(pageParam)))
      && r.page.currentPage == ParsePage(pageParam)
      && r.page.totalItems == |listed|
      && r.page.totalPages == TotalPages(|listed|)
      && r.page.itemsPerPage == PerPage
  {
    var page := ParsePage(pageParam);
    var fetched := fetch(ChooseQuery(tag, date));
    if fetched.None? {
      return Failed(StatusInternalServerError);
    }
    var events := fetched.value;
    if source != "" {
      events := FilterBySource(events, source);
    } else {
      FilterSourceEmpty(events);
    }
    var total := |events|;
    var shown := PaginateAsWritten(events, page);
    if shown.None? {
      return Panicked;
    }
    if page * PerPage <= MaxInt64 {
      PaginateAsWrittenAgrees(events, page);
    }
    r := Listed(ListPage(shown.value, page, TotalPages(total), total, PerPage));
  }
}
