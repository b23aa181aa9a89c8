/** The related-events search of HandleEventView: for each tag of the
    viewed event, in order, fetch the events with that tag and append those
    not yet listed, skipping the viewed event itself, until five are
    listed. */
module RelatedEvents {
  import opened Results
  import opened Events
  import opened Strconv

  const MaxRelated: int := 5

  predicate HasId(events: seq<Event>, id: int) {
    exists k :: 0 <= k < |events| && events[k].id == id
  }

  /** The inner loop over one fetched list, starting from `acc`: skip the
      viewed event, append unseen IDs, stop once five are listed. */
  function AddRelated(acc: seq<Event>, es: seq<Event>, self: int): seq<Event>
    decreases |es|
  {
    if es == [] then acc
    else if es[0].id == self then AddRelated(acc, es[1..], self)
    else
      var next := if HasId(acc, es[0].id) then acc else acc + [es[0]];
      if |next| >= MaxRelated then next else AddRelated(next, es[1..], self)
  }

  /** The outer loop over the tags; a failed fetch skips the tag. */
  function GatherRelated(acc: seq<Event>, tags: seq<string>, fetch: string -> Option<seq<Event>>,
                         self: int): seq<Event>
    decreases |tags|
  {
    if tags == [] then acc
    else match fetch(tags[0])
      case None => GatherRelated(acc, tags[1..], fetch, self)
      case Some(es) =>
        var next := AddRelated(acc, es, self);
        if |next| >= MaxRelated then next else GatherRelated(next, tags[1..], fetch, self)
  }

  /** The related events listed for `event`. */
  function Related(event: Event, fetch: string -> Option<seq<Event>>): seq<Event> {
    GatherRelated([], event.tags, fetch, event.id)
  }

  /** All events the successful fetches return, tag after tag. */
  function Stream(tags: seq<string>, fetch: string -> Option<seq<Event>>): seq<Event> {
    if tags == [] then []
    else match fetch(tags[0])
      case None => Stream(tags[1..], fetch)
      case Some(es) => es + Stream(tags[1..], fetch)
  }

  // ---------------------------------------------------------------------
  // The two nested loops behave as one pass over the stream

  /** Running the inner loop over xs + ys is running it over xs, then, if
      fewer than five are listed, over ys. */
  lemma {:induction false} AddRelatedAppend(acc: seq<Event>, xs: seq<Event>, ys: seq<Event>, self: int)
    requires |acc| < MaxRelated
    ensures var mid := AddRelated(acc, xs, self);
      AddRelated(acc, xs + ys, self) == if |mid| >= MaxRelated then mid else AddRelated(mid, ys, self)
    decreases |xs|
  {
    if xs == [] {
      assert xs + ys == ys;
    } else {
      assert (xs + ys)[0] == xs[0] && (xs + ys)[1..] == xs[1..] + ys;
      var e := xs[0];
      if e.id == self {
        AddRelatedAppend(acc, xs[1..], ys, self);
      } else {
        var next := if HasId(acc, e.id) then acc else acc + [e];
        if |next| < MaxRelated {
          AddRelatedAppend(next, xs[1..], ys, self);
        }
      }
    }
  }

  /** Fewer than five listed stays fewer than five unless the loop stopped. */
  lemma {:induction false} AddRelatedBounded(acc: seq<Event>, es: seq<Event>, self: int)
    requires |acc| < MaxRelated
    ensures |AddRelated(acc, es, self)| <= MaxRelated
    decreases |es|
  {
    if es != [] {
      var next := if HasId(acc, es[0].id) then acc else acc + [es[0]];
      if es[0].id == self {
        AddRelatedBounded(acc, es[1..], self);
      } else if |next| < MaxRelated {
        AddRelatedBounded(next, es[1..], self);
      }
    }
  }

  /** The tag loop is the inner loop run over the whole stream. */
  lemma {:induction false} GatherIsOnePass(acc: seq<Event>, tags: seq<string>,
                                           fetch: string -> Option<seq<Event>>, self: int)
    requires |acc| < MaxRelated
    ensures GatherRelated(acc, tags, fetch, self) == AddRelated(acc, Stream(tags, fetch), self)
    decreases |tags|
  {
    if tags != [] {
      match fetch(tags[0])
      case None =>
        GatherIsOnePass(acc, tags[1..], fetch, self);
      case Some(es) =>
        var next := AddRelated(acc, es, self);
        AddRelatedAppend(acc, es, Stream(tags[1..], fetch), self);
        if |next| < MaxRelated {
          GatherIsOnePass(next, tags[1..], fetch, self);
        }
    }
  }

  // ---------------------------------------------------------------------
  // Properties of one pass

  /** The properties one pass keeps: no viewed event, no repeated ID. */
  predicate WellListed(acc: seq<Event>, self: int) {
    (forall k :: 0 <= k < |acc| ==> acc[k].id != self)
    && (forall i, j :: 0 <= i < j < |acc| ==> acc[i].id != acc[j].id)
  }

  /** One pass only appends to what was listed, only appends events of the
      stream, keeps the list well formed, and, if it ends with fewer than
      five, has listed every ID of the stream but the viewed one. */
  lemma {:induction false} AddRelatedProperties(acc: seq<Event>, es: seq<Event>, self: int)
    requires WellListed(acc, self)
    ensures var r := AddRelated(acc, es, self);
      && |acc| <= |r| && r[..|acc|] == acc
      && WellListed(r, self)
      && (forall e :: e in r ==> e in acc || e in es)
      && (|r| < MaxRelated ==> forall e :: e in es && e.id != self ==> HasId(r, e.id))
    decreases |es|
  {
    if es != [] {
      var e := es[0];
      if e.id == self {
        AddRelatedProperties(acc, es[1..], self);
        assert forall x :: x in es ==> x == e || x in es[1..];
      } else {
        var next := if HasId(acc, e.id) then acc else acc + [e];
        assert HasId(next, e.id) by {
          if !HasId(acc, e.id) {
            assert next[|acc|].id == e.id;
          }
        }
        assert next[..|acc|] == acc;
        if |next| < MaxRelated {
          AddRelatedProperties(next, es[1..], self);
          var r := AddRelated(next, es[1..], self);
          assert forall x :: x in es ==> x == e || x in es[1..];
          assert r[..|acc|] == r[..|next|][..|acc|];
          assert HasId(next, e.id) ==> HasId(r, e.id) by {
            if HasId(next, e.id) {
              var k :| 0 <= k < |next| && next[k].id == e.id;
              assert r[k] == next[k];
            }
          }
        }
      }
    }
  }

  // ---------------------------------------------------------------------
  // A reference definition: the first occurrence of each ID

  /** The events of `es` whose ID is not `self` and did not occur earlier
      in `es`, in stream order. */
  function Discoveries(es: seq<Event>, self: int): seq<Event> {
    if es == [] then []
    else
      var init := es[..|es| - 1];
      var last := es[|es| - 1];
      if last.id != self && !HasId(init, last.id) then Discoveries(init, self) + [last]
      else Discoveries(init, self)
  }

  /** Exactly the positions of `es` that hold the first occurrence of an
      ID other than `self` are kept. */
  lemma {:induction false} DiscoveriesMembers(es: seq<Event>, self: int, e: Event)
    ensures e in Discoveries(es, self) <==>
      exists k :: 0 <= k < |es| && es[k] == e && e.id != self && !HasId(es[..k], e.id)
    decreases |es|
  {
    if es != [] {
      var init := es[..|es| - 1];
      DiscoveriesMembers(init, self, e);
      if exists k :: 0 <= k < |init| && init[k] == e && e.id != self && !HasId(init[..k], e.id) {
        var k :| 0 <= k < |init| && init[k] == e && e.id != self && !HasId(init[..k], e.id);
        assert es[k] == e && es[..k] == init[..k];
      }
      if exists k :: 0 <= k < |es| && es[k] == e && e.id != self && !HasId(es[..k], e.id) {
        var k :| 0 <= k < |es| && es[k] == e && e.id != self && !HasId(es[..k], e.id);
        if k < |init| {
          assert init[k] == e && init[..k] == es[..k];
        } else {
          assert es[..k] == init;
        }
      }
    }
  }

  /** Every ID other than `self` that occurs in `es` occurs among its
      discoveries, and no other ID does. */
  lemma {:induction false} DiscoveriesIds(es: seq<Event>, self: int, id: int)
    requires id != self
    ensures HasId(Discoveries(es, self), id) <==> HasId(es, id)
    decreases |es|
  {
    if es != [] {
      var init := es[..|es| - 1];
      var last := es[|es| - 1];
      var d := Discoveries(init, self);
      DiscoveriesIds(init, self, id);
      if HasId(d, id) {
        var k :| 0 <= k < |d| && d[k].id == id;
        assert Discoveries(es, self)[k] == d[k];
      }
      if HasId(init, id) {
        var k :| 0 <= k < |init| && init[k].id == id;
        assert es[k] == init[k];
      }
      if HasId(Discoveries(es, self), id) && !HasId(d, id) {
        assert Discoveries(es, self) == d + [last];
        assert last.id == id;
      }
      if HasId(es, id) && !HasId(init, id) {
        var k :| 0 <= k < |es| && es[k].id == id;
        assert k == |es| - 1;
        assert Discoveries(es, self)[|d|] == last;
      }
    }
  }

  /** One pass from nothing lists the first five discoveries. */
  lemma {:induction false} OnePassTakesDiscoveries(es: seq<Event>, self: int)
    ensures var d := Discoveries(es, self);
      AddRelated([], es, self) == d[..if |d| < MaxRelated then |d| else MaxRelated]
    decreases |es|
  {
    if es == [] {
    } else {
      var init := es[..|es| - 1];
      var last := es[|es| - 1];
      assert es == init + [last];
      OnePassTakesDiscoveries(init, self);
      AddRelatedAppend([], init, [last], self);
      var d := Discoveries(init, self);
      var mid := AddRelated([], init, self);
      if |mid| < MaxRelated {
        assert mid == d;
        assert [last][1..] == [];
        if last.id != self {
          DiscoveriesIds(init, self, last.id);
        }
      }
    }
  }

  // ---------------------------------------------------------------------
  // What the handler lists

  /** At most five related events are listed. */
  lemma RelatedAtMostFive(event: Event, fetch: string -> Option<seq<Event>>)
    ensures |Related(event, fetch)| <= MaxRelated
  {
    GatherIsOnePass([], event.tags, fetch, event.id);
    AddRelatedBounded([], Stream(event.tags, fetch), event.id);
  }

  /** The viewed event is never listed, no ID is listed twice, every listed
      event was returned by a fetch, and a list shorter than five holds
      every other ID that any fetch returned. */
  lemma RelatedProperties(event: Event, fetch: string -> Option<seq<Event>>)
    ensures WellListed(Related(event, fetch), event.id)
    ensures forall e :: e in Related(event, fetch) ==> e in Stream(event.tags, fetch)
    ensures |Related(event, fetch)| < MaxRelated ==>
      forall e :: e in Stream(event.tags, fetch) && e.id != event.id ==> HasId(Related(event, fetch), e.id)
  {
    GatherIsOnePass([], event.tags, fetch, event.id);
    AddRelatedProperties([], Stream(event.tags, fetch), event.id);
  }

  /** Listed events come in the order the fetches first returned their
      IDs: the list is the first five (or fewer) of the stream's first
      occurrences of IDs other than the viewed one. */
  lemma RelatedIsFirstDiscovery(event: Event, fetch: string -> Option<seq<Event>>)
    ensures var d := Discoveries(Stream(event.tags, fetch), event.id);
      Related(event, fetch) == d[..if |d| < MaxRelated then |d| else MaxRelated]
  {
    GatherIsOnePass([], event.tags, fetch, event.id);
    OnePassTakesDiscoveries(Stream(event.tags, fetch), event.id);
  }

  /** An event is in the stream iff some tag's successful fetch returned it. */
  lemma {:induction false} StreamMembers(tags: seq<string>, fetch: string -> Option<seq<Event>>, e: Event)
    ensures e in Stream(tags, fetch) <==>
      exists i :: 0 <= i < |tags| && fetch(tags[i]).Some? && e in fetch(tags[i]).value
    decreases |tags|
  {
    if tags != [] {
      StreamMembers(tags[1..], fetch, e);
      if e in Stream(tags[1..], fetch) {
        var i :| 0 <= i < |tags[1..]| && fetch(tags[1..][i]).Some? && e in fetch(tags[1..][i]).value;
        assert tags[i + 1] == tags[1..][i];
      }
      if exists i :: 0 <= i < |tags| && fetch(tags[i]).Some? && e in fetch(tags[i]).value {
        var i :| 0 <= i < |tags| && fetch(tags[i]).Some? && e in fetch(tags[i]).value;
        if i > 0 {
          assert tags[1..][i - 1] == tags[i];
        }
      }
    }
  }

  // ---------------------------------------------------------------------
  // The loops as written

  /** The innermost loop: a linear search of the listed IDs. */
  method IsListed(related: seq<Event>, id: int) returns (found: bool)
    ensures found <==> HasId(related, id)
  {
    found := false;
    var k := 0;
    while k < |related| && !found
      invariant 0 <= k <= |related|
      invariant found <==> exists m :: 0 <= m < k && related[m].id == id
    {
      if related[k].id == id {
        found := true;
      }
      k := k + 1;
    }
  }

  /** Lines 347-383 of the handler: nested loops with an inner linear
      search for the ID and breaks once five events are listed. */
  method FindRelated(event: Event, fetch: string -> Option<seq<Event>>) returns (related: seq<Event>)
    ensures related == Related(event, fetch)
  {
    related := [];
    var i := 0;
    while i < |event.tags|
      invariant 0 <= i <= |event.tags|
      invariant |related| < MaxRelated
      invariant Related(event, fetch) == GatherRelated(related, event.tags[i..], fetch, event.id)
    {
      assert event.tags[i..][1..] == event.tags[i + 1..];
      var fetched := fetch(event.tags[i]);
      if fetched.None? {
        i := i + 1;
        continue;
      }
      var es := fetched.value;
      ghost var start := related;
      var j := 0;
      while j < |es|
        invariant 0 <= j <= |es|
        invariant |related| < MaxRelated
        invariant AddRelated(start, es, event.id) == AddRelated(related, es[j..], event.id)
      {
        assert es[j..][1..] == es[j + 1..];
        var e := es[j];
        if e.id == event.id {
          j := j + 1;
          continue;
        }
        var found := IsListed(related, e.id);
        if !found {
          related := related + [e];
        }
        if |related| >= MaxRelated {
          assert AddRelated(start, es, event.id) == related;
          return;
        }
        j := j + 1;
      }
      assert es[|es|..] == [];
      i := i + 1;
    }
    assert event.tags[|event.tags|..] == [];
  }

  /** HandleEventView: the ID from the URL is parsed as an int64 (error:
      400), the event fetched (database error: 500, no such event: 404),
      then its related events collected. `getEvent` answers None on a
      database error and Some(None) when no event has the ID. */
  method HandleEventView(idParam: string, getEvent: int -> Option<Option<Event>>,
                         fetch: string -> Option<seq<Event>>)
    returns (r: Result<(Event, seq<Event>), int>)
    ensures ParseInt(idParam).1.Some? ==> r == Err(StatusBadRequest)
    ensures ParseInt(idParam).1.None? && getEvent(ParseInt(idParam).0).None? ==>
      r == Err(StatusInternalServerError)
    ensures ParseInt(idParam).1.None? && getEvent(ParseInt(idParam).0) == Some(None) ==>
      r == Err(StatusNotFound)
    ensures r.Ok? <==> (ParseInt(idParam).1.None? && getEvent(ParseInt(idParam).0).Some?
                        && getEvent(ParseInt(idParam).0).value.Some?)
    ensures r.Ok? ==> (r.value.0 == getEvent(ParseInt(idParam).0).value.value
                       && r.value.1 == Related(r.value.0, fetch))
  {
    var (id, err) := ParseInt(idParam);
    if err.Some? {
      return Err(StatusBadRequest);
    }
    var found := getEvent(id);
    if found.None? {
      return Err(StatusInternalServerError);
    }
    if found.value.None? {
      return Err(StatusNotFound);
    }
    var event := found.value.value;
    var related := FindRelated(event, fetch);
    r := Ok((event, related));
  }
}
