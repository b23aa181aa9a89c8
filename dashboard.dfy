/** HandleDashboard: the five most recent events, a count per tag over
    them, up to ten of the counted tags and the statistics shown. */
module Dashboard {
  import opened Results
  import opened Events

  const MaxRecent: int := 5
  const MaxPopular: int := 10

  /** `if len(recentEvents) > 5 { recentEvents = recentEvents[:5] }`. */
  function Recent(events: seq<Event>): (recent: seq<Event>)
    ensures |recent| <= MaxRecent
    ensures |recent| == if |events| < MaxRecent then |events| else MaxRecent
    ensures recent == events[..|recent|]
  {
    if |events| > MaxRecent then events[..MaxRecent] else events
  }

  /** `tagMap[tag]++` on a map whose missing keys read as zero. */
  function Bump(m: map<string, nat>, tag: string): map<string, nat> {
    m[tag := if tag in m then m[tag] + 1 else 1]
  }

  /** The counts after bumping each tag of `tags`, in order. */
  function AddTags(m: map<string, nat>, tags: seq<string>): map<string, nat> {
    if tags == [] then m else Bump(AddTags(m, tags[..|tags| - 1]), tags[|tags| - 1])
  }

  /** The tag map after counting every tag of every event. */
  function TagCounts(events: seq<Event>): map<string, nat> {
    if events == [] then map[] else AddTags(TagCounts(events[..|events| - 1]), events[|events| - 1].tags)
  }

  /** How many times `tag` appears over all the events' tag lists. */
  function Occurrences(events: seq<Event>, tag: string): nat {
    if events == [] then 0
    else Occurrences(events[..|events| - 1], tag) + multiset(events[|events| - 1].tags)[tag]
  }

  /** The distinct elements of a tag list. */
  function TagSet(tags: seq<string>): (s: set<string>)
    ensures forall t :: t in s <==> t in tags
  {
    set i | 0 <= i < |tags| :: tags[i]
  }

  /** The distinct tags of the events. */
  function AllTags(events: seq<Event>): set<string> {
    if events == [] then {} else AllTags(events[..|events| - 1]) + TagSet(events[|events| - 1].tags)
  }

  /** A tag is among the distinct tags iff some event carries it. */
  lemma {:induction false} AllTagsMembers(events: seq<Event>, t: string)
    ensures t in AllTags(events) <==> exists i :: 0 <= i < |events| && t in events[i].tags
  {
    if events != [] {
      var init := events[..|events| - 1];
      AllTagsMembers(init, t);
      if exists i :: 0 <= i < |events| && t in events[i].tags {
        var i :| 0 <= i < |events| && t in events[i].tags;
        if i < |init| {
          assert init[i] == events[i];
        }
      }
    }
  }

  /** A map read with zero for missing keys. */
  function Count(m: map<string, nat>, tag: string): nat {
    if tag in m then m[tag] else 0
  }

  /** Bumping the tags adds each tag's multiplicity and nothing else. */
  lemma {:induction false} AddTagsCounts(m: map<string, nat>, tags: seq<string>)
    ensures AddTags(m, tags).Keys == m.Keys + TagSet(tags)
    ensures forall t :: Count(AddTags(m, tags), t) == Count(m, t) + multiset(tags)[t]
  {
    if tags != [] {
      var init := tags[..|tags| - 1];
      AddTagsCounts(m, init);
      assert tags == init + [tags[|tags| - 1]];
      assert multiset(tags) == multiset(init) + multiset{tags[|tags| - 1]};
    }
  }

  /** The map counts exactly the distinct tags, each with its number of
      occurrences. */
  lemma {:induction false} TagCountsCorrect(events: seq<Event>)
    ensures TagCounts(events).Keys == AllTags(events)
    ensures forall t :: Count(TagCounts(events), t) == Occurrences(events, t)
  {
    if events != [] {
      var init := events[..|events| - 1];
      TagCountsCorrect(init);
      AddTagsCounts(TagCounts(init), events[|events| - 1].tags);
    }
  }

  /** Every counted tag occurs at least once. */
  lemma TagCountsPositive(events: seq<Event>)
    ensures forall t :: t in TagCounts(events) ==> TagCounts(events)[t] >= 1
  {
    TagCountsCorrect(events);
    forall t | t in TagCounts(events)
      ensures TagCounts(events)[t] >= 1
    {
      AllTagsOccur(events, t);
    }
  }

  /** A tag of the events occurs in them. */
  lemma {:induction false} AllTagsOccur(events: seq<Event>, t: string)
    requires t in AllTags(events)
    ensures Occurrences(events, t) >= 1
  {
    var last := events[|events| - 1];
    if t !in last.tags {
      AllTagsOccur(events[..|events| - 1], t);
    }
  }

  /** The counting loops: for each event, for each of its tags, bump. */
  method CountTags(events: seq<Event>) returns (tagMap: map<string, nat>)
    ensures tagMap == TagCounts(events)
  {
    tagMap := map[];
    for i := 0 to |events|
      invariant tagMap == TagCounts(events[..i])
    {
      assert events[..i + 1][..i] == events[..i];
      var tags := events[i].tags;
      ghost var before := tagMap;
      for j := 0 to |tags|
        invariant tagMap == AddTags(before, tags[..j])
      {
        assert tags[..j + 1][..j] == tags[..j];
        var tag := tags[j];
        tagMap := tagMap[tag := if tag in tagMap then tagMap[tag] + 1 else 1];
      }
      assert tags[..|tags|] == tags;
    }
    assert events[..|events|] == events;
  }

  /** `for tag := range tagMap { append; if len >= 10 { break } }`: Go's
      map order is unspecified, so each step takes any key not taken yet. */
  method PopularTags(tagMap: map<string, nat>) returns (popular: seq<string>)
    ensures |popular| == if |tagMap.Keys| < MaxPopular then |tagMap.Keys| else MaxPopular
    ensures forall i :: 0 <= i < |popular| ==> popular[i] in tagMap
    ensures forall i, j :: 0 <= i < j < |popular| ==> popular[i] != popular[j]
  {
    popular := [];
    var remaining := tagMap.Keys;
    while remaining != {}
      invariant remaining <= tagMap.Keys
      invariant forall i :: 0 <= i < |popular| ==> popular[i] in tagMap && popular[i] !in remaining
      invariant forall i, j :: 0 <= i < j < |popular| ==> popular[i] != popular[j]
      invariant |popular| + |remaining| == |tagMap.Keys|
      invariant |popular| < MaxPopular
      decreases |remaining|
    {
      var tag :| tag in remaining;
      popular := popular + [tag];
      remaining := remaining - {tag};
      if |popular| >= MaxPopular {
        return;
      }
    }
  }

  /** The dashboard's data. The TotalEvents statistic is also the number
      of recent events, as the handler sets it. */
  datatype DashboardData = DashboardData(recentEvents: seq<Event>, popularTags: seq<string>,
                                         totalEvents: int, uniqueTags: int, recentCount: int)

  /** HandleDashboard; `fetched` is the result of the query by the empty
      tag, which the handler means as "all events", None being a database
      error. */
  method HandleDashboard(fetched: Option<seq<Event>>) returns (r: Result<DashboardData, int>)
    ensures fetched.None? <==> r == Err(StatusInternalServerError)
    ensures fetched.Some? <==> r.Ok?
    ensures r.Ok? ==>
      var d := r.value;
      && d.recentEvents == Recent(fetched.value)
      && d.totalEvents == |d.recentEvents| && d.recentCount == |d.recentEvents|
      && d.uniqueTags == |AllTags(d.recentEvents)|
      && |d.popularTags| == (if d.uniqueTags < MaxPopular then d.uniqueTags else MaxPopular)
      && (forall i :: 0 <= i < |d.popularTags| ==> d.popularTags[i] in AllTags(d.recentEvents))
      && (forall i, j :: 0 <= i < j < |d.popularTags| ==> d.popularTags[i] != d.popularTags[j])
  {
    if fetched.None? {
      return Err(StatusInternalServerError);
    }
    var recent := fetched.value;
    if |recent| > MaxRecent {
      recent := recent[..MaxRecent];
    }
    var tagMap := CountTags(recent);
    TagCountsCorrect(recent);
    var popular := PopularTags(tagMap);
    r := Ok(DashboardData(recent, popular, |recent|, |tagMap|, |recent|));
  }
}
