/** The combined type filter and free-text search of `updateEventView`
    (scripts.js:310-328), with the two mutable globals it reads. */
module EventFilter {
  import opened Text
  import opened Seqs
  import opened Events

  /** The filter value that lets every type through. */
  const AllTypes: string := "All"

  /** The type predicate: the wildcard, or an exact match of the event's type. */
  predicate TypeMatch(e: Event, filter: string) {
    filter == AllTypes || e.kind == filter
  }

  /** The search predicate on an already normalised term: empty, or contained in the
      lower-cased title, description, speaker or type. */
  predicate SearchMatch(e: Event, term: string) {
    || term == []
    || Contains(LowerStr(e.title), term)
    || Contains(LowerStr(e.description), term)
    || Contains(LowerStr(e.speaker), term)
    || Contains(LowerStr(e.kind), term)
  }

  predicate Matches(e: Event, filter: string, term: string) {
    TypeMatch(e, filter) && SearchMatch(e, term)
  }

  /** The callback handed to `events.filter`. */
  function MatchPredicate(filter: string, term: string): Event -> bool {
    e => Matches(e, filter, term)
  }

  function TypePredicate(filter: string): Event -> bool {
    e => TypeMatch(e, filter)
  }

  function SearchPredicate(term: string): Event -> bool {
    e => SearchMatch(e, term)
  }

  /** `currentSearchTerm.toLowerCase().trim()`: the slice of the lower-cased `raw` that
      starts after its leading whitespace and has only whitespace after it; the result is
      empty or starts and ends with a non-whitespace character, and is lower-case throughout. */
  function NormalizeTerm(raw: string): (term: string)
    ensures var lowered := LowerStr(raw); var n := LeadingWhitespace(lowered);
      && n + |term| <= |raw|
      && term == lowered[n..n + |term|]
      && (forall k :: 0 <= k < n || n + |term| <= k < |raw| ==> IsWhitespace(lowered[k]))
    ensures term != [] ==> !IsWhitespace(term[0]) && !IsWhitespace(term[|term| - 1])
    ensures forall i :: 0 <= i < |term| ==> Lower(term[i]) == term[i]
  {
    var lowered := LowerStr(raw);
    var t := Trim(lowered);
    TrimmedLower(lowered, raw);
    t
  }

  /** A slice of a lower-cased text is lower-case. */
  lemma TrimmedLower(lowered: string, raw: string)
    requires lowered == LowerStr(raw)
    ensures forall i :: 0 <= i < |Trim(lowered)| ==> Lower(Trim(lowered)[i]) == Trim(lowered)[i]
  {
    var t := Trim(lowered);
    var n := LeadingWhitespace(lowered);
    forall i | 0 <= i < |t| ensures Lower(t[i]) == t[i] {
      assert t[i] == lowered[n + i] == Lower(raw[n + i]);
    }
  }

  /** Normalising a normalised term changes nothing. */
  lemma NormalizeTermIdempotent(raw: string)
    ensures NormalizeTerm(NormalizeTerm(raw)) == NormalizeTerm(raw)
  {
    var t := NormalizeTerm(raw);
    var u := NormalizeTerm(t);
    assert LowerStr(t) == t;
    assert LeadingWhitespace(t) == 0 by {
      if t != [] { assert !IsWhitespace(t[0]); }
    }
    assert u == t[..|u|];
  }

  /** The events of `evs` that pass both predicates, in store order. */
  function Select(evs: seq<Event>, filter: string, term: string): seq<Event> {
    Filter(evs, MatchPredicate(filter, term))
  }

  /** What `updateEventView` hands to `renderEvents`: the selected events and the normalised term. */
  datatype View = View(visible: seq<Event>, term: string)

  /** `updateEventView` over the store, the current filter and the raw search text.
      An event of the store is visible exactly when it passes both predicates. */
  function UpdateEventView(store: seq<Event>, filter: string, rawSearch: string): (v: View)
    ensures v.term == NormalizeTerm(rawSearch)
    ensures forall i :: 0 <= i < |store| ==> (store[i] in v.visible <==> Matches(store[i], filter, v.term))
    ensures forall k :: 0 <= k < |v.visible| ==> v.visible[k] in store
  {
    var term := NormalizeTerm(rawSearch);
    View(Select(store, filter, term), term)
  }

  /** The visible sequence is the store taken at exactly the positions of the matching
      events, in increasing order: the order-preserving subsequence of all matches. */
  lemma ViewIsMatchingSubsequence(store: seq<Event>, filter: string, rawSearch: string)
    ensures var v := UpdateEventView(store, filter, rawSearch);
      var idx := MatchingIndices(store, MatchPredicate(filter, v.term));
      && |v.visible| == |idx|
      && (forall k :: 0 <= k < |idx| ==> idx[k] < |store| && v.visible[k] == store[idx[k]])
      && (forall k, l :: 0 <= k < l < |idx| ==> idx[k] < idx[l])
      && (forall i: nat :: i < |store| ==> (i in idx <==> Matches(store[i], filter, v.term)))
  {
    var term := NormalizeTerm(rawSearch);
    FilterSelectsMatchingIndices(store, MatchPredicate(filter, term));
  }

  /** With the wildcard filter and a search text that is empty after trimming, every event is shown. */
  lemma AllWithEmptySearchShowsStore(store: seq<Event>, rawSearch: string)
    requires NormalizeTerm(rawSearch) == []
    ensures UpdateEventView(store, AllTypes, rawSearch).visible == store
  {
    FilterKeepsAll(store, MatchPredicate(AllTypes, []));
  }

  /** An empty term gives exactly the type-filtered events. */
  lemma EmptyTermIsTypeFilter(evs: seq<Event>, filter: string)
    ensures Select(evs, filter, []) == Filter(evs, TypePredicate(filter))
  {
    FilterKeepsAll(Filter(evs, TypePredicate(filter)), SearchPredicate([]));
    FilterTwice(evs, TypePredicate(filter), SearchPredicate([]), MatchPredicate(filter, []));
  }

  /** Selecting is filtering by type and then searching within the result. */
  lemma SelectIsTypeThenSearch(evs: seq<Event>, filter: string, term: string)
    ensures Select(evs, filter, term) == Filter(Filter(evs, TypePredicate(filter)), SearchPredicate(term))
  {
    FilterTwice(evs, TypePredicate(filter), SearchPredicate(term), MatchPredicate(filter, term));
  }

  /** Selecting again from the selection with the same filter and term changes nothing. */
  lemma SelectIdempotent(evs: seq<Event>, filter: string, term: string)
    ensures Select(Select(evs, filter, term), filter, term) == Select(evs, filter, term)
  {
    FilterIdempotent(evs, MatchPredicate(filter, term));
  }

  /** Store identifiers are unique, so the visible identifiers are unique too. */
  lemma VisibleIdsDistinct(store: seq<Event>, filter: string, term: string)
    requires Distinct(Ids(store))
    ensures Distinct(Ids(Select(store, filter, term)))
  {
    var r := Select(store, filter, term);
    FilterSelectsMatchingIndices(store, MatchPredicate(filter, term));
    var idx := MatchingIndices(store, MatchPredicate(filter, term));
    forall i, j | 0 <= i < j < |r| ensures Ids(r)[i] != Ids(r)[j] {
      assert r[i] == store[idx[i]] && r[j] == store[idx[j]];
      assert Ids(store)[idx[i]] != Ids(store)[idx[j]];
    }
  }

  /** The sample store under the "Talk" filter and an empty search: the three talks, in store order. */
  lemma TalkFilterOnStore()
    ensures UpdateEventView(Store, "Talk", "").visible == [Store[0], Store[2], Store[5]]
  {
    var p := MatchPredicate("Talk", []);
    assert NormalizeTerm("") == [];
    var e0, e1, e2, e3, e4, e5 := Store[0], Store[1], Store[2], Store[3], Store[4], Store[5];
    assert p(e0) && !p(e1) && p(e2) && !p(e3) && !p(e4) && p(e5);
    assert Store == [e0, e1, e2, e3, e4, e5];
    FilterKeepsFirstThirdSixth(e0, e1, e2, e3, e4, e5, p);
  }

  /** Six elements of which exactly the first, third and sixth pass `p`. */
  lemma FilterKeepsFirstThirdSixth(e0: Event, e1: Event, e2: Event, e3: Event, e4: Event, e5: Event, p: Event -> bool)
    requires p(e0) && !p(e1) && p(e2) && !p(e3) && !p(e4) && p(e5)
    ensures Filter([e0, e1, e2, e3, e4, e5], p) == [e0, e2, e5]
  {
    FilterOfThree(e0, e1, e2, p);
    FilterOfThree(e3, e4, e5, p);
    FilterConcat([e0, e1, e2], [e3, e4, e5], p);
    assert [e0, e1, e2] + [e3, e4, e5] == [e0, e1, e2, e3, e4, e5];
  }

  /** The filter of three elements, element by element. */
  lemma FilterOfThree(e0: Event, e1: Event, e2: Event, p: Event -> bool)
    ensures Filter([e0, e1, e2], p)
      == (if p(e0) then [e0] else []) + (if p(e1) then [e1] else []) + (if p(e2) then [e2] else [])
  {
    FilterSnoc([], e0, p);
    assert [] + [e0] == [e0];
    FilterSnoc([e0], e1, p);
    assert [e0] + [e1] == [e0, e1];
    FilterSnoc([e0, e1], e2, p);
    assert [e0, e1] + [e2] == [e0, e1, e2];
  }

  /** The globals `currentFilter` and `currentSearchTerm` (scripts.js:66-67), which the
      filter buttons and the search box overwrite before recomputing the view. */
  class ViewState {
    var filter: string
    var searchTerm: string

    constructor ()
      ensures filter == AllTypes && searchTerm == ""
    {
      filter := AllTypes;
      searchTerm := "";
    }

    /** The search box's handler: store the raw text, then recompute the view. */
    method SetSearchTerm(store: seq<Event>, raw: string) returns (v: View)
      modifies this
      ensures searchTerm == raw && filter == old(filter)
      ensures v == UpdateEventView(store, filter, raw)
    {
      searchTerm := raw;
      v := UpdateEventView(store, filter, searchTerm);
    }

    /** A filter button's handler: store the button's filter value, then recompute the view. */
    method SetFilter(store: seq<Event>, f: string) returns (v: View)
      modifies this
      ensures filter == f && searchTerm == old(searchTerm)
      ensures v == UpdateEventView(store, f, searchTerm)
    {
      filter := f;
      v := UpdateEventView(store, filter, searchTerm);
    }
  }
}
