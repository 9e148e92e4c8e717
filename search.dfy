/**
  The client's search: with a non-empty term, keep the events whose title,
  location or venue contains the term, ignoring case, in their order; with
  an empty term, keep them all.
 */
module Search {
  import opened Strings
  import opened EventStore

  /** The filter's test: the lowered term occurs in the lowered title, location or venue. */
  predicate Matches(event: Row, term: string)
  {
    var t := Lower(term);
    Includes(Lower(event.title), t) || Includes(Lower(event.location), t) || Includes(Lower(event.venue), t)
  }

  /** `events.filter(...)` with the test above, in order. */
  function Filter(events: seq<Row>, term: string): seq<Row>
  {
    if events == [] then []
    else
      var last := events[|events| - 1];
      Filter(events[..|events| - 1], term) + (if Matches(last, term) then [last] else [])
  }

  /** The search effect: the whole list for an empty term, the filtered list otherwise. */
  function FilterEvents(events: seq<Row>, term: string): seq<Row>
  {
    if term == [] then events else Filter(events, term)
  }

  /**
    The filter keeps exactly the matching events: what it returns is drawn
    from the events in their order, every event it returns matches, and
    every matching event is returned.
   */
  lemma {:induction false} FilterSpec(events: seq<Row>, term: string)
    ensures IsSubsequence(Filter(events, term), events)
    ensures forall e :: e in Filter(events, term) <==> e in events && Matches(e, term)
    decreases |events|
  {
    if events != [] {
      var front := events[..|events| - 1];
      var last := events[|events| - 1];
      FilterSpec(front, term);
      assert events == front + [last];
      SubsequenceSnoc(Filter(front, term), front, last, Matches(last, term));
    }
  }

  /** Extending both sequences by the same element, or only the larger one, keeps a subsequence. */
  lemma {:induction false} SubsequenceSnoc<T>(a: seq<T>, b: seq<T>, x: T, take: bool)
    requires IsSubsequence(a, b)
    ensures IsSubsequence(a + (if take then [x] else []), b + [x])
    decreases |b|
  {
    var a' := a + (if take then [x] else []);
    if b == [] {
      assert a == [];
      if take {
        assert a' == [x] && a'[1..] == [] && (b + [x])[1..] == [];
      }
    } else if a != [] && a[0] == b[0] {
      SubsequenceSnoc(a[1..], b[1..], x, take);
      assert a'[1..] == a[1..] + (if take then [x] else []);
      assert (b + [x])[1..] == b[1..] + [x];
    } else {
      SubsequenceSnoc(a, b[1..], x, take);
      assert (b + [x])[1..] == b[1..] + [x];
    }
  }

  /** Searching the concatenation of two lists is searching each in turn. */
  lemma {:induction false} FilterAppend(a: seq<Row>, b: seq<Row>, term: string)
    ensures Filter(a + b, term) == Filter(a, term) + Filter(b, term)
    decreases |b|
  {
    if b == [] {
      assert a + b == a;
    } else {
      var front := b[..|b| - 1];
      FilterAppend(a, front, term);
      assert (a + b)[..|a + b| - 1] == a + front;
    }
  }

  /** Filtering the filtered list again changes nothing. */
  lemma {:induction false} FilterIdempotent(events: seq<Row>, term: string)
    ensures Filter(Filter(events, term), term) == Filter(events, term)
    decreases |events|
  {
    if events != [] {
      var front := events[..|events| - 1];
      var last := events[|events| - 1];
      FilterIdempotent(front, term);
      var kept := if Matches(last, term) then [last] else [];
      FilterAppend(Filter(front, term), kept, term);
      if Matches(last, term) {
        assert Filter(kept, term) == Filter([], term) + [last];
      }
    }
  }

  /** Every text contains the empty term, so filtering by it keeps every event. */
  lemma {:induction false} EmptyTermKeepsAll(events: seq<Row>)
    ensures Filter(events, []) == events
    decreases |events|
  {
    if events != [] {
      EmptyTermKeepsAll(events[..|events| - 1]);
      assert Lower([]) == [];
      var title := Lower(events[|events| - 1].title);
      assert title[..0] == [];
    }
  }

  /**
    The search effect is the filter for every term, the empty one included:
    its `if (searchTerm)` shortcut returns what the filter would.
   */
  lemma FilterEventsIsFilter(events: seq<Row>, term: string)
    ensures FilterEvents(events, term) == Filter(events, term)
  {
    if term == [] {
      EmptyTermKeepsAll(events);
    }
  }

  /** Lowering a lowered text changes nothing. */
  lemma LowerIdempotent(s: string)
    ensures Lower(Lower(s)) == Lower(s)
  {
  }

  /** The search ignores the case of the term: a term and its lowered form keep the same events. */
  lemma {:induction false} SearchIgnoresTermCase(events: seq<Row>, term: string)
    ensures Filter(events, Lower(term)) == Filter(events, term)
    decreases |events|
  {
    LowerIdempotent(term);
    if events != [] {
      SearchIgnoresTermCase(events[..|events| - 1], term);
    }
  }
}
