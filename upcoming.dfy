/**
  `query_database(limit)` of the newer script: of the rows `SELECT *`
  returns, keep those whose date lies at or after `now`, order them by date
  and return at most `limit` of them.

  The date parser is a parameter: it maps a date text to an instant, or to
  `None` where the parser raises ValueError.
 */
module Upcoming {
  import opened Wrappers
  import opened Strings
  import opened Derive
  import opened EventStore

  /** The date parser: an instant, or `None` where it raises ValueError. */
  type DateParser = string -> Option<int>

  /** The default `limit` of `query_database`. */
  const DefaultLimit: int := 8

  /** The loop's test: the stripped date parses to an instant at or after `now`. */
  predicate IsUpcoming(row: Row, now: int, parse: DateParser)
  {
    var when := parse(Strip(row.date));
    when.Some? && when.value >= now
  }

  /** The rows the loop appends to `upcoming_events`, in fetch order. */
  function Upcoming(rows: seq<Row>, now: int, parse: DateParser): seq<Row>
  {
    if rows == [] then []
    else
      var last := rows[|rows| - 1];
      Upcoming(rows[..|rows| - 1], now, parse) + (if IsUpcoming(last, now, parse) then [last] else [])
  }

  /** The loop keeps the last fetched row exactly when it passes the test. */
  lemma UpcomingSnoc(rows: seq<Row>, now: int, parse: DateParser)
    requires rows != []
    ensures Upcoming(rows, now, parse) ==
      Upcoming(rows[..|rows| - 1], now, parse) + Kept(rows[|rows| - 1], now, parse)
  {
  }

  /** What the loop appends for one row. */
  function Kept(row: Row, now: int, parse: DateParser): seq<Row>
  {
    if IsUpcoming(row, now, parse) then [row] else []
  }

  /** The kept rows are exactly the fetched rows that pass the test. */
  lemma {:induction false} UpcomingMembers(rows: seq<Row>, now: int, parse: DateParser)
    ensures forall x :: x in Upcoming(rows, now, parse) <==> x in rows && IsUpcoming(x, now, parse)
    decreases |rows|
  {
    if rows != [] {
      var front := rows[..|rows| - 1];
      var last := rows[|rows| - 1];
      assert rows == front + [last];
      UpcomingMembers(front, now, parse);
      UpcomingSnoc(rows, now, parse);
      forall x ensures x in Upcoming(rows, now, parse) <==> x in rows && IsUpcoming(x, now, parse) {
        assert x in Upcoming(rows, now, parse) <==>
          x in Upcoming(front, now, parse) || x in Kept(last, now, parse);
        assert x in rows <==> x in front || x == last;
      }
    }
  }

  /** No row is kept more often than it was fetched. */
  lemma {:induction false} UpcomingSubMultiset(rows: seq<Row>, now: int, parse: DateParser)
    ensures multiset(Upcoming(rows, now, parse)) <= multiset(rows)
    decreases |rows|
  {
    if rows != [] {
      var front := rows[..|rows| - 1];
      var last := rows[|rows| - 1];
      assert rows == front + [last];
      UpcomingSubMultiset(front, now, parse);
      UpcomingSnoc(rows, now, parse);
      assert multiset(rows) == multiset(front) + multiset{last};
    }
  }

  /**
    The kept rows are exactly the upcoming ones: each comes from the fetched
    rows, passes the test, and no row is kept more often than fetched.
   */
  lemma UpcomingSpec(rows: seq<Row>, now: int, parse: DateParser)
    ensures forall x :: x in Upcoming(rows, now, parse) <==> x in rows && IsUpcoming(x, now, parse)
    ensures multiset(Upcoming(rows, now, parse)) <= multiset(rows)
  {
    UpcomingMembers(rows, now, parse);
    UpcomingSubMultiset(rows, now, parse);
  }

  // ---------------------------------------------------------------------
  // The sort key
  // ---------------------------------------------------------------------

  /**
    Position of the first row whose raw date does not parse, or the length
    when every one does: `list.sort` computes the key of every element, in
    order, before it compares any, so this is where it raises.
   */
  function FirstUnparsed(rows: seq<Row>, parse: DateParser): (i: nat)
    ensures i <= |rows|
    ensures forall k :: 0 <= k < i ==> parse(rows[k].date).Some?
    ensures i < |rows| ==> parse(rows[i].date).None?
  {
    if rows == [] then 0
    else if parse(rows[0].date).None? then 0
    else 1 + FirstUnparsed(rows[1..], parse)
  }

  /** The sort key `parser.parse(x["event_date"])`, for a row whose date parses. */
  function Key(row: Row, parse: DateParser): int
  {
    match parse(row.date)
    case Some(t) => t
    case None => 0
  }

  predicate SortedByDate(rows: seq<Row>, parse: DateParser)
  {
    forall i, j :: 0 <= i < j < |rows| ==> Key(rows[i], parse) <= Key(rows[j], parse)
  }

  /** Places `x` before the first element whose key is not smaller. */
  function InsertByDate(x: Row, rows: seq<Row>, parse: DateParser): (r: seq<Row>)
    requires SortedByDate(rows, parse)
    ensures SortedByDate(r, parse)
    ensures multiset(r) == multiset(rows) + multiset{x}
    ensures |r| == |rows| + 1
    ensures r[0] == x || (rows != [] && r[0] == rows[0])
  {
    if rows == [] || Key(x, parse) <= Key(rows[0], parse) then [x] + rows
    else
      var rest := InsertByDate(x, rows[1..], parse);
      assert Key(rows[0], parse) <= Key(rest[0], parse);
      var r := [rows[0]] + rest;
      assert forall j :: 0 < j < |r| ==> r[j] == rest[j - 1];
      assert rows == [rows[0]] + rows[1..];
      r
  }

  /**
    `list.sort` by date: a permutation of its input, ascending by key;
    like Python's sort it keeps rows with equal keys in their input order.
   */
  function SortByDate(rows: seq<Row>, parse: DateParser): (r: seq<Row>)
    ensures SortedByDate(r, parse)
    ensures multiset(r) == multiset(rows)
    ensures |r| == |rows|
  {
    if rows == [] then []
    else
      assert rows == [rows[0]] + rows[1..];
      InsertByDate(rows[0], SortByDate(rows[1..], parse), parse)
  }

  // ---------------------------------------------------------------------
  // The query
  // ---------------------------------------------------------------------

  /** What `query_database(limit)` returns, or the error it raises. */
  function Query(rows: seq<Row>, limit: int, now: int, parse: DateParser): Result<seq<Row>, ScrapeError>
  {
    var upcoming := Upcoming(rows, now, parse);
    var bad := FirstUnparsed(upcoming, parse);
    if bad < |upcoming| then Err(UnparseableDate(upcoming[bad].date))
    else Ok(Slice(SortByDate(upcoming, parse), limit))
  }

  /** The query fails exactly when some kept row's raw date does not parse. */
  lemma QueryFailsIff(rows: seq<Row>, limit: int, now: int, parse: DateParser)
    ensures var up := Upcoming(rows, now, parse);
      Query(rows, limit, now, parse).Err? <==> exists i :: 0 <= i < |up| && parse(up[i].date).None?
  {
    var up := Upcoming(rows, now, parse);
    var bad := FirstUnparsed(up, parse);
    if bad < |up| {
      assert Query(rows, limit, now, parse) == Err(UnparseableDate(up[bad].date));
      assert parse(up[bad].date).None?;
    } else {
      assert Query(rows, limit, now, parse).Ok?;
    }
  }

  /**
    A successful query returns as many rows as `[:limit]` keeps of the
    upcoming ones (so at most `limit`), drawn from them, in ascending order
    of date.
   */
  lemma QueryWindow(rows: seq<Row>, limit: int, now: int, parse: DateParser)
    ensures Query(rows, limit, now, parse).Ok? ==>
      var r := Query(rows, limit, now, parse).value;
      var up := Upcoming(rows, now, parse);
      && (0 <= limit ==> |r| <= limit)
      && |r| == |Slice(up, limit)|
      && SortedByDate(r, parse)
      && multiset(r) <= multiset(up)
  {
    var up := Upcoming(rows, now, parse);
    if FirstUnparsed(up, parse) == |up| {
      var sorted := SortByDate(up, parse);
      var r := Slice(sorted, limit);
      assert Query(rows, limit, now, parse) == Ok(r);
      PrefixWindow(sorted, |r|, parse);
    }
  }

  /** A prefix of a sorted sequence is sorted and draws on its elements. */
  lemma PrefixWindow(sorted: seq<Row>, n: nat, parse: DateParser)
    requires SortedByDate(sorted, parse) && n <= |sorted|
    ensures SortedByDate(sorted[..n], parse)
    ensures multiset(sorted[..n]) <= multiset(sorted)
  {
    assert sorted == sorted[..n] + sorted[n..];
    assert multiset(sorted) == multiset(sorted[..n]) + multiset(sorted[n..]);
  }

  /**
    Every row a successful query returns was fetched, has a date that
    parses, and lies at or after `now`: rows whose date does not parse and
    past events are never returned.
   */
  lemma QueryOnlyUpcoming(rows: seq<Row>, limit: int, now: int, parse: DateParser)
    ensures Query(rows, limit, now, parse).Ok? ==>
      var r := Query(rows, limit, now, parse).value;
      forall i :: 0 <= i < |r| ==> r[i] in rows && IsUpcoming(r[i], now, parse) && parse(r[i].date).Some?
  {
    var up := Upcoming(rows, now, parse);
    if FirstUnparsed(up, parse) == |up| {
      UpcomingSpec(rows, now, parse);
      QueryWindow(rows, limit, now, parse);
      var r := Query(rows, limit, now, parse).value;
      forall i | 0 <= i < |r| ensures r[i] in rows && IsUpcoming(r[i], now, parse) && parse(r[i].date).Some? {
        InSubMultiset(r, up, i);
      }
    }
  }

  lemma InSubMultiset(r: seq<Row>, up: seq<Row>, i: nat)
    requires i < |r| && multiset(r) <= multiset(up)
    ensures exists k :: 0 <= k < |up| && up[k] == r[i]
  {
    assert r[i] in multiset(r);
    assert r[i] in up;
  }

  /** In a sorted sequence, whatever lies past a prefix is no earlier than the prefix. */
  lemma SortedPrefixEarliest(sorted: seq<Row>, n: nat, parse: DateParser)
    requires SortedByDate(sorted, parse) && n <= |sorted|
    ensures forall i, x :: 0 <= i < n && x in multiset(sorted) - multiset(sorted[..n]) ==>
      Key(sorted[i], parse) <= Key(x, parse)
  {
    var rest := sorted[n..];
    assert sorted == sorted[..n] + rest;
    assert multiset(sorted) - multiset(sorted[..n]) == multiset(rest);
    forall i, x | 0 <= i < n && x in multiset(rest) ensures Key(sorted[i], parse) <= Key(x, parse) {
      var j :| 0 <= j < |rest| && rest[j] == x;
      assert sorted[n + j] == x;
    }
  }

  /**
    The rows a successful query returns are the earliest ones: every
    upcoming row it leaves out is no earlier than every row it returns.
   */
  lemma QueryEarliest(rows: seq<Row>, limit: int, now: int, parse: DateParser)
    ensures Query(rows, limit, now, parse).Ok? ==>
      var r := Query(rows, limit, now, parse).value;
      var up := Upcoming(rows, now, parse);
      forall i, x :: 0 <= i < |r| && x in multiset(up) - multiset(r) ==> Key(r[i], parse) <= Key(x, parse)
  {
    var up := Upcoming(rows, now, parse);
    if FirstUnparsed(up, parse) == |up| {
      var sorted := SortByDate(up, parse);
      var r := Slice(sorted, limit);
      assert Query(rows, limit, now, parse).value == r;
      SortedPrefixEarliest(sorted, |r|, parse);
      assert sorted[..|r|] == r;
    }
  }

  /**
    `query_database`: the loop over the fetched rows, the key computation
    and the sort of `list.sort`, and the final `[:limit]`.
   */
  method QueryDatabase(rows: seq<Row>, limit: int, now: int, parse: DateParser)
    returns (res: Result<seq<Row>, ScrapeError>)
    ensures res == Query(rows, limit, now, parse)
  {
    var upcoming: seq<Row> := [];
    for i := 0 to |rows|
      invariant upcoming == Upcoming(rows[..i], now, parse)
    {
      var row := rows[i];
      assert rows[..i + 1][..i] == rows[..i];
      var eventDate := parse(Strip(row.date));
      if eventDate.None? {
        continue;
      }
      if eventDate.value >= now {
        upcoming := upcoming + [row];
      }
    }
    assert rows[..|rows|] == rows;
    // `list.sort` computes every key before it compares any.
    var bad := FirstUnparsed(upcoming, parse);
    if bad < |upcoming| {
      return Err(UnparseableDate(upcoming[bad].date));
    }
    upcoming := SortByDate(upcoming, parse);
    res := Ok(Slice(upcoming, limit));
  }
}
