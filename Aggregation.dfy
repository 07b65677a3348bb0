/**
 * Ranking the projected journeys and replacing the displayed list
 * (MMM-Skyss.js, startPolling), and the poll cycle that drives the pipeline.
 *
 * `Array.prototype.sort` is stable, so the records are ordered by timestamp
 * with ties kept in arrival order; the model sorts with a stable insertion
 * sort in place on an array.
 */
module Aggregation {
  import opened Wrappers
  import opened RequestBody
  import opened Projection

  function TimestampOf(j: Journey): int {
    j.time.timestamp
  }

  predicate SortedByTime(s: seq<Journey>) {
    forall i, j :: 0 <= i < j < |s| ==> TimestampOf(s[i]) <= TimestampOf(s[j])
  }

  /** `s` with `x` placed after every element not later than it. */
  function Insert(x: Journey, s: seq<Journey>): seq<Journey> {
    if s == [] then [x]
    else if TimestampOf(x) < TimestampOf(s[0]) then [x] + s
    else [s[0]] + Insert(x, s[1..])
  }

  /** Reference definition of the stable sort by timestamp. */
  function SortByTime(s: seq<Journey>): seq<Journey> {
    if s == [] then [] else Insert(s[|s| - 1], SortByTime(s[..|s| - 1]))
  }

  /** The records of `s` with timestamp `t`, in order. */
  function WithTime(s: seq<Journey>, t: int): seq<Journey> {
    if s == [] then []
    else (if TimestampOf(s[0]) == t then [s[0]] else []) + WithTime(s[1..], t)
  }

  lemma {:induction false} WithTimeAppend(a: seq<Journey>, b: seq<Journey>, t: int)
    ensures WithTime(a + b, t) == WithTime(a, t) + WithTime(b, t)
  {
    if a == [] {
      assert a + b == b;
    } else {
      var head := if TimestampOf(a[0]) == t then [a[0]] else [];
      assert (a + b)[0] == a[0];
      assert (a + b)[1..] == a[1..] + b;
      calc {
        WithTime(a + b, t);
        head + WithTime(a[1..] + b, t);
        { WithTimeAppend(a[1..], b, t); }
        head + (WithTime(a[1..], t) + WithTime(b, t));
        (head + WithTime(a[1..], t)) + WithTime(b, t);
        WithTime(a, t) + WithTime(b, t);
      }
    }
  }

  lemma {:induction false} InsertMultiset(x: Journey, s: seq<Journey>)
    ensures multiset(Insert(x, s)) == multiset(s) + multiset{x}
  {
    if s == [] {
      assert Insert(x, s) == [x];
    } else if TimestampOf(x) < TimestampOf(s[0]) {
      assert Insert(x, s) == [x] + s;
    } else {
      var rest := s[1..];
      InsertMultiset(x, rest);
      assert Insert(x, s) == [s[0]] + Insert(x, rest);
      assert s == [s[0]] + rest;
      calc {
        multiset(Insert(x, s));
        multiset([s[0]]) + multiset(Insert(x, rest));
        multiset([s[0]]) + multiset(rest) + multiset{x};
        multiset(s) + multiset{x};
      }
    }
  }

  lemma {:induction false} InsertSorted(x: Journey, s: seq<Journey>)
    requires SortedByTime(s)
    ensures SortedByTime(Insert(x, s))
  {
    if s != [] && TimestampOf(x) >= TimestampOf(s[0]) {
      var rest := s[1..];
      InsertSorted(x, rest);
      InsertMultiset(x, rest);
      var r := Insert(x, rest);
      forall i | 0 <= i < |r| ensures TimestampOf(s[0]) <= TimestampOf(r[i]) {
        assert r[i] in multiset(r);
        assert r[i] == x || r[i] in rest;
      }
    }
  }

  lemma {:induction false} InsertStable(x: Journey, s: seq<Journey>, t: int)
    requires SortedByTime(s)
    ensures WithTime(Insert(x, s), t) == WithTime(s, t) + WithTime([x], t)
  {
    if s == [] {
      assert Insert(x, s) == [x];
    } else if TimestampOf(x) < TimestampOf(s[0]) {
      assert Insert(x, s) == [x] + s;
      WithTimeAppend([x], s, t);
      if TimestampOf(x) == t {
        NoneWithTime(s, t);
      }
    } else {
      var rest := s[1..];
      assert SortedByTime(rest);
      assert Insert(x, s) == [s[0]] + Insert(x, rest);
      assert s == [s[0]] + rest;
      calc {
        WithTime(Insert(x, s), t);
        { WithTimeAppend([s[0]], Insert(x, rest), t); }
        WithTime([s[0]], t) + WithTime(Insert(x, rest), t);
        { InsertStable(x, rest, t); }
        WithTime([s[0]], t) + (WithTime(rest, t) + WithTime([x], t));
        { WithTimeAppend([s[0]], rest, t); }
        WithTime(s, t) + WithTime([x], t);
      }
    }
  }

  /** A sorted sequence starting later than `t` has no record at `t`. */
  lemma {:induction false} NoneWithTime(s: seq<Journey>, t: int)
    requires SortedByTime(s) && s != [] && t < TimestampOf(s[0])
    ensures WithTime(s, t) == []
  {
    if |s| > 1 {
      NoneWithTime(s[1..], t);
    }
  }

  /**
   * The sort is sorted, a permutation, and stable: for every timestamp, the
   * records carrying it keep their input order.
   */
  lemma {:induction false} SortByTimeCorrect(s: seq<Journey>)
    ensures SortedByTime(SortByTime(s))
    ensures multiset(SortByTime(s)) == multiset(s)
    ensures forall t :: WithTime(SortByTime(s), t) == WithTime(s, t)
  {
    if s != [] {
      var init, last := s[..|s| - 1], s[|s| - 1];
      SortByTimeCorrect(init);
      InsertSorted(last, SortByTime(init));
      InsertMultiset(last, SortByTime(init));
      assert s == init + [last];
      forall t ensures WithTime(SortByTime(s), t) == WithTime(s, t) {
        InsertStable(last, SortByTime(init), t);
        WithTimeAppend(init, [last], t);
      }
    }
  }

  /** `Insert` splits a sorted sequence where the later records begin. */
  lemma {:induction false} InsertAt(x: Journey, s: seq<Journey>, k: nat)
    requires k <= |s|
    requires forall p :: 0 <= p < k ==> TimestampOf(s[p]) <= TimestampOf(x)
    requires forall p :: k <= p < |s| ==> TimestampOf(x) < TimestampOf(s[p])
    ensures Insert(x, s) == s[..k] + [x] + s[k..]
  {
    if s == [] {
    } else if k == 0 {
      assert s[k..] == s;
    } else {
      InsertAt(x, s[1..], k - 1);
      assert s[..k] == [s[0]] + s[1..][..k - 1];
      assert s[k..] == s[1..][k - 1..];
    }
  }

  /** `allJourneys.sort(...)`: stable insertion sort of the array by timestamp. */
  method SortJourneys(a: array<Journey>)
    modifies a
    ensures a[..] == SortByTime(old(a[..]))
  {
    ghost var input := a[..];
    var i := 0;
    while i < a.Length
      invariant 0 <= i <= a.Length
      invariant a[..i] == SortByTime(input[..i])
      invariant forall p :: i <= p < a.Length ==> a[p] == input[p]
    {
      SortByTimeCorrect(input[..i]);
      InsertNext(a, i);
      assert input[..i + 1][..i] == input[..i];
      assert input[..i + 1][i] == input[i];
      i := i + 1;
    }
    assert a[..] == a[..a.Length];
    assert input[..a.Length] == input;
  }

  /** One pass of the insertion sort: slide `a[i]` left past the records later than it. */
  method InsertNext(a: array<Journey>, i: nat)
    requires i < a.Length
    requires SortedByTime(a[..i])
    modifies a
    ensures a[..i + 1] == Insert(old(a[i]), old(a[..i]))
    ensures forall p :: i < p < a.Length ==> a[p] == old(a[p])
  {
    ghost var sorted := a[..i];
    var key := a[i];
    var j := i;
    while j > 0 && TimestampOf(a[j - 1]) > TimestampOf(key)
      invariant 0 <= j <= i
      invariant forall p :: 0 <= p < j ==> a[p] == sorted[p]
      invariant forall p :: j < p <= i ==> a[p] == sorted[p - 1]
      invariant forall p :: i < p < a.Length ==> a[p] == old(a[p])
      invariant forall p :: j <= p < i ==> TimestampOf(key) < TimestampOf(sorted[p])
    {
      a[j] := a[j - 1];
      j := j - 1;
    }
    a[j] := key;
    SlidResult(a[..i + 1], sorted, key, j);
  }

  /** The array prefix after one insertion pass is `Insert` of the moved record into the sorted prefix. */
  lemma SlidResult(after: seq<Journey>, sorted: seq<Journey>, key: Journey, j: nat)
    requires SortedByTime(sorted) && j <= |sorted| && |after| == |sorted| + 1
    requires forall p :: 0 <= p < j ==> after[p] == sorted[p]
    requires after[j] == key
    requires forall p :: j < p < |after| ==> after[p] == sorted[p - 1]
    requires j > 0 ==> TimestampOf(sorted[j - 1]) <= TimestampOf(key)
    requires forall p :: j <= p < |sorted| ==> TimestampOf(key) < TimestampOf(sorted[p])
    ensures after == Insert(key, sorted)
  {
    InsertAt(key, sorted, j);
    assert after == sorted[..j] + [key] + sorted[j..];
  }

  /** The end index `Array.prototype.slice(0, maxItems)` uses on `n` records. */
  function SliceEnd(n: nat, maxItems: int): (end: nat)
    ensures end <= n
    ensures 0 <= maxItems ==> end == if maxItems < n then maxItems else n
    ensures maxItems < 0 ==> end == if n + maxItems < 0 then 0 else n + maxItems
  {
    if maxItems >= 0 then (if maxItems < n then maxItems else n)
    else if n + maxItems < 0 then 0 else n + maxItems
  }

  /** Reference definition of the list a poll with results displays. */
  function Ranked(results: seq<Journey>, maxItems: int): seq<Journey> {
    var sorted := SortByTime(results);
    assert |sorted| == |results| by {
      SortByTimeCorrect(results);
      assert |multiset(sorted)| == |multiset(results)|;
    }
    sorted[..SliceEnd(|results|, maxItems)]
  }

  /** The displayed list is sorted and has min(n, maxItems) records for a non-negative maxItems. */
  lemma RankedSortedPrefix(results: seq<Journey>, maxItems: int)
    ensures SortedByTime(Ranked(results, maxItems))
    ensures |Ranked(results, maxItems)| == SliceEnd(|results|, maxItems)
    ensures Ranked(results, maxItems) <= SortByTime(results)
  {
    SortByTimeCorrect(results);
    assert |multiset(SortByTime(results))| == |multiset(results)|;
  }

  /** Every displayed record comes from the results, and records sharing a timestamp keep arrival order. */
  lemma RankedFromResults(results: seq<Journey>, maxItems: int)
    ensures multiset(Ranked(results, maxItems)) <= multiset(results)
    ensures forall t :: WithTime(Ranked(results, maxItems), t) <= WithTime(results, t)
  {
    var sorted := SortByTime(results);
    SortByTimeCorrect(results);
    RankedSortedPrefix(results, maxItems);
    var kept := Ranked(results, maxItems);
    var dropped := sorted[|kept|..];
    assert sorted == kept + dropped;
    assert multiset(sorted) == multiset(kept) + multiset(dropped);
    forall t ensures WithTime(kept, t) <= WithTime(results, t) {
      WithTimeAppend(kept, dropped, t);
    }
  }

  /** In a sorted sequence, no record before a cut is later than a record after it. */
  lemma SortedCut(sorted: seq<Journey>, n: nat)
    requires SortedByTime(sorted) && n <= |sorted|
    ensures forall x, y :: x in sorted[..n] && y in sorted[n..] ==> TimestampOf(x) <= TimestampOf(y)
  {
    forall x, y | x in sorted[..n] && y in sorted[n..] ensures TimestampOf(x) <= TimestampOf(y) {
      var p :| 0 <= p < n && sorted[..n][p] == x;
      var q :| 0 <= q < |sorted| - n && sorted[n..][q] == y;
      assert sorted[p] == x && sorted[n + q] == y;
    }
  }

  /** No displayed record is later than a record left out: the list holds the earliest departures. */
  lemma RankedEarliest(results: seq<Journey>, maxItems: int)
    ensures forall x, y :: x in Ranked(results, maxItems) && y in multiset(results) - multiset(Ranked(results, maxItems)) ==>
      TimestampOf(x) <= TimestampOf(y)
  {
    var sorted := SortByTime(results);
    SortByTimeCorrect(results);
    RankedSortedPrefix(results, maxItems);
    var kept := Ranked(results, maxItems);
    var n := |kept|;
    assert kept == sorted[..n];
    var dropped := sorted[n..];
    assert sorted == kept + dropped;
    assert multiset(results) == multiset(kept) + multiset(dropped);
    SortedCut(sorted, n);
    forall y | y in multiset(results) - multiset(kept) ensures y in dropped {
      assert multiset(dropped)[y] > 0;
    }
  }

  /** The MagicMirror module instance: its configuration and the journeys it displays. */
  class SkyssModule {
    var journeys: seq<Journey>
    const maxItems: int
    const useRealtime: bool

    constructor (maxItems: int, useRealtime: bool)
      ensures this.maxItems == maxItems && this.useRealtime == useRealtime
      ensures journeys == []
    {
      this.maxItems := maxItems;
      this.useRealtime := useRealtime;
      journeys := [];
    }

    /**
     * The `promise.then` of startPolling: with results, concatenate, sort and
     * keep the first `maxItems`; without, leave the displayed list alone.
     */
    method ApplyResults(promiseResults: seq<Journey>)
      modifies this
      ensures |promiseResults| > 0 ==> journeys == Ranked(promiseResults, maxItems)
      ensures |promiseResults| == 0 ==> journeys == old(journeys)
    {
      if |promiseResults| > 0 {
        var allJourneys := new Journey[|promiseResults|];
        var i := 0;
        while i < |promiseResults|
          invariant 0 <= i <= |promiseResults|
          invariant allJourneys[..i] == promiseResults[..i]
        {
          allJourneys[i] := promiseResults[i];
          i := i + 1;
        }
        assert allJourneys[..] == promiseResults;
        SortJourneys(allJourneys);
        journeys := allJourneys[..SliceEnd(allJourneys.Length, maxItems)];
      }
    }

    /**
     * One poll cycle. The request body is built from the configured stops and
     * handed to the transport; `response` is what comes back (None for a
     * transport error). A transport error or a response naming an unknown stop
     * throws before the promise resolves, so the displayed list stays as it was.
     */
    method Poll(stops: seq<StopEntry>, response: Option<Response>, now: int) returns (body: Body)
      modifies this
      ensures body.stopGroups == RequestGroups(stops)
      ensures response.None? ==> journeys == old(journeys)
      ensures response.Some? && !StopsKnown(response.value) ==> journeys == old(journeys)
      ensures response.Some? && StopsKnown(response.value) ==>
        var n := |response.value.passingTimes|;
        (n == 0 ==> journeys == old(journeys)) &&
        (n > 0 ==> |journeys| == SliceEnd(n, maxItems) && SortedByTime(journeys)) &&
        (n > 0 ==> exists records: seq<Journey> ::
          |records| == n && journeys == Ranked(records, maxItems) &&
          forall j :: 0 <= j < n ==>
            Projects(response.value.passingTimes[j],
                     response.value.stops[response.value.passingTimes[j].stopIdentifier],
                     useRealtime, now, records[j]))
    {
      body := BuildRequestBody(stops);
      if response.Some? {
        var projected := ProjectResponse(response.value, useRealtime, now);
        if projected.Success? {
          ApplyResults(projected.value);
          if |projected.value| > 0 {
            RankedSortedPrefix(projected.value, maxItems);
            assert journeys == Ranked(projected.value, maxItems);
          }
        }
      }
    }
  }
}
