/** A recording item as the recording server lists it, and the ordering
    the playlist applies to a list of them. */
module Recordings {

  /** One clip. `start` and `duration` are the JSON values as the page
      receives them, kept as text (the text is what goes into URLs);
      `startMs` is the instant `new Date(start)` denotes, in milliseconds
      since the epoch. */
  datatype Recording = Recording(start: string, duration: string, startMs: int)

  /** Newest start first: no item starts later than the one before it. */
  predicate SortedNewestFirst(s: seq<Recording>) {
    forall i, j | 0 <= i < j < |s| :: s[i].startMs >= s[j].startMs
  }

  /** No item of s starts later than `bound`. */
  predicate NotLaterThan(s: seq<Recording>, bound: int) {
    forall i | 0 <= i < |s| :: s[i].startMs <= bound
  }

  /** Places r in front of the first element that does not start later
      than r, so that among equal starts the earlier-listed item stays
      first. */
  function Insert(r: Recording, s: seq<Recording>): (t: seq<Recording>)
    ensures multiset(t) == multiset(s) + multiset{r}
    ensures |t| == |s| + 1
  {
    if s == [] then [r]
    else if s[0].startMs <= r.startMs then [r] + s
    else
      assert s == [s[0]] + s[1..];
      [s[0]] + Insert(r, s[1..])
  }

  /** Inserting an item that respects a bound keeps the list within it. */
  lemma {:induction false} InsertNotLater(r: Recording, s: seq<Recording>, bound: int)
    requires NotLaterThan(s, bound) && r.startMs <= bound
    ensures NotLaterThan(Insert(r, s), bound)
  {
    if s != [] && s[0].startMs > r.startMs {
      InsertNotLater(r, s[1..], bound);
    }
  }

  /** Inserting into a newest-first list keeps it newest-first. */
  lemma {:induction false} InsertSorted(r: Recording, s: seq<Recording>)
    requires SortedNewestFirst(s)
    ensures SortedNewestFirst(Insert(r, s))
  {
    if s != [] && s[0].startMs > r.startMs {
      var rest := s[1..];
      InsertSorted(r, rest);
      InsertNotLater(r, rest, s[0].startMs);
      var t := Insert(r, s);
      assert t == [s[0]] + Insert(r, rest);
      forall i, j | 0 <= i < j < |t| ensures t[i].startMs >= t[j].startMs {
        if i > 0 {
          assert t[i] == Insert(r, rest)[i - 1] && t[j] == Insert(r, rest)[j - 1];
        } else {
          assert t[j] == Insert(r, rest)[j - 1];
        }
      }
    }
  }

  /** `items.sort((a, b) => new Date(b.start) - new Date(a.start))`: a
      stable sort (as Array.prototype.sort is) by start, newest first. The
      result is ordered and is a permutation of the input. */
  function SortNewestFirst(s: seq<Recording>): (t: seq<Recording>)
    ensures SortedNewestFirst(t)
    ensures multiset(t) == multiset(s)
    ensures |t| == |s|
  {
    if s == [] then []
    else
      assert s == [s[0]] + s[1..];
      InsertSorted(s[0], SortNewestFirst(s[1..]));
      Insert(s[0], SortNewestFirst(s[1..]))
  }

  /** Sorting a list that is already newest-first changes nothing; this is
      why re-rendering the cached (already sorted) playlist leaves the
      cache as it is. */
  lemma {:induction false} SortSortedIsIdentity(s: seq<Recording>)
    requires SortedNewestFirst(s)
    ensures SortNewestFirst(s) == s
  {
    if s != [] {
      SortSortedIsIdentity(s[1..]);
      assert s == [s[0]] + s[1..];
      if |s| > 1 {
        assert s[1].startMs <= s[0].startMs;
      }
    }
  }

  /** The items of s that start at instant m, in the order s lists them. */
  function WithStart(s: seq<Recording>, m: int): seq<Recording> {
    if s == [] then []
    else (if s[0].startMs == m then [s[0]] else []) + WithStart(s[1..], m)
  }

  /** Insert passes over only items that start later than r, so among the
      items starting at any one instant r lands in front of the others. */
  lemma WithStartCons(x: Recording, s: seq<Recording>, m: int)
    ensures WithStart([x] + s, m) == (if x.startMs == m then [x] else []) + WithStart(s, m)
  {
    assert ([x] + s)[1..] == s;
  }

  lemma {:induction false} InsertWithStart(r: Recording, s: seq<Recording>, m: int)
    ensures WithStart(Insert(r, s), m) == (if r.startMs == m then [r] else []) + WithStart(s, m)
  {
    if s == [] {
      WithStartCons(r, [], m);
    } else if s[0].startMs <= r.startMs {
      WithStartCons(r, s, m);
    } else {
      var rest := Insert(r, s[1..]);
      assert Insert(r, s) == [s[0]] + rest;
      InsertWithStart(r, s[1..], m);
      WithStartCons(s[0], rest, m);
      assert s == [s[0]] + s[1..];
      WithStartCons(s[0], s[1..], m);
      // s[0] starts later than r, so at most one of the two is kept.
      SwapFronts(if s[0].startMs == m then [s[0]] else [], if r.startMs == m then [r] else [], WithStart(s[1..], m));
    }
  }

  lemma SwapFronts(a: seq<Recording>, b: seq<Recording>, w: seq<Recording>)
    requires a == [] || b == []
    ensures a + (b + w) == b + (a + w)
  {
    if a == [] {
      assert a + (b + w) == b + w == b + (a + w);
    } else {
      assert a + (b + w) == a + w == b + (a + w);
    }
  }

  /** The sort is stable: items with equal starts keep the order in which
      they were fetched. */
  lemma {:induction false} SortKeepsEqualStartsInOrder(s: seq<Recording>, m: int)
    ensures WithStart(SortNewestFirst(s), m) == WithStart(s, m)
  {
    if s != [] {
      SortKeepsEqualStartsInOrder(s[1..], m);
      InsertWithStart(s[0], SortNewestFirst(s[1..]), m);
    }
  }

  /** Sorting twice is sorting once. */
  lemma SortIdempotent(s: seq<Recording>)
    ensures SortNewestFirst(SortNewestFirst(s)) == SortNewestFirst(s)
  {
    SortSortedIsIdentity(SortNewestFirst(s));
  }
}
