/** The catalog view of the client: the movie list is narrowed by a case-insensitive
    substring match on the title and then optionally ordered by price. */
module Catalog {
  import opened Records

  /** Lower-cases one character (ASCII letters only). */
  function LowerChar(c: char): char {
    if 'A' <= c <= 'Z' then (c as int + 32) as char else c
  }

  /** `toLowerCase` on a string. */
  function Lower(s: string): (r: string)
    ensures |r| == |s|
    ensures forall k :: 0 <= k < |r| ==> !('A' <= r[k] <= 'Z')
    ensures forall k :: 0 <= k < |s| ==>
      if 'A' <= s[k] <= 'Z' then r[k] as int == s[k] as int + 32 else r[k] == s[k]
  {
    seq(|s|, k requires 0 <= k < |s| => LowerChar(s[k]))
  }

  /** `pattern` occurs in `text` starting at position `k`. */
  predicate OccursAt(text: string, pattern: string, k: int) {
    0 <= k && k + |pattern| <= |text| && text[k..k + |pattern|] == pattern
  }

  /** `text.includes(pattern)`. */
  function Includes(text: string, pattern: string): (b: bool)
    ensures b <==> exists k :: OccursAt(text, pattern, k)
    decreases |text|
  {
    if |pattern| > |text| then false
    else if text[..|pattern|] == pattern then (assert OccursAt(text, pattern, 0); true)
    else
      var b := Includes(text[1..], pattern);
      ShiftOccurrence(text, pattern);
      b
  }

  /** Occurrences in `text` past the first position are occurrences in `text[1..]`. */
  lemma ShiftOccurrence(text: string, pattern: string)
    requires text != [] && !OccursAt(text, pattern, 0)
    ensures (exists k :: OccursAt(text, pattern, k)) <==> (exists k :: OccursAt(text[1..], pattern, k))
  {
    forall k | OccursAt(text, pattern, k) ensures OccursAt(text[1..], pattern, k - 1) {
      assert text[1..][k - 1..k - 1 + |pattern|] == text[k..k + |pattern|];
    }
    forall k | OccursAt(text[1..], pattern, k) ensures OccursAt(text, pattern, k + 1) {
      assert text[1..][k..k + |pattern|] == text[k + 1..k + 1 + |pattern|];
    }
  }

  /** The search criterion: the lower-cased title contains `query`. */
  predicate Matches(m: MovieRow, query: string) {
    Includes(Lower(m.title), query)
  }

  /** `movies.filter(m => m.title.toLowerCase().includes(query))`. */
  function Filter(movies: seq<MovieRow>, query: string): (r: seq<MovieRow>)
    ensures forall m :: m in r <==> m in movies && Matches(m, query)
    ensures |r| <= |movies|
  {
    if movies == [] then []
    else if Matches(movies[0], query) then [movies[0]] + Filter(movies[1..], query)
    else Filter(movies[1..], query)
  }

  /** Filtering keeps the original order: it distributes over concatenation. */
  lemma {:induction false} FilterAppend(a: seq<MovieRow>, b: seq<MovieRow>, query: string)
    ensures Filter(a + b, query) == Filter(a, query) + Filter(b, query)
  {
    if a == [] {
      assert a + b == b;
    } else {
      assert (a + b)[0] == a[0] && (a + b)[1..] == a[1..] + b;
      FilterAppend(a[1..], b, query);
    }
  }

  /** A matching movie keeps all its copies, a non-matching one none. */
  lemma {:induction false} FilterCount(movies: seq<MovieRow>, query: string, m: MovieRow)
    ensures multiset(Filter(movies, query))[m] == if Matches(m, query) then multiset(movies)[m] else 0
  {
    if movies != [] {
      FilterCount(movies[1..], query, m);
      assert movies == [movies[0]] + movies[1..];
    }
  }

  /** The empty query is contained in every title, so it keeps every movie. */
  lemma {:induction false} FilterEmptyQuery(movies: seq<MovieRow>)
    ensures Filter(movies, []) == movies
  {
    if movies != [] {
      assert OccursAt(Lower(movies[0].title), [], 0);
      FilterEmptyQuery(movies[1..]);
    }
  }

  /** The sort key of the two price orders: `a.price - b.price` sorts by the price,
      `b.price - a.price` by its negation. */
  function PriceKey(m: MovieRow, descending: bool): int {
    if descending then -m.price else m.price
  }

  /** Ordered by the comparator's key: prices ascending when `descending` is false,
      prices descending when it is true. */
  predicate SortedByKey(s: seq<MovieRow>, descending: bool) {
    forall i, j :: 0 <= i < j < |s| ==> PriceKey(s[i], descending) <= PriceKey(s[j], descending)
  }

  /** Exchanges two neighbouring elements. */
  method SwapAdjacent(a: array<MovieRow>, j: int)
    requires 0 < j < a.Length
    modifies a
    ensures a[j - 1] == old(a[j]) && a[j] == old(a[j - 1])
    ensures forall k :: 0 <= k < a.Length && k != j - 1 && k != j ==> a[k] == old(a[k])
    ensures multiset(a[..]) == old(multiset(a[..]))
  {
    a[j - 1], a[j] := a[j], a[j - 1];
  }

  /** Moves `a[i]` down into the sorted prefix `a[..i]`. */
  method InsertDown(a: array<MovieRow>, i: int, descending: bool)
    requires 0 < i < a.Length
    requires SortedByKey(a[..i], descending)
    modifies a
    ensures SortedByKey(a[..i + 1], descending)
    ensures multiset(a[..]) == old(multiset(a[..]))
  {
    var j := i;
    while 0 < j && PriceKey(a[j], descending) < PriceKey(a[j - 1], descending)
      invariant 0 <= j <= i
      invariant forall p, q :: 0 <= p < q <= i && q != j ==> PriceKey(a[p], descending) <= PriceKey(a[q], descending)
      invariant 0 < j < i ==> PriceKey(a[j - 1], descending) <= PriceKey(a[j + 1], descending)
      invariant multiset(a[..]) == old(multiset(a[..]))
    {
      SwapAdjacent(a, j);
      j := j - 1;
    }
  }

  /** `filtered.sort(...)` with one of the two price comparators, in place. */
  method SortByPrice(a: array<MovieRow>, descending: bool)
    modifies a
    ensures SortedByKey(a[..], descending)
    ensures multiset(a[..]) == old(multiset(a[..]))
  {
    if a.Length == 0 {
      return;
    }
    var i := 1;
    while i < a.Length
      invariant 1 <= i <= a.Length
      invariant SortedByKey(a[..i], descending)
      invariant multiset(a[..]) == old(multiset(a[..]))
    {
      InsertDown(a, i, descending);
      i := i + 1;
    }
    assert a[..i] == a[..];
  }
}
