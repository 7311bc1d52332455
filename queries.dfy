/** The LINQ operators the service queries are built from: `Where`,
    `OrderBy`/`OrderByDescending`, `Skip` and `Take`. */
module Queries {
  import opened Wrappers

  /** `Where`: the elements that satisfy `keep`, in their original order. */
  function Where<T(!new)>(s: seq<T>, keep: T -> bool): (r: seq<T>)
    ensures |r| <= |s|
    ensures forall x :: x in r <==> x in s && keep(x)
    ensures forall x :: multiset(r)[x] == if keep(x) then multiset(s)[x] else 0
  {
    if s == [] then []
    else
      var rest := Where(s[..|s| - 1], keep);
      assert s == s[..|s| - 1] + [s[|s| - 1]];
      if keep(s[|s| - 1]) then rest + [s[|s| - 1]] else rest
  }

  /** `le` orders any two elements one way or the other. */
  ghost predicate Total<T(!new)>(le: (T, T) -> bool) {
    forall a, b :: le(a, b) || le(b, a)
  }

  /** Every element is ordered by `le` before its successor. */
  predicate SortedBy<T>(s: seq<T>, le: (T, T) -> bool) {
    forall i :: 0 < i < |s| ==> le(s[i - 1], s[i])
  }

  /** Inserts `x` in front of the first element it may precede. */
  function Insert<T(!new)>(x: T, s: seq<T>, le: (T, T) -> bool): (r: seq<T>)
    requires Total(le) && SortedBy(s, le)
    ensures SortedBy(r, le)
    ensures multiset(r) == multiset(s) + multiset{x}
    ensures |r| == |s| + 1
    ensures r[0] == x || (s != [] && r[0] == s[0])
  {
    if s == [] || le(x, s[0]) then [x] + s
    else
      var rest := Insert(x, s[1..], le);
      assert s == [s[0]] + s[1..];
      [s[0]] + rest
  }

  /** `OrderBy` with the comparison `le`: a sorted permutation of `s`. */
  function SortBy<T(!new)>(s: seq<T>, le: (T, T) -> bool): (r: seq<T>)
    requires Total(le)
    ensures SortedBy(r, le)
    ensures multiset(r) == multiset(s)
    ensures |r| == |s|
  {
    if s == [] then []
    else
      assert s == s[..|s| - 1] + [s[|s| - 1]];
      Insert(s[|s| - 1], SortBy(s[..|s| - 1], le), le)
  }

  /** `Skip(n)`: the elements from position `n` on. */
  function Skip<T>(s: seq<T>, n: nat): (r: seq<T>)
    ensures |r| == if n <= |s| then |s| - n else 0
    ensures forall i :: 0 <= i < |r| ==> r[i] == s[n + i]
  {
    if n >= |s| then [] else s[n..]
  }

  /** `Take(n)`: the first `n` elements, or all when there are fewer. */
  function Take<T>(s: seq<T>, n: nat): (r: seq<T>)
    ensures |r| == if n <= |s| then n else |s|
    ensures forall i :: 0 <= i < |r| ==> r[i] == s[i]
  {
    if n >= |s| then s else s[..n]
  }

  /** `r` is the run of `s` that begins at `start`. */
  predicate SliceAt<T(==)>(r: seq<T>, s: seq<T>, start: nat) {
    start + |r| <= |s| && r == s[start..start + |r|]
  }

  /** The paging SQL Server runs: the `OFFSET` of `(pageNumber - 1) *
      pageSize` rows may not be negative and the `FETCH NEXT pageSize ROWS`
      must be positive. Any other request makes the query throw. */
  predicate PageAccepted(pageNumber: int, pageSize: int) {
    (pageNumber - 1) * pageSize >= 0 && pageSize > 0
  }

  /** The accepted requests are exactly those with a page number and a
      page size of at least one. */
  lemma PageAcceptedBounds(pageNumber: int, pageSize: int)
    ensures PageAccepted(pageNumber, pageSize) <==> pageNumber >= 1 && pageSize >= 1
  {
    if pageSize > 0 && pageNumber < 1 {
      assert (pageNumber - 1) * pageSize <= -pageSize by {
        assert (pageNumber - 1) * pageSize == -((1 - pageNumber) * pageSize);
        assert (1 - pageNumber) * pageSize >= pageSize;
      }
    }
  }

  /** SQL Server's messages for a negative `OFFSET` and a `FETCH` of no rows. */
  const OffsetRefused := "The offset specified in a OFFSET clause may not be negative."
  const FetchRefused := "The number of rows provided for a FETCH clause must be greater then zero."

  /** The error a refused page raises: the `FETCH` message when the size is
      not positive, the `OFFSET` message otherwise. */
  function PageRefusal(pageNumber: int, pageSize: int): (e: Error)
    requires !PageAccepted(pageNumber, pageSize)
    ensures e.Query?
    ensures e.message == (if pageSize <= 0 then FetchRefused else OffsetRefused)
    ensures pageSize > 0 ==> pageNumber < 1
  {
    PageAcceptedBounds(pageNumber, pageSize);
    Query(if pageSize <= 0 then FetchRefused else OffsetRefused)
  }

  /** Where an accepted page starts: its offset, or the end when the offset
      is past it. */
  function PageStart(count: nat, pageNumber: int, pageSize: int): (start: nat)
    requires PageAccepted(pageNumber, pageSize)
    ensures start <= count
  {
    var offset := (pageNumber - 1) * pageSize;
    if offset >= count then count else offset
  }

  /** `Skip((pageNumber - 1) * pageSize).Take(pageSize)` on an accepted
      request: the run of `s` from the page's start, `pageSize` elements
      long, or shorter when `s` ends first. */
  function Page<T>(s: seq<T>, pageNumber: int, pageSize: int): (r: seq<T>)
    requires PageAccepted(pageNumber, pageSize)
    ensures |r| <= pageSize
    ensures var start := PageStart(|s|, pageNumber, pageSize);
            start + |r| <= |s| && r == s[start..start + |r|]
    ensures var start := PageStart(|s|, pageNumber, pageSize);
            start + pageSize <= |s| ==> |r| == pageSize
    ensures var start := PageStart(|s|, pageNumber, pageSize);
            start + pageSize > |s| ==> r == s[start..]
  {
    var start := PageStart(|s|, pageNumber, pageSize);
    var rest := Skip(s, (pageNumber - 1) * pageSize);
    assert rest == s[start..];
    Take(rest, pageSize)
  }

  /** A page of a sorted sequence is sorted. */
  lemma PageOfSorted<T>(s: seq<T>, le: (T, T) -> bool, pageNumber: int, pageSize: int)
    requires PageAccepted(pageNumber, pageSize)
    requires SortedBy(s, le)
    ensures SortedBy(Page(s, pageNumber, pageSize), le)
  {
    var start := PageStart(|s|, pageNumber, pageSize);
    var r := Page(s, pageNumber, pageSize);
    forall i | 0 < i < |r| ensures le(r[i - 1], r[i]) {
      assert r[i - 1] == s[start + i - 1] && r[i] == s[start + i];
    }
  }

  /** A page holds only elements of the sequence it is cut from. */
  lemma PageWithin<T>(s: seq<T>, pageNumber: int, pageSize: int)
    requires PageAccepted(pageNumber, pageSize)
    ensures forall x :: x in Page(s, pageNumber, pageSize) ==> x in s
  {
    var start := PageStart(|s|, pageNumber, pageSize);
    var r := Page(s, pageNumber, pageSize);
    forall x | x in r ensures x in s {
      var i :| 0 <= i < |r| && r[i] == x;
      assert x == s[start + i];
    }
  }
}
