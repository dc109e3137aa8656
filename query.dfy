/** What a store query does with the rows it selects: returns them in some order, sorts them
    by a column, skips and takes for pagination. */
module Query {
  import opened Wrappers
  import Arith

  /** The index of the first element satisfying `p`, as `find` and `findFirst` return it, or
      none when no element does. */
  function FirstIndex<T>(s: seq<T>, p: T -> bool): (r: Option<nat>)
    ensures r.Some? ==> r.value < |s| && p(s[r.value])
    ensures r.Some? ==> forall j :: 0 <= j < r.value ==> !p(s[j])
    ensures r.None? ==> forall j :: 0 <= j < |s| ==> !p(s[j])
  {
    if s == [] then None
    else if p(s[0]) then Some(0)
    else
      match FirstIndex(s[1..], p)
      case None => None
      case Some(k) => Some(k + 1)
  }

  /** The elements of a finite set, each exactly once, in an unspecified order: the order in
      which the store returns rows it was not asked to sort. */
  ghost function SeqOf<T>(s: set<T>): (r: seq<T>)
    ensures multiset(r) == multiset(s)
  {
    if s == {} then []
    else
      var x :| x in s;
      var rest := SeqOf(s - {x});
      assert multiset(s) == multiset{x} + multiset(s - {x});
      [x] + rest
  }

  /** `s` is in ascending order of `key` (ties in any order). */
  ghost predicate SortedBy<T>(s: seq<T>, key: T -> int)
  {
    forall i, j :: 0 <= i < j < |s| ==> key(s[i]) <= key(s[j])
  }

  /** Every element of `s` has a key of at least `k`. */
  ghost predicate AtLeast<T>(k: int, s: seq<T>, key: T -> int)
  {
    forall i :: 0 <= i < |s| ==> k <= key(s[i])
  }

  lemma AtLeastPermutation<T>(k: int, a: seq<T>, b: seq<T>, key: T -> int)
    requires multiset(a) == multiset(b) && AtLeast(k, b, key)
    ensures AtLeast(k, a, key)
  {
    forall i | 0 <= i < |a| ensures k <= key(a[i]) {
      assert a[i] in multiset(b);
      var j :| 0 <= j < |b| && b[j] == a[i];
    }
  }

  lemma SortedCons<T>(x: T, s: seq<T>, key: T -> int)
    requires SortedBy(s, key) && AtLeast(key(x), s, key)
    ensures SortedBy([x] + s, key)
  {
    var r := [x] + s;
    forall i, j | 0 <= i < j < |r| ensures key(r[i]) <= key(r[j]) {
      if i > 0 {
        assert r[i] == s[i - 1] && r[j] == s[j - 1];
      } else {
        assert r[j] == s[j - 1];
      }
    }
  }

  /** Inserts `x` into an ascending sequence. */
  function InsertBy<T>(x: T, s: seq<T>, key: T -> int): (r: seq<T>)
    requires SortedBy(s, key)
    ensures SortedBy(r, key)
    ensures multiset(r) == multiset(s) + multiset{x}
  {
    if s == [] then [x]
    else if key(x) <= key(s[0]) then
      SortedCons(x, s, key);
      [x] + s
    else
      var rest := InsertBy(x, s[1..], key);
      assert s == [s[0]] + s[1..];
      assert AtLeast(key(s[0]), [x] + s[1..], key);
      AtLeastPermutation(key(s[0]), rest, [x] + s[1..], key);
      SortedCons(s[0], rest, key);
      [s[0]] + rest
  }

  /** Orders `s` ascending by `key`: the store's `orderBy`. */
  function SortBy<T>(s: seq<T>, key: T -> int): (r: seq<T>)
    ensures SortedBy(r, key)
    ensures multiset(r) == multiset(s)
  {
    if s == [] then []
    else
      assert s == [s[0]] + s[1..];
      InsertBy(s[0], SortBy(s[1..], key), key)
  }

  /** The store's `skip`: drops the first `n` rows. */
  function Skip<T>(s: seq<T>, n: nat): (r: seq<T>)
    ensures |r| == if n <= |s| then |s| - n else 0
    ensures forall i :: 0 <= i < |r| ==> r[i] == s[n + i]
  {
    if n <= |s| then s[n..] else []
  }

  /** The store's `take`: keeps at most the first `n` rows. */
  function Take<T>(s: seq<T>, n: nat): (r: seq<T>)
    ensures |r| == if n <= |s| then n else |s|
    ensures r == s[..|r|]
  {
    if n <= |s| then s[..n] else s
  }

  /** The rows a page shows: `n` rows from index `offset` (fewer at the end). */
  function Window<T>(s: seq<T>, offset: nat, n: nat): (r: seq<T>)
    ensures |r| == if offset >= |s| then 0 else if offset + n <= |s| then n else |s| - offset
    ensures forall i :: 0 <= i < |r| ==> offset + i < |s| && r[i] == s[offset + i]
  {
    Take(Skip(s, offset), n)
  }

  lemma WindowSorted<T>(s: seq<T>, offset: nat, n: nat, key: T -> int)
    requires SortedBy(s, key)
    ensures SortedBy(Window(s, offset, n), key)
  {
    var w := Window(s, offset, n);
    forall i, j | 0 <= i < j < |w| ensures key(w[i]) <= key(w[j]) {
      assert w[i] == s[offset + i] && w[j] == s[offset + j];
    }
  }

  /** The index of the first row of page `page` (counted from 1) of `n`-row pages: the
      `skip` of a paginated query. */
  function PageOffset(page: nat, n: nat): nat
    requires page >= 1
  {
    (page - 1) * n
  }

  /** The page (counted from 1) that shows index `i`. */
  function PageOf(i: nat, n: nat): (page: nat)
    requires n >= 1
    ensures page >= 1
  {
    i / n + 1
  }

  /** The element at index `i` is on page `PageOf(i, n)`, and there are at least that many pages. */
  /** An index lies on one page only: equal positions on pages `p1` and `p2` of `n` rows
      mean the same page. */
  lemma {:induction false} PageUnique(p1: nat, p2: nat, n: nat, k1: nat, k2: nat)
    requires p1 >= 1 && p2 >= 1 && n >= 1 && k1 < n && k2 < n
    requires PageOffset(p1, n) + k1 == PageOffset(p2, n) + k2
    ensures p1 == p2
  {
    assert (p1 - p2) * n == k2 - k1;
    Arith.CancelLess(n, p1 - p2, 1);
    Arith.CancelLess(n, -1, p1 - p2);
  }

  lemma WindowCovers<T>(s: seq<T>, n: nat, i: nat)
    requires n >= 1 && i < |s|
    ensures PageOf(i, n) <= CeilDiv(|s|, n)
    ensures s[i] in Window(s, PageOffset(PageOf(i, n), n), n)
  {
    var q := i / n;
    Arith.DivBounds(i, n);
    var offset := PageOffset(PageOf(i, n), n);
    assert offset == n * q;
    var w := Window(s, offset, n);
    assert w[i - offset] == s[i];
    var pages := CeilDiv(|s|, n);
    assert n * q < n * pages by {
      assert |s| <= pages * n;
    }
    Arith.CancelLess(n, q, pages);
  }

  /** `Math.ceil(a / b)` for a positive divisor: the least `r` with `a <= r * b`. */
  function CeilDiv(a: nat, b: nat): (r: nat)
    requires b > 0
    ensures a <= r * b
    ensures r == 0 || (r - 1) * b < a
  {
    (a + b - 1) / b
  }

  /** A subset is no larger than the set that holds it. */
  lemma SubsetCardinality<T>(a: set<T>, b: set<T>)
    requires a <= b
    ensures |a| <= |b|
  {
    assert b == a + (b - a);
  }
}
