/**
 * The in-memory meaning of the LINQ operators the repository composes:
 * ordering by a key (`OrderBy` / `OrderByDescending`), `Skip` and `Take`.
 */
module Sequences {

  /** `a` may come before `b` in an ordering by `key`, ascending or descending. */
  predicate Precedes<T>(key: T -> int, descending: bool, a: T, b: T) {
    if descending then key(a) >= key(b) else key(a) <= key(b)
  }

  predicate SortedBy<T>(s: seq<T>, key: T -> int, descending: bool) {
    forall i, j :: 0 <= i < j < |s| ==> Precedes(key, descending, s[i], s[j])
  }

  /** Inserts `x` into a sorted sequence after every element that must precede it. */
  function InsertBy<T>(x: T, s: seq<T>, key: T -> int, descending: bool): (r: seq<T>)
    requires SortedBy(s, key, descending)
    ensures SortedBy(r, key, descending)
    ensures multiset(r) == multiset(s) + multiset{x}
    ensures |r| == |s| + 1
  {
    if s == [] then [x]
    else if Precedes(key, descending, x, s[0]) then
      InsertBefore(x, s, key, descending);
      [x] + s
    else
      var rest := InsertBy(x, s[1..], key, descending);
      assert s == [s[0]] + s[1..];
      HeadPrecedesAll(s[0], s[1..], x, rest, key, descending);
      [s[0]] + rest
  }

  lemma InsertBefore<T>(x: T, s: seq<T>, key: T -> int, descending: bool)
    requires SortedBy(s, key, descending) && s != []
    requires Precedes(key, descending, x, s[0])
    ensures SortedBy([x] + s, key, descending)
  {
    forall i, j | 0 <= i < j < |[x] + s|
      ensures Precedes(key, descending, ([x] + s)[i], ([x] + s)[j])
    {
      if i > 0 {
        assert ([x] + s)[i] == s[i - 1] && ([x] + s)[j] == s[j - 1];
      } else if j > 1 {
        assert ([x] + s)[j] == s[j - 1];
        assert Precedes(key, descending, s[0], s[j - 1]);
      }
    }
  }

  lemma HeadPrecedesAll<T>(h: T, tail: seq<T>, x: T, rest: seq<T>, key: T -> int, descending: bool)
    requires SortedBy([h] + tail, key, descending)
    requires !Precedes(key, descending, x, h)
    requires SortedBy(rest, key, descending)
    requires multiset(rest) == multiset(tail) + multiset{x}
    ensures SortedBy([h] + rest, key, descending)
  {
    forall k | 0 <= k < |rest|
      ensures Precedes(key, descending, h, rest[k])
    {
      assert rest[k] in multiset(rest);
      if rest[k] != x {
        assert rest[k] in multiset(tail);
        var m :| 0 <= m < |tail| && tail[m] == rest[k];
        assert ([h] + tail)[0] == h && ([h] + tail)[m + 1] == tail[m];
      }
    }
    forall i, j | 0 <= i < j < |[h] + rest|
      ensures Precedes(key, descending, ([h] + rest)[i], ([h] + rest)[j])
    {
      if i > 0 {
        assert ([h] + rest)[i] == rest[i - 1] && ([h] + rest)[j] == rest[j - 1];
      } else {
        assert ([h] + rest)[j] == rest[j - 1];
      }
    }
  }

  /** `OrderBy(key)` / `OrderByDescending(key)`: a sorted permutation of the input. */
  function SortBy<T>(s: seq<T>, key: T -> int, descending: bool): (r: seq<T>)
    ensures SortedBy(r, key, descending)
    ensures multiset(r) == multiset(s)
    ensures |r| == |s|
  {
    if s == [] then []
    else
      assert s == [s[0]] + s[1..];
      InsertBy(s[0], SortBy(s[1..], key, descending), key, descending)
  }

  /** `Skip(n)`, for a non-negative count: the suffix left after the first `n` items (or none). */
  function Skip<T>(s: seq<T>, n: nat): (r: seq<T>)
    ensures |r| == |s| - Min(n, |s|)
    ensures r == s[|s| - |r|..]
  {
    if n <= |s| then s[n..] else []
  }

  /** `Take(n)`, for a non-negative count: the prefix of the first `n` items (or all). */
  function Take<T>(s: seq<T>, n: nat): (r: seq<T>)
    ensures |r| == Min(n, |s|)
    ensures r == s[..|r|]
  {
    if n <= |s| then s[..n] else s
  }

  /** `Take(n)` and `Skip(n)` split a sequence: together they give it back, in order. */
  lemma TakeSkip<T>(s: seq<T>, n: nat)
    ensures Take(s, n) + Skip(s, n) == s
  {
    assert s[..|Take(s, n)|] + s[|Take(s, n)|..] == s;
  }

  /** The number of items before a 1-based page: `(pageNumber - 1) * pageSize`. */
  function PageStart(pageNumber: int, pageSize: int): nat
    requires pageNumber >= 1 && pageSize >= 1
  {
    MulMonotone(0, pageNumber - 1, pageSize);
    (pageNumber - 1) * pageSize
  }

  /** `Skip((pageNumber - 1) * pageSize).Take(pageSize)` for a 1-based page number. */
  function Page<T>(s: seq<T>, pageNumber: int, pageSize: int): (r: seq<T>)
    requires pageNumber >= 1 && pageSize >= 1
    ensures |r| <= pageSize
    ensures var lo := Min(PageStart(pageNumber, pageSize), |s|);
            var hi := Min(PageStart(pageNumber, pageSize) + pageSize, |s|);
            r == s[lo..hi]
  {
    Take(Skip(s, PageStart(pageNumber, pageSize)), pageSize)
  }

  /** A page keeps the elements of the sequence and, when the sequence is sorted, its order. */
  lemma PageIsSlice<T>(s: seq<T>, pageNumber: int, pageSize: int, key: T -> int, descending: bool)
    requires pageNumber >= 1 && pageSize >= 1
    ensures multiset(Page(s, pageNumber, pageSize)) <= multiset(s)
    ensures SortedBy(s, key, descending) ==> SortedBy(Page(s, pageNumber, pageSize), key, descending)
  {
    var lo := Min(PageStart(pageNumber, pageSize), |s|);
    var hi := Min(PageStart(pageNumber, pageSize) + pageSize, |s|);
    SliceIsSub(s, lo, hi, key, descending);
  }

  lemma SliceIsSub<T>(s: seq<T>, lo: int, hi: int, key: T -> int, descending: bool)
    requires 0 <= lo <= hi <= |s|
    ensures multiset(s[lo..hi]) <= multiset(s)
    ensures SortedBy(s, key, descending) ==> SortedBy(s[lo..hi], key, descending)
  {
    assert s == s[..lo] + s[lo..hi] + s[hi..];
    calc {
      multiset(s);
      multiset(s[..lo] + s[lo..hi] + s[hi..]);
      multiset(s[..lo]) + multiset(s[lo..hi]) + multiset(s[hi..]);
    }
    if SortedBy(s, key, descending) {
      var r := s[lo..hi];
      forall i, j | 0 <= i < j < |r| ensures Precedes(key, descending, r[i], r[j]) {
        assert r[i] == s[lo + i] && r[j] == s[lo + j];
      }
    }
  }

  function Min(a: int, b: int): int {
    if a < b then a else b
  }

  /** The pages 1..n, one after the other. */
  function Pages<T>(s: seq<T>, pageSize: int, n: nat): seq<T>
    requires pageSize >= 1
  {
    if n == 0 then [] else Pages(s, pageSize, n - 1) + Page(s, n, pageSize)
  }

  /** The number of pages needed for `total` items, ⌈total / pageSize⌉. */
  function PageCount(total: nat, pageSize: int): nat
    requires pageSize >= 1
  {
    (total + pageSize - 1) / pageSize
  }

  /** Pages 1..n hold exactly the first n * pageSize items (or all, if fewer). */
  lemma {:induction false} PagesArePrefix<T>(s: seq<T>, pageSize: int, n: nat)
    requires pageSize >= 1
    ensures Pages(s, pageSize, n) == s[..Min(n * pageSize, |s|)]
  {
    if n > 0 {
      PagesArePrefix(s, pageSize, n - 1);
      NextPageStart(n, pageSize);
      var lo, hi := Min((n - 1) * pageSize, |s|), Min(n * pageSize, |s|);
      assert s[..lo] + s[lo..hi] == s[..hi];
    }
  }

  lemma NextPageStart(n: nat, pageSize: int)
    requires n >= 1 && pageSize >= 1
    ensures PageStart(n, pageSize) == (n - 1) * pageSize
    ensures PageStart(n, pageSize) + pageSize == n * pageSize
  {
  }

  lemma PageCountSuffices(total: nat, pageSize: int)
    requires pageSize >= 1
    ensures PageCount(total, pageSize) * pageSize >= total
    ensures PageCount(total, pageSize) == 0 || (PageCount(total, pageSize) - 1) * pageSize < total
  {
    var t := total + pageSize - 1;
    var q := t / pageSize;
    assert t == q * pageSize + t % pageSize;
    assert (q - 1) * pageSize == q * pageSize - pageSize;
  }

  /**
   * Walking the pages 1..⌈total / pageSize⌉ and concatenating them yields
   * the whole list, in order, so the page sizes sum to the total; every
   * page before the last is full.
   */
  lemma PagesCoverAll<T>(s: seq<T>, pageSize: int)
    requires pageSize >= 1
    ensures Pages(s, pageSize, PageCount(|s|, pageSize)) == s
    ensures forall k :: 1 <= k < PageCount(|s|, pageSize) ==> |Page(s, k, pageSize)| == pageSize
  {
    PageCountSuffices(|s|, pageSize);
    PagesArePrefix(s, pageSize, PageCount(|s|, pageSize));
    forall k | 1 <= k < PageCount(|s|, pageSize)
      ensures |Page(s, k, pageSize)| == pageSize
    {
      MulMonotone(k, PageCount(|s|, pageSize) - 1, pageSize);
    }
  }

  lemma MulMonotone(a: nat, b: nat, c: nat)
    requires a <= b
    ensures a * c <= b * c
  {
  }
}
