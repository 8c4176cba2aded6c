/** Page arithmetic of the list endpoints: the offset of a page, the number
    of pages, the next/previous flags and the window of rows a page shows. */
module Pagination {

  /** Query defaults: `page = "1"` and `size = "10"`. */
  const DefaultPage: int := 1
  const DefaultSize: int := 10

  /** Rows before page `page` when pages hold `size` rows. */
  function Skip(page: int, size: int): (skip: int)
    ensures skip + size == page * size
    ensures page >= 1 && size >= 1 ==> skip >= 0 && skip % size == 0
  {
    if size >= 1 then MultipleOfSize(page - 1, size); (page - 1) * size
    else (page - 1) * size
  }

  /** The ceiling of `total / size`: the fewest pages of `size` rows that
      hold `total` rows. */
  function TotalPages(total: nat, size: int): (n: nat)
    requires size >= 1
    ensures n * size >= total
    ensures total > 0 ==> (n - 1) * size < total
    ensures total == 0 ==> n == 0
  {
    var n := (total + size - 1) / size;
    var m := (total + size - 1) % size;
    assert total + size - 1 == n * size + m;
    n
  }

  /** `hasNext: pageNum < Math.ceil(total / sizeNum)`. */
  predicate HasNext(page: int, total: nat, size: int)
    requires size >= 1
  {
    page < TotalPages(total, size)
  }

  /** `hasPrev: pageNum > 1`. */
  predicate HasPrev(page: int) {
    page > 1
  }

  /** Multiplying by a positive page size keeps the order of page numbers. */
  lemma MulMonotonic(a: int, b: int, size: int)
    requires a <= b && size >= 1
    ensures a * size <= b * size
  {
  }

  /** A multiple of the page size divides back exactly, with no remainder. */
  lemma MultipleOfSize(k: int, size: int)
    requires size >= 1
    ensures (k * size) % size == 0 && (k * size) / size == k
  {
    var q, r := (k * size) / size, (k * size) % size;
    assert (k - q) * size == r;
    if k - q >= 1 {
      MulMonotonic(1, k - q, size);
    } else if k - q <= -1 {
      MulMonotonic(k - q, -1, size);
    }
  }

  /** A next page exists exactly when the rows up to the end of this page
      do not exhaust the total. */
  lemma HasNextIff(page: int, total: nat, size: int)
    requires size >= 1
    ensures HasNext(page, total, size) <==> Skip(page, size) + size < total
  {
  }

  /** What `skip`/`take` return: at most `take` rows of `s` starting at
      offset `skip`, none when the offset is past the end. */
  function Window<T>(s: seq<T>, skip: nat, take: nat): (r: seq<T>)
    ensures |r| <= take
    ensures skip + |r| <= |s| || |r| == 0
    ensures |r| == take || skip + |r| >= |s|
    ensures forall i :: 0 <= i < |r| ==> r[i] == s[skip + i]
  {
    if skip >= |s| then []
    else if skip + take <= |s| then s[skip..skip + take]
    else s[skip..]
  }

  /** On a page that exists, `hasNext` holds exactly when rows remain after
      the rows this page shows. */
  lemma HasNextMeansMoreRows<T>(s: seq<T>, page: int, size: int)
    requires size >= 1 && page >= 1
    ensures HasNext(page, |s|, size) <==>
            Skip(page, size) + |Window(s, Skip(page, size), size)| < |s|
  {
    HasNextIff(page, |s|, size);
  }

  /** Row `i` of the full ordering is shown on page `i / size + 1`, at
      position `i % size`, and that page is within `TotalPages`. */
  lemma PageOfRow<T>(s: seq<T>, size: int, i: int)
    requires size >= 1 && 0 <= i < |s|
    ensures 1 <= i / size + 1 <= TotalPages(|s|, size)
    ensures var w := Window(s, Skip(i / size + 1, size), size);
            i % size < |w| && w[i % size] == s[i]
  {
    var p := i / size + 1;
    assert i == (i / size) * size + i % size;
    assert Skip(p, size) == (i / size) * size;
    var n: int := TotalPages(|s|, size);
    if p > n {
      MulMonotonic(n, i / size, size);
      assert false;
    }
  }

  /** Pages 1 to `TotalPages` are non-empty and every later page is empty. */
  lemma NonEmptyPages<T>(s: seq<T>, size: int, page: int)
    requires size >= 1 && page >= 1
    ensures |Window(s, Skip(page, size), size)| > 0 <==> page <= TotalPages(|s|, size)
  {
    var n: int := TotalPages(|s|, size);
    if page <= n {
      MulMonotonic(page - 1, n - 1, size);
    } else {
      MulMonotonic(n, page - 1, size);
    }
  }
}
