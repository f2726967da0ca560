/**
 * The pagination arithmetic at the end of `get_customers` in backend/main.py:
 * a Python slice of the selected summaries and the page count by floor
 * division. A page size of 0 raises `ZeroDivisionError`.
 */
module Pagination {
  import opened Options
  import opened Arith

  datatype PageError = ZeroDivisionError

  /** The response body: the summaries of the page and the number of pages. */
  datatype Page<T> = Page(data: seq<T>, totalPages: int)

  /** Python's `a // b`: the quotient rounded toward negative infinity. */
  function FloorDiv(a: int, b: int): (q: int)
    requires b != 0
    ensures b > 0 ==> b * q <= a < b * q + b
    ensures b < 0 ==> b * q >= a > b * q + b
  {
    if b > 0 then a / b else (-a) / (-b)
  }

  /** A slice bound as Python adjusts it: a negative bound counts from the end, then it is clamped to `[0, len]`. */
  function SliceBound(i: int, len: nat): nat {
    if i < 0 then (if i + len < 0 then 0 else i + len)
    else if i > len then len
    else i
  }

  /** Python's `s[start:end]`. */
  function PySlice<T>(s: seq<T>, start: int, end: int): (r: seq<T>)
    ensures |r| <= |s|
    ensures 0 <= start <= end <= |s| ==> r == s[start..end]
    ensures start >= |s| || end <= -|s| || (0 <= end <= start) ==> r == []
  {
    var a, b := SliceBound(start, |s|), SliceBound(end, |s|);
    if a < b then s[a..b] else []
  }

  /**
   * A negative bound down to `-|s|` counts from the end, one below that is
   * the start of the sequence, and a bound past the end is the end.
   */
  lemma PySliceBounds<T>(s: seq<T>, start: int, end: int)
    ensures -|s| <= start < 0 ==> PySlice(s, start, end) == PySlice(s, start + |s|, end)
    ensures -|s| <= end < 0 ==> PySlice(s, start, end) == PySlice(s, start, end + |s|)
    ensures start < -|s| ==> PySlice(s, start, end) == PySlice(s, 0, end)
    ensures end > |s| ==> PySlice(s, start, end) == PySlice(s, start, |s|)
  {
  }

  /** `summaries[(page - 1) * pageSize : (page - 1) * pageSize + pageSize]`. */
  function PageData<T>(summaries: seq<T>, page: int, pageSize: int): seq<T> {
    var start := (page - 1) * pageSize;
    PySlice(summaries, start, start + pageSize)
  }

  /** The page and page count that `get_customers` returns for already selected summaries. */
  function Paginate<T>(summaries: seq<T>, page: int, pageSize: int): (r: Result<Page<T>, PageError>)
    ensures r.Failure? <==> pageSize == 0
  {
    var total := |summaries|;
    var paginated := PageData(summaries, page, pageSize);
    if pageSize == 0 then Failure(ZeroDivisionError)
    else Success(Page(paginated, FloorDiv(total + pageSize - 1, pageSize)))
  }

  /** For a positive page size, the page count is the ceiling of the total over the page size. */
  lemma TotalPagesIsCeiling<T>(summaries: seq<T>, page: int, pageSize: int)
    requires pageSize >= 1
    ensures var tp := Paginate(summaries, page, pageSize).value.totalPages;
      && tp >= 0
      && (tp == 0 <==> summaries == [])
      && (summaries != [] ==> (tp - 1) * pageSize < |summaries| <= tp * pageSize)
  {
    var total := |summaries|;
    var tp := FloorDiv(total + pageSize - 1, pageSize);
    assert (tp - 1) * pageSize == tp * pageSize - pageSize;
    if tp < 0 {
      MulMonotone(tp, -1, pageSize);
      assert false;
    }
    if total > 0 && tp == 0 {
      assert false;
    }
  }

  /** A page from 1 on is the stretch of `pageSize` summaries that starts at `(page - 1) * pageSize`, cut at the end. */
  lemma {:induction false} PageIsStretch<T>(summaries: seq<T>, page: int, pageSize: int)
    requires page >= 1 && pageSize >= 1
    ensures var start := (page - 1) * pageSize;
      && start >= 0
      && PageData(summaries, page, pageSize) ==
           (if start < |summaries| then summaries[start..Min(start + pageSize, |summaries|)] else [])
      && |PageData(summaries, page, pageSize)| <= pageSize
  {
    MulMonotone(0, page - 1, pageSize);
  }

  /** A page is non-empty exactly when its number is at most the page count. */
  lemma PageNonEmptyIff<T>(summaries: seq<T>, page: int, pageSize: int)
    requires page >= 1 && pageSize >= 1
    ensures var r := Paginate(summaries, page, pageSize).value;
      r.data != [] <==> page <= r.totalPages
  {
    var tp := Paginate(summaries, page, pageSize).value.totalPages;
    TotalPagesIsCeiling(summaries, page, pageSize);
    PageIsStretch(summaries, page, pageSize);
    if summaries != [] {
      if page <= tp {
        MulMonotone(page - 1, tp - 1, pageSize);
      } else {
        MulMonotone(tp, page - 1, pageSize);
      }
    }
  }

  /** Pages 1 to `k`, concatenated in order. */
  function PagesThrough<T>(summaries: seq<T>, pageSize: int, k: nat): seq<T> {
    if k == 0 then [] else PagesThrough(summaries, pageSize, k - 1) + PageData(summaries, k, pageSize)
  }

  /** Pages 1 to `k` hold the first `k * pageSize` summaries (or all of them), in order. */
  lemma {:induction false} PagesThroughPrefix<T>(summaries: seq<T>, pageSize: int, k: nat)
    requires pageSize >= 1
    ensures PagesThrough(summaries, pageSize, k) == summaries[..Min(k * pageSize, |summaries|)]
  {
    if k > 0 {
      var start := (k - 1) * pageSize;
      PagesThroughPrefix(summaries, pageSize, k - 1);
      PageIsStretch(summaries, k, pageSize);
      assert start + pageSize == k * pageSize;
      PrefixExtend(summaries, start, k * pageSize, PageData(summaries, k, pageSize));
    }
  }

  /** A prefix up to `start` followed by the stretch from `start` to `end` (both cut at the end) is the prefix up to `end`. */
  lemma PrefixExtend<T>(s: seq<T>, start: nat, end: nat, stretch: seq<T>)
    requires start <= end
    requires stretch == if start < |s| then s[start..Min(end, |s|)] else []
    ensures s[..Min(start, |s|)] + stretch == s[..Min(end, |s|)]
  {
    if start < |s| {
      assert s[..start] + s[start..Min(end, |s|)] == s[..Min(end, |s|)];
    }
  }

  /** Pages 1 to the page count, concatenated in order, give back all the selected summaries. */
  lemma PagesCoverAll<T>(summaries: seq<T>, pageSize: int)
    requires pageSize >= 1
    ensures var tp := Paginate(summaries, 1, pageSize).value.totalPages;
      tp >= 0 && PagesThrough(summaries, pageSize, tp) == summaries
  {
    var tp := Paginate(summaries, 1, pageSize).value.totalPages;
    TotalPagesIsCeiling(summaries, 1, pageSize);
    PagesThroughPrefix(summaries, pageSize, tp);
    assert summaries[..|summaries|] == summaries;
  }

  /** Summary `j` lies in the stretch of exactly one page: page `j / pageSize + 1`. */
  lemma OnExactlyOnePage(pageSize: int, j: nat, q: int)
    requires pageSize >= 1 && q >= 1
    ensures (q - 1) * pageSize <= j < q * pageSize <==> q == j / pageSize + 1
  {
    var p := j / pageSize;
    assert j == pageSize * p + j % pageSize;
    assert (p + 1) * pageSize == p * pageSize + pageSize;
    if q - 1 < p {
      MulMonotone(q, p, pageSize);
    } else if q - 1 > p {
      MulMonotone(p + 1, q - 1, pageSize);
    }
  }

  /** Summary `j` is at position `j % pageSize` of page `j / pageSize + 1`, which is within the page count. */
  lemma FoundOnItsPage<T>(summaries: seq<T>, pageSize: int, j: nat)
    requires pageSize >= 1 && j < |summaries|
    ensures var r := Paginate(summaries, j / pageSize + 1, pageSize).value;
      && j / pageSize + 1 <= r.totalPages
      && j % pageSize < |r.data|
      && r.data[j % pageSize] == summaries[j]
  {
    var p := j / pageSize;
    assert j == p * pageSize + j % pageSize;
    PageIsStretch(summaries, p + 1, pageSize);
    PageNonEmptyIff(summaries, p + 1, pageSize);
  }
}
