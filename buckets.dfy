/**
 * `makeBuckets` of frontend/src/components/CustomerCard.jsx: the timeline is
 * cut into contiguous windows of equal size (the last may be shorter) and
 * each window is reduced to one bucket holding the running maximum of its
 * utilizations and the date of its last point with a numeric utilization.
 */
module Bucketing {
  import opened Options
  import opened Arith

  /**
   * An element of the array handed to `makeBuckets`: a point with a numeric
   * utilization, or anything the reduction skips (a falsy value, or a point
   * whose utilization is not a number).
   */
  datatype Sample = Measured(date: string, utilization: real) | Unmeasured

  /** One segment of the utilization strip. */
  datatype Bucket = Bucket(utilization: real, date: string)

  /** `Math.ceil(len / Math.min(maxBuckets, len))`: the least size for which `min(maxBuckets, len)` windows cover the points. */
  function WindowSize(len: nat, maxBuckets: nat): (size: nat)
    requires len >= 1 && maxBuckets >= 1
    ensures 1 <= size <= len
  {
    CeilDiv(len, Min(maxBuckets, len));
    (len + Min(maxBuckets, len) - 1) / Min(maxBuckets, len)
  }

  /** The window size is the ceiling of the length over the window count. */
  lemma WindowSizeIsCeiling(len: nat, maxBuckets: nat)
    requires len >= 1 && maxBuckets >= 1
    ensures var size := WindowSize(len, maxBuckets);
      (size - 1) * Min(maxBuckets, len) < len <= size * Min(maxBuckets, len)
  {
    CeilDiv(len, Min(maxBuckets, len));
  }

  /** Integer ceiling division, as the loop computes it. */
  lemma CeilDiv(len: nat, n: nat)
    requires 1 <= n <= len
    ensures var q := (len + n - 1) / n; 1 <= q <= len && (q - 1) * n < len <= q * n
  {
    var q := (len + n - 1) / n;
    assert len + n - 1 == n * q + (len + n - 1) % n;
    assert (q - 1) * n == q * n - n;
    if q > len {
      MulMonotone(len + 1, q, n);
      assert false;
    }
  }

  /** The contiguous windows of `size` points, in input order; the last may be shorter. */
  function Windows(s: seq<Sample>, size: nat): seq<seq<Sample>>
    requires size >= 1
    decreases |s|
  {
    if |s| <= size then (if s == [] then [] else [s])
    else [s[..size]] + Windows(s[size..], size)
  }

  function Concat(ws: seq<seq<Sample>>): seq<Sample> {
    if ws == [] then [] else ws[0] + Concat(ws[1..])
  }

  /** The running maximum of a window: it starts at 0 and rises to each larger numeric utilization. */
  function Peak(w: seq<Sample>): real {
    if w == [] then 0.0
    else
      var m := Peak(w[..|w| - 1]);
      match w[|w| - 1]
      case Measured(_, u) => if u > m then u else m
      case Unmeasured => m
  }

  /** The last point of a window with a numeric utilization (`any` at the end of the inner loop). */
  function LastMeasured(w: seq<Sample>): (r: Option<Sample>)
    ensures r.Some? ==> r.value.Measured?
  {
    if w == [] then None
    else if w[|w| - 1].Measured? then Some(w[|w| - 1])
    else LastMeasured(w[..|w| - 1])
  }

  /** The bucket of one window, or none when no point of it has a numeric utilization. */
  function Reduce(w: seq<Sample>): Option<Bucket> {
    match LastMeasured(w)
    case None => None
    case Some(p) => Some(Bucket(Peak(w), p.date))
  }

  /** The buckets of a sequence of windows, skipping the windows that yield none. */
  function Bucketize(ws: seq<seq<Sample>>): (bs: seq<Bucket>)
    ensures |bs| <= |ws|
  {
    if ws == [] then []
    else match Reduce(ws[0])
      case Some(b) => [b] + Bucketize(ws[1..])
      case None => Bucketize(ws[1..])
  }

  /** What `makeBuckets(points, maxBuckets)` returns. */
  function Buckets(points: Option<seq<Sample>>, maxBuckets: nat): seq<Bucket>
    requires maxBuckets >= 1
  {
    match points
    case None => []
    case Some(s) => if s == [] then [] else Bucketize(Windows(s, WindowSize(|s|, maxBuckets)))
  }

  /** `makeBuckets`: a loop over the window starts, with an inner loop over each window. */
  method MakeBuckets(points: Option<seq<Sample>>, maxBuckets: nat) returns (buckets: seq<Bucket>)
    requires maxBuckets >= 1
    ensures buckets == Buckets(points, maxBuckets)
    ensures points.Some? ==> |buckets| <= Min(maxBuckets, |points.value|)
    ensures points.None? || points.value == [] ==> buckets == []
  {
    buckets := [];
    if points.None? || |points.value| == 0 {
      return;
    }
    var s := points.value;
    var n := Min(maxBuckets, |s|);
    var size := (|s| + n - 1) / n;  // Math.ceil(points.length / n)
    assert size == WindowSize(|s|, maxBuckets);
    var i := 0;
    assert s[Min(i, |s|)..] == s;
    while i < |s|
      invariant 0 <= i
      invariant buckets + BucketsFrom(s, size, i) == BucketsFrom(s, size, 0)
      decreases |s| - i
    {
      var slice := s[i..Min(i + size, |s|)];
      var maxU, any := ReduceWindow(slice);
      var emitted := if any.Some? then Some(Bucket(maxU, any.value.date)) else None;
      Advance(s, size, i, buckets, emitted);
      if emitted.Some? {
        buckets := buckets + [emitted.value];
      }
      i := i + size;
    }
    assert s[|s|..] == [];
    BucketCount(s, maxBuckets);
  }

  /** The inner loop of `makeBuckets` over one slice: the running maximum from 0 and the last numeric point. */
  method ReduceWindow(slice: seq<Sample>) returns (maxU: real, any: Option<Sample>)
    ensures maxU == Peak(slice) && any == LastMeasured(slice)
    ensures Reduce(slice) == if any.Some? then Some(Bucket(maxU, any.value.date)) else None
  {
    maxU := 0.0;
    any := None;
    for j := 0 to |slice|
      invariant maxU == Peak(slice[..j])
      invariant any == LastMeasured(slice[..j])
    {
      assert slice[..j + 1][..j] == slice[..j];
      match slice[j]
      case Measured(_, u) =>
        if u > maxU {
          maxU := u;
        }
        any := Some(slice[j]);
      case Unmeasured =>
    }
    assert slice[..|slice|] == slice;
  }

  /** One step of the outer loop: the windows from `i` are the slice at `i` and the windows from `i + size`. */
  lemma WindowsStep(s: seq<Sample>, size: nat, i: nat)
    requires size >= 1 && i < |s|
    ensures Windows(s[i..], size) == [s[i..Min(i + size, |s|)]] + Windows(s[Min(i + size, |s|)..], size)
  {
    if |s| - i <= size {
      assert s[Min(i + size, |s|)..] == [];
      assert s[i..Min(i + size, |s|)] == s[i..];
    } else {
      assert s[i..][..size] == s[i..i + size];
      assert s[i..][size..] == s[i + size..];
    }
  }

  /** The buckets from `i` on are the bucket of the slice at `i`, if any, and the buckets from `i + size` on. */
  lemma OuterStep(s: seq<Sample>, size: nat, i: nat)
    requires size >= 1 && i < |s|
    ensures BucketsFrom(s, size, i) ==
      (match Reduce(s[i..Min(i + size, |s|)]) case Some(b) => [b] case None => [])
      + BucketsFrom(s, size, i + size)
  {
    WindowsStep(s, size, i);
    BucketizeCons(s[i..Min(i + size, |s|)], Windows(s[Min(i + size, |s|)..], size));
  }

  /** One turn of the outer loop of `makeBuckets` keeps the emitted buckets a prefix of the result. */
  lemma Advance(s: seq<Sample>, size: nat, i: nat, buckets: seq<Bucket>, emitted: Option<Bucket>)
    requires size >= 1 && i < |s|
    requires emitted == Reduce(s[i..Min(i + size, |s|)])
    requires buckets + BucketsFrom(s, size, i) == BucketsFrom(s, size, 0)
    ensures (if emitted.Some? then buckets + [emitted.value] else buckets) + BucketsFrom(s, size, i + size)
      == BucketsFrom(s, size, 0)
  {
    OuterStep(s, size, i);
    if emitted.Some? {
      assert BucketsFrom(s, size, i) == [emitted.value] + BucketsFrom(s, size, i + size);
      assert buckets + ([emitted.value] + BucketsFrom(s, size, i + size))
        == (buckets + [emitted.value]) + BucketsFrom(s, size, i + size);
    }
  }

  /** The buckets of the windows from index `i` on (none once `i` is past the end). */
  ghost function BucketsFrom(s: seq<Sample>, size: nat, i: int): seq<Bucket>
    requires size >= 1 && i >= 0
  {
    Bucketize(Windows(s[Min(i, |s|)..], size))
  }

  lemma BucketizeCons(w: seq<Sample>, rest: seq<seq<Sample>>)
    ensures Bucketize([w] + rest) ==
      (match Reduce(w) case Some(b) => [b] case None => []) + Bucketize(rest)
  {
    assert ([w] + rest)[0] == w;
    assert ([w] + rest)[1..] == rest;
  }

  /**
   * The windows partition the points: concatenated they give the points back,
   * each holds between 1 and `size` points, all but the last exactly `size`,
   * and there are `ceil(|s| / size)` of them.
   */
  lemma WindowsPartition(s: seq<Sample>, size: nat)
    requires size >= 1
    ensures Concat(Windows(s, size)) == s
    ensures forall k :: 0 <= k < |Windows(s, size)| ==> 1 <= |Windows(s, size)[k]| <= size
    ensures forall k :: 0 <= k < |Windows(s, size)| - 1 ==> |Windows(s, size)[k]| == size
    ensures |Windows(s, size)| == 0 <==> s == []
    ensures s != [] ==> (|Windows(s, size)| - 1) * size < |s| <= |Windows(s, size)| * size
  {
    WindowsConcat(s, size);
    WindowsLengths(s, size);
    WindowsCount(s, size);
  }

  /** Joining the windows back together gives the points. */
  lemma {:induction false} WindowsConcat(s: seq<Sample>, size: nat)
    requires size >= 1
    ensures Concat(Windows(s, size)) == s
  {
    if |s| <= size {
      if s != [] {
        assert Concat(Windows(s, size)) == s + Concat([]);
      }
    } else {
      WindowsConcat(s[size..], size);
      assert Concat(Windows(s, size)) == s[..size] + Concat(Windows(s[size..], size));
      assert s == s[..size] + s[size..];
    }
  }

  /** Every window holds 1 to `size` points, and all but the last exactly `size`. */
  lemma {:induction false} WindowsLengths(s: seq<Sample>, size: nat)
    requires size >= 1
    ensures forall k :: 0 <= k < |Windows(s, size)| ==> 1 <= |Windows(s, size)[k]| <= size
    ensures forall k :: 0 <= k < |Windows(s, size)| - 1 ==> |Windows(s, size)[k]| == size
  {
    if |s| > size {
      var ws := Windows(s, size);
      var rest := Windows(s[size..], size);
      WindowsLengths(s[size..], size);
      assert ws == [s[..size]] + rest;
      forall k | 1 <= k < |ws|
        ensures ws[k] == rest[k - 1]
      {
      }
    }
  }

  /** The number of windows is the ceiling of `|s| / size`. */
  lemma {:induction false} WindowsCount(s: seq<Sample>, size: nat)
    requires size >= 1
    ensures |Windows(s, size)| == 0 <==> s == []
    ensures s != [] ==> (|Windows(s, size)| - 1) * size < |s| <= |Windows(s, size)| * size
  {
    if |s| > size {
      var c := |Windows(s, size)|;
      var r := |Windows(s[size..], size)|;
      WindowsCount(s[size..], size);
      assert c == r + 1;
      assert (c - 1) * size == (r - 1) * size + size;
      assert c * size == r * size + size;
    }
  }

  /** Window `k` starts at `k * size`, below the number of points, and ends `size` later or at the end. */
  lemma {:induction false} WindowStart(s: seq<Sample>, size: nat, k: nat)
    requires size >= 1 && k < |Windows(s, size)|
    ensures k * size < |s|
    ensures Windows(s, size)[k] == s[k * size .. Min(k * size + size, |s|)]
  {
    if |s| <= size {
      assert k == 0;
    } else if k > 0 {
      var rest := s[size..];
      assert Windows(s, size)[k] == Windows(rest, size)[k - 1];
      WindowStart(rest, size, k - 1);
      var a := (k - 1) * size;
      assert a + size == k * size;
      var e := Min(a + size, |rest|);
      assert size + e == Min(k * size + size, |s|);
      SliceOfSuffix(s, size, a, e);
      assert size + a == k * size;
      assert Windows(s, size)[k] == s[size + a .. size + e];
    }
  }

  lemma SliceOfSuffix<T>(s: seq<T>, d: nat, a: nat, e: nat)
    requires d <= |s| && a <= e <= |s| - d
    ensures s[d..][a..e] == s[d + a .. d + e]
  {
  }

  /** There are at most `min(maxBuckets, len)` windows, hence at most that many buckets. */
  lemma BucketCount(s: seq<Sample>, maxBuckets: nat)
    requires maxBuckets >= 1 && s != []
    ensures |Windows(s, WindowSize(|s|, maxBuckets))| <= Min(maxBuckets, |s|)
    ensures |Buckets(Some(s), maxBuckets)| <= Min(maxBuckets, |s|)
  {
    var size := WindowSize(|s|, maxBuckets);
    var n := Min(maxBuckets, |s|);
    var c := |Windows(s, size)|;
    WindowSizeIsCeiling(|s|, maxBuckets);
    WindowsPartition(s, size);
    assert (c - 1) * size < n * size;
    if c - 1 >= n {
      MulMonotone(n, c - 1, size);
      assert false;
    }
  }

  /**
   * A bucket's level is the largest numeric utilization of its window, or 0
   * when none is above 0.
   */
  lemma {:induction false} PeakIsMaximum(w: seq<Sample>)
    ensures Peak(w) >= 0.0
    ensures forall i :: 0 <= i < |w| && w[i].Measured? ==> w[i].utilization <= Peak(w)
    ensures Peak(w) == 0.0 || exists i :: 0 <= i < |w| && w[i].Measured? && w[i].utilization == Peak(w)
  {
    if w != [] {
      var init := w[..|w| - 1];
      PeakIsMaximum(init);
      forall i | 0 <= i < |w| - 1
        ensures w[i] == init[i]
      {
      }
      if Peak(w) != 0.0 && Peak(w) == Peak(init) {
        var j :| 0 <= j < |init| && init[j].Measured? && init[j].utilization == Peak(init);
        assert w[j] == init[j];
      }
    }
  }

  /** The bucket's date is that of the last point of the window with a numeric utilization. */
  lemma {:induction false} LastMeasuredIsLast(w: seq<Sample>)
    ensures LastMeasured(w).None? <==> forall i :: 0 <= i < |w| ==> w[i].Unmeasured?
    ensures LastMeasured(w).Some? ==>
      exists j :: 0 <= j < |w| && w[j] == LastMeasured(w).value && w[j].Measured?
        && forall i :: j < i < |w| ==> w[i].Unmeasured?
  {
    if w != [] && w[|w| - 1].Unmeasured? {
      var init := w[..|w| - 1];
      LastMeasuredIsLast(init);
      forall i | 0 <= i < |w| - 1
        ensures w[i] == init[i]
      {
      }
    }
  }

  /** A window yields a bucket iff one of its points has a numeric utilization. */
  lemma ReduceSomeIff(w: seq<Sample>)
    ensures Reduce(w).Some? <==> exists i :: 0 <= i < |w| && w[i].Measured?
  {
    LastMeasuredIsLast(w);
  }

  /** The bucket date follows the last numeric point, not the one that reached the maximum. */
  lemma DateIsNotOfPeak()
    ensures Reduce([Measured("a", 0.9), Measured("b", 0.1)]) == Some(Bucket(0.9, "b"))
  {
    var w := [Measured("a", 0.9), Measured("b", 0.1)];
    var first := [Measured("a", 0.9)];
    assert w[..1] == first;
    assert first[..0] == [];
    assert Peak(first) == 0.9;
    assert Peak(w) == 0.9;
    assert LastMeasured(w) == Some(Measured("b", 0.1));
  }

  /**
   * Windows without a numeric point are skipped: there are as many buckets
   * as windows iff every window has one, and then bucket `k` is window `k`'s.
   */
  lemma {:induction false} BucketizeComplete(ws: seq<seq<Sample>>)
    ensures |Bucketize(ws)| == |ws| <==> forall k :: 0 <= k < |ws| ==> Reduce(ws[k]).Some?
    ensures |Bucketize(ws)| == |ws| ==>
      forall k :: 0 <= k < |ws| ==> Bucketize(ws)[k] == Reduce(ws[k]).value
  {
    if ws != [] {
      BucketizeComplete(ws[1..]);
      forall k | 1 <= k < |ws|
        ensures ws[k] == ws[1..][k - 1]
      {
      }
    }
  }
}
