/**
 * The data path of the `CustomerCard` component
 * (frontend/src/components/CustomerCard.jsx): the raw transactions become a
 * timeline, the timeline becomes at most 120 buckets, and each bucket gets a
 * severity tier. Rendering is not modelled.
 */
module CustomerCard {
  import opened Options
  import opened Arith
  import opened Timeline
  import opened Bucketing
  import opened Severity

  /** The `maxBuckets` the card passes to `makeBuckets`. */
  const StripLength: nat := 120

  /** The timeline as `makeBuckets` sees it: every point has a numeric utilization. */
  function Samples(timeline: seq<Point>): seq<Sample> {
    seq(|timeline|, i requires 0 <= i < |timeline| => Measured(timeline[i].date, timeline[i].utilization))
  }

  /**
   * What the card computes before rendering: the timeline, whether there is
   * anything to draw, the buckets of the strip and the tier of each bucket.
   */
  method Card(data: RawData, creditLimit: real, toIso: int -> string)
    returns (timeline: seq<Point>, hasData: bool, buckets: seq<Bucket>, tiers: seq<Tier>)
    ensures timeline == TimelineOf(data, creditLimit, toIso)
    ensures hasData <==> |timeline| > 0
    ensures buckets == Buckets(Some(Samples(timeline)), StripLength)
    ensures |buckets| <= StripLength && |buckets| <= |timeline|
    ensures |buckets| == 0 <==> !hasData
    ensures |tiers| == |buckets|
    ensures forall k :: 0 <= k < |buckets| ==> tiers[k] == Classify(buckets[k].utilization)
  {
    timeline := TimelineOf(data, creditLimit, toIso);
    hasData := |timeline| > 0;
    buckets := MakeBuckets(Some(Samples(timeline)), StripLength);
    if hasData {
      StripCoversTimeline(timeline);
    }
    tiers := seq(|buckets|, k requires 0 <= k < |buckets| => Classify(buckets[k].utilization));
  }

  /**
   * On a timeline no window is skipped: with `size` the window size there is
   * one bucket per window, and bucket `k` covers points `k * size` up to
   * `k * size + size` (or the end), holds the largest utilization among them
   * and the date of the last of them.
   */
  lemma StripCoversTimeline(timeline: seq<Point>)
    requires timeline != []
    requires forall k :: 0 <= k < |timeline| ==> timeline[k].utilization >= 0.0
    ensures var size := WindowSize(|timeline|, StripLength);
      var bs := Buckets(Some(Samples(timeline)), StripLength);
      && 1 <= |bs| <= StripLength
      && (|bs| - 1) * size < |timeline| <= |bs| * size
      && forall k :: 0 <= k < |bs| ==> BucketOfPoints(bs[k], timeline, k * size, Min(k * size + size, |timeline|))
  {
    var s := Samples(timeline);
    var size := WindowSize(|s|, StripLength);
    assert |s| == |timeline| && s != [];
    assert Buckets(Some(s), StripLength) == Bucketize(Windows(s, size));
    WindowsCount(s, size);
    BucketCount(s, StripLength);
    WindowBuckets(timeline, size);
  }

  /** Every window of a timeline yields a bucket, the one of its stretch of points. */
  lemma WindowBuckets(timeline: seq<Point>, size: nat)
    requires size >= 1
    requires forall k :: 0 <= k < |timeline| ==> timeline[k].utilization >= 0.0
    ensures var ws := Windows(Samples(timeline), size);
      && |Bucketize(ws)| == |ws|
      && forall k :: 0 <= k < |ws| ==> BucketOfPoints(Bucketize(ws)[k], timeline, k * size, Min(k * size + size, |timeline|))
  {
    var ws := Windows(Samples(timeline), size);
    forall k | 0 <= k < |ws|
      ensures Reduce(ws[k]).Some?
      ensures BucketOfPoints(Reduce(ws[k]).value, timeline, k * size, Min(k * size + size, |timeline|))
    {
      WindowStart(Samples(timeline), size, k);
      SliceBucket(timeline, k * size, Min(k * size + size, |timeline|));
    }
    BucketizeComplete(ws);
  }

  /** `b` stands for points `lo` to `hi - 1`: it has the largest of their utilizations and the last one's date. */
  ghost predicate BucketOfPoints(b: Bucket, timeline: seq<Point>, lo: int, hi: int) {
    && 0 <= lo < hi <= |timeline|
    && b.date == timeline[hi - 1].date
    && (forall i :: lo <= i < hi ==> timeline[i].utilization <= b.utilization)
    && (exists i :: lo <= i < hi && timeline[i].utilization == b.utilization)
  }

  /** A non-empty stretch of a timeline reduces to the bucket of its maximum and its last date. */
  lemma SliceBucket(timeline: seq<Point>, lo: nat, hi: nat)
    requires lo < hi <= |timeline|
    requires forall k :: 0 <= k < |timeline| ==> timeline[k].utilization >= 0.0
    ensures Reduce(Samples(timeline)[lo..hi]).Some?
    ensures BucketOfPoints(Reduce(Samples(timeline)[lo..hi]).value, timeline, lo, hi)
  {
    var w := Samples(timeline)[lo..hi];
    assert forall j :: 0 <= j < |w| ==> w[j] == Measured(timeline[lo + j].date, timeline[lo + j].utilization);
    FullWindowBucket(w);
    var b := Reduce(w).value;
    forall i | lo <= i < hi
      ensures timeline[i].utilization <= b.utilization
    {
      assert w[i - lo].utilization == timeline[i].utilization;
    }
    var j :| 0 <= j < |w| && w[j].utilization == b.utilization;
    assert timeline[lo + j].utilization == b.utilization;
  }

  /** A non-empty window of non-negative numeric points yields the bucket of its maximum and its last date. */
  lemma FullWindowBucket(w: seq<Sample>)
    requires w != []
    requires forall i :: 0 <= i < |w| ==> w[i].Measured? && w[i].utilization >= 0.0
    ensures Reduce(w).Some?
    ensures Reduce(w).value.date == w[|w| - 1].date
    ensures forall i :: 0 <= i < |w| ==> w[i].utilization <= Reduce(w).value.utilization
    ensures exists i :: 0 <= i < |w| && w[i].utilization == Reduce(w).value.utilization
  {
    PeakIsMaximum(w);
    if Peak(w) == 0.0 {
      assert w[0].utilization == Peak(w);
    }
  }

  /** 240 points on a 120-bucket strip: 120 buckets, bucket `k` the larger of points `2k` and `2k + 1`, dated by the second. */
  lemma TwoPointsPerBucket(timeline: seq<Point>)
    requires |timeline| == 240
    requires forall k :: 0 <= k < |timeline| ==> timeline[k].utilization >= 0.0
    ensures var bs := Buckets(Some(Samples(timeline)), StripLength);
      && |bs| == 120
      && forall k :: 0 <= k < 120 ==>
           && bs[k].date == timeline[2 * k + 1].date
           && bs[k].utilization == Max(timeline[2 * k].utilization, timeline[2 * k + 1].utilization)
  {
    var bs := Buckets(Some(Samples(timeline)), StripLength);
    assert WindowSize(240, StripLength) == 2;
    StripCoversTimeline(timeline);
    forall k | 0 <= k < 120
      ensures bs[k].date == timeline[2 * k + 1].date
      ensures bs[k].utilization == Max(timeline[2 * k].utilization, timeline[2 * k + 1].utilization)
    {
      assert BucketOfPoints(bs[k], timeline, k * 2, Min(k * 2 + 2, 240));
    }
  }

  /**
   * A card with a single well-formed record and a limit of 1000: a one-point
   * timeline and a one-bucket strip holding that point's utilization and
   * date; fully available is 0 (low), fully used is 1 (critical), over the
   * limit is 0 (low).
   */
  lemma SingleSnapshotScenarios(m: real, d: string, toIso: int -> string)
    ensures var u := Utilization(1000.0, m);
      var timeline := TimelineOf(Array([Transaction(Number(m), Text(d))]), 1000.0, toIso);
      var bs := Buckets(Some(Samples(timeline)), StripLength);
      && timeline == [Point(d, m, u)]
      && bs == [Bucket(u, d)]
      && (m == 1000.0 ==> u == 0.0 && Classify(u) == Low)
      && (m == 0.0 ==> u == 1.0 && Classify(u) == Critical)
      && (m == 1500.0 ==> u == 0.0 && Classify(u) == Low)
  {
    var e := Transaction(Number(m), Text(d));
    var u := Utilization(1000.0, m);
    assert KeptEntries([e]) == [e] by {
      assert [e][1..] == [];
    }
    var timeline := TimelineOf(Array([e]), 1000.0, toIso);
    assert timeline == [Point(d, m, u)];
    var s := Samples(timeline);
    assert s == [Measured(d, u)];
    assert WindowSize(1, StripLength) == 1;
    assert Windows(s, 1) == [s];
    assert s[..0] == [];
    assert Peak(s) == u;
    assert Reduce(s) == Some(Bucket(u, d));
    var ws: seq<seq<Sample>> := [s];
    assert ws[1..] == [];
    assert Bucketize(ws) == [Bucket(u, d)];
  }
}
