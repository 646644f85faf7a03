/**
 A rolling 99th percentile over two epochs of power-of-two latency buckets. The ghost log remembers every sample, so
 that what the histogram still counts can be compared with what it was given.
 */
module RollingP99s {
  import opened Bytes

  const BUCKETS: nat := 22

  /** Floor of the binary logarithm, which the source takes from the count of leading zeros. */
  function Log2(n: nat): (l: nat)
    requires n >= 1
    ensures Pow2(l) <= n < Pow2(l + 1)
  {
    if n == 1 then 0 else 1 + Log2(n / 2)
  }

  function AtLeastOne(us: nat): nat { if us < 1 then 1 else us }

  function BucketIdx(us: nat): (i: nat)
    ensures i < BUCKETS
  {
    var l := Log2(AtLeastOne(us));
    if l < BUCKETS - 1 then l else BUCKETS - 1
  }

  lemma {:induction false} Pow2Grows(a: nat, b: nat)
    requires a <= b
    ensures Pow2(a) <= Pow2(b)
  {
    if a < b { Pow2Grows(a, b - 1); }
  }

  lemma {:induction false} Log2Grows(a: nat, b: nat)
    requires 1 <= a <= b
    ensures Log2(a) <= Log2(b)
  {
    if a > 1 { Log2Grows(a / 2, b / 2); }
  }

  lemma BucketGrows(a: nat, b: nat)
    requires a <= b
    ensures BucketIdx(a) <= BucketIdx(b)
  {
    Log2Grows(AtLeastOne(a), AtLeastOne(b));
  }

  /** A bucket's upper bound is within a factor of two above its latencies, below the last bucket's end. */
  lemma BucketBounds(us: nat)
    ensures Pow2(BucketIdx(us)) <= AtLeastOne(us) && (us < Pow2(BUCKETS) ==> AtLeastOne(us) < Pow2(BucketIdx(us) + 1))
  {
    var l := Log2(AtLeastOne(us));
    if l >= BUCKETS - 1 {
      Pow2Grows(BUCKETS - 1, l);
      assert 1 < Pow2(BUCKETS) by { Pow2Grows(1, BUCKETS); assert Pow2(1) == 2 * Pow2(0); }
    }
  }

  // ----- samples and ranks

  datatype Sample = Sample(lat: nat, time: nat)

  /** How many of samples lo to hi fall in bucket i. */
  function InBucket(log: seq<Sample>, lo: nat, hi: nat, i: nat): nat
    requires hi <= |log|
  {
    if hi <= lo then 0 else InBucket(log, lo, hi - 1, i) + (if BucketIdx(log[hi - 1].lat) == i then 1 else 0)
  }

  /** How many fall in buckets below i. */
  function BelowBucket(log: seq<Sample>, lo: nat, hi: nat, i: nat): nat
    requires hi <= |log|
  {
    if hi <= lo then 0 else BelowBucket(log, lo, hi - 1, i) + (if BucketIdx(log[hi - 1].lat) < i then 1 else 0)
  }

  /** How many have a latency of at most v. */
  function AtMost(log: seq<Sample>, lo: nat, hi: nat, v: nat): nat
    requires hi <= |log|
  {
    if hi <= lo then 0 else AtMost(log, lo, hi - 1, v) + (if log[hi - 1].lat <= v then 1 else 0)
  }

  /** v is the rank-th smallest latency: at least rank samples are no larger, and fewer than rank are smaller. */
  ghost predicate IsRank(log: seq<Sample>, lo: nat, hi: nat, rank: nat, v: nat)
    requires hi <= |log|
  {
    && (exists j :: lo <= j < hi && log[j].lat == v)
    && AtMost(log, lo, hi, v) >= rank && (v > 0 ==> AtMost(log, lo, hi, v - 1) < rank)
  }

  lemma {:induction false} InBucketExtends(log: seq<Sample>, x: Sample, lo: nat, hi: nat, i: nat)
    requires hi <= |log|
    ensures InBucket(log + [x], lo, hi, i) == InBucket(log, lo, hi, i)
  {
    if hi > lo { InBucketExtends(log, x, lo, hi - 1, i); }
  }

  lemma {:induction false} InBucketSplit(log: seq<Sample>, lo: nat, mid: nat, hi: nat, i: nat)
    requires lo <= mid <= hi <= |log|
    ensures InBucket(log, lo, hi, i) == InBucket(log, lo, mid, i) + InBucket(log, mid, hi, i)
  {
    if hi > mid { InBucketSplit(log, lo, mid, hi - 1, i); }
  }

  lemma {:induction false} BelowNext(log: seq<Sample>, lo: nat, hi: nat, i: nat)
    requires hi <= |log|
    ensures BelowBucket(log, lo, hi, i + 1) == BelowBucket(log, lo, hi, i) + InBucket(log, lo, hi, i)
  {
    hide BucketIdx;
    if hi > lo { BelowNext(log, lo, hi - 1, i); }
  }

  lemma {:induction false} BelowEnds(log: seq<Sample>, lo: nat, hi: nat)
    requires lo <= hi <= |log|
    ensures BelowBucket(log, lo, hi, 0) == 0 && BelowBucket(log, lo, hi, BUCKETS) == hi - lo
  {
    if hi > lo { BelowEnds(log, lo, hi - 1); }
  }

  /** Latencies up to v lie in buckets up to v's, and buckets below v's hold only latencies below v. */
  lemma {:induction false} RankBuckets(log: seq<Sample>, lo: nat, hi: nat, v: nat)
    requires hi <= |log|
    ensures BelowBucket(log, lo, hi, BucketIdx(v) + 1) >= AtMost(log, lo, hi, v)
    ensures v > 0 ==> BelowBucket(log, lo, hi, BucketIdx(v)) <= AtMost(log, lo, hi, v - 1)
    ensures v == 0 ==> BelowBucket(log, lo, hi, BucketIdx(v)) == 0
  {
    if hi > lo {
      RankBuckets(log, lo, hi - 1, v);
      if log[hi - 1].lat <= v { BucketGrows(log[hi - 1].lat, v); } else { BucketGrows(v, log[hi - 1].lat); }
    }
  }

  lemma {:induction false} BelowGrows(log: seq<Sample>, lo: nat, hi: nat, i: nat, j: nat)
    requires hi <= |log| && i <= j
    ensures BelowBucket(log, lo, hi, i) <= BelowBucket(log, lo, hi, j)
  {
    hide BucketIdx;
    if hi > lo { BelowGrows(log, lo, hi - 1, i, j); }
  }

  /** The first bucket at which the running total reaches the rank is the bucket of the rank's latency. */
  lemma RankInBucket(log: seq<Sample>, lo: nat, hi: nat, rank: nat, v: nat, i: nat)
    requires hi <= |log| && IsRank(log, lo, hi, rank, v) && rank >= 1
    requires BelowBucket(log, lo, hi, i) < rank <= BelowBucket(log, lo, hi, i + 1)
    ensures i == BucketIdx(v)
  {
    RankBuckets(log, lo, hi, v);
    if i < BucketIdx(v) { BelowGrows(log, lo, hi, i + 1, BucketIdx(v)); }
    if i > BucketIdx(v) { BelowGrows(log, lo, hi, BucketIdx(v) + 1, i); }
  }

  lemma {:induction false} AtMostAll(log: seq<Sample>, lo: nat, hi: nat, v: nat)
    requires lo <= hi <= |log| && forall j :: lo <= j < hi ==> log[j].lat <= v
    ensures AtMost(log, lo, hi, v) == hi - lo
  {
    if hi > lo { AtMostAll(log, lo, hi - 1, v); }
  }

  lemma {:induction false} AtMostNone(log: seq<Sample>, lo: nat, hi: nat, v: nat)
    requires hi <= |log| && forall j :: lo <= j < hi ==> log[j].lat != v
    ensures v > 0 ==> AtMost(log, lo, hi, v) == AtMost(log, lo, hi, v - 1)
    ensures v == 0 ==> AtMost(log, lo, hi, v) == 0
  {
    if hi > lo { AtMostNone(log, lo, hi - 1, v); }
  }

  function Largest(log: seq<Sample>, lo: nat, hi: nat): (m: nat)
    requires hi <= |log|
    ensures forall j :: lo <= j < hi ==> log[j].lat <= m
  {
    if hi <= lo then 0
    else var m := Largest(log, lo, hi - 1); if log[hi - 1].lat > m then log[hi - 1].lat else m
  }

  /** There is a rank-th smallest latency for every rank among the samples. */
  lemma RankExists(log: seq<Sample>, lo: nat, hi: nat, rank: nat) returns (v: nat)
    requires lo < hi <= |log| && 1 <= rank <= hi - lo
    ensures IsRank(log, lo, hi, rank, v)
  {
    AtMostAll(log, lo, hi, Largest(log, lo, hi));
    v := 0;
    while AtMost(log, lo, hi, v) < rank
      invariant v <= Largest(log, lo, hi)
      invariant v > 0 ==> AtMost(log, lo, hi, v - 1) < rank
      decreases Largest(log, lo, hi) - v
    {
      v := v + 1;
    }
    if forall j :: lo <= j < hi ==> log[j].lat != v { AtMostNone(log, lo, hi, v); }
  }

  /** Ceiling of 99 percent. */
  function Target(total: nat): (t: nat)
    ensures if total == 0 then t == 0 else 1 <= t <= total
    ensures 99 * total <= 100 * t < 99 * total + 100
  {
    (total * 99 + 99) / 100
  }

  /** v is the nearest-rank 99th percentile of samples lo to hi, and u bounds it from above within a factor of two. */
  ghost predicate P99Bound(log: seq<Sample>, lo: nat, hi: nat, v: nat, u: nat)
    requires lo <= hi <= |log|
  {
    && IsRank(log, lo, hi, Target(hi - lo), v)
    && u <= 2 * AtLeastOne(v) && (v < Pow2(BUCKETS) ==> AtLeastOne(v) < u)
  }

  /** The nearest-rank 99th percentile exists, and u bounds it. */
  ghost predicate BoundsP99(log: seq<Sample>, lo: nat, hi: nat, u: nat)
    requires lo <= hi <= |log|
  {
    && (exists v: nat :: P99Bound(log, lo, hi, v, u))
    && forall v: nat :: IsRank(log, lo, hi, Target(hi - lo), v) ==> P99Bound(log, lo, hi, v, u)
  }

  /** One sample more falls into its bucket and leaves the counts of the others, and of the earlier epoch, alone. */
  lemma LogExtends(log: seq<Sample>, x: Sample, first: nat, mid: nat)
    requires first <= mid <= |log|
    ensures forall i :: InBucket(log + [x], mid, |log| + 1, i)
                        == InBucket(log, mid, |log|, i) + (if i == BucketIdx(x.lat) then 1 else 0)
    ensures forall i :: InBucket(log + [x], first, mid, i) == InBucket(log, first, mid, i)
  {
    hide BucketIdx;
    forall i
      ensures InBucket(log + [x], mid, |log| + 1, i) == InBucket(log, mid, |log|, i) + (if i == BucketIdx(x.lat) then 1 else 0)
    {
      InBucketExtends(log, x, mid, |log|, i);
      assert (log + [x])[|log|] == x;
    }
    forall i ensures InBucket(log + [x], first, mid, i) == InBucket(log, first, mid, i) {
      InBucketExtends(log, x, first, mid, i);
    }
  }

  /** Forgotten samples are at least a window old; each epoch's samples fall between its bounds. */
  ghost predicate AgesOf(log: seq<Sample>, first: nat, mid: nat, epochStart: nat, now: nat, window: nat) {
    && (forall j :: 0 <= j < first && j < |log| ==> log[j].time + window <= now)
    && (forall j :: first <= j < mid && j < |log| ==> log[j].time <= epochStart < log[j].time + 2 * window)
    && (forall j :: mid <= j < |log| ==> epochStart <= log[j].time <= now && (log[j].time < epochStart + window || window == 0))
  }

  /** A sample taken now joins the current epoch. */
  lemma AgesPush(log: seq<Sample>, first: nat, mid: nat, epochStart: nat, now: nat, window: nat, lat: nat)
    requires AgesOf(log, first, mid, epochStart, now, window) && first <= mid <= |log|
    requires epochStart <= now && (now < epochStart + window || window == 0)
    ensures AgesOf(log + [Sample(lat, now)], first, mid, epochStart, now, window)
  {
  }

  class RollingP99 {
    const window: nat
    const minSamples: nat
    var cur: nat
    var epochStart: nat
    const buckets: array2<nat>
    const counts: array<nat>
    ghost var log: seq<Sample>
    ghost var first: nat
    ghost var mid: nat
    ghost var now: nat

    /** The current epoch counts the log from mid on, the other one the log from first to mid. */
    ghost predicate Valid()
      reads this, buckets, counts
    {
      && cur < 2 && buckets.Length0 == 2 && buckets.Length1 == BUCKETS && counts.Length == 2
      && first <= mid <= |log| && epochStart <= now
      && Holds(cur, mid, |log|) && Holds(1 - cur, first, mid) && Ages()
    }

    /** Epoch e counts samples lo to hi of the log. */
    ghost predicate Holds(e: nat, lo: nat, hi: nat)
      requires e < 2 && buckets.Length0 == 2 && buckets.Length1 == BUCKETS && counts.Length == 2 && lo <= hi <= |log|
      reads this, buckets, counts
    {
      counts[e] == hi - lo && forall i :: 0 <= i < BUCKETS ==> buckets[e, i] == InBucket(log, lo, hi, i)
    }

    ghost predicate Ages()
      reads this
    {
      AgesOf(log, first, mid, epochStart, now, window)
    }

    constructor (window: nat, minSamples: nat)
      ensures Valid() && fresh(buckets) && fresh(counts)
      ensures this.window == window && this.minSamples == minSamples && log == [] && now == 0
    {
      this.window, this.minSamples, cur, epochStart := window, minSamples, 0, 0;
      buckets := new nat[2, BUCKETS]((e, i) => 0);
      counts := new nat[2](e => 0);
      log, first, mid, now := [], 0, 0, 0;
    }

    /** Zero one epoch. */
    method Clear(e: nat)
      requires e < 2 && buckets.Length0 == 2 && buckets.Length1 == BUCKETS && counts.Length == 2
      modifies buckets, counts
      ensures counts[e] == 0 && forall o :: 0 <= o < 2 && o != e ==> counts[o] == old(counts[o])
      ensures forall i :: 0 <= i < BUCKETS ==> buckets[e, i] == 0
      ensures forall o, i :: 0 <= i < BUCKETS && 0 <= o < 2 && o != e ==> buckets[o, i] == old(buckets[o, i])
    {
      var i := 0;
      while i < BUCKETS
        invariant i <= BUCKETS && forall o :: 0 <= o < 2 && o != e ==> counts[o] == old(counts[o])
        invariant forall k :: 0 <= k < i ==> buckets[e, k] == 0
        invariant forall o, k :: 0 <= k < BUCKETS && 0 <= o < 2 && o != e ==> buckets[o, k] == old(buckets[o, k])
      {
        buckets[e, i] := 0;
        i := i + 1;
      }
      counts[e] := 0;
    }

    /** Start a new epoch once the current one is a window old, dropping both after two windows. */
    method MaybeRotate(t: nat)
      requires Valid() && now <= t
      modifies this, buckets, counts
      ensures Valid() && now == t && log == old(log) && (t - epochStart < window || (window == 0 && first == |log|))
      ensures epochStart == if t - old(epochStart) < window then old(epochStart) else t
    {
      now := t;
      if t - epochStart < window { return; }
      var staleBoth := t - epochStart >= 2 * window;
      var next := 1 - cur;
      ghost var lo := mid;
      Clear(next);
      cur := next;
      first, mid := mid, |log|;
      assert Holds(next, |log|, |log|) && Holds(1 - next, lo, |log|);
      if staleBoth {
        Clear(1 - next);
        first := |log|;
        assert Holds(next, |log|, |log|) && Holds(1 - next, |log|, |log|);
      }
      epochStart := t;
    }

    method RecordAt(lat: nat, t: nat)
      requires Valid() && now <= t
      modifies this, buckets, counts
      ensures Valid() && now == t && log == old(log) + [Sample(lat, t)]
    {
      MaybeRotate(t);
      hide InBucket;
      hide BucketIdx;
      var b := BucketIdx(lat);
      ghost var was, x := log, Sample(lat, t);
      LogExtends(was, x, first, mid);
      AgesPush(was, first, mid, epochStart, now, window, lat);
      hide AgesOf;
      buckets[cur, b] := buckets[cur, b] + 1;
      counts[cur] := counts[cur] + 1;
      log := was + [x];
      assert Holds(cur, mid, |log|) && Holds(1 - cur, first, mid);
    }


    /**
     The bound of the bucket holding the nearest-rank 99th percentile of the samples still counted, or nothing while
     there are fewer than the minimum.
     */
    method Percentile() returns (r: Option<nat>)
      requires Valid()
      ensures r.None? <==> |log| - first < minSamples
      ensures r.Some? && |log| > first ==> BoundsP99(log, first, |log|, r.value)
    {
      var total := counts[0] + counts[1];
      assert total == |log| - first;
      if total < minSamples { return None; }
      var target := Target(total);
      var cum := 0;
      var i := 0;
      BelowEnds(log, first, |log|);
      hide Target;
      hide BoundsP99;
      hide IsRank;
      hide BelowBucket;
      hide Ages;
      hide Holds;
      hide Pow2;
      hide InBucket;
      while i < BUCKETS
        invariant i <= BUCKETS && cum == BelowBucket(log, first, |log|, i)
        invariant total > 0 ==> cum < target
        invariant total == 0 ==> i == 0
      {
        BucketTotal(i);
        BelowNext(log, first, |log|, i);
        cum := cum + buckets[0, i] + buckets[1, i];
        if cum >= target {
          if total > 0 { InBound(target, i); }
          return Some(Pow2(i + 1));
        }
        i := i + 1;
      }
      assert false;
      r := None;
    }

    lemma BucketTotal(i: nat)
      requires Valid() && i < BUCKETS
      ensures buckets[0, i] + buckets[1, i] == InBucket(log, first, |log|, i)
    {
      InBucketSplit(log, first, mid, |log|, i);
    }

    lemma InBound(target: nat, i: nat)
      requires first <= |log| && target == Target(|log| - first) >= 1
      requires BelowBucket(log, first, |log|, i) < target <= BelowBucket(log, first, |log|, i + 1)
      ensures BoundsP99(log, first, |log|, Pow2(i + 1))
    {
      forall q: nat | IsRank(log, first, |log|, target, q) ensures P99Bound(log, first, |log|, q, Pow2(i + 1)) {
        RankInBucket(log, first, |log|, target, q, i);
        BucketBounds(q);
      }
      var v := RankExists(log, first, |log|, target);
      assert P99Bound(log, first, |log|, v, Pow2(i + 1));
    }

    /** The percentile at time t: every counted sample is less than three windows old, every forgotten one at least one. */
    method P99At(t: nat) returns (r: Option<nat>)
      requires Valid() && now <= t
      modifies this, buckets, counts
      ensures Valid() && now == t && log == old(log)
      ensures r.None? <==> |log| - first < minSamples
      ensures forall j :: 0 <= j < first ==> log[j].time + window <= t
      ensures forall j :: first <= j < |log| ==> t < log[j].time + 3 * window
      ensures r.Some? && |log| > first ==> BoundsP99(log, first, |log|, r.value)
    {
      MaybeRotate(t);
      r := Percentile();
    }
  }
}
