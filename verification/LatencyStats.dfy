/** The latency histogram and its percentile (common/latency_stats.cpp). */
module LatencyStatistics {
  import opened Division

  const EXACT_RANGE_US: nat := 20_000

  predicate Ascending(t: seq<nat>) {
    forall i, j :: 0 <= i < j < |t| ==> t[i] <= t[j]
  }

  function Insert(t: seq<nat>, v: nat): seq<nat> {
    if |t| == 0 then [v]
    else if v <= t[0] then [v] + t
    else [t[0]] + Insert(t[1..], v)
  }

  /** The samples in ascending order. */
  function Sorted(samples: seq<nat>): seq<nat> {
    if |samples| == 0 then [] else Insert(Sorted(samples[..|samples| - 1]), samples[|samples| - 1])
  }

  function CountBelow(samples: seq<nat>, v: nat): (c: nat)
    ensures c <= |samples|
  {
    if |samples| == 0 then 0
    else CountBelow(samples[..|samples| - 1], v) + if samples[|samples| - 1] < v then 1 else 0
  }

  function Clip(v: nat): (b: nat)
    ensures b <= EXACT_RANGE_US
  {
    if v < EXACT_RANGE_US then v else EXACT_RANGE_US
  }

  /** How many samples fall into bucket b. */
  function InBucket(samples: seq<nat>, b: nat): nat {
    if |samples| == 0 then 0
    else InBucket(samples[..|samples| - 1], b) + if Clip(samples[|samples| - 1]) == b then 1 else 0
  }

  function Sum(samples: seq<nat>): nat {
    if |samples| == 0 then 0 else Sum(samples[..|samples| - 1]) + samples[|samples| - 1]
  }

  // ---- sorting

  lemma {:induction false} InsertElements(t: seq<nat>, v: nat)
    ensures multiset(Insert(t, v)) == multiset(t) + multiset{v}
    ensures |Insert(t, v)| == |t| + 1
  {
    if |t| > 0 && v > t[0] {
      InsertElements(t[1..], v);
      assert t == [t[0]] + t[1..];
    }
  }

  lemma InsertMembers(t: seq<nat>, v: nat, x: nat)
    ensures x in Insert(t, v) <==> x in t || x == v
  {
    InsertElements(t, v);
    assert x in Insert(t, v) <==> x in multiset(Insert(t, v));
  }

  lemma PrependAscending(x: nat, t: seq<nat>)
    requires Ascending(t) && forall y :: y in t ==> x <= y
    ensures Ascending([x] + t)
  {
    var r := [x] + t;
    forall i, j | 0 <= i < j < |r|
      ensures r[i] <= r[j]
    {
      assert r[j] == t[j - 1] && t[j - 1] in t;
      assert i > 0 ==> r[i] == t[i - 1];
    }
  }

  lemma {:induction false} InsertAscending(t: seq<nat>, v: nat)
    requires Ascending(t)
    ensures Ascending(Insert(t, v))
  {
    if |t| > 0 {
      assert forall y :: y in t ==> t[0] <= y;
      if v <= t[0] {
        PrependAscending(v, t);
      } else {
        InsertAscending(t[1..], v);
        forall y | y in Insert(t[1..], v)
          ensures t[0] <= y
        {
          InsertMembers(t[1..], v, y);
        }
        PrependAscending(t[0], Insert(t[1..], v));
      }
    }
  }

  lemma SplitLast(samples: seq<nat>)
    requires |samples| > 0
    ensures multiset(samples) == multiset(samples[..|samples| - 1]) + multiset{samples[|samples| - 1]}
  {
    assert samples == samples[..|samples| - 1] + [samples[|samples| - 1]];
  }

  lemma SortedStep(samples: seq<nat>)
    requires |samples| > 0
    ensures Sorted(samples) == Insert(Sorted(samples[..|samples| - 1]), samples[|samples| - 1])
  {
  }

  lemma SortedNothing()
    ensures Sorted([]) == [] && Ascending([])
  {
  }

  lemma {:induction false} SortedSorts(samples: seq<nat>)
    ensures Ascending(Sorted(samples)) && multiset(Sorted(samples)) == multiset(samples)
    ensures |Sorted(samples)| == |samples|
  {
    hide Ascending, Insert, Sorted;
    if |samples| > 0 {
      var n := |samples| - 1;
      SortedSorts(samples[..n]);
      InsertAscending(Sorted(samples[..n]), samples[n]);
      InsertElements(Sorted(samples[..n]), samples[n]);
      SplitLast(samples);
      SortedStep(samples);
    } else {
      SortedNothing();
      assert samples == [];
    }
  }

  lemma SortedMembers(samples: seq<nat>, x: nat)
    ensures x in samples <==> x in Sorted(samples)
  {
    SortedSorts(samples);
    assert x in samples <==> x in multiset(samples);
    assert x in Sorted(samples) <==> x in multiset(Sorted(samples));
  }

  lemma SortedEnds(samples: seq<nat>, min: nat, max: nat)
    requires |samples| > 0 && min in samples && max in samples
    requires forall x :: x in samples ==> min <= x <= max
    ensures |Sorted(samples)| == |samples|
    ensures Sorted(samples)[0] == min && Sorted(samples)[|samples| - 1] == max
  {
    hide Sorted, Insert;
    SortedSorts(samples);
    var t := Sorted(samples);
    SortedMembers(samples, t[0]);
    SortedMembers(samples, t[|t| - 1]);
    SortedMembers(samples, min);
    SortedMembers(samples, max);
  }

  lemma {:induction false} CountBelowAppend(a: seq<nat>, b: seq<nat>, v: nat)
    ensures CountBelow(a + b, v) == CountBelow(a, v) + CountBelow(b, v)
  {
    if |b| == 0 {
      assert a + b == a;
    } else {
      CountBelowAppend(a, b[..|b| - 1], v);
      assert (a + b)[..|a + b| - 1] == a + b[..|b| - 1];
    }
  }

  lemma CountBelowOne(x: nat, v: nat)
    ensures CountBelow([x], v) == if x < v then 1 else 0
  {
    assert [x][..0] == [];
  }

  lemma {:induction false} CountBelowInsert(t: seq<nat>, x: nat, v: nat)
    ensures CountBelow(Insert(t, x), v) == CountBelow(t, v) + if x < v then 1 else 0
  {
    CountBelowOne(x, v);
    if |t| > 0 {
      if x <= t[0] {
        CountBelowAppend([x], t, v);
      } else {
        CountBelowInsert(t[1..], x, v);
        CountBelowAppend([t[0]], Insert(t[1..], x), v);
        CountBelowAppend([t[0]], t[1..], v);
        assert t == [t[0]] + t[1..];
      }
    }
  }

  lemma {:induction false} CountBelowSorted(samples: seq<nat>, v: nat)
    ensures CountBelow(Sorted(samples), v) == CountBelow(samples, v)
  {
    if |samples| > 0 {
      CountBelowSorted(samples[..|samples| - 1], v);
      CountBelowInsert(Sorted(samples[..|samples| - 1]), samples[|samples| - 1], v);
    }
  }

  /** In an ascending list the elements below v are the first CountBelow of them. */
  lemma {:induction false} BelowIsPrefix(t: seq<nat>, v: nat, r: nat)
    requires Ascending(t) && r < |t|
    ensures t[r] < v <==> r < CountBelow(t, v)
  {
    var n := |t| - 1;
    if r < n {
      BelowIsPrefix(t[..n], v, r);
      AllBelow(t[..n], v);
    } else {
      AllBelow(t[..n], v);
    }
  }

  lemma {:induction false} AllBelow(t: seq<nat>, v: nat)
    ensures CountBelow(t, v) == |t| <==> forall k :: 0 <= k < |t| ==> t[k] < v
  {
    if |t| > 0 {
      AllBelow(t[..|t| - 1], v);
    }
  }

  // ---- buckets

  lemma {:induction false} BucketExtends(samples: seq<nat>, b: nat)
    requires b < EXACT_RANGE_US
    ensures CountBelow(samples, b + 1) == CountBelow(samples, b) + InBucket(samples, b)
  {
    if |samples| > 0 {
      BucketExtends(samples[..|samples| - 1], b);
    }
  }

  lemma {:induction false} LastBucket(samples: seq<nat>)
    ensures |samples| == CountBelow(samples, EXACT_RANGE_US) + InBucket(samples, EXACT_RANGE_US)
  {
    if |samples| > 0 {
      LastBucket(samples[..|samples| - 1]);
    }
  }

  lemma {:induction false} NothingBelowZero(samples: seq<nat>)
    ensures CountBelow(samples, 0) == 0
  {
    if |samples| > 0 {
      NothingBelowZero(samples[..|samples| - 1]);
    }
  }

  // ---- the percentile

  /** The rank floor((n - 1) * p + 0.5). */
  function Rank(n: nat, p: real): (r: nat)
    requires n > 0 && 0.0 < p < 1.0
    ensures r < n
  {
    RankBounds((n - 1) as real, p);
    ((n - 1) as real * p + 0.5).Floor
  }

  lemma RankBounds(m: real, p: real)
    requires m >= 0.0 && 0.0 < p < 1.0
    ensures 0.0 <= m * p <= m
  {
  }

  /** The percentile by sorting: the order statistic at the rank while it is inside the exact
      range, and the largest sample otherwise. */
  function Percentile(samples: seq<nat>, p: real): nat {
    if |samples| == 0 then 0
    else
      SortedSorts(samples);
      var t := Sorted(samples);
      if p <= 0.0 then t[0]
      else if p >= 1.0 then t[|t| - 1]
      else if t[Rank(|t|, p)] < EXACT_RANGE_US then t[Rank(|t|, p)]
      else t[|t| - 1]
  }

  /** The rank is (n - 1) * p rounded to the nearest integer, halves upwards. */
  lemma RankRounds(n: nat, p: real)
    requires n > 0 && 0.0 < p < 1.0
    ensures Rank(n, p) as real <= (n - 1) as real * p + 0.5 < (Rank(n, p) + 1) as real
  {
  }

  lemma LeastFirst(t: seq<nat>, x: nat)
    requires Ascending(t) && x in multiset(t)
    ensures |t| > 0 && t[0] <= x
  {
    assert x in t;
  }

  lemma TailSamples(t: seq<nat>)
    requires |t| > 0
    ensures multiset(t[1..]) == multiset(t) - multiset{t[0]}
  {
    assert t == [t[0]] + t[1..];
  }

  lemma SameLeast(s: seq<nat>, t: seq<nat>)
    requires Ascending(s) && Ascending(t) && multiset(s) == multiset(t) && |s| > 0
    ensures |t| > 0 && s[0] == t[0]
  {
    assert s[0] in multiset(s);
    LeastFirst(t, s[0]);
    assert t[0] in multiset(t);
    LeastFirst(s, t[0]);
  }

  lemma TailAscending(t: seq<nat>)
    requires Ascending(t) && |t| > 0
    ensures Ascending(t[1..])
  {
  }

  lemma SameSize(s: seq<nat>, t: seq<nat>)
    requires multiset(s) == multiset(t)
    ensures |s| == |t|
  {
    assert |s| == |multiset(s)| == |multiset(t)| == |t|;
  }

  /** Two ascending arrangements of the same samples are the same. */
  lemma {:induction false} SortedOnce(s: seq<nat>, t: seq<nat>)
    requires Ascending(s) && Ascending(t) && multiset(s) == multiset(t)
    ensures s == t
  {
    hide Ascending;
    SameSize(s, t);
    if |s| > 0 {
      SameLeast(s, t);
      TailSamples(s);
      TailSamples(t);
      TailAscending(s);
      TailAscending(t);
      SortedOnce(s[1..], t[1..]);
      assert s == [s[0]] + s[1..] && t == [t[0]] + t[1..];
    }
  }

  lemma RankUnique(n: nat, p: real, r: nat)
    requires n > 0 && 0.0 < p < 1.0 && r as real <= (n - 1) as real * p + 0.5 < (r + 1) as real
    ensures r == Rank(n, p)
  {
  }

  /** The percentile, with any ascending arrangement t of the samples: the least for p up to 0, the
      greatest from 1 on, and in between the sample whose rank is (n - 1) * p rounded to the nearest
      integer if it is below 20000, and the greatest otherwise. */
  lemma PercentileExactly(samples: seq<nat>, t: seq<nat>, p: real, r: nat)
    requires |samples| > 0 && Ascending(t) && multiset(t) == multiset(samples)
    requires 0.0 < p < 1.0 ==>
               r < |samples| && r as real <= (|samples| - 1) as real * p + 0.5 < (r + 1) as real
    ensures |t| == |samples|
    ensures Percentile(samples, p)
         == if p <= 0.0 then t[0]
            else if p >= 1.0 then t[|t| - 1]
            else if t[r] < 20000 then t[r]
            else t[|t| - 1]
  {
    hide Ascending, Sorted, Rank;
    SortedSorts(samples);
    SortedOnce(Sorted(samples), t);
    if 0.0 < p < 1.0 {
      RankUnique(|samples|, p, r);
    }
  }

  predicate AllWithin(samples: seq<nat>, min: nat, max: nat) {
    forall k :: 0 <= k < |samples| ==> min <= samples[k] <= max
  }

  lemma {:induction false} SumBounds(samples: seq<nat>, min: nat, max: nat)
    requires AllWithin(samples, min, max)
    ensures Multiple(min, |samples|) <= Sum(samples) <= Multiple(max, |samples|)
  {
    if |samples| > 0 {
      hide Multiple;
      var n := |samples| - 1;
      SumBounds(samples[..n], min, max);
      assert min <= samples[n] <= max;
      MultipleMore(min, n);
      MultipleMore(max, n);
    }
  }

  lemma MultipleMore(q: nat, n: nat)
    ensures Multiple(q, n + 1) == Multiple(q, n) + q
  {
  }

  lemma RankMonotone(n: nat, p: real, q: real)
    requires n > 0 && 0.0 < p <= q < 1.0
    ensures Rank(n, p) <= Rank(n, q)
  {
    RankScales((n - 1) as real, p, q);
  }

  lemma RankScales(m: real, p: real, q: real)
    requires m >= 0.0 && p <= q
    ensures m * p <= m * q
  {
  }

  /** The percentile is one of the samples, never below the least or above the greatest. */
  lemma PercentileIsSample(samples: seq<nat>, p: real)
    requires |samples| > 0
    ensures Percentile(samples, p) in samples
    ensures Percentile(samples, 0.0) <= Percentile(samples, p) <= Percentile(samples, 1.0)
  {
    SortedSorts(samples);
    var t := Sorted(samples);
    var v := Percentile(samples, p);
    assert v in t;
    assert v in multiset(t);
  }

  lemma PercentileMonotone(samples: seq<nat>, p: real, q: real)
    requires p <= q
    ensures Percentile(samples, p) <= Percentile(samples, q)
  {
    if |samples| > 0 {
      SortedSorts(samples);
      PercentileIsSample(samples, p);
      PercentileIsSample(samples, q);
      if 0.0 < p && q < 1.0 {
        RankMonotone(|samples|, p, q);
      }
    }
  }

  lemma SumNext(samples: seq<nat>, value: nat)
    ensures Sum(samples + [value]) == Sum(samples) + value
  {
    assert (samples + [value])[..|samples|] == samples;
  }

  lemma BucketNext(samples: seq<nat>, value: nat, b: nat)
    ensures InBucket(samples + [value], b)
         == InBucket(samples, b) + if b == (if value < EXACT_RANGE_US then value else EXACT_RANGE_US) then 1 else 0
  {
    assert (samples + [value])[..|samples|] == samples;
  }

  class LatencyStats {
    const buckets: array<nat>
    var count: nat
    var total: nat
    var min: nat
    var max: nat
    ghost var samples: seq<nat>

    ghost predicate Valid()
      reads this, buckets
    {
      && buckets.Length == EXACT_RANGE_US + 1
      && count == |samples|
      && total == Sum(samples)
      && (forall b :: 0 <= b <= EXACT_RANGE_US ==> buckets[b] == InBucket(samples, b))
      && (count > 0 ==> min in samples && max in samples)
      && (forall x :: x in samples ==> min <= x <= max)
    }

    constructor ()
      ensures Valid() && samples == [] && fresh(buckets)
    {
      buckets := new nat[EXACT_RANGE_US + 1](_ => 0);
      count, total, min, max := 0, 0, 0, 0;
      samples := [];
    }

    method Add(value: nat)
      requires Valid()
      modifies this, buckets
      ensures Valid() && samples == old(samples) + [value]
    {
      var bucket := if value < EXACT_RANGE_US then value else EXACT_RANGE_US;
      buckets[bucket] := buckets[bucket] + 1;
      count := count + 1;
      total := total + value;
      hide InBucket, Sum, Clip;
      ghost var before := samples;
      samples := samples + [value];
      SumNext(before, value);
      forall b | 0 <= b <= EXACT_RANGE_US
        ensures buckets[b] == InBucket(samples, b)
      {
        BucketNext(before, value, b);
      }
      if count == 1 {
        min, max := value, value;
        return;
      }
      min := if value < min then value else min;
      max := if value > max then value else max;
    }

    method Average() returns (r: nat)
      requires Valid()
      ensures count == 0 ==> r == 0
      ensures count > 0 ==> r * |samples| <= Sum(samples) < (r + 1) * |samples|
      ensures count > 0 ==> min <= r <= max
    {
      if count == 0 {
        return 0;
      }
      AverageBounds(samples, total, min, max);
      QuotientIsAverage(total, count);
      hide Quotient, Sum;
      r := Quotient(total, count);
    }

    /** The running-count scan over the histogram agrees with sorting. */
    method PercentileOf(p: real) returns (r: nat)
      requires Valid()
      ensures r == Percentile(samples, p)
    {
      if count > 0 {
        SortedEnds(samples, min, max);
      }
      if count == 0 || p <= 0.0 {
        return if count == 0 then 0 else min;
      }
      if p >= 1.0 {
        return max;
      }
      var rank := ((count - 1) as real * p + 0.5).Floor;
      assert rank == Rank(count, p);
      r := Scan(rank);
    }

    /** The loop of percentile. */
    method Scan(rank: nat) returns (r: nat)
      requires Valid() && rank < count
      ensures |Sorted(samples)| == count
      ensures r == if Sorted(samples)[rank] < EXACT_RANGE_US then Sorted(samples)[rank] else max
    {
      hide Sorted, InBucket, CountBelow;
      SortedSorts(samples);
      NothingBelowZero(samples);
      var cumulative := 0;
      r := max;
      for bucket := 0 to buckets.Length
        invariant bucket <= EXACT_RANGE_US ==> cumulative == CountBelow(samples, bucket)
        invariant bucket > EXACT_RANGE_US ==> cumulative == count
        invariant cumulative <= rank
      {
        RankAgainst(samples, bucket, rank);
        if bucket < EXACT_RANGE_US {
          BucketExtends(samples, bucket);
          RankAgainst(samples, bucket + 1, rank);
        } else {
          LastBucket(samples);
        }
        cumulative := cumulative + buckets[bucket];
        if cumulative > rank {
          return if bucket == EXACT_RANGE_US then max else bucket;
        }
      }
      // Every sample has been counted, so the scan has returned before it gets here.
      assert false;
    }
  }

  lemma MembersWithin(samples: seq<nat>, min: nat, max: nat)
    requires forall x :: x in samples ==> min <= x <= max
    ensures AllWithin(samples, min, max)
  {
    forall k | 0 <= k < |samples|
      ensures min <= samples[k] <= max
    {
      assert samples[k] in samples;
    }
  }

  lemma AverageBounds(samples: seq<nat>, total: nat, min: nat, max: nat)
    requires |samples| > 0 && total == Sum(samples) && forall x :: x in samples ==> min <= x <= max
    ensures min <= Quotient(total, |samples|) <= max
  {
    MembersWithin(samples, min, max);
    hide *;
    SumBounds(samples, min, max);
    QuotientBounds(total, |samples|, min, max);
  }

  lemma QuotientIsAverage(total: nat, count: nat)
    requires count > 0
    ensures Quotient(total, count) * count <= total < (Quotient(total, count) + 1) * count
  {
    Divided(total, count);
    MultipleNext(Quotient(total, count), count);
  }

  lemma QuotientBounds(total: nat, count: nat, min: nat, max: nat)
    requires count > 0 && Multiple(min, count) <= total <= Multiple(max, count)
    ensures min <= Quotient(total, count) <= max
  {
    hide Multiple, Quotient, Remainder;
    Divided(total, count);
    var q := Quotient(total, count);
    MultipleNext(q, count);
    if q < min {
      MultipleMonotone(q + 1, min, count);
    } else if max < q {
      MultipleMonotone(max + 1, q, count);
      MultipleNext(max, count);
    }
  }

  /** Where the order statistic at a rank lies relative to v. */
  lemma RankAgainst(samples: seq<nat>, v: nat, rank: nat)
    requires rank < |samples|
    ensures |Sorted(samples)| == |samples|
    ensures Sorted(samples)[rank] < v <==> rank < CountBelow(samples, v)
  {
    SortedSorts(samples);
    CountBelowSorted(samples, v);
    BelowIsPrefix(Sorted(samples), v, rank);
  }
}
