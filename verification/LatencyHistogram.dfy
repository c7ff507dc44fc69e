/** The fixed-memory latency histogram of the flatbuffers benchmark client. */
module LatencyHistogram {

  const SUB_BITS: nat := 7
  const SUB: nat := 128
  const BUCKETS: nat := 3328 // kSub + (32 - kSubBits) * kSub
  const LIMIT: nat := 0x1_0000_0000

  function Pow2(n: nat): (p: nat)
    ensures p > 0
  {
    if n == 0 then 1 else 2 * Pow2(n - 1)
  }

  lemma {:induction false} Pow2Monotone(a: nat, b: nat)
    requires a <= b
    ensures Pow2(a) <= Pow2(b)
    ensures a < b ==> 2 * Pow2(a) <= Pow2(b)
    decreases b
  {
    if a < b {
      Pow2Monotone(a, b - 1);
    }
  }

  lemma {:induction false} Pow2SubBits(n: nat)
    ensures Pow2(n + SUB_BITS) == SUB * Pow2(n)
  {
    assert Pow2(n + 7) == 2 * Pow2(n + 6) == 4 * Pow2(n + 5) == 8 * Pow2(n + 4);
    assert Pow2(n + 4) == 2 * Pow2(n + 3) == 4 * Pow2(n + 2) == 8 * Pow2(n + 1);
  }

  /** 31 - __builtin_clz(us): the position of the highest set bit. */
  function HighBit(us: nat): (e: nat)
    requires us > 0
    ensures Pow2(e) <= us < 2 * Pow2(e)
  {
    if us == 1 then 0 else 1 + HighBit(us / 2)
  }

  /** How far a sample is shifted to leave its eight leading bits. */
  function Shift(us: nat): (k: nat)
    requires us >= SUB
    ensures SUB * Pow2(k) <= us < 2 * SUB * Pow2(k)
  {
    var high := HighBit(us);
    assert high >= SUB_BITS by {
      Pow2SubBits(0);
      if high < SUB_BITS {
        Pow2Monotone(high, SUB_BITS);
      }
    }
    Pow2SubBits(high - SUB_BITS);
    high - SUB_BITS
  }

  lemma ShiftUnique(us: nat, k: nat)
    requires us >= SUB && SUB * Pow2(k) <= us < 2 * SUB * Pow2(k)
    ensures Shift(us) == k
  {
    if Shift(us) < k {
      Pow2Monotone(Shift(us), k);
    } else if k < Shift(us) {
      Pow2Monotone(k, Shift(us));
    }
  }

  lemma ShiftMonotone(us: nat, vs: nat)
    requires SUB <= us <= vs
    ensures Shift(us) <= Shift(vs)
  {
    if Shift(vs) < Shift(us) {
      Pow2Monotone(Shift(vs), Shift(us));
    }
  }

  lemma {:induction false} MulCompare(a: nat, b: nat, d: nat)
    requires d > 0
    ensures a < b <==> a * d < b * d
    ensures a <= b <==> a * d <= b * d
  {
    if a < b {
      assert b * d == a * d + (b - a) * d;
    } else {
      assert a * d == b * d + (a - b) * d;
    }
  }

  lemma Quotient(us: nat, d: nat, q: nat)
    requires d > 0
    ensures us / d == q <==> q * d <= us < (q + 1) * d
  {
    MulCompare(q, us / d + 1, d);
    MulCompare(us / d, q + 1, d);
  }

  /** The eight leading bits of a sample. */
  function Mantissa(us: nat): (q: nat)
    requires us >= SUB
    ensures SUB <= q < 2 * SUB
    ensures q * Pow2(Shift(us)) <= us < (q + 1) * Pow2(Shift(us))
  {
    var d := Pow2(Shift(us));
    Quotient(us, d, us / d);
    MulCompare(SUB, us / d + 1, d);
    MulCompare(us / d, 2 * SUB, d);
    us / d
  }

  function IndexOf(us: nat): nat {
    if us < SUB then us else SUB + Shift(us) * SUB + (Mantissa(us) - SUB)
  }

  function BucketShift(i: nat): nat
    requires i >= SUB
  {
    (i - SUB) / SUB
  }

  function BucketMantissa(i: nat): nat
    requires i >= SUB
  {
    SUB + (i - SUB) % SUB
  }

  function UpperBound(i: nat): nat {
    if i < SUB then i
    else
      var top := (BucketMantissa(i) + 1) * Pow2(BucketShift(i)) - 1;
      if top < LIMIT then top else LIMIT - 1
  }

  function LowerBound(i: nat): nat {
    if i < SUB then i else BucketMantissa(i) * Pow2(BucketShift(i))
  }

  lemma IndexParts(us: nat)
    requires us >= SUB
    ensures IndexOf(us) >= SUB
    ensures BucketShift(IndexOf(us)) == Shift(us) && BucketMantissa(IndexOf(us)) == Mantissa(us)
  {
  }

  /** kBuckets buckets suffice for every 32-bit sample. */
  lemma IndexInRange(us: nat)
    requires us < LIMIT
    ensures IndexOf(us) < BUCKETS
  {
    if us >= SUB && Shift(us) >= 25 {
      Pow2Monotone(25, Shift(us));
      Pow2Is25();
    }
  }

  lemma Pow2Is25()
    ensures Pow2(24) == 0x100_0000 && Pow2(25) == 0x200_0000
  {
    Pow2SubBits(0);
    Pow2SubBits(7);
    Pow2SubBits(14);
    assert Pow2(24) == 2 * Pow2(23) == 4 * Pow2(22) == 8 * Pow2(21);
  }

  /** Bucket i holds exactly the samples between its bounds: the buckets partition the samples. */
  lemma Partition(us: nat, i: nat)
    requires us < LIMIT && i < BUCKETS
    ensures IndexOf(us) == i <==> LowerBound(i) <= us <= UpperBound(i)
  {
    if i >= SUB {
      var k, m := BucketShift(i), BucketMantissa(i);
      TopInRange(i);
      if us >= SUB {
        IndexParts(us);
        if LowerBound(i) <= us <= UpperBound(i) {
          MulBounds(m, Pow2(k));
          ShiftUnique(us, k);
          Quotient(us, Pow2(k), m);
          Quotient(us, Pow2(k), Mantissa(us));
        }
      } else {
        MulBounds(m, Pow2(k));
      }
    } else if us >= SUB {
      IndexParts(us);
    }
  }

  lemma MulBounds(m: nat, p: nat)
    requires SUB <= m < 2 * SUB && p > 0
    ensures SUB * p <= m * p && (m + 1) * p <= 2 * SUB * p && m * p >= SUB
  {
    MulCompare(SUB, m, p);
    MulCompare(m + 1, 2 * SUB, p);
  }

  /** The cap in UpperBound is never the smaller. */
  lemma TopInRange(i: nat)
    requires SUB <= i < BUCKETS
    ensures UpperBound(i) == (BucketMantissa(i) + 1) * Pow2(BucketShift(i)) - 1 < LIMIT
  {
    var k, m := BucketShift(i), BucketMantissa(i);
    assert k <= 24;
    Pow2Is25();
    Pow2Monotone(k, 24);
    assert (m + 1) * Pow2(k) <= 256 * Pow2(24);
  }

  lemma IndexMonotone(us: nat, vs: nat)
    requires us <= vs < LIMIT
    ensures IndexOf(us) <= IndexOf(vs)
  {
    if us >= SUB {
      ShiftMonotone(us, vs);
      if Shift(us) == Shift(vs) {
        MulCompare(Mantissa(us), Mantissa(vs) + 1, Pow2(Shift(us)));
      }
    } else if vs >= SUB {
      IndexParts(vs);
    }
  }

  lemma UpperMonotone(i: nat, j: nat)
    requires i <= j < BUCKETS
    ensures UpperBound(i) <= UpperBound(j)
  {
    if UpperBound(j) < UpperBound(i) {
      BoundsInBucket(i);
      BoundsInBucket(j);
      IndexMonotone(UpperBound(j), UpperBound(i));
    }
  }

  lemma BoundsInBucket(i: nat)
    requires i < BUCKETS
    ensures UpperBound(i) < LIMIT && IndexOf(UpperBound(i)) == i
  {
    if i >= SUB {
      TopInRange(i);
      assert (BucketMantissa(i) + 1) * Pow2(BucketShift(i)) - 1 >= BucketMantissa(i) * Pow2(BucketShift(i));
    }
    Partition(UpperBound(i), i);
  }

  /** A sample's bucket ends at most one part in 128 above it. */
  lemma UpperAccuracy(us: nat)
    requires us < LIMIT
    ensures us <= UpperBound(IndexOf(us)) <= us + us / 128
  {
    IndexInRange(us);
    Partition(us, IndexOf(us));
    if us >= SUB {
      IndexParts(us);
      TopInRange(IndexOf(us));
      var p := Pow2(Shift(us));
      assert (Mantissa(us) + 1) * p == Mantissa(us) * p + p;
    }
  }

  // The samples in order, and what the buckets know of them.

  predicate Ascending(s: seq<nat>) {
    |s| < 2 || (s[|s| - 2] <= s[|s| - 1] && Ascending(s[..|s| - 1]))
  }

  lemma {:induction false} AscendingPair(s: seq<nat>, i: nat, j: nat)
    requires Ascending(s) && i <= j < |s|
    ensures s[i] <= s[j]
  {
    if j < |s| - 1 {
      AscendingPair(s[..|s| - 1], i, j);
    } else if i < j {
      AscendingPair(s[..|s| - 1], i, j - 1);
    }
  }

  function Insert(s: seq<nat>, x: nat): seq<nat> {
    if s == [] || s[|s| - 1] <= x then s + [x] else Insert(s[..|s| - 1], x) + [s[|s| - 1]]
  }

  /** The samples in sorted order. */
  function Ordered(s: seq<nat>): seq<nat> {
    if s == [] then [] else Insert(Ordered(s[..|s| - 1]), s[|s| - 1])
  }

  lemma {:induction false} InsertOrdered(s: seq<nat>, x: nat)
    requires Ascending(s)
    ensures var t := Insert(s, x);
            && Ascending(t) && |t| == |s| + 1
            && t[|s|] == (if s != [] && s[|s| - 1] > x then s[|s| - 1] else x)
  {
    var t := Insert(s, x);
    if s == [] || s[|s| - 1] <= x {
      assert t[..|t| - 1] == s;
    } else {
      InsertOrdered(s[..|s| - 1], x);
      assert t[..|t| - 1] == Insert(s[..|s| - 1], x);
    }
  }

  lemma {:induction false} InsertMultiset(s: seq<nat>, x: nat)
    ensures multiset(Insert(s, x)) == multiset(s) + multiset{x}
  {
    if s != [] && s[|s| - 1] > x {
      InsertMultiset(s[..|s| - 1], x);
      assert s == s[..|s| - 1] + [s[|s| - 1]];
    }
  }

  lemma {:induction false} OrderedIsSorted(s: seq<nat>)
    ensures Ascending(Ordered(s)) && |Ordered(s)| == |s|
  {
    if s != [] {
      OrderedIsSorted(s[..|s| - 1]);
      InsertOrdered(Ordered(s[..|s| - 1]), s[|s| - 1]);
    }
  }

  lemma {:induction false} OrderedIsPermutation(s: seq<nat>)
    ensures multiset(Ordered(s)) == multiset(s)
  {
    if s != [] {
      OrderedIsPermutation(s[..|s| - 1]);
      InsertMultiset(Ordered(s[..|s| - 1]), s[|s| - 1]);
      InitMultiset(s);
    }
  }

  lemma InitMultiset(s: seq<nat>)
    requires s != []
    ensures multiset(s) == multiset(s[..|s| - 1]) + multiset{s[|s| - 1]}
  {
    assert s == s[..|s| - 1] + [s[|s| - 1]];
  }

  /** Sorted order is unique. */
  lemma {:induction false} AscendingUnique(s: seq<nat>, t: seq<nat>)
    requires Ascending(s) && Ascending(t) && multiset(s) == multiset(t)
    ensures s == t
  {
    assert |s| == |multiset(s)| == |multiset(t)| == |t|;
    if s != [] {
      SameLast(s, t);
      InitMultiset(s);
      InitMultiset(t);
      var a, b := s[..|s| - 1], t[..|t| - 1];
      assert multiset(a) == multiset(s) - multiset{s[|s| - 1]} == multiset(b);
      AscendingUnique(a, b);
      assert s == a + [s[|s| - 1]] && t == b + [t[|t| - 1]];
    }
  }

  lemma SameLast(s: seq<nat>, t: seq<nat>)
    requires s != [] && t != [] && Ascending(s) && Ascending(t) && multiset(s) == multiset(t)
    ensures s[|s| - 1] == t[|t| - 1]
  {
    var a, b := s[|s| - 1], t[|t| - 1];
    assert a in multiset(t) && b in multiset(s);
    var i :| 0 <= i < |t| && t[i] == a;
    var j :| 0 <= j < |s| && s[j] == b;
    AscendingPair(t, i, |t| - 1);
    AscendingPair(s, j, |s| - 1);
  }

  /** How many samples fall into bucket i, and into buckets up to i. */
  function Hits(s: seq<nat>, i: int): nat {
    if s == [] then 0 else Hits(s[..|s| - 1], i) + (if IndexOf(s[|s| - 1]) == i then 1 else 0)
  }

  function HitsUpto(s: seq<nat>, i: int): nat {
    if s == [] then 0 else HitsUpto(s[..|s| - 1], i) + (if IndexOf(s[|s| - 1]) <= i then 1 else 0)
  }

  function Total(s: seq<nat>): nat {
    if s == [] then 0 else Total(s[..|s| - 1]) + s[|s| - 1]
  }

  function Largest(s: seq<nat>): (m: nat)
    ensures forall x :: x in s ==> x <= m
    ensures s == [] ==> m == 0
    ensures s != [] ==> m in s
  {
    if s == [] then 0
    else
      var m := Largest(s[..|s| - 1]);
      assert s == s[..|s| - 1] + [s[|s| - 1]];
      if s[|s| - 1] > m || |s| == 1 then s[|s| - 1] else m
  }

  lemma {:induction false} HitsStep(s: seq<nat>, i: int)
    ensures HitsUpto(s, i) == HitsUpto(s, i - 1) + Hits(s, i)
  {
    if s != [] {
      HitsStep(s[..|s| - 1], i);
    }
  }

  lemma {:induction false} HitsAppend(s: seq<nat>, t: seq<nat>, i: int)
    ensures Hits(s + t, i) == Hits(s, i) + Hits(t, i)
    ensures HitsUpto(s + t, i) == HitsUpto(s, i) + HitsUpto(t, i)
    ensures Total(s + t) == Total(s) + Total(t)
  {
    if t == [] {
      assert s + t == s;
    } else {
      assert (s + t)[..|s + t| - 1] == s + t[..|t| - 1];
      HitsAppend(s, t[..|t| - 1], i);
    }
  }

  lemma {:induction false} InsertHits(s: seq<nat>, x: nat, i: int)
    ensures HitsUpto(Insert(s, x), i) == HitsUpto(s, i) + (if IndexOf(x) <= i then 1 else 0)
  {
    if s == [] || s[|s| - 1] <= x {
      assert (s + [x])[..|s|] == s;
    } else {
      InsertHits(s[..|s| - 1], x, i);
      assert Insert(s, x)[..|Insert(s, x)| - 1] == Insert(s[..|s| - 1], x);
    }
  }

  lemma {:induction false} OrderedHits(s: seq<nat>, i: int)
    ensures HitsUpto(Ordered(s), i) == HitsUpto(s, i)
  {
    if s != [] {
      OrderedHits(s[..|s| - 1], i);
      InsertHits(Ordered(s[..|s| - 1]), s[|s| - 1], i);
    }
  }

  predicate Samples(s: seq<nat>) {
    forall i :: 0 <= i < |s| ==> s[i] < LIMIT
  }

  /** In sorted order, the sample of rank k is in a bucket up to i iff more than k samples are. */
  lemma {:induction false} RankBucket(t: seq<nat>, k: nat, i: int)
    requires Ascending(t) && Samples(t) && k < |t|
    ensures IndexOf(t[k]) <= i <==> k < HitsUpto(t, i)
    ensures HitsUpto(t, i) <= |t|
    decreases |t|
  {
    var init, last := t[..|t| - 1], t[|t| - 1];
    AscendingPair(t, k, |t| - 1);
    IndexMonotone(t[k], last);
    if k < |init| {
      RankBucket(init, k, i);
    } else if init != [] {
      RankBucket(init, |init| - 1, i);
      AscendingPair(t, |init| - 1, |t| - 1);
      IndexMonotone(t[|init| - 1], last);
    }
  }

  /** Nearest rank of percentile p among n samples. */
  function RankOf(p: real, n: nat): (k: nat)
    requires 0.0 <= p <= 1.0 && n > 0
    ensures k < n
  {
    RankBound(p, n);
    (p * (n - 1) as real + 0.5).Floor
  }

  lemma RankBound(p: real, n: nat)
    requires 0.0 <= p <= 1.0 && n > 0
    ensures 0 <= (p * (n - 1) as real + 0.5).Floor < n
  {
    ScaleBound(p, (n - 1) as real);
    FloorBound(p * (n - 1) as real, n - 1);
  }

  lemma FloorBound(x: real, n: nat)
    requires 0.0 <= x <= n as real
    ensures 0 <= (x + 0.5).Floor <= n
  {
  }

  lemma ScaleBound(p: real, n: real)
    requires 0.0 <= p <= 1.0 && n >= 0.0
    ensures 0.0 <= p * n <= n
  {
    assert (1.0 - p) * n >= 0.0;
  }

  /** What Percentile computes from the buckets, said of the samples in sorted order. */
  function PercentileOf(s: seq<nat>, p: real): nat
    requires 0.0 <= p <= 1.0
  {
    if s == [] then 0
    else
      OrderedIsSorted(s);
      var top := UpperBound(IndexOf(Ordered(s)[RankOf(p, |s|)]));
      if top < Largest(s) then top else Largest(s)
  }

  class Histogram {
    const counts: array<nat>
    var count: nat
    var sum: nat
    var max: nat
    ghost var samples: seq<nat>

    ghost predicate Valid()
      reads this, counts
    {
      && counts.Length == BUCKETS
      && Samples(samples)
      && count == |samples|
      && sum == Total(samples)
      && max == Largest(samples)
      && forall i :: 0 <= i < BUCKETS ==> counts[i] == Hits(samples, i)
    }

    constructor ()
      ensures Valid() && fresh(counts) && samples == []
    {
      count, sum, max, samples := 0, 0, 0, [];
      counts := new nat[BUCKETS](_ => 0);
    }

    method Add(us: nat)
      requires Valid() && us < LIMIT
      modifies this, counts
      ensures Valid() && samples == old(samples) + [us]
    {
      IndexInRange(us);
      counts[IndexOf(us)] := counts[IndexOf(us)] + 1;
      count := count + 1;
      sum := sum + us;
      max := if max < us then us else max;
      samples := samples + [us];
      assert samples[..|samples| - 1] == old(samples);
    }

    method Merge(other: Histogram)
      requires Valid() && other.Valid()
      requires other == this || other.counts != counts
      modifies this, counts
      ensures Valid() && samples == old(samples) + old(other.samples)
      ensures other != this ==> other.Valid() && other.samples == old(other.samples)
    {
      ghost var a, b := samples, other.samples;
      AddCounts(other);
      count := count + other.count;
      sum := sum + other.sum;
      max := if max < other.max then other.max else max;
      samples := a + b;
      HitsAppend(a, b, 0);
      LargestAppend(a, b);
      forall i | 0 <= i < BUCKETS ensures counts[i] == Hits(samples, i) {
        HitsAppend(a, b, i);
        assert old(counts[i]) == Hits(a, i) && old(other.counts[i]) == Hits(b, i);
      }
    }

    method AddCounts(other: Histogram)
      requires counts.Length == BUCKETS == other.counts.Length
      requires other == this || other.counts != counts
      modifies counts
      ensures forall i :: 0 <= i < BUCKETS ==> counts[i] == old(counts[i]) + old(other.counts[i])
    {
      for i := 0 to BUCKETS
        invariant forall j :: 0 <= j < i ==> counts[j] == old(counts[j]) + old(other.counts[j])
        invariant forall j :: i <= j < BUCKETS ==> counts[j] == old(counts[j])
      {
        counts[i] := counts[i] + other.counts[i];
      }
    }

    method Percentile(p: real) returns (r: nat)
      requires Valid() && 0.0 <= p <= 1.0
      ensures r == PercentileOf(samples, p)
    {
      if count == 0 {
        return 0;
      }
      var rank := RankOf(p, count);
      var seen := 0;
      r := max;
      NoneBelow(samples);
      for i := 0 to BUCKETS
        invariant seen == HitsUpto(samples, i - 1) <= rank
      {
        seen := seen + counts[i];
        HitsStep(samples, i);
        if seen > rank {
          BucketFound(samples, rank, i);
          return if UpperBound(i) < max then UpperBound(i) else max;
        }
      }
      AllBelow(samples);
      assert false;
    }
  }

  lemma {:induction false} LargestAppend(a: seq<nat>, b: seq<nat>)
    ensures Largest(a + b) == if Largest(a) < Largest(b) then Largest(b) else Largest(a)
  {
    var m := Largest(a + b);
    assert forall x :: x in a + b <==> x in a || x in b;
    if a + b != [] {
      assert m in a + b;
    }
  }

  lemma {:induction false} NoneBelow(s: seq<nat>)
    ensures HitsUpto(s, -1) == 0
  {
    if s != [] {
      NoneBelow(s[..|s| - 1]);
    }
  }

  lemma {:induction false} AllBelow(s: seq<nat>)
    requires Samples(s)
    ensures HitsUpto(s, BUCKETS - 1) == |s|
  {
    if s != [] {
      AllBelow(s[..|s| - 1]);
      IndexInRange(s[|s| - 1]);
    }
  }

  /** The bucket the scan stops at is that of the sample of that rank. */
  lemma BucketFound(s: seq<nat>, k: nat, i: nat)
    requires Samples(s) && k < |s| && HitsUpto(s, i - 1) <= k < HitsUpto(s, i)
    ensures |Ordered(s)| == |s| && IndexOf(Ordered(s)[k]) == i
  {
    OrderedIsSorted(s);
    OrderedSamples(s);
    OrderedHits(s, i);
    OrderedHits(s, i - 1);
    RankBucket(Ordered(s), k, i);
    RankBucket(Ordered(s), k, i - 1);
  }

  lemma OrderedSamples(s: seq<nat>)
    requires Samples(s)
    ensures Samples(Ordered(s)) && forall x :: x in Ordered(s) ==> x in s
  {
    OrderedIsPermutation(s);
    forall x | x in Ordered(s) ensures x in s {
      assert x in multiset(Ordered(s));
    }
    forall i | 0 <= i < |Ordered(s)| ensures Ordered(s)[i] < LIMIT {
      assert Ordered(s)[i] in s;
    }
  }

  /** The promise of the class: at most 1/128 above the sample at that rank, never above the maximum. */
  lemma PercentileAccuracy(s: seq<nat>, p: real)
    requires 0.0 <= p <= 1.0 && s != [] && Samples(s)
    ensures |Ordered(s)| == |s|
    ensures var x, r := Ordered(s)[RankOf(p, |s|)], PercentileOf(s, p);
            x <= r <= x + x / 128 && r <= Largest(s)
  {
    OrderedIsSorted(s);
    OrderedSamples(s);
    var x := Ordered(s)[RankOf(p, |s|)];
    assert x in Ordered(s);
    UpperAccuracy(x);
  }

  lemma RankMonotone(p: real, q: real, n: nat)
    requires 0.0 <= p <= q <= 1.0 && n > 0
    ensures RankOf(p, n) <= RankOf(q, n)
  {
    var x := (n - 1) as real;
    ScaleBound(q - p, x);
    assert q * x == p * x + (q - p) * x;
  }

  lemma PercentileMonotone(s: seq<nat>, p: real, q: real)
    requires 0.0 <= p <= q <= 1.0 && Samples(s)
    ensures PercentileOf(s, p) <= PercentileOf(s, q)
  {
    if s != [] {
      OrderedIsSorted(s);
      OrderedSamples(s);
      RankMonotone(p, q, |s|);
      var i, j := RankOf(p, |s|), RankOf(q, |s|);
      AscendingPair(Ordered(s), i, j);
      IndexMonotone(Ordered(s)[i], Ordered(s)[j]);
      IndexInRange(Ordered(s)[j]);
      UpperMonotone(IndexOf(Ordered(s)[i]), IndexOf(Ordered(s)[j]));
    }
  }

  /**
   However the samples were split, added and merged: all a histogram holds and answers
   depends only on which samples there were and how often.
   */
  lemma OrderIrrelevant(s: seq<nat>, t: seq<nat>)
    requires multiset(s) == multiset(t)
    ensures |s| == |t| && Largest(s) == Largest(t) && Total(s) == Total(t)
    ensures forall i: int :: Hits(s, i) == Hits(t, i)
    ensures forall p: real | 0.0 <= p <= 1.0 :: PercentileOf(s, p) == PercentileOf(t, p)
  {
    OrderedIsSorted(s);
    OrderedIsSorted(t);
    OrderedIsPermutation(s);
    OrderedIsPermutation(t);
    AscendingUnique(Ordered(s), Ordered(t));
    OrderedTotals(s);
    OrderedTotals(t);
    assert forall x :: x in s <==> x in multiset(s);
    assert forall x :: x in t <==> x in multiset(t);
    forall i: int ensures Hits(s, i) == Hits(t, i) {
      OrderedHits(s, i);
      OrderedHits(t, i);
      OrderedHits(s, i - 1);
      OrderedHits(t, i - 1);
      HitsStep(s, i);
      HitsStep(t, i);
    }
  }

  lemma {:induction false} InsertTotal(s: seq<nat>, x: nat)
    ensures Total(Insert(s, x)) == Total(s) + x
  {
    if s == [] || s[|s| - 1] <= x {
      assert (s + [x])[..|s|] == s;
    } else {
      InsertTotal(s[..|s| - 1], x);
      assert Insert(s, x)[..|Insert(s, x)| - 1] == Insert(s[..|s| - 1], x);
    }
  }

  lemma {:induction false} OrderedTotals(s: seq<nat>)
    ensures Total(Ordered(s)) == Total(s)
  {
    if s != [] {
      OrderedTotals(s[..|s| - 1]);
      InsertTotal(Ordered(s[..|s| - 1]), s[|s| - 1]);
    }
  }
}

/** Lists of samples put one after the other. */
module SampleLists {

  function Concat(lists: seq<seq<nat>>): seq<nat> {
    if lists == [] then [] else Concat(lists[..|lists| - 1]) + lists[|lists| - 1]
  }

  lemma ConcatStep(lists: seq<seq<nat>>, last: seq<nat>)
    ensures Concat(lists + [last]) == Concat(lists) + last
  {
    assert (lists + [last])[..|lists|] == lists;
  }

  lemma WithoutOne(lists: seq<seq<nat>>, i: nat)
    requires i < |lists|
    ensures multiset(lists[..i] + lists[i + 1..]) == multiset(lists) - multiset{lists[i]}
  {
    assert lists == lists[..i] + [lists[i]] + lists[i + 1..];
  }

  /** One list can be put last, wherever it stood. */
  lemma {:induction false} ConcatWithout(lists: seq<seq<nat>>, i: nat)
    requires i < |lists|
    ensures multiset(Concat(lists)) == multiset(Concat(lists[..i] + lists[i + 1..])) + multiset(lists[i])
  {
    var n := |lists| - 1;
    if i == n {
      assert lists[..i] + lists[i + 1..] == lists[..n];
    } else {
      ConcatWithout(lists[..n], i);
      Shorter(lists, i);
      var others := lists[..n][..i] + lists[..n][i + 1..];
      ConcatStep(others, lists[n]);
      Swap(Concat(others), lists[i], lists[n], Concat(lists[..n]));
    }
  }

  lemma Shorter(lists: seq<seq<nat>>, i: nat)
    requires i < |lists| - 1
    ensures var init := lists[..|lists| - 1];
            init[i] == lists[i] && lists[..i] + lists[i + 1..] == init[..i] + init[i + 1..] + [lists[|lists| - 1]]
  {
  }

  lemma Swap(a: seq<nat>, b: seq<nat>, c: seq<nat>, ab: seq<nat>)
    requires multiset(ab) == multiset(a) + multiset(b)
    ensures multiset(ab + c) == multiset(a + c) + multiset(b)
  {
  }

  /** The order of the lists does not matter to what they hold together. */
  lemma {:induction false} ConcatPermuted(a: seq<seq<nat>>, b: seq<seq<nat>>)
    requires multiset(a) == multiset(b)
    ensures multiset(Concat(a)) == multiset(Concat(b))
    decreases |b|
  {
    if b == [] {
      assert |multiset(a)| == 0;
    } else {
      var n := |b| - 1;
      WithoutOne(b, n);
      assert b[..n] + b[n + 1..] == b[..n];
      assert b[n] in multiset(a);
      var i :| 0 <= i < |a| && a[i] == b[n];
      WithoutOne(a, i);
      ConcatWithout(a, i);
      ConcatPermuted(a[..i] + a[i + 1..], b[..n]);
    }
  }
}

/** The histograms of any number of callers merged into one. */
module LatencyMerge {
  import opened LatencyHistogram
  import opened SampleLists

  ghost predicate AllValid(parts: seq<Histogram>)
    reads parts, set i | 0 <= i < |parts| :: parts[i].counts
  {
    forall i :: 0 <= i < |parts| ==> parts[i].Valid()
  }

  /** The loop that merges them: the result is the histogram of all their samples. */
  method MergeAll(parts: seq<Histogram>) returns (all: Histogram, ghost lists: seq<seq<nat>>)
    requires AllValid(parts)
    ensures |lists| == |parts| && forall i :: 0 <= i < |parts| ==> lists[i] == parts[i].samples
    ensures fresh(all) && all.Valid() && all.samples == Concat(lists)
  {
    all := new Histogram();
    lists := [];
    for i := 0 to |parts|
      invariant fresh(all) && fresh(all.counts) && all.Valid() && all.samples == Concat(lists)
      invariant AllValid(parts)
      invariant |lists| == i && forall j :: 0 <= j < i ==> lists[j] == parts[j].samples
    {
      ConcatStep(lists, parts[i].samples);
      lists := lists + [parts[i].samples];
      all.Merge(parts[i]);
    }
  }

  /** However samples are split among histograms, and in whatever order these are merged: all results agree. */
  lemma MergeOrderIrrelevant(a: seq<seq<nat>>, b: seq<seq<nat>>)
    requires multiset(a) == multiset(b) || multiset(Concat(a)) == multiset(Concat(b))
    ensures var s, t := Concat(a), Concat(b);
            && |s| == |t| && Largest(s) == Largest(t) && Total(s) == Total(t)
            && (forall i: int :: Hits(s, i) == Hits(t, i))
            && forall p: real | 0.0 <= p <= 1.0 :: PercentileOf(s, p) == PercentileOf(t, p)
  {
    if multiset(a) == multiset(b) {
      ConcatPermuted(a, b);
    }
    OrderIrrelevant(Concat(a), Concat(b));
  }
}
