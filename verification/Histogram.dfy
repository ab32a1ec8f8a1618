/** The latency histogram: log2 buckets counted per CPU in the kernel, summed and read as
    percentiles in user space. */
module Histogram {
  import opened Bytes
  import opened Sequences
  import opened Sorting

  const BUCKETS: nat := 64

  // ---- log2 ----

  function Pow2(n: nat): (p: nat)
    ensures p >= 1
  {
    if n == 0 then 1 else 2 * Pow2(n - 1)
  }

  lemma {:induction false} Pow2Add(a: nat, b: nat)
    ensures Pow2(a + b) == Pow2(a) * Pow2(b)
  {
    if b > 0 {
      Pow2Add(a, b - 1);
    }
  }

  lemma {:induction false} Pow2Monotone(a: nat, b: nat)
    requires a <= b
    ensures Pow2(a) <= Pow2(b)
    decreases b
  {
    if a < b {
      Pow2Monotone(a, b - 1);
    }
  }

  lemma SmallPowers()
    ensures Pow2(1) == 2 && Pow2(2) == 4 && Pow2(4) == 16
  {
  }

  lemma Pow2Values()
    ensures Pow2(1) == 2 && Pow2(2) == 4 && Pow2(4) == 16 && Pow2(8) == 0x100
    ensures Pow2(16) == 0x1_0000 && Pow2(32) == U32 && Pow2(64) == U64
  {
    SmallPowers();
    Pow2Double(4, 16);
    Pow2Double(8, 0x100);
    Pow2Double(16, 0x1_0000);
    Pow2Double(32, U32);
  }

  lemma Pow2Double(n: nat, p: nat)
    requires Pow2(n) == p
    ensures Pow2(2 * n) == p * p
  {
    Pow2Add(n, n);
  }

  /** The bucket of a latency: the floor of its base-2 logarithm; 0 shares bucket 0 with 1. */
  function Bucket(v: nat): (r: nat) {
    if v < 2 then 0 else 1 + Bucket(v / 2)
  }

  lemma {:induction false} BucketBounds(v: nat)
    ensures v > 0 ==> Pow2(Bucket(v)) <= v
    ensures v < Pow2(Bucket(v) + 1)
  {
    if v >= 2 {
      BucketBounds(v / 2);
    }
  }

  lemma BucketUnique(v: nat, r: nat)
    requires Pow2(r) <= v < Pow2(r + 1)
    ensures r == Bucket(v)
  {
    BucketBounds(v);
    if r < Bucket(v) {
      Pow2Monotone(r + 1, Bucket(v));
    } else if Bucket(v) < r {
      Pow2Monotone(Bucket(v) + 1, r);
    }
  }

  lemma {:induction false} BucketMonotone(a: nat, b: nat)
    requires a <= b
    ensures Bucket(a) <= Bucket(b)
  {
    if a >= 2 {
      BucketMonotone(a / 2, b / 2);
    }
  }

  lemma BucketFits(v: nat)
    requires v < U64
    ensures Bucket(v) < BUCKETS
  {
    BucketBounds(v);
    Pow2Values();
    if Bucket(v) >= BUCKETS {
      Pow2Monotone(BUCKETS, Bucket(v));
    }
  }

  /** `w` is `v` shifted right by `r` bits, and not 0. */
  ghost predicate Shifted(v: nat, r: nat, w: nat) {
    w >= 1 && Pow2(r) * w <= v < Pow2(r) * (w + 1)
  }

  lemma ScaleBoth(p: nat, a: nat, b: nat)
    requires a <= b
    ensures p * a <= p * b
  {
  }

  lemma MulAssoc(a: nat, b: nat, c: nat)
    ensures a * (b * c) == a * b * c
  {
  }

  lemma Division(w: nat, c: nat, x: nat)
    requires c >= 1 && x == w / c
    ensures c * x <= w && w + 1 <= c * (x + 1)
  {
  }

  lemma ShiftBounds(p: nat, c: nat, w: nat, v: nat)
    requires c >= 1 && p * w <= v < p * (w + 1)
    ensures p * c * (w / c) <= v < p * c * (w / c + 1)
  {
    var x := w / c;
    Division(w, c, x);
    ScaleBoth(p, c * x, w);
    ScaleBoth(p, w + 1, c * (x + 1));
    MulAssoc(p, c, x);
    MulAssoc(p, c, x + 1);
  }

  lemma ShiftMore(v: nat, r: nat, w: nat, k: nat)
    requires Shifted(v, r, w) && w >= Pow2(k)
    ensures Shifted(v, r + k, w / Pow2(k))
  {
    Pow2Add(r, k);
    ShiftBounds(Pow2(r), Pow2(k), w, v);
  }

  lemma QuotientFits(w: nat, c: nat)
    requires c >= 1 && w < c * c
    ensures w / c < c
  {
    assert c * (w / c) <= w < c * c;
  }

  /** One stage of the cascade: shift by `k` bits if anything lies above them. */
  method ShiftStage(ghost v: nat, r: nat, w: nat, k: nat, c: nat) returns (r': nat, w': nat)
    requires Shifted(v, r, w) && c == Pow2(k) && w < c * c
    ensures Shifted(v, r', w') && w' < c
  {
    r', w' := r, w;
    if w >= c {
      ShiftMore(v, r, w, k);
      QuotientFits(w, c);
      r', w' := r + k, w / c;
    }
  }

  /** The unrolled shift cascade of the probe computes the bucket. */
  method Log2Bucket(v: u64) returns (r: nat)
    ensures r == Bucket(v) < BUCKETS
  {
    r := 0;
    if v == 0 {
      return;
    }
    Pow2Values();
    var w: nat := v;
    assert Shifted(v, 0, w);
    r, w := ShiftStage(v, r, w, 32, 0x1_0000_0000);
    r, w := ShiftStage(v, r, w, 16, 0x1_0000);
    r, w := ShiftStage(v, r, w, 8, 0x100);
    r, w := ShiftStage(v, r, w, 4, 0x10);
    r, w := ShiftStage(v, r, w, 2, 4);
    r, w := ShiftStage(v, r, w, 1, 2);
    LastBit(v, r, w);
    if r >= BUCKETS {
      assert false;
    }
  }

  lemma LastBit(v: u64, r: nat, w: nat)
    requires Shifted(v, r, w) && w < 2
    ensures r == Bucket(v) < BUCKETS
  {
    BucketUnique(v, r);
    BucketFits(v);
  }

  // ---- midpoints ----

  function FloorSqrt(n: nat): (r: nat)
    ensures r * r <= n < (r + 1) * (r + 1)
  {
    if n == 0 then 0 else
      var r := FloorSqrt(n - 1);
      if (r + 1) * (r + 1) <= n then r + 1 else r
  }

  /** The square of the geometric midpoint of bucket `slot`: (2^(slot + 1/2))^2. */
  function MidpointSquared(slot: nat): (m: nat) {
    Pow2(2 * slot + 1)
  }

  /** The midpoint, truncated to an integer. */
  function Midpoint(slot: nat): (m: nat)
    ensures m * m <= MidpointSquared(slot) < (m + 1) * (m + 1)
  {
    FloorSqrt(MidpointSquared(slot))
  }

  lemma SquareMonotone(a: nat, b: nat)
    ensures a <= b ==> a * a <= b * b
    ensures a < b ==> a * a < b * b
  {
  }

  /** The midpoint m of a latency's bucket is within a factor of sqrt 2 of the latency,
      m^2 <= 2 v^2 and v^2 < 2 m^2, exactly when the latency is not 0. */
  lemma MidpointAccuracy(v: nat)
    ensures MidpointSquared(Bucket(v)) <= 2 * (v * v) && v * v < 2 * MidpointSquared(Bucket(v))
       <==> v > 0
  {
    if v > 0 {
      var b := Bucket(v);
      BucketBounds(v);
      Pow2Double(b, Pow2(b));
      Pow2Double(b + 1, Pow2(b + 1));
      SquareMonotone(Pow2(b), v);
      SquareMonotone(v, Pow2(b + 1));
      assert Pow2(2 * b + 2) == 2 * Pow2(2 * b + 1);
    }
  }

  // ---- samples and their counts ----

  datatype Sample = Sample(cpu: nat, latency: u64)

  function OnCpu(cpu: nat, slot: nat): Sample -> bool {
    (x: Sample) => x.cpu == cpu && Bucket(x.latency) == slot
  }

  function OnCpusBelow(cpus: nat, slot: nat): Sample -> bool {
    (x: Sample) => x.cpu < cpus && Bucket(x.latency) == slot
  }

  function InBucket(slot: nat): nat -> bool {
    (v: nat) => Bucket(v) == slot
  }

  function BucketBelow(n: nat): nat -> bool {
    (v: nat) => Bucket(v) < n
  }

  function Latencies(samples: seq<Sample>): (vs: seq<nat>)
    ensures |vs| == |samples|
  {
    seq(|samples|, i requires 0 <= i < |samples| => samples[i].latency)
  }

  lemma {:induction false} OneMoreCpu(samples: seq<Sample>, cpus: nat, slot: nat)
    ensures CountIf(OnCpusBelow(cpus + 1, slot), samples)
         == CountIf(OnCpusBelow(cpus, slot), samples) + CountIf(OnCpu(cpus, slot), samples)
  {
    if samples != [] {
      OneMoreCpu(samples[..|samples| - 1], cpus, slot);
    }
  }

  lemma {:induction false} AllCpus(samples: seq<Sample>, cpus: nat, slot: nat)
    requires forall x | x in samples :: x.cpu < cpus
    ensures CountIf(OnCpusBelow(cpus, slot), samples) == CountIf(InBucket(slot), Latencies(samples))
  {
    if samples != [] {
      var before := samples[..|samples| - 1];
      AllCpus(before, cpus, slot);
      assert samples[|samples| - 1] in samples;
      assert Latencies(samples)[..|before|] == Latencies(before);
    }
  }

  lemma {:induction false} OneMoreBucket(vs: seq<nat>, n: nat)
    ensures CountIf(BucketBelow(n + 1), vs) == CountIf(BucketBelow(n), vs) + CountIf(InBucket(n), vs)
  {
    if vs != [] {
      OneMoreBucket(vs[..|vs| - 1], n);
    }
  }

  // ---- the kernel side: one counter per CPU and bucket ----

  class PercpuHistogram {
    const counts: array2<u64>
    ghost var samples: seq<Sample>

    /** Every counter counts its own samples; 64-bit counters wrap. */
    ghost predicate Valid()
      reads this, counts
    {
      && counts.Length1 == BUCKETS
      && (forall x | x in samples :: x.cpu < counts.Length0)
      && forall c, s | 0 <= c < counts.Length0 && 0 <= s < BUCKETS ::
           counts[c, s] == CountIf(OnCpu(c, s), samples) % U64
    }

    constructor (cpus: nat)
      ensures Valid() && samples == [] && fresh(counts) && counts.Length0 == cpus
    {
      counts := new u64[cpus, BUCKETS]((c, s) => 0);
      samples := [];
    }

    method Update(cpu: nat, latency: u64)
      requires Valid() && cpu < counts.Length0
      modifies this, counts
      ensures Valid() && samples == old(samples) + [Sample(cpu, latency)]
    {
      var slot := Log2Bucket(latency);
      forall c, s | 0 <= c < counts.Length0 && 0 <= s < BUCKETS
        ensures CountIf(OnCpu(c, s), samples + [Sample(cpu, latency)])
             == CountIf(OnCpu(c, s), samples) + if c == cpu && s == slot then 1 else 0
      {
        CountSnoc(OnCpu(c, s), samples, Sample(cpu, latency));
      }
      WrapAdd(CountIf(OnCpu(cpu, slot), samples), 1);
      counts[cpu, slot] := (counts[cpu, slot] + 1) % U64;
      samples := samples + [Sample(cpu, latency)];
    }

    /** The non-zero bucket totals over all CPUs. */
    method Combine() returns (combined: map<u32, u64>)
      requires Valid()
      ensures forall s: u32 :: s in combined ==> s < BUCKETS
      ensures forall s: u32 | s in combined :: combined[s] > 0
      ensures forall s: u32 | s < BUCKETS ::
                CountOf(combined, s) == CountIf(InBucket(s), Latencies(samples)) % U64
    {
      combined := map[];
      for slot := 0 to BUCKETS
        invariant forall s: u32 :: s in combined ==> s < slot
        invariant forall s: u32 | s in combined :: combined[s] > 0
        invariant forall s: u32 | s < slot ::
            CountOf(combined, s) == CountIf(InBucket(s), Latencies(samples)) % U64
      {
        var sum := SumCpus(slot);
        if sum > 0 {
          combined := combined[slot := sum];
        }
      }
    }

    method SumCpus(slot: nat) returns (sum: u64)
      requires Valid() && slot < BUCKETS
      ensures sum == CountIf(InBucket(slot), Latencies(samples)) % U64
    {
      sum := 0;
      CountAll(OnCpusBelow(0, slot), samples);
      for cpu := 0 to counts.Length0
        invariant sum == CountIf(OnCpusBelow(cpu, slot), samples) % U64
      {
        OneMoreCpu(samples, cpu, slot);
        WrapAdd(CountIf(OnCpusBelow(cpu, slot), samples), CountIf(OnCpu(cpu, slot), samples));
        sum := (sum + counts[cpu, slot]) % U64;
      }
      AllCpus(samples, counts.Length0, slot);
    }
  }

  // ---- the user side: totals and percentiles ----

  function CountOf(buckets: map<u32, u64>, slot: u32): (n: u64) {
    if slot in buckets then buckets[slot] else 0
  }

  /** The counts of the slots below `n`. */
  function SumBelow(buckets: map<u32, u64>, n: nat): (sum: nat)
    requires n <= U32
  {
    if n == 0 then 0 else SumBelow(buckets, n - 1) + CountOf(buckets, n - 1)
  }

  lemma {:induction false} SumMonotone(buckets: map<u32, u64>, m: nat, n: nat)
    requires m <= n <= U32
    ensures SumBelow(buckets, m) <= SumBelow(buckets, n)
    decreases n
  {
    if m < n {
      SumMonotone(buckets, m, n - 1);
    }
  }

  lemma {:induction false} SumWithout(buckets: map<u32, u64>, k: u32, n: nat)
    requires k in buckets && n <= U32
    ensures SumBelow(buckets, n) == SumBelow(buckets - {k}, n) + if k < n then buckets[k] else 0
  {
    if n > 0 {
      SumWithout(buckets, k, n - 1);
    }
  }

  lemma {:induction false} SumEmpty(n: nat)
    requires n <= U32
    ensures SumBelow(map[], n) == 0
  {
    if n > 0 {
      SumEmpty(n - 1);
    }
  }

  lemma {:induction false} SumBeyond(buckets: map<u32, u64>, n: nat)
    requires BUCKETS <= n <= U32 && forall s: u32 :: s in buckets ==> s < BUCKETS
    ensures SumBelow(buckets, n) == SumBelow(buckets, BUCKETS)
    decreases n
  {
    if n > BUCKETS {
      SumBeyond(buckets, n - 1);
    }
  }

  /** Sums the values in whatever order the map yields its keys. */
  method Total(buckets: map<u32, u64>) returns (total: u64)
    ensures total == SumBelow(buckets, U32) % U64
  {
    total := 0;
    var rest := buckets;
    ghost var exact: nat := 0;
    while rest.Keys != {}
      invariant exact + SumBelow(rest, U32) == SumBelow(buckets, U32)
      invariant total == exact % U64
      decreases rest.Keys
    {
      var k :| k in rest.Keys;
      SumWithout(rest, k, U32);
      WrapAdd(exact, rest[k]);
      total := (total + rest[k]) % U64;
      exact := exact + rest[k];
      rest := rest - {k};
    }
    assert rest == map[];
    SumEmpty(U32);
  }

  /** A percentile threshold num/den. */
  datatype Quantile = Quantile(num: nat, den: nat)

  const QUANTILES := [Quantile(1, 2), Quantile(99, 100), Quantile(999, 1000)]

  predicate Reached(q: Quantile, cum: nat, total: nat) {
    cum * q.den >= q.num * total
  }

  lemma HigherImpliesLower(i: nat, j: nat, cum: nat, total: nat)
    requires i <= j < 3 && Reached(QUANTILES[j], cum, total)
    ensures Reached(QUANTILES[i], cum, total)
  {
  }

  predicate ReachedAt(buckets: map<u32, u64>, q: Quantile, total: nat, slot: nat) {
    slot < BUCKETS && Reached(q, SumBelow(buckets, slot + 1), total)
  }

  /** `slot` is the first whose cumulative count reaches the threshold. */
  ghost predicate Selects(buckets: map<u32, u64>, q: Quantile, total: nat, slot: nat) {
    ReachedAt(buckets, q, total, slot) && forall t: nat | t < slot :: !ReachedAt(buckets, q, total, t)
  }

  /** The three thresholds in plain numbers. */
  lemma ThresholdsInNumbers(cum: nat, total: nat)
    ensures Reached(QUANTILES[0], cum, total) <==> 2 * cum >= total
    ensures Reached(QUANTILES[1], cum, total) <==> 100 * cum >= 99 * total
    ensures Reached(QUANTILES[2], cum, total) <==> 1000 * cum >= 999 * total
  {
  }

  lemma MidpointFits(slot: nat)
    requires slot < BUCKETS
    ensures Midpoint(slot) < U64
  {
    Pow2Monotone(2 * slot + 1, 128);
    Pow2Values();
    Pow2Double(64, U64);
    SquareMonotone(U64, Midpoint(slot));
    Pow2Strict(2 * slot + 1, 128);
  }

  lemma Pow2Strict(a: nat, b: nat)
    requires a < b
    ensures Pow2(a) < Pow2(b)
  {
    Pow2Monotone(a + 1, b);
  }

  /** The state of the scan before `slot`, with the first `idx` thresholds settled. */
  ghost predicate Settled(buckets: map<u32, u64>, total: nat, slot: nat, idx: nat, results: seq<u64>) {
    && idx <= 3 == |results|
    && (forall j, t: nat | 0 <= j < idx && Selects(buckets, QUANTILES[j], total, t) :: results[j] == Midpoint(t))
    && (forall j, t: nat | idx <= j < 3 && t < slot :: !ReachedAt(buckets, QUANTILES[j], total, t))
    && (forall j | idx <= j < 3 :: results[j] == 0)
  }

  lemma SettleOne(buckets: map<u32, u64>, total: nat, slot: nat, idx: nat, results: seq<u64>)
    requires Settled(buckets, total, slot, idx, results) && idx < 3
    requires ReachedAt(buckets, QUANTILES[idx], total, slot)
    ensures Midpoint(slot) < U64
    ensures Settled(buckets, total, slot, idx + 1, results[idx := Midpoint(slot)])
  {
    MidpointFits(slot);
    forall t: nat | Selects(buckets, QUANTILES[idx], total, t) ensures t == slot {
    }
  }

  lemma SettleSlot(buckets: map<u32, u64>, total: nat, slot: nat, idx: nat, results: seq<u64>)
    requires Settled(buckets, total, slot, idx, results)
    requires idx < 3 ==> !ReachedAt(buckets, QUANTILES[idx], total, slot)
    ensures Settled(buckets, total, slot + 1, idx, results)
  {
    forall j | idx <= j < 3 ensures !ReachedAt(buckets, QUANTILES[j], total, slot) {
      if ReachedAt(buckets, QUANTILES[j], total, slot) {
        HigherImpliesLower(idx, j, SumBelow(buckets, slot + 1), total);
      }
    }
  }

  /** Settles every threshold reached at `slot`. */
  method SettleReached(buckets: map<u32, u64>, total: nat, cum: nat, slot: nat, idx: nat, results: seq<u64>,
                       ghost exact: bool)
    returns (idx': nat, results': seq<u64>)
    requires slot < BUCKETS && idx <= 3 == |results|
    requires exact ==> cum == SumBelow(buckets, slot + 1) && Settled(buckets, total, slot, idx, results)
    ensures idx' <= 3 == |results'|
    ensures exact ==> Settled(buckets, total, slot + 1, idx', results')
  {
    idx', results' := idx, results;
    while idx' < 3 && Reached(QUANTILES[idx'], cum, total)
      invariant idx' <= 3 == |results'|
      invariant exact ==> Settled(buckets, total, slot, idx', results')
    {
      if exact {
        SettleOne(buckets, total, slot, idx', results');
      }
      MidpointFits(slot);
      results' := results'[idx' := Midpoint(slot)];
      idx' := idx' + 1;
    }
    if exact {
      SettleSlot(buckets, total, slot, idx', results');
    }
  }

  /** The midpoints of the first slots at which 1/2, 99/100 and 999/1000 of the total are
      reached, 0 for a threshold that is not; exact while the counts fit 64 bits. */
  method ComputePercentiles(buckets: map<u32, u64>) returns (results: seq<u64>, total: u64)
    ensures total == SumBelow(buckets, U32) % U64
    ensures |results| == 3
    ensures total == 0 ==> results == [0, 0, 0]
    ensures total > 0 && SumBelow(buckets, U32) < U64 ==>
              forall j, t: nat | 0 <= j < 3 && Selects(buckets, QUANTILES[j], total, t) ::
                results[j] == Midpoint(t)
  {
    results := [0, 0, 0];
    total := Total(buckets);
    if total == 0 {
      return;
    }
    ghost var exact := SumBelow(buckets, U32) < U64;
    var cum: u64 := 0;
    var slot: nat, idx: nat := 0, 0;
    while slot < BUCKETS && idx < 3
      invariant slot <= BUCKETS && idx <= 3 == |results|
      invariant exact ==> cum == SumBelow(buckets, slot) && Settled(buckets, total, slot, idx, results)
    {
      SumMonotone(buckets, slot + 1, U32);
      cum := (cum + CountOf(buckets, slot)) % U64;
      idx, results := SettleReached(buckets, total, cum, slot, idx, results, exact);
      slot := slot + 1;
    }
  }

  // ---- end to end ----

  /** ceil(num / den * n): the 1-based rank of a percentile among `n` samples. */
  function Rank(q: Quantile, n: nat): (k: nat)
    requires q.den > 0
  {
    (q.num * n + q.den - 1) / q.den
  }

  lemma RankMeaning(j: nat, n: nat, cum: nat)
    requires j < 3 && n > 0
    ensures 1 <= Rank(QUANTILES[j], n) <= n
    ensures Reached(QUANTILES[j], cum, n) <==> cum >= Rank(QUANTILES[j], n)
  {
  }

  ghost predicate Counts(buckets: map<u32, u64>, vs: seq<nat>) {
    && (forall s: u32 :: s in buckets ==> s < BUCKETS)
    && forall s: u32 | s < BUCKETS :: CountOf(buckets, s) == CountIf(InBucket(s), vs)
  }

  lemma {:induction false} SumOfCounts(buckets: map<u32, u64>, vs: seq<nat>, n: nat)
    requires Counts(buckets, vs) && n <= BUCKETS
    ensures SumBelow(buckets, n) == CountIf(BucketBelow(n), vs)
  {
    if n == 0 {
      CountAll(BucketBelow(0), vs);
    } else {
      SumOfCounts(buckets, vs, n - 1);
      OneMoreBucket(vs, n - 1);
    }
  }

  lemma SumOfAll(buckets: map<u32, u64>, vs: seq<nat>)
    requires Counts(buckets, vs) && forall v | v in vs :: v < U64
    ensures SumBelow(buckets, U32) == |vs|
  {
    SumBeyond(buckets, U32);
    SumOfCounts(buckets, vs, BUCKETS);
    forall v | v in vs ensures Bucket(v) < BUCKETS {
      BucketFits(v);
    }
    CountAll(BucketBelow(BUCKETS), vs);
  }

  /** The k-th smallest of `vs`, counting from 1. */
  function KthSmallest(vs: seq<nat>, k: nat): (v: nat)
    requires 1 <= k <= |vs|
  {
    assert |Sort(NatLeq, vs)| == |multiset(Sort(NatLeq, vs))| == |vs|;
    Sort(NatLeq, vs)[k - 1]
  }

  /** At least `k` samples lie in the buckets up to `t` just if the k-th smallest does. */
  lemma CumulativeCount(vs: seq<nat>, k: nat, t: nat)
    requires 1 <= k <= |vs|
    ensures CountIf(BucketBelow(t + 1), vs) >= k <==> Bucket(KthSmallest(vs, k)) <= t
  {
    NatOrder();
    SortSorted(NatLeq, vs);
    var sorted := Sort(NatLeq, vs);
    assert |sorted| == |multiset(sorted)| == |vs|;
    forall x: nat, y: nat | NatLeq(x, y) && BucketBelow(t + 1)(y) ensures BucketBelow(t + 1)(x) {
      BucketMonotone(x, y);
    }
    CountSorted(NatLeq, BucketBelow(t + 1), sorted, k - 1);
    CountPermutation(BucketBelow(t + 1), sorted, vs);
  }

  lemma KthMember(vs: seq<nat>, k: nat)
    requires 1 <= k <= |vs|
    ensures KthSmallest(vs, k) in vs
  {
    var v := KthSmallest(vs, k);
    assert |Sort(NatLeq, vs)| == |multiset(Sort(NatLeq, vs))| == |vs|;
    assert v in Sort(NatLeq, vs);
    assert v in multiset(Sort(NatLeq, vs));
    assert v in multiset(vs);
  }

  /** What the k-th smallest is: at least k samples are at most it, fewer are below it. */
  lemma KthMeaning(vs: seq<nat>, k: nat)
    requires 1 <= k <= |vs|
    ensures CountIf(AtMost(KthSmallest(vs, k)), vs) >= k
    ensures CountIf(LessThan(KthSmallest(vs, k)), vs) < k
  {
    NatOrder();
    SortSorted(NatLeq, vs);
    CountPermutation(AtMost(KthSmallest(vs, k)), Sort(NatLeq, vs), vs);
    CountPermutation(LessThan(KthSmallest(vs, k)), Sort(NatLeq, vs), vs);
    assert |Sort(NatLeq, vs)| == |multiset(Sort(NatLeq, vs))| == |vs|;
    CountAround(Sort(NatLeq, vs), k - 1, KthSmallest(vs, k));
  }

  /** `p` is reported for a sample with at least num in den samples at most it, and fewer than
      that below it. */
  ghost predicate ReportedFor(vs: seq<nat>, p: nat, num: nat, den: nat) {
    exists v: nat ::
      && v in vs && p == Midpoint(Bucket(v))
      && den * CountIf(AtMost(v), vs) >= num * |vs| && den * CountIf(LessThan(v), vs) < num * |vs|
  }

  /** The midpoint of a bucket [2^b, 2^(b+1)) is the integer part of 2^b times sqrt 2. */
  lemma MidpointMeaning(slot: nat)
    ensures Midpoint(slot) * Midpoint(slot) <= 2 * (Pow2(slot) * Pow2(slot))
    ensures 2 * (Pow2(slot) * Pow2(slot)) < (Midpoint(slot) + 1) * (Midpoint(slot) + 1)
  {
    Pow2Double(slot, Pow2(slot));
  }

  lemma FirstReached(buckets: map<u32, u64>, q: Quantile, total: nat, b: nat)
    requires b < BUCKETS
    requires forall t: nat | t < BUCKETS :: (ReachedAt(buckets, q, total, t) <==> b <= t)
    ensures forall t: nat :: Selects(buckets, q, total, t) <==> t == b
  {
    assert ReachedAt(buckets, q, total, b);
  }

  /** The percentile scan selects the bucket of the true order statistic. */
  lemma SelectsOrderStatistic(buckets: map<u32, u64>, vs: seq<nat>, j: nat)
    requires Counts(buckets, vs) && vs != [] && j < 3 && forall v | v in vs :: v < U64
    ensures 1 <= Rank(QUANTILES[j], |vs|) <= |vs|
    ensures forall t: nat :: Selects(buckets, QUANTILES[j], |vs|, t)
              <==> t == Bucket(KthSmallest(vs, Rank(QUANTILES[j], |vs|)))
  {
    var q := QUANTILES[j];
    RankMeaning(j, |vs|, 0);
    var k := Rank(q, |vs|);
    var v := KthSmallest(vs, k);
    KthMember(vs, k);
    BucketFits(v);
    forall t: nat | t < BUCKETS ensures ReachedAt(buckets, q, |vs|, t) <==> Bucket(v) <= t {
      RankMeaning(j, |vs|, SumBelow(buckets, t + 1));
      SumOfCounts(buckets, vs, t + 1);
      CumulativeCount(vs, k, t);
    }
    FirstReached(buckets, q, |vs|, Bucket(v));
  }

  datatype Report = Report(p50: u64, p99: u64, p999: u64, total: u64, buckets: map<u32, u64>)

  ghost predicate IsPercentile(vs: seq<nat>, j: nat, p: nat)
    requires j < 3 && vs != []
  {
    RankMeaning(j, |vs|, 0);
    p == Midpoint(Bucket(KthSmallest(vs, Rank(QUANTILES[j], |vs|))))
  }

  lemma RanksInNumbers(n: nat)
    requires n > 0
    ensures var k := Rank(QUANTILES[0], n); 1 <= k <= n && 2 * k >= n && 2 * (k - 1) < n
    ensures var k := Rank(QUANTILES[1], n); 1 <= k <= n && 100 * k >= 99 * n && 100 * (k - 1) < 99 * n
    ensures var k := Rank(QUANTILES[2], n); 1 <= k <= n && 1000 * k >= 999 * n && 1000 * (k - 1) < 999 * n
  {
  }

  lemma RankReported(vs: seq<nat>, k: nat, num: nat, den: nat)
    requires 1 <= k <= |vs| && den > 0 && den * k >= num * |vs| && den * (k - 1) < num * |vs|
    ensures ReportedFor(vs, Midpoint(Bucket(KthSmallest(vs, k))), num, den)
  {
    var v := KthSmallest(vs, k);
    KthMeaning(vs, k);
    KthMember(vs, k);
    ScaleBoth(den, k, CountIf(AtMost(v), vs));
    ScaleBoth(den, CountIf(LessThan(v), vs), k - 1);
  }

  /** The three percentiles in plain numbers. */
  lemma ReportInNumbers(r: Report, vs: seq<nat>)
    requires vs != [] && IsReportOf(r, vs)
    ensures ReportedFor(vs, r.p50, 1, 2) && ReportedFor(vs, r.p99, 99, 100) && ReportedFor(vs, r.p999, 999, 1000)
  {
    RanksInNumbers(|vs|);
    RankReported(vs, Rank(QUANTILES[0], |vs|), 1, 2);
    RankReported(vs, Rank(QUANTILES[1], |vs|), 99, 100);
    RankReported(vs, Rank(QUANTILES[2], |vs|), 999, 1000);
  }

  lemma ResultIsPercentile(buckets: map<u32, u64>, vs: seq<nat>, j: nat, p: nat)
    requires Counts(buckets, vs) && vs != [] && j < 3 && forall v | v in vs :: v < U64
    requires forall t: nat | Selects(buckets, QUANTILES[j], |vs|, t) :: p == Midpoint(t)
    ensures IsPercentile(vs, j, p)
  {
    SelectsOrderStatistic(buckets, vs, j);
    assert Selects(buckets, QUANTILES[j], |vs|, Bucket(KthSmallest(vs, Rank(QUANTILES[j], |vs|))));
  }

  lemma NoSamples(buckets: map<u32, u64>, vs: seq<nat>)
    requires Counts(buckets, vs) && forall v | v in vs :: v < U64
    ensures SumBelow(buckets, U32) == |vs|
    ensures buckets.Keys == {} ==> vs == []
  {
    SumOfAll(buckets, vs);
    if buckets.Keys == {} {
      assert buckets == map[];
      SumEmpty(U32);
    }
  }

  ghost predicate IsReportOf(r: Report, vs: seq<nat>)
    requires vs != []
  {
    && Counts(r.buckets, vs) && r.total == |vs|
    && IsPercentile(vs, 0, r.p50) && IsPercentile(vs, 1, r.p99) && IsPercentile(vs, 2, r.p999)
  }

  /** What the combined map holds in any case: every bucket count modulo 2^64. */
  ghost predicate CountsWrapped(buckets: map<u32, u64>, vs: seq<nat>) {
    && (forall s: u32 :: s in buckets ==> s < BUCKETS && buckets[s] > 0)
    && forall s: u32 | s < BUCKETS :: CountOf(buckets, s) == CountIf(InBucket(s), vs) % U64
  }

  lemma WrappedStep(sum: nat, count: nat, slot: nat, exact: nat)
    requires sum % U64 == count % U64 && slot == exact % U64
    ensures (sum + slot) % U64 == (count + exact) % U64
  {
    WrapAdd(count, exact);
    WrapAdd(sum, slot);
  }

  lemma {:induction false} SumOfWrapped(buckets: map<u32, u64>, vs: seq<nat>, n: nat)
    requires CountsWrapped(buckets, vs) && n <= BUCKETS
    ensures SumBelow(buckets, n) % U64 == CountIf(BucketBelow(n), vs) % U64
  {
    if n == 0 {
      CountAll(BucketBelow(0), vs);
    } else {
      SumOfWrapped(buckets, vs, n - 1);
      OneMoreBucket(vs, n - 1);
      WrappedStep(SumBelow(buckets, n - 1), CountIf(BucketBelow(n - 1), vs),
                  CountOf(buckets, n - 1), CountIf(InBucket(n - 1), vs));
    }
  }

  /** The reported total is the number of samples modulo 2^64. */
  lemma TotalWraps(buckets: map<u32, u64>, vs: seq<nat>)
    requires CountsWrapped(buckets, vs) && forall v | v in vs :: v < U64
    ensures SumBelow(buckets, U32) % U64 == |vs| % U64
  {
    SumBeyond(buckets, U32);
    SumOfWrapped(buckets, vs, BUCKETS);
    forall v | v in vs ensures Bucket(v) < BUCKETS {
      BucketFits(v);
    }
    CountAll(BucketBelow(BUCKETS), vs);
  }

  lemma AllPercentiles(combined: map<u32, u64>, vs: seq<nat>, results: seq<u64>)
    requires CountsWrapped(combined, vs) && 0 < |vs| < U64 && forall v | v in vs :: v < U64
    requires |results| == 3
    requires forall j, t: nat | 0 <= j < 3 && Selects(combined, QUANTILES[j], |vs|, t) :: results[j] == Midpoint(t)
    ensures Counts(combined, vs)
    ensures forall j | 0 <= j < 3 :: IsPercentile(vs, j, results[j])
  {
    CombinedCounts(combined, vs);
    forall j | 0 <= j < 3 ensures IsPercentile(vs, j, results[j]) {
      ResultIsPercentile(combined, vs, j, results[j]);
    }
  }

  lemma SummaryIsReport(combined: map<u32, u64>, vs: seq<nat>, results: seq<u64>, r: Report)
    requires CountsWrapped(combined, vs) && 0 < |vs| < U64 && forall v | v in vs :: v < U64
    requires |results| == 3
    requires forall j, t: nat | 0 <= j < 3 && Selects(combined, QUANTILES[j], |vs|, t) :: results[j] == Midpoint(t)
    requires r == Report(results[0], results[1], results[2], |vs|, combined)
    ensures IsReportOf(r, vs)
  {
    AllPercentiles(combined, vs, results);
  }

  lemma ExactTotal(combined: map<u32, u64>, vs: seq<nat>)
    requires CountsWrapped(combined, vs) && |vs| < U64 && forall v | v in vs :: v < U64
    ensures SumBelow(combined, U32) == |vs|
  {
    CombinedCounts(combined, vs);
    SumOfAll(combined, vs);
  }

  method Summarize(combined: map<u32, u64>, ghost vs: seq<nat>) returns (r: Report)
    requires CountsWrapped(combined, vs) && forall v | v in vs :: v < U64
    ensures r.total == |vs| % U64
    ensures 0 < |vs| < U64 ==> IsReportOf(r, vs)
  {
    TotalWraps(combined, vs);
    var results, total := ComputePercentiles(combined);
    r := Report(results[0], results[1], results[2], total, combined);
    if 0 < |vs| < U64 {
      ExactTotal(combined, vs);
      NoWrap(|vs|);
      SummaryIsReport(combined, vs, results, r);
    }
  }

  lemma ReportExists(combined: map<u32, u64>, vs: seq<nat>)
    requires CountsWrapped(combined, vs) && |vs| < U64 && forall v | v in vs :: v < U64
    ensures combined.Keys == {} <==> vs == []
  {
    CombinedCounts(combined, vs);
    NoSamples(combined, vs);
    if combined.Keys != {} {
      NonEmptyReport(combined, vs);
    }
  }

  /** From raw latencies on any CPUs to the reported percentiles: below 2^64 samples the
      total is exact and each percentile is the midpoint of the bucket of the exact order
      statistic. */
  method ReportHistogram(h: PercpuHistogram) returns (r: Option<Report>)
    requires h.Valid()
    ensures |h.samples| < U64 ==> (r.None? <==> h.samples == [])
    ensures r.Some? ==> r.value.total == |h.samples| % U64
    ensures r.Some? && 0 < |h.samples| < U64 ==> IsReportOf(r.value, Latencies(h.samples))
    ensures r.Some? && 0 < |h.samples| < U64 ==>
              && ReportedFor(Latencies(h.samples), r.value.p50, 1, 2)
              && ReportedFor(Latencies(h.samples), r.value.p99, 99, 100)
              && ReportedFor(Latencies(h.samples), r.value.p999, 999, 1000)
  {
    var combined := h.Combine();
    ghost var vs := Latencies(h.samples);
    if |h.samples| < U64 {
      ReportExists(combined, vs);
    }
    if combined.Keys == {} {
      return None;
    }
    var report := Summarize(combined, vs);
    if 0 < |vs| < U64 {
      ReportInNumbers(report, vs);
    }
    return Some(report);
  }

  lemma CombinedCounts(buckets: map<u32, u64>, vs: seq<nat>)
    requires |vs| < U64 && CountsWrapped(buckets, vs)
    ensures Counts(buckets, vs)
  {
    forall s: u32 | s < BUCKETS ensures CountOf(buckets, s) == CountIf(InBucket(s), vs) {
      NoWrap(CountIf(InBucket(s), vs));
    }
  }

  lemma NoWrap(n: nat)
    requires n < U64
    ensures n % U64 == n
  {
  }

  lemma NonEmptyReport(buckets: map<u32, u64>, vs: seq<nat>)
    requires Counts(buckets, vs) && buckets.Keys != {}
    requires forall s: u32 | s in buckets :: buckets[s] > 0
    ensures vs != []
  {
    var s :| s in buckets.Keys;
    assert CountOf(buckets, s) > 0;
  }
}
