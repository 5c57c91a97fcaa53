/** The per-mate counters (`KmerStatsReadCounts`) and the sequential
    per-read update `update_stats`, with the accounting invariants that the
    update keeps and the order independence that the locked variant
    `update_stats_parallel` relies on. */
module ReadStats {
  import opened Common
  import opened Classify

  /** One mate's counters. Every per-contaminant array has one slot per
      panel contaminant; `histogram` is `contaminated_kmers_per_read`, whose
      length is the capacity `MAX_READ_LENGTH`. `highest` is
      `reads_with_highest_contaminant`. */
  datatype ReadCounters = ReadCounters(
    numberOfReads: nat,
    k1Reads: nat,
    k1ByContaminant: seq<nat>,
    k1UniqueByContaminant: seq<nat>,
    knReads: nat,
    knByContaminant: seq<nat>,
    knUniqueByContaminant: seq<nat>,
    kmersSeen: seq<nat>,
    highest: seq<nat>,
    unclassified: nat,
    histogram: seq<nat>)

  /** The per-contaminant arrays have one slot for each of `n` contaminants. */
  predicate Shaped(c: ReadCounters, n: nat)
  {
    && |c.k1ByContaminant| == n
    && |c.k1UniqueByContaminant| == n
    && |c.knByContaminant| == n
    && |c.knUniqueByContaminant| == n
    && |c.kmersSeen| == n
    && |c.highest| == n
  }

  /** A histogram index past the end of `contaminated_kmers_per_read`. */
  datatype UpdateError = HistogramIndexOutOfRange(index: nat)

  /** Counters as `calloc` leaves them: every field zero. */
  function ZeroReadCounters(n: nat, maxReadLength: nat): (c: ReadCounters)
    ensures Shaped(c, n) && |c.histogram| == maxReadLength
  {
    ReadCounters(0, 0, Zeros(n), Zeros(n), 0, Zeros(n), Zeros(n), Zeros(n), Zeros(n), 0,
                 Zeros(maxReadLength))
  }

  /** `kmer_stats_read_counts_initialise`: it zeroes the read count, the k1
      counters, the overall kN count, the k-mers-seen array and the
      histogram, but leaves `kn_*_by_contaminant`, the per-contaminant assignment counts and
      `reads_unclassified` as they were. */
  function Initialise(c: ReadCounters): (r: ReadCounters)
    ensures r.numberOfReads == 0 && r.k1Reads == 0 && r.knReads == 0
    ensures r.knByContaminant == c.knByContaminant
    ensures r.knUniqueByContaminant == c.knUniqueByContaminant
    ensures r.highest == c.highest && r.unclassified == c.unclassified
    ensures r.k1ByContaminant == Zeros(|c.k1ByContaminant|)
    ensures r.k1UniqueByContaminant == Zeros(|c.k1UniqueByContaminant|)
    ensures r.kmersSeen == Zeros(|c.kmersSeen|)
    ensures r.histogram == Zeros(|c.histogram|)
    ensures forall n: nat :: Shaped(c, n) ==> Shaped(r, n)
  {
    c.(numberOfReads := 0, k1Reads := 0, knReads := 0,
       k1ByContaminant := Zeros(|c.k1ByContaminant|),
       k1UniqueByContaminant := Zeros(|c.k1UniqueByContaminant|),
       kmersSeen := Zeros(|c.kmersSeen|),
       histogram := Zeros(|c.histogram|))
  }

  /** The start state is all-zero only because `kmer_stats_initialise`
      `calloc`s the block before running the partial initialiser. */
  lemma CallocThenInitialiseIsZero(n: nat, maxReadLength: nat)
    ensures Initialise(ZeroReadCounters(n, maxReadLength)) == ZeroReadCounters(n, maxReadLength)
  {
  }

  /** The initialiser on its own does not clear a stale unclassified count. */
  lemma InitialiseKeepsStaleUnclassified()
    ensures Initialise(ZeroReadCounters(1, 1).(unclassified := 7)).unclassified == 7
  {
  }

  /** The histogram index computed by `update_stats`: the k-mers loaded,
      clamped to `MAX_READ_LENGTH` (not `MAX_READ_LENGTH - 1`). */
  function HistogramIndex(kmersLoaded: nat, maxReadLength: nat): (h: nat)
    ensures h <= maxReadLength
    ensures h == maxReadLength <==> kmersLoaded >= maxReadLength
    ensures h < maxReadLength ==> h == kmersLoaded
  {
    if kmersLoaded < maxReadLength then kmersLoaded else maxReadLength
  }

  /** Contaminants with at least one hit in a read with k-mers loaded. */
  function K1Flags(x: KmerCounts, n: nat): (f: seq<bool>)
    requires Covers(x, n)
    ensures |f| == n
  {
    seq(n, i requires 0 <= i < n => x.kmersLoaded > 0 && x.hits[i] > 0)
  }

  /** Contaminants with strictly more hits than the read threshold, in a
      read whose loaded k-mers reach that threshold. */
  function KnFlags(x: KmerCounts, n: nat, thresholdRead: nat): (f: seq<bool>)
    requires Covers(x, n)
    ensures |f| == n
  {
    seq(n, i requires 0 <= i < n => x.kmersLoaded >= thresholdRead && x.hits[i] > thresholdRead)
  }

  /** The flags restricted to reads in which exactly one contaminant was
      detected. */
  function IfSingle(x: KmerCounts, f: seq<bool>): (g: seq<bool>)
    ensures |g| == |f|
  {
    seq(|f|, i requires 0 <= i < |f| => f[i] && x.contaminantsDetected == 1)
  }

  /** `update_stats` for a panel of `n` contaminants and threshold
      `thresholdRead`. The C code writes the histogram slot
      `HistogramIndex(...)` even when it is one past the end of the array;
      here that write is the failure case. */
  function UpdateStats(c: ReadCounters, x: KmerCounts, n: nat, thresholdRead: nat)
    : (r: Result<ReadCounters, UpdateError>)
    requires Shaped(c, n) && Covers(x, n)
    ensures r.Success? <==> x.kmersLoaded < |c.histogram|
    ensures r.Failure? ==> r.error == HistogramIndexOutOfRange(|c.histogram|)
    ensures r.Success? ==>
      && Shaped(r.value, n)
      && |r.value.histogram| == |c.histogram|
      && r.value.numberOfReads == c.numberOfReads + 1
  {
    var h := HistogramIndex(x.kmersLoaded, |c.histogram|);
    if h >= |c.histogram| then
      Failure(HistogramIndexOutOfRange(h))
    else
      var k1 := K1Flags(x, n);
      var kn := KnFlags(x, n, thresholdRead);
      var cls := ClassifyRead(x, n);
      Success(c.(
        numberOfReads := c.numberOfReads + 1,
        histogram := Inc(c.histogram, h),
        k1Reads := c.k1Reads + Bit(x.kmersLoaded > 0),
        k1ByContaminant := AddWhere(c.k1ByContaminant, k1),
        k1UniqueByContaminant := AddWhere(c.k1UniqueByContaminant, IfSingle(x, k1)),
        knReads := c.knReads + Bit(x.kmersLoaded >= thresholdRead),
        knByContaminant := AddWhere(c.knByContaminant, kn),
        knUniqueByContaminant := AddWhere(c.knUniqueByContaminant, IfSingle(x, kn)),
        highest := IncAt(c.highest, cls.contaminant),
        unclassified := c.unclassified + Bit(cls.contaminant.None?)))
  }

  /** What one successful update adds to each counter: the read is counted
      once, in the histogram bucket of its loaded k-mers, and either as
      unclassified or under the contaminant it is assigned to; the k1
      counters move only for a read with k-mers loaded, the kN counters only
      for a read reaching the threshold, per contaminant with strictly more
      hits than the threshold; the k-mers-seen array is left alone. */
  lemma UpdateStatsCounts(c: ReadCounters, x: KmerCounts, n: nat, thresholdRead: nat)
    requires Shaped(c, n) && Covers(x, n)
    requires UpdateStats(c, x, n, thresholdRead).Success?
    ensures var d := UpdateStats(c, x, n, thresholdRead).value;
      // one read, counted in the bucket of its loaded k-mers
      && (forall b :: 0 <= b < |c.histogram| ==>
            d.histogram[b] == c.histogram[b] + Bit(b == x.kmersLoaded))
      && Sum(d.histogram) == Sum(c.histogram) + 1
      // either unclassified or credited to its contaminant, never both
      && d.unclassified == c.unclassified + Bit(ClassifyRead(x, n).contaminant.None?)
      && (forall i :: 0 <= i < n ==>
            d.highest[i] == c.highest[i] + Bit(ClassifyRead(x, n).contaminant == Some(i)))
      && Sum(d.highest) + d.unclassified == Sum(c.highest) + c.unclassified + 1
      // the k1 gates
      && d.k1Reads == c.k1Reads + Bit(x.kmersLoaded > 0)
      && (forall i :: 0 <= i < n ==>
            d.k1ByContaminant[i] == c.k1ByContaminant[i] + Bit(x.kmersLoaded > 0 && x.hits[i] > 0))
      && (forall i :: 0 <= i < n ==>
            d.k1UniqueByContaminant[i] == c.k1UniqueByContaminant[i]
              + Bit(x.kmersLoaded > 0 && x.hits[i] > 0 && x.contaminantsDetected == 1))
      // the kN gates: `>=` for the read, strict `>` per contaminant
      && d.knReads == c.knReads + Bit(x.kmersLoaded >= thresholdRead)
      && (forall i :: 0 <= i < n ==>
            d.knByContaminant[i] == c.knByContaminant[i]
              + Bit(x.kmersLoaded >= thresholdRead && x.hits[i] > thresholdRead))
      && (forall i :: 0 <= i < n ==>
            d.knUniqueByContaminant[i] == c.knUniqueByContaminant[i]
              + Bit(x.kmersLoaded >= thresholdRead && x.hits[i] > thresholdRead
                    && x.contaminantsDetected == 1))
      && d.kmersSeen == c.kmersSeen
  {
    SumInc(c.histogram, x.kmersLoaded);
  }

  /** The bounds among contaminant `i`'s counters and the read totals. */
  ghost predicate BoundsAt(c: ReadCounters, i: nat)
    requires Shaped(c, |c.highest|) && i < |c.highest|
  {
    && c.knByContaminant[i] <= c.k1ByContaminant[i] <= c.k1Reads
    && c.knByContaminant[i] <= c.knReads
    && c.k1UniqueByContaminant[i] <= c.k1ByContaminant[i]
    && c.knUniqueByContaminant[i] <= c.knByContaminant[i]
    && c.knUniqueByContaminant[i] <= c.k1UniqueByContaminant[i]
    && c.highest[i] <= c.k1ByContaminant[i]
  }

  /** Every read counted is in exactly one histogram bucket, and is either
      unclassified or counted under exactly one contaminant. */
  ghost predicate Accounted(c: ReadCounters)
  {
    && Sum(c.highest) + c.unclassified == c.numberOfReads
    && Sum(c.histogram) == c.numberOfReads
  }

  /** The bounds among the counters that every reachable state keeps; they
      are what keeps each percentage of `kmer_stats_calculate_read` within
      [0, 100]. */
  ghost predicate Consistent(c: ReadCounters, n: nat)
  {
    && Shaped(c, n)
    && Accounted(c)
    && c.knReads <= c.k1Reads <= c.numberOfReads
    && (forall i :: 0 <= i < n ==> BoundsAt(c, i))
  }

  lemma ZeroIsConsistent(n: nat, maxReadLength: nat)
    ensures Consistent(ZeroReadCounters(n, maxReadLength), n)
  {
    SumZeros(n);
    SumZeros(maxReadLength);
  }

  /** Whatever the read threshold, one update keeps the accounting. */
  lemma UpdateKeepsAccounting(c: ReadCounters, x: KmerCounts, n: nat, thresholdRead: nat)
    requires Shaped(c, n) && Accounted(c) && Covers(x, n)
    requires UpdateStats(c, x, n, thresholdRead).Success?
    ensures Accounted(UpdateStats(c, x, n, thresholdRead).value)
  {
    UpdateStatsCounts(c, x, n, thresholdRead);
  }

  /** With a read threshold of at least 1, one update keeps the bounds. */
  lemma UpdatePreservesConsistency(c: ReadCounters, x: KmerCounts, n: nat, thresholdRead: nat)
    requires Consistent(c, n) && Covers(x, n) && thresholdRead >= 1
    requires UpdateStats(c, x, n, thresholdRead).Success?
    ensures Consistent(UpdateStats(c, x, n, thresholdRead).value, n)
  {
    var d := UpdateStats(c, x, n, thresholdRead).value;
    UpdateStatsCounts(c, x, n, thresholdRead);
    forall i | 0 <= i < n
      ensures BoundsAt(d, i)
    {
      assert BoundsAt(c, i);
      if ClassifyRead(x, n).contaminant == Some(i) {
        assert x.kmersLoaded > 0 && x.hits[i] > 0;
      }
    }
  }

  /** Without the `threshold_read >= 1` precondition the kN count can
      overtake the k1 count: a read with no k-mers still passes a zero
      threshold. */
  lemma ZeroThresholdBreaksBound()
    ensures var r := UpdateStats(ZeroReadCounters(0, 1), KmerCounts(0, 0, [], []), 0, 0);
      r.Success? && r.value.knReads == 1 && r.value.k1Reads == 0
  {
  }

  predicate AllCover(batch: seq<KmerCounts>, n: nat)
  {
    forall k :: 0 <= k < |batch| ==> Covers(batch[k], n)
  }

  /** One more read on top of a result that may already have failed. */
  function Then(r: Result<ReadCounters, UpdateError>, x: KmerCounts, n: nat, thresholdRead: nat)
    : Result<ReadCounters, UpdateError>
    requires r.Success? ==> Shaped(r.value, n)
    requires Covers(x, n)
  {
    match r
    case Failure(e) => Failure(e)
    case Success(c) => UpdateStats(c, x, n, thresholdRead)
  }

  /** `update_stats` applied to the reads in order, stopping at the first
      out-of-range histogram write. */
  function FoldReads(c: ReadCounters, batch: seq<KmerCounts>, n: nat, thresholdRead: nat)
    : (r: Result<ReadCounters, UpdateError>)
    requires Shaped(c, n) && AllCover(batch, n)
    ensures r.Failure? ==> r.error == HistogramIndexOutOfRange(|c.histogram|)
    ensures r.Success? ==>
      && Shaped(r.value, n)
      && |r.value.histogram| == |c.histogram|
      && r.value.numberOfReads == c.numberOfReads + |batch|
    decreases |batch|
  {
    if |batch| == 0 then Success(c)
    else
      match UpdateStats(c, batch[0], n, thresholdRead)
      case Failure(e) => Failure(e)
      case Success(d) =>
        assert AllCover(batch[1..], n);
        FoldReads(d, batch[1..], n, thresholdRead)
  }

  /** A run fails exactly when some read's loaded k-mers reach the
      histogram capacity. */
  lemma {:induction false} FoldSucceedsIff(c: ReadCounters, batch: seq<KmerCounts>, n: nat, thresholdRead: nat)
    requires Shaped(c, n) && AllCover(batch, n)
    ensures FoldReads(c, batch, n, thresholdRead).Success? <==>
      forall k :: 0 <= k < |batch| ==> batch[k].kmersLoaded < |c.histogram|
    decreases |batch|
  {
    if |batch| > 0 {
      assert AllCover(batch[1..], n);
      match UpdateStats(c, batch[0], n, thresholdRead)
      case Failure(e) =>
      case Success(d) =>
        FoldSucceedsIff(d, batch[1..], n, thresholdRead);
        assert forall k :: 1 <= k < |batch| ==> batch[k] == batch[1..][k - 1];
    }
  }

  /** Whatever the read threshold, a whole run keeps the accounting. */
  lemma {:induction false} FoldKeepsAccounting(c: ReadCounters, batch: seq<KmerCounts>, n: nat, thresholdRead: nat)
    requires Shaped(c, n) && Accounted(c) && AllCover(batch, n)
    requires FoldReads(c, batch, n, thresholdRead).Success?
    ensures Accounted(FoldReads(c, batch, n, thresholdRead).value)
    decreases |batch|
  {
    if |batch| > 0 {
      UpdateKeepsAccounting(c, batch[0], n, thresholdRead);
      var d := UpdateStats(c, batch[0], n, thresholdRead).value;
      assert AllCover(batch[1..], n);
      FoldKeepsAccounting(d, batch[1..], n, thresholdRead);
    }
  }

  /** From the all-zero start, every read is counted exactly once: in one
      histogram bucket, and either as unclassified or under exactly one
      contaminant; and every k1/kN bound holds. */
  lemma {:induction false} FoldPreservesConsistency(c: ReadCounters, batch: seq<KmerCounts>, n: nat, thresholdRead: nat)
    requires Consistent(c, n) && AllCover(batch, n) && thresholdRead >= 1
    requires FoldReads(c, batch, n, thresholdRead).Success?
    ensures Consistent(FoldReads(c, batch, n, thresholdRead).value, n)
    decreases |batch|
  {
    if |batch| > 0 {
      UpdatePreservesConsistency(c, batch[0], n, thresholdRead);
      var d := UpdateStats(c, batch[0], n, thresholdRead).value;
      assert AllCover(batch[1..], n);
      FoldPreservesConsistency(d, batch[1..], n, thresholdRead);
    }
  }

  /** The accounting identities for a whole run from the `calloc`'d start,
      for every read threshold; the k1/kN bounds as well when the threshold
      is at least 1. */
  lemma AccountingFromZero(batch: seq<KmerCounts>, n: nat, maxReadLength: nat, thresholdRead: nat)
    requires AllCover(batch, n)
    requires forall k :: 0 <= k < |batch| ==> batch[k].kmersLoaded < maxReadLength
    ensures var r := FoldReads(ZeroReadCounters(n, maxReadLength), batch, n, thresholdRead);
      && r.Success?
      && r.value.numberOfReads == |batch|
      && Sum(r.value.highest) + r.value.unclassified == |batch|
      && Sum(r.value.histogram) == |batch|
      && (thresholdRead >= 1 ==> Consistent(r.value, n))
  {
    var z := ZeroReadCounters(n, maxReadLength);
    FoldSucceedsIff(z, batch, n, thresholdRead);
    ZeroIsConsistent(n, maxReadLength);
    FoldKeepsAccounting(z, batch, n, thresholdRead);
    if thresholdRead >= 1 {
      FoldPreservesConsistency(z, batch, n, thresholdRead);
    }
  }

  /** Two reads give the same counters, or the same failure, in either
      order: every update adds amounts that depend on the read alone. */
  lemma UpdatesCommute(c: ReadCounters, a: KmerCounts, b: KmerCounts, n: nat, thresholdRead: nat)
    requires Shaped(c, n) && Covers(a, n) && Covers(b, n)
    ensures Then(UpdateStats(c, a, n, thresholdRead), b, n, thresholdRead)
         == Then(UpdateStats(c, b, n, thresholdRead), a, n, thresholdRead)
  {
    var ra := UpdateStats(c, a, n, thresholdRead);
    var rb := UpdateStats(c, b, n, thresholdRead);
    if ra.Success? && rb.Success? {
      var k1a, k1b := K1Flags(a, n), K1Flags(b, n);
      var kna, knb := KnFlags(a, n, thresholdRead), KnFlags(b, n, thresholdRead);
      IncCommutes(c.histogram, a.kmersLoaded, b.kmersLoaded);
      AddWhereCommutes(c.k1ByContaminant, k1a, k1b);
      AddWhereCommutes(c.k1UniqueByContaminant, IfSingle(a, k1a), IfSingle(b, k1b));
      AddWhereCommutes(c.knByContaminant, kna, knb);
      AddWhereCommutes(c.knUniqueByContaminant, IfSingle(a, kna), IfSingle(b, knb));
      IncAtCommutes(c.highest, ClassifyRead(a, n).contaminant, ClassifyRead(b, n).contaminant);
    }
  }

  /** Swapping two adjacent reads at the front does not change the result. */
  lemma SwapFront(c: ReadCounters, a: KmerCounts, b: KmerCounts, rest: seq<KmerCounts>, n: nat, thresholdRead: nat)
    requires Shaped(c, n) && Covers(a, n) && Covers(b, n) && AllCover(rest, n)
    ensures AllCover([a, b] + rest, n) && AllCover([b, a] + rest, n)
    ensures FoldReads(c, [a, b] + rest, n, thresholdRead) == FoldReads(c, [b, a] + rest, n, thresholdRead)
  {
    var ab := [a, b] + rest;
    var ba := [b, a] + rest;
    assert ab[1..] == [b] + rest && ab[1..][1..] == rest;
    assert ba[1..] == [a] + rest && ba[1..][1..] == rest;
    UpdatesCommute(c, a, b, n, thresholdRead);
  }

  /** The reads with the one at position `k` moved to the front. */
  function Front(batch: seq<KmerCounts>, k: nat): (r: seq<KmerCounts>)
    requires k < |batch|
    ensures |r| == |batch| && r[0] == batch[k]
    ensures r[1..] == batch[..k] + batch[k + 1..]
    ensures multiset(r) == multiset(batch)
  {
    assert batch == batch[..k] + [batch[k]] + batch[k + 1..];
    [batch[k]] + batch[..k] + batch[k + 1..]
  }

  lemma AllCoverPermutation(xs: seq<KmerCounts>, ys: seq<KmerCounts>, n: nat)
    requires AllCover(ys, n) && multiset(xs) <= multiset(ys)
    ensures AllCover(xs, n)
  {
    forall j | 0 <= j < |xs|
      ensures Covers(xs[j], n)
    {
      assert xs[j] in multiset(ys);
    }
  }

  /** Moving position `k` of the reads to the front is moving position
      `k - 1` of the tail to the front of the tail, then swapping the first
      two reads. */
  lemma FrontOfTail(batch: seq<KmerCounts>, k: nat)
    requires 0 < k < |batch|
    ensures Front(batch, k) == [batch[k], batch[0]] + Front(batch[1..], k - 1)[1..]
    ensures ([batch[0], batch[k]] + Front(batch[1..], k - 1)[1..])[1..] == Front(batch[1..], k - 1)
  {
  }

  /** Moving the read at position `k` to the front does not change the result. */
  lemma {:induction false} MoveToFront(c: ReadCounters, batch: seq<KmerCounts>, k: nat, n: nat, thresholdRead: nat)
    requires Shaped(c, n) && AllCover(batch, n) && k < |batch|
    ensures AllCover(Front(batch, k), n)
    ensures FoldReads(c, batch, n, thresholdRead) == FoldReads(c, Front(batch, k), n, thresholdRead)
    decreases k
  {
    AllCoverPermutation(Front(batch, k), batch, n);
    if k == 0 {
      assert Front(batch, k) == batch;
    } else {
      var tail := batch[1..];
      assert AllCover(tail, n);
      var rest := Front(tail, k - 1)[1..];
      assert Front(tail, k - 1) == [tail[k - 1]] + rest;
      assert multiset(rest) <= multiset(tail);
      AllCoverPermutation(rest, tail, n);
      var swapped := [batch[0], batch[k]] + rest;
      FrontOfTail(batch, k);
      SwapFront(c, batch[0], batch[k], rest, n, thresholdRead);
      assert swapped[0] == batch[0];
      match UpdateStats(c, batch[0], n, thresholdRead)
      case Failure(e) =>
        assert FoldReads(c, swapped, n, thresholdRead) == Failure(e);
      case Success(d) =>
        calc {
          FoldReads(c, batch, n, thresholdRead);
          FoldReads(d, tail, n, thresholdRead);
          { MoveToFront(d, tail, k - 1, n, thresholdRead); }
          FoldReads(d, Front(tail, k - 1), n, thresholdRead);
          FoldReads(c, swapped, n, thresholdRead);
        }
    }
  }

  lemma MultisetTail(s: seq<KmerCounts>)
    requires |s| > 0
    ensures multiset(s[1..]) == multiset(s) - multiset{s[0]}
  {
    assert s == [s[0]] + s[1..];
  }

  /** Order independence: folding `update_stats` over any permutation of
      the same batch gives the same counters (or the same failure), so reads
      may be processed in any order. `update_stats_parallel` goes further
      and locks each single increment, so increments of different reads
      interleave; every field is still a sum of per-read increments, so any
      interleaving of whole increments ends in the same counters, but this
      lemma states read order only. */
  lemma {:induction false} FoldReadsPermutation(c: ReadCounters, xs: seq<KmerCounts>, ys: seq<KmerCounts>, n: nat, thresholdRead: nat)
    requires Shaped(c, n) && AllCover(xs, n) && AllCover(ys, n)
    requires multiset(xs) == multiset(ys)
    ensures FoldReads(c, xs, n, thresholdRead) == FoldReads(c, ys, n, thresholdRead)
    decreases |xs|
  {
    if |xs| == 0 {
      assert |ys| == |multiset(ys)| == 0;
    } else {
      var x := xs[0];
      assert x in multiset(ys);
      var k :| 0 <= k < |ys| && ys[k] == x;
      MoveToFront(c, ys, k, n, thresholdRead);
      var front := Front(ys, k);
      MultisetTail(xs);
      MultisetTail(front);
      AllCoverPermutation(xs[1..], xs, n);
      AllCoverPermutation(front[1..], ys, n);
      match UpdateStats(c, x, n, thresholdRead)
      case Failure(e) =>
      case Success(d) =>
        FoldReadsPermutation(d, xs[1..], front[1..], n, thresholdRead);
    }
  }
}
