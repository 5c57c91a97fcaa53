/** The read percentages of `kmer_stats_calculate_read`, in exact real
    arithmetic in place of C `double`s, and the [0, 100] bound they owe to
    the counter invariants. */
module Percentages {
  import opened Common
  import opened ReadStats

  /** `(100.0 * count) / total`. The C code divides without checking the
      total; here a zero total is excluded by the precondition. */
  ghost function Percent(count: nat, total: nat): (p: real)
    requires total > 0
    ensures 0.0 <= p
    ensures count <= total ==> p <= 100.0
    ensures p == 100.0 <==> count == total
    ensures p * total as real == 100.0 * count as real
  {
    var q := count as real / total as real;
    assert count <= total ==> q <= 1.0;
    assert q == 1.0 <==> count == total;
    100.0 * q
  }

  /** The per-read percentage fields of `KmerStatsReadCounts`. */
  datatype ReadPercentages = ReadPercentages(
    k1: real,
    kn: real,
    k1ByContaminant: seq<real>,
    k1UniqueByContaminant: seq<real>,
    knByContaminant: seq<real>,
    knUniqueByContaminant: seq<real>)

  /** Every count of an array as a percentage of `total`. */
  ghost function PercentsOf(counts: seq<nat>, total: nat): (r: seq<real>)
    requires total > 0
    ensures |r| == |counts|
    ensures forall i :: 0 <= i < |counts| ==> r[i] == Percent(counts[i], total)
    ensures forall i :: 0 <= i < |counts| ==> r[i] * total as real == 100.0 * counts[i] as real
  {
    seq(|counts|, i requires 0 <= i < |counts| => Percent(counts[i], total))
  }

  /** Each count of `c` as a percentage of its read count: scaled back by
      the read count, every percentage gives 100 times its count. */
  ghost function CalculateRead(c: ReadCounters, n: nat): (p: ReadPercentages)
    requires Shaped(c, n) && c.numberOfReads > 0
    ensures |p.k1ByContaminant| == n && |p.k1UniqueByContaminant| == n
    ensures |p.knByContaminant| == n && |p.knUniqueByContaminant| == n
    ensures p.k1 * c.numberOfReads as real == 100.0 * c.k1Reads as real
    ensures p.kn * c.numberOfReads as real == 100.0 * c.knReads as real
    ensures forall i :: 0 <= i < n ==>
      p.k1ByContaminant[i] * c.numberOfReads as real == 100.0 * c.k1ByContaminant[i] as real
    ensures forall i :: 0 <= i < n ==>
      p.k1UniqueByContaminant[i] * c.numberOfReads as real == 100.0 * c.k1UniqueByContaminant[i] as real
    ensures forall i :: 0 <= i < n ==>
      p.knByContaminant[i] * c.numberOfReads as real == 100.0 * c.knByContaminant[i] as real
    ensures forall i :: 0 <= i < n ==>
      p.knUniqueByContaminant[i] * c.numberOfReads as real == 100.0 * c.knUniqueByContaminant[i] as real
  {
    var total := c.numberOfReads;
    ReadPercentages(
      Percent(c.k1Reads, total),
      Percent(c.knReads, total),
      PercentsOf(c.k1ByContaminant, total),
      PercentsOf(c.k1UniqueByContaminant, total),
      PercentsOf(c.knByContaminant, total),
      PercentsOf(c.knUniqueByContaminant, total))
  }

  ghost predicate InRange(p: real)
  {
    0.0 <= p <= 100.0
  }

  /** Every percentage of a consistent state with at least one read lies in
      [0, 100], and a contaminant never has a larger kN than k1 share. */
  lemma PercentagesInRange(c: ReadCounters, n: nat)
    requires Consistent(c, n) && c.numberOfReads > 0
    ensures var p := CalculateRead(c, n);
      && InRange(p.k1) && InRange(p.kn) && p.kn <= p.k1
      && (forall i :: 0 <= i < n ==>
            && InRange(p.k1ByContaminant[i])
            && InRange(p.k1UniqueByContaminant[i])
            && InRange(p.knByContaminant[i])
            && InRange(p.knUniqueByContaminant[i])
            && p.knByContaminant[i] <= p.k1ByContaminant[i])
  {
    var p := CalculateRead(c, n);
    var total := c.numberOfReads;
    PercentMonotone(c.knReads, c.k1Reads, total);
    forall i | 0 <= i < n
      ensures InRange(p.k1ByContaminant[i]) && InRange(p.k1UniqueByContaminant[i])
      ensures InRange(p.knByContaminant[i]) && InRange(p.knUniqueByContaminant[i])
      ensures p.knByContaminant[i] <= p.k1ByContaminant[i]
    {
      assert BoundsAt(c, i);
      PercentMonotone(c.knByContaminant[i], c.k1ByContaminant[i], total);
    }
  }

  lemma PercentMonotone(a: nat, b: nat, total: nat)
    requires total > 0 && a <= b
    ensures Percent(a, total) <= Percent(b, total)
  {
    assert a as real / total as real <= b as real / total as real;
  }
}
