/** The pair counters (`KmerStatsBothReads`) and the sequential pair
    classifier `update_stats_for_both`: two independent passes, over raw
    and over unique hits, each crediting at most one outcome bucket, and
    the retention decision returned to the caller. */
module PairStats {
  import opened Common
  import opened Classify

  /** The command-line settings the pair classifier reads. */
  datatype Config = Config(thresholdRead: nat, thresholdOverall: nat, filterUnique: bool)

  /** One family of pair counters (raw or unique): the pair-wide and the
      per-contaminant threshold-passed, both-nonzero and either-nonzero
      counts. */
  datatype PairFamily = PairFamily(
    thresholdPassed: nat,
    bothNotThreshold: nat,
    eitherNotThreshold: nat,
    thresholdPassedBy: seq<nat>,
    bothNotThresholdBy: seq<nat>,
    eitherNotThresholdBy: seq<nat>)

  datatype PairCounters = PairCounters(
    numberOfReads: nat,
    kmersSeen: seq<nat>,
    raw: PairFamily,
    unique: PairFamily,
    filterRead: bool)

  predicate FamilyShaped(f: PairFamily, n: nat)
  {
    |f.thresholdPassedBy| == n && |f.bothNotThresholdBy| == n && |f.eitherNotThresholdBy| == n
  }

  predicate PairShaped(p: PairCounters, n: nat)
  {
    |p.kmersSeen| == n && FamilyShaped(p.raw, n) && FamilyShaped(p.unique, n)
  }

  function ZeroFamily(n: nat): (f: PairFamily)
    ensures FamilyShaped(f, n)
  {
    PairFamily(0, 0, 0, Zeros(n), Zeros(n), Zeros(n))
  }

  /** Pair counters as `calloc` leaves them. */
  function ZeroPairCounters(n: nat): (p: PairCounters)
    ensures PairShaped(p, n)
  {
    PairCounters(0, Zeros(n), ZeroFamily(n), ZeroFamily(n), false)
  }

  /** `kmer_stats_both_reads_initialise`: it clears the read count, both
      families and the filter flag, but not `contaminant_kmers_seen`. */
  function InitialisePair(p: PairCounters): (r: PairCounters)
    requires PairShaped(p, |p.kmersSeen|)
    ensures PairShaped(r, |p.kmersSeen|)
    ensures r.kmersSeen == p.kmersSeen
    ensures r.numberOfReads == 0 && !r.filterRead
    ensures r.raw == ZeroFamily(|p.kmersSeen|) && r.unique == ZeroFamily(|p.kmersSeen|)
  {
    var n := |p.kmersSeen|;
    PairCounters(0, p.kmersSeen, ZeroFamily(n), ZeroFamily(n), false)
  }

  /** Zeroed memory stays zero through the initialiser. */
  lemma CallocThenInitialisePairIsZero(n: nat)
    ensures InitialisePair(ZeroPairCounters(n)) == ZeroPairCounters(n)
  {
  }

  /** A contaminant whose two counts meet both per-read thresholds and the
      combined threshold. */
  predicate Strong(a: nat, b: nat, cfg: Config)
  {
    a >= cfg.thresholdRead && b >= cfg.thresholdRead && a + b >= cfg.thresholdOverall
  }

  predicate BothNonzero(a: nat, b: nat)
  {
    a >= 1 && b >= 1
  }

  /** Exactly one of the two counts is nonzero. */
  predicate EitherNonzero(a: nat, b: nat)
  {
    (a >= 1 && b == 0) || (a == 0 && b >= 1)
  }

  /** The local variables one pass keeps: `threshold_met`, the shared
      best-total tracker (`largest_kmers`, `largest_contaminant`),
      `one_in_both` and `one_in_either`. */
  datatype PassState = PassState(
    thresholdMet: bool,
    largestKmers: nat,
    largest: nat,
    oneInBoth: nat,
    oneInEither: nat)

  /** The tracker moves to contaminant `i` only for a strictly greater total. */
  function Track(s: PassState, t: nat, i: nat): PassState
  {
    if t > s.largestKmers then s.(largestKmers := t, largest := i) else s
  }

  /** The body of the loop of `update_stats_for_both` for contaminant `i`
      with counts `a`, `b`. Strong, both-nonzero and either-nonzero
      candidates all move the same tracker. */
  function PassStep(s: PassState, i: nat, a: nat, b: nat, cfg: Config): PassState
  {
    if Strong(a, b, cfg) then
      Track(s, a + b, i).(thresholdMet := true)
    else if !s.thresholdMet then
      if BothNonzero(a, b) then
        Track(s.(oneInBoth := s.oneInBoth + 1), a + b, i)
      else if EitherNonzero(a, b) then
        var s' := s.(oneInEither := s.oneInEither + 1);
        if s.oneInBoth == 0 then Track(s', a + b, i) else s'
      else
        s
    else
      s
  }

  ghost predicate SomeStrong(xs: seq<nat>, ys: seq<nat>, cfg: Config, k: nat)
    requires |xs| == |ys| && k <= |xs|
  {
    exists j :: 0 <= j < k && Strong(xs[j], ys[j], cfg)
  }

  ghost predicate SomeBoth(xs: seq<nat>, ys: seq<nat>, k: nat)
    requires |xs| == |ys| && k <= |xs|
  {
    exists j :: 0 <= j < k && BothNonzero(xs[j], ys[j])
  }

  ghost predicate SomeEither(xs: seq<nat>, ys: seq<nat>, k: nat)
    requires |xs| == |ys| && k <= |xs|
  {
    exists j :: 0 <= j < k && EitherNonzero(xs[j], ys[j])
  }

  /** The pass state after contaminants `0 .. k-1`. Once a strong match is
      seen the flag stays set; until then the two occurrence counters are
      positive exactly when such a contaminant occurred; the tracker never
      leaves the scanned range. */
  function PassScan(xs: seq<nat>, ys: seq<nat>, cfg: Config, k: nat): (r: PassState)
    requires |xs| == |ys| && k <= |xs|
    ensures r.thresholdMet <==> SomeStrong(xs, ys, cfg, k)
    ensures !r.thresholdMet ==> (r.oneInBoth > 0 <==> SomeBoth(xs, ys, k))
    ensures !r.thresholdMet ==> (r.oneInEither > 0 <==> SomeEither(xs, ys, k))
    ensures r.largestKmers == 0 ==> r.largest == 0
    ensures k == 0 ==> r.largest == 0
    ensures k > 0 ==> r.largest < k
  {
    if k == 0 then PassState(false, 0, 0, 0, 0)
    else
      var s := PassScan(xs, ys, cfg, k - 1);
      assert SomeStrong(xs, ys, cfg, k - 1) ==> SomeStrong(xs, ys, cfg, k);
      assert SomeBoth(xs, ys, k - 1) ==> SomeBoth(xs, ys, k);
      assert SomeEither(xs, ys, k - 1) ==> SomeEither(xs, ys, k);
      PassStep(s, k - 1, xs[k - 1], ys[k - 1], cfg)
  }

  /** The bucket one pass credits, with the tracked contaminant. */
  datatype PassOutcome =
    | ThresholdPassed(contaminant: nat)
    | BothNotThreshold(contaminant: nat)
    | EitherNotThreshold(contaminant: nat)
    | NoHit

  /** The `if / else if / else if` after the loop: threshold-met beats
      both-nonzero, which beats either-nonzero. */
  function OutcomeOf(s: PassState): PassOutcome
  {
    if s.thresholdMet then ThresholdPassed(s.largest)
    else if s.oneInBoth > 0 then BothNotThreshold(s.largest)
    else if s.oneInEither > 0 then EitherNotThreshold(s.largest)
    else NoHit
  }

  /** No both-nonzero and no either-nonzero contaminant means all counts
      are zero. */
  lemma NoOccurrenceMeansAllZero(xs: seq<nat>, ys: seq<nat>)
    requires |xs| == |ys|
    ensures !SomeBoth(xs, ys, |xs|) && !SomeEither(xs, ys, |xs|) <==>
      forall j :: 0 <= j < |xs| ==> xs[j] == 0 && ys[j] == 0
  {
  }

  /** One whole pass over the two mates' counts. */
  function RunPass(xs: seq<nat>, ys: seq<nat>, cfg: Config): (o: PassOutcome)
    requires |xs| == |ys|
    ensures o.ThresholdPassed? <==> SomeStrong(xs, ys, cfg, |xs|)
    ensures o.BothNotThreshold? <==> !SomeStrong(xs, ys, cfg, |xs|) && SomeBoth(xs, ys, |xs|)
    ensures o.EitherNotThreshold? <==>
      !SomeStrong(xs, ys, cfg, |xs|) && !SomeBoth(xs, ys, |xs|) && SomeEither(xs, ys, |xs|)
    ensures o.NoHit? <==>
      !SomeStrong(xs, ys, cfg, |xs|) && forall j :: 0 <= j < |xs| ==> xs[j] == 0 && ys[j] == 0
    ensures !o.NoHit? ==> o.contaminant < |xs|
    ensures !o.NoHit? ==> o.contaminant == PassScan(xs, ys, cfg, |xs|).largest
  {
    var s := PassScan(xs, ys, cfg, |xs|);
    NoOccurrenceMeansAllZero(xs, ys);
    OutcomeOf(s)
  }

  /** Sum of the three pair-wide buckets of a family. */
  function Total(f: PairFamily): nat
  {
    f.thresholdPassed + f.bothNotThreshold + f.eitherNotThreshold
  }

  /** The bucket of `o` gains one, pair-wide and for its contaminant;
      every other bucket and every other slot is unchanged. */
  function Credit(f: PairFamily, o: PassOutcome, n: nat): (r: PairFamily)
    requires FamilyShaped(f, n)
    requires !o.NoHit? ==> o.contaminant < n
    ensures FamilyShaped(r, n)
    ensures Total(r) == Total(f) + Bit(!o.NoHit?)
    ensures r.thresholdPassed == f.thresholdPassed + Bit(o.ThresholdPassed?)
    ensures r.bothNotThreshold == f.bothNotThreshold + Bit(o.BothNotThreshold?)
    ensures r.eitherNotThreshold == f.eitherNotThreshold + Bit(o.EitherNotThreshold?)
    ensures forall j :: 0 <= j < n ==>
      r.thresholdPassedBy[j] == f.thresholdPassedBy[j] + Bit(o == ThresholdPassed(j))
    ensures forall j :: 0 <= j < n ==>
      r.bothNotThresholdBy[j] == f.bothNotThresholdBy[j] + Bit(o == BothNotThreshold(j))
    ensures forall j :: 0 <= j < n ==>
      r.eitherNotThresholdBy[j] == f.eitherNotThresholdBy[j] + Bit(o == EitherNotThreshold(j))
  {
    match o
    case ThresholdPassed(c) =>
      f.(thresholdPassed := f.thresholdPassed + 1, thresholdPassedBy := Inc(f.thresholdPassedBy, c))
    case BothNotThreshold(c) =>
      f.(bothNotThreshold := f.bothNotThreshold + 1, bothNotThresholdBy := Inc(f.bothNotThresholdBy, c))
    case EitherNotThreshold(c) =>
      f.(eitherNotThreshold := f.eitherNotThreshold + 1, eitherNotThresholdBy := Inc(f.eitherNotThresholdBy, c))
    case NoHit => f
  }

  /** Each pair-wide bucket equals the sum of its per-contaminant slots. */
  predicate FamilyConsistent(f: PairFamily)
  {
    && f.thresholdPassed == Sum(f.thresholdPassedBy)
    && f.bothNotThreshold == Sum(f.bothNotThresholdBy)
    && f.eitherNotThreshold == Sum(f.eitherNotThresholdBy)
  }

  /** The pair-wide counter and the contaminant's counter move together. */
  lemma CreditKeepsFamilyConsistent(f: PairFamily, o: PassOutcome, n: nat)
    requires FamilyShaped(f, n) && FamilyConsistent(f)
    requires !o.NoHit? ==> o.contaminant < n
    ensures FamilyConsistent(Credit(f, o, n))
  {
    match o
    case ThresholdPassed(c) => SumInc(f.thresholdPassedBy, c);
    case BothNotThreshold(c) => SumInc(f.bothNotThresholdBy, c);
    case EitherNotThreshold(c) => SumInc(f.eitherNotThresholdBy, c);
    case NoHit =>
  }

  /** Family `r` is family `f` after one pass over counts `xs`, `ys`: the
      threshold-passed bucket gains one when some contaminant is a strong
      match; otherwise the both-nonzero bucket gains one when some
      contaminant has hits in both mates; otherwise the either-nonzero
      bucket gains one when some contaminant has hits in one mate. The
      per-contaminant slot that gains is the one the shared tracker ends
      on, and no other bucket or slot changes. */
  ghost predicate PassCredited(r: PairFamily, f: PairFamily, xs: seq<nat>, ys: seq<nat>, cfg: Config, n: nat)
    requires |xs| == n && |ys| == n && FamilyShaped(f, n) && FamilyShaped(r, n)
  {
    var strong := SomeStrong(xs, ys, cfg, n);
    var both := !strong && SomeBoth(xs, ys, n);
    var either := !strong && !SomeBoth(xs, ys, n) && SomeEither(xs, ys, n);
    var c := PassScan(xs, ys, cfg, n).largest;
    && r.thresholdPassed == f.thresholdPassed + Bit(strong)
    && r.bothNotThreshold == f.bothNotThreshold + Bit(both)
    && r.eitherNotThreshold == f.eitherNotThreshold + Bit(either)
    && (forall j :: 0 <= j < n ==> r.thresholdPassedBy[j] == f.thresholdPassedBy[j] + Bit(strong && j == c))
    && (forall j :: 0 <= j < n ==> r.bothNotThresholdBy[j] == f.bothNotThresholdBy[j] + Bit(both && j == c))
    && (forall j :: 0 <= j < n ==> r.eitherNotThresholdBy[j] == f.eitherNotThresholdBy[j] + Bit(either && j == c))
  }

  /** Crediting the outcome of a whole pass is the step `PassCredited`
      describes. */
  lemma CreditOfPass(f: PairFamily, xs: seq<nat>, ys: seq<nat>, cfg: Config, n: nat)
    requires |xs| == n && |ys| == n && FamilyShaped(f, n)
    ensures FamilyShaped(Credit(f, RunPass(xs, ys, cfg), n), n)
    ensures PassCredited(Credit(f, RunPass(xs, ys, cfg), n), f, xs, ys, cfg, n)
  {
  }

  /** Counters after the pair plus the value returned to the caller. */
  datatype PairUpdate = PairUpdate(counters: PairCounters, retain: bool)

  /** `update_stats_for_both` for mates `xa`, `xb` and a panel of `n`
      contaminants. The C loop interleaves the two passes, which share only
      the loop index. The pair read count, the k-mers-seen array and the
      stored filter flag are left alone. A pair is retained when its raw
      pass met the thresholds and unique filtering is off, or when its
      unique pass met them. */
  function UpdateStatsForBoth(p: PairCounters, xa: KmerCounts, xb: KmerCounts, n: nat, cfg: Config)
    : (r: PairUpdate)
    requires PairShaped(p, n) && Covers(xa, n) && Covers(xb, n)
    ensures PairShaped(r.counters, n)
    ensures r.counters.numberOfReads == p.numberOfReads
    ensures r.counters.kmersSeen == p.kmersSeen
    ensures r.counters.filterRead == p.filterRead
    ensures r.retain <==>
      (SomeStrong(xa.hits, xb.hits, cfg, n) && !cfg.filterUnique)
      || SomeStrong(xa.uniqueHits, xb.uniqueHits, cfg, n)
    ensures Total(r.counters.raw) <= Total(p.raw) + 1
    ensures Total(r.counters.unique) <= Total(p.unique) + 1
    ensures PassCredited(r.counters.raw, p.raw, xa.hits, xb.hits, cfg, n)
    ensures PassCredited(r.counters.unique, p.unique, xa.uniqueHits, xb.uniqueHits, cfg, n)
  {
    var raw := RunPass(xa.hits, xb.hits, cfg);
    var unique := RunPass(xa.uniqueHits, xb.uniqueHits, cfg);
    var retain := (raw.ThresholdPassed? && !cfg.filterUnique) || unique.ThresholdPassed?;
    CreditOfPass(p.raw, xa.hits, xb.hits, cfg, n);
    CreditOfPass(p.unique, xa.uniqueHits, xb.uniqueHits, cfg, n);
    PairUpdate(p.(raw := Credit(p.raw, raw, n), unique := Credit(p.unique, unique, n)), retain)
  }

  predicate PairConsistent(p: PairCounters)
  {
    FamilyConsistent(p.raw) && FamilyConsistent(p.unique)
  }

  /** Every update keeps each family's pair-wide counts equal to the sums
      of its per-contaminant counts. */
  lemma UpdateKeepsPairConsistent(p: PairCounters, xa: KmerCounts, xb: KmerCounts, n: nat, cfg: Config)
    requires PairShaped(p, n) && Covers(xa, n) && Covers(xb, n) && PairConsistent(p)
    ensures PairConsistent(UpdateStatsForBoth(p, xa, xb, n, cfg).counters)
  {
    CreditKeepsFamilyConsistent(p.raw, RunPass(xa.hits, xb.hits, cfg), n);
    CreditKeepsFamilyConsistent(p.unique, RunPass(xa.uniqueHits, xb.uniqueHits, cfg), n);
  }

  lemma ZeroPairIsConsistent(n: nat)
    ensures PairConsistent(ZeroPairCounters(n))
  {
    SumZeros(n);
  }

  /** Each pass credits exactly one bucket when some contaminant has a
      nonzero count in either mate, and none otherwise (read threshold at
      least 1, so that zero counts are never a strong match). */
  lemma OneBucketPerPass(p: PairCounters, xa: KmerCounts, xb: KmerCounts, n: nat, cfg: Config)
    requires PairShaped(p, n) && Covers(xa, n) && Covers(xb, n) && cfg.thresholdRead >= 1
    ensures var r := UpdateStatsForBoth(p, xa, xb, n, cfg).counters;
      && (Total(r.raw) == Total(p.raw) + 1 <==>
            exists j :: 0 <= j < n && (xa.hits[j] > 0 || xb.hits[j] > 0))
      && (Total(r.raw) == Total(p.raw) ==> r.raw == p.raw)
      && (Total(r.unique) == Total(p.unique) + 1 <==>
            exists j :: 0 <= j < n && (xa.uniqueHits[j] > 0 || xb.uniqueHits[j] > 0))
      && (Total(r.unique) == Total(p.unique) ==> r.unique == p.unique)
  {
  }

  /** With a read threshold of at least 1, a pass credits nothing exactly
      when every count in both mates is zero. */
  lemma NoHitIffAllZero(xs: seq<nat>, ys: seq<nat>, cfg: Config)
    requires |xs| == |ys| && cfg.thresholdRead >= 1
    ensures RunPass(xs, ys, cfg).NoHit? <==> forall j :: 0 <= j < |xs| ==> xs[j] == 0 && ys[j] == 0
  {
  }

  /** The raw family depends on the raw hits alone, the unique family on
      the unique hits alone. */
  lemma PassesAreIndependent(p: PairCounters, xa: KmerCounts, xb: KmerCounts, xa': KmerCounts, xb': KmerCounts, n: nat, cfg: Config)
    requires PairShaped(p, n)
    requires Covers(xa, n) && Covers(xb, n) && Covers(xa', n) && Covers(xb', n)
    ensures xa.hits == xa'.hits && xb.hits == xb'.hits ==>
      UpdateStatsForBoth(p, xa, xb, n, cfg).counters.raw == UpdateStatsForBoth(p, xa', xb', n, cfg).counters.raw
    ensures xa.uniqueHits == xa'.uniqueHits && xb.uniqueHits == xb'.uniqueHits ==>
      UpdateStatsForBoth(p, xa, xb, n, cfg).counters.unique == UpdateStatsForBoth(p, xa', xb', n, cfg).counters.unique
  {
  }

  /** Contaminant `i` can move the shared tracker: a strong match; a
      both-nonzero one before any strong match; or an either-nonzero one
      before any strong match and any both-nonzero one. */
  ghost predicate Tracked(xs: seq<nat>, ys: seq<nat>, cfg: Config, i: nat)
    requires |xs| == |ys| && i < |xs|
  {
    || Strong(xs[i], ys[i], cfg)
    || (!SomeStrong(xs, ys, cfg, i) && BothNonzero(xs[i], ys[i]))
    || (!SomeStrong(xs, ys, cfg, i) && !SomeBoth(xs, ys, i) && EitherNonzero(xs[i], ys[i]))
  }

  /** The combined count `a + b` of each contaminant. */
  function Totals(xs: seq<nat>, ys: seq<nat>): (t: seq<nat>)
    requires |xs| == |ys|
    ensures |t| == |xs|
    ensures forall j :: 0 <= j < |xs| ==> t[j] == xs[j] + ys[j]
  {
    seq(|xs|, j requires 0 <= j < |xs| => xs[j] + ys[j])
  }

  /** 1 where the contaminant is `Tracked`, 0 elsewhere. */
  ghost function TrackedGate(xs: seq<nat>, ys: seq<nat>, cfg: Config): (g: seq<nat>)
    requires |xs| == |ys|
    ensures |g| == |xs|
    ensures forall j :: 0 <= j < |xs| ==> g[j] == Bit(Tracked(xs, ys, cfg, j))
  {
    seq(|xs|, j requires 0 <= j < |xs| => Bit(Tracked(xs, ys, cfg, j)))
  }

  /** One loop step moves the tracker exactly when the contaminant is a
      candidate (strong; or both-nonzero before any strong match; or
      either-nonzero before any strong or both-nonzero match) and its total
      is strictly greater. */
  lemma StepMovesTracker(s: PassState, i: nat, a: nat, b: nat, cfg: Config)
    ensures var candidate := Strong(a, b, cfg)
      || (!s.thresholdMet && BothNonzero(a, b))
      || (!s.thresholdMet && s.oneInBoth == 0 && EitherNonzero(a, b));
      var r := PassStep(s, i, a, b, cfg);
      if candidate && a + b > s.largestKmers
      then r.largestKmers == a + b && r.largest == i
      else r.largestKmers == s.largestKmers && r.largest == s.largest
  {
  }

  /** Before the loop step for contaminant `i`, the step's candidate test
      on the pass state is exactly `Tracked`. */
  lemma CandidateIsTracked(xs: seq<nat>, ys: seq<nat>, cfg: Config, i: nat)
    requires |xs| == |ys| && i < |xs|
    ensures var s := PassScan(xs, ys, cfg, i);
      Tracked(xs, ys, cfg, i) <==>
        Strong(xs[i], ys[i], cfg)
        || (!s.thresholdMet && BothNonzero(xs[i], ys[i]))
        || (!s.thresholdMet && s.oneInBoth == 0 && EitherNonzero(xs[i], ys[i]))
  {
  }

  /** The scan over `k` contaminants is one loop step after the scan over
      `k - 1`. */
  lemma PassScanStep(xs: seq<nat>, ys: seq<nat>, cfg: Config, k: nat)
    requires |xs| == |ys| && 0 < k <= |xs|
    ensures PassScan(xs, ys, cfg, k) == PassStep(PassScan(xs, ys, cfg, k - 1), k - 1, xs[k - 1], ys[k - 1], cfg)
  {
  }

  /** The gated scan over `k` positions is one step after the scan over
      `k - 1`. */
  lemma GatedScanStep(vals: seq<nat>, gate: seq<nat>, k: nat)
    requires |gate| == |vals| && 0 < k <= |vals|
    ensures var prev := Scan(vals, gate, k - 1);
      Scan(vals, gate, k) == if gate[k - 1] > 0 && vals[k - 1] > prev.kmers then Best(vals[k - 1], k - 1) else prev
  {
  }

  /** The gate of contaminant `i` as the loop step sees it. */
  lemma GateIsCandidate(xs: seq<nat>, ys: seq<nat>, cfg: Config, i: nat)
    requires |xs| == |ys| && i < |xs|
    ensures var s := PassScan(xs, ys, cfg, i);
      TrackedGate(xs, ys, cfg)[i] > 0 <==>
        Strong(xs[i], ys[i], cfg)
        || (!s.thresholdMet && BothNonzero(xs[i], ys[i]))
        || (!s.thresholdMet && s.oneInBoth == 0 && EitherNonzero(xs[i], ys[i]))
  {
    CandidateIsTracked(xs, ys, cfg, i);
  }

  /** One loop step and one step of the gated scan move in lockstep when
      they start from the same best and the gate is the step's candidate
      test. */
  lemma TrackerStepIsScanStep(s: PassState, prev: Best, i: nat, a: nat, b: nat, cfg: Config, gate: nat, total: nat)
    requires s.largestKmers == prev.kmers && s.largest == prev.index
    requires total == a + b
    requires gate > 0 <==>
      Strong(a, b, cfg)
      || (!s.thresholdMet && BothNonzero(a, b))
      || (!s.thresholdMet && s.oneInBoth == 0 && EitherNonzero(a, b))
    ensures var r := PassStep(s, i, a, b, cfg);
      var q := if gate > 0 && total > prev.kmers then Best(total, i) else prev;
      r.largestKmers == q.kmers && r.largest == q.index
  {
    StepMovesTracker(s, i, a, b, cfg);
  }

  /** After `k` contaminants the shared tracker holds the same best as the
      gated scan of the combined counts. */
  ghost predicate TrackerAgrees(xs: seq<nat>, ys: seq<nat>, cfg: Config, k: nat)
    requires |xs| == |ys| && k <= |xs|
  {
    var s := PassScan(xs, ys, cfg, k);
    var b := Scan(Totals(xs, ys), TrackedGate(xs, ys, cfg), k);
    s.largestKmers == b.kmers && s.largest == b.index
  }

  /** Agreement after `i` contaminants carries over to `i + 1`. */
  lemma TrackerAgreementStep(xs: seq<nat>, ys: seq<nat>, cfg: Config, i: nat)
    requires |xs| == |ys| && i < |xs|
    requires TrackerAgrees(xs, ys, cfg, i)
    ensures TrackerAgrees(xs, ys, cfg, i + 1)
  {
    var s := PassScan(xs, ys, cfg, i);
    var t, g := Totals(xs, ys), TrackedGate(xs, ys, cfg);
    var prev := Scan(t, g, i);
    GateIsCandidate(xs, ys, cfg, i);
    TrackerStepIsScanStep(s, prev, i, xs[i], ys[i], cfg, g[i], t[i]);
    PassScanStep(xs, ys, cfg, i + 1);
    GatedScanStep(t, g, i + 1);
  }

  /** The shared tracker is a first-strict-maximum scan of the combined
      counts over the `Tracked` contaminants: it is the same scan as the one
      `update_stats` uses for a single read, with a different gate. */
  lemma {:induction false} TrackerIsScanOfTracked(xs: seq<nat>, ys: seq<nat>, cfg: Config, k: nat)
    requires |xs| == |ys| && k <= |xs|
    ensures TrackerAgrees(xs, ys, cfg, k)
  {
    if k > 0 {
      var i := k - 1;
      TrackerIsScanOfTracked(xs, ys, cfg, i);
      TrackerAgreementStep(xs, ys, cfg, i);
    }
  }

  /** A pass that credits a bucket has a tracked contaminant with a
      positive combined count (read threshold at least 1, so that a strong
      match has hits). */
  lemma TrackedWitness(xs: seq<nat>, ys: seq<nat>, cfg: Config) returns (j: nat)
    requires |xs| == |ys| && cfg.thresholdRead >= 1
    requires !RunPass(xs, ys, cfg).NoHit?
    ensures j < |xs| && Tracked(xs, ys, cfg, j) && xs[j] + ys[j] > 0
  {
    var o := RunPass(xs, ys, cfg);
    if o.ThresholdPassed? {
      j :| 0 <= j < |xs| && Strong(xs[j], ys[j], cfg);
    } else if o.BothNotThreshold? {
      j :| 0 <= j < |xs| && BothNonzero(xs[j], ys[j]);
      assert !SomeStrong(xs, ys, cfg, j);
    } else {
      j :| 0 <= j < |xs| && EitherNonzero(xs[j], ys[j]);
      assert !SomeStrong(xs, ys, cfg, j) && !SomeBoth(xs, ys, j);
    }
  }

  /** Whichever bucket a pass credits, the credited contaminant is the
      first strict maximum of the combined counts over the tracked
      contaminants, which may be one that does not itself qualify for that
      bucket. */
  lemma CreditedIsFirstMaxOfTracked(xs: seq<nat>, ys: seq<nat>, cfg: Config)
    requires |xs| == |ys| && cfg.thresholdRead >= 1
    requires !RunPass(xs, ys, cfg).NoHit?
    ensures IsFirstStrictMax(Totals(xs, ys), TrackedGate(xs, ys, cfg), RunPass(xs, ys, cfg).contaminant)
  {
    var j := TrackedWitness(xs, ys, cfg);
    TrackerIsScanOfTracked(xs, ys, cfg, |xs|);
    PickIsFirstStrictMax(Totals(xs, ys), TrackedGate(xs, ys, cfg));
  }

  /** The shared tracker at work: contaminant 0 has 5 k-mers in one mate
      only and is not a strong match; contaminant 1 passes with total 4.
      The threshold-passed bucket is credited to contaminant 0. */
  lemma SharedTrackerCreditsWeakerContaminant()
    ensures var cfg := Config(2, 4, false);
      && !Strong(5, 0, cfg)
      && Strong(2, 2, cfg)
      && RunPass([5, 2], [0, 2], cfg) == ThresholdPassed(0)
  {
  }

  /** The same effect on the both-nonzero bucket: contaminant 0 has 5
      k-mers in one mate only, contaminant 1 has hits in both mates, and
      the both-nonzero bucket is credited to contaminant 0. */
  lemma SharedTrackerCreditsOneMateContaminant()
    ensures var cfg := Config(2, 10, false);
      && !BothNonzero(5, 0)
      && BothNonzero(1, 1)
      && RunPass([5, 1], [0, 1], cfg) == BothNotThreshold(0)
  {
  }

  /** Mates [2, 0] and [2, 0], read threshold 1, pair threshold 3: the
      total 4 passes, so contaminant 0 gets the threshold-passed bucket. */
  lemma StrongMatchExample()
    ensures RunPass([2, 0], [2, 0], Config(1, 3, false)) == ThresholdPassed(0)
  {
  }

  /** Mates [1, 0] and [1, 0], read threshold 2: no strong match, so the
      both-nonzero bucket of contaminant 0 is credited. */
  lemma BothNonzeroExample()
    ensures RunPass([1, 0], [1, 0], Config(2, 1, false)) == BothNotThreshold(0)
  {
  }

  /** The retention value is decided by the thresholds of the two passes
      and the unique filter alone. */
  lemma RetentionTable(p: PairCounters, xa: KmerCounts, xb: KmerCounts, n: nat, cfg: Config)
    requires PairShaped(p, n) && Covers(xa, n) && Covers(xb, n)
    ensures var r := UpdateStatsForBoth(p, xa, xb, n, cfg);
      && (SomeStrong(xa.uniqueHits, xb.uniqueHits, cfg, n) ==> r.retain)
      && (cfg.filterUnique && !SomeStrong(xa.uniqueHits, xb.uniqueHits, cfg, n) ==> !r.retain)
      && (!cfg.filterUnique ==> (r.retain <==>
            SomeStrong(xa.hits, xb.hits, cfg, n) || SomeStrong(xa.uniqueHits, xb.uniqueHits, cfg, n)))
  {
  }
}
