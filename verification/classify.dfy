/** The per-read hit counts (`KmerCounts`) and the decision `update_stats`
    takes on them: which contaminant a read is assigned to, by a
    left-to-right scan keeping the first strict maximum. */
module Classify {
  import opened Common

  /** Hit counts of one read, for a panel of `n` contaminants: `hits[i]` is
      `kmers_from_contaminant[i]`, `uniqueHits[i]` is
      `unique_kmers_from_contaminant[i]`. */
  datatype KmerCounts = KmerCounts(
    kmersLoaded: nat,
    contaminantsDetected: nat,
    hits: seq<nat>,
    uniqueHits: seq<nat>)

  /** The per-contaminant arrays of `x` cover the `n` contaminants scanned. */
  predicate Covers(x: KmerCounts, n: nat)
  {
    |x.hits| == n && |x.uniqueHits| == n
  }

  /** The pair (`largest_kmers`, `largest_contaminant`) a scan carries. */
  datatype Best = Best(kmers: nat, index: nat)

  /** Position `i` is the first one, among the positions whose gate is
      nonzero, to hold the strictly greatest positive value. */
  ghost predicate IsFirstStrictMax(vals: seq<nat>, gate: seq<nat>, i: nat)
    requires |gate| == |vals|
  {
    && i < |vals|
    && gate[i] > 0
    && vals[i] > 0
    && (forall j :: 0 <= j < |vals| && gate[j] > 0 ==> vals[j] <= vals[i])
    && (forall j :: 0 <= j < i && gate[j] > 0 ==> vals[j] < vals[i])
  }

  /** The state of the scan after visiting positions `0 .. k-1`, starting
      from `largest_kmers = 0`, `largest_contaminant = 0`; a position whose
      gate is zero is skipped, and only a strictly greater value replaces
      the current best. */
  function Scan(vals: seq<nat>, gate: seq<nat>, k: nat): (r: Best)
    requires |gate| == |vals| && k <= |vals|
    ensures r.kmers == 0 ==> r.index == 0
    ensures forall j :: 0 <= j < k && gate[j] > 0 ==> vals[j] <= r.kmers
    ensures r.kmers > 0 ==>
      && r.index < k
      && gate[r.index] > 0
      && vals[r.index] == r.kmers
      && (forall j :: 0 <= j < r.index && gate[j] > 0 ==> vals[j] < r.kmers)
  {
    if k == 0 then Best(0, 0)
    else
      var b := Scan(vals, gate, k - 1);
      if gate[k - 1] > 0 && vals[k - 1] > b.kmers then Best(vals[k - 1], k - 1) else b
  }

  /** The scan's verdict: no assignment when the best value stayed 0. */
  function Pick(vals: seq<nat>, gate: seq<nat>): Option<nat>
    requires |gate| == |vals|
  {
    var b := Scan(vals, gate, |vals|);
    if b.kmers == 0 then None else Some(b.index)
  }

  /** The scan picks exactly the first strict maximum, and picks nothing
      exactly when every gated position holds 0. */
  lemma PickIsFirstStrictMax(vals: seq<nat>, gate: seq<nat>)
    requires |gate| == |vals|
    ensures forall i: nat :: Pick(vals, gate) == Some(i) <==> IsFirstStrictMax(vals, gate, i)
    ensures Pick(vals, gate) == None <==> forall j :: 0 <= j < |vals| && gate[j] > 0 ==> vals[j] == 0
  {
  }

  /** What `update_stats` writes back into the read's `KmerCounts`. */
  datatype Classification = Classification(contaminant: Option<nat>, uniqueContaminant: Option<nat>)

  /** The assignment made by `update_stats` for a panel of `n`
      contaminants. Both scans run only when k-mers were loaded, and only
      over contaminants with at least one raw hit; the raw scan is over the
      raw hits, the unique scan over the unique hits. */
  function ClassifyRead(x: KmerCounts, n: nat): (r: Classification)
    requires Covers(x, n)
    ensures r.contaminant.Some? ==> r.contaminant.value < n && x.hits[r.contaminant.value] > 0
    ensures r.uniqueContaminant.Some? ==>
      r.uniqueContaminant.value < n
      && x.hits[r.uniqueContaminant.value] > 0
      && x.uniqueHits[r.uniqueContaminant.value] > 0
    ensures x.kmersLoaded == 0 ==> r.contaminant.None? && r.uniqueContaminant.None?
  {
    if x.kmersLoaded > 0 then
      Classification(Pick(x.hits, x.hits), Pick(x.uniqueHits, x.hits))
    else
      Classification(None, None)
  }

  /** The assigned contaminant is the first index holding the strict
      maximum of the raw hits; a read with no k-mers loaded or no hits is
      unassigned. */
  lemma AssignmentTieBreak(x: KmerCounts, n: nat)
    requires Covers(x, n)
    ensures forall i: nat :: ClassifyRead(x, n).contaminant == Some(i) <==>
      x.kmersLoaded > 0 && IsFirstStrictMax(x.hits, x.hits, i)
    ensures ClassifyRead(x, n).contaminant == None <==>
      x.kmersLoaded == 0 || forall j :: 0 <= j < n ==> x.hits[j] == 0
  {
  }

  /** The unique assignment is the first strict maximum of the unique hits
      among the contaminants with raw hits, and is absent when none of
      those has a unique hit. */
  lemma UniqueAssignment(x: KmerCounts, n: nat)
    requires Covers(x, n)
    ensures forall i: nat :: ClassifyRead(x, n).uniqueContaminant == Some(i) <==>
      x.kmersLoaded > 0 && IsFirstStrictMax(x.uniqueHits, x.hits, i)
    ensures ClassifyRead(x, n).uniqueContaminant == None <==>
      x.kmersLoaded == 0 || forall j :: 0 <= j < n && x.hits[j] > 0 ==> x.uniqueHits[j] == 0
  {
  }

  /** Hits [0, 3, 3, 0]: the read goes to contaminant 1, not 2. */
  lemma TieGoesToFirst()
    ensures ClassifyRead(KmerCounts(6, 2, [0, 3, 3, 0], [0, 0, 0, 0]), 4).contaminant == Some(1)
  {
  }
}
