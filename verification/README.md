# kontaminant read statistics, modelled in Dafny

kontaminant screens sequencing reads against a panel of contaminant
genomes. Every read is given a `KmerCounts` record: how many of its k-mers
were found in the k-mer table, and how many of those belong to each
contaminant, in total and uniquely. `src/kmer_stats.c` turns these
records into statistics. This project models that statistics core:

- **Per-read accounting.** `update_stats` bumps the read counters. It fills
  the coverage histogram and assigns each read to the contaminant with the
  strictly greatest hit count; on a tie the first contaminant wins. It also
  counts the k1 reads (at least one k-mer) and the kN reads (at least the
  read threshold).
- **Pair classification.** `update_stats_for_both` looks at the two mates
  of a read pair. The raw counts and the unique counts are scanned in two
  separate passes. Each pass credits at most one of three buckets in its
  own family of counters: threshold passed, k-mers in both mates, or
  k-mers in one mate only. A pass in which no contaminant has a hit
  credits none. The function also decides whether the pair is retained.
- **Co-occurrence.** `check_kmers_in_common` and `check_unique_kmers` run
  over every stored k-mer. They build the contaminant co-occurrence matrix
  and the per-contaminant unique k-mer counts. The
  `n_contaminants < 2` guard of `kmer_stats_compare_contaminant_kmers` is
  modelled too.
- **Setup and percentages.** The model covers the zeroing initialisers and
  the read percentages of `kmer_stats_calculate_read`.

Everything is a pure function over immutable datatypes:

| file | module | models |
|---|---|---|
| `common.dfy` | `Common` | `Option`/`Result`, counter arrays as `seq<nat>`, `x++` as `Inc`, loop-guarded increments as `AddWhere` |
| `classify.dfy` | `Classify` | `KmerCounts`, and the first-strict-maximum scan shared by every "largest contaminant" loop |
| `read_stats.dfy` | `ReadStats` | `KmerStatsReadCounts`, the read initialiser, `update_stats`, and folds of it over a batch of reads |
| `percentages.dfy` | `Percentages` | `kmer_stats_calculate_read` in exact real arithmetic |
| `pair_stats.dfy` | `PairStats` | `KmerStatsBothReads`, its initialiser, and `update_stats_for_both` |
| `similarity.dfy` | `Similarity` | the two hash-table callbacks, the traversals, and the two-contaminant guard |

Modelling choices:

- **Results.** The C code stores the sentinel `(uint32_t)-1` for "no
  contaminant". The model returns `None` instead. `UpdateStats` returns
  only the updated counters. The assigned and unique-assigned contaminants
  that the C code writes back into the `KmerCounts` record are computed by
  the separate function `Classify.ClassifyRead`. `UpdateStats` uses that
  function's result to update the highest-contaminant and unclassified
  counts.
- **Histogram index.** The histogram slot is
  `min(kmers_loaded, MAX_READ_LENGTH)`, but the array has only
  `MAX_READ_LENGTH` slots. A read with `kmers_loaded >= MAX_READ_LENGTH`
  therefore writes one slot past the end. `UpdateStats` returns
  `Failure(HistogramIndexOutOfRange(...))` for exactly those reads and
  does not invent a clamped behaviour.
- **Unique scan gate.** The unique-hit scan of `update_stats` sits inside
  the `kmers_from_contaminant[i] > 0` test. So a contaminant's unique
  count only competes when its raw count is positive. The model follows
  the code on this point. Scanning the unique counts of all contaminants,
  whatever their raw count, would differ only when some contaminant has a
  positive unique count and a zero raw count.
- **Hash table.** The k-mer hash table is replaced by the sequence of its
  stored k-mers. Each k-mer is given by its contaminant membership bits,
  one `bool` per contaminant.

## Model

| member | source | states |
|---|---|---|
| Classify.Scan | src/kmer_stats.c:259-272 | the prefix scan keeps the strictly greatest gated value and the first index that reached it; an equal later value never replaces it |
| Classify.PickIsFirstStrictMax | src/kmer_stats.c:259-304 | the chosen index is exactly the first gated maximum with a positive value (both directions), and "none" exactly when every gated value is zero |
| Classify.ClassifyRead | src/kmer_stats.c:257-304 | an assigned contaminant is in range and has a positive hit count; a read with no k-mers loaded is unassigned on both scans |
| Classify.AssignmentTieBreak | src/kmer_stats.c:261-266 | the raw assignment is Some(i) iff k-mers were loaded and i is the first contaminant holding the strictly greatest positive hit count; it is None iff no k-mers were loaded or every hit count is zero |
| Classify.UniqueAssignment | src/kmer_stats.c:261-272 | the unique assignment is the first greatest positive unique count among contaminants whose raw count is positive |
| Classify.TieGoesToFirst | src/kmer_stats.c:263-266 | counts [0, 3, 3, 0] assign the read to contaminant 1, not 2 |
| ReadStats.ZeroReadCounters | include/kmer_stats.h:1-39 | the calloc'd read counters have one slot per contaminant and a histogram of the given length, all zero |
| ReadStats.Initialise | src/kmer_stats.c:34-55 | the read initialiser zeroes the read, k1 and kN totals, the k1 and unique-k1 per-contaminant arrays, the k-mers-seen array and the whole histogram, keeping every length. It leaves the kN per-contaminant arrays, highest-contaminant counts and unclassified count as they were |
| ReadStats.CallocThenInitialiseIsZero | src/kmer_stats.c:118-125 | on freshly calloc'd memory the initialiser yields the all-zero state |
| ReadStats.InitialiseKeepsStaleUnclassified | src/kmer_stats.c:34-55 | a nonzero unclassified count survives re-initialisation |
| ReadStats.HistogramIndex | src/kmer_stats.c:255 | the bucket is kmers_loaded when below the maximum read length, and the maximum itself otherwise |
| ReadStats.UpdateStats | src/kmer_stats.c:244-319 | the update fails exactly when the histogram write is out of range; otherwise it keeps the shape and counts one more read |
| ReadStats.UpdateStatsCounts | src/kmer_stats.c:252-318 | one update fills exactly the kmers_loaded bucket and credits the assigned contaminant or the unclassified count. It bumps k1 iff k-mers were loaded and kN iff the loaded count reaches the read threshold. Per contaminant it bumps k1 iff hits > 0 and kN iff hits exceed the threshold, with the unique variants iff exactly one contaminant was detected |
| ReadStats.ZeroIsConsistent | src/kmer_stats.c:34-55 | the zero state satisfies the accounting invariant |
| ReadStats.UpdatePreservesConsistency | src/kmer_stats.c:244-319 | with a read threshold of at least 1, an update keeps the invariant: assigned plus unclassified equals reads, the histogram total equals reads, kN <= k1 <= reads, and per contaminant unique <= total and kN <= k1 |
| ReadStats.ZeroThresholdBreaksBound | src/kmer_stats.c:307-317 | with threshold 0 a read with no k-mers counts as kN but not k1, so kN <= k1 needs a positive threshold |
| ReadStats.FoldReads | src/kmer_stats.c:244-319 | processing a batch counts one read per record and, on failure, reports the out-of-range histogram index |
| ReadStats.FoldSucceedsIff | src/kmer_stats.c:255 | a batch succeeds iff every read loaded fewer k-mers than the histogram length |
| ReadStats.FoldPreservesConsistency | src/kmer_stats.c:244-319 | the accounting invariant holds after any successful batch |
| ReadStats.UpdateKeepsAccounting | src/kmer_stats.c:252-296 | for every read threshold, one update keeps the histogram total and assigned plus unclassified reads equal to the read count |
| ReadStats.FoldKeepsAccounting | src/kmer_stats.c:252-296 | for every read threshold, a whole successful run keeps those two identities |
| ReadStats.AccountingFromZero | src/kmer_stats.c:252-296 | for every read threshold, a run from the zero state with every read in histogram range succeeds, and its read count, its histogram total and its assigned plus unclassified reads all equal the batch size; with a threshold of at least 1 every k1/kN bound holds as well |
| ReadStats.UpdatesCommute | src/kmer_stats.c:244-319 | two reads processed in either order give the same counters and the same outcome |
| ReadStats.FoldReadsPermutation | src/kmer_stats.c:244-319 | any reordering of a batch gives the same statistics: the counters do not depend on read order |
| Percentages.Percent | src/kmer_stats.c:597-604 | a percentage is non-negative, at most 100 when the count does not exceed the total, and exactly 100 iff the count equals the total; multiplied by the total it gives back 100 times the count |
| Percentages.CalculateRead | src/kmer_stats.c:597-604 | the two overall and the four per-contaminant read percentages, one slot per contaminant, each of which multiplied by the read count gives back 100 times its count |
| Percentages.PercentagesInRange | src/kmer_stats.c:593-604 | for consistent counters every read percentage lies in [0, 100], and each kN share is at most the matching k1 share |
| PairStats.ZeroPairCounters | include/kmer_stats.h:41-80 | the calloc'd pair counters are all zero, with one slot per contaminant in every per-contaminant array |
| PairStats.InitialisePair | src/kmer_stats.c:63-88 | the pair initialiser zeroes the read count, both families (every pair-wide bucket and every per-contaminant slot) and the filter flag, but leaves contaminant_kmers_seen as it was |
| PairStats.CallocThenInitialisePairIsZero | src/kmer_stats.c:127-132 | on freshly calloc'd memory the pair initialiser yields the all-zero state |
| PairStats.PassScan | src/kmer_stats.c:483-517 | after the scan, the threshold flag is set iff some contaminant passes all three thresholds. If none does, the both-mates count is positive iff some contaminant has hits in both mates, and the either-mate count likewise |
| PairStats.RunPass | src/kmer_stats.c:483-568 | a pass lands in "threshold passed" iff some contaminant is strong; in "both" iff none is strong and some has hits in both mates; in "either" iff neither holds and some has hits in one mate only; otherwise nowhere. The credited contaminant is in range, and is the one the shared tracker ends on |
| PairStats.Credit | src/kmer_stats.c:556-568 | crediting an outcome adds one to its own pair-wide bucket and to its contaminant's slot of that bucket, and changes no other bucket or slot; nothing changes for a pair with no hit |
| PairStats.CreditOfPass | src/kmer_stats.c:483-568 | crediting a whole pass adds one to the threshold-passed bucket iff some contaminant is strong, to the both-mates bucket iff none is strong and some has hits in both mates, and to the either-mate bucket iff neither holds and some has hits in one mate; the slot that gains is the tracker's final contaminant and nothing else changes |
| PairStats.CreditKeepsFamilyConsistent | src/kmer_stats.c:556-580 | each bucket's total stays equal to the sum of its per-contaminant counts |
| PairStats.UpdateStatsForBoth | src/kmer_stats.c:467-583 | the pair update leaves the read count, seen-k-mers and stored filter flag unchanged. It retains the pair iff the unique pass passes the thresholds, or the raw pass does and unique filtering is off. Each family gains at most one. In each family, the bucket and the per-contaminant slot that gain are those of its own pass over the raw or unique hits, as for CreditOfPass |
| PairStats.UpdateKeepsPairConsistent | src/kmer_stats.c:556-580 | bucket totals stay equal to their per-contaminant sums across a pair update |
| PairStats.ZeroPairIsConsistent | src/kmer_stats.c:63-88 | the zero pair state satisfies that invariant |
| PairStats.OneBucketPerPass | src/kmer_stats.c:556-580 | with a positive read threshold, each pass increments exactly one bucket when some contaminant has a hit in either mate, and none otherwise |
| PairStats.NoHitIffAllZero | src/kmer_stats.c:490-517 | with a positive read threshold, a pass credits nothing iff every contaminant has zero hits in both mates |
| PairStats.PassesAreIndependent | src/kmer_stats.c:483-553 | the raw-count family depends only on the raw hits and the unique family only on the unique hits |
| PairStats.CandidateIsTracked | src/kmer_stats.c:490-517 | the loop's test for moving the tracker at contaminant i (strong; or both-nonzero before any strong match; or either-nonzero before any strong or both-nonzero match) is exactly `Tracked` |
| PairStats.TrackerAgreementStep | src/kmer_stats.c:490-517 | if the tracker agrees with the gated scan after i contaminants, it still agrees after i + 1 |
| PairStats.TrackerIsScanOfTracked | src/kmer_stats.c:490-517 | after any prefix of contaminants, the shared tracker equals the first strict maximum of the mate totals over the contaminants that can move it |
| PairStats.TrackedWitness | src/kmer_stats.c:490-517 | with a positive read threshold, a pass that credits any bucket has a tracked contaminant with hits |
| PairStats.CreditedIsFirstMaxOfTracked | src/kmer_stats.c:490-568 | with a positive read threshold, the contaminant credited for any bucket is the first strict maximum of the combined counts over all tracked contaminants, whether or not it qualifies for that bucket |
| PairStats.SharedTrackerCreditsWeakerContaminant | src/kmer_stats.c:490-517 | hits [5, 2] and [0, 2] under thresholds (2, 4) pass on contaminant 1 but credit contaminant 0, which never passed |
| PairStats.SharedTrackerCreditsOneMateContaminant | src/kmer_stats.c:490-517 | hits [5, 1] and [0, 1] under thresholds (2, 10) land in the both-mates bucket, which is credited to contaminant 0, whose hits are in one mate only |
| PairStats.StrongMatchExample | src/kmer_stats.c:490-498 | a contaminant meeting both per-mate thresholds and the overall threshold is credited as threshold passed |
| PairStats.BothNonzeroExample | src/kmer_stats.c:499-506 | hits in both mates below the read threshold land in the both-mates bucket |
| PairStats.RetentionTable | src/kmer_stats.c:556-582 | a raw pass alone retains the pair only when unique filtering is off; a unique pass retains it regardless |
| Similarity.CheckKmersInCommon | src/kmer_stats.c:807-822 | for one k-mer, cell [x][y] gains one exactly when the k-mer belongs to both x and y, and no other cell changes |
| Similarity.InCommonFromCell | src/kmer_stats.c:810-821 | the rows from i on add one to every cell whose two contaminants are both at least i and both hold the k-mer, each exactly once, mirroring included |
| Similarity.CheckUniqueKmers | src/kmer_stats.c:824-843 | for one k-mer, contaminant x's unique count gains one exactly when x is the k-mer's only contaminant |
| Similarity.UniqueScan | src/kmer_stats.c:830-838 | the early-exit scan reports a count of min(set bits, 2) and, when that count is 1, the index of the set bit |
| Similarity.SingleMembershipInCommon | src/kmer_stats.c:807-822 | a k-mer with a single contaminant touches only that contaminant's diagonal cell |
| Similarity.SingleMembershipUnique | src/kmer_stats.c:824-843 | a k-mer with a single contaminant adds one to that contaminant's unique count and nothing elsewhere |
| Similarity.SharedItemIsNotUnique | src/kmer_stats.c:834-842 | a k-mer in two contaminants changes no unique count |
| Similarity.TraverseInCommon | src/kmer_stats.c:929 | after a traversal, each cell [x][y] has grown by the number of k-mers shared by x and y |
| Similarity.TraverseUnique | src/kmer_stats.c:931 | after a traversal, each unique count has grown by the number of k-mers owned by that contaminant alone |
| Similarity.ZeroSimilarity | src/kmer_stats.c:107-116 | the initial similarity state for n contaminants: an n-by-n matrix of zeros and n zero unique counts |
| Similarity.CompareContaminantKmers | src/kmer_stats.c:851-931 | with fewer than two contaminants nothing changes; otherwise both traversals are applied |
| Similarity.SimilarityFromZero | src/kmer_stats.c:807-843 | from zero, the matrix is symmetric, each diagonal cell counts that contaminant's k-mers, and unique counts never exceed the diagonal |
| Similarity.SmallPanelUnchanged | src/kmer_stats.c:863-865 | a panel of fewer than two contaminants leaves the statistics untouched |
| Similarity.ThreeKmerExample | src/kmer_stats.c:807-843 | three k-mers in {0,1}, {0} and {1,2} give diagonal 2, 2, 1, off-diagonal 1, 1, 0 and unique counts [1, 0, 0] |

## Left out

- **Parallel variants.** `update_stats_parallel` and
  `update_stats_for_both_parallel` and the mutexes are left out. They
  repeat the sequential logic under locks, and concurrency is not
  modelled.
- **Reporting and progress output.** `kmer_stats_report_*`,
  `kmer_stats_write_progress`, and the file output of
  `kmer_stats_compare_contaminant_kmers` are left out. They write
  counters to files or the screen. The similarity output also computes
  the percentage matrices of `src/kmer_stats.c:944-974`: each shared or
  unique count as a percentage of `contaminant_kmers[i]`, and 0 when the
  count is 0. Those percentages are not modelled.
- **Fatal exits.** The model assumes that allocation and file opening
  succeed. A failed `calloc` in `kmer_stats_initialise`
  (`src/kmer_stats.c:117-131`) calls `exit(2)`. A failed filename
  `malloc` or an output file that cannot be opened in
  `kmer_stats_compare_contaminant_kmers` (`src/kmer_stats.c:869-924`)
  calls `exit(1)` before either traversal, so no co-occurrence or unique
  count is computed. `ReadStats.CallocThenInitialiseIsZero`,
  `PairStats.CallocThenInitialisePairIsZero` and
  `Similarity.CompareContaminantKmers` describe only the runs where these
  calls succeed.
- **`src/kmer_build.c`.** Building the k-mer table and filling
  `KmerCounts` per read is left out. The model takes the finished
  records, and the stored k-mers' membership bits, as inputs.
- **Integer width.** Counters are unbounded naturals. The C `uint32_t`
  counters and the `int` temporaries of `update_stats_for_both` wrap
  around or overflow after 2^32 (resp. 2^31) events; that wrap-around is
  not modelled.
- **Thresholds.** Thresholds are naturals. The C command-line fields are
  `int`, and negative thresholds are not modelled.
- **Array sizes.** `MAX_CONTAMINANTS` and `MAX_READ_LENGTH` come from
  `global.h`, which is not part of this model. Per-contaminant arrays are
  sized to `n_contaminants`. The initialisers zero every slot up to
  `MAX_CONTAMINANTS`, but no modelled code reads a slot at or beyond
  `n_contaminants`.
  The histogram length is a parameter.
- **Panel size.** `kmer_stats_initialise` sets `n_contaminants` to 0,
  and loading the panel sets it later. `Similarity.ZeroSimilarity` takes
  the loaded size as a parameter, because only the zeroed matrix and
  unique counts matter to the modelled code.
- **Unused fields.** `contaminant_kmers_seen` is only ever zeroed or kept.
  The species counts and their percentages are never updated by the
  modelled code. All of these are left out except `contaminant_kmers_seen`,
  which is kept as a field.
- **Unmodelled percentages.** The `contaminant_kmers_seen_pc` and species
  percentages of `kmer_stats_calculate_read` are left out. So is its
  line 616, which zeroes `species_unclassified` instead of its percentage.
- **Pair percentages.** `kmer_stats_calculate_both` is left out. The
  modelled code never increments the pair counters' `number_of_reads`, so
  the percentages it divides by that count divide by zero unless code
  outside this model sets it. `contaminant_kmers_seen_pc` divides by
  `contaminant_kmers[i]` instead.
- Percentages.Percent: C `double` division is modelled as exact real
  division, and division by a zero read count, which the C code does not
  guard, is excluded by a precondition.
- ReadStats.UpdatePreservesConsistency: requires a read threshold of at
  least 1, because with threshold 0 the kN <= k1 bound does not hold (see
  `ReadStats.ZeroThresholdBreaksBound`).
- **Accessor implementations.** `hash_table_traverse_with_data` and
  `element_get_contaminant_bit` are not part of this model. A traversal
  is a left-to-right pass over the sequence of stored k-mers, and a bit
  is a `bool`.
