/** The k-mer co-occurrence analysis of `kmer_stats_compare_contaminant_kmers`:
    the two hash-table callbacks `check_kmers_in_common` and
    `check_unique_kmers`, and the traversals that apply them to every
    stored k-mer. The hash table is replaced by the sequence of its items,
    each given by its membership bits. */
module Similarity {
  import opened Common

  /** `kmers_in_common`: an `n` by `n` matrix of counts. */
  predicate IsSquare(m: seq<seq<nat>>, n: nat)
  {
    |m| == n && forall i :: 0 <= i < n ==> |m[i]| == n
  }

  function ZeroMatrix(n: nat): (m: seq<seq<nat>>)
    ensures IsSquare(m, n)
    ensures forall x, y :: 0 <= x < n && 0 <= y < n ==> m[x][y] == 0
  {
    seq(n, _ => Zeros(n))
  }

  /** `m[i][j]++`. */
  function Bump(m: seq<seq<nat>>, n: nat, i: nat, j: nat): (r: seq<seq<nat>>)
    requires IsSquare(m, n) && i < n && j < n
    ensures IsSquare(r, n)
    ensures forall x, y :: 0 <= x < n && 0 <= y < n ==> r[x][y] == m[x][y] + Bit(x == i && y == j)
  {
    m[i := Inc(m[i], j)]
  }

  /** The inner loop of `check_kmers_in_common` for row `i` (whose bit is
      set), from column `j` on: each set column `y` bumps `[i][y]`, and
      `[y][i]` too when `y != i`. */
  function InCommonRow(m: seq<seq<nat>>, bits: seq<bool>, i: nat, j: nat): (r: seq<seq<nat>>)
    requires IsSquare(m, |bits|) && i < |bits| && i <= j <= |bits|
    ensures IsSquare(r, |bits|)
    decreases |bits| - j
  {
    var n := |bits|;
    if j == n then m
    else InCommonRow(RowStep(m, bits, i, j), bits, i, j + 1)
  }

  /** One column of the inner loop. */
  function RowStep(m: seq<seq<nat>>, bits: seq<bool>, i: nat, j: nat): (r: seq<seq<nat>>)
    requires IsSquare(m, |bits|) && i < |bits| && j < |bits|
    ensures IsSquare(r, |bits|)
  {
    var n := |bits|;
    if !bits[j] then m
    else if i != j then Bump(Bump(m, n, i, j), n, j, i)
    else Bump(m, n, i, j)
  }

  /** Cell `[x][y]` after the inner loop gains one for the row's own cell
      `[i][y]` and for the mirrored cell `[x][i]`, for set columns from `j` on. */
  lemma {:induction false} InCommonRowCell(m: seq<seq<nat>>, bits: seq<bool>, i: nat, j: nat, x: nat, y: nat)
    requires IsSquare(m, |bits|) && i < |bits| && i <= j <= |bits|
    requires x < |bits| && y < |bits|
    ensures InCommonRow(m, bits, i, j)[x][y] == m[x][y]
      + Bit((x == i && j <= y && bits[y]) || (y == i && j <= x && x != i && bits[x]))
    decreases |bits| - j
  {
    if j < |bits| {
      InCommonRowCell(RowStep(m, bits, i, j), bits, i, j + 1, x, y);
    }
  }

  /** The outer loop of `check_kmers_in_common` from row `i` on. */
  function InCommonFrom(m: seq<seq<nat>>, bits: seq<bool>, i: nat): (r: seq<seq<nat>>)
    requires IsSquare(m, |bits|) && i <= |bits|
    ensures IsSquare(r, |bits|)
    decreases |bits| - i
  {
    if i == |bits| then m
    else
      var m1 := if bits[i] then InCommonRow(m, bits, i, i) else m;
      InCommonFrom(m1, bits, i + 1)
  }

  /** Rows from `i` on cover every cell whose two contaminants are both at
      least `i` and both set, each exactly once. */
  lemma {:induction false} InCommonFromCell(m: seq<seq<nat>>, bits: seq<bool>, i: nat, x: nat, y: nat)
    requires IsSquare(m, |bits|) && i <= |bits|
    requires x < |bits| && y < |bits|
    ensures InCommonFrom(m, bits, i)[x][y] == m[x][y] + Bit(bits[x] && bits[y] && i <= x && i <= y)
    decreases |bits| - i
  {
    if i < |bits| {
      var m1 := if bits[i] then InCommonRow(m, bits, i, i) else m;
      if bits[i] {
        InCommonRowCell(m, bits, i, i, x, y);
      }
      InCommonFromCell(m1, bits, i + 1, x, y);
    }
  }

  /** Cell `[x][y]` of `r` is cell `[x][y]` of `m` plus `d`. */
  predicate CellGains(r: seq<seq<nat>>, m: seq<seq<nat>>, x: nat, y: nat, d: nat)
    requires x < |r| && y < |r[x]| && x < |m| && y < |m[x]|
  {
    r[x][y] == m[x][y] + d
  }

  /** Cell `[x][y]` of `r` counts one more co-occurrence than `m` exactly
      when the item with membership `bits` is in both `x` and `y`. */
  predicate CountsCoMembership(r: seq<seq<nat>>, m: seq<seq<nat>>, bits: seq<bool>, x: nat, y: nat)
    requires x < |bits| && y < |bits|
    requires x < |r| && y < |r[x]| && x < |m| && y < |m[x]|
  {
    CellGains(r, m, x, y, Bit(bits[x] && bits[y]))
  }

  /** `check_kmers_in_common` for one item: cell `[x][y]` gains one exactly
      when the item belongs to both contaminants `x` and `y`. */
  function CheckKmersInCommon(m: seq<seq<nat>>, bits: seq<bool>): (r: seq<seq<nat>>)
    requires IsSquare(m, |bits|)
    ensures IsSquare(r, |bits|)
    ensures forall x, y :: 0 <= x < |bits| && 0 <= y < |bits| ==> CountsCoMembership(r, m, bits, x, y)
  {
    InCommonCells(m, bits);
    InCommonFrom(m, bits, 0)
  }

  lemma InCommonCells(m: seq<seq<nat>>, bits: seq<bool>)
    requires IsSquare(m, |bits|)
    ensures forall x, y :: 0 <= x < |bits| && 0 <= y < |bits| ==>
      CountsCoMembership(InCommonFrom(m, bits, 0), m, bits, x, y)
  {
    forall x: nat, y: nat | x < |bits| && y < |bits|
      ensures CountsCoMembership(InCommonFrom(m, bits, 0), m, bits, x, y)
    {
      InCommonFromCell(m, bits, 0, x, y);
    }
  }

  /** The pair (`count`, `index`) of the scan in `check_unique_kmers`. */
  datatype Owners = Owners(count: nat, index: nat)

  function Min2(a: nat): nat
  {
    if a < 2 then a else 2
  }

  /** The scan of `check_unique_kmers` from position `i` on: each set bit
      records its index and bumps the count, and the loop breaks as soon as
      the count exceeds 1. */
  function UniqueScan(bits: seq<bool>, i: nat, s: Owners): (r: Owners)
    requires i <= |bits| && s.count <= 1
    ensures r.count == Min2(s.count + CountTrue(bits[i..]))
    ensures r.count == 1 && s.count == 0 ==> i <= r.index < |bits| && bits[r.index]
    ensures r.count == 1 && s.count == 1 ==> r.index == s.index
    decreases |bits| - i
  {
    assert i < |bits| ==> bits[i..][1..] == bits[i + 1..];
    if i == |bits| then s
    else if bits[i] then
      var s' := Owners(s.count + 1, i);
      if s'.count > 1 then s' else UniqueScan(bits, i + 1, s')
    else
      UniqueScan(bits, i + 1, s)
  }

  /** Two set bits make a count of at least two. */
  lemma {:induction false} TwoBitsCountTwo(bits: seq<bool>, x: nat, y: nat)
    requires x < y < |bits| && bits[x] && bits[y]
    ensures CountTrue(bits) >= 2
  {
    if x == 0 {
      OneBitCountsOne(bits[1..], y - 1);
    } else {
      TwoBitsCountTwo(bits[1..], x - 1, y - 1);
    }
  }

  lemma {:induction false} OneBitCountsOne(bits: seq<bool>, x: nat)
    requires x < |bits| && bits[x]
    ensures CountTrue(bits) >= 1
  {
    if x > 0 {
      OneBitCountsOne(bits[1..], x - 1);
    }
  }

  /** `check_unique_kmers` for one item: contaminant `x` gains one exactly
      when it is the item's only membership bit. */
  function CheckUniqueKmers(u: seq<nat>, bits: seq<bool>): (r: seq<nat>)
    requires |u| == |bits|
    ensures |r| == |u|
    ensures forall x :: 0 <= x < |u| ==> r[x] == u[x] + Bit(bits[x] && CountTrue(bits) == 1)
  {
    var s := UniqueScan(bits, 0, Owners(0, 0));
    assert bits[0..] == bits;
    if s.count == 1 then
      assert forall x :: 0 <= x < |bits| && x != s.index && bits[x] ==> CountTrue(bits) >= 2 by {
        forall x | 0 <= x < |bits| && x != s.index && bits[x]
          ensures CountTrue(bits) >= 2
        {
          if x < s.index { TwoBitsCountTwo(bits, x, s.index); }
          else { TwoBitsCountTwo(bits, s.index, x); }
        }
      }
      Inc(u, s.index)
    else
      u
  }

  /** With a single membership bit, every other bit is clear. */
  lemma SoleBit(bits: seq<bool>, i: nat, x: nat)
    requires i < |bits| && bits[i] && CountTrue(bits) == 1
    requires x < |bits| && x != i
    ensures !bits[x]
  {
    if bits[x] {
      if x < i { TwoBitsCountTwo(bits, x, i); } else { TwoBitsCountTwo(bits, i, x); }
    }
  }

  /** An item with a single membership bit touches only its own diagonal
      cell of the co-occurrence matrix. */
  lemma SingleMembershipInCommon(m: seq<seq<nat>>, bits: seq<bool>, i: nat)
    requires IsSquare(m, |bits|)
    requires i < |bits| && bits[i] && CountTrue(bits) == 1
    ensures var r := CheckKmersInCommon(m, bits);
      && CellGains(r, m, i, i, 1)
      && (forall x, y :: 0 <= x < |bits| && 0 <= y < |bits| && (x != i || y != i) ==> CellGains(r, m, x, y, 0))
  {
    var r := CheckKmersInCommon(m, bits);
    assert CountsCoMembership(r, m, bits, i, i);
    forall x: nat, y: nat | x < |bits| && y < |bits| && (x != i || y != i)
      ensures CellGains(r, m, x, y, 0)
    {
      assert CountsCoMembership(r, m, bits, x, y);
      if x != i { SoleBit(bits, i, x); } else { SoleBit(bits, i, y); }
    }
  }

  /** An item with a single membership bit counts as unique for that
      contaminant and for no other. */
  lemma SingleMembershipUnique(u: seq<nat>, bits: seq<bool>, i: nat)
    requires |u| == |bits|
    requires i < |bits| && bits[i] && CountTrue(bits) == 1
    ensures var r := CheckUniqueKmers(u, bits);
      && r[i] == u[i] + 1
      && (forall x :: 0 <= x < |bits| && x != i ==> r[x] == u[x])
  {
  }

  /** An item in two or more contaminants is unique to none of them. */
  lemma SharedItemIsNotUnique(u: seq<nat>, bits: seq<bool>, x: nat, y: nat)
    requires |u| == |bits| && x < y < |bits| && bits[x] && bits[y]
    ensures CheckUniqueKmers(u, bits) == u
  {
  }

  /** Number of items that belong to both contaminants `x` and `y`. */
  function Shared(items: seq<seq<bool>>, x: nat, y: nat): nat
    requires forall k :: 0 <= k < |items| ==> x < |items[k]| && y < |items[k]|
  {
    if |items| == 0 then 0
    else Bit(items[0][x] && items[0][y]) + Shared(items[1..], x, y)
  }

  /** Number of items whose only membership bit is contaminant `x`. */
  function OnlyIn(items: seq<seq<bool>>, x: nat): nat
    requires forall k :: 0 <= k < |items| ==> x < |items[k]|
  {
    if |items| == 0 then 0
    else Bit(items[0][x] && CountTrue(items[0]) == 1) + OnlyIn(items[1..], x)
  }

  /** Every item has one membership bit per contaminant. */
  predicate AllWidth(items: seq<seq<bool>>, n: nat)
  {
    forall k :: 0 <= k < |items| ==> |items[k]| == n
  }

  /** `hash_table_traverse_with_data(&check_kmers_in_common, ...)`. */
  function TraverseInCommon(m: seq<seq<nat>>, items: seq<seq<bool>>, n: nat): (r: seq<seq<nat>>)
    requires IsSquare(m, n) && AllWidth(items, n)
    ensures IsSquare(r, n)
    ensures forall x, y :: 0 <= x < n && 0 <= y < n ==> CellGains(r, m, x, y, Shared(items, x, y))
    decreases |items|
  {
    if |items| == 0 then m
    else
      assert AllWidth(items[1..], n);
      var m1 := CheckKmersInCommon(m, items[0]);
      var r := TraverseInCommon(m1, items[1..], n);
      assert forall x, y :: 0 <= x < n && 0 <= y < n ==> CellGains(r, m, x, y, Shared(items, x, y)) by {
        forall x: nat, y: nat | x < n && y < n
          ensures CellGains(r, m, x, y, Shared(items, x, y))
        {
          assert CountsCoMembership(m1, m, items[0], x, y);
          assert CellGains(r, m1, x, y, Shared(items[1..], x, y));
        }
      }
      r
  }

  /** `hash_table_traverse_with_data(&check_unique_kmers, ...)`. */
  function TraverseUnique(u: seq<nat>, items: seq<seq<bool>>, n: nat): (r: seq<nat>)
    requires |u| == n && AllWidth(items, n)
    ensures |r| == n
    ensures forall x :: 0 <= x < n ==> r[x] == u[x] + OnlyIn(items, x)
    decreases |items|
  {
    if |items| == 0 then u
    else
      assert AllWidth(items[1..], n);
      TraverseUnique(CheckUniqueKmers(u, items[0]), items[1..], n)
  }

  /** A k-mer owned by contaminant `x` alone is also one of `x`'s k-mers. */
  lemma {:induction false} OnlyInAtMostShared(items: seq<seq<bool>>, x: nat)
    requires forall k :: 0 <= k < |items| ==> x < |items[k]|
    ensures OnlyIn(items, x) <= Shared(items, x, x)
  {
    if |items| > 0 {
      OnlyInAtMostShared(items[1..], x);
    }
  }

  /** The similarity part of `KmerStats`. */
  datatype SimilarityStats = SimilarityStats(
    nContaminants: nat,
    kmersInCommon: seq<seq<nat>>,
    uniqueKmers: seq<nat>)

  predicate SimilarityShaped(s: SimilarityStats)
  {
    IsSquare(s.kmersInCommon, s.nContaminants) && |s.uniqueKmers| == s.nContaminants
  }

  /** The state `kmer_stats_initialise` leaves for a panel of `n`
      contaminants: every count zero. */
  function ZeroSimilarity(n: nat): (s: SimilarityStats)
    ensures SimilarityShaped(s) && s.nContaminants == n
    ensures forall x, y :: 0 <= x < n && 0 <= y < n ==> s.kmersInCommon[x][y] == 0
    ensures forall x :: 0 <= x < n ==> s.uniqueKmers[x] == 0
  {
    SimilarityStats(n, ZeroMatrix(n), Zeros(n))
  }

  /** The counting part of `kmer_stats_compare_contaminant_kmers`: nothing
      is computed for fewer than two contaminants; otherwise one traversal
      builds the co-occurrence matrix and a second one the unique counts. */
  function CompareContaminantKmers(s: SimilarityStats, items: seq<seq<bool>>): (r: SimilarityStats)
    requires SimilarityShaped(s) && AllWidth(items, s.nContaminants)
    ensures SimilarityShaped(r) && r.nContaminants == s.nContaminants
    ensures s.nContaminants < 2 ==> r == s
    ensures s.nContaminants >= 2 ==>
      && (forall x, y :: 0 <= x < s.nContaminants && 0 <= y < s.nContaminants ==>
            r.kmersInCommon[x][y] == s.kmersInCommon[x][y] + Shared(items, x, y))
      && (forall x :: 0 <= x < s.nContaminants ==>
            r.uniqueKmers[x] == s.uniqueKmers[x] + OnlyIn(items, x))
  {
    if s.nContaminants < 2 then s
    else
      var n := s.nContaminants;
      SimilarityStats(n, TraverseInCommon(s.kmersInCommon, items, n), TraverseUnique(s.uniqueKmers, items, n))
  }

  /** From the zeroed state the matrix is symmetric, its diagonal counts
      each contaminant's k-mers (shared ones included), and no contaminant
      has more unique k-mers than k-mers. */
  lemma SimilarityFromZero(n: nat, items: seq<seq<bool>>)
    requires n >= 2 && AllWidth(items, n)
    ensures var r := CompareContaminantKmers(ZeroSimilarity(n), items);
      && (forall x, y :: 0 <= x < n && 0 <= y < n ==>
            r.kmersInCommon[x][y] == r.kmersInCommon[y][x] == Shared(items, x, y))
      && (forall x :: 0 <= x < n ==>
            r.uniqueKmers[x] == OnlyIn(items, x) <= r.kmersInCommon[x][x])
  {
    var r := CompareContaminantKmers(ZeroSimilarity(n), items);
    forall x, y | 0 <= x < n && 0 <= y < n
      ensures Shared(items, x, y) == Shared(items, y, x)
    {
      SharedSymmetric(items, x, y);
    }
    forall x | 0 <= x < n
      ensures OnlyIn(items, x) <= Shared(items, x, x)
    {
      OnlyInAtMostShared(items, x);
    }
  }

  lemma {:induction false} SharedSymmetric(items: seq<seq<bool>>, x: nat, y: nat)
    requires forall k :: 0 <= k < |items| ==> x < |items[k]| && y < |items[k]|
    ensures Shared(items, x, y) == Shared(items, y, x)
  {
    if |items| > 0 {
      SharedSymmetric(items[1..], x, y);
    }
  }

  /** Panels of fewer than two contaminants leave the counts untouched. */
  lemma SmallPanelUnchanged(s: SimilarityStats, items: seq<seq<bool>>)
    requires SimilarityShaped(s) && AllWidth(items, s.nContaminants) && s.nContaminants < 2
    ensures CompareContaminantKmers(s, items) == s
  {
  }

  /** The k-mers of the three-contaminant example below. */
  function ExampleItems(): (items: seq<seq<bool>>)
    ensures AllWidth(items, 3)
  {
    [[true, true, false], [true, false, false], [false, true, true]]
  }

  /** The shared and sole-owner counts of the example, item by item. */
  lemma ExampleItemCounts()
    ensures Shared(ExampleItems(), 0, 0) == 2 && Shared(ExampleItems(), 1, 1) == 2
    ensures Shared(ExampleItems(), 2, 2) == 1 && Shared(ExampleItems(), 0, 1) == 1
    ensures Shared(ExampleItems(), 1, 2) == 1 && Shared(ExampleItems(), 0, 2) == 0
    ensures OnlyIn(ExampleItems(), 0) == 1 && OnlyIn(ExampleItems(), 1) == 0 && OnlyIn(ExampleItems(), 2) == 0
  {
    var items := ExampleItems();
    assert CountTrue(items[0]) == 2 && CountTrue(items[1]) == 1 && CountTrue(items[2]) == 2;
    assert items[1..][1..][1..] == [];
  }

  /** Three k-mers over three contaminants: one in {0, 1}, one in {0}
      alone and one in {1, 2}. */
  lemma ThreeKmerExample()
    ensures var r := CompareContaminantKmers(ZeroSimilarity(3), ExampleItems());
      && r.kmersInCommon[0][0] == 2 && r.kmersInCommon[1][1] == 2 && r.kmersInCommon[2][2] == 1
      && r.kmersInCommon[0][1] == 1 && r.kmersInCommon[1][2] == 1 && r.kmersInCommon[0][2] == 0
      && r.uniqueKmers == [1, 0, 0]
  {
    ExampleItemCounts();
    var r := CompareContaminantKmers(ZeroSimilarity(3), ExampleItems());
    assert r.uniqueKmers == [r.uniqueKmers[0], r.uniqueKmers[1], r.uniqueKmers[2]];
  }
}
