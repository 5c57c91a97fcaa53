/** Shared vocabulary of the model: an optional value for the C sentinel -1,
    a result type for out-of-range array writes, and counter arrays as
    sequences of naturals with the increment and sum operations the
    statistics code uses on them. */
module Common {

  /** `None` stands for the C value `(uint32_t)-1` stored in
      `assigned_contaminant` / `unique_assigned_contaminant`. */
  datatype Option<+T> = None | Some(value: T)

  datatype Result<+T, +E> = Success(value: T) | Failure(error: E)

  /** 1 for true, 0 for false: the amount a guarded `x++` adds. */
  function Bit(b: bool): nat
  {
    if b then 1 else 0
  }

  /** A freshly `calloc`'d counter array of `n` slots. */
  function Zeros(n: nat): (r: seq<nat>)
    ensures |r| == n
    ensures forall i :: 0 <= i < n ==> r[i] == 0
  {
    seq(n, _ => 0)
  }

  /** `s[i]++`. */
  function Inc(s: seq<nat>, i: nat): (r: seq<nat>)
    requires i < |s|
    ensures |r| == |s|
    ensures r[i] == s[i] + 1
    ensures forall j :: 0 <= j < |s| && j != i ==> r[j] == s[j]
  {
    s[i := s[i] + 1]
  }

  /** `s[i]++` when an index is given, nothing otherwise. */
  function IncAt(s: seq<nat>, o: Option<nat>): (r: seq<nat>)
    requires o.Some? ==> o.value < |s|
    ensures |r| == |s|
    ensures forall j :: 0 <= j < |s| ==> r[j] == s[j] + Bit(o == Some(j))
    ensures Sum(r) == Sum(s) + Bit(o.Some?)
  {
    match o
    case None => s
    case Some(i) => SumInc(s, i); Inc(s, i)
  }

  /** Every slot `i` whose flag is set is incremented once: one pass of a
      `for (i = 0; i < n; i++) if (flag(i)) s[i]++;` loop. */
  function AddWhere(s: seq<nat>, flags: seq<bool>): (r: seq<nat>)
    requires |flags| == |s|
    ensures |r| == |s|
    ensures forall i :: 0 <= i < |s| ==> r[i] == s[i] + Bit(flags[i])
  {
    seq(|s|, i requires 0 <= i < |s| => s[i] + Bit(flags[i]))
  }

  function Sum(s: seq<nat>): nat
  {
    if |s| == 0 then 0 else s[0] + Sum(s[1..])
  }

  /** Number of set flags. */
  function CountTrue(flags: seq<bool>): nat
  {
    if |flags| == 0 then 0 else Bit(flags[0]) + CountTrue(flags[1..])
  }

  lemma {:induction false} SumZeros(n: nat)
    ensures Sum(Zeros(n)) == 0
  {
    if n > 0 {
      assert Zeros(n)[1..] == Zeros(n - 1);
      SumZeros(n - 1);
    }
  }

  /** One increment adds exactly one to the total. */
  lemma {:induction false} SumInc(s: seq<nat>, i: nat)
    requires i < |s|
    ensures Sum(Inc(s, i)) == Sum(s) + 1
  {
    if i == 0 {
      assert Inc(s, i)[1..] == s[1..];
    } else {
      assert Inc(s, i)[1..] == Inc(s[1..], i - 1);
      SumInc(s[1..], i - 1);
    }
  }

  /** Increments of two slots commute. */
  lemma IncCommutes(s: seq<nat>, i: nat, j: nat)
    requires i < |s| && j < |s|
    ensures Inc(Inc(s, i), j) == Inc(Inc(s, j), i)
  {
  }

  /** Optional increments commute. */
  lemma IncAtCommutes(s: seq<nat>, o: Option<nat>, p: Option<nat>)
    requires o.Some? ==> o.value < |s|
    requires p.Some? ==> p.value < |s|
    ensures IncAt(IncAt(s, o), p) == IncAt(IncAt(s, p), o)
  {
  }

  /** Two flagged passes commute. */
  lemma AddWhereCommutes(s: seq<nat>, f: seq<bool>, g: seq<bool>)
    requires |f| == |s| && |g| == |s|
    ensures AddWhere(AddWhere(s, f), g) == AddWhere(AddWhere(s, g), f)
  {
  }
}
