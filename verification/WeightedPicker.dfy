/** weightedIntN: random weights fixed at creation, cumulative in 64-bit arithmetic,
    and a binary search that maps a random number to an index. */
module WeightedPicker {
  import opened Bytes

  type uint32 = n: int | 0 <= n < 0x1_0000_0000
  const TWO32: nat := 0x1_0000_0000
  const TWO64: nat := 0x1_0000_0000_0000_0000

  /** The exact sum of the first `n` weights, each one more than its draw. */
  function Total(draws: seq<uint32>, n: nat): (t: nat)
    requires n <= |draws|
    ensures n <= t <= n * TWO32
  {
    if n == 0 then 0 else Total(draws, n - 1) + draws[n - 1] + 1
  }

  predicate AllMax(draws: seq<uint32>)
  {
    forall i :: 0 <= i < |draws| ==> draws[i] == TWO32 - 1
  }

  /** The creation loop, with uint64 wrap-around. */
  method Build(draws: seq<uint32>) returns (cumulative: array<int>, total: nat)
    requires 0 < |draws|
    ensures cumulative.Length == |draws|
    ensures forall i :: 0 <= i < |draws| ==> cumulative[i] == Total(draws, i + 1) % TWO64
    ensures total == Total(draws, |draws|) % TWO64
  {
    cumulative := new int[|draws|];
    total := 0;
    for i := 0 to |draws|
      invariant total == Total(draws, i) % TWO64
      invariant forall k :: 0 <= k < i ==> cumulative[k] == Total(draws, k + 1) % TWO64
    {
      WrapOnceMore(Total(draws, i), draws[i]);
      total := (total + draws[i] + 1) % TWO64;
      cumulative[i] := total;
    }
  }

  lemma WrapOnceMore(t: nat, d: uint32)
    ensures (t % TWO64 + d + 1) % TWO64 == (t + d + 1) % TWO64
  {
  }

  lemma {:induction false} Monotone(draws: seq<uint32>, i: nat, j: nat)
    requires i <= j <= |draws|
    ensures Total(draws, i) <= Total(draws, j)
    ensures i < j ==> Total(draws, i) < Total(draws, j)
  {
    if i < j {
      Monotone(draws, i, j - 1);
    }
  }

  lemma {:induction false} FullTotal(draws: seq<uint32>, n: nat)
    requires n <= |draws|
    ensures Total(draws, n) == n * TWO32 <==> forall i :: 0 <= i < n ==> draws[i] == TWO32 - 1
  {
    if n > 0 {
      FullTotal(draws, n - 1);
    }
  }

  /** Up to 2^32 weights never overflow, with one exception: exactly 2^32 of them,
      all drawn at the maximum, sum to 2^64, and the stored total is then zero. */
  lemma {:induction false} OverflowExactly(draws: seq<uint32>)
    requires 0 < |draws| <= TWO32
    ensures Total(draws, |draws|) < TWO64 <==> |draws| < TWO32 || !AllMax(draws)
    ensures |draws| == TWO32 && AllMax(draws) ==> Total(draws, |draws|) % TWO64 == 0
  {
    FullTotal(draws, |draws|);
    assert |draws| < TWO32 ==> |draws| * TWO32 <= (TWO32 - 1) * TWO32 < TWO64;
    assert TWO32 * TWO32 == TWO64;
  }

  /** sort.Search for the first i with r < cumulative[i]. */
  method Search(cumulative: array<int>, r: int) returns (i: nat)
    requires forall a, b :: 0 <= a < b < cumulative.Length ==> cumulative[a] < cumulative[b]
    ensures i <= cumulative.Length
    ensures forall k :: 0 <= k < i ==> cumulative[k] <= r
    ensures forall k :: i <= k < cumulative.Length ==> r < cumulative[k]
  {
    var lo, hi := 0, cumulative.Length;
    while lo < hi
      invariant 0 <= lo <= hi <= cumulative.Length
      invariant forall k :: 0 <= k < lo ==> cumulative[k] <= r
      invariant forall k :: hi <= k < cumulative.Length ==> r < cumulative[k]
    {
      var h := (lo + hi) / 2;
      if r < cumulative[h] {
        hi := h;
      } else {
        lo := h + 1;
      }
    }
    i := lo;
  }

  /** `r` falls into the interval of index `i`. */
  predicate Selects(draws: seq<uint32>, r: int, i: nat)
    requires i < |draws|
  {
    Total(draws, i) <= r < Total(draws, i + 1)
  }

  /** Building and picking, for every drawing of up to 2^32 weights: the index is in
      range and is the one whose interval holds the random number `r` - except that
      the random number generator panics on a stored total of zero, for exactly one
      drawing. */
  method Pick(draws: seq<uint32>, r: nat) returns (i: Option<nat>)
    requires 0 < |draws| <= TWO32
    requires |draws| < TWO32 || !AllMax(draws) ==> r < Total(draws, |draws|)
    ensures i == None <==> |draws| == TWO32 && AllMax(draws)
    ensures i.Some? ==> i.value < |draws| && Selects(draws, r, i.value)
  {
    OverflowExactly(draws);
    var cumulative, total := Build(draws);
    if total == 0 {
      return None;
    }
    StoredSums(draws, cumulative[..]);
    var found := Search(cumulative, r);
    assert r < cumulative[|draws| - 1];
    assert r < cumulative[found] == Total(draws, found + 1);
    assert found > 0 ==> cumulative[found - 1] <= r;
    i := Some(found);
  }

  /** Without overflow, the stored sums are the exact ones, strictly increasing. */
  lemma {:induction false} StoredSums(draws: seq<uint32>, sums: seq<int>)
    requires 0 < |draws| == |sums| && Total(draws, |draws|) < TWO64
    requires forall k :: 0 <= k < |draws| ==> sums[k] == Total(draws, k + 1) % TWO64
    ensures forall k :: 0 <= k < |draws| ==> sums[k] == Total(draws, k + 1)
    ensures forall a, b :: 0 <= a < b < |draws| ==> sums[a] < sums[b]
  {
    forall k | 0 <= k < |draws|
      ensures sums[k] == Total(draws, k + 1)
    {
      Monotone(draws, k + 1, |draws|);
    }
    forall a, b | 0 <= a < b < |draws|
      ensures sums[a] < sums[b]
    {
      Monotone(draws, a + 1, b + 1);
    }
  }

  /** No number selects two indices. */
  lemma SelectionIsUnique(draws: seq<uint32>, r: int, i: nat, j: nat)
    requires i < |draws| && j < |draws| && Selects(draws, r, i) && Selects(draws, r, j)
    ensures i == j
  {
    if i < j {
      Monotone(draws, i + 1, j);
    } else if j < i {
      Monotone(draws, j + 1, i);
    }
  }

  /** Exactly as many numbers select an index as its weight says. */
  lemma {:induction false} WeightCountsNumbers(draws: seq<uint32>, i: nat)
    requires i < |draws|
    ensures |set r | 0 <= r < Total(draws, |draws|) && Selects(draws, r, i)| == draws[i] as int + 1
  {
    Monotone(draws, i + 1, |draws|);
    var chosen := set r | 0 <= r < Total(draws, |draws|) && Selects(draws, r, i);
    assert chosen == Interval(Total(draws, i), Total(draws, i + 1));
    IntervalSize(Total(draws, i), Total(draws, i + 1));
  }

  predicate Within(lo: int, r: int, hi: int)
  {
    lo <= r < hi
  }

  function Interval(lo: int, hi: int): (s: set<int>)
  {
    set r | lo <= r < hi && Within(lo, r, hi)
  }

  lemma {:induction false} IntervalSize(lo: int, hi: int)
    requires lo <= hi
    ensures |Interval(lo, hi)| == hi - lo
    decreases hi - lo
  {
    if lo < hi {
      IntervalSize(lo, hi - 1);
      assert Interval(lo, hi) == Interval(lo, hi - 1) + {hi - 1};
    } else {
      assert Interval(lo, hi) == {};
    }
  }

  datatype Prefix = Printable | Protocol

  /** The two-way choice of customFirstReqPrefixes; its default branch is dead. */
  method ChoosePrefix(draws: seq<uint32>, r: nat) returns (p: Prefix)
    requires |draws| == 2 && r < Total(draws, 2)
    ensures p == if r <= draws[0] then Printable else Protocol
  {
    Monotone(draws, 0, 2);
    assert Total(draws, 1) == draws[0] as int + 1;
    var i := Pick(draws, r);
    if i.value == 0 {
      p := Printable;
    } else {
      assert i.value == 1;
      p := Protocol;
    }
  }
}
