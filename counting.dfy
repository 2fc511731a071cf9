/** Specification of the block-count phase of the positive-number stream filter:
    the predicate shared by the host filter and the device kernel, the number of
    elements a slice holds that satisfy it, and the per-block count table. */
module Counting {

  /** The filter predicate: strictly greater than zero. The host reference filter
      (`x > 0`) and the device kernel (`buff[j] > 0`) use the same test. */
  predicate Positive(x: real) {
    x > 0.0
  }

  /** Number of elements of `s` that satisfy the predicate. */
  function CountPos(s: seq<real>): (r: nat)
    ensures r <= |s|
  {
    if s == [] then 0
    else CountPos(s[..|s| - 1]) + (if Positive(s[|s| - 1]) then 1 else 0)
  }

  /** Reference definition of the counted elements: the set of their indices. */
  ghost function PositiveIndices(s: seq<real>): set<nat> {
    set j: nat | j < |s| && Positive(s[j])
  }

  /** Sum of a sequence of integers. */
  function Sum(s: seq<int>): int {
    if s == [] then 0 else Sum(s[..|s| - 1]) + s[|s| - 1]
  }

  /** The slice of `a` read by work-group `k` when work-groups have `m` lanes. */
  function Block(a: seq<real>, m: nat, k: nat): (b: seq<real>)
    requires k * m + m <= |a|
    ensures |b| == m
    ensures forall t :: 0 <= t < m ==> b[t] == a[k * m + t]
  {
    a[k * m .. k * m + m]
  }

  /** Work-group `k` of a launch over `groups` groups of `m` lanes reads in bounds. */
  lemma GroupInBounds(groups: nat, m: nat, k: nat)
    requires k < groups
    ensures k * m + m <= groups * m
  {
    var d := groups - k - 1;
    assert groups * m == k * m + m + d * m;
  }

  /** When `m` divides `n`, the `n / m` groups tile `[0, n)` exactly. */
  lemma GroupsTile(n: nat, m: nat)
    requires 0 < m && n % m == 0
    ensures (n / m) * m == n
  {
  }

  /** The block-count table: entry `k` is the number of positive elements in
      block `k`, for each of the `|a| / m` blocks. */
  function BlockCounts(a: seq<real>, m: nat): (r: seq<int>)
    requires 0 < m && |a| % m == 0
    ensures |r| == |a| / m
    ensures forall k :: 0 <= k < |r| ==> 0 <= r[k] <= m
  {
    GroupsTile(|a|, m);
    seq(|a| / m, k requires 0 <= k < |a| / m =>
      GroupInBounds(|a| / m, m, k); CountPos(Block(a, m, k)))
  }

  /** Entry `k` of the table is the count over block `k`. */
  lemma BlockCountsAt(a: seq<real>, m: nat, k: nat)
    requires 0 < m && |a| % m == 0 && k < |a| / m
    ensures k * m + m <= |a|
    ensures BlockCounts(a, m)[k] == CountPos(Block(a, m, k))
  {
    GroupsTile(|a|, m);
    GroupInBounds(|a| / m, m, k);
  }

  /** The count of the slice `a[lo..hi]` is the number of global indices in
      `[lo, hi)` whose element is strictly positive. */
  lemma {:induction false} CountPosSliceIsCardinality(a: seq<real>, lo: nat, hi: nat)
    requires lo <= hi <= |a|
    ensures CountPos(a[lo..hi]) == |set i: nat | lo <= i < hi && Positive(a[i])|
  {
    var here := set i: nat | lo <= i < hi && Positive(a[i]);
    if lo < hi {
      var before := set i: nat | lo <= i < hi - 1 && Positive(a[i]);
      CountPosSliceIsCardinality(a, lo, hi - 1);
      assert a[lo..hi][..hi - lo - 1] == a[lo..hi - 1];
      assert hi - 1 !in before;
      if Positive(a[hi - 1]) {
        assert here == before + {hi - 1};
      } else {
        assert here == before;
      }
    } else {
      assert here == {};
    }
  }

  /** Entry `k` of the table is the number of elements of group `k`, at global
      indices `k * m .. k * m + m`, that are strictly positive. */
  lemma BlockCountIsPositiveLanes(a: seq<real>, m: nat, k: nat)
    requires 0 < m && |a| % m == 0 && k < |a| / m
    ensures k * m + m <= |a|
    ensures BlockCounts(a, m)[k] == |set i: nat | k * m <= i < k * m + m && Positive(a[i])|
  {
    BlockCountsAt(a, m, k);
    CountPosSliceIsCardinality(a, k * m, k * m + m);
  }

  /** Counting distributes over concatenation. */
  lemma {:induction false} CountPosAppend(s: seq<real>, t: seq<real>)
    ensures CountPos(s + t) == CountPos(s) + CountPos(t)
  {
    if t != [] {
      var u := t[..|t| - 1];
      assert (s + t)[..|s + t| - 1] == s + u;
      CountPosAppend(s, u);
    } else {
      assert s + t == s;
    }
  }

  /** The count is the cardinality of the set of positive indices: exactly the
      elements strictly greater than zero are counted, each once. */
  lemma {:induction false} CountPosIsCardinality(s: seq<real>)
    ensures CountPos(s) == |PositiveIndices(s)|
  {
    if s != [] {
      var n := |s| - 1;
      var p := s[..n];
      CountPosIsCardinality(p);
      assert n !in PositiveIndices(p);
      if Positive(s[n]) {
        assert PositiveIndices(s) == PositiveIndices(p) + {n};
      } else {
        assert PositiveIndices(s) == PositiveIndices(p);
      }
    } else {
      assert PositiveIndices(s) == {};
    }
  }

  /** The count reaches the length exactly when every element is positive. */
  lemma {:induction false} CountPosAllIff(s: seq<real>)
    ensures CountPos(s) == |s| <==> forall j :: 0 <= j < |s| ==> Positive(s[j])
  {
    if s != [] {
      var n := |s| - 1;
      var p := s[..n];
      CountPosAllIff(p);
      if forall j :: 0 <= j < |s| ==> Positive(s[j]) {
        assert forall j :: 0 <= j < n ==> Positive(p[j]);
      }
      if CountPos(s) == |s| {
        assert CountPos(p) == n && Positive(s[n]);
        forall j | 0 <= j < |s| ensures Positive(s[j]) {
          if j < n { assert s[j] == p[j]; }
        }
      }
    }
  }

  /** The count is zero exactly when no element is positive: zeros and negative
      values are never counted. */
  lemma {:induction false} CountPosNoneIff(s: seq<real>)
    ensures CountPos(s) == 0 <==> forall j :: 0 <= j < |s| ==> !Positive(s[j])
  {
    if s != [] {
      var n := |s| - 1;
      var p := s[..n];
      CountPosNoneIff(p);
      if forall j :: 0 <= j < |s| ==> !Positive(s[j]) {
        assert forall j :: 0 <= j < n ==> !Positive(p[j]);
      }
      if CountPos(s) == 0 {
        assert CountPos(p) == 0 && !Positive(s[n]);
        forall j | 0 <= j < |s| ensures !Positive(s[j]) {
          if j < n { assert s[j] == p[j]; }
        }
      }
    }
  }

  /** The prefix covered by `j + 1` blocks is the prefix covered by `j` blocks
      followed by block `j`. */
  lemma PrefixStep(a: seq<real>, m: nat, j: nat)
    requires j * m + m <= |a|
    ensures (j + 1) * m == j * m + m
    ensures a[..(j + 1) * m] == a[..j * m] + Block(a, m, j)
  {
    assert (j + 1) * m == j * m + m;
  }

  /** The blocks before block `j` together count the positive elements of the
      prefix they cover. */
  lemma {:induction false} SumBlockCountsPrefix(a: seq<real>, m: nat, j: nat)
    requires 0 < m && |a| % m == 0 && j <= |a| / m
    ensures j * m <= |a|
    ensures Sum(BlockCounts(a, m)[..j]) == CountPos(a[..j * m])
  {
    var bc := BlockCounts(a, m);
    if j == 0 {
      assert a[..0 * m] == [];
    } else {
      var i := j - 1;
      SumBlockCountsPrefix(a, m, i);
      BlockCountsAt(a, m, i);
      assert bc[..j][..i] == bc[..i];
      PrefixStep(a, m, i);
      CountPosAppend(a[..i * m], Block(a, m, i));
    }
  }

  /** Summing the block-count table gives the number of positive elements of
      the whole input. */
  lemma SumBlockCounts(a: seq<real>, m: nat)
    requires 0 < m && |a| % m == 0
    ensures Sum(BlockCounts(a, m)) == CountPos(a)
  {
    GroupsTile(|a|, m);
    SumBlockCountsPrefix(a, m, |a| / m);
    assert BlockCounts(a, m)[..|a| / m] == BlockCounts(a, m);
    assert a[..(|a| / m) * m] == a;
  }

  /** Worked example: six values, three of them positive. */
  lemma ExampleCount()
    ensures CountPos([-1.0, 2.0, -3.0, 4.0, 5.0, -6.0]) == 3
  {
    var s := [-1.0, 2.0, -3.0, 4.0, 5.0, -6.0];
    assert CountPos(s[..1]) == 0;
    assert CountPos(s[..2]) == 1 by { assert s[..2][..1] == s[..1]; }
    assert CountPos(s[..3]) == 1 by { assert s[..3][..2] == s[..2]; }
    assert CountPos(s[..4]) == 2 by { assert s[..4][..3] == s[..3]; }
    assert CountPos(s[..5]) == 3 by { assert s[..5][..4] == s[..4]; }
  }

  /** Worked example across block boundaries: blocks of two lanes over
      `[1, -1, 2, -2, 3, -3]` count one positive element each. */
  lemma ExampleBlockCounts()
    ensures BlockCounts([1.0, -1.0, 2.0, -2.0, 3.0, -3.0], 2) == [1, 1, 1]
  {
  }
}
