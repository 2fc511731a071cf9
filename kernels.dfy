/** The OpenCL program of the filter benchmark: the `count_positive` kernel (the
    block-count phase of stream compaction) and the `filter` kernel, which so far
    only records the global size. Work-groups run one after another here; inside
    a group, the lanes' stores into local memory form one loop, whose end stands
    for the barrier, and lane 0's counting pass follows it. */
module Kernels {
  import opened Counting

  /** Capacity, in elements, of the local buffer each work-group copies into. */
  const BUFFSIZE: nat := 1024

  /** Largest value of the kernels' 32-bit `int`. */
  const INT_MAX: int := 0x7FFF_FFFF

  /** Conversion of a non-negative size or index to the kernels' 32-bit `int`
      (two's complement wrap-around). */
  function ToInt32(x: nat): (r: int)
    ensures -INT_MAX - 1 <= r <= INT_MAX
    ensures (x - r) % 0x1_0000_0000 == 0
    ensures x <= INT_MAX ==> r == x
  {
    var w := x % 0x1_0000_0000;
    if w > INT_MAX then w - 0x1_0000_0000 else w
  }

  /** Copy phase of work-group `k`: every lane `t < m` stores `a[k * m + t]` into
      slot `t` of the group's local buffer. When the loop ends all lanes have
      reached the barrier. */
  method LoadLocal(a: array<real>, buff: array<real>, m: nat, k: nat)
    requires buff != a
    requires buff.Length == BUFFSIZE && m <= BUFFSIZE
    requires k * m + m <= a.Length
    modifies buff
    ensures buff[..m] == Block(a[..], m, k)
    ensures buff[m..] == old(buff[m..])
  {
    for t := 0 to m
      invariant forall u :: 0 <= u < t ==> buff[u] == a[k * m + u]
      invariant buff[m..] == old(buff[m..])
    {
      buff[t] := a[k * m + t];
    }
  }

  /** Lane 0's pass after the barrier: counts the positive entries among the
      first `m` slots of the local buffer. */
  method CountLaneZero(buff: array<real>, m: nat) returns (cnt: int)
    requires m <= buff.Length
    ensures cnt == CountPos(buff[..m])
    ensures 0 <= cnt <= m
  {
    cnt := 0;
    for j := 0 to m
      invariant cnt == CountPos(buff[..j])
    {
      assert buff[..j + 1][..j] == buff[..j];
      if buff[j] > 0.0 {
        cnt := cnt + 1;
      }
    }
  }

  /** One work-group `k` of `count_positive`: copy its block into local memory,
      then lane 0 counts the positive entries and stores the count in
      `result[k]`. No other entry of `result` changes and `a` is only read. */
  method RunGroup(a: array<real>, result: array<int>, m: nat, k: nat)
    requires 0 < m <= BUFFSIZE
    requires k * m + m <= a.Length
    requires k < result.Length
    modifies result
    ensures result[k] == CountPos(Block(a[..], m, k))
    ensures forall j :: 0 <= j < result.Length && j != k ==> result[j] == old(result[j])
  {
    var buff := new real[BUFFSIZE];
    LoadLocal(a, buff, m, k);
    var cnt := CountLaneZero(buff, m);
    result[k] := cnt;
  }

  /** The `count_positive` kernel launched over a global size of `a.Length`
      work-items in groups of `m`: afterwards `result` starts with the block-count
      table of `a`, whose sum is the number of positive elements of `a`.
      The launch needs `m` to fit the local buffer and to divide the global size;
      `result` must hold one entry per group, and every global index
      `k * m + t` must be representable as a 32-bit `int`. */
  method CountPositive(a: array<real>, result: array<int>, m: nat)
    requires 0 < m <= BUFFSIZE
    requires a.Length % m == 0
    requires a.Length <= INT_MAX + 1
    requires result.Length >= a.Length / m
    modifies result
    ensures result[..a.Length / m] == BlockCounts(a[..], m)
    ensures result[a.Length / m..] == old(result[a.Length / m..])
    ensures Sum(result[..a.Length / m]) == CountPos(a[..])
  {
    var groups := a.Length / m;
    GroupsTile(a.Length, m);
    for k := 0 to groups
      invariant forall j :: 0 <= j < k ==> result[j] == BlockCounts(a[..], m)[j]
      invariant forall j :: k <= j < result.Length ==> result[j] == old(result[j])
    {
      GroupInBounds(groups, m, k);
      RunGroup(a, result, m, k);
      BlockCountsAt(a[..], m, k);
    }
    SumBlockCounts(a[..], m);
  }

  /** The `filter` kernel as it stands: work-item 0 stores the global size `n`,
      converted to `int`, into `resSize[0]`; no other work-item writes, and
      `input` and `result` are left untouched. */
  method FilterStub(input: array<real>, resSize: array<int>, result: array<real>, n: nat)
    requires n > 0 ==> resSize.Length > 0
    modifies resSize
    ensures n > 0 ==> resSize[0] == ToInt32(n)
    ensures forall j :: 0 <= j < resSize.Length && (j != 0 || n == 0) ==> resSize[j] == old(resSize[j])
  {
    for i := 0 to n
      invariant i > 0 ==> resSize[0] == ToInt32(n)
      invariant forall j :: 0 <= j < resSize.Length && (j != 0 || i == 0) ==> resSize[j] == old(resSize[j])
    {
      if ToInt32(i) == 0 {
        resSize[0] := ToInt32(n);
      }
    }
  }
}
