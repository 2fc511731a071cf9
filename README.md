# Block-count phase of a GPU stream filter, in Dafny

The benchmark filters the positive values out of a large array of `float`s. A
host-side filter computes the reference result. On the device, the
`count_positive` OpenCL kernel does the first phase of stream compaction:
the input is split into work-groups of `m` lanes. Lane `t` of group `k` copies
`a[k*m + t]` into a local buffer of `BUFFSIZE = 1024` slots. After the barrier,
lane 0 counts the buffer entries that are `> 0` and writes that count to
`result[k]`. The host launches the kernel over `n = 1024*1024` work-items in
groups of 256 and reads back `n / 256` bins. The program also has a `filter`
kernel, but it is only a stub: work-item 0 records the global size.

The project has three modules:

- `Counting` (`counting.dfy`) holds the specification. `Positive` is the
  predicate. `CountPos` counts the positive elements of a slice, with the set of
  positive indices as an independent reference definition. `Block` is the slice
  that group `k` reads, and `BlockCounts` is the table the kernel must produce.
  The module also proves the lemmas relating these: concatenation, both
  directions of "all counted" and "none counted", and that the sum of the block
  counts is the count of the whole input.
- `Kernels` (`kernels.dfy`) holds the two kernels as imperative methods over
  arrays. `LoadLocal` is the lanes' copy into local memory; the end of its loop
  stands for the barrier. `CountLaneZero` is lane 0's counting loop. `RunGroup`
  is one work-group. `CountPositive` is the launch, a loop over the groups.
  `FilterStub` is the `filter` kernel.
- `Host` (`host.dfy`) holds the launch shape and bin sizing of
  `profile_filter`, and the one run made by `opencl_main`.

Element values are only compared with zero, so they are modelled as `real`.
In the `filter` kernel, the conversion of the global size and the global index
to 32-bit `int` is modelled explicitly by `ToInt32`. In `count_positive`, the
`int` conversions of `m`, `k`, `t` and `k*m + t` are not modelled; instead
`CountPositive` requires every global index `k*m + t` to fit in an `int`, so no
conversion changes a value.

## Model

| member | source | states |
|---|---|---|
| Counting.CountPos | filter/main.cc:120-124 | the number of positive elements of a slice never exceeds its length |
| Counting.CountPosIsCardinality | filter/main.cc:122 | the count equals the number of indices whose element is strictly greater than zero, so each such element is counted exactly once and no other element is counted |
| Counting.CountPosAllIff | filter/main.cc:120-124 | the count equals the slice length if and only if every element is positive |
| Counting.CountPosNoneIff | filter/main.cc:122 | the count is zero if and only if no element is positive, so zeros and negative values are never counted (strict `> 0`, the same test as the host filter's `x > 0` at line 73) |
| Counting.CountPosAppend | filter/main.cc:120-124 | the count of a concatenation is the sum of the counts of its parts |
| Counting.BlockCounts | filter/main.cc:67 | the table has one entry per group (`n / m`), and each entry lies between 0 and `m` |
| Counting.BlockCountIsPositiveLanes | filter/main.cc:116-125 | group `k`'s block lies inside the input, and entry `k` of the table is the number of global indices `i` in `[k*m, k*m + m)` whose element `a[i]` is strictly greater than zero |
| Counting.CountPosSliceIsCardinality | filter/main.cc:116-124 | the count of the slice `a[lo..hi)` equals the number of indices `i` in `[lo, hi)` with `a[i] > 0` |
| Counting.SumBlockCountsPrefix | filter/main.cc:116-125 | the first `j` entries of the table sum to the positive count of the first `j*m` elements |
| Counting.SumBlockCounts | filter/main.cc:116-125 | when `m` divides `n`, the table sums to the positive count of the whole input |
| Counting.ExampleCount | filter/main.cc:73 | `[-1, 2, -3, 4, 5, -6]` has 3 positive elements |
| Counting.ExampleBlockCounts | filter/main.cc:116-125 | with groups of 2, `[1, -1, 2, -2, 3, -3]` gives the table `[1, 1, 1]` |
| Kernels.ToInt32 | filter/main.cc:102-103 | the conversion to 32-bit `int` stays in the `int` range, agrees with its argument modulo 2^32, and is the identity on values up to `INT_MAX` |
| Kernels.LoadLocal | filter/main.cc:114-117 | after the copy, local slots `0..m` hold exactly group `k`'s block; the other slots and the input are unchanged |
| Kernels.CountLaneZero | filter/main.cc:119-124 | lane 0's loop returns the positive count of the first `m` local slots, which lies between 0 and `m` |
| Kernels.RunGroup | filter/main.cc:109-127 | group `k` stores the positive count of its block in `result[k]`, and no other entry of `result` changes |
| Kernels.CountPositive | filter/main.cc:109-127 | when `0 < m <= BUFFSIZE` and `m` divides `n`, the first `n / m` entries of `result` become the block-count table, later entries keep their values, and the entries sum to the positive count of the input |
| Kernels.FilterStub | filter/main.cc:99-107 | when the global size `n` is positive, `res_size[0]` becomes `n` as an `int`; no other entry changes, and the input and output arrays are not written |
| Host.ProfileFilterCounts | filter/main.cc:64-86 | with work-groups of 256, the new `bins` array has `n / 256` entries, holds the block-count table, and sums to the number of positive inputs |
| Host.OpenclMain | filter/main.cc:91-95 | the benchmark's `1024*1024` inputs satisfy the launch requirements and give 4096 bins that together count the positive inputs |

## Left out

- OpenCL setup is not modelled: platform, context, device and program creation, the build log, and `main`'s error reporting. These are calls into the OpenCL runtime.
- Host/device transfers are not modelled: buffer creation, argument binding, enqueue, flush/finish, and copy-back. The arrays are passed to the kernel methods directly.
- Timing with the high-resolution clock and the `bandwidth` computation are not modelled. They depend on the wall clock and use floating point.
- `print` and `print_column_names` are not modelled. They only format output.
- The barrier and the concurrent execution of work-groups and lanes are not modelled as concurrency. Groups run one after another, and inside a group the copy loop runs to completion before lane 0 counts. This captures the meaning because each group reads its own block and writes its own bin.
- The host reference `filter`, `random_std_vector` and `verify_vector` come from `filter.hh`, `linear-algebra.hh` and `reduce-scan.hh`. Those headers are not part of this model, so the host reference result is not modelled. `OpenclMain` takes the input array as a parameter.
- `verify_vector(result, result_gpu)` is not modelled. `result_gpu` is never filled before it is compared, and the comparison itself is in a header that is not part of this model.
- IEEE-754 specifics of `float` are not modelled: NaN, signed zero and rounding. Values are `real`, and the model covers only the `> 0` test on ordinary values.
- Launch errors are not modelled as error results. In OpenCL 1.2, a work-group size that does not divide the global size makes the enqueue fail, and `profile_filter` does not handle that case. Here the divisibility is a precondition of `CountPositive` and `ProfileFilterCounts` instead.
- `ProfileFilterCounts` and `CountPositive` accept an empty input and then produce an empty table. The source cannot reach that state: `profile_filter(0)` creates zero-size device buffers and an empty launch range, which OpenCL 1.2 rejects with an error that `main` reports before returning 1. That failure path is not modelled.
- `FilterStub` is never launched by the host code. It is modelled as a stand-alone kernel.
- No offset-scan or compaction phase is modelled, because the code has none.
