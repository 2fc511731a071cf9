/** The host side of the filter benchmark, reduced to what decides the device
    computation: the launch shape of `count_positive` and the size of the
    count table it fills. */
module Host {
  import opened Counting
  import opened Kernels

  /** Work-group size the benchmark launches `count_positive` with. */
  const LOCAL_SIZE: nat := 256

  /** Number of input elements the benchmark filters. */
  const PROFILE_N: nat := 1024 * 1024

  /** The device part of `profile_filter`: allocate one zeroed bin per work-group,
      launch `count_positive` over all of `input` with work-groups of
      `LOCAL_SIZE`, and read the bins back. The launch is accepted only when the
      work-group size divides the global size. */
  method ProfileFilterCounts(input: array<real>) returns (bins: array<int>)
    requires input.Length % LOCAL_SIZE == 0
    requires input.Length <= INT_MAX
    ensures fresh(bins)
    ensures bins.Length == input.Length / LOCAL_SIZE
    ensures bins[..] == BlockCounts(input[..], LOCAL_SIZE)
    ensures Sum(bins[..]) == CountPos(input[..])
  {
    bins := new int[input.Length / LOCAL_SIZE];
    CountPositive(input, bins, LOCAL_SIZE);
    assert bins[..] == bins[..input.Length / LOCAL_SIZE];
  }

  /** The benchmark's one run: `PROFILE_N` values, which meet every requirement
      of the launch, give 4096 bins that together count the positive values. */
  method OpenclMain(input: array<real>) returns (bins: array<int>)
    requires input.Length == PROFILE_N
    ensures fresh(bins)
    ensures bins.Length == 4096
    ensures bins[..] == BlockCounts(input[..], LOCAL_SIZE)
    ensures Sum(bins[..]) == CountPos(input[..])
  {
    bins := ProfileFilterCounts(input);
  }
}
