# Benchmark kernels and result validators, modelled in Dafny

This project models the sequential logic of three benchmark components of a
hardware-accelerator benchmark suite:

- the string-matching benchmark's `kmp` routine, which (despite its name) is a
  naive sliding-window counter: for every start position
  `0 .. STRING_SIZE - PATTERN_SIZE` it counts how many of the `PATTERN_SIZE`
  window characters equal the pattern, and adds one to `n_matches[0]` when all
  of them do; and its HLS entry point `workload`, which skips the search and
  stores the constant 49236;
- `check_data` of the SpMV (compressed-row storage) harness, which accepts a
  run iff every one of the `N` = 494 output entries lies within the absolute
  tolerance `EPSILON` = 1.0e-6 of the reference output;
- `check_data` of the 3-D stencil harness, the same test over the `SIZE`
  entries of the solution grid.

Modules:

- `Kmp` (`kmp.dfy`): the window counter as a method with loop invariants,
  checked against a set-of-occurrences reference definition.
- `Tolerance` (`tolerance.dfy`): the tolerance loop shared by both validators,
  over `seq<real>`, checked against a recursive all-within-tolerance predicate.
- `SpmvCrsSupport` (`spmv_crs_support.dfy`) and `Stencil3dSupport`
  (`stencil3d_support.dfy`): each harness's argument block and `check_data`.

`PATTERN_SIZE`, `STRING_SIZE` and the stencil's `SIZE` are defined in headers
that are not part of this model; they are parameters. `N` comes from
`MachSuitePlusHARP/spmv/crs/spmv.h`, where the element type `TYPE` is
`double`; the stencil's `TYPE` is defined in a header that is not part of this
model and is assumed to be a floating type as well, so both validators compare
`real` values. The C arrays are passed as Dafny sequences, which are values:
`pattern` and `input` are only read, `n_matches[0]` is passed in and returned,
and both `check_data` routines only read their two argument blocks.

## Model

| member | source | states |
|---|---|---|
| Kmp.AgreeCount | AlphaData_Optimization/kmp/kmp_baseline_comm/kmp.c:50-54 | the per-window match counter `str_cnt` never exceeds the number of characters compared so far |
| Kmp.AgreeCountFull | AlphaData_Optimization/kmp/kmp_baseline_comm/kmp.c:50-55 | after `k` inner steps `str_cnt == k` exactly when the first `k` pattern characters equal the window characters (both directions) |
| Kmp.WindowCountedIffMatch | AlphaData_Optimization/kmp/kmp_baseline_comm/kmp.c:50-56 | a window is counted iff `input[i..i+PATTERN_SIZE)` equals the pattern |
| Kmp.CountWindow | AlphaData_Optimization/kmp/kmp_baseline_comm/kmp.c:50-55 | the inner loop yields the number of window characters that agree with the pattern, a count in `[0, PATTERN_SIZE]` that equals `PATTERN_SIZE` iff the window at `i` matches; it reads only in-bounds positions `i+j` |
| Kmp.CountUpTo | AlphaData_Optimization/kmp/kmp_baseline_comm/kmp.c:49-57 | after examining `k` start positions at most `k` matches have been added |
| Kmp.CountOccurrences | AlphaData_Optimization/kmp/kmp_baseline_comm/kmp.c:49 | the match count is at most `STRING_SIZE - PATTERN_SIZE + 1`, and 0 when the pattern is longer than the input |
| Kmp.CountUpToIsCardinality | AlphaData_Optimization/kmp/kmp_baseline_comm/kmp.c:49-57 | the matches added over the first `k` start positions are exactly the matching positions below `k` |
| Kmp.CountIsOccurrences | AlphaData_Optimization/kmp/kmp_baseline_comm/kmp.c:49-57 | the counter equals the number of positions `i` with `input[i..i+PATTERN_SIZE) == pattern` |
| Kmp.OverlappingOccurrencesCounted | AlphaData_Optimization/kmp/kmp_baseline_comm/kmp.c:49 | because `i` advances by one whatever the outcome, overlapping occurrences are each counted ("aa" twice in "aaa") |
| Kmp.Kmp | AlphaData_Optimization/kmp/kmp_baseline_comm/kmp.c:46-58 | `n_matches[0]` ends as its initial value plus the number of occurrences of the pattern prefix in the input prefix; it is never reset, is unchanged when `PATTERN_SIZE > STRING_SIZE`, and grows by at most the number of windows |
| Kmp.Workload | AlphaData_Optimization/kmp/kmp_baseline_comm/kmp.c:60-72 | `workload` does not run the search (the `kmp` call is commented out) and stores the constant 49236 in `n_matches[0]` |
| Kmp.WorkloadIgnoresInputs | AlphaData_Optimization/kmp/kmp_baseline_comm/kmp.c:60-72 | `workload` stores 49236 whatever the pattern, the input and the previous count |
| Kmp.WorkloadIsNotTheSearch | AlphaData_Optimization/kmp/kmp_baseline_comm/kmp.c:69-70 | with the `kmp` call commented out, `workload`'s result differs from the search's on an input with no occurrence |
| Tolerance.OutOfTolerance | MachSuitePlusHARP/spmv/crs/local_support.c:140-141 | the rejection test, either of the strict comparisons `diff < -EPSILON` or `EPSILON < diff`, flags a difference exactly when its magnitude exceeds `EPSILON` (the same test is at stencil `local_support.c:136`) |
| Tolerance.BoundaryIsInclusive | MachSuitePlusHARP/spmv/crs/local_support.c:141 | a difference of exactly `+EPSILON` or `-EPSILON` passes; one further out by any positive amount fails |
| Tolerance.AllWithinIff | MachSuitePlusHARP/spmv/crs/local_support.c:139-145 | the recursive all-within-tolerance verdict holds iff every index below `n` is within tolerance (both directions) |
| Tolerance.AllWithinSymmetric | MachSuitePlusHARP/spmv/crs/local_support.c:140-141 | the verdict is symmetric in the computed and reference vectors |
| Tolerance.OneOutOfToleranceFails | MachSuitePlus/stencil/stencil3d/local_support.c:134-140 | one entry out of tolerance anywhere below `n` makes the verdict false |
| Tolerance.AllWithinDependsOnlyOnPrefix | MachSuitePlusHARP/spmv/crs/local_support.c:139-141 | only entries below `n` are compared; vectors equal there get the same verdict |
| Tolerance.ExactBoundPasses | MachSuitePlusHARP/spmv/crs/local_support.c:141-145 | vectors whose every difference is exactly `+eps` or `-eps` pass |
| Tolerance.BeyondBoundFails | MachSuitePlusHARP/spmv/crs/local_support.c:141-145 | a single difference of `eps + delta` or `-eps - delta`, `delta > 0`, fails |
| Tolerance.CheckPrefix | MachSuitePlusHARP/spmv/crs/local_support.c:135-145 | the OR-accumulating loop returns true iff `-eps <= xs[i] - ys[i] <= eps` for every `i < n`; its invariant is that the error flag is set iff some earlier index was out of tolerance |
| SpmvCrsSupport.CheckData | MachSuitePlusHARP/spmv/crs/local_support.c:132-146 | `check_data` returns true iff `-EPSILON <= out[i] - ref.out[i] <= EPSILON` for every `i < N`; only the `out` field is read |
| SpmvCrsSupport.CheckDataSymmetric | MachSuitePlusHARP/spmv/crs/local_support.c:139-141 | swapping the computed and reference blocks does not change the verdict |
| SpmvCrsSupport.OnlyOutputCompared | MachSuitePlusHARP/spmv/crs/local_support.c:139-141 | `val`, `cols`, `rowDelimiters` and `vec` do not affect the verdict |
| SpmvCrsSupport.ExactEpsilonAccepted | MachSuitePlusHARP/spmv/crs/local_support.c:141 | outputs off by exactly `EPSILON` in either direction everywhere are accepted |
| SpmvCrsSupport.BeyondEpsilonRejected | MachSuitePlusHARP/spmv/crs/local_support.c:141 | one output off by `EPSILON + delta`, `delta > 0`, is rejected |
| Stencil3dSupport.CheckData | MachSuitePlus/stencil/stencil3d/local_support.c:127-141 | `check_data` returns true iff `abs(sol[i] - ref.sol[i]) <= EPSILON` for every `i < SIZE`; only `sol` is read |
| Stencil3dSupport.OneBadEntryFails | MachSuitePlus/stencil/stencil3d/local_support.c:134-140 | the error flag is monotone: a single entry off by more than `EPSILON` forces a false result |
| Stencil3dSupport.ExactEpsilonAccepted | MachSuitePlus/stencil/stencil3d/local_support.c:136 | a difference of exactly `EPSILON` in magnitude at every entry is accepted |
| Stencil3dSupport.OnlySolutionCompared | MachSuitePlus/stencil/stencil3d/local_support.c:134-136 | the coefficients `C` and the input grid `orig` do not affect the verdict |

## Left out

- `run_benchmark` in both harnesses: device buffer allocation, staging copies, kernel-argument binding, dispatch and print-and-exit error paths are all calls into the OpenCL runtime, with no logic of their own to state.
- `input_to_data`, `data_to_input`, `output_to_data`, `data_to_output` in both harnesses: thin wrappers over file parsing and writing helpers that are not part of this model, so no round trip can be stated.
- The SpMV kernels `spmv` (CRS) and `ellpack`: only their prototypes exist in the headers; their bodies are not part of this model.
- The commented-out KMP failure-function version of `kmp` (`kmp.c:6-42`): dead code.
- Kmp.Kmp: `n_matches[0]` is an `int32_t` and is modelled as an unbounded integer; signed overflow is undefined behaviour in C and is not modelled. The increment is bounded by the number of windows.
- Kmp.Kmp: the declared `int` result of `kmp`, which is never returned, is not modelled; the method returns the updated `n_matches[0]`.
- SpmvCrsSupport.CheckData: values are `real`, so floating-point rounding of the subtraction is not modelled.
- SpmvCrsSupport.CheckData: a NaN difference makes both C comparisons false, so NaN passes the C check; `real` has no NaN, so this case is not modelled.
- Stencil3dSupport.CheckData: assumes the stencil's `TYPE` is a floating type, with the same rounding and NaN gaps as the SpMV validator. If `TYPE` is an integer type (as in some versions of the stencil header), the test at `local_support.c:136` reduces to exact equality of `sol` entries, no difference of exactly `EPSILON` can arise, and the subtraction at `local_support.c:135` can overflow; none of this integer case is modelled.
- The headers `viterbi.h` and `gemm.h` have no algorithm bodies: `viterbi.h` holds constants, type definitions and a struct layout (its one prototype is commented out); `gemm.h` holds constants, a struct layout and the `gemm` prototype.
