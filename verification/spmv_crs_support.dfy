/**
 Result validation of the SpMV benchmark harness over compressed-row storage
 (`spmv/crs/local_support.c`). Only `check_data` is modelled: it compares the
 `out` vector of a computed run against a reference run, entry by entry, with
 an absolute tolerance.
 */
module SpmvCrsSupport {
  import Tolerance

  /** Row count of the IEEE 494-bus interconnect matrix. */
  const N: nat := 494
  /** Absolute tolerance, 1.0e-6. */
  const Epsilon: real := 0.000001

  /** The benchmark's argument block: the CRS matrix, the dense input vector
      and the output vector. */
  datatype BenchArgs = BenchArgs(
    val: seq<real>,
    cols: seq<int>,
    rowDelimiters: seq<int>,
    vec: seq<real>,
    out: seq<real>)

  /** The verdict `check_data` must reach: every output entry below `N` lies
      within `Epsilon` of the reference entry. */
  predicate Passes(data: BenchArgs, ref: BenchArgs)
    requires |data.out| == N && |ref.out| == N
  {
    Tolerance.AllWithin(data.out, ref.out, N, Epsilon)
  }

  /** `check_data`: true iff no output entry is out of tolerance. Fields other
      than `out` are never read. */
  method CheckData(data: BenchArgs, ref: BenchArgs) returns (ok: bool)
    requires |data.out| == N && |ref.out| == N
    ensures ok <==> forall i :: 0 <= i < N ==> -Epsilon <= data.out[i] - ref.out[i] <= Epsilon
    ensures ok == Passes(data, ref)
  {
    ok := Tolerance.CheckPrefix(data.out, ref.out, N, Epsilon);
  }

  /** Swapping the computed and the reference block does not change the verdict. */
  lemma CheckDataSymmetric(data: BenchArgs, ref: BenchArgs)
    requires |data.out| == N && |ref.out| == N
    ensures Passes(data, ref) == Passes(ref, data)
  {
    Tolerance.AllWithinSymmetric(data.out, ref.out, N, Epsilon);
  }

  /** The matrix and the input vector have no influence on the verdict. */
  lemma OnlyOutputCompared(data: BenchArgs, data': BenchArgs, ref: BenchArgs)
    requires |data.out| == N && |data'.out| == N && |ref.out| == N
    requires data.out == data'.out
    ensures Passes(data, ref) == Passes(data', ref)
  {
  }

  /** An output that differs from the reference by exactly `Epsilon` (either
      sign) at every entry is accepted. */
  lemma ExactEpsilonAccepted(data: BenchArgs, ref: BenchArgs)
    requires |data.out| == N && |ref.out| == N
    requires forall i :: 0 <= i < N ==>
               data.out[i] - ref.out[i] == Epsilon || data.out[i] - ref.out[i] == -Epsilon
    ensures Passes(data, ref)
  {
    Tolerance.ExactBoundPasses(data.out, ref.out, N, Epsilon);
  }

  /** A single entry off by `Epsilon + delta`, for any `delta > 0`, is rejected. */
  lemma BeyondEpsilonRejected(data: BenchArgs, ref: BenchArgs, k: nat, delta: real)
    requires |data.out| == N && |ref.out| == N
    requires k < N && delta > 0.0
    requires data.out[k] - ref.out[k] == Epsilon + delta || data.out[k] - ref.out[k] == -Epsilon - delta
    ensures !Passes(data, ref)
  {
    Tolerance.BeyondBoundFails(data.out, ref.out, N, Epsilon, k, delta);
  }
}
