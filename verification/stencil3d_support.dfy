/**
 Result validation of the 3-D stencil benchmark harness
 (`stencil/stencil3d/local_support.c`). Only `check_data` is modelled: it
 compares the `sol` grid of a computed run against a reference run with an
 absolute tolerance. `SIZE`, the grid's element count, is defined in a header
 that is not part of this model and is a parameter here. The element type
 `TYPE` is defined in the same header; this model assumes it is a floating
 type and represents its values as `real`.
 */
module Stencil3dSupport {
  import Tolerance

  /** Absolute tolerance, 1.0e-6. */
  const Epsilon: real := 0.000001

  /** The benchmark's argument block: the two stencil coefficients, the input
      grid and the solution grid, each grid flattened to `SIZE` entries. */
  datatype BenchArgs = BenchArgs(C: seq<real>, orig: seq<real>, sol: seq<real>)

  /** The verdict `check_data` must reach over a grid of `size` entries. */
  predicate Passes(data: BenchArgs, ref: BenchArgs, size: nat)
    requires |data.sol| == size && |ref.sol| == size
  {
    Tolerance.AllWithin(data.sol, ref.sol, size, Epsilon)
  }

  /** `check_data`: true iff every solution entry is within `Epsilon` of the
      reference, the bound included. `C` and `orig` are never read. */
  method CheckData(data: BenchArgs, ref: BenchArgs, size: nat) returns (ok: bool)
    requires |data.sol| == size && |ref.sol| == size
    ensures ok <==> forall i :: 0 <= i < size ==> Tolerance.Abs(data.sol[i] - ref.sol[i]) <= Epsilon
    ensures ok == Passes(data, ref, size)
  {
    ok := Tolerance.CheckPrefix(data.sol, ref.sol, size, Epsilon);
  }

  /** One bad entry forces a failing verdict, wherever it sits: the error flag
      is never cleared once set. */
  lemma OneBadEntryFails(data: BenchArgs, ref: BenchArgs, size: nat, k: nat)
    requires |data.sol| == size && |ref.sol| == size
    requires k < size && Tolerance.Abs(data.sol[k] - ref.sol[k]) > Epsilon
    ensures !Passes(data, ref, size)
  {
    Tolerance.OneOutOfToleranceFails(data.sol, ref.sol, size, Epsilon, k);
  }

  /** A difference of exactly `Epsilon` in magnitude at every entry is accepted. */
  lemma ExactEpsilonAccepted(data: BenchArgs, ref: BenchArgs, size: nat)
    requires |data.sol| == size && |ref.sol| == size
    requires forall i :: 0 <= i < size ==> Tolerance.Abs(data.sol[i] - ref.sol[i]) == Epsilon
    ensures Passes(data, ref, size)
  {
    Tolerance.ExactBoundPasses(data.sol, ref.sol, size, Epsilon);
  }

  /** The coefficients and the input grid have no influence on the verdict. */
  lemma OnlySolutionCompared(data: BenchArgs, data': BenchArgs, ref: BenchArgs, size: nat)
    requires |data.sol| == size && |data'.sol| == size && |ref.sol| == size
    requires data.sol == data'.sol
    ensures Passes(data, ref, size) == Passes(data', ref, size)
  {
  }
}
