/**
 Absolute-tolerance comparison of two vectors, shared by the `check_data`
 validators of the SpMV (CRS) and 3-D stencil benchmark harnesses.

 Both validators walk the first `n` entries of a computed vector and a
 reference vector, OR an error flag whenever the difference lies strictly
 outside `[-eps, eps]`, and report success when the flag stayed clear.
 Values are modelled as `real`: floating-point rounding of the subtraction
 and NaN are not represented.
 */
module Tolerance {

  function Abs(x: real): (r: real)
    ensures r >= 0.0 && (r == x || r == -x)
  {
    if x < 0.0 then -x else x
  }

  /** The harnesses' rejection test for one difference, `diff < -eps || eps < diff`:
      the pair of strict comparisons is exactly the magnitude bound `|diff| > eps`. */
  function OutOfTolerance(diff: real, eps: real): (r: bool)
    ensures r <==> Abs(diff) > eps
  {
    diff < -eps || eps < diff
  }

  /** The accepted band is closed: a difference of exactly `eps` or `-eps` passes,
      anything further out by any positive amount fails. */
  lemma BoundaryIsInclusive(eps: real, delta: real)
    requires eps >= 0.0 && delta > 0.0
    ensures !OutOfTolerance(eps, eps) && !OutOfTolerance(-eps, eps)
    ensures OutOfTolerance(eps + delta, eps) && OutOfTolerance(-eps - delta, eps)
  {
  }

  /** Reference definition: the first `n` pairs are all within tolerance. */
  predicate AllWithin(xs: seq<real>, ys: seq<real>, n: nat, eps: real)
    requires n <= |xs| && n <= |ys|
  {
    n == 0 || (AllWithin(xs, ys, n - 1, eps) && !OutOfTolerance(xs[n - 1] - ys[n - 1], eps))
  }

  /** The recursive definition agrees with the pointwise one. */
  lemma {:induction false} AllWithinIff(xs: seq<real>, ys: seq<real>, n: nat, eps: real)
    requires n <= |xs| && n <= |ys|
    ensures AllWithin(xs, ys, n, eps) <==>
              forall i :: 0 <= i < n ==> !OutOfTolerance(xs[i] - ys[i], eps)
  {
    if n > 0 {
      AllWithinIff(xs, ys, n - 1, eps);
    }
  }

  /** The bound is symmetric, so swapping computed and reference vectors does not
      change the verdict. */
  lemma {:induction false} AllWithinSymmetric(xs: seq<real>, ys: seq<real>, n: nat, eps: real)
    requires n <= |xs| && n <= |ys|
    ensures AllWithin(xs, ys, n, eps) == AllWithin(ys, xs, n, eps)
  {
    if n > 0 {
      AllWithinSymmetric(xs, ys, n - 1, eps);
      assert ys[n - 1] - xs[n - 1] == -(xs[n - 1] - ys[n - 1]);
    }
  }

  /** A single element out of tolerance anywhere below `n` fails the whole check:
      the error flag, once set, is never cleared. */
  lemma {:induction false} OneOutOfToleranceFails(xs: seq<real>, ys: seq<real>, n: nat, eps: real, k: nat)
    requires n <= |xs| && n <= |ys|
    requires k < n && OutOfTolerance(xs[k] - ys[k], eps)
    ensures !AllWithin(xs, ys, n, eps)
  {
    if k < n - 1 {
      OneOutOfToleranceFails(xs, ys, n - 1, eps, k);
    }
  }

  /** Only the entries below `n` are compared: vectors that agree there get the
      same verdict, whatever follows. */
  lemma {:induction false} AllWithinDependsOnlyOnPrefix(xs: seq<real>, ys: seq<real>, xs': seq<real>, ys': seq<real>, n: nat, eps: real)
    requires n <= |xs| && n <= |ys| && n <= |xs'| && n <= |ys'|
    requires xs[..n] == xs'[..n] && ys[..n] == ys'[..n]
    ensures AllWithin(xs, ys, n, eps) == AllWithin(xs', ys', n, eps)
  {
    if n > 0 {
      assert xs[..n - 1] == xs[..n][..n - 1] && xs'[..n - 1] == xs'[..n][..n - 1];
      assert ys[..n - 1] == ys[..n][..n - 1] && ys'[..n - 1] == ys'[..n][..n - 1];
      assert xs[n - 1] == xs[..n][n - 1] && xs'[n - 1] == xs'[..n][n - 1];
      assert ys[n - 1] == ys[..n][n - 1] && ys'[n - 1] == ys'[..n][n - 1];
      AllWithinDependsOnlyOnPrefix(xs, ys, xs', ys', n - 1, eps);
    }
  }

  /** Every difference sitting exactly on the boundary passes. */
  lemma ExactBoundPasses(xs: seq<real>, ys: seq<real>, n: nat, eps: real)
    requires n <= |xs| && n <= |ys| && eps >= 0.0
    requires forall i :: 0 <= i < n ==> xs[i] - ys[i] == eps || xs[i] - ys[i] == -eps
    ensures AllWithin(xs, ys, n, eps)
  {
    AllWithinIff(xs, ys, n, eps);
  }

  /** One difference beyond the boundary by any positive amount fails the check. */
  lemma BeyondBoundFails(xs: seq<real>, ys: seq<real>, n: nat, eps: real, k: nat, delta: real)
    requires n <= |xs| && n <= |ys| && delta > 0.0
    requires k < n && (xs[k] - ys[k] == eps + delta || xs[k] - ys[k] == -eps - delta)
    ensures !AllWithin(xs, ys, n, eps)
  {
    OneOutOfToleranceFails(xs, ys, n, eps, k);
  }

  /** The validator loop: `has_errors` accumulates by OR over the first `n`
      differences, and the result is its negation. */
  method CheckPrefix(xs: seq<real>, ys: seq<real>, n: nat, eps: real) returns (ok: bool)
    requires n <= |xs| && n <= |ys|
    ensures ok <==> forall i :: 0 <= i < n ==> -eps <= xs[i] - ys[i] <= eps
    ensures ok <==> AllWithin(xs, ys, n, eps)
  {
    var hasErrors := false;
    var i := 0;
    while i < n
      invariant 0 <= i <= n
      invariant hasErrors <==> exists j :: 0 <= j < i && OutOfTolerance(xs[j] - ys[j], eps)
    {
      var diff := xs[i] - ys[i];
      hasErrors := hasErrors || OutOfTolerance(diff, eps);
      i := i + 1;
    }
    AllWithinIff(xs, ys, n, eps);
    ok := !hasErrors;
  }
}
