/**
 * The conversion-factor vector of `MainScript`: one multiplier per input
 * column. A column that appears gets the factor 1.0; the user may overwrite
 * any factor; when a line arrives with a different number of values the
 * vector is grown with 1.0 or cut from the end until the lengths agree.
 */
module Calibration {

  /** The factor a newly added column starts with. */
  const DefaultFactor: real := 1.0

  /** `n` default factors, as appended by the loop of `initConversionFactors`. */
  function Ones(n: nat): (r: seq<real>)
    ensures |r| == n
    ensures forall k :: 0 <= k < n ==> r[k] == DefaultFactor
  {
    if n == 0 then [] else Ones(n - 1) + [DefaultFactor]
  }

  /** One more pass of the bootstrap loop appends one more default factor. */
  lemma OnesSnoc(f: seq<real>, n: nat)
    ensures f + Ones(n) + [DefaultFactor] == f + Ones(n + 1)
  {
    assert Ones(n + 1) == Ones(n) + [DefaultFactor];
  }

  /** `fixConversionFactors(true)`: one more column with the default factor. */
  function Grown(f: seq<real>): (r: seq<real>)
    ensures |r| == |f| + 1 && r[..|f|] == f && r[|f|] == DefaultFactor
  {
    f + [DefaultFactor]
  }

  /** `fixConversionFactors(false)`: the last column is removed. */
  function Shrunk(f: seq<real>): (r: seq<real>)
    requires |f| > 0
    ensures |r| == |f| - 1 && f == r + [f[|f| - 1]]
  {
    f[..|f| - 1]
  }

  /**
   * The factor vector after the two `while` loops of `Update` have adjusted
   * `f` to `n` columns: the first `min(|f|, n)` factors are kept, any column
   * beyond `|f|` gets the default factor.
   */
  function Reconciled(f: seq<real>, n: nat): (r: seq<real>)
    ensures |r| == n
    ensures forall k :: 0 <= k < n && k < |f| ==> r[k] == f[k]
    ensures forall k :: |f| <= k < n ==> r[k] == DefaultFactor
  {
    if |f| <= n then f + Ones(n - |f|) else f[..n]
  }

  /** The three clauses of `Reconciled` determine it: any vector meeting them is the reconciled one. */
  lemma ReconciledUnique(f: seq<real>, n: nat, r: seq<real>)
    requires |r| == n
    requires forall k :: 0 <= k < n && k < |f| ==> r[k] == f[k]
    requires forall k :: |f| <= k < n ==> r[k] == DefaultFactor
    ensures r == Reconciled(f, n)
  {
    var q := Reconciled(f, n);
    forall k | 0 <= k < n ensures r[k] == q[k] {
      if k < |f| {
        assert r[k] == f[k] == q[k];
      } else {
        assert r[k] == DefaultFactor == q[k];
      }
    }
  }

  /** A line with as many values as there are factors leaves the factors alone. */
  lemma ReconcileSameLength(f: seq<real>)
    ensures Reconciled(f, |f|) == f
  {
    ReconciledUnique(f, |f|, f);
  }

  /** Reconciling twice to the same length changes nothing the second time. */
  lemma ReconcileIdempotent(f: seq<real>, n: nat)
    ensures Reconciled(Reconciled(f, n), n) == Reconciled(f, n)
  {
    ReconcileSameLength(Reconciled(f, n));
  }

  /**
   * A longer line followed by a shorter one leaves the same factors as the
   * shorter one alone: growing never disturbs the columns that survive.
   */
  lemma ReconcileGrowThenShrink(f: seq<real>, m: nat, n: nat)
    requires n <= m
    ensures Reconciled(Reconciled(f, m), n) == Reconciled(f, n)
  {
    ReconciledUnique(f, n, Reconciled(Reconciled(f, m), n));
  }

  /**
   * A shorter line forgets the factors past its length: after a line with `m`
   * values and then one with `n > m`, columns `m` to `n - 1` are back to the
   * default whatever the user had entered for them.
   */
  lemma ReconcileShrinkForgets(f: seq<real>, m: nat, n: nat, k: nat)
    requires m <= k < n
    ensures Reconciled(Reconciled(f, m), n)[k] == DefaultFactor
  {
  }

  /** Step of the first `while` loop: growing by one column stays on the way to `Reconciled(f, n)`. */
  lemma GrowStep(f: seq<real>, g: seq<real>, n: nat)
    requires |f| <= |g| < n && g == Reconciled(f, |g|)
    ensures Grown(g) == Reconciled(f, |g| + 1)
  {
    ReconciledUnique(f, |g| + 1, Grown(g));
  }

  /** Step of the second `while` loop: dropping the last column stays on the way to `Reconciled(f, n)`. */
  lemma ShrinkStep(f: seq<real>, g: seq<real>, n: nat)
    requires n < |g| <= |f| && g == Reconciled(f, |g|)
    ensures Shrunk(g) == Reconciled(f, |g| - 1)
  {
    ReconciledUnique(f, |g| - 1, Shrunk(g));
  }

  /** `onConversionFactorEnter`: factor `index` is replaced, the others and the length stay. */
  function Overridden(f: seq<real>, index: nat, v: real): (r: seq<real>)
    requires index < |f|
    ensures |r| == |f| && r[index] == v
    ensures forall k :: 0 <= k < |f| && k != index ==> r[k] == f[k]
  {
    f[index := v]
  }

  /**
   * A factor the user entered survives the next reconciliation to a length
   * that still has its column (a shorter line in between erases it, see
   * `ReconcileShrinkForgets`).
   */
  lemma OverrideSurvives(f: seq<real>, index: nat, v: real, n: nat)
    requires index < |f| && index < n
    ensures Reconciled(Overridden(f, index, v), n)[index] == v
  {
  }
}
