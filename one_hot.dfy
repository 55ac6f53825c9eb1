/**
 * One-hot encodings (`one_hots` in the backward analyser): for a categorical feature encoded by
 * the variables v_0 ... v_{n-1}, the i-th value of the feature is the condition
 * `1 <= v_i <= 1` and `0 <= v_j <= 0` for every other j, paired with v_i.
 */
module OneHot {
  import opened Expressions
  import opened Sequences

  /** One value of a one-hot encoded feature: the variable that is one, and the condition. */
  type OneHot1 = (string, Formula)

  function IsOne(x: string): Formula { Between(1.0, x, 1.0) }

  function IsZero(x: string): Formula { Between(0.0, x, 0.0) }

  /** `base` after the loop that prepends `v_j = 0` for j = 0, ..., k-1 (each in front). */
  function ZerosBefore(vars: seq<string>, k: nat, base: Formula): Formula
    requires k <= |vars|
  {
    if k == 0 then base else And(IsZero(vars[k - 1]), ZerosBefore(vars, k - 1, base))
  }

  /** `base` after the loop that appends `v_j = 0` for j = lo, ..., hi-1 (each behind). */
  function ZerosAfter(vars: seq<string>, lo: nat, hi: nat, base: Formula): Formula
    requires lo <= hi <= |vars|
    decreases hi - lo
  {
    if hi == lo then base else And(ZerosAfter(vars, lo, hi - 1, base), IsZero(vars[hi - 1]))
  }

  /** The condition built for index i. */
  function OneHotFormula(vars: seq<string>, i: nat): Formula
    requires i < |vars|
  {
    ZerosAfter(vars, i + 1, |vars|, ZerosBefore(vars, i, IsOne(vars[i])))
  }

  /** The pairs built for the indices below n. */
  function OneHotPairsBelow(vars: seq<string>, n: nat): set<OneHot1>
    requires n <= |vars|
  {
    set i | 0 <= i < n :: (vars[i], OneHotFormula(vars, i))
  }

  /** The set `one_hots(vars)` returns. */
  function OneHotPairs(vars: seq<string>): set<OneHot1>
  {
    OneHotPairsBelow(vars, |vars|)
  }

  /** `one_hots`: one pair per index, built with the source's two nested loops. */
  method OneHots(vars: seq<string>) returns (values: set<OneHot1>)
    ensures values == OneHotPairs(vars)
    ensures forall i :: 0 <= i < |vars| ==> (vars[i], OneHotFormula(vars, i)) in values
    ensures forall p :: p in values ==> exists i :: 0 <= i < |vars| && p == (vars[i], OneHotFormula(vars, i))
  {
    values := {};
    var arity := |vars|;
    for i := 0 to arity
      invariant values == OneHotPairsBelow(vars, i)
    {
      var value := IsOne(vars[i]);
      for j := 0 to i
        invariant value == ZerosBefore(vars, j, IsOne(vars[i]))
      {
        value := And(IsZero(vars[j]), value);
      }
      for j := i + 1 to arity
        invariant value == ZerosAfter(vars, i + 1, j, ZerosBefore(vars, i, IsOne(vars[i])))
      {
        value := And(value, IsZero(vars[j]));
      }
      assert OneHotPairsBelow(vars, i + 1) == OneHotPairsBelow(vars, i) + {(vars[i], value)};
      values := values + {(vars[i], value)};
    }
  }

  lemma {:induction false} ZerosBeforeHolds(vars: seq<string>, k: nat, base: Formula, env: Assignment)
    requires k <= |vars|
    ensures Holds(ZerosBefore(vars, k, base), env)
        <==> Holds(base, env) && forall j :: 0 <= j < k ==> env(vars[j]) == 0.0
  {
    if k > 0 {
      ZerosBeforeHolds(vars, k - 1, base, env);
    }
  }

  lemma {:induction false} ZerosAfterHolds(vars: seq<string>, lo: nat, hi: nat, base: Formula, env: Assignment)
    requires lo <= hi <= |vars|
    ensures Holds(ZerosAfter(vars, lo, hi, base), env)
        <==> Holds(base, env) && forall j :: lo <= j < hi ==> env(vars[j]) == 0.0
    decreases hi - lo
  {
    if hi > lo {
      ZerosAfterHolds(vars, lo, hi - 1, base, env);
    }
  }

  /** The i-th one-hot condition holds exactly when v_i is one and every other variable is zero. */
  lemma OneHotHolds(vars: seq<string>, i: nat, env: Assignment)
    requires i < |vars|
    ensures Holds(OneHotFormula(vars, i), env)
        <==> env(vars[i]) == 1.0 && forall j :: 0 <= j < |vars| && j != i ==> env(vars[j]) == 0.0
  {
    ZerosBeforeHolds(vars, i, IsOne(vars[i]), env);
    ZerosAfterHolds(vars, i + 1, |vars|, ZerosBefore(vars, i, IsOne(vars[i])), env);
  }

  /** Two different values of a one-hot feature never hold together. */
  lemma OneHotExclusive(vars: seq<string>, i: nat, k: nat, env: Assignment)
    requires i < |vars| && k < |vars| && i != k
    ensures !(Holds(OneHotFormula(vars, i), env) && Holds(OneHotFormula(vars, k), env))
  {
    OneHotHolds(vars, i, env);
    OneHotHolds(vars, k, env);
  }

  /** For distinct variables there is exactly one pair per variable. */
  lemma {:induction false} OneHotPairsCount(vars: seq<string>, n: nat)
    requires n <= |vars| && Distinct(vars)
    ensures |OneHotPairsBelow(vars, n)| == n
  {
    if n > 0 {
      OneHotPairsCount(vars, n - 1);
      var p := (vars[n - 1], OneHotFormula(vars, n - 1));
      assert OneHotPairsBelow(vars, n) == OneHotPairsBelow(vars, n - 1) + {p};
      assert p !in OneHotPairsBelow(vars, n - 1);
    }
  }
}
