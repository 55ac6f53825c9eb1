/**
 * The condition `worker2` assumes backwards from the output layer for a chosen output class
 * (lines 460-466): every other output is strictly below the chosen one. The set of outputs is a
 * sequence without repetitions in the set's iteration order; `set.pop` takes its first element.
 */
module Outcome {
  import opened Wrappers
  import opened Sequences
  import opened Expressions

  /** `self.outputs - {chosen}`, in iteration order. */
  function Remaining(outputs: seq<string>, chosen: string): (r: seq<string>)
    ensures forall x :: x in r <==> x in outputs && x != chosen
    ensures Distinct(outputs) ==> Distinct(r)
  {
    if outputs == [] then []
    else if outputs[0] == chosen then Remaining(outputs[1..], chosen)
    else
      var rest := Remaining(outputs[1..], chosen);
      assert Distinct(outputs) ==> outputs[0] !in outputs[1..];
      [outputs[0]] + rest
  }

  /** The chosen output is strictly greater than the given outputs under the assignment. */
  predicate Beats(chosen: string, others: seq<string>, env: Assignment)
  {
    forall k :: 0 <= k < |others| ==> env(others[k]) < env(chosen)
  }

  /** The chosen output is strictly greater than every other output under the assignment. */
  predicate Wins(outputs: seq<string>, chosen: string, env: Assignment)
  {
    forall x :: x in outputs && x != chosen ==> env(x) < env(chosen)
  }

  /**
   * Builds `discarded < chosen and ...` over every other output (lines 461-466), starting from the
   * output `pop` removes. With no other output `pop` raises KeyError, modelled as None. The
   * formula holds exactly when the chosen output exceeds every other output.
   */
  method OutcomeFormula(outputs: seq<string>, chosen: string) returns (outcome: Option<Formula>)
    ensures outcome.None? <==> forall x :: x in outputs ==> x == chosen
    ensures outcome.Some? ==> forall env: Assignment :: Holds(outcome.value, env) <==> Wins(outputs, chosen, env)
  {
    var remaining := Remaining(outputs, chosen);
    if remaining == [] {
      return None;
    }
    var discarded := remaining[0];
    assert discarded in outputs && discarded != chosen;
    var formula := Lt(Var(discarded), Var(chosen));
    remaining := remaining[1..];
    for k := 0 to |remaining|
      invariant forall env: Assignment ::
        Holds(formula, env) <==> env(discarded) < env(chosen) && Beats(chosen, remaining[..k], env)
    {
      var cond := Lt(Var(remaining[k]), Var(chosen));
      formula := And(formula, cond);
      assert forall env: Assignment :: Beats(chosen, remaining[..k + 1], env) <==>
        Beats(chosen, remaining[..k], env) && env(remaining[k]) < env(chosen);
    }
    assert remaining[..|remaining|] == remaining;
    ghost var others := Remaining(outputs, chosen);
    assert others == [discarded] + remaining;
    forall env: Assignment
      ensures Holds(formula, env) <==> Wins(outputs, chosen, env)
    {
      BeatsMembers(chosen, others, env);
    }
    outcome := Some(formula);
  }

  /** `Beats` over a list is the same as over its members. */
  lemma BeatsMembers(chosen: string, others: seq<string>, env: Assignment)
    requires |others| > 0
    ensures (env(others[0]) < env(chosen) && Beats(chosen, others[1..], env)) <==>
      forall x :: x in others ==> env(x) < env(chosen)
  {
    if forall x :: x in others ==> env(x) < env(chosen) {
      forall k | 0 <= k < |others[1..]|
        ensures env(others[1..][k]) < env(chosen)
      {
        assert others[1..][k] in others;
      }
    }
  }

  /** Two different classes cannot both be the outcome under one assignment. */
  lemma WinnersExclusive(outputs: seq<string>, c1: string, c2: string, env: Assignment)
    requires c1 in outputs && c2 in outputs && c1 != c2
    ensures !(Wins(outputs, c1, env) && Wins(outputs, c2, env))
  {
  }

  /**
   * When the outputs take pairwise different values, some output class is the outcome, so the
   * conditions built for the classes cover every such assignment.
   */
  lemma {:induction false} WinnerExists(outputs: seq<string>, env: Assignment)
    requires outputs != []
    requires forall i, j :: 0 <= i < j < |outputs| ==> env(outputs[i]) != env(outputs[j])
    ensures exists c :: c in outputs && Wins(outputs, c, env)
  {
    if |outputs| == 1 {
      assert Wins(outputs, outputs[0], env);
    } else {
      var init := outputs[..|outputs| - 1];
      var last := outputs[|outputs| - 1];
      WinnerExists(init, env);
      var c :| c in init && Wins(init, c, env);
      var k :| 0 <= k < |init| && init[k] == c;
      assert outputs[k] == c;
      if env(c) < env(last) {
        forall x | x in outputs && x != last
          ensures env(x) < env(last)
        {
          if x != c {
            assert x in init;
          }
        }
        assert Wins(outputs, last, env);
      } else {
        assert env(c) != env(last);
        forall x | x in outputs && x != c
          ensures env(x) < env(c)
        {
          if x != last {
            assert x in init;
          }
        }
        assert Wins(outputs, c, env);
      }
    }
  }
}
