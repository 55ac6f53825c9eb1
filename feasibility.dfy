/**
 * `feasibility`: whether the forward pre-analysis of a chunk leaves few enough undecided
 * activations (disjunctions) for every value of the sensitive feature, and the activation
 * patterns it found. The pre-analysis itself is not modelled: `analysis(idx)` stands for the
 * (active, inactive) sets it returns for the idx-th sensitive value within the chunk.
 */
module Feasibility {
  import opened Chunks

  /** `len(self.activations) - len(active) - len(inactive)`. */
  function Disjunctions(activations: set<NodeId>, found: Activity): int
  {
    |activations| - |found.0| - |found.1|
  }

  /** The pattern recorded for one sensitive value. */
  type Pattern<V> = (V, set<NodeId>, set<NodeId>)

  /** The idx-th sensitive value leaves more disjunctions than `widening` allows. */
  predicate TooMany(activations: set<NodeId>, analysis: nat -> Activity, widening: int, idx: nat)
  {
    Disjunctions(activations, analysis(idx)) > widening
  }

  /**
   * The feasibility loop. With `force` (the source's `do`) every value gets its pattern; without
   * it the loop stops at the first value with too many disjunctions, recording nothing for it.
   */
  method Feasibility<V>(values: seq<V>, activations: set<NodeId>, analysis: nat -> Activity,
                        widening: int, force: bool)
    returns (feasible: bool, patterns: seq<Pattern<V>>, disjunctions: int)
    ensures feasible <==> forall i :: 0 <= i < |values| ==> !TooMany(activations, analysis, widening, i)
    ensures |patterns| <= |values|
    ensures forall i :: 0 <= i < |patterns| ==> patterns[i] == (values[i], analysis(i).0, analysis(i).1)
    ensures force || feasible ==> |patterns| == |values|
    ensures !force ==> forall i :: 0 <= i < |patterns| ==> !TooMany(activations, analysis, widening, i)
    ensures !force && |patterns| < |values| ==> TooMany(activations, analysis, widening, |patterns|)
    ensures disjunctions == if values == [] then |activations|
      else Disjunctions(activations, analysis(if |patterns| < |values| then |patterns| else |values| - 1))
    ensures feasible ==> KeyOf(patterns) == seq(|values|, i requires 0 <= i < |values| => analysis(i))
  {
    feasible := true;
    patterns := [];
    disjunctions := |activations|;
    for idx := 0 to |values|
      invariant |patterns| == idx
      invariant forall i :: 0 <= i < idx ==> patterns[i] == (values[i], analysis(i).0, analysis(i).1)
      invariant feasible <==> forall i :: 0 <= i < idx ==> !TooMany(activations, analysis, widening, i)
      invariant !force ==> feasible
      invariant disjunctions == if idx == 0 then |activations| else Disjunctions(activations, analysis(idx - 1))
    {
      var (active, inactive) := analysis(idx);
      disjunctions := |activations| - |active| - |inactive|;
      assert TooMany(activations, analysis, widening, idx) <==> disjunctions > widening;
      if disjunctions > widening {
        feasible := false;
        if !force {
          break;
        }
      }
      patterns := patterns + [(values[idx], active, inactive)];
    }
  }

  /** The activation pattern of a feasible chunk: its (active, inactive) pair per sensitive value. */
  function KeyOf<V>(patterns: seq<Pattern<V>>): (key: Key)
    ensures |key| == |patterns|
    ensures forall i :: 0 <= i < |patterns| ==> key[i] == (patterns[i].1, patterns[i].2)
  {
    seq(|patterns|, i requires 0 <= i < |patterns| => (patterns[i].1, patterns[i].2))
  }
}
