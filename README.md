# Libra backward analyser: the bookkeeping core

Libra checks neural networks for algorithmic bias. Its backward analyser
(`src/libra/engine/backward.py`) works in two stages.

The pre-analysis has three parts:

- It reads a bias specification file. The file names the sensitive feature and the one-hot encoded
  features. Every other input is a custom encoded feature whose range starts at (0, 1).
- It cuts the input space into chunks. The feasibility of each chunk is decided by a forward analysis.
  An infeasible chunk is refined in one of three ways: by packs of one-hot combinations, by
  bisecting the range of a pivot feature, or by giving up on a feature whose range is too small.
- It records every feasible chunk under its abstract activation pattern. It then compresses the
  patterns, merging a pattern into one that is less constrained.

The second stage works backwards from each output class. For a chosen class it assumes the
condition that this class beats every other one. Where two outcomes for different sensitive
values intersect, it credits a share of the chunk's percentage as biased.

This project models the bookkeeping of these steps, which is sequential and exact. The polyhedra
(Apron) are left out: their results, such as the activation sets the forward analysis finds or
the bounds of a bias, are inputs to the model.

The model is built from these modules:

- `Expressions`: the small condition language the analyser builds by hand (literals, variables,
  `<=`, `<`, `and`, `or`), with its meaning under an assignment.
- `OneHot`: `one_hots`.
- `SpecFile`: the parsing block of `analyze`.
- `Feasibility`: `feasibility`.
- `Chunks`, `Refinement` and `Reachable`: one step of `worker1`, and the invariant its chunks keep.
- `Compression`: the compression loop of `analyze`.
- `BiasCheck`: the hull and the percentage in `bias_check`.
- `Outcome`: the outcome condition of `worker2`.

Some conventions hold throughout:

- A Python set or dict that the code iterates is modelled as a sequence in its iteration order.
  Where that order is some fixed but unspecified order (the set difference at line 567), the model
  picks one: the order of the name list it is given.
- A dict is modelled as the list of its items in insertion order.
- Floats are modelled as exact reals. For the ranges this is exact: they start at (0, 1) and are only
  ever halved, so their bounds are dyadic rationals, which floats hold exactly. The percentages are
  not: `percent * len(pack) / count` (line 287) and `percent * biased_size / total_size`
  (line 377) are rounded in floats and exact in the model.

## Model

| member | source | states |
|---|---|---|
| Expressions.Between | src/libra/engine/backward.py:53-55 | the bound `lo <= x and x <= hi` holds exactly when x lies between lo and hi |
| OneHot.OneHots | src/libra/engine/backward.py:41-70 | the nested loops return exactly one pair per index i, whose first component is `variables[i]` and whose condition is the i-th one-hot condition; every returned pair comes from some index |
| OneHot.OneHotHolds | src/libra/engine/backward.py:49-69 | the condition of pair i holds under an assignment exactly when v_i is 1 and every other variable is 0 |
| OneHot.OneHotExclusive | src/libra/engine/backward.py:49-69 | the conditions of two different indices never hold together |
| OneHot.OneHotPairsCount | src/libra/engine/backward.py:49-70 | for distinct variables the returned set has exactly one element per variable |
| OneHot.ZerosBeforeHolds | src/libra/engine/backward.py:58-62 | the loop that puts `v_j = 0` in front of the condition adds exactly the constraint that v_0 … v_{i-1} are 0 |
| OneHot.ZerosAfterHolds | src/libra/engine/backward.py:63-67 | the loop that puts `v_j = 0` behind the condition adds exactly the constraint that v_{i+1} … v_{n-1} are 0 |
| SpecFile.StripSpec | src/libra/engine/backward.py:527-530 | `Strip`, the model of `strip()`, returns the part of the line from its first to its last non-whitespace character, and everything around that part is whitespace |
| SpecFile.LeadingSpacesSpec | src/libra/engine/backward.py:527 | the characters `strip()` removes at the front are whitespace, and the first character it keeps is not |
| SpecFile.TrailingSpacesSpec | src/libra/engine/backward.py:527 | the characters `strip()` removes at the back are whitespace, and the last character it keeps is not |
| SpecFile.ParseIntDecimal | src/libra/engine/backward.py:527 | `ParseInt`, the model of `int`, reads back the decimal rendering of every integer, negative ones with their sign |
| SpecFile.DecimalValue | src/libra/engine/backward.py:527 | the digits of the decimal rendering of n have the value n |
| SpecFile.ArityAtLine | src/libra/engine/backward.py:549-551 | the arity read at line k is `int` of that stripped line; past the end of the file `readline()` gives "", which is no integer |
| SpecFile.NamesAt | src/libra/engine/backward.py:529-530 | name i of a group is the stripped line i places after the group's first name line, or "" past the end of the file |
| SpecFile.ReadNames | src/libra/engine/backward.py:529-530 | the `range(arity)` loop reads the next `arity` stripped lines as names, and none when the arity is negative |
| SpecFile.ReadGroups | src/libra/engine/backward.py:546-555 | the `while True` loop reads (arity, names) groups one after another and stops at the first arity line that is not an integer (the ValueError) |
| SpecFile.GroupsUnique | src/libra/engine/backward.py:546-555 | the file determines its groups: two readings of the groups from the same line agree |
| SpecFile.LayoutSnoc | src/libra/engine/backward.py:549-553 | reading one more group moves the next arity line past that group's names |
| SpecFile.LayoutStop | src/libra/engine/backward.py:554-555 | a non-integer arity line ends the groups |
| SpecFile.CountIsCombinations | src/libra/engine/backward.py:556 | `count`, the product `Product` of the group sizes (1 for no groups), is the number of one-hot combinations |
| SpecFile.CombinationsMembers | src/libra/engine/backward.py:143 | `Combinations`, the model of `itertools.product` over the one-hot groups, holds exactly the tuples that pick one variable from each group, in order |
| SpecFile.ProductZero | src/libra/engine/backward.py:556 | the product of the group sizes is 0 exactly when some one-hot group is empty (an arity of 0 or less) |
| SpecFile.ExtendLength | src/libra/engine/backward.py:556 | adding a group to the combinations multiplies their number by the group's size |
| SpecFile.ExtendMembers | src/libra/engine/backward.py:556 | the combinations after adding a group are exactly the old ones, each extended by one of the group's variables |
| SpecFile.AddUnitBounds | src/libra/engine/backward.py:538-542 | adding the bounds to the condition gives a condition that holds exactly when the old one does and every added variable is in [0, 1] |
| SpecFile.UnitBounds | src/libra/engine/backward.py:533-542 | `self.bounds` holds exactly when every sensitive and every one-hot encoded variable is in [0, 1] |
| SpecFile.Flatten | src/libra/engine/backward.py:567 | `chain(*groups)` holds exactly the variables of the groups |
| SpecFile.Excluded | src/libra/engine/backward.py:567 | the excluded variables are exactly the sensitive ones and those of any one-hot group |
| SpecFile.CustomEncoded | src/libra/engine/backward.py:567 | the custom encoded features are exactly the inputs that are neither sensitive nor one-hot encoded, with no repetitions when the inputs have none; the model lists them in the order of the inputs, the source in some fixed order |
| SpecFile.ParseSpec | src/libra/engine/backward.py:527-567 | a first line that is not an integer fails; a sensitive arity of 0 or less fails (the IndexError on `sensitive[0]`); otherwise the result holds exactly k sensitive names, their one-hot values, the groups up to the first non-integer arity, their product as `count`, the unit bounds, and the custom encoded inputs |
| SpecFile.InitialChunk | src/libra/engine/backward.py:568-570 | the first chunk has every custom encoded feature at range (0, 1) in order, no assumptions, both pivots 0, every feature splittable, 100 percent and no key |
| Reachable.InitialChunkInv | src/libra/engine/backward.py:598 | the first chunk put on the queue satisfies the chunk invariant |
| Feasibility.Feasibility | src/libra/engine/backward.py:113-136 | feasible exactly when no sensitive value leaves more than `widening` disjunctions; without `do` the loop stops at the first such value and records no pattern for it or any later value; with `do`, or when feasible, every value gets its pattern; the returned count is that of the last value examined; when feasible, the key `KeyOf` builds from the patterns at lines 251-254 is exactly the result of the analysis for each sensitive value in turn |
| Refinement.FeatureVariables | src/libra/engine/backward.py:276-282 | the variable set of a disjunctive assumption is exactly the variables the pack's combinations choose for that feature |
| Refinement.FeatureCaseHolds | src/libra/engine/backward.py:276-283 | `FeatureCase`, the disjunctive assumption for a feature holds exactly when the value of one of the pack's combinations for that feature holds |
| Refinement.PackAssumptions | src/libra/engine/backward.py:274-284 | a pack's child keeps the chunk's assumptions and then adds, for each one-hot feature i in order, the assumption (`FeatureVariables` for i, `FeatureCase` for i) |
| Refinement.PackChild | src/libra/engine/backward.py:274-288 | a pack's child keeps ranges, range pivot and splittable features, sets `pivot1` past the one-hot features, carries the pack's key, gets the percentage `Portion(percent, len(pack), count)`, the pack's assumptions and the pack's combinations as `unpacked` |
| Refinement.Unpacked | src/libra/engine/backward.py:285 | `unpacked` holds, as a set, each combination of the pack, and nothing else |
| Refinement.PackChildren | src/libra/engine/backward.py:274-288 | one child per pack, in the order of the packs |
| Refinement.PortionAdd | src/libra/engine/backward.py:287 | for `Portion`, `percent * size / count`, the shares of two disjoint packs add up to the share of their union |
| Refinement.PortionWhole | src/libra/engine/backward.py:287 | for `Portion`, the share of all `count` combinations is the whole percentage |
| Refinement.ScaledPercent | src/libra/engine/backward.py:287 | children whose percentages are proportional to their packs' sizes sum to the share of all the packs' combinations |
| Refinement.PackChildrenPercent | src/libra/engine/backward.py:193-194 | the percentages of the pack children sum to `percent * (total pack size) / count` |
| Refinement.PackTotalPositive | src/libra/engine/backward.py:193 | (proof helper) a non-empty list of non-empty packs has a positive size |
| Chunks.RangeIndex | src/libra/engine/backward.py:291-292 | the lookup `dict(ranges)[f]` finds an item for f with no later item for f (the last one, which the dict keeps), or reports that f has no item (the KeyError); `Hull` uses it for `uncontroversial in b_ranges` |
| Refinement.FirstIndex | src/libra/engine/backward.py:296 | the position of the first occurrence: it holds the value and no earlier position does |
| Refinement.RemoveFirst | src/libra/engine/backward.py:295-296 | `list.remove` fails exactly when the feature is not in the list (the ValueError), and otherwise removes its first occurrence and keeps every other element in order |
| Refinement.RemoveHead | src/libra/engine/backward.py:296 | (proof helper) removing the head of a list leaves its tail |
| Refinement.RangeSplit | src/libra/engine/backward.py:300-311 | a pivot range wider than `difference` gives two children: the ranges [lower, mid] and [mid, upper] around `Middle` (line 301), each half as wide, every other range unchanged, half the percentage each (the two adding up to the parent's), the pivot rotated to `(pivot2 + 1) mod n`, the assumptions, `pivot1` and `unpacked` kept, and no key |
| Refinement.RangeExhausted | src/libra/engine/backward.py:293-299 | a pivot range at most `difference` wide gives one child with the same ranges, percentage, assumptions, `pivot1` and `unpacked`, the first occurrence of the pivot feature removed from `splittable`, the pivot rotated, and no key |
| Refinement.RangeStep | src/libra/engine/backward.py:290-311 | a range step gives one or two children, credits nothing and records nothing, or fails |
| Refinement.RangeStepFails | src/libra/engine/backward.py:290-299 | the range step fails with an IndexError exactly when the pivot is past the custom features, with a KeyError exactly when the pivot feature has no range, and with a ValueError exactly when its range is at most `difference` wide and it is not splittable |
| Refinement.PackStep | src/libra/engine/backward.py:272-288 | one-hot splitting puts on the queue exactly `PackChildren`: for each pack, in order, the child `PackChild` builds from it; it credits and records nothing |
| Refinement.Refine | src/libra/engine/backward.py:263-320 | an infeasible chunk credits nothing to `feasible` and records nothing; when neither splitting applies (lines 312-316) the whole percentage goes to `explored` and no child is queued; only the range step can fail, and only once the one-hot features are done |
| Refinement.Worker1Step | src/libra/engine/backward.py:241-319 | the step records a pattern exactly when the chunk is feasible; then no child is queued, the chunk's percentage is credited to both `feasible` and `explored`, and the record stored at line 255 holds the key of the patterns together with the chunk's assumptions (as a set), its `unpacked`, its ranges (as a set) and its percentage |
| Refinement.PercentConserved | src/libra/engine/backward.py:241-319 | when `count` is positive, in every non-failing step the children's percentages plus what is credited to `explored` make up the chunk's percentage; `feasible` is credited all of the `explored` credit or nothing |
| Refinement.ZeroCountDropsChunk | src/libra/engine/backward.py:272-288 | when `count` is 0 (some one-hot group has arity 0 or less) there are no packs, so one-hot splitting queues no child and credits nothing: the chunk's percentage is lost |
| Refinement.TotalPercentPair | src/libra/engine/backward.py:308-311 | (proof helper) the total percentage of one or two children is the sum of their percentages |
| Reachable.StepKeepsInv | src/libra/engine/backward.py:263-319 | on a chunk satisfying the invariant, the step never raises (no IndexError, KeyError or ValueError), and every chunk it puts on the queue satisfies the invariant again |
| Reachable.PackKeepsInv | src/libra/engine/backward.py:272-288 | one-hot splitting gives one child per pack, each satisfying the invariant |
| Reachable.SplitKeepsInv | src/libra/engine/backward.py:300-311 | bisection gives two children, each satisfying the invariant |
| Reachable.HalfKeepsInv | src/libra/engine/backward.py:302-307 | a child with the pivot range halved and the pivot rotated is in lock step again: the ranges before the new pivot are half as wide as the rest |
| Reachable.ExhaustKeepsInv | src/libra/engine/backward.py:293-299 | dropping an exhausted feature gives one child satisfying the invariant |
| Reachable.ExhaustPhase | src/libra/engine/backward.py:293 | a chunk whose pivot range is too small has equally wide ranges, all too small, and exactly the features from the pivot on are splittable |
| Reachable.ExhaustShape | src/libra/engine/backward.py:295-299 | after dropping the pivot feature, the splittable features are those after the pivot, and the ranges are unchanged |
| Reachable.ExhaustedChildInv | src/libra/engine/backward.py:297-299 | that child is in the removal phase of the invariant |
| Reachable.PivotRange | src/libra/engine/backward.py:291-292 | under the invariant the range lookup finds the pivot feature at the pivot's own position |
| Reachable.Rotate | src/libra/engine/backward.py:297 | (proof helper) `(pivot2 + 1) % n` is the next position, wrapping to 0 after the last |
| Compression.Mergeable | src/libra/engine/backward.py:622-627 | `mergeable1` holds exactly when the existing key is at most as constrained as the new key over the zipped pairs, and `mergeable2` exactly when the reverse holds |
| Compression.BelowTransitive | src/libra/engine/backward.py:623-627 | "at most as constrained" is transitive |
| Compression.FindMergeable | src/libra/engine/backward.py:621-636 | the inner loop stops at the first existing key comparable with the new key, and reports when there is none |
| Compression.FirstComparableUnique | src/libra/engine/backward.py:621-636 | there is only one first comparable key |
| Compression.KeySetMember | src/libra/engine/backward.py:621 | the keys of the dict are exactly the first components of its items |
| Compression.UnionMember | src/libra/engine/backward.py:630 | the union of the packs holds exactly the chunks found in some pack |
| Compression.UnionConcat | src/libra/engine/backward.py:638 | the union of the packs of two lists is the union of their two unions |
| Compression.Replace | src/libra/engine/backward.py:634-635 | deleting key2 and inserting the new key1 moves the item to the end of the dict and keeps every other item in order |
| Compression.Visit | src/libra/engine/backward.py:619-638 | one outer iteration: with no comparable key the pattern is appended; otherwise, at the first comparable key, a key at most as constrained as the pattern's absorbs the pattern's chunks in place, and a more constrained one is deleted and the pattern's key inserted at the end with both packs; the loop invariant is kept |
| Compression.Compress | src/libra/engine/backward.py:618-638 | no chunk is lost or invented: the compressed packs hold exactly the chunks of the patterns; there are at most as many keys as patterns, each key distinct and one of the input keys; every pattern's chunks end up under a key at most as constrained as its own |
| Compression.Fresh | src/libra/engine/backward.py:619 | each pattern's key is new among the keys already visited |
| BiasCheck.Lowest | src/libra/engine/backward.py:360-364 | the joined lower bound is at most every found lower bound and equal to one of them |
| BiasCheck.Highest | src/libra/engine/backward.py:360-364 | the joined upper bound is at least every found upper bound and equal to one of them |
| BiasCheck.Hull | src/libra/engine/backward.py:355-364 | without a bias `b_ranges` stays empty; otherwise it holds one item per custom encoded feature, in order, whose range is the tightest range around that feature's bounds in every bias found |
| BiasCheck.Size | src/libra/engine/backward.py:371-376 | the size loops compute `Volume`, the product of the ranges' widths |
| BiasCheck.VolumePositive | src/libra/engine/backward.py:371-373 | non-empty ranges have a positive size |
| BiasCheck.VolumeMonotone | src/libra/engine/backward.py:371-376 | ranges each inside the corresponding range of another list have at most its size |
| BiasCheck.BiasedPercent | src/libra/engine/backward.py:368-377 | without a bias nothing is credited; otherwise the credit is `percent * biased_size / total_size`, or a failure when the chunk has size 0 (the ZeroDivisionError) |
| BiasCheck.HullInside | src/libra/engine/backward.py:344-364 | when every bias lies within the chunk's ranges, so does the hull |
| BiasCheck.ShareBounded | src/libra/engine/backward.py:377 | `Share`, `percent * part / whole`: a share of a part no bigger than the whole is between 0 and the full percentage |
| BiasCheck.CreditBounded | src/libra/engine/backward.py:368-377 | when the biases lie within the chunk's non-empty ranges, the division is defined and the credit is between 0 and the chunk's percentage |
| BiasCheck.Credit | src/libra/engine/backward.py:330-377 | without a bias the credit is 0; otherwise it fails when the chunk's volume is 0 (the ZeroDivisionError) and is `Share(percent, Volume(hull), Volume(ranges))` for the hull of the biases; for biases within non-empty ranges it is defined and between 0 and the chunk's percentage |
| BiasCheck.HullsUnique | src/libra/engine/backward.py:355-364 | the biases determine their hull: two hulls of the same biases are equal |
| BiasCheck.HullAtUnique | src/libra/engine/backward.py:360-364 | one entry of the hull is determined by the biases' bounds for its feature |
| Outcome.Remaining | src/libra/engine/backward.py:461 | `outputs - {chosen}` holds exactly the other outputs, with no repetitions |
| Outcome.OutcomeFormula | src/libra/engine/backward.py:460-466 | with no other output, `pop` fails (the KeyError); otherwise the built condition holds under an assignment exactly when the chosen output is strictly greater than every other output |
| Outcome.BeatsMembers | src/libra/engine/backward.py:463-466 | the popped output's comparison together with those of the loop covers exactly the other outputs |
| Outcome.WinnersExclusive | src/libra/engine/backward.py:460-466 | the conditions of two different chosen classes never hold together |
| Outcome.WinnerExists | src/libra/engine/backward.py:460-466 | when the outputs take pairwise different values, the condition of some class holds: between them the conditions cover every such assignment |

## Left out

- Apron is not modelled: `assume`, `meet`, `forget`, `bound_variable`, the polyhedra themselves and
  the `BiasBackwardSemantics` class. Their results are inputs: the forward pre-analysis is the
  `analysis` function parameter of `Feasibility.Feasibility`, and the feasibility of a chunk is the
  `feasible` argument of `Refinement.Worker1Step`.
- The bias test at line 353, based on the `repr` of a polyhedron, and the `eval` of Apron bounds at
  lines 358-359 are not modelled. `BiasCheck.Hull` takes as input the distinct biases found and the
  bounds Apron gives them. Which pairs of outcomes are intersected (lines 334-343) is not modelled.
- The `multiprocessing` machinery is not modelled: processes, queues, `Manager().dict()`, shared
  `Value`s, the lock, and the sentinel put on the queue once `explored` reaches 100. The model
  states one sequential step of a worker. The additions to `feasible` and `explored` are returned as
  credits, and the record added to `self.patterns` is returned as an entry. The counter
  `partitions` is not modelled.
- `producer`, `consumer` and `packing` are not modelled. The packs are an input to the refinement
  step, in the order `worker1` visits them. The ranking sort by `score` at line 273 and the sort by
  pack size at line 619 are not modelled: each loop takes its items in the given order, and the
  properties proved do not depend on that order. The packs are assumed to hold `count`
  combinations between them, which the assertion at line 194 checks.
- `from_node` (lines 381-440) is not modelled. Neither is the rest of `worker2` after line 466, which
  runs the backward analysis and calls `bias_check`.
- Printing, colours, timing and the sorting done only for display (lines 195-203, 611-616,
  641-645) are not modelled.
- Opening the specification file is not modelled. `SpecFile.ParseSpec` takes the file's lines
  without terminators.
- SpecFile.ParseInt accepts ASCII decimal digits only. Python's `int` also accepts other Unicode
  digits.
- `OneHot.OneHots` returns a set, as the source does. Line 531 turns it into a list in Python's set
  iteration order. The model gives `Feasibility.Feasibility` its values as a sequence in any order.
- Refinement.RangeStep updates the pivot feature's item in place. The source goes through
  `dict(ranges)` and `list(left.items())`. The two agree when the features in `ranges` are
  distinct, which the invariant `Reachable.ChunkInv` guarantees for every reachable chunk.
- Floats are exact reals. Python's `min` and `max` behave the same on reals, whichever argument
  wins a tie.
- `Reachable.ChunkInv` asks that `uncontroversial2` has no repetitions. The source builds it from
  a set, so this always holds.
- Refinement.PercentConserved: holds only when `count` is positive. When a one-hot group has arity
  0 or less, `count` is 0 (`SpecFile.ProductZero`), there are no packs, and one-hot splitting drops
  the chunk with its percentage (`Refinement.ZeroCountDropsChunk`); `explored` then never reaches 100.
