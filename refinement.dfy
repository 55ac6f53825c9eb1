/**
 * One step of `worker1` on a chunk taken from its queue, once the feasibility of the chunk is
 * known: a feasible chunk is recorded under its activation pattern; an infeasible one is refined
 * by one-hot packs, by bisecting the range of its pivot feature, by giving up on an exhausted
 * feature, or not at all. The queue and the shared counters are not modelled: the step returns
 * the chunks it would put on the queue and the percentages it would add to `feasible` and
 * `explored`.
 */
module Refinement {
  import opened Wrappers
  import opened Sequences
  import opened Expressions
  import opened OneHot
  import opened Chunks
  import opened Feasibility

  /** The analyser's settings that `worker1` reads. */
  datatype Config = Config(
    groups: seq<seq<string>>,   // `uncontroversial1`, the one-hot encoded features
    custom: seq<string>,        // `uncontroversial2`, the custom encoded features
    count: nat,                 // the number of one-hot combinations
    difference: real)           // the smallest range that is still bisected

  /** A pack: an activation pattern and its one-hot combinations, in `list(pack)` order. */
  type Pack = (Key, seq<OneHotN>)

  /** The value stored under a pattern for a feasible chunk. */
  type Entry = (set<Assumption>, set<set<OneHot1>>, set<(string, Range)>, real)

  /** IndexError on `uncontroversial2[pivot2]`, KeyError on the range lookup, ValueError on `remove`. */
  datatype StepError = PivotOutOfRange | RangeMissing | NotSplittable

  datatype Step =
    | Next(children: seq<Chunk>, feasibleCredit: real, exploredCredit: real, record: Option<(Key, Entry)>)
    | Failed(error: StepError)

  // ---------------------------------------------------------------- one-hot packs

  /** Packs as `packing` leaves them: non-empty sets of combinations of n one-hot values. */
  predicate WellFormedPacks(packs: seq<Pack>, n: nat)
  {
    forall k :: 0 <= k < |packs| ==>
      && |packs[k].1| > 0
      && Distinct(packs[k].1)
      && (forall m :: 0 <= m < |packs[k].1| ==> |packs[k].1[m]| == n)
  }

  /** The variables chosen for feature i across the combinations of a pack. */
  function FeatureVariables(items: seq<OneHotN>, i: nat): (vs: set<string>)
    requires forall m :: 0 <= m < |items| ==> i < |items[m]|
    ensures forall v :: v in vs <==> exists m :: 0 <= m < |items| && items[m][i].0 == v
  {
    set m | 0 <= m < |items| :: items[m][i].0
  }

  /** `case or nxt` over the combinations of a pack, for feature i, left to right. */
  function FeatureCase(items: seq<OneHotN>, i: nat): Formula
    requires |items| > 0 && forall m :: 0 <= m < |items| ==> i < |items[m]|
  {
    if |items| == 1 then items[0][i].1
    else Or(FeatureCase(items[..|items| - 1], i), items[|items| - 1][i].1)
  }

  /** The disjunctive assumption holds exactly when one of the pack's values of feature i does. */
  lemma {:induction false} FeatureCaseHolds(items: seq<OneHotN>, i: nat, env: Assignment)
    requires |items| > 0 && forall m :: 0 <= m < |items| ==> i < |items[m]|
    ensures Holds(FeatureCase(items, i), env)
        <==> exists m :: 0 <= m < |items| && Holds(items[m][i].1, env)
  {
    if |items| > 1 {
      var front := items[..|items| - 1];
      FeatureCaseHolds(front, i, env);
      assert forall m :: 0 <= m < |front| ==> front[m] == items[m];
    }
  }

  /** The assumptions of a pack's child: one disjunctive assumption per one-hot feature. */
  function PackAssumptions(assumptions: seq<Assumption>, items: seq<OneHotN>): (r: seq<Assumption>)
    requires |items| > 0 && forall m :: 0 <= m < |items| ==> |items[m]| == |items[0]|
    ensures |r| == |assumptions| + |items[0]| && r[..|assumptions|] == assumptions
    ensures forall i :: 0 <= i < |items[0]| ==>
      r[|assumptions| + i] == (FeatureVariables(items, i), FeatureCase(items, i))
  {
    assumptions + seq(|items[0]|, i requires 0 <= i < |items[0]| => (FeatureVariables(items, i), FeatureCase(items, i)))
  }

  /** `frozenset(frozenset(item) for item in pack)`. */
  function Unpacked(items: seq<OneHotN>): (u: set<set<OneHot1>>)
    ensures forall m :: 0 <= m < |items| ==> (set x | x in items[m]) in u
    ensures forall s :: s in u ==> exists m :: 0 <= m < |items| && forall x :: x in s <==> x in items[m]
  {
    set m | 0 <= m < |items| :: (set x | x in items[m])
  }

  /** The chunk put on the queue for one pack. */
  function PackChild(c: Chunk, cfg: Config, pack: Pack): (child: Chunk)
    requires cfg.count > 0
    requires |pack.1| > 0 && forall m :: 0 <= m < |pack.1| ==> |pack.1[m]| == |pack.1[0]|
    ensures child.ranges == c.ranges && child.pivot2 == c.pivot2 && child.splittable == c.splittable
    ensures child.pivot1 == |cfg.groups| && child.key == Some(pack.0)
    ensures child.percent == Portion(c.percent, |pack.1|, cfg.count)
    ensures child.assumptions == PackAssumptions(c.assumptions, pack.1) && child.unpacked == Unpacked(pack.1)
  {
    Chunk(PackAssumptions(c.assumptions, pack.1), |cfg.groups|, Unpacked(pack.1), c.ranges,
          c.pivot2, c.splittable, Portion(c.percent, |pack.1|, cfg.count), Some(pack.0))
  }

  /** `percent * len(pack) / count`, the share of a chunk that goes to a pack (line 287). */
  function Portion(percent: real, size: nat, count: nat): real
    requires count > 0
  {
    percent * (size as real) / (count as real)
  }

  /** Shares of disjoint parts add up. */
  lemma PortionAdd(percent: real, a: nat, b: nat, count: nat)
    requires count > 0
    ensures Portion(percent, a, count) + Portion(percent, b, count) == Portion(percent, a + b, count)
  {
    var n := count as real;
    assert percent * (a as real) / n + percent * (b as real) / n == (percent * (a as real) + percent * (b as real)) / n;
    assert percent * (a as real) + percent * (b as real) == percent * ((a + b) as real);
  }

  /** The share of all combinations is the whole percentage. */
  lemma PortionWhole(percent: real, count: nat)
    requires count > 0
    ensures Portion(percent, count, count) == percent
  {
    var n := count as real;
    assert percent * n / n == percent;
  }

  /** One child per pack, in the order of the packs (lines 272-288). */
  function PackChildren(c: Chunk, cfg: Config, packs: seq<Pack>): (children: seq<Chunk>)
    requires cfg.count > 0 && WellFormedPacks(packs, |cfg.groups|)
    ensures |children| == |packs|
    ensures forall k :: 0 <= k < |packs| ==> children[k] == PackChild(c, cfg, packs[k])
  {
    seq(|packs|, k requires 0 <= k < |packs| => PackChild(c, cfg, packs[k]))
  }

  /** The number of combinations in all packs (`_count`, line 193). */
  function PackTotal(packs: seq<Pack>): nat
  {
    if packs == [] then 0 else PackTotal(packs[..|packs| - 1]) + |packs[|packs| - 1].1|
  }

  lemma {:induction false} PackTotalPositive(packs: seq<Pack>, n: nat)
    requires WellFormedPacks(packs, n) && packs != []
    ensures PackTotal(packs) > 0
  {
    assert |packs[|packs| - 1].1| > 0;
  }

  // ---------------------------------------------------------------- the custom encoded ranges

  /** The position of the first occurrence of x in s. */
  function FirstIndex(s: seq<string>, x: string): (i: nat)
    requires x in s
    ensures i < |s| && s[i] == x && x !in s[..i]
  {
    if s[0] == x then 0
    else
      var j := FirstIndex(s[1..], x);
      assert s[..j + 1] == [s[0]] + s[1..][..j];
      j + 1
  }

  /** `list.remove`: drop the first occurrence, or None (ValueError) when there is none. */
  function RemoveFirst(s: seq<string>, x: string): (r: Option<seq<string>>)
    ensures r.None? <==> x !in s
    ensures r.Some? ==> |r.value| == |s| - 1
    ensures r.Some? ==> exists i :: 0 <= i < |s| && s[i] == x && x !in s[..i] && r.value == s[..i] + s[i + 1..]
  {
    if x !in s then None
    else
      var i := FirstIndex(s, x);
      Some(s[..i] + s[i + 1..])
  }

  /** Removing the head of a sequence leaves its tail. */
  lemma RemoveHead(x: string, rest: seq<string>)
    ensures RemoveFirst([x] + rest, x) == Some(rest)
  {
    var s := [x] + rest;
    assert FirstIndex(s, x) == 0;
    assert s[..0] + s[1..] == rest;
  }

  /** The midpoint `lower + (upper - lower) / 2`. */
  function Middle(r: Range): real { r.lower + (r.upper - r.lower) / 2.0 }

  // ---------------------------------------------------------------- the step

  /** The branch for an infeasible chunk (lines 263-320). */
  function Refine(c: Chunk, cfg: Config, packs: seq<Pack>): (r: Step)
    requires WellFormedPacks(packs, |cfg.groups|) && PackTotal(packs) == cfg.count
    ensures r.Next? ==> r.feasibleCredit == 0.0 && r.record == None
    ensures r.Next? && r.exploredCredit != 0.0 ==> r.children == [] && r.exploredCredit == c.percent
    ensures r.Failed? ==> c.pivot1 >= |cfg.groups|
    ensures c.pivot1 >= |cfg.groups| && (cfg.custom == [] || c.splittable == []) ==>
      r == Next([], 0.0, c.percent, None)
  {
    if c.pivot1 < |cfg.groups| then PackStep(c, cfg, packs)
    else if cfg.custom != [] && c.splittable != [] then RangeStep(c, cfg)
    else
      // stopping here: the chunk counts as explored
      Next([], 0.0, c.percent, None)
  }

  /** One-hot splitting, one child per pack (lines 272-288). */
  function PackStep(c: Chunk, cfg: Config, packs: seq<Pack>): (r: Step)
    requires WellFormedPacks(packs, |cfg.groups|) && PackTotal(packs) == cfg.count
    ensures r.Next? && |r.children| == |packs|
    ensures packs != [] ==> cfg.count > 0 && r.children == PackChildren(c, cfg, packs)
    ensures r.feasibleCredit == 0.0 && r.exploredCredit == 0.0 && r.record == None
  {
    if packs == [] then Next([], 0.0, 0.0, None)
    else
      PackTotalPositive(packs, |cfg.groups|);
      Next(PackChildren(c, cfg, packs), 0.0, 0.0, None)
  }

  /** Refining the range of the pivot feature (lines 290-311). */
  function RangeStep(c: Chunk, cfg: Config): (r: Step)
    requires cfg.custom != []
    ensures r.Failed? || (1 <= |r.children| <= 2 && r.feasibleCredit == 0.0 && r.exploredCredit == 0.0 && r.record == None)
  {
    if c.pivot2 >= |cfg.custom| then Failed(PivotOutOfRange)
    else
      var f := cfg.custom[c.pivot2];
      var next := (c.pivot2 + 1) % |cfg.custom|;
      match RangeIndex(c.ranges, f)
      case None => Failed(RangeMissing)
      case Some(j) =>
        var r := c.ranges[j].1;
        if r.upper - r.lower <= cfg.difference then
          // the pivot feature cannot be split any more
          match RemoveFirst(c.splittable, f)
          case None => Failed(NotSplittable)
          case Some(rest) => Next([c.(pivot2 := next, splittable := rest, key := None)], 0.0, 0.0, None)
        else
          var mid := Middle(r);
          var left := c.(ranges := c.ranges[j := (f, Range(r.lower, mid))],
                         pivot2 := next, percent := c.percent / 2.0, key := None);
          var right := c.(ranges := c.ranges[j := (f, Range(mid, r.upper))],
                          pivot2 := next, percent := c.percent / 2.0, key := None);
          Next([left, right], 0.0, 0.0, None)
  }

  /** The three ways a range step fails (lines 290-299): the pivot is past the custom features,
      the pivot feature has no range, or its range is exhausted and it is no longer splittable. */
  lemma RangeStepFails(c: Chunk, cfg: Config)
    requires cfg.custom != []
    ensures var r := RangeStep(c, cfg);
      && (r == Failed(PivotOutOfRange) <==> c.pivot2 >= |cfg.custom|)
      && (r == Failed(RangeMissing) <==>
            c.pivot2 < |cfg.custom| && RangeIndex(c.ranges, cfg.custom[c.pivot2]).None?)
      && (r == Failed(NotSplittable) <==>
            && c.pivot2 < |cfg.custom| && RangeIndex(c.ranges, cfg.custom[c.pivot2]).Some?
            && c.ranges[RangeIndex(c.ranges, cfg.custom[c.pivot2]).value].1.Width() <= cfg.difference
            && cfg.custom[c.pivot2] !in c.splittable)
  {
  }

  /** One iteration of `worker1`, given the result of `feasibility` for the chunk. */
  function Worker1Step<V>(c: Chunk, cfg: Config, feasible: bool, patterns: seq<Pattern<V>>, packs: seq<Pack>): (r: Step)
    requires WellFormedPacks(packs, |cfg.groups|) && PackTotal(packs) == cfg.count
    ensures feasible <==> r.Next? && r.record.Some?
    ensures feasible ==>
      && r.children == [] && r.feasibleCredit == c.percent && r.exploredCredit == c.percent
      && r.record.value.0 == KeyOf(patterns) && r.record.value.1.3 == c.percent
    ensures feasible ==>
      && (forall a :: a in r.record.value.1.0 <==> a in c.assumptions)
      && r.record.value.1.1 == c.unpacked
      && (forall x :: x in r.record.value.1.2 <==> x in c.ranges)
  {
    if feasible then
      var entry := ((set a | a in c.assumptions), c.unpacked, (set r | r in c.ranges), c.percent);
      Next([], c.percent, c.percent, Some((KeyOf(patterns), entry)))
    else Refine(c, cfg, packs)
  }

  // ---------------------------------------------------------------- what a step promises

  /** The percentages of the chunks, summed. */
  function TotalPercent(cs: seq<Chunk>): real
  {
    if cs == [] then 0.0 else TotalPercent(cs[..|cs| - 1]) + cs[|cs| - 1].percent
  }

  lemma PackChildrenPercent(c: Chunk, cfg: Config, packs: seq<Pack>)
    requires cfg.count > 0 && WellFormedPacks(packs, |cfg.groups|)
    ensures TotalPercent(PackChildren(c, cfg, packs)) == Portion(c.percent, PackTotal(packs), cfg.count)
  {
    var children := PackChildren(c, cfg, packs);
    assert Proportional(children, packs, c.percent, cfg.count) by {
      forall k | 0 <= k < |packs|
        ensures children[k].percent == Portion(c.percent, |packs[k].1|, cfg.count)
      {
        assert children[k] == PackChild(c, cfg, packs[k]);
      }
    }
    ScaledPercent(children, packs, c.percent, cfg.count);
  }

  /** Each child carries the share of the percentage that its pack has of the combinations. */
  predicate Proportional(children: seq<Chunk>, packs: seq<Pack>, percent: real, count: nat)
    requires count > 0
  {
    && |children| == |packs|
    && forall k :: 0 <= k < |packs| ==> children[k].percent == Portion(percent, |packs[k].1|, count)
  }

  /** Children whose percentages are proportional to their packs' sizes sum up proportionally. */
  lemma {:induction false} ScaledPercent(children: seq<Chunk>, packs: seq<Pack>, percent: real, count: nat)
    requires count > 0 && Proportional(children, packs, percent, count)
    ensures TotalPercent(children) == Portion(percent, PackTotal(packs), count)
  {
    if packs == [] {
      assert Portion(percent, 0, count) == 0.0;
    } else {
      var n := |packs| - 1;
      ScaledPercent(children[..n], packs[..n], percent, count);
      PortionAdd(percent, PackTotal(packs[..n]), |packs[n].1|, count);
    }
  }

  /**
   * Nothing is lost or invented: the children of a chunk together with what the step credits to
   * `explored` make up the chunk's percentage. For one-hot splitting this needs the packs to hold
   * all `count` combinations (the assertion at line 194) and at least one combination to exist.
   * What is credited to `feasible` is all or nothing of what is credited to `explored`.
   */
  lemma PercentConserved<V>(c: Chunk, cfg: Config, feasible: bool, patterns: seq<Pattern<V>>, packs: seq<Pack>)
    requires WellFormedPacks(packs, |cfg.groups|) && PackTotal(packs) == cfg.count && cfg.count > 0
    ensures var s := Worker1Step(c, cfg, feasible, patterns, packs);
      s.Next? ==>
        && TotalPercent(s.children) + s.exploredCredit == c.percent
        && (s.feasibleCredit == 0.0 || s.feasibleCredit == s.exploredCredit)
  {
    if !feasible && c.pivot1 < |cfg.groups| {
      if packs != [] {
        PackChildrenPercent(c, cfg, packs);
        PortionWhole(c.percent, cfg.count);
      }
    } else if !feasible && cfg.custom != [] && c.splittable != [] && c.pivot2 < |cfg.custom| {
      var f := cfg.custom[c.pivot2];
      var ri := RangeIndex(c.ranges, f);
      var s := RangeStep(c, cfg);
      assert Worker1Step(c, cfg, feasible, patterns, packs) == s;
      if ri.Some? {
        var j := ri.value;
        if c.ranges[j].1.Width() > cfg.difference {
          RangeSplit(c, cfg, j);
          TotalPercentPair(s.children);
        } else if f in c.splittable {
          RangeExhausted(c, cfg, j);
          TotalPercentPair(s.children);
        } else {
          assert s.Failed?;
        }
      } else {
        assert s.Failed?;
      }
    } else {
      var s := Worker1Step(c, cfg, feasible, patterns, packs);
      assert s.Next? ==> s.children == [];
    }
  }

  /**
   * With no one-hot combination at all (`count` is 0, see `SpecFile.ProductZero`) there is no pack,
   * so one-hot splitting puts nothing on the queue and credits nothing: a chunk with a non-zero
   * percentage loses it, and `explored` can no longer reach 100.
   */
  lemma {:induction false} ZeroCountDropsChunk<V>(c: Chunk, cfg: Config, patterns: seq<Pattern<V>>, packs: seq<Pack>)
    requires WellFormedPacks(packs, |cfg.groups|) && PackTotal(packs) == cfg.count
    requires cfg.count == 0 && c.pivot1 < |cfg.groups|
    ensures packs == []
    ensures var s := Worker1Step(c, cfg, false, patterns, packs);
      s == Next([], 0.0, 0.0, None)
      && (c.percent != 0.0 ==> TotalPercent(s.children) + s.exploredCredit != c.percent)
  {
    if packs != [] {
      PackTotalPositive(packs, |cfg.groups|);
    }
  }

  lemma TotalPercentPair(cs: seq<Chunk>)
    ensures |cs| == 1 ==> TotalPercent(cs) == cs[0].percent
    ensures |cs| == 2 ==> TotalPercent(cs) == cs[0].percent + cs[1].percent
  {
    if |cs| == 2 {
      assert cs[..1][..0] == [];
    } else if |cs| == 1 {
      assert cs[..0] == [];
    }
  }

  /** A chunk that needs a range split yields two halves of the pivot range (lines 300-311). */
  lemma RangeSplit(c: Chunk, cfg: Config, j: nat)
    requires c.pivot2 < |cfg.custom|
    requires RangeIndex(c.ranges, cfg.custom[c.pivot2]) == Some(j)
    requires c.ranges[j].1.Width() > cfg.difference
    ensures var s := RangeStep(c, cfg);
      var r, mid := c.ranges[j].1, Middle(c.ranges[j].1);
      var n := |cfg.custom|;
      && s.Next? && |s.children| == 2 && s.exploredCredit == 0.0
      && s.children[0].ranges == c.ranges[j := (c.ranges[j].0, Range(r.lower, mid))]
      && s.children[1].ranges == c.ranges[j := (c.ranges[j].0, Range(mid, r.upper))]
      && (r.lower <= r.upper ==> r.lower <= mid <= r.upper)
      && s.children[0].ranges[j].1.Width() == s.children[1].ranges[j].1.Width() == r.Width() / 2.0
      && s.children[0].percent == s.children[1].percent == c.percent / 2.0
      && s.children[0].percent + s.children[1].percent == c.percent
      && s.children[0].pivot2 == s.children[1].pivot2 == (c.pivot2 + 1) % n
      && s.children[0].splittable == s.children[1].splittable == c.splittable
      && s.children[0].key == s.children[1].key == None
      && forall k :: 0 <= k < 2 ==>
           && s.children[k].assumptions == c.assumptions
           && s.children[k].pivot1 == c.pivot1
           && s.children[k].unpacked == c.unpacked
  {
  }

  /** A chunk whose pivot range is too small drops the feature from `splittable` (lines 293-299). */
  lemma RangeExhausted(c: Chunk, cfg: Config, j: nat)
    requires c.pivot2 < |cfg.custom|
    requires RangeIndex(c.ranges, cfg.custom[c.pivot2]) == Some(j)
    requires c.ranges[j].1.Width() <= cfg.difference
    requires cfg.custom[c.pivot2] in c.splittable
    ensures var s := RangeStep(c, cfg);
      && s.Next? && |s.children| == 1 && s.exploredCredit == 0.0
      && s.children[0].ranges == c.ranges && s.children[0].percent == c.percent
      && s.children[0].pivot2 == (c.pivot2 + 1) % |cfg.custom|
      && Some(s.children[0].splittable) == RemoveFirst(c.splittable, cfg.custom[c.pivot2])
      && |s.children[0].splittable| == |c.splittable| - 1
      && s.children[0].assumptions == c.assumptions && s.children[0].pivot1 == c.pivot1
      && s.children[0].unpacked == c.unpacked && s.children[0].key == None
  {
  }
}
