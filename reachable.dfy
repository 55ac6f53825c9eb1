/**
 * The chunks `worker1` can meet. Starting from the initial chunk, the custom encoded ranges are
 * bisected in lock step: the features before `pivot2` have half the width of the others, and a
 * feature is only dropped from `splittable` once every range is at most `difference` wide. From
 * this invariant it follows that none of the three lookups of the refinement step (the
 * `uncontroversial2[pivot2]` index, the `dict(ranges)` lookup, the `splittable.remove`) can fail,
 * and that every range stays a non-empty part of the initial range [0, 1].
 */
module Reachable {
  import opened Wrappers
  import opened Sequences
  import opened Chunks
  import opened SpecFile
  import opened Feasibility
  import opened Refinement

  /** The width of the last custom encoded range, the width the ranges not yet halved share. */
  function LastWidth(c: Chunk): real
  {
    if c.ranges == [] then 0.0 else c.ranges[|c.ranges| - 1].1.Width()
  }

  /** A non-empty part of the initial range. */
  predicate InUnit(r: Range)
  {
    0.0 <= r.lower < r.upper <= 1.0
  }

  /** Bisection phase: the ranges before the pivot are half as wide as the others. */
  predicate Splitting(c: Chunk, custom: seq<string>, difference: real)
  {
    && c.splittable == custom
    && (c.pivot2 > 0 ==> LastWidth(c) > difference)
    && forall j :: 0 <= j < |c.ranges| ==>
         c.ranges[j].1.Width() == if j < c.pivot2 then LastWidth(c) / 2.0 else LastWidth(c)
  }

  /** Removal phase: all ranges are equally wide and too small; features go from the pivot on. */
  predicate Exhausting(c: Chunk, custom: seq<string>, difference: real)
    requires c.pivot2 <= |custom|
  {
    && (c.splittable == custom[c.pivot2..] || c.splittable == [])
    && LastWidth(c) <= difference
    && forall j :: 0 <= j < |c.ranges| ==> c.ranges[j].1.Width() == LastWidth(c)
  }

  /** What holds of every chunk on the queue, given the analyser's settings. */
  predicate ChunkInv(c: Chunk, cfg: Config)
  {
    && Distinct(cfg.custom)
    && |c.ranges| == |cfg.custom|
    && (forall j :: 0 <= j < |c.ranges| ==> c.ranges[j].0 == cfg.custom[j] && InUnit(c.ranges[j].1))
    && (if cfg.custom == [] then c.pivot2 == 0 else c.pivot2 < |cfg.custom|)
    && (Splitting(c, cfg.custom, cfg.difference) || Exhausting(c, cfg.custom, cfg.difference))
  }

  /** The chunk `analyze` puts on the queue first satisfies the invariant (line 598). */
  lemma InitialChunkInv(cfg: Config)
    requires Distinct(cfg.custom)
    ensures ChunkInv(InitialChunk(cfg.custom), cfg)
  {
  }

  /** The pivot moves to the next custom encoded feature, wrapping around after the last. */
  lemma Rotate(p: nat, n: nat)
    requires p < n
    ensures (p + 1) % n == if p + 1 < n then p + 1 else 0
  {
  }

  /** The range lookup finds the pivot feature at the pivot's own position. */
  lemma PivotRange(c: Chunk, cfg: Config)
    requires ChunkInv(c, cfg) && cfg.custom != []
    ensures RangeIndex(c.ranges, cfg.custom[c.pivot2]) == Some(c.pivot2)
  {
  }

  /** Bisecting the pivot range keeps the invariant in both halves (lines 300-311). */
  lemma {:induction false} SplitKeepsInv(c: Chunk, cfg: Config)
    requires ChunkInv(c, cfg) && cfg.custom != [] && c.splittable != []
    requires c.ranges[c.pivot2].1.Width() > cfg.difference
    ensures var s := RangeStep(c, cfg);
      s.Next? && |s.children| == 2 && forall k :: 0 <= k < |s.children| ==> ChunkInv(s.children[k], cfg)
  {
    var p, n := c.pivot2, |cfg.custom|;
    PivotRange(c, cfg);
    RangeSplit(c, cfg, p);
    var s := RangeStep(c, cfg);
    var w := LastWidth(c);
    assert Splitting(c, cfg.custom, cfg.difference);
    assert c.ranges[p].1.Width() == w;
    forall k | 0 <= k < |s.children|
      ensures ChunkInv(s.children[k], cfg)
    {
      HalfKeepsInv(c, s.children[k], cfg, w);
    }
  }

  /** One half of a bisection: the pivot range halved, the pivot moved on. */
  lemma {:induction false} HalfKeepsInv(c: Chunk, h: Chunk, cfg: Config, w: real)
    requires ChunkInv(c, cfg) && cfg.custom != [] && c.splittable == cfg.custom
    requires w == LastWidth(c) && w > cfg.difference && c.ranges[c.pivot2].1.Width() == w
    requires Splitting(c, cfg.custom, cfg.difference)
    requires h.splittable == c.splittable && h.pivot2 == (c.pivot2 + 1) % |cfg.custom|
    requires |h.ranges| == |c.ranges|
    requires forall j :: 0 <= j < |c.ranges| && j != c.pivot2 ==> h.ranges[j] == c.ranges[j]
    requires h.ranges[c.pivot2].0 == c.ranges[c.pivot2].0 && h.ranges[c.pivot2].1.Width() == w / 2.0
    requires c.ranges[c.pivot2].1.lower <= h.ranges[c.pivot2].1.lower
    requires h.ranges[c.pivot2].1.upper <= c.ranges[c.pivot2].1.upper
    ensures ChunkInv(h, cfg)
  {
    var p, n := c.pivot2, |cfg.custom|;
    var wh := if p + 1 < n then w else w / 2.0;
    Rotate(p, n);
    assert LastWidth(h) == wh by {
      if p + 1 < n {
        assert h.ranges[n - 1] == c.ranges[n - 1];
      }
    }
    forall j | 0 <= j < |h.ranges|
      ensures h.ranges[j].0 == cfg.custom[j] && InUnit(h.ranges[j].1)
      ensures h.ranges[j].1.Width() == if j < h.pivot2 then wh / 2.0 else wh
    {
      if j != p {
        assert h.ranges[j] == c.ranges[j];
      }
    }
    assert Splitting(h, cfg.custom, cfg.difference);
  }

  /** A chunk whose pivot range is too small is in the removal phase, wherever it came from. */
  lemma {:induction false} ExhaustPhase(c: Chunk, cfg: Config)
    requires ChunkInv(c, cfg) && cfg.custom != [] && c.splittable != []
    requires c.ranges[c.pivot2].1.Width() <= cfg.difference
    ensures c.splittable == cfg.custom[c.pivot2..]
    ensures LastWidth(c) <= cfg.difference
    ensures forall j :: 0 <= j < |c.ranges| ==> c.ranges[j].1.Width() == LastWidth(c)
  {
    var p, w := c.pivot2, LastWidth(c);
    if Splitting(c, cfg.custom, cfg.difference) {
      assert c.ranges[p].1.Width() == w;
      assert p == 0;
    }
  }

  /** Dropping an exhausted feature keeps the invariant (lines 293-299). */
  lemma {:induction false} ExhaustKeepsInv(c: Chunk, cfg: Config)
    requires ChunkInv(c, cfg) && cfg.custom != [] && c.splittable != []
    requires c.ranges[c.pivot2].1.Width() <= cfg.difference
    ensures var s := RangeStep(c, cfg);
      s.Next? && |s.children| == 1 && forall k :: 0 <= k < |s.children| ==> ChunkInv(s.children[k], cfg)
  {
    var s := RangeStep(c, cfg);
    ExhaustPhase(c, cfg);
    PivotRange(c, cfg);
    ExhaustShape(c, cfg);
    forall k | 0 <= k < |s.children|
      ensures ChunkInv(s.children[k], cfg)
    {
      ExhaustedChildInv(c, s.children[k], cfg);
    }
  }

  /** The one child of an exhausted pivot: same ranges, next pivot, the features after the pivot. */
  lemma {:induction false} ExhaustShape(c: Chunk, cfg: Config)
    requires c.pivot2 < |cfg.custom| && c.splittable == cfg.custom[c.pivot2..]
    requires RangeIndex(c.ranges, cfg.custom[c.pivot2]) == Some(c.pivot2)
    requires c.ranges[c.pivot2].1.Width() <= cfg.difference
    ensures var s := RangeStep(c, cfg);
      && s.Next? && |s.children| == 1
      && s.children[0].ranges == c.ranges && s.children[0].pivot2 == (c.pivot2 + 1) % |cfg.custom|
      && s.children[0].splittable == cfg.custom[c.pivot2 + 1..]
  {
    var f, rest := cfg.custom[c.pivot2], cfg.custom[c.pivot2 + 1..];
    var r := c.ranges[c.pivot2].1;
    assert c.splittable == [f] + rest;
    RemoveHead(f, rest);
    assert RemoveFirst(c.splittable, f) == Some(rest);
    assert r.upper - r.lower <= cfg.difference;
    var h := c.(pivot2 := (c.pivot2 + 1) % |cfg.custom|, splittable := rest, key := None);
    assert RangeStep(c, cfg).children == [h];
  }

  /** The chunk left after dropping the pivot feature is in the removal phase. */
  lemma {:induction false} ExhaustedChildInv(c: Chunk, h: Chunk, cfg: Config)
    requires ChunkInv(c, cfg) && cfg.custom != []
    requires c.splittable == cfg.custom[c.pivot2..]
    requires LastWidth(c) <= cfg.difference
    requires forall j :: 0 <= j < |c.ranges| ==> c.ranges[j].1.Width() == LastWidth(c)
    requires h.ranges == c.ranges && h.pivot2 == (c.pivot2 + 1) % |cfg.custom|
    requires h.splittable == cfg.custom[c.pivot2 + 1..]
    ensures ChunkInv(h, cfg)
  {
    Rotate(c.pivot2, |cfg.custom|);
    assert Exhausting(h, cfg.custom, cfg.difference);
  }

  /** One-hot splitting leaves ranges, pivot and splittable features as they were (lines 272-288). */
  lemma {:induction false} PackKeepsInv(c: Chunk, cfg: Config, packs: seq<Pack>)
    requires WellFormedPacks(packs, |cfg.groups|) && PackTotal(packs) == cfg.count
    requires ChunkInv(c, cfg)
    ensures var s := PackStep(c, cfg, packs);
      s.Next? && |s.children| == |packs| && forall k :: 0 <= k < |s.children| ==> ChunkInv(s.children[k], cfg)
  {
    var s := PackStep(c, cfg, packs);
    forall k | 0 <= k < |s.children|
      ensures ChunkInv(s.children[k], cfg)
    {
      PackTotalPositive(packs, |cfg.groups|);
      var h := PackChild(c, cfg, packs[k]);
      assert s.children[k] == h;
      assert LastWidth(h) == LastWidth(c);
      assert Splitting(c, cfg.custom, cfg.difference) ==> Splitting(h, cfg.custom, cfg.difference);
    }
  }

  /**
   * On a chunk that satisfies the invariant the step of `worker1` never raises, and every chunk it
   * puts back on the queue satisfies the invariant again.
   */
  lemma {:induction false} StepKeepsInv<V>(c: Chunk, cfg: Config, feasible: bool, patterns: seq<Pattern<V>>, packs: seq<Pack>)
    requires WellFormedPacks(packs, |cfg.groups|) && PackTotal(packs) == cfg.count
    requires ChunkInv(c, cfg)
    ensures var s := Worker1Step(c, cfg, feasible, patterns, packs);
      s.Next? && forall k :: 0 <= k < |s.children| ==> ChunkInv(s.children[k], cfg)
  {
    if !feasible {
      if c.pivot1 < |cfg.groups| {
        PackKeepsInv(c, cfg, packs);
        assert Worker1Step(c, cfg, feasible, patterns, packs) == PackStep(c, cfg, packs);
      } else if cfg.custom != [] && c.splittable != [] {
        var s := RangeStep(c, cfg);
        assert Worker1Step(c, cfg, feasible, patterns, packs) == s;
        if c.ranges[c.pivot2].1.Width() > cfg.difference {
          SplitKeepsInv(c, cfg);
        } else {
          ExhaustKeepsInv(c, cfg);
        }
      }
    }
  }
}
