/**
 * The bookkeeping of `bias_check` once biases have been found in a chunk (lines 355-377): the
 * bounds of the custom encoded features over every newly found bias are joined into one range
 * per feature (`b_ranges`), and the chunk's percentage is scaled by the share of the chunk's
 * volume that this hull covers. Whether an intersection of two outcomes is a bias, and the
 * bounds Apron reports for it, are not modelled: `found[b][u]` stands for the bounds of the u-th
 * custom encoded feature in the b-th distinct bias found.
 */
module BiasCheck {
  import opened Wrappers
  import opened Sequences
  import opened Chunks

  function Min(a: real, b: real): real { if a <= b then a else b }
  function Max(a: real, b: real): real { if a >= b then a else b }

  /** All found biases carry one bound per custom encoded feature. */
  predicate Aligned(found: seq<seq<Range>>, n: nat)
  {
    forall b :: 0 <= b < |found| ==> |found[b]| == n
  }

  /** The smallest lower bound of feature u over the found biases. */
  function Lowest(found: seq<seq<Range>>, u: nat): (r: real)
    requires |found| > 0 && forall b :: 0 <= b < |found| ==> u < |found[b]|
    ensures forall b :: 0 <= b < |found| ==> r <= found[b][u].lower
    ensures exists b :: 0 <= b < |found| && r == found[b][u].lower
  {
    if |found| == 1 then found[0][u].lower
    else Min(found[|found| - 1][u].lower, Lowest(found[..|found| - 1], u))
  }

  /** The largest upper bound of feature u over the found biases. */
  function Highest(found: seq<seq<Range>>, u: nat): (r: real)
    requires |found| > 0 && forall b :: 0 <= b < |found| ==> u < |found[b]|
    ensures forall b :: 0 <= b < |found| ==> r >= found[b][u].upper
    ensures exists b :: 0 <= b < |found| && r == found[b][u].upper
  {
    if |found| == 1 then found[0][u].upper
    else Max(found[|found| - 1][u].upper, Highest(found[..|found| - 1], u))
  }

  /** The entry of `b_ranges` for feature u once the first b biases have been joined. */
  function Joined(custom: seq<string>, found: seq<seq<Range>>, b: nat, u: nat): (string, Range)
    requires 0 < b <= |found| && Aligned(found, |custom|) && u < |custom|
  {
    (custom[u], Range(Lowest(found[..b], u), Highest(found[..b], u)))
  }

  /**
   * The loops that build `b_ranges` (lines 355-362). Without a bias there is no entry; otherwise
   * feature u is bounded by the smallest lower and the largest upper bound any found bias gives it.
   */
  method Hull(custom: seq<string>, found: seq<seq<Range>>) returns (hull: seq<(string, Range)>)
    requires Distinct(custom) && Aligned(found, |custom|)
    ensures found == [] ==> hull == []
    ensures found != [] ==> Hulls(hull, custom, found)
  {
    hull := [];
    for b := 0 to |found|
      invariant b == 0 ==> hull == []
      invariant b > 0 ==> |hull| == |custom| && forall u :: 0 <= u < |custom| ==> hull[u] == Joined(custom, found, b, u)
    {
      for u := 0 to |custom|
        invariant b == 0 ==> |hull| == u && forall v :: 0 <= v < u ==> hull[v] == Joined(custom, found, 1, v)
        invariant b > 0 ==> |hull| == |custom|
        invariant b > 0 ==> forall v :: 0 <= v < |custom| ==>
          hull[v] == if v < u then Joined(custom, found, b + 1, v) else Joined(custom, found, b, v)
      {
        var itv := found[b][u];
        assert found[..b + 1][..b] == found[..b];
        assert b > 0 ==> hull[u].0 == custom[u];
        match RangeIndex(hull, custom[u])
        case Some(j) =>
          assert j == u;
          var (inf, sup) := (hull[j].1.lower, hull[j].1.upper);
          hull := hull[j := (custom[u], Range(Min(itv.lower, inf), Max(itv.upper, sup)))];
        case None =>
          assert b == 0;
          hull := hull + [(custom[u], itv)];
      }
    }
    if found != [] {
      JoinedHulls(custom, found, hull);
    }
  }

  /** Joining every found bias gives the tightest range per feature. */
  lemma JoinedHulls(custom: seq<string>, found: seq<seq<Range>>, hull: seq<(string, Range)>)
    requires Aligned(found, |custom|) && found != []
    requires |hull| == |custom| && forall u :: 0 <= u < |custom| ==> hull[u] == Joined(custom, found, |found|, u)
    ensures Hulls(hull, custom, found)
  {
    assert found[..|found|] == found;
  }

  /** The product of the widths of a list of ranges. */
  function Volume(ranges: seq<(string, Range)>): real
  {
    if ranges == [] then 1.0 else Volume(ranges[..|ranges| - 1]) * ranges[|ranges| - 1].1.Width()
  }

  /** `total_size *= upper - lower` over the items (lines 371-373 and 374-376). */
  method Size(ranges: seq<(string, Range)>) returns (size: real)
    ensures size == Volume(ranges)
  {
    size := 1.0;
    for k := 0 to |ranges|
      invariant size == Volume(ranges[..k])
    {
      assert ranges[..k + 1][..k] == ranges[..k];
      size := size * ranges[k].1.Width();
    }
    assert ranges[..|ranges|] == ranges;
  }

  /** `percent * biased_size / total_size` (line 377). */
  function Share(percent: real, part: real, whole: real): real
    requires whole != 0.0
  {
    percent * part / whole
  }

  /**
   * The percentage credited to `biased` for a chunk (lines 367-377): nothing without a bias;
   * otherwise the chunk's percentage scaled by the hull's volume over the chunk's volume, or None
   * when the chunk has no volume (the division raises ZeroDivisionError).
   */
  method BiasedPercent(ranges: seq<(string, Range)>, hull: seq<(string, Range)>, nobias: bool, percent: real)
    returns (credit: Option<real>)
    ensures nobias ==> credit == Some(0.0)
    ensures !nobias && Volume(ranges) == 0.0 ==> credit == None
    ensures !nobias && Volume(ranges) != 0.0 ==> credit == Some(Share(percent, Volume(hull), Volume(ranges)))
  {
    if nobias {
      credit := Some(0.0);
    } else {
      var total := Size(ranges);
      var biased := Size(hull);
      if total == 0.0 {
        credit := None;
      } else {
        credit := Some(Share(percent, biased, total));
      }
    }
  }

  /** Non-empty ranges have a positive volume. */
  lemma {:induction false} VolumePositive(ranges: seq<(string, Range)>)
    requires forall j :: 0 <= j < |ranges| ==> ranges[j].1.lower < ranges[j].1.upper
    ensures Volume(ranges) > 0.0
  {
    if ranges != [] {
      VolumePositive(ranges[..|ranges| - 1]);
      var v, w := Volume(ranges[..|ranges| - 1]), ranges[|ranges| - 1].1.Width();
      assert v * w > 0.0 by {
        assert v > 0.0 && w > 0.0;
      }
    }
  }

  /** Ranges each inside the corresponding range of another list have at most its volume. */
  lemma {:induction false} VolumeMonotone(inner: seq<(string, Range)>, outer: seq<(string, Range)>)
    requires |inner| == |outer|
    requires forall j :: 0 <= j < |inner| ==> inner[j].1.lower <= inner[j].1.upper
    requires forall j :: 0 <= j < |inner| ==>
      outer[j].1.lower <= inner[j].1.lower && inner[j].1.upper <= outer[j].1.upper
    ensures 0.0 <= Volume(inner) <= Volume(outer)
  {
    if inner != [] {
      var n := |inner| - 1;
      VolumeMonotone(inner[..n], outer[..n]);
      var a, b := Volume(inner[..n]), Volume(outer[..n]);
      var x, y := inner[n].1.Width(), outer[n].1.Width();
      assert 0.0 <= x <= y;
      assert a * x <= b * y by {
        assert a * x <= b * x;
        assert b * x <= b * y;
      }
      assert 0.0 <= a * x;
    }
  }

  /** Feature u of the hull is the tightest range around every found bias (what `Hull` ensures). */
  predicate Hulls(hull: seq<(string, Range)>, custom: seq<string>, found: seq<seq<Range>>)
    requires Aligned(found, |custom|)
  {
    && |hull| == |custom|
    && forall u :: 0 <= u < |custom| ==> HullAt(hull[u], custom[u], found, u)
  }

  /** Entry u of a hull: feature f with the tightest range holding feature u of every found bias. */
  predicate HullAt(e: (string, Range), f: string, found: seq<seq<Range>>, u: nat)
    requires forall b :: 0 <= b < |found| ==> u < |found[b]|
  {
    && e.0 == f
    && (forall b :: 0 <= b < |found| ==> e.1.lower <= found[b][u].lower && found[b][u].upper <= e.1.upper)
    && (exists b :: 0 <= b < |found| && e.1.lower == found[b][u].lower)
    && (exists b :: 0 <= b < |found| && e.1.upper == found[b][u].upper)
  }

  /** Every found bias is a range inside the chunk's range, as the intersection at lines 345-350 makes it. */
  predicate Inside(ranges: seq<(string, Range)>, found: seq<seq<Range>>)
    requires Aligned(found, |ranges|)
  {
    forall b, u :: 0 <= b < |found| && 0 <= u < |ranges| ==>
      ranges[u].1.lower <= found[b][u].lower <= found[b][u].upper <= ranges[u].1.upper
  }

  /**
   * When every found bias lies within the chunk's non-empty ranges, the chunk has a volume and the
   * credited percentage is between zero and the chunk's own percentage.
   */
  lemma CreditBounded(ranges: seq<(string, Range)>, custom: seq<string>, found: seq<seq<Range>>,
                      hull: seq<(string, Range)>, percent: real)
    requires |ranges| == |custom| && Aligned(found, |custom|) && found != []
    requires forall j :: 0 <= j < |ranges| ==> ranges[j].1.lower < ranges[j].1.upper
    requires Inside(ranges, found) && Hulls(hull, custom, found)
    requires percent >= 0.0
    ensures Volume(ranges) > 0.0
    ensures 0.0 <= Share(percent, Volume(hull), Volume(ranges)) <= percent
  {
    VolumePositive(ranges);
    HullInside(ranges, custom, found, hull);
    VolumeMonotone(hull, ranges);
    ShareBounded(percent, Volume(hull), Volume(ranges));
  }

  /**
   * The whole bookkeeping of `bias_check` for a chunk once its biases are found: without a bias
   * nothing is credited; otherwise the credit is the share of the chunk's percentage that the
   * (unique) hull of the biases takes of the chunk's volume, a failure when that volume is 0, and
   * for a chunk with non-empty ranges around the biases a value between 0 and that percentage.
   */
  method Credit(custom: seq<string>, ranges: seq<(string, Range)>, found: seq<seq<Range>>, percent: real)
    returns (credit: Option<real>)
    requires Distinct(custom) && Aligned(found, |custom|) && |ranges| == |custom|
    ensures found == [] ==> credit == Some(0.0)
    ensures found != [] && Volume(ranges) == 0.0 ==> credit == None
    ensures found != [] && Volume(ranges) != 0.0 ==>
      exists hull :: Hulls(hull, custom, found) && credit == Some(Share(percent, Volume(hull), Volume(ranges)))
    ensures (&& found != []
             && (forall j :: 0 <= j < |ranges| ==> ranges[j].1.lower < ranges[j].1.upper)
             && Inside(ranges, found) && percent >= 0.0) ==>
      credit.Some? && 0.0 <= credit.value <= percent
  {
    var nobias := found == [];
    var hull := Hull(custom, found);
    credit := BiasedPercent(ranges, hull, nobias, percent);
    if !nobias && (forall j :: 0 <= j < |ranges| ==> ranges[j].1.lower < ranges[j].1.upper)
      && Inside(ranges, found) && percent >= 0.0 {
      CreditBounded(ranges, custom, found, hull, percent);
    }
  }

  /** The found biases determine their hull: there is only one tightest range per feature. */
  lemma HullsUnique(h1: seq<(string, Range)>, h2: seq<(string, Range)>, custom: seq<string>, found: seq<seq<Range>>)
    requires Aligned(found, |custom|)
    requires Hulls(h1, custom, found) && Hulls(h2, custom, found)
    ensures h1 == h2
  {
    forall u | 0 <= u < |custom|
      ensures h1[u] == h2[u]
    {
      HullAtUnique(h1[u], h2[u], custom[u], found, u);
    }
  }

  lemma HullAtUnique(e1: (string, Range), e2: (string, Range), f: string, found: seq<seq<Range>>, u: nat)
    requires forall b :: 0 <= b < |found| ==> u < |found[b]|
    requires HullAt(e1, f, found, u) && HullAt(e2, f, found, u)
    ensures e1 == e2
  {
    var b1 :| 0 <= b1 < |found| && e1.1.lower == found[b1][u].lower;
    var b2 :| 0 <= b2 < |found| && e2.1.lower == found[b2][u].lower;
    var c1 :| 0 <= c1 < |found| && e1.1.upper == found[c1][u].upper;
    var c2 :| 0 <= c2 < |found| && e2.1.upper == found[c2][u].upper;
    assert e1.1.lower <= found[b2][u].lower && e2.1.lower <= found[b1][u].lower;
    assert e1.1.upper >= found[c2][u].upper && e2.1.upper >= found[c1][u].upper;
  }

  /** The hull of biases inside the chunk's ranges is itself a list of ranges inside them. */
  lemma HullInside(ranges: seq<(string, Range)>, custom: seq<string>, found: seq<seq<Range>>,
                   hull: seq<(string, Range)>)
    requires |ranges| == |custom| && Aligned(found, |custom|) && found != []
    requires Inside(ranges, found) && Hulls(hull, custom, found)
    ensures forall u :: 0 <= u < |hull| ==>
      ranges[u].1.lower <= hull[u].1.lower <= hull[u].1.upper <= ranges[u].1.upper
  {
    forall u | 0 <= u < |hull|
      ensures ranges[u].1.lower <= hull[u].1.lower <= hull[u].1.upper <= ranges[u].1.upper
    {
      var f := found[0][u];
      assert 0 <= u < |ranges|;
      assert ranges[u].1.lower <= f.lower <= f.upper <= ranges[u].1.upper;
      assert hull[u].1.lower <= f.lower && f.upper <= hull[u].1.upper;
    }
  }

  /** A share of a part no bigger than the whole is at most the full percentage. */
  lemma ShareBounded(percent: real, part: real, whole: real)
    requires percent >= 0.0 && 0.0 <= part <= whole && whole > 0.0
    ensures 0.0 <= Share(percent, part, whole) <= percent
  {
    var q := part / whole;
    assert 0.0 <= q <= 1.0;
    var r := Share(percent, part, whole);
    assert r * whole == percent * part;
    assert q * whole == part;
    assert (percent * q) * whole == percent * (q * whole);
    assert r == percent * q by {
      assert (r - percent * q) * whole == 0.0;
    }
    assert percent * q <= percent * 1.0;
  }
}
