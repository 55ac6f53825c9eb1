/**
 * The values the pre-analysis passes around: activation patterns, ranges of the custom encoded
 * features, and chunks, the partitions of the input space that `worker1` takes from its queue.
 */
module Chunks {
  import opened Wrappers
  import opened Expressions
  import opened OneHot

  /** An activation node of the network's control flow graph. */
  type NodeId = int

  /** The (always active, always inactive) activation nodes found for one sensitive value. */
  type Activity = (set<NodeId>, set<NodeId>)

  /** An abstract activation pattern: one Activity per value of the sensitive feature. */
  type Key = seq<Activity>

  /** The closed range a custom encoded feature is bounded to within a chunk. */
  datatype Range = Range(lower: real, upper: real)
  {
    function Width(): real { upper - lower }
  }

  /** One value per one-hot encoded feature. */
  type OneHotN = seq<OneHot1>

  /** A disjunctive assumption: the variables that may be one, and the condition. */
  type Assumption = (set<string>, Formula)

  /**
   * The tuple `(assumptions, pivot1, unpacked, ranges, pivot2, splittable, percent, key)` that
   * `worker1` takes from its queue. `ranges` lists the items of a dict in insertion order.
   */
  datatype Chunk = Chunk(
    assumptions: seq<Assumption>,
    pivot1: nat,
    unpacked: set<set<OneHot1>>,
    ranges: seq<(string, Range)>,
    pivot2: nat,
    splittable: seq<string>,
    percent: real,
    key: Option<Key>)

  /** The position of the last item for feature f, which is where `dict(ranges)[f]` looks. */
  function RangeIndex(ranges: seq<(string, Range)>, f: string): (r: Option<nat>)
    ensures r.Some? ==> r.value < |ranges| && ranges[r.value].0 == f
    ensures r.Some? ==> forall j :: r.value < j < |ranges| ==> ranges[j].0 != f
    ensures r.None? ==> forall j :: 0 <= j < |ranges| ==> ranges[j].0 != f
  {
    if ranges == [] then None
    else if ranges[|ranges| - 1].0 == f then Some(|ranges| - 1)
    else RangeIndex(ranges[..|ranges| - 1], f)
  }
}
