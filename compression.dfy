/**
 * Pattern compression at the end of the pre-analysis (`analyze`, lines 618-638). The patterns
 * found by `worker1`, visited in ascending order of pack size, are folded into a dict
 * `compressed`: a pattern whose key is at least as constrained as an existing key is merged into
 * that key's pack; an existing key at least as constrained as the new one is replaced by the new,
 * more general key. The dict is modelled by the list of its items in insertion order.
 */
module Compression {
  import opened Chunks
  import opened Refinement

  /** A dict item: an abstract activation pattern and the chunks recorded under it. */
  type Item = (Key, set<Entry>)

  /**
   * `k2` is at most as constrained as `k1`: over `zip(k1, k2)`, its always-active and
   * always-inactive sets are subsets of those of `k1`.
   */
  predicate Below(k2: Key, k1: Key)
  {
    forall i :: 0 <= i < |k1| && i < |k2| ==> k2[i].0 <= k1[i].0 && k2[i].1 <= k1[i].1
  }

  /** One of the two keys is at most as constrained as the other. */
  predicate Comparable(k2: Key, k1: Key)
  {
    Below(k2, k1) || Below(k1, k2)
  }

  /** Item k is the first whose key is comparable with key1. */
  predicate FirstComparable(compressed: seq<Item>, key1: Key, k: nat)
  {
    && k < |compressed| && Comparable(compressed[k].0, key1)
    && forall j :: 0 <= j < k ==> !Comparable(compressed[j].0, key1)
  }

  /** No item's key is comparable with key1. */
  predicate NoneComparable(compressed: seq<Item>, key1: Key)
  {
    forall j :: 0 <= j < |compressed| ==> !Comparable(compressed[j].0, key1)
  }

  lemma FirstComparableUnique(compressed: seq<Item>, key1: Key, k: nat, k': nat)
    requires FirstComparable(compressed, key1, k') && (k < |compressed| ==> FirstComparable(compressed, key1, k))
    requires k == |compressed| ==> NoneComparable(compressed, key1)
    requires k <= |compressed|
    ensures k == k'
  {
  }

  lemma BelowTransitive(k1: Key, k2: Key, k3: Key)
    requires |k1| == |k2| == |k3|
    requires Below(k1, k2) && Below(k2, k3)
    ensures Below(k1, k3)
  {
  }

  /** The keys of a list of items. */
  function KeySet(s: seq<Item>): set<Key>
  {
    if s == [] then {} else KeySet(s[..|s| - 1]) + {s[|s| - 1].0}
  }

  lemma {:induction false} KeySetMember(s: seq<Item>, key: Key)
    ensures key in KeySet(s) <==> exists k :: 0 <= k < |s| && s[k].0 == key
  {
    if s != [] {
      var front := s[..|s| - 1];
      KeySetMember(front, key);
      assert forall k :: 0 <= k < |front| ==> front[k] == s[k];
    }
  }

  /** No key occurs twice, as in a dict. */
  predicate DistinctKeys(s: seq<Item>)
  {
    forall i, j :: 0 <= i < j < |s| ==> s[i].0 != s[j].0
  }

  /** Everything in the packs of a list of items. */
  function Union(s: seq<Item>): set<Entry>
  {
    if s == [] then {} else Union(s[..|s| - 1]) + s[|s| - 1].1
  }

  lemma {:induction false} UnionMember(s: seq<Item>, e: Entry)
    ensures e in Union(s) <==> exists k :: 0 <= k < |s| && e in s[k].1
  {
    if s != [] {
      var front := s[..|s| - 1];
      UnionMember(front, e);
      assert forall k :: 0 <= k < |front| ==> front[k] == s[k];
    }
  }

  lemma {:induction false} UnionConcat(a: seq<Item>, b: seq<Item>)
    ensures Union(a + b) == Union(a) + Union(b)
  {
    if b != [] {
      var front := b[..|b| - 1];
      UnionConcat(a, front);
      assert (a + b)[..|a + b| - 1] == a + front;
    } else {
      assert a + b == a;
    }
  }

  /** `mergeable1, mergeable2` computed by the loop over `zip(key1, key2)` (lines 623-628). */
  method Mergeable(key1: Key, key2: Key) returns (m1: bool, m2: bool)
    ensures m1 <==> Below(key2, key1)
    ensures m2 <==> Below(key1, key2)
  {
    m1, m2 := true, true;
    var i := 0;
    while i < |key1| && i < |key2|
      invariant 0 <= i <= |key1| && i <= |key2|
      invariant m1 <==> forall j :: 0 <= j < i ==> key2[j].0 <= key1[j].0 && key2[j].1 <= key1[j].1
      invariant m2 <==> forall j :: 0 <= j < i ==> key1[j].0 <= key2[j].0 && key1[j].1 <= key2[j].1
    {
      var (s11, s12) := key1[i];
      var (s21, s22) := key2[i];
      if !(s21 <= s11) || !(s22 <= s12) {
        m1 := false;
      }
      if !(s11 <= s21) || !(s12 <= s22) {
        m2 := false;
      }
      i := i + 1;
    }
  }

  /**
   * The inner loop over the keys of `compressed`: the first item whose key is comparable with
   * `key1`, or `|compressed|` when there is none (the pattern stays unmerged).
   */
  method FindMergeable(compressed: seq<Item>, key1: Key) returns (k: nat, m1: bool, m2: bool)
    ensures k <= |compressed|
    ensures forall j :: 0 <= j < k ==> !Below(compressed[j].0, key1) && !Below(key1, compressed[j].0)
    ensures k < |compressed| ==> FirstComparable(compressed, key1, k)
    ensures k == |compressed| ==> NoneComparable(compressed, key1)
    ensures k < |compressed| ==> (m1 || m2)
    ensures k < |compressed| ==> (m1 <==> Below(compressed[k].0, key1)) && (m2 <==> Below(key1, compressed[k].0))
    ensures k == |compressed| ==> !m1 && !m2
  {
    k, m1, m2 := 0, false, false;
    while k < |compressed|
      invariant k <= |compressed|
      invariant forall j :: 0 <= j < k ==> !Below(compressed[j].0, key1) && !Below(key1, compressed[j].0)
    {
      m1, m2 := Mergeable(key1, compressed[k].0);
      if m1 || m2 {
        return;
      }
      k := k + 1;
    }
    m1, m2 := false, false;
  }

  /** `compressed[key1] = compressed[key2].union(pack1); del compressed[key2]` for a new key1. */
  function Replace(s: seq<Item>, k: nat, item: Item): (r: seq<Item>)
    requires k < |s|
    ensures |r| == |s|
    ensures forall j :: 0 <= j < k ==> r[j] == s[j]
    ensures forall j :: k <= j < |s| - 1 ==> r[j] == s[j + 1]
    ensures r[|s| - 1] == item
  {
    s[..k] + s[k + 1..] + [item]
  }

  /** The items before k, item k and the items after it. */
  lemma UnionSplit(s: seq<Item>, k: nat)
    requires k < |s|
    ensures Union(s) == Union(s[..k]) + s[k].1 + Union(s[k + 1..])
  {
    var front, back := s[..k], s[k..];
    assert Union(s) == Union(front) + Union(back) by {
      assert s == front + back;
      UnionConcat(front, back);
    }
    assert Union(back) == s[k].1 + Union(s[k + 1..]) by {
      assert back == [s[k]] + s[k + 1..];
      UnionConcat([s[k]], s[k + 1..]);
      assert [s[k]][..0] == [];
    }
  }

  lemma UnionReplace(s: seq<Item>, k: nat, key: Key, pack: set<Entry>)
    requires k < |s|
    ensures Union(Replace(s, k, (key, s[k].1 + pack))) == Union(s) + pack
  {
    UnionSplit(s, k);
    UnionConcat(s[..k], s[k + 1..]);
    UnionAppend(s[..k] + s[k + 1..], (key, s[k].1 + pack));
  }

  lemma UnionUpdate(s: seq<Item>, k: nat, pack: set<Entry>)
    requires k < |s|
    ensures Union(s[k := (s[k].0, s[k].1 + pack)]) == Union(s) + pack
  {
    var r := s[k := (s[k].0, s[k].1 + pack)];
    UnionSplit(s, k);
    UnionSplit(r, k);
    assert r[..k] == s[..k] && r[k + 1..] == s[k + 1..];
  }

  lemma UnionAppend(s: seq<Item>, item: Item)
    ensures Union(s + [item]) == Union(s) + item.1
  {
    assert (s + [item])[..|s|] == s;
  }

  lemma UnionPrefix(s: seq<Item>, i: nat)
    requires i < |s|
    ensures Union(s[..i + 1]) == Union(s[..i]) + s[i].1
  {
    assert s[..i + 1][..i] == s[..i];
  }

  /**
   * The compression loop. `patterns` are the items of `self.patterns` in the order the loop
   * visits them (which `analyze` makes ascending pack size); all keys have one entry per
   * sensitive value. Nothing is lost or invented: the packs of the result together hold exactly
   * the chunks of the input, there are at most as many keys as patterns, every key is one of the
   * input keys, and every input pattern's chunks end up under a key at most as constrained as
   * its own.
   */
  method Compress(patterns: seq<Item>, n: nat) returns (compressed: seq<Item>)
    requires DistinctKeys(patterns)
    requires forall i :: 0 <= i < |patterns| ==> |patterns[i].0| == n
    ensures Union(compressed) == Union(patterns)
    ensures |compressed| <= |patterns|
    ensures DistinctKeys(compressed)
    ensures forall k :: 0 <= k < |compressed| ==> compressed[k].0 in KeySet(patterns)
    ensures forall i :: 0 <= i < |patterns| ==>
      exists k :: 0 <= k < |compressed| && Below(compressed[k].0, patterns[i].0) && patterns[i].1 <= compressed[k].1
  {
    compressed := [];
    ghost var home: seq<nat> := [];
    assert patterns[..0] == [];
    for i := 0 to |patterns|
      invariant Visited(compressed, home, patterns, i, n)
    {
      compressed, home := Visit(compressed, home, patterns, i, n);
    }
    assert patterns[..|patterns|] == patterns;
    forall j | 0 <= j < |patterns|
      ensures exists k :: 0 <= k < |compressed| && Below(compressed[k].0, patterns[j].0) && patterns[j].1 <= compressed[k].1
    {
      assert Home(compressed, home[j], patterns[j]);
    }
  }

  /**
   * One iteration of the outer loop: pattern i is merged into the first item whose key is
   * comparable with its own, or added as a new item.
   */
  method Visit(compressed: seq<Item>, ghost home: seq<nat>, patterns: seq<Item>, i: nat, n: nat)
    returns (next: seq<Item>, ghost nextHome: seq<nat>)
    requires DistinctKeys(patterns)
    requires forall j :: 0 <= j < |patterns| ==> |patterns[j].0| == n
    requires i < |patterns| && Visited(compressed, home, patterns, i, n)
    ensures Visited(next, nextHome, patterns, i + 1, n)
    ensures NoneComparable(compressed, patterns[i].0) ==> next == compressed + [patterns[i]]
    ensures forall k: nat :: FirstComparable(compressed, patterns[i].0, k) ==>
      next == if Below(compressed[k].0, patterns[i].0)
              then compressed[k := (compressed[k].0, compressed[k].1 + patterns[i].1)]
              else Replace(compressed, k, (patterns[i].0, compressed[k].1 + patterns[i].1))
  {
    var key1, pack1 := patterns[i].0, patterns[i].1;
    var k, m1, m2 := FindMergeable(compressed, key1);
    forall k': nat | FirstComparable(compressed, key1, k')
      ensures k' == k
    {
      FirstComparableUnique(compressed, key1, k, k');
    }
    if m1 {
      MergeStep(compressed, home, patterns, i, n, k);
      next := compressed[k := (compressed[k].0, compressed[k].1 + pack1)];
      nextHome := home + [k];
    } else if m2 {
      ReplaceStep(compressed, home, patterns, i, n, k);
      next := Replace(compressed, k, (key1, compressed[k].1 + pack1));
      nextHome := Rehome(home, k, |compressed| - 1) + [|compressed| - 1];
    } else {
      AppendStep(compressed, home, patterns, i, n);
      next := compressed + [patterns[i]];
      nextHome := home + [|compressed|];
    }
  }

  /** What holds after the first i patterns have been visited. */
  ghost predicate Visited(compressed: seq<Item>, home: seq<nat>, patterns: seq<Item>, i: nat, n: nat)
  {
    Contents(compressed, patterns, i) && KeysOk(compressed, patterns, i, n) && Homes(compressed, home, patterns, i)
  }

  lemma MergeStep(c: seq<Item>, home: seq<nat>, patterns: seq<Item>, i: nat, n: nat, k: nat)
    requires DistinctKeys(patterns) && i < |patterns| && Visited(c, home, patterns, i, n)
    requires k < |c| && Below(c[k].0, patterns[i].0)
    ensures Visited(c[k := (c[k].0, c[k].1 + patterns[i].1)], home + [k], patterns, i + 1, n)
  {
    Fresh(patterns, i);
    MergeContents(c, patterns, i, k);
    MergeKeys(c, patterns, i, n, k);
    MergeHomes(c, home, patterns, i, k);
  }

  lemma ReplaceStep(c: seq<Item>, home: seq<nat>, patterns: seq<Item>, i: nat, n: nat, k: nat)
    requires DistinctKeys(patterns) && forall j :: 0 <= j < |patterns| ==> |patterns[j].0| == n
    requires i < |patterns| && Visited(c, home, patterns, i, n)
    requires k < |c| && Below(patterns[i].0, c[k].0)
    ensures Visited(Replace(c, k, (patterns[i].0, c[k].1 + patterns[i].1)),
                    Rehome(home, k, |c| - 1) + [|c| - 1], patterns, i + 1, n)
  {
    Fresh(patterns, i);
    ReplaceContents(c, patterns, i, k);
    ReplaceKeys(c, patterns, i, n, k);
    ReplaceHomes(c, home, patterns, i, n, k);
  }

  lemma AppendStep(c: seq<Item>, home: seq<nat>, patterns: seq<Item>, i: nat, n: nat)
    requires DistinctKeys(patterns) && forall j :: 0 <= j < |patterns| ==> |patterns[j].0| == n
    requires i < |patterns| && Visited(c, home, patterns, i, n)
    ensures Visited(c + [patterns[i]], home + [|c|], patterns, i + 1, n)
  {
    Fresh(patterns, i);
    AppendContents(c, patterns, i);
    AppendKeys(c, patterns, i, n);
    AppendHomes(c, home, patterns, i);
  }

  /** After the first i patterns, the items hold exactly their chunks, under at most i keys. */
  predicate Contents(compressed: seq<Item>, patterns: seq<Item>, i: nat)
  {
    i <= |patterns| && Union(compressed) == Union(patterns[..i]) && |compressed| <= i
  }

  /** The keys of the items are distinct keys of the first i patterns, each of length n. */
  predicate KeysOk(compressed: seq<Item>, patterns: seq<Item>, i: nat, n: nat)
  {
    && i <= |patterns|
    && DistinctKeys(compressed)
    && (forall k :: 0 <= k < |compressed| ==> compressed[k].0 in KeySet(patterns[..i]))
    && (forall k :: 0 <= k < |compressed| ==> |compressed[k].0| == n)
  }

  /** `home[j]` is an item that holds the chunks of pattern j, for each of the first i patterns. */
  ghost predicate Homes(compressed: seq<Item>, home: seq<nat>, patterns: seq<Item>, i: nat)
  {
    i <= |patterns| && |home| == i && forall j {:trigger home[j]} :: 0 <= j < i ==> Home(compressed, home[j], patterns[j])
  }

  /** Where the earlier patterns' chunks sit once item k has moved to the end as `last`. */
  ghost function Rehome(home: seq<nat>, k: nat, last: nat): (r: seq<nat>)
    ensures |r| == |home|
    ensures forall j :: 0 <= j < |home| ==>
      r[j] == if home[j] < k then home[j] else if home[j] == k then last else home[j] - 1
  {
    seq(|home|, j requires 0 <= j < |home| =>
      if home[j] < k then home[j] else if home[j] == k then last else home[j] - 1)
  }

  lemma MergeContents(c: seq<Item>, patterns: seq<Item>, i: nat, k: nat)
    requires i < |patterns| && Contents(c, patterns, i) && k < |c|
    ensures Contents(c[k := (c[k].0, c[k].1 + patterns[i].1)], patterns, i + 1)
  {
    UnionPrefix(patterns, i);
    UnionUpdate(c, k, patterns[i].1);
  }

  lemma ReplaceContents(c: seq<Item>, patterns: seq<Item>, i: nat, k: nat)
    requires i < |patterns| && Contents(c, patterns, i) && k < |c|
    ensures Contents(Replace(c, k, (patterns[i].0, c[k].1 + patterns[i].1)), patterns, i + 1)
  {
    UnionPrefix(patterns, i);
    UnionReplace(c, k, patterns[i].0, patterns[i].1);
  }

  lemma AppendContents(c: seq<Item>, patterns: seq<Item>, i: nat)
    requires i < |patterns| && Contents(c, patterns, i)
    ensures Contents(c + [patterns[i]], patterns, i + 1)
  {
    UnionPrefix(patterns, i);
    UnionAppend(c, patterns[i]);
  }

  lemma MergeKeys(c: seq<Item>, patterns: seq<Item>, i: nat, n: nat, k: nat)
    requires i < |patterns| && KeysOk(c, patterns, i, n) && k < |c|
    requires KeySet(patterns[..i + 1]) == KeySet(patterns[..i]) + {patterns[i].0}
    ensures KeysOk(c[k := (c[k].0, c[k].1 + patterns[i].1)], patterns, i + 1, n)
  {
    var r := c[k := (c[k].0, c[k].1 + patterns[i].1)];
    assert forall j :: 0 <= j < |r| ==> r[j].0 == c[j].0;
  }

  lemma MergeHomes(c: seq<Item>, home: seq<nat>, patterns: seq<Item>, i: nat, k: nat)
    requires i < |patterns| && Homes(c, home, patterns, i)
    requires k < |c| && Below(c[k].0, patterns[i].0)
    ensures Homes(c[k := (c[k].0, c[k].1 + patterns[i].1)], home + [k], patterns, i + 1)
  {
    var r := c[k := (c[k].0, c[k].1 + patterns[i].1)];
    forall j | 0 <= j < i
      ensures Home(r, home[j], patterns[j])
    {
      assert Home(c, home[j], patterns[j]);
    }
  }

  lemma ReplaceKeys(c: seq<Item>, patterns: seq<Item>, i: nat, n: nat, k: nat)
    requires i < |patterns| && KeysOk(c, patterns, i, n) && k < |c| && |patterns[i].0| == n
    requires patterns[i].0 !in KeySet(patterns[..i])
    requires KeySet(patterns[..i + 1]) == KeySet(patterns[..i]) + {patterns[i].0}
    ensures KeysOk(Replace(c, k, (patterns[i].0, c[k].1 + patterns[i].1)), patterns, i + 1, n)
  {
    var r := Replace(c, k, (patterns[i].0, c[k].1 + patterns[i].1));
    forall m | 0 <= m < |r|
      ensures r[m].0 in KeySet(patterns[..i + 1]) && |r[m].0| == n
      ensures m < |c| - 1 ==> r[m].0 in KeySet(patterns[..i])
    {
      if m < k {
        assert r[m] == c[m];
      } else if m < |c| - 1 {
        assert r[m] == c[m + 1];
      }
    }
    forall a, b | 0 <= a < b < |r|
      ensures r[a].0 != r[b].0
    {
      if b < |c| - 1 {
        if a < k && b < k {
          assert r[a] == c[a] && r[b] == c[b];
        } else if a < k {
          assert r[a] == c[a] && r[b] == c[b + 1];
        } else {
          assert r[a] == c[a + 1] && r[b] == c[b + 1];
        }
      }
    }
  }

  lemma ReplaceHomes(c: seq<Item>, home: seq<nat>, patterns: seq<Item>, i: nat, n: nat, k: nat)
    requires forall j :: 0 <= j < |patterns| ==> |patterns[j].0| == n
    requires i < |patterns| && Homes(c, home, patterns, i)
    requires k < |c| && Below(patterns[i].0, c[k].0) && |c[k].0| == n
    ensures Homes(Replace(c, k, (patterns[i].0, c[k].1 + patterns[i].1)),
                  Rehome(home, k, |c| - 1) + [|c| - 1], patterns, i + 1)
  {
    var key1, key2 := patterns[i].0, c[k].0;
    var r := Replace(c, k, (key1, c[k].1 + patterns[i].1));
    var h := Rehome(home, k, |c| - 1) + [|c| - 1];
    forall j | 0 <= j < i + 1
      ensures Home(r, h[j], patterns[j])
    {
      if j < i {
        assert Home(c, home[j], patterns[j]);
        if home[j] == k {
          BelowTransitive(key1, key2, patterns[j].0);
        } else if home[j] < k {
          assert r[home[j]] == c[home[j]];
        } else {
          assert r[home[j] - 1] == c[home[j]];
        }
      }
    }
  }

  lemma AppendKeys(c: seq<Item>, patterns: seq<Item>, i: nat, n: nat)
    requires i < |patterns| && KeysOk(c, patterns, i, n) && |patterns[i].0| == n
    requires patterns[i].0 !in KeySet(patterns[..i])
    requires KeySet(patterns[..i + 1]) == KeySet(patterns[..i]) + {patterns[i].0}
    ensures KeysOk(c + [patterns[i]], patterns, i + 1, n)
  {
    var r := c + [patterns[i]];
    assert forall m :: 0 <= m < |c| ==> r[m] == c[m];
  }

  lemma AppendHomes(c: seq<Item>, home: seq<nat>, patterns: seq<Item>, i: nat)
    requires i < |patterns| && Homes(c, home, patterns, i)
    ensures Homes(c + [patterns[i]], home + [|c|], patterns, i + 1)
  {
    var r := c + [patterns[i]];
    forall j | 0 <= j < i
      ensures Home(r, home[j], patterns[j])
    {
      assert Home(c, home[j], patterns[j]);
      assert r[home[j]] == c[home[j]];
    }
  }

  /** The item at index k holds the chunks of a pattern under a key at most as constrained. */
  predicate Home(compressed: seq<Item>, k: nat, pattern: Item)
  {
    k < |compressed| && Below(compressed[k].0, pattern.0) && pattern.1 <= compressed[k].1
  }

  /** The key of the i-th pattern is none of the keys before it. */
  lemma Fresh(patterns: seq<Item>, i: nat)
    requires DistinctKeys(patterns) && i < |patterns|
    ensures patterns[i].0 !in KeySet(patterns[..i])
    ensures KeySet(patterns[..i + 1]) == KeySet(patterns[..i]) + {patterns[i].0}
  {
    assert patterns[..i + 1][..i] == patterns[..i];
    KeySetMember(patterns[..i], patterns[i].0);
    forall m | 0 <= m < i
      ensures patterns[..i][m].0 != patterns[i].0
    {
      assert patterns[..i][m] == patterns[m];
    }
  }
}
