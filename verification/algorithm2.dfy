/**
  The average pairwise distance: the mean of every strictly positive
  breadth-first distance found from a sample of adjacency keys drawn without
  replacement.
 */
module PairwiseDistance {
  import opened Wrappers
  import opened Graphs
  import opened Walks
  import opened Tallies
  import opened Search

  /** The tally with distance `d` counted only when it is strictly positive. */
  function AddPositive(t: Tally, d: nat): Tally {
    if d > 0 then Add(t, d) else t
  }

  /**
    The tally of the strictly positive values of a distance map, taken in an
    arbitrary key order (the order does not matter, see
    `PositiveTallyRemove`). Every counted value is at least 1.
   */
  ghost function PositiveTally(m: map<int, nat>): (t: Tally)
    ensures t.count <= t.total
    decreases m.Keys
  {
    if m.Keys == {} then Tally(0, 0)
    else
      NonEmptyHasElement(m.Keys);
      var k :| k in m.Keys;
      AddPositive(PositiveTally(m - {k}), m[k])
  }

  /** Any key may be counted last: the tally does not depend on the key order. */
  lemma {:induction false} PositiveTallyRemove(m: map<int, nat>, k: int)
    requires k in m
    ensures PositiveTally(m) == AddPositive(PositiveTally(m - {k}), m[k])
    decreases m.Keys
  {
    var j :| j in m.Keys && PositiveTally(m) == AddPositive(PositiveTally(m - {j}), m[j]);
    if j != k {
      assert (m - {j})[k] == m[k] && (m - {k})[j] == m[j];
      PositiveTallyRemove(m - {j}, k);
      PositiveTallyRemove(m - {k}, j);
      assert m - {j} - {k} == m - {k} - {j};
      var x := PositiveTally(m - {j} - {k});
      assert PositiveTally(m) == AddPositive(AddPositive(x, m[k]), m[j]);
      assert PositiveTally(m - {k}) == AddPositive(x, m[j]);
    }
  }

  /** The keys of `m` whose value is strictly positive. */
  ghost function PositiveKeys(m: map<int, nat>): set<int> {
    set k | k in m && m[k] > 0
  }

  /** The count of the tally is the number of strictly positive entries. */
  lemma {:induction false} PositiveTallyCount(m: map<int, nat>)
    ensures PositiveTally(m).count == |PositiveKeys(m)|
    decreases m.Keys
  {
    if m.Keys != {} {
      NonEmptyHasElement(m.Keys);
      var k :| k in m.Keys;
      PositiveTallyRemove(m, k);
      PositiveTallyCount(m - {k});
      PositiveKeysRemove(m, k);
    }
  }

  /** Removing key `k` removes it from the positive keys, and nothing else. */
  lemma PositiveKeysRemove(m: map<int, nat>, k: int)
    requires k in m
    ensures |PositiveKeys(m)| == |PositiveKeys(m - {k})| + (if m[k] > 0 then 1 else 0)
  {
    if m[k] > 0 {
      assert PositiveKeys(m) == PositiveKeys(m - {k}) + {k};
    } else {
      assert PositiveKeys(m) == PositiveKeys(m - {k});
    }
  }

  /**
    Sums the strictly positive values of a search result and counts them;
    the zero distance of the source itself is left out.
   */
  method SumPositiveDistances(distances: map<int, nat>) returns (t: Tally)
    ensures t == PositiveTally(distances)
  {
    var total: nat := 0;
    var count: nat := 0;
    var rest := distances;
    while rest.Keys != {}
      invariant total + PositiveTally(rest).total == PositiveTally(distances).total
      invariant count + PositiveTally(rest).count == PositiveTally(distances).count
      decreases rest.Keys
    {
      NonEmptyHasElement(rest.Keys);
      var k :| k in rest.Keys;
      PositiveTallyRemove(rest, k);
      if rest[k] > 0 {
        total := total + rest[k];
        count := count + 1;
      }
      rest := rest - {k};
    }
    t := Tally(total, count);
  }

  /** The positive distances found from a node: one per other node it reaches. */
  lemma SourceTally(g: Graph, s: int)
    ensures PositiveTally(DistanceMap(g, s)).count == |DistanceMap(g, s).Keys - {s}|
  {
    var dm := DistanceMap(g, s);
    DistanceMapSource(g, s);
    PositiveTallyCount(dm);
    assert PositiveKeys(dm) == dm.Keys - {s};
  }

  /** The combined tally of the positive distances from each sampled source in turn. */
  ghost function SampleTally(g: Graph, sources: seq<int>): (t: Tally)
    ensures t.count <= t.total
    decreases |sources|
  {
    if |sources| == 0 then Tally(0, 0)
    else Merge(SampleTally(g, sources[..|sources| - 1]), PositiveTally(DistanceMap(g, sources[|sources| - 1])))
  }

  function Min(a: nat, b: nat): nat {
    if a <= b then a else b
  }

  /**
    The average distance over a sample of `min(sampleSize, keys)` distinct
    adjacency keys: `None` exactly when the adjacency is empty; otherwise the
    mean of all strictly positive distances from the sampled sources, which
    is 0 when there are none and at least 1 when there are some.
   */
  method CalculateAverageDistance(g: Graph, sampleSize: nat, sample: seq<int>) returns (r: Option<real>)
    requires |sample| == Min(sampleSize, |g.adjacency|)
    requires forall i :: 0 <= i < |sample| ==> sample[i] in g.adjacency
    requires forall i, j :: 0 <= i < j < |sample| ==> sample[i] != sample[j]
    ensures r.None? <==> |g.adjacency| == 0
    ensures r.None? <==> Nodes(g) == {}
    ensures r.Some? ==> r.value == Mean(SampleTally(g, sample))
    ensures r.Some? ==> (r.value == 0.0 <==> SampleTally(g, sample).count == 0)
    ensures r.Some? ==> r.value == 0.0 || r.value >= 1.0
  {
    var nodeCount := |g.adjacency|;
    if nodeCount == 0 {
      return None;
    }
    var totalDistance: nat := 0;
    var reachablePairs: nat := 0;
    for i := 0 to |sample|
      invariant totalDistance == SampleTally(g, sample[..i]).total
      invariant reachablePairs == SampleTally(g, sample[..i]).count
    {
      var distances, _ := Bfs(g, sample[i]);
      var t := SumPositiveDistances(distances);
      totalDistance := totalDistance + t.total;
      reachablePairs := reachablePairs + t.count;
      SampleTallyAppend(g, sample[..i], sample[i]);
      assert sample[..i] + [sample[i]] == sample[..i + 1];
    }
    assert sample[..|sample|] == sample;
    if reachablePairs > 0 {
      r := Some(totalDistance as real / reachablePairs as real);
      MeanAtLeastOne(Tally(totalDistance, reachablePairs));
    } else {
      r := Some(0.0);
    }
  }

  /** The tally of two samples taken one after the other is the sum of their tallies. */
  lemma {:induction false} SampleTallyConcat(g: Graph, u: seq<int>, v: seq<int>)
    ensures SampleTally(g, u + v).total == SampleTally(g, u).total + SampleTally(g, v).total
    ensures SampleTally(g, u + v).count == SampleTally(g, u).count + SampleTally(g, v).count
    decreases |v|
  {
    if |v| == 0 {
      assert u + v == u;
    } else {
      var w := v[..|v| - 1];
      var x := v[|v| - 1];
      assert v == w + [x];
      assert u + v == (u + w) + [x];
      SampleTallyConcat(g, u, w);
      SampleTallyAppend(g, u + w, x);
      SampleTallyAppend(g, w, x);
    }
  }

  /**
    The order in which sources are sampled does not matter: two samples with
    the same elements, counted with multiplicity, have the same tally.
   */
  lemma {:induction false} SampleTallyPermutation(g: Graph, a: seq<int>, b: seq<int>)
    requires multiset(a) == multiset(b)
    ensures SampleTally(g, a).total == SampleTally(g, b).total
    ensures SampleTally(g, a).count == SampleTally(g, b).count
    decreases |a|
  {
    assert |a| == |multiset(a)| == |multiset(b)| == |b|;
    if |a| > 0 {
      var a' := a[..|a| - 1];
      var x := a[|a| - 1];
      assert a == a' + [x];
      assert x in multiset(b);
      var j :| 0 <= j < |b| && b[j] == x;
      var l, r := b[..j], b[j + 1..];
      assert b == l + [x] + r;
      MultisetSplit(a', l, x, r);
      SampleTallyPermutation(g, a', l + r);
      SampleTallyAppend(g, a', x);
      SampleTallyConcat(g, l, r);
      SampleTallyConcat(g, l + [x], r);
      SampleTallyAppend(g, l, x);
    }
  }

  /** Taking the same element off both sides keeps two multisets equal. */
  lemma MultisetSplit(a: seq<int>, l: seq<int>, x: int, r: seq<int>)
    requires multiset(a + [x]) == multiset(l + [x] + r)
    ensures multiset(a) == multiset(l + r)
  {
    assert multiset(a + [x]) == multiset(a) + multiset{x};
    assert multiset(l + [x] + r) == multiset(l) + multiset{x} + multiset(r);
    assert multiset(l + r) == multiset(l) + multiset(r);
    assert multiset(a) == multiset(a + [x]) - multiset{x};
    assert multiset(l + r) == multiset(l + [x] + r) - multiset{x};
  }

  /**
    A sample of distinct elements of `keys` as large as `keys` holds every
    key exactly once: drawing all keys without replacement is a permutation.
   */
  lemma {:induction false} FullSampleIsPermutation(sample: seq<int>, keys: set<int>)
    requires |sample| == |keys|
    requires forall i :: 0 <= i < |sample| ==> sample[i] in keys
    requires forall i, j :: 0 <= i < j < |sample| ==> sample[i] != sample[j]
    ensures multiset(sample) == multiset(keys)
    decreases |sample|
  {
    if |sample| > 0 {
      var rest := sample[..|sample| - 1];
      var x := sample[|sample| - 1];
      assert sample == rest + [x];
      assert x !in rest by {
        forall i | 0 <= i < |rest| ensures rest[i] != x {
          assert rest[i] == sample[i];
        }
      }
      forall i | 0 <= i < |rest| ensures rest[i] in keys - {x} {
        assert rest[i] == sample[i];
      }
      FullSampleIsPermutation(rest, keys - {x});
      assert keys == (keys - {x}) + {x};
      assert multiset(keys) == multiset(keys - {x}) + multiset{x};
    }
  }

  /** The graph 1 -> 2 -> 3 -> 4 -> 5: one entry per source, one in-degree per destination. */
  function PathGraph(): Graph {
    Graph(map[1 := {2}, 2 := {3}, 3 := {4}, 4 := {5}], map[2 := 1, 3 := 1, 4 := 1, 5 := 1])
  }

  /** The first edge out of a node gives it a singleton adjacency entry. */
  lemma AddFirstEdge(g: Graph, src: int, dest: int)
    requires src !in g.adjacency
    ensures AddEdge(g, src, dest).adjacency == g.adjacency[src := {dest}]
  {
    assert Successors(g, src) + {dest} == {dest};
  }

  /** Adding the edges 1 -> 2, 2 -> 3, 3 -> 4, 4 -> 5 to an empty graph builds the path graph. */
  lemma PathGraphBuilt()
    ensures AddEdge(AddEdge(AddEdge(AddEdge(New(), 1, 2), 2, 3), 3, 4), 4, 5) == PathGraph()
  {
    var g1 := AddEdge(New(), 1, 2);
    var g2 := AddEdge(g1, 2, 3);
    var g3 := AddEdge(g2, 3, 4);
    var g4 := AddEdge(g3, 4, 5);
    AddFirstEdge(New(), 1, 2);
    assert g1.inDegree == map[2 := 1];
    AddFirstEdge(g1, 2, 3);
    assert g2.inDegree == map[2 := 1, 3 := 1];
    AddFirstEdge(g2, 3, 4);
    assert g3.inDegree == map[2 := 1, 3 := 1, 4 := 1];
    AddFirstEdge(g3, 4, 5);
    assert g4.adjacency == PathGraph().adjacency;
    assert g4.inDegree == PathGraph().inDegree;
  }

  /** The edges of the path graph lead from each of 1..4 to its successor. */
  lemma PathGraphEdge(a: int, b: int)
    ensures PathGraph().adjacency.Keys == {1, 2, 3, 4}
    ensures Edge(PathGraph(), a, b) <==> 1 <= a <= 4 && b == a + 1
  {
  }

  /** Every walk in the path graph climbs by one per edge and stays within 1..5. */
  lemma {:induction false} PathGraphWalk(p: seq<int>)
    requires IsWalk(PathGraph(), p)
    ensures forall i :: 0 <= i < |p| ==> p[i] == p[0] + i
    ensures |p| > 1 ==> 1 <= p[0] && p[0] + |p| - 1 <= 5
    decreases |p|
  {
    if |p| > 1 {
      var q := p[..|p| - 1];
      forall i | 0 <= i < |q| - 1 ensures Edge(PathGraph(), q[i], q[i + 1]) {
        assert q[i] == p[i] && q[i + 1] == p[i + 1];
      }
      PathGraphWalk(q);
      assert Edge(PathGraph(), p[|p| - 2], p[|p| - 1]);
      PathGraphEdge(p[|p| - 2], p[|p| - 1]);
      assert forall i :: 0 <= i < |q| ==> p[i] == q[i];
    }
  }

  /** In the path graph, `s` reaches `t` in `n` hops exactly when `t == s + n` and `t <= 5`. */
  lemma PathGraphReaches(s: int, t: int, n: nat)
    requires 1 <= s <= 5
    ensures Reaches(PathGraph(), s, t, n) <==> t == s + n && t <= 5
  {
    var g := PathGraph();
    if Reaches(g, s, t, n) {
      var p :| WalkBetween(g, p, s, t) && |p| == n + 1;
      PathGraphWalk(p);
    }
    if t == s + n && t <= 5 {
      var p := seq(n + 1, i => s + i);
      forall i | 0 <= i < |p| - 1 ensures Edge(g, p[i], p[i + 1]) {
        PathGraphEdge(p[i], p[i + 1]);
      }
      assert WalkBetween(g, p, s, t);
    }
  }

  /** The map sending each `t` in `s..hi` to `t - s`. */
  function PathDistances(s: int, hi: int): map<int, nat>
    decreases hi - s
  {
    if hi < s then map[] else PathDistances(s, hi - 1)[hi := hi - s]
  }

  lemma PathDistancesContents(s: int, hi: int)
    ensures forall t :: t in PathDistances(s, hi) <==> s <= t <= hi
    ensures forall t :: t in PathDistances(s, hi) ==> PathDistances(s, hi)[t] == t - s
    decreases hi - s
  {
    if hi >= s {
      PathDistancesContents(s, hi - 1);
    }
  }

  /** The distances from `s` in the path graph meet the requirements on a search result. */
  lemma PathIsDistanceMap(s: int)
    requires 1 <= s <= 5
    ensures IsDistanceMap(PathGraph(), s, PathDistances(s, 5))
  {
    var g := PathGraph();
    var m := PathDistances(s, 5);
    PathDistancesContents(s, 5);
    forall t | t in m ensures Reaches(g, s, t, m[t]) {
      PathGraphReaches(s, t, m[t]);
    }
    forall t, n: nat | Reaches(g, s, t, n) ensures t in m && m[t] <= n {
      PathGraphReaches(s, t, n);
    }
  }

  /** The distances from `s` in the path graph: `t - s` for each `t` from `s` to 5. */
  lemma PathGraphDistances(s: int)
    requires 1 <= s <= 5
    ensures DistanceMap(PathGraph(), s) == PathDistances(s, 5)
  {
    PathIsDistanceMap(s);
    DistanceMapUnique(PathGraph(), s, PathDistances(s, 5));
  }

  /** 0 + 1 + ... + n. */
  function Triangle(n: nat): nat {
    if n == 0 then 0 else n + Triangle(n - 1)
  }

  /** The positive distances `1 .. hi - s` of a path prefix add up to a triangle number. */
  lemma {:induction false} PathTally(s: int, hi: int)
    requires s <= hi
    ensures PositiveTally(PathDistances(s, hi)).total == Triangle(hi - s)
    ensures PositiveTally(PathDistances(s, hi)).count == hi - s
    decreases hi - s
  {
    var m := PathDistances(s, hi);
    PathDistancesContents(s, hi - 1);
    PositiveTallyRemove(m, hi);
    assert m - {hi} == PathDistances(s, hi - 1);
    if hi > s {
      PathTally(s, hi - 1);
    }
  }

  /**
    The path-graph case: the path graph has the four keys 1..4 (5 is only a
    destination), so a sample of size 4 draws each key once, in some order.
    Whatever the order, the average is exactly 2.
   */
  lemma PathGraphAverage(sample: seq<int>)
    requires |sample| == Min(4, |PathGraph().adjacency|)
    requires forall i :: 0 <= i < |sample| ==> sample[i] in PathGraph().adjacency
    requires forall i, j :: 0 <= i < j < |sample| ==> sample[i] != sample[j]
    ensures Mean(SampleTally(PathGraph(), sample)) == 2.0
  {
    PathGraphFullSample(sample);
    assert Mean(Tally(20, 10)) == 20.0 / 10.0;
  }

  /** Any sample of four keys of the path graph finds 10 positive distances summing to 20. */
  lemma PathGraphFullSample(sample: seq<int>)
    requires |sample| == Min(4, |PathGraph().adjacency|)
    requires forall i :: 0 <= i < |sample| ==> sample[i] in PathGraph().adjacency
    requires forall i, j :: 0 <= i < j < |sample| ==> sample[i] != sample[j]
    ensures SampleTally(PathGraph(), sample) == Tally(20, 10)
  {
    var g := PathGraph();
    PathGraphKeys();
    PathGraphSampleTally();
    SampleOfPathGraph(g, sample, [1, 2, 3, 4]);
  }

  /**
    A full sample of a graph whose keys, listed in some order, tally to (20, 10).
    Stated for any graph `g`, not for the literal path graph, so that the
    verifier does not unfold the recursive tally over the literal's distances
    while it reasons about permutations.
   */
  lemma SampleOfPathGraph(g: Graph, sample: seq<int>, keys: seq<int>)
    requires multiset(keys) == multiset(g.adjacency.Keys)
    requires SampleTally(g, keys).total == 20 && SampleTally(g, keys).count == 10
    requires |sample| == |g.adjacency|
    requires forall i :: 0 <= i < |sample| ==> sample[i] in g.adjacency
    requires forall i, j :: 0 <= i < j < |sample| ==> sample[i] != sample[j]
    ensures SampleTally(g, sample) == Tally(20, 10)
  {
    FullSampleTally(g, sample, keys);
  }

  /**
    The path graph has exactly the four keys 1..4. These facts are gathered
    here so that callers use them without expanding the literal graph.
   */
  lemma PathGraphKeys()
    ensures PathGraph().adjacency.Keys == {1, 2, 3, 4}
    ensures |PathGraph().adjacency| == 4
    ensures multiset([1, 2, 3, 4]) == multiset(PathGraph().adjacency.Keys)
  {
  }

  /** Every sample holding all keys once has the tally of any enumeration of the keys. */
  lemma FullSampleTally(g: Graph, sample: seq<int>, keys: seq<int>)
    requires multiset(keys) == multiset(g.adjacency.Keys)
    requires |sample| == |g.adjacency|
    requires forall i :: 0 <= i < |sample| ==> sample[i] in g.adjacency
    requires forall i, j :: 0 <= i < j < |sample| ==> sample[i] != sample[j]
    ensures SampleTally(g, sample) == SampleTally(g, keys)
  {
    FullSampleIsPermutation(sample, g.adjacency.Keys);
    SampleTallyPermutation(g, sample, keys);
  }

  /** The tally of the positive distances from source `s` of the path graph. */
  lemma PathGraphSourceTally(s: int)
    requires 1 <= s <= 4
    ensures PositiveTally(DistanceMap(PathGraph(), s)).total == Triangle(5 - s)
    ensures PositiveTally(DistanceMap(PathGraph(), s)).count == 5 - s
  {
    PathGraphDistances(s);
    PathPrefixTally(PathGraph(), s, 5);
  }

  /**
    A source whose distances are those of a path prefix `s..hi` has a
    triangle-number tally. Stated for any graph `g` whose distance map is the
    prefix, so that the literal path graph is not expanded inside the tally.
   */
  lemma PathPrefixTally(g: Graph, s: int, hi: int)
    requires s <= hi && DistanceMap(g, s) == PathDistances(s, hi)
    ensures PositiveTally(DistanceMap(g, s)).total == Triangle(hi - s)
    ensures PositiveTally(DistanceMap(g, s)).count == hi - s
  {
    PathTally(s, hi);
  }

  lemma PathGraphSampleTally()
    ensures SampleTally(PathGraph(), [1, 2, 3, 4]) == Tally(20, 10)
  {
    var g := PathGraph();
    PathGraphSourceTally(1);
    PathGraphSourceTally(2);
    PathGraphSourceTally(3);
    PathGraphSourceTally(4);
    SampleTallyOfFour(g, 1, 2, 3, 4);
  }

  /** The tally of a four-node sample, componentwise. */
  lemma SampleTallyOfFour(g: Graph, a: int, b: int, c: int, d: int)
    ensures SampleTally(g, [a, b, c, d]).total
      == PositiveTally(DistanceMap(g, a)).total + PositiveTally(DistanceMap(g, b)).total
       + PositiveTally(DistanceMap(g, c)).total + PositiveTally(DistanceMap(g, d)).total
    ensures SampleTally(g, [a, b, c, d]).count
      == PositiveTally(DistanceMap(g, a)).count + PositiveTally(DistanceMap(g, b)).count
       + PositiveTally(DistanceMap(g, c)).count + PositiveTally(DistanceMap(g, d)).count
  {
    var s1, s2, s3, s4 := [a], [a, b], [a, b, c], [a, b, c, d];
    SampleTallyAppend(g, [], a);
    assert [] + [a] == s1;
    SampleTallyAppend(g, s1, b);
    assert s1 + [b] == s2;
    SampleTallyAppend(g, s2, c);
    assert s2 + [c] == s3;
    SampleTallyAppend(g, s3, d);
    assert s3 + [d] == s4;
  }

  /** Sampling one more source adds the tally of its distances. */
  lemma SampleTallyAppend(g: Graph, sources: seq<int>, s: int)
    ensures SampleTally(g, sources + [s]).total == SampleTally(g, sources).total + PositiveTally(DistanceMap(g, s)).total
    ensures SampleTally(g, sources + [s]).count == SampleTally(g, sources).count + PositiveTally(DistanceMap(g, s)).count
  {
  }
}
