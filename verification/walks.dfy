/**
  Walks along outgoing edges and the shortest-hop distance they define: the
  reference against which breadth-first search is proved correct.
 */
module Walks {
  import opened Graphs

  /** `p` is a non-empty node sequence whose consecutive nodes are joined by edges. */
  ghost predicate IsWalk(g: Graph, p: seq<int>) {
    |p| >= 1 && forall i :: 0 <= i < |p| - 1 ==> Edge(g, p[i], p[i + 1])
  }

  /** `p` is a walk that starts at `s` and ends at `t`. */
  ghost predicate WalkBetween(g: Graph, p: seq<int>, s: int, t: int) {
    IsWalk(g, p) && p[0] == s && p[|p| - 1] == t
  }

  /** Some walk of exactly `n` edges leads from `s` to `t`. */
  ghost predicate Reaches(g: Graph, s: int, t: int, n: nat) {
    exists p :: WalkBetween(g, p, s, t) && |p| == n + 1
  }

  /** Some walk leads from `s` to `t`. */
  ghost predicate Reachable(g: Graph, s: int, t: int) {
    exists n: nat :: Reaches(g, s, t, n)
  }

  /** Every node reaches itself by the empty walk. */
  lemma ReachesSelf(g: Graph, s: int)
    ensures Reaches(g, s, s, 0)
  {
    assert WalkBetween(g, [s], s, s);
  }

  /** A walk to `u` followed by the edge `u -> w` is a walk to `w`, one edge longer. */
  lemma ReachesStep(g: Graph, s: int, u: int, w: int, n: nat)
    requires Reaches(g, s, u, n) && Edge(g, u, w)
    ensures Reaches(g, s, w, n + 1)
  {
    var p :| WalkBetween(g, p, s, u) && |p| == n + 1;
    var q := p + [w];
    forall i | 0 <= i < |q| - 1 ensures Edge(g, q[i], q[i + 1]) {
      if i < |p| - 1 {
        assert q[i] == p[i] && q[i + 1] == p[i + 1];
      }
    }
    assert WalkBetween(g, q, s, w);
  }

  /** Every prefix of a walk from `s` is a walk from `s`. */
  lemma ReachesPrefix(g: Graph, p: seq<int>, s: int, t: int, i: nat)
    requires WalkBetween(g, p, s, t) && i < |p|
    ensures Reaches(g, s, p[i], i)
  {
    var q := p[..i + 1];
    forall k | 0 <= k < |q| - 1 ensures Edge(g, q[k], q[k + 1]) {
      assert q[k] == p[k] && q[k + 1] == p[k + 1];
    }
    assert WalkBetween(g, q, s, p[i]);
  }

  /**
    A walk of no edges ends where it starts; a longer one leaves its start by an
    edge, so its start has an adjacency entry, and ends at an edge destination.
   */
  lemma ReachesEnds(g: Graph, s: int, t: int, n: nat)
    requires Reaches(g, s, t, n)
    ensures n == 0 ==> t == s
    ensures n > 0 ==> s in g.adjacency && t in Targets(g)
  {
    var p :| WalkBetween(g, p, s, t) && |p| == n + 1;
    if n > 0 {
      assert Edge(g, p[0], p[1]);
      assert Edge(g, p[n - 1], p[n]);
    }
  }

  /** Of all walk lengths from `s` to `t`, there is a least one. */
  lemma {:induction false} ShortestExists(g: Graph, s: int, t: int, n: nat)
    requires Reaches(g, s, t, n)
    ensures exists d: nat :: Reaches(g, s, t, d) && forall m: nat :: Reaches(g, s, t, m) ==> d <= m
    decreases n
  {
    if exists m: nat :: m < n && Reaches(g, s, t, m) {
      var m: nat :| m < n && Reaches(g, s, t, m);
      ShortestExists(g, s, t, m);
    } else {
      assert forall m: nat :: Reaches(g, s, t, m) ==> n <= m;
    }
  }

  /** The shortest-hop distance from `s` to a node `t` it reaches. */
  ghost function Dist(g: Graph, s: int, t: int): (d: nat)
    requires Reachable(g, s, t)
    ensures Reaches(g, s, t, d)
    ensures forall m: nat :: Reaches(g, s, t, m) ==> d <= m
  {
    var n: nat :| Reaches(g, s, t, n);
    ShortestExists(g, s, t, n);
    var d: nat :| Reaches(g, s, t, d) && forall m: nat :: Reaches(g, s, t, m) ==> d <= m;
    d
  }

  /** Every node `s` reaches is `s` itself or an edge destination. */
  lemma ReachableBounded(g: Graph, s: int)
    ensures forall t :: Reachable(g, s, t) ==> t in {s} + Targets(g)
  {
    forall t | Reachable(g, s, t) ensures t in {s} + Targets(g) {
      var n: nat :| Reaches(g, s, t, n);
      ReachesEnds(g, s, t, n);
    }
  }

  /**
    The distance map of `s`: every node `s` reaches, and nothing else, mapped
    to its shortest-hop distance.
   */
  ghost function DistanceMap(g: Graph, s: int): (m: map<int, nat>)
    ensures forall t :: t in m <==> Reachable(g, s, t)
    ensures forall t :: t in m ==> m[t] == Dist(g, s, t)
  {
    ReachableBounded(g, s);
    map t | t in {s} + Targets(g) && Reachable(g, s, t) :: Dist(g, s, t)
  }

  /** Every key of `m` is reached from `s` by a walk exactly as long as its value. */
  ghost predicate Sound(g: Graph, s: int, m: map<int, nat>) {
    forall t :: t in m ==> Reaches(g, s, t, m[t])
  }

  /** No walk from `s` to a key of `m` is shorter than its value. */
  ghost predicate Minimal(g: Graph, s: int, m: map<int, nat>) {
    forall t, n: nat :: t in m && Reaches(g, s, t, n) ==> m[t] <= n
  }

  /** Every node `s` reaches is a key of `m`. */
  ghost predicate Complete(g: Graph, s: int, m: map<int, nat>) {
    forall t, n: nat :: Reaches(g, s, t, n) ==> t in m
  }

  /**
    What a breadth-first search must return: each key is reached by a walk as
    long as its value, and each walk ends at a key whose value is no longer
    than the walk.
   */
  ghost predicate IsDistanceMap(g: Graph, s: int, m: map<int, nat>) {
    Sound(g, s, m) && Complete(g, s, m) && Minimal(g, s, m)
  }

  /** The requirements on a search result pin it down: it is the distance map. */
  lemma DistanceMapUnique(g: Graph, s: int, m: map<int, nat>)
    ensures IsDistanceMap(g, s, m) <==> m == DistanceMap(g, s)
  {
    var dm := DistanceMap(g, s);
    if IsDistanceMap(g, s, m) {
      forall t ensures t in m <==> t in dm {
        if t in m {
          assert Reaches(g, s, t, m[t]);
        }
        if t in dm {
          assert Reaches(g, s, t, dm[t]);
        }
      }
      forall t | t in m ensures m[t] == dm[t] {
        assert Reaches(g, s, t, m[t]);
        assert Reaches(g, s, t, dm[t]);
      }
    }
    if m == dm {
      forall t, n: nat | Reaches(g, s, t, n) ensures t in m && m[t] <= n {
        assert Reachable(g, s, t);
      }
    }
  }

  /**
    The source is at distance 0 and every other reached node at a positive
    distance; a source without an adjacency entry reaches only itself.
   */
  lemma DistanceMapSource(g: Graph, s: int)
    ensures s in DistanceMap(g, s) && DistanceMap(g, s)[s] == 0
    ensures forall t :: t in DistanceMap(g, s) && t != s ==> DistanceMap(g, s)[t] > 0
    ensures s !in g.adjacency ==> DistanceMap(g, s) == map[s := 0]
  {
    var dm := DistanceMap(g, s);
    ReachesSelf(g, s);
    forall t | t in dm && t != s ensures dm[t] > 0 {
      ReachesEnds(g, s, t, dm[t]);
    }
    if s !in g.adjacency {
      forall t | t in dm ensures t == s {
        ReachesEnds(g, s, t, dm[t]);
      }
    }
  }
}
