/**
  Breadth-first search over outgoing edges, the bounded-reachability check
  built on it, and the "six degrees" estimate over sampled node pairs.
 */
module Search {
  import opened Graphs
  import opened Walks
  import opened Tallies

  /** Each node in `dist` outside `front` has all its out-neighbours in `dist`. */
  ghost predicate ClosedOutside(g: Graph, dist: map<int, nat>, front: seq<int>) {
    forall v, w :: v in dist && v !in front && Edge(g, v, w) ==> w in dist
  }

  /**
    A walk that starts inside `dist` either ends inside it or passes through
    `front` on the way out: outside `front`, edges never leave `dist`.
   */
  lemma {:induction false} LeavesThroughFront(g: Graph, dist: map<int, nat>, front: seq<int>, p: seq<int>, j: nat)
    requires IsWalk(g, p) && j < |p| && p[j] in dist
    requires ClosedOutside(g, dist, front)
    ensures p[|p| - 1] in dist || exists i :: j <= i < |p| - 1 && p[i] in front
    decreases |p| - j
  {
    if j < |p| - 1 && p[j] !in front {
      assert Edge(g, p[j], p[j + 1]);
      LeavesThroughFront(g, dist, front, p, j + 1);
    }
  }

  /**
    While the search expands level `d`, a node not yet discovered is at least
    `d + 1` edges away: a walk to it leaves the discovered nodes through the
    queue, whose nodes all lie at distance `d` or more.
   */
  lemma UndiscoveredIsFar(g: Graph, s: int, dist: map<int, nat>, front: seq<int>, d: nat, w: int, n: nat)
    requires s in dist && Minimal(g, s, dist)
    requires ClosedOutside(g, dist, front)
    requires forall i :: 0 <= i < |front| ==> front[i] in dist && d <= dist[front[i]]
    requires w !in dist && Reaches(g, s, w, n)
    ensures d + 1 <= n
  {
    var p :| WalkBetween(g, p, s, w) && |p| == n + 1;
    LeavesThroughFront(g, dist, front, p, 0);
    var i :| 0 <= i < |p| - 1 && p[i] in front;
    ReachesPrefix(g, p, s, w, i);
  }

  /** Once nothing is left in the queue, every node reached from the start is discovered. */
  lemma ClosedIsComplete(g: Graph, s: int, dist: map<int, nat>)
    requires s in dist && ClosedOutside(g, dist, [])
    ensures Complete(g, s, dist)
  {
    forall t, n: nat | Reaches(g, s, t, n) ensures t in dist {
      var p :| WalkBetween(g, p, s, t) && |p| == n + 1;
      LeavesThroughFront(g, dist, [], p, 0);
    }
  }

  /** No node occurs twice in `s`. */
  ghost predicate Distinct(s: seq<int>) {
    forall i, j :: 0 <= i < j < |s| ==> s[i] != s[j]
  }

  /**
    The queue of a search expanding level `d`: its nodes are discovered,
    distinct, in non-decreasing order of distance, and at distance `d` or
    `d + 1`.
   */
  ghost predicate LevelQueue(dist: map<int, nat>, queue: seq<int>, d: nat) {
    && (forall i :: 0 <= i < |queue| ==> queue[i] in dist)
    && Distinct(queue)
    && (forall i, j :: 0 <= i <= j < |queue| ==> dist[queue[i]] <= dist[queue[j]])
    && (forall i :: 0 <= i < |queue| ==> d <= dist[queue[i]] <= d + 1)
  }

  /**
    Relative to an earlier state (`dist0`, `queue0`), the queue has only grown
    at its back, and what was appended is exactly the nodes discovered since,
    each at distance `d + 1`.
   */
  ghost predicate Appends(dist0: map<int, nat>, queue0: seq<int>, dist: map<int, nat>, queue: seq<int>, d: nat) {
    && |queue0| <= |queue| && queue[..|queue0|] == queue0
    && (forall i :: |queue0| <= i < |queue| ==> queue[i] in dist && queue[i] !in dist0 && dist[queue[i]] == d + 1)
    && (forall v :: v in dist && v !in dist0 ==> v in queue[|queue0|..])
  }

  /** Discovering one more node and appending it keeps the queue an extension of the earlier one. */
  lemma AppendsStep(dist0: map<int, nat>, queue0: seq<int>, dist: map<int, nat>, queue: seq<int>, d: nat, w: int)
    requires Appends(dist0, queue0, dist, queue, d) && dist0.Keys <= dist.Keys && w !in dist
    ensures Appends(dist0, queue0, dist[w := d + 1], queue + [w], d)
  {
    var q := queue + [w];
    assert q[..|queue0|] == queue[..|queue0|];
    assert q[|queue0|..] == queue[|queue0|..] + [w];
  }

  /**
    Discovering an undiscovered out-neighbour of the node being expanded at
    one more than its distance, and appending it to the queue, keeps every
    distance shortest and the queue a level queue.
   */
  lemma DiscoverKeeps(g: Graph, start: int, current: int, d: nat, dist: map<int, nat>, queue: seq<int>,
                      neighbor: int, universe: set<int>)
    requires current in dist && dist[current] == d && dist.Keys <= universe && Targets(g) <= universe
    requires start in dist && Sound(g, start, dist) && Minimal(g, start, dist)
    requires LevelQueue(dist, queue, d) && ClosedOutside(g, dist, [current] + queue)
    requires Edge(g, current, neighbor) && neighbor !in dist
    ensures dist[neighbor := d + 1].Keys <= universe
    ensures Sound(g, start, dist[neighbor := d + 1]) && Minimal(g, start, dist[neighbor := d + 1])
    ensures LevelQueue(dist[neighbor := d + 1], queue + [neighbor], d)
    ensures ClosedOutside(g, dist[neighbor := d + 1], [current] + (queue + [neighbor]))
  {
    forall n: nat | Reaches(g, start, neighbor, n) ensures d + 1 <= n {
      UndiscoveredIsFar(g, start, dist, [current] + queue, d, neighbor, n);
    }
    ReachesStep(g, start, current, neighbor, d);
    assert neighbor in Targets(g);
  }

  /**
    Looks at every out-neighbour of the node `current` just taken from the
    queue: each one not yet discovered is given distance `dist[current] + 1`
    and appended to the queue. Afterwards `current` is settled: all its
    out-neighbours are discovered.
   */
  method VisitNeighbors(g: Graph, start: int, current: int, dist0: map<int, nat>, queue0: seq<int>,
                        ghost universe: set<int>)
    returns (dist: map<int, nat>, queue: seq<int>)
    requires current in dist0 && dist0.Keys <= universe && Targets(g) <= universe
    requires start in dist0 && dist0[start] == 0
    requires Sound(g, start, dist0) && Minimal(g, start, dist0)
    requires LevelQueue(dist0, queue0, dist0[current])
    requires ClosedOutside(g, dist0, [current] + queue0)
    ensures dist0.Keys <= dist.Keys <= universe
    ensures dist.Keys == dist0.Keys ==> queue == queue0
    ensures current in dist && dist[current] == dist0[current]
    ensures start in dist && dist[start] == 0
    ensures Sound(g, start, dist) && Minimal(g, start, dist)
    ensures LevelQueue(dist, queue, dist0[current])
    ensures ClosedOutside(g, dist, queue)
    ensures Successors(g, current) <= dist.Keys
    ensures dist.Keys <= dist0.Keys + Successors(g, current)
    ensures Appends(dist0, queue0, dist, queue, dist0[current])
  {
    dist, queue := dist0, queue0;
    var d := dist[current];
    var remaining := Successors(g, current);
    while remaining != {}
      invariant remaining <= Successors(g, current)
      invariant dist0.Keys <= dist.Keys <= universe
      invariant dist.Keys == dist0.Keys ==> queue == queue0
      invariant current in dist && dist[current] == d
      invariant start in dist && dist[start] == 0
      invariant Sound(g, start, dist) && Minimal(g, start, dist)
      invariant LevelQueue(dist, queue, d)
      invariant ClosedOutside(g, dist, [current] + queue)
      invariant forall w :: Edge(g, current, w) && w !in remaining ==> w in dist
      invariant Appends(dist0, queue0, dist, queue, d)
      invariant dist.Keys <= dist0.Keys + (Successors(g, current) - remaining)
      decreases remaining
    {
      NonEmptyHasElement(remaining);
      var neighbor :| neighbor in remaining;
      remaining := remaining - {neighbor};
      if neighbor !in dist {
        DiscoverKeeps(g, start, current, d, dist, queue, neighbor, universe);
        AppendsStep(dist0, queue0, dist, queue, d, neighbor);
        queue := queue + [neighbor];
        dist := dist[neighbor := d + 1];
      }
    }
    forall w | w in Successors(g, current) ensures w in dist {
      assert Edge(g, current, w);
    }
  }

  /**
    `order` lists every node ever put in the queue, each once, in the order
    it was put there: its elements are exactly the discovered nodes, and the
    queue is what remains of its tail.
   */
  ghost predicate EnqueuedOnce(dist: map<int, nat>, queue: seq<int>, order: seq<int>) {
    && |order| >= 1
    && Distinct(order)
    && (forall v :: v in dist <==> v in order)
    && |queue| <= |order| && queue == order[|order| - |queue|..]
  }

  /** Two duplicate-free sequences with no node in common concatenate to a duplicate-free one. */
  lemma DistinctAppend(a: seq<int>, b: seq<int>)
    requires Distinct(a) && Distinct(b)
    requires forall k :: 0 <= k < |b| ==> b[k] !in a
    ensures Distinct(a + b)
  {
    forall i, j | 0 <= i < j < |a + b| ensures (a + b)[i] != (a + b)[j] {
      if j >= |a| {
        assert (a + b)[j] == b[j - |a|];
        if i < |a| {
          assert (a + b)[i] in a;
        }
      }
    }
  }

  /** A suffix of `a + b` that starts inside `a` is the rest of `a` followed by `b`. */
  lemma SuffixOfAppend(a: seq<int>, b: seq<int>, m: nat)
    requires m <= |a|
    ensures (a + b)[m..] == a[m..] + b
  {
  }

  /** A sequence that begins with `p` is `p` followed by the rest. */
  lemma PrefixSplit(q: seq<int>, p: seq<int>)
    requires |p| <= |q| && q[..|p|] == p
    ensures q == p + q[|p|..]
  {
  }

  /** Every suffix of a duplicate-free sequence is duplicate-free. */
  lemma DistinctSuffix(q: seq<int>, n: nat)
    requires Distinct(q) && n <= |q|
    ensures Distinct(q[n..])
  {
    forall i, j | 0 <= i < j < |q| - n ensures q[n..][i] != q[n..][j] {
      assert q[n..][i] == q[n + i] && q[n..][j] == q[n + j];
    }
  }

  /**
    The nodes appended by a round are exactly the nodes it discovered, and
    none of them was discovered, hence recorded, before.
   */
  lemma AppendedAreNew(dist0: map<int, nat>, front: seq<int>, dist: map<int, nat>, queue: seq<int>,
                       order: seq<int>, d: nat)
    requires Appends(dist0, front, dist, queue, d) && dist0.Keys <= dist.Keys
    requires forall v :: v in dist0 <==> v in order
    ensures forall k :: 0 <= k < |queue| - |front| ==> queue[|front|..][k] !in order
    ensures forall v :: v in dist <==> v in order + queue[|front|..]
  {
    var added := queue[|front|..];
    forall k | 0 <= k < |added| ensures added[k] !in order {
      assert added[k] == queue[|front| + k];
    }
    forall v ensures v in dist <==> v in order + added {
      if v in added {
        var k :| 0 <= k < |added| && added[k] == v;
        assert v == queue[|front| + k];
      }
    }
  }

  /**
    After the front node is taken off and its neighbours are visited, the
    nodes appended to the queue extend the record without repeating a node.
   */
  lemma EnqueuedOnceStep(dist0: map<int, nat>, queue0: seq<int>, dist: map<int, nat>, queue: seq<int>,
                         order: seq<int>, d: nat)
    requires queue0 != [] && EnqueuedOnce(dist0, queue0, order)
    requires Appends(dist0, queue0[1..], dist, queue, d) && dist0.Keys <= dist.Keys
    requires Distinct(queue)
    ensures EnqueuedOnce(dist, queue, order + queue[|queue0| - 1..])
  {
    var front := queue0[1..];
    var added := queue[|front|..];
    PrefixSplit(queue, front);
    DistinctSuffix(queue, |front|);
    AppendedAreNew(dist0, front, dist, queue, order, d);
    DistinctAppend(order, added);
    var m := |order| - |front|;
    assert front == order[m..];
    SuffixOfAppend(order, added, m);
  }

  /** A round that appended nothing discovered nothing. */
  lemma NothingAppended(dist0: map<int, nat>, front: seq<int>, dist: map<int, nat>, queue: seq<int>, d: nat)
    requires Appends(dist0, front, dist, queue, d) && dist0.Keys <= dist.Keys && |queue| <= |front|
    ensures dist.Keys == dist0.Keys
  {
    assert queue[|front|..] == [];
    forall v | v in dist ensures v in dist0 {
      assert v !in queue[|front|..];
    }
  }

  /** Discovering a node `w` of `universe` leaves fewer of it undiscovered. */
  lemma FewerUndiscovered(universe: set<int>, before: set<int>, after: set<int>, w: int)
    requires before <= after <= universe && w in after && w !in before
    ensures universe - after < universe - before
  {
    assert w in universe - before && w !in universe - after;
  }

  /**
    After a round, either fewer nodes of `universe` are undiscovered, or
    none was discovered and the queue is shorter: the search terminates.
   */
  lemma MeasureDrops(universe: set<int>, before: set<int>, after: set<int>, size: nat, queue: seq<int>)
    requires before <= after <= universe && size >= 1
    requires |queue| < size ==> after == before
    requires |queue| >= size ==> queue[size - 1] in after && queue[size - 1] !in before
    ensures universe - after < universe - before || (universe - after == universe - before && |queue| < size)
  {
    if |queue| >= size {
      FewerUndiscovered(universe, before, after, queue[size - 1]);
    }
  }

  /**
    The state of a search from `start` between two queue pops: discovered
    nodes lie in `universe`, carry their shortest distances, and are all
    settled except those still queued; the queue is a level queue, and
    `order` records each node put in it exactly once.
   */
  ghost predicate Searching(g: Graph, start: int, universe: set<int>,
                            dist: map<int, nat>, queue: seq<int>, order: seq<int>) {
    && dist.Keys <= universe
    && start in dist && dist[start] == 0
    && Sound(g, start, dist) && Minimal(g, start, dist)
    && (queue != [] ==> queue[0] in dist && LevelQueue(dist, queue, dist[queue[0]]))
    && ClosedOutside(g, dist, queue)
    && EnqueuedOnce(dist, queue, order) && order[0] == start
  }

  /**
    One round of the search on the state (`dist0`, `queue0`, `order0`): the
    front node `queue0[0]` is popped, the rest of the queue stays in front,
    and only out-neighbours of the popped node not discovered before are
    discovered and appended, each one hop further; the record of queued
    nodes grows by exactly what was appended.
   */
  ghost predicate Round(g: Graph, dist0: map<int, nat>, queue0: seq<int>, order0: seq<int>,
                        dist: map<int, nat>, queue: seq<int>, order: seq<int>) {
    && queue0 != [] && queue0[0] in dist0
    && Appends(dist0, queue0[1..], dist, queue, dist0[queue0[0]])
    && dist.Keys <= dist0.Keys + Successors(g, queue0[0])
    && |queue| >= |queue0| - 1
    && order == order0 + queue[|queue0| - 1..]
  }

  /** The state a round leaves behind is again a search state. */
  lemma RoundKeepsSearching(g: Graph, start: int, universe: set<int>, dist0: map<int, nat>, queue0: seq<int>,
                            order0: seq<int>, dist: map<int, nat>, queue: seq<int>)
    requires queue0 != [] && Searching(g, start, universe, dist0, queue0, order0)
    requires dist0.Keys <= dist.Keys <= universe
    requires start in dist && dist[start] == 0
    requires Sound(g, start, dist) && Minimal(g, start, dist)
    requires LevelQueue(dist, queue, dist0[queue0[0]])
    requires ClosedOutside(g, dist, queue)
    requires Appends(dist0, queue0[1..], dist, queue, dist0[queue0[0]])
    ensures Searching(g, start, universe, dist, queue, order0 + queue[|queue0| - 1..])
  {
    EnqueuedOnceStep(dist0, queue0, dist, queue, order0, dist0[queue0[0]]);
  }

  /**
    One round of the search: takes the front node off the queue and visits
    its out-neighbours. Either fewer nodes are left to discover, or none was
    discovered and the queue is shorter.
   */
  method Expand(g: Graph, start: int, dist0: map<int, nat>, queue0: seq<int>,
                ghost order0: seq<int>, ghost universe: set<int>)
    returns (dist: map<int, nat>, queue: seq<int>, ghost order: seq<int>)
    requires Targets(g) <= universe && queue0 != []
    requires Searching(g, start, universe, dist0, queue0, order0)
    ensures Searching(g, start, universe, dist, queue, order)
    ensures Round(g, dist0, queue0, order0, dist, queue, order)
    ensures dist0.Keys <= dist.Keys
    ensures || universe - dist.Keys < universe - dist0.Keys
            || (universe - dist.Keys == universe - dist0.Keys && |queue| < |queue0|)
  {
    var current := queue0[0];
    dist, queue := VisitNeighbors(g, start, current, dist0, queue0[1..], universe);
    RoundKeepsSearching(g, start, universe, dist0, queue0, order0, dist, queue);
    order := order0 + queue[|queue0| - 1..];
    if |queue| < |queue0| {
      NothingAppended(dist0, queue0[1..], dist, queue, dist0[current]);
    }
    MeasureDrops(universe, dist0.Keys, dist.Keys, |queue0|, queue);
  }

  /**
    A search whose queue has run empty has found the distance map, and its
    record lists every discovered node once.
   */
  lemma SearchDone(g: Graph, start: int, universe: set<int>, dist: map<int, nat>, order: seq<int>)
    requires Searching(g, start, universe, dist, [], order)
    ensures IsDistanceMap(g, start, dist)
    ensures dist == DistanceMap(g, start)
    ensures start !in g.adjacency ==> dist == map[start := 0]
  {
    ClosedIsComplete(g, start, dist);
    DistanceMapUnique(g, start, dist);
    DistanceMapSource(g, start);
  }

  /**
    Breadth-first search from `start`: the result maps every node reachable
    from `start` along outgoing edges, and no other node, to its shortest hop
    count. Neighbours are visited in an unspecified order, as a hash set
    yields them; the result does not depend on it. The ghost `order` records
    the nodes in the order they were queued: each node is queued once.
   */
  method Bfs(g: Graph, start: int) returns (dist: map<int, nat>, ghost order: seq<int>)
    ensures start in dist && dist[start] == 0
    ensures IsDistanceMap(g, start, dist)
    ensures dist == DistanceMap(g, start)
    ensures start !in g.adjacency ==> dist == map[start := 0]
    ensures |order| >= 1 && order[0] == start
    ensures forall i, j :: 0 <= i < j < |order| ==> order[i] != order[j]
    ensures forall v :: v in dist <==> v in order
  {
    dist := map[start := 0];
    var queue := [start];
    order := [start];
    ghost var universe := {start} + Targets(g);
    ReachesSelf(g, start);
    while queue != []
      invariant Searching(g, start, universe, dist, queue, order)
      decreases universe - dist.Keys, |queue|
    {
      dist, queue, order := Expand(g, start, dist, queue, order, universe);
    }
    SearchDone(g, start, universe, dist, order);
  }

  /**
    Whether `end` is reachable from `start` within `maxDegrees` hops: true
    exactly when some walk of at most `maxDegrees` edges joins them.
   */
  method AreNodesWithinDegreesOfSeparation(g: Graph, start: int, end: int, maxDegrees: int) returns (r: bool)
    ensures r <==> exists n: nat :: n <= maxDegrees && Reaches(g, start, end, n)
    ensures r <==> Reachable(g, start, end) && Dist(g, start, end) <= maxDegrees
    ensures start == end && maxDegrees >= 0 ==> r
  {
    var distances, _ := Bfs(g, start);
    r := end in distances && distances[end] <= maxDegrees;
    ReachesSelf(g, start);
  }

  /**
    The tally of the reachable sampled pairs: each pair whose end is reachable
    from its start adds their distance; the others are skipped.
   */
  ghost function PairTally(g: Graph, pairs: seq<(int, int)>): (t: Tally)
    ensures t.count <= |pairs|
    decreases |pairs|
  {
    if |pairs| == 0 then Tally(0, 0)
    else
      var prev := PairTally(g, pairs[..|pairs| - 1]);
      var (s, e) := pairs[|pairs| - 1];
      if Reachable(g, s, e) then Add(prev, Dist(g, s, e)) else prev
  }

  /** One more pair adds its distance when its end is reachable, and nothing otherwise. */
  lemma PairTallyAppend(g: Graph, pairs: seq<(int, int)>, i: nat)
    requires i < |pairs|
    ensures Reachable(g, pairs[i].0, pairs[i].1) ==>
      && PairTally(g, pairs[..i + 1]).total == PairTally(g, pairs[..i]).total + Dist(g, pairs[i].0, pairs[i].1)
      && PairTally(g, pairs[..i + 1]).count == PairTally(g, pairs[..i]).count + 1
    ensures !Reachable(g, pairs[i].0, pairs[i].1) ==> PairTally(g, pairs[..i + 1]) == PairTally(g, pairs[..i])
  {
    assert pairs[..i + 1][..i] == pairs[..i];
  }

  /** When no sampled pair is reachable, nothing is counted. */
  lemma {:induction false} NoReachablePair(g: Graph, pairs: seq<(int, int)>)
    requires forall i :: 0 <= i < |pairs| ==> !Reachable(g, pairs[i].0, pairs[i].1)
    ensures PairTally(g, pairs) == Tally(0, 0)
    decreases |pairs|
  {
    if |pairs| > 0 {
      NoReachablePair(g, pairs[..|pairs| - 1]);
    }
  }

  /** Pairs of a node with itself are all counted, each at distance 0. */
  lemma {:induction false} SelfPairs(g: Graph, pairs: seq<(int, int)>)
    requires forall i :: 0 <= i < |pairs| ==> pairs[i].1 == pairs[i].0
    ensures PairTally(g, pairs) == Tally(0, |pairs|)
    decreases |pairs|
  {
    if |pairs| > 0 {
      var s := pairs[|pairs| - 1].0;
      SelfPairs(g, pairs[..|pairs| - 1]);
      ReachesSelf(g, s);
      assert Dist(g, s, s) == 0;
    }
  }

  /**
    The mean distance over `numPairs` sampled (start, end) pairs whose end is
    reachable, or 0 when none is. The draws are passed in: each is a pair of
    adjacency keys, and in test mode each end equals its start, which makes
    the result exactly 0.
   */
  method CalculateSixDegrees(g: Graph, numPairs: nat, pairs: seq<(int, int)>, testMode: bool) returns (r: real)
    requires |pairs| == numPairs
    requires forall i :: 0 <= i < |pairs| ==> pairs[i].0 in g.adjacency && pairs[i].1 in g.adjacency
    requires testMode ==> forall i :: 0 <= i < |pairs| ==> pairs[i].1 == pairs[i].0
    ensures r == Mean(PairTally(g, pairs))
    ensures r >= 0.0
    ensures testMode ==> r == 0.0
    ensures (forall i :: 0 <= i < |pairs| ==> !Reachable(g, pairs[i].0, pairs[i].1)) ==> r == 0.0
  {
    var totalDistance: nat := 0;
    var pairsCounted: nat := 0;
    for i := 0 to numPairs
      invariant totalDistance == PairTally(g, pairs[..i]).total
      invariant pairsCounted == PairTally(g, pairs[..i]).count
    {
      var (startNode, endNode) := pairs[i];
      var distances, _ := Bfs(g, startNode);
      PairTallyAppend(g, pairs, i);
      if endNode in distances {
        totalDistance := totalDistance + distances[endNode];
        pairsCounted := pairsCounted + 1;
      }
    }
    assert pairs[..numPairs] == pairs;
    r := if pairsCounted == 0 then 0.0 else totalDistance as real / pairsCounted as real;
    if testMode {
      SelfPairs(g, pairs);
    }
    if forall i :: 0 <= i < |pairs| ==> !Reachable(g, pairs[i].0, pairs[i].1) {
      NoReachablePair(g, pairs);
    }
  }
}
