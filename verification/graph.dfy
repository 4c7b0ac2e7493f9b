/**
  The directed graph of the project: an adjacency map from each source node
  to the set of its out-neighbours, plus an in-degree counter per node.

  Edges are only ever added. The adjacency sets give edges set semantics,
  while the in-degree counter is raised on every insertion, so a repeated
  edge is counted once by the adjacency and twice by the in-degree.
 */
module Graphs {

  /** Node identifiers are signed integers. */
  datatype Graph = Graph(adjacency: map<int, set<int>>, inDegree: map<int, nat>)

  /** True iff there is a directed edge from `a` to `b`. */
  predicate Edge(g: Graph, a: int, b: int) {
    a in g.adjacency && b in g.adjacency[a]
  }

  /** The out-neighbours of `u`; empty for a node without an adjacency entry. */
  function Successors(g: Graph, u: int): set<int> {
    if u in g.adjacency then g.adjacency[u] else {}
  }

  /** The recorded in-degree of `d`; zero for a node never used as a destination. */
  function InDegree(g: Graph, d: int): nat {
    if d in g.inDegree then g.inDegree[d] else 0
  }

  /** A non-empty set has an element to pick. */
  lemma NonEmptyHasElement(s: set<int>)
    requires s != {}
    ensures exists x :: x in s
  {
    if forall x :: x !in s {
      assert false;
    }
  }

  /** Every distinct directed edge, as a (source, destination) pair. */
  ghost function Edges(g: Graph): set<(int, int)> {
    set s, d | s in g.adjacency && d in g.adjacency[s] :: (s, d)
  }

  /** Every node that is the destination of some edge. */
  ghost function Targets(g: Graph): set<int> {
    set s, d | s in g.adjacency && d in g.adjacency[s] :: d
  }

  /** Every node that is an adjacency key or the destination of an edge. */
  ghost function Nodes(g: Graph): set<int> {
    g.adjacency.Keys + Targets(g)
  }

  /** A fresh graph: no edges, no nodes, every in-degree zero. */
  function New(): (g: Graph)
    ensures Edges(g) == {} && Nodes(g) == {}
    ensures forall d :: InDegree(g, d) == 0
  {
    Graph(map[], map[])
  }

  /**
    Inserts the edge `src -> dest`. The adjacency gains at most one key (`src`)
    and `dest` joins the neighbour set of `src`; the in-degree of `dest` goes
    up by one whether or not the edge was already present.
   */
  function AddEdge(g: Graph, src: int, dest: int): (g': Graph)
    ensures Edge(g', src, dest)
    ensures g'.adjacency.Keys == g.adjacency.Keys + {src}
    ensures Successors(g', src) == Successors(g, src) + {dest}
    ensures forall u :: u != src ==> Successors(g', u) == Successors(g, u)
    ensures forall u :: u in g.adjacency && u != src ==> g'.adjacency[u] == g.adjacency[u]
    ensures InDegree(g', dest) == InDegree(g, dest) + 1
    ensures forall d :: d != dest ==> InDegree(g', d) == InDegree(g, d)
  {
    Graph(g.adjacency[src := Successors(g, src) + {dest}],
          g.inDegree[dest := InDegree(g, dest) + 1])
  }

  /** Adding an edge adds exactly that pair to the set of distinct edges. */
  lemma AddEdgeEdges(g: Graph, src: int, dest: int)
    ensures Edges(AddEdge(g, src, dest)) == Edges(g) + {(src, dest)}
    ensures Targets(AddEdge(g, src, dest)) == Targets(g) + {dest}
  {
  }

  /**
    Re-adding an edge that is already present leaves the adjacency, and with it
    the edge count, unchanged, while the destination's in-degree still grows.
   */
  lemma AddExistingEdge(g: Graph, src: int, dest: int)
    requires Edge(g, src, dest)
    ensures AddEdge(g, src, dest).adjacency == g.adjacency
    ensures Edges(AddEdge(g, src, dest)) == Edges(g)
    ensures InDegree(AddEdge(g, src, dest), dest) == InDegree(g, dest) + 1
  {
    assert Successors(g, src) + {dest} == g.adjacency[src];
    AddEdgeEdges(g, src, dest);
  }

  /** Adding the same edge twice: one new distinct edge, two in-degree increments. */
  lemma AddEdgeTwice(g: Graph, src: int, dest: int)
    ensures var g2 := AddEdge(AddEdge(g, src, dest), src, dest);
      && g2.adjacency == AddEdge(g, src, dest).adjacency
      && Edges(g2) == Edges(g) + {(src, dest)}
      && InDegree(g2, dest) == InDegree(g, dest) + 2
  {
    AddEdgeEdges(g, src, dest);
    AddExistingEdge(AddEdge(g, src, dest), src, dest);
  }

  /** The edges leaving the keys in `ks`. */
  ghost function EdgesFrom(g: Graph, ks: set<int>): set<(int, int)> {
    set s, d | s in ks && s in g.adjacency && d in g.adjacency[s] :: (s, d)
  }

  /** The pairs `(k, d)` for `d` in `ds` are exactly as many as `ds`. */
  lemma {:induction false} PairsCardinality(k: int, ds: set<int>)
    ensures |(set d | d in ds :: (k, d))| == |ds|
    decreases ds
  {
    if ds != {} {
      NonEmptyHasElement(ds);
      var x :| x in ds;
      PairsCardinality(k, ds - {x});
      assert (set d | d in ds :: (k, d)) == (set d | d in ds - {x} :: (k, d)) + {(k, x)};
    }
  }

  /**
    Sums the sizes of the adjacency sets. The sum is the number of distinct
    directed edges: every edge is counted once, however often it was added.
   */
  method NumberOfEdges(g: Graph) returns (n: nat)
    ensures n == |Edges(g)|
  {
    n := 0;
    var pending := g.adjacency.Keys;
    ghost var done: set<int> := {};
    while pending != {}
      invariant pending + done == g.adjacency.Keys && pending !! done
      invariant n == |EdgesFrom(g, done)|
      decreases pending
    {
      NonEmptyHasElement(pending);
      var src :| src in pending;
      EdgesFromInsert(g, done, src);
      n := n + |g.adjacency[src]|;
      pending := pending - {src};
      done := done + {src};
    }
    assert EdgesFrom(g, done) == Edges(g);
  }

  /** Taking one more key `k` adds its out-edges, as many as its adjacency set. */
  lemma EdgesFromInsert(g: Graph, ks: set<int>, k: int)
    requires k in g.adjacency && k !in ks
    ensures |EdgesFrom(g, ks + {k})| == |EdgesFrom(g, ks)| + |g.adjacency[k]|
  {
    var fromK := set d | d in g.adjacency[k] :: (k, d);
    assert EdgesFrom(g, ks + {k}) == EdgesFrom(g, ks) + fromK;
    assert EdgesFrom(g, ks) !! fromK;
    PairsCardinality(k, g.adjacency[k]);
  }

  /** The keys in `ks` together with every destination of their edges. */
  ghost function NodesFrom(g: Graph, ks: set<int>): set<int> {
    ks + set s, d | s in ks && s in g.adjacency && d in g.adjacency[s] :: d
  }

  lemma NodesFromInsert(g: Graph, ks: set<int>, k: int)
    requires k in g.adjacency
    ensures NodesFrom(g, ks + {k}) == NodesFrom(g, ks) + {k} + g.adjacency[k]
  {
    forall x | x in NodesFrom(g, ks + {k}) ensures x in NodesFrom(g, ks) + {k} + g.adjacency[k] {
      if x !in ks + {k} {
        var s :| s in ks + {k} && s in g.adjacency && x in g.adjacency[s];
      }
    }
    forall x | x in NodesFrom(g, ks) + {k} + g.adjacency[k] ensures x in NodesFrom(g, ks + {k}) {
      if x in g.adjacency[k] && x !in ks + {k} {
        assert k in ks + {k} && k in g.adjacency && x in g.adjacency[k];
      } else if x !in ks + {k} {
        var s :| s in ks && s in g.adjacency && x in g.adjacency[s];
        assert s in ks + {k};
      }
    }
  }

  /** `A` is no larger than any superset of it. */
  lemma {:induction false} SubsetCardinality(a: set<int>, b: set<int>)
    requires a <= b
    ensures |a| <= |b|
    decreases a
  {
    if a != {} {
      NonEmptyHasElement(a);
      var x :| x in a;
      SubsetCardinality(a - {x}, b - {x});
    }
  }

  /**
    Counts the distinct nodes mentioned by the adjacency: every key and every
    destination. This is at least the number of keys, and can exceed it when
    a destination never became a key.
   */
  method NumberOfNodes(g: Graph) returns (n: nat)
    ensures n == |Nodes(g)|
    ensures n >= |g.adjacency|
  {
    var unique: set<int> := {};
    var pending := g.adjacency.Keys;
    ghost var done: set<int> := {};
    while pending != {}
      invariant pending + done == g.adjacency.Keys && pending !! done
      invariant unique == NodesFrom(g, done)
      decreases pending
    {
      NonEmptyHasElement(pending);
      var src :| src in pending;
      NodesFromInsert(g, done, src);
      unique := unique + {src} + g.adjacency[src];
      pending := pending - {src};
      done := done + {src};
    }
    assert unique == Nodes(g);
    SubsetCardinality(g.adjacency.Keys, unique);
    n := |unique|;
  }

  /**
    Inserts the edges of `es` one by one, in order, with `AddEdge`: the
    sources become keys, the pairs become edges and the destinations become
    edge destinations, and nothing else is added.
   */
  function AddEdges(g: Graph, es: seq<(int, int)>): (g': Graph)
    ensures g'.adjacency.Keys == g.adjacency.Keys + Sources(es)
    ensures Edges(g') == Edges(g) + PairSet(es)
    ensures Targets(g') == Targets(g) + Dests(es)
    decreases |es|
  {
    if |es| == 0 then g
    else
      AddEdgeEdges(g, es[0].0, es[0].1);
      AddEdges(AddEdge(g, es[0].0, es[0].1), es[1..])
  }

  /** The sources of the pairs of `es`. */
  function Sources(es: seq<(int, int)>): set<int>
    decreases |es|
  {
    if |es| == 0 then {} else {es[0].0} + Sources(es[1..])
  }

  /** The destinations of the pairs of `es`. */
  function Dests(es: seq<(int, int)>): set<int>
    decreases |es|
  {
    if |es| == 0 then {} else {es[0].1} + Dests(es[1..])
  }

  /** The distinct pairs of `es`. */
  function PairSet(es: seq<(int, int)>): set<(int, int)>
    decreases |es|
  {
    if |es| == 0 then {} else {es[0]} + PairSet(es[1..])
  }

  /** Every node named by a pair of `es`, as source or as destination. */
  function Mentioned(es: seq<(int, int)>): set<int> {
    Sources(es) + Dests(es)
  }

  /** How many pairs of `es` have `d` as destination, duplicates included. */
  function DestCount(es: seq<(int, int)>, d: int): nat
    decreases |es|
  {
    if |es| == 0 then 0 else (if es[0].1 == d then 1 else 0) + DestCount(es[1..], d)
  }

  /** Each pair of `es` is among its pairs, and its ends among its sources and destinations. */
  lemma {:induction false} PairsListed(es: seq<(int, int)>)
    ensures forall i :: 0 <= i < |es| ==> es[i] in PairSet(es) && es[i].0 in Sources(es) && es[i].1 in Dests(es)
    decreases |es|
  {
    if |es| > 0 {
      PairsListed(es[1..]);
      forall i | 1 <= i < |es|
        ensures es[i] in PairSet(es) && es[i].0 in Sources(es) && es[i].1 in Dests(es)
      {
        assert es[i] == es[1..][i - 1];
      }
    }
  }

  /**
    Gives every node in `nodes` an adjacency entry, empty if it had none, and
    leaves the existing entries and the in-degrees as they are.
   */
  function Close(g: Graph, nodes: set<int>): (g': Graph)
    ensures g'.adjacency.Keys == g.adjacency.Keys + nodes
    ensures forall u :: Successors(g', u) == Successors(g, u)
    ensures g'.inDegree == g.inDegree
  {
    Graph(map u | u in g.adjacency.Keys + nodes :: Successors(g, u), g.inDegree)
  }

  /**
    The loader's graph for an edge list: every accepted pair added with
    `AddEdge`, then every mentioned node made an adjacency key. The keys are
    then exactly the mentioned nodes, so both ends of every pair are keys,
    and the distinct edges are the distinct pairs of the list.
   */
  function FromEdges(es: seq<(int, int)>): (g: Graph)
    ensures g.adjacency.Keys == Mentioned(es)
    ensures forall i :: 0 <= i < |es| ==> es[i].0 in g.adjacency && es[i].1 in g.adjacency
    ensures Edges(g) == PairSet(es)
  {
    EmptyGraph();
    PairsListed(es);
    CloseEdges(AddEdges(New(), es), Mentioned(es));
    Close(AddEdges(New(), es), Mentioned(es))
  }

  /** Loading a list raises each in-degree by the node's count as a destination. */
  lemma {:induction false} AddEdgesInDegree(g: Graph, es: seq<(int, int)>, d: int)
    ensures InDegree(AddEdges(g, es), d) == InDegree(g, d) + DestCount(es, d)
    decreases |es|
  {
    if |es| > 0 {
      AddEdgesInDegree(AddEdge(g, es[0].0, es[0].1), es[1..], d);
    }
  }

  /**
    After loading an edge list the node count equals the number of keys, and
    the in-degree of each node counts its occurrences as a destination,
    duplicates included, although the distinct edges collapse duplicates.
   */
  lemma FromEdgesProperties(es: seq<(int, int)>)
    ensures Nodes(FromEdges(es)) == FromEdges(es).adjacency.Keys
    ensures forall d :: InDegree(FromEdges(es), d) == DestCount(es, d)
  {
    var g := FromEdges(es);
    forall d ensures InDegree(g, d) == DestCount(es, d) {
      AddEdgesInDegree(New(), es, d);
    }
    assert Targets(g) <= g.adjacency.Keys by {
      forall t | t in Targets(g) ensures t in g.adjacency {
        var u :| u in g.adjacency && t in g.adjacency[u];
        assert (u, t) in Edges(g);
      }
    }
  }

  /** The empty graph has no keys, no edges and no destinations. */
  lemma EmptyGraph()
    ensures New().adjacency.Keys == {} && Edges(New()) == {} && Targets(New()) == {}
  {
  }

  /** Closing over extra nodes adds keys but no edges and no destinations. */
  lemma CloseEdges(g: Graph, nodes: set<int>)
    ensures Edges(Close(g, nodes)) == Edges(g)
    ensures Targets(Close(g, nodes)) == Targets(g)
  {
  }
}
