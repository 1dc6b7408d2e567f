/** Grid construction bookkeeping of `Overall#mst_grid`: numbering the sites,
    proposing one candidate line per pair of sites, and renumbering the lines
    that the spanning-tree step left on the sites. Site positions come from a
    pseudo-random stream, distances and the spanning-tree step itself are
    supplied by the caller. */
module Overall {
  import opened RubyArray
  import opened Combination
  import opened Grid

  /** The generator's settings: how many sites, the cluster size used for
      placing generators, and the load every site draws. */
  datatype Config = Config(number: int, groupBy: int, load: real)

  /** The sites and the renumbered lines of a freshly built grid. */
  datatype Built = Built(nodes: seq<Node>, edges: seq<Edge>)

  /** `@number.times.map`: site i is placed with the 2i-th and (2i+1)-th
      draws of the generator and given id i and the configured load. */
  function MakeNodes(cfg: Config, range: (real, real), rand: nat -> real): (r: seq<Node>)
    ensures |r| == if cfg.number < 0 then 0 else cfg.number
    ensures forall i :: 0 <= i < |r| ==> r[i].id == i && r[i].load == cfg.load
  {
    var n := if cfg.number < 0 then 0 else cfg.number;
    seq(n, i requires 0 <= i < n =>
      Node(i, range.0 * rand(2 * i), range.1 * rand(2 * i + 1), cfg.load))
  }

  /** The line built from the i-th pair of sites. */
  function PairEdge(p: seq<Node>, i: nat, distance: (Node, Node) -> real): Edge
    requires |p| == 2
  {
    Edge(i, p[0].id, p[1].id, distance(p[0], p[1]))
  }

  /** `nodes.combination(2)` mapped with its index to new lines. */
  function CandidateEdges(nodes: seq<Node>, distance: (Node, Node) -> real): (r: seq<Edge>)
    ensures |r| == Binom(|nodes|, 2)
    ensures forall k :: 0 <= k < |r| ==> r[k].id == k
  {
    var pairs := Combinations(nodes, 2);
    assert forall k :: 0 <= k < |pairs| ==> |pairs[k]| == 2 by {
      forall k | 0 <= k < |pairs| ensures |pairs[k]| == 2 {
        CombinationsSound(nodes, 2, pairs[k]);
      }
    }
    seq(|pairs|, k requires 0 <= k < |pairs| => PairEdge(pairs[k], k, distance))
  }

  /** Sites whose ids are their positions in the list. */
  predicate NumberedInOrder(nodes: seq<Node>) {
    forall i :: 0 <= i < |nodes| ==> nodes[i].id == i
  }

  /** Some line of `es` runs from site `i` to site `j`. */
  predicate HasLine(es: seq<Edge>, i: nat, j: nat) {
    exists k :: 0 <= k < |es| && es[k].from == i && es[k].to == j
  }

  /** The k-th candidate line is built from the k-th pair of sites. */
  lemma CandidateEdgeFromPair(nodes: seq<Node>, distance: (Node, Node) -> real, k: nat)
    requires k < |CandidateEdges(nodes, distance)|
    ensures var p := Combinations(nodes, 2)[k];
      && |p| == 2 && IsSubseq(p, nodes)
      && CandidateEdges(nodes, distance)[k] == PairEdge(p, k, distance)
  {
    CombinationsSound(nodes, 2, Combinations(nodes, 2)[k]);
  }

  /** Every candidate line joins two sites, the lower id first. */
  lemma CandidateEdgesAscending(nodes: seq<Node>, distance: (Node, Node) -> real, k: nat)
    requires NumberedInOrder(nodes)
    requires k < |CandidateEdges(nodes, distance)|
    ensures var e := CandidateEdges(nodes, distance)[k]; e.from < e.to < |nodes|
  {
    var p := Combinations(nodes, 2)[k];
    CandidateEdgeFromPair(nodes, distance, k);
    SubseqIncreasing(p, nodes, (v: Node) => v.id as int);
    SubseqElements(p, nodes);
    assert p[1] in nodes;
  }

  /** Every pair of distinct sites has a candidate line. */
  lemma CandidateEdgesCover(nodes: seq<Node>, distance: (Node, Node) -> real, i: nat, j: nat)
    requires NumberedInOrder(nodes)
    requires i < j < |nodes|
    ensures HasLine(CandidateEdges(nodes, distance), i, j)
  {
    var pairs := Combinations(nodes, 2);
    SubseqPair(nodes, i, j);
    CombinationsComplete(nodes, [nodes[i], nodes[j]]);
    var k :| 0 <= k < |pairs| && pairs[k] == [nodes[i], nodes[j]];
    CandidateEdgeFromPair(nodes, distance, k);
    assert CandidateEdges(nodes, distance)[k].from == i;
  }

  /** No two candidate lines join the same pair of sites. */
  lemma CandidateEdgesNoRepeat(nodes: seq<Node>, distance: (Node, Node) -> real, k: nat, l: nat)
    requires NumberedInOrder(nodes)
    requires k < l < |CandidateEdges(nodes, distance)|
    ensures var es := CandidateEdges(nodes, distance);
      es[k].from != es[l].from || es[k].to != es[l].to
  {
    var es := CandidateEdges(nodes, distance);
    var pairs := Combinations(nodes, 2);
    assert Distinct(nodes);
    CombinationsDistinct(nodes, 2);
    CandidateEdgeFromPair(nodes, distance, k);
    CandidateEdgeFromPair(nodes, distance, l);
    var p, q := pairs[k], pairs[l];
    SubseqElements(p, nodes);
    SubseqElements(q, nodes);
    assert p != q;
    assert p[0] != q[0] || p[1] != q[1] by {
      assert p == [p[0], p[1]] && q == [q[0], q[1]];
    }
    assert p[0] in nodes && q[0] in nodes && p[1] in nodes && q[1] in nodes;
    assert p[0] == nodes[p[0].id] && q[0] == nodes[q[0].id];
    assert p[1] == nodes[p[1].id] && q[1] == nodes[q[1].id];
  }

  /** With sites numbered 0..n-1, the candidate lines join every pair of
      distinct sites exactly once, lower id first: n(n-1)/2 lines, the k-th
      with id k. */
  lemma CandidateEdgesAllPairsOnce(nodes: seq<Node>, distance: (Node, Node) -> real)
    requires NumberedInOrder(nodes)
    ensures var es := CandidateEdges(nodes, distance);
      && |es| == |nodes| * (|nodes| - 1) / 2
      && (forall k :: 0 <= k < |es| ==> es[k].id == k && es[k].from < es[k].to < |nodes|)
      && (forall i: nat, j: nat :: i < j < |nodes| ==> HasLine(es, i, j))
      && (forall k, l :: 0 <= k < l < |es| ==> es[k].from != es[l].from || es[k].to != es[l].to)
  {
    var es := CandidateEdges(nodes, distance);
    BinomTwo(|nodes|);
    forall k | 0 <= k < |es| ensures es[k].from < es[k].to < |nodes| {
      CandidateEdgesAscending(nodes, distance, k);
    }
    forall i: nat, j: nat | i < j < |nodes| ensures HasLine(es, i, j) {
      CandidateEdgesCover(nodes, distance, i, j);
    }
    forall k, l | 0 <= k < l < |es| ensures es[k].from != es[l].from || es[k].to != es[l].to {
      CandidateEdgesNoRepeat(nodes, distance, k, l);
    }
  }

  /** `e` is on the list of some site. */
  predicate OnSomeList(adjacency: seq<seq<Edge>>, e: Edge) {
    exists i :: 0 <= i < |adjacency| && e in adjacency[i]
  }

  /** `nodes.map(&:edges).flatten.uniq`: every line on any site's list, once,
      in the order first met. */
  function GridEdges(adjacency: seq<seq<Edge>>): (r: seq<Edge>)
    ensures Distinct(r)
    ensures forall e :: e in r <==> exists i :: 0 <= i < |adjacency| && e in adjacency[i]
  {
    Uniq(Flatten(adjacency))
  }

  /** `edges.each.with_index { |e, i| e.id = i }`: only the ids change. */
  function Renumber(es: seq<Edge>): (r: seq<Edge>)
    ensures |r| == |es|
    ensures forall i :: 0 <= i < |r| ==>
      r[i].id == i && r[i].from == es[i].from && r[i].to == es[i].to && r[i].length == es[i].length
  {
    seq(|es|, i requires 0 <= i < |es| => es[i].(id := i))
  }

  /** `mst_grid`, given the generator draws, the distance between two sites
      and the spanning-tree step (which leaves each site's list of lines). */
  function MstGrid(cfg: Config, range: (real, real), rand: nat -> real,
                   distance: (Node, Node) -> real,
                   kruskal: (seq<Node>, seq<Edge>) -> seq<seq<Edge>>): (g: Built)
    ensures |g.nodes| == if cfg.number < 0 then 0 else cfg.number
    ensures forall i :: 0 <= i < |g.nodes| ==> g.nodes[i].id == i && g.nodes[i].load == cfg.load
    ensures forall i :: 0 <= i < |g.edges| ==> g.edges[i].id == i
    ensures |g.edges| == |LinesOnLists(kruskal(g.nodes, CandidateEdges(g.nodes, distance)))|
    ensures var adjacency := kruskal(g.nodes, CandidateEdges(g.nodes, distance));
      && (forall e :: OnSomeList(adjacency, e) ==>
            exists k :: 0 <= k < |g.edges| && g.edges[k] == e.(id := k))
      && (forall k :: 0 <= k < |g.edges| ==>
            exists i, e :: 0 <= i < |adjacency| && e in adjacency[i] && g.edges[k] == e.(id := k))
  {
    var nodes := MakeNodes(cfg, range, rand);
    var adjacency := kruskal(nodes, CandidateEdges(nodes, distance));
    RenumberedLinesOnceEach(adjacency);
    GridEdgesCount(adjacency);
    Built(nodes, Renumber(GridEdges(adjacency)))
  }

  /** Every line on some site's list, as a set. */
  function LinesOnLists(adjacency: seq<seq<Edge>>): set<Edge> {
    set i, e | 0 <= i < |adjacency| && e in adjacency[i] :: e
  }

  /** The uniqued list holds each line on the sites' lists exactly once. */
  lemma GridEdgesCount(adjacency: seq<seq<Edge>>)
    ensures |GridEdges(adjacency)| == |LinesOnLists(adjacency)|
  {
    var u := GridEdges(adjacency);
    assert (set x | x in u) == LinesOnLists(adjacency);
    DistinctCard(u);
  }

  /** After renumbering, the grid holds each line that the spanning-tree
      step left on some site exactly once, with ids 0..k-1 in list order. */
  lemma RenumberedLinesOnceEach(adjacency: seq<seq<Edge>>)
    ensures var u := GridEdges(adjacency); var r := Renumber(u);
      && Distinct(u)
      && (forall k :: 0 <= k < |r| ==> r[k].id == k)
      && (forall e :: OnSomeList(adjacency, e) ==>
            exists k :: 0 <= k < |r| && r[k] == e.(id := k))
      && (forall k :: 0 <= k < |r| ==>
            exists i, e :: 0 <= i < |adjacency| && e in adjacency[i] && r[k] == e.(id := k))
  {
    var u := GridEdges(adjacency);
    var r := Renumber(u);
    forall e | OnSomeList(adjacency, e)
      ensures exists k :: 0 <= k < |r| && r[k] == e.(id := k)
    {
      assert e in u;
      var k :| 0 <= k < |u| && u[k] == e;
      assert r[k] == e.(id := k);
    }
    forall k | 0 <= k < |r|
      ensures exists i, e :: 0 <= i < |adjacency| && e in adjacency[i] && r[k] == e.(id := k)
    {
      assert u[k] in u;
    }
  }
}
