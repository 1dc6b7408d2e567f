/** The network the presenters read and mutate: sites, lines, and the set of
    lines currently attached. The electrical model behind `reset!` is a
    function from the attached set to a loss, supplied by the caller. */
module Grid {

  type NodeId = nat

  /** A site: its id, planar position and load demand. */
  datatype Node = Node(id: NodeId, x: real, y: real, load: real)

  /** A line between two sites, named by their ids, with its length. */
  datatype Edge = Edge(id: int, from: NodeId, to: NodeId, length: real)

  /** The transmission-loss computation run by `reset!`. */
  type LossModel = set<Edge> -> real

  /** The live network: the attached lines and the loss computed by the
      last `reset!`. */
  datatype Network = Network(active: set<Edge>, loss: real)

  /** `e.nodes.map(&:id).sort`: the endpoint ids with the lower one first,
      so that a line and its reverse share a key. */
  function PairKey(e: Edge): (r: (NodeId, NodeId))
    ensures r.0 <= r.1
    ensures (r.0 == e.from && r.1 == e.to) || (r.0 == e.to && r.1 == e.from)
  {
    if e.from <= e.to then (e.from, e.to) else (e.to, e.from)
  }

  /** The lines of a list, as a set. */
  function Elems(cs: seq<Edge>): set<Edge> {
    set e | e in cs
  }

  /** `cs.each(&:attach!)`: attaching is idempotent, one line at a time. */
  function AttachAll(active: set<Edge>, cs: seq<Edge>): (r: set<Edge>)
    ensures r == active + Elems(cs)
    decreases |cs|
  {
    if |cs| == 0 then active
    else
      assert Elems(cs) == {cs[0]} + Elems(cs[1..]) by {
        assert forall e :: e in cs <==> e == cs[0] || e in cs[1..];
      }
      AttachAll(active + {cs[0]}, cs[1..])
  }

  /** `cs.each(&:detach!)`: detaching a detached line does nothing. */
  function DetachAll(active: set<Edge>, cs: seq<Edge>): (r: set<Edge>)
    ensures r == active - Elems(cs)
    decreases |cs|
  {
    if |cs| == 0 then active
    else
      assert Elems(cs) == {cs[0]} + Elems(cs[1..]) by {
        assert forall e :: e in cs <==> e == cs[0] || e in cs[1..];
      }
      DetachAll(active - {cs[0]}, cs[1..])
  }

  /** Attaching a list of lines and detaching them again restores the
      attached set exactly when none of them was attached before. */
  lemma AttachDetachRoundTrip(active: set<Edge>, cs: seq<Edge>)
    ensures DetachAll(AttachAll(active, cs), cs) == active <==> active !! Elems(cs)
  {
    if !(active !! Elems(cs)) {
      var e :| e in active && e in Elems(cs);
      assert e !in DetachAll(AttachAll(active, cs), cs);
    }
  }

  /** `reset!`: recompute the loss from the lines now attached. */
  function Reset(net: Network, lossOf: LossModel): (r: Network)
    ensures r.active == net.active
    ensures r.loss == lossOf(r.active)
  {
    Network(net.active, lossOf(net.active))
  }
}
