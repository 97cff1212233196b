/** The adjacency-list graph of crates/algorithms/src/graphs.rs:21-91. */
module Graphs {
  import opened Sorting
  import opened Numbers

  datatype Edge = Edge(target: nat, weight: real)

  type Adjacency = map<nat, seq<Edge>>

  function Out(adj: Adjacency, v: nat): seq<Edge> {
    if v in adj then adj[v] else []
  }

  /** Every vertex the graph mentions: a key, or the target of an edge. */
  function Vertices(adj: Adjacency): set<nat> {
    adj.Keys + set u, v | u in adj && v in Targets(adj[u]) :: v
  }

  function Targets(edges: seq<Edge>): set<nat> {
    set i | 0 <= i < |edges| :: edges[i].target
  }

  function PushEdge(adj: Adjacency, v: nat, e: Edge): Adjacency {
    adj[v := Out(adj, v) + [e]]
  }

  function WithNode(adj: Adjacency, v: nat): Adjacency {
    adj[v := Out(adj, v)]
  }

  /** Copies of the edge u -> v of weight w. */
  function Multiplicity(adj: Adjacency, u: nat, v: nat, w: real): nat {
    multiset(Out(adj, u))[Edge(v, w)]
  }

  /** `t` has exactly the edges of `adj` reversed, copy for copy, and a key for
      every vertex of `adj`. */
  ghost predicate Transposed(adj: Adjacency, t: Adjacency) {
    && t.Keys == Vertices(adj)
    && forall u, v, w :: Multiplicity(t, v, u, w) == Multiplicity(adj, u, v, w)
  }

  ghost predicate Symmetric(adj: Adjacency) {
    forall u, v, w :: Multiplicity(adj, u, v, w) == Multiplicity(adj, v, u, w)
  }

  class Graph {
    var adjacency: Adjacency
    var nodeCount: nat
    const directed: bool

    constructor (directed: bool)
      ensures adjacency == map[] && nodeCount == 0 && this.directed == directed
    {
      adjacency := map[];
      nodeCount := 0;
      this.directed := directed;
    }

    method AddEdge(from: nat, to: nat, weight: real)
      modifies this
      ensures adjacency ==
              var forward := PushEdge(old(adjacency), from, Edge(to, weight));
              if directed then forward else PushEdge(forward, to, Edge(from, weight))
      ensures adjacency.Keys == old(adjacency).Keys + if directed then {from} else {from, to}
      ensures forall v :: v in adjacency ==>
                adjacency[v] == (if v in old(adjacency) then old(adjacency)[v] else [])
                                + (if v == from then [Edge(to, weight)] else [])
                                + if v == to && !directed then [Edge(from, weight)] else []
      ensures nodeCount >= old(nodeCount) && nodeCount > from && nodeCount > to
      ensures nodeCount == old(nodeCount) || nodeCount == from + 1 || nodeCount == to + 1
    {
      nodeCount := Max(Max(nodeCount, from + 1), to + 1);
      adjacency := PushEdge(adjacency, from, Edge(to, weight));
      if !directed {
        adjacency := PushEdge(adjacency, to, Edge(from, weight));
      }
    }

    method AddNode(node: nat)
      modifies this
      ensures adjacency == WithNode(old(adjacency), node)
      ensures adjacency.Keys == old(adjacency).Keys + {node}
      ensures forall v :: v in adjacency ==>
                adjacency[v] == if v in old(adjacency) then old(adjacency)[v] else []
      ensures nodeCount == if old(nodeCount) <= node then node + 1 else old(nodeCount)
    {
      nodeCount := Max(nodeCount, node + 1);
      adjacency := WithNode(adjacency, node);
    }

    function Neighbors(node: nat): (r: seq<Edge>)
      reads this
      ensures r == if node in adjacency then adjacency[node] else []
      ensures forall e :: e in r ==> e.target in Vertices(adjacency)
    {
      assert Targets(Out(adjacency, node)) <= Vertices(adjacency);
      Out(adjacency, node)
    }

    /** The adjacency keys, sorted. */
    method Nodes() returns (nodes: seq<nat>)
      ensures StrictlyAscending(nodes) && Elems(nodes) == adjacency.Keys
    {
      nodes := SortedKeys(adjacency.Keys);
    }

    method Transpose() returns (transposed: Graph)
      ensures fresh(transposed)
      ensures Transposed(adjacency, transposed.adjacency)
    {
      hide Transposed, PushEdge, WithNode;
      transposed := new Graph(true);
      var rest := adjacency.Keys;
      assert Without(adjacency, rest) == map[];
      EmptyTransposed();
      while rest != {}
        invariant rest <= adjacency.Keys
        invariant fresh(transposed) && transposed.directed
        invariant adjacency == old(adjacency)
        invariant Transposed(Without(adjacency, rest), transposed.adjacency)
        decreases rest
      {
        var node :| node in rest;
        var edges := adjacency[node];
        ghost var before := Without(adjacency, rest);
        transposed.AddNode(node);
        WithNodeTransposed(before, transposed.adjacency, node);
        var i := 0;
        assert edges[..0] == [];
        while i < |edges|
          invariant 0 <= i <= |edges|
          invariant fresh(transposed) && transposed.directed
          invariant adjacency == old(adjacency)
          invariant Transposed(before[node := edges[..i]], transposed.adjacency)
        {
          ghost var was := transposed.adjacency;
          transposed.AddEdge(edges[i].target, node, edges[i].weight);
          PushTransposed(before[node := edges[..i]], was, node, edges[i]);
          ExtendRow(before, node, edges, i);
          i := i + 1;
        }
        rest := rest - {node};
        assert edges[..i] == edges;
        assert before[node := edges] == Without(adjacency, rest);
      }
      assert Without(adjacency, rest) == adjacency;
    }
  }

  /** The part of the adjacency whose source is not in `rest`. */
  ghost function Without(adj: Adjacency, rest: set<nat>): Adjacency {
    map v | v in adj && v !in rest :: adj[v]
  }

  lemma EmptyTransposed()
    ensures Transposed(map[], map[])
  {
  }

  lemma ExtendRow(adj: Adjacency, v: nat, edges: seq<Edge>, i: nat)
    requires i < |edges|
    ensures PushEdge(adj[v := edges[..i]], v, edges[i]) == adj[v := edges[..i + 1]]
  {
    assert edges[..i] + [edges[i]] == edges[..i + 1];
  }

  lemma WithNodeTransposed(adj: Adjacency, t: Adjacency, v: nat)
    requires v !in adj && (exists was :: Transposed(adj, was) && t == WithNode(was, v))
    ensures Transposed(adj[v := []], t)
  {
    var was :| Transposed(adj, was) && t == WithNode(was, v);
    var adj' := adj[v := []];
    forall x ensures x in Vertices(adj') <==> x in Vertices(adj) || x == v {
      VertexCases(adj, x);
      VertexCases(adj', x);
      assert forall u :: u in adj ==> Targets(adj'[u]) == Targets(adj[u]);
    }
    assert t.Keys == was.Keys + {v};
    forall a, b, w ensures Multiplicity(t, b, a, w) == Multiplicity(adj', a, b, w) {
      assert Out(t, b) == Out(was, b);
      assert Out(adj', a) == Out(adj, a);
      assert Multiplicity(was, b, a, w) == Multiplicity(adj, a, b, w);
    }
  }

  lemma VertexCases(adj: Adjacency, x: nat)
    ensures x in Vertices(adj) <==> x in adj || exists u :: u in adj && x in Targets(adj[u])
  {
  }

  lemma PushTargets(edges: seq<Edge>, e: Edge)
    ensures Targets(edges + [e]) == Targets(edges) + {e.target}
  {
    var more := edges + [e];
    assert more[|edges|] == e;
    assert forall i :: 0 <= i < |edges| ==> more[i] == edges[i];
  }

  lemma PushMultiplicity(adj: Adjacency, v: nat, e: Edge, a: nat, b: nat, w: real)
    ensures Multiplicity(PushEdge(adj, v, e), a, b, w) ==
            Multiplicity(adj, a, b, w) + if a == v && e == Edge(b, w) then 1 else 0
  {
  }

  lemma PushTransposed(adj: Adjacency, t: Adjacency, v: nat, e: Edge)
    requires Transposed(adj, t) && v in adj
    ensures Transposed(PushEdge(adj, v, e), PushEdge(t, e.target, Edge(v, e.weight)))
  {
    var adj', t' := PushEdge(adj, v, e), PushEdge(t, e.target, Edge(v, e.weight));
    forall x ensures x in Vertices(adj') <==> x in Vertices(adj) || x == e.target {
      VertexCases(adj, x);
      VertexCases(adj', x);
      PushTargets(adj[v], e);
      forall u | u in adj ensures Targets(adj[u]) <= Targets(adj'[u]) <= Targets(adj[u]) + {e.target} {}
      assert e.target in Targets(adj'[v]);
    }
    forall a, b, w ensures Multiplicity(t', b, a, w) == Multiplicity(adj', a, b, w) {
      assert Multiplicity(t, b, a, w) == Multiplicity(adj, a, b, w);
      PushMultiplicity(adj, v, e, a, b, w);
      PushMultiplicity(t, e.target, Edge(v, e.weight), b, a, w);
    }
  }

  /** Adding an edge to an undirected graph keeps it undirected. */
  lemma UndirectedEdgeSymmetric(adj: Adjacency, from: nat, to: nat, weight: real)
    requires Symmetric(adj)
    ensures Symmetric(PushEdge(PushEdge(adj, from, Edge(to, weight)), to, Edge(from, weight)))
  {
    var mid := PushEdge(adj, from, Edge(to, weight));
    var fin := PushEdge(mid, to, Edge(from, weight));
    forall u, v, w ensures Multiplicity(fin, u, v, w) == Multiplicity(fin, v, u, w) {
      assert Multiplicity(adj, u, v, w) == Multiplicity(adj, v, u, w);
      PushMultiplicity(adj, from, Edge(to, weight), u, v, w);
      PushMultiplicity(adj, from, Edge(to, weight), v, u, w);
      PushMultiplicity(mid, to, Edge(from, weight), u, v, w);
      PushMultiplicity(mid, to, Edge(from, weight), v, u, w);
    }
  }
}
