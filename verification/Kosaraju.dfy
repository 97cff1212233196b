/** Kosaraju's strongly connected components, crates/algorithms/src/graphs.rs:235-290,
    and its agreement with Tarjan's. */
module Kosaraju {
  import opened Sorting
  import opened Graphs
  import opened Walks
  import Tarjan

  // --- first pass: finishing order. `gray` is the set of calls in progress.

  /** `order[k]` is in the component of `u`, and everything `u` reaches
      finished no later than it. */
  ghost predicate LastOf(adj: Adjacency, order: seq<nat>, u: nat, k: nat) {
    && k < |order|
    && Mutual(adj, u, order[k])
    && forall v :: Reaches(adj, u, v) ==> v in order[..k + 1]
  }

  ghost predicate Settled(adj: Adjacency, gray: set<nat>, order: seq<nat>, u: nat) {
    (exists g :: g in gray && Mutual(adj, u, g)) || (exists k :: LastOf(adj, order, u, k))
  }

  ghost predicate FinishInv(adj: Adjacency, gray: set<nat>, visited: set<nat>, order: seq<nat>) {
    && Distinct(order)
    && gray !! Elems(order)
    && visited == gray + Elems(order)
    && visited <= Vertices(adj)
    && (forall v, e :: v in Elems(order) && e in Out(adj, v) ==> e.target in visited)
    && (forall u :: u in Elems(order) ==> Settled(adj, gray, order, u))
  }

  lemma EnterInv(adj: Adjacency, gray: set<nat>, visited: set<nat>, order: seq<nat>, node: nat)
    requires FinishInv(adj, gray, visited, order) && node in Vertices(adj) && node !in visited
    ensures FinishInv(adj, gray + {node}, visited + {node}, order)
  {
    hide Mutual, LastOf;
    forall u | u in Elems(order) ensures Settled(adj, gray + {node}, order, u) {
      assert Settled(adj, gray, order, u);
      if g :| g in gray && Mutual(adj, u, g) {
        assert g in gray + {node} && Mutual(adj, u, g);
      }
    }
  }

  /** When `node` finishes, either its component has another call in progress
      or all it reaches has finished. */
  lemma NodeSettled(adj: Adjacency, gray: set<nat>, visited: set<nat>, order: seq<nat>, node: nat)
    requires FinishInv(adj, gray + {node}, visited, order) && node !in gray
    requires forall g :: g in gray ==> Reaches(adj, g, node)
    requires forall e :: e in Out(adj, node) ==> e.target in visited
    ensures Settled(adj, gray, order + [node], node)
  {
    hide Reaches, Distinct;
    var order' := order + [node];
    ReachesRefl(adj, node);
    ElemsAppend(order, node);
    if !exists g :: g in gray && Mutual(adj, node, g) {
      forall v | Reaches(adj, node, v) ensures v in order'[..|order| + 1] {
        assert order'[..|order| + 1] == order';
        if v !in Elems(order') {
          var a, e := ExitEdge(adj, Elems(order'), node, v);
          assert e.target in gray;
          ReachesEdge(adj, a, e);
          ReachesTrans(adj, node, a, e.target);
        }
      }
      assert LastOf(adj, order', node, |order|);
    }
  }

  lemma LastOfGrows(adj: Adjacency, order: seq<nat>, node: nat, u: nat, k: nat)
    requires LastOf(adj, order, u, k)
    ensures LastOf(adj, order + [node], u, k)
  {
    hide Reaches;
    assert (order + [node])[..k + 1] == order[..k + 1];
  }

  lemma LastOfMutual(adj: Adjacency, order: seq<nat>, u: nat, v: nat, k: nat)
    requires LastOf(adj, order, v, k) && Mutual(adj, u, v)
    ensures LastOf(adj, order, u, k)
  {
    hide Reaches;
    MutualSymmetricTransitive(adj, u, v, order[k]);
    forall w | Reaches(adj, u, w) ensures Reaches(adj, v, w) {
      ReachesTrans(adj, v, u, w);
    }
  }

  lemma LeaveInv(adj: Adjacency, gray: set<nat>, visited: set<nat>, order: seq<nat>, node: nat)
    requires FinishInv(adj, gray + {node}, visited, order) && node !in gray
    requires forall g :: g in gray ==> Reaches(adj, g, node)
    requires forall e :: e in Out(adj, node) ==> e.target in visited
    ensures FinishInv(adj, gray, visited, order + [node])
  {
    NodeSettled(adj, gray, visited, order, node);
    hide Mutual, LastOf, Reaches;
    var order' := order + [node];
    ElemsAppend(order, node);
    forall u | u in Elems(order') ensures Settled(adj, gray, order', u) {
      if u != node {
        LeaveSettled(adj, gray, order, node, u);
      }
    }
  }

  lemma LeaveSettled(adj: Adjacency, gray: set<nat>, order: seq<nat>, node: nat, u: nat)
    requires Settled(adj, gray + {node}, order, u)
    requires Settled(adj, gray, order + [node], node)
    ensures Settled(adj, gray, order + [node], u)
  {
    hide Mutual, LastOf;
    var order' := order + [node];
    if k :| LastOf(adj, order, u, k) {
      LastOfGrows(adj, order, node, u, k);
    } else {
      var g :| g in gray + {node} && Mutual(adj, u, g);
      if g == node {
        if h :| h in gray && Mutual(adj, node, h) {
          MutualSymmetricTransitive(adj, u, node, h);
          assert Mutual(adj, u, h);
        } else {
          var k :| LastOf(adj, order', node, k);
          LastOfMutual(adj, order', u, node, k);
        }
      }
    }
  }

  method Dfs1(graph: Graph, node: nat, visited: set<nat>, order: seq<nat>, ghost gray: set<nat>)
      returns (visited': set<nat>, order': seq<nat>)
    requires FinishInv(graph.adjacency, gray, visited, order) && node in Vertices(graph.adjacency)
    requires forall g :: g in gray ==> Reaches(graph.adjacency, g, node)
    ensures FinishInv(graph.adjacency, gray, visited', order')
    ensures visited + {node} <= visited' && order <= order'
    decreases Vertices(graph.adjacency) - visited
  {
    hide FinishInv, Reaches;
    ghost var adj := graph.adjacency;
    visited', order' := visited, order;
    if node in visited' {
      return;
    }
    EnterInv(adj, gray, visited, order, node);
    visited' := visited' + {node};
    var neighbors := graph.Neighbors(node);
    var i := 0;
    while i < |neighbors|
      invariant 0 <= i <= |neighbors|
      invariant FinishInv(adj, gray + {node}, visited', order')
      invariant visited + {node} <= visited' && order <= order'
      invariant forall k :: 0 <= k < i ==> neighbors[k].target in visited'
    {
      var e := neighbors[i];
      forall g | g in gray + {node} ensures Reaches(adj, g, e.target) {
        ReachesEdge(adj, node, e);
        if g != node {
          ReachesTrans(adj, g, node, e.target);
        }
      }
      assert Vertices(adj) - visited' < Vertices(adj) - visited by {
        assert node in Vertices(adj) - visited;
      }
      visited', order' := Dfs1(graph, e.target, visited', order', gray + {node});
      i := i + 1;
    }
    assert node !in gray by {
      FinishVisited(adj, gray, visited, order);
    }
    LeaveInv(adj, gray, visited', order', node);
    order' := order' + [node];
  }

  lemma FinishVisited(adj: Adjacency, gray: set<nat>, visited: set<nat>, order: seq<nat>)
    requires FinishInv(adj, gray, visited, order)
    ensures visited == gray + Elems(order)
  {
  }

  /** The finishing order of the whole graph: every vertex once, and each
      component has a member that finished after all the component reaches. */
  ghost predicate FinishOrder(adj: Adjacency, order: seq<nat>) {
    && Distinct(order)
    && Elems(order) == Vertices(adj)
    && forall u :: u in Elems(order) ==> exists k :: LastOf(adj, order, u, k)
  }

  lemma AllFinished(adj: Adjacency, visited: set<nat>, order: seq<nat>)
    requires FinishInv(adj, {}, visited, order) && adj.Keys <= visited
    ensures FinishOrder(adj, order)
  {
    hide Mutual, LastOf, Distinct;
    forall v | v in Vertices(adj) ensures v in visited {
      if v !in adj {
        VertexCases(adj, v);
        var u :| u in adj && v in Targets(adj[u]);
        var i :| 0 <= i < |adj[u]| && adj[u][i].target == v;
        assert adj[u][i] in Out(adj, u);
      }
    }
    forall u | u in Elems(order) ensures exists k :: LastOf(adj, order, u, k) {
      assert Settled(adj, {}, order, u);
    }
  }

  // --- second pass: components of the transposed graph

  /** What a call of `dfs2` on `node` adds: vertices `node` reaches, all of
      whose neighbours are taken. */
  ghost predicate Gathered(t: Adjacency, node: nat, taken: set<nat>, component: seq<nat>,
                           taken': set<nat>, component': seq<nat>) {
    && taken <= taken' <= Vertices(t)
    && Distinct(component')
    && Elems(component') - Elems(component) == taken' - taken
    && Elems(component) <= Elems(component') <= taken'
    && (forall v :: v in taken' && v !in taken ==> Reaches(t, node, v))
  }

  ghost predicate ClosedBut(t: Adjacency, taken: set<nat>, taken': set<nat>, node: nat) {
    forall v, e :: v in taken' && v !in taken && v != node && e in Out(t, v) ==> e.target in taken'
  }

  lemma GatherCall(t: Adjacency, node: nat, e: Edge, a0: set<nat>, c0: seq<nat>, a1: set<nat>, c1: seq<nat>,
                   a2: set<nat>, c2: seq<nat>)
    requires e in Out(t, node)
    requires Gathered(t, node, a0, c0, a1, c1) && Gathered(t, e.target, a1, c1, a2, c2)
    ensures Gathered(t, node, a0, c0, a2, c2)
  {
    hide Reaches, Distinct;
    assert Elems(c2) - Elems(c0) == (Elems(c2) - Elems(c1)) + (Elems(c1) - Elems(c0));
    forall v | v in a2 && v !in a0 ensures Reaches(t, node, v) {
      if v !in a1 {
        ReachesEdge(t, node, e);
        ReachesTrans(t, node, e.target, v);
      }
    }
  }

  method Dfs2(graph: Graph, node: nat, taken: set<nat>, component: seq<nat>)
      returns (taken': set<nat>, component': seq<nat>)
    requires node in Vertices(graph.adjacency) && taken <= Vertices(graph.adjacency)
    requires Distinct(component) && Elems(component) <= taken
    ensures Gathered(graph.adjacency, node, taken, component, taken', component')
    ensures node in taken'
    ensures forall v, e :: v in taken' && v !in taken && e in Out(graph.adjacency, v) ==> e.target in taken'
    decreases Vertices(graph.adjacency) - taken
  {
    hide Reaches;
    ghost var t := graph.adjacency;
    taken', component' := taken, component;
    if node in taken' {
      return;
    }
    taken' := taken' + {node};
    component' := component' + [node];
    ElemsAppend(component, node);
    ReachesRefl(t, node);
    VerticesClosed(t);
    var neighbors := graph.Neighbors(node);
    var i := 0;
    while i < |neighbors|
      invariant 0 <= i <= |neighbors|
      invariant Gathered(t, node, taken, component, taken', component')
      invariant ClosedBut(t, taken, taken', node)
      invariant node in taken'
      invariant forall k :: 0 <= k < i ==> neighbors[k].target in taken'
    {
      ghost var a1, c1 := taken', component';
      assert node in Vertices(t) - taken;
      taken', component' := Dfs2(graph, neighbors[i].target, taken', component');
      GatherCall(t, node, neighbors[i], taken, component, a1, c1, taken', component');
      i := i + 1;
    }
    forall e | e in Out(t, node) ensures e.target in taken' {}
  }

  lemma RootIsLast(adj: Adjacency, t: Adjacency, order: seq<nat>, taken: set<nat>, i: nat, v: nat)
    requires Transposed(adj, t) && FinishOrder(adj, order)
    requires Closed(t, taken) && i < |order| && order[i] !in taken
    requires Elems(order[i + 1..]) <= taken
    requires v in Vertices(adj) && v !in taken && Reaches(adj, v, order[i])
    ensures Mutual(adj, v, order[i])
  {
    hide Reaches, Transposed;
    var k: nat :| LastOf(adj, order, v, k);
    assert order[i] in order[..k + 1];
    var m: nat :| 0 <= m < k + 1 && order[..k + 1][m] == order[i];
    assert m == i;
    if order[k] in taken {
      hide LastOf;
      ReachesTransposed(adj, t, v, order[k]);
      ClosedReaches(t, taken, order[k], v);
    }
  }

  lemma GatheredFresh(t: Adjacency, node: nat, taken: set<nat>, taken': set<nat>, component: seq<nat>)
    requires Gathered(t, node, taken, [], taken', component)
    ensures Elems(component) == taken' - taken
    ensures Distinct(component) && taken <= taken' <= Vertices(t)
  {
    ElemsNonempty<nat>([]);
    assert Elems(component) - {} == Elems(component);
  }

  lemma ComponentGathered(adj: Adjacency, t: Adjacency, order: seq<nat>, taken: set<nat>, i: nat,
                          taken': set<nat>, component: seq<nat>)
    requires Transposed(adj, t) && FinishOrder(adj, order)
    requires Closed(t, taken) && i < |order| && order[i] !in taken
    requires Elems(order[i + 1..]) <= taken
    requires Gathered(t, order[i], taken, [], taken', component) && order[i] in taken'
    requires forall v, e :: v in taken' && v !in taken && e in Out(t, v) ==> e.target in taken'
    ensures IsComponent(adj, Elems(component))
    ensures Closed(t, taken') && taken' == taken + Elems(component) && taken !! Elems(component)
  {
    hide Reaches, Transposed, FinishOrder, Mutual;
    var r, c := order[i], Elems(component);
    assert c == taken' - taken by {
      GatheredFresh(t, r, taken, taken', component);
    }
    assert r in c;
    assert Closed(t, taken');
    assert Vertices(t) == Vertices(adj) by { TransposedVertices(adj, t); }
    forall v ensures v in c <==> Mutual(adj, r, v) {
      if v in c {
        ReachesTransposed(adj, t, v, r);
        RootIsLast(adj, t, order, taken, i, v);
        MutualSymmetric(adj, v, r);
      } else if Mutual(adj, r, v) {
        MutualBoth(adj, t, r, v);
        ClosedReaches(t, taken', r, v);
        ClosedReaches(t, taken, v, r);
      }
    }
    forall u, v | u in c ensures v in c <==> Mutual(adj, u, v) {
      assert Mutual(adj, r, u);
      MutualSymmetric(adj, r, u);
      if Mutual(adj, u, v) {
        MutualSymmetricTransitive(adj, r, u, v);
      } else if Mutual(adj, r, v) {
        MutualSymmetricTransitive(adj, u, r, v);
      }
    }
  }

  lemma MutualBoth(adj: Adjacency, t: Adjacency, r: nat, v: nat)
    requires Transposed(adj, t) && Mutual(adj, r, v)
    ensures Reaches(t, r, v) && Reaches(t, v, r)
  {
    hide Reaches, Transposed;
    ReachesTransposed(adj, t, v, r);
    ReachesTransposed(adj, t, r, v);
  }

  lemma TransposedVertices(adj: Adjacency, t: Adjacency)
    requires Transposed(adj, t)
    ensures Vertices(t) == Vertices(adj)
  {
    forall v | v in Vertices(t) ensures v in Vertices(adj) {
      VertexCases(t, v);
      if u :| u in t && v in Targets(t[u]) {
        var i :| 0 <= i < |t[u]| && t[u][i].target == v;
        assert Edge(v, t[u][i].weight) in multiset(Out(t, u));
        assert Multiplicity(t, u, v, t[u][i].weight) == Multiplicity(adj, v, u, t[u][i].weight);
      }
    }
  }

  method Dfs1All(graph: Graph, nodes: seq<nat>) returns (order: seq<nat>)
    requires Elems(nodes) == graph.adjacency.Keys
    ensures FinishOrder(graph.adjacency, order)
  {
    hide FinishInv, FinishOrder;
    var visited: set<nat> := {};
    order := [];
    assert FinishInv(graph.adjacency, {}, visited, order) by { EmptyFinish(graph.adjacency); }
    var i := 0;
    while i < |nodes|
      invariant 0 <= i <= |nodes|
      invariant FinishInv(graph.adjacency, {}, visited, order)
      invariant forall k :: 0 <= k < i ==> nodes[k] in visited
    {
      if nodes[i] !in visited {
        assert nodes[i] in Elems(nodes);
        visited, order := Dfs1(graph, nodes[i], visited, order, {});
      }
      i := i + 1;
    }
    forall v | v in graph.adjacency ensures v in visited {
      assert v in Elems(nodes);
    }
    AllFinished(graph.adjacency, visited, order);
  }

  lemma EmptyFinish(adj: Adjacency)
    ensures FinishInv(adj, {}, {}, [])
  {
  }

  /** Whatever reaches a component lies in it or in an earlier component. */
  ghost predicate Topological(adj: Adjacency, sccs: seq<seq<nat>>) {
    forall i, u, v :: 0 <= i < |sccs| && v in sccs[i] && Reaches(adj, u, v) ==> u in Covered(sccs[..i + 1])
  }

  lemma EmptyEmitted(adj: Adjacency, t: Adjacency)
    ensures Emitted(adj, t, [])
  {
  }

  lemma EmptyCovered()
    ensures Covered([]) == {}
  {
  }

  lemma AllEmitted(adj: Adjacency, t: Adjacency, sccs: seq<seq<nat>>)
    requires Transposed(adj, t) && Emitted(adj, t, sccs) && Covered(sccs) == Vertices(adj)
    ensures IsSccPartition(adj, sccs) && Topological(adj, sccs)
  {
    hide Transposed, Reaches, IsComponent;
    forall i, u, v | 0 <= i < |sccs| && v in sccs[i] && Reaches(adj, u, v) ensures u in Covered(sccs[..i + 1]) {
      assert sccs[..i + 1][i] == sccs[i];
      assert v in Covered(sccs[..i + 1]);
      ReachesTransposed(adj, t, u, v);
      ClosedReaches(t, Covered(sccs[..i + 1]), v, u);
    }
  }

  /** One component of the second pass. */
  method GatherRoot(graph: Graph, root: nat, taken: set<nat>) returns (taken': set<nat>, component: seq<nat>)
    requires root in Vertices(graph.adjacency) && taken <= Vertices(graph.adjacency)
    ensures Gathered(graph.adjacency, root, taken, [], taken', component)
    ensures Distinct(component) && taken' <= Vertices(graph.adjacency)
    ensures root in taken'
    ensures forall v, e :: v in taken' && v !in taken && e in Out(graph.adjacency, v) ==> e.target in taken'
  {
    ElemsNonempty<nat>([]);
    taken', component := Dfs2(graph, root, taken, []);
  }

  lemma DropHead(order: seq<nat>, i: nat)
    requires i < |order|
    ensures Elems(order[i..]) == {order[i]} + Elems(order[i + 1..]) && order[i] in Elems(order)
  {
    assert order[i..] == [order[i]] + order[i + 1..];
  }

  lemma GatherStep(adj: Adjacency, t: Adjacency, order: seq<nat>, i: nat, sccs: seq<seq<nat>>, taken: set<nat>,
                   taken': set<nat>, component: seq<nat>)
    requires Transposed(adj, t) && FinishOrder(adj, order) && Emitted(adj, t, sccs) && taken == Covered(sccs)
    requires i < |order| && order[i] !in taken && Elems(order[i + 1..]) <= taken
    requires Gathered(t, order[i], taken, [], taken', component) && order[i] in taken' && Distinct(component)
    requires forall v, e :: v in taken' && v !in taken && e in Out(t, v) ==> e.target in taken'
    ensures Emitted(adj, t, sccs + [Ascending(component)])
    ensures taken' == Covered(sccs + [Ascending(component)])
    ensures taken <= taken'
  {
    hide FinishOrder, Transposed, Emitted, Gathered, IsComponent, Reaches, Distinct, StrictlyAscending;
    EmittedClosed(adj, t, sccs);
    ComponentGathered(adj, t, order, taken, i, taken', component);
    AscendingCorrect(component);
    EmittedAppend(adj, t, sccs, Ascending(component));
    CoveredAppend(sccs, Ascending(component));
  }

  method KosarajuScc(graph: Graph) returns (sccs: seq<seq<nat>>)
    ensures IsSccPartition(graph.adjacency, sccs)
    ensures Topological(graph.adjacency, sccs)
  {
    hide FinishOrder, Transposed, Emitted, IsSccPartition, Topological, Gathered, Covered;
    ElemsNonempty<nat>([]);
    ghost var adj := graph.adjacency;
    var nodes := graph.Nodes();
    var order := Dfs1All(graph, nodes);
    var transposed := graph.Transpose();
    ghost var t := transposed.adjacency;
    TransposedVertices(adj, t);
    assert Elems(order) == Vertices(adj) by { FinishElems(adj, order); }
    var taken: set<nat> := {};
    sccs := [];
    EmptyEmitted(adj, t);
    assert Covered(sccs) == {} by { EmptyCovered(); }
    var i := |order|;
    while i > 0
      invariant 0 <= i <= |order|
      invariant transposed.adjacency == t
      invariant Emitted(adj, t, sccs)
      invariant Elems(order[i..]) <= taken == Covered(sccs) <= Vertices(adj)
    {
      i := i - 1;
      var node := order[i];
      DropHead(order, i);
      if node !in taken {
        ghost var before := taken;
        var component;
        taken, component := GatherRoot(transposed, node, taken);
        GatherStep(adj, t, order, i, sccs, before, taken, component);
        sccs := sccs + [Ascending(component)];
      }
    }
    assert order[i..] == order;
    AllEmitted(adj, t, sccs);
  }

  lemma FinishElems(adj: Adjacency, order: seq<nat>)
    requires FinishOrder(adj, order)
    ensures Elems(order) == Vertices(adj)
  {
  }

  lemma EmittedClosed(adj: Adjacency, t: Adjacency, sccs: seq<seq<nat>>)
    requires Emitted(adj, t, sccs)
    ensures Closed(t, Covered(sccs))
  {
    hide IsComponent, Closed;
    assert sccs[..|sccs|] == sccs;
  }

  /** The two algorithms return the same components, each exactly once; only
      the order of the list differs: Tarjan lists a component after all it
      reaches, Kosaraju after all that reach it. */
  method TarjanKosarajuAgree(graph: Graph) returns (a: seq<seq<nat>>, b: seq<seq<nat>>)
    ensures multiset(a) == multiset(b)
    ensures ReverseTopological(graph.adjacency, a) && Topological(graph.adjacency, b)
  {
    hide IsSccPartition, ReverseTopological, Topological;
    a := Tarjan.TarjanScc(graph);
    b := KosarajuScc(graph);
    PartitionUnique(graph.adjacency, a, b);
  }
}
