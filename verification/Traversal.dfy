/** The depth-bounded breadth-first traversal of crates/gpu/src/cpu.rs:113-150. */
module Traversal {
  import opened Sorting
  import opened Linking

  datatype GraphData = GraphData(nodes: seq<nat>, edges: seq<(nat, nat)>)

  // --- undirected hops

  predicate Joined(edges: seq<(nat, nat)>, u: nat, v: nat) {
    (u, v) in edges || (v, u) in edges
  }

  /** A walk over edges in either direction from one of the start vertices. */
  ghost predicate HopWalk(edges: seq<(nat, nat)>, start: seq<nat>, p: seq<nat>) {
    && p != [] && p[0] in start
    && forall i {:trigger p[i]} :: 0 < i < |p| ==> Joined(edges, p[i - 1], p[i])
  }

  ghost predicate HopsTo(edges: seq<(nat, nat)>, start: seq<nat>, v: nat, d: nat) {
    exists p :: HopWalk(edges, start, p) && |p| == d + 1 && p[d] == v
  }

  /** `v` is `d` hops from the start vertices and no fewer. */
  ghost predicate IsHopDistance(edges: seq<(nat, nat)>, start: seq<nat>, v: nat, d: nat) {
    HopsTo(edges, start, v, d) && forall e: nat :: HopsTo(edges, start, v, e) ==> d <= e
  }

  lemma HopsStart(edges: seq<(nat, nat)>, start: seq<nat>, v: nat)
    requires v in start
    ensures HopsTo(edges, start, v, 0)
  {
    assert HopWalk(edges, start, [v]);
  }

  lemma HopsStep(edges: seq<(nat, nat)>, start: seq<nat>, u: nat, d: nat, v: nat)
    requires HopsTo(edges, start, u, d) && Joined(edges, u, v)
    ensures HopsTo(edges, start, v, d + 1)
  {
    hide Joined;
    var p :| HopWalk(edges, start, p) && |p| == d + 1 && p[d] == u;
    var q := p + [v];
    forall i | 0 < i < |q| ensures Joined(edges, q[i - 1], q[i]) {
      assert i < |p| ==> q[i] == p[i] && q[i - 1] == p[i - 1];
    }
    assert HopWalk(edges, start, q);
  }

  lemma HopsBack(edges: seq<(nat, nat)>, start: seq<nat>, v: nat, d: nat) returns (u: nat)
    requires HopsTo(edges, start, v, d) && d > 0
    ensures HopsTo(edges, start, u, d - 1) && Joined(edges, u, v)
  {
    hide Joined;
    var p :| HopWalk(edges, start, p) && |p| == d + 1 && p[d] == v;
    var q := p[..d];
    u := q[d - 1];
    forall i | 0 < i < |q| ensures Joined(edges, q[i - 1], q[i]) {
      assert q[i] == p[i] && q[i - 1] == p[i - 1];
    }
    assert HopWalk(edges, start, q);
    assert Joined(edges, p[d - 1], p[d]);
  }

  // --- the adjacency lists

  ghost predicate Lists(adj: Links, edges: seq<(nat, nat)>) {
    forall u, v :: v in Of(adj, u) <==> Joined(edges, u, v)
  }

  method BuildLists(graph: GraphData) returns (adj: Links)
    ensures Lists(adj, graph.edges)
  {
    adj := map[];
    assert Lists(adj, []);
    var i := 0;
    while i < |graph.nodes|
      invariant 0 <= i <= |graph.nodes|
      invariant Lists(adj, [])
    {
      NodeLists(adj, graph.nodes[i], []);
      adj := adj[graph.nodes[i] := Of(adj, graph.nodes[i])];
      i := i + 1;
    }
    i := 0;
    assert graph.edges[..0] == [];
    while i < |graph.edges|
      invariant 0 <= i <= |graph.edges|
      invariant Lists(adj, graph.edges[..i])
    {
      var (src, tgt) := graph.edges[i];
      ListsStep(adj, graph.edges, i);
      adj := adj[src := Of(adj, src) + [tgt]];
      adj := adj[tgt := Of(adj, tgt) + [src]];
      i := i + 1;
    }
    assert graph.edges[..i] == graph.edges;
  }

  lemma NodeLists(adj: Links, v: nat, edges: seq<(nat, nat)>)
    requires Lists(adj, edges)
    ensures Lists(adj[v := Of(adj, v)], edges)
  {
    hide Joined;
    forall u, w ensures w in Of(adj[v := Of(adj, v)], u) <==> Joined(edges, u, w) {
      assert w in Of(adj, u) <==> Joined(edges, u, w);
    }
  }

  lemma ListsStep(adj: Links, edges: seq<(nat, nat)>, i: nat)
    requires i < |edges| && Lists(adj, edges[..i])
    ensures
      var (src, tgt) := edges[i];
      var one := adj[src := Of(adj, src) + [tgt]];
      Lists(one[tgt := Of(one, tgt) + [src]], edges[..i + 1])
  {
    var (src, tgt) := edges[i];
    var one := adj[src := Of(adj, src) + [tgt]];
    var two := one[tgt := Of(one, tgt) + [src]];
    assert edges[..i + 1] == edges[..i] + [edges[i]];
    forall u, v ensures v in Of(two, u) <==> Joined(edges[..i + 1], u, v) {
      assert v in Of(adj, u) <==> Joined(edges[..i], u, v);
      assert v in Of(one, u) <==> v in Of(adj, u) || (u == src && v == tgt);
      assert v in Of(two, u) <==> v in Of(one, u) || (u == tgt && v == src);
    }
  }

  // --- the invariant; `dist` is the depth at which each vertex was visited

  type Entry = (nat, nat)

  /** The queue holds visited vertices at their depths, `level` ones before
      those one deeper, and nothing visited lies deeper than that. */
  ghost predicate Queue(dist: map<nat, nat>, queue: seq<Entry>, level: nat) {
    && (forall i :: 0 <= i < |queue| ==> queue[i].0 in dist && dist[queue[i].0] == queue[i].1)
    && (forall i :: 0 <= i < |queue| ==> level <= queue[i].1 <= level + 1)
    && (forall i, j :: 0 <= i < j < |queue| ==> queue[i].1 <= queue[j].1)
    && (forall v :: v in dist ==> dist[v] <= level + 1)
  }

  ghost predicate Sound(edges: seq<(nat, nat)>, start: seq<nat>, dist: map<nat, nat>, depth: nat) {
    && (forall v :: v in start ==> v in dist && dist[v] == 0)
    && (forall v :: v in dist ==> HopsTo(edges, start, v, dist[v]) && dist[v] <= depth && (dist[v] == 0 ==> v in start))
  }

  ghost predicate Result(start: seq<nat>, dist: map<nat, nat>, result: seq<nat>) {
    && Distinct(result)
    && (forall v :: v in result <==> v in dist && v !in start)
    && (forall i, j :: 0 <= i < j < |result| ==>
                         result[i] in dist && result[j] in dist && dist[result[i]] <= dist[result[j]])
  }

  /** All neighbours of `v` are visited, at most one deeper. */
  ghost predicate Settled(adj: Links, dist: map<nat, nat>, v: nat) {
    v in dist && forall w :: w in Of(adj, v) ==> w in dist && dist[w] <= dist[v] + 1
  }

  /** Every vertex short of the depth limit is settled or waits in the queue,
      but for `node`. */
  ghost predicate Waiting(adj: Links, dist: map<nat, nat>, queue: seq<Entry>, depth: nat, node: set<nat>) {
    forall v :: v in dist && dist[v] < depth && (v, dist[v]) !in queue && v !in node ==> Settled(adj, dist, v)
  }

  ghost predicate Inv(adj: Links, edges: seq<(nat, nat)>, start: seq<nat>, depth: nat, dist: map<nat, nat>,
                      queue: seq<Entry>, result: seq<nat>, level: nat) {
    && Queue(dist, queue, level) && Sound(edges, start, dist, depth) && Result(start, dist, result)
    && Waiting(adj, dist, queue, depth, {})
  }

  /** The first `done` neighbours of `node` are visited. */
  ghost predicate Scanned(adj: Links, dist: map<nat, nat>, node: nat, done: nat) {
    node in dist && done <= |Of(adj, node)|
    && forall i :: 0 <= i < done ==> Of(adj, node)[i] in dist && dist[Of(adj, node)[i]] <= dist[node] + 1
  }

  lemma PopQueue(dist: map<nat, nat>, queue: seq<Entry>, level: nat)
    requires Queue(dist, queue, level) && queue != []
    ensures Queue(dist, queue[1..], queue[0].1)
    ensures queue[0].0 in dist && dist[queue[0].0] == queue[0].1
  {
  }

  lemma PopWaiting(adj: Links, dist: map<nat, nat>, queue: seq<Entry>, depth: nat)
    requires Waiting(adj, dist, queue, depth, {}) && queue != []
    ensures Waiting(adj, dist, queue[1..], depth, {queue[0].0})
  {
    hide Settled;
    assert queue == [queue[0]] + queue[1..];
  }

  /** At the depth limit the popped vertex needs no settling. */
  lemma SkipWaiting(adj: Links, dist: map<nat, nat>, queue: seq<Entry>, depth: nat, node: nat)
    requires Waiting(adj, dist, queue, depth, {node}) && node in dist
    requires dist[node] >= depth || Settled(adj, dist, node)
    ensures Waiting(adj, dist, queue, depth, {})
  {
    hide Settled;
  }

  lemma VisitWaiting(adj: Links, dist: map<nat, nat>, queue: seq<Entry>, depth: nat, node: nat, w: nat, d: nat)
    requires Waiting(adj, dist, queue, depth, {node}) && w !in dist
    ensures Waiting(adj, dist[w := d], queue + [(w, d)], depth, {node})
  {
    var queue', dist' := queue + [(w, d)], dist[w := d];
    assert queue'[|queue|] == (w, d);
    forall v | v in dist ensures Settled(adj, dist, v) ==> Settled(adj, dist', v) {}
    hide Settled;
    forall v ensures
      v in dist' && dist'[v] < depth && (v, dist'[v]) !in queue' && v !in {node} ==> Settled(adj, dist', v)
    {
      if v in dist && (v, dist[v]) in queue {
        assert (v, dist[v]) in queue';
      }
    }
  }

  lemma VisitScanned(adj: Links, dist: map<nat, nat>, node: nat, done: nat)
    requires Scanned(adj, dist, node, done) && done < |Of(adj, node)|
    ensures
      var w := Of(adj, node)[done];
      && (w !in dist ==> Scanned(adj, dist[w := dist[node] + 1], node, done + 1))
      && (w in dist && dist[w] <= dist[node] + 1 ==> Scanned(adj, dist, node, done + 1))
  {
    hide Of;
  }

  lemma ScannedSettled(adj: Links, dist: map<nat, nat>, node: nat)
    requires Scanned(adj, dist, node, |Of(adj, node)|)
    ensures Settled(adj, dist, node)
  {
    hide Of;
  }

  lemma VisitNew(edges: seq<(nat, nat)>, start: seq<nat>, depth: nat, dist: map<nat, nat>, queue: seq<Entry>,
                 result: seq<nat>, node: nat, w: nat)
    requires node in dist && Queue(dist, queue, dist[node]) && Sound(edges, start, dist, depth)
             && Result(start, dist, result)
    requires dist[node] < depth && Joined(edges, node, w) && w !in dist
    ensures
      var d := dist[node];
      && Queue(dist[w := d + 1], queue + [(w, d + 1)], d)
      && Sound(edges, start, dist[w := d + 1], depth)
      && Result(start, dist[w := d + 1], result + [w])
  {
    hide HopsTo, Joined;
    var d := dist[node];
    var dist' := dist[w := d + 1];
    HopsStep(edges, start, node, d, w);
    assert Sound(edges, start, dist', depth);
    VisitQueue(dist, queue, d, w);
    VisitResult(start, dist, result, w, d + 1);
  }

  lemma VisitQueue(dist: map<nat, nat>, queue: seq<Entry>, level: nat, w: nat)
    requires Queue(dist, queue, level) && w !in dist
    ensures Queue(dist[w := level + 1], queue + [(w, level + 1)], level)
  {
  }

  lemma VisitResult(start: seq<nat>, dist: map<nat, nat>, result: seq<nat>, w: nat, d: nat)
    requires Result(start, dist, result) && w !in dist && w !in start
    requires forall v :: v in dist ==> dist[v] <= d
    ensures Result(start, dist[w := d], result + [w])
  {
    var more := result + [w];
    assert w !in result;
    ElemsAppend(result, w);
    forall i, j | 0 <= i < j < |more| ensures more[i] in dist[w := d] && more[j] in dist[w := d]
      && dist[w := d][more[i]] <= dist[w := d][more[j]]
    {
      assert result == more[..|result|];
      if j < |result| {
        assert more[i] == result[i] && more[j] == result[j];
      } else {
        assert more[i] == result[i] && result[i] in result;
      }
    }
  }

  /** Once the queue is empty, every walk within the depth limit ends at a
      vertex visited no deeper than the walk is long. */
  lemma {:induction false} WalkVisited(adj: Links, edges: seq<(nat, nat)>, start: seq<nat>, depth: nat,
                                       dist: map<nat, nat>, result: seq<nat>, level: nat, v: nat, d: nat)
    requires Inv(adj, edges, start, depth, dist, [], result, level) && Lists(adj, edges)
    requires HopsTo(edges, start, v, d) && d <= depth
    ensures v in dist && dist[v] <= d
    decreases d
  {
    hide Queue, Result, Joined, Of;
    if d == 0 {
      ZeroHops(edges, start, v);
    } else {
      var u := HopsBack(edges, start, v, d);
      hide HopsTo;
      WalkVisited(adj, edges, start, depth, dist, result, level, u, d - 1);
      assert Settled(adj, dist, u);
      assert v in Of(adj, u);
    }
  }

  lemma ZeroHops(edges: seq<(nat, nat)>, start: seq<nat>, v: nat)
    requires HopsTo(edges, start, v, 0)
    ensures v in start
  {
  }

  /** Exactly the vertices at hop distance 1 to `depth`, each once, and the
      distance never falls along the result. */
  ghost predicate Traversed(edges: seq<(nat, nat)>, start: seq<nat>, depth: nat, result: seq<nat>) {
    && Distinct(result)
    && (forall v :: v in result <==> exists d: nat :: 1 <= d <= depth && IsHopDistance(edges, start, v, d))
    && forall i, j, d, e :: 0 <= i < j < |result| ==>
                              IsHopDistance(edges, start, result[i], d) ==>
                                IsHopDistance(edges, start, result[j], e) ==> d <= e
  }

  lemma Finished(adj: Links, edges: seq<(nat, nat)>, start: seq<nat>, depth: nat, dist: map<nat, nat>, result: seq<nat>,
                 level: nat)
    requires Inv(adj, edges, start, depth, dist, [], result, level) && Lists(adj, edges)
    ensures Traversed(edges, start, depth, result)
  {
    hide Queue, Lists, HopsTo, Settled;
    forall v | v in dist ensures IsHopDistance(edges, start, v, dist[v]) {
      forall e: nat | HopsTo(edges, start, v, e) ensures dist[v] <= e {
        if e <= depth {
          WalkVisited(adj, edges, start, depth, dist, result, level, v, e);
        }
      }
    }
    forall v ensures v in result <==> exists d: nat :: 1 <= d <= depth && IsHopDistance(edges, start, v, d) {
      if v in result {
        assert 1 <= dist[v] <= depth;
      }
      if exists d: nat :: 1 <= d <= depth && IsHopDistance(edges, start, v, d) {
        var d: nat :| 1 <= d <= depth && IsHopDistance(edges, start, v, d);
        WalkVisited(adj, edges, start, depth, dist, result, level, v, d);
        if v in start {
          HopsStart(edges, start, v);
        }
      }
    }
  }

  method TraverseBfs(graph: GraphData, start: seq<nat>, depth: nat) returns (result: seq<nat>)
    ensures Traversed(graph.edges, start, depth, result)
  {
    hide Lists, Queue, Sound, Result, Waiting, Scanned, Joined, Traversed, Ends;
    ghost var edges := graph.edges;
    var adj := BuildLists(graph);
    var queue: seq<Entry> := [];
    result := [];
    var i := 0;
    while i < |start|
      invariant 0 <= i <= |start|
      invariant |queue| == i && forall k :: 0 <= k < i ==> queue[k] == (start[k], 0)
    {
      queue := queue + [(start[i], 0)];
      i := i + 1;
    }
    var visited: set<nat> := Elems(start);
    ghost var dist: map<nat, nat> := map v | v in Elems(start) :: 0;
    ghost var level: nat := 0;
    Started(adj, edges, start, depth, queue, dist);
    while |queue| > 0
      invariant visited == dist.Keys
      invariant Inv(adj, edges, start, depth, dist, queue, result, level)
      decreases Ends(edges, start) - visited, |queue|
    {
      var (node, d) := queue[0];
      PopQueue(dist, queue, level);
      PopWaiting(adj, dist, queue, depth);
      queue := queue[1..];
      level := d;
      if d >= depth {
        SkipWaiting(adj, dist, queue, depth, node);
        continue;
      }
      ghost var queued, seen := |queue|, visited;
      var neighbors := Of(adj, node);
      ScanStart(adj, dist, node);
      var j := 0;
      while j < |neighbors|
        invariant 0 <= j <= |neighbors|
        invariant visited == dist.Keys && node in dist && dist[node] == d
        invariant Queue(dist, queue, d) && Sound(edges, start, dist, depth) && Result(start, dist, result)
        invariant Waiting(adj, dist, queue, depth, {node}) && Scanned(adj, dist, node, j)
        invariant seen <= visited && (seen == visited ==> |queue| == queued)
        invariant seen < visited ==> Ends(edges, start) - visited < Ends(edges, start) - seen
      {
        var next := neighbors[j];
        VisitScanned(adj, dist, node, j);
        if next !in visited {
          assert Joined(edges, node, next) by { ListsJoined(adj, edges, node, next); }
          JoinedEnds(edges, start, node, next);
          VisitNew(edges, start, depth, dist, queue, result, node, next);
          VisitWaiting(adj, dist, queue, depth, node, next, d + 1);
          visited := visited + {next};
          dist := dist[next := d + 1];
          result := result + [next];
          queue := queue + [(next, d + 1)];
        } else {
          NoDeeper(dist, queue, d, next);
        }
        j := j + 1;
      }
      ScannedSettled(adj, dist, node);
      SkipWaiting(adj, dist, queue, depth, node);
    }
    Finished(adj, edges, start, depth, dist, result, level);
  }

  /** The vertices a traversal can meet. */
  ghost function Ends(edges: seq<(nat, nat)>, start: seq<nat>): set<nat> {
    Elems(start) + (set i | 0 <= i < |edges| :: edges[i].0) + (set i | 0 <= i < |edges| :: edges[i].1)
  }

  lemma JoinedEnds(edges: seq<(nat, nat)>, start: seq<nat>, u: nat, v: nat)
    requires Joined(edges, u, v)
    ensures v in Ends(edges, start)
  {
    if (u, v) in edges {
      var i :| 0 <= i < |edges| && edges[i] == (u, v);
    } else {
      var i :| 0 <= i < |edges| && edges[i] == (v, u);
    }
  }

  lemma ListsJoined(adj: Links, edges: seq<(nat, nat)>, u: nat, v: nat)
    requires Lists(adj, edges) && v in Of(adj, u)
    ensures Joined(edges, u, v)
  {
  }

  lemma NoDeeper(dist: map<nat, nat>, queue: seq<Entry>, level: nat, w: nat)
    requires Queue(dist, queue, level) && w in dist
    ensures dist[w] <= level + 1
  {
  }

  lemma ScanStart(adj: Links, dist: map<nat, nat>, node: nat)
    requires node in dist
    ensures Scanned(adj, dist, node, 0)
  {
  }

  lemma Started(adj: Links, edges: seq<(nat, nat)>, start: seq<nat>, depth: nat, queue: seq<Entry>, dist: map<nat, nat>)
    requires |queue| == |start| && forall k :: 0 <= k < |start| ==> queue[k] == (start[k], 0)
    requires dist.Keys == Elems(start) && forall v :: v in dist ==> dist[v] == 0
    ensures Inv(adj, edges, start, depth, dist, queue, [], 0)
  {
    hide HopsTo;
    forall v | v in start ensures HopsTo(edges, start, v, 0) {
      HopsStart(edges, start, v);
    }
    forall v | v in start ensures (v, 0) in queue {
      var k :| 0 <= k < |start| && start[k] == v;
      assert queue[k] == (v, 0);
    }
    assert Sound(edges, start, dist, depth);
    assert Queue(dist, queue, 0);
    assert Result(start, dist, []);
  }
}
