/** Breadth-first and depth-first order, crates/algorithms/src/graphs.rs:93-134. */
module GraphSearch {
  import opened Sorting
  import opened Graphs
  import opened Walks

  // --- hops

  ghost predicate HopsTo(adj: Adjacency, u: nat, v: nat, d: nat) {
    exists p, ws :: WalkBetween(adj, u, v, p, ws) && |ws| == d
  }

  ghost predicate IsHops(adj: Adjacency, u: nat, v: nat, d: nat) {
    HopsTo(adj, u, v, d) && forall e: nat :: HopsTo(adj, u, v, e) ==> d <= e
  }

  /** Every vertex within reach once, nearest first. */
  ghost predicate BreadthFirst(adj: Adjacency, start: nat, order: seq<nat>) {
    && Distinct(order)
    && (forall v :: v in order <==> Reaches(adj, start, v))
    && forall i, j, d, e :: 0 <= i < j < |order| && IsHops(adj, start, order[i], d) && IsHops(adj, start, order[j], e)
                            ==> d <= e
  }

  lemma HopsStart(adj: Adjacency, u: nat)
    ensures HopsTo(adj, u, u, 0)
  {
    TrivialWalk(adj, u);
  }

  lemma HopsStep(adj: Adjacency, u: nat, v: nat, d: nat, e: Edge)
    requires HopsTo(adj, u, v, d) && e in Out(adj, v)
    ensures HopsTo(adj, u, e.target, d + 1)
  {
    hide Out;
    var p, ws :| WalkBetween(adj, u, v, p, ws) && |ws| == d;
    WalkAppend(adj, p, ws, e);
    assert WalkBetween(adj, u, e.target, p + [e.target], ws + [e.weight]);
  }

  lemma HopsBack(adj: Adjacency, u: nat, v: nat, d: nat) returns (w: nat, e: Edge)
    requires HopsTo(adj, u, v, d) && d > 0
    ensures HopsTo(adj, u, w, d - 1) && e in Out(adj, w) && e.target == v
  {
    hide Out;
    var p, ws :| WalkBetween(adj, u, v, p, ws) && |ws| == d;
    WalkSplit(adj, p, ws, d - 1);
    w, e := p[d - 1], Edge(p[d], ws[d - 1]);
    assert WalkBetween(adj, u, w, p[..d - 1 + 1], ws[..d - 1]);
  }

  lemma HopsReach(adj: Adjacency, u: nat, v: nat, d: nat)
    requires HopsTo(adj, u, v, d)
    ensures Reaches(adj, u, v)
  {
  }

  // --- which vertex is listed next

  /** The `i`-th edge of the vertex at `j` leads to the vertex at `k`, and is its
      first that leads to one not listed before `k`. */
  ghost predicate FirstNew(adj: Adjacency, order: seq<nat>, k: nat, j: nat, i: nat) {
    && j < k < |order| && i < |Out(adj, order[j])|
    && Out(adj, order[j])[i].target == order[k]
    && forall h :: 0 <= h < i ==> Out(adj, order[j])[h].target in order[..k]
  }

  /** No edge of the vertex at `j` leads to one not listed before `k`. */
  ghost predicate UsedUp(adj: Adjacency, order: seq<nat>, k: nat, j: nat) {
    j < k <= |order| && forall e :: e in Out(adj, order[j]) ==> e.target in order[..k]
  }

  /** The vertex at `k` is the first new one of the earliest listed vertex that
      has a new one at all. */
  ghost predicate EarliestNext(adj: Adjacency, order: seq<nat>, k: nat) {
    exists j: nat, i: nat :: FirstNew(adj, order, k, j, i) && forall h: nat :: h < j ==> UsedUp(adj, order, k, h)
  }

  /** The same of the latest listed vertex that has a new one. */
  ghost predicate LatestNext(adj: Adjacency, order: seq<nat>, k: nat) {
    exists j: nat, i: nat :: FirstNew(adj, order, k, j, i) && forall h: nat :: j < h < k ==> UsedUp(adj, order, k, h)
  }

  ghost predicate BreadthOrder(adj: Adjacency, start: nat, order: seq<nat>) {
    order != [] && order[0] == start && forall k: nat :: 0 < k < |order| ==> EarliestNext(adj, order, k)
  }

  ghost predicate DepthOrder(adj: Adjacency, start: nat, order: seq<nat>) {
    order != [] && order[0] == start && forall k: nat :: 0 < k < |order| ==> LatestNext(adj, order, k)
  }

  lemma FirstNewPrefix(adj: Adjacency, a: seq<nat>, b: seq<nat>, k: nat, j: nat, i: nat)
    requires k < |a| && k < |b| && a[..k + 1] == b[..k + 1]
    ensures FirstNew(adj, a, k, j, i) <==> FirstNew(adj, b, k, j, i)
  {
    hide Out;
    assert a[k] == a[..k + 1][k] && b[k] == b[..k + 1][k];
    assert a[..k] == a[..k + 1][..k] && b[..k] == b[..k + 1][..k];
    if j < k {
      assert a[j] == a[..k][j] && b[j] == b[..k][j];
    }
  }

  lemma UsedUpPrefix(adj: Adjacency, a: seq<nat>, b: seq<nat>, k: nat, j: nat)
    requires k <= |a| && k <= |b| && a[..k] == b[..k]
    ensures UsedUp(adj, a, k, j) <==> UsedUp(adj, b, k, j)
  {
    hide Out;
    if j < k {
      assert a[j] == a[..k][j] && b[j] == b[..k][j];
    }
  }

  lemma PrefixOfPrefix(a: seq<nat>, b: seq<nat>, k: nat)
    requires k < |a| && k < |b| && a[..k + 1] == b[..k + 1]
    ensures a[..k] == b[..k]
  {
    assert a[..k] == a[..k + 1][..k] && b[..k] == b[..k + 1][..k];
  }

  lemma EarliestPrefix(adj: Adjacency, a: seq<nat>, b: seq<nat>, k: nat)
    requires k < |a| && k < |b| && a[..k + 1] == b[..k + 1] && EarliestNext(adj, a, k)
    ensures EarliestNext(adj, b, k)
  {
    hide FirstNew, UsedUp;
    PrefixOfPrefix(a, b, k);
    var j: nat, i: nat :| FirstNew(adj, a, k, j, i) && forall h: nat :: h < j ==> UsedUp(adj, a, k, h);
    FirstNewPrefix(adj, a, b, k, j, i);
    forall h: nat | h < j ensures UsedUp(adj, b, k, h) {
      UsedUpPrefix(adj, a, b, k, h);
    }
  }

  lemma LatestPrefix(adj: Adjacency, a: seq<nat>, b: seq<nat>, k: nat)
    requires k < |a| && k < |b| && a[..k + 1] == b[..k + 1] && LatestNext(adj, a, k)
    ensures LatestNext(adj, b, k)
  {
    hide FirstNew, UsedUp;
    PrefixOfPrefix(a, b, k);
    var j: nat, i: nat :| FirstNew(adj, a, k, j, i) && forall h: nat :: j < h < k ==> UsedUp(adj, a, k, h);
    FirstNewPrefix(adj, a, b, k, j, i);
    forall h: nat | j < h < k ensures UsedUp(adj, b, k, h) {
      UsedUpPrefix(adj, a, b, k, h);
    }
  }

  /** The vertex with the first new edge is not used up. */
  lemma NotUsedUp(adj: Adjacency, order: seq<nat>, k: nat, j: nat, i: nat)
    requires FirstNew(adj, order, k, j, i) && Distinct(order)
    ensures !UsedUp(adj, order, k, j)
  {
    hide Out;
    assert Out(adj, order[j])[i] in Out(adj, order[j]);
    forall h | 0 <= h < k ensures order[..k][h] != order[k] {}
  }

  lemma SameFirstNew(adj: Adjacency, a: seq<nat>, b: seq<nat>, k: nat, j: nat, i: nat, i': nat)
    requires Distinct(a) && Distinct(b) && k < |a| && k < |b| && a[..k] == b[..k]
    requires FirstNew(adj, a, k, j, i) && FirstNew(adj, b, k, j, i')
    ensures a[k] == b[k]
  {
    hide Out;
    assert a[j] == a[..k][j] && b[j] == b[..k][j];
    forall h | 0 <= h < k ensures a[..k][h] != a[k] && b[..k][h] != b[k] {}
    assert a[k] !in a[..k] && b[k] !in b[..k];
  }

  lemma NextEarliest(adj: Adjacency, a: seq<nat>, b: seq<nat>, k: nat)
    requires Distinct(a) && Distinct(b) && k < |a| && k < |b| && a[..k] == b[..k]
    requires EarliestNext(adj, a, k) && EarliestNext(adj, b, k)
    ensures a[k] == b[k]
  {
    hide FirstNew, UsedUp, Distinct;
    var j: nat, i: nat :| FirstNew(adj, a, k, j, i) && forall h: nat :: h < j ==> UsedUp(adj, a, k, h);
    var j': nat, i': nat :| FirstNew(adj, b, k, j', i') && forall h: nat :: h < j' ==> UsedUp(adj, b, k, h);
    NotUsedUp(adj, a, k, j, i);
    NotUsedUp(adj, b, k, j', i');
    UsedUpPrefix(adj, a, b, k, j);
    UsedUpPrefix(adj, a, b, k, j');
    SameFirstNew(adj, a, b, k, j, i, i');
  }

  lemma LatestOf(adj: Adjacency, order: seq<nat>, k: nat) returns (j: nat, i: nat)
    requires LatestNext(adj, order, k)
    ensures FirstNew(adj, order, k, j, i) && j < k && forall h: nat :: j < h < k ==> UsedUp(adj, order, k, h)
  {
    hide UsedUp, Out;
    j, i :| FirstNew(adj, order, k, j, i) && forall h: nat :: j < h < k ==> UsedUp(adj, order, k, h);
  }

  lemma NextLatest(adj: Adjacency, a: seq<nat>, b: seq<nat>, k: nat)
    requires Distinct(a) && Distinct(b) && k < |a| && k < |b| && a[..k] == b[..k]
    requires LatestNext(adj, a, k) && LatestNext(adj, b, k)
    ensures a[k] == b[k]
  {
    hide FirstNew, UsedUp, Distinct;
    var j, i := LatestOf(adj, a, k);
    var j', i' := LatestOf(adj, b, k);
    NotUsedUp(adj, a, k, j, i);
    NotUsedUp(adj, b, k, j', i');
    UsedUpPrefix(adj, a, b, k, j);
    UsedUpPrefix(adj, a, b, k, j');
    SameFirstNew(adj, a, b, k, j, i, i');
  }

  /** The rule determines the whole list: breadth-first ... */
  lemma {:induction false} BreadthUnique(adj: Adjacency, start: nat, a: seq<nat>, b: seq<nat>)
    requires BreadthFirst(adj, start, a) && BreadthOrder(adj, start, a)
    requires BreadthFirst(adj, start, b) && BreadthOrder(adj, start, b)
    ensures a == b
  {
    hide Reaches, IsHops, EarliestNext;
    SameLength(a, b);
    var k := 1;
    assert a[..1] == [start] && b[..1] == [start];
    while k < |a|
      invariant 1 <= k <= |a| && a[..k] == b[..k]
    {
      NextEarliest(adj, a, b, k);
      assert a[..k + 1] == a[..k] + [a[k]] && b[..k + 1] == b[..k] + [b[k]];
      k := k + 1;
    }
    assert a[..k] == a && b[..k] == b;
  }

  /** ... and depth-first. */
  lemma {:induction false} DepthUnique(adj: Adjacency, start: nat, a: seq<nat>, b: seq<nat>)
    requires DepthFirst(adj, start, a) && DepthOrder(adj, start, a)
    requires DepthFirst(adj, start, b) && DepthOrder(adj, start, b)
    ensures a == b
  {
    hide Reaches, Block, LatestNext;
    SameLength(a, b);
    var k := 1;
    assert a[..1] == [start] && b[..1] == [start];
    while k < |a|
      invariant 1 <= k <= |a| && a[..k] == b[..k]
    {
      NextLatest(adj, a, b, k);
      assert a[..k + 1] == a[..k] + [a[k]] && b[..k + 1] == b[..k] + [b[k]];
      k := k + 1;
    }
    assert a[..k] == a && b[..k] == b;
  }

  lemma SameLength(a: seq<nat>, b: seq<nat>)
    requires Distinct(a) && Distinct(b) && forall v :: v in a <==> v in b
    ensures |a| == |b|
  {
    hide Distinct;
    assert Elems(a) == Elems(b);
    DistinctSize(a);
    DistinctSize(b);
  }

  // --- breadth first

  /** Depths never fall along `seen`, and none is beyond `bound`. */
  ghost predicate Levels(dist: map<nat, nat>, seen: seq<nat>, bound: nat) {
    && Distinct(seen) && Elems(seen) == dist.Keys
    && (forall i, j :: 0 <= i < j < |seen| && seen[i] in dist && seen[j] in dist ==> dist[seen[i]] <= dist[seen[j]])
    && forall v :: v in dist ==> dist[v] <= bound
  }

  ghost predicate Sound(adj: Adjacency, start: nat, dist: map<nat, nat>) {
    && start in dist && dist[start] == 0
    && forall v :: v in dist ==> HopsTo(adj, start, v, dist[v])
  }

  /** The edge leads to a vertex seen at most one deeper. */
  ghost predicate Followed(dist: map<nat, nat>, v: nat, e: Edge) {
    v in dist && e.target in dist && dist[e.target] <= dist[v] + 1
  }

  ghost predicate Expanded(adj: Adjacency, dist: map<nat, nat>, done: set<nat>) {
    forall v, e :: v in done && e in Out(adj, v) ==> Followed(dist, v, e)
  }

  /** Between two vertices of the queue. */
  ghost predicate Inv(adj: Adjacency, start: nat, order: seq<nat>, queue: seq<nat>, dist: map<nat, nat>) {
    && Sound(adj, start, dist)
    && Expanded(adj, dist, Elems(order))
    && exists bound :: Levels(dist, order + queue, bound) &&
                       (queue != [] && queue[0] in dist ==> bound == dist[queue[0]] + 1)
  }

  lemma See(dist: map<nat, nat>, seen: seq<nat>, bound: nat, w: nat)
    requires Levels(dist, seen, bound) && w !in dist
    ensures Levels(dist[w := bound], seen + [w], bound)
  {
    ElemsAppend(seen, w);
  }

  lemma SeeSound(adj: Adjacency, start: nat, dist: map<nat, nat>, v: nat, e: Edge)
    requires Sound(adj, start, dist) && v in dist && e in Out(adj, v) && e.target !in dist
    ensures Sound(adj, start, dist[e.target := dist[v] + 1])
  {
    hide Out, HopsTo;
    HopsStep(adj, start, v, dist[v], e);
  }

  lemma SeeExpanded(adj: Adjacency, dist: map<nat, nat>, done: set<nat>, w: nat, d: nat)
    requires Expanded(adj, dist, done) && w !in dist
    ensures Expanded(adj, dist[w := d], done)
  {
    hide Out;
    forall v, e | v in done && e in Out(adj, v) ensures Followed(dist[w := d], v, e) {
      assert Followed(dist, v, e);
    }
  }

  /** Any walk ends at a seen vertex no deeper than the walk is long. */
  lemma {:induction false} WalkSeen(adj: Adjacency, start: nat, dist: map<nat, nat>, v: nat, d: nat)
    requires Sound(adj, start, dist) && Expanded(adj, dist, dist.Keys) && HopsTo(adj, start, v, d)
    ensures v in dist && dist[v] <= d
    decreases d
  {
    hide Out;
    if d == 0 {
      ZeroHops(adj, start, v);
    } else {
      var w, e := HopsBack(adj, start, v, d);
      hide HopsTo;
      WalkSeen(adj, start, dist, w, d - 1);
      assert Followed(dist, w, e);
    }
  }

  lemma ZeroHops(adj: Adjacency, u: nat, v: nat)
    requires HopsTo(adj, u, v, 0)
    ensures u == v
  {
  }

  lemma ReachHops(adj: Adjacency, u: nat, v: nat) returns (d: nat)
    requires Reaches(adj, u, v)
    ensures HopsTo(adj, u, v, d)
  {
    var p, ws :| WalkBetween(adj, u, v, p, ws);
    d := |ws|;
  }

  lemma AllSeen(adj: Adjacency, start: nat, order: seq<nat>, dist: map<nat, nat>, bound: nat)
    requires Sound(adj, start, dist) && Expanded(adj, dist, dist.Keys) && Levels(dist, order, bound)
    ensures BreadthFirst(adj, start, order)
  {
    hide Reaches, HopsTo;
    forall v ensures v in order <==> Reaches(adj, start, v) {
      assert v in order <==> v in dist;
      if v in dist {
        HopsReach(adj, start, v, dist[v]);
      }
      if Reaches(adj, start, v) {
        var d := ReachHops(adj, start, v);
        WalkSeen(adj, start, dist, v, d);
      }
    }
    forall v, d | v in dist && IsHops(adj, start, v, d) ensures d == dist[v] {
      WalkSeen(adj, start, dist, v, d);
    }
    assert forall i :: 0 <= i < |order| ==> order[i] in Elems(order);
  }

  method Bfs(graph: Graph, start: nat) returns (order: seq<nat>)
    ensures BreadthFirst(graph.adjacency, start, order) && BreadthOrder(graph.adjacency, start, order)
  {
    hide Out, Levels, Sound, Expanded, Reaches, Vertices, BreadthFirst, BreadthOrder, EarliestNext;
    ghost var adj := graph.adjacency;
    var visited := {start};
    order := [];
    var queue := [start];
    ghost var dist: map<nat, nat> := map[start := 0];
    Started(adj, start);
    SeenStart(adj, start);
    while queue != []
      invariant BreadthOrder(adj, start, order + queue)
      invariant Inv(adj, start, order, queue, dist)
      invariant dist.Keys == visited <= Vertices(adj) + {start}
      decreases Vertices(adj) + {start} - Elems(order)
    {
      var node := queue[0];
      ghost var before := order;
      ghost var d := Front(adj, start, order, queue, dist);
      assert order + queue == (order + [node]) + queue[1..];
      queue := queue[1..];
      order := order + [node];
      ElemsAppend(before, node);
      var neighbors := graph.Neighbors(node);
      var i := 0;
      while i < |neighbors|
        invariant 0 <= i <= |neighbors|
        invariant Sound(adj, start, dist) && Expanded(adj, dist, Elems(before))
        invariant BreadthOrder(adj, start, order + queue)
        invariant Levels(dist, order + queue, d + 1) && node in dist && dist[node] == d
        invariant queue != [] ==> queue[0] in dist && d <= dist[queue[0]] <= d + 1
        invariant forall k :: 0 <= k < i ==> Followed(dist, node, neighbors[k])
        invariant dist.Keys == visited <= Vertices(adj) + {start}
      {
        var neighbor := neighbors[i].target;
        EdgeVertex(adj, node, neighbors[i]);
        if neighbor !in visited {
          SeenNext(adj, start, dist, before, node, queue, d + 1, i);
          See(dist, order + queue, d + 1, neighbor);
          SeeSound(adj, start, dist, node, neighbors[i]);
          SeeExpanded(adj, dist, Elems(before), neighbor, d + 1);
          assert order + queue + [neighbor] == order + (queue + [neighbor]);
          visited := visited + {neighbor};
          dist := dist[neighbor := d + 1];
          queue := queue + [neighbor];
        } else {
          AtMost(dist, order + queue, d + 1, neighbor);
        }
        i := i + 1;
      }
      ExpandNode(adj, dist, Elems(before), node);
      Tighten(dist, order, queue, d);
    }
    assert order + queue == order;
    Finished(adj, start, order, dist);
  }

  lemma SeenStart(adj: Adjacency, start: nat)
    ensures BreadthOrder(adj, start, [] + [start])
  {
  }

  /** A vertex that is seen is the first new one of the vertex at the front, and
      the vertices before that one have no new ones. */
  lemma SeenNext(adj: Adjacency, start: nat, dist: map<nat, nat>, before: seq<nat>, node: nat, queue: seq<nat>,
                 bound: nat, i: nat)
    requires BreadthOrder(adj, start, before + [node] + queue) && Levels(dist, before + [node] + queue, bound)
    requires Expanded(adj, dist, Elems(before)) && i < |Out(adj, node)| && Out(adj, node)[i].target !in dist
    requires forall k :: 0 <= k < i ==> Followed(dist, node, Out(adj, node)[k])
    ensures BreadthOrder(adj, start, before + [node] + (queue + [Out(adj, node)[i].target]))
  {
    hide Out, EarliestNext;
    var w := Out(adj, node)[i].target;
    var seen := before + [node] + queue;
    var more := before + [node] + (queue + [w]);
    var n, j := |seen|, |before|;
    assert more == seen + [w] && more[..n] == seen && more[j] == node;
    SeenAreListed(dist, seen, bound);
    assert FirstNew(adj, more, n, j, i);
    forall h: nat | h < j ensures UsedUp(adj, more, n, h) {
      assert more[h] == before[h] && before[h] in Elems(before);
      forall e | e in Out(adj, before[h]) ensures e.target in seen {
        assert Followed(dist, before[h], e);
      }
    }
    assert EarliestNext(adj, more, n) by { EarliestIs(adj, more, n, j, i); }
    forall k: nat | 0 < k < |more| ensures EarliestNext(adj, more, k) {
      if k < n {
        assert more[..k + 1] == seen[..k + 1];
        EarliestPrefix(adj, seen, more, k);
      }
    }
  }

  lemma SeenAreListed(dist: map<nat, nat>, seen: seq<nat>, bound: nat)
    requires Levels(dist, seen, bound)
    ensures forall v :: v in dist <==> v in seen
  {
    assert forall v :: v in seen <==> v in Elems(seen);
  }

  lemma EarliestIs(adj: Adjacency, order: seq<nat>, k: nat, j: nat, i: nat)
    requires FirstNew(adj, order, k, j, i) && forall h: nat :: h < j ==> UsedUp(adj, order, k, h)
    ensures EarliestNext(adj, order, k)
  {
    hide FirstNew, UsedUp;
  }

  lemma LatestIs(adj: Adjacency, order: seq<nat>, k: nat, j: nat, i: nat)
    requires FirstNew(adj, order, k, j, i) && forall h: nat :: j < h < k ==> UsedUp(adj, order, k, h)
    ensures LatestNext(adj, order, k)
  {
    hide FirstNew, UsedUp;
  }

  lemma Started(adj: Adjacency, start: nat)
    ensures Inv(adj, start, [], [start], map[start := 0])
  {
    HopsStart(adj, start);
    assert Levels(map[start := 0], [] + [start], 1);
  }

  lemma Front(adj: Adjacency, start: nat, order: seq<nat>, queue: seq<nat>, dist: map<nat, nat>) returns (d: nat)
    requires Inv(adj, start, order, queue, dist) && queue != []
    ensures queue[0] in dist && dist[queue[0]] == d && queue[0] !in Elems(order)
    ensures Levels(dist, order + queue, d + 1)
    ensures |queue| > 1 ==> queue[1] in dist && d <= dist[queue[1]] <= d + 1
  {
    hide Sound, Expanded;
    var seen := order + queue;
    var k := |order|;
    assert seen[k] == queue[0] && seen[k] in Elems(seen);
    d := dist[queue[0]];
    assert |queue| > 1 ==> seen[k + 1] == queue[1] && seen[k + 1] in Elems(seen);
    forall i | 0 <= i < k ensures order[i] != queue[0] {
      assert seen[i] == order[i];
    }
  }

  lemma AtMost(dist: map<nat, nat>, seen: seq<nat>, bound: nat, w: nat)
    requires Levels(dist, seen, bound) && w in dist
    ensures dist[w] <= bound
  {
  }

  lemma ExpandNode(adj: Adjacency, dist: map<nat, nat>, done: set<nat>, node: nat)
    requires Expanded(adj, dist, done)
    requires forall k :: 0 <= k < |Out(adj, node)| ==> Followed(dist, node, Out(adj, node)[k])
    ensures Expanded(adj, dist, done + {node})
  {
    hide Out;
  }

  lemma Tighten(dist: map<nat, nat>, order: seq<nat>, queue: seq<nat>, d: nat)
    requires Levels(dist, order + queue, d + 1)
    requires queue != [] ==> queue[0] in dist && d <= dist[queue[0]] <= d + 1
    ensures exists bound :: Levels(dist, order + queue, bound) &&
              (queue != [] && queue[0] in dist ==> bound == dist[queue[0]] + 1)
  {
    if queue != [] {
      assert Levels(dist, order + queue, dist[queue[0]] + 1);
    }
  }

  lemma Finished(adj: Adjacency, start: nat, order: seq<nat>, dist: map<nat, nat>)
    requires Inv(adj, start, order, [], dist)
    ensures BreadthFirst(adj, start, order)
  {
    hide Sound, Expanded, BreadthFirst;
    var bound :| Levels(dist, order + [], bound);
    assert order + [] == order;
    AllSeen(adj, start, order, dist, bound);
  }

  // --- depth first

  /** `v` is reached from `u` without passing through `s`. */
  ghost predicate Avoids(adj: Adjacency, s: set<nat>, u: nat, v: nat) {
    exists p, ws :: WalkBetween(adj, u, v, p, ws) && forall i :: 0 <= i < |p| ==> p[i] !in s
  }

  /** From position `i` up to some end stand exactly the vertices that
      `order[i]` reaches without passing through those listed before it. */
  ghost predicate Block(adj: Adjacency, order: seq<nat>, i: nat) {
    exists n: nat :: IsBlock(adj, order, i, n)
  }

  ghost predicate IsBlock(adj: Adjacency, order: seq<nat>, i: nat, n: nat) {
    i < n <= |order| && forall v :: v in Elems(order[i..n]) <==> Avoids(adj, Elems(order[..i]), order[i], v)
  }

  ghost predicate DepthFirst(adj: Adjacency, start: nat, order: seq<nat>) {
    && Distinct(order)
    && (forall v :: v in order <==> Reaches(adj, start, v))
    && (order != [] && order[0] == start)
    && forall i: nat :: i < |order| ==> Block(adj, order, i)
  }

  lemma AvoidsSelf(adj: Adjacency, s: set<nat>, u: nat)
    requires u !in s
    ensures Avoids(adj, s, u, u)
  {
    TrivialWalk(adj, u);
    assert WalkBetween(adj, u, u, [u], []);
  }

  lemma AvoidsStep(adj: Adjacency, s: set<nat>, t: set<nat>, u: nat, e: Edge, v: nat)
    requires s <= t && u !in s && e in Out(adj, u) && Avoids(adj, t, e.target, v)
    ensures Avoids(adj, s, u, v)
  {
    hide Out;
    var p, ws :| WalkBetween(adj, e.target, v, p, ws) && forall i :: 0 <= i < |p| ==> p[i] !in t;
    WalkPrepend(adj, u, e, p, ws);
    var q, us := [u] + p, [e.weight] + ws;
    assert WalkBetween(adj, u, v, q, us);
  }

  /** If the edges out of `grown` beyond `s` stay in it, so do the walks that avoid `s`. */
  lemma {:induction false} AvoidsWithin(adj: Adjacency, s: set<nat>, grown: set<nat>, u: nat, v: nat)
    requires Avoids(adj, s, u, v) && u in grown
    requires forall x, e :: x in grown && x !in s && e in Out(adj, x) ==> e.target in grown
    ensures v in grown && v !in s
  {
    hide Out;
    var p, ws :| WalkBetween(adj, u, v, p, ws) && forall i :: 0 <= i < |p| ==> p[i] !in s;
    var i := 0;
    while i < |ws|
      invariant 0 <= i <= |ws| && p[i] in grown
    {
      assert Edge(p[i + 1], ws[i]) in Out(adj, p[i]);
      i := i + 1;
    }
  }

  /** What a call on an unvisited `node` adds: what it reaches avoiding the
      visited vertices, each once, itself first. */
  ghost predicate Adds(adj: Adjacency, node: nat, order: seq<nat>, order': seq<nat>) {
    && |order| < |order'| && order'[..|order|] == order && order'[|order|] == node
    && Distinct(order')
    && (forall v :: v in Elems(order') <==> v in Elems(order) || Avoids(adj, Elems(order), node, v))
    && (forall i: nat :: |order| <= i < |order'| ==> Block(adj, order', i))
    && forall k: nat :: |order| < k < |order'| ==> LatestNext(adj, order', k)
  }

  /** The loop over the neighbours of `node`, `done` of them visited. */
  ghost predicate Adding(adj: Adjacency, node: nat, order: seq<nat>, now: seq<nat>, done: nat) {
    && |order| < |now| && now[..|order|] == order && now[|order|] == node
    && Distinct(now)
    && (forall v :: v in Elems(now) ==> v in Elems(order) || Avoids(adj, Elems(order), node, v))
    && (forall i: nat :: |order| < i < |now| ==> Block(adj, now, i))
    && (forall k: nat :: |order| < k < |now| ==> LatestNext(adj, now, k))
    && Ahead(adj, Elems(order), Elems(now), node)
    && forall k :: 0 <= k < done && k < |Out(adj, node)| ==> Out(adj, node)[k].target in Elems(now)
  }

  /** The edges of all that was added, but for `node`, stay in what is visited. */
  ghost predicate Ahead(adj: Adjacency, s: set<nat>, now: set<nat>, node: nat) {
    forall v, e :: v in now && v !in s && v != node && e in Out(adj, v) ==> e.target in now
  }

  lemma SliceKept(order: seq<nat>, order': seq<nat>, i: nat, n: nat)
    requires |order| <= |order'| && order'[..|order|] == order && i <= n <= |order|
    ensures order'[..i] == order[..i] && order'[i..n] == order[i..n]
  {
    var k := |order|;
    assert order'[..k][..i] == order'[..i];
    assert order'[..k][i..n] == order'[i..n];
  }

  lemma BlockKept(adj: Adjacency, order: seq<nat>, order': seq<nat>, i: nat)
    requires |order| <= |order'| && order'[..|order|] == order && Block(adj, order, i)
    ensures Block(adj, order', i)
  {
    hide Avoids;
    var n: nat :| IsBlock(adj, order, i, n);
    SliceKept(order, order', i, n);
    assert order'[i] == order[i];
    assert IsBlock(adj, order', i, n);
  }

  lemma AddingStart(adj: Adjacency, node: nat, order: seq<nat>)
    requires Distinct(order) && node !in Elems(order)
    ensures Adding(adj, node, order, order + [node], 0)
  {
    hide Avoids, Block, LatestNext;
    ElemsAppend(order, node);
    AvoidsSelf(adj, Elems(order), node);
  }

  lemma AddingSeen(adj: Adjacency, node: nat, order: seq<nat>, now: seq<nat>, done: nat)
    requires Adding(adj, node, order, now, done) && done < |Out(adj, node)| && Out(adj, node)[done].target in Elems(now)
    ensures Adding(adj, node, order, now, done + 1)
  {
    hide Avoids, Block, Ahead, Out, LatestNext;
  }

  lemma PrefixElems(now: seq<nat>, order: seq<nat>)
    requires |order| <= |now| && now[..|order|] == order
    ensures Elems(order) <= Elems(now)
  {
    forall v | v in Elems(order) ensures v in Elems(now) {
      var i :| 0 <= i < |order| && order[i] == v;
      assert now[i] == now[..|order|][i];
    }
  }

  lemma AddingAhead(adj: Adjacency, node: nat, s: set<nat>, now: set<nat>, e: Edge, after: set<nat>)
    requires Ahead(adj, s, now, node) && node in now
    requires forall v :: v in after <==> v in now || Avoids(adj, now, e.target, v)
    ensures Ahead(adj, s, after, node)
  {
    hide Out, Avoids;
    forall v, f | v in after && v !in s && v != node && f in Out(adj, v) ensures f.target in after {
      if v !in now && f.target !in now {
        AvoidsExtend(adj, now, e.target, v, f);
      }
    }
  }

  lemma AvoidsExtend(adj: Adjacency, s: set<nat>, u: nat, v: nat, e: Edge)
    requires Avoids(adj, s, u, v) && e in Out(adj, v) && e.target !in s
    ensures Avoids(adj, s, u, e.target)
  {
    hide Out;
    var p, ws :| WalkBetween(adj, u, v, p, ws) && forall i :: 0 <= i < |p| ==> p[i] !in s;
    WalkAppend(adj, p, ws, e);
    var q, us := p + [e.target], ws + [e.weight];
    assert |p| == |ws| + 1 && q[0] == p[0] && q[|us|] == e.target;
    hide Walk;
    assert WalkBetween(adj, u, e.target, q, us);
  }

  /** The call's vertices come as they should: its first is the first new one of
      `node`, and what was added after `node` has no new ones. */
  lemma CallLatest(adj: Adjacency, node: nat, order: seq<nat>, now: seq<nat>, done: nat, after: seq<nat>)
    requires Adding(adj, node, order, now, done) && done < |Out(adj, node)|
    requires Adds(adj, Out(adj, node)[done].target, now, after)
    ensures forall k: nat :: |order| < k < |after| ==> LatestNext(adj, after, k)
  {
    hide Avoids, Block, Out, LatestNext;
    var n, j := |now|, |order|;
    assert after[j] == after[..n][j] == node;
    assert FirstNew(adj, after, n, j, done);
    forall h: nat | j < h < n ensures UsedUp(adj, after, n, h) {
      LaterUsedUp(adj, node, order, now, done, after, h);
    }
    LatestIs(adj, after, n, j, done);
    forall k: nat | j < k < |after| ensures LatestNext(adj, after, k) {
      if k < n {
        assert after[..k + 1] == after[..n][..k + 1] == now[..k + 1];
        LatestPrefix(adj, now, after, k);
      }
    }
  }

  lemma LaterUsedUp(adj: Adjacency, node: nat, order: seq<nat>, now: seq<nat>, done: nat, after: seq<nat>, h: nat)
    requires Adding(adj, node, order, now, done) && |order| < h < |now| <= |after| && after[..|now|] == now
    ensures UsedUp(adj, after, |now|, h)
  {
    hide Avoids, Block, Out, LatestNext;
    var v := now[h];
    assert after[h] == after[..|now|][h] == v;
    assert v in Elems(now) && v != node;
    assert v !in Elems(order) by {
      forall m | 0 <= m < |order| ensures order[m] != v {
        assert now[m] == now[..|order|][m] == order[m];
      }
    }
    forall e | e in Out(adj, v) ensures e.target in now {
      assert e.target in Elems(now);
    }
  }

  lemma AddingCall(adj: Adjacency, node: nat, order: seq<nat>, now: seq<nat>, done: nat, after: seq<nat>)
    requires Adding(adj, node, order, now, done) && done < |Out(adj, node)| && node !in Elems(order)
    requires Adds(adj, Out(adj, node)[done].target, now, after)
    ensures Adding(adj, node, order, after, done + 1)
  {
    CallLatest(adj, node, order, now, done, after);
    hide Avoids, Block, Ahead, Out, LatestNext;
    var e := Out(adj, node)[done];
    PrefixElems(now, order);
    PrefixElems(after, now);
    assert after[..|order|] == after[..|now|][..|order|];
    assert after[|order|] == after[..|now|][|order|];
    assert now[|order|] in Elems(now);
    AddingAhead(adj, node, Elems(order), Elems(now), e, Elems(after));
    forall v | v in Elems(after) ensures v in Elems(order) || Avoids(adj, Elems(order), node, v) {
      if v !in Elems(now) {
        AvoidsStep(adj, Elems(order), Elems(now), node, e, v);
      }
    }
    forall i: nat | |order| < i < |after| ensures Block(adj, after, i) {
      if i < |now| {
        BlockKept(adj, now, after, i);
      }
    }
    assert e.target in Elems(after) by {
      assert after[|now|] in Elems(after);
    }
  }

  lemma AddingDone(adj: Adjacency, node: nat, order: seq<nat>, now: seq<nat>)
    requires Adding(adj, node, order, now, |Out(adj, node)|) && node !in Elems(order)
    ensures Adds(adj, node, order, now)
  {
    hide Avoids, Out, LatestNext;
    PrefixElems(now, order);
    var s, all := Elems(order), Elems(now);
    assert now[|order|] in all;
    forall x, e | x in all && x !in s && e in Out(adj, x) ensures e.target in all {}
    forall v | Avoids(adj, s, node, v) ensures v in all && v !in s {
      AvoidsWithin(adj, s, all, node, v);
    }
    forall i: nat | |order| <= i < |now| ensures Block(adj, now, i) {
      if i == |order| {
        WholeBlock(adj, node, order, now);
      }
    }
  }

  lemma WholeBlock(adj: Adjacency, node: nat, order: seq<nat>, now: seq<nat>)
    requires |order| < |now| && now[..|order|] == order && now[|order|] == node && Distinct(now)
    requires forall v :: v in Elems(now) <==> v in Elems(order) || Avoids(adj, Elems(order), node, v)
    requires forall v :: Avoids(adj, Elems(order), node, v) ==> v !in Elems(order)
    ensures Block(adj, now, |order|)
  {
    hide Avoids;
    var k := |order|;
    forall v ensures v in Elems(now[k..]) <==> v in Elems(now) && v !in Elems(order) {
      SuffixElems(now, k, v);
    }
    assert now[k..|now|] == now[k..];
    assert IsBlock(adj, now, k, |now|);
  }

  lemma SuffixElems(now: seq<nat>, k: nat, v: nat)
    requires k <= |now| && Distinct(now)
    ensures v in Elems(now[k..]) <==> v in Elems(now) && v !in Elems(now[..k])
  {
    if v in Elems(now) {
      var i :| 0 <= i < |now| && now[i] == v;
      if i < k {
        assert now[..k][i] == v;
        forall j | 0 <= j < |now[k..]| ensures now[k..][j] != v {
          assert now[k + j] != now[i];
        }
      } else {
        assert now[k..][i - k] == v;
        forall j | 0 <= j < k ensures now[..k][j] != v {
          assert now[j] != now[i];
        }
      }
    } else {
      forall j | 0 <= j < |now[k..]| ensures now[k..][j] != v {
        assert now[k + j] in Elems(now);
      }
    }
  }

  method DfsRecursive(graph: Graph, node: nat, visited: set<nat>, order: seq<nat>, ghost universe: set<nat>)
      returns (visited': set<nat>, order': seq<nat>)
    requires Distinct(order) && visited == Elems(order)
    requires Vertices(graph.adjacency) <= universe && node in universe
    ensures visited' == Elems(order')
    ensures if node in visited then order' == order else Adds(graph.adjacency, node, order, order')
    decreases universe - visited
  {
    hide Adding, Adds, Vertices;
    if node in visited {
      return visited, order;
    }
    visited' := visited + {node};
    order' := order + [node];
    ElemsAppend(order, node);
    AddingStart(graph.adjacency, node, order);
    var neighbors := graph.Neighbors(node);
    var i := 0;
    while i < |neighbors|
      invariant 0 <= i <= |neighbors|
      invariant visited' == Elems(order') && visited + {node} <= visited' && Distinct(order')
      invariant Adding(graph.adjacency, node, order, order', i)
    {
      EdgeVertex(graph.adjacency, node, neighbors[i]);
      var was := order';
      visited', order' := DfsRecursive(graph, neighbors[i].target, visited', order', universe);
      if neighbors[i].target in Elems(was) {
        AddingSeen(graph.adjacency, node, order, was, i);
      } else {
        AddsMore(graph.adjacency, neighbors[i].target, was, order');
        AddingCall(graph.adjacency, node, order, was, i, order');
      }
      i := i + 1;
    }
    AddingDone(graph.adjacency, node, order, order');
  }

  lemma AddsMore(adj: Adjacency, node: nat, order: seq<nat>, order': seq<nat>)
    requires Adds(adj, node, order, order')
    ensures Distinct(order') && Elems(order) <= Elems(order')
  {
    hide Avoids, Block, LatestNext;
    PrefixElems(order', order);
  }

  method Dfs(graph: Graph, start: nat) returns (order: seq<nat>)
    ensures DepthFirst(graph.adjacency, start, order) && DepthOrder(graph.adjacency, start, order)
  {
    hide Adds, DepthFirst, DepthOrder, Vertices;
    var visited;
    assert Elems<nat>([]) == {};
    visited, order := DfsRecursive(graph, start, {}, [], Vertices(graph.adjacency) + {start});
    WholeSearch(graph.adjacency, start, order);
  }

  lemma WholeSearch(adj: Adjacency, start: nat, order: seq<nat>)
    requires Adds(adj, start, [], order)
    ensures DepthFirst(adj, start, order) && DepthOrder(adj, start, order)
  {
    hide Avoids, Block, LatestNext;
    assert Elems<nat>([]) == {};
    forall v ensures v in order <==> Reaches(adj, start, v) {
      AvoidsNothing(adj, start, v);
      assert v in order <==> v in Elems(order);
    }
  }

  lemma AvoidsNothing(adj: Adjacency, u: nat, v: nat)
    ensures Avoids(adj, {}, u, v) <==> Reaches(adj, u, v)
  {
    if Reaches(adj, u, v) {
      var p, ws :| WalkBetween(adj, u, v, p, ws);
      assert forall i :: 0 <= i < |p| ==> p[i] !in {};
    }
  }

  /** Both searches list the same vertices. */
  lemma SearchesAgree(adj: Adjacency, start: nat, a: seq<nat>, b: seq<nat>)
    requires BreadthFirst(adj, start, a) && DepthFirst(adj, start, b)
    ensures multiset(a) == multiset(b)
  {
    hide Reaches, IsHops, Block;
    DistinctCount(a);
    DistinctCount(b);
    forall v ensures multiset(a)[v] == multiset(b)[v] {
      assert v in multiset(a) <==> v in a;
      assert v in multiset(b) <==> v in b;
    }
  }
}
