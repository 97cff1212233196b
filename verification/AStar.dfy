/** A* with reopening and no closed set, crates/algorithms/src/graphs.rs:332-374. */
module AStar {
  import opened Sorting
  import opened Graphs
  import opened Walks
  import opened Relaxation
  import opened Heaps
  import opened Options

  /** Never more than the cost of a walk to the goal. */
  ghost predicate Admissible(adj: Adjacency, goal: nat, h: (nat, nat) -> real) {
    forall v, p, ws :: WalkBetween(adj, v, goal, p, ws) ==> h(v, goal) <= Cost(ws)
  }

  // --- the open set

  ghost predicate Open(g: map<nat, real>, open: multiset<Entry>, h: (nat, nat) -> real, goal: nat) {
    forall x :: x in open ==> x.1 in g && g[x.1] + h(x.1, goal) <= x.0
  }

  ghost predicate Queued(g: map<nat, real>, open: multiset<Entry>, h: (nat, nat) -> real, goal: nat, v: nat) {
    v in g && (g[v] + h(v, goal), v) in open
  }

  /** Every scored vertex waits in the open set or has all its edges relaxed,
      but for `pending` at `current`; the goal always waits. */
  ghost predicate Frontier(adj: Adjacency, g: map<nat, real>, open: multiset<Entry>, h: (nat, nat) -> real, goal: nat,
                           current: nat, pending: seq<Edge>) {
    forall v :: v in g ==> Queued(g, open, h, goal, v)
                           || (v != goal && Expanded(adj, g, v, if v == current then pending else []))
  }

  ghost predicate Inv(adj: Adjacency, start: nat, goal: nat, h: (nat, nat) -> real, g: map<nat, real>,
                      came: map<nat, nat>, open: multiset<Entry>, t: Trace, current: nat, pending: seq<Edge>) {
    && Links(adj, start, g, came)
    && Records(adj, start, g, t)
    && Open(g, open, h, goal)
    && Frontier(adj, g, open, h, goal, current, pending)
  }

  lemma Initially(adj: Adjacency, start: nat, goal: nat, h: (nat, nat) -> real)
    ensures Inv(adj, start, goal, h, map[start := 0.0], map[], multiset{(h(start, goal), start)}, StartTrace(start),
                start, [])
  {
    hide Records, Expanded, Out;
    var g, open := map[start := 0.0], multiset{(h(start, goal), start)};
    StartRecords(adj, start);
    assert g[start] + h(start, goal) == h(start, goal);
    assert Queued(g, open, h, goal, start);
    StartLinks(adj, start);
    hide Links, Queued;
    assert forall x :: x in open ==> x == (h(start, goal), start);
  }

  lemma PopCurrent(adj: Adjacency, start: nat, goal: nat, h: (nat, nat) -> real, g: map<nat, real>,
                   came: map<nat, nat>, open: multiset<Entry>, t: Trace, x: Entry)
    requires Inv(adj, start, goal, h, g, came, open, t, start, []) && x in open && x.1 != goal
    ensures x.1 in g
    ensures Inv(adj, start, goal, h, g, came, open - multiset{x}, t, x.1, Out(adj, x.1))
  {
    hide Links, Records;
    var rest := open - multiset{x};
    assert forall y :: y in rest ==> y in open;
    forall v | v in g
      ensures Queued(g, rest, h, goal, v)
              || (v != goal && Expanded(adj, g, v, if v == x.1 then Out(adj, x.1) else []))
    {
      if Queued(g, open, h, goal, v) {
        if v != x.1 {
          assert (g[v] + h(v, goal), v) != x;
        }
      }
    }
  }

  lemma NothingPending(adj: Adjacency, start: nat, goal: nat, h: (nat, nat) -> real, g: map<nat, real>,
                       came: map<nat, nat>, open: multiset<Entry>, t: Trace, current: nat)
    requires Inv(adj, start, goal, h, g, came, open, t, current, [])
    ensures Inv(adj, start, goal, h, g, came, open, t, start, [])
  {
    hide Links, Records, Open, Queued, Expanded;
  }

  lemma RelaxNothing(adj: Adjacency, start: nat, goal: nat, h: (nat, nat) -> real, g: map<nat, real>,
                     came: map<nat, nat>, open: multiset<Entry>, t: Trace, current: nat, pending: seq<Edge>)
    requires Inv(adj, start, goal, h, g, came, open, t, current, pending) && current in g && pending != []
    requires !Better(g, pending[0].target, g[current] + pending[0].weight)
    ensures Inv(adj, start, goal, h, g, came, open, t, current, pending[1..])
  {
    hide Links, Records, Open, Queued;
    assert forall e :: e in pending ==> e == pending[0] || e in pending[1..];
  }

  lemma ImproveFrontier(adj: Adjacency, g: map<nat, real>, open: multiset<Entry>, h: (nat, nat) -> real, goal: nat,
                        current: nat, pending: seq<Edge>)
    requires Open(g, open, h, goal) && Frontier(adj, g, open, h, goal, current, pending)
    requires pending != [] && current in g && pending[0].target != current
    requires Better(g, pending[0].target, g[current] + pending[0].weight)
    ensures
      var e := pending[0];
      var d := g[current] + e.weight;
      && Open(g[e.target := d], open + multiset{(d + h(e.target, goal), e.target)}, h, goal)
      && Frontier(adj, g[e.target := d], open + multiset{(d + h(e.target, goal), e.target)},
        h, goal, current, pending[1..])
  {
    hide Out, Queued, Expanded, Open;
    var e := pending[0];
    var d := g[current] + e.weight;
    var g', open' := g[e.target := d], open + multiset{(d + h(e.target, goal), e.target)};
    ImproveOpen(g, open, h, goal, e.target, d);
    forall v | v in g'
      ensures Queued(g', open', h, goal, v)
              || (v != goal && Expanded(adj, g', v, if v == current then pending[1..] else []))
    {
      ImproveVertex(adj, g, open, h, goal, current, pending, v);
    }
  }

  lemma ImproveOpen(g: map<nat, real>, open: multiset<Entry>, h: (nat, nat) -> real, goal: nat, n: nat, d: real)
    requires Open(g, open, h, goal) && Better(g, n, d)
    ensures Open(g[n := d], open + multiset{(d + h(n, goal), n)}, h, goal)
  {
    var open' := open + multiset{(d + h(n, goal), n)};
    forall x | x in open' ensures x.1 in g[n := d] && g[n := d][x.1] + h(x.1, goal) <= x.0 {
      assert x in open || x == (d + h(n, goal), n);
    }
  }

  lemma ImproveVertex(adj: Adjacency, g: map<nat, real>, open: multiset<Entry>, h: (nat, nat) -> real, goal: nat,
                      current: nat, pending: seq<Edge>, v: nat)
    requires pending != [] && current in g && pending[0].target != current
    requires Better(g, pending[0].target, g[current] + pending[0].weight)
    requires v in g ==> Queued(g, open, h, goal, v)
                        || (v != goal && Expanded(adj, g, v, if v == current then pending else []))
    requires v in g || v == pending[0].target
    ensures
      var e := pending[0];
      var d := g[current] + e.weight;
      var g', open' := g[e.target := d], open + multiset{(d + h(e.target, goal), e.target)};
      Queued(g', open', h, goal, v) || (v != goal && Expanded(adj, g', v, if v == current then pending[1..] else []))
  {
    var e := pending[0];
    var d := g[current] + e.weight;
    var g', open' := g[e.target := d], open + multiset{(d + h(e.target, goal), e.target)};
    if v == e.target || Queued(g, open, h, goal, v) {
      assert Queued(g', open', h, goal, v);
    } else {
      ExpandedKept(adj, g, v, if v == current then pending else [], e.target, d);
      if v == current {
        ExpandedNext(adj, g', v, pending);
      }
    }
  }

  // --- the result

  lemma Improve(adj: Adjacency, start: nat, goal: nat, h: (nat, nat) -> real, g: map<nat, real>,
                came: map<nat, nat>, open: multiset<Entry>, t: Trace, current: nat, pending: seq<Edge>)
    requires NoNegativeCycle(adj, start)
    requires Inv(adj, start, goal, h, g, came, open, t, current, pending) && current in g && pending != []
    requires pending[0] in Out(adj, current) && current in t.rec
    requires Better(g, pending[0].target, g[current] + pending[0].weight)
    ensures pending[0].target != current
    ensures
      var e := pending[0];
      var d := g[current] + e.weight;
      && Inv(adj, start, goal, h, g[e.target := d], came[e.target := current],
             open + multiset{(d + h(e.target, goal), e.target)}, Improved(t, current, e), current, pending[1..])
      && Longer(t.rec[current], e) in Unrecorded(adj, start, t)
  {
    hide Links, Records, Open, Frontier, NoNegativeCycle, WalksUpTo, Vertices, Out, Longer;
    var e := pending[0];
    ImproveLinks(adj, start, g, came, current, e);
    ImproveRecords(adj, start, g, t, current, e);
    ImproveFrontier(adj, g, open, h, goal, current, pending);
  }

  /** The first vertex of the walk whose edge along it is not relaxed waits in
      the open set with a key at most the cost of the walk. */
  lemma WaitingOnWalk(adj: Adjacency, start: nat, goal: nat, h: (nat, nat) -> real, g: map<nat, real>,
                      open: multiset<Entry>, p: seq<nat>, ws: seq<real>) returns (i: nat)
    requires Frontier(adj, g, open, h, goal, start, []) && start in g && g[start] == 0.0
    requires WalkBetween(adj, start, goal, p, ws)
    ensures i <= |ws| && p[i] in g && g[p[i]] <= Cost(ws[..i])
    ensures Queued(g, open, h, goal, p[i])
  {
    hide Cost, Out, Queued, Expanded;
    i := 0;
    assert ws[..0] == [];
    assert Cost([]) == 0.0 by { CostEmpty(); }
    while !Queued(g, open, h, goal, p[i])
      invariant 0 <= i <= |ws|
      invariant p[i] in g && g[p[i]] <= Cost(ws[..i])
      decreases |ws| - i
    {
      assert p[i] != goal && Expanded(adj, g, p[i], []);
      assert i != |ws|;
      var e := Edge(p[i + 1], ws[i]);
      assert e in Out(adj, p[i]);
      ExpandedEdge(adj, g, p[i], e);
      assert ws[..i] + [ws[i]] == ws[..i + 1];
      CostAppend(ws[..i], ws[i]);
      i := i + 1;
    }
  }

  lemma CostEmpty()
    ensures Cost([]) == 0.0
  {
  }

  /** When the goal is popped no walk to it is cheaper than its score. */
  lemma GoalOptimal(adj: Adjacency, start: nat, goal: nat, h: (nat, nat) -> real, g: map<nat, real>,
                    open: multiset<Entry>, x: Entry, p: seq<nat>, ws: seq<real>)
    requires Frontier(adj, g, open, h, goal, start, []) && Open(g, open, h, goal)
    requires start in g && g[start] == 0.0 && goal in g
    requires IsLeast(open, x) && x.1 == goal && h(goal, goal) >= 0.0 && Admissible(adj, goal, h)
    requires WalkBetween(adj, start, goal, p, ws)
    ensures g[goal] <= Cost(ws)
  {
    hide Frontier, Walk, Cost, Out;
    var i := WaitingOnWalk(adj, start, goal, h, g, open, p, ws);
    assert |p| == |ws| + 1 by { WalkLength(adj, p, ws); }
    CostSplit(ws, i);
    WalkTail(adj, start, goal, p, ws, i);
    assert h(p[i], goal) <= Cost(ws[i..]);
    assert Before(x, (g[p[i]] + h(p[i], goal), p[i]));
  }

  lemma WalkLength(adj: Adjacency, p: seq<nat>, ws: seq<real>)
    requires Walk(adj, p, ws)
    ensures |p| == |ws| + 1
  {
  }

  lemma WalkTail(adj: Adjacency, start: nat, goal: nat, p: seq<nat>, ws: seq<real>, i: nat)
    requires WalkBetween(adj, start, goal, p, ws) && i <= |ws|
    ensures WalkBetween(adj, p[i], goal, p[i..], ws[i..])
  {
    hide Out;
    WalkSplit(adj, p, ws, i);
  }

  /** With the open set exhausted the scored vertices are closed under edges. */
  lemma Exhausted(adj: Adjacency, start: nat, goal: nat, h: (nat, nat) -> real, g: map<nat, real>)
    requires Frontier(adj, g, multiset{}, h, goal, start, []) && start in g
    ensures !Reaches(adj, start, goal)
  {
    hide Reaches, Out, Expanded;
    forall v | v in g ensures v != goal && Expanded(adj, g, v, []) {
      assert !Queued(g, multiset{}, h, goal, v);
    }
    assert Closed(adj, g.Keys) by {
      forall u, e | u in g && e in Out(adj, u) ensures e.target in g {
        ExpandedEdge(adj, g, u, e);
      }
    }
    if Reaches(adj, start, goal) {
      ClosedReaches(adj, g.Keys, start, goal);
    }
  }

  /** The links lead from `goal` back to `start` along a simple walk of the
      graph, of cost at most the score of `goal`. */
  method Reconstruct(came: map<nat, nat>, goal: nat, ghost adj: Adjacency, ghost start: nat, ghost g: map<nat, real>)
      returns (path: seq<nat>, ghost ws: seq<real>)
    requires Links(adj, start, g, came) && goal in g
    ensures WalkBetween(adj, start, goal, path, ws) && Cost(ws) <= g[goal]
    ensures Distinct(path)
  {
    hide Links, Walk, Cost, Out, Distinct;
    ghost var p := PathTo(adj, start, g, came, goal);
    ghost var n := |p| - 1;
    var steps := [goal];
    var node := goal;
    assert Reverse(steps) == steps;
    while node in came
      invariant 0 <= n < |p| && node == p[n]
      invariant Reverse(steps) == p[n..]
      decreases n
    {
      LinkBefore(adj, start, g, came, goal, p, n);
      node := came[node];
      ReverseAppend(steps, node);
      steps := steps + [node];
      n := n - 1;
      assert p[n..] == [p[n]] + p[n + 1..];
    }
    LinkBefore(adj, start, g, came, goal, p, n);
    path := Reverse(steps);
    assert path == p;
    ws := LinkWalk(adj, start, g, came, goal, p, 0);
    LinksStart(adj, start, g, came);
    LinkDistinct(adj, start, g, came, goal, p);
  }

  /** The contract: `None` exactly when the goal is out of reach. Otherwise the
      path is a simple walk of the graph costing no more than the returned
      score, which some walk attains; and if the heuristic is admissible, and
      not negative at the goal, both are the least cost. */
  ghost predicate Answer(adj: Adjacency, start: nat, goal: nat, h: (nat, nat) -> real, r: Option<(real, seq<nat>)>) {
    && (r.None? <==> !Reaches(adj, start, goal))
    && (r.Some? ==>
          && Distinct(r.value.1)
          && (exists ws :: WalkBetween(adj, start, goal, r.value.1, ws) && Cost(ws) <= r.value.0)
          && Attained(adj, start, goal, r.value.0)
          && (Admissible(adj, goal, h) && h(goal, goal) >= 0.0 ==>
                && IsDistance(adj, start, goal, r.value.0)
                && exists ws :: WalkBetween(adj, start, goal, r.value.1, ws) && Cost(ws) == r.value.0))
  }

  lemma Found(adj: Adjacency, start: nat, goal: nat, h: (nat, nat) -> real, g: map<nat, real>, came: map<nat, nat>,
              open: multiset<Entry>, t: Trace, x: Entry, path: seq<nat>, ws: seq<real>)
    requires Inv(adj, start, goal, h, g, came, open, t, start, []) && IsLeast(open, x) && x.1 == goal && goal in g
    requires WalkBetween(adj, start, goal, path, ws) && Cost(ws) <= g[goal] && Distinct(path)
    ensures Answer(adj, start, goal, h, Some((g[goal], path)))
  {
    hide Links, Frontier, Open, Walk, Cost, Distinct, Admissible, Attained, IsLeast, Records;
    assert Attained(adj, start, goal, g[goal]) by { RecordAttained(adj, start, g, t, goal); }
    assert start in g && g[start] == 0.0 by { LinksStart(adj, start, g, came); }
    if Admissible(adj, goal, h) && h(goal, goal) >= 0.0 {
      forall q, us | WalkBetween(adj, start, goal, q, us) ensures g[goal] <= Cost(us) {
        GoalOptimal(adj, start, goal, h, g, open, x, q, us);
      }
    }
  }

  lemma NotFound(adj: Adjacency, start: nat, goal: nat, h: (nat, nat) -> real, g: map<nat, real>, came: map<nat, nat>,
                 t: Trace)
    requires Inv(adj, start, goal, h, g, came, multiset{}, t, start, [])
    ensures Answer(adj, start, goal, h, None)
  {
    hide Records, Open, Frontier, Reaches, Links;
    LinksStart(adj, start, g, came);
    Exhausted(adj, start, goal, h, g);
  }

  lemma Recordings(adj: Adjacency, start: nat, goal: nat, h: (nat, nat) -> real, g: map<nat, real>,
                   came: map<nat, nat>, open: multiset<Entry>, t: Trace, current: nat, pending: seq<Edge>)
    requires Inv(adj, start, goal, h, g, came, open, t, current, pending)
    ensures t.rec.Keys == g.Keys && Links(adj, start, g, came)
    ensures forall x :: x in open ==> x.1 in g
  {
    hide Links, Frontier;
  }

  lemma FewerLeft(adj: Adjacency, start: nat, t: Trace, current: nat, e: Edge)
    requires current in t.rec && Longer(t.rec[current], e) in Unrecorded(adj, start, t)
    ensures Unrecorded(adj, start, Improved(t, current, e)) < Unrecorded(adj, start, t)
  {
    hide WalksUpTo, Vertices, Longer;
  }

  method AStar(graph: Graph, start: nat, goal: nat, heuristic: (nat, nat) -> real)
      returns (r: Option<(real, seq<nat>)>)
    requires NoNegativeCycle(graph.adjacency, start)
    ensures Answer(graph.adjacency, start, goal, heuristic, r)
  {
    hide Inv, NoNegativeCycle, Answer, Links, WalksUpTo, Vertices, Walk, WalkBetween, Cost, Distinct,
         IsLeast, StartTrace, Longer, Improved, Unrecorded, Out;
    ghost var adj := graph.adjacency;
    var openSet: multiset<Entry> := multiset{(heuristic(start, goal), start)};
    var gScore: map<nat, real> := map[start := 0.0];
    var cameFrom: map<nat, nat> := map[];
    ghost var t := StartTrace(start);
    Initially(adj, start, goal, heuristic);
    while openSet != multiset{}
      invariant Inv(adj, start, goal, heuristic, gScore, cameFrom, openSet, t, start, [])
      decreases Unrecorded(adj, start, t), |openSet|
    {
      var x, rest := Pop(openSet);
      var current := x.1;
      Recordings(adj, start, goal, heuristic, gScore, cameFrom, openSet, t, start, []);
      if current == goal {
        var path; ghost var ws;
        path, ws := Reconstruct(cameFrom, goal, adj, start, gScore);
        Found(adj, start, goal, heuristic, gScore, cameFrom, openSet, t, x, path, ws);
        return Some((gScore[goal], path));
      }
      PopCurrent(adj, start, goal, heuristic, gScore, cameFrom, openSet, t, x);
      openSet := rest;
      ghost var left := Unrecorded(adj, start, t);
      var currentG := gScore[current];
      var neighbors := graph.Neighbors(current);
      assert neighbors[0..] == neighbors;
      var i := 0;
      while i < |neighbors|
        invariant 0 <= i <= |neighbors|
        invariant current in gScore && gScore[current] == currentG
        invariant Inv(adj, start, goal, heuristic, gScore, cameFrom, openSet, t, current, neighbors[i..])
        invariant Unrecorded(adj, start, t) < left || (Unrecorded(adj, start, t) == left && openSet == rest)
      {
        assert neighbors[i..][1..] == neighbors[i + 1..];
        var neighbor := neighbors[i].target;
        var tentativeG := currentG + neighbors[i].weight;
        var isBetter := neighbor !in gScore || tentativeG < gScore[neighbor];
        if isBetter {
          Recordings(adj, start, goal, heuristic, gScore, cameFrom, openSet, t, current, neighbors[i..]);
          Improve(adj, start, goal, heuristic, gScore, cameFrom, openSet, t, current, neighbors[i..]);
          assert neighbor != current;
          cameFrom := cameFrom[neighbor := current];
          gScore := gScore[neighbor := tentativeG];
          openSet := openSet + multiset{(tentativeG + heuristic(neighbor, goal), neighbor)};
          FewerLeft(adj, start, t, current, neighbors[i]);
          t := Improved(t, current, neighbors[i]);
        } else {
          RelaxNothing(adj, start, goal, heuristic, gScore, cameFrom, openSet, t, current, neighbors[i..]);
        }
        i := i + 1;
      }
      assert neighbors[i..] == [];
      NothingPending(adj, start, goal, heuristic, gScore, cameFrom, openSet, t, current);
    }
    NotFound(adj, start, goal, heuristic, gScore, cameFrom, t);
    return None;
  }
}
