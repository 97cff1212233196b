/** Dijkstra's shortest paths with lazily discarded heap entries,
    crates/algorithms/src/graphs.rs:136-162, and the path rebuilt from its
    predecessor links, lines 376-398. Weights may be negative. */
module Dijkstra {
  import opened Sorting
  import opened Graphs
  import opened Walks
  import opened Relaxation
  import opened Heaps
  import opened Options

  type Label = (real, Option<nat>)

  /** A key for exactly the reachable vertices, holding the true distance. */
  ghost predicate Distances(adj: Adjacency, start: nat, dist: map<nat, Label>) {
    && (forall v :: v in dist <==> Reaches(adj, start, v))
    && (forall v :: v in dist ==> IsDistance(adj, start, v, dist[v].0))
  }

  ghost function Scores(dist: map<nat, Label>): map<nat, real> {
    map v | v in dist :: dist[v].0
  }

  ghost function Came(dist: map<nat, Label>): map<nat, nat> {
    map v | v in dist && dist[v].1.Some? :: dist[v].1.value
  }

  /** The predecessor of `v` is one edge of exactly the missing length away. */
  ghost predicate Linked(adj: Adjacency, start: nat, dist: map<nat, Label>, v: nat) {
    v in dist && (
      if v == start then dist[v] == (0.0, None)
      else
        && dist[v].1.Some? && dist[v].1.value in dist
        && Edge(v, dist[v].0 - dist[dist[v].1.value].0) in Out(adj, dist[v].1.value))
  }

  /** Every key is linked back to `start` over such edges. */
  ghost predicate PredecessorTree(adj: Adjacency, start: nat, dist: map<nat, Label>) {
    && start in dist
    && (forall v :: v in dist ==> Linked(adj, start, dist, v))
    && (forall v :: v in dist ==> exists p :: LinkPath(start, Came(dist), v, p))
  }

  // --- the loop as a function

  /** What the loop holds between two pops. */
  datatype State = State(dist: map<nat, Label>, heap: multiset<Entry>)

  predicate Shorter(dist: map<nat, Label>, v: nat, d: real) {
    v !in dist || d < dist[v].0
  }

  function Relax(s: State, node: nat, d: real, e: Edge): State {
    if Shorter(s.dist, e.target, d + e.weight) then
      State(s.dist[e.target := (d + e.weight, Some(node))], s.heap + multiset{(d + e.weight, e.target)})
    else s
  }

  function RelaxAll(s: State, node: nat, d: real, edges: seq<Edge>): State {
    if edges == [] then s
    else Relax(RelaxAll(s, node, d, edges[..|edges| - 1]), node, d, edges[|edges| - 1])
  }

  /** An entry that was pushed before the label of its vertex improved. */
  predicate Stale(dist: map<nat, Label>, x: Entry) {
    x.1 in dist && x.0 > dist[x.1].0
  }

  ghost function Step(adj: Adjacency, s: State): State {
    if s.heap == multiset{} then s
    else
      var x := Least(s.heap);
      var rest := State(s.dist, s.heap - multiset{x});
      if Stale(s.dist, x) then rest else RelaxAll(rest, x.1, x.0, Out(adj, x.1))
  }

  ghost function After(adj: Adjacency, start: nat, k: nat): State {
    if k == 0 then State(map[start := (0.0, None)], multiset{(0.0, start)})
    else Step(adj, After(adj, start, k - 1))
  }

  // --- for any weights

  ghost predicate Waiting(s: State, v: nat) {
    v in s.dist && (s.dist[v].0, v) in s.heap
  }

  ghost predicate Relaxed(dist: map<nat, Label>, v: nat, edges: seq<Edge>) {
    v in dist && forall e :: e in edges ==> e.target in dist && dist[e.target].0 <= dist[v].0 + e.weight
  }

  ghost predicate Queue(s: State) {
    forall x :: x in s.heap ==> x.1 in s.dist && s.dist[x.1].0 <= x.0
  }

  ghost predicate Labelled(adj: Adjacency, start: nat, s: State) {
    && start in s.dist && s.dist[start].0 <= 0.0
    && (forall v :: v in s.dist ==> Attained(adj, start, v, s.dist[v].0))
  }

  /** Every key waits in the heap or has all its edges relaxed, but for `node`,
      of whose edges only those in `done` need be, from the label `d`. */
  ghost predicate Midway(adj: Adjacency, s: State, node: nat, d: real, done: seq<Edge>) {
    && (forall v :: v in s.dist && v != node ==> Waiting(s, v) || Relaxed(s.dist, v, Out(adj, v)))
    && node in s.dist && s.dist[node].0 <= d
    && (Waiting(s, node) || (s.dist[node].0 == d && Relaxed(s.dist, node, done)))
  }

  ghost predicate Frontier(adj: Adjacency, s: State) {
    forall v :: v in s.dist ==> Waiting(s, v) || Relaxed(s.dist, v, Out(adj, v))
  }

  lemma WaitingKept(s: State, node: nat, d: real, e: Edge, v: nat)
    requires Waiting(s, v)
    ensures Waiting(Relax(s, node, d, e), v)
  {
    var s' := Relax(s, node, d, e);
    assert s' == s || (d + e.weight, e.target) in s'.heap;
  }

  lemma RelaxedKept(s: State, node: nat, d: real, e: Edge, v: nat, edges: seq<Edge>)
    requires Relaxed(s.dist, v, edges)
    ensures Waiting(Relax(s, node, d, e), v) || Relaxed(Relax(s, node, d, e).dist, v, edges)
    ensures v == e.target && Shorter(s.dist, e.target, d + e.weight) ==> Waiting(Relax(s, node, d, e), v)
    ensures v != e.target ==> v in Relax(s, node, d, e).dist && Relax(s, node, d, e).dist[v] == s.dist[v]
  {
    var s' := Relax(s, node, d, e);
    assert s' == s || (d + e.weight, e.target) in s'.heap;
  }

  lemma RelaxMidway(adj: Adjacency, s: State, node: nat, d: real, done: seq<Edge>, e: Edge)
    requires Midway(adj, s, node, d, done)
    ensures Midway(adj, Relax(s, node, d, e), node, d, done + [e])
  {
    hide Out, Waiting, Relaxed;
    var s' := Relax(s, node, d, e);
    forall v | v in s'.dist && v != node ensures Waiting(s', v) || Relaxed(s'.dist, v, Out(adj, v)) {
      RelaxOther(adj, s, node, d, e, v);
    }
    RelaxSelf(s, node, d, done, e);
  }

  lemma RelaxOther(adj: Adjacency, s: State, node: nat, d: real, e: Edge, v: nat)
    requires v in s.dist ==> Waiting(s, v) || Relaxed(s.dist, v, Out(adj, v))
    requires v in Relax(s, node, d, e).dist
    ensures Waiting(Relax(s, node, d, e), v) || Relaxed(Relax(s, node, d, e).dist, v, Out(adj, v))
  {
    hide Out;
    if v in s.dist {
      if Waiting(s, v) {
        WaitingKept(s, node, d, e, v);
      } else {
        RelaxedKept(s, node, d, e, v, Out(adj, v));
      }
    } else {
      assert (d + e.weight, e.target) in Relax(s, node, d, e).heap;
    }
  }

  lemma RelaxSelf(s: State, node: nat, d: real, done: seq<Edge>, e: Edge)
    requires node in s.dist && s.dist[node].0 <= d
    requires Waiting(s, node) || (s.dist[node].0 == d && Relaxed(s.dist, node, done))
    ensures
      var s' := Relax(s, node, d, e);
      && node in s'.dist && s'.dist[node].0 <= d
      && (Waiting(s', node) || (s'.dist[node].0 == d && Relaxed(s'.dist, node, done + [e])))
  {
    if Waiting(s, node) {
      WaitingKept(s, node, d, e, node);
    } else {
      RelaxedKept(s, node, d, e, node, done);
      assert forall x :: x in done + [e] ==> x in done || x == e;
    }
  }

  lemma {:induction false} RelaxAllMidway(adj: Adjacency, s: State, node: nat, d: real, edges: seq<Edge>)
    requires Midway(adj, s, node, d, [])
    ensures Midway(adj, RelaxAll(s, node, d, edges), node, d, edges)
  {
    hide Midway, Relax;
    if edges != [] {
      var done, e := edges[..|edges| - 1], edges[|edges| - 1];
      RelaxAllMidway(adj, s, node, d, done);
      RelaxMidway(adj, RelaxAll(s, node, d, done), node, d, done, e);
      assert done + [e] == edges;
    }
  }

  lemma RelaxLabelled(adj: Adjacency, start: nat, s: State, node: nat, d: real, e: Edge)
    requires Labelled(adj, start, s) && Queue(s) && Attained(adj, start, node, d) && e in Out(adj, node)
    ensures Labelled(adj, start, Relax(s, node, d, e)) && Queue(Relax(s, node, d, e))
  {
    hide Attained, Out, Queue;
    AttainedStep(adj, start, node, d, e);
    RelaxQueue(s, node, d, e);
    if Shorter(s.dist, e.target, d + e.weight) {
      LabelledGrows(adj, start, s, e.target, (d + e.weight, Some(node)));
    }
  }

  lemma LabelledGrows(adj: Adjacency, start: nat, s: State, v: nat, mark: Label)
    requires Labelled(adj, start, s) && Attained(adj, start, v, mark.0) && Shorter(s.dist, v, mark.0)
    ensures Labelled(adj, start, State(s.dist[v := mark], s.heap + multiset{(mark.0, v)}))
  {
    hide Attained;
  }

  lemma RelaxQueue(s: State, node: nat, d: real, e: Edge)
    requires Queue(s)
    ensures Queue(Relax(s, node, d, e))
  {
    hide Queue;
    if Shorter(s.dist, e.target, d + e.weight) {
      QueueGrows(s, e.target, (d + e.weight, Some(node)));
    }
  }

  lemma QueueGrows(s: State, v: nat, mark: Label)
    requires Queue(s) && Shorter(s.dist, v, mark.0)
    ensures Queue(State(s.dist[v := mark], s.heap + multiset{(mark.0, v)}))
  {
    hide Shorter;
    forall x | x in s.heap + multiset{(mark.0, v)}
      ensures x.1 in s.dist[v := mark] && s.dist[v := mark][x.1].0 <= x.0
    {
      if x != (mark.0, v) {
        assert x in s.heap;
        LabelFalls(s.dist, v, mark, x);
      }
    }
  }

  lemma LabelFalls(dist: map<nat, Label>, v: nat, mark: Label, x: Entry)
    requires Shorter(dist, v, mark.0) && x.1 in dist && dist[x.1].0 <= x.0
    ensures x.1 in dist[v := mark] && dist[v := mark][x.1].0 <= x.0
  {
  }

  lemma {:induction false} RelaxAllLabelled(adj: Adjacency, start: nat, s: State, node: nat, d: real, edges: seq<Edge>)
    requires Labelled(adj, start, s) && Queue(s) && Attained(adj, start, node, d)
    requires forall e :: e in edges ==> e in Out(adj, node)
    ensures Labelled(adj, start, RelaxAll(s, node, d, edges)) && Queue(RelaxAll(s, node, d, edges))
  {
    hide Labelled, Queue, Attained, Relax, Out;
    if edges != [] {
      RelaxAllLabelled(adj, start, s, node, d, edges[..|edges| - 1]);
      RelaxLabelled(adj, start, RelaxAll(s, node, d, edges[..|edges| - 1]), node, d, edges[|edges| - 1]);
    }
  }

  lemma AttainedStep(adj: Adjacency, start: nat, u: nat, d: real, e: Edge)
    requires Attained(adj, start, u, d) && e in Out(adj, u)
    ensures Attained(adj, start, e.target, d + e.weight)
  {
    var p, ws :| WalkBetween(adj, start, u, p, ws) && Cost(ws) == d;
    WalkAppend(adj, p, ws, e);
    CostAppend(ws, e.weight);
    hide Walk, Cost;
    assert WalkBetween(adj, start, e.target, p + [e.target], ws + [e.weight]);
  }

  ghost predicate Search(adj: Adjacency, start: nat, s: State) {
    Labelled(adj, start, s) && Queue(s) && Frontier(adj, s)
  }

  lemma PopQueue(s: State, x: Entry)
    requires Queue(s) && x in s.heap
    ensures Queue(State(s.dist, s.heap - multiset{x}))
    ensures x.1 in s.dist && s.dist[x.1].0 <= x.0
  {
    assert forall y :: y in s.heap - multiset{x} ==> y in s.heap;
  }

  lemma PopWaiting(s: State, x: Entry, v: nat)
    requires Waiting(s, v) && (v != x.1 || x.0 > s.dist[v].0)
    ensures Waiting(State(s.dist, s.heap - multiset{x}), v)
  {
    assert (s.dist[v].0, v) != x;
  }

  /** Discarding a stale entry loses nothing. */
  lemma DiscardStale(adj: Adjacency, s: State, x: Entry)
    requires Queue(s) && Frontier(adj, s) && x in s.heap && Stale(s.dist, x)
    ensures Frontier(adj, State(s.dist, s.heap - multiset{x}))
  {
    hide Out, Waiting, Relaxed;
    var rest := State(s.dist, s.heap - multiset{x});
    forall v | v in s.dist && Waiting(s, v) ensures Waiting(rest, v) {
      PopWaiting(s, x, v);
    }
  }

  lemma PopMidway(adj: Adjacency, s: State, x: Entry)
    requires Queue(s) && Frontier(adj, s) && x in s.heap && !Stale(s.dist, x)
    ensures x.1 in s.dist && x.0 == s.dist[x.1].0
    ensures Midway(adj, State(s.dist, s.heap - multiset{x}), x.1, x.0, [])
  {
    hide Out, Waiting, Relaxed, Queue;
    PopQueue(s, x);
    var rest := State(s.dist, s.heap - multiset{x});
    forall v | v in s.dist && v != x.1 && Waiting(s, v) ensures Waiting(rest, v) {
      PopWaiting(s, x, v);
    }
    NoneRelaxed(s.dist, x.1);
  }

  lemma NoneRelaxed(dist: map<nat, Label>, v: nat)
    requires v in dist
    ensures Relaxed(dist, v, [])
  {
  }

  lemma MidwayDone(adj: Adjacency, s: State, node: nat, d: real)
    requires Midway(adj, s, node, d, Out(adj, node))
    ensures Frontier(adj, s)
  {
    hide Out, Waiting, Relaxed;
  }

  lemma StepSearch(adj: Adjacency, start: nat, s: State)
    requires Search(adj, start, s)
    ensures Search(adj, start, Step(adj, s))
  {
    hide Midway, Frontier, RelaxAll, Attained, Out;
    if s.heap != multiset{} {
      var x := Least(s.heap);
      var rest := State(s.dist, s.heap - multiset{x});
      PopQueue(s, x);
      if Stale(s.dist, x) {
        DiscardStale(adj, s, x);
      } else {
        PopMidway(adj, s, x);
        RelaxAllMidway(adj, rest, x.1, x.0, Out(adj, x.1));
        MidwayDone(adj, RelaxAll(rest, x.1, x.0, Out(adj, x.1)), x.1, x.0);
        RelaxAllLabelled(adj, start, rest, x.1, x.0, Out(adj, x.1));
      }
    }
  }

  lemma {:induction false} AfterSearch(adj: Adjacency, start: nat, k: nat)
    ensures Search(adj, start, After(adj, start, k))
  {
    hide Step, Attained, Relaxed;
    if k == 0 {
      TrivialWalk(adj, start);
      assert Attained(adj, start, start, 0.0) by { AttainedTrivially(adj, start); }
      var s := After(adj, start, 0);
      assert Waiting(s, start);
    } else {
      AfterSearch(adj, start, k - 1);
      StepSearch(adj, start, After(adj, start, k - 1));
    }
  }

  lemma AttainedTrivially(adj: Adjacency, start: nat)
    ensures Attained(adj, start, start, 0.0)
  {
    assert WalkBetween(adj, start, start, [start], []) && Cost([]) == 0.0;
  }

  ghost predicate AllRelaxed(adj: Adjacency, dist: map<nat, Label>) {
    forall v :: v in dist ==> Relaxed(dist, v, Out(adj, v))
  }

  /** With the edges of every key relaxed, walks from a key end at keys and no
      walk is shorter than its labels differ. */
  lemma {:induction false} WalkBound(adj: Adjacency, dist: map<nat, Label>, p: seq<nat>, ws: seq<real>)
    requires AllRelaxed(adj, dist) && Walk(adj, p, ws) && p[0] in dist
    ensures p[|ws|] in dist && dist[p[|ws|]].0 <= dist[p[0]].0 + Cost(ws)
  {
    if ws != [] {
      var k := |ws| - 1;
      var e := Edge(p[k + 1], ws[k]);
      assert e in Out(adj, p[k]);
      assert ws[..k] + [ws[k]] == ws;
      CostAppend(ws[..k], ws[k]);
      WalkSplit(adj, p, ws, k);
      hide Walk, Out, Cost;
      WalkBound(adj, dist, p[..k + 1], ws[..k]);
      assert Relaxed(dist, p[k], Out(adj, p[k]));
      assert e.target in dist && dist[e.target].0 <= dist[p[k]].0 + e.weight;
    }
  }

  lemma KeysReached(adj: Adjacency, start: nat, dist: map<nat, Label>, v: nat)
    requires AllRelaxed(adj, dist) && start in dist && Reaches(adj, start, v)
    ensures v in dist
  {
    hide AllRelaxed, Walk, Cost;
    var p, ws :| WalkBetween(adj, start, v, p, ws);
    assert Walk(adj, p, ws);
    WalkBound(adj, dist, p, ws);
  }

  /** A labelling that no edge improves rules out negative cycles. */
  lemma RelaxedCycles(adj: Adjacency, start: nat, dist: map<nat, Label>)
    requires AllRelaxed(adj, dist) && start in dist
    ensures NoNegativeCycle(adj, start)
  {
    hide AllRelaxed, Reaches, Walk, Cost;
    forall v, p, ws | Reaches(adj, start, v) && WalkBetween(adj, v, v, p, ws) ensures Cost(ws) >= 0.0 {
      KeysReached(adj, start, dist, v);
      WalkBound(adj, dist, p, ws);
    }
  }

  lemma StartLabel(adj: Adjacency, start: nat, s: State)
    requires NoNegativeCycle(adj, start) && Labelled(adj, start, s)
    ensures s.dist[start].0 == 0.0
  {
    hide Reaches, Walk, Cost;
    assert Attained(adj, start, start, s.dist[start].0);
    ReachesRefl(adj, start);
    var p, ws :| WalkBetween(adj, start, start, p, ws) && Cost(ws) == s.dist[start].0;
  }

  /** Whenever the loop ends, whatever the weights, its labels are the distances,
      and there is no negative cycle within reach. */
  lemma EndedSearch(adj: Adjacency, start: nat, k: nat)
    requires After(adj, start, k).heap == multiset{}
    ensures NoNegativeCycle(adj, start)
    ensures AllRelaxed(adj, After(adj, start, k).dist) && Distances(adj, start, After(adj, start, k).dist)
  {
    hide After, NoNegativeCycle, Relaxed, Attained, Reaches;
    AfterSearch(adj, start, k);
    var s := After(adj, start, k);
    assert forall v :: !Waiting(s, v);
    RelaxedCycles(adj, start, s.dist);
    StartLabel(adj, start, s);
    hide AllRelaxed, IsDistance;
    forall v ensures v in s.dist <==> Reaches(adj, start, v) {
      if v in s.dist {
        AttainedReaches(adj, start, v, s.dist[v].0);
      } else if Reaches(adj, start, v) {
        KeysReached(adj, start, s.dist, v);
      }
    }
    forall v | v in s.dist ensures IsDistance(adj, start, v, s.dist[v].0) {
      LabelDistance(adj, start, s.dist, v);
    }
  }

  lemma LabelDistance(adj: Adjacency, start: nat, dist: map<nat, Label>, v: nat)
    requires AllRelaxed(adj, dist) && start in dist && dist[start].0 == 0.0
    requires v in dist && Attained(adj, start, v, dist[v].0)
    ensures IsDistance(adj, start, v, dist[v].0)
  {
    hide AllRelaxed, Cost, Attained, Walk;
    forall p, ws | WalkBetween(adj, start, v, p, ws) ensures dist[v].0 <= Cost(ws) {
      WalkBound(adj, dist, p, ws);
    }
  }

  lemma AttainedReaches(adj: Adjacency, start: nat, v: nat, d: real)
    requires Attained(adj, start, v, d)
    ensures Reaches(adj, start, v)
  {
  }

  // --- without negative cycles

  lemma Relabelled(dist: map<nat, Label>, v: nat, d: real, u: nat)
    ensures Scores(dist[v := (d, Some(u))]) == Scores(dist)[v := d]
    ensures Came(dist[v := (d, Some(u))]) == Came(dist)[v := u]
  {
  }

  lemma ViewKeys(dist: map<nat, Label>)
    ensures Scores(dist).Keys == dist.Keys
    ensures forall v :: v in dist ==> Scores(dist)[v] == dist[v].0
    ensures forall v :: v in Came(dist) <==> v in dist && dist[v].1.Some?
    ensures forall v :: v in Came(dist) ==> Came(dist)[v] == dist[v].1.value
  {
  }

  ghost predicate Tracked(adj: Adjacency, start: nat, s: State, t: Trace) {
    && Links(adj, start, Scores(s.dist), Came(s.dist))
    && Records(adj, start, Scores(s.dist), t)
  }

  /** Something was improved, along a walk never recorded before, or nothing
      happened. */
  predicate Progress(s: State, t: Trace, s': State, t': Trace) {
    t.used < t'.used || (s' == s && t' == t)
  }

  lemma RelaxTracked(adj: Adjacency, start: nat, s: State, t: Trace, node: nat, e: Edge) returns (t': Trace)
    requires NoNegativeCycle(adj, start) && Tracked(adj, start, s, t) && node in s.dist && e in Out(adj, node)
    ensures Tracked(adj, start, Relax(s, node, s.dist[node].0, e), t')
    ensures Progress(s, t, Relax(s, node, s.dist[node].0, e), t')
    ensures node in Relax(s, node, s.dist[node].0, e).dist
    ensures Relax(s, node, s.dist[node].0, e).dist[node] == s.dist[node]
  {
    hide NoNegativeCycle, Links, Records, Out, Longer, WalksUpTo, Vertices;
    var g, d := Scores(s.dist), s.dist[node].0 + e.weight;
    if Shorter(s.dist, e.target, d) {
      Relabelled(s.dist, e.target, d, node);
      assert Better(g, e.target, g[node] + e.weight);
      ImproveLinks(adj, start, g, Came(s.dist), node, e);
      assert node in t.rec by { RecordPresent(adj, start, g, t, node); }
      ImproveRecords(adj, start, g, t, node, e);
      t' := Improved(t, node, e);
    } else {
      t' := t;
    }
  }

  lemma RecordPresent(adj: Adjacency, start: nat, g: map<nat, real>, t: Trace, v: nat)
    requires Records(adj, start, g, t) && v in g
    ensures v in t.rec
  {
    hide IsRecord, WalksUpTo, Vertices;
  }

  lemma {:induction false} RelaxAllTracked(adj: Adjacency, start: nat, s: State, t: Trace, node: nat, edges: seq<Edge>)
      returns (t': Trace)
    requires NoNegativeCycle(adj, start) && Tracked(adj, start, s, t) && node in s.dist
    requires forall e :: e in edges ==> e in Out(adj, node)
    ensures Tracked(adj, start, RelaxAll(s, node, s.dist[node].0, edges), t')
    ensures Progress(s, t, RelaxAll(s, node, s.dist[node].0, edges), t')
    ensures node in RelaxAll(s, node, s.dist[node].0, edges).dist
    ensures RelaxAll(s, node, s.dist[node].0, edges).dist[node] == s.dist[node]
    decreases |edges|
  {
    hide NoNegativeCycle, Tracked, Out, Relax;
    if edges == [] {
      t' := t;
    } else {
      t' := RelaxAllTracked(adj, start, s, t, node, edges[..|edges| - 1]);
      t' := RelaxTracked(adj, start, RelaxAll(s, node, s.dist[node].0, edges[..|edges| - 1]), t', node,
                         edges[|edges| - 1]);
    }
  }

  lemma StepTracked(adj: Adjacency, start: nat, s: State, t: Trace) returns (t': Trace)
    requires NoNegativeCycle(adj, start) && Tracked(adj, start, s, t) && Queue(s) && s.heap != multiset{}
    ensures Tracked(adj, start, Step(adj, s), t')
    ensures Unrecorded(adj, start, t') < Unrecorded(adj, start, t)
            || (t' == t && |Step(adj, s).heap| < |s.heap|)
  {
    hide NoNegativeCycle, Tracked, RelaxAll, Out, Unrecorded, Queue, IsLeast;
    var x := Least(s.heap);
    assert x in s.heap by { LeastMember(s.heap, x); }
    var rest := State(s.dist, s.heap - multiset{x});
    PopQueue(s, x);
    assert Tracked(adj, start, rest, t) by { TrackedLabels(adj, start, s, rest, t); }
    t' := t;
    if !Stale(s.dist, x) {
      t' := RelaxAllTracked(adj, start, rest, t, x.1, Out(adj, x.1));
      ProgressCounts(adj, start, rest, t, RelaxAll(rest, x.1, x.0, Out(adj, x.1)), t');
    }
  }

  lemma LeastMember(heap: multiset<Entry>, x: Entry)
    requires IsLeast(heap, x)
    ensures x in heap && |heap - multiset{x}| < |heap|
  {
  }

  lemma TrackedLabels(adj: Adjacency, start: nat, s: State, s': State, t: Trace)
    requires Tracked(adj, start, s, t) && s'.dist == s.dist
    ensures Tracked(adj, start, s', t)
  {
    hide Links, Records;
  }

  lemma ProgressCounts(adj: Adjacency, start: nat, s: State, t: Trace, s': State, t': Trace)
    requires Progress(s, t, s', t') && Tracked(adj, start, s', t')
    ensures Unrecorded(adj, start, t') < Unrecorded(adj, start, t) || (s' == s && t' == t)
  {
    hide WalksUpTo, Vertices, Tracked;
    UsedListed(adj, start, s', t');
    if t.used < t'.used {
      var r: Recorded :| r in t'.used && r !in t.used;
      assert r in Unrecorded(adj, start, t) && r !in Unrecorded(adj, start, t');
    }
  }

  lemma UsedListed(adj: Adjacency, start: nat, s: State, t: Trace)
    requires Tracked(adj, start, s, t)
    ensures t.used <= WalksUpTo(adj, start, |Vertices(adj) + {start}|)
  {
    hide Links, WalksUpTo, Vertices, IsRecord;
  }

  lemma StartTracked(adj: Adjacency, start: nat)
    ensures Tracked(adj, start, After(adj, start, 0), StartTrace(start))
  {
    hide Links, Records;
    StartLinks(adj, start);
    StartRecords(adj, start);
    var dist: map<nat, Label> := map[start := (0.0, None)];
    assert Scores(dist) == map[start := 0.0] && Came(dist) == map[];
  }

  lemma {:induction false} Ends(adj: Adjacency, start: nat, k: nat, t: Trace) returns (n: nat)
    requires NoNegativeCycle(adj, start) && Tracked(adj, start, After(adj, start, k), t)
    ensures After(adj, start, n).heap == multiset{}
    decreases Unrecorded(adj, start, t), |After(adj, start, k).heap|
  {
    hide NoNegativeCycle, Tracked, Unrecorded, Step, Frontier, Labelled, Queue;
    var s := After(adj, start, k);
    n := k;
    if s.heap != multiset{} {
      AfterSearch(adj, start, k);
      var t' := StepTracked(adj, start, s, t);
      assert After(adj, start, k + 1) == Step(adj, s);
      n := Ends(adj, start, k + 1, t');
    }
  }

  /** The loop ends exactly when no cycle within reach of `start` has negative
      cost. */
  lemma EndsIff(adj: Adjacency, start: nat)
    ensures (exists k :: After(adj, start, k).heap == multiset{}) <==> NoNegativeCycle(adj, start)
  {
    hide After, NoNegativeCycle, Tracked, AllRelaxed, Distances;
    if NoNegativeCycle(adj, start) {
      var n := EndsAt(adj, start);
      assert After(adj, start, n).heap == multiset{};
    }
    if k :| After(adj, start, k).heap == multiset{} {
      EndedSearch(adj, start, k);
    }
  }

  lemma {:induction false} AfterTracked(adj: Adjacency, start: nat, k: nat) returns (t: Trace)
    requires NoNegativeCycle(adj, start)
    ensures Tracked(adj, start, After(adj, start, k), t)
  {
    hide NoNegativeCycle, Tracked, Unrecorded, Step, Queue;
    if k == 0 {
      t := StartTrace(start);
      StartTracked(adj, start);
    } else {
      t := AfterTracked(adj, start, k - 1);
      if After(adj, start, k - 1).heap == multiset{} {
        EndedStays(adj, start, k - 1, k);
      } else {
        AfterQueue(adj, start, k - 1);
        t := StepTracked(adj, start, After(adj, start, k - 1), t);
      }
    }
  }

  lemma {:induction false} EndedStays(adj: Adjacency, start: nat, n: nat, k: nat)
    requires After(adj, start, n).heap == multiset{} && n <= k
    ensures After(adj, start, k) == After(adj, start, n)
  {
    hide Step;
    if n < k {
      EndedStays(adj, start, n, k - 1);
      NothingPopped(adj, After(adj, start, k - 1));
    }
  }

  lemma NothingPopped(adj: Adjacency, s: State)
    requires s.heap == multiset{}
    ensures Step(adj, s) == s
  {
    hide RelaxAll, Out;
  }

  /** A number of iterations after which the heap is empty. */
  lemma EndsAt(adj: Adjacency, start: nat) returns (n: nat)
    requires NoNegativeCycle(adj, start)
    ensures forall k: nat :: k >= n ==> After(adj, start, k).heap == multiset{}
  {
    hide NoNegativeCycle, Tracked, After;
    StartTracked(adj, start);
    n := Ends(adj, start, 0, StartTrace(start));
    forall k: nat | k >= n ensures After(adj, start, k).heap == multiset{} {
      EndedStays(adj, start, n, k);
    }
  }

  lemma Finished(adj: Adjacency, start: nat, k: nat)
    requires NoNegativeCycle(adj, start) && After(adj, start, k).heap == multiset{}
    ensures Distances(adj, start, After(adj, start, k).dist)
    ensures PredecessorTree(adj, start, After(adj, start, k).dist)
  {
    hide After, Distances, NoNegativeCycle, Records, AllRelaxed, LinkedBy, LinkPath, Linked, Scores, Came;
    var dist := After(adj, start, k).dist;
    EndedSearch(adj, start, k);
    var t := AfterTracked(adj, start, k);
    ViewKeys(dist);
    forall v | v in dist ensures Linked(adj, start, dist, v) {
      ExactLink(adj, start, dist, v);
    }
  }

  /** No edge improves the label, so the link's edge is no shorter than the
      labels differ either. */
  lemma ExactLink(adj: Adjacency, start: nat, dist: map<nat, Label>, v: nat)
    requires AllRelaxed(adj, dist) && Links(adj, start, Scores(dist), Came(dist)) && v in dist
    ensures Linked(adj, start, dist, v)
  {
    hide LinkPath, Out, Scores, Came, AllRelaxed, Relaxed;
    ViewKeys(dist);
    if v != start {
      assert v in Came(dist);
      var u := dist[v].1.value;
      hide Links;
      var w := LinkWeight(adj, start, Scores(dist), Came(dist), v);
      NotLonger(adj, dist, u, Edge(v, w));
    }
  }

  lemma NotLonger(adj: Adjacency, dist: map<nat, Label>, u: nat, e: Edge)
    requires AllRelaxed(adj, dist) && u in dist && e in Out(adj, u)
    ensures e.target in dist && dist[e.target].0 <= dist[u].0 + e.weight
  {
    hide Out;
    assert Relaxed(dist, u, Out(adj, u));
  }

  // --- without negative weights

  /** The entries popped in `k` iterations that were not stale: the vertices whose
      edges were gone through, with their labels. */
  ghost function Expansions(adj: Adjacency, start: nat, k: nat): seq<Entry> {
    if k == 0 then []
    else
      var s := After(adj, start, k - 1);
      Expansions(adj, start, k - 1)
      + if s.heap == multiset{} || Stale(s.dist, Least(s.heap)) then [] else [Least(s.heap)]
  }

  ghost predicate OneCurrent(dist: map<nat, Label>, heap: multiset<Entry>, settled: set<nat>) {
    forall v :: v in dist && v !in settled ==> heap[(dist[v].0, v)] == 1
  }

  ghost predicate NoneBelow(dist: map<nat, Label>, heap: multiset<Entry>, settled: set<nat>) {
    forall x :: x in heap ==>
                  x.1 in dist && dist[x.1].0 <= x.0 && (x.1 in settled ==> dist[x.1].0 < x.0)
  }

  /** Unsettled vertices have one current entry, settled ones only stale ones. */
  ghost predicate Queued(dist: map<nat, Label>, heap: multiset<Entry>, settled: set<nat>) {
    settled <= dist.Keys && OneCurrent(dist, heap, settled) && NoneBelow(dist, heap, settled)
  }

  ghost predicate Ordered(dist: map<nat, Label>, settled: set<nat>) {
    forall u, v :: u in settled && v in dist && v !in settled && u in dist ==> dist[u].0 <= dist[v].0
  }

  /** Vertices once each, in order of their labels, which are final. */
  ghost predicate InOrder(dist: map<nat, Label>, order: seq<Entry>) {
    && (forall i, j :: 0 <= i < j < |order| ==> order[i].1 != order[j].1 && order[i].0 <= order[j].0)
    && (forall i :: 0 <= i < |order| ==> order[i].1 in dist && dist[order[i].1].0 == order[i].0)
  }

  ghost function Settled(order: seq<Entry>): set<nat> {
    set i | 0 <= i < |order| :: order[i].1
  }

  ghost predicate Settling(s: State, order: seq<Entry>) {
    && Queued(s.dist, s.heap, Settled(order))
    && Ordered(s.dist, Settled(order))
    && InOrder(s.dist, order)
  }

  lemma SettleQueued(dist: map<nat, Label>, heap: multiset<Entry>, settled: set<nat>, x: Entry)
    requires Queued(dist, heap, settled) && IsLeast(heap, x) && x.1 in dist && x.0 <= dist[x.1].0
    ensures x.1 !in settled && x.0 == dist[x.1].0
    ensures Queued(dist, heap - multiset{x}, settled + {x.1})
  {
    assert x == (dist[x.1].0, x.1);
    var rest := heap - multiset{x};
    assert rest[x] == 0;
    forall y | y in rest && y.1 in settled + {x.1} ensures dist[y.1].0 < y.0 {
      assert y in heap;
      assert y != x;
    }
  }

  lemma SettleOrdered(dist: map<nat, Label>, heap: multiset<Entry>, settled: set<nat>, x: Entry)
    requires Queued(dist, heap, settled) && Ordered(dist, settled) && IsLeast(heap, x)
    requires x.1 in dist && x.0 == dist[x.1].0 && x.1 !in settled
    ensures Ordered(dist, settled + {x.1})
    ensures forall u :: u in settled + {x.1} && u in dist ==> dist[u].0 <= dist[x.1].0
  {
    forall v | v in dist && v !in settled ensures x.0 <= dist[v].0 {
      assert (dist[v].0, v) in heap;
      assert Before(x, (dist[v].0, v));
    }
  }

  /** A popped entry that is not stale is the only current one of an unsettled
      vertex no farther than every other unsettled one. */
  lemma Settle(s: State, order: seq<Entry>, x: Entry)
    requires Settling(s, order) && IsLeast(s.heap, x) && !Stale(s.dist, x)
    ensures x.1 in s.dist && x.1 !in Settled(order) && x.0 == s.dist[x.1].0
    ensures Settling(State(s.dist, s.heap - multiset{x}), order + [x])
    ensures forall u :: u in Settled(order + [x]) ==> u in s.dist && s.dist[u].0 <= x.0
  {
    hide IsLeast, Settled, Queued, Ordered;
    assert x.1 in s.dist && x.0 <= s.dist[x.1].0 by { QueuedKey(s, Settled(order), x); }
    SettleQueued(s.dist, s.heap, Settled(order), x);
    SettleOrdered(s.dist, s.heap, Settled(order), x);
    SettledAppend(order, x);
    forall i | 0 <= i < |order| ensures order[i].1 != x.1 && order[i].0 <= x.0 {
      SettledMember(order, i);
    }
    assert forall u :: u in Settled(order) ==> u in s.dist by { QueuedSettled(s.dist, s.heap, Settled(order)); }
  }

  lemma QueuedKey(s: State, settled: set<nat>, x: Entry)
    requires Queued(s.dist, s.heap, settled) && IsLeast(s.heap, x) && !Stale(s.dist, x)
    ensures x.1 in s.dist && x.0 <= s.dist[x.1].0
  {
  }

  lemma SettledAppend(order: seq<Entry>, x: Entry)
    ensures Settled(order + [x]) == Settled(order) + {x.1}
  {
    var more := order + [x];
    assert more[|order|] == x;
    forall i | 0 <= i < |order| ensures more[i] == order[i] {}
  }

  lemma SettledMember(order: seq<Entry>, i: nat)
    requires i < |order|
    ensures order[i].1 in Settled(order)
  {
  }

  lemma QueuedSettled(dist: map<nat, Label>, heap: multiset<Entry>, settled: set<nat>)
    requires Queued(dist, heap, settled)
    ensures settled <= dist.Keys
  {
  }

  lemma RelaxOrdered(dist: map<nat, Label>, settled: set<nat>, node: nat, v: nat, mark: Label)
    requires Ordered(dist, settled) && v !in settled && node in dist && dist[node].0 <= mark.0
    requires forall u :: u in settled && u in dist ==> dist[u].0 <= dist[node].0
    ensures Ordered(dist[v := mark], settled)
  {
  }

  lemma RelaxQueued(dist: map<nat, Label>, heap: multiset<Entry>, settled: set<nat>, v: nat, mark: Label)
    requires Queued(dist, heap, settled) && v !in settled && Shorter(dist, v, mark.0)
    ensures Queued(dist[v := mark], heap + multiset{(mark.0, v)}, settled)
  {
    hide OneCurrent, NoneBelow;
    RelaxCurrent(dist, heap, settled, v, mark);
    RelaxNoneBelow(dist, heap, settled, v, mark);
  }

  lemma RelaxCurrent(dist: map<nat, Label>, heap: multiset<Entry>, settled: set<nat>, v: nat, mark: Label)
    requires OneCurrent(dist, heap, settled) && NoneBelow(dist, heap, settled) && Shorter(dist, v, mark.0)
    ensures OneCurrent(dist[v := mark], heap + multiset{(mark.0, v)}, settled)
  {
    var heap' := heap + multiset{(mark.0, v)};
    forall u | u in dist[v := mark] && u !in settled ensures heap'[(dist[v := mark][u].0, u)] == 1 {
      hide OneCurrent, NoneBelow;
      CurrentAt(dist, heap, settled, v, mark, u);
    }
  }

  lemma CurrentAt(dist: map<nat, Label>, heap: multiset<Entry>, settled: set<nat>, v: nat, mark: Label, u: nat)
    requires OneCurrent(dist, heap, settled) && NoneBelow(dist, heap, settled) && Shorter(dist, v, mark.0)
    requires (u == v || u in dist) && u !in settled
    ensures (heap + multiset{(mark.0, v)})[(dist[v := mark][u].0, u)] == 1
  {
    if u == v {
      assert (mark.0, v) !in heap;
    }
  }

  lemma RelaxNoneBelow(dist: map<nat, Label>, heap: multiset<Entry>, settled: set<nat>, v: nat, mark: Label)
    requires NoneBelow(dist, heap, settled) && v !in settled && Shorter(dist, v, mark.0)
    ensures NoneBelow(dist[v := mark], heap + multiset{(mark.0, v)}, settled)
  {
    forall x | x in heap + multiset{(mark.0, v)}
      ensures x.1 in dist[v := mark] && dist[v := mark][x.1].0 <= x.0
      ensures x.1 in settled ==> dist[v := mark][x.1].0 < x.0
    {
      hide NoneBelow, Shorter;
      if x != (mark.0, v) {
        assert x in heap;
        NoneBelowAt(dist, heap, settled, v, mark, x);
      }
    }
  }

  lemma NoneBelowAt(dist: map<nat, Label>, heap: multiset<Entry>, settled: set<nat>, v: nat, mark: Label, x: Entry)
    requires NoneBelow(dist, heap, settled) && v !in settled && Shorter(dist, v, mark.0) && x in heap
    ensures x.1 in dist[v := mark] && dist[v := mark][x.1].0 <= x.0
    ensures x.1 in settled ==> dist[v := mark][x.1].0 < x.0
  {
  }

  lemma DiscardSettling(s: State, order: seq<Entry>, x: Entry)
    requires Settling(s, order) && x in s.heap && Stale(s.dist, x)
    ensures Settling(State(s.dist, s.heap - multiset{x}), order)
  {
    hide Settled, Ordered, InOrder;
    assert forall y :: y in s.heap - multiset{x} ==> y in s.heap;
  }

  /** Relaxing an edge of a settled vertex that is farthest among the settled
      leaves the labels of all settled vertices alone. */
  lemma RelaxEdge(s: State, order: seq<Entry>, node: nat, d: real, e: Edge)
    requires Settling(s, order) && e.weight >= 0.0
    requires node in s.dist && s.dist[node].0 == d && node in Settled(order)
    requires forall u :: u in Settled(order) ==> u in s.dist && s.dist[u].0 <= d
    ensures
      var s' := Relax(s, node, d, e);
      && Settling(s', order)
      && (forall u :: u in Settled(order) ==> u in s'.dist && s'.dist[u] == s.dist[u])
  {
    hide Settled, Queued, Ordered;
    if Shorter(s.dist, e.target, d + e.weight) {
      assert e.target !in Settled(order);
      RelaxQueued(s.dist, s.heap, Settled(order), e.target, (d + e.weight, Some(node)));
      RelaxOrdered(s.dist, Settled(order), node, e.target, (d + e.weight, Some(node)));
      forall i | 0 <= i < |order| ensures order[i].1 != e.target {
        SettledMember(order, i);
      }
    }
  }

  lemma {:induction false} RelaxAllSettling(s: State, order: seq<Entry>, node: nat, d: real, edges: seq<Edge>)
    requires Settling(s, order) && (forall e :: e in edges ==> e.weight >= 0.0)
    requires node in s.dist && s.dist[node].0 == d && node in Settled(order)
    requires forall u :: u in Settled(order) ==> u in s.dist && s.dist[u].0 <= d
    ensures
      var s' := RelaxAll(s, node, d, edges);
      && Settling(s', order)
      && (forall u :: u in Settled(order) ==> u in s'.dist && s'.dist[u] == s.dist[u])
    decreases |edges|
  {
    hide Settled, Settling, Relax;
    if edges != [] {
      RelaxAllSettling(s, order, node, d, edges[..|edges| - 1]);
      RelaxEdge(RelaxAll(s, node, d, edges[..|edges| - 1]), order, node, d, edges[|edges| - 1]);
    }
  }

  lemma {:induction false} AfterSettling(adj: Adjacency, start: nat, k: nat)
    requires NonNegative(adj)
    ensures Settling(After(adj, start, k), Expansions(adj, start, k))
  {
    hide Settling, RelaxAll, Out, NonNegative;
    if k == 0 {
      StartSettling(adj, start);
    } else {
      AfterSettling(adj, start, k - 1);
      var s, order := After(adj, start, k - 1), Expansions(adj, start, k - 1);
      if s.heap == multiset{} {
        assert order + [] == order;
      } else {
        var x := Least(s.heap);
        if Stale(s.dist, x) {
          DiscardSettling(s, order, x);
          assert order + [] == order;
        } else {
          Settle(s, order, x);
          forall e | e in Out(adj, x.1) ensures e.weight >= 0.0 {
            EdgeNonNegative(adj, x.1, e);
          }
          SettledAppend(order, x);
          RelaxAllSettling(State(s.dist, s.heap - multiset{x}), order + [x], x.1, x.0, Out(adj, x.1));
        }
      }
    }
  }

  lemma StartSettling(adj: Adjacency, start: nat)
    ensures Settling(After(adj, start, 0), [])
  {
  }

  /** Without negative weights each vertex within reach is expanded once, in order
      of distance, from its final label. */
  lemma SettlesOnce(adj: Adjacency, start: nat, k: nat)
    requires NonNegative(adj)
    ensures NoNegativeCycle(adj, start)
    ensures InOrder(After(adj, start, k).dist, Expansions(adj, start, k))
    ensures After(adj, start, k).heap == multiset{} ==>
              forall v :: v in After(adj, start, k).dist ==>
                (After(adj, start, k).dist[v].0, v) in Expansions(adj, start, k)
  {
    hide After, Expansions, Ordered, NoNegativeCycle;
    NonNegativeCycles(adj, start);
    AfterSettling(adj, start, k);
    var s, order := After(adj, start, k), Expansions(adj, start, k);
    if s.heap == multiset{} {
      forall v | v in s.dist ensures (s.dist[v].0, v) in order {
        assert s.heap[(s.dist[v].0, v)] == 0;
        assert v in Settled(order);
        var i :| 0 <= i < |order| && order[i].1 == v;
        assert order[i] == (s.dist[v].0, v);
      }
    }
  }

  // --- the algorithms

  method Dijkstra(graph: Graph, start: nat) returns (distances: map<nat, Label>)
    requires NoNegativeCycle(graph.adjacency, start)
    ensures Distances(graph.adjacency, start, distances)
    ensures PredecessorTree(graph.adjacency, start, distances)
    ensures exists k :: After(graph.adjacency, start, k) == State(distances, multiset{})
  {
    hide NoNegativeCycle, Distances, PredecessorTree, RelaxAll, Relax, IsLeast, Step, After, Out, Stale, Shorter,
         Targets;
    ghost var adj := graph.adjacency;
    distances := map[start := (0.0, None)];
    var heap: multiset<Entry> := multiset{(0.0, start)};
    ghost var k := 0;
    ghost var n := EndsAt(adj, start);
    AfterNone(adj, start);
    while heap != multiset{}
      invariant After(adj, start, k) == State(distances, heap)
      invariant k <= n
      decreases n - k
    {
      ghost var s := After(adj, start, k);
      AfterNext(adj, start, k);
      k := k + 1;
      var x, rest := Pop(heap);
      StepIs(adj, s, x);
      var dist, node := x.0, x.1;
      heap := rest;
      if node in distances && dist > distances[node].0 {
        continue;
      }
      var neighbors := graph.Neighbors(node);
      ghost var popped := State(distances, rest);
      assert neighbors[..0] == [];
      RelaxNone(popped, node, dist);
      var i := 0;
      while i < |neighbors|
        invariant 0 <= i <= |neighbors|
        invariant distances == RelaxAll(popped, node, dist, neighbors[..i]).dist
        invariant heap == RelaxAll(popped, node, dist, neighbors[..i]).heap
      {
        var neighbor := neighbors[i].target;
        var newDist := dist + neighbors[i].weight;
        var isShorter := neighbor !in distances || newDist < distances[neighbor].0;
        RelaxNext(popped, node, dist, neighbors, i);
        if isShorter {
          distances := distances[neighbor := (newDist, Some(node))];
          heap := heap + multiset{(newDist, neighbor)};
        }
        i := i + 1;
      }
      assert neighbors[..i] == neighbors;
    }
    assert After(adj, start, k) == State(distances, multiset{});
    Finished(adj, start, k);
  }

  lemma AfterQueue(adj: Adjacency, start: nat, k: nat)
    ensures Queue(After(adj, start, k))
  {
    hide After, Labelled, Frontier, Queue;
    AfterSearch(adj, start, k);
  }

  lemma StepIs(adj: Adjacency, s: State, x: Entry)
    requires s.heap != multiset{} && IsLeast(s.heap, x)
    ensures
      var rest := State(s.dist, s.heap - multiset{x});
      Step(adj, s) ==
      if x.1 in s.dist && x.0 > s.dist[x.1].0 then rest else RelaxAll(rest, x.1, x.0, Out(adj, x.1))
  {
    hide RelaxAll, Out, IsLeast;
    LeastUnique(s.heap, x, Least(s.heap));
  }

  lemma AfterNext(adj: Adjacency, start: nat, k: nat)
    ensures After(adj, start, k + 1) == Step(adj, After(adj, start, k))
  {
    hide Step;
  }

  lemma AfterNone(adj: Adjacency, start: nat)
    ensures After(adj, start, 0) == State(map[start := (0.0, None)], multiset{(0.0, start)})
  {
  }

  lemma RelaxNone(s: State, node: nat, d: real)
    ensures RelaxAll(s, node, d, []) == s
  {
  }

  lemma RelaxNext(popped: State, node: nat, d: real, edges: seq<Edge>, i: nat)
    requires i < |edges|
    ensures
      var s, s', e := RelaxAll(popped, node, d, edges[..i]), RelaxAll(popped, node, d, edges[..i + 1]), edges[i];
      if e.target !in s.dist || d + e.weight < s.dist[e.target].0 then
        && s'.dist == s.dist[e.target := (d + e.weight, Some(node))]
        && s'.heap == s.heap + multiset{(d + e.weight, e.target)}
      else s' == s
  {
    assert edges[..i + 1][..i] == edges[..i] && edges[..i + 1][i] == edges[i];
  }

  lemma TreeLinks(adj: Adjacency, start: nat, dist: map<nat, Label>)
    requires PredecessorTree(adj, start, dist)
    ensures Links(adj, start, Scores(dist), Came(dist))
  {
    hide LinkPath, Out, Scores, Came, LinkedBy, Linked;
    var g, came := Scores(dist), Came(dist);
    ViewKeys(dist);
    forall v | v in dist
      ensures v in came <==> v != start
      ensures v != start ==> came[v] in dist && LinkedBy(adj, g, came[v], v, dist[v].0 - dist[came[v]].0)
    {
      LinkedView(adj, start, dist, v);
    }
    assert dist[start].0 == 0.0 by { LinkedStart(adj, start, dist); }
  }

  lemma LinkedStart(adj: Adjacency, start: nat, dist: map<nat, Label>)
    requires Linked(adj, start, dist, start)
    ensures dist[start].0 == 0.0
  {
  }

  lemma LinkedView(adj: Adjacency, start: nat, dist: map<nat, Label>, v: nat)
    requires Linked(adj, start, dist, v)
    ensures v in Came(dist) <==> v != start
    ensures v != start ==>
              Came(dist)[v] in dist
              && LinkedBy(adj, Scores(dist), Came(dist)[v], v, dist[v].0 - dist[Came(dist)[v]].0)
  {
    hide Out, Scores, Came;
    ViewKeys(dist);
  }

  /** A simple path of least cost, and its cost; `None` exactly when there is none. */
  method ShortestPath(graph: Graph, start: nat, goal: nat) returns (r: Option<(real, seq<nat>)>)
    requires NoNegativeCycle(graph.adjacency, start)
    ensures r.None? <==> !Reaches(graph.adjacency, start, goal)
    ensures r.Some? ==>
              && IsDistance(graph.adjacency, start, goal, r.value.0) && Distinct(r.value.1)
              && exists ws :: WalkBetween(graph.adjacency, start, goal, r.value.1, ws) && Cost(ws) == r.value.0
  {
    hide NoNegativeCycle, PredecessorTree, Links, LinkPath, Reaches, IsDistance, Walk, Cost, Out, Distinct, Scores,
         Came, After;
    ghost var adj := graph.adjacency;
    var result := Dijkstra(graph, start);
    assert goal in result <==> Reaches(adj, start, goal);
    if goal !in result {
      return None;
    }
    var dist := result[goal].0;
    ghost var p := PathOf(adj, start, result, goal);
    ghost var n := |p| - 1;
    var path := [goal];
    var node := goal;
    assert Reverse(path) == path;
    while node in result && result[node].1.Some?
      invariant 0 <= n < |p| && node == p[n] && path != [] && path[|path| - 1] == node
      invariant Reverse(path) == p[n..]
      decreases n
    {
      PathBack(adj, start, result, goal, p, n);
      node := result[node].1.value;
      ReverseAppend(path, node);
      path := path + [node];
      n := n - 1;
      assert p[n..] == [p[n]] + p[n + 1..];
      if node == start {
        break;
      }
    }
    PathBegins(adj, start, result, goal, p, n);
    if path[|path| - 1] != start {
      return None;
    }
    assert Reverse(path) == p;
    return Some((dist, Reverse(path)));
  }

  /** The way back from a key to `start` is a simple path as long as its label. */
  lemma PathOf(adj: Adjacency, start: nat, dist: map<nat, Label>, goal: nat) returns (p: seq<nat>)
    requires PredecessorTree(adj, start, dist) && goal in dist && IsDistance(adj, start, goal, dist[goal].0)
    ensures p != [] && p[|p| - 1] == goal && Distinct(p)
    ensures Links(adj, start, Scores(dist), Came(dist)) && LinkPath(start, Came(dist), goal, p)
    ensures exists ws :: WalkBetween(adj, start, goal, p, ws) && Cost(ws) == dist[goal].0
  {
    hide PredecessorTree, Links, Walk, Cost, Out, Distinct, Scores, Came, Attained;
    var g, came := Scores(dist), Came(dist);
    ViewKeys(dist);
    TreeLinks(adj, start, dist);
    p := PathTo(adj, start, g, came, goal);
    var ws := LinkWalk(adj, start, g, came, goal, p, 0);
    LinksStart(adj, start, g, came);
    LinkDistinct(adj, start, g, came, goal, p);
    assert p[0..] == p;
  }

  lemma PathBack(adj: Adjacency, start: nat, dist: map<nat, Label>, goal: nat, p: seq<nat>, n: nat)
    requires Links(adj, start, Scores(dist), Came(dist)) && LinkPath(start, Came(dist), goal, p) && n < |p|
    ensures p[n] in dist && (dist[p[n]].1.Some? <==> n > 0)
    ensures n > 0 ==> dist[p[n]].1.value == p[n - 1]
  {
    hide Links, LinkPath, Scores, Came;
    ViewKeys(dist);
    PathInScores(adj, start, Scores(dist), Came(dist), goal, p, n);
    LinkBefore(adj, start, Scores(dist), Came(dist), goal, p, n);
  }

  /** The chain of predecessors ends at `start` and nowhere else. */
  lemma PathBegins(adj: Adjacency, start: nat, dist: map<nat, Label>, goal: nat, p: seq<nat>, n: nat)
    requires Links(adj, start, Scores(dist), Came(dist)) && LinkPath(start, Came(dist), goal, p) && n < |p|
    requires p[n] == start || p[n] !in dist || dist[p[n]].1.None?
    ensures n == 0 && p[0] == start
  {
    hide LinkedBy;
    PathBack(adj, start, dist, goal, p, n);
    LinkBefore(adj, start, Scores(dist), Came(dist), goal, p, n);
  }
}
